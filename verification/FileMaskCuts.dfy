/** What can come back from a string of masks: file masks that are trimmed and end in no slash.
    Composing cuts the slashes off the end of a file mask, even where they belong to a size or
    time, and what is left may be read together with the next mask. */
module FileMaskCuts {
  import opened Basics
  import opened FileMasks
  import opened FileMaskProperties

  // ----- What parsing can give -----

  /** What the user can be shown as a file mask: trimmed, with a name that ends in no slash. */
  predicate IsFileMask(x: string) {
    IsTrim(x) && !HasSlashedName(x)
  }

  predicate AllFileMasks(xs: seq<string>) {
    forall i | 0 <= i < |xs| :: IsFileMask(xs[i])
  }

  predicate FilesAreShown(names: Names) {
    AllFileMasks(names[0]) && AllFileMasks(names[1])
  }

  lemma SlashedIsDirectory(r: Readers, s: string)
    requires HasSlashedName(s) && DraftOf(r, -1, s).Some?
    ensures DraftOf(r, -1, s).value.directory
  {
    DraftIsFirstWithBounds(r, -1, s);
    StripShortens(Trim(PieceOf(s, BoundaryDelimiters)));
  }

  lemma ExtendedIsShown(names: Names, k: nat, x: string)
    requires k < 4 && FilesAreShown(names) && (k < 2 ==> IsFileMask(x))
    ensures FilesAreShown(Extended(names, k, [x]))
  {
  }

  lemma AddKeepsShown(r: Readers, x: string, including: bool, l: Lists)
    requires (x == [] || IsTrim(x)) && FilesAreShown(NamesOf(l))
    ensures var next := AddMask(Drafter(r, -1), x, including, l); next.Some? ==> FilesAreShown(NamesOf(next.value))
  {
    if x != [] && DraftOf(r, -1, x).Some? {
      var d := DraftOf(r, -1, x).value;
      PushNames(l, d, including);
      if HasSlashedName(x) {
        SlashedIsDirectory(r, x);
      } else {
        DraftOfFile(r, x);
      }
      ExtendedIsShown(NamesOf(l), MaskIndex(d.directory, including), d.mask.userStr);
    }
  }

  /** What adding trimmed masks keeps, parsing keeps. */
  lemma {:induction false} ParseKeeps<T(!new)>(add: (string, bool, T) -> Option<T>, inv: T -> bool, s: string,
                                               including: bool, l: T)
    requires inv(l)
    requires forall x, inc, t ::
               (x == [] || IsTrim(x)) && inv(t) && add(x, inc, t).Some? ==> inv(add(x, inc, t).value)
    ensures ParseFrom(add, s, including, l).Some? ==> inv(ParseFrom(add, s, including, l).value)
    decreases |s|
  {
    if s != [] {
      var end, p := PieceEnd(s, MaskDelimiters), PieceOf(s, MaskDelimiters);
      TrimIsTrim(p);
      var next := add(Trim(p), including, l);
      if next.Some? && end < |s| {
        ParseStep(add, s, end, Trim(p), including, l);
        ParseKeeps(add, inv, s[end + 1..], including && s[end] != EXCLUDE, next.value);
      }
    }
  }

  /** Whatever is parsed, each file mask shown is trimmed and its name ends in no slash. */
  lemma ParsedFilesAreShown(r: Readers, s: string)
    requires Parse(r, -1, s).Some?
    ensures FilesAreShown(NamesOf(Parse(r, -1, s).value))
  {
    var add, inv := Adder(Drafter(r, -1)), (l: Lists) => FilesAreShown(NamesOf(l));
    forall x, inc, l | (x == [] || IsTrim(x)) && inv(l) && add(x, inc, l).Some?
      ensures inv(add(x, inc, l).value)
    {
      AddKeepsShown(r, x, inc, l);
    }
    ParseKeeps(add, inv, s, true, NO_MASKS);
  }

  /** A list, and the same with more masks behind it. */
  predicate Extends(m: Lists, l: Lists, i: nat)
    requires i < 4
  {
    |l[i]| <= |m[i]| && m[i][..|l[i]|] == l[i]
  }

  lemma PushExtends(l: Lists, d: Draft, including: bool, i: nat)
    requires i < 4
    ensures Extends(Push(l, d, including), l, i)
    ensures i % 2 != MaskIndex(false, including) ==> Push(l, d, including)[i] == l[i]
  {
    var j := MaskIndex(d.directory, including);
    if i == j {
      assert (l[j] + [d.mask])[..|l[j]|] == l[j];
    } else {
      assert l[i][..|l[i]|] == l[i];
    }
  }

  lemma AddExtends(draft: Drafting, x: string, including: bool, l: Lists, i: nat)
    requires i < 4 && AddMask(draft, x, including, l).Some?
    ensures var next := AddMask(draft, x, including, l).value;
            Extends(next, l, i) && (i % 2 != MaskIndex(false, including) ==> next[i] == l[i])
  {
    if x == [] {
      assert l[i][..|l[i]|] == l[i];
    } else {
      PushExtends(l, draft(x).value, including, i);
    }
  }

  lemma ExtendsOn(m: Lists, next: Lists, l: Lists, i: nat)
    requires i < 4 && Extends(next, l, i) && Extends(m, next, i)
    ensures Extends(m, l, i)
  {
    assert m[i][..|l[i]|] == m[i][..|next[i]|][..|l[i]|];
  }

  /** Parsing only adds to the lists, and behind the exclusion delimiter not to included ones. */
  lemma {:induction false} ParseExtends(draft: Drafting, s: string, including: bool, l: Lists, m: Lists, i: nat)
    requires i < 4 && ParseFrom(Adder(draft), s, including, l) == Some(m)
    ensures Extends(m, l, i) && (!including && i % 2 == 0 ==> m[i] == l[i])
    decreases |s|
  {
    if s != [] {
      var end, x := PieceEnd(s, MaskDelimiters), Trim(PieceOf(s, MaskDelimiters));
      var next := AddMask(draft, x, including, l).value;
      AddExtends(draft, x, including, l, i);
      if end < |s| {
        ParseStep(Adder(draft), s, end, x, including, l);
        ParseExtends(draft, s[end + 1..], including && s[end] != EXCLUDE, next, m, i);
        ExtendsOn(m, next, l, i);
      }
    }
  }

  // ----- Counting masks -----

  /** How many masks there can be up to the exclusion delimiter. */
  function Turns(s: string): (n: nat)
    decreases |s|
  {
    if s == [] then 0
    else
      var end := PieceEnd(s, MaskDelimiters);
      if end == |s| || s[end] == EXCLUDE then 1 else 1 + Turns(s[end + 1..])
  }

  /** The lists of files and directories together grow by no more than that. */
  lemma {:induction false} GrowsByTurns(draft: Drafting, s: string, including: bool, l: Lists, m: Lists)
    requires ParseFrom(Adder(draft), s, including, l) == Some(m)
    ensures var k := MaskIndex(false, including); |m[k]| + |m[k + 2]| <= |l[k]| + |l[k + 2]| + Turns(s)
    decreases |s|
  {
    if s != [] {
      var end, x := PieceEnd(s, MaskDelimiters), Trim(PieceOf(s, MaskDelimiters));
      var next := AddMask(draft, x, including, l).value;
      if end < |s| {
        if s[end] == EXCLUDE {
          ParseExtends(draft, s[end + 1..], false, next, m, 0);
          ParseExtends(draft, s[end + 1..], false, next, m, 2);
        } else {
          GrowsByTurns(draft, s[end + 1..], including, next, m);
        }
      }
    }
  }

  /** The end of the string, or the exclusion delimiter. */
  predicate IsTail(tail: string) {
    tail == [] || (|tail| >= 3 && tail[0] == ' ' && tail[1] == EXCLUDE && !IsDelimiter(tail[2]))
  }

  lemma TurnsOfFirst(lead: string, xs: seq<string>, tail: string)
    requires IsPad(lead) && AllTrim(xs) && |xs| >= 2
    ensures Turns(lead + Joined(xs) + tail) == 1 + Turns(" " + Joined(xs[1..]) + tail)
  {
    JoinedStep(lead, xs, tail);
    PaddedAhead(lead, xs[0], "", ';', " " + Joined(xs[1..]) + tail);
  }

  lemma TurnsOfLast(lead: string, x: string, tail: string)
    requires IsPad(lead) && IsTrim(x) && IsTail(tail)
    ensures Turns(lead + Doubled(x) + tail) == 1
  {
    if tail == [] {
      PaddedPiece(lead, x, "", []);
      DoubledEnds(x);
      assert lead + Doubled(x) + "" + [] == lead + Doubled(x) + tail;
    } else {
      PaddedAhead(lead, x, " ", EXCLUDE, tail[2..]);
      assert tail == " " + ([EXCLUDE] + tail[2..]);
      Associate(lead + Doubled(x), " ", [EXCLUDE] + tail[2..]);
    }
  }

  lemma {:induction false} TurnsOfJoined(lead: string, xs: seq<string>, tail: string)
    requires IsPad(lead) && AllTrim(xs) && xs != [] && IsTail(tail)
    ensures Turns(lead + Joined(xs) + tail) == |xs|
    decreases |xs|
  {
    if |xs| == 1 {
      TurnsOfLast(lead, xs[0], tail);
    } else {
      TurnsOfFirst(lead, xs, tail);
      TurnsOfJoined(" ", xs[1..], tail);
    }
  }

  // ----- Where pieces end -----

  /** A piece that runs to the end of the string ends as the string does. */
  lemma {:induction false} PieceAtEnd(s: string, ds: Delimiters)
    requires s != [] && !In(s[|s| - 1], ds) && PieceEnd(s, ds) == |s|
    ensures PieceOf(s, ds) != [] && PieceOf(s, ds)[|PieceOf(s, ds)| - 1] == s[|s| - 1]
  {
    if |s| > 1 {
      if In(s[0], ds) {
        PieceAtEnd(s[2..], ds);
      } else {
        PieceAtEnd(s[1..], ds);
      }
    }
  }

  /** A piece depends on nothing behind its end. */
  lemma {:induction false} PieceIsLocal(s: string, t: string, e: nat, ds: Delimiters)
    requires e == PieceEnd(s, ds) < |s| && e < |t| && s[..e + 1] == t[..e + 1]
    requires e + 1 < |t| ==> !In(t[e + 1], ds)
    ensures PieceEnd(t, ds) == e && PieceOf(t, ds) == PieceOf(s, ds)
    decreases |s|
  {
    PieceStops(s, ds);
    assert t[0] == t[..e + 1][0] && t[e] == t[..e + 1][e];
    if !In(s[0], ds) {
      assert s[1..][..e] == s[..e + 1][1..] && t[1..][..e] == t[..e + 1][1..];
      PieceIsLocal(s[1..], t[1..], e - 1, ds);
    } else if |s| > 1 && In(s[1], ds) {
      assert t[1] == t[..e + 1][1];
      assert s[2..][..e - 1] == s[..e + 1][2..] && t[2..][..e - 1] == t[..e + 1][2..];
      PieceIsLocal(s[2..], t[2..], e - 2, ds);
    }
  }

  // ----- A file mask that ends in a slash -----

  lemma {:induction false} StripKeeps(s: string, e: nat)
    requires e < |s| && !IsSlash(s[e])
    ensures e < |StripSlashes(s)|
  {
    if IsSlash(s[|s| - 1]) {
      StripKeeps(s[..|s| - 1], e);
    }
  }

  lemma {:induction false} StripDropsSlashes(s: string)
    ensures forall i | |StripSlashes(s)| <= i < |s| :: IsSlash(s[i])
  {
    if s != [] && IsSlash(s[|s| - 1]) {
      StripDropsSlashes(s[..|s| - 1]);
    }
  }

  /** A file mask with a slash at its end, which can only be that of a size or time. */
  predicate IsCutFile(x: string) {
    IsFileMask(x) && IsSlash(x[|x| - 1])
  }

  lemma NameEndsBefore(x: string)
    requires IsCutFile(x)
    ensures PieceEnd(x, BoundaryDelimiters) < |x|
  {
    if PieceEnd(x, BoundaryDelimiters) == |x| {
      SlashedWhole(x);
      assert false;
    }
  }

  lemma SlashedWhole(x: string)
    requires x != [] && IsSlash(x[|x| - 1]) && PieceEnd(x, BoundaryDelimiters) == |x|
    ensures HasSlashedName(x)
  {
    WholeName(x);
  }

  lemma WholeName(x: string)
    requires x != [] && !IsBoundary(x[|x| - 1]) && !IsBlank(x[|x| - 1]) && PieceEnd(x, BoundaryDelimiters) == |x|
    ensures var name := Trim(PieceOf(x, BoundaryDelimiters)); name != [] && name[|name| - 1] == x[|x| - 1]
  {
    PieceAtEnd(x, BoundaryDelimiters);
    TrimKeepsLast(PieceOf(x, BoundaryDelimiters));
  }

  lemma BoundaryInside(x: string)
    requires IsCutFile(x)
    ensures var e := PieceEnd(x, BoundaryDelimiters);
            e < |StripSlashes(x)| && e + 1 < |x| && IsBoundary(x[e]) && !IsBoundary(x[e + 1])
  {
    NameEndsBefore(x);
    PieceStops(x, BoundaryDelimiters);
    StripKeeps(x, PieceEnd(x, BoundaryDelimiters));
  }

  lemma TrimKeepsLast(s: string)
    requires s != [] && !IsBlank(s[|s| - 1])
    ensures Trim(s) != [] && Trim(s)[|Trim(s)| - 1] == s[|s| - 1]
  {
    TrimLeftKeepsLast(s);
  }

  lemma {:induction false} TrimLeftKeepsLast(s: string)
    requires s != [] && !IsBlank(s[|s| - 1])
    ensures TrimLeft(s) != [] && TrimLeft(s)[|TrimLeft(s)| - 1] == s[|s| - 1]
  {
    if IsBlank(s[0]) {
      TrimLeftKeepsLast(s[1..]);
    }
  }

  lemma {:induction false} TrimRightKeeps(s: string, p: nat)
    requires p < |s| && !IsBlank(s[p])
    ensures p < |TrimRight(s)|
  {
    if IsBlank(s[|s| - 1]) {
      TrimRightKeeps(s[..|s| - 1], p);
    }
  }

  /** From a string that starts with no blank, trimming takes only blanks at the end. */
  lemma TrimOfStart(s: string)
    requires s != [] && !IsBlank(s[0])
    ensures Trim(s) == s[..|Trim(s)|] && IsTrim(Trim(s))
    ensures forall p | 0 <= p < |s| && !IsBlank(s[p]) :: p < |Trim(s)|
  {
    TrimLeftPad(s);
    TrimRightOf(s);
    TrimIsTrim(s);
    forall p | 0 <= p < |s| && !IsBlank(s[p]) ensures p < |Trim(s)| {
      TrimRightKeeps(s, p);
    }
    TrimRightKeeps(s, 0);
  }

  /** Trimming keeps everything up to a character that is no blank. */
  lemma TrimmedPrefix(z: string, w: string, e: nat)
    requires e < |z| && !IsBlank(z[0]) && !IsBlank(z[e])
    ensures var y := Trim(z + w);
            && IsTrim(y) && e < |y| && y[..e + 1] == z[..e + 1]
            && (e + 1 < |y| ==> y[e + 1] == if e + 1 < |z| then z[e + 1] else w[0])
  {
    assert (z + w)[0] == z[0] && (z + w)[e] == z[e];
    TrimOfStart(z + w);
  }

  predicate EndsInBlank(s: string) {
    s != [] && IsBlank(s[|s| - 1])
  }

  /** Without its slash, and with what may be read along with it, such a mask is a file mask
      still. */
  lemma IsStillFile(x: string, w: string)
    requires IsCutFile(x) && (IsPad(w) || EndsInBlank(StripSlashes(x)))
    ensures IsFileMask(Trim(StripSlashes(x) + w))
  {
    BoundaryInside(x);
    StripOf(x);
    var e, z := PieceEnd(x, BoundaryDelimiters), StripSlashes(x);
    var y := Trim(z + w);
    TrimmedPrefix(z, w, e);
    assert x[e + 1..|z|] == z[e + 1..] && forall j | 0 <= j <= e :: x[j] == z[j];
    PieceIsLocal(x, y, e, BoundaryDelimiters);
  }

  /** With nothing more it is shorter than it was. */
  lemma CutIsShorter(x: string, w: string)
    requires IsCutFile(x) && IsPad(w)
    ensures |Trim(StripSlashes(x) + w)| < |x|
  {
    var z := StripSlashes(x);
    BoundaryInside(x);
    StripShortens(x);
    StripOf(x);
    assert (z + w)[0] == x[0];
    TrimOfStart(z + w);
    if w == " " && |Trim(z + w)| == |z + w| {
      assert Trim(z + w)[|z|] == ' ';
    }
  }

  /** A character that is neither a slash nor a blank. */
  predicate HasSolid(s: string) {
    exists p :: 0 <= p < |s| && !IsSlash(s[p]) && !IsBlank(s[p])
  }

  /** With any more than slashes and blanks it is another mask. */
  lemma CutIsOther(x: string, w: string)
    requires IsCutFile(x) && HasSolid(w)
    ensures Trim(StripSlashes(x) + w) != x
  {
    var z := StripSlashes(x);
    BoundaryInside(x);
    StripOf(x);
    StripDropsSlashes(x);
    var p :| 0 <= p < |w| && !IsSlash(w[p]) && !IsBlank(w[p]);
    assert (z + w)[0] == x[0] && (z + w)[|z| + p] == w[p];
    TrimOfStart(z + w);
    assert Trim(z + w)[|z| + p] == w[p];
  }

  // ----- The text of a list with such a mask -----

  /** Everything up to the first such mask, whose slashes are gone. */
  function Head(pre: seq<string>, z: string): string {
    if pre == [] then Doubled(z) else Joined(pre) + (SEPARATOR + Doubled(z))
  }

  lemma {:induction false} StripDoubled(s: string)
    ensures StripSlashes(Doubled(s)) == Doubled(StripSlashes(s))
  {
    if s != [] {
      var init, last := s[..|s| - 1], s[|s| - 1];
      assert s == init + [last];
      DoubledConcat(init, [last]);
      if IsSlash(last) {
        assert Doubled([last]) == [last];
        StripOneMore(Doubled(init), last);
        StripDoubled(init);
      } else {
        DoubledEnds(s);
      }
    }
  }

  lemma FileMaskText(x: string)
    requires IsFileMask(x)
    ensures MaskText(x, false) == Doubled(StripSlashes(x)) && MaskText(x, false) != []
    ensures StripSlashes(x) != [] && HasSolid(StripSlashes(x)) && StripSlashes(x)[0] == x[0]
  {
    TrimIsTrim(x);
    StripDoubled(x);
    StripOf(x);
    DoubledEnds(x);
    if IsCutFile(x) {
      BoundaryInside(x);
      assert StripSlashes(x)[PieceEnd(x, BoundaryDelimiters)] == x[PieceEnd(x, BoundaryDelimiters)];
    } else {
      assert StripSlashes(x)[|x| - 1] == x[|x| - 1];
    }
    DoubledEnds(StripSlashes(x));
  }

  /** What follows the mask: a delimiter by itself, or, since the mask now ends like a separator,
      the next text right away, of which v is a part. */
  predicate Follows(z: string, rest: string, v: string) {
    if EndsInBlank(z) && HasSolid(v) then |Doubled(v)| <= |rest| && rest[..|Doubled(v)|] == Doubled(v)
    else |rest| >= 2 && IsDelimiter(rest[0]) && !IsDelimiter(rest[1])
  }

  lemma FollowsStill(z: string, rest: string, v: string, more: string)
    requires Follows(z, rest, v)
    ensures Follows(z, rest + more, v)
  {
    assert |Doubled(v)| <= |rest| ==> (rest + more)[..|Doubled(v)|] == rest[..|Doubled(v)|];
  }

  lemma HeadEnds(pre: seq<string>, z: string)
    requires z != []
    ensures Head(pre, z) != [] && Head(pre, z)[|Head(pre, z)| - 1] == z[|z| - 1]
    ensures EndsInSeparator(Head(pre, z)) ==> EndsInBlank(z)
  {
    DoubledEnds(z);
    var h := Head(pre, z);
    assert |h| >= 2 ==> h[|h| - 2..][1] == h[|h| - 1];
  }

  /** The text of a list of file masks: the masks without slashes at the end, joined. */
  function FilesText(fs: seq<string>): string {
    if fs == [] then []
    else AddToList(FilesText(fs[..|fs| - 1]), Doubled(StripSlashes(fs[|fs| - 1])))
  }

  lemma {:induction false} FilesTextIs(fs: seq<string>)
    requires AllFileMasks(fs)
    ensures JoinTexts(TextsOf(fs, false)) == FilesText(fs)
  {
    if fs != [] {
      FilesTextIs(fs[..|fs| - 1]);
      FileTextStep(fs);
      FileMaskText(fs[|fs| - 1]);
    }
  }

  lemma FilesTextSnoc(init: seq<string>, last: string)
    ensures FilesText(init + [last]) == AddToList(FilesText(init), Doubled(StripSlashes(last)))
  {
    assert (init + [last])[..|init|] == init;
  }

  lemma FilesTextOfGood(pre: seq<string>)
    requires AllGood(pre) && AllFileMasks(pre)
    ensures FilesText(pre) == Joined(pre) && (pre != [] ==> Joined(pre) != [] && !EndsInSeparator(Joined(pre)))
  {
    FilesTextIs(pre);
    FileText(pre);
    if pre != [] {
      JoinedEnds(pre);
    }
  }

  lemma TextOfHead(pre: seq<string>, x: string)
    requires AllGood(pre) && AllFileMasks(pre) && IsFileMask(x)
    ensures FilesText(pre + [x]) == Head(pre, StripSlashes(x))
  {
    FilesTextSnoc(pre, x);
    FilesTextOfGood(pre);
    FileMaskText(x);
    Associate(Joined(pre), SEPARATOR, Doubled(StripSlashes(x)));
  }

  lemma AddMore(h: string, rest: string, text: string) returns (more: string)
    requires rest != []
    ensures AddToList(h + rest, text) == h + (rest + more)
  {
    if text == [] {
      more := [];
      AddNothing(rest);
    } else if EndsInSeparator(h + rest) {
      more := text;
      Associate(h, rest, text);
    } else {
      more := SEPARATOR + text;
      Associate(h, rest, SEPARATOR + text);
      Associate(h + rest, SEPARATOR, text);
    }
  }

  /** One more text, which starts with v doubled, behind the mask and what follows it. */
  lemma MoreBehind(h: string, z: string, rest0: string, v0: string, v: string, text: string)
    returns (rest: string, w: string)
    requires h != [] && (EndsInSeparator(h) ==> EndsInBlank(z)) && (rest0 == [] || Follows(z, rest0, v0))
    requires v != [] && Doubled(v) <= text
    ensures AddToList(h + rest0, text) == h + rest
    ensures Follows(z, rest, w) || (EndsInBlank(z) && !HasSolid(v) && rest == text)
  {
    DoubledEnds(v);
    if rest0 != [] {
      var more := AddMore(h, rest0, text);
      FollowsStill(z, rest0, v0, more);
      rest, w := rest0 + more, v0;
    } else if EndsInSeparator(h) {
      AddNothing(h);
      rest, w := text, v;
      assert text[..|Doubled(v)|] == Doubled(v);
    } else {
      AddNothing(h);
      rest, w := SEPARATOR + text, [];
      Associate(h, SEPARATOR, text);
    }
  }

  lemma InitOfConcat(a: seq<string>, b: seq<string>)
    requires b != []
    ensures a + b == (a + b[..|b| - 1]) + [b[|b| - 1]]
  {
  }

  /** The text of a list of file masks, seen from one of them. */
  lemma {:induction false} TextAround(pre: seq<string>, x: string, post: seq<string>)
    returns (rest: string, v: string)
    requires AllGood(pre) && AllFileMasks(pre) && IsFileMask(x) && AllFileMasks(post)
    ensures FilesText(pre + [x] + post) == Head(pre, StripSlashes(x)) + rest
    ensures if post == [] then rest == [] else Follows(StripSlashes(x), rest, v)
    decreases |post|
  {
    var h, z := Head(pre, StripSlashes(x)), StripSlashes(x);
    if post == [] {
      rest, v := [], [];
      AddNothing(pre + [x]);
      TextOfHead(pre, x);
      AddNothing(h);
    } else {
      var init, last := post[..|post| - 1], post[|post| - 1];
      rest, v := TextAround(pre, x, init);
      InitOfConcat(pre + [x], post);
      FilesTextSnoc(pre + [x] + init, last);
      FileMaskText(x);
      FileMaskText(last);
      HeadEnds(pre, z);
      rest, v := MoreBehind(h, z, rest, v, StripSlashes(last), Doubled(StripSlashes(last)));
    }
  }

  lemma SplitOut(fs: seq<string>, i: nat)
    requires i < |fs|
    ensures fs == fs[..i] + [fs[i]] + fs[i + 1..]
  {
  }

  /** And with the text of the directory masks behind it. */
  lemma TextAroundAll(fs: seq<string>, i: nat, ds: seq<string>) returns (rest: string, v: string)
    requires AllFileMasks(fs) && i < |fs| && AllGood(fs[..i]) && AllTrim(ds)
    ensures AddToList(FilesText(fs), Joined(ds)) == Head(fs[..i], StripSlashes(fs[i])) + rest
    ensures || rest == []
            || Follows(StripSlashes(fs[i]), rest, v)
            || (ds != [] && EndsInBlank(StripSlashes(fs[i])) && rest == Joined(ds))
  {
    SplitOut(fs, i);
    rest, v := TextAround(fs[..i], fs[i], fs[i + 1..]);
    if ds != [] {
      FileMaskText(fs[i]);
      HeadEnds(fs[..i], StripSlashes(fs[i]));
      JoinedStarts(ds);
      rest, v := MoreBehind(Head(fs[..i], StripSlashes(fs[i])), StripSlashes(fs[i]), rest, v, ds[0], Joined(ds));
    }
  }

  lemma JoinedStarts(xs: seq<string>)
    requires xs != []
    ensures Doubled(xs[0]) <= Joined(xs)
  {
  }

  // ----- What it is read as -----

  lemma {:induction false} ParseSeparated<T>(add: (string, bool, T) -> Option<T>, lead: string, xs: seq<string>,
                                             q: string, including: bool, l: T)
    requires IsPad(lead) && AllTrim(xs) && xs != []
    ensures var a := AddAll(add, xs, including, l);
            ParseFrom(add, lead + Joined(xs) + ([';'] + (" " + q)), including, l)
            == if a.None? then None else ParseFrom(add, " " + q, including, a.value)
    decreases |xs|
  {
    var next := add(xs[0], including, l);
    if |xs| == 1 {
      AddNothing(lead + Doubled(xs[0]));
      ParsePadded(add, lead, xs[0], "", ';', " " + q, including, l);
    } else {
      ParseFirst(add, lead, xs, [';'] + (" " + q), including, l);
      if next.Some? {
        ParseSeparated(add, " ", xs[1..], q, including, next.value);
      }
    }
  }

  /** File masks that are accepted are taken as files and shown as they are. */
  ghost predicate ShowsFiles(draft: Drafting) {
    forall x {:trigger IsFileMask(x)} | IsFileMask(x) && draft(x).Some? ::
      draft(x).value.mask.userStr == x && !draft(x).value.directory
  }

  lemma DrafterShowsFiles(r: Readers)
    ensures ShowsFiles(Drafter(r, -1))
  {
    forall x | IsFileMask(x) && Drafter(r, -1)(x).Some?
      ensures var d := Drafter(r, -1)(x).value; d.mask.userStr == x && !d.directory
    {
      DraftOfFile(r, x);
    }
  }

  lemma {:induction false} AddAllFiles(draft: Drafting, xs: seq<string>, including: bool, l: Lists,
                                       m: Lists)
    requires ShowsFiles(draft) && AllFileMasks(xs) && AddAll(Adder(draft), xs, including, l) == Some(m)
    ensures var k := MaskIndex(false, including); |m[k]| == |l[k]| + |xs| && m[k + 2] == l[k + 2]
    decreases |xs|
  {
    if xs != [] {
      assert IsFileMask(xs[0]);
      var next := AddMask(draft, xs[0], including, l).value;
      AddAllFiles(draft, xs[1..], including, next, m);
    }
  }

  /** The masks in front of it are read as they are. */
  lemma ParseToHead(draft: Drafting, pre: seq<string>, z: string, lead: string, q: string,
                    including: bool, l: Lists, m: Lists)
    returns (pad: string, a: Lists)
    requires ShowsFiles(draft) && AllFilesFit(pre) && IsPad(lead)
    requires ParseFrom(Adder(draft), lead + (Head(pre, z) + q), including, l) == Some(m)
    ensures IsPad(pad) && ParseFrom(Adder(draft), pad + (Doubled(z) + q), including, a) == Some(m)
    ensures var k := MaskIndex(false, including); |a[k]| == |l[k]| + |pre| && a[k + 2] == l[k + 2]
  {
    if pre == [] {
      pad, a := lead, l;
    } else {
      RegroupHead(lead, Joined(pre), Doubled(z), q);
      ParseSeparated(Adder(draft), lead, pre, Doubled(z) + q, including, l);
      pad, a := " ", AddAll(Adder(draft), pre, including, l).value;
      AddAllFiles(draft, pre, including, l, a);
    }
  }

  lemma RegroupHead(lead: string, j: string, d: string, q: string)
    ensures lead + ((j + (SEPARATOR + d)) + q) == lead + j + ([';'] + (" " + (d + q)))
  {
    SeparatorParts();
    Associate(j, SEPARATOR + d, q);
    Associate(SEPARATOR, d, q);
    Associate([';'], " ", d + q);
    Associate(lead, j, SEPARATOR + (d + q));
  }

  lemma PadIsNothing(pad: string, s: string)
    requires IsPad(pad) && s != [] && !IsBlank(s[0])
    ensures Trim(pad + s) == Trim(s)
  {
    TrimLeftPad(s);
    AddNothing(s);
  }

  lemma RawPiece(pad: string, z: string, q: string)
    requires IsPad(pad) && z != [] && !IsBlank(z[0])
    ensures var s := pad + (Doubled(z) + q);
            s != [] && Trim(PieceOf(s, MaskDelimiters)) == Trim(z + PieceOf(q, MaskDelimiters))
    ensures Trim(z + PieceOf(q, MaskDelimiters)) != []
  {
    DoubledPlain(pad);
    DoubledConcat(pad, z);
    Associate(pad, Doubled(z), q);
    PieceOfDoubled(pad + z, q);
    Associate(pad, z, PieceOf(q, MaskDelimiters));
    PadIsNothing(pad, z + PieceOf(q, MaskDelimiters));
    TrimOfStart(z + PieceOf(q, MaskDelimiters));
    DoubledEnds(z);
  }

  /** The first mask read of a string, if there is one, is where the list of its kind went on. */
  lemma FirstIsAdded(draft: Drafting, s: string, y: string, including: bool, a: Lists, m: Lists) returns (d: Draft)
    requires s != [] && Trim(PieceOf(s, MaskDelimiters)) == y && y != []
    requires ParseFrom(Adder(draft), s, including, a) == Some(m)
    ensures draft(y) == Some(d) && Extends(m, Push(a, d, including), MaskIndex(false, including))
  {
    var end, k := PieceEnd(s, MaskDelimiters), MaskIndex(false, including);
    d := draft(y).value;
    var next := Push(a, d, including);
    if end < |s| {
      ParseStep(Adder(draft), s, end, y, including, a);
      ParseExtends(draft, s[end + 1..], including && s[end] != EXCLUDE, next, m, k);
    }
  }

  /** The piece that starts with z is the next mask. */
  lemma RawIsAdded(draft: Drafting, pad: string, z: string, q: string, including: bool, a: Lists, m: Lists)
    returns (d: Draft)
    requires IsPad(pad) && z != [] && !IsBlank(z[0])
    requires ParseFrom(Adder(draft), pad + (Doubled(z) + q), including, a) == Some(m)
    ensures draft(Trim(z + PieceOf(q, MaskDelimiters))) == Some(d)
    ensures Extends(m, Push(a, d, including), MaskIndex(false, including))
  {
    RawPiece(pad, z, q);
    d := FirstIsAdded(draft, pad + (Doubled(z) + q), Trim(z + PieceOf(q, MaskDelimiters)), including, a, m);
  }

  lemma {:induction false} UserStrsAt(masks: seq<Mask>, j: nat)
    requires j < |masks|
    ensures UserStrs(masks)[j] == masks[j].userStr
  {
    if j + 1 < |masks| {
      UserStrsAt(masks[..|masks| - 1], j);
    }
  }

  /** What is read of what follows. */
  lemma PieceFollowing(z: string, rest: string, v: string, tail: string)
    requires (rest == [] || Follows(z, rest, v)) && IsTail(tail)
    ensures var w := PieceOf(rest + tail, MaskDelimiters); IsPad(w) || (EndsInBlank(z) && HasSolid(w))
  {
    if rest == [] {
      AddNothing(tail);
      if tail != [] {
        assert PieceOf(tail[1..], MaskDelimiters) == [];
      }
    } else if EndsInBlank(z) && HasSolid(v) {
      FollowsStill(z, rest, v, tail);
      var q := rest + tail;
      assert q == Doubled(v) + q[|Doubled(v)|..];
      PieceOfDoubled(v, q[|Doubled(v)|..]);
      var p :| 0 <= p < |v| && !IsSlash(v[p]) && !IsBlank(v[p]);
      assert PieceOf(q, MaskDelimiters)[p] == v[p];
    }
  }

  /** Where the mask was, another one is read. */
  lemma CutIsLost(draft: Drafting, fs: seq<string>, i: nat, lead: string, q: string, including: bool,
                  l: Lists, m: Lists)
    requires ShowsFiles(draft) && i < |fs| && AllFilesFit(fs[..i]) && IsCutFile(fs[i]) && IsPad(lead)
    requires ParseFrom(Adder(draft), lead + (Head(fs[..i], StripSlashes(fs[i])) + q), including, l) == Some(m)
    requires var w := PieceOf(q, MaskDelimiters); IsPad(w) || (EndsInBlank(StripSlashes(fs[i])) && HasSolid(w))
    requires |l[MaskIndex(false, including)]| == 0
    ensures UserStrs(m[MaskIndex(false, including)]) != fs
  {
    var x, z, w, k := fs[i], StripSlashes(fs[i]), PieceOf(q, MaskDelimiters), MaskIndex(false, including);
    FileMaskText(x);
    var pad, a := ParseToHead(draft, fs[..i], z, lead, q, including, l, m);
    var d := RawIsAdded(draft, pad, z, q, including, a, m);
    IsStillFile(x, w);
    if IsPad(w) {
      CutIsShorter(x, w);
    } else {
      CutIsOther(x, w);
    }
    assert Push(a, d, including)[k][i] == d.mask;
    assert m[k][..i + 1][i] == m[k][i];
    UserStrsAt(m[k], i);
  }

  /** Two masks that are read as one make the lists shorter. */
  lemma MergeIsLost(draft: Drafting, pre: seq<string>, z: string, ds: seq<string>, lead: string,
                    tail: string, including: bool, l: Lists, m: Lists)
    requires ShowsFiles(draft) && AllFilesFit(pre) && IsPad(lead) && AllTrim(ds) && ds != [] && IsTail(tail)
    requires ParseFrom(Adder(draft), lead + (Head(pre, z) + (Joined(ds) + tail)), including, l) == Some(m)
    ensures var k := MaskIndex(false, including); |m[k]| + |m[k + 2]| <= |l[k]| + |l[k + 2]| + |pre| + |ds|
  {
    var pad, a := ParseToHead(draft, pre, z, lead, Joined(ds) + tail, including, l, m);
    MergedCount(draft, pad, z, ds, tail, including, a, m);
  }

  lemma MergedCount(draft: Drafting, pad: string, z: string, ds: seq<string>, tail: string, including: bool, a: Lists,
                    m: Lists)
    requires IsPad(pad) && AllTrim(ds) && ds != [] && IsTail(tail)
    requires ParseFrom(Adder(draft), pad + (Doubled(z) + (Joined(ds) + tail)), including, a) == Some(m)
    ensures var k := MaskIndex(false, including); |m[k]| + |m[k + 2]| <= |a[k]| + |a[k + 2]| + |ds|
  {
    JoinedEnds(ds);
    GrowsByTurns(draft, pad + (Doubled(z) + (Joined(ds) + tail)), including, a, m);
    TurnsAbsorb(pad, z, Joined(ds) + tail);
    TurnsOfJoined("", ds, tail);
    AddNothing(Joined(ds));
  }

  lemma TurnsAbsorb(pad: string, z: string, q: string)
    requires IsPad(pad) && q != []
    ensures Turns(pad + (Doubled(z) + q)) == Turns(q)
  {
    DoubledPlain(pad);
    DoubledConcat(pad, z);
    Associate(pad, Doubled(z), q);
    PieceOfDoubled(pad + z, q);
    TurnsBehind(Doubled(pad + z), q);
  }

  lemma TurnsBehind(p: string, q: string)
    requires q != [] && PieceEnd(p + q, MaskDelimiters) == |p| + PieceEnd(q, MaskDelimiters)
    ensures Turns(p + q) == Turns(q)
  {
    var n := PieceEnd(q, MaskDelimiters);
    if n < |q| {
      assert (p + q)[|p| + n + 1..] == q[n + 1..] && (p + q)[|p| + n] == q[n];
    }
  }

  /** With such a mask in it, a list of files does not come back, or fewer directories do. */
  lemma CutDoesNotComeBack(draft: Drafting, fs: seq<string>, i: nat, ds: seq<string>, lead: string, tail: string,
                           including: bool, l: Lists, m: Lists)
    requires AllFileMasks(fs) && i < |fs| && AllFilesFit(fs[..i]) && IsCutFile(fs[i])
    requires ShowsFiles(draft) && AllTrim(ds) && IsPad(lead) && IsTail(tail)
    requires var s := AddToList(FilesText(fs), Joined(ds));
             ParseFrom(Adder(draft), lead + (s + tail), including, l) == Some(m)
    requires var k := MaskIndex(false, including); |l[k]| == |l[k + 2]| == 0
    ensures var k := MaskIndex(false, including); UserStrs(m[k]) != fs || |m[k + 2]| < |ds|
  {
    var z, h := StripSlashes(fs[i]), Head(fs[..i], StripSlashes(fs[i]));
    var rest, v := TextAroundAll(fs, i, ds);
    Associate(h, rest, tail);
    if rest == [] || Follows(z, rest, v) {
      PieceFollowing(z, rest, v, tail);
      CutIsLost(draft, fs, i, lead, rest + tail, including, l, m);
    } else {
      MergeIsLost(draft, fs[..i], z, ds, lead, tail, including, l, m);
    }
  }

  /** File masks come back only if none ends in a slash. */
  lemma FilesAreFit(draft: Drafting, fs: seq<string>, ds: seq<string>, text: string, whole: string,
                    lead: string, tail: string, including: bool, k: nat, j: nat, l: Lists, m: Lists)
    requires ShowsFiles(draft) && AllFileMasks(fs) && AllTrim(ds) && IsPad(lead) && IsTail(tail)
    requires text == AddToList(FilesText(fs), Joined(ds)) && whole == lead + (text + tail)
    requires ParseFrom(Adder(draft), whole, including, l) == Some(m)
    requires k == MaskIndex(false, including) && j == MaskIndex(true, including)
    requires |l[k]| == |l[j]| == 0 && UserStrs(m[k]) == fs && |m[j]| >= |ds|
    ensures AllFilesFit(fs)
  {
    if !NoCut(fs) {
      var i := FirstCut(fs);
      CutDoesNotComeBack(draft, fs, i, ds, lead, tail, including, l, m);
      assert false;
    }
    NoCutIsFit(fs);
  }

  predicate NoCut(fs: seq<string>) {
    fs == [] || (!IsCutFile(fs[0]) && NoCut(fs[1..]))
  }

  lemma {:induction false} NoCutIsFit(fs: seq<string>)
    requires AllFileMasks(fs) && NoCut(fs)
    ensures AllFilesFit(fs)
  {
    if fs != [] {
      NoCutIsFit(fs[1..]);
      forall i | 0 <= i < |fs| ensures IsGood(fs[i]) && !HasSlashedName(fs[i]) {
        if i > 0 {
          assert fs[i] == fs[1..][i - 1];
        }
      }
    }
  }

  lemma {:induction false} FirstCut(fs: seq<string>) returns (i: nat)
    requires AllFileMasks(fs) && !NoCut(fs)
    ensures i < |fs| && AllFilesFit(fs[..i]) && IsCutFile(fs[i])
  {
    if IsCutFile(fs[0]) {
      i := 0;
    } else {
      i := FirstCut(fs[1..]);
      i := i + 1;
      assert fs[..i] == [fs[0]] + fs[1..][..i - 1];
    }
  }
}
