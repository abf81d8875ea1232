/** What a string of file masks is parsed into, and what string is composed of four lists: trimming,
    doubled delimiters, joined masks, directory masks, and what the user is shown of a mask. */
module FileMaskProperties {
  import opened Basics
  import opened FileMasks

  predicate IsPlain(s: string) {
    forall i | 0 <= i < |s| :: !IsBoundary(s[i])
  }

  predicate AllPlain(xs: seq<string>) {
    forall i | 0 <= i < |xs| :: IsPlain(xs[i])
  }

  /** A mask that can come back as it is. */
  predicate IsGood(s: string) {
    IsTrim(s) && !IsSlash(s[|s| - 1])
  }

  predicate AllTrim(xs: seq<string>) {
    forall i | 0 <= i < |xs| :: IsTrim(xs[i])
  }

  predicate AllGood(xs: seq<string>) {
    forall i | 0 <= i < |xs| :: IsGood(xs[i])
  }

  predicate IsAccepted(r: Readers, s: string) {
    NamePatterns(r, StripSlashes(s)).Some?
  }

  // ----- Trimming -----

  lemma {:induction false} TrimLeftOf(s: string)
    ensures s[|s| - |TrimLeft(s)|..] == TrimLeft(s)
    ensures TrimLeft(s) != [] ==> !IsBlank(TrimLeft(s)[0])
  {
    if s != [] && IsBlank(s[0]) {
      TrimLeftOf(s[1..]);
    }
  }

  lemma {:induction false} TrimRightOf(s: string)
    ensures s[..|TrimRight(s)|] == TrimRight(s)
    ensures TrimRight(s) != [] ==> !IsBlank(TrimRight(s)[|TrimRight(s)| - 1])
  {
    if s != [] && IsBlank(s[|s| - 1]) {
      TrimRightOf(s[..|s| - 1]);
    }
  }

  lemma TrimIsTrim(s: string)
    ensures Trim(s) == [] || IsTrim(Trim(s))
    ensures IsTrim(s) ==> Trim(s) == s
  {
    TrimLeftOf(s);
    TrimRightOf(TrimLeft(s));
  }

  lemma TrimRightPad(s: string)
    requires s != [] && !IsBlank(s[|s| - 1])
    ensures TrimRight(s + " ") == s && TrimRight(s) == s
  {
    assert (s + " ")[..|s|] == s && (s + " ")[|s|] == ' ';
  }

  /** At most one space on either side. */
  predicate IsPad(p: string) {
    p == "" || p == " "
  }

  lemma TrimLeftPad(s: string)
    requires s != [] && !IsBlank(s[0])
    ensures TrimLeft(s) == s && TrimLeft(" " + s) == s
  {
    assert (" " + s)[1..] == s;
  }

  lemma TrimPads(lead: string, x: string, trail: string)
    requires IsPad(lead) && IsPad(trail) && IsTrim(x)
    ensures Trim(lead + x + trail) == x
  {
    Associate(lead, x, trail);
    AddNothing(x + trail);
    AddNothing(x);
    TrimLeftPad(x + trail);
    TrimRightPad(x);
  }

  // ----- Slashes -----

  lemma {:induction false} StripOf(s: string)
    ensures s[..|StripSlashes(s)|] == StripSlashes(s)
    ensures StripSlashes(s) != [] ==> !IsSlash(StripSlashes(s)[|StripSlashes(s)| - 1])
  {
    if s != [] && IsSlash(s[|s| - 1]) {
      StripOf(s[..|s| - 1]);
    }
  }

  lemma StripShortens(s: string)
    requires s != []
    ensures |StripSlashes(s)| < |s| <==> IsSlash(s[|s| - 1])
  {
  }

  lemma StripOneMore(s: string, c: char)
    requires IsSlash(c)
    ensures StripSlashes(s + [c]) == StripSlashes(s)
  {
    assert (s + [c])[..|s|] == s;
  }

  lemma {:induction false} LastSlashUnique(s: string, d: nat)
    requires d <= |s| && (d > 0 ==> IsSlash(s[d - 1])) && forall i | d <= i < |s| :: !IsSlash(s[i])
    ensures LastSlash(s) == d
    decreases |s| - d
  {
    if d < |s| {
      LastSlashUnique(s[..|s| - 1], d);
    }
  }

  lemma {:induction false} NoSlashAfterLast(s: string)
    ensures forall i | LastSlash(s) <= i < |s| :: !IsSlash(s[i])
  {
    if s != [] && !IsSlash(s[|s| - 1]) {
      NoSlashAfterLast(s[..|s| - 1]);
    }
  }

  lemma DirectoryMaskStem(s: string)
    requires s != []
    ensures StripSlashes(MakeDirectoryMask(s)) == StripSlashes(s)
    ensures |StripSlashes(MakeDirectoryMask(s))| < |MakeDirectoryMask(s)|
    ensures IsTrim(s) ==> IsTrim(MakeDirectoryMask(s))
    ensures IsPlain(s) ==> IsPlain(MakeDirectoryMask(s))
  {
    StripOneMore(s, ClosingSlash(s));
  }

  // ----- Doubling -----

  lemma {:induction false} DoubledConcat(a: string, b: string)
    ensures Doubled(a + b) == Doubled(a) + Doubled(b)
  {
    if a == [] {
      assert a + b == b;
    } else {
      DoubledConcat(a[1..], b);
      assert (a + b)[0] == a[0] && (a + b)[1..] == a[1..] + b;
      Associate(DoubledChar(a[0]), Doubled(a[1..]), Doubled(b));
    }
  }

  lemma {:induction false} DoubledPlain(s: string)
    requires forall i | 0 <= i < |s| :: !IsDelimiter(s[i])
    ensures Doubled(s) == s
  {
    if s != [] {
      DoubledPlain(s[1..]);
    }
  }

  lemma {:induction false} DoubledEnds(s: string)
    requires s != []
    ensures Doubled(s) != [] && Doubled(s)[0] == s[0] && Doubled(s)[|Doubled(s)| - 1] == s[|s| - 1]
  {
    if |s| > 1 {
      DoubledEnds(s[1..]);
    } else {
      assert s[1..] == [];
    }
  }

  lemma {:induction false} DoubledHasNo(s: string)
    ensures (forall i | 0 <= i < |s| :: !IsSlash(s[i])) ==> forall i | 0 <= i < |Doubled(s)| :: !IsSlash(Doubled(s)[i])
    ensures IsPlain(s) ==> IsPlain(Doubled(s))
  {
    if s != [] {
      DoubledHasNo(s[1..]);
    }
  }

  lemma ClosingSlashOfConcat(a: string, b: string)
    requires (a != [] ==> IsSlash(a[|a| - 1])) && forall i | 0 <= i < |b| :: !IsSlash(b[i])
    ensures ClosingSlash(a + b) == if a == [] then '/' else a[|a| - 1]
  {
    assert forall i | |a| <= i < |a + b| :: (a + b)[i] == b[i - |a|];
    LastSlashUnique(a + b, |a|);
  }

  lemma SplitAt(s: string, d: nat)
    requires d <= |s|
    ensures s == s[..d] + s[d..]
  {
  }

  lemma DoubledLastSlashOf(a: string, b: string)
    requires (a != [] ==> IsSlash(a[|a| - 1])) && forall i | 0 <= i < |b| :: !IsSlash(b[i])
    ensures ClosingSlash(Doubled(a + b)) == if a == [] then '/' else a[|a| - 1]
  {
    if a != [] {
      DoubledEnds(a);
    }
    DoubledHasNo(b);
    DoubledConcat(a, b);
    ClosingSlashOfConcat(Doubled(a), Doubled(b));
  }

  /** Doubling keeps the last slash, since no delimiter is a slash. */
  lemma DoubledLastSlash(s: string)
    ensures ClosingSlash(Doubled(s)) == ClosingSlash(s)
  {
    var d := LastSlash(s);
    NoSlashAfterLast(s);
    SplitAt(s, d);
    DoubledLastSlashOf(s[..d], s[d..]);
  }

  lemma DoubledDirectoryMask(s: string)
    requires s != []
    ensures Doubled(s) != [] && MakeDirectoryMask(Doubled(s)) == Doubled(MakeDirectoryMask(s))
  {
    DoubledEnds(s);
    DoubledLastSlash(s);
    var c := ClosingSlash(s);
    DoubledConcat(s, [c]);
    assert Doubled([c]) == [c];
  }

  // ----- Pieces -----

  lemma {:induction false} PlainPiece(s: string, ds: Delimiters)
    requires forall i | 0 <= i < |s| :: !In(s[i], ds)
    ensures PieceEnd(s, ds) == |s| && PieceOf(s, ds) == s
  {
    if s != [] {
      PlainPiece(s[1..], ds);
    }
  }

  /** A delimiter by itself, or nothing. */
  predicate IsStop(rest: string) {
    rest == [] || (IsDelimiter(rest[0]) && (|rest| == 1 || !IsDelimiter(rest[1])))
  }

  lemma PieceStep(c: char, t: string)
    ensures PieceEnd(DoubledChar(c) + t, MaskDelimiters) == |DoubledChar(c)| + PieceEnd(t, MaskDelimiters)
    ensures PieceOf(DoubledChar(c) + t, MaskDelimiters) == [c] + PieceOf(t, MaskDelimiters)
  {
    assert (DoubledChar(c) + t)[|DoubledChar(c)|..] == t;
  }

  lemma HeadAndTail(x: string)
    requires x != []
    ensures [x[0]] + x[1..] == x
  {
  }

  /** A piece ends at a delimiter by itself. */
  lemma {:induction false} PieceStops(s: string, ds: Delimiters)
    requires PieceEnd(s, ds) < |s|
    ensures var e := PieceEnd(s, ds); In(s[e], ds) && (e + 1 < |s| ==> !In(s[e + 1], ds))
  {
    if !In(s[0], ds) {
      PieceStops(s[1..], ds);
    } else if |s| > 1 && In(s[1], ds) {
      PieceStops(s[2..], ds);
    }
  }

  /** What is doubled is read back, in front of anything. */
  lemma {:induction false} PieceOfDoubled(x: string, rest: string)
    ensures PieceEnd(Doubled(x) + rest, MaskDelimiters) == |Doubled(x)| + PieceEnd(rest, MaskDelimiters)
    ensures PieceOf(Doubled(x) + rest, MaskDelimiters) == x + PieceOf(rest, MaskDelimiters)
  {
    if x == [] {
      AddNothing(rest);
      AddNothing(PieceOf(rest, MaskDelimiters));
    } else {
      var t := x[1..];
      PieceOfDoubled(t, rest);
      Associate(DoubledChar(x[0]), Doubled(t), rest);
      PieceStep(x[0], Doubled(t) + rest);
      Associate([x[0]], t, PieceOf(rest, MaskDelimiters));
      HeadAndTail(x);
    }
  }

  /** The escape read back: up to a single delimiter, exactly what was doubled. */
  lemma DoubledPiece(x: string, rest: string)
    requires IsStop(rest)
    ensures PieceEnd(Doubled(x) + rest, MaskDelimiters) == |Doubled(x)|
    ensures PieceOf(Doubled(x) + rest, MaskDelimiters) == x
  {
    PieceOfDoubled(x, rest);
    AddNothing(x);
  }

  /** A trimmed mask between delimiters, with its padding. */
  lemma PaddedPiece(lead: string, x: string, trail: string, rest: string)
    requires IsPad(lead) && IsPad(trail) && IsTrim(x) && IsStop(rest)
    ensures PieceEnd(lead + Doubled(x) + trail + rest, MaskDelimiters) == |lead + Doubled(x) + trail|
    ensures Trim(PieceOf(lead + Doubled(x) + trail + rest, MaskDelimiters)) == x
  {
    DoubledPlain(lead);
    DoubledPlain(trail);
    DoubledConcat(lead, x);
    DoubledConcat(lead + x, trail);
    DoubledPiece(lead + x + trail, rest);
    TrimPads(lead, x, trail);
  }

  // ----- Joined masks -----

  /** Masks doubled and joined. */
  function Joined(xs: seq<string>): string {
    if xs == [] then [] else if |xs| == 1 then Doubled(xs[0]) else Doubled(xs[0]) + SEPARATOR + Joined(xs[1..])
  }

  lemma {:induction false} JoinedConcat(xs: seq<string>, ys: seq<string>)
    requires xs != [] && ys != []
    ensures Joined(xs + ys) == Joined(xs) + SEPARATOR + Joined(ys)
  {
    if |xs| == 1 {
      assert (xs + ys)[1..] == ys;
    } else {
      JoinedConcat(xs[1..], ys);
      assert (xs + ys)[1..] == xs[1..] + ys;
      var d, s := Doubled(xs[0]), SEPARATOR;
      Associate(d + s, Joined(xs[1..]), s);
      Associate(d + s, Joined(xs[1..]) + s, Joined(ys));
    }
  }

  /** Joined masks end in no blank, so joining further always separates. */
  lemma {:induction false} JoinedEnds(xs: seq<string>)
    requires AllTrim(xs) && xs != []
    ensures Joined(xs) != [] && !IsBlank(Joined(xs)[|Joined(xs)| - 1]) && !EndsInSeparator(Joined(xs))
    ensures !IsDelimiter(' ') && !IsBlank(Joined(xs)[0])
  {
    DoubledEnds(xs[0]);
    if |xs| > 1 {
      JoinedEnds(xs[1..]);
    }
    var s := Joined(xs);
    assert |s| >= 2 ==> s[|s| - 2..][1] == s[|s| - 1];
  }

  lemma AddJoined(xs: seq<string>, ys: seq<string>)
    requires AllTrim(xs) && AllTrim(ys)
    ensures AddToList(Joined(xs), Joined(ys)) == Joined(xs + ys)
  {
    if ys == [] {
      assert xs + ys == xs;
    } else {
      JoinedEnds(ys);
      if xs == [] {
        assert xs + ys == ys;
      } else {
        JoinedEnds(xs);
        JoinedConcat(xs, ys);
      }
    }
  }

  /** The masks that are not blank, trimmed. */
  function Trimmed(names: seq<string>): (xs: seq<string>)
    ensures |xs| <= |names|
  {
    if names == [] then []
    else
      var t := Trim(names[|names| - 1]);
      Trimmed(names[..|names| - 1]) + if t == [] then [] else [t]
  }

  function DirectoryMasks(xs: seq<string>): (ys: seq<string>)
    requires AllTrim(xs)
    ensures |ys| == |xs| && forall i | 0 <= i < |xs| :: ys[i] == MakeDirectoryMask(xs[i])
  {
    seq(|xs|, i requires 0 <= i < |xs| => MakeDirectoryMask(xs[i]))
  }

  lemma DirectoryMasksTrim(xs: seq<string>)
    requires AllTrim(xs)
    ensures AllTrim(DirectoryMasks(xs))
  {
    forall i | 0 <= i < |xs| ensures IsTrim(DirectoryMasks(xs)[i]) {
      DirectoryMaskStem(xs[i]);
    }
  }

  lemma {:induction false} TrimmedIsTrim(names: seq<string>)
    ensures AllTrim(Trimmed(names))
  {
    if names != [] {
      TrimmedIsTrim(names[..|names| - 1]);
      TrimIsTrim(names[|names| - 1]);
    }
  }

  /** Any texts that double the trimmed masks are joined into the joined masks. */
  lemma OneMoreText(xs: seq<string>, list: string, x: string, text: string)
    requires AllTrim(xs) && list == Joined(xs) && IsTrim(x) && text == Doubled(x)
    ensures AddToList(list, text) == Joined(xs + [x])
  {
    AddJoined(xs, [x]);
  }

  lemma ValidatedStep(names: seq<string>)
    requires names != []
    ensures JoinTexts(ValidatedTextsOf(names, true))
            == AddToList(JoinTexts(ValidatedTextsOf(names[..|names| - 1], true)), Doubled(Trim(names[|names| - 1])))
  {
    var rest := names[..|names| - 1];
    assert ValidatedTextsOf(names, true)[..|rest|] == ValidatedTextsOf(rest, true);
  }

  lemma {:induction false} DirectoryText(names: seq<string>)
    ensures JoinTexts(ValidatedTextsOf(names, true)) == Joined(Trimmed(names))
  {
    if names != [] {
      var rest, x := names[..|names| - 1], Trim(names[|names| - 1]);
      DirectoryText(rest);
      ValidatedStep(names);
      TrimmedIsTrim(rest);
      TrimIsTrim(names[|names| - 1]);
      if x == [] {
        assert Trimmed(names) == Trimmed(rest);
      } else {
        OneMoreText(Trimmed(rest), Joined(Trimmed(rest)), x, Doubled(x));
      }
    }
  }

  lemma MaskTextStep(names: seq<string>)
    requires names != []
    ensures JoinTexts(TextsOf(names, true))
            == AddToList(JoinTexts(TextsOf(names[..|names| - 1], true)), MaskText(names[|names| - 1], true))
  {
    var rest := names[..|names| - 1];
    assert TextsOf(names, true)[..|rest|] == TextsOf(rest, true);
  }

  lemma OneMoreDirectoryMask(xs: seq<string>, x: string)
    requires AllTrim(xs) && IsTrim(x)
    ensures AllTrim(xs + [x]) && DirectoryMasks(xs + [x]) == DirectoryMasks(xs) + [MakeDirectoryMask(x)]
    ensures AddToList(Joined(DirectoryMasks(xs)), Doubled(MakeDirectoryMask(x))) == Joined(DirectoryMasks(xs + [x]))
  {
    DirectoryMasksTrim(xs);
    DirectoryMaskStem(x);
    OneMoreText(DirectoryMasks(xs), Joined(DirectoryMasks(xs)), MakeDirectoryMask(x), Doubled(MakeDirectoryMask(x)));
    assert DirectoryMasks(xs + [x]) == DirectoryMasks(xs) + [MakeDirectoryMask(x)];
  }

  lemma {:induction false} DirectoryMaskText(names: seq<string>)
    ensures AllTrim(Trimmed(names))
    ensures JoinTexts(TextsOf(names, true)) == Joined(DirectoryMasks(Trimmed(names)))
  {
    TrimmedIsTrim(names);
    if names != [] {
      var rest, x := names[..|names| - 1], Trim(names[|names| - 1]);
      DirectoryMaskText(rest);
      MaskTextStep(names);
      TrimIsTrim(names[|names| - 1]);
      if x == [] {
        assert Trimmed(names) == Trimmed(rest);
      } else {
        DoubledDirectoryMask(x);
        OneMoreDirectoryMask(Trimmed(rest), x);
      }
    }
  }

  /** The text of a mask that is fit to come back is that mask with delimiters doubled. */
  lemma GoodText(x: string)
    requires IsGood(x)
    ensures MaskText(x, false) == Doubled(x) == ValidatedText(x, false)
  {
    TrimIsTrim(x);
    DoubledEnds(x);
  }

  lemma FileTextStep(names: seq<string>)
    requires names != []
    ensures var rest, x := names[..|names| - 1], names[|names| - 1];
            JoinTexts(TextsOf(names, false)) == AddToList(JoinTexts(TextsOf(rest, false)), MaskText(x, false))
            && JoinTexts(ValidatedTextsOf(names, false))
               == AddToList(JoinTexts(ValidatedTextsOf(rest, false)), ValidatedText(x, false))
  {
    var rest := names[..|names| - 1];
    assert TextsOf(names, false)[..|rest|] == TextsOf(rest, false);
    assert ValidatedTextsOf(names, false)[..|rest|] == ValidatedTextsOf(rest, false);
  }

  lemma InitIsGood(names: seq<string>)
    requires AllGood(names) && names != []
    ensures AllTrim(names[..|names| - 1]) && IsTrim(names[|names| - 1]) && AllGood(names[..|names| - 1])
    ensures names[..|names| - 1] + [names[|names| - 1]] == names
  {
  }

  lemma JoinedSnoc(names: seq<string>)
    requires AllGood(names) && names != []
    ensures AddToList(Joined(names[..|names| - 1]), Doubled(names[|names| - 1])) == Joined(names)
  {
    InitIsGood(names);
    var rest, x := names[..|names| - 1], names[|names| - 1];
    OneMoreText(rest, Joined(rest), x, Doubled(x));
  }

  lemma {:induction false} FileText(names: seq<string>)
    requires AllGood(names)
    ensures JoinTexts(TextsOf(names, false)) == Joined(names) == JoinTexts(ValidatedTextsOf(names, false))
  {
    if names != [] {
      InitIsGood(names);
      FileText(names[..|names| - 1]);
      FileTextStep(names);
      GoodText(names[|names| - 1]);
      JoinedSnoc(names);
    }
  }

  // ----- Parsing joined masks -----

  /** Masks added one after the other. */
  function AddAll<T>(add: (string, bool, T) -> Option<T>, xs: seq<string>, including: bool, l: T): Option<T> {
    if xs == [] then Some(l)
    else
      var next := add(xs[0], including, l);
      if next.None? then None else AddAll(add, xs[1..], including, next.value)
  }

  lemma {:induction false} AddAllConcat<T>(add: (string, bool, T) -> Option<T>, xs: seq<string>, ys: seq<string>,
                                              including: bool, l: T)
    ensures var a := AddAll(add, xs, including, l);
            AddAll(add, xs + ys, including, l)
            == if a.None? then None else AddAll(add, ys, including, a.value)
  {
    if xs == [] {
      assert xs + ys == ys;
    } else {
      assert (xs + ys)[0] == xs[0] && (xs + ys)[1..] == xs[1..] + ys;
      var next := add(xs[0], including, l);
      if next.Some? {
        AddAllConcat(add, xs[1..], ys, including, next.value);
      }
    }
  }

  lemma StopAhead(d: char, rest: string)
    requires IsDelimiter(d) && (rest == [] || !IsDelimiter(rest[0]))
    ensures IsStop([d] + rest)
  {
  }

  lemma AfterPiece(p: string, d: char, rest: string)
    ensures p + ([d] + rest) != [] && (p + ([d] + rest))[|p|] == d && (p + ([d] + rest))[|p| + 1..] == rest
    ensures |p| < |p + ([d] + rest)|
  {
  }

  lemma PaddedAhead(lead: string, x: string, trail: string, d: char, rest: string)
    requires IsPad(lead) && IsPad(trail) && IsTrim(x) && IsDelimiter(d) && (rest == [] || !IsDelimiter(rest[0]))
    ensures var p := lead + Doubled(x) + trail;
            var s := p + ([d] + rest);
            && |p| < |s| && s[|p|] == d && s[|p| + 1..] == rest
            && PieceEnd(s, MaskDelimiters) == |p| && Trim(PieceOf(s, MaskDelimiters)) == x
  {
    StopAhead(d, rest);
    PaddedPiece(lead, x, trail, [d] + rest);
    AfterPiece(lead + Doubled(x) + trail, d, rest);
  }

  lemma ParseStep<T>(add: (string, bool, T) -> Option<T>, s: string, n: nat, x: string, including: bool, l: T)
    requires n < |s| && PieceEnd(s, MaskDelimiters) == n && Trim(PieceOf(s, MaskDelimiters)) == x
    ensures var next := add(x, including, l);
            ParseFrom(add, s, including, l)
            == if next.None? || (s[n] == EXCLUDE && !including) then None
               else ParseFrom(add, s[n + 1..], including && s[n] != EXCLUDE, next.value)
  {
  }

  /** One padded mask read, and what follows it. */
  lemma ParsePadded<T>(add: (string, bool, T) -> Option<T>, lead: string, x: string, trail: string, d: char,
                       rest: string, including: bool, l: T)
    requires IsPad(lead) && IsPad(trail) && IsTrim(x) && IsDelimiter(d) && (rest == [] || !IsDelimiter(rest[0]))
    ensures var next := add(x, including, l);
            ParseFrom(add, lead + Doubled(x) + trail + ([d] + rest), including, l)
            == if next.None? || (d == EXCLUDE && !including) then None
               else ParseFrom(add, rest, including && d != EXCLUDE, next.value)
  {
    var p := lead + Doubled(x) + trail;
    PaddedAhead(lead, x, trail, d, rest);
    ParseStep(add, p + ([d] + rest), |p|, x, including, l);
  }

  lemma ParseLast<T>(add: (string, bool, T) -> Option<T>, lead: string, x: string, including: bool, l: T)
    requires IsPad(lead) && IsTrim(x)
    ensures ParseFrom(add, lead + Doubled(x), including, l) == add(x, including, l)
  {
    PaddedPiece(lead, x, "", []);
    DoubledEnds(x);
    assert lead + Doubled(x) + "" + [] == lead + Doubled(x);
  }

  lemma Regroup(lead: string, x: string, a: string, b: string, j: string, trail: string)
    ensures lead + ((x + (a + b)) + j) + trail == ((lead + x) + "") + (a + ((b + j) + trail))
  {
    Associate(lead + x, a, (b + j) + trail);
    Associate(lead, x, a + b);
    Associate(lead, x + (a + b), j);
  }

  lemma SeparatorParts()
    ensures SEPARATOR == [';'] + " "
  {
  }

  /** Joined masks with the first one taken off. */
  lemma JoinedStep(lead: string, xs: seq<string>, trail: string)
    requires |xs| >= 2
    ensures lead + Joined(xs) + trail == (lead + Doubled(xs[0]) + "") + ([';'] + (" " + Joined(xs[1..]) + trail))
  {
    SeparatorParts();
    Regroup(lead, Doubled(xs[0]), [';'], " ", Joined(xs[1..]), trail);
  }

  /** The first of several joined masks read. */
  lemma ParseFirst<T>(add: (string, bool, T) -> Option<T>, lead: string, xs: seq<string>, trail: string,
                      including: bool, l: T)
    requires IsPad(lead) && AllTrim(xs) && |xs| >= 2
    ensures var next := add(xs[0], including, l);
            ParseFrom(add, lead + Joined(xs) + trail, including, l)
            == if next.None? then None else ParseFrom(add, " " + Joined(xs[1..]) + trail, including, next.value)
  {
    JoinedStep(lead, xs, trail);
    ParsePadded(add, lead, xs[0], "", ';', " " + Joined(xs[1..]) + trail, including, l);
  }

  /** The parser on joined masks, up to the end of the string. */
  lemma {:induction false} ParseJoined<T>(add: (string, bool, T) -> Option<T>, lead: string, xs: seq<string>,
                                             including: bool, l: T)
    requires IsPad(lead) && AllTrim(xs) && xs != []
    ensures ParseFrom(add, lead + Joined(xs) + "", including, l) == AddAll(add, xs, including, l)
    decreases |xs|
  {
    var next := add(xs[0], including, l);
    if |xs| == 1 {
      AddNothing(lead + Joined(xs));
      ParseLast(add, lead, xs[0], including, l);
    } else {
      ParseFirst(add, lead, xs, "", including, l);
      if next.Some? {
        ParseJoined(add, " ", xs[1..], including, next.value);
      }
    }
  }

  /** The same, up to the exclusion delimiter. */
  lemma {:induction false} ParseIncluded<T>(add: (string, bool, T) -> Option<T>, lead: string, xs: seq<string>,
                                               tail: string, l: T)
    requires IsPad(lead) && AllTrim(xs) && xs != [] && (tail == [] || !IsDelimiter(tail[0]))
    ensures var a := AddAll(add, xs, true, l);
            ParseFrom(add, lead + Joined(xs) + (" " + ([EXCLUDE] + tail)), true, l)
            == if a.None? then None else ParseFrom(add, tail, false, a.value)
    decreases |xs|
  {
    var next := add(xs[0], true, l);
    if |xs| == 1 {
      ParsePadded(add, lead, xs[0], " ", EXCLUDE, tail, true, l);
      Associate(lead + Doubled(xs[0]), " ", [EXCLUDE] + tail);
    } else {
      ParseFirst(add, lead, xs, " " + ([EXCLUDE] + tail), true, l);
      if next.Some? {
        ParseIncluded(add, " ", xs[1..], tail, next.value);
      }
    }
  }

  /** What the composed string is parsed into: all included masks, then all excluded ones. */
  lemma ParseComposed<T>(add: (string, bool, T) -> Option<T>, xs: seq<string>, ys: seq<string>, l: T)
    requires AllTrim(xs) && AllTrim(ys) && add([], true, l) == Some(l)
    ensures var a := AddAll(add, xs, true, l);
            ParseFrom(add, WithExcluded(Joined(xs), Joined(ys)), true, l)
            == if a.None? then None else AddAll(add, ys, false, a.value)
  {
    if ys == [] {
      if xs != [] {
        ParseJoined(add, "", xs, true, l);
        AddNothing(Joined(xs));
      }
    } else {
      JoinedEnds(ys);
      var tail := " " + Joined(ys);
      var a := AddAll(add, xs, true, l);
      if xs == [] {
        ExclusionFirst(add, tail, l);
      } else {
        JoinedEnds(xs);
        ParseIncluded(add, "", xs, tail, l);
      }
      ExcludedText(Joined(xs), Joined(ys));
      AddNothing(tail);
      if a.Some? {
        ParseJoined(add, " ", ys, false, a.value);
      }
    }
  }

  lemma ExcludedText(s: string, t: string)
    requires t != []
    ensures WithExcluded(s, t) == if s == [] then [EXCLUDE] + (" " + t) else "" + s + (" " + ([EXCLUDE] + (" " + t)))
  {
    AddNothing(s);
    Associate(s + " ", [EXCLUDE], " " + t);
    Associate(s, " ", [EXCLUDE] + (" " + t));
    Associate([EXCLUDE], " ", t);
    Associate(s + " " + [EXCLUDE], " ", t);
    AddNothing([EXCLUDE]);
  }

  lemma ExclusionFirst<T>(add: (string, bool, T) -> Option<T>, tail: string, l: T)
    requires tail != [] && !IsDelimiter(tail[0]) && add([], true, l) == Some(l)
    ensures ParseFrom(add, [EXCLUDE] + tail, true, l) == ParseFrom(add, tail, false, l)
  {
    var s := [EXCLUDE] + tail;
    assert s[1] == tail[0];
    assert PieceEnd(s, MaskDelimiters) == 0 && PieceOf(s, MaskDelimiters) == [] && Trim([]) == [];
    ParseStep(add, s, 0, [], true, l);
    assert s[1..] == tail;
  }

  // ----- What is read from one mask -----

  lemma DraftOfPart(r: Readers, force: int, x: string)
    requires IsTrim(x) && IsPlain(x)
    ensures DraftOf(r, force, x) == NameStep(r, force, NewMask(x), x, 0)
  {
    PlainPiece(x, BoundaryDelimiters);
    TrimIsTrim(x);
    TrimLeftPad(x);
  }

  /** A mask with no size and no time: whether it is accepted depends on the name alone, it names
      directories if it ends in a slash, and what the user sees of it has no slash at the end. */
  lemma DraftOfName(r: Readers, force: int, x: string)
    requires IsTrim(x) && IsPlain(x)
    ensures DraftOf(r, force, x).Some? <==> IsAccepted(r, x)
    ensures DraftOf(r, force, x).Some? ==>
              var d := DraftOf(r, force, x).value;
              d.mask.userStr == StripSlashes(x)
              && (d.directory <==> if IsSlash(x[|x| - 1]) then force != 0 else force > 0)
  {
    DraftOfPart(r, force, x);
    StripOf(x);
    StripShortens(x);
    var stem := StripSlashes(x);
    assert x[..0 + |stem|] + x[0 + |x|..] == stem;
    assert |stem| == |x| ==> stem == x;
  }

  predicate HasNoBounds(m: Mask) {
    m.highSize.NoBoundary? && m.lowSize.NoBoundary? && m.highTime.NoBoundary? && m.lowTime.NoBoundary?
  }

  /** Sizes and times change nothing else of a mask, and a directory mask accepts none. */
  lemma {:induction false} BoundsKeepName(r: Readers, d: Draft, s: string, low: bool)
    requires BoundariesFrom(r, d, s, low).Some?
    ensures var e := BoundariesFrom(r, d, s, low).value;
            && e.directory == d.directory && e.mask.maskStr == d.mask.maskStr && e.mask.userStr == d.mask.userStr
            && e.mask.fileName == d.mask.fileName && e.mask.directory == d.mask.directory
            && (d.directory ==> e == d)
    decreases |s|
  {
    if s != [] {
      var end := PieceEnd(s, BoundaryDelimiters);
      var next := BoundaryStep(r, d, Trim(PieceOf(s, BoundaryDelimiters)), low);
      if end < |s| {
        BoundsKeepName(r, next.value, s[end + 1..], s[end] == '>');
      }
    }
  }

  /** The part before any size or time ends in a slash. */
  predicate HasSlashedName(s: string) {
    var name := Trim(PieceOf(s, BoundaryDelimiters));
    name != [] && IsSlash(name[|name| - 1])
  }

  lemma FirstHasNoBounds(r: Readers, force: int, s: string)
    requires FirstStep(r, force, s).Some?
    ensures HasNoBounds(FirstStep(r, force, s).value.mask)
    ensures !HasSlashedName(s) ==> FirstStep(r, force, s).value.mask.userStr == s
  {
    var part := Trim(PieceOf(s, BoundaryDelimiters));
    if part != [] {
      StripShortens(part);
    }
  }

  lemma DraftIsFirst(r: Readers, force: int, e: string)
    requires PieceEnd(e, BoundaryDelimiters) == |e|
    ensures DraftOf(r, force, e) == FirstStep(r, force, e)
  {
  }

  lemma DraftWithMore(r: Readers, force: int, e: string, end: nat, d: Draft)
    requires end == PieceEnd(e, BoundaryDelimiters) < |e| && FirstStep(r, force, e) == Some(d)
    ensures DraftOf(r, force, e) == BoundariesFrom(r, d, e[end + 1..], e[end] == '>')
  {
  }

  lemma DraftIsFirstWithBounds(r: Readers, force: int, s: string)
    requires DraftOf(r, force, s).Some?
    ensures FirstStep(r, force, s).Some?
    ensures var d, e := FirstStep(r, force, s).value, DraftOf(r, force, s).value;
            && e.directory == d.directory && e.mask.userStr == d.mask.userStr && (d.directory ==> e == d)
  {
    var end, d := PieceEnd(s, BoundaryDelimiters), FirstStep(r, force, s).value;
    if end < |s| {
      DraftWithMore(r, force, s, end, d);
      BoundsKeepName(r, d, s[end + 1..], s[end] == '>');
    } else {
      DraftIsFirst(r, force, s);
    }
  }

  /** Whatever a mask looks like: a directory mask has no size and no time, and the user is shown
      all of a mask whose name does not end in a slash. */
  lemma AnyDraft(r: Readers, force: int, s: string)
    requires DraftOf(r, force, s).Some?
    ensures DraftOf(r, force, s).value.directory ==> HasNoBounds(DraftOf(r, force, s).value.mask)
    ensures !HasSlashedName(s) ==> DraftOf(r, force, s).value.mask.userStr == s
  {
    DraftIsFirstWithBounds(r, force, s);
    FirstHasNoBounds(r, force, s);
  }

  /** The outcome of a name without a slash at the end is the same for lists of files and for
      lists of either kind. */
  lemma UnslashedStep(r: Readers, mask: Mask, part: string, start: nat)
    requires part != [] && start + |part| <= |mask.userStr| && start + |part| <= |mask.maskStr|
    requires !IsSlash(part[|part| - 1])
    ensures NameStep(r, 0, mask, part, start) == NameStep(r, -1, mask, part, start)
    ensures NameStep(r, -1, mask, part, start).Some? ==> !NameStep(r, -1, mask, part, start).value.directory
  {
    StripShortens(part);
  }

  lemma UnslashedFirst(r: Readers, s: string)
    requires !HasSlashedName(s)
    ensures FirstStep(r, 0, s) == FirstStep(r, -1, s)
    ensures FirstStep(r, -1, s).Some? ==> !FirstStep(r, -1, s).value.directory
  {
    var piece := PieceOf(s, BoundaryDelimiters);
    if Trim(piece) != [] {
      UnslashedStep(r, NewMask(s), Trim(piece), TrimmedStart(piece));
    }
  }

  /** A mask, with or without sizes and times, whose name does not end in a slash is a file mask
      and shown as it is. */
  lemma DraftOfFile(r: Readers, s: string)
    requires !HasSlashedName(s)
    ensures DraftOf(r, 0, s) == DraftOf(r, -1, s)
    ensures DraftOf(r, -1, s).Some? ==>
              !DraftOf(r, -1, s).value.directory && DraftOf(r, -1, s).value.mask.userStr == s
  {
    UnslashedFirst(r, s);
    if DraftOf(r, -1, s).Some? {
      DraftIsFirstWithBounds(r, -1, s);
      FirstHasNoBounds(r, -1, s);
    }
  }

  /** The names of the masks, slashes at the end removed. */
  function Stems(xs: seq<string>): (ys: seq<string>)
    ensures |ys| == |xs| && forall i | 0 <= i < |xs| :: ys[i] == StripSlashes(xs[i])
  {
    seq(|xs|, i requires 0 <= i < |xs| => StripSlashes(xs[i]))
  }

  /** A mask that, if it is accepted, is of this kind and shown without slashes at the end. */
  predicate ReadsAs(r: Readers, x: string, directory: bool) {
    var d := DraftOf(r, -1, x);
    d.Some? ==> d.value.directory == directory && d.value.mask.userStr == StripSlashes(x)
  }

  predicate AllReadAs(r: Readers, xs: seq<string>, directory: bool) {
    forall i | 0 <= i < |xs| :: ReadsAs(r, xs[i], directory)
  }

  /** Every mask is accepted, for this way to tell directories. */
  predicate AllDrafted(r: Readers, force: int, xs: seq<string>) {
    forall i | 0 <= i < |xs| :: DraftOf(r, force, xs[i]).Some?
  }

  function Extended(names: Names, i: nat, xs: seq<string>): Names
    requires i < 4
  {
    names[i := names[i] + xs]
  }

  lemma AddOne(r: Readers, force: int, x: string, including: bool, l: Lists)
    requires x != []
    ensures Adder(Drafter(r, force))(x, including, l).Some? <==> DraftOf(r, force, x).Some?
  {
  }

  lemma FirstDrafted(r: Readers, force: int, xs: seq<string>)
    requires xs != []
    ensures AllDrafted(r, force, xs) <==> DraftOf(r, force, xs[0]).Some? && AllDrafted(r, force, xs[1..])
  {
  }

  lemma {:induction false} AddAllAccepted(r: Readers, force: int, xs: seq<string>, including: bool, l: Lists)
    requires AllTrim(xs)
    ensures AddAll(Adder(Drafter(r, force)), xs, including, l).Some? <==> AllDrafted(r, force, xs)
  {
    if xs != [] {
      AddOne(r, force, xs[0], including, l);
      FirstDrafted(r, force, xs);
      var next := Adder(Drafter(r, force))(xs[0], including, l);
      if next.Some? {
        AddAllAccepted(r, force, xs[1..], including, next.value);
      }
    }
  }

  lemma PushNames(l: Lists, d: Draft, including: bool)
    ensures NamesOf(Push(l, d, including)) == Extended(NamesOf(l), MaskIndex(d.directory, including), [d.mask.userStr])
  {
    var i := MaskIndex(d.directory, including);
    assert (l[i] + [d.mask])[..|l[i]|] == l[i];
  }

  lemma ExtendTwice(names: Names, k: nat, x: string, ys: seq<string>)
    requires k < 4
    ensures Extended(Extended(names, k, [x]), k, ys) == Extended(names, k, [x] + ys)
  {
    assert names[k] + [x] + ys == names[k] + ([x] + ys);
  }

  lemma FirstStem(xs: seq<string>)
    requires xs != []
    ensures Stems(xs) == [StripSlashes(xs[0])] + Stems(xs[1..])
  {
  }

  lemma AddFirst(r: Readers, xs: seq<string>, directory: bool, including: bool, l: Lists) returns (l': Lists)
    requires AllTrim(xs) && xs != [] && ReadsAs(r, xs[0], directory)
    requires AddAll(Adder(Drafter(r, -1)), xs, including, l).Some?
    ensures AddAll(Adder(Drafter(r, -1)), xs, including, l) == AddAll(Adder(Drafter(r, -1)), xs[1..], including, l')
    ensures NamesOf(l') == Extended(NamesOf(l), MaskIndex(directory, including), [StripSlashes(xs[0])])
  {
    assert xs[0] != [];
    var d := DraftOf(r, -1, xs[0]).value;
    PushNames(l, d, including);
    l' := Push(l, d, including);
  }

  lemma AddFirstThenRest(names: Names, k: nat, xs: seq<string>, more: Names)
    requires k < 4 && xs != []
    requires more == Extended(Extended(names, k, [StripSlashes(xs[0])]), k, Stems(xs[1..]))
    ensures more == Extended(names, k, Stems(xs))
  {
    FirstStem(xs);
    ExtendTwice(names, k, StripSlashes(xs[0]), Stems(xs[1..]));
  }

  lemma TailReadsAs(r: Readers, xs: seq<string>, directory: bool)
    requires AllTrim(xs) && AllReadAs(r, xs, directory) && xs != []
    ensures AllTrim(xs[1..]) && AllReadAs(r, xs[1..], directory) && ReadsAs(r, xs[0], directory)
  {
  }

  lemma {:induction false} AddAllNames(r: Readers, xs: seq<string>, directory: bool, including: bool, l: Lists)
    requires AllTrim(xs) && AllReadAs(r, xs, directory)
    requires AddAll(Adder(Drafter(r, -1)), xs, including, l).Some?
    ensures NamesOf(AddAll(Adder(Drafter(r, -1)), xs, including, l).value)
            == Extended(NamesOf(l), MaskIndex(directory, including), Stems(xs))
  {
    var k := MaskIndex(directory, including);
    if xs == [] {
      assert NamesOf(l)[k] + Stems(xs) == NamesOf(l)[k];
    } else {
      TailReadsAs(r, xs, directory);
      var l' := AddFirst(r, xs, directory, including, l);
      AddAllNames(r, xs[1..], directory, including, l');
      AddFirstThenRest(NamesOf(l), k, xs, NamesOf(AddAll(Adder(Drafter(r, -1)), xs, including, l).value));
    }
  }

  // ----- Reading back what was composed -----

  lemma {:induction false} TrimIsPlain(s: string)
    requires IsPlain(s)
    ensures IsPlain(Trim(s))
  {
    TrimLeftOf(s);
    TrimRightOf(TrimLeft(s));
  }

  lemma {:induction false} TrimmedIsPlain(names: seq<string>)
    requires AllPlain(names)
    ensures AllPlain(Trimmed(names))
  {
    if names != [] {
      TrimmedIsPlain(names[..|names| - 1]);
      TrimIsPlain(names[|names| - 1]);
    }
  }

  /** What a list of directory masks comes back as: trimmed, blank ones left out, slashes at the
      end removed. */
  function Comeback(names: seq<string>): seq<string> {
    Stems(Trimmed(names))
  }

  lemma DirectoryMaskReads(r: Readers, x: string)
    requires IsTrim(x) && IsPlain(x)
    ensures var d := MakeDirectoryMask(x);
            && IsTrim(d) && IsPlain(d) && ReadsAs(r, d, true) && StripSlashes(d) == StripSlashes(x)
            && (DraftOf(r, -1, d).Some? <==> DraftOf(r, -1, x).Some?)
            && (DraftOf(r, 1, x).Some? <==> DraftOf(r, -1, x).Some?)
  {
    DirectoryMaskStem(x);
    StripShortens(MakeDirectoryMask(x));
    DraftOfName(r, -1, MakeDirectoryMask(x));
    DraftOfName(r, -1, x);
    DraftOfName(r, 1, x);
  }

  /** The masks that the directory list is written as: accepted exactly if the list is, and read
      as directory masks with the stems as names. */
  lemma DirectoryMasksOf(r: Readers, names: seq<string>)
    requires AllPlain(names)
    ensures AllTrim(Trimmed(names))
    ensures var ds := DirectoryMasks(Trimmed(names));
            && AllTrim(ds) && AllReadAs(r, ds, true) && Stems(ds) == Comeback(names)
            && (AllDrafted(r, -1, ds) <==> AllDrafted(r, -1, Trimmed(names)))
            && (AllDrafted(r, 1, Trimmed(names)) <==> AllDrafted(r, -1, Trimmed(names)))
  {
    TrimmedIsTrim(names);
    TrimmedIsPlain(names);
    PlainDirectories(r, Trimmed(names));
  }

  lemma PlainDirectories(r: Readers, xs: seq<string>)
    requires AllTrim(xs) && AllPlain(xs)
    ensures var ds := DirectoryMasks(xs);
            && AllTrim(ds) && AllReadAs(r, ds, true) && Stems(ds) == Stems(xs)
            && (AllDrafted(r, -1, ds) <==> AllDrafted(r, -1, xs))
            && (AllDrafted(r, 1, xs) <==> AllDrafted(r, -1, xs))
  {
    var ds := DirectoryMasks(xs);
    forall i | 0 <= i < |xs|
      ensures IsTrim(ds[i]) && ReadsAs(r, ds[i], true) && StripSlashes(ds[i]) == StripSlashes(xs[i])
      ensures DraftOf(r, -1, ds[i]).Some? <==> DraftOf(r, -1, xs[i]).Some?
      ensures DraftOf(r, 1, xs[i]).Some? <==> DraftOf(r, -1, xs[i]).Some?
    {
      DirectoryMaskReads(r, xs[i]);
    }
  }

  /** File masks that can come back: trimmed, and neither the mask nor its name ends in a slash.
      They may hold sizes and times. */
  predicate AllFilesFit(xs: seq<string>) {
    forall i | 0 <= i < |xs| :: IsGood(xs[i]) && !HasSlashedName(xs[i])
  }

  lemma FitFiles(r: Readers, xs: seq<string>)
    requires AllFilesFit(xs)
    ensures AllGood(xs) && AllTrim(xs) && AllReadAs(r, xs, false) && Stems(xs) == xs
    ensures AllDrafted(r, 0, xs) <==> AllDrafted(r, -1, xs)
  {
    forall i | 0 <= i < |xs|
      ensures StripSlashes(xs[i]) == xs[i] && ReadsAs(r, xs[i], false) && DraftOf(r, 0, xs[i]) == DraftOf(r, -1, xs[i])
    {
      DraftOfFile(r, xs[i]);
    }
  }

  /** Composing one list checks exactly that its masks are accepted. */
  lemma ComposeFiles(r: Readers, names: seq<string>)
    requires AllFilesFit(names)
    ensures ComposeList(r, names, false) == if AllDrafted(r, -1, names) then Some(Joined(names)) else None
  {
    FitFiles(r, names);
    FileText(names);
    AddAllAccepted(r, 0, names, true, NO_MASKS);
    ParseJoinedAlone(r, 0, names);
  }

  lemma ComposeDirectories(r: Readers, names: seq<string>)
    requires AllPlain(names)
    ensures AllTrim(Trimmed(names))
    ensures ComposeList(r, names, true)
            == if AllDrafted(r, -1, Trimmed(names)) then Some(Joined(DirectoryMasks(Trimmed(names)))) else None
  {
    DirectoryMasksOf(r, names);
    DirectoryText(names);
    DirectoryMaskText(names);
    AddAllAccepted(r, 1, Trimmed(names), true, NO_MASKS);
    ParseJoinedAlone(r, 1, Trimmed(names));
  }

  lemma ParseJoinedAlone(r: Readers, force: int, xs: seq<string>)
    requires AllTrim(xs)
    ensures Parse(r, force, Joined(xs)) == AddAll(Adder(Drafter(r, force)), xs, true, NO_MASKS)
  {
    ParseComposed(Adder(Drafter(r, force)), xs, [], NO_MASKS);
  }

  /** All masks accepted. */
  predicate Accepts(r: Readers, names: Names) {
    && AllDrafted(r, -1, names[0]) && AllDrafted(r, -1, names[1])
    && AllDrafted(r, -1, Trimmed(names[2])) && AllDrafted(r, -1, Trimmed(names[3]))
  }

  /** File masks can come back, and directory masks hold no size or time, which they never may. */
  predicate CanCompose(names: Names) {
    AllFilesFit(names[0]) && AllFilesFit(names[1]) && AllPlain(names[2]) && AllPlain(names[3])
  }

  /** With fit file masks, the string is composed exactly if all masks are accepted, and it is
      this one. */
  lemma ComposedString(r: Readers, names: Names)
    requires CanCompose(names)
    ensures AllTrim(Trimmed(names[2])) && AllTrim(Trimmed(names[3]))
    ensures Compose(r, names)
            == if !Accepts(r, names) then None
               else Some(WithExcluded(Joined(names[0] + DirectoryMasks(Trimmed(names[2]))),
                                      Joined(names[1] + DirectoryMasks(Trimmed(names[3])))))
  {
    ComposeFiles(r, names[0]);
    ComposeFiles(r, names[1]);
    ComposeDirectories(r, names[2]);
    ComposeDirectories(r, names[3]);
    DirectoryMasksTrim(Trimmed(names[2]));
    DirectoryMasksTrim(Trimmed(names[3]));
    AddJoined(names[0], DirectoryMasks(Trimmed(names[2])));
    AddJoined(names[1], DirectoryMasks(Trimmed(names[3])));
  }

  /** Read back, file masks are as they were and directory masks come back as Comeback says. */
  lemma ComposeThenParse(r: Readers, names: Names)
    requires CanCompose(names) && Accepts(r, names)
    ensures Compose(r, names).Some? && Parse(r, -1, Compose(r, names).value).Some?
    ensures NamesOf(Parse(r, -1, Compose(r, names).value).value)
            == [names[0], names[1], Comeback(names[2]), Comeback(names[3])]
  {
    ComposedString(r, names);
    DirectoryMasksOf(r, names[2]);
    DirectoryMasksOf(r, names[3]);
    var ds, es := DirectoryMasks(Trimmed(names[2])), DirectoryMasks(Trimmed(names[3]));
    var l := AddFilesAndDirectories(r, names[0], ds, true, NO_MASKS);
    var m := AddFilesAndDirectories(r, names[1], es, false, l);
    ParseComposed(Adder(Drafter(r, -1)), names[0] + ds, names[1] + es, NO_MASKS);
    ExtendedFour(names[0], names[1], Stems(ds), Stems(es));
  }

  lemma ExtendedFour(a: seq<string>, b: seq<string>, c: seq<string>, d: seq<string>)
    ensures Extended(Extended(Extended(Extended(NamesOf(NO_MASKS), 0, a), 2, c), 1, b), 3, d) == [a, b, c, d]
  {
    assert NamesOf(NO_MASKS) == [[], [], [], []];
    assert forall x: seq<string> :: [] + x == x;
  }

  lemma AddFilesAndDirectories(r: Readers, xs: seq<string>, ds: seq<string>, including: bool, l: Lists)
    returns (m: Lists)
    requires AllFilesFit(xs) && AllDrafted(r, -1, xs)
    requires AllTrim(ds) && AllReadAs(r, ds, true) && AllDrafted(r, -1, ds)
    ensures AllTrim(xs + ds) && AddAll(Adder(Drafter(r, -1)), xs + ds, including, l) == Some(m)
    ensures NamesOf(m)
            == Extended(Extended(NamesOf(l), MaskIndex(false, including), xs), MaskIndex(true, including), Stems(ds))
  {
    FitFiles(r, xs);
    AddAllAccepted(r, -1, xs, including, l);
    AddAllNames(r, xs, false, including, l);
    var l' := AddAll(Adder(Drafter(r, -1)), xs, including, l).value;
    AddAllAccepted(r, -1, ds, including, l');
    AddAllNames(r, ds, true, including, l');
    AddAllConcat(Adder(Drafter(r, -1)), xs, ds, including, l);
    m := AddAll(Adder(Drafter(r, -1)), ds, including, l').value;
  }
}
