/** What is stored of a mask: the patterns for file name and directory, sizes and times, spelled
    out; and which characters trim, part and close masks. */
module FileMaskPatterns {
  import opened Basics
  import opened FileMasks
  import opened FileMaskProperties

  // ----- Characters -----

  /** Masks are parted by ; and , and | starts the excluded ones. */
  lemma Separators(c: char)
    ensures IsDelimiter(c) <==> c in {';', ',', '|'}
    ensures IsSlash(c) <==> c in {'/', '\\'}
    ensures IsBoundary(c) <==> c in {'<', '>'}
  {
  }

  /** What is no more than a blank goes from both ends. */
  lemma TrimmedOff(front: string, x: string, back: string)
    requires forall i | 0 <= i < |front| :: front[i] <= ' '
    requires forall i | 0 <= i < |back| :: back[i] <= ' '
    requires x != [] && x[0] > ' ' && x[|x| - 1] > ' '
    ensures Trim(front + x + back) == x
  {
    Associate(front, x, back);
    LeftOff(front, x + back);
    RightOff(x, back);
  }

  lemma {:induction false} LeftOff(front: string, s: string)
    requires (forall i | 0 <= i < |front| :: front[i] <= ' ') && s != [] && s[0] > ' '
    ensures TrimLeft(front + s) == s
  {
    if front == [] {
      AddNothing(s);
    } else {
      assert (front + s)[1..] == front[1..] + s;
      LeftOff(front[1..], s);
    }
  }

  lemma {:induction false} RightOff(s: string, back: string)
    requires (forall i | 0 <= i < |back| :: back[i] <= ' ') && s != [] && s[|s| - 1] > ' '
    ensures TrimRight(s + back) == s
  {
    if back == [] {
      AddNothing(s);
    } else {
      var init := back[..|back| - 1];
      assert (s + back)[..|s + back| - 1] == s + init;
      RightOff(s, init);
    }
  }

  // ----- Patterns for names -----

  /** The path that a directory part stands for: slashes are forward ones, and the last goes unless
      it is all there is. */
  predicate IsUnixPath(dir: string, u: string) {
    if |dir| == 1 then u == "/"
    else |u| + 1 == |dir| && forall i | 0 <= i < |u| :: u[i] == if dir[i] == '\\' then '/' else dir[i]
  }

  lemma {:induction false} UnixPathAt(s: string)
    ensures |ToUnixPath(s)| == |s|
    ensures forall i | 0 <= i < |s| :: ToUnixPath(s)[i] == if s[i] == '\\' then '/' else s[i]
  {
    if s != [] {
      UnixPathAt(s[1..]);
    }
  }

  lemma UnixPathOf(dir: string, u: string)
    requires dir != [] && dir[|dir| - 1] in {'/', '\\'} && IsUnixPath(dir, u)
    ensures ExcludeTrailingSlash(ToUnixPath(dir)) == u
  {
    UnixPathAt(dir);
  }

  /** The pattern for the last part of a name: none needed for any name. */
  function LastPart(name: string): Pattern {
    if name in {"", "*", "*.*"} then AnyName else if name == "*." then NoExtension("*.") else Regular(name)
  }

  lemma LastPartPattern(r: Readers, name: string)
    ensures PatternFor(r, name, true)
            == if LastPart(name) != AnyName && !r.accepts(name) then None else Some(LastPart(name))
  {
  }

  lemma PartedAtLastSlash(dir: string, name: string)
    requires forall i | 0 <= i < |name| :: name[i] !in {'/', '\\'}
    requires dir != [] ==> dir[|dir| - 1] in {'/', '\\'}
    ensures LastSlash(dir + name) == |dir| && (dir + name)[..|dir|] == dir && (dir + name)[|dir|..] == name
  {
    assert forall i | |dir| <= i < |dir + name| :: (dir + name)[i] == name[i - |dir|];
    LastSlashUnique(dir + name, |dir|);
  }

  /** A name is parted behind its last slash: what is before it is the pattern for the directory,
      what is behind it that for the file name. Without a slash any directory will do. */
  lemma PatternsOfName(r: Readers, dir: string, name: string, u: string)
    requires forall i | 0 <= i < |name| :: name[i] !in {'/', '\\'}
    requires dir != [] ==> dir[|dir| - 1] in {'/', '\\'} && IsUnixPath(dir, u)
    ensures NamePatterns(r, dir + name)
            == if (dir != [] && !r.accepts(u)) || (LastPart(name) != AnyName && !r.accepts(name)) then None
               else Some(Patterns(directory := if dir == [] then AnyName else Regular(u), fileName := LastPart(name)))
  {
    PartedAtLastSlash(dir, name);
    LastPartPattern(r, name);
    if dir != [] {
      UnixPathOf(dir, u);
    }
  }

  lemma {:induction false} StripOff(s: string, slashes: string)
    requires (forall i | 0 <= i < |slashes| :: slashes[i] in {'/', '\\'}) && (s == [] || s[|s| - 1] !in {'/', '\\'})
    ensures StripSlashes(s + slashes) == s
  {
    if slashes == [] {
      AddNothing(s);
    } else {
      var init := slashes[..|slashes| - 1];
      assert (s + slashes)[..|s + slashes| - 1] == s + init;
      StripOff(s, init);
    }
  }

  /** What a mask without size and time stores, if it is accepted: slashes at its end only tell its
      kind. */
  lemma StoredPatterns(r: Readers, force: int, dir: string, name: string, slashes: string, u: string)
    requires var x := dir + name + slashes; IsTrim(x) && IsPlain(x) && DraftOf(r, force, x).Some?
    requires forall i | 0 <= i < |name| :: name[i] !in {'/', '\\'}
    requires forall i | 0 <= i < |slashes| :: slashes[i] in {'/', '\\'}
    requires dir != [] ==> name != [] && dir[|dir| - 1] in {'/', '\\'} && IsUnixPath(dir, u)
    ensures var m := DraftOf(r, force, dir + name + slashes).value.mask;
            m.directory == (if dir == [] then AnyName else Regular(u)) && m.fileName == LastPart(name)
  {
    StripOff(dir + name, slashes);
    PatternsOfName(r, dir, name, u);
    DraftOfPart(r, force, dir + name + slashes);
  }

  /** Its own string is the mask as given; only where directories are not told by slashes, these
      are gone from it as well. */
  lemma StoredText(r: Readers, force: int, name: string, slashes: string)
    requires var x := name + slashes; IsTrim(x) && IsPlain(x) && DraftOf(r, force, x).Some?
    requires forall i | 0 <= i < |slashes| :: slashes[i] in {'/', '\\'}
    requires name == [] || name[|name| - 1] !in {'/', '\\'}
    ensures var m := DraftOf(r, force, name + slashes).value.mask;
            && m.userStr == name
            && (slashes != [] ==> m.maskStr == if force == 0 then name else name + slashes)
            && (slashes == [] && force <= 0 ==> m.maskStr == name)
  {
    var x := name + slashes;
    StripOff(name, slashes);
    DraftOfPart(r, force, x);
    assert x[..|name|] == name && x[|x|..] == [] && name + [] == name;
  }

  /** A list of directories only takes a name without a slash at its end as it is shown, and as its
      own string with a slash before the last character. */
  lemma StoredForDirectories(r: Readers, x: string, c: char)
    requires IsTrim(x + [c]) && IsPlain(x + [c]) && !IsSlash(c) && DraftOf(r, 1, x + [c]).Some?
    ensures var m := DraftOf(r, 1, x + [c]).value.mask; m.userStr == x + [c] && m.maskStr == x + ['/', c]
  {
    DraftOfPart(r, 1, x + [c]);
    StripShortens(x + [c]);
    assert (x + [c])[..|x|] == x && (x + [c])[|x|..] == [c];
    assert x + ['/'] + [c] == x + ['/', c];
  }

  // ----- Sizes and times -----

  lemma WithBound(r: Readers, force: int, x: string, c: char, p: string)
    requires IsTrim(x) && IsPlain(x) && IsTrim(p) && IsPlain(p) && c in {'<', '>'}
    ensures var s := x + ([c] + p);
            && FirstStep(r, force, s) == NameStep(r, force, NewMask(s), x, 0)
            && DraftOf(r, force, s)
               == if FirstStep(r, force, s).None? then None
                  else BoundaryStep(r, FirstStep(r, force, s).value, p, c == '>')
  {
    var s := x + ([c] + p);
    PieceBefore(x, c, p);
    PlainPiece(p, BoundaryDelimiters);
    TrimIsTrim(x);
    TrimIsTrim(p);
    TrimLeftPad(x);
    if FirstStep(r, force, s).Some? {
      DraftWithMore(r, force, s, |x|, FirstStep(r, force, s).value);
    }
  }

  lemma {:induction false} PieceBefore(x: string, c: char, p: string)
    requires IsPlain(x) && c in {'<', '>'} && p != [] && !IsBoundary(p[0])
    ensures var s := x + ([c] + p);
            && PieceEnd(s, BoundaryDelimiters) == |x| && PieceOf(s, BoundaryDelimiters) == x
            && s[|x|] == c && s[|x| + 1..] == p
  {
    var s := x + ([c] + p);
    if x == [] {
      assert s == [c] + p && s[1] == p[0];
    } else {
      PieceBefore(x[1..], c, p);
      assert s[1..] == x[1..] + ([c] + p);
      HeadAndTail(x);
    }
  }

  /** Behind < stands the highest size or time, behind > the lowest; an equals sign includes it. A
      text that reads as a time is one. */
  lemma StoredBound(r: Readers, x: string, c: char, closed: bool, t: string)
    requires IsTrim(x) && IsPlain(x) && !IsSlash(x[|x| - 1]) && DraftOf(r, -1, x).Some?
    requires IsTrim(t) && IsPlain(t) && (closed || t[0] != '=') && c in {'<', '>'}
    ensures var b := DraftOf(r, -1, x + ([c] + (if closed then "=" + t else t)));
            var time, size := r.readTime(t), r.readSize(t);
            if time.None? && size.None? then b.None?
            else
              var bound := if closed then Close((if time.Some? then time else size).value)
                           else Open((if time.Some? then time else size).value);
              && b.Some? && !b.value.directory
              && b.value.mask.highTime == (if time.Some? && c == '<' then bound else NoBoundary)
              && b.value.mask.lowTime == (if time.Some? && c == '>' then bound else NoBoundary)
              && b.value.mask.highSize == (if time.None? && c == '<' then bound else NoBoundary)
              && b.value.mask.lowSize == (if time.None? && c == '>' then bound else NoBoundary)
  {
    var p := if closed then "=" + t else t;
    assert closed ==> p[1..] == t;
    WithBound(r, -1, x, c, p);
    DraftOfPart(r, -1, x);
    StripShortens(x);
  }

  /** A second size, or a second time, in the same direction is an error. */
  lemma TwiceBounded(r: Readers, d: Draft, s: string, t: string, low: bool)
    requires s != [] && t != [] && s[0] != '=' && t[0] != '='
    requires BoundaryStep(r, d, s, low).Some? && (r.readTime(s).Some? <==> r.readTime(t).Some?)
    ensures BoundaryStep(r, BoundaryStep(r, d, s, low).value, t, low) == None
  {
  }

  // ----- Composed strings -----

  /** A separator that belongs to a mask is written twice, all else once. */
  lemma DoubledSpelled(a: string, b: string)
    ensures Doubled(";") == ";;" && Doubled(",") == ",," && Doubled("|") == "||"
    ensures (forall i | 0 <= i < |a| :: a[i] !in {';', ',', '|'}) ==> Doubled(a) == a
    ensures Doubled(a + b) == Doubled(a) + Doubled(b)
  {
    if forall i | 0 <= i < |a| :: a[i] !in {';', ',', '|'} {
      DoubledPlain(a);
    }
    DoubledConcat(a, b);
  }

  /** A directory mask gets the slash at its end that it has elsewhere, the last one, or else a
      forward one. */
  lemma DirectoryMaskSpelled(dir: string, c: char, name: string)
    requires name != [] && forall i | 0 <= i < |name| :: name[i] !in {'/', '\\'}
    ensures MakeDirectoryMask(name) == name + "/"
    ensures c in {'/', '\\'} ==> MakeDirectoryMask(dir + [c] + name) == dir + [c] + name + [c]
    ensures c in {'/', '\\'} ==> MakeDirectoryMask(dir + [c]) == dir + [c]
  {
    LastSlashUnique(name, 0);
    if c in {'/', '\\'} {
      PartedAtLastSlash(dir + [c], name);
    }
  }

  /** Between masks stands a semicolon and a blank, before the excluded ones a bar. */
  lemma SeparatorsSpelled(x: string, y: string)
    ensures Joined([x, y]) == Doubled(x) + "; " + Doubled(y)
    ensures WithExcluded(x, []) == x && (y != [] ==> WithExcluded([], y) == "| " + y)
    ensures x != [] && y != [] ==> WithExcluded(x, y) == x + " | " + y
  {
    assert [x, y][1..] == [y];
    Associate(x, " ", "|");
    Associate(x, " " + "|", " ");
    assert " " + "|" + " " == " | ";
    AddNothing(['|']);
  }

  /** A file mask and a directory mask of one side. */
  lemma FileAndDirectory(a: string, c: string)
    requires IsTrim(c)
    ensures Trimmed([c]) == [c] && AllTrim([c])
    ensures Joined([a] + DirectoryMasks(Trimmed([c]))) == Doubled(a) + "; " + Doubled(MakeDirectoryMask(c))
  {
    TrimIsTrim(c);
    assert [c][..0] == [] && Trimmed([]) == [];
    assert DirectoryMasks([c]) == [MakeDirectoryMask(c)];
    assert ([a] + [MakeDirectoryMask(c)])[1..] == [MakeDirectoryMask(c)];
  }
}
