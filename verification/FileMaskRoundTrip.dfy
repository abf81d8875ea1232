/** Exactly which four lists of masks come back from the string that is composed of them. */
module FileMaskRoundTrip {
  import opened Basics
  import opened FileMasks
  import opened FileMaskProperties
  import opened FileMaskCuts

  // ----- Directory masks -----

  /** What doubles a delimiter is shorter than it looks. */
  lemma {:induction false} PieceIsShorter(s: string, ds: Delimiters)
    requires PieceEnd(s, ds) == |s|
    ensures |PieceOf(s, ds)| == |s| ==> forall i | 0 <= i < |s| :: !In(s[i], ds)
    decreases |s|
  {
    if s != [] {
      if In(s[0], ds) {
        PieceIsShorter(s[2..], ds);
      } else {
        PieceIsShorter(s[1..], ds);
        assert |PieceOf(s, ds)| == |s| ==> forall i | 1 <= i < |s| :: s[i] == s[1..][i - 1];
      }
    }
  }

  lemma DirectoryTakesNone(r: Readers, d: Draft, s: string, low: bool)
    requires d.directory && s != []
    ensures BoundariesFrom(r, d, s, low) == None
  {
  }

  lemma NotLast(e: string)
    requires e != [] && !IsBoundary(e[|e| - 1]) && PieceEnd(e, BoundaryDelimiters) < |e|
    ensures PieceEnd(e, BoundaryDelimiters) + 1 < |e|
  {
    PieceStops(e, BoundaryDelimiters);
  }

  lemma SizedDirectory(r: Readers, e: string)
    requires PieceEnd(e, BoundaryDelimiters) + 1 < |e|
    requires FirstStep(r, -1, e).Some? && FirstStep(r, -1, e).value.directory
    ensures DraftOf(r, -1, e) == None
  {
    var end, d := PieceEnd(e, BoundaryDelimiters), FirstStep(r, -1, e).value;
    DraftWithMore(r, -1, e, end, d);
    DirectoryTakesNone(r, d, e[end + 1..], e[end] == '>');
  }

  /** A directory mask with a slash at its end has no size and no time. */
  lemma DirectoryIsAllName(r: Readers, e: string)
    requires IsTrim(e) && IsSlash(e[|e| - 1])
    requires DraftOf(r, -1, e).Some? && DraftOf(r, -1, e).value.directory
    ensures PieceEnd(e, BoundaryDelimiters) == |e| && DraftOf(r, -1, e) == FirstStep(r, -1, e)
  {
    if PieceEnd(e, BoundaryDelimiters) < |e| {
      NotLast(e);
      DraftIsFirstWithBounds(r, -1, e);
      SizedDirectory(r, e);
      assert false;
    } else {
      DraftIsFirst(r, -1, e);
    }
  }

  lemma FixedIsGood(x: string)
    requires x == StripSlashes(Trim(x)) && Trim(x) != []
    ensures IsGood(x)
  {
    TrimIsTrim(x);
    TrimLeftOf(x);
    TrimRightOf(TrimLeft(x));
    StripShortens(Trim(x));
    assert |Trim(x)| == |x| && Trim(x) == x;
  }

  lemma {:induction false} NoneDropped(names: seq<string>)
    requires |Trimmed(names)| == |names|
    ensures forall i | 0 <= i < |names| :: Trimmed(names)[i] == Trim(names[i]) && Trim(names[i]) != []
  {
    if names != [] {
      NoneDropped(names[..|names| - 1]);
    }
  }

  lemma {:induction false} TrimmedOfGood(names: seq<string>)
    requires AllGood(names)
    ensures Trimmed(names) == names
  {
    if names != [] {
      InitIsGood(names);
      TrimmedOfGood(names[..|names| - 1]);
      TrimIsTrim(names[|names| - 1]);
    }
  }

  /** A list of directory masks is its own comeback exactly if all its masks are fit. */
  lemma ComebackIsSame(names: seq<string>)
    ensures Comeback(names) == names <==> AllGood(names)
    ensures AllGood(names) ==> Trimmed(names) == names
  {
    if Comeback(names) == names {
      NoneDropped(names);
      forall i | 0 <= i < |names| ensures IsGood(names[i]) {
        FixedIsGood(names[i]);
      }
    }
    if AllGood(names) {
      TrimmedOfGood(names);
      forall i | 0 <= i < |names| ensures StripSlashes(names[i]) == names[i] {
      }
    }
  }

  /** What is left of a name with a doubled size or time delimiter still ends in a slash, since
      slashes are taken off as many characters before the end as delimiters were halved. */
  lemma HalvedEndsInSlash(r: Readers, e: string)
    requires IsTrim(e) && IsSlash(e[|e| - 1]) && !IsPlain(e) && PieceEnd(e, BoundaryDelimiters) == |e|
    requires FirstStep(r, -1, e).Some?
    ensures var n := FirstStep(r, -1, e).value.mask.userStr; n != [] && |n| < |e| && n[|n| - 1] == e[|e| - 1]
  {
    var part, start := HalvedName(e);
    NameLosesSlashes(r, NewMask(e), part, start);
  }

  lemma HalvedName(e: string) returns (part: string, start: nat)
    requires IsTrim(e) && IsSlash(e[|e| - 1]) && !IsPlain(e) && PieceEnd(e, BoundaryDelimiters) == |e|
    ensures part == Trim(PieceOf(e, BoundaryDelimiters)) && start == TrimmedStart(PieceOf(e, BoundaryDelimiters))
    ensures part != [] && IsSlash(part[|part| - 1]) && start + |part| < |e|
  {
    var piece := PieceOf(e, BoundaryDelimiters);
    PieceIsShorter(e, BoundaryDelimiters);
    WholeName(e);
    part, start := Trim(piece), TrimmedStart(piece);
  }

  lemma NameLosesSlashes(r: Readers, mask: Mask, part: string, start: nat)
    requires part != [] && IsSlash(part[|part| - 1])
    requires start + |part| < |mask.userStr| && start + |part| <= |mask.maskStr|
    requires NameStep(r, -1, mask, part, start).Some?
    ensures var e, n := mask.userStr, NameStep(r, -1, mask, part, start).value.mask.userStr;
            n != [] && |n| < |e| && n[|n| - 1] == e[|e| - 1]
  {
    StripShortens(part);
  }

  /** If a name comes back from its directory mask, it is trimmed, ends in no slash and holds
      no size or time. */
  lemma DirectoryIsFit(r: Readers, n: string)
    requires Trim(n) != []
    requires var d := DraftOf(r, -1, MakeDirectoryMask(Trim(n)));
             d.Some? && d.value.directory && d.value.mask.userStr == n
    ensures IsGood(n) && IsPlain(n)
  {
    var x := Trim(n);
    var e := MakeDirectoryMask(x);
    TrimIsTrim(n);
    DirectoryMaskStem(x);
    StripShortens(e);
    DirectoryIsAllName(r, e);
    PieceIsShorter(e, BoundaryDelimiters);
    if IsPlain(e) {
      DraftOfName(r, -1, e);
      FixedIsGood(n);
    } else {
      HalvedEndsInSlash(r, e);
      TrimKeepsLast(n);
      assert false;
    }
  }

  lemma AddAllFirst(draft: Drafting, xs: seq<string>, including: bool, l: Lists, m: Lists) returns (next: Lists)
    requires xs != [] && AddAll(Adder(draft), xs, including, l) == Some(m)
    ensures AddMask(draft, xs[0], including, l) == Some(next)
    ensures AddAll(Adder(draft), xs[1..], including, next) == Some(m)
  {
    next := AddMask(draft, xs[0], including, l).value;
  }

  /** Adding masks to one side leaves the other side alone. */
  lemma {:induction false} AddAllExtends(draft: Drafting, xs: seq<string>, including: bool, l: Lists, m: Lists, i: nat)
    requires i < 4 && AddAll(Adder(draft), xs, including, l) == Some(m)
    ensures Extends(m, l, i) && (i % 2 != MaskIndex(false, including) ==> m[i] == l[i])
    decreases |xs|
  {
    if xs != [] {
      var next := AddAllFirst(draft, xs, including, l, m);
      AddExtends(draft, xs[0], including, l, i);
      AddAllExtends(draft, xs[1..], including, next, m, i);
      ExtendsOn(m, next, l, i);
    }
  }

  /** The mask x is a directory mask, and stands at position p. */
  predicate StandsAt(draft: Drafting, x: string, masks: seq<Mask>, p: nat) {
    p < |masks| && draft(x) == Some(Draft(masks[p], true))
  }

  lemma OneDirectory(draft: Drafting, x: string, including: bool, l: Lists, next: Lists, m: Lists)
    requires x != [] && AddMask(draft, x, including, l) == Some(next)
    requires var k := MaskIndex(false, including); Extends(m, next, k) && |m[k]| == |l[k]|
    requires Extends(m, next, MaskIndex(true, including))
    ensures var k := MaskIndex(true, including); |next[k]| == |l[k]| + 1 && StandsAt(draft, x, m[k], |l[k]|)
    ensures |next[MaskIndex(false, including)]| == |l[MaskIndex(false, including)]|
  {
    var k := MaskIndex(true, including);
    var d := draft(x).value;
    assert d.directory;
    assert m[k][..|next[k]|][|l[k]|] == m[k][|l[k]|];
  }

  predicate AllStandAt(draft: Drafting, xs: seq<string>, masks: seq<Mask>, p: nat) {
    forall j | 0 <= j < |xs| :: StandsAt(draft, xs[j], masks, p + j)
  }

  lemma FirstStands(draft: Drafting, xs: seq<string>, masks: seq<Mask>, p: nat)
    requires xs != [] && StandsAt(draft, xs[0], masks, p) && AllStandAt(draft, xs[1..], masks, p + 1)
    ensures AllStandAt(draft, xs, masks, p)
  {
    forall j | 0 <= j < |xs| ensures StandsAt(draft, xs[j], masks, p + j) {
      if j > 0 {
        assert StandsAt(draft, xs[1..][j - 1], masks, p + 1 + (j - 1));
      }
    }
  }

  /** If the list of files does not grow, every mask added is one of directories. */
  lemma {:induction false} AllDirectories(draft: Drafting, xs: seq<string>, including: bool, l: Lists, m: Lists)
    requires AllTrim(xs) && AddAll(Adder(draft), xs, including, l) == Some(m)
    requires |m[MaskIndex(false, including)]| == |l[MaskIndex(false, including)]|
    ensures var k := MaskIndex(true, including); |m[k]| == |l[k]| + |xs| && AllStandAt(draft, xs, m[k], |l[k]|)
    decreases |xs|
  {
    if xs != [] {
      var k := MaskIndex(true, including);
      var next := AddAllFirst(draft, xs, including, l, m);
      AddAllExtends(draft, xs[1..], including, next, m, MaskIndex(false, including));
      AddAllExtends(draft, xs[1..], including, next, m, k);
      OneDirectory(draft, xs[0], including, l, next, m);
      AllDirectories(draft, xs[1..], including, next, m);
      FirstStands(draft, xs, m[k], |l[k]|);
    }
  }

  lemma DirectoriesStand(draft: Drafting, fs: seq<string>, ds: seq<string>, including: bool, l: Lists,
                         m: Lists)
    requires ShowsFiles(draft) && AllFilesFit(fs) && AllTrim(ds)
    requires AddAll(Adder(draft), fs + ds, including, l) == Some(m)
    requires var k := MaskIndex(false, including); |l[k]| == |l[k + 2]| == 0 && |m[k]| == |fs|
    ensures var k := MaskIndex(true, including); |m[k]| == |ds| && AllStandAt(draft, ds, m[k], 0)
  {
    AddAllConcat(Adder(draft), fs, ds, including, l);
    var a := AddAll(Adder(draft), fs, including, l).value;
    AddAllFiles(draft, fs, including, l, a);
    AllDirectories(draft, ds, including, a, m);
  }

  /** Directory masks come back only if they hold no size and no time. */
  lemma DirectoriesArePlain(r: Readers, ns: seq<string>, masks: seq<Mask>)
    requires AllTrim(Trimmed(ns)) && |masks| == |Trimmed(ns)| && UserStrs(masks) == ns
    requires AllStandAt(Drafter(r, -1), DirectoryMasks(Trimmed(ns)), masks, 0)
    ensures AllPlain(ns)
  {
    var ds := DirectoryMasks(Trimmed(ns));
    NoneDropped(ns);
    forall j | 0 <= j < |ns| ensures IsPlain(ns[j]) {
      UserStrsAt(masks, j);
      assert StandsAt(Drafter(r, -1), ds[j], masks, 0 + j);
      DirectoryIsFit(r, ns[j]);
    }
  }

  // ----- Exactly which lists come back -----

  /** Each mask can come back and is accepted: none is empty, all are trimmed and end in no slash;
      the names of file masks end in no slash either, and directory masks hold no size and no
      time. */
  predicate AllFit(r: Readers, names: Names) {
    && CanCompose(names) && AllGood(names[2]) && AllGood(names[3])
    && AllDrafted(r, -1, names[0]) && AllDrafted(r, -1, names[1])
    && AllDrafted(r, -1, names[2]) && AllDrafted(r, -1, names[3])
  }

  lemma FitComeBack(r: Readers, names: Names)
    requires AllFit(r, names)
    ensures RoundTrips(r, names)
  {
    ComebackIsSame(names[2]);
    ComebackIsSame(names[3]);
    ComposeThenParse(r, names);
    assert [names[0], names[1], names[2], names[3]] == names;
  }

  /** What composing puts together: the texts of the lists. */
  function SideText(files: seq<string>, directories: seq<string>): string {
    AddToList(JoinTexts(TextsOf(files, false)), JoinTexts(TextsOf(directories, true)))
  }

  lemma SideTextIs(files: seq<string>, directories: seq<string>)
    ensures AllTrim(Trimmed(directories))
    ensures SideText(files, directories)
            == AddToList(JoinTexts(TextsOf(files, false)), Joined(DirectoryMasks(Trimmed(directories))))
    ensures AllFilesFit(files) ==>
              && AllTrim(files + DirectoryMasks(Trimmed(directories)))
              && SideText(files, directories) == Joined(files + DirectoryMasks(Trimmed(directories)))
  {
    DirectoryMaskText(directories);
    DirectoryMasksTrim(Trimmed(directories));
    if AllFilesFit(files) {
      FileText(files);
      AddJoined(files, DirectoryMasks(Trimmed(directories)));
    }
  }

  lemma SideTextIsThere(files: seq<string>, directories: seq<string>)
    requires AllFileMasks(files) && files != []
    ensures SideText(files, directories) != []
  {
    FilesTextIs(files);
    FileMaskText(files[|files| - 1]);
  }

  lemma ComposeIs(r: Readers, names: Names)
    requires Compose(r, names).Some?
    ensures Compose(r, names).value == WithExcluded(SideText(names[0], names[2]), SideText(names[1], names[3]))
  {
  }

  lemma TailOfSide(s: string, t: string) returns (lead: string, tail: string)
    requires s != []
    ensures IsPad(lead) && IsTail(tail) && WithExcluded(s, t) == lead + (s + tail)
  {
    lead := "";
    if t == [] {
      tail := [];
      AddNothing(s);
    } else {
      tail := " " + ([EXCLUDE] + (" " + t));
      ExcludedText(s, t);
      AddNothing(s);
    }
    AddNothing(s + tail);
  }

  /** The masks of both sides, one after the other. */
  lemma ParseSides(draft: Drafting, xs: seq<string>, t: string, m: Lists) returns (a: Lists)
    requires AllTrim(xs) && ParseFrom(Adder(draft), WithExcluded(Joined(xs), t), true, NO_MASKS) == Some(m)
    ensures AddAll(Adder(draft), xs, true, NO_MASKS) == Some(a) && |a[1]| == |a[3]| == 0
    ensures if t == [] then m == a else ParseFrom(Adder(draft), " " + t, false, a) == Some(m)
    ensures m[0] == a[0] && m[2] == a[2]
  {
    a := ParseFirstSide(draft, xs, t, m);
    AddAllExtends(draft, xs, true, NO_MASKS, a, 1);
    AddAllExtends(draft, xs, true, NO_MASKS, a, 3);
    if t != [] {
      ParseExtends(draft, " " + t, false, a, m, 0);
      ParseExtends(draft, " " + t, false, a, m, 2);
    }
  }

  lemma ParseFirstSide(draft: Drafting, xs: seq<string>, t: string, m: Lists) returns (a: Lists)
    requires AllTrim(xs) && ParseFrom(Adder(draft), WithExcluded(Joined(xs), t), true, NO_MASKS) == Some(m)
    ensures AddAll(Adder(draft), xs, true, NO_MASKS) == Some(a)
    ensures if t == [] then m == a else ParseFrom(Adder(draft), " " + t, false, a) == Some(m)
  {
    if t == [] {
      ParseComposed(Adder(draft), xs, [], NO_MASKS);
    } else {
      ExcludedText(Joined(xs), t);
      if xs == [] {
        ExclusionFirst(Adder(draft), " " + t, NO_MASKS);
      } else {
        JoinedEnds(xs);
        ParseIncluded(Adder(draft), "", xs, " " + t, NO_MASKS);
      }
    }
    a := AddAll(Adder(draft), xs, true, NO_MASKS).value;
  }

  lemma ExcludedStand(draft: Drafting, files: seq<string>, ds: seq<string>, t: string,
                      a: Lists, m: Lists)
    requires ShowsFiles(draft) && AllFilesFit(files) && AllTrim(ds) && AllTrim(files + ds)
    requires t == Joined(files + ds) && t != []
    requires |m[1]| == |files| && |a[1]| == |a[3]| == 0
    requires ParseFrom(Adder(draft), " " + t, false, a) == Some(m)
    ensures |m[3]| == |ds| && AllStandAt(draft, ds, m[3], 0)
  {
    AddNothing(" " + t);
    ParseJoined(Adder(draft), " ", files + ds, false, a);
    DirectoriesStand(draft, files, ds, false, a, m);
  }

  lemma IncludedStand(draft: Drafting, files: seq<string>, ds: seq<string>, a: Lists)
    requires ShowsFiles(draft) && AllFilesFit(files) && AllTrim(ds) && |a[0]| == |files|
    requires AddAll(Adder(draft), files + ds, true, NO_MASKS) == Some(a)
    ensures |a[2]| == |ds| && AllStandAt(draft, ds, a[2], 0)
  {
    DirectoriesStand(draft, files, ds, true, NO_MASKS, a);
  }

  /** The masks are read as directory masks, one after the other. */
  predicate ReadAsDirectories(draft: Drafting, ns: seq<string>, masks: seq<Mask>) {
    && AllTrim(Trimmed(ns)) && |masks| == |Trimmed(ns)|
    && AllStandAt(draft, DirectoryMasks(Trimmed(ns)), masks, 0)
  }

  lemma IncludedAreFit(draft: Drafting, files: seq<string>, ds: seq<string>, s: string, t: string, l: Lists, m: Lists)
    requires ShowsFiles(draft) && AllFileMasks(files) && AllTrim(ds)
    requires s == AddToList(FilesText(files), Joined(ds)) && s != []
    requires ParseFrom(Adder(draft), WithExcluded(s, t), true, l) == Some(m)
    requires |l[0]| == |l[2]| == 0 && UserStrs(m[0]) == files && |m[2]| >= |ds|
    ensures AllFilesFit(files)
  {
    var lead, tail := TailOfSide(s, t);
    FilesAreFit(draft, files, ds, s, WithExcluded(s, t), lead, tail, true, 0, 2, l, m);
  }

  lemma ExcludedAreFit(draft: Drafting, files: seq<string>, ds: seq<string>, t: string, whole: string,
                       l: Lists, m: Lists)
    requires ShowsFiles(draft) && AllFileMasks(files) && AllTrim(ds)
    requires t == AddToList(FilesText(files), Joined(ds)) && whole == " " + (t + "")
    requires ParseFrom(Adder(draft), whole, false, l) == Some(m)
    requires |l[1]| == |l[3]| == 0 && UserStrs(m[1]) == files && |m[3]| >= |ds|
    ensures AllFilesFit(files)
  {
    FilesAreFit(draft, files, ds, t, whole, " ", "", false, 1, 3, l, m);
  }

  /** Whatever comes back on the side of included masks, its file masks end in no slash, and its
      directory masks are read as such. */
  lemma IncludedSide(draft: Drafting, files: seq<string>, directories: seq<string>, s: string,
                     t: string, m: Lists)
    returns (a: Lists)
    requires ShowsFiles(draft) && AllFileMasks(files) && UserStrs(m[0]) == files && |m[2]| == |directories|
    requires s == SideText(files, directories)
    requires ParseFrom(Adder(draft), WithExcluded(s, t), true, NO_MASKS) == Some(m)
    ensures AllFilesFit(files) && ReadAsDirectories(draft, directories, m[2]) && |a[1]| == |a[3]| == 0
    ensures if t == [] then m == a else ParseFrom(Adder(draft), " " + t, false, a) == Some(m)
  {
    var ds := SideMasks(files, directories);
    if files != [] {
      IncludedAreFit(draft, files, ds, s, t, NO_MASKS, m);
    }
    SideTextIs(files, directories);
    a := ParseSides(draft, files + ds, t, m);
    IncludedStand(draft, files, ds, a);
  }

  lemma SideMasks(files: seq<string>, directories: seq<string>) returns (ds: seq<string>)
    requires AllFileMasks(files)
    ensures AllTrim(Trimmed(directories)) && ds == DirectoryMasks(Trimmed(directories)) && AllTrim(ds)
    ensures |ds| <= |directories|
    ensures SideText(files, directories) == AddToList(FilesText(files), Joined(ds))
    ensures files != [] ==> SideText(files, directories) != []
  {
    SideTextIs(files, directories);
    FilesTextIs(files);
    ds := DirectoryMasks(Trimmed(directories));
    DirectoryMasksTrim(Trimmed(directories));
    if files != [] {
      SideTextIsThere(files, directories);
    }
  }

  /** The same on the other side. */
  lemma ExcludedSide(draft: Drafting, files: seq<string>, directories: seq<string>, t: string, a: Lists,
                     m: Lists)
    requires ShowsFiles(draft) && AllFileMasks(files) && UserStrs(m[1]) == files && |m[3]| == |directories|
    requires |a[1]| == |a[3]| == 0 && t == SideText(files, directories) && t != []
    requires ParseFrom(Adder(draft), " " + t, false, a) == Some(m)
    ensures AllFilesFit(files) && ReadAsDirectories(draft, directories, m[3])
  {
    var ds := SideMasks(files, directories);
    AddNothing(t);
    ExcludedAreFit(draft, files, ds, t, " " + t, a, m);
    SideTextIs(files, directories);
    ExcludedStand(draft, files, ds, t, a, m);
  }

  /** Whatever comes back, its file masks end in no slash and its directory masks hold no size
      and no time. */
  lemma OnlyFitIsComposed(r: Readers, names: Names)
    requires RoundTrips(r, names)
    ensures CanCompose(names)
  {
    var s, t := SideText(names[0], names[2]), SideText(names[1], names[3]);
    ComposeIs(r, names);
    var m := Parse(r, -1, Compose(r, names).value).value;
    ParsedFilesAreShown(r, Compose(r, names).value);
    DrafterShowsFiles(r);
    var a := IncludedSide(Drafter(r, -1), names[0], names[2], s, t, m);
    DirectoriesArePlain(r, names[2], m[2]);
    if t != [] {
      ExcludedSide(Drafter(r, -1), names[1], names[3], t, a, m);
      DirectoriesArePlain(r, names[3], m[3]);
    }
  }

  lemma OnlyFitComeBack(r: Readers, names: Names)
    requires RoundTrips(r, names)
    ensures AllFit(r, names)
  {
    OnlyFitIsComposed(r, names);
    ComposedString(r, names);
    ComposeThenParse(r, names);
    ComebackIsSame(names[2]);
    ComebackIsSame(names[3]);
  }

  /** Four lists come back from the string composed of them exactly if each mask is fit. */
  lemma RoundTripsExactly(r: Readers, names: Names)
    ensures RoundTrips(r, names) <==> AllFit(r, names)
  {
    if RoundTrips(r, names) {
      OnlyFitComeBack(r, names);
    }
    if AllFit(r, names) {
      FitComeBack(r, names);
    }
  }

  /** A slash at the end of a mask is lost, even where it belongs to a size or time, whatever
      masks are accepted. */
  lemma SlashIsNotKept(r: Readers, x: string)
    requires x != [] && IsSlash(x[|x| - 1])
    ensures !RoundTrips(r, [[x], [], [], []]) && !RoundTrips(r, [[], [], [x], []])
  {
    var files: Names, directories: Names := [[x], [], [], []], [[], [], [x], []];
    RoundTripsExactly(r, files);
    RoundTripsExactly(r, directories);
    assert !IsGood(files[0][0]) && !IsGood(directories[2][0]);
  }

  /** Nor does a directory mask come back that holds a size or time delimiter, even one that is
      doubled so that it stands for itself: the wrong character is taken for the slash. */
  lemma DelimiterIsNotKept(r: Readers, x: string)
    requires !IsPlain(x)
    ensures !RoundTrips(r, [[], [], [x], []])
  {
    var names: Names := [[], [], [x], []];
    RoundTripsExactly(r, names);
    assert names[2][0] == x;
  }
}
