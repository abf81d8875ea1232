/** TFileMasks: the string, the four lists parsed from it and the cache of their names; and
    composing a string. Positions count from 0; an error is a result that is not ok. */
module FileMaskLists {
  import opened Basics
  import opened FileMasks
  import opened FileMaskProperties
  import opened FileMaskRoundTrip

  /** The piece has been copied up to p. */
  ghost predicate Copied(str: string, from0: nat, p: nat, ds: Delimiters, result: string)
    requires from0 <= |str|
  {
    && from0 <= p <= |str|
    && PieceOf(str[from0..], ds) == result + PieceOf(str[p..], ds)
    && PieceEnd(str[from0..], ds) == p - from0 + PieceEnd(str[p..], ds)
  }

  /** A single delimiter stands at p. */
  predicate IsSingle(str: string, p: nat, ds: Delimiters)
    requires p < |str|
  {
    In(str[p], ds) && !(p + 1 < |str| && In(str[p + 1], ds))
  }

  /** CopyToChars, with doubled delimiters as escapes and without trimming. */
  method CopyToChars(str: string, from0: nat, ds: Delimiters) returns (result: string, from: nat, delimiter: char)
    requires from0 <= |str|
    ensures result == PieceOf(str[from0..], ds)
    ensures from == from0 + PieceEnd(str[from0..], ds) + 1
    ensures delimiter == if from <= |str| then str[from - 1] else NUL
  {
    result := [];
    var p: nat := from0;
    while p < |str| && !IsSingle(str, p, ds)
      invariant p <= |str| && Copied(str, from0, p, ds, result)
      decreases |str| - p
    {
      p, result := CopyRound(str, from0, p, ds, result);
    }
    CopiedAll(str, from0, p, ds, result);
    delimiter := if p < |str| then str[p] else NUL;
    from := p + 1;
  }

  /** One character copied, and skipped over if it is the first of two delimiters. */
  method CopyRound(str: string, ghost from0: nat, p0: nat, ds: Delimiters, result0: string)
    returns (p: nat, result: string)
    requires from0 <= |str| && p0 < |str| && !IsSingle(str, p0, ds) && Copied(str, from0, p0, ds, result0)
    ensures p0 < p <= |str| && Copied(str, from0, p, ds, result)
  {
    CopyStep(str, from0, p0, ds, result0);
    result := result0 + [str[p0]];
    p := p0 + if In(str[p0], ds) then 2 else 1;
  }

  lemma CopyStep(str: string, from0: nat, p: nat, ds: Delimiters, result: string)
    requires from0 <= |str| && p < |str| && !IsSingle(str, p, ds) && Copied(str, from0, p, ds, result)
    ensures Copied(str, from0, p + if In(str[p], ds) then 2 else 1, ds, result + [str[p]])
  {
    var s := str[p..];
    assert s[0] == str[p] && s[1..] == str[p + 1..];
    if In(str[p], ds) {
      assert s[1] == str[p + 1] && s[2..] == str[p + 2..];
      Associate(result, [str[p]], PieceOf(str[p + 2..], ds));
    } else {
      Associate(result, [str[p]], PieceOf(str[p + 1..], ds));
    }
  }

  lemma CopiedAll(str: string, from0: nat, p: nat, ds: Delimiters, result: string)
    requires from0 <= |str| && Copied(str, from0, p, ds, result) && (p < |str| ==> IsSingle(str, p, ds))
    ensures result == PieceOf(str[from0..], ds) && p == from0 + PieceEnd(str[from0..], ds)
  {
    StopsHere(str, p, ds);
    AddNothing(result);
  }

  lemma StopsHere(str: string, p: nat, ds: Delimiters)
    requires p <= |str| && (p < |str| ==> IsSingle(str, p, ds))
    ensures PieceOf(str[p..], ds) == [] && PieceEnd(str[p..], ds) == 0
  {
    if p + 1 < |str| {
      assert str[p..][1] == str[p + 1];
    }
  }

  /** How far the slashes at the end of a part have been removed: d characters of it are left. */
  ghost predicate Removing(part: string, start: nat, user0: string, partStr: string, user: string, d: nat)
    requires start + |part| <= |user0|
  {
    && d <= |part| && partStr == part[..d] && StripSlashes(part) == StripSlashes(partStr)
    && user == user0[..start + d] + user0[start + |part|..]
  }

  /** The loop of CreateMask that removes the slashes, from the part and from what the user sees. */
  method RemoveSlashes(part: string, start: nat, user0: string) returns (partStr: string, user: string)
    requires part != [] && IsSlash(part[|part| - 1]) && start + |part| <= |user0|
    ensures partStr == StripSlashes(part)
    ensures user == user0[..start + |partStr|] + user0[start + |part|..]
  {
    partStr, user := part, user0;
    var d := |part|;
    var more := true;
    while more
      invariant d == |partStr| && Removing(part, start, user0, partStr, user, d)
      invariant more <==> partStr != [] && IsSlash(partStr[|partStr| - 1])
      decreases d
    {
      RemoveOne(part, start, user0, d);
      partStr := partStr[..|partStr| - 1];
      user := user[..start + d - 1] + user[start + d..];
      d := d - 1;
      more := |partStr| > 0 && IsSlash(partStr[|partStr| - 1]);
    }
  }

  lemma RemoveOne(part: string, start: nat, user0: string, d: nat)
    requires start + |part| <= |user0| && 0 < d <= |part|
    ensures part[..d][..d - 1] == part[..d - 1]
    ensures var user := user0[..start + d] + user0[start + |part|..];
            user[..start + d - 1] + user[start + d..] == user0[..start + d - 1] + user0[start + |part|..]
  {
  }

  /** CreateMaskMask for the two sides of the last slash. */
  method CreatePatterns(readers: Readers, name: string) returns (result: Option<Patterns>)
    ensures result == NamePatterns(readers, name)
  {
    var d := LastSlash(name);
    var directory := Some(AnyName);
    if d > 0 {
      directory := PatternFor(readers, ExcludeTrailingSlash(ToUnixPath(name[..d])), false);
      if directory.None? {
        return None;
      }
    }
    var fileName := PatternFor(readers, name[d..], true);
    if fileName.None? {
      return None;
    }
    result := Some(Patterns(directory.value, fileName.value));
  }

  /** The branch of CreateMask for the name. */
  method CreateName(readers: Readers, force: int, mask: Mask, part: string, start: nat) returns (result: Option<Draft>)
    requires part != [] && start + |part| <= |mask.userStr| && start + |part| <= |mask.maskStr|
    ensures result == NameStep(readers, force, mask, part, start)
  {
    StripShortens(part);
    StripOf(part);
    var partStr, user, str := part, mask.userStr, mask.maskStr;
    var directory := IsSlash(part[|part| - 1]);
    if directory {
      partStr, user := RemoveSlashes(part, start, mask.userStr);
      if force == 0 {
        directory := false;
        str := user;
      }
    } else if force > 0 {
      directory := true;
      str := str[..start + |part| - 1] + ['/'] + str[start + |part| - 1..];
    }
    var patterns := CreatePatterns(readers, partStr);
    if patterns.None? {
      return None;
    }
    result := Some(Draft(mask.(userStr := user, maskStr := str, directory := patterns.value.directory,
                               fileName := patterns.value.fileName), directory));
  }

  /** The branch of CreateMask for a size or a time. */
  method CreateBoundary(readers: Readers, draft: Draft, part: string, low: bool) returns (result: Option<Draft>)
    ensures result == BoundaryStep(readers, draft, part, low)
  {
    var text, mask := part, draft.mask;
    var closed := |part| >= 1 && part[0] == '=';
    if closed {
      text := part[1..];
    }
    var time := readers.readTime(text);
    if time.Some? {
      if !(if low then mask.lowTime else mask.highTime).NoBoundary? || draft.directory {
        return None;
      }
      var b := if closed then Close(time.value) else Open(time.value);
      mask := if low then mask.(lowTime := b) else mask.(highTime := b);
    } else {
      if !(if low then mask.lowSize else mask.highSize).NoBoundary? || draft.directory {
        return None;
      }
      var size := readers.readSize(text);
      if size.None? {
        return None;
      }
      var b := if closed then Close(size.value) else Open(size.value);
      mask := if low then mask.(lowSize := b) else mask.(highSize := b);
    }
    result := Some(draft.(mask := mask));
  }

  /** How far CreateMask has come: all parts before from are done. */
  ghost predicate Creating(readers: Readers, force: int, s: string, draft: Draft, from: nat, delimiter: char) {
    if from == 0 then draft == Draft(NewMask(s), false) && delimiter == NUL
    else if from > |s| then DraftOf(readers, force, s) == Some(draft)
    else
      && IsBoundary(delimiter)
      && DraftOf(readers, force, s) == BoundariesFrom(readers, draft, s[from..], delimiter == '>')
  }

  lemma FirstPartDone(r: Readers, force: int, s: string, next: Option<Draft>)
    requires s != []
    requires var piece := PieceOf(s, BoundaryDelimiters);
             var part := Trim(piece);
             next == if part == [] then Some(Draft(NewMask(s), false))
                     else NameStep(r, force, NewMask(s), part, TrimmedStart(piece))
    ensures next.None? ==> DraftOf(r, force, s) == None
    ensures next.Some? ==> DraftOf(r, force, s) == PartsAfter(r, next.value, s)
  {
  }

  /** What is left to do once the part at the start of s is done. */
  function PartsAfter(r: Readers, d: Draft, s: string): Option<Draft> {
    var end := PieceEnd(s, BoundaryDelimiters);
    if end == |s| then Some(d) else BoundariesFrom(r, d, s[end + 1..], s[end] == '>')
  }

  lemma LaterPartDone(r: Readers, d: Draft, s: string, low: bool)
    requires s != []
    ensures var next := BoundaryStep(r, d, Trim(PieceOf(s, BoundaryDelimiters)), low);
            BoundariesFrom(r, d, s, low) == if next.None? then None else PartsAfter(r, next.value, s)
  {
  }

  lemma PartsAfterAt(r: Readers, force: int, s: string, d: Draft, from0: nat, from: nat, delimiter: char)
    requires from0 < |s| && from == from0 + PieceEnd(s[from0..], BoundaryDelimiters) + 1
    requires delimiter == if from <= |s| then s[from - 1] else NUL
    requires DraftOf(r, force, s) == PartsAfter(r, d, s[from0..])
    ensures Creating(r, force, s, d, from, delimiter)
  {
    WhereNextPartStarts(s, from0);
  }

  lemma CreatingEnds(r: Readers, force: int, s: string, d: Draft, from: nat, delimiter: char)
    requires s != [] && from >= |s| && Creating(r, force, s, d, from, delimiter)
    ensures DraftOf(r, force, s) == Some(d)
  {
    if from == |s| {
      assert s[from..] == [];
    }
  }

  /** One round of CreateMask. */
  method CreatePart(readers: Readers, force: int, s: string, draft: Draft, from0: nat, delimiter0: char)
    returns (result: Option<Draft>, from: nat, delimiter: char)
    requires from0 < |s| && Creating(readers, force, s, draft, from0, delimiter0)
    ensures from > from0
    ensures result.Some? ==> Creating(readers, force, s, result.value, from, delimiter)
    ensures result.None? ==> DraftOf(readers, force, s) == None
  {
    var piece;
    piece, from, delimiter := CopyToChars(s, from0, BoundaryDelimiters);
    var part := Trim(piece);
    if delimiter0 != NUL {
      result := CreateBoundary(readers, draft, part, delimiter0 == '>');
      LaterPartDone(readers, draft, s[from0..], delimiter0 == '>');
    } else {
      assert s[0..] == s;
      result := Some(draft);
      if |part| > 0 {
        result := CreateName(readers, force, draft.mask, part, TrimmedStart(piece));
      }
      FirstPartDone(readers, force, s, result);
    }
    if result.Some? {
      PartsAfterAt(readers, force, s, result.value, from0, from, delimiter);
    }
  }

  /** CreateMask, up to where it puts the mask. */
  method CreateDraft(readers: Readers, force: int, maskStr: string) returns (draft: Option<Draft>)
    requires maskStr != []
    ensures draft == DraftOf(readers, force, maskStr)
  {
    draft := Some(Draft(NewMask(maskStr), false));
    var from: nat, delimiter := 0, NUL;
    while from < |maskStr| && draft.Some?
      invariant draft.Some? ==> Creating(readers, force, maskStr, draft.value, from, delimiter)
      invariant draft.None? ==> DraftOf(readers, force, maskStr) == None
      decreases |maskStr| - from
    {
      draft, from, delimiter := CreatePart(readers, force, maskStr, draft.value, from, delimiter);
    }
    if draft.Some? {
      CreatingEnds(readers, force, maskStr, draft.value, from, delimiter);
    }
  }

  lemma WhereNextPartStarts(s: string, from: nat)
    requires from <= |s|
    ensures var rest := s[from..];
            var end := PieceEnd(rest, BoundaryDelimiters);
            end < |rest| ==>
              rest[end] == s[from + end] && rest[end + 1..] == s[from + end + 1..] && IsBoundary(rest[end])
  {
    if PieceEnd(s[from..], BoundaryDelimiters) < |s[from..]| {
      PieceStops(s[from..], BoundaryDelimiters);
    }
  }

  class TFileMasks {
    const readers: Readers
    const forceDirectoryMasks: int
    var str: string
    var masks: Lists
    var masksStr: seq<Option<seq<string>>>

    /** The lists are those of the string, and what is cached agrees with them. */
    ghost predicate Valid()
      reads this
    {
      Parse(readers, forceDirectoryMasks, str) == Some(masks) && CacheAgrees()
    }

    ghost predicate CacheAgrees()
      reads this
    {
      |masksStr| == 4 && forall i | 0 <= i < 4 && masksStr[i].Some? :: masksStr[i].value == UserStrs(masks[i])
    }

    constructor (readers: Readers, forceDirectoryMasks: int)
      ensures Valid() && str == [] && masks == NO_MASKS
      ensures this.readers == readers && this.forceDirectoryMasks == forceDirectoryMasks
    {
      this.readers, this.forceDirectoryMasks := readers, forceDirectoryMasks;
      str, masks, masksStr := [], NO_MASKS, [None, None, None, None];
    }

    method Clear()
      modifies this`masks, this`masksStr
      ensures masks == NO_MASKS && masksStr == [None, None, None, None]
    {
      masksStr := [None, None, None, None];
      masks := NO_MASKS;
    }

    /** CreateMask */
    method CreateMask(maskStr: string, including: bool) returns (ok: bool)
      requires maskStr != []
      modifies this`masks
      ensures var next := AddMask(Drafter(readers, forceDirectoryMasks), maskStr, including, old(masks));
              if next.Some? then ok && masks == next.value else !ok && masks == old(masks)
    {
      var draft := CreateDraft(readers, forceDirectoryMasks, maskStr);
      ok := draft.Some?;
      if ok {
        var i := MaskIndex(draft.value.directory, including);
        masks := masks[i := masks[i] + [draft.value.mask]];
      }
    }

    /** The part of SetStr that may fail: one mask after the other. */
    method ReadMasks(value: string) returns (ok: bool)
      modifies this
      ensures str == value
      ensures ok <==> Parse(readers, forceDirectoryMasks, value).Some?
      ensures ok ==> Valid()
    {
      str := value;
      Clear();
      ok := true;
      var from: nat, including := 0, true;
      ghost var goal := Parse(readers, forceDirectoryMasks, value);
      assert value[0..] == value;
      while from < |value| && ok
        invariant str == value && masksStr == [None, None, None, None]
        invariant !ok ==> goal == None
        invariant ok && from > |value| ==> goal == Some(masks)
        invariant ok && from <= |value| ==>
                    goal == ParseFrom(Adder(Drafter(readers, forceDirectoryMasks)), value[from..], including, masks)
        decreases |value| - from
      {
        ok, from, including := ReadMask(value, from, including, goal);
      }
    }

    /** A mask that is not blank is created. */
    method CreateMaskUnlessBlank(maskStr: string, including: bool) returns (ok: bool)
      modifies this`masks
      ensures var next := Adder(Drafter(readers, forceDirectoryMasks))(maskStr, including, old(masks));
              if next.Some? then ok && masks == next.value else !ok && masks == old(masks)
    {
      ok := true;
      if |maskStr| > 0 {
        ok := CreateMask(maskStr, including);
      }
    }

    /** One round: one mask and the delimiter after it. */
    method ReadMask(value: string, from0: nat, including0: bool, ghost goal: Option<Lists>)
      returns (ok: bool, from: nat, including: bool)
      requires from0 < |value|
      requires goal == ParseFrom(Adder(Drafter(readers, forceDirectoryMasks)), value[from0..], including0, masks)
      modifies this`masks
      ensures from > from0 && (!ok ==> goal == None)
      ensures ok && from > |value| ==> goal == Some(masks)
      ensures ok && from <= |value| ==>
                goal == ParseFrom(Adder(Drafter(readers, forceDirectoryMasks)), value[from..], including, masks)
    {
      var piece, delimiter;
      piece, from, delimiter := CopyToChars(value, from0, MaskDelimiters);
      var maskStr := Trim(piece);
      ParseOneMask(Adder(Drafter(readers, forceDirectoryMasks)), value, from0, from, maskStr, including0, masks);
      including := including0;
      ok := CreateMaskUnlessBlank(maskStr, including);
      if ok && delimiter == EXCLUDE {
        if including {
          including := false;
        } else {
          ok := false;
        }
      }
    }

    /** SetStr: on failure the string is set back to what it was, which cannot fail if that was
        ever accepted. */
    method SetStr(value: string) returns (ok: bool)
      requires Parse(readers, forceDirectoryMasks, value).Some? || Parse(readers, forceDirectoryMasks, str).Some?
      modifies this
      ensures Valid()
      ensures ok <==> Parse(readers, forceDirectoryMasks, value).Some?
      ensures str == if ok then value else old(str)
      decreases if Parse(readers, forceDirectoryMasks, value).Some? then 0 else 1
    {
      var backup := str;
      ok := ReadMasks(value);
      if !ok {
        var restored := SetStr(backup);
      }
    }

    /** SetMasks: a string that is not accepted changes nothing. */
    method SetMasks(value: string) returns (ok: bool)
      requires Valid()
      modifies this
      ensures Valid()
      ensures ok <==> Parse(readers, forceDirectoryMasks, value).Some?
      ensures ok ==> str == value
      ensures !ok ==> str == old(str) && masks == old(masks)
    {
      if str != value {
        ok := SetStr(value);
      } else {
        ok := true;
      }
    }

    /** GetMasksStr: cached or not, the names of the masks. */
    method GetMasksStr(index: nat) returns (names: seq<string>)
      requires Valid() && index < 4
      modifies this`masksStr
      ensures Valid() && names == UserStrs(masks[index])
    {
      if masksStr[index].None? {
        var list: seq<string> := [];
        var i := 0;
        while i < |masks[index]|
          invariant i <= |masks[index]| && list == UserStrs(masks[index][..i])
        {
          list := list + [masks[index][i].userStr];
          assert masks[index][..i + 1][..i] == masks[index][..i];
          i := i + 1;
        }
        assert masks[index][..i] == masks[index];
        masksStr := masksStr[index := Some(list)];
      }
      names := masksStr[index].value;
    }
  }

  /** What one round of parsing comes down to: x is the mask it reads, and from where it goes on. */
  lemma ParseOneMask<T>(add: (string, bool, T) -> Option<T>, value: string, from0: nat, from: nat, x: string,
                        including: bool, l: T)
    requires from0 < |value| && from == from0 + PieceEnd(value[from0..], MaskDelimiters) + 1
    requires x == Trim(PieceOf(value[from0..], MaskDelimiters))
    ensures from > |value| || add(x, including, l).None? ==>
              ParseFrom(add, value[from0..], including, l) == add(x, including, l)
    ensures from <= |value| && value[from - 1] == EXCLUDE && !including ==>
              ParseFrom(add, value[from0..], including, l) == None
    ensures from <= |value| && !(value[from - 1] == EXCLUDE && !including) && add(x, including, l).Some? ==>
              ParseFrom(add, value[from0..], including, l)
              == ParseFrom(add, value[from..], including && value[from - 1] != EXCLUDE, add(x, including, l).value)
  {
    var rest := value[from0..];
    if from <= |value| {
      ParseStep(add, rest, from - from0 - 1, x, including, l);
      assert rest[from - from0..] == value[from..];
    }
  }

  // ----- Composing -----

  /** The loop of ComposeMaskStr that doubles delimiters. */
  method DoubleDelimiters(s: string) returns (str: string)
    ensures str == Doubled(s)
  {
    str := s;
    var p := 0;
    ghost var k := 0;
    while p < |str|
      invariant k <= |s| && p == |Doubled(s[..k])| && str == Doubled(s[..k]) + s[k..]
      decreases |s| - k
    {
      DoubleNext(s, k);
      if IsDelimiter(str[p]) {
        str := str[..p] + [str[p]] + str[p..];
        p := p + 1;
      }
      p := p + 1;
      k := k + 1;
    }
    assert s[..k] == s && str == Doubled(s) + [];
  }

  lemma DoubleNext(s: string, k: nat)
    requires k <= |s| && |Doubled(s[..k]) + s[k..]| > |Doubled(s[..k])|
    ensures k < |s| && Doubled(s[..k + 1]) == Doubled(s[..k]) + DoubledChar(s[k])
    ensures var p, str := |Doubled(s[..k])|, Doubled(s[..k]) + s[k..];
            && str[p] == s[k]
            && (if IsDelimiter(s[k]) then str[..p] + [s[k]] + str[p..] else str) == Doubled(s[..k + 1]) + s[k + 1..]
  {
    var a, b := s[..k], s[k + 1..];
    assert s[..k + 1] == a + [s[k]] && s[k..] == [s[k]] + b;
    DoubledConcat(a, [s[k]]);
    assert Doubled([s[k]]) == DoubledChar(s[k]);
    InsertOne(Doubled(a), s[k], b);
  }

  lemma InsertOne(a: string, c: char, b: string)
    ensures var s := a + ([c] + b);
            s[..|a|] + [c] + s[|a|..] == (a + [c, c]) + b && s == (a + [c]) + b
  {
  }

  /** The text of one mask, as composed and as validated. */
  method ComposeMask(name: string, directory: bool) returns (str: string, validated: string)
    ensures str == MaskText(name, directory) && validated == ValidatedText(name, directory)
  {
    str, validated := Trim(name), [];
    if |str| > 0 {
      ghost var t := str;
      str := DoubleDelimiters(str);
      DoubledEnds(t);
      if directory {
        validated := str;
        str := MakeDirectoryMask(str);
      } else {
        while |str| > 0 && IsSlash(str[|str| - 1])
          invariant StripSlashes(str) == StripSlashes(Doubled(t))
        {
          str := str[..|str| - 1];
        }
        validated := str;
      }
    }
  }

  lemma TextsOfPrefix(names: seq<string>, directory: bool, i: nat)
    requires i < |names|
    ensures JoinTexts(TextsOf(names[..i + 1], directory))
            == AddToList(JoinTexts(TextsOf(names[..i], directory)), MaskText(names[i], directory))
    ensures JoinTexts(ValidatedTextsOf(names[..i + 1], directory))
            == AddToList(JoinTexts(ValidatedTextsOf(names[..i], directory)), ValidatedText(names[i], directory))
  {
    var p := names[..i + 1];
    assert p[..i] == names[..i];
    assert TextsOf(p, directory)[..i] == TextsOf(names[..i], directory);
    assert ValidatedTextsOf(p, directory)[..i] == ValidatedTextsOf(names[..i], directory);
  }

  /** The two-argument ComposeMaskStr, which lets a scratch TFileMasks check the masks. */
  method ComposeMaskStr(readers: Readers, names: seq<string>, directory: bool) returns (result: Option<string>)
    ensures result == ComposeList(readers, names, directory)
  {
    var list: string, validatedList: string := [], [];
    var i := 0;
    while i < |names|
      invariant i <= |names|
      invariant list == JoinTexts(TextsOf(names[..i], directory))
      invariant validatedList == JoinTexts(ValidatedTextsOf(names[..i], directory))
    {
      var str, validated := ComposeMask(names[i], directory);
      TextsOfPrefix(names, directory, i);
      list := AddToList(list, str);
      validatedList := AddToList(validatedList, validated);
      i := i + 1;
    }
    assert names[..i] == names;
    var temp := new TFileMasks(readers, if directory then 1 else 0);
    var ok := temp.SetMasks(validatedList);
    result := if ok then Some(list) else None;
  }

  /** The four-argument ComposeMaskStr. */
  method ComposeMasks(readers: Readers, names: Names) returns (result: Option<string>)
    ensures result == Compose(readers, names)
  {
    var inFiles := ComposeMaskStr(readers, names[0], false);
    var inDirs := ComposeMaskStr(readers, names[2], true);
    var exFiles := ComposeMaskStr(readers, names[1], false);
    var exDirs := ComposeMaskStr(readers, names[3], true);
    if inFiles.None? || inDirs.None? || exFiles.None? || exDirs.None? {
      return None;
    }
    var included, excluded := AddToList(inFiles.value, inDirs.value), AddToList(exFiles.value, exDirs.value);
    var str := included;
    if |excluded| > 0 {
      if |str| > 0 {
        str := str + " ";
      }
      str := str + ([EXCLUDE] + " " + excluded);
    }
    ComposedText(included, excluded);
    result := Some(str);
  }

  lemma ComposedText(s: string, t: string)
    ensures t != [] ==> WithExcluded(s, t) == (if s == [] then s else s + " ") + ([EXCLUDE] + " " + t)
  {
    var a := if s == [] then s else s + " ";
    Associate(a, [EXCLUDE] + " ", t);
    Associate(a, [EXCLUDE], " ");
  }

  /** All four lists of names. */
  method ReadLists(fileMasks: TFileMasks) returns (names: Names)
    requires fileMasks.Valid()
    modifies fileMasks`masksStr
    ensures fileMasks.Valid() && names == NamesOf(fileMasks.masks)
  {
    var inFiles := fileMasks.GetMasksStr(0);
    var exFiles := fileMasks.GetMasksStr(1);
    var inDirs := fileMasks.GetMasksStr(2);
    var exDirs := fileMasks.GetMasksStr(3);
    names := [inFiles, exFiles, inDirs, exDirs];
  }

  /** Set a string and read the four lists. */
  method ParseLists(readers: Readers, str: string) returns (ok: bool, names: Names)
    ensures ok <==> Parse(readers, -1, str).Some?
    ensures ok ==> names == NamesOf(Parse(readers, -1, str).value)
  {
    names := [[], [], [], []];
    var fileMasks := new TFileMasks(readers, -1);
    ok := fileMasks.SetMasks(str);
    if ok {
      names := ReadLists(fileMasks);
    }
  }

  /** Compose a string, set it, read the four lists: they are what went in exactly if every mask
      is fit. */
  method ComposeAndReadBack(readers: Readers, names: Names) returns (ok: bool, back: Names)
    ensures ok && back == names <==> AllFit(readers, names)
  {
    RoundTripsExactly(readers, names);
    back := names;
    var str := ComposeMasks(readers, names);
    ok := str.Some?;
    if ok {
      ok, back := ParseLists(readers, str.value);
    }
  }
}
