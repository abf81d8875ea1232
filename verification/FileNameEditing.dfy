/** ValidLocalFileName, ReplaceChar and RestoreChars as the code has them: a pointer moved over a
    string that is edited in place. Positions count from 0. */
module FileNameEditing {
  import opened Basics
  import opened Hexadecimal
  import opened FileNames
  import opened FileNameProperties

  /** One of the characters that the search of ValidLocalFileName looks for. */
  predicate IsSought(c: char, mode: Replacement) {
    if mode.TokenReplacement? then IsTokenizable(c) else IsInvalid(c)
  }

  /** wcspbrk: the first sought character from a position on, before any zero. */
  method FindSought(s: string, from: nat, mode: Replacement) returns (found: bool, at: nat)
    requires from <= |s|
    ensures from <= at <= |s|
    ensures forall i | from <= i < at :: !IsSought(s[i], mode) && s[i] != NUL
    ensures found ==> at < |s| && IsSought(s[at], mode) && s[at] != NUL
    ensures !found ==> at == |s| || s[at] == NUL
  {
    at := from;
    while at < |s| && s[at] != NUL && !IsSought(s[at], mode)
      invariant from <= at <= |s|
      invariant forall i | from <= i < at :: !IsSought(s[i], mode) && s[i] != NUL
    {
      at := at + 1;
    }
    found := at < |s| && s[at] != NUL;
  }

  /** wcschr for the token prefix. */
  method FindPrefix(s: string, from: nat) returns (found: bool, at: nat)
    requires from <= |s|
    ensures from <= at <= |s|
    ensures forall i | from <= i < at :: s[i] != PREFIX && s[i] != NUL
    ensures found ==> at < |s| && s[at] == PREFIX
    ensures !found ==> at == |s| || s[at] == NUL
  {
    at := from;
    while at < |s| && s[at] != NUL && s[at] != PREFIX
      invariant from <= at <= |s|
      invariant forall i | from <= i < at :: s[i] != PREFIX && s[i] != NUL
    {
      at := at + 1;
    }
    found := at < |s| && s[at] != NUL;
  }

  /** ReplaceChar */
  method ReplaceChar(fileName0: string, index: nat, mode: Replacement) returns (fileName: string, next: nat)
    requires index < |fileName0| && !mode.NoReplacement?
    requires mode.TokenReplacement? ==> fileName0[index] as int < 256
    ensures fileName == fileName0[..index] + EncodeLast(fileName0[index], mode) + fileName0[index + 1..]
    ensures next == index + |EncodeLast(fileName0[index], mode)|
  {
    if mode.TokenReplacement? {
      var n := fileName0[index] as int;
      var hex := [HexDigit(n / 16), HexDigit(n % 16)];
      fileName := fileName0[..index + 1] + hex + fileName0[index + 1..];
      fileName := fileName[index := PREFIX];
      next := index + 3;
    } else {
      fileName := fileName0[index := mode.c];
      next := index + 1;
    }
  }

  /** Characters that are not sought stay as they are. */
  lemma {:induction false} EncodePassesOver(p: string, rest: string, mode: Replacement)
    requires !mode.NoReplacement? && forall i | 0 <= i < |p| :: !IsSought(p[i], mode) && p[i] != NUL
    ensures EncodeChars(p + rest, mode) == p + EncodeChars(rest, mode)
  {
    if p == [] {
      assert p + rest == rest;
    } else {
      EncodePassesOver(p[1..], rest, mode);
      assert (p + rest)[1..] == p[1..] + rest;
      assert [p[0]] + (p[1..] + EncodeChars(rest, mode)) == p + EncodeChars(rest, mode);
    }
  }

  /** Where the loop of ValidLocalFileName stands: done is encoded, rest is not, and the next
      sought character of rest is skip characters on. */
  ghost predicate Encoding(f: string, mode: Replacement, fileName: string, done: string, rest: string,
                           found: bool, skip: nat) {
    && fileName == done + rest && EncodeChars(f, mode) == done + EncodeChars(rest, mode)
    && skip <= |rest| && (forall i | 0 <= i < skip :: !IsSought(rest[i], mode) && rest[i] != NUL)
    && (if found then skip < |rest| && IsSought(rest[skip], mode) && rest[skip] != NUL
        else skip == |rest| || rest[skip] == NUL)
  }

  /** The loop of ValidLocalFileName. */
  method EncodeInPlace(fileName0: string, mode: Replacement) returns (fileName: string)
    requires !mode.NoReplacement?
    ensures fileName == EncodeChars(fileName0, mode)
  {
    fileName := fileName0;
    var found, at := FindSought(fileName, 0, mode);
    ghost var done: string, rest: string, skip: nat := [], fileName0, at;
    while found
      invariant at == |done| + skip && Encoding(fileName0, mode, fileName, done, rest, found, skip)
      decreases |rest|
    {
      SkipTo(fileName0, mode, done, rest, skip);
      fileName, found, at, done, rest, skip :=
        EncodeRound(fileName0, mode, fileName, at, done + rest[..skip], rest[skip..]);
    }
    SkipTo(fileName0, mode, done, rest, skip);
    assert EncodeChars(rest[skip..], mode) == rest[skip..];
  }

  lemma SkipTo(f: string, mode: Replacement, done: string, rest: string, skip: nat)
    requires !mode.NoReplacement? && skip <= |rest| && EncodeChars(f, mode) == done + EncodeChars(rest, mode)
    requires forall i | 0 <= i < skip :: !IsSought(rest[i], mode) && rest[i] != NUL
    ensures EncodeChars(f, mode) == (done + rest[..skip]) + EncodeChars(rest[skip..], mode)
    ensures done + rest == (done + rest[..skip]) + rest[skip..]
  {
    var p, t := rest[..skip], rest[skip..];
    assert p + t == rest;
    EncodePassesOver(p, t, mode);
    Associate(done, p, EncodeChars(t, mode));
    Associate(done, p, t);
  }

  /** One round: encode where the search stopped and search on. */
  method EncodeRound(ghost f: string, mode: Replacement, fileName0: string, at0: nat, ghost done0: string,
                     ghost t: string)
    returns (fileName: string, found: bool, at: nat, ghost done: string, ghost rest: string, ghost skip: nat)
    requires !mode.NoReplacement? && fileName0 == done0 + t && at0 == |done0|
    requires t != [] && IsSought(t[0], mode) && t[0] != NUL
    requires EncodeChars(f, mode) == done0 + EncodeChars(t, mode)
    ensures at == |done| + skip && Encoding(f, mode, fileName, done, rest, found, skip) && |rest| < |t|
  {
    var from;
    fileName, from := EncodeAt(fileName0, at0, mode, done0, t);
    done, rest := done0 + Unit(t, mode), t[1..];
    Associate(done0, Unit(t, mode), EncodeChars(rest, mode));
    found, at := FindSought(fileName, from, mode);
    skip := at - from;
    assert forall i | 0 <= i < |rest| :: rest[i] == fileName[from + i];
  }

  /** The body of the loop: the sought character at index either stays, a percent sign that
      cannot be misread, or is replaced. */
  method EncodeAt(fileName0: string, index: nat, mode: Replacement, ghost done: string, ghost t: string)
    returns (fileName: string, next: nat)
    requires !mode.NoReplacement? && fileName0 == done + t && index == |done| && t != []
    requires IsSought(t[0], mode)
    ensures fileName == (done + Unit(t, mode)) + t[1..] && next == |done + Unit(t, mode)|
  {
    assert fileName0[index] == t[0] && fileName0[..index] == done && fileName0[index + 1..] == t[1..];
    assert |t| >= 3 ==> fileName0[index + 1] == t[1] && fileName0[index + 2] == t[2];
    if mode.TokenReplacement? && fileName0[index] == PREFIX
       && (|fileName0| - index <= 2
           || HexToChar(fileName0[index + 1], fileName0[index + 2]) == NUL
           || !IsTokenizable(HexToChar(fileName0[index + 1], fileName0[index + 2]))) {
      fileName, next := fileName0, index + 1;
    } else {
      fileName, next := ReplaceChar(fileName0, index, mode);
    }
  }

  /** ValidLocalFileName */
  method ValidLocalFileName(fileName0: string, mode: Replacement) returns (fileName: string)
    ensures fileName == Valid(fileName0, mode)
  {
    fileName := fileName0;
    if !mode.NoReplacement? {
      fileName := EncodeInPlace(fileName0, mode);
      if |fileName| > 0 && (fileName[|fileName| - 1] == ' ' || fileName[|fileName| - 1] == '.') {
        ghost var g := fileName;
        var end;
        fileName, end := ReplaceChar(fileName, |fileName| - 1, mode);
        assert g[|g| - 1 + 1..] == [] && fileName == EncodeTrailing(g, mode);
      }
      if IsReserved(fileName) {
        var p := BaseLength(fileName);
        fileName := fileName[..p] + INSERTED + fileName[p..];
      }
    }
  }

  /** What stands where, seen from a percent sign at the start of t. */
  lemma AtPercent(done: string, t: string)
    requires |t| >= 3
    ensures (done + t)[|done| + 1] == t[1] && (done + t)[|done| + 2] == t[2]
    ensures (done + t)[..|done|] == done && (done + t)[|done| + 3..] == t[3..]
    ensures (done + t)[|done| + 1..|done| + 3] == t[1..3]
    ensures |t| > 3 ==> (done + t)[|done| + 3] == t[3]
  {
  }

  lemma ReplacedByChar(done: string, t: string, c: char)
    requires |t| >= 3
    ensures var s := (done + t)[|done| := c]; s[..|done| + 1] + s[|done| + 3..] == (done + [c]) + t[3..]
  {
  }

  /** The body of the loop of RestoreChars: a percent sign at index. */
  method RestoreAt(fileName0: string, index: nat, ghost done: string, ghost t: string)
    returns (fileName: string, next: nat, ghost done': string, ghost t': string)
    requires fileName0 == done + t && index == |done| && t != [] && t[0] == PREFIX
    ensures fileName == done' + t' && next == |done'| && |t'| < |t|
    ensures Restore(done, t) == Restore(done', t')
  {
    fileName, next := fileName0, index + 1;
    if |fileName0| > index + 2 {
      AtPercent(done, t);
      InsertedTokens(t);
      var c := HexToChar(fileName0[index + 1], fileName0[index + 2]);
      if c != NUL && (IsTokenizable(c) || (IsTrimmed(c) && index == |fileName0| - 3)) {
        ReplacedByChar(done, t, c);
        fileName := fileName0[index := c];
        fileName := fileName[..index + 1] + fileName[index + 3..];
        done', t' := done + [c], t[3..];
        return;
      } else if fileName0[index + 1..index + 3] == "00"
                && (index == |fileName0| - 3 || fileName0[index + 3] == '.')
                && IsReserved(fileName0[..index] + fileName0[index + 3..]) {
        fileName := fileName0[..index] + fileName0[index + 3..];
        next := index;
        done', t' := done, t[3..];
        return;
      }
    }
    done', t' := done + [t[0]], t[1..];
    Associate(done, [t[0]], t[1..]);
    assert [t[0]] + t[1..] == t;
  }

  lemma InsertedTokens(t: string)
    requires |t| >= 3 && t[0] == PREFIX
    ensures t[..3] == INSERTED <==> t[1..3] == "00"
  {
    assert t[..3] == [t[0]] + t[1..3];
    assert INSERTED == ['%'] + "00";
  }

  /** Where the loop of RestoreChars stands. */
  ghost predicate Restoring(f: string, fileName: string, done: string, rest: string, found: bool, skip: nat) {
    && fileName == done + rest && Restore([], f) == Restore(done, rest)
    && skip <= |rest| && (forall i | 0 <= i < skip :: rest[i] != PREFIX && rest[i] != NUL)
    && (if found then skip < |rest| && rest[skip] == PREFIX else skip == |rest| || rest[skip] == NUL)
  }

  /** One round: restore where the search stopped and search on. */
  method RestoreRound(ghost f: string, fileName0: string, at0: nat, ghost done0: string, ghost t: string)
    returns (fileName: string, found: bool, at: nat, ghost done: string, ghost rest: string, ghost skip: nat)
    requires fileName0 == done0 + t && at0 == |done0| && t != [] && t[0] == PREFIX
    requires Restore([], f) == Restore(done0, t)
    ensures at == |done| + skip && Restoring(f, fileName, done, rest, found, skip) && |rest| < |t|
  {
    var from;
    fileName, from, done, rest := RestoreAt(fileName0, at0, done0, t);
    found, at := FindPrefix(fileName, from);
    skip := at - from;
    assert forall i | 0 <= i < |rest| :: rest[i] == fileName[from + i];
  }

  /** RestoreChars */
  method RestoreChars(fileName0: string, mode: Replacement) returns (fileName: string)
    ensures fileName == if mode.TokenReplacement? then Restore([], fileName0) else fileName0
  {
    fileName := fileName0;
    if mode.TokenReplacement? {
      var found, at := FindPrefix(fileName, 0);
      ghost var done: string, rest: string, skip: nat := [], fileName0, at;
      while found
        invariant at == |done| + skip && Restoring(fileName0, fileName, done, rest, found, skip)
        decreases |rest|
      {
        RestoreSkips(done, rest, skip);
        fileName, found, at, done, rest, skip :=
          RestoreRound(fileName0, fileName, at, done + rest[..skip], rest[skip..]);
      }
      RestoreSkips(done, rest, skip);
    }
  }

  lemma RestoreSkips(done: string, rest: string, skip: nat)
    requires skip <= |rest| && forall i | 0 <= i < skip :: rest[i] != PREFIX && rest[i] != NUL
    ensures Restore(done, rest) == Restore(done + rest[..skip], rest[skip..])
    ensures done + rest == (done + rest[..skip]) + rest[skip..]
  {
    RestorePassesOver(done, rest[..skip], rest[skip..]);
    assert rest[..skip] + rest[skip..] == rest;
  }

  /** A name stored on Windows and read back: it is valid there, and it comes back exactly when
      RestoresExactly says so. */
  method StoreAndRestore(name: string) returns (stored: string, restored: string)
    requires NulFree(name)
    ensures IsValidName(stored)
    ensures restored == name <==> !EndsInToken(name) && forall i | 0 <= i < |name| :: !HoldsInsertion(name, i)
  {
    ValidNameIsValid(name);
    RestoresExactly(name);
    stored := ValidLocalFileName(name, TokenReplacement);
    restored := RestoreChars(stored, TokenReplacement);
  }
}
