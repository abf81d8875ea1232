/** Encoded file names are valid on Windows, and restoring one gives the original name back
    except in exactly described cases. */
module FileNameProperties {
  import opened Basics
  import opened Hexadecimal
  import opened FileNames

  // ----- The encoded name, character by character -----

  /** The first character is encoded: it is a space or dot at the very end, or it cannot stand
      in a name, or it is a percent sign that would be misread. */
  predicate IsCoded(t: string)
    requires t != []
  {
    || (|t| == 1 && IsTrimmed(t[0]))
    || (IsTokenizable(t[0]) && (t[0] == PREFIX ==> ReadsAsToken(t)))
  }

  /** All encoding but the insertion, in one pass over the original name. */
  function Encoded(t: string): (g: string)
    ensures |g| >= |t|
  {
    if t == [] then [] else if IsCoded(t) then TokenFor(t[0]) + Encoded(t[1..]) else [t[0]] + Encoded(t[1..])
  }

  lemma UnitOf(t: string)
    requires t != []
    ensures Unit(t, TokenReplacement)
            == if IsTokenizable(t[0]) && (t[0] == PREFIX ==> ReadsAsToken(t)) then TokenFor(t[0]) else [t[0]]
  {
  }

  lemma HexIsHarmless(n: int)
    requires 0 <= n < 16
    ensures !IsTrimmed(HexDigit(n)) && !IsInvalid(HexDigit(n)) && HexDigit(n) != NUL && HexDigit(n) != PREFIX
  {
  }

  lemma TokenIsHarmless(c: char)
    requires c as int < 256
    ensures TokenFor(c)[0] == PREFIX && !IsTrimmed(TokenFor(c)[2])
    ensures forall i | 0 <= i < 3 :: !IsInvalid(TokenFor(c)[i])
  {
    HexIsHarmless(c as int / 16);
    HexIsHarmless(c as int % 16);
  }

  lemma TrailingOfConcat(u: string, g: string)
    requires g != []
    ensures EncodeTrailing(u + g, TokenReplacement) == u + EncodeTrailing(g, TokenReplacement)
  {
    assert (u + g)[|u + g| - 1] == g[|g| - 1];
    assert (u + g)[..|u + g| - 1] == u + g[..|g| - 1];
  }

  lemma {:induction false} EncodedIsTrailingOfChars(f: string)
    requires NulFree(f)
    ensures EncodeTrailing(EncodeChars(f, TokenReplacement), TokenReplacement) == Encoded(f)
    ensures f != [] ==> EncodeChars(f, TokenReplacement) != []
  {
    if f != [] {
      var u, g := Unit(f, TokenReplacement), EncodeChars(f[1..], TokenReplacement);
      UnitOf(f);
      EncodedIsTrailingOfChars(f[1..]);
      if |f| == 1 {
        assert f[1..] == [] && u + g == u;
        TokenIsHarmless(if IsTokenizable(f[0]) then f[0] else ' ');
        assert u[..|u| - 1] == [] ==> u[..|u| - 1] + TokenFor(' ') == TokenFor(' ') + [];
      } else {
        TrailingOfConcat(u, g);
      }
    }
  }

  // ----- Encoded names are valid -----

  /** What Windows accepts as a name, as far as this code looks after it. */
  predicate IsValidName(g: string) {
    NoInvalid(g) && EndsClean(g) && !IsReserved(g)
  }

  predicate NoInvalid(g: string) {
    forall i | 0 <= i < |g| :: !IsInvalid(g[i])
  }

  predicate EndsClean(g: string) {
    g != [] ==> !IsTrimmed(g[|g| - 1])
  }

  lemma {:induction false} EncodedHasNoInvalid(t: string)
    requires NulFree(t)
    ensures NoInvalid(Encoded(t)) && EndsClean(Encoded(t))
  {
    if t != [] {
      EncodedHasNoInvalid(t[1..]);
      var g := Encoded(t[1..]);
      if IsCoded(t) {
        TokenIsHarmless(t[0]);
        assert NoInvalid(TokenFor(t[0]) + g);
        assert g != [] ==> (TokenFor(t[0]) + g)[|TokenFor(t[0]) + g| - 1] == g[|g| - 1];
      } else {
        assert |t| == 1 ==> g == [];
      }
    }
  }

  /** A name with the insertion has a percent sign before its first dot. */
  lemma AvoidedIsNotReserved(g: string)
    ensures !IsReserved(AvoidReserved(g))
  {
    if IsReserved(g) {
      var n := BaseLength(g);
      var h := AvoidReserved(g);
      assert h == g[..n] + INSERTED + g[n..] && |INSERTED| == 3;
      assert h[n] == PREFIX && h[n + 1] == '0' && h[n + 2] == '0';
      assert forall i | 0 <= i < n :: h[i] == g[i];
      assert n + 3 < |h| ==> h[n + 3] == g[n];
      BaseLengthUnique(h, n + 3);
      if IsReserved(h) {
        DeviceChars(h[..n + 3], n);
      }
    }
  }

  /** Whatever the name, its encoding is one that Windows accepts. */
  lemma ValidNameIsValid(f: string)
    requires NulFree(f)
    ensures IsValidName(Valid(f, TokenReplacement))
  {
    EncodedIsTrailingOfChars(f);
    EncodedHasNoInvalid(f);
    AvoidedIsNotReserved(Encoded(f));
    InsertionIsHarmless(Encoded(f), BaseLength(Encoded(f)));
  }

  lemma InsertionIsHarmless(g: string, n: nat)
    requires NoInvalid(g) && EndsClean(g) && n <= |g|
    ensures NoInvalid(g[..n] + INSERTED + g[n..]) && EndsClean(g[..n] + INSERTED + g[n..])
  {
    var h := g[..n] + INSERTED + g[n..];
    assert NoInvalid(INSERTED) && NoInvalid(g[..n]) && NoInvalid(g[n..]);
    assert n < |g| ==> h[|h| - 1] == g[|g| - 1];
    assert n == |g| ==> h[|h| - 1] == INSERTED[2] == '0';
  }

  // ----- Restoring, step by step -----

  /** The name restored so far goes wrong at t: it ends in what looks like an encoded space or
      dot. */
  predicate EndsLikeTrimmed(t: string) {
    |t| == 3 && t[0] == PREFIX && IsTrimmed(HexToChar(t[1], t[2]))
  }

  /** Or it holds what looks like the insertion. A dot that is the last character does not
      count, because it is encoded. */
  predicate LooksInserted(done: string, t: string) {
    && |t| >= 3 && t[..3] == INSERTED
    && (|t| == 3 || (t[3] == '.' && |t| > 4))
    && IsReserved(done + t[3..])
  }

  /** Restoring a token gives its character, and goes on behind it. */
  lemma RestoreToken(done: string, c: char, rest: string)
    requires c as int < 256 && c != NUL && (IsTokenizable(c) || (IsTrimmed(c) && rest == []))
    ensures Restore(done, TokenFor(c) + rest) == Restore(done + [c], rest)
  {
    TokenReadsBack(c);
    var s := TokenFor(c) + rest;
    assert s[1] == TokenFor(c)[1] && s[2] == TokenFor(c)[2] && s[3..] == rest;
  }

  lemma RestoreOther(done: string, c: char, rest: string)
    requires c != NUL && c != PREFIX
    ensures Restore(done, [c] + rest) == Restore(done + [c], rest)
  {
    assert ([c] + rest)[1..] == rest;
  }

  /** A character that is not encoded starts the encoding. */
  lemma EncodedRaw(t: string)
    requires t != [] && !IsCoded(t)
    ensures Encoded(t)[0] == t[0] && Encoded(t)[1..] == Encoded(t[1..])
  {
  }

  lemma EncodedCoded(t: string)
    requires t != [] && IsCoded(t)
    ensures Encoded(t)[0] == PREFIX
  {
    TokenIsHarmless(t[0]);
  }

  /** A percent sign left alone, with two characters behind it that are left alone too. */
  predicate ThreeRaw(t: string) {
    |t| >= 3 && !IsCoded(t) && !IsCoded(t[1..]) && !IsCoded(t[2..])
  }

  lemma EncodedThreeRaw(t: string)
    requires ThreeRaw(t)
    ensures var s := Encoded(t);
            |s| >= 3 && s[0] == t[0] && s[1] == t[1] && s[2] == t[2] && s[3..] == Encoded(t[3..])
  {
    EncodedRaw(t);
    EncodedRaw(t[1..]);
    EncodedRaw(t[2..]);
    var s, a, b := Encoded(t), Encoded(t[1..]), Encoded(t[2..]);
    assert t[1..][1..] == t[2..] && t[2..][1..] == t[3..];
    assert s[1] == s[1..][0] == a[0] && s[2..] == s[1..][1..] == a[1..] == b && s[2] == s[2..][0] && s[3..] == b[1..];
  }

  /** If one of the next two characters is encoded or missing, no two digits follow. */
  lemma NoDigitsBehind(t: string)
    requires t != [] && t[0] == PREFIX && !IsCoded(t) && !ThreeRaw(t)
    ensures var s := Encoded(t);
            |s| < 3 || DigitValue(s[1]) < 0 || DigitValue(s[2]) < 0
  {
    EncodedRaw(t);
    var s := Encoded(t);
    if |t| >= 2 {
      var a := Encoded(t[1..]);
      assert s[1] == a[0];
      if IsCoded(t[1..]) {
        EncodedCoded(t[1..]);
      } else {
        EncodedRaw(t[1..]);
        assert t[1..][1..] == t[2..] && a[1..] == Encoded(t[2..]);
        if |t| >= 3 {
          EncodedCoded(t[2..]);
          assert s[2] == a[1] == a[1..][0];
        }
      }
    }
  }

  /** The encoding of a text starts with a dot just if the text starts with one that is not its
      last character. */
  lemma EncodedStart(t: string)
    requires t != []
    ensures Encoded(t)[0] == '.' <==> t[0] == '.' && |t| > 1
  {
    if IsCoded(t) {
      EncodedCoded(t);
    } else {
      EncodedRaw(t);
    }
  }

  lemma ReservedSame(done: string, t: string)
    requires t == [] || (t[0] == '.' && |t| > 1)
    ensures IsReserved(done + Encoded(t)) == IsReserved(done + t)
  {
    if t != [] {
      EncodedStart(t);
    }
    ReservedByBase(done, Encoded(t), t);
  }

  /** In the encoding of a text that starts with a percent sign left alone, the insertion is
      seen just where it looks inserted. */
  lemma InsertedSeen(done: string, t: string)
    requires ThreeRaw(t) && t[0] == PREFIX
    ensures IsInserted(done, Encoded(t)) <==> LooksInserted(done, t)
  {
    EncodedThreeRaw(t);
    var s, v := Encoded(t), t[3..];
    assert s[..3] == t[..3];
    if v != [] {
      EncodedStart(v);
      assert |t| > 3 && t[3] == v[0] && s[3] == s[3..][0];
    }
    if v == [] || (v[0] == '.' && |v| > 1) {
      ReservedSame(done, v);
    }
  }

  /** A percent sign that was left alone, before the encoding of what followed it. */
  lemma RestorePercent(done: string, t: string)
    requires NulFree(t) && t != [] && t[0] == PREFIX && !IsCoded(t)
    ensures EndsLikeTrimmed(t) ==> Restore(done, Encoded(t)) == done + [HexToChar(t[1], t[2])]
    ensures LooksInserted(done, t) ==> Restore(done, Encoded(t)) == Restore(done, Encoded(t[3..]))
    ensures !EndsLikeTrimmed(t) && !LooksInserted(done, t)
            ==> Restore(done, Encoded(t)) == Restore(done + [PREFIX], Encoded(t[1..]))
  {
    EncodedRaw(t);
    if ThreeRaw(t) {
      EncodedThreeRaw(t);
      InsertedSeen(done, t);
      PercentNotToken(t);
    } else {
      NoDigitsBehind(t);
      NotLooking(done, t);
    }
  }

  /** With three raw characters, a token is seen only where the text ends like a trimmed one. */
  lemma PercentNotToken(t: string)
    requires ThreeRaw(t) && t[0] == PREFIX
    ensures IsToken(Encoded(t)) <==> EndsLikeTrimmed(t)
  {
    EncodedThreeRaw(t);
    assert |Encoded(t)| == 3 <==> |t| == 3;
  }

  /** A percent sign without two raw digits behind it looks like nothing. */
  lemma NotLooking(done: string, t: string)
    requires t != [] && t[0] == PREFIX && !IsCoded(t) && !ThreeRaw(t)
    ensures !EndsLikeTrimmed(t) && !LooksInserted(done, t)
  {
    if |t| >= 3 {
      assert t[1..][0] == t[1] && t[2..][0] == t[2];
      assert t[..3][1] == t[1] && t[..3][2] == t[2];
    }
  }

  // ----- Restoring the whole encoding -----

  /** Restoring goes wrong at the start of t, done being restored. */
  predicate GoesWrong(done: string, t: string) {
    t != [] && t[0] == PREFIX && (EndsLikeTrimmed(t) || LooksInserted(done, t))
  }

  /** One step: the character comes back, or something is lost. */
  lemma RestoreStep(done: string, t: string)
    requires NulFree(t) && t != []
    ensures !GoesWrong(done, t) ==> Restore(done, Encoded(t)) == Restore(done + [t[0]], Encoded(t[1..]))
    ensures GoesWrong(done, t) ==>
              || Restore(done, Encoded(t)) == done + [HexToChar(t[1], t[2])]
              || Restore(done, Encoded(t)) == Restore(done, Encoded(t[3..]))
  {
    if IsCoded(t) {
      RestoreToken(done, t[0], Encoded(t[1..]));
      CodedIsNoTrap(done, t);
    } else if t[0] == PREFIX {
      RestorePercent(done, t);
    } else {
      RestoreOther(done, t[0], Encoded(t[1..]));
    }
  }

  /** A percent sign that is encoded reads as a tokenizable character, so it does not look like
      an encoded space or dot, nor like the insertion. */
  lemma CodedIsNoTrap(done: string, t: string)
    requires t != [] && IsCoded(t)
    ensures !GoesWrong(done, t)
  {
    if |t| >= 3 {
      assert t[..3][1] == t[1] && t[..3][2] == t[2];
    }
  }

  /** No restoring makes a name longer than it was. */
  lemma {:induction false} RestoreIsNoLonger(done: string, t: string)
    requires NulFree(t)
    ensures |Restore(done, Encoded(t))| <= |done| + |t|
    decreases |t|
  {
    if t == [] {
    } else {
      RestoreStep(done, t);
      if GoesWrong(done, t) {
        RestoreIsNoLonger(done, t[3..]);
      } else {
        RestoreIsNoLonger(done + [t[0]], t[1..]);
      }
    }
  }

  /** Restoring goes wrong nowhere in f from position i on. */
  predicate Safe(f: string, i: nat)
    requires i <= |f|
  {
    forall j | i <= j < |f| :: !GoesWrong(f[..j], f[j..])
  }

  lemma SafeNext(f: string, i: nat)
    requires i < |f| && !GoesWrong(f[..i], f[i..])
    ensures Safe(f, i) <==> Safe(f, i + 1)
  {
  }

  lemma MoveOn(f: string, i: nat)
    requires i < |f|
    ensures f[..i] + [f[i..][0]] == f[..i + 1] && f[i..][1..] == f[i + 1..]
  {
  }

  lemma {:induction false} RestoreEncoded(f: string, i: nat)
    requires NulFree(f) && i <= |f|
    ensures Safe(f, i) ==> Restore(f[..i], Encoded(f[i..])) == f
    ensures !Safe(f, i) ==> |Restore(f[..i], Encoded(f[i..]))| < |f|
    decreases |f| - i
  {
    if i == |f| {
      assert f[..i] == f && f[i..] == [];
    } else {
      var done, t := f[..i], f[i..];
      assert NulFree(t);
      RestoreStep(done, t);
      if GoesWrong(done, t) {
        RestoreIsNoLonger(done, t[3..]);
      } else {
        RestoreEncoded(f, i + 1);
        MoveOn(f, i);
        SafeNext(f, i);
      }
    }
  }

  // ----- The insertion does not matter -----

  predicate NoPrefix(s: string) {
    forall i | 0 <= i < |s| :: s[i] != PREFIX
  }

  /** Characters other than percent signs are passed over. */
  lemma {:induction false} RestorePassesOver(done: string, p: string, rest: string)
    requires NoPrefix(p) && NulFree(p)
    ensures Restore(done, p + rest) == Restore(done + p, rest)
    decreases |p|
  {
    if p == [] {
      assert p + rest == rest && done + p == done;
    } else {
      assert p + rest == [p[0]] + (p[1..] + rest);
      RestoreOther(done, p[0], p[1..] + rest);
      RestorePassesOver(done + [p[0]], p[1..], rest);
      assert (done + [p[0]]) + p[1..] == done + p;
    }
  }

  /** The insertion is taken out again. */
  lemma RestoreInsertion(done: string, rest: string)
    requires IsReserved(done + rest) && (rest == [] || rest[0] == '.')
    ensures Restore(done, INSERTED + rest) == Restore(done, rest)
  {
    var s := INSERTED + rest;
    assert s[..3] == INSERTED && s[3..] == rest;
    assert s[1] == '0' && s[2] == '0' && HexToChar('0', '0') == NUL;
  }

  /** The base of a reserved name holds no percent sign. */
  lemma ReservedBase(g: string)
    requires IsReserved(g)
    ensures NoPrefix(g[..BaseLength(g)]) && NulFree(g[..BaseLength(g)])
  {
    forall i | 0 <= i < BaseLength(g)
      ensures g[..BaseLength(g)][i] != PREFIX && g[..BaseLength(g)][i] != NUL
    {
      DeviceChars(g[..BaseLength(g)], i);
    }
  }

  lemma InsertionRestored(base: string, ext: string)
    requires NoPrefix(base) && NulFree(base) && IsReserved(base + ext) && (ext == [] || ext[0] == '.')
    ensures Restore([], base + INSERTED + ext) == Restore([], base + ext)
  {
    assert [] + base == base && base + INSERTED + ext == base + (INSERTED + ext);
    RestorePassesOver([], base, ext);
    RestorePassesOver([], base, INSERTED + ext);
    RestoreInsertion(base, ext);
  }

  lemma AvoidedRestores(g: string)
    ensures Restore([], AvoidReserved(g)) == Restore([], g)
  {
    if IsReserved(g) {
      ReservedBase(g);
      var n := BaseLength(g);
      assert g[..n] + g[n..] == g;
      InsertionRestored(g[..n], g[n..]);
    }
  }

  lemma InsertionDoesNotMatter(f: string)
    requires NulFree(f)
    ensures Restore([], Valid(f, TokenReplacement)) == Restore([], Encoded(f))
  {
    EncodedIsTrailingOfChars(f);
    AvoidedRestores(Encoded(f));
  }

  // ----- The main result -----

  /** The name ends in what reads as an encoded space or dot: %20, %2E or %2e. */
  predicate EndsInToken(f: string) {
    |f| >= 3 && (f[|f| - 3..] == "%20" || f[|f| - 3..] == "%2E" || f[|f| - 3..] == "%2e")
  }

  /** The name holds %00 at i, at the end or before a dot that is not its last character, and
      would be reserved without it. */
  predicate HoldsInsertion(f: string, i: nat)
    requires i <= |f|
  {
    && i + 3 <= |f| && f[i..i + 3] == INSERTED
    && (i + 3 == |f| || (f[i + 3] == '.' && i + 4 < |f|))
    && IsReserved(f[..i] + f[i + 3..])
  }

  lemma TrimmedTokens(a: char, b: char)
    ensures IsTrimmed(HexToChar(a, b)) <==> a == '2' && (b == '0' || b == 'E' || b == 'e')
  {
  }

  lemma GoesWrongAt(f: string, i: nat)
    requires i < |f|
    ensures GoesWrong(f[..i], f[i..]) <==> (i + 3 == |f| && EndsInToken(f)) || HoldsInsertion(f, i)
  {
    var t := f[i..];
    if |t| >= 3 {
      assert t[..3] == f[i..i + 3] && t[3..] == f[i + 3..];
      assert t[..3][0] == t[0] && t[..3][1] == t[1] && t[..3][2] == t[2];
      TrimmedTokens(t[1], t[2]);
      if |t| == 3 {
        assert t == [t[0], t[1], t[2]];
      }
    }
  }

  /** Restoring an encoded name gives the original name back, exactly if the name does not end
      in %20, %2E or %2e, and does not hold a %00 that only keeps it from being reserved. */
  lemma RestoresExactly(f: string)
    requires NulFree(f)
    ensures Restore([], Valid(f, TokenReplacement)) == f
            <==> !EndsInToken(f) && forall i | 0 <= i < |f| :: !HoldsInsertion(f, i)
  {
    InsertionDoesNotMatter(f);
    assert f[..0] == [] && f[0..] == f;
    RestoreEncoded(f, 0);
    forall i | 0 <= i < |f|
      ensures GoesWrong(f[..i], f[i..]) <==> (i + 3 == |f| && EndsInToken(f)) || HoldsInsertion(f, i)
    {
      GoesWrongAt(f, i);
    }
    if EndsInToken(f) {
      assert GoesWrong(f[..|f| - 3], f[|f| - 3..]);
    }
  }

  /** Names that do not come back: those that end like an encoded space or dot, and reserved names
      with %00 behind them. */
  lemma ReservedWithInsertionIsNotRestored(name: string)
    requires NulFree(name) && IsReserved(name)
    ensures Restore([], Valid(name + INSERTED, TokenReplacement)) != name + INSERTED
  {
    var f := name + INSERTED;
    assert f[|name|..|name| + 3] == INSERTED && f[..|name|] + f[|name| + 3..] == name;
    assert HoldsInsertion(f, |name|);
    RestoresExactly(f);
  }

  lemma EncodedSpaceIsNotRestored()
    ensures Restore([], Valid("a%20", TokenReplacement)) != "a%20"
  {
    assert "a%20"[1..] == "%20" && EndsInToken("a%20");
    RestoresExactly("a%20");
  }

  lemma ConWithInsertionIsNotRestored()
    ensures Restore([], Valid("CON%00", TokenReplacement)) != "CON%00"
  {
    var s := "CON";
    BaseLengthUnique(s, 3);
    assert s[1..] == "ON" && s[1..][1..] == "N" && s[1..][1..][1..] == "";
    assert s[..3] == s && Upper("N") == "N" && Upper("ON") == "ON" && Upper(s) == "CON";
    ReservedWithInsertionIsNotRestored(s);
    assert s + INSERTED == "CON%00";
  }
}
