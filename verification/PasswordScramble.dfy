/** ScramblePassword, UnscramblePassword and the table set-up of source/core/Cryptography.cpp.
    Passwords are the UTF-8 bytes; a C string ends at its first zero byte. */
module PasswordScramble {
  import opened Basics
  import opened ScrambleTable

  const LENGTH_EXTENSION: nat := 50
  const FIRST_LAST: Byte := 31

  // ----- C strings -----

  predicate ZeroFree(s: seq<Byte>) {
    forall i | 0 <= i < |s| :: s[i] != 0
  }

  /** The bytes up to the first zero. */
  function CStr(s: seq<Byte>): (r: seq<Byte>)
    ensures r <= s && ZeroFree(r)
    ensures |r| < |s| ==> s[|r|] == 0
  {
    if s == [] || s[0] == 0 then [] else [s[0]] + CStr(s[1..])
  }

  lemma {:induction false} CStrUnique(s: seq<Byte>, r: seq<Byte>)
    requires r <= s && ZeroFree(r) && (|r| < |s| ==> s[|r|] == 0)
    ensures CStr(s) == r
  {
    if r != [] {
      CStrUnique(s[1..], r[1..]);
    }
  }

  // ----- The chained substitution -----

  /** The key byte that follows after the plain byte c: always 1..255. */
  function NextLast(last: Byte, c: Byte): (r: Byte)
    ensures r != 0
  {
    (last + c) % 255 + 1
  }

  /** Each byte becomes the table entry at a position that depends on all bytes before it. */
  function Chain(table: seq<Byte>, s: seq<Byte>, last: Byte): (r: seq<Byte>)
    requires |table| == 256
    ensures |r| == |s|
  {
    if s == [] then [] else var l := NextLast(last, s[0]); [table[l]] + Chain(table, s[1..], l)
  }

  /** The plain byte behind a scrambled byte. */
  function Plain(inverse: seq<Byte>, b: Byte, last: Byte): (x: Byte)
    requires |inverse| == 256
  {
    var x: int := inverse[b] - 1 - last % 255;
    if x <= 0 then x + 255 else x
  }

  /** What the first loop of UnscramblePassword makes of its input; it stops at a zero byte. */
  function Unchain(inverse: seq<Byte>, s: seq<Byte>, last: Byte): (r: seq<Byte>)
    requires |inverse| == 256
    ensures |r| == |s|
  {
    if s == [] || s[0] == 0 then s
    else var x := Plain(inverse, s[0], last); [x] + Unchain(inverse, s[1..], NextLast(last, x))
  }

  ghost predicate Inverts(inverse: seq<Byte>, table: seq<Byte>) {
    |table| == |inverse| == 256 && forall i | 0 <= i < 256 :: inverse[table[i]] == i
  }

  lemma PlainOfNext(inverse: seq<Byte>, table: seq<Byte>, last: Byte, c: Byte)
    requires Inverts(inverse, table) && c != 0
    ensures Plain(inverse, table[NextLast(last, c)], last) == c
  {
  }

  /** Unchaining undoes chaining, the two running values staying equal all along. */
  lemma {:induction false} UnchainChain(table: seq<Byte>, inverse: seq<Byte>, s: seq<Byte>, last: Byte)
    requires IsPermutationKeepingZero(table) && Inverts(inverse, table)
    requires ZeroFree(s)
    ensures Unchain(inverse, Chain(table, s, last), last) == s
    ensures ZeroFree(Chain(table, s, last))
  {
    if s != [] {
      var l := NextLast(last, s[0]);
      PlainOfNext(inverse, table, last, s[0]);
      assert ZeroFree(s[1..]);
      UnchainChain(table, inverse, s[1..], l);
      assert table[l] != table[0];
      assert Chain(table, s, last)[1..] == Chain(table, s[1..], l);
    }
  }

  function Sum(s: seq<Byte>): nat {
    if s == [] then 0 else s[0] + Sum(s[1..])
  }

  lemma SumFirst(s: seq<Byte>, k: nat)
    requires k < |s|
    ensures Sum(s[..k + 1]) == s[0] + Sum(s[1..][..k])
  {
    assert s[..k + 1][1..] == s[1..][..k];
  }

  /** The place in the table that a running total leads to. */
  function PlaceOf(total: nat): Byte {
    1 + total % 255
  }

  lemma ChainNext(last: Byte, c: Byte, rest: nat, k: nat)
    ensures PlaceOf(NextLast(last, c) + rest + k) == PlaceOf(last + (c + rest) + (k + 1))
  {
    assert (last + c) % 255 + 1 + rest + k == last + c + 1 + rest + k - 255 * ((last + c) / 255);
  }

  /** Where in the table byte k ends up: 31 and all bytes up to it added, and one for each byte
      before it, modulo 255, counted from 1. */
  lemma {:induction false} ChainAt(table: seq<Byte>, s: seq<Byte>, last: Byte, k: nat)
    requires |table| == 256 && k < |s|
    ensures Chain(table, s, last)[k] == table[PlaceOf(last + Sum(s[..k + 1]) + k)]
    decreases k
  {
    SumFirst(s, k);
    if k > 0 {
      ChainAt(table, s[1..], NextLast(last, s[0]), k - 1);
      ChainNext(last, s[0], Sum(s[1..][..k]), k - 1);
    }
  }

  // ----- The plain text: padding, three digits, password -----

  predicate IsDigit(c: Byte) {
    48 <= c <= 57
  }

  /** The least multiple of 17 above len + 3. */
  function Total(len: nat): nat {
    (len + 3) / 17 * 17 + 17
  }

  /** A padding the random loop can choose for a password of this length. */
  predicate IsPadding(padding: seq<Byte>, len: nat) {
    |padding| == Total(len) - 3 - len && forall i | 0 <= i < |padding| :: padding[i] != 0 && !IsDigit(padding[i])
  }

  function LengthDigits(len: nat): (d: seq<Byte>)
    ensures |d| == 3 && forall i | 0 <= i < 3 :: IsDigit(d[i])
  {
    [48 + len % 10, 48 + len / 10 % 10, 48 + len / 100 % 10]
  }

  function PlainText(pwd: seq<Byte>, padding: seq<Byte>): seq<Byte> {
    padding + LengthDigits(|pwd|) + CStr(pwd)
  }

  function Scrambled(table: seq<Byte>, pwd: seq<Byte>, padding: seq<Byte>): seq<Byte>
    requires |table| == 256
  {
    Chain(table, PlainText(pwd, padding), FIRST_LAST)
  }

  // ----- Reading it back -----

  /** A char is signed. */
  function Signed(c: Byte): int {
    if c >= 128 then c - 256 else c
  }

  /** The index of the first digit, or of the string's end. */
  function DigitIndex(s: seq<Byte>): (i: nat)
    ensures i <= |s|
    ensures forall j | 0 <= j < i :: s[j] != 0 && !IsDigit(s[j])
    ensures i < |s| ==> s[i] == 0 || IsDigit(s[i])
  {
    if s == [] || s[0] == 0 || IsDigit(s[0]) then 0 else 1 + DigitIndex(s[1..])
  }

  lemma DigitIndexUnique(s: seq<Byte>, i: nat)
    requires i <= |s| && forall j | 0 <= j < i :: s[j] != 0 && !IsDigit(s[j])
    requires i < |s| ==> s[i] == 0 || IsDigit(s[i])
    ensures DigitIndex(s) == i
  {
  }

  /** The length the three characters at i spell, as signed arithmetic on char computes it. */
  function SpelledLength(s: seq<Byte>, i: nat): int
    requires i + 3 <= |s|
  {
    Signed(s[i]) - 48 + 10 * (Signed(s[i + 1]) - 48) + 100 * (Signed(s[i + 2]) - 48)
  }

  /** The password found in an unchained text, if the text is consistent. */
  function PasswordIn(d: seq<Byte>): (p: Option<seq<Byte>>) {
    var i := DigitIndex(d);
    if |CStr(d[i..])| < 3 then None
    else
      var len := SpelledLength(d, i);
      if LengthFits(len, |d|, i) then Some(d[|d| - len..]) else None
  }

  /** A spelled length agrees with the size of the text and with where it was found. */
  predicate LengthFits(len: int, size: nat, i: nat) {
    len >= 0 && Total(len) == size && Total(len) - i - 3 == len
  }

  /** The last three digits of a length fit its own text just when they are all of it. */
  lemma OwnLengthFits(n: nat)
    ensures LengthFits(n % 1000, Total(n), Total(n) - 3 - n) <==> n < 1000
    ensures n < 1000 ==> n % 1000 == n
  {
    TotalOfLastDigits(n);
  }

  function Unscrambled(inverse: seq<Byte>, scrambled: seq<Byte>): Option<seq<Byte>>
    requires |inverse| == 256
  {
    PasswordIn(Unchain(inverse, scrambled, FIRST_LAST))
  }

  /** The total tells a length from any other that agrees with it in the last three digits. */
  lemma TotalOfLastDigits(len: nat)
    ensures Total(len % 1000) == Total(len) <==> len < 1000
    ensures Total(len) > len + 3
  {
    if len >= 1000 {
      assert len % 1000 + 1000 <= len;
    }
  }

  lemma ThreeDigits(len: nat)
    ensures len % 10 + 10 * (len / 10 % 10) + 100 * (len / 100 % 10) == len % 1000
  {
    assert len / 100 == len / 10 / 10;
    assert len == 1000 * (len / 1000) + len % 1000;
  }

  lemma ZeroFreeConcat(a: seq<Byte>, b: seq<Byte>)
    requires ZeroFree(a) && ZeroFree(b)
    ensures ZeroFree(a + b)
  {
  }

  lemma PlainTextShape(pwd: seq<Byte>, padding: seq<Byte>)
    requires ZeroFree(pwd) && IsPadding(padding, |pwd|)
    ensures ZeroFree(PlainText(pwd, padding))
    ensures PlainText(pwd, padding) == padding + LengthDigits(|pwd|) + pwd
    ensures DigitIndex(PlainText(pwd, padding)) == |padding|
  {
    CStrUnique(pwd, pwd);
    ZeroFreeConcat(padding, LengthDigits(|pwd|));
    ZeroFreeConcat(padding + LengthDigits(|pwd|), pwd);
    DigitIndexUnique(PlainText(pwd, padding), |padding|);
  }

  lemma SpelledLengthOf(padding: seq<Byte>, pwd: seq<Byte>)
    ensures SpelledLength(padding + LengthDigits(|pwd|) + pwd, |padding|) == |pwd| % 1000
  {
    var d := padding + LengthDigits(|pwd|) + pwd;
    var i := |padding|;
    assert d[i] == LengthDigits(|pwd|)[0] && d[i + 1] == LengthDigits(|pwd|)[1] && d[i + 2] == LengthDigits(|pwd|)[2];
    ThreeDigits(|pwd|);
  }

  lemma ZeroFreeCStr(s: seq<Byte>, i: nat)
    requires ZeroFree(s) && i <= |s|
    ensures CStr(s[i..]) == s[i..]
  {
    CStrUnique(s[i..], s[i..]);
  }

  /** The text built from a password reads back as that password if it is shorter than a
      thousand bytes, and is refused otherwise: three digits do not hold its length. */
  lemma PasswordInPlainText(pwd: seq<Byte>, padding: seq<Byte>)
    requires ZeroFree(pwd) && IsPadding(padding, |pwd|)
    ensures PasswordIn(PlainText(pwd, padding)) == if |pwd| < 1000 then Some(pwd) else None
  {
    PlainTextShape(pwd, padding);
    SpelledLengthOf(padding, pwd);
    OwnLengthFits(|pwd|);
    PasswordAt(PlainText(pwd, padding), |padding|, pwd);
  }

  /** Reading a NUL-free text whose last part is pwd and whose first digit is three before it. */
  lemma PasswordAt(d: seq<Byte>, i: nat, pwd: seq<Byte>)
    requires ZeroFree(d) && DigitIndex(d) == i && i + 3 + |pwd| == |d| && d[i + 3..] == pwd
    requires LengthFits(SpelledLength(d, i), |d|, i) ==> SpelledLength(d, i) == |pwd|
    ensures PasswordIn(d) == if LengthFits(SpelledLength(d, i), |d|, i) then Some(pwd) else None
  {
    ZeroFreeCStr(d, i);
  }

  function DigitOf(b: Byte): int {
    b as int - 48
  }

  /** What is chained: the password at the end, before it three digits that spell the last three
      digits of its length backwards, before them what is neither zero nor a digit, and as much of
      that as fills up to a multiple of 17. */
  lemma TextLayout(pwd: seq<Byte>, padding: seq<Byte>)
    requires ZeroFree(pwd) && IsPadding(padding, |pwd|)
    ensures var t, n := PlainText(pwd, padding), |padding|;
            && |t| == n + 3 + |pwd| && |t| % 17 == 0 && 1 <= n <= 17 && t[n + 3..] == pwd
            && (forall j | n <= j < n + 3 :: 48 <= t[j] <= 57)
            && DigitOf(t[n]) + 10 * DigitOf(t[n + 1]) + 100 * DigitOf(t[n + 2]) == |pwd| % 1000
            && forall j | 0 <= j < n :: t[j] != 0 && !(48 <= t[j] <= 57)
  {
    PlainTextShape(pwd, padding);
    ThreeDigits(|pwd|);
    MultipleOf17((|pwd| + 3) / 17);
    var n, t := |padding|, PlainText(pwd, padding);
    assert t[n] == LengthDigits(|pwd|)[0] && t[n + 1] == LengthDigits(|pwd|)[1] && t[n + 2] == LengthDigits(|pwd|)[2];
  }

  lemma MultipleOf17(k: nat)
    ensures (k * 17 + 17) % 17 == 0
  {
  }

  /** And how: 31 and all bytes up to one choose what stands for it. */
  lemma ScrambledAt(pwd: seq<Byte>, padding: seq<Byte>, k: nat)
    requires k < |PlainText(pwd, padding)|
    ensures Scrambled(Table(), pwd, padding)[k]
            == Table()[PlaceOf(31 + Sum(PlainText(pwd, padding)[..k + 1]) + k)]
  {
    ChainAt(Table(), PlainText(pwd, padding), 31, k);
  }

  /** A char holds the numbers from -128 to 127. */
  lemma SignedIs(c: Byte, n: int)
    requires -128 <= n < 128 && c == n % 256
    ensures Signed(c) == n
  {
  }

  /** Looking for the length stops at the first of the characters 48 to 57, or at a zero. */
  lemma FirstDigit(front: seq<Byte>, rest: seq<Byte>)
    requires forall i | 0 <= i < |front| :: 0 < front[i] < 48 || 57 < front[i]
    requires rest == [] || rest[0] == 0 || 48 <= rest[0] <= 57
    ensures DigitIndex(front + rest) == |front|
  {
    DigitIndexUnique(front + rest, |front|);
  }

  /** Which texts hold a password, and which: the first digit starts a length that is that of all
      that follows the three digits, and the whole is the next multiple of 17. */
  lemma TakenExactly(d: seq<Byte>, p: seq<Byte>)
    ensures PasswordIn(d) == Some(p) <==>
              var i := DigitIndex(d);
              && |CStr(d[i..])| >= 3
              && Signed(d[i]) - 48 + 10 * (Signed(d[i + 1]) - 48) + 100 * (Signed(d[i + 2]) - 48) == |p|
              && i + 3 + |p| == |d| && d[i + 3..] == p && |d| % 17 == 0 && |p| + 3 < |d| <= |p| + 20
  {
    var i := DigitIndex(d);
    if |CStr(d[i..])| >= 3 {
      var len := SpelledLength(d, i);
      if len >= 0 {
        TotalIs(len, |d|);
      }
    }
  }

  lemma TotalIs(len: nat, size: nat)
    ensures Total(len) == size <==> size % 17 == 0 && len + 3 < size <= len + 20
  {
    MultipleOf17((len + 3) / 17);
    if size % 17 == 0 && len + 3 < size <= len + 20 {
      assert size / 17 == (len + 3) / 17 + 1;
    }
  }

  /** Scrambling a password and unscrambling the result gives the password back, whatever
      padding was drawn, just when it is shorter than 1000 bytes. */
  lemma UnscrambleScramble(inverse: seq<Byte>, pwd: seq<Byte>, padding: seq<Byte>)
    requires Inverts(inverse, Table()) && ZeroFree(pwd) && IsPadding(padding, |pwd|)
    ensures Unscrambled(inverse, Scrambled(Table(), pwd, padding)) == if |pwd| < 1000 then Some(pwd) else None
  {
    TableIsPermutation();
    PlainTextShape(pwd, padding);
    PasswordInPlainText(pwd, padding);
    UnchainChain(Table(), inverse, PlainText(pwd, padding), FIRST_LAST);
  }

  // ----- The code -----

  /** The loop of CryptographyInitialize. */
  method InitializeUnscrambleTable(table: seq<Byte>) returns (inverse: array<Byte>)
    requires IsPermutationKeepingZero(table)
    ensures fresh(inverse) && Inverts(inverse[..], table)
  {
    inverse := new Byte[256];
    for index := 0 to 256
      invariant forall i | 0 <= i < index :: inverse[table[i]] == i
    {
      inverse[table[index]] := index;
    }
  }

  /** The padding loop and the three length digits. */
  method PutHeader(buf: array<Byte>, len: nat, padding: seq<Byte>)
    requires |padding| + 3 <= buf.Length
    modifies buf
    ensures buf[..|padding| + 3] == padding + LengthDigits(len)
  {
    var n := |padding|;
    for index := 0 to n
      invariant buf[..index] == padding[..index]
    {
      buf[index] := padding[index];
    }
    buf[n] := 48 + len % 10;
    buf[n + 1] := 48 + len / 10 % 10;
    buf[n + 2] := 48 + len / 100 % 10;
  }

  /** strcpy(buf + at, s) */
  method StrCpy(buf: array<Byte>, at: nat, s: seq<Byte>)
    requires at + |s| < buf.Length
    modifies buf
    ensures buf[..at] == old(buf[..at])
    ensures buf[at..at + |CStr(s)|] == CStr(s) && buf[at + |CStr(s)|] == 0
  {
    var i := 0;
    while i < |s| && s[i] != 0
      invariant i <= |s| && ZeroFree(s[..i])
      invariant buf[..at] == old(buf[..at])
      invariant buf[at..at + i] == s[..i]
    {
      buf[at + i] := s[i];
      i := i + 1;
    }
    buf[at + i] := 0;
    CStrUnique(s, s[..i]);
  }

  /** The buffer of ScramblePassword before the chaining loop. */
  method FillBuffer(buf: array<Byte>, pwd: seq<Byte>, padding: seq<Byte>)
    requires IsPadding(padding, |pwd|) && buf.Length == |pwd| + LENGTH_EXTENSION
    modifies buf
    ensures |PlainText(pwd, padding)| < buf.Length
    ensures buf[..|PlainText(pwd, padding)|] == PlainText(pwd, padding) && buf[|PlainText(pwd, padding)|] == 0
  {
    var at := |padding| + 3;
    assert at <= 20;
    PutHeader(buf, |pwd|, padding);
    StrCpy(buf, at, pwd);
    SplitAt(buf[..], at, at + |CStr(pwd)|);
  }

  lemma SplitAt(s: seq<Byte>, at: nat, n: nat)
    requires at <= n <= |s|
    ensures s[..n] == s[..at] + s[at..n]
  {
  }

  /** The chaining loop of ScramblePassword, in place up to the terminator. */
  method ChainInPlace(table: seq<Byte>, buf: array<Byte>, ghost text: seq<Byte>)
    requires |table| == 256 && ZeroFree(text)
    requires |text| < buf.Length && buf[..|text|] == text && buf[|text|] == 0
    modifies buf
    ensures buf[..|text|] == Chain(table, text, FIRST_LAST) && buf[|text|] == 0
  {
    var s, last := 0, FIRST_LAST;
    ghost var r := Chain(table, text, FIRST_LAST);
    while buf[s] != 0
      invariant s <= |text| && buf[|text|] == 0 && r[s..] == Chain(table, text[s..], last)
      invariant forall j | 0 <= j < |text| :: buf[j] == if j < s then r[j] else text[j]
      decreases |text| - s
    {
      assert text[s..][0] == buf[s] && text[s..][1..] == text[s + 1..];
      last := NextLast(last, buf[s]);
      assert r[s] == r[s..][0] && r[s + 1..] == r[s..][1..];
      buf[s] := table[last];
      s := s + 1;
    }
  }

  method ScramblePassword(table: seq<Byte>, pwd: seq<Byte>, padding: seq<Byte>) returns (result: seq<Byte>)
    requires IsPermutationKeepingZero(table) && IsPadding(padding, |pwd|)
    ensures result == Scrambled(table, pwd, padding) && ZeroFree(result)
  {
    var buf := new Byte[|pwd| + LENGTH_EXTENSION];
    FillBuffer(buf, pwd, padding);
    ghost var text := PlainText(pwd, padding);
    ZeroFreeConcat(padding, LengthDigits(|pwd|));
    ZeroFreeConcat(padding + LengthDigits(|pwd|), CStr(pwd));
    ChainInPlace(table, buf, text);
    ChainZeroFree(table, text, FIRST_LAST);
    result := CStr(buf[..]);
    CStrUnique(buf[..], Chain(table, text, FIRST_LAST));
  }

  lemma {:induction false} ChainZeroFree(table: seq<Byte>, s: seq<Byte>, last: Byte)
    requires IsPermutationKeepingZero(table)
    ensures ZeroFree(Chain(table, s, last))
  {
    if s != [] {
      var l := NextLast(last, s[0]);
      ChainZeroFree(table, s[1..], l);
      assert table[l] != table[0];
    }
  }

  lemma UnchainStep(inverse: seq<Byte>, s: seq<Byte>, i: nat, last: Byte)
    requires |inverse| == 256 && i < |s| && s[i] != 0
    ensures Unchain(inverse, s[i..], last)
            == var x := Plain(inverse, s[i], last); [x] + Unchain(inverse, s[i + 1..], NextLast(last, x))
  {
    assert s[i..][1..] == s[i + 1..];
  }

  /** The first loop of UnscramblePassword, in place. */
  method UnchainInPlace(inverse: seq<Byte>, buf: array<Byte>)
    requires |inverse| == 256
    modifies buf
    ensures buf[..] == Unchain(inverse, old(buf[..]), FIRST_LAST)
  {
    var s, last: Byte := 0, FIRST_LAST;
    ghost var was := buf[..];
    ghost var r := Unchain(inverse, was, FIRST_LAST);
    while s < buf.Length && buf[s] != 0
      invariant s <= buf.Length == |was| && r[s..] == Unchain(inverse, was[s..], last)
      invariant forall j | 0 <= j < buf.Length :: buf[j] == if j < s then r[j] else was[j]
    {
      UnchainStep(inverse, was, s, last);
      var x := Plain(inverse, buf[s], last);
      assert r[s] == r[s..][0] && r[s + 1..] == r[s..][1..];
      buf[s] := x;
      last := NextLast(last, x);
      s := s + 1;
    }
    assert forall j | s <= j < buf.Length :: r[j] == r[s..][j - s] == was[s..][j - s];
  }

  /** The second loop of UnscramblePassword: the first digit. */
  method FindDigit(d: seq<Byte>) returns (s: nat)
    ensures s == DigitIndex(d)
  {
    s := 0;
    while s < |d| && d[s] != 0 && (Signed(d[s]) < 48 || Signed(d[s]) > 57)
      invariant s <= |d| && forall j | 0 <= j < s :: d[j] != 0 && !IsDigit(d[j])
    {
      s := s + 1;
    }
    DigitIndexUnique(d, s);
  }

  /** The consistency checks of UnscramblePassword, s being the first digit's index. */
  method TakePassword(d: seq<Byte>, s: nat) returns (ok: bool, password: seq<Byte>)
    requires s == DigitIndex(d)
    ensures ok <==> PasswordIn(d).Some?
    ensures password == if ok then PasswordIn(d).value else []
  {
    ok, password := false, [];
    if |CStr(d[s..])| >= 3 {
      var len: int := Signed(d[s]) - 48 + 10 * (Signed(d[s + 1]) - 48) + 100 * (Signed(d[s + 2]) - 48);
      assert len == SpelledLength(d, s);
      if len >= 0 && Total(len) == |d| && Total(len) - s - 3 == len {
        password := d[|d| - len..];
        ok := true;
      }
    }
  }

  method UnscramblePassword(inverse: seq<Byte>, scrambled: seq<Byte>) returns (ok: bool, password: seq<Byte>)
    requires |inverse| == 256
    ensures ok <==> Unscrambled(inverse, scrambled).Some?
    ensures password == if ok then Unscrambled(inverse, scrambled).value else []
  {
    var buf := new Byte[|scrambled|](i requires 0 <= i < |scrambled| => scrambled[i]);
    assert buf[..] == scrambled;
    UnchainInPlace(inverse, buf);
    var s := FindDigit(buf[..]);
    ok, password := TakePassword(buf[..], s);
  }

  /** A whole run through both functions with tables set up as the program does it. */
  method ScrambleThenUnscramble(pwd: seq<Byte>, padding: seq<Byte>) returns (ok: bool, password: seq<Byte>)
    requires ZeroFree(pwd) && IsPadding(padding, |pwd|)
    ensures ok <==> |pwd| < 1000
    ensures password == if ok then pwd else []
  {
    TableIsPermutation();
    var inverse := InitializeUnscrambleTable(Table());
    var scrambled := ScramblePassword(Table(), pwd, padding);
    UnscrambleScramble(inverse[..], pwd, padding);
    ok, password := UnscramblePassword(inverse[..], scrambled);
  }
}
