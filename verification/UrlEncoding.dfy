/** EncodeUrlString, EncodeUrlPath and DecodeUrlChars of source/core/Common.cpp. Encoding works
    character by character; decoding joins whole runs of %XX before it reads them as UTF-8. */
module UrlEncoding {
  import opened Basics
  import opened Hexadecimal

  /** A string of 16-bit characters other than zero; surrogates are no characters in Dafny. */
  predicate Plain(s: string) {
    forall i | 0 <= i < |s| :: 0 < s[i] as int < 0x1_0000
  }

  /** The same with zero. */
  predicate Narrow(s: string) {
    forall i | 0 <= i < |s| :: s[i] as int < 0x1_0000
  }

  // ----- UTF-8 (section 3 of RFC 3629) -----

  function Utf8Of(c: char): seq<Byte>
    requires c as int < 0x1_0000
  {
    var n := c as int;
    if n < 0x80 then [n]
    else if n < 0x800 then [0xC0 + n / 0x40, 0x80 + n % 0x40]
    else [0xE0 + n / 0x1000, 0x80 + n / 0x40 % 0x40, 0x80 + n % 0x40]
  }

  predicate IsTail(b: Byte) {
    0x80 <= b <= 0xBF
  }

  /** The first character of a byte string in UTF-8, if it is one of 16 bits, and its size. */
  function FirstChar(b: seq<Byte>): (r: Option<(char, nat)>)
    ensures r.Some? ==> 0 < r.value.1 <= |b|
  {
    if |b| >= 1 && b[0] < 0x80 then Some((b[0] as char, 1))
    else if |b| >= 2 && 0xC2 <= b[0] <= 0xDF && IsTail(b[1]) then
      Some((((b[0] as int - 0xC0) * 0x40 + (b[1] as int - 0x80)) as char, 2))
    else if |b| >= 3 && 0xE0 <= b[0] <= 0xEF && IsTail(b[1]) && IsTail(b[2]) then
      var n := (b[0] as int - 0xE0) * 0x1000 + (b[1] as int - 0x80) * 0x40 + (b[2] as int - 0x80);
      if n < 0x800 || 0xD800 <= n < 0xE000 then None else Some((n as char, 3))
    else None
  }

  function Utf8Decode(b: seq<Byte>): Option<string> {
    if b == [] then Some([])
    else
      match FirstChar(b)
      case None => None
      case Some((c, n)) =>
        match Utf8Decode(b[n..])
        case None => None
        case Some(rest) => Some([c] + rest)
  }

  /** UTF8ToString. What it makes of anything else, such as characters beyond 16 bits or
      malformed bytes, is left to the library. */
  function Utf8ToString(b: seq<Byte>, other: seq<Byte> -> string): string {
    match Utf8Decode(b)
    case Some(s) => s
    case None => other(b)
  }

  // ----- Hexadecimal -----

  /** ByteToHex, in upper case. */
  function ByteToHex(b: Byte): (h: string)
    ensures |h| == 2
  {
    [HexDigit(b / 16), HexDigit(b % 16)]
  }

  predicate AllHex(hex: string) {
    forall i | 0 <= i < |hex| :: IsHex(hex[i])
  }

  /** The bytes that pairs of digits stand for. */
  function PairsToBytes(hex: string): (b: seq<Byte>)
    requires |hex| % 2 == 0 && AllHex(hex)
    ensures |b| == |hex| / 2
  {
    if hex == [] then []
    else [DigitValue(hex[0]) * 16 + DigitValue(hex[1])] + PairsToBytes(hex[2..])
  }

  /** HexToBytes: empty for an odd length or any character that is no digit. */
  function HexToBytes(hex: string): seq<Byte> {
    if |hex| % 2 == 0 && AllHex(hex) then PairsToBytes(hex) else []
  }

  // ----- Encoding -----

  predicate IsKept(c: char, encodeSlash: bool) {
    || 'a' <= c <= 'z' || 'A' <= c <= 'Z' || '0' <= c <= '9'
    || c == '_' || c == '-' || c == '.' || (c == '/' && !encodeSlash)
  }

  function Percents(b: seq<Byte>): string {
    if b == [] then [] else ['%'] + ByteToHex(b[0]) + Percents(b[1..])
  }

  function EncodeChar(c: char, encodeSlash: bool): string
    requires c as int < 0x1_0000
  {
    if IsKept(c, encodeSlash) then [c] else Percents(Utf8Of(c))
  }

  function Encode(s: string, encodeSlash: bool): string
    requires Plain(s)
  {
    if s == [] then [] else EncodeChar(s[0], encodeSlash) + Encode(s[1..], encodeSlash)
  }

  // ----- Decoding -----

  predicate IsPercent(s: string) {
    |s| >= 3 && s[0] == '%' && IsHex(s[1]) && IsHex(s[2])
  }

  /** A maximal run of %XX at the start: its digits, and what follows. */
  function HexRun(s: string): (r: (string, string))
    ensures |r.0| % 2 == 0 && AllHex(r.0) && |r.1| <= |s|
    ensures IsPercent(s) <==> r.0 != []
    ensures r.0 != [] ==> |r.1| < |s|
    ensures r.0 == [] ==> r.1 == s
  {
    if IsPercent(s) then var r := HexRun(s[3..]); (s[1..3] + r.0, r.1) else ([], s)
  }

  function Decode(s: string, other: seq<Byte> -> string): string
    decreases |s|
  {
    if s == [] then []
    else if s[0] == '+' then [' '] + Decode(s[1..], other)
    else
      var r := HexRun(s);
      if r.0 == [] then [s[0]] + Decode(s[1..], other)
      else Utf8ToString(HexToBytes(r.0), other) + Decode(r.1, other)
  }

  // ----- The round trip -----

  function Utf8All(s: string): seq<Byte>
    requires Narrow(s)
  {
    if s == [] then [] else Utf8Of(s[0]) + Utf8All(s[1..])
  }

  function HexAll(b: seq<Byte>): string {
    if b == [] then [] else ByteToHex(b[0]) + HexAll(b[1..])
  }

  lemma FirstCharOf(c: char, rest: seq<Byte>)
    requires c as int < 0x1_0000
    ensures FirstChar(Utf8Of(c) + rest) == Some((c, |Utf8Of(c)|))
  {
    var n, b := c as int, Utf8Of(c) + rest;
    if n < 0x80 {
    } else if n < 0x800 {
      assert b[0] == 0xC0 + n / 0x40 && b[1] == 0x80 + n % 0x40;
    } else {
      assert b[0] == 0xE0 + n / 0x1000 && b[1] == 0x80 + n / 0x40 % 0x40 && b[2] == 0x80 + n % 0x40;
      assert n / 0x1000 == n / 0x40 / 0x40;
    }
  }

  lemma {:induction false} Utf8RoundTrip(s: string)
    requires Narrow(s)
    ensures Utf8Decode(Utf8All(s)) == Some(s)
  {
    if s != [] {
      var b := Utf8Of(s[0]);
      FirstCharOf(s[0], Utf8All(s[1..]));
      assert (b + Utf8All(s[1..]))[|b|..] == Utf8All(s[1..]);
      Utf8RoundTrip(s[1..]);
      assert [s[0]] + s[1..] == s;
    }
  }

  lemma FirstCharIs(b: seq<Byte>)
    requires FirstChar(b).Some?
    ensures var (c, n) := FirstChar(b).value; c as int < 0x1_0000 && b[..n] == Utf8Of(c)
  {
    var (c, n) := FirstChar(b).value;
    if n == 1 {
      assert b[..1] == [b[0]];
    } else if n == 2 {
      assert b[..2] == [b[0], b[1]];
    } else {
      assert b[..3] == [b[0], b[1], b[2]];
      ThreeBytes(c as int, b[0] - 0xE0, b[1] - 0x80, b[2] - 0x80);
    }
  }

  lemma ThreeBytes(n: nat, high: nat, middle: nat, low: nat)
    requires n == high * 0x1000 + middle * 0x40 + low && middle < 0x40 && low < 0x40
    ensures n / 0x1000 == high && n / 0x40 % 0x40 == middle && n % 0x40 == low
  {
    assert n / 0x40 == high * 0x40 + middle;
  }

  lemma Utf8AllCons(c: char, s: string)
    requires c as int < 0x1_0000 && Narrow(s)
    ensures Narrow([c] + s) && Utf8All([c] + s) == Utf8Of(c) + Utf8All(s)
  {
    assert ([c] + s)[1..] == s;
  }

  lemma Utf8Next(b: seq<Byte>) returns (c: char, n: nat)
    requires b != [] && Utf8Decode(b).Some?
    ensures 0 < n <= |b| && Utf8Decode(b[n..]).Some?
    ensures Utf8Decode(b).value == [c] + Utf8Decode(b[n..]).value
    ensures forall s | Narrow(s) && Utf8All(s) == b[n..] :: Narrow([c] + s) && Utf8All([c] + s) == b
  {
    c, n := FirstChar(b).value.0, FirstChar(b).value.1;
    FirstCharIs(b);
    var first := b[..n];
    forall s | Narrow(s) && Utf8All(s) == b[n..] ensures Narrow([c] + s) && Utf8All([c] + s) == b {
      Utf8AllCons(c, s);
      assert first + b[n..] == b;
    }
  }

  /** Nothing else is read as characters: no stray byte, no longer spelling, no surrogate. */
  lemma {:induction false} Utf8ReadsOnly(b: seq<Byte>)
    requires Utf8Decode(b).Some?
    ensures Narrow(Utf8Decode(b).value) && Utf8All(Utf8Decode(b).value) == b
  {
    if b != [] {
      var c, n := Utf8Next(b);
      Utf8ReadsOnly(b[n..]);
    }
  }

  lemma HexPair(b: Byte)
    ensures IsHex(ByteToHex(b)[0]) && IsHex(ByteToHex(b)[1])
    ensures DigitValue(ByteToHex(b)[0]) * 16 + DigitValue(ByteToHex(b)[1]) == b
  {
    HexDigitValue(b / 16);
    HexDigitValue(b % 16);
  }

  lemma PairsCons(b: Byte, rest: string)
    requires |rest| % 2 == 0 && AllHex(rest)
    ensures var h := ByteToHex(b) + rest; |h| % 2 == 0 && AllHex(h) && PairsToBytes(h) == [b] + PairsToBytes(rest)
  {
    var h := ByteToHex(b) + rest;
    HexPair(b);
    assert h[0] == ByteToHex(b)[0] && h[1] == ByteToHex(b)[1] && h[2..] == rest;
  }

  lemma {:induction false} HexRoundTrip(b: seq<Byte>)
    ensures |HexAll(b)| % 2 == 0 && AllHex(HexAll(b)) && PairsToBytes(HexAll(b)) == b
  {
    if b != [] {
      HexRoundTrip(b[1..]);
      PairsCons(b[0], HexAll(b[1..]));
      assert b == [b[0]] + b[1..];
    }
  }

  lemma {:induction false} PercentsConcat(a: seq<Byte>, b: seq<Byte>)
    ensures Percents(a + b) == Percents(a) + Percents(b)
  {
    if a == [] {
      assert a + b == b;
    } else {
      assert (a + b)[1..] == a[1..] + b;
      PercentsConcat(a[1..], b);
    }
  }

  lemma RunStep(b: Byte, rest: string)
    ensures HexRun((['%'] + ByteToHex(b)) + rest) == (ByteToHex(b) + HexRun(rest).0, HexRun(rest).1)
  {
    HexDigitValue(b / 16);
    HexDigitValue(b % 16);
    var s := (['%'] + ByteToHex(b)) + rest;
    assert s[1..3] == ByteToHex(b) && s[3..] == rest;
  }

  /** A run of %XX is read whole, up to something that is none. */
  lemma {:induction false} RunOfPercents(b: seq<Byte>, rest: string)
    requires !IsPercent(rest)
    ensures HexRun(Percents(b) + rest) == (HexAll(b), rest)
  {
    if b == [] {
      assert Percents(b) + rest == rest;
    } else {
      RunOfPercents(b[1..], rest);
      Associate(['%'] + ByteToHex(b[0]), Percents(b[1..]), rest);
      RunStep(b[0], Percents(b[1..]) + rest);
    }
  }

  /** How many characters at the start get encoded. */
  function EncodedAhead(s: string, encodeSlash: bool): (n: nat)
    ensures n <= |s| && (n < |s| ==> IsKept(s[n], encodeSlash))
  {
    if s != [] && !IsKept(s[0], encodeSlash) then 1 + EncodedAhead(s[1..], encodeSlash) else 0
  }

  lemma {:induction false} EncodeAhead(s: string, encodeSlash: bool)
    requires Plain(s)
    ensures var n := EncodedAhead(s, encodeSlash);
            Encode(s, encodeSlash) == Percents(Utf8All(s[..n])) + Encode(s[n..], encodeSlash)
  {
    var n := EncodedAhead(s, encodeSlash);
    if n == 0 {
      assert s[0..] == s;
    } else {
      var u, t := s[1..][..n - 1], s[1..][n - 1..];
      EncodeAhead(s[1..], encodeSlash);
      assert t == s[n..] && s[..n][1..] == u;
      OneMorePercent(s[..n], Encode(t, encodeSlash));
    }
  }

  lemma OneMorePercent(s: string, rest: string)
    requires s != [] && Plain(s)
    ensures Percents(Utf8All(s)) + rest == Percents(Utf8Of(s[0])) + (Percents(Utf8All(s[1..])) + rest)
  {
    PercentsConcat(Utf8Of(s[0]), Utf8All(s[1..]));
    Associate(Percents(Utf8Of(s[0])), Percents(Utf8All(s[1..])), rest);
  }

  /** What follows an encoded run does not look like part of it. */
  lemma NoPercentBehind(t: string, encodeSlash: bool)
    requires Plain(t) && (t != [] ==> IsKept(t[0], encodeSlash))
    ensures !IsPercent(Encode(t, encodeSlash))
  {
    if t != [] {
      assert Encode(t, encodeSlash)[0] == t[0];
    }
  }

  /** Decoding gives back what was encoded, for both ways to treat slashes. */
  lemma {:induction false} DecodeEncode(s: string, encodeSlash: bool, other: seq<Byte> -> string)
    requires Plain(s)
    ensures Decode(Encode(s, encodeSlash), other) == s
    decreases |s|
  {
    var n := EncodedAhead(s, encodeSlash);
    if s == [] {
    } else if n == 0 {
      DecodeEncode(s[1..], encodeSlash, other);
      DecodeKept(s[0], Encode(s[1..], encodeSlash), other);
      assert [s[0]] + s[1..] == s;
    } else {
      var u, t := s[..n], s[n..];
      assert Plain(u) && Plain(t) && u + t == s;
      DecodeEncode(t, encodeSlash, other);
      EncodeAhead(s, encodeSlash);
      NoPercentBehind(t, encodeSlash);
      DecodeAhead(u, Encode(t, encodeSlash), other);
    }
  }

  lemma DecodeAhead(u: string, rest: string, other: seq<Byte> -> string)
    requires Plain(u) && u != [] && !IsPercent(rest)
    ensures Decode(Percents(Utf8All(u)) + rest, other) == u + Decode(rest, other)
  {
    RunOfPercents(Utf8All(u), rest);
    HexRoundTrip(Utf8All(u));
    Utf8RoundTrip(u);
    DecodeRun(Utf8All(u), u, rest, other);
  }

  lemma DecodeKept(c: char, rest: string, other: seq<Byte> -> string)
    requires c != '+' && c != '%'
    ensures Decode([c] + rest, other) == [c] + Decode(rest, other)
  {
    assert ([c] + rest)[1..] == rest;
  }

  lemma DecodeRun(b: seq<Byte>, u: string, rest: string, other: seq<Byte> -> string)
    requires b != [] && Utf8Decode(b) == Some(u)
    requires HexRun(Percents(b) + rest) == (HexAll(b), rest)
    requires |HexAll(b)| % 2 == 0 && AllHex(HexAll(b)) && PairsToBytes(HexAll(b)) == b
    ensures Decode(Percents(b) + rest, other) == u + Decode(rest, other)
  {
    assert (Percents(b) + rest)[0] == '%';
  }

  // ----- Character by character -----

  /** A character of 16 bits takes one, two or three bytes, which hold its bits in order. */
  lemma Utf8Bytes(c: char)
    requires c as int < 0x1_0000
    ensures var n, b := c as int, Utf8Of(c);
            if n < 0x80 then b == [n]
            else if n < 0x800 then
              && |b| == 2 && 0x80 <= b[1] < 0xC0
              && 0xC2 <= b[0] < 0xE0 && (b[0] as int - 0xC0) * 64 + (b[1] as int - 0x80) == n
            else
              && |b| == 3 && 0x80 <= b[1] < 0xC0 && 0x80 <= b[2] < 0xC0 && 0xE0 <= b[0] < 0xF0
              && (b[0] as int - 0xE0) * 4096 + (b[1] as int - 0x80) * 64 + (b[2] as int - 0x80) == n
  {
    var n := c as int;
    if n >= 0x800 {
      assert n / 0x1000 == n / 0x40 / 0x40;
    }
  }

  /** Letters and digits, _, - and . stand for themselves, and a slash in a path. */
  lemma KeptChar(c: char, encodeSlash: bool)
    requires || 'a' <= c <= 'z' || 'A' <= c <= 'Z' || '0' <= c <= '9' || c in {'_', '-', '.'}
             || (c == '/' && !encodeSlash)
    ensures Encode([c], encodeSlash) == [c]
  {
    AddNothing([c]);
  }

  /** Any other character becomes a percent sign and two digits for each of its bytes. */
  lemma EncodedChar(c: char, encodeSlash: bool)
    requires 0 < c as int < 0x1_0000 && c !in {'_', '-', '.'} && (c == '/' ==> encodeSlash)
    requires !('a' <= c <= 'z') && !('A' <= c <= 'Z') && !('0' <= c <= '9')
    ensures Encode([c], encodeSlash) == Percents(Utf8Of(c))
    ensures |Percents(Utf8Of(c))| == 3 * |Utf8Of(c)|
    ensures forall i | 0 <= i < |Utf8Of(c)| ::
              && Percents(Utf8Of(c))[3 * i] == '%'
              && Percents(Utf8Of(c))[3 * i + 1] == "0123456789ABCDEF"[Utf8Of(c)[i] / 16]
              && Percents(Utf8Of(c))[3 * i + 2] == "0123456789ABCDEF"[Utf8Of(c)[i] % 16]
  {
    AddNothing(Percents(Utf8Of(c)));
    PercentsSize(Utf8Of(c));
    forall i | 0 <= i < |Utf8Of(c)|
      ensures var p, x := Percents(Utf8Of(c)), Utf8Of(c)[i] as int;
              && p[3 * i] == '%'
              && p[3 * i + 1] == "0123456789ABCDEF"[x / 16] && p[3 * i + 2] == "0123456789ABCDEF"[x % 16]
    {
      PercentsAt(Utf8Of(c), i);
    }
  }

  lemma {:induction false} PercentsSize(b: seq<Byte>)
    ensures |Percents(b)| == 3 * |b|
  {
    if b != [] {
      PercentsSize(b[1..]);
    }
  }

  lemma {:induction false} PercentsAt(b: seq<Byte>, i: nat)
    requires i < |b|
    ensures |Percents(b)| == 3 * |b|
    ensures Percents(b)[3 * i] == '%'
    ensures Percents(b)[3 * i + 1] == "0123456789ABCDEF"[b[i] / 16]
    ensures Percents(b)[3 * i + 2] == "0123456789ABCDEF"[b[i] % 16]
  {
    PercentsSize(b);
    if i > 0 {
      PercentsAt(b[1..], i - 1);
    } else {
      Digits(b[0] / 16);
      Digits(b[0] % 16);
    }
  }

  /** Bytes spelled with any digits, in upper or lower case. */
  function Spread(hex: string): string
    requires |hex| % 2 == 0
  {
    if hex == [] then [] else ['%', hex[0], hex[1]] + Spread(hex[2..])
  }

  lemma RunCons(x: char, y: char, s: string)
    requires IsHex(x) && IsHex(y)
    ensures HexRun(['%', x, y] + s) == ([x, y] + HexRun(s).0, HexRun(s).1)
  {
    var t := ['%', x, y] + s;
    assert t[3..] == s && t[1..3] == [x, y];
  }

  lemma {:induction false} RunIs(hex: string, rest: string)
    requires |hex| % 2 == 0 && AllHex(hex) && !IsPercent(rest)
    ensures HexRun(Spread(hex) + rest) == (hex, rest)
  {
    if hex == [] {
      assert Spread(hex) + rest == rest;
    } else {
      RunIs(hex[2..], rest);
      RunCons(hex[0], hex[1], Spread(hex[2..]) + rest);
      Associate(['%', hex[0], hex[1]], Spread(hex[2..]), rest);
      assert [hex[0], hex[1]] + hex[2..] == hex;
    }
  }

  lemma {:induction false} PairsAre(hex: string, b: seq<Byte>)
    requires |hex| == 2 * |b| && AllHex(hex)
    requires forall i | 0 <= i < |b| :: DigitValue(hex[2 * i]) * 16 + DigitValue(hex[2 * i + 1]) == b[i]
    ensures PairsToBytes(hex) == b
  {
    if b != [] {
      NextPair(hex, hex[2..], b);
      assert hex[2 * 0] == hex[0] && hex[2 * 0 + 1] == hex[1];
      PairsAre(hex[2..], b[1..]);
    }
  }

  lemma NextPair(hex: string, h: string, b: seq<Byte>)
    requires |hex| == 2 * |b| > 0 && AllHex(hex) && h == hex[2..]
    requires forall i | 0 <= i < |b| :: DigitValue(hex[2 * i]) * 16 + DigitValue(hex[2 * i + 1]) == b[i]
    ensures AllHex(h)
    ensures forall i | 0 <= i < |b| - 1 :: DigitValue(h[2 * i]) * 16 + DigitValue(h[2 * i + 1]) == b[i + 1]
  {
    assert forall i | 0 <= i < |b| - 1 :: h[2 * i] == hex[2 * (i + 1)] && h[2 * i + 1] == hex[2 * (i + 1) + 1];
  }

  /** A whole run of spelled bytes becomes the characters they are in UTF-8. */
  lemma RunDecoded(hex: string, b: seq<Byte>, s: string, rest: string, other: seq<Byte> -> string)
    requires |hex| == 2 * |b| > 0 && AllHex(hex) && !IsPercent(rest)
    requires forall i | 0 <= i < |b| :: DigitValue(hex[2 * i]) * 16 + DigitValue(hex[2 * i + 1]) == b[i]
    ensures Narrow(s) && b == Utf8All(s) ==> Decode(Spread(hex) + rest, other) == s + Decode(rest, other)
    ensures (forall t | Narrow(t) :: b != Utf8All(t)) ==>
              Decode(Spread(hex) + rest, other) == other(b) + Decode(rest, other)
  {
    RunIs(hex, rest);
    PairsAre(hex, b);
    if Narrow(s) && b == Utf8All(s) {
      Utf8RoundTrip(s);
    }
    if Utf8Decode(b).Some? {
      Utf8ReadsOnly(b);
    }
  }

  lemma OtherDecoded(c: char, rest: string, other: seq<Byte> -> string)
    requires c != '+' && c != '%'
    ensures Decode([c] + rest, other) == [c] + Decode(rest, other)
  {
    assert ([c] + rest)[1..] == rest;
  }

  /** A plus is a space. */
  lemma PlusIsSpace(rest: string, other: seq<Byte> -> string)
    ensures Decode("+" + rest, other) == " " + Decode(rest, other)
  {
    assert ("+" + rest)[1..] == rest;
  }

  /** A percent sign without two digits behind it stands for itself, as all other characters do. */
  lemma LonePercent(rest: string, other: seq<Byte> -> string)
    requires |rest| < 2 || !IsHex(rest[0]) || !IsHex(rest[1])
    ensures Decode("%" + rest, other) == "%" + Decode(rest, other)
  {
    var s := "%" + rest;
    assert s[1..] == rest && !IsPercent(s);
  }

  // ----- The code -----

  /** The loop that spells a character's UTF-8 bytes. */
  method PercentsOf(utf: seq<Byte>) returns (h: string)
    ensures h == Percents(utf)
  {
    h := "";
    for i := 0 to |utf|
      invariant h == Percents(utf[..i])
    {
      PercentsConcat(utf[..i], [utf[i]]);
      assert utf[..i + 1] == utf[..i] + [utf[i]] && [utf[i]][1..] == [];
      assert Percents([utf[i]]) == ['%'] + ByteToHex(utf[i]);
      h := h + (['%'] + ByteToHex(utf[i]));
    }
    assert utf[..|utf|] == utf;
  }

  /** DoEncodeUrl: EncodeUrlString with encodeSlash, EncodeUrlPath without. */
  method DoEncodeUrl(s0: string, encodeSlash: bool) returns (s: string)
    requires Plain(s0)
    ensures s == Encode(s0, encodeSlash)
  {
    s := s0;
    var index := 0;
    ghost var done, rest := [], s0;
    while index < |s|
      invariant s == done + rest && index == |done| && Plain(rest)
      invariant Encode(s0, encodeSlash) == done + Encode(rest, encodeSlash)
      decreases |rest|
    {
      ghost var x := EncodeChar(rest[0], encodeSlash);
      Associate(done, x, Encode(rest[1..], encodeSlash));
      s, index := EncodeAt(s, index, encodeSlash, done, rest);
      done, rest := done + x, rest[1..];
    }
  }

  /** One round of that loop. */
  method EncodeAt(s0: string, index0: nat, encodeSlash: bool, ghost done: string, ghost rest: string)
    returns (s: string, index: nat)
    requires s0 == done + rest && index0 == |done| && Plain(rest) && rest != []
    ensures s == (done + EncodeChar(rest[0], encodeSlash)) + rest[1..]
    ensures index == |done + EncodeChar(rest[0], encodeSlash)|
  {
    s, index := s0, index0;
    var c := s[index];
    assert c == rest[0] && s[..index] == done && s[index + 1..] == rest[1..];
    if IsKept(c, encodeSlash) {
      index := index + 1;
    } else {
      var h := PercentsOf(Utf8Of(c));
      s := s[..index] + s[index + 1..];
      assert s[..index] == done && s[index..] == rest[1..];
      s := s[..index] + h + s[index..];
      index := index + |h|;
    }
  }

  /** HexToBytes */
  method HexToBytesLoop(hex: string) returns (result: seq<Byte>)
    ensures result == HexToBytes(hex)
  {
    result := [];
    if |hex| % 2 == 0 {
      var i := 0;
      while i < |hex|
        invariant i <= |hex| && i % 2 == 0 && AllHex(hex[..i])
        invariant result == PairsToBytes(hex[..i])
      {
        var p1, p2 := DigitValue(hex[i]), DigitValue(hex[i + 1]);
        if p1 < 0 || p2 < 0 {
          return [];
        }
        PairsSnoc(hex, i);
        result := result + [p1 * 16 + p2];
        i := i + 2;
      }
      assert hex[..i] == hex;
    }
  }

  lemma {:induction false} PairsConcat(a: string, b: string)
    requires |a| % 2 == 0 && |b| % 2 == 0 && AllHex(a) && AllHex(b)
    ensures AllHex(a + b) && PairsToBytes(a + b) == PairsToBytes(a) + PairsToBytes(b)
  {
    if a == [] {
      assert a + b == b;
    } else {
      PairsConcat(a[2..], b);
      assert (a + b)[2..] == a[2..] + b;
    }
  }

  lemma PairsSnoc(hex: string, i: nat)
    requires i % 2 == 0 && i + 2 <= |hex| && AllHex(hex[..i]) && IsHex(hex[i]) && IsHex(hex[i + 1])
    ensures AllHex(hex[..i + 2])
    ensures PairsToBytes(hex[..i + 2]) == PairsToBytes(hex[..i]) + [DigitValue(hex[i]) * 16 + DigitValue(hex[i + 1])]
  {
    var p := [hex[i], hex[i + 1]];
    PairsConcat(hex[..i], p);
    assert hex[..i + 2] == hex[..i] + p && p[2..] == [];
  }

  /** The inner loop of DecodeUrlChars: the run at position i taken out. */
  method TakeRun(s0: string, i: nat) returns (s: string, hex: string)
    requires i <= |s0|
    ensures hex == HexRun(s0[i..]).0 && s == s0[..i] + HexRun(s0[i..]).1
  {
    s, hex := s0, "";
    ghost var rest := s0[i..];
    assert s0 == s0[..i] + rest && hex + HexRun(rest).0 == HexRun(rest).0;
    while i + 2 < |s| && s[i] == '%' && IsHex(s[i + 1]) && IsHex(s[i + 2])
      invariant s == s0[..i] + rest
      invariant HexRun(s0[i..]) == (hex + HexRun(rest).0, HexRun(rest).1)
      decreases |rest|
    {
      assert s[i..] == rest && s[i + 3..] == rest[3..] && s[i + 1..i + 3] == rest[1..3];
      Associate(hex, rest[1..3], HexRun(rest[3..]).0);
      hex := hex + s[i + 1..i + 3];
      s := s[..i] + s[i + 3..];
      rest := rest[3..];
    }
    assert s[i..] == rest;
  }

  /** DecodeUrlChars */
  method DecodeUrlChars(s0: string, other: seq<Byte> -> string) returns (s: string)
    ensures s == Decode(s0, other)
  {
    s := s0;
    var i := 0;
    ghost var done, rest := [], s0;
    while i < |s|
      invariant s == done + rest && i == |done|
      invariant Decode(s0, other) == done + Decode(rest, other)
      decreases |rest|
    {
      ghost var x, rest';
      s, i, x, rest' := DecodeRound(s, i, other, done, rest);
      Associate(done, x, Decode(rest', other));
      done, rest := done + x, rest';
    }
  }

  /** One round of that loop. */
  method DecodeRound(s0: string, i0: nat, other: seq<Byte> -> string, ghost done: string, ghost rest: string)
    returns (s: string, i: nat, ghost x: string, ghost rest': string)
    requires s0 == done + rest && i0 == |done| && rest != []
    ensures s == (done + x) + rest' && i == |done + x| && |rest'| < |rest|
    ensures Decode(rest, other) == x + Decode(rest', other)
  {
    s, i := s0, i0;
    assert s[i] == rest[0] && s[i..] == rest && s[..i] == done;
    x, rest' := [rest[0]], rest[1..];
    if s[i] == '+' {
      s := s[i := ' '];
      x := [' '];
    } else if s[i] == '%' {
      var hex;
      s, hex := TakeRun(s, i);
      if |hex| > 0 {
        var chars;
        s, chars := PutChars(s, i, hex, other);
        x, rest' := chars, HexRun(rest).1;
        // DecodeUrlChars moves by one less here and by one below; for no characters it stays
        i := i + |chars|;
        return;
      }
    }
    i := i + 1;
  }

  /** The decoded run put in its place. */
  method PutChars(s0: string, i: nat, hex: string, other: seq<Byte> -> string) returns (s: string, chars: string)
    requires i <= |s0|
    ensures chars == Utf8ToString(HexToBytes(hex), other) && s == s0[..i] + chars + s0[i..]
  {
    var bytes := HexToBytesLoop(hex);
    chars := Utf8ToString(bytes, other);
    s := s0[..i] + chars + s0[i..];
  }

  /** A whole run through both. */
  method EncodeThenDecode(s: string, encodeSlash: bool, other: seq<Byte> -> string) returns (t: string)
    requires Plain(s)
    ensures t == s
  {
    var encoded := DoEncodeUrl(s, encodeSlash);
    t := DecodeUrlChars(encoded, other);
    DecodeEncode(s, encodeSlash, other);
  }
}
