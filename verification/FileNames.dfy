/** Encoding of file names that Windows cannot hold, and its undoing: ValidLocalFileName and
    IsReservedName of source/core/Common.cpp, RestoreChars of source/core/CopyParam.cpp, for the
    default set of invalid characters. */
module FileNames {
  import opened Basics
  import opened Hexadecimal

  const PREFIX: char := '%'
  const NUL: char := '\0'
  const INSERTED: string := "%00"

  /** InvalidCharsReplacement: false, true, or a character. */
  datatype Replacement = NoReplacement | TokenReplacement | ReplaceBy(c: char)

  // ----- Hexadecimal -----

  /** HexToByte, as a character; zero if either is no digit. */
  function HexToChar(a: char, b: char): char {
    if DigitValue(a) < 0 || DigitValue(b) < 0 then NUL else (DigitValue(a) * 16 + DigitValue(b)) as char
  }

  /** The token for a character of one byte. */
  function TokenFor(c: char): (t: string)
    requires c as int < 256
    ensures |t| == 3
  {
    [PREFIX, HexDigit(c as int / 16), HexDigit(c as int % 16)]
  }

  lemma TokenReadsBack(c: char)
    requires c as int < 256
    ensures HexToChar(TokenFor(c)[1], TokenFor(c)[2]) == c
  {
  }

  /** In LocalInvalidChars. */
  predicate IsInvalid(c: char) {
    c == '/' || c == '\\' || c == ':' || c == '*' || c == '?' || c == '"' || c == '<' || c == '>' || c == '|'
  }

  /** In FTokenizibleChars: the invalid characters and the prefix. */
  predicate IsTokenizable(c: char) {
    IsInvalid(c) || c == PREFIX
  }

  predicate IsTrimmed(c: char) {
    c == ' ' || c == '.'
  }

  // ----- Reserved names -----

  const DEVICES: set<string> := {"CON", "PRN", "AUX", "NUL"}

  function Upper(s: string): (u: string)
    ensures |u| == |s|
  {
    if s == [] then []
    else [if 'a' <= s[0] <= 'z' then (s[0] as int - 32) as char else s[0]] + Upper(s[1..])
  }

  /** FileName.Pos(".") - 1, or the length. */
  function BaseLength(s: string): (n: nat)
    ensures n <= |s| && (n < |s| ==> s[n] == '.')
    ensures forall i | 0 <= i < n :: s[i] != '.'
  {
    if s == [] || s[0] == '.' then 0 else 1 + BaseLength(s[1..])
  }

  /** A device name, or COM or LPT with a digit from 1 to 9. */
  predicate IsDevice(base: string) {
    var u := Upper(base);
    u in DEVICES || (|u| == 4 && (u[..3] == "COM" || u[..3] == "LPT") && '1' <= u[3] <= '9')
  }

  predicate IsReserved(name: string) {
    IsDevice(name[..BaseLength(name)])
  }

  lemma BaseLengthUnique(s: string, n: nat)
    requires n <= |s| && (n < |s| ==> s[n] == '.') && forall i | 0 <= i < n :: s[i] != '.'
    ensures BaseLength(s) == n
  {
  }

  /** Only what stands before the first dot matters. */
  lemma ReservedByBase(a: string, x: string, y: string)
    requires (x == [] || x[0] == '.') && (y == [] || y[0] == '.')
    ensures IsReserved(a + x) == IsReserved(a + y)
  {
    var n := BaseLength(a);
    assert forall i | 0 <= i < n :: (a + x)[i] == a[i] && (a + y)[i] == a[i];
    BaseLengthUnique(a + x, n);
    BaseLengthUnique(a + y, n);
    assert (a + x)[..n] == a[..n] == (a + y)[..n];
  }

  lemma {:induction false} UpperKeepsOthers(s: string, i: nat)
    requires i < |s|
    ensures !('a' <= s[i] <= 'z') ==> Upper(s)[i] == s[i]
    ensures 'a' <= s[i] <= 'z' ==> 'A' <= Upper(s)[i] <= 'Z'
  {
    if i > 0 {
      UpperKeepsOthers(s[1..], i - 1);
    }
  }

  /** A device name is made of letters and digits. */
  lemma DeviceChars(base: string, i: nat)
    requires IsDevice(base) && i < |base|
    ensures base[i] != PREFIX && !IsTokenizable(base[i]) && !IsTrimmed(base[i]) && base[i] != NUL
    ensures 3 <= |base| <= 4
  {
    UpperKeepsOthers(base, i);
    var u := Upper(base);
    if |u| == 4 && (u[..3] == "COM" || u[..3] == "LPT") {
      assert i < 3 ==> u[i] == u[..3][i];
    }
  }

  // ----- Encoding -----

  /** A percent sign followed by what reads as a tokenizable character. */
  predicate ReadsAsToken(f: string) {
    && |f| >= 3 && f[0] == PREFIX
    && HexToChar(f[1], f[2]) != NUL && IsTokenizable(HexToChar(f[1], f[2]))
  }

  /** What the first character becomes. A percent sign is encoded only where it would be
      misread otherwise. */
  function Unit(f: string, mode: Replacement): string
    requires f != []
  {
    match mode
    case NoReplacement => [f[0]]
    case ReplaceBy(c) => if IsInvalid(f[0]) then [c] else [f[0]]
    case TokenReplacement =>
      if IsTokenizable(f[0]) && (f[0] == PREFIX ==> ReadsAsToken(f)) then TokenFor(f[0]) else [f[0]]
  }

  /** The loop of ValidLocalFileName; searching stops at a zero. */
  function EncodeChars(f: string, mode: Replacement): string {
    if f == [] || f[0] == NUL then f else Unit(f, mode) + EncodeChars(f[1..], mode)
  }

  function EncodeLast(c: char, mode: Replacement): string
    requires mode.TokenReplacement? ==> c as int < 256
  {
    match mode
    case NoReplacement => [c]
    case ReplaceBy(r) => [r]
    case TokenReplacement => TokenFor(c)
  }

  /** A trailing space or dot encoded. */
  function EncodeTrailing(g: string, mode: Replacement): string {
    if g != [] && IsTrimmed(g[|g| - 1]) then g[..|g| - 1] + EncodeLast(g[|g| - 1], mode) else g
  }

  /** A reserved name made different. */
  function AvoidReserved(g: string): string {
    if IsReserved(g) then g[..BaseLength(g)] + INSERTED + g[BaseLength(g)..] else g
  }

  function Valid(f: string, mode: Replacement): string {
    if mode.NoReplacement? then f else AvoidReserved(EncodeTrailing(EncodeChars(f, mode), mode))
  }

  // ----- Restoring -----

  /** The token at the start of rest stands for a character of the original name. */
  predicate IsToken(rest: string) {
    && |rest| >= 3 && rest[0] == PREFIX
    && var c := HexToChar(rest[1], rest[2]);
       c != NUL && (IsTokenizable(c) || (IsTrimmed(c) && |rest| == 3))
  }

  /** It stands for nothing: without it the name would be reserved. */
  predicate IsInserted(done: string, rest: string) {
    && |rest| >= 3 && rest[..3] == INSERTED
    && (|rest| == 3 || rest[3] == '.')
    && IsReserved(done + rest[3..])
  }

  /** RestoreChars from a position on: done is behind it and already restored. */
  function Restore(done: string, rest: string): string
    decreases |rest|
  {
    if rest == [] || rest[0] == NUL then done + rest
    else if IsToken(rest) then Restore(done + [HexToChar(rest[1], rest[2])], rest[3..])
    else if IsInserted(done, rest) then Restore(done, rest[3..])
    else Restore(done + [rest[0]], rest[1..])
  }
}
