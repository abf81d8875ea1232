/** Which characters and names Windows cannot hold, and what becomes of them, spelled out. */
module FileNameCharacters {
  import opened Basics
  import opened Hexadecimal
  import opened FileNames
  import opened FileNameProperties

  /** No Windows name holds these. */
  predicate IsForbidden(c: char) {
    c in {'/', '\\', ':', '*', '?', '"', '<', '>', '|'}
  }

  // ----- Reserved names -----

  predicate IsUpperOf(s: string, u: string) {
    |u| == |s| && forall i | 0 <= i < |s| :: u[i] == if 'a' <= s[i] <= 'z' then (s[i] as int - 32) as char else s[i]
  }

  lemma {:induction false} UpperIs(s: string, u: string)
    requires IsUpperOf(s, u)
    ensures Upper(s) == u
  {
    if s != [] {
      UpperIs(s[1..], u[1..]);
      assert u == [u[0]] + u[1..];
    }
  }

  predicate IsDeviceName(u: string) {
    u in {"CON", "PRN", "AUX", "NUL",
          "COM1", "COM2", "COM3", "COM4", "COM5", "COM6", "COM7", "COM8", "COM9",
          "LPT1", "LPT2", "LPT3", "LPT4", "LPT5", "LPT6", "LPT7", "LPT8", "LPT9"}
  }

  lemma DeviceNames(base: string)
    ensures IsDevice(base) <==> IsDeviceName(Upper(base))
  {
    var u := Upper(base);
    if |u| == 4 && IsDevice(base) {
      assert u == u[..3] + [u[3]];
      NumberedDevice("COM", u[3]);
      NumberedDevice("LPT", u[3]);
    }
  }

  lemma NumberedDevice(name: string, d: char)
    requires name == "COM" || name == "LPT"
    requires '1' <= d <= '9'
    ensures IsDeviceName(name + [d])
  {
    assert d in {'1', '2', '3', '4', '5', '6', '7', '8', '9'};
    assert name + [d] == [name[0], name[1], name[2], d];
  }

  /** A name is reserved if what is before its first dot is one of 22 device names, in upper or
      lower case. */
  lemma ReservedIs(base: string, ext: string, u: string)
    requires '.' !in base && (ext == [] || ext[0] == '.') && IsUpperOf(base, u)
    ensures IsReserved(base + ext) <==> IsDeviceName(u)
  {
    assert forall i | 0 <= i < |base| :: (base + ext)[i] == base[i];
    BaseLengthUnique(base + ext, |base|);
    assert (base + ext)[..|base|] == base;
    DeviceNames(base);
    UpperIs(base, u);
  }

  // ----- One character -----

  lemma TokenSpelled(c: char)
    requires c as int < 256
    ensures TokenFor(c) == ['%', "0123456789ABCDEF"[c as int / 16], "0123456789ABCDEF"[c as int % 16]]
  {
    Digits(c as int / 16);
    Digits(c as int % 16);
  }

  /** With tokens: forbidden characters become tokens, a percent sign only if it looks like the
      start of one, and nothing else changes. */
  lemma UnitSpelled(c: char, rest: string)
    ensures IsForbidden(c) ==> c as int < 256 && Unit([c] + rest, TokenReplacement) == TokenFor(c)
    ensures !IsForbidden(c) && c != '%' ==> Unit([c] + rest, TokenReplacement) == [c]
  {
  }

  lemma PercentSpelled(rest: string, n: nat)
    requires n < 256
    ensures |rest| < 2 || !IsHex(rest[0]) || !IsHex(rest[1]) ==> Unit("%" + rest, TokenReplacement) == "%"
    ensures |rest| >= 2 && IsHex(rest[0]) && IsHex(rest[1]) && DigitValue(rest[0]) * 16 + DigitValue(rest[1]) == n ==>
              Unit("%" + rest, TokenReplacement) == if IsForbidden(n as char) || n as char == '%' then "%25" else "%"
  {
    assert TokenFor('%') == "%25";
    assert |rest| >= 2 ==> ("%" + rest)[1] == rest[0] && ("%" + rest)[2] == rest[1];
  }

  /** With a replacement: it stands for each forbidden character, where that stood. */
  lemma {:induction false} ReplacedSpelled(f: string, c: char)
    requires NulFree(f)
    ensures |EncodeChars(f, ReplaceBy(c))| == |f|
    ensures forall i | 0 <= i < |f| :: EncodeChars(f, ReplaceBy(c))[i] == if IsForbidden(f[i]) then c else f[i]
  {
    if f != [] {
      ReplacedSpelled(f[1..], c);
      assert NulFree(f[1..]);
      assert forall i | 1 <= i < |f| :: f[1..][i - 1] == f[i];
    }
  }

  // ----- The whole name -----

  /** A name that Windows takes. */
  predicate IsTaken(g: string) {
    && (forall i | 0 <= i < |g| :: !IsForbidden(g[i]))
    && (g != [] ==> g[|g| - 1] != ' ' && g[|g| - 1] != '.')
    && !IsDeviceName(Upper(g[..BaseLength(g)]))
  }

  lemma TakenIsValid(g: string)
    ensures IsTaken(g) <==> IsValidName(g)
  {
    DeviceNames(g[..BaseLength(g)]);
  }

  /** Every name with tokens is taken. */
  lemma TokensAreTaken(f: string)
    requires NulFree(f)
    ensures IsTaken(Valid(f, TokenReplacement))
  {
    ValidNameIsValid(f);
    TakenIsValid(Valid(f, TokenReplacement));
  }

  /** What is replaced: forbidden characters, and a space or dot at the end. */
  predicate IsReplaced(f: string, i: nat)
    requires i < |f|
  {
    IsForbidden(f[i]) || (i == |f| - 1 && f[i] in {' ', '.'})
  }

  function Replaced(f: string, c: char): (g: string)
    ensures |g| == |f|
  {
    seq(|f|, i requires 0 <= i < |f| => if IsReplaced(f, i) then c else f[i])
  }

  function Inserted(g: string): string {
    if IsReserved(g) then g[..BaseLength(g)] + "%00" + g[BaseLength(g)..] else g
  }

  /** With a replacement character, besides replacing only the insertion into reserved names is
      made. */
  lemma ReplacedIs(f: string, c: char)
    requires NulFree(f)
    ensures Valid(f, ReplaceBy(c)) == Inserted(Replaced(f, c))
  {
    var g := Replaced(f, c);
    ReplacedSpelled(f, c);
    assert EncodeTrailing(EncodeChars(f, ReplaceBy(c)), ReplaceBy(c)) == g;
  }

  lemma InsertionKeepsWhatIs(g: string, n: nat)
    requires IsReserved(g) && n == BaseLength(g)
    ensures NoInvalid(AvoidReserved(g)) ==> NoInvalid(g)
    ensures EndsClean(AvoidReserved(g)) ==> EndsClean(g)
  {
    var h := AvoidReserved(g);
    assert h == g[..n] + INSERTED + g[n..] && |INSERTED| == 3;
    assert forall i | 0 <= i < n :: g[i] == h[i];
    assert forall i | n <= i < |g| :: g[i] == h[i + 3];
    if n == |g| {
      assert g[..n] == g;
      DeviceEndsClean(g);
    }
  }

  lemma DeviceEndsClean(g: string)
    requires IsDevice(g)
    ensures EndsClean(g)
  {
    if g != [] {
      DeviceChars(g, |g| - 1);
    }
  }

  /** It makes a name that is taken exactly if it can itself stand wherever it has to. */
  lemma ReplacedIsTaken(f: string, c: char)
    requires NulFree(f)
    ensures IsTaken(Valid(f, ReplaceBy(c))) <==>
              forall i | 0 <= i < |f| && IsReplaced(f, i) :: !IsForbidden(c) && (i == |f| - 1 ==> c !in {' ', '.'})
  {
    var g := Replaced(f, c);
    ReplacedIs(f, c);
    TakenIfClean(g);
    ReplacedIsClean(f, c, g);
  }

  lemma TakenIfClean(g: string)
    ensures IsTaken(AvoidReserved(g)) <==> NoInvalid(g) && EndsClean(g)
  {
    TakenIsValid(AvoidReserved(g));
    AvoidedIsNotReserved(g);
    if IsReserved(g) {
      InsertionKeepsWhatIs(g, BaseLength(g));
      if NoInvalid(g) && EndsClean(g) {
        InsertionIsHarmless(g, BaseLength(g));
      }
    }
  }

  lemma ReplacedIsClean(f: string, c: char, g: string)
    requires g == Replaced(f, c)
    ensures NoInvalid(g) && EndsClean(g) <==>
              forall i | 0 <= i < |f| && IsReplaced(f, i) :: !IsForbidden(c) && (i == |f| - 1 ==> c !in {' ', '.'})
  {
    assert forall i | 0 <= i < |f| :: IsInvalid(g[i]) <==> IsReplaced(f, i) && IsForbidden(c);
    assert NoInvalid(g) <==> forall i | 0 <= i < |f| && IsReplaced(f, i) :: !IsForbidden(c);
    assert f != [] ==> (g[|f| - 1] in {' ', '.'} <==> IsReplaced(f, |f| - 1) && c in {' ', '.'});
  }

  // ----- Restoring -----

  lemma StartsInserted(s: string)
    requires |s| >= 3
    ensures s[..3] == INSERTED <==> s[0] == '%' && s[1] == '0' && s[2] == '0'
  {
    assert s[..3] == [s[0], s[1], s[2]];
  }

  lemma InsertedAhead(done: string, rest: string)
    ensures !IsToken("%00" + rest)
    ensures IsInserted(done, "%00" + rest) <==> (rest == [] || rest[0] == '.') && IsReserved(done + rest)
  {
    var s := "%00" + rest;
    assert s[3..] == rest && (rest != [] ==> s[3] == rest[0]);
    StartsInserted(s);
    assert HexToChar('0', '0') == NUL;
  }

  /** A token is restored if it stands for a character that is encoded anywhere, or for a space or
      dot at the very end. */
  lemma TokenRestored(done: string, a: char, b: char, rest: string, n: nat)
    requires IsHex(a) && IsHex(b) && DigitValue(a) * 16 + DigitValue(b) == n && n != 0
    ensures Restore(done, ['%', a, b] + rest)
            == if IsForbidden(n as char) || n as char == '%' || (rest == [] && n as char in {' ', '.'})
               then Restore(done + [n as char], rest) else Restore(done + ['%'], [a, b] + rest)
  {
    var s := ['%', a, b] + rest;
    assert s[3..] == rest && s[1..] == [a, b] + rest && s[1] == a && s[2] == b;
    StartsInserted(s);
  }

  /** A zero token goes if the name would be reserved without it. */
  lemma ZeroRestored(done: string, rest: string)
    ensures Restore(done, "%00" + rest)
            == if (rest == [] || rest[0] == '.') && IsReserved(done + rest) then Restore(done, rest)
               else Restore(done + ['%'], "00" + rest)
  {
    var s := "%00" + rest;
    assert s[3..] == rest && s[1..] == "00" + rest;
    InsertedAhead(done, rest);
  }

  /** All other characters stay. */
  lemma OthersStay(done: string, c: char, rest: string)
    requires c != '\0' && (c != '%' || |rest| < 2 || !IsHex(rest[0]) || !IsHex(rest[1]))
    ensures Restore(done, [c] + rest) == Restore(done + [c], rest)
  {
    var s := [c] + rest;
    assert s[1..] == rest && (|rest| >= 2 ==> s[1] == rest[0] && s[2] == rest[1]);
    if |s| >= 3 {
      StartsInserted(s);
    }
  }
}
