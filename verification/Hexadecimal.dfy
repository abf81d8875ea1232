/** Hexadecimal digits, as ByteToHex and HexToByte of source/core/Common.cpp read and write them. */
module Hexadecimal {

  /** A digit in upper case. */
  function HexDigit(n: int): char
    requires 0 <= n < 16
  {
    if n < 10 then ('0' as int + n) as char else ('A' as int + n - 10) as char
  }

  predicate IsHex(c: char) {
    '0' <= c <= '9' || 'A' <= c <= 'F' || 'a' <= c <= 'f'
  }

  /** Digits.Pos(toupper(c)) - 1, and -1 for no digit. */
  function DigitValue(c: char): (v: int)
    ensures v == -1 || 0 <= v < 16
    ensures v >= 0 <==> IsHex(c)
  {
    if '0' <= c <= '9' then c as int - '0' as int
    else if 'A' <= c <= 'F' then c as int - 'A' as int + 10
    else if 'a' <= c <= 'f' then c as int - 'a' as int + 10
    else -1
  }

  lemma HexDigitValue(n: int)
    requires 0 <= n < 16
    ensures DigitValue(HexDigit(n)) == n && IsHex(HexDigit(n))
  {
  }

  /** Which digits there are. */
  lemma Digits(n: nat)
    requires n < 16
    ensures HexDigit(n) == "0123456789ABCDEF"[n]
    ensures DigitValue("0123456789ABCDEF"[n]) == n && DigitValue("0123456789abcdef"[n]) == n
  {
  }

  lemma NoOtherDigits(c: char)
    requires IsHex(c)
    ensures c in "0123456789ABCDEF" || c in "0123456789abcdef"
  {
    var n := DigitValue(c);
    Digits(n);
    assert c == "0123456789ABCDEF"[n] || c == "0123456789abcdef"[n];
  }
}
