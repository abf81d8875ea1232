/** Byte strings, byte-wise exclusive or, and the C library's memory helpers as the
    cryptographic code uses them. */
module Bytes {
  import opened Basics

  type byte = bv8

  /** A SHA-1 result: exactly 20 bytes (OUT_BLOCK_LENGTH). */
  type Digest = d: seq<byte> | |d| == 20 witness seq(20, _ => 0 as byte)

  /** SHA-1 itself is outside the model: any function from byte strings to digests. */
  type HashFunction = seq<byte> -> Digest

  function Repeat(b: byte, n: nat): (s: seq<byte>)
    ensures |s| == n
  {
    seq(n, _ => b)
  }

  function Xor(a: seq<byte>, b: seq<byte>): (s: seq<byte>)
    requires |a| == |b|
    ensures |s| == |a|
    ensures forall i | 0 <= i < |a| :: s[i] == a[i] ^ b[i]
  {
    seq(|a|, i requires 0 <= i < |a| => a[i] ^ b[i])
  }

  /** Every byte xored with the same constant. */
  function XorWith(a: seq<byte>, c: byte): (s: seq<byte>)
    ensures |s| == |a|
    ensures forall i | 0 <= i < |a| :: s[i] == a[i] ^ c
  {
    seq(|a|, i requires 0 <= i < |a| => a[i] ^ c)
  }

  lemma XorByteTwice(x: byte, y: byte)
    ensures (x ^ y) ^ y == x
  {
  }

  /** a with its first k bytes xored with those of b. */
  function XorUpTo(a: seq<byte>, b: seq<byte>, k: nat): (s: seq<byte>)
    requires k <= |a| == |b|
    ensures |s| == |a|
  {
    seq(|a|, i requires 0 <= i < |a| => if i < k then a[i] ^ b[i] else a[i])
  }

  lemma XorOneMore(a: seq<byte>, b: seq<byte>, k: nat)
    requires k < |a| == |b|
    ensures XorUpTo(a, b, k)[k := a[k] ^ b[k]] == XorUpTo(a, b, k + 1) && XorUpTo(a, b, k)[k] == a[k]
  {
  }

  lemma XorEnds(a: seq<byte>, b: seq<byte>)
    requires |a| == |b|
    ensures XorUpTo(a, b, 0) == a && XorUpTo(a, b, |a|) == Xor(a, b)
  {
  }

  /** One byte xored in place. */
  method XorAt(data: array<byte>, i: nat, b: byte)
    requires i < data.Length
    modifies data
    ensures data[..] == old(data[..])[i := old(data[i]) ^ b]
  {
    data[i] := data[i] ^ b;
  }

  /** memcpy(a + at, s, |s|) */
  method CopyInto(a: array<byte>, at: nat, s: seq<byte>)
    requires at + |s| <= a.Length
    modifies a
    ensures a[..] == old(a[..at]) + s + old(a[at + |s|..])
  {
    for i := 0 to |s|
      invariant a[..] == old(a[..at]) + s[..i] + old(a[at + i..])
    {
      a[at + i] := s[i];
    }
    assert s[..|s|] == s;
  }

  /** memset(a + at, b, n) */
  method Fill(a: array<byte>, at: nat, n: nat, b: byte)
    requires at + n <= a.Length
    modifies a
    ensures a[..] == old(a[..at]) + Repeat(b, n) + old(a[at + n..])
  {
    CopyInto(a, at, Repeat(b, n));
  }
}
