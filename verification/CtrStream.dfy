/** encr_data of source/core/Cryptography.cpp: AES in counter mode, the position in the
    stream carried from call to call. */
module CtrStream {
  import opened Basics
  import opened Bytes

  const BLOCK_SIZE: nat := 16

  type Block = b: seq<byte> | |b| == 16 witness seq(16, _ => 0 as byte)

  /** The AES core lives elsewhere: any function of a key and a block of four words,
      seen here as 16 bytes. */
  type WordCipher = (seq<byte>, Block) -> Block

  // ----- One block -----

  /** The bytes of 32-bit word number w reversed. */
  function SwapWord(b: Block, w: nat): Block
    requires w < 4
  {
    b[4 * w := b[4 * w + 3]][4 * w + 3 := b[4 * w]][4 * w + 1 := b[4 * w + 2]][4 * w + 2 := b[4 * w + 1]]
  }

  /** The bytes of each of the first n words reversed. */
  function SwapFirst(b: Block, n: nat): Block
    requires n <= 4
  {
    if n == 0 then b else SwapWord(SwapFirst(b, n - 1), n - 1)
  }

  function SwapWords(b: Block): Block {
    SwapFirst(b, 4)
  }

  lemma SwapWordsBytes(b: Block)
    ensures SwapWords(b) == [b[3], b[2], b[1], b[0], b[7], b[6], b[5], b[4],
                             b[11], b[10], b[9], b[8], b[15], b[14], b[13], b[12]]
  {
    assert SwapFirst(b, 1) == SwapWord(SwapFirst(b, 0), 0);
    assert SwapFirst(b, 2) == SwapWord(SwapFirst(b, 1), 1);
    assert SwapFirst(b, 3) == SwapWord(SwapFirst(b, 2), 2);
  }

  /** AES on bytes: the core works on words, so bytes are swapped on the way in and out. */
  function AesBlock(aes: WordCipher, key: seq<byte>, b: Block): Block {
    SwapWords(aes(key, SwapWords(b)))
  }

  /** The byte order in and out of the core. */
  lemma AesBlockBytes(aes: WordCipher, key: seq<byte>, b: Block, r: Block)
    requires r == aes(key, [b[3], b[2], b[1], b[0], b[7], b[6], b[5], b[4],
                            b[11], b[10], b[9], b[8], b[15], b[14], b[13], b[12]])
    ensures AesBlock(aes, key, b) == [r[3], r[2], r[1], r[0], r[7], r[6], r[5], r[4],
                                      r[11], r[10], r[9], r[8], r[15], r[14], r[13], r[12]]
  {
    SwapWordsBytes(b);
    SwapWordsBytes(r);
  }

  /** The loop that swaps bytes 0 and 3, and bytes 1 and 2, of every word in place. */
  method SwapInPlace(b: array<byte>)
    requires b.Length == BLOCK_SIZE
    modifies b
    ensures b[..] == SwapWords(old(b[..]))
  {
    for index := 0 to 4
      invariant b[..] == SwapFirst(old(b[..]), index)
    {
      ghost var before := b[..];
      var t := b[index * 4];
      b[index * 4] := b[index * 4 + 3];
      b[index * 4 + 3] := t;
      t := b[index * 4 + 1];
      b[index * 4 + 1] := b[index * 4 + 2];
      b[index * 4 + 2] := t;
      assert b[..] == SwapWord(before, index);
    }
  }

  /** aes_encrypt_block */
  method AesEncryptBlock(aes: WordCipher, key: seq<byte>, inBlk: array<byte>, outBlk: array<byte>)
    requires inBlk.Length == outBlk.Length == BLOCK_SIZE && inBlk != outBlk
    modifies outBlk
    ensures outBlk[..] == AesBlock(aes, key, inBlk[..])
  {
    CopyInto(outBlk, 0, inBlk[..]);
    assert outBlk[..] == inBlk[..];
    SwapInPlace(outBlk);
    CopyInto(outBlk, 0, aes(key, outBlk[..]));
    assert outBlk[..] == aes(key, SwapWords(inBlk[..]));
    SwapInPlace(outBlk);
  }

  // ----- The counter -----

  /** Adding one with the carry running upwards; a carry out of the last byte is lost. */
  function Increment(s: seq<byte>): (r: seq<byte>)
    ensures |r| == |s|
  {
    if s == [] then []
    else if s[0] + 1 == 0 then [0] + Increment(s[1..])
    else [s[0] + 1] + s[1..]
  }

  /** The counter block used for the n-th block of the stream: n increments from all zeros,
      in the first eight bytes only. */
  function CounterBlock(n: nat): Block {
    if n == 0 then Repeat(0, 16) else var b := CounterBlock(n - 1); Increment(b[..8]) + b[8..]
  }

  /** The number a byte string stands for, least significant byte first. */
  function LittleEndian(s: seq<byte>): nat {
    if s == [] then 0 else s[0] as int + 256 * LittleEndian(s[1..])
  }

  function Pow256(k: nat): nat {
    if k == 0 then 1 else 256 * Pow256(k - 1)
  }

  lemma SuccessorAsInt(b: byte)
    ensures (b + 1) as int == if b + 1 == 0 then 0 else b as int + 1
    ensures b as int < 256 && (b as int == 255 <==> b + 1 == 0)
  {
  }

  lemma {:induction false} LittleEndianBound(s: seq<byte>)
    ensures LittleEndian(s) < Pow256(|s|)
  {
    if s != [] {
      SuccessorAsInt(s[0]);
      LittleEndianBound(s[1..]);
    }
  }

  lemma {:induction false} IncrementValue(s: seq<byte>)
    ensures LittleEndian(Increment(s)) == if LittleEndian(s) + 1 == Pow256(|s|) then 0 else LittleEndian(s) + 1
  {
    if s != [] {
      SuccessorAsInt(s[0]);
      IncrementValue(s[1..]);
      LittleEndianBound(s[1..]);
      assert Increment(s)[1..] == if s[0] + 1 == 0 then Increment(s[1..]) else s[1..];
    }
  }

  lemma {:induction false} ZeroValue(k: nat)
    ensures LittleEndian(Repeat(0, k)) == 0
  {
    if k > 0 {
      ZeroValue(k - 1);
      assert Repeat(0, k)[1..] == Repeat(0, k - 1);
    }
  }

  lemma SuccessorModulo(n: nat)
    requires n > 0
    ensures n % 0x1_0000_0000_0000_0000 ==
            var r := (n - 1) % 0x1_0000_0000_0000_0000; if r + 1 == 0x1_0000_0000_0000_0000 then 0 else r + 1
  {
  }

  /** The n-th counter block is n modulo 2^64 in little-endian order, padded with zeros. */
  lemma {:induction false} CounterBlockValue(n: nat)
    ensures LittleEndian(CounterBlock(n)[..8]) == n % 0x1_0000_0000_0000_0000
    ensures CounterBlock(n)[8..] == Repeat(0, 8)
  {
    if n == 0 {
      ZeroValue(8);
      assert CounterBlock(n)[..8] == Repeat(0, 8);
    } else {
      CounterBlockValue(n - 1);
      var low := CounterBlock(n - 1)[..8];
      IncrementValue(low);
      Pow256Of8(|low|);
      SuccessorModulo(n);
      assert CounterBlock(n)[..8] == Increment(low);
    }
  }

  lemma Pow256Of8(k: nat)
    requires k == 8
    ensures Pow256(k) == 0x1_0000_0000_0000_0000
  {
    assert Pow256(k - 8) == 1;
    assert Pow256(k - 7) == 0x100;
    assert Pow256(k - 6) == 0x1_0000;
    assert Pow256(k - 4) == 0x1_0000_0000;
    assert Pow256(k - 2) == 0x1_0000_0000_0000;
  }

  /** The first j bytes carried over to zero. */
  function Carried(s: seq<byte>, j: nat): (r: seq<byte>)
    requires j <= |s|
    ensures |r| == |s|
  {
    seq(|s|, m requires 0 <= m < |s| => if m < j then 0 else s[m])
  }

  lemma CarryOneMore(s: seq<byte>, j: nat)
    requires j < |s|
    ensures Carried(s, 0) == s && Carried(s, j)[j] == s[j] && Carried(s, j)[j := 0] == Carried(s, j + 1)
  {
  }

  /** What Increment does when the first j bytes carry, and byte j does not. */
  lemma {:induction false} IncrementCarries(s: seq<byte>, j: nat)
    requires j <= |s| && forall m | 0 <= m < j :: s[m] + 1 == 0
    requires j < |s| ==> s[j] + 1 != 0
    ensures forall m | 0 <= m < |s| :: Increment(s)[m] == if m < j then 0 else if m == j then s[m] + 1 else s[m]
  {
    if j > 0 {
      var t := Increment(s[1..]);
      IncrementCarries(s[1..], j - 1);
      assert Increment(s) == [0] + t;
      assert forall m | 1 <= m < |s| :: Increment(s)[m] == t[m - 1] && s[1..][m - 1] == s[m];
    }
  }

  /** The same for the low bytes of a nonce. */
  lemma NonceCarries(s: seq<byte>, n: nat, j: nat, r: seq<byte>)
    requires j <= n <= |s| == |r| && forall m | 0 <= m < j :: s[m] + 1 == 0
    requires j < n ==> s[j] + 1 != 0
    requires r == if j < n then Carried(s, j)[j := s[j] + 1] else Carried(s, j)
    ensures r == Increment(s[..n]) + s[n..]
  {
    IncrementCarries(s[..n], j);
    var t := Increment(s[..n]);
    forall m | 0 <= m < |s| ensures r[m] == (t + s[n..])[m] {
      if m < n {
        assert t[m] == if m < j then 0 else if m == j then s[m] + 1 else s[m];
      }
    }
  }

  /** The loop that increments the nonce's first eight bytes. */
  method IncrementNonce(nonce: array<byte>)
    requires nonce.Length == BLOCK_SIZE
    modifies nonce
    ensures nonce[..] == Increment(old(nonce[..8])) + old(nonce[8..])
  {
    ghost var was := nonce[..];
    var j, carry := 0, true;
    CarryOneMore(was, 0);
    while j < 8 && carry
      invariant 0 <= j <= 8 && (carry || j < 8)
      invariant nonce[..] == if carry then Carried(was, j) else Carried(was, j)[j := was[j] + 1]
      invariant forall m | 0 <= m < j :: was[m] + 1 == 0
      invariant !carry ==> was[j] + 1 != 0
      decreases 8 - j, carry
    {
      CarryOneMore(was, j);
      carry := IncrementAt(nonce, j);
      if carry {
        j := j + 1;
      }
    }
    NonceCarries(was, 8, j, nonce[..]);
    assert was[..8] == old(nonce[..8]) && was[8..] == old(nonce[8..]);
  }

  method IncrementAt(nonce: array<byte>, j: nat) returns (carry: bool)
    requires j < nonce.Length
    modifies nonce
    ensures nonce[..] == old(nonce[..])[j := old(nonce[j]) + 1] && (carry <==> old(nonce[j]) + 1 == 0)
  {
    nonce[j] := nonce[j] + 1;
    carry := nonce[j] == 0;
  }

  // ----- The stream (section 6.5 of NIST SP 800-38A) -----

  /** The byte that position p of the stream is xored with. */
  function KeystreamByte(aes: WordCipher, key: seq<byte>, p: nat): byte {
    AesBlock(aes, key, CounterBlock(p / 16 + 1))[p % 16]
  }

  function Keystream(aes: WordCipher, key: seq<byte>): nat -> byte {
    (p: nat) => KeystreamByte(aes, key, p)
  }

  /** Data xored with a stream, its first byte at position p. */
  function XorStream(ks: nat -> byte, data: seq<byte>, p: nat): (r: seq<byte>)
    ensures |r| == |data|
  {
    seq(|data|, i requires 0 <= i < |data| => data[i] ^ ks(p + i))
  }

  /** The data whose first byte stands at position p of the stream, encrypted. */
  function Ctr(aes: WordCipher, key: seq<byte>, data: seq<byte>, p: nat): (r: seq<byte>)
    ensures |r| == |data|
  {
    XorStream(Keystream(aes, key), data, p)
  }

  lemma XorStreamInvolution(ks: nat -> byte, data: seq<byte>, p: nat)
    ensures XorStream(ks, XorStream(ks, data, p), p) == data
  {
    forall i | 0 <= i < |data|
      ensures XorStream(ks, XorStream(ks, data, p), p)[i] == data[i]
    {
      XorByteTwice(data[i], ks(p + i));
    }
  }

  lemma XorStreamSplit(ks: nat -> byte, a: seq<byte>, b: seq<byte>, p: nat)
    ensures XorStream(ks, a + b, p) == XorStream(ks, a, p) + XorStream(ks, b, p + |a|)
  {
  }

  /** Data whose first i bytes have been passed through the stream. */
  function PassedUpTo(ks: nat -> byte, data: seq<byte>, i: nat, p: nat): (r: seq<byte>)
    requires i <= |data|
    ensures |r| == |data|
  {
    seq(|data|, m requires 0 <= m < |data| => if m < i then data[m] ^ ks(p + m) else data[m])
  }

  lemma PassedOneMore(ks: nat -> byte, data: seq<byte>, i: nat, p: nat, now: seq<byte>, b: byte)
    requires i < |data| == |now| && now == PassedUpTo(ks, data, i, p) && b == ks(p + i)
    ensures now[i := now[i] ^ b] == PassedUpTo(ks, data, i + 1, p)
  {
  }

  lemma PassedEnds(ks: nat -> byte, data: seq<byte>, p: nat)
    ensures PassedUpTo(ks, data, 0, p) == data
    ensures PassedUpTo(ks, data, |data|, p) == XorStream(ks, data, p)
  {
  }

  /** A second pass from the same position gives the data back. */
  lemma CtrInvolution(aes: WordCipher, key: seq<byte>, data: seq<byte>, p: nat)
    ensures Ctr(aes, key, Ctr(aes, key, data, p), p) == data
  {
    XorStreamInvolution(Keystream(aes, key), data, p);
  }

  lemma {:induction false} LittleEndianInjective(a: seq<byte>, b: seq<byte>)
    requires |a| == |b|
    ensures LittleEndian(a) == LittleEndian(b) ==> a == b
  {
    if a != [] && LittleEndian(a) == LittleEndian(b) {
      FirstByte(a[0], LittleEndian(a[1..]), b[0], LittleEndian(b[1..]));
      LittleEndianInjective(a[1..], b[1..]);
      assert a == [a[0]] + a[1..] && b == [b[0]] + b[1..];
    }
  }

  lemma FirstByte(x: byte, m: nat, y: byte, n: nat)
    requires x as int + 256 * m == y as int + 256 * n
    ensures x == y && m == n
  {
  }

  /** What every byte becomes: the byte i of data whose first byte stands at position p is xored
      with the encryption of a block that holds the number (p + i) / 16 + 1 in its first eight
      bytes, least significant byte first, and zeros behind. */
  lemma CtrByte(aes: WordCipher, key: seq<byte>, data: seq<byte>, p: nat, i: nat, n: Block)
    requires i < |data| && LittleEndian(n[..8]) == ((p + i) / 16 + 1) % 0x1_0000_0000_0000_0000
    requires forall j | 8 <= j < 16 :: n[j] == 0
    ensures Ctr(aes, key, data, p)[i] == data[i] ^ AesBlock(aes, key, n)[(p + i) % 16]
  {
    var c := CounterBlock((p + i) / 16 + 1);
    CounterBlockValue((p + i) / 16 + 1);
    LittleEndianInjective(n[..8], c[..8]);
    assert n[8..] == Repeat(0, 8);
    assert n == n[..8] + n[8..] && c == c[..8] + c[8..];
  }

  /** The stream state of fcrypt_ctx: nonce, encr_bfr, encr_ctx and encr_pos. */
  class CtrState {
    const aes: WordCipher
    const encrKey: seq<byte>
    const nonce: array<byte>
    const encrBfr: array<byte>
    var encrPos: nat
    /** How many counter blocks have been encrypted. */
    ghost var blocks: nat

    /** Exactly p bytes have been passed through. */
    ghost predicate At(p: nat)
      reads this, nonce, encrBfr
    {
      && nonce.Length == encrBfr.Length == BLOCK_SIZE && nonce != encrBfr
      && p + 16 == 16 * blocks + encrPos && encrPos <= 16
      && nonce[..] == CounterBlock(blocks)
      && (blocks > 0 ==> encrBfr[..] == AesBlock(aes, encrKey, CounterBlock(blocks)))
    }

    constructor (aes: WordCipher, encrKey: seq<byte>)
      ensures At(0) && fresh(nonce) && fresh(encrBfr)
      ensures this.aes == aes && this.encrKey == encrKey
    {
      this.aes, this.encrKey := aes, encrKey;
      encrPos, blocks := BLOCK_SIZE, 0;
      nonce := new byte[BLOCK_SIZE](_ => 0);
      encrBfr := new byte[BLOCK_SIZE](_ => 0);
      new;
      assert nonce[..] == CounterBlock(0);
    }

    /** One round of encr_data's loop: the stream byte it uses, and one step forward. */
    method NextByte(ghost p: nat) returns (b: byte)
      requires At(p)
      modifies this, nonce, encrBfr
      ensures At(p + 1) && b == Keystream(aes, encrKey)(p)
    {
      if encrPos == BLOCK_SIZE {
        IncrementNonce(nonce);
        blocks := blocks + 1;
        assert nonce[..] == CounterBlock(blocks);
        AesEncryptBlock(aes, encrKey, nonce, encrBfr);
        encrPos := 0;
      }
      assert p / 16 + 1 == blocks && p % 16 == encrPos;
      b := encrBfr[encrPos];
      encrPos := encrPos + 1;
    }

    /** One round of encr_data: the byte at i passes through. */
    method EncrByte(data: array<byte>, i: nat, ghost p: nat, ghost was: seq<byte>)
      requires At(p + i) && data != nonce && data != encrBfr && i < data.Length == |was|
      requires data[..] == PassedUpTo(Keystream(aes, encrKey), was, i, p)
      modifies this, nonce, encrBfr, data
      ensures At(p + i + 1) && data[..] == PassedUpTo(Keystream(aes, encrKey), was, i + 1, p)
    {
      var b := NextByte(p + i);
      PassedOneMore(Keystream(aes, encrKey), was, i, p, data[..], b);
      XorAt(data, i, b);
    }

    /** encr_data */
    method EncrData(data: array<byte>, ghost p: nat)
      requires At(p) && data != nonce && data != encrBfr
      modifies this, nonce, encrBfr, data
      ensures At(p + data.Length)
      ensures data[..] == Ctr(aes, encrKey, old(data[..]), p)
    {
      var i := 0;
      ghost var was := data[..];
      PassedEnds(Keystream(aes, encrKey), was, p);
      while i < data.Length
        invariant 0 <= i <= data.Length == |was| && At(p + i)
        invariant data[..] == PassedUpTo(Keystream(aes, encrKey), was, i, p)
      {
        EncrByte(data, i, p, was);
        i := i + 1;
      }
    }
  }

  lemma OneMorePart(aes: WordCipher, key: seq<byte>, parts: seq<seq<byte>>, i: nat)
    requires i < |parts|
    ensures Ctr(aes, key, Flatten(parts[..i + 1]), 0)
            == Ctr(aes, key, Flatten(parts[..i]), 0) + Ctr(aes, key, parts[i], |Flatten(parts[..i])|)
  {
    XorStreamSplit(Keystream(aes, key), Flatten(parts[..i]), parts[i], 0);
    FlattenSnoc(parts[..i], parts[i]);
    assert parts[..i + 1] == parts[..i] + [parts[i]];
  }

  /** A whole run: data that arrives in pieces is encrypted as one stream. */
  method EncryptParts(aes: WordCipher, key: seq<byte>, parts: seq<seq<byte>>) returns (out: seq<byte>)
    ensures out == Ctr(aes, key, Flatten(parts), 0)
  {
    var cx := new CtrState(aes, key);
    out := [];
    for i := 0 to |parts|
      invariant fresh(cx) && fresh(cx.nonce) && fresh(cx.encrBfr) && cx.aes == aes && cx.encrKey == key
      invariant out == Ctr(aes, key, Flatten(parts[..i]), 0) && cx.At(|out|)
    {
      OneMorePart(aes, key, parts, i);
      var piece := EncryptPart(cx, parts[i], |out|);
      out := out + piece;
    }
    assert parts[..|parts|] == parts;
  }

  method EncryptPart(cx: CtrState, part: seq<byte>, ghost p: nat) returns (out: seq<byte>)
    requires cx.At(p)
    modifies cx, cx.nonce, cx.encrBfr
    ensures cx.At(p + |part|) && out == Ctr(cx.aes, cx.encrKey, part, p)
  {
    var data := new byte[|part|];
    CopyInto(data, 0, part);
    assert data[..] == part;
    cx.EncrData(data, p);
    out := data[..];
  }
}
