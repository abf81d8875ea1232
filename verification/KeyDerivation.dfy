/** derive_key of source/core/Cryptography.cpp against PBKDF2 with HMAC-SHA1. */
module KeyDerivation {
  import opened Bytes
  import opened HmacSha1

  // ----- PBKDF2 as section 5.2 of RFC 2898 defines it, with HMAC-SHA1 as the PRF -----

  /** A number as a byte. */
  function ToByte(n: nat): (b: byte)
    requires n < 256
    ensures b as int == n
  {
    if n == 0 then 0 else ToByte(n - 1) + 1
  }

  /** INT(i): four octets, most significant first. */
  function Int(i: nat): (s: seq<byte>)
    requires i < 0x1_0000_0000
    ensures |s| == 4
  {
    [ToByte(i / 0x100_0000), ToByte(i / 0x1_0000 % 0x100), ToByte(i / 0x100 % 0x100), ToByte(i % 0x100)]
  }

  /** The number a byte string stands for, most significant byte first. */
  function BigEndian(s: seq<byte>): nat {
    if s == [] then 0 else BigEndian(s[..|s| - 1]) * 256 + s[|s| - 1] as int
  }

  lemma BigEndianOfFour(a: byte, b: byte, c: byte, d: byte)
    ensures BigEndian([a, b, c, d])
            == ((a as int * 256 + b as int) * 256 + c as int) * 256 + d as int
  {
    assert [a, b, c, d][..3] == [a, b, c] && [a, b, c][..2] == [a, b] && [a, b][..1] == [a] && [a][..0] == [];
    assert BigEndian([a]) == a as int;
    assert BigEndian([a, b]) == BigEndian([a]) * 256 + b as int;
    assert BigEndian([a, b, c]) == BigEndian([a, b]) * 256 + c as int;
  }

  lemma DigitsOf(i: nat)
    requires i < 0x1_0000_0000
    ensures ((i / 0x100_0000 * 256 + i / 0x1_0000 % 0x100) * 256 + i / 0x100 % 0x100) * 256 + i % 0x100 == i
  {
    assert i / 0x100 / 0x100 == i / 0x1_0000 && i / 0x1_0000 / 0x100 == i / 0x100_0000;
    assert i == i / 0x100 * 0x100 + i % 0x100;
    assert i / 0x100 == i / 0x1_0000 * 0x100 + i / 0x100 % 0x100;
    assert i / 0x1_0000 == i / 0x100_0000 * 0x100 + i / 0x1_0000 % 0x100;
  }

  /** The block number stands in the four bytes most significant byte first. */
  lemma IntIsBigEndian(i: nat)
    requires i < 0x1_0000_0000
    ensures BigEndian(Int(i)) == i
  {
    var a, b, c, d := i / 0x100_0000, i / 0x1_0000 % 0x100, i / 0x100 % 0x100, i % 0x100;
    DigitsOf(i);
    BigEndianOfFour(ToByte(a), ToByte(b), ToByte(c), ToByte(d));
  }

  /** U_j of block i: U_1 = PRF(P, S || INT(i)), U_j = PRF(P, U_{j-1}). */
  function U(h: HashFunction, p: seq<byte>, s: seq<byte>, i: nat, j: nat): Digest
    requires i < 0x1_0000_0000 && j >= 1
  {
    if j == 1 then Hmac(h, p, s + Int(i)) else Hmac(h, p, U(h, p, s, i, j - 1))
  }

  /** F(P, S, c, i) = U_1 xor U_2 xor ... xor U_c */
  function F(h: HashFunction, p: seq<byte>, s: seq<byte>, c: nat, i: nat): Digest
    requires i < 0x1_0000_0000 && c >= 1
  {
    if c == 1 then U(h, p, s, i, 1) else Xor(F(h, p, s, c - 1, i), U(h, p, s, i, c))
  }

  /** T_1 || T_2 || ... || T_l */
  function Blocks(h: HashFunction, p: seq<byte>, s: seq<byte>, c: nat, l: nat): (t: seq<byte>)
    requires l < 0x1_0000_0000 && c >= 1
    ensures |t| == 20 * l
  {
    if l == 0 then [] else Blocks(h, p, s, c, l - 1) + F(h, p, s, c, l)
  }

  /** l = CEIL(dkLen / hLen), and DK is the first dkLen octets of T_1 || ... || T_l. */
  function Pbkdf2(h: HashFunction, p: seq<byte>, s: seq<byte>, c: nat, dkLen: nat): (dk: seq<byte>)
    requires dkLen < 0x1_0000_0000 && c >= 1
    ensures |dk| == dkLen
  {
    Blocks(h, p, s, c, (dkLen + 19) / 20)[..dkLen]
  }

  /** Bytes xored together. */
  function XorAll(s: seq<byte>): byte {
    if s == [] then 0 else s[0] ^ XorAll(s[1..])
  }

  /** Byte m of each of U_1, ..., U_c of block i. */
  function Column(h: HashFunction, p: seq<byte>, s: seq<byte>, c: nat, i: nat, m: nat): (col: seq<byte>)
    requires i < 0x1_0000_0000 && m < 20
    ensures |col| == c && forall j | 0 <= j < c :: col[j] == U(h, p, s, i, j + 1)[m]
  {
    seq(c, j requires 0 <= j < c => U(h, p, s, i, j + 1)[m])
  }

  lemma XorAssociates(a: byte, b: byte, c: byte)
    ensures (a ^ b) ^ c == a ^ (b ^ c)
  {
  }

  lemma XorZeroRight(a: byte)
    ensures a ^ 0 == a
  {
  }

  lemma {:induction false} XorAllSnoc(s: seq<byte>, b: byte)
    ensures XorAll(s + [b]) == XorAll(s) ^ b
  {
    if s == [] {
      XorZero(b);
      XorZeroRight(b);
      assert [b][1..] == [] && XorAll([b]) == b ^ XorAll([]);
    } else {
      assert (s + [b])[1..] == s[1..] + [b];
      XorAllSnoc(s[1..], b);
      XorAssociates(s[0], XorAll(s[1..]), b);
    }
  }

  lemma ColumnSnoc(h: HashFunction, p: seq<byte>, s: seq<byte>, c: nat, i: nat, m: nat)
    requires i < 0x1_0000_0000 && c >= 1 && m < 20
    ensures Column(h, p, s, c, i, m) == Column(h, p, s, c - 1, i, m) + [U(h, p, s, i, c)[m]]
  {
  }

  lemma BlockByteStep(h: HashFunction, p: seq<byte>, s: seq<byte>, c: nat, i: nat, m: nat)
    requires i < 0x1_0000_0000 && c >= 1 && m < 20
    ensures F(h, p, s, c, i)[m] == (if c == 1 then 0 else F(h, p, s, c - 1, i)[m]) ^ U(h, p, s, i, c)[m]
  {
    XorZero(U(h, p, s, i, c)[m]);
  }

  lemma {:induction false} BlockByte(h: HashFunction, p: seq<byte>, s: seq<byte>, c: nat, i: nat, m: nat)
    requires i < 0x1_0000_0000 && c >= 1 && m < 20
    ensures F(h, p, s, c, i)[m] == XorAll(Column(h, p, s, c, i, m))
    decreases c
  {
    BlockByteStep(h, p, s, c, i, m);
    ColumnSnoc(h, p, s, c, i, m);
    XorAllSnoc(Column(h, p, s, c - 1, i, m), U(h, p, s, i, c)[m]);
    if c > 1 {
      BlockByte(h, p, s, c - 1, i, m);
    }
  }

  lemma {:induction false} BlocksByte(h: HashFunction, p: seq<byte>, s: seq<byte>, c: nat, l: nat, k: nat, m: nat)
    requires l < 0x1_0000_0000 && c >= 1 && k < l && m < 20
    ensures 20 * k + m < 20 * l && Blocks(h, p, s, c, l)[20 * k + m] == F(h, p, s, c, k + 1)[m]
    decreases l
  {
    if k < l - 1 {
      BlocksByte(h, p, s, c, l - 1, k, m);
    }
  }

  /** What every byte of a derived key is: byte m % 20 of all values of a chain of HMACs, xored
      together, where the chain starts from the salt and the number m / 20 + 1 in four bytes, most
      significant first. */
  lemma KeyByte(h: HashFunction, p: seq<byte>, s: seq<byte>, c: nat, dkLen: nat, m: nat, n: seq<byte>,
                chain: seq<Digest>)
    requires m < dkLen < 0x1_0000_0000 && c >= 1 && |n| == 4 && BigEndian(n) == m / 20 + 1
    requires |chain| == c && chain[0] == Hmac(h, p, s + n)
    requires forall j | 1 <= j < c :: chain[j] == Hmac(h, p, chain[j - 1])
    ensures Pbkdf2(h, p, s, c, dkLen)[m] == XorAll(seq(c, j requires 0 <= j < c => chain[j][m % 20]))
  {
    var i := m / 20 + 1;
    BigEndianInjective(n, Int(i));
    IntIsBigEndian(i);
    ChainIsU(h, p, s, i, chain);
    BlocksByte(h, p, s, c, (dkLen + 19) / 20, m / 20, m % 20);
    BlockByte(h, p, s, c, i, m % 20);
    assert Column(h, p, s, c, i, m % 20) == seq(c, j requires 0 <= j < c => chain[j][m % 20]);
  }

  lemma {:induction false} BigEndianInjective(a: seq<byte>, b: seq<byte>)
    requires |a| == |b|
    ensures BigEndian(a) == BigEndian(b) ==> a == b
  {
    if a != [] && BigEndian(a) == BigEndian(b) {
      var x, y := a[|a| - 1] as int, b[|b| - 1] as int;
      LastByte(BigEndian(a[..|a| - 1]), x, BigEndian(b[..|b| - 1]), y);
      BigEndianInjective(a[..|a| - 1], b[..|b| - 1]);
      assert a == a[..|a| - 1] + [a[|a| - 1]] && b == b[..|b| - 1] + [b[|b| - 1]];
    }
  }

  lemma LastByte(a: nat, x: nat, b: nat, y: nat)
    requires x < 256 && y < 256 && a * 256 + x == b * 256 + y
    ensures a == b && x == y
  {
  }

  lemma {:induction false} ChainIsU(h: HashFunction, p: seq<byte>, s: seq<byte>, i: nat, chain: seq<Digest>)
    requires i < 0x1_0000_0000 && chain != [] && chain[0] == Hmac(h, p, s + Int(i))
    requires forall j | 1 <= j < |chain| :: chain[j] == Hmac(h, p, chain[j - 1])
    ensures forall j | 0 <= j < |chain| :: chain[j] == U(h, p, s, i, j + 1)
    decreases |chain|
  {
    if |chain| > 1 {
      var init := chain[..|chain| - 1];
      ChainIsU(h, p, s, i, init);
      assert forall j | 0 <= j < |init| :: init[j] == chain[j];
      assert chain[|chain| - 2] == U(h, p, s, i, |chain| - 1);
      assert chain[|chain| - 1] == U(h, p, s, i, |chain|);
    }
  }

  // ----- derive_key -----

  /** c1 holds the password, c2 the password and the salt, c3 is a working copy, and nothing
      they and the output block ux use is shared with c3 or with one another. */
  ghost predicate Prepared(h: HashFunction, c1: HmacCtx, c2: HmacCtx, c3: HmacCtx, ux: array<byte>,
                           p: seq<byte>, s: seq<byte>)
    reads c1, c1.key, c2, c2.key
  {
    && c1.KeyPhase(p) && c2.DataPhase(p, s) && c3.key.Length == IN_BLOCK_LENGTH
    && c1.sha1 == c2.sha1 == c3.sha1 == h
    && c1 != c3 && c2 != c3 && c1.key != c3.key && c2.key != c3.key
    && ux.Length == OUT_BLOCK_LENGTH && ux != c1.key && ux != c2.key && ux != c3.key
  }

  ghost predicate MixReady(h: HashFunction, c1: HmacCtx, c3: HmacCtx, uu: array<byte>, ux: array<byte>,
                           p: seq<byte>, fed: seq<byte>)
    reads c1, c1.key, c3, c3.key
  {
    && c1.KeyPhase(p) && c3.Fed(p, fed) && 20 == uu.Length == ux.Length
    && c1 != c3 && c1.key != c3.key && c1.sha1 == c3.sha1 == h
    && uu != ux && uu != c3.key && ux != c3.key && uu != c1.key && ux != c1.key
  }

  /** One pass of the key mixing loop: extend the HMAC with the first k0 bytes of uu, put the
      result back into uu, xor it into ux, and set c3 back to the bare password. */
  method MixingPass(h: HashFunction, c1: HmacCtx, c3: HmacCtx, uu: array<byte>, ux: array<byte>, k0: nat,
                    ghost p: seq<byte>, ghost fed: seq<byte>)
    returns (k: nat)
    requires MixReady(h, c1, c3, uu, ux, p, fed) && k0 <= 20
    modifies c3, c3.key, uu, ux
    ensures uu[..] == Hmac(h, p, fed + old(uu[..k0]))
    ensures ux[..] == Xor(old(ux[..]), uu[..]) && k == 20
    ensures MixReady(h, c1, c3, uu, ux, p, [])
  {
    ghost var d := fed + uu[..k0];
    c3.Data(uu[..k0], p, fed);
    var mac := c3.End(OUT_BLOCK_LENGTH, p, d);
    CopyInto(uu, 0, mac);
    assert uu[..] == mac;
    k := XorInto(ux, uu);
    c3.CopyFrom(c1);
  }

  /** The loop that xors uu into the running block; it leaves k at the block's length. */
  method XorInto(ux: array<byte>, uu: array<byte>) returns (k: nat)
    requires ux.Length == uu.Length == OUT_BLOCK_LENGTH && ux != uu
    modifies ux
    ensures ux[..] == Xor(old(ux[..]), uu[..]) && k == OUT_BLOCK_LENGTH
  {
    k := 0;
    ghost var was := ux[..];
    XorEnds(was, uu[..]);
    while k < OUT_BLOCK_LENGTH
      invariant k <= OUT_BLOCK_LENGTH && ux[..] == XorUpTo(was, uu[..], k)
    {
      XorOneMore(was, uu[..], k);
      XorAt(ux, k, uu[k]);
      k := k + 1;
    }
  }

  /** U_1 xor ... xor U_j, with the all-zero start value the code gives ux for j = 0. */
  ghost function Mixed(h: HashFunction, p: seq<byte>, s: seq<byte>, j: nat, i: nat): Digest
    requires i < 0x1_0000_0000
  {
    if j == 0 then Repeat(0, 20) else F(h, p, s, j, i)
  }

  lemma MixedStep(h: HashFunction, p: seq<byte>, s: seq<byte>, j: nat, i: nat)
    requires i < 0x1_0000_0000
    ensures Mixed(h, p, s, j + 1, i) == Xor(Mixed(h, p, s, j, i), U(h, p, s, i, j + 1))
  {
    if j == 0 {
      var u := U(h, p, s, i, 1);
      forall m | 0 <= m < 20
        ensures Xor(Repeat(0, 20), u)[m] == u[m]
      {
        XorZero(u[m]);
      }
    }
  }

  lemma XorZero(b: byte)
    ensures 0 ^ b == b
  {
  }

  /** Block number i (from 0) of the key: the outer loop's body up to the finished ux. */
  method KeyBlock(h: HashFunction, c1: HmacCtx, c2: HmacCtx, c3: HmacCtx, ux: array<byte>, iter: nat, i: nat,
                  ghost p: seq<byte>, ghost s: seq<byte>)
    requires Prepared(h, c1, c2, c3, ux, p, s)
    requires i + 1 < 0x1_0000_0000
    modifies c3, c3.key, ux
    ensures Prepared(h, c1, c2, c3, ux, p, s)
    ensures ux[..] == Mixed(h, p, s, iter, i + 1)
  {
    Fill(ux, 0, OUT_BLOCK_LENGTH, 0);
    assert ux[..] == Repeat(0, 20);
    c3.CopyFrom(c2);
    assert c3.DataPhase(p, s);
    var uu := new byte[OUT_BLOCK_LENGTH];
    CopyInto(uu, 0, Int(i + 1));
    assert uu[..4] == Int(i + 1);
    MixingLoop(h, c1, c3, uu, ux, iter, i, p, s);
  }

  /** One round of the key mixing loop: from the sum of j values to that of one more. What the
      HMAC is extended with is the salt only in the first round. */
  method MixingRound(h: HashFunction, c1: HmacCtx, c3: HmacCtx, uu: array<byte>, ux: array<byte>, k0: nat,
                     ghost i: nat, ghost j: nat, ghost p: seq<byte>, ghost s: seq<byte>, ghost fed: seq<byte>)
    returns (k: nat)
    requires MixReady(h, c1, c3, uu, ux, p, fed) && i < 0x1_0000_0000 && k0 <= 20
    requires Hmac(h, p, fed + uu[..k0]) == U(h, p, s, i, j + 1) && ux[..] == Mixed(h, p, s, j, i)
    modifies c3, c3.key, uu, ux
    ensures MixReady(h, c1, c3, uu, ux, p, []) && k == 20
    ensures Hmac(h, p, [] + uu[..k]) == U(h, p, s, i, j + 2) && ux[..] == Mixed(h, p, s, j + 1, i)
  {
    MixedStep(h, p, s, j, i);
    k := MixingPass(h, c1, c3, uu, ux, k0, p, fed);
    assert [] + uu[..k] == uu[..];
  }

  /** The key mixing loop. */
  method MixingLoop(h: HashFunction, c1: HmacCtx, c3: HmacCtx, uu: array<byte>, ux: array<byte>, iter: nat, i: nat,
                    ghost p: seq<byte>, ghost s: seq<byte>)
    requires MixReady(h, c1, c3, uu, ux, p, s) && i + 1 < 0x1_0000_0000
    requires uu[..4] == Int(i + 1) && ux[..] == Repeat(0, 20)
    modifies c3, c3.key, uu, ux
    ensures ux[..] == Mixed(h, p, s, iter, i + 1)
  {
    var j, k := 0, 4;
    ghost var fed := s;
    while j < iter
      invariant j <= iter && k <= 20
      invariant MixReady(h, c1, c3, uu, ux, p, fed)
      invariant Hmac(h, p, fed + uu[..k]) == U(h, p, s, i + 1, j + 1)
      invariant ux[..] == Mixed(h, p, s, j, i + 1)
    {
      k := MixingRound(h, c1, c3, uu, ux, k, i + 1, j, p, s, fed);
      fed := [];
      j := j + 1;
    }
  }

  /** The loop that moves block i of the key to its place, cut off at the key's end. */
  method CompileBlock(key: array<byte>, ux: array<byte>, i: nat)
    requires ux.Length == OUT_BLOCK_LENGTH && ux != key
    modifies key
    ensures forall m | 0 <= m < key.Length ::
              key[m] == if 20 * i <= m < 20 * i + 20 then ux[m - 20 * i] else old(key[m])
  {
    var j, k := 0, i * OUT_BLOCK_LENGTH;
    while j < OUT_BLOCK_LENGTH && k < key.Length
      invariant 0 <= j <= OUT_BLOCK_LENGTH && k == 20 * i + j
      invariant forall m | 0 <= m < key.Length ::
                  key[m] == if 20 * i <= m < k then ux[m - 20 * i] else old(key[m])
    {
      key[k] := ux[j];
      k := k + 1;
      j := j + 1;
    }
  }

  /** derive_key. The key length is a 32-bit unsigned int, so "key_len - 1" wraps for 0. */
  method DeriveKey(h: HashFunction, pwd: seq<byte>, salt: seq<byte>, iter: nat, key: array<byte>)
    requires |pwd| < HMAC_IN_DATA && key.Length < 0x1_0000_0000
    modifies key
    ensures iter >= 1 ==> key[..] == Pbkdf2(h, pwd, salt, iter, key.Length)
  {
    var c1 := new HmacCtx(h);
    c1.Key(pwd, []);
    assert [] + pwd == pwd;
    var c2 := new HmacCtx(h);
    c2.CopyFrom(c1);
    assert c2.KeyPhase(pwd);
    c2.Data(salt, pwd, []);
    assert [] + salt == salt;
    var c3 := new HmacCtx(h);
    var ux := new byte[OUT_BLOCK_LENGTH];
    FillBlocks(h, c1, c2, c3, ux, iter, key, pwd, salt);
  }

  /** The outer loop of derive_key. */
  method FillBlocks(h: HashFunction, c1: HmacCtx, c2: HmacCtx, c3: HmacCtx, ux: array<byte>, iter: nat,
                    key: array<byte>, ghost p: seq<byte>, ghost s: seq<byte>)
    requires Prepared(h, c1, c2, c3, ux, p, s)
    requires key != ux && key != c1.key && key != c2.key && key != c3.key && key.Length < 0x1_0000_0000
    modifies c3, c3.key, ux, key
    ensures iter >= 1 ==> key[..] == Pbkdf2(h, p, s, iter, key.Length)
  {
    var nBlk := BlockCount(key.Length);
    for i := 0 to nBlk
      invariant Prepared(h, c1, c2, c3, ux, p, s)
      invariant iter >= 1 ==> FilledUpTo(h, key[..], p, s, iter, i)
    {
      ghost var before := key[..];
      KeyBlock(h, c1, c2, c3, ux, iter, i, p, s);
      assert key[..] == before;
      CompileBlock(key, ux, i);
      if iter >= 1 {
        assert ux[..] == F(h, p, s, iter, i + 1);
      }
    }
  }

  /** The part of the key that blocks T_1 to T_l cover is in place. */
  ghost predicate FilledUpTo(h: HashFunction, key: seq<byte>, p: seq<byte>, s: seq<byte>, iter: nat, l: nat)
    requires l < 0x1_0000_0000 && iter >= 1
  {
    forall m | 0 <= m < |key| && m < 20 * l :: key[m] == Blocks(h, p, s, iter, l)[m]
  }

  /** n_blk */
  function BlockCount(keyLen: nat): (n: nat)
    requires keyLen < 0x1_0000_0000
    ensures keyLen > 0 ==> n == (keyLen + 19) / 20
    ensures n < 0xffff_ffff
  {
    1 + ((keyLen + 0xffff_ffff) % 0x1_0000_0000) / OUT_BLOCK_LENGTH
  }
}
