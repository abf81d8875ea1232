/** Incremental HMAC-SHA1 as source/core/Cryptography.cpp keeps it: one 64-byte key buffer,
    one hash context and a counter that doubles as the phase flag. */
module HmacSha1 {
  import opened Basics
  import opened Bytes

  const IN_BLOCK_LENGTH: nat := 64
  const OUT_BLOCK_LENGTH: nat := 20
  /** Value of klen that marks the data phase. */
  const HMAC_IN_DATA: nat := 0xffffffff
  const IPAD: byte := 0x36
  const OPAD: byte := 0x5c

  // ----- HMAC as section 2 of RFC 2104 defines it -----

  /** The key brought to exactly one block: hashed when too long, then zero padded. */
  function BlockKey(sha1: HashFunction, key: seq<byte>): (b: seq<byte>)
    ensures |b| == IN_BLOCK_LENGTH
  {
    var short := if |key| > IN_BLOCK_LENGTH then sha1(key) else key;
    short + Repeat(0, IN_BLOCK_LENGTH - |short|)
  }

  function Hmac(sha1: HashFunction, key: seq<byte>, text: seq<byte>): Digest {
    var k := BlockKey(sha1, key);
    sha1(XorWith(k, OPAD) + sha1(XorWith(k, IPAD) + text))
  }

  /** Byte by byte: the outer block is the padded key xored with 0x5c, the inner one the padded key
      xored with 0x36, and the inner hash is over the inner block and the text. */
  lemma HmacBytes(sha1: HashFunction, key: seq<byte>, text: seq<byte>, outer: seq<byte>, inner: seq<byte>)
    requires |key| <= 64 && |inner| == 64 && |outer| == 64
    requires forall i | 0 <= i < |key| :: inner[i] == key[i] ^ 0x36 && outer[i] == key[i] ^ 0x5c
    requires forall i | |key| <= i < 64 :: inner[i] == 0x36 && outer[i] == 0x5c
    ensures Hmac(sha1, key, text) == sha1(outer + sha1(inner + text))
  {
    forall i | |key| <= i < 64 ensures XorWith(BlockKey(sha1, key), 0x36)[i] == 0x36 {
      XorFromZero(0x36);
    }
    forall i | |key| <= i < 64 ensures XorWith(BlockKey(sha1, key), 0x5c)[i] == 0x5c {
      XorFromZero(0x5c);
    }
    assert XorWith(BlockKey(sha1, key), 0x36) == inner;
    assert XorWith(BlockKey(sha1, key), 0x5c) == outer;
  }

  lemma XorFromZero(b: byte)
    ensures 0 ^ b == b
  {
  }

  /** A key longer than a block counts as its hash. */
  lemma HmacLongKey(sha1: HashFunction, key: seq<byte>, text: seq<byte>)
    requires |key| > 64
    ensures Hmac(sha1, key, text) == Hmac(sha1, sha1(key), text)
  {
  }

  // ----- The context -----

  /** hmac_ctx. The hash context is the byte string hashed so far. */
  class HmacCtx {
    const sha1: HashFunction
    const key: array<byte>
    var ctx: seq<byte>
    var klen: nat

    /** Exactly the bytes k have been given as key and no data yet. */
    ghost predicate KeyPhase(k: seq<byte>)
      reads this, key
    {
      && key.Length == IN_BLOCK_LENGTH
      && klen == |k| < HMAC_IN_DATA
      && (if |k| <= IN_BLOCK_LENGTH then key[..|k|] == k else ctx == k)
    }

    /** Key k is complete and exactly the bytes d have been given as data. */
    ghost predicate DataPhase(k: seq<byte>, d: seq<byte>)
      reads this, key
    {
      && key.Length == IN_BLOCK_LENGTH
      && klen == HMAC_IN_DATA
      && key[..] == XorWith(BlockKey(sha1, k), IPAD)
      && ctx == key[..] + d
    }

    /** Key k and data d have been given, whether or not the data phase was entered. */
    ghost predicate Fed(k: seq<byte>, d: seq<byte>)
      reads this, key
    {
      (KeyPhase(k) && d == []) || DataPhase(k, d)
    }

    /** hmac_sha1_begin */
    constructor (sha1: HashFunction)
      ensures KeyPhase([]) && fresh(key) && this.sha1 == sha1
    {
      this.sha1 := sha1;
      key := new byte[IN_BLOCK_LENGTH](_ => 0);
      ctx := [];
      klen := 0;
    }

    /** memmove(this, other, sizeof(hmac_ctx)) */
    method CopyFrom(other: HmacCtx)
      requires other.key.Length == key.Length == IN_BLOCK_LENGTH && key != other.key
      modifies this, key
      ensures key[..] == other.key[..] && ctx == other.ctx && klen == other.klen
      ensures other != this ==> other.ctx == old(other.ctx) && other.klen == old(other.klen)
    {
      CopyInto(key, 0, other.key[..]);
      ctx := other.ctx;
      klen := other.klen;
    }

    /** hmac_sha1_key */
    method Key(part: seq<byte>, ghost k: seq<byte>)
      requires KeyPhase(k) && |k| + |part| < HMAC_IN_DATA
      modifies this, key
      ensures KeyPhase(k + part)
    {
      if klen + |part| > IN_BLOCK_LENGTH {
        if klen <= IN_BLOCK_LENGTH {
          ctx := [];
          ctx := ctx + key[..klen];
        }
        ctx := ctx + part;
      } else {
        CopyInto(key, klen, part);
      }
      klen := klen + |part|;
    }

    /** hmac_sha1_data */
    method Data(data: seq<byte>, ghost k: seq<byte>, ghost d: seq<byte>)
      requires Fed(k, d)
      modifies this, key
      ensures DataPhase(k, d + data)
    {
      if klen != HMAC_IN_DATA {
        if klen > IN_BLOCK_LENGTH {
          CopyInto(key, 0, sha1(ctx));
          klen := OUT_BLOCK_LENGTH;
        }
        ghost var short := if |k| > IN_BLOCK_LENGTH then sha1(k) else k;
        assert key[..klen] == short;
        Fill(key, klen, IN_BLOCK_LENGTH - klen, 0);
        assert key[..] == BlockKey(sha1, k);
        XorWords(key, IPAD);
        ctx := [];
        ctx := ctx + key[..];
        klen := HMAC_IN_DATA;
        assert DataPhase(k, []);
      }
      if |data| > 0 {
        ctx := ctx + data;
      }
      assert ctx == key[..] + (d + data);
    }

    /** hmac_sha1_end */
    method End(macLen: nat, ghost k: seq<byte>, ghost d: seq<byte>) returns (mac: seq<byte>)
      requires Fed(k, d) && macLen <= OUT_BLOCK_LENGTH
      modifies this, key
      ensures mac == Hmac(sha1, k, d)[..macLen]
    {
      if klen != HMAC_IN_DATA {
        Data([], k, d);
        assert d + [] == d;
      }
      var dig := sha1(ctx);
      ghost var inner := key[..];
      assert dig == sha1(XorWith(BlockKey(sha1, k), IPAD) + d);
      XorWords(key, IPAD ^ OPAD);
      assert key[..] == XorWith(BlockKey(sha1, k), OPAD) by {
        forall i | 0 <= i < IN_BLOCK_LENGTH
          ensures key[i] == BlockKey(sha1, k)[i] ^ OPAD
        {
          assert inner[i] == BlockKey(sha1, k)[i] ^ IPAD;
          IpadToOpad(BlockKey(sha1, k)[i]);
        }
      }
      ctx := [];
      ctx := ctx + key[..];
      ctx := ctx + dig;
      assert ctx == XorWith(BlockKey(sha1, k), OPAD) + sha1(XorWith(BlockKey(sha1, k), IPAD) + d);
      dig := sha1(ctx);
      mac := dig[..macLen];
    }
  }

  lemma IpadToOpad(b: byte)
    ensures (b ^ IPAD) ^ (IPAD ^ OPAD) == b ^ OPAD
  {
  }

  /** ((unsigned long*)key)[word] ^= a word of four bytes c */
  method XorWord(key: array<byte>, word: nat, c: byte)
    requires 4 * word + 4 <= key.Length
    modifies key
    ensures forall j | 0 <= j < key.Length ::
              key[j] == if 4 * word <= j < 4 * word + 4 then old(key[j]) ^ c else old(key[j])
  {
    var at := 4 * word;
    for i := 0 to 4
      invariant forall j | 0 <= j < key.Length ::
                  key[j] == if at <= j < at + i then old(key[j]) ^ c else old(key[j])
    {
      key[at + i] := key[at + i] ^ c;
    }
  }

  /** The whole key buffer xored, one 32-bit word at a time. */
  method XorWords(key: array<byte>, c: byte)
    requires key.Length == IN_BLOCK_LENGTH
    modifies key
    ensures key[..] == XorWith(old(key[..]), c)
  {
    for i := 0 to IN_BLOCK_LENGTH / 4
      invariant forall j | 0 <= j < IN_BLOCK_LENGTH ::
                  key[j] == if j < 4 * i then old(key[j]) ^ c else old(key[j])
    {
      XorWord(key, i, c);
    }
  }

  /** A whole run: key and data arrive in any number of pieces of any size, and the result
      is the HMAC of the joined key and the joined data. */
  method HmacOfParts(sha1: HashFunction, keyParts: seq<seq<byte>>, dataParts: seq<seq<byte>>, macLen: nat)
    returns (mac: seq<byte>)
    requires |Flatten(keyParts)| < HMAC_IN_DATA && macLen <= OUT_BLOCK_LENGTH
    ensures mac == Hmac(sha1, Flatten(keyParts), Flatten(dataParts))[..macLen]
  {
    var cx := new HmacCtx(sha1);
    for i := 0 to |keyParts|
      invariant fresh(cx) && fresh(cx.key) && cx.sha1 == sha1
      invariant cx.KeyPhase(Flatten(keyParts[..i]))
    {
      FlattenPrefix(keyParts, i);
      cx.Key(keyParts[i], Flatten(keyParts[..i]));
    }
    assert keyParts[..|keyParts|] == keyParts;
    ghost var k := Flatten(keyParts);
    for i := 0 to |dataParts|
      invariant fresh(cx) && fresh(cx.key) && cx.sha1 == sha1
      invariant cx.Fed(k, Flatten(dataParts[..i]))
    {
      FlattenPrefix(dataParts, i);
      cx.Data(dataParts[i], k, Flatten(dataParts[..i]));
    }
    assert dataParts[..|dataParts|] == dataParts;
    mac := cx.End(macLen, k, Flatten(dataParts));
  }

  lemma FlattenPrefix<T>(parts: seq<seq<T>>, i: nat)
    requires i < |parts|
    ensures Flatten(parts[..i + 1]) == Flatten(parts[..i]) + parts[i]
    ensures |Flatten(parts[..i + 1])| <= |Flatten(parts)|
  {
    assert parts[..i + 1] == parts[..i] + [parts[i]];
    FlattenSnoc(parts[..i], parts[i]);
    assert parts == parts[..i + 1] + parts[i + 1..];
    FlattenAppend(parts[..i + 1], parts[i + 1..]);
  }
}
