/** fcrypt_* and the AES256* functions of source/core/Cryptography.cpp: password based
    encryption with authentication, and password verifiers. */
module FileEncryption {
  import opened Basics
  import opened Bytes
  import opened HmacSha1
  import opened KeyDerivation
  import opened CtrStream

  const KEYING_ITERATIONS: nat := 1000
  const PWD_VER_LENGTH: nat := 2
  const MAC_LENGTH: nat := 10
  const PASSWORD_MANAGER_AES_MODE: nat := 3

  /** KEY_LENGTH(mode) */
  function KeyLength(mode: nat): (n: nat)
    ensures n <= 32
  {
    8 * (mode % 4) + 8
  }

  /** SALT_LENGTH(mode) */
  function SaltLength(mode: nat): nat {
    4 * (mode % 4) + 4
  }

  /** What is fixed outside the model: the hash and the cipher. */
  datatype Primitives = Primitives(sha1: HashFunction, aes: WordCipher)

  // ----- The three keys a password and a salt give -----

  function Keying(prim: Primitives, mode: nat, pwd: seq<byte>, salt: seq<byte>): (k: seq<byte>)
    ensures |k| == 2 * KeyLength(mode) + PWD_VER_LENGTH
  {
    Pbkdf2(prim.sha1, pwd, salt, KEYING_ITERATIONS, 2 * KeyLength(mode) + PWD_VER_LENGTH)
  }

  function EncryptionKey(prim: Primitives, mode: nat, pwd: seq<byte>, salt: seq<byte>): seq<byte> {
    Keying(prim, mode, pwd, salt)[..KeyLength(mode)]
  }

  function AuthenticationKey(prim: Primitives, mode: nat, pwd: seq<byte>, salt: seq<byte>): (k: seq<byte>)
    ensures |k| == KeyLength(mode)
  {
    Keying(prim, mode, pwd, salt)[KeyLength(mode)..2 * KeyLength(mode)]
  }

  /** Which of the bytes derived in a thousand iterations make which key, by mode. */
  lemma KeysOf(prim: Primitives, pwd: seq<byte>, salt: seq<byte>)
    ensures EncryptionKey(prim, 1, pwd, salt) == Pbkdf2(prim.sha1, pwd, salt, 1000, 34)[..16]
    ensures AuthenticationKey(prim, 1, pwd, salt) == Pbkdf2(prim.sha1, pwd, salt, 1000, 34)[16..32]
    ensures EncryptionKey(prim, 2, pwd, salt) == Pbkdf2(prim.sha1, pwd, salt, 1000, 50)[..24]
    ensures AuthenticationKey(prim, 2, pwd, salt) == Pbkdf2(prim.sha1, pwd, salt, 1000, 50)[24..48]
    ensures EncryptionKey(prim, 3, pwd, salt) == Pbkdf2(prim.sha1, pwd, salt, 1000, 66)[..32]
    ensures AuthenticationKey(prim, 3, pwd, salt) == Pbkdf2(prim.sha1, pwd, salt, 1000, 66)[32..64]
    ensures SaltLength(1) == 8 && SaltLength(2) == 12 && SaltLength(3) == 16
  {
  }

  // ----- fcrypt_ctx -----

  class FcryptCtx {
    const prim: Primitives
    const mode: nat
    const pwdLen: nat
    /** nonce, encr_bfr, encr_ctx, encr_pos */
    const encr: CtrState
    const authCtx: HmacCtx

    /** Set up for this password and salt; p bytes went through the cipher, and exactly the
        bytes a were authenticated. */
    ghost predicate Ready(pwd: seq<byte>, salt: seq<byte>, p: nat, a: seq<byte>)
      reads this, encr, encr.nonce, encr.encrBfr, authCtx, authCtx.key
    {
      && encr.At(p) && encr.aes == prim.aes && encr.encrKey == EncryptionKey(prim, mode, pwd, salt)
      && authCtx.sha1 == prim.sha1
      && authCtx.Fed(AuthenticationKey(prim, mode, pwd, salt), a)
      && authCtx.key != encr.nonce && authCtx.key != encr.encrBfr
    }

    /** fcrypt_init. The verification bytes are computed in any case; callers may ignore them. */
    constructor (prim: Primitives, mode: nat, pwd: seq<byte>, salt: seq<byte>)
      requires |pwd| < HMAC_IN_DATA && |salt| == SaltLength(mode)
      ensures Ready(pwd, salt, 0, []) && this.prim == prim && this.mode == mode
      ensures fresh(encr) && fresh(encr.nonce) && fresh(encr.encrBfr) && fresh(authCtx) && fresh(authCtx.key)
    {
      var kbuf := DeriveKbuf(prim, mode, pwd, salt);
      var encrKey := kbuf[..KeyLength(mode)];
      var cipher := new CtrState(prim.aes, encrKey);
      var auth := new HmacCtx(prim.sha1);
      ghost var authKey := kbuf[KeyLength(mode)..2 * KeyLength(mode)];
      auth.Key(kbuf[KeyLength(mode)..2 * KeyLength(mode)], []);
      assert [] + authKey == authKey;
      this.prim, this.mode, this.pwdLen := prim, mode, |pwd|;
      this.encr, this.authCtx := cipher, auth;
    }

    /** fcrypt_encrypt: encrypt in place, then authenticate what came out. Data may come in any
        number of calls. */
    method Encrypt(data: array<byte>, ghost pwd: seq<byte>, ghost salt: seq<byte>, ghost p: nat, ghost a: seq<byte>)
      requires Ready(pwd, salt, p, a) && data != encr.nonce && data != encr.encrBfr && data != authCtx.key
      modifies encr, encr.nonce, encr.encrBfr, authCtx, authCtx.key, data
      ensures data[..] == Ctr(prim.aes, EncryptionKey(prim, mode, pwd, salt), old(data[..]), p)
      ensures Ready(pwd, salt, p + data.Length, a + data[..])
    {
      encr.EncrData(data, p);
      authCtx.Data(data[..], AuthenticationKey(prim, mode, pwd, salt), a);
    }

    /** fcrypt_decrypt: authenticate what came in, then decrypt in place. */
    method Decrypt(data: array<byte>, ghost pwd: seq<byte>, ghost salt: seq<byte>, ghost p: nat, ghost a: seq<byte>)
      requires Ready(pwd, salt, p, a) && data != encr.nonce && data != encr.encrBfr && data != authCtx.key
      modifies encr, encr.nonce, encr.encrBfr, authCtx, authCtx.key, data
      ensures data[..] == Ctr(prim.aes, EncryptionKey(prim, mode, pwd, salt), old(data[..]), p)
      ensures Ready(pwd, salt, p + data.Length, a + old(data[..]))
    {
      authCtx.Data(data[..], AuthenticationKey(prim, mode, pwd, salt), a);
      encr.EncrData(data, p);
    }

    /** fcrypt_end */
    method End(ghost pwd: seq<byte>, ghost salt: seq<byte>, ghost p: nat, ghost a: seq<byte>) returns (mac: seq<byte>)
      requires Ready(pwd, salt, p, a)
      modifies authCtx, authCtx.key
      ensures mac == Hmac(prim.sha1, AuthenticationKey(prim, mode, pwd, salt), a)[..MAC_LENGTH]
    {
      mac := authCtx.End(MAC_LENGTH, AuthenticationKey(prim, mode, pwd, salt), a);
    }
  }

  method DeriveKbuf(prim: Primitives, mode: nat, pwd: seq<byte>, salt: seq<byte>) returns (kbuf: seq<byte>)
    requires |pwd| < HMAC_IN_DATA && |salt| == SaltLength(mode)
    ensures kbuf == Keying(prim, mode, pwd, salt)
  {
    var buf := new byte[2 * KeyLength(mode) + PWD_VER_LENGTH];
    DeriveKey(prim.sha1, pwd, salt, KEYING_ITERATIONS, buf);
    kbuf := buf[..];
  }

  // ----- AES256EncyptWithMAC, AES256DecryptWithMAC -----

  const M := PASSWORD_MANAGER_AES_MODE
  const SALT_LENGTH: nat := 16

  /** What sealing computes: the ciphertext of the whole input from the start of the stream. */
  function Encrypted(prim: Primitives, input: seq<byte>, pwd: seq<byte>, salt: seq<byte>): (c: seq<byte>)
    ensures |c| == |input|
  {
    Ctr(prim.aes, EncryptionKey(prim, M, pwd, salt), input, 0)
  }

  /** The authentication code of a ciphertext. */
  function Mac(prim: Primitives, encrypted: seq<byte>, pwd: seq<byte>, salt: seq<byte>): (m: seq<byte>)
    ensures |m| == MAC_LENGTH
  {
    Hmac(prim.sha1, AuthenticationKey(prim, M, pwd, salt), encrypted)[..MAC_LENGTH]
  }

  /** The five-argument AES256EncyptWithMAC. An empty salt is replaced by a random one. */
  method EncryptWithMac(prim: Primitives, input: seq<byte>, pwd: seq<byte>, givenSalt: seq<byte>, randomSalt: seq<byte>)
    returns (salt: seq<byte>, output: seq<byte>, mac: seq<byte>)
    requires |pwd| < HMAC_IN_DATA && |randomSalt| == SALT_LENGTH
    requires givenSalt == [] || |givenSalt| == SALT_LENGTH
    ensures salt == if givenSalt == [] then randomSalt else givenSalt
    ensures output == Encrypted(prim, input, pwd, salt) && mac == Mac(prim, output, pwd, salt)
  {
    salt := givenSalt;
    if |salt| == 0 {
      salt := randomSalt;
    }
    var aes := new FcryptCtx(prim, M, pwd, salt);
    var buf := new byte[|input|];
    CopyInto(buf, 0, input);
    assert buf[..] == input;
    aes.Encrypt(buf, pwd, salt, 0, []);
    output := buf[..];
    AddNothing(output);
    mac := aes.End(pwd, salt, |input|, output);
  }

  /** The three-argument AES256EncyptWithMAC: everything in one string. */
  method Seal(prim: Primitives, input: seq<byte>, pwd: seq<byte>, randomSalt: seq<byte>) returns (output: seq<byte>)
    requires |pwd| < HMAC_IN_DATA && |randomSalt| == SALT_LENGTH
    ensures output == Sealed(prim, input, pwd, randomSalt)
  {
    var salt, encrypted, mac := EncryptWithMac(prim, input, pwd, [], randomSalt);
    output := salt + encrypted + mac;
  }

  function Sealed(prim: Primitives, input: seq<byte>, pwd: seq<byte>, salt: seq<byte>): seq<byte> {
    var c := Encrypted(prim, input, pwd, salt);
    salt + c + Mac(prim, c, pwd, salt)
  }

  /** The layout of what is sealed: sixteen bytes of salt, the data byte by byte under the first
      32 derived bytes, and the first ten bytes of the code of that under the next 32. */
  lemma SealedBytes(prim: Primitives, input: seq<byte>, pwd: seq<byte>, salt: seq<byte>)
    requires |salt| == 16
    ensures var s, k := Sealed(prim, input, pwd, salt), Pbkdf2(prim.sha1, pwd, salt, 1000, 66);
            && |s| == 16 + |input| + 10 && s[..16] == salt
            && (forall i | 0 <= i < |input| :: s[16 + i] == Ctr(prim.aes, k[..32], input, 0)[i])
            && s[16 + |input|..] == Hmac(prim.sha1, k[32..64], s[16..16 + |input|])[..10]
  {
    KeysOf(prim, pwd, salt);
    var c := Encrypted(prim, input, pwd, salt);
    var s := Sealed(prim, input, pwd, salt);
    assert s[16..16 + |input|] == c;
  }

  /** The five-argument AES256DecryptWithMAC. */
  method DecryptWithMac(prim: Primitives, input: seq<byte>, pwd: seq<byte>, salt: seq<byte>, mac: seq<byte>)
    returns (ok: bool, output: seq<byte>)
    requires |pwd| < HMAC_IN_DATA && |salt| == SALT_LENGTH && |mac| == MAC_LENGTH
    ensures output == Encrypted(prim, input, pwd, salt)
    ensures ok <==> mac == Mac(prim, input, pwd, salt)
  {
    var aes := new FcryptCtx(prim, M, pwd, salt);
    var buf := new byte[|input|];
    CopyInto(buf, 0, input);
    assert buf[..] == input;
    aes.Decrypt(buf, pwd, salt, 0, []);
    output := buf[..];
    AddNothing(input);
    var mac2 := aes.End(pwd, salt, |input|, input);
    ok := mac2 == mac;
  }

  /** The three parts of a sealed string. */
  datatype Parts = Parts(salt: seq<byte>, encrypted: seq<byte>, mac: seq<byte>)

  function Split(input: seq<byte>): (parts: Parts)
    requires |input| >= SALT_LENGTH + MAC_LENGTH
    ensures |parts.salt| == SALT_LENGTH && |parts.mac| == MAC_LENGTH
    ensures parts.salt + parts.encrypted + parts.mac == input
  {
    Parts(input[..SALT_LENGTH], input[SALT_LENGTH..|input| - MAC_LENGTH], input[|input| - MAC_LENGTH..])
  }

  lemma SplitJoined(salt: seq<byte>, encrypted: seq<byte>, mac: seq<byte>)
    requires |salt| == 16 && |mac| == 10
    ensures Split(salt + encrypted + mac) == Parts(salt, encrypted, mac)
  {
  }

  /** The three-argument AES256DecryptWithMAC. Anything too short to hold even one encrypted
      byte is refused; otherwise the answer is whether the code matches. */
  method Open(prim: Primitives, input: seq<byte>, pwd: seq<byte>) returns (ok: bool, output: seq<byte>)
    requires |pwd| < HMAC_IN_DATA
    ensures ok <==> && |input| > SALT_LENGTH + MAC_LENGTH
                    && var s := Split(input); s.mac == Mac(prim, s.encrypted, pwd, s.salt)
    ensures ok ==> var s := Split(input); output == Encrypted(prim, s.encrypted, pwd, s.salt)
  {
    output := [];
    ok := |input| > SALT_LENGTH + MAC_LENGTH;
    if ok {
      var salt := input[..SALT_LENGTH];
      var encrypted := input[SALT_LENGTH..|input| - MAC_LENGTH];
      var mac := input[|input| - MAC_LENGTH..];
      ok, output := DecryptWithMac(prim, encrypted, pwd, salt, mac);
    }
  }

  /** Sealed data opens, exactly when there is any: an empty plaintext seals to a string that
      Open refuses as too short. */
  method SealThenOpen(prim: Primitives, input: seq<byte>, pwd: seq<byte>, randomSalt: seq<byte>)
    returns (ok: bool, output: seq<byte>)
    requires |pwd| < HMAC_IN_DATA && |randomSalt| == SALT_LENGTH
    ensures ok <==> input != []
    ensures ok ==> output == input
  {
    var sealed := Seal(prim, input, pwd, randomSalt);
    ghost var c := Encrypted(prim, input, pwd, randomSalt);
    SplitJoined(randomSalt, c, Mac(prim, c, pwd, randomSalt));
    CtrInvolution(prim.aes, EncryptionKey(prim, M, pwd, randomSalt), input, 0);
    ok, output := Open(prim, sealed, pwd);
  }

  // ----- AES256CreateVerifier, AES256Verify -----

  method CreateVerifier(prim: Primitives, input: seq<byte>, randomSalt: seq<byte>, randomDummy: seq<byte>)
    returns (verifier: seq<byte>)
    requires |input| < HMAC_IN_DATA && |randomSalt| == |randomDummy| == SALT_LENGTH
    ensures verifier
            == randomSalt + randomDummy + Mac(prim, Encrypted(prim, randomDummy, input, randomSalt), input, randomSalt)
  {
    var salt, encrypted, mac := EncryptWithMac(prim, randomDummy, input, randomSalt, randomSalt);
    verifier := salt + randomDummy + mac;
  }

  /** RawByteString.SubString, from position at (counted from 0): clipped at the end. */
  function SubString(s: seq<byte>, at: nat, count: nat): seq<byte> {
    if at >= |s| then [] else if |s| - at <= count then s[at..] else s[at..at + count]
  }

  /** A verifier is accepted just when the ten bytes after its salt and its dummy text are the
      code of the encrypted dummy text; one shorter than a salt never is. What the salt is then
      filled up with, memory behind the string or random bytes for an empty one, does not matter. */
  method Verify(prim: Primitives, input: seq<byte>, verifier: seq<byte>, behind: seq<byte>) returns (ok: bool)
    requires |input| < HMAC_IN_DATA && |behind| >= SALT_LENGTH
    ensures |verifier| < SALT_LENGTH ==> !ok
    ensures |verifier| >= SALT_LENGTH ==>
              (ok <==> var salt, dummy := verifier[..SALT_LENGTH], SubString(verifier, SALT_LENGTH, SALT_LENGTH);
                       SubString(verifier, 2 * SALT_LENGTH, MAC_LENGTH)
                       == Mac(prim, Encrypted(prim, dummy, input, salt), input, salt))
  {
    var salt := SubString(verifier, 0, SALT_LENGTH);
    var dummy := SubString(verifier, SALT_LENGTH, SALT_LENGTH);
    var mac := SubString(verifier, SALT_LENGTH + SALT_LENGTH, MAC_LENGTH);
    var read := if |salt| == 0 then [] else (salt + behind)[..SALT_LENGTH];
    assert |salt| == SALT_LENGTH ==> read == salt;
    var _, encrypted, mac2 := EncryptWithMac(prim, dummy, input, read, behind[..SALT_LENGTH]);
    ok := mac == mac2;
  }

  /** Every verifier made for an input is accepted for that input, and for another input just
      when that input gives the same code. */
  method CreateThenVerify(prim: Primitives, input: seq<byte>, other: seq<byte>,
                          randomSalt: seq<byte>, randomDummy: seq<byte>)
    returns (ok: bool)
    requires |input| < HMAC_IN_DATA && |other| < HMAC_IN_DATA && |randomSalt| == |randomDummy| == SALT_LENGTH
    ensures input == other ==> ok
    ensures ok <==> Mac(prim, Encrypted(prim, randomDummy, input, randomSalt), input, randomSalt)
                    == Mac(prim, Encrypted(prim, randomDummy, other, randomSalt), other, randomSalt)
  {
    var verifier := CreateVerifier(prim, input, randomSalt, randomDummy);
    assert verifier[..SALT_LENGTH] == randomSalt;
    assert SubString(verifier, SALT_LENGTH, SALT_LENGTH) == randomDummy;
    ok := Verify(prim, other, verifier, randomSalt);
  }
}
