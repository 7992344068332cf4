/** The `Encryption` helper: an encrypt-then-MAC envelope built from
    AES-256-CTR and HMAC-SHA-512, written base64(mac ‖ nonce ‖ ciphertext).

    The cryptographic primitives are foreign calls into openssl and hash();
    they are passed in as a `Primitives` record, and the only facts the model
    uses about them are the ones `Lawful` states. The random nonce is a
    parameter. */
module Crypto {
  import opened Php

  /** random_bytes(16): the CTR initialisation vector. */
  const NonceLength := 16
  /** Raw HMAC-SHA-512 output (hash_hmac with $binary = true). */
  const MacLength := 64
  /** Where the ciphertext starts in the decoded envelope. */
  const HeaderLength := MacLength + NonceLength
  /** hash('sha512', ...) returns lowercase hex. */
  const Sha512HexLength := 128
  /** hash('ripemd128', ...) returns lowercase hex. */
  const Ripemd128HexLength := 32

  /** The foreign calls the class makes. Every byte string is a PHP string. */
  datatype Primitives = Primitives(
    // openssl_encrypt($data, 'AES-256-CTR', $key, OPENSSL_RAW_DATA, $iv) as (key, iv, data)
    aes256CtrEncrypt: (Bytes, Bytes, Bytes) -> Bytes,
    // openssl_decrypt($data, 'AES-256-CTR', $key, OPENSSL_RAW_DATA, $iv) as (key, iv, data)
    aes256CtrDecrypt: (Bytes, Bytes, Bytes) -> Bytes,
    // hash_hmac('sha512', $data, $key, true) as (key, data)
    hmacSha512: (Bytes, Bytes) -> Bytes,
    // hash('sha512', $data)
    sha512Hex: Bytes -> Bytes,
    // hash('ripemd128', $data)
    ripemd128Hex: Bytes -> Bytes,
    base64Encode: Bytes -> Bytes,
    base64Decode: Bytes -> Bytes)

  /** What the model assumes of the primitives: CTR mode preserves length and
      is inverted by decryption under the same key and 16-byte IV (NIST SP
      800-38A), the digests have their fixed output lengths, and base64
      decoding inverts encoding (section 4 of RFC 4648). */
  ghost predicate Lawful(p: Primitives)
  {
    && (forall key, iv, data :: |iv| == NonceLength ==>
          |p.aes256CtrEncrypt(key, iv, data)| == |data|)
    && (forall key, iv, data :: |iv| == NonceLength ==>
          p.aes256CtrDecrypt(key, iv, p.aes256CtrEncrypt(key, iv, data)) == data)
    && (forall key, data :: |p.hmacSha512(key, data)| == MacLength)
    && (forall data :: |p.sha512Hex(data)| == Sha512HexLength)
    && (forall data :: |p.ripemd128Hex(data)| == Ripemd128HexLength)
    && (forall data :: p.base64Decode(p.base64Encode(data)) == data)
  }

  /** The assumptions are consistent: some choice of primitives meets them all. */
  lemma LawfulPrimitivesExist()
    ensures exists p :: Lawful(p)
  {
    var zeros := (n: nat) => seq(n, _ => 0 as byte);
    var p := Primitives(
      (key, iv, data) => data,
      (key, iv, data) => data,
      (key, data) => zeros(MacLength),
      data => zeros(Sha512HexLength),
      data => zeros(Ripemd128HexLength),
      data => data,
      data => data);
    assert Lawful(p);
  }

  /** An `Encryption` object; `keyA` is set by the constructor and never
      changes afterwards. */
  datatype Encryption = Encryption(keyA: Bytes)

  /** Encryption::HashPassword: the empty string for an empty password,
      otherwise the SHA-512 hex digest. */
  function HashPassword(p: Primitives, password: Bytes): (hashed: Bytes)
    ensures Lawful(p) ==> (hashed == [] <==> password == [])
    ensures Lawful(p) && password != [] ==> |hashed| == Sha512HexLength
  {
    if |password| == 0 then [] else p.sha512Hex(password)
  }

  /** keyB: the hex RIPEMD-128 digest of the hashed password (the hex text
      itself, not raw bytes, is the HMAC key). */
  function MacKey(p: Primitives, hashedPassword: Bytes): (keyB: Bytes)
    ensures Lawful(p) ==> |keyB| == Ripemd128HexLength
  {
    p.ripemd128Hex(hashedPassword)
  }

  /** The MAC over nonce ‖ ciphertext, computed the same way by both directions. */
  function ComputeMac(p: Primitives, hashedPassword: Bytes, nonce: Bytes, ciphertext: Bytes): (mac: Bytes)
    ensures Lawful(p) ==> |mac| == MacLength
  {
    p.hmacSha512(MacKey(p, hashedPassword), nonce + ciphertext)
  }

  /** The three fields of a decoded envelope. */
  datatype Envelope = Envelope(mac: Bytes, nonce: Bytes, ciphertext: Bytes)

  /** mac ‖ nonce ‖ ciphertext, the bytes that are base64-encoded. */
  function Frame(env: Envelope): (bytes: Bytes)
    ensures |bytes| == |env.mac| + |env.nonce| + |env.ciphertext|
  {
    env.mac + env.nonce + env.ciphertext
  }

  /** Decrypt's three mb_substr calls at offsets 0, 64 and 80; a short input
      gives short or empty fields rather than an error. */
  function Split(decoded: Bytes): (env: Envelope)
    ensures |env.mac| == Min(|decoded|, MacLength)
    ensures |decoded| >= HeaderLength ==> |env.nonce| == NonceLength
    ensures |decoded| <= MacLength ==> env.nonce == [] && env.ciphertext == []
    ensures |env.ciphertext| == if |decoded| <= HeaderLength then 0 else |decoded| - HeaderLength
  {
    Envelope(
      Substr(decoded, 0, Some(MacLength)),
      Substr(decoded, MacLength, Some(NonceLength)),
      Substr(decoded, HeaderLength, None))
  }

  /** Framing round trip: splitting what was framed gives back the fields. */
  lemma SplitFrame(env: Envelope)
    requires |env.mac| == MacLength && |env.nonce| == NonceLength
    ensures Split(Frame(env)) == env
  {
    var bytes := Frame(env);
    var got := Split(bytes);
    assert got.mac == env.mac by {
      forall i | 0 <= i < MacLength ensures got.mac[i] == env.mac[i] {
        assert bytes[i] == env.mac[i];
      }
    }
    assert got.nonce == env.nonce by {
      forall i | 0 <= i < NonceLength ensures got.nonce[i] == env.nonce[i] {
        assert bytes[MacLength + i] == env.nonce[i];
      }
    }
    assert got.ciphertext == env.ciphertext by {
      forall i | 0 <= i < |env.ciphertext| ensures got.ciphertext[i] == env.ciphertext[i] {
        assert bytes[HeaderLength + i] == env.ciphertext[i];
      }
    }
  }

  /** The converse: any decoded message, however short, is exactly the
      concatenation of its three slices. */
  lemma FrameSplit(decoded: Bytes)
    ensures Frame(Split(decoded)) == decoded
  {
    var env := Split(decoded);
    var bytes := Frame(env);
    var m, n := |env.mac|, |env.nonce|;
    assert n == if |decoded| <= MacLength then 0 else Min(NonceLength, |decoded| - MacLength);
    assert |bytes| == |decoded|;
    forall i | 0 <= i < |decoded| ensures bytes[i] == decoded[i] {
      if i < m {
        assert bytes[i] == env.mac[i];
      } else if i < m + n {
        assert bytes[i] == env.nonce[i - m];
      } else {
        assert bytes[i] == env.ciphertext[i - m - n];
      }
    }
  }

  /** Encryption::Encrypt with the random nonce passed in: encrypt, MAC the
      nonce and ciphertext under keyB, and base64-encode mac ‖ nonce ‖ ciphertext. */
  function Encrypt(e: Encryption, p: Primitives, plaintext: Bytes, hashedPassword: Bytes, nonce: Bytes): (message: Bytes)
    requires |nonce| == NonceLength
    ensures Lawful(p) ==> |p.base64Decode(message)| == HeaderLength + |plaintext|
  {
    var ciphertext := p.aes256CtrEncrypt(e.keyA, nonce, plaintext);
    var mac := ComputeMac(p, hashedPassword, nonce, ciphertext);
    p.base64Encode(Frame(Envelope(mac, nonce, ciphertext)))
  }

  /** Encryption::Decrypt: split the decoded message, recompute the MAC, and
      decrypt only when hash_equals accepts it; None is PHP's null. A message
      that decodes to fewer than 64 bytes is always rejected, because its MAC
      field is shorter than any HMAC-SHA-512 output. */
  function Decrypt(e: Encryption, p: Primitives, message: Bytes, hashedPassword: Bytes): (plaintext: Option<Bytes>)
    ensures Lawful(p) && plaintext.Some? ==> |p.base64Decode(message)| >= MacLength
  {
    var env := Split(p.base64Decode(message));
    var expected := ComputeMac(p, hashedPassword, env.nonce, env.ciphertext);
    if !HashEquals(expected, env.mac) then None
    else Some(p.aes256CtrDecrypt(e.keyA, env.nonce, env.ciphertext))
  }

  /** The envelope is mac ‖ nonce ‖ ciphertext under base64, with a 64-byte
      MAC over nonce ‖ ciphertext, the given 16-byte nonce, and a ciphertext
      as long as the plaintext; so it decodes to 80 + |plaintext| bytes. */
  lemma EnvelopeLayout(e: Encryption, p: Primitives, plaintext: Bytes, hashedPassword: Bytes, nonce: Bytes)
    requires Lawful(p) && |nonce| == NonceLength
    ensures var ciphertext := p.aes256CtrEncrypt(e.keyA, nonce, plaintext);
            var decoded := p.base64Decode(Encrypt(e, p, plaintext, hashedPassword, nonce));
            && |ciphertext| == |plaintext|
            && decoded == ComputeMac(p, hashedPassword, nonce, ciphertext) + nonce + ciphertext
            && |decoded| == HeaderLength + |plaintext|
  {
  }

  /** What Decrypt slices out of an envelope Encrypt produced is exactly what
      Encrypt put in, and the MAC Decrypt recomputes is the one Encrypt stored. */
  lemma DecryptSeesEncryptedFields(e: Encryption, p: Primitives, plaintext: Bytes, hashedPassword: Bytes, nonce: Bytes)
    requires Lawful(p) && |nonce| == NonceLength
    ensures var ciphertext := p.aes256CtrEncrypt(e.keyA, nonce, plaintext);
            var env := Split(p.base64Decode(Encrypt(e, p, plaintext, hashedPassword, nonce)));
            && env.nonce == nonce
            && env.ciphertext == ciphertext
            && env.mac == ComputeMac(p, hashedPassword, env.nonce, env.ciphertext)
  {
    var ciphertext := p.aes256CtrEncrypt(e.keyA, nonce, plaintext);
    SplitFrame(Envelope(ComputeMac(p, hashedPassword, nonce, ciphertext), nonce, ciphertext));
  }

  /** Round trip: decrypting an envelope with the same key and hashed
      password yields the plaintext, the empty plaintext included. */
  lemma DecryptEncrypt(e: Encryption, p: Primitives, plaintext: Bytes, hashedPassword: Bytes, nonce: Bytes)
    requires Lawful(p) && |nonce| == NonceLength
    ensures Decrypt(e, p, Encrypt(e, p, plaintext, hashedPassword, nonce), hashedPassword) == Some(plaintext)
  {
    DecryptSeesEncryptedFields(e, p, plaintext, hashedPassword, nonce);
  }

  /** Verify before decrypt: when the received MAC differs from the
      recomputed one the result is null, whatever the decryption primitive
      does. `q` is any set of primitives that differs from `p` at most in
      decryption, so the decryption primitive is never consulted. */
  lemma RejectsWrongMac(e: Encryption, p: Primitives, q: Primitives, message: Bytes, hashedPassword: Bytes)
    requires q == p.(aes256CtrDecrypt := q.aes256CtrDecrypt)
    requires var env := Split(p.base64Decode(message));
             env.mac != ComputeMac(p, hashedPassword, env.nonce, env.ciphertext)
    ensures Decrypt(e, p, message, hashedPassword) == None
    ensures Decrypt(e, q, message, hashedPassword) == None
  {
  }

  /** When the received MAC matches, the result is the decryption of the
      sliced ciphertext under keyA and the sliced nonce. */
  lemma AcceptsMatchingMac(e: Encryption, p: Primitives, message: Bytes, hashedPassword: Bytes)
    requires var env := Split(p.base64Decode(message));
             env.mac == ComputeMac(p, hashedPassword, env.nonce, env.ciphertext)
    ensures var env := Split(p.base64Decode(message));
            Decrypt(e, p, message, hashedPassword) == Some(p.aes256CtrDecrypt(e.keyA, env.nonce, env.ciphertext))
  {
  }

  /** There is no length check beyond the MAC: a message that decodes to
      64..79 bytes whose first 64 bytes are the MAC of the remaining bytes
      (a short nonce and no ciphertext) is accepted. */
  lemma AcceptsTruncatedNonce(e: Encryption, p: Primitives, message: Bytes, hashedPassword: Bytes)
    requires MacLength <= |p.base64Decode(message)| < HeaderLength
    requires var decoded := p.base64Decode(message);
             decoded[..MacLength] == ComputeMac(p, hashedPassword, decoded[MacLength..], [])
    ensures var decoded := p.base64Decode(message);
            Decrypt(e, p, message, hashedPassword) == Some(p.aes256CtrDecrypt(e.keyA, decoded[MacLength..], []))
  {
    var decoded := p.base64Decode(message);
    var env := Split(decoded);
    FrameSplit(decoded);
    assert decoded == env.mac + env.nonce;
    assert env.mac == decoded[..MacLength] && env.nonce == decoded[MacLength..];
  }
}
