/** The vault's use of AES-256-GCM and SHA-256 (internal/crypto/aead.go). The primitives are parameters. */
module CryptoPrimitives {
  import opened Basics

  /** `n` zero bytes. */
  function Zeros(n: nat): (s: Str)
    ensures |s| == n
  {
    if n == 0 then [] else [0] + Zeros(n - 1)
  }

  type Hash = h: Str | |h| == 32 witness Zeros(32)

  const ZERO_HASH: Hash := Zeros(32)

  const NONCE_SIZE := 12
  const KEK_SIZE := 32
  const TAG_SIZE := 16

  /** SHA-256, HMAC-SHA-256 (key, message) and AES-256-GCM (key, nonce, text, aad). */
  datatype Crypto = Crypto(
    sha256: Str -> Hash,
    hmac: (Str, Str) -> Hash,
    gcmSeal: (Str, Str, Str, Str) -> Str,
    gcmOpen: (Str, Str, Str, Str) -> Option<Str>)

  /** The functional half of section 7 of NIST SP 800-38D: decryption undoes encryption. */
  ghost predicate AeadCorrect(c: Crypto)
  {
    forall k: Str, n: Str, p: Str, a: Str :: |k| == KEK_SIZE && |n| == NONCE_SIZE ==>
      |c.gcmSeal(k, n, p, a)| == |p| + TAG_SIZE && c.gcmOpen(k, n, c.gcmSeal(k, n, p, a), a) == Some(p)
  }

  datatype CryptoError = BadKek | ErrAuth

  /** crypto.Seal, with the nonce it draws as an argument: nonce, then ciphertext and tag. */
  function Seal(c: Crypto, kek: Str, nonce: Str, plaintext: Str, aad: Str): Result<Str, CryptoError>
    requires |nonce| == NONCE_SIZE
  {
    if |kek| != KEK_SIZE then Err(BadKek) else Ok(nonce + c.gcmSeal(kek, nonce, plaintext, aad))
  }

  /** crypto.Open. */
  function Open(c: Crypto, kek: Str, sealed: Str, aad: Str): Result<Str, CryptoError>
  {
    if |kek| != KEK_SIZE then Err(BadKek)
    else if |sealed| < NONCE_SIZE + TAG_SIZE then Err(ErrAuth)
    else match c.gcmOpen(kek, sealed[..NONCE_SIZE], sealed[NONCE_SIZE..], aad)
      case None => Err(ErrAuth)
      case Some(p) => Ok(p)
  }

  /** What Seal returns can be cut at the nonce, stored in two columns, rejoined and opened. */
  lemma {:induction false} OpenSealed(c: Crypto, kek: Str, nonce: Str, plaintext: Str, aad: Str)
    requires AeadCorrect(c) && |kek| == KEK_SIZE && |nonce| == NONCE_SIZE
    ensures var sealed := Seal(c, kek, nonce, plaintext, aad).value;
      |sealed| >= NONCE_SIZE &&
      Open(c, kek, sealed[..NONCE_SIZE] + sealed[NONCE_SIZE..], aad) == Ok(plaintext)
  {
    var ct := c.gcmSeal(kek, nonce, plaintext, aad);
    var sealed := nonce + ct;
    assert |ct| == |plaintext| + TAG_SIZE && c.gcmOpen(kek, nonce, ct, aad) == Some(plaintext);
    assert sealed[..NONCE_SIZE] == nonce && sealed[NONCE_SIZE..] == ct;
    assert sealed[..NONCE_SIZE] + sealed[NONCE_SIZE..] == sealed;
  }

  /** Opening what is rejoined from a nonce and the rest: exactly what the cipher answers for them, under a key of 32 bytes
      and with room for the tag. */
  lemma {:induction false} OpenIff(c: Crypto, kek: Str, nonce: Str, ciphertext: Str, aad: Str, plaintext: Str)
    requires |nonce| == 12
    ensures Open(c, kek, nonce + ciphertext, aad) == Ok(plaintext) <==>
      |kek| == 32 && |ciphertext| >= 16 && c.gcmOpen(kek, nonce, ciphertext, aad) == Some(plaintext)
  {
    assert (nonce + ciphertext)[..12] == nonce && (nonce + ciphertext)[12..] == ciphertext;
  }

  const TWO_64 := 0x1_0000_0000_0000_0000

  /** The low `k` bytes of `n`, most significant first. */
  function BigEndian(n: nat, k: nat): (s: Str)
    ensures |s| == k
  {
    if k == 0 then [] else BigEndian(n / 256, k - 1) + [n % 256]
  }

  function BigEndianValue(s: Str): nat
  {
    if s == [] then 0 else BigEndianValue(s[..|s| - 1]) * 256 + s[|s| - 1]
  }

  function Pow256(k: nat): (p: nat)
    ensures p > 0
  {
    if k == 0 then 1 else 256 * Pow256(k - 1)
  }

  lemma {:induction false} BigEndianRoundTrip(n: nat, k: nat)
    requires n < Pow256(k)
    ensures BigEndianValue(BigEndian(n, k)) == n
  {
    if k > 0 {
      BigEndianRoundTrip(n / 256, k - 1);
      assert BigEndian(n, k)[..k - 1] == BigEndian(n / 256, k - 1);
    }
  }

  /** The bytes that AADSecret hashes; the int64 version is converted to uint64. */
  function AadPreimage(path: Str, description: Str, version: int): Str
  {
    path + [0] + description + [0] + BigEndian(version % TWO_64, 8)
  }

  /** The text, a zero byte, the description, a zero byte, and the eight bytes that read as the version modulo 2^64. */
  lemma {:induction false} AadLayout(path: Str, description: Str, version: int) returns (last: Str)
    ensures AadPreimage(path, description, version) == path + [0] + description + [0] + last
    ensures |last| == 8 && BigEndianValue(last) == version % 0x1_0000_0000_0000_0000
  {
    last := BigEndian(version % TWO_64, 8);
    assert Pow256(8) == TWO_64 by { assert Pow256(4) == 0x1_0000_0000; assert Pow256(6) == 0x1_0000_0000_0000; }
    BigEndianRoundTrip(version % TWO_64, 8);
  }

  function AADSecret(c: Crypto, path: Str, description: Str, version: int): Hash
  {
    c.sha256(AadPreimage(path, description, version))
  }

  lemma {:induction false} BigEndian8Injective(v: int, w: int)
    requires BigEndian(v % TWO_64, 8) == BigEndian(w % TWO_64, 8)
    ensures v % TWO_64 == w % TWO_64
  {
    assert Pow256(8) == TWO_64 by { assert Pow256(4) == 0x1_0000_0000; assert Pow256(6) == 0x1_0000_0000_0000; }
    BigEndianRoundTrip(v % TWO_64, 8);
    BigEndianRoundTrip(w % TWO_64, 8);
  }

  /** The version suffix never blurs into the text in front of it. */
  lemma {:induction false} AadPreimageEqualIff(p: Str, d: Str, v: int, q: Str, e: Str, w: int)
    ensures AadPreimage(p, d, v) == AadPreimage(q, e, w) <==>
      p + [0] + d == q + [0] + e && v % TWO_64 == w % TWO_64
  {
    var s, t := AadPreimage(p, d, v), AadPreimage(q, e, w);
    assert s[|s| - 8..] == BigEndian(v % TWO_64, 8) && t[|t| - 8..] == BigEndian(w % TWO_64, 8);
    assert s[..|s| - 9] == p + [0] + d && t[..|t| - 9] == q + [0] + e;
    if s == t { BigEndian8Injective(v, w); }
  }

  /** Paths without a zero byte: the AAD determines path, description and version, whatever the description holds. */
  lemma {:induction false} AadPreimageInjective(p: Str, d: Str, v: int, q: Str, e: Str, w: int)
    requires 0 !in p && 0 !in q
    requires AadPreimage(p, d, v) == AadPreimage(q, e, w)
    ensures p == q && d == e && v % TWO_64 == w % TWO_64
  {
    AadPreimageEqualIff(p, d, v, q, e, w);
    IndexOfUnique(p, 0, d);
    IndexOfUnique(q, 0, e);
    var s := p + [0] + d;
    assert s[..|p|] == p && s[|p| + 1..] == d;
    assert s[..|q|] == q && s[|q| + 1..] == e;
  }

  /** Over all paths, a triple shares its preimage with no other exactly when neither text holds a zero byte. */
  lemma {:induction false} AadPreimageUniqueIff(p: Str, d: Str, v: int)
    ensures (forall q: Str, e: Str, w :: AadPreimage(q, e, w) == AadPreimage(p, d, v) ==>
               q == p && e == d && w % TWO_64 == v % TWO_64)
      <==> 0 !in p && 0 !in d
  {
    if 0 !in p && 0 !in d {
      forall q: Str, e: Str, w | AadPreimage(q, e, w) == AadPreimage(p, d, v)
        ensures q == p && e == d && w % TWO_64 == v % TWO_64
      {
        AadPreimageEqualIff(q, e, w, p, d, v);
        var s := p + [0] + d;
        assert s == q + [0] + e && s[|q|] == 0;
        assert forall i | 0 <= i < |s| && i != |p| :: s[i] in p || s[i] in d;
        assert |q| == |p|;
        assert s[..|p|] == p && s[..|q|] == q && s[|p| + 1..] == d && s[|q| + 1..] == e;
      }
    } else if 0 in p {
      var i := IndexOf(p, 0);
      var q, e := p[..i], p[i + 1..] + [0] + d;
      assert q + [0] + e == p + [0] + d;
      AadPreimageEqualIff(q, e, v, p, d, v);
    } else {
      var i := IndexOf(d, 0);
      var q, e := p + [0] + d[..i], d[i + 1..];
      assert q + [0] + e == p + [0] + d;
      AadPreimageEqualIff(q, e, v, p, d, v);
    }
  }
}
