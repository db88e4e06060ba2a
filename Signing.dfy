/** The randomized-nonce EdDSA signature of EdDSAWallet.sign and the
    verification equation it is meant to satisfy (section 5.1.7 of RFC 8032). */
module Signing {
  import opened Bytes
  import opened Crypto

  /** sign's hasher argument; sign always passes it exactly three byte strings. */
  type Hasher = (seq<byte>, seq<byte>, seq<byte>) -> seq<byte>

  /** The default hasher: SHA-512 of the concatenation of its arguments. */
  function DefaultHasher<P>(c: Primitives<P>): (h: Hasher)
    ensures forall a, b, m :: h(a, b, m) == c.sha512(a + b + m)
    ensures forall a, b, m, a', b', m' :: a + b + m == a' + b' + m' ==> h(a, b, m) == h(a', b', m')
  {
    (a: seq<byte>, b: seq<byte>, m: seq<byte>) => c.sha512(a + b + m)
  }

  /** The nonce: the hash of seed ++ LE32(k) ++ message, read little-endian, modulo n.
      Section 5.1.6 of RFC 8032 hashes a fixed secret prefix instead of a fresh seed. */
  function Nonce(hasher: Hasher, k: nat, message: seq<byte>, seed: seq<byte>): (nonce: nat)
    requires k < TWO_256
    ensures nonce < N
  {
    Pow256Of32();
    LittleEndian(hasher(seed, LittleEndianBytes(k, 32), message)) % N
  }

  /** hram: the hash of enc(R) ++ enc(A) ++ message, read little-endian, modulo n. */
  function Challenge<P>(c: Primitives<P>, hasher: Hasher, rBytes: seq<byte>, A: P, message: seq<byte>): (hram: nat)
    ensures hram < N
  {
    LittleEndian(hasher(rBytes, c.encode(A), message)) % N
  }

  /** The response scalar s = (hram·k + nonce) mod n: the one residue below n
      congruent to hram·k + nonce, so it fits the 32 bytes of the signature. */
  function Response(hram: nat, k: nat, nonce: nat): (s: nat)
    ensures s < N && s < TWO_256
    ensures (hram * k + nonce - s) % N == 0
  {
    (hram * k + nonce) % N
  }

  /** sign, once the private key k is known: enc(k_nonce·B) ++ LE32((hram·k + nonce) mod n). */
  function SignWith<P>(c: Primitives<P>, hasher: Hasher, k: nat, message: seq<byte>, seed: seq<byte>): (sig: seq<byte>)
    requires k < TWO_256
    ensures |sig| == 64
    ensures sig[..32] == c.encode(BaseMul(c, Nonce(hasher, k, message, seed)))
    ensures LittleEndian(sig[32..]) < N
  {
    Pow256Of32();
    OrderBelowTwo256();
    var nonce := Nonce(hasher, k, message, seed);
    var R := BaseMul(c, nonce);
    var A := BaseMul(c, k);
    var hram := Challenge(c, hasher, c.encode(R), A, message);
    var s := Response(hram, k, nonce);
    var sig := c.encode(R) + LittleEndianBytes(s, 32);
    assert sig[..32] == c.encode(R) && sig[32..] == LittleEndianBytes(s, 32);
    sig
  }

  /** SignWith spelled out step by step, for callers that compute it imperatively. */
  lemma SignWithSteps<P>(c: Primitives<P>, hasher: Hasher, k: nat, message: seq<byte>, seed: seq<byte>,
                         nonce: nat, hram: nat, s: nat)
    requires k < TWO_256
    requires nonce == Nonce(hasher, k, message, seed)
    requires hram == Challenge(c, hasher, c.encode(BaseMul(c, nonce)), BaseMul(c, k), message)
    requires s == Response(hram, k, nonce)
    ensures s < Pow256(32)
    ensures SignWith(c, hasher, k, message, seed) == c.encode(BaseMul(c, nonce)) + LittleEndianBytes(s, 32)
  {
    Pow256Of32();
    OrderBelowTwo256();
  }

  /** Verification against public point A: split the 64 bytes into enc(R) and S,
      reject S >= n or an R that does not decode, and check S·B == R + hram·A. */
  ghost predicate Verify<P>(c: Primitives<P>, hasher: Hasher, A: P, message: seq<byte>, sig: seq<byte>)
  {
    && |sig| == 64
    && LittleEndian(sig[32..]) < N
    && match c.decode(sig[..32])
       case None => false
       case Some(R) =>
         BaseMul(c, LittleEndian(sig[32..])) == c.add(R, c.mul(A, Challenge(c, hasher, sig[..32], A, message)))
  }

  /** The group identity behind verification: with s = (hram·k + nonce) mod n,
      s·B == nonce·B + hram·(k·B). */
  lemma ResponseEquation<P>(c: Primitives<P>, k: nat, nonce: nat, hram: nat)
    requires CurveLaws(c)
    ensures BaseMul(c, Response(hram, k, nonce)) == c.add(BaseMul(c, nonce), c.mul(BaseMul(c, k), hram))
  {
    var kh := k * hram;
    assert c.mul(BaseMul(c, k), hram) == BaseMul(c, kh % N);
    assert c.add(BaseMul(c, nonce), BaseMul(c, kh % N)) == BaseMul(c, (nonce + kh % N) % N);
    ModAddMod(nonce, kh);
    assert nonce + kh == hram * k + nonce;
  }

  /** Every signature made with key k verifies against k·B, whatever the seed. */
  lemma SignatureVerifies<P>(c: Primitives<P>, hasher: Hasher, k: nat, message: seq<byte>, seed: seq<byte>)
    requires CurveLaws(c)
    requires k < TWO_256
    ensures Verify(c, hasher, BaseMul(c, k), message, SignWith(c, hasher, k, message, seed))
  {
    Pow256Of32();
    OrderBelowTwo256();
    var sig := SignWith(c, hasher, k, message, seed);
    var nonce := Nonce(hasher, k, message, seed);
    var R := BaseMul(c, nonce);
    var A := BaseMul(c, k);
    var hram := Challenge(c, hasher, c.encode(R), A, message);
    var s := Response(hram, k, nonce);
    assert sig == c.encode(R) + LittleEndianBytes(s, 32);
    assert sig[..32] == c.encode(R);
    assert sig[32..] == LittleEndianBytes(s, 32);
    assert c.decode(sig[..32]) == Some(R);
    ResponseEquation(c, k, nonce, hram);
  }

  /** SignatureVerifies for a public point that equals k·B whenever the curve laws hold. */
  lemma SignatureVerifiesAgainst<P>(c: Primitives<P>, hasher: Hasher, k: nat, pub: P, message: seq<byte>, seed: seq<byte>)
    requires k < TWO_256
    requires CurveLaws(c) ==> pub == BaseMul(c, k)
    ensures CurveLaws(c) ==> Verify(c, hasher, pub, message, SignWith(c, hasher, k, message, seed))
  {
    if CurveLaws(c) {
      SignatureVerifies(c, hasher, k, message, seed);
    }
  }

  /** With the default hasher, the signature verifies as a standard SHA-512 verifier checks it. */
  lemma SignatureVerifiesWithSha512<P>(c: Primitives<P>, k: nat, message: seq<byte>, seed: seq<byte>)
    requires CurveLaws(c)
    requires k < TWO_256
    ensures Verify(c, DefaultHasher(c), BaseMul(c, k), message, SignWith(c, DefaultHasher(c), k, message, seed))
  {
    SignatureVerifies(c, DefaultHasher(c), k, message, seed);
  }
}
