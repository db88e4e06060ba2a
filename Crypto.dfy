/** The library code the wallet calls into and which is not modelled itself:
    bs58check decoding, HMAC-SHA512 and SHA-512 (node crypto / WebCrypto), and
    noble's Ed25519 point arithmetic and point encoding. They are gathered in
    one value of type Primitives<P>, where P is the type of curve points; the
    algebra the wallet relies on is the hypothesis CurveLaws. */
module Crypto {
  import opened Bytes

  /** Order of the Ed25519 base point, noble's CURVE.n: 2^252 + 27742317777372353535851937790883648493. */
  const N: nat := 0x1000_0000_0000_0000_0000_0000_0000_0000_14de_f9de_a2f7_9cd6_5812_631a_5cf5_d3ed

  datatype Primitives<!P> = Primitives(
    base58CheckDecode: string -> Option<seq<byte>>,     // bs58check.decode; None where it throws
    hmacSha512: (seq<byte>, seq<byte>) -> Bytes64,      // createHmac("sha512", key).update(data).digest()
    sha512: seq<byte> -> Bytes64,                       // crypto.subtle.digest("SHA-512", data)
    base: P,                                            // ExtendedPoint.BASE
    mul: (P, nat) -> P,                                 // p.mul(k)
    add: (P, P) -> P,                                   // p.add(q)
    encode: P -> Bytes32,                               // p.toRawBytes(), the 32-byte point encoding
    decode: seq<byte> -> Option<P>                      // point decoding, as a verifier uses it
  )

  /** k·B */
  function BaseMul<P>(c: Primitives<P>, k: nat): P
  {
    c.mul(c.base, k)
  }

  /** flatten (ExtendedPoint.fromAffine(p.toAffine())) only normalises the
      projective representation; on abstract points it is the identity. */
  function Flatten<P>(p: P): P
  {
    p
  }

  /** The facts about the prime-order group generated by B that the wallet's
      correctness rests on: multiples of B add as their scalars do modulo n,
      scaling a multiple of B multiplies the scalars, and decoding inverts the
      encoding of a multiple of B. */
  ghost predicate CurveLaws<P>(c: Primitives<P>)
  {
    && (forall a: nat, b: nat :: c.add(c.mul(c.base, a), c.mul(c.base, b)) == c.mul(c.base, (a + b) % N))
    && (forall a: nat, b: nat :: c.mul(c.mul(c.base, a), b) == c.mul(c.base, (a * b) % N))
    && (forall a: nat :: c.decode(c.encode(c.mul(c.base, a))) == Some(c.mul(c.base, a)))
  }

  lemma OrderBelowTwo256()
    ensures 0 < N < TWO_256
  {
  }

  /** Reducing one summand modulo n first does not change a sum modulo n. */
  lemma ModAddMod(a: nat, b: nat)
    ensures (a + b % N) % N == (a + b) % N
  {
    var q := b / N;
    assert b == q * N + b % N;
    assert a + b == (a + b % N) + q * N;
  }
}
