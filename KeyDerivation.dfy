/** Decoding of the fprv extended key and the additive, non-hardened child-key
    derivation that walks a derivation path (EdDSAWallet.derive and its helpers). */
module KeyDerivation {
  import opened Bytes
  import opened Crypto
  import opened Errors

  /** Length of a decoded extended key, the BIP-32 serialization size. */
  const EXTENDED_KEY_LENGTH: nat := 78

  /** What the wallet reads out of a decoded extended key. */
  datatype ExtendedKey = ExtendedKey(chainCode: seq<byte>, prv: nat)

  /** One level of the derivation: public point, private scalar, chain code. */
  datatype KeyLevel<P> = KeyLevel(pub: P, prv: nat, chainCode: seq<byte>)

  /** The public half of a level, all that a public-only derivation needs. */
  datatype PublicLevel<P> = PublicLevel(pub: P, chainCode: seq<byte>)

  /** The key pair of a level agrees: its public point is its private scalar times B. */
  ghost predicate Consistent<P>(c: Primitives<P>, k: KeyLevel<P>)
  {
    k.pub == BaseMul(c, k.prv)
  }

  // ---------------------------------------------------------------------------
  // Extended-key layout

  /** The fixed-offset fields of a decoded key: chain code at bytes [13, 45),
      private scalar big-endian at [46, 78); the header [0, 13) and byte 45 are not read. */
  function DecodeExtendedKey(payload: seq<byte>): (r: Result<ExtendedKey>)
    ensures r.Failure? <==> |payload| != EXTENDED_KEY_LENGTH
    ensures r.Failure? ==> r.error == InvalidExtendedKey
    ensures r.Success? ==> |r.value.chainCode| == 32 && r.value.chainCode == payload[13..45]
    ensures r.Success? ==> r.value.prv == BigEndian(payload[46..78]) && r.value.prv < TWO_256
  {
    if |payload| != EXTENDED_KEY_LENGTH then Failure(InvalidExtendedKey)
    else
      BigEndianBound(payload[46..78]);
      Pow256Of32();
      Success(ExtendedKey(payload[13..45], BigEndian(payload[46..78])))
  }

  /** Two payloads that differ only in the header and in byte 45 decode alike. */
  lemma DecodeIgnoresHeaderAndByte45(a: seq<byte>, b: seq<byte>)
    requires |a| == |b|
    requires forall i :: 13 <= i < |a| && i != 45 ==> a[i] == b[i]
    ensures DecodeExtendedKey(a) == DecodeExtendedKey(b)
  {
    if |a| == EXTENDED_KEY_LENGTH {
      assert a[13..45] == b[13..45];
      assert a[46..78] == b[46..78];
    }
  }

  // ---------------------------------------------------------------------------
  // One derivation level

  /** The bytes hashForDerive feeds to the HMAC: for a 32-bit index, the hex
      round-trip of the point encoding and numberTo4BytesBE leave BIP-32's
      enc(pub) ++ 0x00 ++ ser32(idx). */
  lemma HashInputLayout(encoded: seq<byte>, idx: int)
    ensures 0 <= idx < TWO_32 ==>
              HexToBytes(BytesToHex(encoded)) + [0x00] + NumberTo4BytesBE(idx) == encoded + [0x00] + Ser32(idx)
  {
    if 0 <= idx < TWO_32 {
      var decoded := HexToBytes(BytesToHex(encoded));
      var indexBytes := NumberTo4BytesBE(idx);
      HexToBytesOfBytesToHex(encoded);
      assert decoded == encoded;
      assert idx % TWO_32 == idx;
      assert indexBytes == Ser32(idx);
    }
  }

  /** hashForDerive: HMAC-SHA512 keyed by the chain code over
      Buffer.from(pub.toHex(), "hex") ++ [0x00] ++ numberTo4BytesBE(idx). For a
      32-bit index that input is BIP-32's enc(pub) ++ 0x00 ++ ser32(idx). */
  function HashForDerive<P>(c: Primitives<P>, pub: P, chainCode: seq<byte>, idx: int): (r: Bytes64)
    ensures 0 <= idx < TWO_32 ==> r == c.hmacSha512(chainCode, c.encode(pub) + [0x00] + Ser32(idx))
  {
    HashInputLayout(c.encode(pub), idx);
    c.hmacSha512(chainCode, HexToBytes(BytesToHex(c.encode(pub))) + [0x00] + NumberTo4BytesBE(idx))
  }

  /** The tweak a level adds: the first half of the digest, read big-endian. */
  function Tweak(digest: Bytes64): (exp: nat)
    ensures exp < TWO_256
  {
    BigEndianBound(digest[..32]);
    Pow256Of32();
    BigEndian(digest[..32])
  }

  /** deriveNextKeyLevel: add exp·B to the public point and exp to the private
      scalar modulo n; the second half of the digest is the new chain code. */
  function DeriveNextKeyLevel<P>(c: Primitives<P>, k: KeyLevel<P>, idx: int): (r: KeyLevel<P>)
    ensures r.prv < N
    ensures |r.chainCode| == 32
  {
    var hash := HashForDerive(c, k.pub, k.chainCode, idx);
    var exp := Tweak(hash);
    var tmpPoint := Flatten(BaseMul(c, exp % N));
    KeyLevel(Flatten(c.add(k.pub, tmpPoint)), (k.prv + exp) % N, hash[32..])
  }

  /** For a 32-bit index one level is the additive child of BIP-32's
      "private parent key to private child key", with I = HMAC-SHA512(c_par,
      enc(pub) ++ 0x00 ++ ser32(i)): the scalar gains I[0..32) read big-endian,
      modulo n, the point gains the same multiple of B, and the chain code is I[32..64). */
  lemma ChildKeyFormula<P>(c: Primitives<P>, k: KeyLevel<P>, idx: int)
    requires 0 <= idx < TWO_32
    ensures var digest := c.hmacSha512(k.chainCode, c.encode(k.pub) + [0x00] + Ser32(idx));
            var r := DeriveNextKeyLevel(c, k, idx);
            && r.prv == (k.prv + BigEndian(digest[..32])) % N
            && r.pub == c.add(k.pub, BaseMul(c, BigEndian(digest[..32]) % N))
            && r.chainCode == digest[32..64]
  {
  }

  /** A level computed from a consistent level is consistent. */
  lemma StepPreservesConsistency<P>(c: Primitives<P>, k: KeyLevel<P>, idx: int)
    requires CurveLaws(c)
    requires Consistent(c, k)
    ensures Consistent(c, DeriveNextKeyLevel(c, k, idx))
  {
    var r := DeriveNextKeyLevel(c, k, idx);
    var hash := HashForDerive(c, k.pub, k.chainCode, idx);
    var exp := Tweak(hash);
    assert r.pub == c.add(k.pub, BaseMul(c, exp % N)) && r.prv == (k.prv + exp) % N;
    assert c.add(BaseMul(c, k.prv), BaseMul(c, exp % N)) == BaseMul(c, (k.prv + exp % N) % N);
    ModAddMod(k.prv, exp);
  }

  /** The public half of deriveNextKeyLevel, which never reads the private scalar. */
  function DerivePublicStep<P>(c: Primitives<P>, l: PublicLevel<P>, idx: int): (r: PublicLevel<P>)
    ensures |r.chainCode| == 32
  {
    var hash := HashForDerive(c, l.pub, l.chainCode, idx);
    PublicLevel(Flatten(c.add(l.pub, Flatten(BaseMul(c, Tweak(hash) % N)))), hash[32..])
  }

  // ---------------------------------------------------------------------------
  // The fold over the path

  /** derivationPath.reduce(deriveNextKeyLevel, initial): a left fold, first index first. */
  function DeriveAlong<P>(c: Primitives<P>, k: KeyLevel<P>, path: seq<int>): (r: KeyLevel<P>)
    ensures path != [] ==> r.prv < N && |r.chainCode| == 32
    decreases |path|
  {
    if path == [] then k else DeriveAlong(c, DeriveNextKeyLevel(c, k, path[0]), path[1..])
  }

  function DerivePublicAlong<P>(c: Primitives<P>, l: PublicLevel<P>, path: seq<int>): PublicLevel<P>
    decreases |path|
  {
    if path == [] then l else DerivePublicAlong(c, DerivePublicStep(c, l, path[0]), path[1..])
  }

  /** Deriving along p ++ q is deriving along p, then along q from there. */
  lemma {:induction false} DeriveAlongAppend<P>(c: Primitives<P>, k: KeyLevel<P>, p: seq<int>, q: seq<int>)
    ensures DeriveAlong(c, k, p + q) == DeriveAlong(c, DeriveAlong(c, k, p), q)
    decreases |p|
  {
    if p != [] {
      assert (p + q)[0] == p[0];
      assert (p + q)[1..] == p[1..] + q;
      DeriveAlongAppend(c, DeriveNextKeyLevel(c, k, p[0]), p[1..], q);
    } else {
      assert p + q == q;
    }
  }

  /** The last index of a path is one more level on top of the rest. */
  lemma DeriveAlongSnoc<P>(c: Primitives<P>, k: KeyLevel<P>, p: seq<int>, i: int)
    ensures DeriveAlong(c, k, p + [i]) == DeriveNextKeyLevel(c, DeriveAlong(c, k, p), i)
  {
    DeriveAlongAppend(c, k, p, [i]);
    assert [i][1..] == [];
  }

  /** Key consistency holds at every level of the fold. */
  lemma {:induction false} DeriveAlongPreservesConsistency<P>(c: Primitives<P>, k: KeyLevel<P>, path: seq<int>)
    requires CurveLaws(c)
    requires Consistent(c, k)
    ensures Consistent(c, DeriveAlong(c, k, path))
    decreases |path|
  {
    if path != [] {
      StepPreservesConsistency(c, k, path[0]);
      DeriveAlongPreservesConsistency(c, DeriveNextKeyLevel(c, k, path[0]), path[1..]);
    }
  }

  /** Non-hardened derivation: the public point and chain code of every level
      follow from the parent's public point and chain code alone. */
  lemma {:induction false} PublicDerivationAgrees<P>(c: Primitives<P>, k: KeyLevel<P>, path: seq<int>)
    ensures DerivePublicAlong(c, PublicLevel(k.pub, k.chainCode), path)
            == PublicLevel(DeriveAlong(c, k, path).pub, DeriveAlong(c, k, path).chainCode)
    decreases |path|
  {
    if path != [] {
      var next := DeriveNextKeyLevel(c, k, path[0]);
      assert DerivePublicStep(c, PublicLevel(k.pub, k.chainCode), path[0]) == PublicLevel(next.pub, next.chainCode);
      PublicDerivationAgrees(c, next, path[1..]);
    }
  }

  // ---------------------------------------------------------------------------
  // derive

  /** The level before the first index: prv·B, flattened, with the decoded chain code. */
  function InitialKeyLevel<P>(c: Primitives<P>, ek: ExtendedKey): (k: KeyLevel<P>)
    ensures Consistent(c, k) && k.prv == ek.prv && k.chainCode == ek.chainCode
  {
    KeyLevel(Flatten(BaseMul(c, ek.prv)), ek.prv, ek.chainCode)
  }

  /** derive up to the fold: bs58check-decode, check the length, slice, walk the path. */
  function DeriveKeys<P>(c: Primitives<P>, extendedKey: string, path: seq<int>): (r: Result<KeyLevel<P>>)
    ensures c.base58CheckDecode(extendedKey).None? ==> r == Failure(InvalidChecksum)
    ensures c.base58CheckDecode(extendedKey).Some? ==>
              (r.Failure? <==> |c.base58CheckDecode(extendedKey).value| != EXTENDED_KEY_LENGTH)
    ensures c.base58CheckDecode(extendedKey).Some? && |c.base58CheckDecode(extendedKey).value| != EXTENDED_KEY_LENGTH ==>
              r == Failure(InvalidExtendedKey)
    ensures r.Failure? ==> r.error != MissingPrefix && r.error != MissingPrivateKey
    ensures r.Success? && path != [] ==> r.value.prv < N && |r.value.chainCode| == 32
    ensures r.Success? && CurveLaws(c) ==> Consistent(c, r.value)
  {
    match c.base58CheckDecode(extendedKey)
    case None => Failure(InvalidChecksum)
    case Some(payload) =>
      match DecodeExtendedKey(payload)
      case Failure(e) => Failure(e)
      case Success(ek) =>
        var initial := InitialKeyLevel(c, ek);
        assert CurveLaws(c) ==> Consistent(c, DeriveAlong(c, initial, path)) by {
          if CurveLaws(c) { DeriveAlongPreservesConsistency(c, initial, path); }
        }
        Success(DeriveAlong(c, initial, path))
  }

  /** What derive returns: the public key as "0x" + toHex(), the private key as
      toBeHex(prv), or undefined when prv is 0 (a falsy bigint). */
  datatype WalletKeys = WalletKeys(publicKey: string, privateKey: Option<string>)

  function FormatKeys<P>(c: Primitives<P>, k: KeyLevel<P>): (r: WalletKeys)
    ensures |r.publicKey| == 66 && r.publicKey[..2] == "0x"
    ensures HexToBytes(r.publicKey[2..]) == c.encode(k.pub)
    ensures r.privateKey.None? <==> k.prv == 0
    ensures r.privateKey.Some? ==>
              |r.privateKey.value| >= 2 && HexToNumber(r.privateKey.value[2..]) == Some(k.prv)
  {
    var publicKey := "0x" + BytesToHex(c.encode(k.pub));
    assert publicKey[2..] == BytesToHex(c.encode(k.pub));
    HexToBytesOfBytesToHex(c.encode(k.pub));
    ToBeHexRoundTrip(k.prv);
    WalletKeys(publicKey, if k.prv != 0 then Some(ToBeHex(k.prv)) else None)
  }

  /** derive: the key pair in the wallet's text form, or the error that aborts construction. */
  function Derive<P>(c: Primitives<P>, extendedKey: string, path: seq<int>): (r: Result<WalletKeys>)
    ensures r.Failure? <==> DeriveKeys(c, extendedKey, path).Failure?
    ensures r.Failure? ==> r.error == DeriveKeys(c, extendedKey, path).error
    ensures r.Success? ==> r.value == FormatKeys(c, DeriveKeys(c, extendedKey, path).value)
  {
    match DeriveKeys(c, extendedKey, path)
    case Failure(e) => Failure(e)
    case Success(k) => Success(FormatKeys(c, k))
  }
}
