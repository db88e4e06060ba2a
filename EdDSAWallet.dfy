/** The EdDSAWallet class: built once from an fprv string and an asset, it holds
    the derived key pair in text form and signs messages with it. */
module Wallet {
  import opened Bytes
  import opened Crypto
  import opened Errors
  import opened SupportedAssets
  import opened KeyDerivation
  import opened Signing

  const FPRV_PREFIX: string := "fprv"

  /** String.prototype.startsWith */
  predicate StartsWith(s: string, prefix: string)
  {
    |prefix| <= |s| && s[..|prefix|] == prefix
  }

  /** What construction computes: the prefix check comes first, so a key without
      "fprv" is refused whatever the decoder and the curve would do with it. */
  function ConstructKeys<P>(c: Primitives<P>, fprv: string, asset: Asset): (r: Result<KeyLevel<P>>)
    ensures !StartsWith(fprv, FPRV_PREFIX) ==> r == Failure(MissingPrefix)
    ensures StartsWith(fprv, FPRV_PREFIX) ==> r == DeriveKeys(c, fprv, DerivationPath(asset))
    ensures r.Success? ==> r.value.prv < N && |r.value.chainCode| == 32
    ensures r.Success? && CurveLaws(c) ==> Consistent(c, r.value)
  {
    if !StartsWith(fprv, FPRV_PREFIX) then Failure(MissingPrefix)
    else DeriveKeys(c, fprv, DerivationPath(asset))
  }

  /** The body of sign once the private scalar is known: nonce from the seed,
      the key and the message; R = nonce·B; hram over enc(R) ++ enc(A) ++ message;
      s = (hram·k + nonce) mod n; the signature enc(R) ++ LE32(s). The steps keep
      the order of the source and are proved equal to `SignWith`. They sit in a
      method of their own, apart from `Sign`, so that each proof stays within
      the verifier's resource limit. */
  method SignBytes<P>(lib: Primitives<P>, privateKeyInt: nat, message: seq<byte>, seed: seq<byte>, hasher: Hasher)
    returns (signature: seq<byte>)
    requires privateKeyInt < TWO_256
    ensures signature == SignWith(lib, hasher, privateKeyInt, message, seed)
  {
    Pow256Of32();
    OrderBelowTwo256();
    var privateKeyBytes := LittleEndianBytes(privateKeyInt, 32);

    var nonceDigest := hasher(seed, privateKeyBytes, message);
    var nonce := LittleEndian(nonceDigest) % N;

    var R := BaseMul(lib, nonce);
    var A := BaseMul(lib, privateKeyInt);
    var serializedR := lib.encode(R);
    var serializedA := lib.encode(A);

    var hramDigest := hasher(serializedR, serializedA, message);
    var hram := LittleEndian(hramDigest) % N;

    var s := (hram * privateKeyInt + nonce) % N;
    assert s == Response(hram, privateKeyInt, nonce);
    SignWithSteps(lib, hasher, privateKeyInt, message, seed, nonce, hram, s);
    signature := serializedR + LittleEndianBytes(s, 32);
  }

  class EdDSAWallet<P> {
    const lib: Primitives<P>
    var privateKey: Option<string>
    var publicKey: string
    /** The last level of the derivation, which the two text fields spell out. */
    ghost var keys: KeyLevel<P>

    ghost predicate Valid()
      reads this
    {
      && keys.prv < N
      && WalletKeys(publicKey, privateKey) == FormatKeys(lib, keys)
      && (CurveLaws(lib) ==> Consistent(lib, keys))
    }

    /** The field assignments of the TypeScript constructor, once derive has returned. */
    constructor (lib: Primitives<P>, derived: WalletKeys, ghost level: KeyLevel<P>)
      requires derived == FormatKeys(lib, level)
      requires level.prv < N
      requires CurveLaws(lib) ==> Consistent(lib, level)
      ensures Valid()
      ensures this.lib == lib && keys == level
      ensures privateKey == derived.privateKey && publicKey == derived.publicKey
    {
      this.lib := lib;
      privateKey := derived.privateKey;
      publicKey := derived.publicKey;
      keys := level;
    }

    /** new EdDSAWallet(fprv, asset): the prefix check, the table lookup, derive,
      then the fields; any exception surfaces as a Failure and no wallet exists. */
    static method Create(fprv: string, asset: Asset, lib: Primitives<P>) returns (r: Result<EdDSAWallet<P>>)
      ensures !StartsWith(fprv, FPRV_PREFIX) ==> r == Failure(MissingPrefix)
      ensures r.Failure? <==> ConstructKeys(lib, fprv, asset).Failure?
      ensures r.Failure? ==> r.error == ConstructKeys(lib, fprv, asset).error
      ensures r.Success? ==> fresh(r.value) && r.value.Valid() && r.value.lib == lib
      ensures r.Success? ==> ConstructKeys(lib, fprv, asset) == Success(r.value.keys)
    {
      if !StartsWith(fprv, FPRV_PREFIX) {
        return Failure(MissingPrefix);
      }
      var derivationPath := DerivationPath(asset);
      var derived := Derive(lib, fprv, derivationPath);
      if derived.Failure? {
        return Failure(derived.error);
      }
      var wallet := new EdDSAWallet(lib, derived.value, DeriveKeys(lib, fprv, derivationPath).value);
      return Success(wallet);
    }

    /** sign: refuse without a private key (the scalar 0 leaves none), otherwise
      read the key back from its hex text and produce enc(R) ++ LE32(s). */
    method Sign(message: seq<byte>, seed: Bytes32, hasher: Hasher) returns (r: Result<seq<byte>>)
      requires Valid()
      ensures r.Failure? <==> keys.prv == 0
      ensures r.Failure? ==> r.error == MissingPrivateKey
      ensures r.Success? ==> r.value == SignWith(lib, hasher, keys.prv, message, seed)
      ensures r.Success? && CurveLaws(lib) ==> Verify(lib, hasher, keys.pub, message, r.value)
    {
      if privateKey.None? || privateKey.value == "" {
        return Failure(MissingPrivateKey);
      }
      assert HexToNumber(privateKey.value[2..]) == Some(keys.prv);
      var privateKeyInt := HexToNumber(privateKey.value[2..]).value;
      OrderBelowTwo256();
      var signature := SignBytes(lib, privateKeyInt, message, seed, hasher);
      SignatureVerifiesAgainst(lib, hasher, privateKeyInt, keys.pub, message, seed);
      return Success(signature);
    }
  }
}
