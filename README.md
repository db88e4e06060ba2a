# EdDSA wallet key derivation and signing, modelled in Dafny

This project models the key engine of an Ed25519 wallet. The wallet takes a
serialized extended private key (an `fprv...` string) and an asset name. It
decodes the key and walks the asset's five-level derivation path with an
additive, non-hardened child-key scheme. It then keeps the resulting key pair
as text and signs byte strings with a randomized-nonce EdDSA signature.

Modules, one per component:

- `Bytes` (Bytes.dfy): byte strings and their encodings. This covers
  big-endian and little-endian integers and JavaScript's ToInt32/`>>`
  behaviour behind `numberTo4BytesBE`. It also covers the hex text forms
  (`toBeHex`, `hexToNumber`, `bytesToHex`, `Buffer.from(s, "hex")`).
- `Crypto` (Crypto.dfy): the library code the wallet calls but that is not
  modelled. This is bs58check decoding, HMAC-SHA512, SHA-512 and noble's
  Ed25519 points. They are fields of one `Primitives<P>` value over an
  abstract point type `P`. The group facts the proofs need form the
  hypothesis `CurveLaws`:
  - `a·B + b·B == ((a+b) mod n)·B`;
  - `b·(a·B) == (a·b mod n)·B`;
  - decoding inverts the encoding of multiples of B.

  `flatten` is the identity on abstract points.
- `Errors` (Errors.dfy): the four exceptions the wallet throws, as a `Result`.
- `SupportedAssets` (SupportedAssets.dfy): the constant asset-to-path table.
- `KeyDerivation` (KeyDerivation.dfy): the 78-byte key layout, `hashForDerive`,
  `deriveNextKeyLevel`, the `reduce` fold over the path, and `derive` with its
  text output.
- `Signing` (Signing.dfy): `sign` as a function of the private scalar, message
  and seed, plus the verification equation of section 5.1.7 of RFC 8032.
- `Wallet` (EdDSAWallet.dfy): the `EdDSAWallet` class. Its fields
  `privateKey` and `publicKey` are set once, when the wallet is built, and
  `Sign` reads them. A ghost field `keys` holds the last derived level, and
  `Valid()` ties the two text fields to it.

The main results:

- Every derived level keeps `pub == prv·B`.
- The public half of derivation never needs the private scalar.
- Derivation along `p ++ q` is derivation along `p` followed by `q`.
- Every signature the wallet returns verifies against its derived public
  point, whatever the random seed. The check is `s·B == R + hram·A`.

Points about the code the model follows:

- There is no unknown-asset error. `Asset` admits only the three table keys,
  so `DerivationPath` is total.
- The table's doc comment (src/wallets/SupportedAssets.ts:2-3) says paths are
  "always 0,0,0". The table holds `[44, 501, 8, 0, 0]` for `SOL` and
  `SOL_TEST`, and `[44, 501, 0, 0, 1]` for `SOL_STAKING`. The model follows
  the table.
- The code reduces the tweak `exp` modulo n only before multiplying it with B.
  The private scalar gets `(prv + exp) mod n` with the full 256-bit `exp`.
  Both give the same scalar modulo n, and `StepPreservesConsistency` relies on
  that.

## Model

| member | source | states |
|---|---|---|
| `Bytes.NumberTo4BytesRoundTrip` | src/wallets/EdDSAWallet.ts:58-59 | for 0 <= idx < 2^32 the four bytes are BIP-32's ser32(idx) and read big-endian give idx back |
| `Bytes.NumberTo4BytesBE` | src/wallets/EdDSAWallet.ts:58-59 | for any integer n, the low 8 bits of ToInt32(n)>>24, >>16, >>8 and of n are ser32 of n modulo 2^32: the int32 wrap and the Buffer truncation lose nothing else |
| `Bytes.BigEndianBound` | src/wallets/EdDSAWallet.ts:104 | a big-endian value of k bytes lies below 256^k, so the private scalar and the tweak are below 2^256 |
| `Bytes.LittleEndianBytes` | src/wallets/EdDSAWallet.ts:162 | numberToBytesLE(x, len) has len bytes and reads back little-endian as x, for x below 256^len |
| `Bytes.ToBeHexRoundTrip` | src/wallets/EdDSAWallet.ts:141 | toBeHex(k) starts with "0x" and hexToNumber of the rest is k, so sign reads back the derived scalar |
| `Bytes.HexToBytesOfBytesToHex` | src/wallets/EdDSAWallet.ts:90 | Buffer.from(toHex(p), "hex") is the raw point encoding again |
| `SupportedAssets.DerivationPath` | src/wallets/SupportedAssets.ts:16-20 | every asset has a path of exactly 5 entries, each below 2^32, starting 44, 501 |
| `SupportedAssets.SolAndSolTestShareAPath` | src/wallets/SupportedAssets.ts:17-18 | SOL and SOL_TEST map to the same path [44, 501, 8, 0, 0] |
| `SupportedAssets.StakingDiffersAtLevels2And4` | src/wallets/SupportedAssets.ts:18-19 | SOL_STAKING maps to [44, 501, 0, 0, 1] and differs from SOL at levels 2 and 4 and nowhere else |
| `KeyDerivation.DecodeExtendedKey` | src/wallets/EdDSAWallet.ts:119-125 | fails exactly when the payload is not 78 bytes; otherwise the chain code is bytes [13,45) and the scalar is bytes [46,78) read big-endian, below 2^256 |
| `KeyDerivation.DecodeIgnoresHeaderAndByte45` | src/wallets/EdDSAWallet.ts:123-125 | payloads that differ only in the 13-byte header or byte 45 decode to the same key |
| `KeyDerivation.HashForDerive` | src/wallets/EdDSAWallet.ts:84-94 | HMAC-SHA512 keyed by the chain code over Buffer.from(toHex(pub), "hex") ++ [0x00] ++ numberTo4BytesBE(idx); for a 32-bit index that input is enc(pub) ++ 0x00 ++ ser32(idx) |
| `KeyDerivation.HashInputLayout` | src/wallets/EdDSAWallet.ts:90-92 | for a 32-bit index, the hex round-trip of the point encoding plus 0x00 plus numberTo4BytesBE(idx) is exactly enc(pub) ++ 0x00 ++ ser32(idx) |
| `KeyDerivation.Tweak` | src/wallets/EdDSAWallet.ts:104 | the tweak read from the first 32 digest bytes is below 2^256 |
| `KeyDerivation.DeriveNextKeyLevel` | src/wallets/EdDSAWallet.ts:96-109 | a derived level has a private scalar in [0, n) and a 32-byte chain code |
| `KeyDerivation.ChildKeyFormula` | src/wallets/EdDSAWallet.ts:102-108 | for a 32-bit index, with I = HMAC-SHA512(chain code, enc(pub) ++ 0x00 ++ ser32(idx)): new scalar is (prv + BE(I[0..32))) mod n, new point is pub + (BE(I[0..32)) mod n)·B, new chain code is I[32..64) |
| `KeyDerivation.StepPreservesConsistency` | src/wallets/EdDSAWallet.ts:102-108 | under the curve laws, if pub == prv·B before a level then it holds after it |
| `KeyDerivation.PublicDerivationAgrees` | src/wallets/EdDSAWallet.ts:102-107 | public point and chain code of every level follow from the parent's public point and chain code alone (non-hardened derivation) |
| `KeyDerivation.DeriveAlong` | src/wallets/EdDSAWallet.ts:132-138 | after a non-empty path the scalar is in [0, n) and the chain code is 32 bytes |
| `KeyDerivation.DeriveAlongAppend` | src/wallets/EdDSAWallet.ts:132-138 | the fold over p ++ q is the fold over q started from the result of p |
| `KeyDerivation.DeriveAlongSnoc` | src/wallets/EdDSAWallet.ts:132-138 | deriving along p ++ [i] is one deriveNextKeyLevel with index i on the result for p |
| `KeyDerivation.DeriveAlongPreservesConsistency` | src/wallets/EdDSAWallet.ts:132-138 | under the curve laws, pub == prv·B holds at the end of the fold when it holds at the start |
| `KeyDerivation.InitialKeyLevel` | src/wallets/EdDSAWallet.ts:128-130 | the starting level is consistent: its point is prv·B, with the decoded scalar and chain code |
| `KeyDerivation.DeriveKeys` | src/wallets/EdDSAWallet.ts:116-138 | a failed base58check decode or a payload that is not 78 bytes is an error with no key material (InvalidChecksum and InvalidExtendedKey respectively); otherwise, for a non-empty path, the final level has scalar below n and a 32-byte chain code, and for every path, under the curve laws, pub == prv·B |
| `KeyDerivation.FormatKeys` | src/wallets/EdDSAWallet.ts:140-143 | publicKey is "0x" plus 64 hex digits that decode to the point encoding; privateKey is absent exactly when the scalar is 0, and otherwise its hex reads back as the scalar |
| `KeyDerivation.Derive` | src/wallets/EdDSAWallet.ts:116-144 | fails exactly when the key derivation fails, with the same error; otherwise returns the text form of the derived level |
| `Signing.Nonce` | src/wallets/EdDSAWallet.ts:167-170 | the nonce is below n |
| `Signing.Challenge` | src/wallets/EdDSAWallet.ts:178-179 | hram is below n |
| `Signing.SignWith` | src/wallets/EdDSAWallet.ts:161-184 | the signature is 64 bytes: enc(nonce·B) followed by a little-endian s below n |
| `Signing.Response` | src/wallets/EdDSAWallet.ts:181 | s is the residue below n (hence below 2^256, so it fits 32 bytes) congruent to hram·k + nonce modulo n |
| `Signing.ResponseEquation` | src/wallets/EdDSAWallet.ts:181 | under the curve laws, ((hram·k + nonce) mod n)·B == nonce·B + hram·(k·B) |
| `Signing.SignatureVerifies` | src/wallets/EdDSAWallet.ts:167-182 | under the curve laws, every signature with key k passes verification (section 5.1.7 of RFC 8032, without the cofactor) against k·B, for every seed and hasher |
| `Signing.DefaultHasher` | src/wallets/EdDSAWallet.ts:27-33 | the default hasher is SHA-512 of the concatenated arguments, so only the concatenation matters, not where the arguments split |
| `Signing.SignatureVerifiesWithSha512` | src/wallets/EdDSAWallet.ts:155 | under the curve laws, a signature made with the default hasher (SHA-512 of the concatenated arguments) passes standard verification against k·B |
| `Wallet.ConstructKeys` | src/wallets/EdDSAWallet.ts:73-79 | a key string without the "fprv" prefix is refused before any decoding, whatever the primitives; otherwise derivation runs along the asset's table path |
| `Wallet.SignBytes` | src/wallets/EdDSAWallet.ts:162-184 | the step-by-step computation of nonce, R, A, hram, s and the 64 output bytes yields exactly the signature `Signing.SignWith` specifies for that scalar, message and seed |
| `Wallet.EdDSAWallet.constructor` | src/wallets/EdDSAWallet.ts:80-81 | the two fields take derive's output and the wallet invariant holds |
| `Wallet.EdDSAWallet.Create` | src/wallets/EdDSAWallet.ts:73-82 | construction fails exactly when the prefix check or derive fails, with that error; otherwise a fresh valid wallet holds the derived level |
| `Wallet.EdDSAWallet.Sign` | src/wallets/EdDSAWallet.ts:153-185 | fails with the missing-private-key error exactly when the derived scalar is 0; otherwise returns the signature of that scalar, which verifies against the wallet's public point under the curve laws |

## Left out

- src/wallets/SolanaWallet.ts and src/index.ts are not part of this model. They
  cover transaction building, RPC calls and the interactive prompt.
- SHA-512, HMAC-SHA512, base58check checksum checking, and Ed25519 point
  arithmetic and encoding are library code. They are fields of
  `Crypto.Primitives`, not definitions. Their algebra is the hypothesis
  `Crypto.CurveLaws`, which the consistency and verification lemmas assume.
- `Crypto.Flatten` is the identity. The change of point representation it
  performs is invisible on abstract points.
- `randomBytes`, and its choice between `getRandomValues` and node's
  `randomBytes`, is replaced by the `seed` parameter of `Sign`. That two calls
  give different signatures is a probabilistic claim and is not stated.
- The `async`/`Promise` plumbing of `sha512` and `sign` is left out. The
  hasher is a plain function of the three byte strings `sign` passes it.
- `Wallet.EdDSAWallet.Sign` takes the message as bytes only. Turning a string
  message into UTF-8 bytes with `Buffer.from` is not modelled.
- `KeyDerivation.InitialKeyLevel`: noble's `mul` throws on a scalar that is 0
  or not below n. The model does not throw there, so a decoded scalar of 0 or
  at least n is accepted.
- `KeyDerivation.DeriveNextKeyLevel`: a tweak that is 0 modulo n would make
  noble's `mul` throw. The model does not throw.
- `Wallet.EdDSAWallet.Sign`: noble's `mul` would throw on a nonce of 0, which
  has probability about 1/n. The model does not throw.
- `Signing.Verify` leaves out the cofactor 8 of section 5.1.7 of RFC 8032. The
  point decoding it uses is the abstract `decode`, known only to invert the
  encoding of multiples of B.
- Determinism of derivation in (key, path) holds by construction, because
  `DeriveKeys` is a function. It has no lemma of its own.
