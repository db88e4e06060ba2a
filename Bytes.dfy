/** Byte strings and the fixed-width integer encodings the wallet uses:
    big- and little-endian unsigned integers (bigint-buffer's toBigIntBE,
    noble's bytesToNumberLE / numberToBytesLE), JavaScript's 32-bit shift
    semantics behind numberTo4BytesBE, and the hexadecimal text forms
    (ethers' toBeHex, noble's hexToNumber and toHex, Node's Buffer.from(s, "hex")). */
module Bytes {

  type byte = b: int | 0 <= b < 0x100

  type Bytes32 = s: seq<byte> | |s| == 32 witness seq(32, i => 0)
  type Bytes64 = s: seq<byte> | |s| == 64 witness seq(64, i => 0)

  datatype Option<+T> = None | Some(value: T)

  const TWO_32: nat := 0x1_0000_0000
  const TWO_256: nat := 0x1_0000_0000_0000_0000_0000_0000_0000_0000_0000_0000_0000_0000_0000_0000_0000_0000

  function Pow256(k: nat): (r: nat)
    ensures r > 0
  {
    if k == 0 then 1 else 256 * Pow256(k - 1)
  }

  lemma {:induction false} Pow256Add(a: nat, b: nat)
    ensures Pow256(a + b) == Pow256(a) * Pow256(b)
  {
    if a > 0 {
      Pow256Add(a - 1, b);
      assert Pow256(a + b) == 256 * Pow256(a - 1 + b);
    }
  }

  /** 256^32 is the literal 2^256 */
  lemma Pow256Of32()
    ensures Pow256(32) == TWO_256
  {
    assert Pow256(2) == 0x1_0000;
    Pow256Add(2, 2);
    assert Pow256(4) == 0x1_0000_0000;
    Pow256Add(4, 4);
    assert Pow256(8) == 0x1_0000_0000_0000_0000;
    Pow256Add(8, 8);
    assert Pow256(16) == 0x1_0000_0000_0000_0000_0000_0000_0000_0000;
    Pow256Add(16, 16);
  }

  // ---------------------------------------------------------------------------
  // Big-endian unsigned integers (toBigIntBE)

  function BigEndian(s: seq<byte>): nat
  {
    if s == [] then 0 else BigEndian(s[..|s| - 1]) * 256 + s[|s| - 1]
  }

  /** A big-endian value of k bytes is below 256^k. */
  lemma {:induction false} BigEndianBound(s: seq<byte>)
    ensures BigEndian(s) < Pow256(|s|)
  {
    if s != [] {
      BigEndianBound(s[..|s| - 1]);
      assert BigEndian(s[..|s| - 1]) + 1 <= Pow256(|s| - 1);
      assert BigEndian(s) < (BigEndian(s[..|s| - 1]) + 1) * 256;
    }
  }

  // ---------------------------------------------------------------------------
  // Little-endian unsigned integers (bytesToNumberLE, numberToBytesLE)

  function LittleEndian(s: seq<byte>): nat
  {
    if s == [] then 0 else s[0] + 256 * LittleEndian(s[1..])
  }

  /** numberToBytesLE(x, len): the len-byte little-endian form of x. The wallet
      calls it only with len 32 and values below n, which is below 2^256. */
  function LittleEndianBytes(x: nat, len: nat): (r: seq<byte>)
    requires x < Pow256(len)
    ensures |r| == len
    ensures LittleEndian(r) == x
  {
    if len == 0 then []
    else
      assert x / 256 < Pow256(len - 1);
      [x % 256] + LittleEndianBytes(x / 256, len - 1)
  }

  // ---------------------------------------------------------------------------
  // JavaScript number semantics used by numberTo4BytesBE

  /** ECMAScript ToInt32 on an integral number: wrap modulo 2^32 into [-2^31, 2^31). */
  function ToInt32(x: int): (r: int)
    ensures -0x8000_0000 <= r < 0x8000_0000
    ensures (r - x) % TWO_32 == 0
  {
    var m := x % TWO_32;
    if m >= 0x8000_0000 then m - TWO_32 else m
  }

  /** The Uint8Array / Buffer element conversion: keep the low 8 bits. */
  function ToUint8(x: int): byte
  {
    x % 256
  }

  /** Reference definition of BIP-32's ser32: the four base-256 digits of n, most significant first. */
  function Ser32(n: nat): (r: seq<byte>)
    requires n < TWO_32
  {
    [n / 0x100_0000, (n / 0x1_0000) % 256, (n / 0x100) % 256, n % 256]
  }

  lemma Ser32Value(n: nat)
    requires n < TWO_32
    ensures BigEndian(Ser32(n)) == n
  {
    var s := Ser32(n);
    assert s[..1][..0] == [];
    assert s[..2][..1] == s[..1];
    assert s[..3][..2] == s[..2];
    assert s[..4][..3] == s[..3];
    assert BigEndian(s[..1]) == n / 0x100_0000;
    assert n / 0x1_0000 == (n / 0x100_0000) * 256 + (n / 0x1_0000) % 256;
    assert BigEndian(s[..2]) == n / 0x1_0000;
    assert n / 0x100 == (n / 0x1_0000) * 256 + (n / 0x100) % 256;
    assert BigEndian(s[..3]) == n / 0x100;
    assert s[..4] == s;
  }

  /** ToInt32 moves the value by a multiple of 2^32, which a right shift by at most
      24 bits followed by the low-8-bit truncation cannot see. */
  lemma ShiftedByteIgnoresWrap(n: int, d: nat)
    requires d == 0x100_0000 || d == 0x1_0000 || d == 0x100
    ensures ToUint8(ToInt32(n) / d) == (n % TWO_32) / d % 256
  {
    var m := n % TWO_32;
    if ToInt32(n) != m {
      assert ToInt32(n) == m - TWO_32;
      assert TWO_32 == (TWO_32 / d) * d;
      assert (m - TWO_32) / d == m / d - TWO_32 / d;
      assert (TWO_32 / d) % 256 == 0;
    }
  }

  /** The low byte survives the reduction modulo 2^32. */
  lemma LowByteIgnoresWrap(n: int)
    ensures ToUint8(n) == (n % TWO_32) % 256
  {
    var q := n / TWO_32;
    assert n == q * TWO_32 + n % TWO_32;
    assert q * TWO_32 == (q * 0x100_0000) * 256;
  }

  /** numberTo4BytesBE: Buffer.from([n >> 24, n >> 16, n >> 8, n]). On an int32,
      `>> k` is floor division by 2^k, which is Dafny's `/` for a positive divisor.
      Whatever the integer, the four bytes are ser32 of its value modulo 2^32. */
  function NumberTo4BytesBE(n: int): (r: seq<byte>)
    ensures r == Ser32(n % TWO_32)
  {
    ShiftedByteIgnoresWrap(n, 0x100_0000);
    ShiftedByteIgnoresWrap(n, 0x1_0000);
    ShiftedByteIgnoresWrap(n, 0x100);
    LowByteIgnoresWrap(n);
    [ToUint8(ToInt32(n) / 0x100_0000), ToUint8(ToInt32(n) / 0x1_0000), ToUint8(ToInt32(n) / 0x100), ToUint8(n)]
  }

  /** For a 32-bit child index the encoder round-trips: its four bytes read big-endian give back the index. */
  lemma NumberTo4BytesRoundTrip(n: int)
    requires 0 <= n < TWO_32
    ensures |NumberTo4BytesBE(n)| == 4
    ensures NumberTo4BytesBE(n) == Ser32(n)
    ensures BigEndian(NumberTo4BytesBE(n)) == n
  {
    var encoded := NumberTo4BytesBE(n);
    assert n % TWO_32 == n;
    assert encoded == Ser32(n);
    Ser32Value(n);
  }

  // ---------------------------------------------------------------------------
  // Hexadecimal text

  function HexDigit(d: nat): (ch: char)
    requires d < 16
  {
    if d < 10 then ('0' as int + d) as char else ('a' as int + d - 10) as char
  }

  /** Value of one hex digit, either case; None for any other character. */
  function DigitValue(ch: char): (r: Option<nat>)
    ensures r.Some? ==> r.value < 16
  {
    if '0' <= ch <= '9' then Some(ch as int - '0' as int)
    else if 'a' <= ch <= 'f' then Some(ch as int - 'a' as int + 10)
    else if 'A' <= ch <= 'F' then Some(ch as int - 'A' as int + 10)
    else None
  }

  lemma DigitValueOfHexDigit(d: nat)
    requires d < 16
    ensures DigitValue(HexDigit(d)) == Some(d)
  {
  }

  /** BigInt's n.toString(16): lower-case digits, no leading zeros, "0" for zero. */
  function NatToHex(n: nat): (r: string)
    ensures |r| >= 1
  {
    if n < 16 then [HexDigit(n)] else NatToHex(n / 16) + [HexDigit(n % 16)]
  }

  /** ethers' toBeHex(n): "0x" followed by n's hex digits, left-padded with one "0" to an even count. */
  function ToBeHex(n: nat): (r: string)
  {
    var digits := NatToHex(n);
    "0x" + (if |digits| % 2 == 1 then "0" + digits else digits)
  }

  /** noble's hexToNumber(s), that is BigInt("0x" + s) with "" read as 0: the value
      of a string of hex digits, most significant first; None where a character is
      not a digit, which makes BigInt throw. */
  function HexToNumber(s: string): (r: Option<nat>)
  {
    if s == [] then Some(0)
    else
      match (HexToNumber(s[..|s| - 1]), DigitValue(s[|s| - 1]))
      case (Some(hi), Some(lo)) => Some(hi * 16 + lo)
      case _ => None
  }

  lemma {:induction false} HexToNumberOfNatToHex(n: nat)
    ensures HexToNumber(NatToHex(n)) == Some(n)
  {
    var s := NatToHex(n);
    if n < 16 {
      assert s[..0] == [];
    } else {
      HexToNumberOfNatToHex(n / 16);
      assert s[..|s| - 1] == NatToHex(n / 16);
    }
  }

  /** A leading "0" does not change the value of a digit string. */
  lemma {:induction false} HexToNumberLeadingZero(s: string)
    ensures HexToNumber("0" + s) == HexToNumber(s)
  {
    if s != [] {
      assert ("0" + s)[..|"0" + s| - 1] == "0" + s[..|s| - 1];
      HexToNumberLeadingZero(s[..|s| - 1]);
    }
  }

  /** hexToNumber(toBeHex(n).slice(2)) == n: the private-key text round-trips. */
  lemma ToBeHexRoundTrip(n: nat)
    ensures |ToBeHex(n)| >= 2 && ToBeHex(n)[..2] == "0x"
    ensures HexToNumber(ToBeHex(n)[2..]) == Some(n)
  {
    var digits := NatToHex(n);
    HexToNumberOfNatToHex(n);
    if |digits| % 2 == 1 {
      HexToNumberLeadingZero(digits);
      assert ToBeHex(n)[2..] == "0" + digits;
    } else {
      assert ToBeHex(n)[2..] == digits;
    }
  }

  /** noble's bytesToHex: two lower-case digits per byte. */
  function BytesToHex(b: seq<byte>): (r: string)
    ensures |r| == 2 * |b|
  {
    if b == [] then [] else [HexDigit(b[0] / 16), HexDigit(b[0] % 16)] + BytesToHex(b[1..])
  }

  /** Node's Buffer.from(s, "hex"): one byte per pair of digits, stopping at the
      first pair that is not two hex digits (a trailing odd digit is dropped). */
  function HexToBytes(s: string): (r: seq<byte>)
    ensures |r| <= |s| / 2
  {
    if |s| < 2 then []
    else
      match (DigitValue(s[0]), DigitValue(s[1]))
      case (Some(hi), Some(lo)) => [hi * 16 + lo] + HexToBytes(s[2..])
      case _ => []
  }

  /** Buffer.from(bytesToHex(b), "hex") == b. */
  lemma {:induction false} HexToBytesOfBytesToHex(b: seq<byte>)
    ensures HexToBytes(BytesToHex(b)) == b
  {
    if b != [] {
      var s := BytesToHex(b);
      DigitValueOfHexDigit(b[0] / 16);
      DigitValueOfHexDigit(b[0] % 16);
      assert s[2..] == BytesToHex(b[1..]);
      HexToBytesOfBytesToHex(b[1..]);
    }
  }
}
