/** Elements of the BN254 scalar field and their 32-byte big-endian form. */
module ScalarField {
  import opened ByteInts
  import opened HexText
  import opened Wrappers

  const MODULUS: nat := 21888242871839275222246405745257275088548364400416034343698204186575808495617

  type Fr = n: nat | n < MODULUS

  function Pow256(n: nat): (p: nat)
    ensures p >= 1
  {
    if n == 0 then 1 else 256 * Pow256(n - 1)
  }

  function BigEndian(bytes: Bytes): nat {
    if bytes == [] then 0 else 256 * BigEndian(bytes[..|bytes| - 1]) + bytes[|bytes| - 1] as int
  }

  function ToBigEndian(n: nat, length: nat): (bytes: Bytes)
    ensures |bytes| == length
  {
    if length == 0 then [] else ToBigEndian(n / 256, length - 1) + [(n % 256) as bv8]
  }

  function FromBytesModOrder(bytes: Bytes): Fr {
    BigEndian(bytes) % MODULUS
  }

  function ToBytes(x: Fr): (bytes: Bytes)
    ensures |bytes| == 32
  {
    ToBigEndian(x, 32)
  }

  /** `hex::encode(x.into_bigint().to_bytes_be())` */
  function ToHex(x: Fr): (s: string)
    ensures |s| == 64
  {
    Encode(ToBytes(x))
  }

  lemma {:induction false} BigEndianBound(bytes: Bytes)
    ensures BigEndian(bytes) < Pow256(|bytes|)
  {
    if bytes != [] {
      BigEndianBound(bytes[..|bytes| - 1]);
      ByteRoundTrip(bytes[|bytes| - 1]);
    }
  }

  /** A length-n byte string is the only one with its value. */
  lemma {:induction false} ToBigEndianOfBigEndian(bytes: Bytes)
    ensures ToBigEndian(BigEndian(bytes), |bytes|) == bytes
  {
    if bytes != [] {
      var n := |bytes| - 1;
      var v, last := BigEndian(bytes[..n]), bytes[n];
      assert BigEndian(bytes) == 256 * v + last as int;
      hide BigEndian;
      ToBigEndianOfBigEndian(bytes[..n]);
      ByteDigit(v, last);
      assert bytes == bytes[..n] + [last];
    }
  }

  lemma ByteDigit(v: nat, last: bv8)
    ensures 0 <= 256 * v + last as int
    ensures (256 * v + last as int) / 256 == v && ((256 * v + last as int) % 256) as bv8 == last
  {
    ByteRoundTrip(last);
    DivMod256(v, last as int);
  }

  lemma DivMod256(v: nat, d: nat)
    requires d < 256
    ensures (256 * v + d) / 256 == v && (256 * v + d) % 256 == d
  {}

  lemma LastByte(n: nat)
    ensures (n % 256) as bv8 as int == n % 256
  {
    hide *;
    IntRoundTrip(n % 256);
  }

  lemma {:induction false} BigEndianOfToBigEndian(n: nat, length: nat)
    requires n < Pow256(length)
    ensures BigEndian(ToBigEndian(n, length)) == n
  {
    if length > 0 {
      var bytes := ToBigEndian(n, length);
      assert bytes[length - 1] as int == n % 256 by {
        LastByte(n);
      }
      assert bytes[..length - 1] == ToBigEndian(n / 256, length - 1);
      assert n / 256 < Pow256(length - 1);
      hide ToBigEndian, Pow256;
      BigEndianOfToBigEndian(n / 256, length - 1);
    }
  }

  // ----- what the texts denote -----

  /** The modulus in the usual hexadecimal notation. */
  lemma ModulusInHex()
    ensures MODULUS == 0x30644e72e131a029b85045b68181585d2833e84879b9709143e1f593f0000001
  {}

  /** The value of hexadecimal text, read digit by digit from the left. */
  function HexValue(s: string): nat
    requires IsHex(s)
  {
    if s == "" then 0 else 16 * HexValue(s[..|s| - 1]) + DigitOf(s[|s| - 1])
  }

  lemma {:induction false} EncodeAppend(bytes: Bytes, b: bv8)
    ensures Encode(bytes + [b]) == Encode(bytes) + [HexChar(High(b)), HexChar(Low(b))]
  {
    hide High, Low, HexChar;
    if bytes == [] {
      assert Encode([]) == [];
      assert ([b])[1..] == [];
    } else {
      assert (bytes + [b])[1..] == bytes[1..] + [b];
      EncodeAppend(bytes[1..], b);
    }
  }

  lemma HexValueAppend(s: string, high: char, low: char)
    requires IsHex(s) && DigitOf(high) >= 0 && DigitOf(low) >= 0
    ensures IsHex(s + [high, low])
    ensures HexValue(s + [high, low]) == 256 * HexValue(s) + 16 * DigitOf(high) + DigitOf(low)
  {
    hide DigitOf;
    var t := s + [high, low];
    assert t[..|t| - 1] == s + [high];
    assert (s + [high])[..|s|] == s;
  }

  /** Encoding keeps the value: the text read as a number in base 16 is the bytes read big-endian. */
  lemma {:induction false} EncodeKeepsValue(bytes: Bytes)
    ensures IsHex(Encode(bytes)) && HexValue(Encode(bytes)) == BigEndian(bytes)
  {
    hide High, Low, HexChar, DigitOf, IsHex;
    EncodeIsLowerHex(bytes);
    if bytes != [] {
      var n := |bytes| - 1;
      EncodeKeepsValue(bytes[..n]);
      EncodeAppend(bytes[..n], bytes[n]);
      assert bytes == bytes[..n] + [bytes[n]];
      DigitOfHexChar(High(bytes[n]));
      DigitOfHexChar(Low(bytes[n]));
      hide Encode;
      HexValueAppend(Encode(bytes[..n]), HexChar(High(bytes[n])), HexChar(Low(bytes[n])));
      Nibbles(bytes[n]);
    }
  }

  lemma Nibbles(b: bv8)
    ensures 16 * High(b) + Low(b) == b as int
  {
    ByteRoundTrip(b);
    assert b as int == 16 * (b as int / 16) + b as int % 16;
  }

  lemma DecodedValue(s: string)
    requires Decode(s).Ok?
    ensures IsHex(s) && HexValue(s) == BigEndian(Decode(s).value)
  {
    EncodeDecode(s);
    EncodeKeepsValue(Decode(s).value);
    LowerValue(s);
    hide Decode, HexValue, BigEndian, Encode, ToLower;
  }

  lemma {:induction false} LowerValue(s: string)
    requires IsHex(s)
    ensures IsHex(ToLower(s)) && HexValue(ToLower(s)) == HexValue(s)
  {
    if s != "" {
      LowerValue(s[..|s| - 1]);
      assert ToLower(s)[..|s| - 1] == ToLower(s[..|s| - 1]);
    }
  }

  /** A field element's text denotes it, and reading any text reduces its value. */
  lemma ToHexValue(x: Fr)
    ensures IsLowerHex(ToHex(x)) && IsHex(ToHex(x)) && HexValue(ToHex(x)) == x
  {
    EncodeIsLowerHex(ToBytes(x));
    EncodeKeepsValue(ToBytes(x));
    BytesRoundTrip(x);
  }

  function ZeroBytes(n: nat): (bytes: Bytes)
    ensures |bytes| == n
  {
    seq(n, _ => 0)
  }

  lemma {:induction false} LeadingZeros(n: nat, bytes: Bytes)
    ensures BigEndian(ZeroBytes(n) + bytes) == BigEndian(bytes)
    decreases n + |bytes|
  {
    var padded := ZeroBytes(n) + bytes;
    if bytes != [] {
      LeadingZeros(n, bytes[..|bytes| - 1]);
      assert padded[..|padded| - 1] == ZeroBytes(n) + bytes[..|bytes| - 1];
    } else if n > 0 {
      LeadingZeros(n - 1, []);
      assert padded[..n - 1] == ZeroBytes(n - 1) + [];
    }
  }

  lemma ModulusFits()
    ensures MODULUS < Pow256(32)
  {
    assert Pow256(8) == 0x1_0000_0000_0000_0000;
    hide Pow256;
    PowAdd256(8, 8);
    PowAdd256(16, 16);
  }

  lemma {:induction false} PowAdd256(m: nat, n: nat)
    ensures Pow256(m + n) == Pow256(m) * Pow256(n)
  {
    if m > 0 {
      PowAdd256(m - 1, n);
    }
  }

  lemma BytesRoundTrip(x: Fr)
    ensures BigEndian(ToBytes(x)) == x && FromBytesModOrder(ToBytes(x)) == x
  {
    hide BigEndian, ToBigEndian, Pow256;
    ModulusFits();
    BigEndianOfToBigEndian(x, 32);
  }

  lemma ToBytesUnfold(x: Fr)
    ensures ToBytes(x) == ToBigEndian(x, 32)
  {
    hide ToBigEndian;
  }

  lemma ReducedExactly(bytes: Bytes)
    ensures FromBytesModOrder(bytes) == BigEndian(bytes) <==> BigEndian(bytes) < MODULUS
  {
    hide BigEndian;
  }

  lemma HexRoundTrip(x: Fr)
    ensures Decode(ToHex(x)) == Ok(ToBytes(x))
    ensures FromBytesModOrder(Decode(ToHex(x)).value) == x
  {
    hide Encode, Decode, ToBytes, FromBytesModOrder;
    DecodeEncode(ToBytes(x));
    BytesRoundTrip(x);
  }

  lemma ToHexInjective(x: Fr, y: Fr)
    requires ToHex(x) == ToHex(y)
    ensures x == y
  {
    HexRoundTrip(x);
    HexRoundTrip(y);
  }
}
