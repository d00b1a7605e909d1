/** Hexadecimal text: the encoder shared by the client and the server, the server's strict decoder, and
    their round trips. */
module HexText {
  import opened ByteInts
  import opened Wrappers

  datatype HexError = InvalidHex

  function HexChar(n: nat): char
    requires n < 16
  {
    "0123456789abcdef"[n]
  }

  /** The value of a hexadecimal digit of either case; -1 for any other character. */
  function DigitOf(c: char): (d: int)
    ensures -1 <= d < 16
  {
    if '0' <= c <= '9' then c as int - '0' as int
    else if 'a' <= c <= 'f' then c as int - 'a' as int + 10
    else if 'A' <= c <= 'F' then c as int - 'A' as int + 10
    else -1
  }

  predicate IsHex(s: string) {
    forall i :: 0 <= i < |s| ==> DigitOf(s[i]) >= 0
  }

  predicate IsLowerHex(s: string) {
    forall i :: 0 <= i < |s| ==> '0' <= s[i] <= '9' || 'a' <= s[i] <= 'f'
  }

  function LowerChar(c: char): char {
    if 'A' <= c <= 'Z' then c - 'A' + 'a' else c
  }

  /** ASCII lower-casing. */
  function ToLower(s: string): (t: string)
    ensures |t| == |s|
  {
    seq(|s|, i requires 0 <= i < |s| => LowerChar(s[i]))
  }

  function High(b: bv8): (n: nat)
    ensures n < 16
  {
    b as int / 16
  }

  function Low(b: bv8): (n: nat)
    ensures n < 16
  {
    b as int % 16
  }

  function Join(high: nat, low: nat): bv8
    requires high < 16 && low < 16
  {
    (16 * high + low) as bv8
  }

  lemma JoinSplit(b: bv8)
    ensures Join(High(b), Low(b)) == b
  {
    ByteRoundTrip(b);
    var n := b as int;
    assert 16 * (n / 16) + n % 16 == n;
  }

  lemma SplitJoin(high: nat, low: nat)
    requires high < 16 && low < 16
    ensures High(Join(high, low)) == high && Low(Join(high, low)) == low
  {
    IntRoundTrip(16 * high + low);
  }

  function Encode(bytes: Bytes): (s: string)
    ensures |s| == 2 * |bytes|
  {
    if bytes == [] then [] else [HexChar(High(bytes[0])), HexChar(Low(bytes[0]))] + Encode(bytes[1..])
  }

  /** The strict decoder: an odd length or a non-digit is an error, and both cases are accepted. */
  function Decode(s: string): Result<Bytes, HexError> {
    if |s| % 2 == 0 && IsHex(s)
    then Ok(seq(|s| / 2, i requires 0 <= i < |s| / 2 => Join(DigitOf(s[2 * i]), DigitOf(s[2 * i + 1]))))
    else Err(InvalidHex)
  }

  lemma DigitOfHexChar(n: nat)
    requires n < 16
    ensures DigitOf(HexChar(n)) == n
    ensures '0' <= HexChar(n) <= '9' || 'a' <= HexChar(n) <= 'f'
  {}

  /** The digits, in the order of their values. */
  lemma DigitsExactly(n: nat, c: char)
    requires n < 16
    ensures DigitOf("0123456789abcdef"[n]) == n && DigitOf("0123456789ABCDEF"[n]) == n
    ensures DigitOf(c) == -1 <==> !('0' <= c <= '9') && !('a' <= c <= 'f') && !('A' <= c <= 'F')
  {}

  lemma HexCharOfDigit(c: char)
    requires DigitOf(c) >= 0
    ensures HexChar(DigitOf(c)) == LowerChar(c)
  {}

  lemma {:induction false} EncodeAt(bytes: Bytes, i: nat)
    requires i < |bytes|
    ensures Encode(bytes)[2 * i] == HexChar(High(bytes[i]))
    ensures Encode(bytes)[2 * i + 1] == HexChar(Low(bytes[i]))
  {
    hide High, Low, HexChar;
    if i > 0 {
      EncodeAt(bytes[1..], i - 1);
    }
  }

  lemma EncodeIsLowerHex(bytes: Bytes)
    ensures IsLowerHex(Encode(bytes)) && IsHex(Encode(bytes))
  {
    hide High, Low, HexChar, Encode;
    var s := Encode(bytes);
    forall k | 0 <= k < |s|
      ensures DigitOf(s[k]) >= 0
      ensures '0' <= s[k] <= '9' || 'a' <= s[k] <= 'f'
    {
      var i := k / 2;
      assert k == 2 * i || k == 2 * i + 1;
      EncodeAt(bytes, i);
      DigitOfHexChar(High(bytes[i]));
      DigitOfHexChar(Low(bytes[i]));
    }
  }

  lemma DecodeEncode(bytes: Bytes)
    ensures Decode(Encode(bytes)) == Ok(bytes)
  {
    hide High, Low, HexChar, DigitOf, Encode, Join, IsHex;
    var s := Encode(bytes);
    EncodeIsLowerHex(bytes);
    var back := Decode(s).value;
    forall i | 0 <= i < |bytes|
      ensures back[i] == bytes[i]
    {
      EncodeAt(bytes, i);
      DigitOfHexChar(High(bytes[i]));
      DigitOfHexChar(Low(bytes[i]));
      JoinSplit(bytes[i]);
    }
    assert back == bytes;
  }

  /** Decoding and encoding again lower-cases the text and changes nothing else. */
  lemma EncodeDecode(s: string)
    requires Decode(s).Ok?
    ensures Encode(Decode(s).value) == ToLower(s)
  {
    hide High, Low, HexChar, DigitOf, Encode, Join, LowerChar;
    var bytes := Decode(s).value;
    var text := Encode(bytes);
    forall k | 0 <= k < |s|
      ensures text[k] == ToLower(s)[k]
    {
      var i := k / 2;
      assert k == 2 * i || k == 2 * i + 1;
      EncodeAt(bytes, i);
      SplitJoin(DigitOf(s[2 * i]), DigitOf(s[2 * i + 1]));
      HexCharOfDigit(s[k]);
    }
  }

  /** Hexadecimal text is its own lower-casing exactly when it has no upper-case digit. */
  lemma LowerIsFixed(s: string)
    requires IsHex(s)
    ensures IsLowerHex(s) <==> ToLower(s) == s
  {
    if !IsLowerHex(s) {
      var i :| 0 <= i < |s| && !('0' <= s[i] <= '9' || 'a' <= s[i] <= 'f');
      assert DigitOf(s[i]) >= 0;
      assert ToLower(s)[i] != s[i];
    }
  }
}
