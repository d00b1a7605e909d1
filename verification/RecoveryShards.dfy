/** The client's recovery shards: secret keys and shares as hexadecimal text.

    The client's `hexToBytes` never fails: `parseInt` on each pair of characters yields a number or NaN,
    NaN is stored as zero, and a last unpaired character is written past the end of the buffer and lost. */
module RecoveryShards {
  import opened ByteInts
  import opened HexText
  import opened Shamir
  import opened Wrappers

  datatype Shard = Shard(index: bv8, data: string)

  /** White space and line terminators, which `parseInt` skips at the front. */
  predicate IsJsSpace(c: char) {
    var n := c as int;
    || 0x9 <= n <= 0xd || n == 0x20 || n == 0xa0 || n == 0x1680 || 0x2000 <= n <= 0x200a
    || n == 0x2028 || n == 0x2029 || n == 0x202f || n == 0x205f || n == 0x3000 || n == 0xfeff
  }

  /** `parseInt(pair, 16)` on two characters, stored into an unsigned byte. */
  function ParsePair(first: char, second: char): bv8 {
    var a, b := DigitOf(first), DigitOf(second);
    if a >= 0 && b >= 0 then Join(a, b)
    else if a >= 0 then Join(0, a)
    else if b < 0 then 0
    else if IsJsSpace(first) || first == '+' then Join(0, b)
    else if first == '-' then ByteOf((256 - b) % 256)
    else 0
  }

  // ----- parseInt -----

  /** The characters from the first that is not white space on. */
  function Trimmed(s: string): string {
    if s != "" && IsJsSpace(s[0]) then Trimmed(s[1..]) else s
  }

  function Unsigned(s: string): string {
    if s != "" && s[0] in {'+', '-'} then s[1..] else s
  }

  function WithoutPrefix(s: string): string {
    if |s| >= 2 && s[0] == '0' && s[1] in {'x', 'X'} then s[2..] else s
  }

  /** The value of the digits at the front of the text; None when there is none. */
  function Leading(s: string, value: nat, some: bool): Option<nat> {
    if s != "" && DigitOf(s[0]) >= 0 then Leading(s[1..], 16 * value + DigitOf(s[0]), true)
    else if some then Some(value) else None
  }

  /** `parseInt(s, 16)` of ECMA-262, section 19.2.5; None is NaN. */
  function ParseInt(s: string): Option<int> {
    var trimmed := Trimmed(s);
    match Leading(WithoutPrefix(Unsigned(trimmed)), 0, false)
    case None => None
    case Some(n) =>
      Some(if trimmed != "" && trimmed[0] == '-' then Negated(n) else n)
  }

  function ByteOf(n: nat): bv8
    requires n < 256
  {
    n as bv8
  }

  /** Storing a number or NaN into an unsigned byte. */
  function ToUint8(n: Option<int>): bv8 {
    match n
    case None => 0
    case Some(i) => ByteOf(i % 256)
  }

  lemma LeadingOne(c: char, value: nat, some: bool)
    ensures Leading([c], value, some) ==
      if DigitOf(c) >= 0 then Some(16 * value + DigitOf(c)) else if some then Some(value) else None
    ensures Leading("", 0, false) == None
  {
    hide DigitOf;
    assert [c][1..] == "";
  }

  lemma LeadingTwo(first: char, second: char)
    ensures Leading([first, second], 0, false) ==
      if DigitOf(first) < 0 then None
      else if DigitOf(second) < 0 then Some(DigitOf(first))
      else Some(16 * DigitOf(first) + DigitOf(second))
  {
    hide DigitOf;
    assert [first, second][1..] == [second];
    if DigitOf(first) >= 0 {
      LeadingOne(second, DigitOf(first), true);
    }
  }

  lemma TrimmedOne(c: char)
    ensures Trimmed([c]) == if IsJsSpace(c) then "" else [c]
  {
    hide IsJsSpace;
    assert [c][1..] == "" && Trimmed("") == "";
  }

  lemma TrimmedTwo(first: char, second: char)
    ensures Trimmed([first, second]) ==
      if !IsJsSpace(first) then [first, second] else if !IsJsSpace(second) then [second] else ""
  {
    hide IsJsSpace;
    assert [first, second][1..] == [second];
    TrimmedOne(second);
  }

  lemma DigitsAreNoSpace(c: char)
    ensures DigitOf(c) >= 0 ==> !IsJsSpace(c) && c !in {'+', '-', 'x', 'X'}
    ensures IsJsSpace(c) ==> c !in {'+', '-', '0', 'x', 'X'}
    ensures DigitOf('0') == 0
  {}

  lemma StoredDigits(a: nat, b: nat)
    requires a < 16 && b < 16
    ensures ToUint8(Some(16 * a + b)) == Join(a, b) && ToUint8(Some(b)) == Join(0, b)
    ensures ToUint8(Some(Negated(b))) == ByteOf((256 - b) % 256)
  {
    hide ByteOf, Join;
    JoinIsByteOf(a, b);
    JoinIsByteOf(0, b);
    NegatedModulo(b);
  }

  lemma NegatedModulo(b: nat)
    requires b < 16
    ensures Negated(b) % 256 == (256 - b) % 256
  {}

  lemma JoinIsByteOf(a: nat, b: nat)
    requires a < 16 && b < 16
    ensures Join(a, b) == ByteOf(16 * a + b)
  {}

  function Negated(n: nat): int {
    0 - n
  }

  /** The number read from two characters, with its sign. */
  lemma ParseIntOfTwo(first: char, second: char)
    ensures var a, b := DigitOf(first), DigitOf(second);
      ParseInt([first, second]) ==
        if a >= 0 && b >= 0 then Some(16 * a + b)
        else if a >= 0 then (if first == '0' && second in {'x', 'X'} then None else Some(a))
        else if b < 0 then None
        else if IsJsSpace(first) || first == '+' then Some(b)
        else if first == '-' then Some(Negated(b))
        else None
  {
    TrimmedTwo(first, second);
    LeadingTwo(first, second);
    LeadingOne(first, 0, false);
    LeadingOne(second, 0, false);
    DigitsAreNoSpace(first);
    DigitsAreNoSpace(second);
    var s := [first, second];
    assert s[1..] == [second] && s[2..] == "" && [second][1..] == "";
    hide DigitOf, IsJsSpace, Leading, Trimmed;
  }

  /** On two characters, the byte stored is what `parseInt` gives, modulo 256. */
  lemma ParsePairIsParseInt(first: char, second: char)
    ensures ParsePair(first, second) == ToUint8(ParseInt([first, second]))
  {
    ParseIntOfTwo(first, second);
    DigitsAreNoSpace(first);
    DigitsAreNoSpace(second);
    var a, b := DigitOf(first), DigitOf(second);
    assert ToUint8(None) == 0;
    hide ParseInt, ToUint8, DigitOf, IsJsSpace, Join;
    if a >= 0 && b >= 0 {
      StoredDigits(a, b);
    } else if a >= 0 {
      StoredDigits(0, a);
      JoinZero();
    } else if b >= 0 {
      StoredDigits(0, b);
    }
  }

  lemma JoinZero()
    ensures Join(0, 0) == 0
  {}

  function ParseHex(hex: string): (bytes: Bytes)
    ensures |bytes| == |hex| / 2
  {
    seq(|hex| / 2, i requires 0 <= i < |hex| / 2 => ParsePair(hex[2 * i], hex[2 * i + 1]))
  }

  method HexToBytes(hex: string) returns (bytes: Bytes)
    ensures bytes == ParseHex(hex)
  {
    hide ParsePair;
    var buffer := new bv8[|hex| / 2];
    var i := 0;
    while i < |hex|
      invariant 0 <= i <= |hex| + 1 && i % 2 == 0
      invariant forall k :: 0 <= k < i / 2 && k < buffer.Length ==> buffer[k] == ParsePair(hex[2 * k], hex[2 * k + 1])
    {
      if i / 2 < buffer.Length {
        buffer[i / 2] := ParsePair(hex[i], hex[i + 1]);
      }
      i := i + 2;
    }
    bytes := buffer[..];
    assert bytes == ParseHex(hex);
  }

  lemma ParseIsDecode(hex: string)
    requires |hex| % 2 == 0 && IsHex(hex)
    ensures Decode(hex) == Ok(ParseHex(hex))
  {
    hide Join;
    assert Decode(hex).value == ParseHex(hex);
  }

  /** `bytesToHex` after `hexToBytes`, and the other way round. */
  lemma HexRoundTrips(bytes: Bytes, hex: string)
    ensures ParseHex(Encode(bytes)) == bytes
    ensures Encode(ParseHex(hex)) == hex <==> |hex| % 2 == 0 && IsLowerHex(hex)
    ensures |hex| % 2 == 0 && IsHex(hex) ==> Encode(ParseHex(hex)) == ToLower(hex)
  {
    hide Encode, ParsePair, ParseHex, Decode, DigitOf, ToLower;
    DecodeEncode(bytes);
    EncodeIsLowerHex(bytes);
    ParseIsDecode(Encode(bytes));
    EncodeIsLowerHex(ParseHex(hex));
    if IsLowerHex(hex) {
      LowerHexIsHex(hex);
    }
    if |hex| % 2 == 0 && IsHex(hex) {
      ParseIsDecode(hex);
      EncodeDecode(hex);
      LowerIsFixed(hex);
    }
  }

  lemma LowerHexIsHex(s: string)
    requires IsLowerHex(s)
    ensures IsHex(s)
  {}

  // ----- secret keys -----

  function ToShard(share: Share): Shard {
    Shard(share.index, Encode(share.data))
  }

  function ToShare(shard: Shard): Share {
    Share(shard.index, ParseHex(shard.data))
  }

  function SplitSecretKey(skHex: string, totalShards: int, threshold: int, random: seq<Bytes>)
    : Result<seq<Shard>, ShamirError>
    requires |random| == |skHex| / 2
  {
    match SplitSpec(ParseHex(skHex), totalShards, threshold, random)
    case Err(e) => Err(e)
    case Ok(shares) => Ok(seq(|shares|, i requires 0 <= i < |shares| => ToShard(shares[i])))
  }

  lemma SplitSecretKeyExactly(skHex: string, totalShards: int, threshold: int, random: seq<Bytes>)
    requires |random| == |skHex| / 2
    ensures SplitSecretKey(skHex, totalShards, threshold, random).Ok? <==> 2 <= threshold <= totalShards <= 255
  {}

  function ToShares(shards: seq<Shard>): (shares: seq<Share>)
    ensures |shares| == |shards|
  {
    seq(|shards|, i requires 0 <= i < |shards| => ToShare(shards[i]))
  }

  ghost function ReconstructSecretKey(shards: seq<Shard>): Result<string, ShamirError> {
    match ReconstructSpec(ToShares(shards))
    case Err(e) => Err(e)
    case Ok(bytes) => Ok(Encode(bytes))
  }

  lemma ShardRoundTrip(share: Share)
    ensures ToShare(ToShard(share)) == share
  {
    HexRoundTrips(share.data, "");
  }

  /** Any `threshold` shards of one key with distinct indices recover the bytes the key was read as, and
      recover the key's own text exactly when that text is even-length lower-case hexadecimal. */
  lemma AnyThresholdRecoversKey(
    skHex: string, totalShards: int, threshold: int, random: seq<Bytes>, picked: seq<Shard>)
    requires 2 <= threshold <= totalShards <= 255
    requires RandomRows(random, |skHex| / 2, threshold)
    requires forall p :: 0 <= p < |picked| ==> picked[p] in SplitSecretKey(skHex, totalShards, threshold, random).value
    requires |picked| >= threshold
    requires forall i, j :: 0 <= i < j < |picked| ==> picked[i].index != picked[j].index
    ensures var recovered := ReconstructSecretKey(picked);
      && recovered.Ok?
      && (recovered.value == skHex <==> |skHex| % 2 == 0 && IsLowerHex(skHex))
      && (|skHex| % 2 == 0 && IsHex(skHex) ==> recovered.value == ToLower(skHex))
  {
    hide ParseHex, Encode, ShareFor;
    var secret := ParseHex(skHex);
    var shares := ToShares(picked);
    var all := SplitSpec(secret, totalShards, threshold, random).value;
    forall p | 0 <= p < |picked|
      ensures shares[p] in all && shares[p].index == picked[p].index
    {
      var i :| 0 <= i < |all| && picked[p] == ToShard(all[i]);
      ShardRoundTrip(all[i]);
    }
    hide SplitSpec;
    AnyThresholdRecovers(secret, totalShards, threshold, random, shares);
    HexRoundTrips([], skHex);
  }
}
