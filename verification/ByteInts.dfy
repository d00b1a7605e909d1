/** Bytes as bit-vectors and as the integers 0..255. */
module ByteInts {
  type Bytes = seq<bv8>

  lemma ByteRoundTrip(b: bv8)
    ensures 0 <= b as int < 256 && b as int as bv8 == b
  {}

  lemma ByteSuccessor(b: bv8)
    requires b < 255
    ensures (b + 1) as int == b as int + 1
  {}

  lemma {:induction false} ByteFor(n: nat) returns (b: bv8)
    requires n < 256
    ensures b as int == n
  {
    b := 0;
    if n > 0 {
      var before := ByteFor(n - 1);
      ByteBelow(before);
      ByteSuccessor(before);
      b := before + 1;
    }
  }

  lemma ByteBelow(b: bv8)
    ensures b as int < 255 ==> b < 255
  {}

  lemma IntRoundTrip(n: nat)
    requires n < 256
    ensures n as bv8 as int == n
  {
    var b := ByteFor(n);
    ByteRoundTrip(b);
  }
}
