/** Shamir's secret sharing as the client does it: one random polynomial per secret byte, shares are its
    values at 1..n, reconstruction is Lagrange interpolation at 0. */
module Shamir {
  import opened ByteInts
  import opened GaloisField
  import opened Polynomials
  import opened Wrappers

  datatype Share = Share(index: bv8, data: Bytes)

  datatype ShamirError =
    | ThresholdBelowTwo
    | FewerShardsThanThreshold
    | TooManyShards
    | NeedTwoShares
    | CannotInvertZero

  // ----- splitting -----

  /** What the random generator supplies: threshold - 1 bytes for every byte of the secret. */
  ghost predicate RandomRows(random: seq<Bytes>, length: nat, threshold: int) {
    && |random| == length
    && forall b :: 0 <= b < length ==> |random[b]| == threshold - 1
  }

  function Coefficients(secret: Bytes, random: seq<Bytes>, b: nat): (c: Poly)
    requires b < |secret| == |random|
    ensures c != []
  {
    [secret[b]] + random[b]
  }

  function ShareFor(secret: Bytes, random: seq<Bytes>, index: bv8): Share
    requires |random| == |secret|
  {
    Share(index, seq(|secret|, b requires 0 <= b < |secret| => Eval(Coefficients(secret, random, b), index)))
  }

  /** Shares are numbered from 1. */
  function ShareIndex(i: nat): bv8
    requires i < 255
  {
    (i + 1) as bv8
  }

  function SplitSpec(secret: Bytes, totalShards: int, threshold: int, random: seq<Bytes>)
    : Result<seq<Share>, ShamirError>
    requires |random| == |secret|
  {
    if threshold < 2 then Err(ThresholdBelowTwo)
    else if totalShards < threshold then Err(FewerShardsThanThreshold)
    else if totalShards > 255 then Err(TooManyShards)
    else Ok(seq(totalShards, i requires 0 <= i < totalShards => ShareFor(secret, random, ShareIndex(i))))
  }

  method PolyEval(coefficients: Poly, x: bv8) returns (result: bv8)
    ensures result == Eval(coefficients, x)
  {
    hide Mul, Add;
    result := 0;
    var xPow: bv8 := 1;
    MulOneLeft(Eval(coefficients, x));
    AddZero(Eval(coefficients, x));
    assert coefficients[0..] == coefficients;
    for i := 0 to |coefficients|
      invariant Add(result, Mul(xPow, Eval(coefficients[i..], x))) == Eval(coefficients, x)
    {
      var coeff, rest := coefficients[i], Eval(coefficients[i + 1..], x);
      assert coefficients[i..][1..] == coefficients[i + 1..];
      MulAddRight(xPow, coeff, Mul(x, rest));
      MulComm(xPow, coeff);
      MulAssoc(xPow, x, rest);
      AddAssoc(result, Mul(coeff, xPow), Mul(Mul(xPow, x), rest));
      var term := GfMul(coeff, xPow);
      result := Xor(result, term);
      xPow := GfMul(xPow, x);
    }
    MulZero(xPow);
    AddZero(result);
  }

  /** The exclusive or of two bytes is the field's addition. */
  method Xor(a: bv8, b: bv8) returns (c: bv8)
    ensures c == Add(a, b)
  {
    c := a ^ b;
  }

  /** The byte of share i (index i + 1) at one position of the secret. */
  function ShareByte(secret: Bytes, random: seq<Bytes>, i: nat, b: nat): bv8
    requires i < 255 && b < |secret| == |random|
  {
    Eval(Coefficients(secret, random, b), ShareIndex(i))
  }

  ghost predicate Filled(data: array2<bv8>, secret: Bytes, random: seq<Bytes>, columns: nat)
    requires |random| == |secret| == data.Length1 && columns <= |secret| && data.Length0 <= 255
    reads data
  {
    forall i, b :: 0 <= i < data.Length0 && 0 <= b < columns ==> data[i, b] == ShareByte(secret, random, i, b)
  }

  /** One byte of the secret: evaluates its polynomial for every share. */
  method FillColumn(data: array2<bv8>, secret: Bytes, random: seq<Bytes>, byteIdx: nat)
    requires data.Length0 <= 255 && byteIdx < |secret| == |random| == data.Length1
    requires Filled(data, secret, random, byteIdx)
    modifies data
    ensures Filled(data, secret, random, byteIdx + 1)
  {
    hide Eval, ShareIndex;
    var coefficients := [secret[byteIdx]] + random[byteIdx];
    for i := 0 to data.Length0
      invariant Filled(data, secret, random, byteIdx)
      invariant forall i' :: 0 <= i' < i ==> data[i', byteIdx] == ShareByte(secret, random, i', byteIdx)
    {
      var value := PolyEval(coefficients, ShareIndex(i));
      assert value == ShareByte(secret, random, i, byteIdx);
      hide ShareByte;
      data[i, byteIdx] := value;
    }
  }

  method ReadShares(data: array2<bv8>, secret: Bytes, random: seq<Bytes>) returns (shares: seq<Share>)
    requires data.Length0 <= 255 && |secret| == |random| == data.Length1
    requires Filled(data, secret, random, |secret|)
    ensures |shares| == data.Length0
    ensures forall i :: 0 <= i < |shares| ==> shares[i] == ShareFor(secret, random, ShareIndex(i))
  {
    hide Eval, ShareIndex;
    shares := [];
    for i := 0 to data.Length0
      invariant |shares| == i
      invariant forall i' :: 0 <= i' < i ==> shares[i'] == ShareFor(secret, random, ShareIndex(i'))
    {
      var row := seq(|secret|, b requires 0 <= b < |secret| reads data => data[i, b]);
      assert row == ShareFor(secret, random, ShareIndex(i)).data;
      hide ShareFor;
      shares := shares + [Share(ShareIndex(i), row)];
    }
  }

  method Split(secret: Bytes, totalShards: int, threshold: int, random: seq<Bytes>)
    returns (r: Result<seq<Share>, ShamirError>)
    requires |random| == |secret| && (threshold >= 2 ==> RandomRows(random, |secret|, threshold))
    ensures r.Ok? <==> 2 <= threshold <= totalShards <= 255
    ensures r == Err(ThresholdBelowTwo) <==> threshold < 2
    ensures r == Err(FewerShardsThanThreshold) <==> 2 <= threshold && totalShards < threshold
    ensures r == Err(TooManyShards) <==> 2 <= threshold <= totalShards && 255 < totalShards
    ensures r.Ok? ==> |r.value| == totalShards && forall i :: 0 <= i < totalShards ==>
      r.value[i].index as int == i + 1 && HasValues(r.value[i], secret, random)
    ensures r == SplitSpec(secret, totalShards, threshold, random)
  {
    if threshold < 2 {
      return Err(ThresholdBelowTwo);
    }
    if totalShards < threshold {
      return Err(FewerShardsThanThreshold);
    }
    if totalShards > 255 {
      return Err(TooManyShards);
    }
    hide Eval, ShareIndex;
    var data := new bv8[totalShards, |secret|];
    for byteIdx := 0 to |secret|
      invariant Filled(data, secret, random, byteIdx)
    {
      FillColumn(data, secret, random, byteIdx);
    }
    var shares := ReadShares(data, secret, random);
    r := Ok(shares);
    hide ShareFor, Filled;
    assert shares == SplitSpec(secret, totalShards, threshold, random).value;
    SplitValues(secret, totalShards, threshold, random);
  }

  /** Byte b of the share is the value of the polynomial with constant term secret[b] and the random bytes of
      row b as further coefficients. */
  ghost predicate HasValues(share: Share, secret: Bytes, random: seq<Bytes>)
    requires |random| == |secret|
  {
    && |share.data| == |secret|
    && forall b :: 0 <= b < |secret| ==> share.data[b] == Eval([secret[b]] + random[b], share.index)
  }

  lemma SplitValues(secret: Bytes, totalShards: int, threshold: int, random: seq<Bytes>)
    requires |random| == |secret| && 2 <= threshold <= totalShards <= 255
    ensures var shares := SplitSpec(secret, totalShards, threshold, random).value;
      |shares| == totalShards && forall i :: 0 <= i < totalShards ==>
        shares[i].index as int == i + 1 && HasValues(shares[i], secret, random)
  {
    SplitIndices(secret, totalShards, threshold, random);
    hide Eval, ShareIndex;
  }

  // ----- reconstruction -----

  /** A missing byte of a short share counts as zero in the source's arithmetic. */
  function ByteAt(share: Share, b: nat): bv8 {
    if b < |share.data| then share.data[b] else 0
  }

  function Indices(shares: seq<Share>): (xs: seq<bv8>)
    ensures |xs| == |shares|
  {
    seq(|shares|, i requires 0 <= i < |shares| => shares[i].index)
  }

  function Column(shares: seq<Share>, b: nat): (ys: seq<bv8>)
    ensures |ys| == |shares|
  {
    seq(|shares|, i requires 0 <= i < |shares| => ByteAt(shares[i], b))
  }

  function RecoveredByte(shares: seq<Share>, b: nat): bv8 {
    Lagrange(Indices(shares), Column(shares, b), |shares|, 0)
  }

  ghost function ReconstructSpec(shares: seq<Share>): Result<Bytes, ShamirError> {
    if |shares| < 2 then Err(NeedTwoShares)
    else
      var length := |shares[0].data|;
      if length > 0 && !Distinct(Indices(shares)) then Err(CannotInvertZero)
      else Ok(seq(length, b requires 0 <= b < length => RecoveredByte(shares, b)))
  }

  /** The innermost loop: the i-th basis polynomial at 0, unless two indices coincide. */
  method BasisAtZero(shares: seq<Share>, i: nat) returns (r: Result<bv8, ShamirError>)
    requires i < |shares|
    ensures r.Ok? ==> r.value == Basis(Indices(shares), i, |shares|, 0)
    ensures r.Ok? ==> forall j :: 0 <= j < |shares| && j != i ==> Indices(shares)[j] != Indices(shares)[i]
    ensures r.Err? ==> r.error == CannotInvertZero && !Distinct(Indices(shares))
  {
    hide Mul, Add;
    var basis: bv8 := 1;
    var xi := shares[i].index;
    ghost var xs := Indices(shares);
    for j := 0 to |shares|
      invariant basis == Basis(xs, i, j, 0)
      invariant forall j' :: 0 <= j' < j && j' != i ==> xs[j'] != xi
    {
      if i == j {
        continue;
      }
      var xj := shares[j].index;
      AddZero(xj);
      AddCancel(xi, xj);
      var difference := Xor(xi, xj);
      var ratio := GfDiv(xj, difference);
      if ratio.Err? {
        assert xs[i] == xs[j];
        return Err(CannotInvertZero);
      }
      basis := GfMul(basis, ratio.value);
    }
    r := Ok(basis);
  }

  /** The middle loop: one byte of the secret. */
  method RecoverByte(shares: seq<Share>, byteIdx: nat) returns (r: Result<bv8, ShamirError>)
    ensures r == if Distinct(Indices(shares)) then Ok(RecoveredByte(shares, byteIdx)) else Err(CannotInvertZero)
  {
    hide Mul, Add, Basis;
    var value: bv8 := 0;
    ghost var xs, ys := Indices(shares), Column(shares, byteIdx);
    for i := 0 to |shares|
      invariant value == Lagrange(xs, ys, i, 0)
      invariant forall i', j :: 0 <= i' < i && 0 <= j < |shares| && j != i' ==> xs[j] != xs[i']
    {
      var basis := BasisAtZero(shares, i);
      if basis.Err? {
        return Err(CannotInvertZero);
      }
      var term := GfMul(ByteAt(shares[i], byteIdx), basis.value);
      assert ys[i] == ByteAt(shares[i], byteIdx);
      value := Xor(value, term);
    }
    r := Ok(value);
  }

  /** The polynomial has at most as many coefficients as there are shares and goes through byte b of each. */
  ghost predicate Fits(c: Poly, shares: seq<Share>, b: nat) {
    && |c| <= |shares|
    && forall i :: 0 <= i < |shares| ==>
      Eval(c, shares[i].index) == if b < |shares[i].data| then shares[i].data[b] else 0
  }

  lemma RecoveredFits(shares: seq<Share>, b: nat, c: Poly)
    requires Distinct(Indices(shares)) && Fits(c, shares, b)
    ensures RecoveredByte(shares, b) == Eval(c, 0)
  {
    hide Eval, Lagrange;
    InterpolationRecovers(c, Indices(shares), Column(shares, b), 0);
  }

  /** For any shares, split or not: the errors, and the constant term of the polynomial through the shares. */
  lemma SpecFits(shares: seq<Share>)
    ensures var r := ReconstructSpec(shares);
      && (r == Err(NeedTwoShares) <==> |shares| < 2)
      && (r == Err(CannotInvertZero) <==> |shares| >= 2 && shares[0].data != [] && Repeated(shares))
      && (r.Err? ==> r.error in {NeedTwoShares, CannotInvertZero})
      && (r.Ok? ==> |r.value| == |shares[0].data|)
      && (r.Ok? ==> forall b, c :: 0 <= b < |r.value| && Fits(c, shares, b) ==> r.value[b] == Eval(c, 0))
  {
    hide Eval, RecoveredByte, Fits;
    RepeatedExactly(shares);
    if ReconstructSpec(shares).Ok? {
      forall b, c | 0 <= b < |ReconstructSpec(shares).value| && Fits(c, shares, b)
        ensures ReconstructSpec(shares).value[b] == Eval(c, 0)
      {
        RecoveredFits(shares, b, c);
      }
    }
  }

  ghost predicate Repeated(shares: seq<Share>) {
    exists i, j :: 0 <= i < j < |shares| && shares[i].index == shares[j].index
  }

  lemma RepeatedExactly(shares: seq<Share>)
    ensures Repeated(shares) <==> !Distinct(Indices(shares))
  {
    if !Distinct(Indices(shares)) {
      var i, j :| 0 <= i < j < |shares| && Indices(shares)[i] == Indices(shares)[j];
      assert shares[i].index == shares[j].index;
    }
    if i, j :| 0 <= i < j < |shares| && shares[i].index == shares[j].index {
      assert Indices(shares)[i] == Indices(shares)[j];
    }
  }

  /** Some polynomial fits, so the recovered byte is always pinned. */
  lemma SomethingFits(shares: seq<Share>, b: nat)
    requires Distinct(Indices(shares))
    ensures Fits(Interpolate(Indices(shares), Column(shares, b), |shares|), shares, b)
  {
    hide Eval, Lagrange, Interpolate;
    var xs, ys := Indices(shares), Column(shares, b);
    forall i | 0 <= i < |shares|
      ensures Eval(Interpolate(xs, ys, |shares|), shares[i].index) == ByteAt(shares[i], b)
    {
      EvalInterpolate(xs, ys, |shares|, xs[i]);
      LagrangeAtNode(xs, ys, |shares|, i);
    }
  }

  method Reconstruct(shares: seq<Share>) returns (r: Result<Bytes, ShamirError>)
    ensures r == Err(NeedTwoShares) <==> |shares| < 2
    ensures r == Err(CannotInvertZero) <==>
      && |shares| >= 2 && shares[0].data != []
      && (exists i, j :: 0 <= i < j < |shares| && shares[i].index == shares[j].index)
    ensures r.Err? ==> r.error in {NeedTwoShares, CannotInvertZero}
    ensures r.Ok? ==> |r.value| == |shares[0].data| && forall b, c ::
      0 <= b < |r.value| && Fits(c, shares, b) ==> r.value[b] == Eval(c, 0)
    ensures r == ReconstructSpec(shares)
  {
    SpecFits(shares);
    if |shares| < 2 {
      return Err(NeedTwoShares);
    }
    hide RecoveredByte, Distinct, Indices;
    var secretLen := |shares[0].data|;
    var result := new bv8[secretLen];
    for byteIdx := 0 to secretLen
      invariant byteIdx > 0 ==> Distinct(Indices(shares))
      invariant forall b :: 0 <= b < byteIdx ==> result[b] == RecoveredByte(shares, b)
    {
      var value := RecoverByte(shares, byteIdx);
      if value.Err? {
        return Err(CannotInvertZero);
      }
      result[byteIdx] := value.value;
    }
    r := Ok(result[..]);
    assert result[..] == seq(secretLen, b requires 0 <= b < secretLen => RecoveredByte(shares, b));
  }

  // ----- any threshold of shares recovers the secret -----

  /** Share i of a split carries index i + 1: all indices are distinct and none is zero. */
  lemma SplitIndices(secret: Bytes, totalShards: int, threshold: int, random: seq<Bytes>)
    requires |random| == |secret|
    requires 2 <= threshold <= totalShards <= 255
    ensures var shares := SplitSpec(secret, totalShards, threshold, random).value;
      && |shares| == totalShards
      && Distinct(Indices(shares))
      && forall i :: 0 <= i < totalShards ==> shares[i].index as int == i + 1
  {
    hide ShareFor, Eval;
    var shares := SplitSpec(secret, totalShards, threshold, random).value;
    forall i | 0 <= i < totalShards
      ensures shares[i].index as int == i + 1
    {
      IntRoundTrip(i + 1);
      assert shares[i] == ShareFor(secret, random, ShareIndex(i));
      ShareForIndex(secret, random, ShareIndex(i));
    }
  }

  lemma ShareForIndex(secret: Bytes, random: seq<Bytes>, index: bv8)
    requires |random| == |secret|
    ensures ShareFor(secret, random, index).index == index
  {}

  /** Every share of the list was produced by one split. */
  ghost predicate FromSplit(
    picked: seq<Share>, secret: Bytes, totalShards: int, threshold: int, random: seq<Bytes>)
  {
    && 2 <= threshold <= totalShards <= 255
    && RandomRows(random, |secret|, threshold)
    && forall p :: 0 <= p < |picked| ==> picked[p] in SplitSpec(secret, totalShards, threshold, random).value
  }

  lemma PickedShare(
    picked: seq<Share>, p: nat, secret: Bytes, totalShards: int, threshold: int, random: seq<Bytes>)
    requires FromSplit(picked, secret, totalShards, threshold, random) && p < |picked|
    ensures |random| == |secret|
    ensures picked[p] == ShareFor(secret, random, picked[p].index) && |picked[p].data| == |secret|
  {
    hide Eval;
  }

  lemma FromSplitRows(
    picked: seq<Share>, secret: Bytes, totalShards: int, threshold: int, random: seq<Bytes>)
    requires FromSplit(picked, secret, totalShards, threshold, random)
    ensures threshold >= 2 && RandomRows(random, |secret|, threshold)
  {}

  /** Any list of shares of one split: with distinct indices and at least `threshold` of them it gives back
      exactly the secret. */
  lemma AnyThresholdRecovers(
    secret: Bytes, totalShards: int, threshold: int, random: seq<Bytes>, picked: seq<Share>)
    requires FromSplit(picked, secret, totalShards, threshold, random)
    requires |picked| >= threshold && Distinct(Indices(picked))
    ensures ReconstructSpec(picked) == Ok(secret)
  {
    hide Eval, Lagrange, FromSplit;
    FromSplitRows(picked, secret, totalShards, threshold, random);
    var xs := Indices(picked);
    forall p | 0 <= p < |picked|
      ensures picked[p] == ShareFor(secret, random, xs[p]) && |picked[p].data| == |secret|
    {
      PickedShare(picked, p, secret, totalShards, threshold, random);
    }
    forall b | 0 <= b < |secret|
      ensures RecoveredByte(picked, b) == secret[b]
    {
      var c := Coefficients(secret, random, b);
      InterpolationRecovers(c, xs, Column(picked, b), 0);
      EvalAtZero(c);
    }
    assert |picked[0].data| == |secret|;
    assert ReconstructSpec(picked).value == secret;
  }

  /** Shares of one split of a non-empty secret fail to reconstruct exactly when there are fewer than two
      or one of them is repeated. */
  lemma ReconstructFailsExactly(
    secret: Bytes, totalShards: int, threshold: int, random: seq<Bytes>, picked: seq<Share>)
    requires FromSplit(picked, secret, totalShards, threshold, random) && secret != []
    ensures ReconstructSpec(picked).Err? <==>
      |picked| < 2 || exists i, j :: 0 <= i < j < |picked| && picked[i] == picked[j]
  {
    hide FromSplit, ShareFor, RecoveredByte;
    FromSplitRows(picked, secret, totalShards, threshold, random);
    forall p | 0 <= p < |picked|
      ensures picked[p] == ShareFor(secret, random, picked[p].index) && |picked[p].data| == |secret|
    {
      PickedShare(picked, p, secret, totalShards, threshold, random);
    }
    var xs := Indices(picked);
    if |picked| >= 2 && !Distinct(xs) {
      var i, j :| 0 <= i < j < |picked| && xs[i] == xs[j];
      assert picked[i] == picked[j];
      assert |picked[0].data| == |secret| > 0;
    } else if |picked| >= 2 {
      forall i, j | 0 <= i < j < |picked|
        ensures picked[i] != picked[j]
      {
        assert xs[i] != xs[j];
      }
    }
  }

  // ----- fewer shares say nothing -----

  ghost predicate Explains(
    secret: Bytes, random: seq<Bytes>, threshold: nat, indices: seq<bv8>, observed: seq<Bytes>)
  {
    && RandomRows(random, |secret|, threshold)
    && |observed| == |indices|
    && forall i :: 0 <= i < |indices| ==> ShareFor(secret, random, indices[i]).data == observed[i]
  }

  /** threshold - 1 observed shares of the right length at distinct non-zero indices. */
  ghost predicate Observation(length: nat, threshold: nat, indices: seq<bv8>, observed: seq<Bytes>) {
    && |indices| + 1 == threshold && |observed| == |indices|
    && Distinct([0] + indices)
    && forall i :: 0 <= i < |observed| ==> |observed[i]| == length
  }

  function ObservedColumn(observed: seq<Bytes>, b: nat): (ys: seq<bv8>)
    requires forall i :: 0 <= i < |observed| ==> b < |observed[i]|
    ensures |ys| == |observed|
  {
    seq(|observed|, i requires 0 <= i < |observed| => observed[i][b])
  }

  /** The random bytes that make `secret` produce the observed shares. */
  function Blinding(secret: Bytes, indices: seq<bv8>, observed: seq<Bytes>): (random: seq<Bytes>)
    requires |observed| == |indices|
    requires forall i :: 0 <= i < |observed| ==> |observed[i]| == |secret|
    ensures RandomRows(random, |secret|, |indices| + 1)
  {
    seq(|secret|, b requires 0 <= b < |secret| =>
      Interpolate([0] + indices, [secret[b]] + ObservedColumn(observed, b), |indices| + 1)[1..])
  }

  lemma BlindingByte(secret: Bytes, threshold: nat, indices: seq<bv8>, observed: seq<Bytes>, b: nat)
    requires Observation(|secret|, threshold, indices, observed)
    requires b < |secret|
    ensures var c := Coefficients(secret, Blinding(secret, indices, observed), b);
      forall i :: 0 <= i < |indices| ==> Eval(c, indices[i]) == observed[i][b]
  {
    hide Lagrange, Interpolate;
    var xs, ys := [0] + indices, [secret[b]] + ObservedColumn(observed, b);
    var fitted := Interpolate(xs, ys, threshold);
    var c := Coefficients(secret, Blinding(secret, indices, observed), b);
    assert Blinding(secret, indices, observed)[b] == fitted[1..];
    EvalInterpolate(xs, ys, threshold, 0);
    LagrangeAtNode(xs, ys, threshold, 0);
    EvalAtZero(fitted);
    assert c == fitted;
    hide Eval;
    forall i | 0 <= i < |indices|
      ensures Eval(c, indices[i]) == observed[i][b]
    {
      assert xs[i + 1] == indices[i] && ys[i + 1] == observed[i][b];
      EvalInterpolate(xs, ys, threshold, xs[i + 1]);
      LagrangeAtNode(xs, ys, threshold, i + 1);
    }
  }

  /** Two random rows that explain the same shares of the same secret byte are the same row. */
  lemma RowDetermined(
    secret: Bytes, r: seq<Bytes>, s: seq<Bytes>, threshold: nat, indices: seq<bv8>, observed: seq<Bytes>, b: nat)
    requires Observation(|secret|, threshold, indices, observed)
    requires Explains(secret, r, threshold, indices, observed)
    requires Explains(secret, s, threshold, indices, observed)
    requires b < |secret|
    ensures r[b] == s[b]
  {
    var xs, c, d := [0] + indices, Coefficients(secret, r, b), Coefficients(secret, s, b);
    EvalAtZero(c);
    EvalAtZero(d);
    hide Eval;
    forall i | 0 <= i < |xs|
      ensures Eval(c, xs[i]) == Eval(d, xs[i])
    {
      if i > 0 {
        assert xs[i] == indices[i - 1];
        assert ShareFor(secret, r, xs[i]).data[b] == ShareFor(secret, s, xs[i]).data[b];
      }
    }
    ValuesDetermine(c, d, xs);
    assert c[1..] == r[b] && d[1..] == s[b];
  }

  /** Perfect hiding: whatever threshold - 1 shares show, every secret of that length explains them, with
      exactly one choice of the random bytes. */
  lemma PerfectHiding(secret: Bytes, threshold: nat, indices: seq<bv8>, observed: seq<Bytes>)
    requires Observation(|secret|, threshold, indices, observed)
    ensures Explains(secret, Blinding(secret, indices, observed), threshold, indices, observed)
    ensures forall random :: Explains(secret, random, threshold, indices, observed) ==>
      random == Blinding(secret, indices, observed)
  {
    hide Eval, Interpolate;
    var blinding := Blinding(secret, indices, observed);
    forall b, i | 0 <= b < |secret| && 0 <= i < |indices|
      ensures ShareFor(secret, blinding, indices[i]).data[b] == observed[i][b]
    {
      BlindingByte(secret, threshold, indices, observed, b);
    }
    forall i | 0 <= i < |indices|
      ensures ShareFor(secret, blinding, indices[i]).data == observed[i]
    {}
    forall random | Explains(secret, random, threshold, indices, observed)
      ensures random == blinding
    {
      forall b | 0 <= b < |secret|
        ensures random[b] == blinding[b]
      {
        RowDetermined(secret, random, blinding, threshold, indices, observed, b);
      }
    }
  }

  /** The random bytes under which `other` shows, at `indices`, the shares that `secret` shows under
      `random`. */
  function Reblind(secret: Bytes, other: Bytes, random: seq<Bytes>, indices: seq<bv8>): seq<Bytes>
    requires |random| == |secret| == |other|
  {
    Blinding(other, indices,
      seq(|indices|, i requires 0 <= i < |indices| => ShareFor(secret, random, indices[i]).data))
  }

  /** Reblinding keeps every observed share and is undone by reblinding back: the random choices of any two
      secrets of one length correspond one to one, so fewer shares than the threshold have the same
      distribution for both. */
  lemma SecretsIndistinguishable(
    secret: Bytes, other: Bytes, threshold: nat, random: seq<Bytes>, indices: seq<bv8>)
    requires |secret| == |other| && RandomRows(random, |secret|, threshold)
    requires |indices| + 1 == threshold && Distinct([0] + indices)
    ensures var moved := Reblind(secret, other, random, indices);
      && RandomRows(moved, |other|, threshold)
      && (forall i :: 0 <= i < |indices| ==>
            ShareFor(other, moved, indices[i]) == ShareFor(secret, random, indices[i]))
      && Reblind(other, secret, moved, indices) == random
  {
    hide Eval, Interpolate;
    var seen := seq(|indices|, i requires 0 <= i < |indices| => ShareFor(secret, random, indices[i]).data);
    var moved := Reblind(secret, other, random, indices);
    PerfectHiding(other, threshold, indices, seen);
    PerfectHiding(secret, threshold, indices, seen);
    assert Explains(secret, random, threshold, indices, seen);
    var again := seq(|indices|, i requires 0 <= i < |indices| => ShareFor(other, moved, indices[i]).data);
    assert again == seen;
  }
}
