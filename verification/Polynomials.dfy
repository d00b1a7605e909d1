/** Polynomials over GF(2^8) as coefficient sequences, lowest degree first.

    A polynomial of n coefficients is determined by its values at n distinct points; `Interpolate` builds
    it from Lagrange's basis, so interpolation at any point is evaluation of the one polynomial that fits. */
module Polynomials {
  import opened GaloisField

  type Poly = seq<bv8>

  function Eval(c: Poly, x: bv8): bv8 {
    if c == [] then 0 else Add(c[0], Mul(x, Eval(c[1..], x)))
  }

  ghost predicate Distinct(xs: seq<bv8>) {
    forall i, j :: 0 <= i < j < |xs| ==> xs[i] != xs[j]
  }

  function Zeros(n: nat): (r: Poly)
    ensures |r| == n
  {
    seq(n, _ => 0)
  }

  function AddPoly(p: Poly, q: Poly): (r: Poly)
    requires |p| == |q|
    ensures |r| == |p|
  {
    seq(|p|, i requires 0 <= i < |p| => Add(p[i], q[i]))
  }

  function Scale(a: bv8, p: Poly): (r: Poly)
    ensures |r| == |p|
  {
    seq(|p|, i requires 0 <= i < |p| => Mul(a, p[i]))
  }

  /** (x + root) * p */
  function MulRoot(p: Poly, root: bv8): (r: Poly)
    ensures |r| == |p| + 1
  {
    AddPoly([0] + p, Scale(root, p) + [0])
  }

  // ----- evaluation commutes with the operations -----

  lemma {:induction false} EvalZeros(n: nat, x: bv8)
    ensures Eval(Zeros(n), x) == 0
  {
    hide Mul, Add;
    if n > 0 {
      assert Zeros(n)[1..] == Zeros(n - 1);
      EvalZeros(n - 1, x);
      MulZero(x);
      AddZero(0);
    }
  }

  lemma {:induction false} EvalAdd(p: Poly, q: Poly, x: bv8)
    requires |p| == |q|
    ensures Eval(AddPoly(p, q), x) == Add(Eval(p, x), Eval(q, x))
  {
    hide Mul, Add;
    if p == [] {
      AddZero(0);
    } else {
      assert AddPoly(p, q)[1..] == AddPoly(p[1..], q[1..]);
      EvalAdd(p[1..], q[1..], x);
      MulAddRight(x, Eval(p[1..], x), Eval(q[1..], x));
      AddSwap(p[0], q[0], Mul(x, Eval(p[1..], x)), Mul(x, Eval(q[1..], x)));
    }
  }

  lemma {:induction false} EvalScale(a: bv8, p: Poly, x: bv8)
    ensures Eval(Scale(a, p), x) == Mul(a, Eval(p, x))
  {
    hide Mul, Add;
    if p == [] {
      MulZero(a);
    } else {
      var tail := Eval(p[1..], x);
      assert Scale(a, p)[1..] == Scale(a, p[1..]);
      EvalScale(a, p[1..], x);
      MulAddRight(a, p[0], Mul(x, tail));
      MulAssoc(x, a, tail);
      MulComm(x, a);
      MulAssoc(a, x, tail);
    }
  }

  lemma {:induction false} EvalPadded(p: Poly, n: nat, x: bv8)
    ensures Eval(p + Zeros(n), x) == Eval(p, x)
  {
    hide Mul, Add;
    if p == [] {
      assert p + Zeros(n) == Zeros(n);
      EvalZeros(n, x);
    } else {
      assert (p + Zeros(n))[1..] == p[1..] + Zeros(n);
      EvalPadded(p[1..], n, x);
    }
  }

  lemma EvalMulRoot(p: Poly, root: bv8, x: bv8)
    ensures Eval(MulRoot(p, root), x) == Mul(Add(x, root), Eval(p, x))
  {
    hide Mul, Add;
    var shifted, scaled := [0] + p, Scale(root, p);
    EvalAdd(shifted, scaled + [0], x);
    assert shifted[1..] == p;
    AddZero(Mul(x, Eval(p, x)));
    assert [0] == Zeros(1);
    EvalPadded(scaled, 1, x);
    EvalScale(root, p, x);
    MulAddLeft(x, root, Eval(p, x));
  }

  lemma EvalAtZero(p: Poly)
    requires p != []
    ensures Eval(p, 0) == p[0]
  {
    hide Mul, Add;
    MulZeroLeft(Eval(p[1..], 0));
    AddZero(p[0]);
  }

  /** The sum of the first n terms c[i] * x^i. */
  function Terms(c: Poly, x: bv8, n: nat): bv8
    requires n <= |c|
  {
    if n == 0 then 0 else Add(Terms(c, x, n - 1), Mul(c[n - 1], Pow(x, n - 1)))
  }

  lemma {:induction false} EvalAppend(c: Poly, a: bv8, x: bv8)
    ensures Eval(c + [a], x) == Add(Eval(c, x), Mul(a, Pow(x, |c|)))
  {
    hide Mul, Add;
    if c == [] {
      MulZero(x);
      MulOne(a);
      AddZero(a);
    } else {
      var e, p := Eval(c[1..], x), Pow(x, |c| - 1);
      assert (c + [a])[1..] == c[1..] + [a];
      EvalAppend(c[1..], a, x);
      MulAddRight(x, e, Mul(a, p));
      AddAssoc(c[0], Mul(x, e), Mul(x, Mul(a, p)));
      MulAssoc(x, a, p);
      MulComm(x, a);
      MulAssoc(a, x, p);
    }
  }

  lemma {:induction false} TermsOfPrefix(c: Poly, x: bv8, k: nat, n: nat)
    requires n <= k <= |c|
    ensures Terms(c[..k], x, n) == Terms(c, x, n)
  {
    hide Mul, Add;
    if n > 0 {
      TermsOfPrefix(c, x, k, n - 1);
    }
  }

  /** Evaluation is the sum of the coefficients times the powers of the point. */
  lemma {:induction false} EvalIsSum(c: Poly, x: bv8)
    ensures Eval(c, x) == Terms(c, x, |c|)
  {
    hide Mul, Add, Pow;
    if c != [] {
      var n := |c| - 1;
      EvalIsSum(c[..n], x);
      TermsOfPrefix(c, x, n, n);
      EvalAppend(c[..n], c[n], x);
      assert c == c[..n] + [c[n]];
    }
  }

  // ----- a polynomial with as many roots as coefficients is zero -----

  /** The quotient of `c` by (x + root). */
  function Quotient(c: Poly, root: bv8): (q: Poly)
    ensures |q| == if c == [] then 0 else |c| - 1
  {
    if |c| <= 1 then [] else [Eval(c[1..], root)] + Quotient(c[1..], root)
  }

  /** Division with remainder: c = (x + root) * quotient + c(root). */
  lemma {:induction false} DivideByRoot(c: Poly, root: bv8, x: bv8)
    ensures Eval(c, x) == Add(Mul(Add(x, root), Eval(Quotient(c, root), x)), Eval(c, root))
  {
    hide Mul, Add;
    var d := Add(x, root);
    if |c| <= 1 {
      MulZero(d);
      AddZero(Eval(c, root));
      if |c| == 1 {
        MulZero(x);
        MulZero(root);
      }
    } else {
      var tail, rest := Eval(c[1..], root), Eval(Quotient(c[1..], root), x);
      DivideByRoot(c[1..], root, x);
      assert Quotient(c, root)[1..] == Quotient(c[1..], root);
      // c0 + x * (d * rest + tail) == d * (tail + x * rest) + (c0 + root * tail)
      MulAddRight(x, Mul(d, rest), tail);
      MulAssoc(x, d, rest);
      MulComm(x, d);
      MulAssoc(d, x, rest);
      MulAddRight(d, tail, Mul(x, rest));
      MulAddLeft(x, root, tail);
      RegroupDivision(c[0], Mul(x, tail), Mul(root, tail), Mul(d, Mul(x, rest)));
    }
  }

  lemma RegroupDivision(c: bv8, a: bv8, b: bv8, e: bv8)
    ensures Add(c, Add(e, a)) == Add(Add(Add(a, b), e), Add(c, b))
  {
    hide *;
    AddComm(Add(a, b), e);
    AddSwap(e, Add(a, b), c, b);
    AddAssoc(a, b, b);
    AddSelf(b);
    AddZero(a);
    AddComm(e, c);
    AddAssoc(c, e, a);
  }

  lemma {:induction false} ZeroQuotient(c: Poly, root: bv8)
    requires Quotient(c, root) == Zeros(|Quotient(c, root)|)
    requires Eval(c, root) == 0
    ensures c == Zeros(|c|)
  {
    hide Mul, Add;
    if c != [] {
      var tail := c[1..];
      if tail != [] {
        var q := Quotient(c, root);
        assert q[0] == Eval(tail, root) == 0;
        assert q[1..] == Quotient(tail, root) == Zeros(|q| - 1);
        ZeroQuotient(tail, root);
      }
      MulZero(root);
      AddZero(c[0]);
      assert c == [c[0]] + tail;
    }
  }

  lemma {:induction false} RootsDetermine(c: Poly, xs: seq<bv8>)
    requires |c| == |xs| && Distinct(xs)
    requires forall i :: 0 <= i < |xs| ==> Eval(c, xs[i]) == 0
    ensures c == Zeros(|c|)
    decreases |c|
  {
    hide Mul, Add;
    if c != [] {
      var root, rest := xs[0], xs[1..];
      var q := Quotient(c, root);
      forall i | 0 <= i < |rest|
        ensures Eval(q, rest[i]) == 0
      {
        var x := rest[i];
        assert x == xs[i + 1];
        DivideByRoot(c, root, x);
        AddZero(Mul(Add(x, root), Eval(q, x)));
        AddCancel(x, root);
        NoZeroDivisors(Add(x, root), Eval(q, x));
      }
      RootsDetermine(q, rest);
      ZeroQuotient(c, root);
    }
  }

  /** Two polynomials of n coefficients that agree at n distinct points are the same. */
  lemma ValuesDetermine(p: Poly, q: Poly, xs: seq<bv8>)
    requires |p| == |q| == |xs| && Distinct(xs)
    requires forall i :: 0 <= i < |xs| ==> Eval(p, xs[i]) == Eval(q, xs[i])
    ensures p == q
  {
    hide Mul, Add;
    var sum := AddPoly(p, q);
    forall i | 0 <= i < |xs|
      ensures Eval(sum, xs[i]) == 0
    {
      EvalAdd(p, q, xs[i]);
      AddSelf(Eval(p, xs[i]));
    }
    RootsDetermine(sum, xs);
    forall i | 0 <= i < |p|
      ensures p[i] == q[i]
    {
      assert sum[i] == 0;
      AddCancel(p[i], q[i]);
    }
  }

  // ----- Lagrange interpolation -----

  /** The product of (x + xs[j]) / (xs[i] + xs[j]) over the first `n` indices j other than i. */
  function Basis(xs: seq<bv8>, i: nat, n: nat, x: bv8): bv8
    requires i < |xs| && n <= |xs|
  {
    if n == 0 then 1
    else if n - 1 == i then Basis(xs, i, n - 1, x)
    else Mul(Basis(xs, i, n - 1, x), Div(Add(x, xs[n - 1]), Add(xs[i], xs[n - 1])))
  }

  /** The sum of ys[i] * Basis(i) over the first `n` points. */
  function Lagrange(xs: seq<bv8>, ys: seq<bv8>, n: nat, x: bv8): bv8
    requires |xs| == |ys| && n <= |xs|
  {
    if n == 0 then 0
    else Add(Lagrange(xs, ys, n - 1, x), Mul(ys[n - 1], Basis(xs, n - 1, |xs|, x)))
  }

  function BasisPoly(xs: seq<bv8>, i: nat, n: nat): (p: Poly)
    requires i < |xs| && n <= |xs|
    ensures |p| == if i < n then n else n + 1
  {
    if n == 0 then [1]
    else if n - 1 == i then BasisPoly(xs, i, n - 1)
    else Scale(Inverse(Add(xs[i], xs[n - 1])), MulRoot(BasisPoly(xs, i, n - 1), xs[n - 1]))
  }

  /** The coefficients of the polynomial through the first `n` points that is zero at the other nodes. */
  function Interpolate(xs: seq<bv8>, ys: seq<bv8>, n: nat): (p: Poly)
    requires |xs| == |ys| && n <= |xs|
    ensures |p| == |xs|
  {
    if n == 0 then Zeros(|xs|)
    else AddPoly(Interpolate(xs, ys, n - 1), Scale(ys[n - 1], BasisPoly(xs, n - 1, |xs|)))
  }

  lemma {:induction false} EvalBasisPoly(xs: seq<bv8>, i: nat, n: nat, x: bv8)
    requires i < |xs| && n <= |xs|
    ensures Eval(BasisPoly(xs, i, n), x) == Basis(xs, i, n, x)
  {
    hide Mul, Add, Inverse, Scale, MulRoot;
    if n == 0 {
      MulZero(x);
      AddZero(1);
    } else {
      EvalBasisPoly(xs, i, n - 1, x);
      if n - 1 != i {
        var p, root := BasisPoly(xs, i, n - 1), xs[n - 1];
        var inverse := Inverse(Add(xs[i], root));
        var factor := Add(x, root);
        EvalScale(inverse, MulRoot(p, root), x);
        EvalMulRoot(p, root, x);
        MulComm(inverse, Mul(factor, Eval(p, x)));
        MulComm(factor, Eval(p, x));
        MulAssoc(Eval(p, x), factor, inverse);
      }
    }
  }

  lemma {:induction false} EvalInterpolate(xs: seq<bv8>, ys: seq<bv8>, n: nat, x: bv8)
    requires |xs| == |ys| && n <= |xs|
    ensures Eval(Interpolate(xs, ys, n), x) == Lagrange(xs, ys, n, x)
  {
    hide Mul, Add, Scale, AddPoly, Basis, BasisPoly;
    if n == 0 {
      EvalZeros(|xs|, x);
    } else {
      var p := BasisPoly(xs, n - 1, |xs|);
      EvalInterpolate(xs, ys, n - 1, x);
      EvalAdd(Interpolate(xs, ys, n - 1), Scale(ys[n - 1], p), x);
      EvalScale(ys[n - 1], p, x);
      EvalBasisPoly(xs, n - 1, |xs|, x);
    }
  }

  /** A basis function is 1 at its own node and 0 at every other node. */
  lemma {:induction false} BasisAtNode(xs: seq<bv8>, i: nat, n: nat, l: nat)
    requires i < |xs| && n <= |xs| && l < |xs| && Distinct(xs)
    ensures l == i ==> Basis(xs, i, n, xs[l]) == 1
    ensures l != i && l < n ==> Basis(xs, i, n, xs[l]) == 0
  {
    hide Mul, Add, Div;
    if n > 0 && n - 1 != i {
      var d, before := Add(xs[i], xs[n - 1]), Basis(xs, i, n - 1, xs[l]);
      BasisAtNode(xs, i, n - 1, l);
      AddCancel(xs[i], xs[n - 1]);
      if l == i {
        DivSelf(d);
        MulOne(1);
      } else if l == n - 1 {
        AddSelf(xs[l]);
        DivZero(d);
        MulZero(before);
      } else {
        MulZeroLeft(Div(Add(xs[l], xs[n - 1]), d));
      }
    } else if n > 0 {
      BasisAtNode(xs, i, n - 1, l);
    }
  }

  lemma {:induction false} LagrangeAtNode(xs: seq<bv8>, ys: seq<bv8>, n: nat, l: nat)
    requires |xs| == |ys| && n <= |xs| && l < |xs| && Distinct(xs)
    ensures Lagrange(xs, ys, n, xs[l]) == if l < n then ys[l] else 0
  {
    hide Mul, Add, Basis;
    if n > 0 {
      LagrangeAtNode(xs, ys, n - 1, l);
      BasisAtNode(xs, n - 1, |xs|, l);
      MulOne(ys[n - 1]);
      MulZero(ys[n - 1]);
      AddZero(if l == n - 1 then ys[l] else if l < n - 1 then ys[l] else 0);
    }
  }

  /** Interpolation through at least as many points as coefficients gives back the polynomial's value
      everywhere. */
  lemma InterpolationRecovers(c: Poly, xs: seq<bv8>, ys: seq<bv8>, x: bv8)
    requires |c| <= |xs| == |ys| && Distinct(xs)
    requires forall i :: 0 <= i < |xs| ==> ys[i] == Eval(c, xs[i])
    ensures Lagrange(xs, ys, |xs|, x) == Eval(c, x)
  {
    hide Mul, Add, Eval, Lagrange, Interpolate;
    var m := |xs|;
    var padded, fitted := c + Zeros(m - |c|), Interpolate(xs, ys, m);
    forall i | 0 <= i < m
      ensures Eval(fitted, xs[i]) == Eval(padded, xs[i])
    {
      EvalPadded(c, m - |c|, xs[i]);
      EvalInterpolate(xs, ys, m, xs[i]);
      LagrangeAtNode(xs, ys, m, i);
    }
    ValuesDetermine(fitted, padded, xs);
    EvalInterpolate(xs, ys, m, x);
    EvalPadded(c, m - |c|, x);
  }
}
