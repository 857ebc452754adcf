/**
 Integer-coefficient polynomials read modulo a prime: root counting, uniqueness of
 interpolation and Lagrange's interpolating polynomial.
 */
module Polynomial {
  import opened PrimeField

  /** Coefficients, constant term first. */
  type Poly = seq<int>

  function Eval(c: Poly, x: int): int {
    if c == [] then 0 else c[0] + x * Eval(c[1..], x)
  }

  ghost predicate AllZero(p: int, c: Poly)
    requires p > 0
  {
    forall i :: 0 <= i < |c| ==> Divides(p, c[i])
  }

  /** No two of the points fall in the same residue class. */
  ghost predicate Distinct(p: int, xs: seq<int>)
    requires p > 0
  {
    forall i, j :: 0 <= i < j < |xs| ==> !Cong(p, xs[i], xs[j])
  }

  ghost predicate AllRoots(p: int, c: Poly, xs: seq<int>)
    requires p > 0
  {
    forall i :: 0 <= i < |xs| ==> Divides(p, Eval(c, xs[i]))
  }

  // ----- evaluation

  function Add(c: Poly, d: Poly): (r: Poly)
    requires |c| == |d|
    ensures |r| == |c|
  {
    seq(|c|, i requires 0 <= i < |c| => c[i] + d[i])
  }

  function Scale(k: int, c: Poly): (r: Poly)
    ensures |r| == |c|
  {
    seq(|c|, i requires 0 <= i < |c| => k * c[i])
  }

  /** c multiplied by (X - a). */
  function MulLinear(c: Poly, a: int): (r: Poly)
    ensures |r| == |c| + 1
  {
    Add([0] + c, Scale(-a, c + [0]))
  }

  lemma {:induction false} EvalAdd(c: Poly, d: Poly, x: int)
    requires |c| == |d|
    ensures Eval(Add(c, d), x) == Eval(c, x) + Eval(d, x)
  {
    if c != [] {
      EvalAdd(c[1..], d[1..], x);
      assert Add(c, d)[1..] == Add(c[1..], d[1..]);
      assert x * (Eval(c[1..], x) + Eval(d[1..], x)) == x * Eval(c[1..], x) + x * Eval(d[1..], x);
    }
  }

  lemma ScaleTerm(k: int, a: int, x: int, m: int)
    ensures k * (a + x * m) == k * a + x * (k * m)
  {
  }

  lemma {:induction false} EvalScale(k: int, c: Poly, x: int)
    ensures Eval(Scale(k, c), x) == k * Eval(c, x)
  {
    if c != [] {
      EvalScale(k, c[1..], x);
      assert Scale(k, c)[1..] == Scale(k, c[1..]);
      ScaleTerm(k, c[0], x, Eval(c[1..], x));
    }
  }

  lemma {:induction false} EvalSnoc(c: Poly, a: int, x: int)
    ensures Eval(c + [a], x) == Eval(c, x) + a * Pow(x, |c|)
  {
    if c == [] {
      assert Eval([a], x) == a + x * Eval([], x);
    } else {
      EvalSnoc(c[1..], a, x);
      assert (c + [a])[1..] == c[1..] + [a];
      ScaleTerm(x, Eval(c[1..], x), a, Pow(x, |c| - 1));
    }
  }

  lemma EvalMulLinear(c: Poly, a: int, x: int)
    ensures Eval(MulLinear(c, a), x) == (x - a) * Eval(c, x)
  {
    EvalAdd([0] + c, Scale(-a, c + [0]), x);
    EvalScale(-a, c + [0], x);
    EvalSnoc(c, 0, x);
    assert ([0] + c)[1..] == c;
    var e := Eval(c, x);
    assert x * e + (-a) * e == (x - a) * e;
  }

  lemma {:induction false} EvalCong(p: int, c: Poly, d: Poly, x: int)
    requires p > 0 && |c| == |d|
    requires forall i :: 0 <= i < |c| ==> Cong(p, c[i], d[i])
    ensures Cong(p, Eval(c, x), Eval(d, x))
  {
    if c == [] {
      CongRefl(p, 0);
    } else {
      EvalCong(p, c[1..], d[1..], x);
      CongRefl(p, x);
      CongMul(p, x, x, Eval(c[1..], x), Eval(d[1..], x));
      CongAdd(p, c[0], d[0], x * Eval(c[1..], x), x * Eval(d[1..], x));
    }
  }

  // ----- root counting

  /** The quotient of c(X) - c(r) by (X - r). */
  function DivideOut(c: Poly, r: int): (q: Poly)
    requires c != []
    ensures |q| == |c| - 1
  {
    if |c| == 1 then [] else [Eval(c[1..], r)] + DivideOut(c[1..], r)
  }

  lemma DivideOutTerm(x: int, r: int, tx: int, tr: int, qx: int)
    requires tx - tr == (x - r) * qx
    ensures x * tx - r * tr == (x - r) * (tr + x * qx)
  {
    assert x * tx - r * tr == x * (tx - tr) + (x - r) * tr;
    assert x * ((x - r) * qx) == (x - r) * (x * qx);
    assert (x - r) * (tr + x * qx) == (x - r) * tr + (x - r) * (x * qx);
  }

  lemma {:induction false} DivideOutEval(c: Poly, r: int, x: int)
    requires c != []
    ensures Eval(c, x) - Eval(c, r) == (x - r) * Eval(DivideOut(c, r), x)
  {
    if |c| == 1 {
      assert Eval(c[1..], x) == 0 && Eval(c[1..], r) == 0;
      assert Eval([], x) == 0;
    } else {
      var t, q := c[1..], DivideOut(c[1..], r);
      DivideOutEval(t, r, x);
      assert DivideOut(c, r)[1..] == q;
      DivideOutTerm(x, r, Eval(t, x), Eval(t, r), Eval(q, x));
    }
  }

  lemma {:induction false} ZeroQuotient(p: int, c: Poly, r: int)
    requires p > 0 && c != []
    requires Divides(p, Eval(c, r)) && AllZero(p, DivideOut(c, r))
    ensures AllZero(p, c)
  {
    if |c| == 1 {
      assert Eval(c, r) == c[0] + r * Eval(c[1..], r) == c[0];
    } else {
      var t := c[1..];
      var q := DivideOut(c, r);
      assert q[0] == Eval(t, r);
      assert q[1..] == DivideOut(t, r);
      ZeroQuotient(p, t, r);
      DividesProduct(p, Eval(t, r), r);
      DividesSum(p, Eval(c, r), r * Eval(t, r));
      assert c[0] == Eval(c, r) - r * Eval(t, r);
      forall i | 0 <= i < |c| ensures Divides(p, c[i]) {
        if i > 0 { assert c[i] == t[i - 1]; }
      }
    }
  }

  /** A polynomial with at least as many roots as coefficients vanishes modulo p. */
  lemma {:induction false} RootCount(p: int, c: Poly, xs: seq<int>)
    requires Prime(p) && |c| <= |xs| && Distinct(p, xs) && AllRoots(p, c, xs)
    ensures AllZero(p, c)
    decreases |c|
  {
    if c != [] {
      var r, rest, q := xs[0], xs[1..], DivideOut(c, xs[0]);
      forall i | 0 <= i < |rest| ensures Divides(p, Eval(q, rest[i])) {
        var x := xs[i + 1];
        DivideOutEval(c, r, x);
        DividesSum(p, Eval(c, x), Eval(c, r));
        assert !Cong(p, r, x);
        if Cong(p, x, r) { CongSym(p, x, r); }
        EuclidLemma(p, x - r, Eval(q, x));
      }
      assert Distinct(p, rest) by {
        forall i, j | 0 <= i < j < |rest| ensures !Cong(p, rest[i], rest[j]) {
          assert rest[i] == xs[i + 1] && rest[j] == xs[j + 1];
        }
      }
      RootCount(p, q, rest);
      ZeroQuotient(p, c, r);
    }
  }

  lemma EvalDifference(c: Poly, d: Poly, x: int)
    requires |c| == |d|
    ensures Eval(Add(c, Scale(-1, d)), x) == Eval(c, x) - Eval(d, x)
  {
    EvalAdd(c, Scale(-1, d), x);
    EvalScale(-1, d, x);
  }

  /** Two polynomials of the same size agreeing at enough points have the same coefficients modulo p. */
  lemma InterpolationUnique(p: int, c: Poly, d: Poly, xs: seq<int>)
    requires Prime(p) && |c| == |d| <= |xs| && Distinct(p, xs)
    requires forall i :: 0 <= i < |xs| ==> Cong(p, Eval(c, xs[i]), Eval(d, xs[i]))
    ensures forall i :: 0 <= i < |c| ==> Cong(p, c[i], d[i])
  {
    var e := Add(c, Scale(-1, d));
    forall i | 0 <= i < |xs| ensures Divides(p, Eval(e, xs[i])) {
      EvalDifference(c, d, xs[i]);
    }
    RootCount(p, e, xs);
    forall i | 0 <= i < |c| ensures Cong(p, c[i], d[i]) {
      assert e[i] == c[i] - d[i];
    }
  }

  // ----- Lagrange interpolation

  /** The product over j < n, j != i, of (z - xs[j]). */
  function NodeProduct(xs: seq<int>, i: nat, n: nat, z: int): int
    requires n <= |xs|
  {
    if n == 0 then 1
    else if n - 1 == i then NodeProduct(xs, i, n - 1, z)
    else (z - xs[n - 1]) * NodeProduct(xs, i, n - 1, z)
  }

  /** NodeProduct as a polynomial in z. */
  function NodePoly(xs: seq<int>, i: nat, n: nat): (c: Poly)
    requires n <= |xs|
    ensures |c| == if i < n then n else n + 1
  {
    if n == 0 then [1]
    else if n - 1 == i then NodePoly(xs, i, n - 1)
    else MulLinear(NodePoly(xs, i, n - 1), xs[n - 1])
  }

  lemma {:induction false} NodePolyEval(xs: seq<int>, i: nat, n: nat, z: int)
    requires n <= |xs|
    ensures Eval(NodePoly(xs, i, n), z) == NodeProduct(xs, i, n, z)
  {
    if n == 0 {
      assert Eval([1], z) == 1 + z * Eval([], z);
    } else if n - 1 == i {
      NodePolyEval(xs, i, n - 1, z);
    } else {
      NodePolyEval(xs, i, n - 1, z);
      NodeStep(xs, i, n, z, NodePoly(xs, i, n - 1), NodeProduct(xs, i, n - 1, z));
    }
  }

  /** One more factor on both sides. */
  lemma NodeStep(xs: seq<int>, i: nat, n: nat, z: int, c: Poly, v: int)
    requires 0 < n <= |xs| && n - 1 != i && c == NodePoly(xs, i, n - 1) && v == NodeProduct(xs, i, n - 1, z)
    requires Eval(c, z) == v
    ensures Eval(NodePoly(xs, i, n), z) == (z - xs[n - 1]) * v == NodeProduct(xs, i, n, z)
  {
    EvalMulLinear(c, xs[n - 1], z);
  }

  /** The weight of point i at z: prod (z - xj) / prod (xi - xj), over j != i. */
  function Weight(p: int, xs: seq<int>, i: nat, z: int): int
    requires p >= 2 && i < |xs|
  {
    NodeProduct(xs, i, |xs|, z) * Inverse(p, NodeProduct(xs, i, |xs|, xs[i]))
  }

  /** The first n terms of Lagrange's formula at z. */
  function Lagrange(p: int, xs: seq<int>, ys: seq<int>, n: nat, z: int): int
    requires p >= 2 && |xs| == |ys| && n <= |xs|
  {
    if n == 0 then 0 else Lagrange(p, xs, ys, n - 1, z) + ys[n - 1] * Weight(p, xs, n - 1, z)
  }

  /** The same sum as a polynomial in z. */
  function LagrangePoly(p: int, xs: seq<int>, ys: seq<int>, n: nat): (c: Poly)
    requires p >= 2 && |xs| == |ys| && n <= |xs|
    ensures |c| == |xs|
  {
    if n == 0 then seq(|xs|, i => 0)
    else
      var i := n - 1;
      var k := ys[i] * Inverse(p, NodeProduct(xs, i, |xs|, xs[i]));
      Add(LagrangePoly(p, xs, ys, i), Scale(k, NodePoly(xs, i, |xs|)))
  }

  lemma {:induction false} EvalZeros(n: nat, z: int)
    ensures Eval(seq(n, i => 0), z) == 0
  {
    if n > 0 {
      EvalZeros(n - 1, z);
      assert seq(n, i => 0)[1..] == seq(n - 1, i => 0);
    }
  }

  lemma TermPolyEval(p: int, xs: seq<int>, y: int, i: nat, z: int)
    requires p >= 2 && i < |xs|
    ensures Eval(Scale(y * Inverse(p, NodeProduct(xs, i, |xs|, xs[i])), NodePoly(xs, i, |xs|)), z)
            == y * Weight(p, xs, i, z)
  {
    var inv, m := Inverse(p, NodeProduct(xs, i, |xs|, xs[i])), NodeProduct(xs, i, |xs|, z);
    EvalScale(y * inv, NodePoly(xs, i, |xs|), z);
    NodePolyEval(xs, i, |xs|, z);
    Rearrange(y, inv, m);
  }

  lemma Rearrange(y: int, inv: int, m: int)
    ensures (y * inv) * m == y * (m * inv)
  {
  }

  lemma {:induction false} LagrangePolyEval(p: int, xs: seq<int>, ys: seq<int>, n: nat, z: int)
    requires p >= 2 && |xs| == |ys| && n <= |xs|
    ensures Eval(LagrangePoly(p, xs, ys, n), z) == Lagrange(p, xs, ys, n, z)
  {
    if n == 0 {
      EvalZeros(|xs|, z);
    } else {
      var i := n - 1;
      var k := ys[i] * Inverse(p, NodeProduct(xs, i, |xs|, xs[i]));
      LagrangePolyEval(p, xs, ys, i, z);
      EvalAdd(LagrangePoly(p, xs, ys, i), Scale(k, NodePoly(xs, i, |xs|)), z);
      TermPolyEval(p, xs, ys[i], i, z);
    }
  }

  lemma {:induction false} NodeProductVanishes(xs: seq<int>, i: nat, n: nat, m: nat)
    requires m < n <= |xs| && m != i
    ensures NodeProduct(xs, i, n, xs[m]) == 0
  {
    if n - 1 != m {
      NodeProductVanishes(xs, i, n - 1, m);
    }
  }

  lemma {:induction false} NodeProductNonzero(p: int, xs: seq<int>, i: nat, n: nat)
    requires Prime(p) && i < |xs| && n <= |xs| && Distinct(p, xs)
    ensures !Divides(p, NodeProduct(xs, i, n, xs[i]))
  {
    if n == 0 {
      if Divides(p, 1) { DividesSmall(p, 1); }
    } else {
      NodeProductNonzero(p, xs, i, n - 1);
      var j := n - 1;
      if j != i && Divides(p, NodeProduct(xs, i, n, xs[i])) {
        EuclidLemma(p, xs[i] - xs[j], NodeProduct(xs, i, j, xs[i]));
        assert Cong(p, xs[i], xs[j]);
        if j < i { CongSym(p, xs[i], xs[j]); }
      }
    }
  }

  lemma WeightAtOwnNode(p: int, xs: seq<int>, i: nat)
    requires Prime(p) && i < |xs| && Distinct(p, xs)
    ensures Cong(p, Weight(p, xs, i, xs[i]), 1)
  {
    NodeProductNonzero(p, xs, i, |xs|);
    InverseIsInverse(p, NodeProduct(xs, i, |xs|, xs[i]));
  }

  lemma TermAtNode(p: int, xs: seq<int>, y: int, i: nat, m: nat)
    requires Prime(p) && i < |xs| && m < |xs| && Distinct(p, xs)
    ensures Cong(p, y * Weight(p, xs, i, xs[m]), if m == i then y else 0)
  {
    if i == m {
      WeightAtOwnNode(p, xs, i);
      CongRefl(p, y);
      CongMul(p, y, y, Weight(p, xs, i, xs[m]), 1);
    } else {
      NodeProductVanishes(xs, i, |xs|, m);
      CongRefl(p, 0);
      assert Weight(p, xs, i, xs[m]) == 0;
    }
  }

  /** Lagrange's formula passes through every one of its points. */
  lemma {:induction false} LagrangeInterpolates(p: int, xs: seq<int>, ys: seq<int>, n: nat, m: nat)
    requires Prime(p) && |xs| == |ys| && n <= |xs| && m < |xs| && Distinct(p, xs)
    ensures Cong(p, Lagrange(p, xs, ys, n, xs[m]), if m < n then ys[m] else 0)
  {
    if n == 0 {
      CongRefl(p, 0);
    } else {
      var i := n - 1;
      LagrangeInterpolates(p, xs, ys, i, m);
      TermAtNode(p, xs, ys[i], i, m);
      CongAdd(p, Lagrange(p, xs, ys, i, xs[m]), if m < i then ys[m] else 0,
              ys[i] * Weight(p, xs, i, xs[m]), if m == i then ys[i] else 0);
    }
  }

  function Pad(c: Poly, n: nat): (r: Poly)
    requires |c| <= n
    ensures |r| == n && c <= r
  {
    c + seq(n - |c|, i => 0)
  }

  lemma {:induction false} EvalPad(c: Poly, n: nat, x: int)
    requires |c| <= n
    ensures Eval(Pad(c, n), x) == Eval(c, x)
    decreases n
  {
    if |c| == n {
      assert Pad(c, n) == c;
    } else {
      EvalPad(c, n - 1, x);
      assert Pad(c, n) == Pad(c, n - 1) + [0];
      EvalSnoc(Pad(c, n - 1), 0, x);
    }
  }

  /** Interpolating enough values of a polynomial gives that polynomial's value at every z. */
  lemma LagrangeReproduces(p: int, c: Poly, xs: seq<int>, ys: seq<int>, z: int)
    requires Prime(p) && |c| <= |xs| == |ys| && Distinct(p, xs)
    requires forall i :: 0 <= i < |xs| ==> Cong(p, ys[i], Eval(c, xs[i]))
    ensures Cong(p, Lagrange(p, xs, ys, |xs|, z), Eval(c, z))
  {
    var l, d := LagrangePoly(p, xs, ys, |xs|), Pad(c, |xs|);
    forall i | 0 <= i < |xs| ensures Cong(p, Eval(l, xs[i]), Eval(d, xs[i])) {
      LagrangePolyEval(p, xs, ys, |xs|, xs[i]);
      LagrangeInterpolates(p, xs, ys, |xs|, i);
      EvalPad(c, |xs|, xs[i]);
      CongTrans(p, Eval(l, xs[i]), ys[i], Eval(c, xs[i]));
    }
    InterpolationUnique(p, l, d, xs);
    EvalCong(p, l, d, z);
    LagrangePolyEval(p, xs, ys, |xs|, z);
    EvalPad(c, |xs|, z);
  }
}
