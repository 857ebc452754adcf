/**
 Shamir secret sharing over GF(p): splitting a secret into points of a random polynomial and
 reconstructing it by Lagrange interpolation at zero.
 */
module Shamir {
  import opened PrimeField
  import opened Polynomial

  datatype Share = Share(shareIndex: int, x: int, y: int)

  datatype SplitResult = Split(shares: seq<Share>) | SecretTooLarge

  // ----- specification

  /** The polynomial that `Split` builds: the secret, then one reduced random value per further coefficient. */
  function Coefficients(p: int, secret: nat, t: int, rand: seq<nat>): (c: Poly)
    requires p > 0 && t - 1 <= |rand|
    ensures |c| == if t >= 1 then t else 1
  {
    [secret] + seq(if t >= 1 then t - 1 else 0, i requires 0 <= i < |rand| => rand[i] % p)
  }

  function ShareAt(p: int, coeffs: Poly, x: int): Share
    requires p > 0
  {
    Share(x, x, Eval(coeffs, x) % p)
  }

  function SharesOf(p: int, coeffs: Poly, n: nat): (s: seq<Share>)
    requires p > 0
    ensures |s| == n
  {
    seq(n, i => ShareAt(p, coeffs, i + 1))
  }

  function Xs(shares: seq<Share>): (xs: seq<int>)
    ensures |xs| == |shares|
  {
    seq(|shares|, i requires 0 <= i < |shares| => shares[i].x)
  }

  function Ys(shares: seq<Share>): (ys: seq<int>)
    ensures |ys| == |shares|
  {
    seq(|shares|, i requires 0 <= i < |shares| => shares[i].y)
  }

  /** Lagrange's formula at zero, reduced. */
  function Reconstructed(p: int, shares: seq<Share>): (r: int)
    requires p >= 2
    ensures 0 <= r < p
  {
    Lagrange(p, Xs(shares), Ys(shares), |shares|, 0) % p
  }

  ghost predicate Proper(p: int, t: nat, coeffs: Poly) {
    |coeffs| == t && forall i :: 0 <= i < t ==> 0 <= coeffs[i] < p
  }

  ghost predicate InField(p: int, shares: seq<Share>) {
    forall i :: 0 <= i < |shares| ==> 0 <= shares[i].x < p && 0 <= shares[i].y
  }

  // ----- the operations

  lemma ShiftedCong(p: int, a: int)
    requires p > 0
    ensures Cong(p, a + p, a)
  {
    DividesFrom(p, (a + p) - a, 1);
  }

  /** acc' = (acc * f) % p keeps tracking a product when f is congruent to the wanted factor. */
  lemma ProductStep(p: int, acc: int, spec: int, f: int, factor: int)
    requires p > 0 && Cong(p, acc, spec) && Cong(p, f, factor)
    ensures Cong(p, JsRem(acc * f, p), factor * spec)
  {
    CongMul(p, acc, spec, f, factor);
    CongJsRem(p, acc * f);
    CongTrans(p, JsRem(acc * f, p), acc * f, spec * factor);
  }

  lemma TermStep(p: int, y: int, num: int, den: int, numSpec: int, denSpec: int)
    requires p >= 2 && Cong(p, num, numSpec) && Cong(p, den, denSpec)
    ensures Cong(p, JsRem(JsRem(y * num, p) * Inverse(p, den), p), y * (numSpec * Inverse(p, denSpec)))
  {
    var inv := Inverse(p, denSpec);
    InverseCong(p, den, denSpec);
    CongRefl(p, y);
    CongRefl(p, inv);
    CongMul(p, y, y, num, numSpec);
    CongJsRem(p, y * num);
    CongTrans(p, JsRem(y * num, p), y * num, y * numSpec);
    CongMul(p, JsRem(y * num, p), y * numSpec, inv, inv);
    CongJsRem(p, JsRem(y * num, p) * inv);
    assert (y * numSpec) * inv == y * (numSpec * inv);
    CongTrans(p, JsRem(JsRem(y * num, p) * inv, p), JsRem(y * num, p) * inv, y * (numSpec * inv));
  }

  method LagrangeInterpolateAtZero(shares: seq<Share>, prime: int) returns (secret: int)
    requires prime >= 2
    ensures Cong(prime, secret, Lagrange(prime, Xs(shares), Ys(shares), |shares|, 0))
    ensures InField(prime, shares) ==> secret == Reconstructed(prime, shares)
  {
    ghost var xs, ys := Xs(shares), Ys(shares);
    secret := 0;
    var k := |shares|;
    CongRefl(prime, 0);
    for i := 0 to k
      invariant Cong(prime, secret, Lagrange(prime, xs, ys, i, 0))
      invariant InField(prime, shares) ==> 0 <= secret < prime
    {
      var num, den := WeightParts(shares, i, prime);
      var inv := ModInverse(den, prime);
      var term := JsRem(JsRem(shares[i].y * num, prime) * inv, prime);
      TermStep(prime, ys[i], num, den, NodeProduct(xs, i, k, 0), NodeProduct(xs, i, k, xs[i]));
      if InField(prime, shares) {
        TermNonNegative(prime, shares[i].y, num, inv);
      }
      CongAdd(prime, secret, Lagrange(prime, xs, ys, i, 0), term, ys[i] * Weight(prime, xs, i, 0));
      CongJsRem(prime, secret + term);
      CongTrans(prime, JsRem(secret + term, prime), secret + term, Lagrange(prime, xs, ys, i + 1, 0));
      secret := JsRem(secret + term, prime);
    }
    if InField(prime, shares) {
      CongMod(prime, Lagrange(prime, xs, ys, k, 0));
      CongTrans(prime, secret, Lagrange(prime, xs, ys, k, 0), Reconstructed(prime, shares));
      CongResidues(prime, secret, Reconstructed(prime, shares));
    }
  }

  lemma TermNonNegative(p: int, y: int, num: int, inv: int)
    requires p > 0 && y >= 0 && num >= 0 && inv >= 0
    ensures 0 <= JsRem(JsRem(y * num, p) * inv, p)
  {
    assert y * num >= 0;
    CongJsRem(p, y * num);
    assert JsRem(y * num, p) * inv >= 0;
    CongJsRem(p, JsRem(y * num, p) * inv);
  }

  lemma NumeratorStep(p: int, num: int, spec: int, xj: int)
    requires p > 0 && Cong(p, num, spec)
    ensures Cong(p, JsRem(num * (0 - xj + p), p), (0 - xj) * spec)
    ensures num >= 0 && xj <= p ==> JsRem(num * (0 - xj + p), p) >= 0
  {
    ShiftedCong(p, 0 - xj);
    ProductStep(p, num, spec, 0 - xj + p, 0 - xj);
    CongJsRem(p, num * (0 - xj + p));
    assert num >= 0 && xj <= p ==> num * (0 - xj + p) >= 0;
  }

  lemma DenominatorStep(p: int, den: int, spec: int, xi: int, xj: int)
    requires p > 0 && Cong(p, den, spec)
    ensures Cong(p, JsRem(den * JsRem(xi - xj + p, p), p), (xi - xj) * spec)
  {
    ShiftedCong(p, xi - xj);
    CongJsRem(p, xi - xj + p);
    CongTrans(p, JsRem(xi - xj + p, p), xi - xj + p, xi - xj);
    ProductStep(p, den, spec, JsRem(xi - xj + p, p), xi - xj);
  }

  /** The inner loop: numerator and denominator of the weight of share i. */
  method WeightParts(shares: seq<Share>, i: nat, prime: int) returns (num: int, den: int)
    requires prime >= 2 && i < |shares|
    ensures Cong(prime, num, NodeProduct(Xs(shares), i, |shares|, 0))
    ensures Cong(prime, den, NodeProduct(Xs(shares), i, |shares|, shares[i].x))
    ensures InField(prime, shares) ==> 0 <= num
  {
    ghost var xs := Xs(shares);
    num, den := 1, 1;
    CongRefl(prime, 1);
    for j := 0 to |shares|
      invariant Cong(prime, num, NodeProduct(xs, i, j, 0))
      invariant Cong(prime, den, NodeProduct(xs, i, j, xs[i]))
      invariant InField(prime, shares) ==> 0 <= num
    {
      if i != j {
        var xi, xj := shares[i].x, shares[j].x;
        var d := JsRem(xi - xj + prime, prime);
        NumeratorStep(prime, num, NodeProduct(xs, i, j, 0), xj);
        DenominatorStep(prime, den, NodeProduct(xs, i, j, xs[i]), xi, xj);
        num := JsRem(num * (0 - xj + prime), prime);
        den := JsRem(den * d, prime);
      }
    }
  }

  method ShamirSplit(secret: nat, t: int, n: nat, rand: seq<nat>, p: int) returns (r: SplitResult)
    requires p >= 2 && t - 1 <= |rand|
    ensures r.SecretTooLarge? <==> secret >= p
    ensures r.Split? ==> r.shares == SharesOf(p, Coefficients(p, secret, t, rand), n)
  {
    if secret >= p {
      return SecretTooLarge;
    }
    var coefficients := [secret];
    var i := 1;
    while i < t
      invariant 1 <= i && (t >= 1 ==> i <= t) && (t < 1 ==> i == 1)
      invariant coefficients == [secret] + seq(i - 1, j requires 0 <= j < |rand| => rand[j] % p)
    {
      coefficients := coefficients + [JsRem(rand[i - 1], p)];
      i := i + 1;
    }
    assert coefficients == Coefficients(p, secret, t, rand);
    var shares: seq<Share> := [];
    for x := 1 to n + 1
      invariant shares == SharesOf(p, coefficients, x - 1)
    {
      var y := EvaluateShare(coefficients, x, p);
      shares := shares + [Share(x, x, y)];
    }
    return Split(shares);
  }

  /** One more factor x on a term. */
  lemma PowerStep(p: int, term: nat, c: int, x: nat, e: nat)
    requires p >= 2 && Cong(p, term, c * Pow(x, e))
    ensures 0 <= JsRem(term * x, p) && Cong(p, JsRem(term * x, p), c * Pow(x, e + 1))
  {
    ProductStep(p, term, c * Pow(x, e), x, x) by { CongRefl(p, x); }
    assert x * (c * Pow(x, e)) == c * Pow(x, e + 1);
    assert term * x >= 0;
    CongJsRem(p, term * x);
  }

  /** One more term on the sum. */
  lemma SumStep(p: int, y: nat, init: Poly, c: int, term: nat, x: int)
    requires p >= 2 && Cong(p, y, Eval(init, x)) && Cong(p, term, c * Pow(x, |init|))
    ensures 0 <= JsRem(y + term, p) < p && Cong(p, JsRem(y + term, p), Eval(init + [c], x))
  {
    EvalSnoc(init, c, x);
    CongAdd(p, y, Eval(init, x), term, c * Pow(x, |init|));
    CongJsRem(p, y + term);
    CongTrans(p, JsRem(y + term, p), y + term, Eval(init + [c], x));
  }

  /** The two inner loops of the split: the polynomial's value at x, term by term. */
  method EvaluateShare(coefficients: seq<int>, x: nat, p: int) returns (y: int)
    requires p >= 2 && forall i :: 0 <= i < |coefficients| ==> 0 <= coefficients[i]
    ensures y == Eval(coefficients, x) % p
  {
    y := 0;
    CongRefl(p, 0);
    for exp := 0 to |coefficients|
      invariant 0 <= y < p && Cong(p, y, Eval(coefficients[..exp], x))
    {
      var term := coefficients[exp];
      CongRefl(p, term);
      for e := 0 to exp
        invariant 0 <= term && Cong(p, term, coefficients[exp] * Pow(x, e))
      {
        PowerStep(p, term, coefficients[exp], x, e);
        term := JsRem(term * x, p);
      }
      assert coefficients[..exp + 1] == coefficients[..exp] + [coefficients[exp]];
      SumStep(p, y, coefficients[..exp], coefficients[exp], term, x);
      y := JsRem(y + term, p);
    }
    assert coefficients[..|coefficients|] == coefficients;
    CongMod(p, Eval(coefficients, x));
    CongTrans(p, y, Eval(coefficients, x), Eval(coefficients, x) % p);
    CongResidues(p, y, Eval(coefficients, x) % p);
  }

  method ShamirReconstruct(shares: seq<Share>, p: int) returns (secret: int)
    requires p >= 2
    ensures Cong(p, secret, Reconstructed(p, shares))
    ensures InField(p, shares) ==> secret == Reconstructed(p, shares)
  {
    secret := LagrangeInterpolateAtZero(shares, p);
    CongMod(p, Lagrange(p, Xs(shares), Ys(shares), |shares|, 0));
    CongTrans(p, secret, Lagrange(p, Xs(shares), Ys(shares), |shares|, 0), Reconstructed(p, shares));
  }

  // ----- reconstruction

  /** The shares handed in by the given nodes. */
  function Contributed(p: int, coeffs: Poly, nodes: seq<int>): (s: seq<Share>)
    requires p > 0
    ensures |s| == |nodes|
  {
    seq(|nodes|, i requires 0 <= i < |nodes| => ShareAt(p, coeffs, nodes[i]))
  }

  ghost predicate NodesInField(p: int, nodes: seq<int>) {
    forall i :: 0 <= i < |nodes| ==> 1 <= nodes[i] < p
  }

  lemma DistinctResidues(p: int, nodes: seq<int>)
    requires p > 0 && NodesInField(p, nodes) && Injective(nodes)
    ensures Distinct(p, nodes)
  {
    forall i, j | 0 <= i < j < |nodes| ensures !Cong(p, nodes[i], nodes[j]) {
      if Cong(p, nodes[i], nodes[j]) { CongResidues(p, nodes[i], nodes[j]); }
    }
  }

  lemma EvalAtZero(c: Poly)
    requires c != []
    ensures Eval(c, 0) == c[0]
  {
  }

  /** Any threshold-many (or more) distinct shares reconstruct exactly the secret. */
  lemma ReconstructionTheorem(p: int, coeffs: Poly, nodes: seq<int>)
    requires Prime(p) && 1 <= |coeffs| <= |nodes| && 0 <= coeffs[0] < p
    requires NodesInField(p, nodes) && Injective(nodes)
    ensures Reconstructed(p, Contributed(p, coeffs, nodes)) == coeffs[0]
  {
    var shares := Contributed(p, coeffs, nodes);
    var ys := Ys(shares);
    assert Xs(shares) == nodes;
    DistinctResidues(p, nodes);
    forall i | 0 <= i < |nodes| ensures Cong(p, ys[i], Eval(coeffs, nodes[i])) {
      CongMod(p, Eval(coeffs, nodes[i]));
    }
    LagrangeReproduces(p, coeffs, nodes, ys, 0);
    EvalAtZero(coeffs);
    ResidueOf(p, Lagrange(p, nodes, ys, |nodes|, 0), coeffs[0]);
  }

  // ----- secrecy

  /** The random coefficients a turn `secret` into a polynomial through the points (xs[i], ys[i]). */
  ghost predicate Explains(p: int, t: nat, secret: int, a: seq<int>, xs: seq<int>, ys: seq<int>)
    requires p > 0 && |xs| == |ys|
  {
    && t >= 1 && Proper(p, t - 1, a)
    && forall i :: 0 <= i < |xs| ==> Eval([secret] + a, xs[i]) % p == ys[i]
  }

  function Residues(p: int, c: Poly): (r: Poly)
    requires p > 0
    ensures |r| == |c| && forall i :: 0 <= i < |c| ==> r[i] == c[i] % p
  {
    seq(|c|, i requires 0 <= i < |c| => c[i] % p)
  }

  lemma EvalResidues(p: int, c: Poly, x: int)
    requires p > 0
    ensures Cong(p, Eval(Residues(p, c), x), Eval(c, x))
  {
    forall i | 0 <= i < |c| ensures Cong(p, Residues(p, c)[i], c[i]) {
      CongMod(p, c[i]);
    }
    EvalCong(p, Residues(p, c), c, x);
  }

  lemma DistinctWithZero(p: int, xs: seq<int>)
    requires p > 0 && NodesInField(p, xs) && Injective(xs)
    ensures Distinct(p, [0] + xs)
  {
    var xs' := [0] + xs;
    forall i, j | 0 <= i < j < |xs'| ensures !Cong(p, xs'[i], xs'[j]) {
      if Cong(p, xs'[i], xs'[j]) { CongResidues(p, xs'[i], xs'[j]); }
    }
  }

  lemma InterpolantValue(p: int, t: nat, xs: seq<int>, ys: seq<int>, i: nat)
    requires Prime(p) && |xs| == |ys| <= t && Distinct(p, xs) && i < |xs|
    ensures Cong(p, Eval(Pad(LagrangePoly(p, xs, ys, |xs|), t), xs[i]), ys[i])
  {
    EvalPad(LagrangePoly(p, xs, ys, |xs|), t, xs[i]);
    LagrangePolyEval(p, xs, ys, |xs|, xs[i]);
    LagrangeInterpolates(p, xs, ys, |xs|, i);
  }

  /** The reduced, padded Lagrange polynomial through the points. */
  lemma InterpolantValues(p: int, t: nat, xs: seq<int>, ys: seq<int>) returns (c: Poly)
    requires Prime(p) && |xs| == |ys| <= t && Distinct(p, xs)
    requires forall i :: 0 <= i < |ys| ==> 0 <= ys[i] < p
    ensures Proper(p, t, c)
    ensures forall i :: 0 <= i < |xs| ==> Eval(c, xs[i]) % p == ys[i]
  {
    var l := Pad(LagrangePoly(p, xs, ys, |xs|), t);
    c := Residues(p, l);
    forall i | 0 <= i < |xs| ensures Eval(c, xs[i]) % p == ys[i] {
      InterpolantValue(p, t, xs, ys, i);
      EvalResidues(p, l, xs[i]);
      CongTrans(p, Eval(c, xs[i]), Eval(l, xs[i]), ys[i]);
      ResidueOf(p, Eval(c, xs[i]), ys[i]);
    }
  }

  /** Fewer than t shares can be explained by every secret. */
  lemma EverySecretPossible(p: int, t: nat, secret: int, xs: seq<int>, ys: seq<int>) returns (a: seq<int>)
    requires Prime(p) && |xs| == |ys| < t && 0 <= secret < p
    requires NodesInField(p, xs) && Injective(xs)
    requires forall i :: 0 <= i < |ys| ==> 0 <= ys[i] < p
    ensures Explains(p, t, secret, a, xs, ys)
  {
    var xs', ys' := [0] + xs, [secret] + ys;
    DistinctWithZero(p, xs);
    var c := InterpolantValues(p, t, xs', ys');
    a := c[1..];
    EvalAtZero(c);
    assert Eval(c, xs'[0]) % p == ys'[0];
    SmallResidueIsItself(c[0], p);
    assert c == [secret] + a;
    forall i | 0 <= i < |xs| ensures Eval([secret] + a, xs[i]) % p == ys[i] {
      assert xs'[i + 1] == xs[i] && ys'[i + 1] == ys[i];
    }
  }

  lemma SmallResidueIsItself(x: int, p: int)
    requires 0 <= x < p
    ensures x % p == x
  {
  }

  lemma OnlyOneExplanation(p: int, t: nat, secret: int, xs: seq<int>, ys: seq<int>, a: seq<int>, b: seq<int>)
    requires Prime(p) && |xs| == |ys| == t - 1 && 0 <= secret < p
    requires NodesInField(p, xs) && Injective(xs)
    requires Explains(p, t, secret, a, xs, ys) && Explains(p, t, secret, b, xs, ys)
    ensures a == b
  {
    var xs', c, d := [0] + xs, [secret] + a, [secret] + b;
    DistinctWithZero(p, xs);
    forall i | 0 <= i < |xs'| ensures Cong(p, Eval(c, xs'[i]), Eval(d, xs'[i])) {
      if i == 0 {
        EvalAtZero(c);
        EvalAtZero(d);
        CongRefl(p, secret);
      } else {
        assert xs'[i] == xs[i - 1];
        CongSameMod(p, Eval(c, xs'[i]), Eval(d, xs'[i]));
      }
    }
    InterpolationUnique(p, c, d, xs');
    forall i | 0 <= i < |a| ensures a[i] == b[i] {
      assert Cong(p, c[i + 1], d[i + 1]);
      CongResidues(p, a[i], b[i]);
    }
  }

  /**
   Perfect secrecy: t-1 distinct shares are consistent with every secret of the field, each through
   exactly one choice of the t-1 random coefficients.
   */
  lemma SecrecyTheorem(p: int, t: nat, secret: int, xs: seq<int>, ys: seq<int>)
    requires Prime(p) && |xs| == |ys| == t - 1 && 0 <= secret < p
    requires NodesInField(p, xs) && Injective(xs)
    requires forall i :: 0 <= i < |ys| ==> 0 <= ys[i] < p
    ensures exists a :: Explains(p, t, secret, a, xs, ys)
                        && forall b :: Explains(p, t, secret, b, xs, ys) ==> b == a
  {
    var a := EverySecretPossible(p, t, secret, xs, ys);
    forall b | Explains(p, t, secret, b, xs, ys) ensures b == a {
      OnlyOneExplanation(p, t, secret, xs, ys, a, b);
    }
  }

  // ----- secrecy of the split itself

  /** One random value of the field per coefficient above the constant one. */
  ghost predicate FieldRandom(p: int, t: nat, rand: seq<nat>) {
    |rand| == t - 1 && forall i :: 0 <= i < |rand| ==> rand[i] < p
  }

  /** Splitting with these random values gives the nodes xs the share values ys. */
  ghost predicate SplitGives(p: int, secret: nat, t: nat, n: nat, rand: seq<nat>, xs: seq<int>, ys: seq<int>)
    requires p > 0 && t - 1 <= |rand| && |xs| == |ys|
  {
    var shares := SharesOf(p, Coefficients(p, secret, t, rand), n);
    forall i :: 0 <= i < |xs| ==> 1 <= xs[i] <= n && shares[xs[i] - 1].y == ys[i]
  }

  /** The random values of the field are the coefficients themselves. */
  lemma SplitGivesIff(p: int, secret: nat, t: nat, n: nat, rand: seq<nat>, xs: seq<int>, ys: seq<int>)
    requires p > 0 && t >= 1 && FieldRandom(p, t, rand) && |xs| == |ys|
    requires forall i :: 0 <= i < |xs| ==> 1 <= xs[i] <= n
    ensures SplitGives(p, secret, t, n, rand, xs, ys) <==> Explains(p, t, secret, rand, xs, ys)
  {
    forall i | 0 <= i < |rand| ensures Coefficients(p, secret, t, rand)[i + 1] == rand[i] {
      SmallResidueIsItself(rand[i], p);
    }
    assert Coefficients(p, secret, t, rand) == [secret] + rand;
    var shares := SharesOf(p, [secret] + rand, n);
    forall i | 0 <= i < |xs| ensures shares[xs[i] - 1].y == Eval([secret] + rand, xs[i]) % p {
    }
  }

  /**
   Perfect secrecy of a split: whatever t-1 nodes see is produced, for every secret, by exactly one
   choice of the t-1 random values.
   */
  lemma SplitSecrecy(p: int, secret: nat, t: nat, n: nat, xs: seq<int>, ys: seq<int>) returns (rand: seq<nat>)
    requires Prime(p) && n < p && |xs| == |ys| == t - 1 && secret < p && Injective(xs)
    requires forall i :: 0 <= i < |xs| ==> 1 <= xs[i] <= n && 0 <= ys[i] < p
    ensures FieldRandom(p, t, rand) && SplitGives(p, secret, t, n, rand, xs, ys)
    ensures forall other: seq<nat> :: FieldRandom(p, t, other) && SplitGives(p, secret, t, n, other, xs, ys) ==> other == rand
  {
    var a := EverySecretPossible(p, t, secret, xs, ys);
    rand := seq(t - 1, i requires 0 <= i < t - 1 => a[i]);
    assert rand == a;
    SplitGivesIff(p, secret, t, n, rand, xs, ys);
    forall other: seq<nat> | FieldRandom(p, t, other) && SplitGives(p, secret, t, n, other, xs, ys) ensures other == rand {
      SplitGivesIff(p, secret, t, n, other, xs, ys);
      OnlyOneExplanation(p, t, secret, xs, ys, other, rand);
    }
  }

  /** Random values outside the field act as their residues, and unused ones do not matter. */
  lemma SplitUsesResidues(p: int, secret: nat, t: nat, rand: seq<nat>, field: seq<nat>)
    requires p > 0 && t >= 1 && t - 1 <= |rand| && FieldRandom(p, t, field)
    requires forall i :: 0 <= i < t - 1 ==> Cong(p, rand[i], field[i])
    ensures Coefficients(p, secret, t, rand) == Coefficients(p, secret, t, field)
  {
    forall i | 0 <= i < t - 1 ensures rand[i] % p == field[i] % p {
      ResidueOf(p, rand[i], field[i]);
      SmallResidueIsItself(field[i], p);
    }
    SameTail(p, t - 1, rand, field);
  }

  lemma SameTail(p: int, n: nat, rand: seq<nat>, field: seq<nat>)
    requires p > 0 && n <= |rand| && n <= |field| && forall i :: 0 <= i < n ==> rand[i] % p == field[i] % p
    ensures seq(n, i requires 0 <= i < |rand| => rand[i] % p) == seq(n, i requires 0 <= i < |field| => field[i] % p)
  {
  }

  /** The shares that the given nodes hold after a split. */
  function Held(shares: seq<Share>, nodes: seq<int>): (s: seq<Share>)
    requires forall i :: 0 <= i < |nodes| ==> 1 <= nodes[i] <= |shares|
    ensures |s| == |nodes|
  {
    seq(|nodes|, i requires 0 <= i < |nodes| => shares[nodes[i] - 1])
  }

  /** Split, then reconstruct: t or more distinct nodes get the secret back, whatever the random values. */
  lemma SplitThenReconstruct(p: int, secret: nat, t: int, n: nat, rand: seq<nat>, nodes: seq<int>)
    requires Prime(p) && n < p && secret < p && t - 1 <= |rand| && Injective(nodes) && |nodes| >= 1 && |nodes| >= t
    requires forall i :: 0 <= i < |nodes| ==> 1 <= nodes[i] <= n
    ensures Reconstructed(p, Held(SharesOf(p, Coefficients(p, secret, t, rand), n), nodes)) == secret
  {
    var c := Coefficients(p, secret, t, rand);
    assert Held(SharesOf(p, c, n), nodes) == Contributed(p, c, nodes);
    ReconstructionTheorem(p, c, nodes);
  }

  // ----- repeated nodes

  /** The list with later repetitions dropped. */
  function Deduplicated(nodes: seq<int>): (d: seq<int>)
    ensures |d| <= |nodes|
    ensures forall x :: x in d <==> x in nodes
  {
    if nodes == [] then []
    else
      var d, last := Deduplicated(nodes[..|nodes| - 1]), nodes[|nodes| - 1];
      assert forall x :: x in nodes <==> x in nodes[..|nodes| - 1] || x == last;
      if last in d then d else d + [last]
  }

  lemma {:induction false} DeduplicatedInjective(nodes: seq<int>)
    ensures Injective(Deduplicated(nodes))
    ensures Injective(nodes) <==> |Deduplicated(nodes)| == |nodes|
  {
    if nodes != [] {
      var init, last := nodes[..|nodes| - 1], nodes[|nodes| - 1];
      DeduplicatedInjective(init);
      if last in init {
        var k :| 0 <= k < |init| && init[k] == last;
        assert nodes[k] == nodes[|nodes| - 1];
      } else if Injective(init) {
        assert Injective(nodes);
      } else {
        var i, j :| 0 <= i < j < |init| && init[i] == init[j];
        assert nodes[i] == nodes[j];
      }
    }
  }

  /** Whether these nodes reconstruct every secret shared with threshold t. */
  ghost predicate AlwaysReconstructs(p: int, t: nat, nodes: seq<int>)
    requires p >= 2 && t >= 1
  {
    forall c :: Proper(p, t, c) ==> Reconstructed(p, Contributed(p, c, nodes)) == c[0]
  }

  /** The sum over the first n nodes of their weight at zero times their k-th power. */
  function Moment(p: int, nodes: seq<int>, k: nat, n: nat): int
    requires p >= 2 && n <= |nodes|
  {
    if n == 0 then 0 else Moment(p, nodes, k, n - 1) + Pow(nodes[n - 1], k) * Weight(p, nodes, n - 1, 0)
  }

  /** The weights of the nodes evaluate every power below t at zero. */
  ghost predicate MomentsMatch(p: int, t: nat, nodes: seq<int>)
    requires p >= 2
  {
    forall k :: 0 <= k < t ==> Cong(p, Moment(p, nodes, k, |nodes|), if k == 0 then 1 else 0)
  }

  function Values(c: Poly, nodes: seq<int>): (ys: seq<int>)
    ensures |ys| == |nodes|
  {
    seq(|nodes|, i requires 0 <= i < |nodes| => Eval(c, nodes[i]))
  }

  lemma {:induction false} LagrangeCong(p: int, xs: seq<int>, ys: seq<int>, zs: seq<int>, n: nat)
    requires p >= 2 && |xs| == |ys| == |zs| && n <= |xs|
    requires forall i :: 0 <= i < |xs| ==> Cong(p, ys[i], zs[i])
    ensures Cong(p, Lagrange(p, xs, ys, n, 0), Lagrange(p, xs, zs, n, 0))
  {
    if n == 0 {
      CongRefl(p, 0);
    } else {
      var w := Weight(p, xs, n - 1, 0);
      LagrangeCong(p, xs, ys, zs, n - 1);
      CongRefl(p, w);
      CongMul(p, ys[n - 1], zs[n - 1], w, w);
      CongAdd(p, Lagrange(p, xs, ys, n - 1, 0), Lagrange(p, xs, zs, n - 1, 0), ys[n - 1] * w, zs[n - 1] * w);
    }
  }

  /** What a list of nodes reconstructs, before reduction. */
  lemma ReconstructedCong(p: int, c: Poly, nodes: seq<int>)
    requires p >= 2
    ensures Cong(p, Reconstructed(p, Contributed(p, c, nodes)), Lagrange(p, nodes, Values(c, nodes), |nodes|, 0))
  {
    var shares := Contributed(p, c, nodes);
    assert Xs(shares) == nodes;
    forall i | 0 <= i < |nodes| ensures Cong(p, Ys(shares)[i], Values(c, nodes)[i]) {
      CongMod(p, Eval(c, nodes[i]));
    }
    LagrangeCong(p, nodes, Ys(shares), Values(c, nodes), |nodes|);
    CongMod(p, Lagrange(p, nodes, Ys(shares), |nodes|, 0));
    CongTrans(p, Reconstructed(p, shares), Lagrange(p, nodes, Ys(shares), |nodes|, 0),
              Lagrange(p, nodes, Values(c, nodes), |nodes|, 0));
  }

  /** Interpolation is linear: one more coefficient adds its multiple of a moment. */
  lemma {:induction false} LagrangeSnoc(p: int, c: Poly, a: int, nodes: seq<int>, n: nat)
    requires p >= 2 && n <= |nodes|
    ensures Lagrange(p, nodes, Values(c + [a], nodes), n, 0)
            == Lagrange(p, nodes, Values(c, nodes), n, 0) + a * Moment(p, nodes, |c|, n)
  {
    if n > 0 {
      LagrangeSnoc(p, c, a, nodes, n - 1);
      EvalSnoc(c, a, nodes[n - 1]);
      LinearTerm(Eval(c, nodes[n - 1]), a, Pow(nodes[n - 1], |c|), Weight(p, nodes, n - 1, 0),
                 Moment(p, nodes, |c|, n - 1));
    }
  }

  lemma LinearTerm(e: int, a: int, x: int, w: int, m: int)
    ensures (e + a * x) * w == e * w + a * (x * w)
    ensures a * (m + x * w) == a * m + a * (x * w)
  {
  }

  lemma {:induction false} ValuesOfNothing(p: int, nodes: seq<int>, n: nat)
    requires p >= 2 && n <= |nodes|
    ensures Lagrange(p, nodes, Values([], nodes), n, 0) == 0
  {
    if n > 0 { ValuesOfNothing(p, nodes, n - 1); }
  }

  lemma {:induction false} MatchingMomentsReconstruct(p: int, t: nat, nodes: seq<int>, c: Poly, k: nat)
    requires p >= 2 && MomentsMatch(p, t, nodes) && |c| == t && k <= t
    ensures Cong(p, Lagrange(p, nodes, Values(c[..k], nodes), |nodes|, 0), if k == 0 then 0 else c[0])
  {
    if k == 0 {
      assert c[..0] == [];
      ValuesOfNothing(p, nodes, |nodes|);
      CongRefl(p, 0);
    } else {
      var a, m := c[k - 1], Moment(p, nodes, k - 1, |nodes|);
      var want := if k == 1 then 1 else 0;
      MatchingMomentsReconstruct(p, t, nodes, c, k - 1);
      LagrangeSnoc(p, c[..k - 1], a, nodes, |nodes|);
      assert c[..k] == c[..k - 1] + [a];
      CongRefl(p, a);
      CongMul(p, a, a, m, want);
      CongAdd(p, Lagrange(p, nodes, Values(c[..k - 1], nodes), |nodes|, 0), if k == 1 then 0 else c[0], a * m, a * want);
    }
  }

  /** The polynomial X^k, written with t coefficients. */
  function Monomial(k: nat, t: nat): (c: Poly)
    requires k < t
    ensures |c| == t
  {
    Pad(seq(k, i => 0) + [1], t)
  }

  lemma {:induction false} MonomialMoment(p: int, k: nat, t: nat, nodes: seq<int>, n: nat)
    requires p >= 2 && k < t && n <= |nodes|
    ensures Lagrange(p, nodes, Values(Monomial(k, t), nodes), n, 0) == Moment(p, nodes, k, n)
  {
    if n > 0 {
      MonomialMoment(p, k, t, nodes, n - 1);
      EvalPad(seq(k, i => 0) + [1], t, nodes[n - 1]);
      EvalSnoc(seq(k, i => 0), 1, nodes[n - 1]);
      EvalZeros(k, nodes[n - 1]);
    }
  }

  lemma MonomialProper(p: int, k: nat, t: nat)
    requires p >= 2 && k < t
    ensures Proper(p, t, Monomial(k, t)) && Monomial(k, t)[0] == if k == 0 then 1 else 0
  {
  }

  /** Participants whose moments match recover the secret of every polynomial. */
  lemma MatchingMomentsRecover(p: int, t: nat, c: Poly, nodes: seq<int>)
    requires p >= 2 && t >= 1 && |c| == t && 0 <= c[0] < p && MomentsMatch(p, t, nodes)
    ensures Reconstructed(p, Contributed(p, c, nodes)) == c[0]
  {
    ReconstructedCong(p, c, nodes);
    MatchingMomentsReconstruct(p, t, nodes, c, t);
    assert c[..t] == c;
    CongTrans(p, Reconstructed(p, Contributed(p, c, nodes)), Lagrange(p, nodes, Values(c, nodes), |nodes|, 0), c[0]);
    CongResidues(p, Reconstructed(p, Contributed(p, c, nodes)), c[0]);
  }

  /**
   The exact condition, for every list of participants, with or without repetitions, and every
   threshold: all secrets are recovered if and only if the moments of the weights match.
   */
  lemma AlwaysReconstructsIff(p: int, t: nat, nodes: seq<int>)
    requires p >= 2 && t >= 1
    ensures AlwaysReconstructs(p, t, nodes) <==> MomentsMatch(p, t, nodes)
  {
    if MomentsMatch(p, t, nodes) {
      forall c | Proper(p, t, c) ensures Reconstructed(p, Contributed(p, c, nodes)) == c[0] {
        MatchingMomentsRecover(p, t, c, nodes);
      }
    }
    if AlwaysReconstructs(p, t, nodes) {
      forall k | 0 <= k < t ensures Cong(p, Moment(p, nodes, k, |nodes|), if k == 0 then 1 else 0) {
        var c := Monomial(k, t);
        MonomialProper(p, k, t);
        ReconstructedCong(p, c, nodes);
        MonomialMoment(p, k, t, nodes, |nodes|);
        CongSym(p, Reconstructed(p, Contributed(p, c, nodes)), Moment(p, nodes, k, |nodes|));
      }
    }
  }

  /** A node named twice has weight zero: its share is ignored. */
  lemma RepeatedNodeWeighsNothing(p: int, nodes: seq<int>, i: nat, j: nat)
    requires p > 2 && i < |nodes| && j < |nodes| && i != j && nodes[i] == nodes[j]
    ensures Weight(p, nodes, i, 0) == 0
  {
    NodeProductVanishes(nodes, i, |nodes|, j);
    DividesFrom(p, 0, 0);
    InverseOfZero(p, NodeProduct(nodes, i, |nodes|, nodes[i]));
  }

  predicate NamedOnce(nodes: seq<int>, i: nat)
    requires i < |nodes|
  {
    forall j :: 0 <= j < |nodes| && j != i ==> nodes[j] != nodes[i]
  }

  /** The nodes among the first n that the whole list names exactly once. */
  function OnceOnly(nodes: seq<int>, n: nat): (r: seq<int>)
    requires n <= |nodes|
    ensures |r| <= n
    ensures forall x :: x in r ==> x in nodes[..n]
    ensures forall i :: 0 <= i < n && NamedOnce(nodes, i) ==> nodes[i] in r
  {
    if n == 0 then []
    else
      var r := OnceOnly(nodes, n - 1);
      assert nodes[..n] == nodes[..n - 1] + [nodes[n - 1]];
      if NamedOnce(nodes, n - 1) then r + [nodes[n - 1]] else r
  }

  lemma {:induction false} OnceOnlyInjective(nodes: seq<int>, n: nat)
    requires n <= |nodes|
    ensures Injective(OnceOnly(nodes, n))
  {
    if n > 0 {
      OnceOnlyInjective(nodes, n - 1);
      var r := OnceOnly(nodes, n - 1);
      if NamedOnce(nodes, n - 1) {
        forall i | 0 <= i < |r| ensures r[i] != nodes[n - 1] {
          assert r[i] in nodes[..n - 1];
        }
      }
    }
  }

  lemma {:induction false} IgnoredOrZero(p: int, c: Poly, nodes: seq<int>, n: nat)
    requires p > 2 && n <= |nodes|
    requires forall i :: 0 <= i < |nodes| && NamedOnce(nodes, i) ==> Cong(p, Eval(c, nodes[i]), 0)
    ensures Cong(p, Lagrange(p, nodes, Values(c, nodes), n, 0), 0)
  {
    CongRefl(p, 0);
    if n > 0 {
      var i := n - 1;
      var w := Weight(p, nodes, i, 0);
      IgnoredOrZero(p, c, nodes, i);
      if NamedOnce(nodes, i) {
        CongRefl(p, w);
        CongMul(p, Eval(c, nodes[i]), 0, w, w);
      } else {
        var j :| 0 <= j < |nodes| && j != i && nodes[j] == nodes[i];
        RepeatedNodeWeighsNothing(p, nodes, i, j);
      }
      CongAdd(p, Lagrange(p, nodes, Values(c, nodes), i, 0), 0, Eval(c, nodes[i]) * w, 0);
    }
  }

  /** However long the list, fewer than t nodes named exactly once fail for some secret. */
  lemma TooFewNamedOnce(p: int, t: nat, nodes: seq<int>)
    requires Prime(p) && p > 2 && t >= 1 && NodesInField(p, nodes) && |OnceOnly(nodes, |nodes|)| < t
    ensures !AlwaysReconstructs(p, t, nodes)
  {
    var xs := OnceOnly(nodes, |nodes|);
    var zeros := seq(|xs|, i => 0);
    OnceOnlyInjective(nodes, |nodes|);
    assert nodes[..|nodes|] == nodes;
    forall i | 0 <= i < |xs| ensures 1 <= xs[i] < p { assert xs[i] in nodes; }
    var a := EverySecretPossible(p, t, 1, xs, zeros);
    var c := [1] + a;
    forall i | 0 <= i < |nodes| && NamedOnce(nodes, i) ensures Cong(p, Eval(c, nodes[i]), 0) {
      assert nodes[i] in xs;
      var k :| 0 <= k < |xs| && xs[k] == nodes[i];
      assert Eval(c, xs[k]) % p == zeros[k];
    }
    IgnoredOrZero(p, c, nodes, |nodes|);
    ReconstructedCong(p, c, nodes);
    CongTrans(p, Reconstructed(p, Contributed(p, c, nodes)), Lagrange(p, nodes, Values(c, nodes), |nodes|, 0), 0);
    CongResidues(p, Reconstructed(p, Contributed(p, c, nodes)), 0);
    assert Proper(p, t, c);
  }

  /** A third participant that repeats the second makes two distinct participants fail. */
  lemma RepeatedExtraNodeFails(p: int, a: int, b: int)
    requires Prime(p) && 1 <= a < p && 1 <= b < p && a != b && p > 2
    ensures !AlwaysReconstructs(p, 2, [a, b, b])
  {
    var nodes := [a, b, b];
    assert nodes[1] == nodes[2];
    assert !NamedOnce(nodes, 1) && !NamedOnce(nodes, 2);
    assert OnceOnly(nodes, 3) == OnceOnly(nodes, 2) == OnceOnly(nodes, 1);
    TooFewNamedOnce(p, 2, nodes);
  }

  /** Yet repetitions can be harmless: with threshold 1 the nodes 2, 1, 1 recover every secret. */
  lemma RepeatedNodesMayRecover(p: int)
    requires p > 2
    ensures AlwaysReconstructs(p, 1, [2, 1, 1])
  {
    var nodes := [2, 1, 1];
    RepeatedNodeWeighsNothing(p, nodes, 1, 2);
    RepeatedNodeWeighsNothing(p, nodes, 2, 1);
    LoneWeight(p, nodes);
    assert Moment(p, nodes, 0, 1) == Moment(p, nodes, 0, 0) + Pow(2, 0) * Weight(p, nodes, 0, 0);
    assert Moment(p, nodes, 0, 2) == Moment(p, nodes, 0, 1) + Pow(1, 0) * Weight(p, nodes, 1, 0);
    assert Moment(p, nodes, 0, 3) == Moment(p, nodes, 0, 2) + Pow(1, 0) * Weight(p, nodes, 2, 0);
    DividesFrom(p, 0, 0);
    AlwaysReconstructsIff(p, 1, nodes);
  }

  lemma LoneWeight(p: int, nodes: seq<int>)
    requires p > 2 && nodes == [2, 1, 1]
    ensures Weight(p, nodes, 0, 0) == 1
  {
    LoneProduct(nodes, 0);
    LoneProduct(nodes, 2);
    PowOfOne(p - 2);
  }

  lemma LoneProduct(nodes: seq<int>, z: int)
    requires nodes == [2, 1, 1]
    ensures NodeProduct(nodes, 0, 3, z) == (z - 1) * (z - 1)
  {
    assert NodeProduct(nodes, 0, 1, z) == NodeProduct(nodes, 0, 0, z) == 1;
    assert NodeProduct(nodes, 0, 2, z) == (z - 1) * NodeProduct(nodes, 0, 1, z) == z - 1;
    assert NodeProduct(nodes, 0, 3, z) == (z - 1) * NodeProduct(nodes, 0, 2, z);
  }

  lemma {:induction false} PowOfOne(n: nat)
    ensures Pow(1, n) == 1
  {
    if n > 0 { PowOfOne(n - 1); }
  }

  /** Nodes that are fewer than t once repetitions are dropped cannot reconstruct every secret. */
  lemma TooFewDistinctNodes(p: int, t: nat, nodes: seq<int>)
    requires Prime(p) && t >= 1 && NodesInField(p, nodes) && |Deduplicated(nodes)| < t
    ensures !AlwaysReconstructs(p, t, nodes)
  {
    var xs := Deduplicated(nodes);
    var zeros := seq(|xs|, i => 0);
    DeduplicatedInjective(nodes);
    assert NodesInField(p, xs) by {
      forall i | 0 <= i < |xs| ensures 1 <= xs[i] < p { assert xs[i] in nodes; }
    }
    var a := EverySecretPossible(p, t, 1, xs, zeros);
    var one, zero := [1] + a, seq(t, i => 0);
    forall i | 0 <= i < |nodes| ensures ShareAt(p, one, nodes[i]) == ShareAt(p, zero, nodes[i]) {
      assert nodes[i] in xs;
      var k :| 0 <= k < |xs| && xs[k] == nodes[i];
      assert Eval(one, xs[k]) % p == zeros[k];
      EvalZeros(t, nodes[i]);
    }
    assert Contributed(p, one, nodes) == Contributed(p, zero, nodes);
    assert Proper(p, t, one) && Proper(p, t, zero);
  }

  /** With exactly t participants the moments match if and only if no node is named twice. */
  lemma ExactThresholdIffDistinct(p: int, t: nat, nodes: seq<int>)
    requires Prime(p) && t >= 1 && |nodes| == t && NodesInField(p, nodes)
    ensures MomentsMatch(p, t, nodes) <==> Injective(nodes)
    ensures AlwaysReconstructs(p, t, nodes) <==> Injective(nodes)
  {
    AlwaysReconstructsIff(p, t, nodes);
    DeduplicatedInjective(nodes);
    if Injective(nodes) {
      forall c | Proper(p, t, c) ensures Reconstructed(p, Contributed(p, c, nodes)) == c[0] {
        ReconstructionTheorem(p, c, nodes);
      }
    } else {
      TooFewDistinctNodes(p, t, nodes);
    }
  }
}
