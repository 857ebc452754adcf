/**
 Arithmetic modulo a prime: congruence, Euclid's lemma, Fermat's little theorem,
 and the square-and-multiply modular inverse of the proof service.
 */
module PrimeField {

  /** JavaScript's `%` on bigints: the remainder takes the sign of the dividend. */
  function JsRem(a: int, m: int): int
    requires m > 0
  {
    if a >= 0 then a % m else -((-a) % m)
  }

  predicate Divides(p: int, x: int)
    requires p > 0
  {
    x % p == 0
  }

  predicate Cong(p: int, a: int, b: int)
    requires p > 0
  {
    Divides(p, a - b)
  }

  ghost predicate Prime(p: int) {
    p >= 2 && forall m :: 2 <= m < p ==> !Divides(m, p)
  }

  function Pow(b: int, e: nat): int {
    if e == 0 then 1 else b * Pow(b, e - 1)
  }

  // ----- divisibility

  lemma MultipleIsDivisible(p: int, k: int)
    requires p > 0
    ensures Divides(p, k * p)
  {
    var q, r := (k * p) / p, (k * p) % p;
    assert (k - q) * p == r;
    assert k - q >= 1 ==> (k - q) * p >= p;
    assert k - q <= -1 ==> (k - q) * p <= -p;
  }

  lemma DividesFrom(p: int, x: int, k: int)
    requires p > 0 && x == k * p
    ensures Divides(p, x)
  {
    MultipleIsDivisible(p, k);
  }

  lemma Quotient(p: int, x: int) returns (k: int)
    requires p > 0 && Divides(p, x)
    ensures x == k * p
  {
    k := x / p;
  }

  lemma DividesSum(p: int, x: int, y: int)
    requires p > 0 && Divides(p, x) && Divides(p, y)
    ensures Divides(p, x + y) && Divides(p, x - y)
  {
    var i := Quotient(p, x);
    var j := Quotient(p, y);
    assert x + y == (i + j) * p;
    assert x - y == (i - j) * p;
    DividesFrom(p, x + y, i + j);
    DividesFrom(p, x - y, i - j);
  }

  lemma DividesProduct(p: int, x: int, y: int)
    requires p > 0 && Divides(p, x)
    ensures Divides(p, x * y) && Divides(p, y * x)
  {
    var i := Quotient(p, x);
    assert x * y == (i * y) * p;
    DividesFrom(p, x * y, i * y);
  }

  lemma DividesSmall(p: int, x: int)
    requires p > 0 && Divides(p, x) && -p < x < p
    ensures x == 0
  {
    var k := Quotient(p, x);
    assert k >= 1 ==> k * p >= p;
    assert k <= -1 ==> k * p <= -p;
  }

  // ----- congruence

  lemma CongRefl(p: int, a: int)
    requires p > 0
    ensures Cong(p, a, a)
  {
    DividesFrom(p, a - a, 0);
  }

  lemma CongSym(p: int, a: int, b: int)
    requires p > 0 && Cong(p, a, b)
    ensures Cong(p, b, a)
  {
    var k := Quotient(p, a - b);
    assert b - a == (-k) * p;
    DividesFrom(p, b - a, -k);
  }

  lemma CongTrans(p: int, a: int, b: int, c: int)
    requires p > 0 && Cong(p, a, b) && Cong(p, b, c)
    ensures Cong(p, a, c)
  {
    DividesSum(p, a - b, b - c);
    assert (a - b) + (b - c) == a - c;
  }

  lemma CongAdd(p: int, a: int, b: int, c: int, d: int)
    requires p > 0 && Cong(p, a, b) && Cong(p, c, d)
    ensures Cong(p, a + c, b + d)
  {
    DividesSum(p, a - b, c - d);
    assert (a - b) + (c - d) == (a + c) - (b + d);
  }

  lemma CongMul(p: int, a: int, b: int, c: int, d: int)
    requires p > 0 && Cong(p, a, b) && Cong(p, c, d)
    ensures Cong(p, a * c, b * d)
  {
    DividesProduct(p, a - b, c);
    DividesProduct(p, c - d, b);
    DividesSum(p, (a - b) * c, b * (c - d));
    assert (a - b) * c + b * (c - d) == a * c - b * d;
  }

  lemma CongMod(p: int, a: int)
    requires p > 0
    ensures Cong(p, a % p, a) && Cong(p, a, a % p)
  {
    assert a - a % p == (a / p) * p;
    DividesFrom(p, a - a % p, a / p);
    CongSym(p, a, a % p);
  }

  lemma CongJsRem(p: int, a: int)
    requires p > 0
    ensures Cong(p, JsRem(a, p), a)
    ensures -p < JsRem(a, p) < p
    ensures a >= 0 ==> 0 <= JsRem(a, p)
  {
    if a >= 0 {
      CongMod(p, a);
    } else {
      CongMod(p, -a);
      assert JsRem(a, p) - a == (-a) - (-a) % p;
    }
  }

  /** Congruent residues in [0, p) are equal. */
  lemma CongResidues(p: int, a: int, b: int)
    requires p > 0 && Cong(p, a, b) && 0 <= a < p && 0 <= b < p
    ensures a == b
  {
    DividesSmall(p, a - b);
  }

  lemma CongSameMod(p: int, a: int, b: int)
    requires p > 0
    ensures Cong(p, a, b) <==> a % p == b % p
  {
    CongMod(p, a);
    CongMod(p, b);
    if Cong(p, a, b) {
      CongTrans(p, a % p, a, b);
      CongTrans(p, a % p, b, b % p);
      CongResidues(p, a % p, b % p);
    }
    if a % p == b % p {
      CongTrans(p, a, a % p, b);
    }
  }

  lemma ResidueOf(p: int, a: int, r: int)
    requires p > 0 && Cong(p, a, r) && 0 <= r < p
    ensures a % p == r
  {
    CongMod(p, a);
    CongTrans(p, a % p, a, r);
    CongResidues(p, a % p, r);
  }

  /** Divisibility depends on the residue class only. */
  lemma CongDivides(p: int, a: int, b: int)
    requires p > 0 && Cong(p, a, b)
    ensures Divides(p, a) <==> Divides(p, b)
  {
    CongSameMod(p, a, b);
  }

  // ----- Euclid's lemma

  predicate Kills(p: int, b: int, n: int)
    requires p > 0
  {
    n > 0 && Divides(p, n * b)
  }

  lemma LeastKiller(p: int, b: int) returns (d: int)
    requires p > 0
    ensures 1 <= d <= p && Kills(p, b, d)
    ensures forall n :: 1 <= n < d ==> !Kills(p, b, n)
  {
    d := 1;
    DividesProduct(p, 0 * p + p, b) by { DividesFrom(p, p, 1); }
    assert Kills(p, b, p);
    while !Kills(p, b, d)
      invariant 1 <= d <= p
      invariant forall n :: 1 <= n < d ==> !Kills(p, b, n)
      decreases p - d
    {
      d := d + 1;
    }
  }

  lemma LeastKillerDivides(p: int, b: int, d: int, n: int)
    requires p > 0 && 1 <= d <= p && Kills(p, b, d) && Kills(p, b, n)
    requires forall i :: 1 <= i < d ==> !Kills(p, b, i)
    ensures Divides(d, n)
  {
    var q, r := n / d, n % d;
    DividesProduct(p, d * b, q);
    DividesSum(p, n * b, (d * b) * q);
    assert n * b - (d * b) * q == r * b by {
      assert n == d * q + r;
      assert (d * q + r) * b == (d * b) * q + r * b;
    }
    if r != 0 {
      assert Kills(p, b, r);
    }
  }

  /** Euclid's lemma: a prime dividing a product divides one of its factors. */
  lemma EuclidLemma(p: int, a: int, b: int)
    requires Prime(p) && Divides(p, a * b)
    ensures Divides(p, a) || Divides(p, b)
  {
    var r := a % p;
    if r != 0 {
      CongMod(p, a);
      CongRefl(p, b);
      CongMul(p, r, a, b, b);
      CongDivides(p, r * b, a * b);
      assert Kills(p, b, r);
      var d := LeastKiller(p, b);
      assert d <= r;
      DividesProduct(p, p, b) by { DividesFrom(p, p, 1); }
      assert Kills(p, b, p);
      LeastKillerDivides(p, b, d, p);
      assert d == 1;
    }
  }

  lemma PrimeCancel(p: int, a: int, b: int, c: int)
    requires Prime(p) && !Divides(p, a) && Cong(p, a * b, a * c)
    ensures Cong(p, b, c)
  {
    assert a * b - a * c == a * (b - c);
    EuclidLemma(p, a, b - c);
  }

  // ----- products of residues

  function Product(s: seq<int>): int {
    if s == [] then 1 else s[0] * Product(s[1..])
  }

  function Factorial(n: nat): int {
    if n == 0 then 1 else n * Factorial(n - 1)
  }

  ghost predicate Injective(s: seq<int>) {
    forall i, j :: 0 <= i < j < |s| ==> s[i] != s[j]
  }

  ghost predicate Within(s: seq<int>, n: int) {
    forall i :: 0 <= i < |s| ==> 1 <= s[i] <= n
  }

  function Without(s: seq<int>, k: nat): (t: seq<int>)
    requires k < |s|
    ensures |t| == |s| - 1
  {
    s[..k] + s[k + 1..]
  }

  lemma {:induction false} ProductWithout(s: seq<int>, k: nat)
    requires k < |s|
    ensures Product(s) == s[k] * Product(Without(s, k))
  {
    if k == 0 {
      assert Without(s, 0) == s[1..];
    } else {
      var t := s[1..];
      ProductWithout(t, k - 1);
      assert Without(s, k)[1..] == Without(t, k - 1);
      var m := Product(Without(t, k - 1));
      assert s[0] * (s[k] * m) == s[k] * (s[0] * m);
    }
  }

  lemma WithoutMaximum(s: seq<int>, k: nat, n: int)
    requires k < |s| && s[k] == n && Injective(s) && Within(s, n)
    ensures Injective(Without(s, k)) && Within(Without(s, k), n - 1)
  {
    var t := Without(s, k);
    forall i | 0 <= i < |t| ensures t[i] == (if i < k then s[i] else s[i + 1]) {}
  }

  lemma {:induction false} Pigeonhole(s: seq<int>, n: nat)
    requires Injective(s) && Within(s, n)
    ensures |s| <= n
  {
    assert |s| > 0 ==> 1 <= s[0] <= n;
    if n == 0 {
    } else if n in s {
      var k :| 0 <= k < |s| && s[k] == n;
      WithoutMaximum(s, k, n);
      Pigeonhole(Without(s, k), n - 1);
    } else {
      Pigeonhole(s, n - 1);
    }
  }

  /** n distinct values from 1..n multiply to n!. */
  lemma {:induction false} PermutationProduct(s: seq<int>, n: nat)
    requires Injective(s) && Within(s, n) && |s| == n
    ensures Product(s) == Factorial(n)
  {
    if n > 0 {
      if n !in s {
        Pigeonhole(s, n - 1);
      }
      var k :| 0 <= k < |s| && s[k] == n;
      WithoutMaximum(s, k, n);
      ProductWithout(s, k);
      PermutationProduct(Without(s, k), n - 1);
    }
  }

  lemma {:induction false} PrimeFactorial(p: int, n: nat)
    requires Prime(p) && n < p
    ensures !Divides(p, Factorial(n))
  {
    if n == 0 {
      if Divides(p, 1) { DividesSmall(p, 1); }
    } else {
      PrimeFactorial(p, n - 1);
      if Divides(p, Factorial(n)) {
        EuclidLemma(p, n, Factorial(n - 1));
        DividesSmall(p, n);
      }
    }
  }

  // ----- Fermat's little theorem

  /** The residues a*n, ..., a*2, a*1 modulo p, highest first. */
  function Multiples(p: int, a: int, n: nat): (s: seq<int>)
    requires p > 0
    ensures |s| == n
    ensures forall i :: 0 <= i < n ==> s[i] == (a * (n - i)) % p
  {
    if n == 0 then [] else [(a * n) % p] + Multiples(p, a, n - 1)
  }

  lemma {:induction false} MultiplesProduct(p: int, a: int, n: nat)
    requires p > 0
    ensures Cong(p, Product(Multiples(p, a, n)), Pow(a, n) * Factorial(n))
  {
    if n == 0 {
      CongRefl(p, 1);
    } else {
      var rest := Multiples(p, a, n - 1);
      assert Multiples(p, a, n)[1..] == rest;
      MultiplesProduct(p, a, n - 1);
      CongMod(p, a * n);
      CongMul(p, (a * n) % p, a * n, Product(rest), Pow(a, n - 1) * Factorial(n - 1));
      var u, v := Pow(a, n - 1), Factorial(n - 1);
      assert (a * n) * (u * v) == (a * u) * (n * v);
    }
  }

  lemma MultiplesDistinct(p: int, a: int, i: int, j: int)
    requires Prime(p) && !Divides(p, a)
    requires 0 <= i < j < p - 1
    ensures (a * (p - 1 - i)) % p != (a * (p - 1 - j)) % p
  {
    if (a * (p - 1 - i)) % p == (a * (p - 1 - j)) % p {
      CongSameMod(p, a * (p - 1 - i), a * (p - 1 - j));
      PrimeCancel(p, a, p - 1 - i, p - 1 - j);
      CongResidues(p, p - 1 - i, p - 1 - j);
    }
  }

  lemma MultiplesNonzero(p: int, a: int, k: int)
    requires Prime(p) && !Divides(p, a) && 1 <= k < p
    ensures 1 <= (a * k) % p <= p - 1
  {
    if Divides(p, a * k) {
      EuclidLemma(p, a, k);
      DividesSmall(p, k);
    }
  }

  /** Fermat: a^(p-1) is congruent to 1 for a prime p not dividing a. */
  lemma Fermat(p: int, a: int)
    requires Prime(p) && !Divides(p, a)
    ensures Cong(p, Pow(a, p - 1), 1)
  {
    var n := p - 1;
    var s := Multiples(p, a, n);
    assert Injective(s) by {
      forall i, j | 0 <= i < j < |s| ensures s[i] != s[j] {
        MultiplesDistinct(p, a, i, j);
      }
    }
    assert Within(s, n) by {
      forall i | 0 <= i < |s| ensures 1 <= s[i] <= n {
        MultiplesNonzero(p, a, n - i);
      }
    }
    PermutationProduct(s, n);
    MultiplesProduct(p, a, n);
    PrimeFactorial(p, n);
    var f := Factorial(n);
    assert f * 1 == f && Pow(a, n) * f == f * Pow(a, n);
    CongSym(p, f, Pow(a, n) * f);
    PrimeCancel(p, f, Pow(a, n), 1);
  }

  // ----- modular power and inverse

  lemma {:induction false} PowCong(p: int, a: int, b: int, e: nat)
    requires p > 0 && Cong(p, a, b)
    ensures Cong(p, Pow(a, e), Pow(b, e))
  {
    if e == 0 {
      CongRefl(p, 1);
    } else {
      PowCong(p, a, b, e - 1);
      CongMul(p, a, b, Pow(a, e - 1), Pow(b, e - 1));
    }
  }

  lemma {:induction false} PowSquare(b: int, e: nat)
    ensures Pow(b * b, e) == Pow(b, 2 * e)
  {
    if e > 0 {
      PowSquare(b, e - 1);
      assert Pow(b, 2 * e) == b * (b * Pow(b, 2 * e - 2));
    }
  }

  /** The value the inversion loop computes: a^(p-2) mod p. */
  function Inverse(p: int, a: int): (r: int)
    requires p >= 2
    ensures 0 <= r < p
  {
    Pow(a, p - 2) % p
  }

  lemma InverseCong(p: int, a: int, b: int)
    requires p >= 2 && Cong(p, a, b)
    ensures Inverse(p, a) == Inverse(p, b)
  {
    PowCong(p, a, b, p - 2);
    CongSameMod(p, Pow(a, p - 2), Pow(b, p - 2));
  }

  /** By Fermat, a^(p-2) is the inverse of every a that p does not divide. */
  lemma InverseIsInverse(p: int, a: int)
    requires Prime(p) && !Divides(p, a)
    ensures Cong(p, a * Inverse(p, a), 1)
  {
    Fermat(p, a);
    CongMod(p, Pow(a, p - 2));
    CongRefl(p, a);
    CongMul(p, a, a, Inverse(p, a), Pow(a, p - 2));
    CongTrans(p, a * Inverse(p, a), Pow(a, p - 1), 1);
  }

  /** A multiple of the modulus has no inverse, and the loop answers 0 for it. */
  lemma InverseOfZero(p: int, a: int)
    requires p > 2 && Divides(p, a)
    ensures Inverse(p, a) == 0
    ensures forall b :: !Cong(p, a * b, 1)
  {
    DividesProduct(p, a, Pow(a, p - 3));
    forall b ensures !Cong(p, a * b, 1) {
      DividesProduct(p, a, b);
      if Cong(p, a * b, 1) {
        CongDivides(p, a * b, 1);
        DividesSmall(p, 1);
      }
    }
  }

  /** One round of the loop leaves result * base^exp in its residue class. */
  lemma SquareMultiplyStep(p: int, was: int, base: int, exp: int, next: int, result: int)
    requires p > 0 && exp > 0 && Cong(p, next, base * base)
    requires if exp % 2 == 1 then Cong(p, result, was * base) else result == was
    ensures Cong(p, result * Pow(next, exp / 2), was * Pow(base, exp))
  {
    var h := exp / 2;
    PowCong(p, next, base * base, h);
    PowSquare(base, h);
    if exp % 2 == 1 {
      CongMul(p, result, was * base, Pow(next, h), Pow(base, exp - 1));
      assert (was * base) * Pow(base, exp - 1) == was * (base * Pow(base, exp - 1));
    } else {
      CongRefl(p, was);
      CongMul(p, was, was, Pow(next, h), Pow(base, exp));
    }
  }

  /** `((a % p) + p) % p` brings every integer, negative ones included, to its residue. */
  lemma NormalisedCong(p: int, a: int)
    requires p > 0
    ensures 0 <= JsRem(JsRem(a, p) + p, p) < p && Cong(p, JsRem(JsRem(a, p) + p, p), a)
  {
    CongJsRem(p, a);
    CongJsRem(p, JsRem(a, p) + p);
    DividesFrom(p, p, 1);
    CongAdd(p, JsRem(a, p), a, p, 0);
    CongTrans(p, JsRem(JsRem(a, p) + p, p), JsRem(a, p) + p, a);
  }

  method ModInverse(a: int, p: int) returns (result: int)
    requires p >= 2
    ensures result == Inverse(p, a)
    ensures Prime(p) && !Divides(p, a) ==> (a * result) % p == 1
  {
    result := 1;
    var base := JsRem(JsRem(a, p) + p, p);
    var exp := p - 2;
    NormalisedCong(p, a);
    PowCong(p, base, a, exp);
    assert result * Pow(base, exp) == Pow(base, exp);
    while exp > 0
      invariant 0 <= exp && 0 <= base < p && 0 <= result < p
      invariant Cong(p, result * Pow(base, exp), Pow(a, p - 2))
    {
      ghost var was := result;
      var next := JsRem(base * base, p);
      CongJsRem(p, base * base);
      CongJsRem(p, was * base);
      if exp % 2 == 1 {
        result := JsRem(result * base, p);
      }
      SquareMultiplyStep(p, was, base, exp, next, result);
      CongTrans(p, result * Pow(next, exp / 2), was * Pow(base, exp), Pow(a, p - 2));
      exp := exp / 2;
      base := next;
    }
    CongSym(p, result, Pow(a, p - 2));
    ResidueOf(p, Pow(a, p - 2), result);
    if Prime(p) && !Divides(p, a) {
      InverseIsInverse(p, a);
      ResidueOf(p, a * result, 1);
    }
  }
}
