/**
 128-bit checked arithmetic: truncating division used as ceiling and floor, and the exact laws of
 the execution-fee split.
 */
module FeeMath {

  const I128_MIN: int := -0x8000_0000_0000_0000_0000_0000_0000_0000
  const I128_MAX: int := 0x7FFF_FFFF_FFFF_FFFF_FFFF_FFFF_FFFF_FFFF

  type I128 = x: int | I128_MIN <= x <= I128_MAX
  type U32 = x: int | 0 <= x < 0x1_0000_0000

  datatype MathError = Overflow | Underflow | DivisionByZero

  /** A value, a checked error, or the panic of the one division that overflows. */
  datatype Outcome<T> = Ok(value: T) | Err(error: MathError) | Panics

  predicate InRange(x: int) {
    I128_MIN <= x <= I128_MAX
  }

  function Abs(x: int): nat { if x < 0 then -x else x }

  /** Rust's `/`: the quotient rounded towards zero. */
  function TruncDiv(a: int, b: int): int
    requires b != 0
  {
    if a >= 0 then (if b > 0 then a / b else -(a / -b))
    else (if b > 0 then -(-a / b) else -a / -b)
  }

  /** Rust's `%`: the remainder with the sign of the dividend. */
  function TruncRem(a: int, b: int): int
    requires b != 0
  {
    if a >= 0 then (if b > 0 then a % b else a % -b)
    else (if b > 0 then -(-a % b) else -(-a % -b))
  }

  function DivCeil(numerator: I128, multiplier: I128, divisor: I128): Outcome<I128> {
    if divisor == 0 then Err(DivisionByZero)
    else if numerator == 0 || multiplier == 0 then Ok(0)
    else
      var product := numerator * multiplier;
      if !InRange(product) then Err(Overflow)
      else if product == I128_MIN && divisor == -1 then Panics
      else
        QuotientInRange(product, divisor);
        var q, r := TruncDiv(product, divisor), TruncRem(product, divisor);
        if r == 0 then Ok(q)
        else if product > 0 then (if InRange(q + 1) then Ok(q + 1) else Err(Overflow))
        else Ok(q)
  }

  function DivFloor(numerator: I128, multiplier: I128, divisor: I128): Outcome<I128> {
    if divisor == 0 then Err(DivisionByZero)
    else
      var product := numerator * multiplier;
      if !InRange(product) then Err(Overflow)
      else if product == I128_MIN && divisor == -1 then Panics
      else
        QuotientInRange(product, divisor);
        Ok(TruncDiv(product, divisor))
  }

  const BPS: int := 10_000

  function SplitExecutionFee(total: I128, bps: U32): Outcome<(I128, I128)> {
    if total <= 0 then Ok((0, 0))
    else
      match DivCeil(total, bps, BPS)
      case Err(e) => Err(e)
      case Panics => Panics
      case Ok(protocol) =>
        if InRange(total - protocol) then Ok((protocol, total - protocol)) else Err(Underflow)
  }

  function AccrueYieldFloor(principal: I128, rateBps: U32): Outcome<I128> {
    DivFloor(principal, rateBps, BPS)
  }

  // ----- truncating division

  /** q is the least integer not below n/d. */
  predicate IsCeiling(q: int, n: int, d: int) {
    if d > 0 then (q - 1) * d < n <= q * d else q * d <= n < (q - 1) * d
  }

  /** q is the greatest integer not above n/d. */
  predicate IsFloor(q: int, n: int, d: int) {
    if d > 0 then q * d <= n < (q + 1) * d else (q + 1) * d < n <= q * d
  }

  lemma TruncIdentity(a: int, b: int)
    requires b != 0
    ensures a == TruncDiv(a, b) * b + TruncRem(a, b)
    ensures Abs(TruncRem(a, b)) < Abs(b)
    ensures TruncRem(a, b) > 0 ==> a > 0
    ensures TruncRem(a, b) < 0 ==> a < 0
  {
  }

  lemma DivIdentity(x: nat, y: nat)
    requires y >= 1
    ensures x == (x / y) * y + x % y && 0 <= x % y < y
  {
  }

  lemma MulGrows(q: nat, y: nat, k: nat)
    requires y >= k
    ensures q * y >= q * k
  {
  }

  lemma QuotientInRange(a: int, b: int)
    requires InRange(a) && b != 0 && !(a == I128_MIN && b == -1)
    ensures InRange(TruncDiv(a, b))
  {
    var x, y := Abs(a), Abs(b);
    DivAtMost(x, y);
    if a == I128_MIN && y > 1 { HalfAtMost(x, y); }
  }

  lemma DivAtMost(x: nat, y: nat)
    requires y >= 1
    ensures x / y <= x
  {
  }

  lemma HalfAtMost(x: nat, y: nat)
    requires y >= 2
    ensures 2 * (x / y) <= x
  {
    DivIdentity(x, y);
    MulGrows(x / y, y, 2);
  }

  /** `div_ceil` rounds up exactly when the divisor is positive or divides the product. */
  lemma DivCeilIsCeilingIff(n: I128, m: I128, d: I128)
    requires DivCeil(n, m, d).Ok?
    ensures IsCeiling(DivCeil(n, m, d).value, n * m, d) <==> d > 0 || TruncRem(n * m, d) == 0
  {
    var a := n * m;
    TruncIdentity(a, d);
    CeilingOfTrunc(a, d, TruncDiv(a, d), TruncRem(a, d));
    if n == 0 || m == 0 { assert a == 0; }
  }

  lemma CeilingOfTrunc(a: int, d: int, q: int, r: int)
    requires d != 0 && a == q * d + r && Abs(r) < Abs(d) && (r > 0 ==> a > 0) && (r < 0 ==> a < 0)
    ensures r == 0 ==> IsCeiling(q, a, d)
    ensures r != 0 && d > 0 ==> IsCeiling(if a > 0 then q + 1 else q, a, d)
    ensures r != 0 && d < 0 ==> !IsCeiling(if a > 0 then q + 1 else q, a, d)
  {
  }

  /** `div_floor` rounds down exactly when the quotient is not negative or the division is exact. */
  lemma DivFloorIsFloorIff(n: I128, m: I128, d: I128)
    requires DivFloor(n, m, d).Ok?
    ensures IsFloor(DivFloor(n, m, d).value, n * m, d) <==>
            (n * m >= 0 && d > 0) || (n * m <= 0 && d < 0) || TruncRem(n * m, d) == 0
  {
    var a := n * m;
    TruncIdentity(a, d);
    FloorOfTrunc(a, d, TruncDiv(a, d), TruncRem(a, d));
  }

  lemma FloorOfTrunc(a: int, d: int, q: int, r: int)
    requires d != 0 && a == q * d + r && Abs(r) < Abs(d) && (r > 0 ==> a > 0) && (r < 0 ==> a < 0)
    ensures IsFloor(q, a, d) <==> (a >= 0 && d > 0) || (a <= 0 && d < 0) || r == 0
  {
  }

  /** When each error arises: the added one never overflows, so the product decides. */
  lemma DivCeilErrors(n: I128, m: I128, d: I128)
    ensures DivCeil(n, m, d) == Err(DivisionByZero) <==> d == 0
    ensures DivCeil(n, m, d) == Err(Overflow) <==> d != 0 && !InRange(n * m)
    ensures DivCeil(n, m, d).Panics? <==> d == -1 && n * m == I128_MIN
  {
  }

  /** When each outcome of `div_floor` arises. */
  lemma DivFloorErrors(n: I128, m: I128, d: I128)
    ensures DivFloor(n, m, d) == Err(DivisionByZero) <==> d == 0
    ensures DivFloor(n, m, d) == Err(Overflow) <==> d != 0 && !InRange(n * m)
    ensures DivFloor(n, m, d).Panics? <==> d == -1 && n * m == I128_MIN
    ensures DivFloor(n, m, d).Ok? <==> d != 0 && InRange(n * m) && !(d == -1 && n * m == I128_MIN)
  {
  }

  // ----- the fee split

  /** The protocol's exact share, rounded up. */
  function ProtocolShare(total: nat, bps: nat): (p: nat)
    ensures total * bps <= p * BPS < total * bps + BPS
  {
    (total * bps + BPS - 1) / BPS
  }

  lemma CeilingUnique(q: int, p: int, x: int)
    requires IsCeiling(q, x, BPS) && x <= p * BPS < x + BPS
    ensures q == p
  {
  }

  /** A split succeeds exactly when the product fits, and pays the protocol its share rounded up. */
  lemma SplitComputesShare(total: I128, bps: U32)
    ensures total <= 0 ==> SplitExecutionFee(total, bps) == Ok((0, 0))
    ensures total > 0 ==> (SplitExecutionFee(total, bps).Ok? <==> InRange(total * bps))
    ensures total > 0 && SplitExecutionFee(total, bps).Ok? ==>
              SplitExecutionFee(total, bps).value.0 == ProtocolShare(total, bps)
              && SplitExecutionFee(total, bps).value.1 == total - ProtocolShare(total, bps)
    ensures !SplitExecutionFee(total, bps).Ok? ==> SplitExecutionFee(total, bps) == Err(Overflow)
  {
    if total <= 0 { return; }
    DivCeilErrors(total, bps, BPS);
    assert total * bps >= 0;
    if InRange(total * bps) {
      DivCeilIsCeilingIff(total, bps, BPS);
      CeilingUnique(DivCeil(total, bps, BPS).value, ProtocolShare(total, bps), total * bps);
    }
  }

  /**
   Zero dust: the parts add up to the total; the keeper gets the floor of its share; and no part is
   negative if and only if the rate is at most 100%.
   */
  lemma SplitIsExact(total: I128, bps: U32)
    requires total > 0 && SplitExecutionFee(total, bps).Ok?
    ensures var (protocol, keeper) := SplitExecutionFee(total, bps).value;
            && protocol + keeper == total
            && IsFloor(keeper, total * (BPS - bps), BPS)
            && (protocol >= 0 && keeper >= 0 <==> bps <= BPS)
  {
    SplitComputesShare(total, bps);
    ShareLaws(total, bps);
  }

  lemma ShareLaws(total: nat, bps: nat)
    requires total > 0
    ensures IsFloor(total - ProtocolShare(total, bps), total * (BPS - bps), BPS)
    ensures total - ProtocolShare(total, bps) >= 0 <==> bps <= BPS
  {
  }

  /** Splitting a fee in two can only cost the payer one more unit of protocol fee. */
  lemma ShareSubadditive(a: nat, b: nat, bps: nat)
    ensures ProtocolShare(a + b, bps) <= ProtocolShare(a, bps) + ProtocolShare(b, bps) <= ProtocolShare(a + b, bps) + 1
  {
  }

  function Sum(xs: seq<nat>): nat {
    if xs == [] then 0 else Sum(xs[..|xs| - 1]) + xs[|xs| - 1]
  }

  function ShareSum(xs: seq<nat>, bps: nat): nat {
    if xs == [] then 0 else ShareSum(xs[..|xs| - 1], bps) + ProtocolShare(xs[|xs| - 1], bps)
  }

  /** Over n fees the protocol is never underpaid, and its excess stays below n units. */
  lemma {:induction false} ExcessBelowCount(fees: seq<nat>, bps: nat)
    ensures Sum(fees) * bps <= ShareSum(fees, bps) * BPS
    ensures ShareSum(fees, bps) * BPS <= Sum(fees) * bps + |fees| * (BPS - 1)
  {
    if fees != [] {
      var init, last := fees[..|fees| - 1], fees[|fees| - 1];
      ExcessBelowCount(init, bps);
      assert (Sum(init) + last) * bps == Sum(init) * bps + last * bps;
    }
  }

  /** What a fee amounts to in a split, which pays nothing for a fee that is not positive. */
  function Payable(total: int): nat { if total > 0 then total else 0 }

  lemma SplitPaysPayable(total: I128, bps: U32)
    requires SplitExecutionFee(total, bps).Ok?
    ensures SplitExecutionFee(total, bps).value.0 == ProtocolShare(Payable(total), bps)
    ensures SplitExecutionFee(total, bps).value.1 == Payable(total) - ProtocolShare(Payable(total), bps)
  {
  }

  /** If a fee can be split, so can two parts of it, for at most one more unit of protocol fee. */
  lemma SplitSubadditive(a: I128, b: I128, bps: U32)
    requires a >= 0 && b >= 0 && InRange(a + b) && SplitExecutionFee(a + b, bps).Ok?
    ensures SplitExecutionFee(a, bps).Ok? && SplitExecutionFee(b, bps).Ok?
    ensures var whole, parts := SplitExecutionFee(a + b, bps).value.0,
                                SplitExecutionFee(a, bps).value.0 + SplitExecutionFee(b, bps).value.0;
            whole <= parts <= whole + 1
  {
    PartSplits(a, b, bps);
    PartSplits(b, a, bps);
    SplitPaysPayable(a + b, bps);
    SplitPaysPayable(a, bps);
    SplitPaysPayable(b, bps);
    ShareSubadditive(a, b, bps);
  }

  lemma PartSplits(a: I128, b: I128, bps: U32)
    requires a >= 0 && b >= 0 && InRange(a + b) && SplitExecutionFee(a + b, bps).Ok?
    ensures SplitExecutionFee(a, bps).Ok?
  {
    if a > 0 {
      SplitComputesShare(a + b, bps);
      SplitComputesShare(a, bps);
      ProductOfPart(a, b, bps);
    }
  }

  lemma ProductOfPart(a: nat, b: nat, bps: nat)
    ensures 0 <= a * bps <= (a + b) * bps
  {
  }

  ghost predicate AllSplit(fees: seq<I128>, bps: U32) {
    forall f :: f in fees ==> SplitExecutionFee(f, bps).Ok?
  }

  /** What the splits of a list of fees pay the protocol and the keepers. */
  ghost function SplitSum(fees: seq<I128>, bps: U32): (int, int)
    requires AllSplit(fees, bps)
  {
    if fees == [] then (0, 0)
    else
      var init, last := fees[..|fees| - 1], fees[|fees| - 1];
      var (protocol, keepers) := SplitSum(init, bps);
      var (p, k) := SplitExecutionFee(last, bps).value;
      (protocol + p, keepers + k)
  }

  function Payables(fees: seq<I128>): (r: seq<nat>)
    ensures |r| == |fees|
  {
    if fees == [] then [] else Payables(fees[..|fees| - 1]) + [Payable(fees[|fees| - 1])]
  }

  lemma {:induction false} SplitSumIsShareSum(fees: seq<I128>, bps: U32)
    requires AllSplit(fees, bps)
    ensures SplitSum(fees, bps) == (ShareSum(Payables(fees), bps), Sum(Payables(fees)) - ShareSum(Payables(fees), bps))
  {
    if fees != [] {
      var init, last := fees[..|fees| - 1], fees[|fees| - 1];
      assert last in fees;
      SplitSumIsShareSum(init, bps);
      SplitPaysPayable(last, bps);
      assert Payables(fees)[..|fees| - 1] == Payables(init);
    }
  }

  /** Over n splits no unit is lost, the protocol is never underpaid, and its excess stays below n units. */
  lemma SplitsExcessBelowCount(fees: seq<I128>, bps: U32)
    requires AllSplit(fees, bps)
    ensures var (protocol, keepers) := SplitSum(fees, bps);
            var total := Sum(Payables(fees));
            && protocol + keepers == total
            && total * bps <= protocol * BPS <= total * bps + |fees| * (BPS - 1)
  {
    SplitSumIsShareSum(fees, bps);
    ExcessBelowCount(Payables(fees), bps);
  }

  /** Yield on a non-negative principal is the floor of the exact yield. */
  lemma YieldIsFloor(principal: I128, rateBps: U32)
    ensures AccrueYieldFloor(principal, rateBps) == Err(Overflow) <==> !InRange(principal * rateBps)
    ensures AccrueYieldFloor(principal, rateBps).Ok? <==> InRange(principal * rateBps)
    ensures principal >= 0 && AccrueYieldFloor(principal, rateBps).Ok? ==>
              IsFloor(AccrueYieldFloor(principal, rateBps).value, principal * rateBps, BPS)
  {
  }
}
