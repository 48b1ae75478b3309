/** Token amounts of a liquidity range and liquidity of a token amount (liquidity_math.rs). */
module LiquidityMath {
  import opened Wrappers
  import opened FullMath

  /** Adds a signed change to a u128 liquidity; aborts when it would leave the type. */
  function AddDelta(x: nat, y: int): (r: Option<nat>)
    ensures r.Some? ==> r.value == x + y
    ensures r.None? <==> x + y < 0 || (y >= 0 && x + y > U128_MAX)
  {
    if y < 0 then
      if x < -y then None else Some(x + y)
    else
      if x + y > U128_MAX then None else Some(x + y)
  }

  function Min(a: nat, b: nat): (r: nat) { if a <= b then a else b }
  function Max(a: nat, b: nat): (r: nat) { if a <= b then b else a }

  /** L * (1/sqrtLo - 1/sqrtHi), to be rounded. The division by hi comes first. */
  function DeltaAmount0Unsigned(a: nat, b: nat, liquidity: nat, roundUp: bool): (r: Option<nat>) {
    var lo, hi := Min(a, b), Max(a, b);
    var numerator1 := liquidity * Q64;
    var numerator2 := hi - lo;
    if lo == 0 then None
    else
      var q :- if roundUp then
                 var m :- MulDivCeil(numerator1, numerator2, hi, U256_MAX, U128_MAX);
                 Some(DivRoundingUp(m, lo))
               else
                 var m :- MulDivFloor(numerator1, numerator2, hi, U256_MAX, U128_MAX);
                 Some(m / lo);
      if q > U64_MAX then None else Some(q)
  }

  /** L * (sqrtHi - sqrtLo), to be rounded. */
  function DeltaAmount1Unsigned(a: nat, b: nat, liquidity: nat, roundUp: bool): (r: Option<nat>) {
    var lo, hi := Min(a, b), Max(a, b);
    var q :- if roundUp then MulDivCeil(liquidity, hi - lo, Q64, U256_MAX, U128_MAX)
             else MulDivFloor(liquidity, hi - lo, Q64, U256_MAX, U128_MAX);
    if q > U64_MAX then None else Some(q)
  }

  /** Two divisions, each rounded the same way, amount to one exact rounding of the curve. */
  lemma DeltaAmount0Rounds(a: nat, b: nat, liquidity: nat, roundUp: bool)
    requires DeltaAmount0Unsigned(a, b, liquidity, roundUp).Some?
    ensures var r := DeltaAmount0Unsigned(a, b, liquidity, roundUp).value;
            var n := liquidity * Q64 * (Max(a, b) - Min(a, b));
            && Min(a, b) > 0 && r <= U64_MAX
            && (roundUp ==> IsCeil(r, n, Min(a, b) * Max(a, b)))
            && (!roundUp ==> IsFloor(r, n, Min(a, b) * Max(a, b)))
  {
    var lo, hi := Min(a, b), Max(a, b);
    var n1, n2 := liquidity * Q64, hi - lo;
    var q := DeltaAmount0Unsigned(a, b, liquidity, roundUp).value;
    if roundUp {
      var m := MulDivCeil(n1, n2, hi, U256_MAX, U128_MAX).value;
      NestedCeil(n1 * n2, hi, lo, m, q);
    } else {
      var m := MulDivFloor(n1, n2, hi, U256_MAX, U128_MAX).value;
      FloorOfDiv(m, lo);
      NestedFloor(n1 * n2, hi, lo, m, q);
    }
  }

  lemma DeltaAmount1Rounds(a: nat, b: nat, liquidity: nat, roundUp: bool)
    requires DeltaAmount1Unsigned(a, b, liquidity, roundUp).Some?
    ensures var r := DeltaAmount1Unsigned(a, b, liquidity, roundUp).value;
            var n := liquidity * (Max(a, b) - Min(a, b));
            && r <= U64_MAX
            && (roundUp ==> IsCeil(r, n, Q64))
            && (!roundUp ==> IsFloor(r, n, Q64))
  {
  }

  /** An amount of token 1 is refused exactly when it does not fit 64 bits. */
  lemma DeltaAmount1Fails(a: nat, b: nat, liquidity: nat, roundUp: bool)
    requires a <= U128_MAX && b <= U128_MAX && liquidity <= U128_MAX
    ensures var n := liquidity * (Max(a, b) - Min(a, b));
            DeltaAmount1Unsigned(a, b, liquidity, roundUp).None? <==> if roundUp then U64_MAX * Q64 < n else (U64_MAX + 1) * Q64 <= n
  {
    hide MulDivFloor, MulDivCeil;
    var d := Max(a, b) - Min(a, b);
    var n := liquidity * d;
    ProductBound(liquidity, d, U128_MAX, U128_MAX);
    if roundUp {
      MulDivCeilFails(liquidity, d, Q64, U256_MAX, U128_MAX);
      if MulDivCeil(liquidity, d, Q64, U256_MAX, U128_MAX).Some? {
        CeilIsLeast(MulDivCeil(liquidity, d, Q64, U256_MAX, U128_MAX).value, n, Q64, U64_MAX);
      }
    } else {
      MulDivFloorFails(liquidity, d, Q64, U256_MAX, U128_MAX);
      if MulDivFloor(liquidity, d, Q64, U256_MAX, U128_MAX).Some? {
        FloorIsGreatest(MulDivFloor(liquidity, d, Q64, U256_MAX, U128_MAX).value, n, Q64, U64_MAX + 1);
      }
    }
  }

  /** An amount of token 0 is refused exactly when it does not fit 64 bits, when the first of its two
      divisions leaves 128 bits, or when the product to be divided leaves 256. */
  lemma DeltaAmount0Fails(a: nat, b: nat, liquidity: nat, roundUp: bool)
    ensures var lo, hi := Min(a, b), Max(a, b); var n := liquidity * Q64 * (hi - lo);
            DeltaAmount0Unsigned(a, b, liquidity, roundUp).None? <==>
              || lo == 0 || n + (if roundUp then hi - 1 else 0) > U256_MAX
              || (if roundUp then U128_MAX * hi < n else (U128_MAX + 1) * hi <= n)
              || (if roundUp then U64_MAX * (lo * hi) < n else (U64_MAX + 1) * (lo * hi) <= n)
  {
    hide MulDivFloor, MulDivCeil;
    var lo, hi := Min(a, b), Max(a, b);
    if lo > 0 {
      if roundUp { RoundedUpFails(liquidity * Q64, hi - lo, hi, lo); } else { RoundedDownFails(liquidity * Q64, hi - lo, hi, lo); }
    }
  }

  lemma RoundedUpFails(x: nat, d: nat, hi: nat, lo: nat)
    requires 0 < lo <= hi
    ensures var m := MulDivCeil(x, d, hi, U256_MAX, U128_MAX);
            (m.None? || DivRoundingUp(m.value, lo) > U64_MAX) <==>
              x * d + (hi - 1) > U256_MAX || U128_MAX * hi < x * d || U64_MAX * (lo * hi) < x * d
  {
    hide MulDivCeil, IsCeil, DivRoundingUp;
    MulDivCeilFails(x, d, hi, U256_MAX, U128_MAX);
    var m := MulDivCeil(x, d, hi, U256_MAX, U128_MAX);
    if m.Some? {
      NestedCeil(x * d, hi, lo, m.value, DivRoundingUp(m.value, lo));
      CeilIsLeast(DivRoundingUp(m.value, lo), x * d, lo * hi, U64_MAX);
    }
  }

  lemma RoundedDownFails(x: nat, d: nat, hi: nat, lo: nat)
    requires 0 < lo <= hi
    ensures var m := MulDivFloor(x, d, hi, U256_MAX, U128_MAX);
            (m.None? || m.value / lo > U64_MAX) <==>
              x * d > U256_MAX || (U128_MAX + 1) * hi <= x * d || (U64_MAX + 1) * (lo * hi) <= x * d
  {
    hide MulDivFloor, IsFloor;
    MulDivFloorFails(x, d, hi, U256_MAX, U128_MAX);
    var m := MulDivFloor(x, d, hi, U256_MAX, U128_MAX);
    if m.Some? {
      FloorOfDiv(m.value, lo);
      NestedFloor(x * d, hi, lo, m.value, m.value / lo);
      FloorIsGreatest(m.value / lo, x * d, lo * hi, U64_MAX + 1);
    }
  }

  /** Adding liquidity rounds the payment up, removing it rounds the refund down. */
  function DeltaAmount0Signed(a: nat, b: nat, liquidity: int): (r: Option<nat>) {
    if liquidity < 0 then DeltaAmount0Unsigned(a, b, -liquidity, false)
    else DeltaAmount0Unsigned(a, b, liquidity, true)
  }

  function DeltaAmount1Signed(a: nat, b: nat, liquidity: int): (r: Option<nat>) {
    if liquidity < 0 then DeltaAmount1Unsigned(a, b, -liquidity, false)
    else DeltaAmount1Unsigned(a, b, liquidity, true)
  }

  /** A payment is the curve's amount rounded up, a refund the same amount rounded down. */
  lemma SignedAmountsRound(a: nat, b: nat, liquidity: int)
    ensures var r := DeltaAmount0Signed(a, b, liquidity); var lo, hi := Min(a, b), Max(a, b);
            r.Some? ==> if liquidity < 0 then IsFloor(r.value, -liquidity * Q64 * (hi - lo), lo * hi)
                        else IsCeil(r.value, liquidity * Q64 * (hi - lo), lo * hi)
    ensures var r := DeltaAmount1Signed(a, b, liquidity); var lo, hi := Min(a, b), Max(a, b);
            r.Some? ==> if liquidity < 0 then IsFloor(r.value, -liquidity * (hi - lo), Q64)
                        else IsCeil(r.value, liquidity * (hi - lo), Q64)
  {
    hide DeltaAmount0Unsigned, DeltaAmount1Unsigned;
    var l := if liquidity < 0 then -liquidity else liquidity;
    if DeltaAmount0Unsigned(a, b, l, liquidity >= 0).Some? {
      DeltaAmount0Rounds(a, b, l, liquidity >= 0);
    }
    if DeltaAmount1Unsigned(a, b, l, liquidity >= 0).Some? {
      DeltaAmount1Rounds(a, b, l, liquidity >= 0);
    }
  }

  /** What token 0 buys: the largest liquidity whose cost, with the product of both prices rounded to a
      multiple of Q64, is within the amount. One unit more costs more than the amount, up to that rounding. */
  lemma LiquidityFromAmount0IsLargest(a: nat, b: nat, amount: nat)
    requires LiquidityFromAmount0(a, b, amount).Some?
    ensures var lo, hi := Min(a, b), Max(a, b); var l := LiquidityFromAmount0(a, b, amount).value;
            && lo < hi && l * Q64 * (hi - lo) <= amount * (lo * hi)
            && (amount > 0 ==> amount * (lo * hi - Q64) < (l + 1) * Q64 * (hi - lo))
  {
    hide MulDivFloor;
    var lo, hi := Min(a, b), Max(a, b);
    var m := MulDivFloor128(lo, hi, Q64).value;
    var l := LiquidityFromAmount0(a, b, amount).value;
    assert l * Q64 * (hi - lo) == (l * (hi - lo)) * Q64;
    assert (amount * m) * Q64 == amount * (m * Q64);
    ProductBound(amount, m * Q64, amount, lo * hi);
    assert (l + 1) * Q64 * (hi - lo) == ((l + 1) * (hi - lo)) * Q64;
    if amount > 0 {
      assert lo * hi - Q64 < m * Q64;
      assert amount * (lo * hi - Q64) < amount * (m * Q64);
    }
  }

  /** What token 1 buys: exactly the largest liquidity whose cost is within the amount. */
  lemma LiquidityFromAmount1IsLargest(a: nat, b: nat, amount: nat, l: nat)
    requires LiquidityFromAmount1(a, b, amount).Some?
    ensures var d := Max(a, b) - Min(a, b);
            l * d <= amount * Q64 <==> l <= LiquidityFromAmount1(a, b, amount).value
  {
    hide MulDivFloor;
    FloorIsGreatest(LiquidityFromAmount1(a, b, amount).value, amount * Q64, Max(a, b) - Min(a, b), l);
  }

  /** The liquidity a single amount of token 0 buys between two prices. */
  function LiquidityFromAmount0(a: nat, b: nat, amount: nat): (r: Option<nat>) {
    var lo, hi := Min(a, b), Max(a, b);
    var intermediate :- MulDivFloor128(lo, hi, Q64);
    MulDivFloor128(amount, intermediate, hi - lo)
  }

  /** The liquidity a single amount of token 1 buys between two prices. */
  function LiquidityFromAmount1(a: nat, b: nat, amount: nat): (r: Option<nat>) {
    MulDivFloor128(amount, Q64, Max(a, b) - Min(a, b))
  }

  function LiquidityFromSingleAmount0(sqrtPrice: nat, a: nat, b: nat, amount: nat): (r: Option<nat>) {
    var lo, hi := Min(a, b), Max(a, b);
    if sqrtPrice <= lo then LiquidityFromAmount0(lo, hi, amount)
    else if sqrtPrice < hi then LiquidityFromAmount0(sqrtPrice, hi, amount)
    else Some(0)
  }

  function LiquidityFromSingleAmount1(sqrtPrice: nat, a: nat, b: nat, amount: nat): (r: Option<nat>) {
    var lo, hi := Min(a, b), Max(a, b);
    if sqrtPrice <= lo then Some(0)
    else if sqrtPrice < hi then LiquidityFromAmount1(lo, sqrtPrice, amount)
    else LiquidityFromAmount1(lo, hi, amount)
  }
}
