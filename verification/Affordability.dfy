/** Liquidity quoted from a single token amount is affordable, and liquidity added and removed in pieces at
    one price never pays out more than was paid in (liquidity_math.rs). */
module Affordability {
  import opened Wrappers
  import opened FullMath
  import opened LiquidityMath
  import opened TickMath
  import opened Model
  import opened Positions
  import opened Curve
  import opened Machine
  import opened Invariants
  import opened LiquidityInvariant

  /** What an amount of token 0 buys between two prices costs at most that amount. */
  lemma Buys0(lo: nat, hi: nat, amount: nat)
    requires 0 < lo <= hi && LiquidityFromAmount0(lo, hi, amount).Some?
    ensures var l := LiquidityFromAmount0(lo, hi, amount).value; var cost := DeltaAmount0Unsigned(lo, hi, l, true);
            cost.Some? ==> cost.value <= amount
  {
    hide DeltaAmount0Unsigned, MulDivFloor;
    var l := LiquidityFromAmount0(lo, hi, amount).value;
    var m := MulDivFloor128(lo, hi, Q64).value;
    var cost := DeltaAmount0Unsigned(lo, hi, l, true);
    if cost.Some? {
      DeltaAmount0Rounds(lo, hi, l, true);
      BoughtCost0(lo, hi, amount, m, l);
      CeilIsLeast(cost.value, l * Q64 * (hi - lo), lo * hi, amount);
    }
  }

  lemma BoughtCost0(lo: nat, hi: nat, amount: nat, m: nat, l: nat)
    requires lo <= hi && m * Q64 <= lo * hi && l * (hi - lo) <= amount * m
    ensures l * Q64 * (hi - lo) <= amount * (lo * hi)
  {
    assert l * Q64 * (hi - lo) == (l * (hi - lo)) * Q64;
    assert (amount * m) * Q64 == amount * (m * Q64);
    ProductBound(amount, m * Q64, amount, lo * hi);
  }

  /** What an amount of token 1 buys between two prices costs at most that amount. */
  lemma Buys1(lo: nat, hi: nat, amount: nat)
    requires lo <= hi && LiquidityFromAmount1(lo, hi, amount).Some?
    ensures var l := LiquidityFromAmount1(lo, hi, amount).value; var cost := DeltaAmount1Unsigned(lo, hi, l, true);
            cost.Some? ==> cost.value <= amount
  {
    hide DeltaAmount1Unsigned, MulDivFloor;
    var l := LiquidityFromAmount1(lo, hi, amount).value;
    var cost := DeltaAmount1Unsigned(lo, hi, l, true);
    if cost.Some? {
      DeltaAmount1Rounds(lo, hi, l, true);
      CeilIsLeast(cost.value, l * (hi - lo), Q64, amount);
    }
  }

  /** No liquidity and no distance cost nothing. */
  lemma CostsNothing(lo: nat, hi: nat, l: nat)
    requires 0 < lo <= hi && (l == 0 || lo == hi)
    ensures DeltaAmount0Unsigned(lo, hi, l, true).Some? ==> DeltaAmount0Unsigned(lo, hi, l, true).value == 0
    ensures DeltaAmount1Unsigned(lo, hi, l, true).Some? ==> DeltaAmount1Unsigned(lo, hi, l, true).value == 0
  {
    hide DeltaAmount0Unsigned, DeltaAmount1Unsigned;
    assert l * Q64 * (hi - lo) == 0 && l * (hi - lo) == 0;
    if DeltaAmount0Unsigned(lo, hi, l, true).Some? {
      DeltaAmount0Rounds(lo, hi, l, true);
      CeilIsLeast(DeltaAmount0Unsigned(lo, hi, l, true).value, 0, lo * hi, 0);
    }
    if DeltaAmount1Unsigned(lo, hi, l, true).Some? {
      DeltaAmount1Rounds(lo, hi, l, true);
      CeilIsLeast(DeltaAmount1Unsigned(lo, hi, l, true).value, 0, Q64, 0);
    }
  }

  /** The liquidity bought with the maximum of one token costs at most that maximum when it is added at the
      same price to the same range, wherever the current tick stands. */
  lemma QuotedLiquidityIsAffordable(pool: Pool, lower: int, upper: int, max0: nat, max1: nat, base0: bool, x: nat, y: nat)
    requires Coupled(pool) && MIN_TICK <= lower < upper <= MAX_TICK
    requires RequestedLiquidity(pool, lower, upper, 0, max0, max1, Some(base0)).Some?
    requires DeltaAmounts(pool.tick, pool.sqrtPrice, lower, upper,
                          RequestedLiquidity(pool, lower, upper, 0, max0, max1, Some(base0)).value) == Some((x, y))
    ensures if base0 then x <= max0 else y <= max1
  {
    hide SqrtPriceAtTick, DeltaAmount0Unsigned, DeltaAmount1Unsigned, LiquidityFromAmount0, LiquidityFromAmount1;
    PriceAtLeast(lower);
    PriceIncreases(lower, upper);
    var a, b, p := SqrtPriceAtTick(lower), SqrtPriceAtTick(upper), pool.sqrtPrice;
    TickAgreesWithPrice(pool, lower);
    TickAgreesWithPrice(pool, upper);
    var l := RequestedLiquidity(pool, lower, upper, 0, max0, max1, Some(base0)).value;
    var c := Clamp(p, a, b);
    if base0 {
      if p < b { Buys0(c, b, max0); } else { CostsNothing(b, b, l); }
    } else {
      if p > a { Buys1(a, c, max1); } else { CostsNothing(a, a, l); }
    }
  }

  lemma TickAgreesWithPrice(pool: Pool, t: int)
    requires Coupled(pool) && MIN_TICK <= t <= MAX_TICK
    ensures pool.tick < t ==> pool.sqrtPrice <= SqrtPriceAtTick(t)
    ensures pool.tick >= t ==> pool.sqrtPrice >= SqrtPriceAtTick(t)
  {
    hide SqrtPriceAtTick;
    if pool.tick < t {
      PriceAtMost(pool.tick + 1, t);
    } else {
      PriceAtMost(t, pool.tick);
    }
  }

  // ---------------------------------------------------------------------------------------------
  // Pieces

  /** Every change of liquidity in the list has its amounts. */
  predicate AllCharged(pool: Pool, lower: int, upper: int, deltas: seq<int>)
    requires MIN_TICK <= lower <= MAX_TICK && MIN_TICK <= upper <= MAX_TICK
  {
    forall i :: 0 <= i < |deltas| ==> DeltaAmounts(pool.tick, pool.sqrtPrice, lower, upper, deltas[i]).Some?
  }

  function NetLiquidity(deltas: seq<int>): int {
    if deltas == [] then 0 else NetLiquidity(deltas[..|deltas| - 1]) + deltas[|deltas| - 1]
  }

  /** What is paid for the additions in token t, less what is paid out for the removals. */
  function NetPaid(pool: Pool, lower: int, upper: int, deltas: seq<int>, t: nat): int
    requires MIN_TICK <= lower <= MAX_TICK && MIN_TICK <= upper <= MAX_TICK && AllCharged(pool, lower, upper, deltas)
  {
    if deltas == [] then 0
    else
      var n := |deltas| - 1;
      var amounts := DeltaAmounts(pool.tick, pool.sqrtPrice, lower, upper, deltas[n]).value;
      var amount := if t == 0 then amounts.0 else amounts.1;
      NetPaid(pool, lower, upper, deltas[..n], t) + if deltas[n] < 0 then -amount else amount
  }

  /** Any number of additions and removals at one price, in any order: the net payment is at least the exact
      value of the net liquidity. */
  lemma {:induction false} PiecesCostTheirValue(pool: Pool, lower: int, upper: int, deltas: seq<int>, t: nat)
    requires Coupled(pool) && MIN_TICK <= lower < upper <= MAX_TICK && t < 2 && AllCharged(pool, lower, upper, deltas)
    ensures var a, b, p := SqrtPriceAtTick(lower), SqrtPriceAtTick(upper), pool.sqrtPrice;
            0 < a <= b && p > 0
            && NetPaid(pool, lower, upper, deltas, t) as real >= (NetLiquidity(deltas) as real) * Value(t, 1, a, b, p)
  {
    hide SqrtPriceAtTick, DeltaAmounts, Value;
    PriceAtLeast(lower);
    PriceIncreases(lower, upper);
    if deltas != [] {
      var n := |deltas| - 1;
      var d := deltas[n];
      PiecesCostTheirValue(pool, lower, upper, deltas[..n], t);
      var amounts := DeltaAmounts(pool.tick, pool.sqrtPrice, lower, upper, d).value;
      AmountsAgainstValue(pool, lower, upper, d, amounts.0, amounts.1);
      var a, b, p := SqrtPriceAtTick(lower), SqrtPriceAtTick(upper), pool.sqrtPrice;
      ValuePerUnit(t, if d < 0 then -d else d, a, b, p);
      var u, m := Value(t, 1, a, b, p), NetLiquidity(deltas[..n]);
      assert (NetLiquidity(deltas) as real) * u == (m as real) * u + (d as real) * u;
    }
  }

  lemma ValuePerUnit(t: nat, l: nat, a: nat, b: nat, p: nat)
    requires 0 < a <= b && p > 0
    ensures Value(t, l, a, b, p) == (l as real) * Value(t, 1, a, b, p)
  {
    var x := l as real;
    if t == 0 {
      var s, d := Q64 as real, Inverse(Clamp(p, a, b)) - Inverse(b);
      assert x * s * d == x * (1.0 * s * d);
    } else {
      var d, s := (Clamp(p, a, b) - a) as real, Q64 as real;
      assert x * d / s == x * (1.0 * d / s);
    }
  }

  /** Adding and removing in any number of pieces at one price never pays out more than was paid in, as long
      as no more is removed than was added. */
  lemma PiecesNeverProfit(pool: Pool, lower: int, upper: int, deltas: seq<int>, t: nat)
    requires Coupled(pool) && MIN_TICK <= lower < upper <= MAX_TICK && t < 2
    requires AllCharged(pool, lower, upper, deltas) && NetLiquidity(deltas) >= 0
    ensures NetPaid(pool, lower, upper, deltas, t) >= 0
  {
    hide SqrtPriceAtTick, Value, NetPaid, NetLiquidity, AllCharged;
    PiecesCostTheirValue(pool, lower, upper, deltas, t);
    var a, b, p := SqrtPriceAtTick(lower), SqrtPriceAtTick(upper), pool.sqrtPrice;
    ValueNonnegative(t, 1, a, b, p);
    assert (NetLiquidity(deltas) as real) * Value(t, 1, a, b, p) >= 0.0;
    assert NetPaid(pool, lower, upper, deltas, t) as real >= 0.0;
  }
}
