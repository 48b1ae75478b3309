/** The exact, unrounded token amounts a position is worth at a price, and how a price move changes
    what all positions together are worth. */
module Curve {
  import opened FullMath
  import opened LiquidityMath
  import opened TickMath
  import opened SwapMath
  import opened Sums
  import opened Model
  import opened Ledger

  ghost function Inverse(x: nat): real
    requires x > 0
  {
    1.0 / (x as real)
  }

  ghost function Clamp(p: nat, a: nat, b: nat): nat {
    if p < a then a else if p > b then b else p
  }

  predicate InRange(p: Position) {
    MIN_TICK <= p.lower < p.upper <= MAX_TICK
  }

  /** Token 0 is what the liquidity yields between the price and the upper end of the range, token 1
      what it yields between the lower end and the price. */
  ghost function Value(t: nat, liquidity: nat, a: nat, b: nat, price: nat): real
    requires 0 < a <= b && price > 0
  {
    var c := Clamp(price, a, b);
    if t == 0 then (liquidity as real) * (Q64 as real) * (Inverse(c) - Inverse(b))
    else (liquidity as real) * ((c - a) as real) / (Q64 as real)
  }

  /** Change of value per unit of active liquidity when the price moves from p to q. */
  ghost function Slope(t: nat, p: nat, q: nat): real
    requires p > 0 && q > 0
  {
    if t == 0 then (Q64 as real) * (Inverse(q) - Inverse(p)) else ((q - p) as real) / (Q64 as real)
  }

  ghost function ValueAt(t: nat, price: nat): Position -> real
    requires price > 0
  {
    (p: Position) =>
      if InRange(p) then
        PricesPositive(p);
        Value(t, p.liquidity, SqrtPriceAtTick(p.lower), SqrtPriceAtTick(p.upper), price)
      else 0.0
  }

  lemma PricesPositive(p: Position)
    requires InRange(p)
    ensures 0 < SqrtPriceAtTick(p.lower) <= SqrtPriceAtTick(p.upper)
  {
    hide SqrtPriceAtTick;
    PriceAtLeast(p.lower);
    PriceIncreases(p.lower, p.upper);
  }

  /** What all positions together are worth in token t at a price. */
  ghost function TotalValue(t: nat, ps: seq<Position>, price: nat): real
    requires price > 0
  {
    SumR(ps, ValueAt(t, price))
  }

  // ---------------------------------------------------------------------------------------------
  // One position

  lemma ValueInside(t: nat, liquidity: nat, a: nat, b: nat, p: nat, q: nat)
    requires 0 < a <= b && a <= p <= b && a <= q <= b
    ensures Value(t, liquidity, a, b, q) == Value(t, liquidity, a, b, p) + Slope(t, p, q) * (liquidity as real)
  {
    var l := liquidity as real;
    if t == 0 {
      var s := Q64 as real;
      assert l * s * (Inverse(q) - Inverse(b)) == l * s * (Inverse(p) - Inverse(b)) + l * s * (Inverse(q) - Inverse(p));
    } else {
      assert l * ((q - a) as real) == l * ((p - a) as real) + l * ((q - p) as real);
      Distribute(l, (q - p) as real, Q64 as real);
    }
  }

  lemma Distribute(l: real, x: real, d: real)
    requires d > 0.0
    ensures l * x / d == x / d * l
  {
  }

  lemma ValueOutside(t: nat, liquidity: nat, a: nat, b: nat, p: nat, q: nat)
    requires 0 < a <= b && 0 < p && 0 < q && ((p <= a && q <= a) || (b <= p && b <= q))
    ensures Value(t, liquidity, a, b, q) == Value(t, liquidity, a, b, p)
  {
  }

  lemma InverseOrder(p: nat, q: nat)
    requires 0 < p <= q
    ensures Inverse(q) <= Inverse(p)
    ensures p < q ==> Inverse(q) < Inverse(p)
  {
  }

  /** A higher price is worth more of token 1 and less of token 0, and it is worth the same of one
      exactly when it is worth the same of the other. */
  lemma ValueMonotone(liquidity: nat, a: nat, b: nat, p: nat, q: nat)
    requires 0 < a <= b && 0 < p <= q
    ensures Value(1, liquidity, a, b, p) <= Value(1, liquidity, a, b, q)
    ensures Value(0, liquidity, a, b, q) <= Value(0, liquidity, a, b, p)
    ensures Value(1, liquidity, a, b, p) == Value(1, liquidity, a, b, q)
            <==> Value(0, liquidity, a, b, p) == Value(0, liquidity, a, b, q)
  {
    var c, d := Clamp(p, a, b), Clamp(q, a, b);
    assert c <= d;
    ValueInside(0, liquidity, a, b, c, d);
    ValueInside(1, liquidity, a, b, c, d);
    InverseOrder(c, d);
    var l, x, y := liquidity as real, Slope(0, c, d), Slope(1, c, d);
    assert x <= 0.0 <= y && (c < d ==> x < 0.0 < y);
    assert x * l <= 0.0 <= y * l;
    assert c < d && l > 0.0 ==> x * l < 0.0 < y * l;
  }

  lemma ValueNonnegative(t: nat, liquidity: nat, a: nat, b: nat, p: nat)
    requires 0 < a <= b && 0 < p
    ensures Value(t, liquidity, a, b, p) >= 0.0
  {
    InverseOrder(Clamp(p, a, b), b);
  }

  // ---------------------------------------------------------------------------------------------
  // All positions

  lemma PriceAtMost(s: int, t: int)
    requires MIN_TICK <= s <= t <= MAX_TICK
    ensures SqrtPriceAtTick(s) <= SqrtPriceAtTick(t)
  {
    hide SqrtPriceAtTick;
    if s < t {
      PriceIncreases(s, t);
    }
  }

  /** Between two neighbouring initialised ticks x < y the curve is that of the active liquidity. */
  lemma MoveInGap(t: nat, ps: seq<Position>, ticks: map<int, Tick>, tick: int, x: int, y: int, p: nat, q: nat)
    requires TicksBalance(ps, ticks) && forall z :: z in ps ==> InRange(z)
    requires MIN_TICK <= x <= tick < y <= MAX_TICK && NoneBetween(ticks, x, y - 1)
    requires SqrtPriceAtTick(x) <= p <= SqrtPriceAtTick(y) && SqrtPriceAtTick(x) <= q <= SqrtPriceAtTick(y)
    requires p > 0 && q > 0
    ensures TotalValue(t, ps, q) == TotalValue(t, ps, p) + Slope(t, p, q) * (Active(ps, tick) as real)
  {
    hide SqrtPriceAtTick, Value, Slope;
    forall z | z in ps
      ensures ValueAt(t, q)(z) == ValueAt(t, p)(z) + Slope(t, p, q) * (CoverAt(tick)(z) as real)
    {
      PricesPositive(z);
      var a, b := SqrtPriceAtTick(z.lower), SqrtPriceAtTick(z.upper);
      if z.liquidity > 0 {
        EndsInitialised(ps, ticks, z);
        if Covers(z, tick) {
          PriceAtMost(z.lower, x);
          PriceAtMost(y, z.upper);
          ValueInside(t, z.liquidity, a, b, p, q);
        } else {
          if z.lower > tick {
            PriceAtMost(y, z.lower);
          } else {
            PriceAtMost(z.upper, x);
          }
          ValueOutside(t, z.liquidity, a, b, p, q);
        }
      } else {
        NoLiquidityNoValue(t, a, b, p);
        NoLiquidityNoValue(t, a, b, q);
      }
    }
    SumLinearR(ps, ValueAt(t, q), ValueAt(t, p), CoverAt(tick), Slope(t, p, q));
  }

  lemma NoLiquidityNoValue(t: nat, a: nat, b: nat, p: nat)
    requires 0 < a <= b && 0 < p
    ensures Value(t, 0, a, b, p) == 0.0
  {
  }

  /** Token 1 never loses, token 0 never gains from a rising price; and if no token 1 was gained then no
      token 0 was lost either. */
  lemma TotalMonotone(ps: seq<Position>, p: nat, q: nat)
    requires 0 < p <= q
    ensures TotalValue(1, ps, p) <= TotalValue(1, ps, q)
    ensures TotalValue(0, ps, q) <= TotalValue(0, ps, p)
    ensures TotalValue(1, ps, p) == TotalValue(1, ps, q) <==> TotalValue(0, ps, p) == TotalValue(0, ps, q)
  {
    hide SqrtPriceAtTick, Value;
    forall z | z in ps
      ensures ValueAt(1, p)(z) <= ValueAt(1, q)(z) && ValueAt(0, q)(z) <= ValueAt(0, p)(z)
      ensures ValueAt(1, p)(z) == ValueAt(1, q)(z) <==> ValueAt(0, p)(z) == ValueAt(0, q)(z)
    {
      if InRange(z) {
        PricesPositive(z);
        ValueMonotone(z.liquidity, SqrtPriceAtTick(z.lower), SqrtPriceAtTick(z.upper), p, q);
      }
    }
    SumMonotoneR(ps, ValueAt(1, p), ValueAt(1, q));
    SumMonotoneR(ps, ValueAt(0, q), ValueAt(0, p));
    if TotalValue(1, ps, p) == TotalValue(1, ps, q) {
      SumSameR(ps, ValueAt(0, p), ValueAt(0, q));
    }
    if TotalValue(0, ps, p) == TotalValue(0, ps, q) {
      SumSameR(ps, ValueAt(1, p), ValueAt(1, q));
    }
  }

  // ---------------------------------------------------------------------------------------------
  // Rounded amounts against the exact curve

  lemma CeilReal(r: int, n: int, d: int)
    requires d > 0 && IsCeil(r, n, d)
    ensures (n as real) / (d as real) <= r as real < (n as real) / (d as real) + 1.0
  {
    RealOrder(n, r, d);
    RealOrder(r - 1, n, d);
  }

  /** x / d against a whole number y, where one of the two comes with its divisor. */
  lemma RealOrder(x: int, y: int, d: int)
    requires d > 0
    ensures x <= y * d ==> (x as real) / (d as real) <= y as real
    ensures x * d < y ==> x as real < (y as real) / (d as real)
    ensures x * d <= y ==> x as real <= (y as real) / (d as real)
    ensures x < y * d ==> (x as real) / (d as real) < y as real
  {
    var a, b := y * d, x * d;
    assert a as real == (y as real) * (d as real);
    assert b as real == (x as real) * (d as real);
    Divided(x as real, y as real, d as real);
    Divided(y as real, x as real, d as real);
  }

  lemma Divided(x: real, y: real, d: real)
    requires d > 0.0
    ensures x <= y * d <==> x / d <= y
    ensures x < y * d <==> x / d < y
  {
    var q := x / d;
    assert q * d == x;
    assert q <= y ==> q * d <= y * d;
    assert y <= q ==> y * d <= q * d;
    assert y < q ==> y * d < q * d;
    assert q < y ==> q * d < y * d;
  }

  lemma FloorReal(r: int, n: int, d: int)
    requires d > 0 && IsFloor(r, n, d)
    ensures (n as real) / (d as real) - 1.0 < r as real <= (n as real) / (d as real)
  {
    RealOrder(r, n, d);
    RealOrder(n, r + 1, d);
  }

  /** Rounded up: at least the value and less than one unit above it. Rounded down: the mirror image. */
  ghost predicate Rounds(r: nat, value: real, roundUp: bool) {
    if roundUp then value <= r as real < value + 1.0 else value - 1.0 < r as real <= value
  }

  /** L * Q * (hi - lo) / (lo * hi) is the value of token 0 between the prices. */
  lemma Quotient0(liquidity: nat, lo: nat, hi: nat)
    requires 0 < lo <= hi
    ensures lo * hi > 0
    ensures ((liquidity * Q64 * (hi - lo)) as real) / ((lo * hi) as real) == Slope(0, hi, lo) * (liquidity as real)
  {
    var x, y, n := lo as real, hi as real, (liquidity * Q64) as real;
    assert (lo * hi) as real == x * y;
    assert (liquidity * Q64 * (hi - lo)) as real == n * (y - x);
    InverseDifference(n, x, y);
    assert n == (liquidity as real) * (Q64 as real);
  }

  lemma InverseDifference(n: real, x: real, y: real)
    requires x > 0.0 && y > 0.0
    ensures n * (y - x) / (x * y) == n * (1.0 / x - 1.0 / y)
  {
    assert (y - x) / (x * y) == 1.0 / x - 1.0 / y by {
      assert (1.0 / x - 1.0 / y) * (x * y) == y - x;
    }
  }

  /** Amounts are the exact value between two prices, rounded once. */
  lemma Rounded0(lo: nat, hi: nat, liquidity: nat, roundUp: bool)
    requires 0 < lo <= hi && DeltaAmount0Unsigned(lo, hi, liquidity, roundUp).Some?
    ensures Rounds(DeltaAmount0Unsigned(lo, hi, liquidity, roundUp).value, Slope(0, hi, lo) * (liquidity as real), roundUp)
  {
    hide DeltaAmount0Unsigned, Slope;
    var r := DeltaAmount0Unsigned(lo, hi, liquidity, roundUp).value;
    var n := liquidity * Q64 * (hi - lo);
    DeltaAmount0Rounds(lo, hi, liquidity, roundUp);
    Quotient0(liquidity, lo, hi);
    if roundUp { CeilReal(r, n, lo * hi); } else { FloorReal(r, n, lo * hi); }
  }

  lemma Rounded1(lo: nat, hi: nat, liquidity: nat, roundUp: bool)
    requires 0 < lo <= hi && DeltaAmount1Unsigned(lo, hi, liquidity, roundUp).Some?
    ensures Rounds(DeltaAmount1Unsigned(lo, hi, liquidity, roundUp).value, Slope(1, lo, hi) * (liquidity as real), roundUp)
  {
    hide DeltaAmount1Unsigned;
    var r := DeltaAmount1Unsigned(lo, hi, liquidity, roundUp).value;
    var n := liquidity * (hi - lo);
    DeltaAmount1Rounds(lo, hi, liquidity, roundUp);
    assert n as real == (liquidity as real) * ((hi - lo) as real);
    Distribute(liquidity as real, (hi - lo) as real, Q64 as real);
    if roundUp { CeilReal(r, n, Q64); } else { FloorReal(r, n, Q64); }
  }

  lemma SlopeReverses(t: nat, p: nat, q: nat, liquidity: nat)
    requires p > 0 && q > 0
    ensures Slope(t, q, p) * (liquidity as real) == -(Slope(t, p, q) * (liquidity as real))
  {
    assert Slope(t, q, p) == -Slope(t, p, q);
  }

  /** The input of a step is the exact change of value rounded up, its output at most the other one
      rounded down. */
  lemma StepOnCurve(p: nat, q: nat, liquidity: nat, zeroForOne: bool, amountIn: nat, amountOut: nat)
    requires p > 0 && q > 0 && if zeroForOne then q <= p else p <= q
    requires InAmount(p, q, liquidity, zeroForOne).Some? && InAmount(p, q, liquidity, zeroForOne).value == amountIn
    requires OutAmount(p, q, liquidity, zeroForOne).Some? && amountOut <= OutAmount(p, q, liquidity, zeroForOne).value
    ensures var i := if zeroForOne then 0 else 1;
            && Slope(i, p, q) * (liquidity as real) <= amountIn as real
            && amountOut as real <= -(Slope(1 - i, p, q) * (liquidity as real))
            && Rounds(amountIn, Slope(i, p, q) * (liquidity as real), true)
            && Rounds(OutAmount(p, q, liquidity, zeroForOne).value, -(Slope(1 - i, p, q) * (liquidity as real)), false)
  {
    hide DeltaAmount0Unsigned, DeltaAmount1Unsigned, Slope;
    if zeroForOne {
      Rounded0(q, p, liquidity, true);
      Rounded1(q, p, liquidity, false);
      SlopeReverses(1, p, q, liquidity);
    } else {
      Rounded1(p, q, liquidity, true);
      Rounded0(p, q, liquidity, false);
      SlopeReverses(0, p, q, liquidity);
    }
  }
}
