/** Tick transitions and growth inside a range (tick_array.rs). */
module Ticks {
  import opened Wrappers
  import opened FullMath
  import opened LiquidityMath
  import opened Model

  /** Adds liquidity to, or removes it from, tick `index`. Growth before its first use counts as below. */
  function TickUpdate(t: Tick, index: int, tickCurrent: int, delta: int, growths: Counters, upper: bool): Option<Tick> {
    var gross :- AddDelta(t.gross, delta);
    var outside := if t.gross == 0 && index <= tickCurrent then growths else t.outside;
    var net := if upper then t.net - delta else t.net + delta;
    if -I128_MAX - 1 <= net <= I128_MAX then Some(Tick(net, gross, outside)) else None
  }

  /** Whether the update turned an uninitialised tick into an initialised one or back. */
  predicate Flips(before: Tick, after: Tick) {
    (after.gross == 0) != (before.gross == 0)
  }

  function CrossOne(live: bool, growth: nat, outside: nat): Option<nat> {
    if !live then Some(outside) else if growth < outside then None else Some(growth - outside)
  }

  /** The price moves across the tick: what was outside is now on the near side. */
  function TickCross(t: Tick, growths: Counters, pool: Pool): Option<Tick> {
    var a0 :- CrossOne(true, growths[0], t.outside[0]);
    var a1 :- CrossOne(true, growths[1], t.outside[1]);
    var a2 :- CrossOne(pool.rewards[0].initialized, growths[2], t.outside[2]);
    var a3 :- CrossOne(pool.rewards[1].initialized, growths[3], t.outside[3]);
    var a4 :- CrossOne(pool.rewards[2].initialized, growths[4], t.outside[4]);
    Some(t.(outside := [a0, a1, a2, a3, a4]))
  }

  function Below(outside: nat, lower: int, tickCurrent: int, growth: nat): int {
    if tickCurrent >= lower then outside else growth - outside
  }

  function Above(outside: nat, upper: int, tickCurrent: int, growth: nat): int {
    if tickCurrent < upper then outside else growth - outside
  }

  /** Growth inside [lower, upper) as an exact integer, possibly negative. */
  function InsideExact(lowerOutside: nat, upperOutside: nat, lower: int, upper: int, tickCurrent: int, growth: nat): int {
    growth - Below(lowerOutside, lower, tickCurrent, growth) - Above(upperOutside, upper, tickCurrent, growth)
  }

  /** Growth inside as the program computes it: checked subtractions, then two wrapping ones. */
  function InsideOne(live: bool, lowerOutside: nat, upperOutside: nat, lower: int, upper: int, tickCurrent: int, growth: nat): Option<nat> {
    if !live then Some(0)
    else
      var below := Below(lowerOutside, lower, tickCurrent, growth);
      var above := Above(upperOutside, upper, tickCurrent, growth);
      if below < 0 || above < 0 then None
      else Some(((growth - below) % U128_MOD - above) % U128_MOD)
  }

  function GrowthsInside(lo: Tick, up: Tick, lower: int, upper: int, pool: Pool): Option<Counters> {
    var a0 :- InsideOne(true, lo.outside[0], up.outside[0], lower, upper, pool.tick, pool.feeGrowth[0]);
    var a1 :- InsideOne(true, lo.outside[1], up.outside[1], lower, upper, pool.tick, pool.feeGrowth[1]);
    var a2 :- InsideOne(pool.rewards[0].initialized, lo.outside[2], up.outside[2], lower, upper, pool.tick, pool.rewards[0].growth);
    var a3 :- InsideOne(pool.rewards[1].initialized, lo.outside[3], up.outside[3], lower, upper, pool.tick, pool.rewards[1].growth);
    var a4 :- InsideOne(pool.rewards[2].initialized, lo.outside[4], up.outside[4], lower, upper, pool.tick, pool.rewards[2].growth);
    Some([a0, a1, a2, a3, a4])
  }

  /** A tick that becomes initialised starts as if all growth so far had happened below it. */
  lemma FreshTickCountsAsBelow(index: int, tickCurrent: int, delta: int, growths: Counters, upper: bool, k: nat)
    requires k < COUNTERS
    ensures var t' := TickUpdate(EMPTY_TICK, index, tickCurrent, delta, growths, upper);
            t'.Some? ==>
              && Below(t'.value.outside[k], index, tickCurrent, growths[k]) == growths[k]
              && Above(t'.value.outside[k], index, tickCurrent, growths[k]) == 0
  {
  }

  /** A change of liquidity at a tick: gross and net move by it, with the sign of the end it is; a tick in
      use keeps its outside growth. It aborts exactly if one of the two leaves its width. */
  lemma TickUpdateMeans(t: Tick, index: int, tickCurrent: int, delta: int, growths: Counters, upper: bool)
    ensures var gross, net := t.gross + delta, t.net + (if upper then -delta else delta);
            var t' := TickUpdate(t, index, tickCurrent, delta, growths, upper);
            && (t'.None? <==> gross < 0 || (delta >= 0 && gross > U128_MAX) || net < -I128_MAX - 1 || net > I128_MAX)
            && (t'.Some? ==> t'.value.gross == gross && t'.value.net == net && (t.gross > 0 ==> t'.value.outside == t.outside))
  {
  }

  lemma WrappingTwice(x: int, y: int)
    ensures (x % U128_MOD - y) % U128_MOD == (x - y) % U128_MOD
  {
    var q := x / U128_MOD;
    var z := x % U128_MOD - y;
    assert x - y == z + q * U128_MOD;
    ModShift(z, q);
  }

  lemma ModShift(z: int, q: int)
    ensures (z + q * U128_MOD) % U128_MOD == z % U128_MOD
  {
    var a, r := z / U128_MOD, z % U128_MOD;
    assert z + q * U128_MOD == (a + q) * U128_MOD + r;
    ModUnique(z + q * U128_MOD, a + q, r);
  }

  lemma ModUnique(x: int, q: int, r: int)
    requires 0 <= r < U128_MOD && x == q * U128_MOD + r
    ensures x % U128_MOD == r
  {
  }

  /** The program's wrapping result is the exact growth inside, reduced modulo 2^128. */
  lemma InsideIsExactModulo(lowerOutside: nat, upperOutside: nat, lower: int, upper: int, tickCurrent: int, growth: nat)
    requires InsideOne(true, lowerOutside, upperOutside, lower, upper, tickCurrent, growth).Some?
    ensures InsideOne(true, lowerOutside, upperOutside, lower, upper, tickCurrent, growth)
            == Some(InsideExact(lowerOutside, upperOutside, lower, upper, tickCurrent, growth) % U128_MOD)
  {
    var below := Below(lowerOutside, lower, tickCurrent, growth);
    var above := Above(upperOutside, upper, tickCurrent, growth);
    WrappingTwice(growth - below, above);
  }
}
