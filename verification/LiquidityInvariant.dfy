/** Adding, removing and settling liquidity keep every invariant. */
module LiquidityInvariant {
  import opened Wrappers
  import opened FullMath
  import opened LiquidityMath
  import opened TickMath
  import opened SwapMath
  import opened Sums
  import opened Model
  import opened Ticks
  import opened RewardRules
  import opened Positions
  import opened Ledger
  import opened GrowthLedger
  import opened Curve
  import opened Machine
  import opened Invariants
  import opened RewardInvariant

  // ---------------------------------------------------------------------------------------------
  // Amounts

  lemma ValueLinear(t: nat, l: nat, m: nat, a: nat, b: nat, p: nat)
    requires 0 < a <= b && p > 0
    ensures Value(t, l + m, a, b, p) == Value(t, l, a, b, p) + Value(t, m, a, b, p)
  {
    var x, y := l as real, m as real;
    assert (l + m) as real == x + y;
    if t == 0 {
      var s, d := Q64 as real, Inverse(Clamp(p, a, b)) - Inverse(b);
      assert (x + y) * s * d == x * s * d + y * s * d;
    } else {
      var d, s := (Clamp(p, a, b) - a) as real, Q64 as real;
      assert (x + y) * d == x * d + y * d;
      assert (x * d + y * d) / s == x * d / s + y * d / s;
    }
  }

  /** A rounded amount against the value between two prices. */
  lemma RoundedAmounts(lo: nat, hi: nat, liquidity: nat, roundUp: bool)
    requires 0 < lo <= hi
    ensures var r := DeltaAmount0Unsigned(lo, hi, liquidity, roundUp);
            r.Some? ==> Rounds(r.value, Value(0, liquidity, lo, hi, lo), roundUp)
    ensures var r := DeltaAmount1Unsigned(lo, hi, liquidity, roundUp);
            r.Some? ==> Rounds(r.value, Value(1, liquidity, lo, hi, hi), roundUp)
  {
    hide DeltaAmount0Unsigned, DeltaAmount1Unsigned, Slope;
    ValueInside(0, liquidity, lo, hi, hi, lo);
    ValueInside(1, liquidity, lo, hi, lo, hi);
    assert Value(0, liquidity, lo, hi, hi) == 0.0 && Value(1, liquidity, lo, hi, lo) == 0.0;
    if DeltaAmount0Unsigned(lo, hi, liquidity, roundUp).Some? {
      Rounded0(lo, hi, liquidity, roundUp);
    }
    if DeltaAmount1Unsigned(lo, hi, liquidity, roundUp).Some? {
      Rounded1(lo, hi, liquidity, roundUp);
    }
  }

  /** The value of a range at a price is that of the part of the range on either side of the price. */
  lemma ValueOfPart(liquidity: nat, a: nat, b: nat, p: nat)
    requires 0 < a <= b && p > 0
    ensures var c := Clamp(p, a, b);
            && Value(0, liquidity, a, b, p) == Value(0, liquidity, c, b, c)
            && Value(1, liquidity, a, b, p) == Value(1, liquidity, a, c, c)
  {
  }

  lemma EmptyValue(a: nat, liquidity: nat)
    requires a > 0
    ensures Value(0, liquidity, a, a, a) == 0.0 && Value(1, liquidity, a, a, a) == 0.0
  {
  }

  /** A deposit is the exact value of the liquidity at the current price rounded up, a refund that value
      rounded down. The case distinction by tick agrees with the one by price even where the price sits on
      a tick. */
  lemma AmountsAgainstValue(pool: Pool, lower: int, upper: int, delta: int, x: nat, y: nat)
    requires Coupled(pool) && MIN_TICK <= lower < upper <= MAX_TICK
    requires DeltaAmounts(pool.tick, pool.sqrtPrice, lower, upper, delta) == Some((x, y))
    ensures var a, b, p := SqrtPriceAtTick(lower), SqrtPriceAtTick(upper), pool.sqrtPrice;
            0 < a <= b && 0 < p
    ensures var a, b, p := SqrtPriceAtTick(lower), SqrtPriceAtTick(upper), pool.sqrtPrice;
            && (delta >= 0 ==> Rounds(x, Value(0, delta, a, b, p), true) && Rounds(y, Value(1, delta, a, b, p), true))
            && (delta < 0 ==> Rounds(x, Value(0, -delta, a, b, p), false) && Rounds(y, Value(1, -delta, a, b, p), false))
  {
    hide SqrtPriceAtTick, DeltaAmount0Unsigned, DeltaAmount1Unsigned, Value;
    PriceAtLeast(lower);
    PriceAtMost(lower, upper);
    var a, b, p := SqrtPriceAtTick(lower), SqrtPriceAtTick(upper), pool.sqrtPrice;
    var l := if delta < 0 then -delta else delta;
    if pool.tick < lower {
      PriceAtMost(pool.tick + 1, lower);
    } else {
      PriceAtMost(lower, pool.tick);
      if pool.tick < upper {
        PriceAtMost(pool.tick + 1, upper);
      } else {
        PriceAtMost(upper, pool.tick);
      }
    }
    var c := Clamp(p, a, b);
    ValueOfPart(l, a, b, p);
    EmptyValue(c, l);
    RoundedAmounts(c, b, l, delta >= 0);
    RoundedAmounts(a, c, l, delta >= 0);
  }

  // ---------------------------------------------------------------------------------------------
  // Ticks and growth inside

  lemma TickUpdateEffect(s: State, index: int, delta: int, upper: bool, t': Tick, k: nat)
    requires CountersInv(s) && k < COUNTERS
    requires if delta == 0 then t' == TickOf(s.ticks, index)
             else TickUpdate(TickOf(s.ticks, index), index, s.pool.tick, delta, Growths(s.pool), upper) == Some(t')
    requires index in s.ticks ==> s.ticks[index].gross > 0
    ensures KeepsOutside(ViewOf(s.pool, s.ticks, k), index, t')
    ensures t'.gross == TickOf(s.ticks, index).gross + delta
    ensures t'.net == TickOf(s.ticks, index).net + (if upper then -delta else delta)
  {
    assert CounterHolds(s, k);
  }

  lemma InsideVector(s: State, lo: Tick, up: Tick, lower: int, upper: int, inside: Counters, k: nat)
    requires CountersInv(s) && k < COUNTERS
    requires lo.outside[k] <= Growth(s.pool, k) && up.outside[k] <= Growth(s.pool, k)
    requires GrowthsInside(lo, up, lower, upper, s.pool) == Some(inside)
    ensures inside[k] == InsideExact(lo.outside[k], up.outside[k], lower, upper, s.pool.tick, Growth(s.pool, k)) % U128_MOD
  {
    hide CounterInv;
    assert CounterHolds(s, k);
    if Live(s.pool, k) {
      hide InsideExact;
      InsideIsExactModulo(lo.outside[k], up.outside[k], lower, upper, s.pool.tick, Growth(s.pool, k));
    }
  }

  /** The checked subtractions of the growth computation never fail. */
  lemma GrowthsInsideNeverFails(s: State, lower: int, upper: int)
    requires CountersInv(s)
    ensures GrowthsInside(TickOf(s.ticks, lower), TickOf(s.ticks, upper), lower, upper, s.pool).Some?
  {
    hide InsideExact;
    assert CounterHolds(s, 0) && CounterHolds(s, 1) && CounterHolds(s, 2) && CounterHolds(s, 3) && CounterHolds(s, 4);
  }

  // ---------------------------------------------------------------------------------------------
  // One position changes

  /** How the accounts look after position id has taken a change of liquidity; vaults still untouched. */
  ghost function Changed(s: State, pool: Pool, id: nat, p': Position, q': Protocol, lo: Tick, up: Tick): State
    requires id < |s.positions|
  {
    s.(pool := pool, ticks := PutTick(PutTick(s.ticks, p'.lower, lo), p'.upper, up),
       protocols := s.protocols[(p'.lower, p'.upper) := q'], positions := s.positions[id := p'])
  }

  ghost predicate SameRange(p: Position, p': Position) {
    p'.lower == p.lower && p'.upper == p.upper
  }

  lemma LiquidityAfterChange(s: State, id: nat, p': Position, q': Protocol, lo: Tick, up: Tick, liquidity: nat)
    requires Shape(s) && LiquidityInv(s) && HasRange(s, id) && SameRange(s.positions[id], p')
    requires var p := s.positions[id]; var d := p'.liquidity - p.liquidity;
             && lo.gross == TickOf(s.ticks, p.lower).gross + d && lo.net == TickOf(s.ticks, p.lower).net + d
             && up.gross == TickOf(s.ticks, p.upper).gross + d && up.net == TickOf(s.ticks, p.upper).net - d
             && q'.liquidity == s.protocols[(p.lower, p.upper)].liquidity + d
             && liquidity == s.pool.liquidity + (if Covers(p, s.pool.tick) then d else 0)
    ensures LiquidityInv(Changed(s, s.pool.(liquidity := liquidity), id, p', q', lo, up))
    ensures Shape(Changed(s, s.pool.(liquidity := liquidity), id, p', q', lo, up))
  {
    var ps, ps' := s.positions, s.positions[id := p'];
    assert ps[id] in ps;
    TicksBalanceAfterChange(ps, s.ticks, id, p', lo, up);
    SumsAfterChange(ps, id, p');
    forall x | x in ps' ensures x == p' || x in ps {}
  }

  lemma CountersAfterChange(s: State, id: nat, p': Position, q': Protocol, lo: Tick, up: Tick, liquidity: nat, inside: Counters)
    requires Shape(s) && LiquidityInv(s) && CountersInv(s) && HasRange(s, id) && SameRange(s.positions[id], p')
    requires LiquidityInv(Changed(s, s.pool.(liquidity := liquidity), id, p', q', lo, up))
    requires forall k: nat :: k < COUNTERS ==>
               && KeepsOutside(ViewOf(s.pool, s.ticks, k), p'.lower, lo)
               && KeepsOutside(ViewOf(s.pool, s.ticks, k), p'.upper, up)
    requires GrowthsInside(lo, up, p'.lower, p'.upper, s.pool) == Some(inside)
    requires q'.last == inside == p'.last
    requires forall k: nat :: k < COUNTERS ==>
               LatestOwed(s.positions[id].owed[k], s.positions[id].last[k], inside[k], s.positions[id].liquidity) == Some(p'.owed[k])
    ensures CountersInv(Changed(s, s.pool.(liquidity := liquidity), id, p', q', lo, up))
  {
    hide LatestOwed, InsideExact, CounterInv, GrowthsInside, TicksBalance;
    var s' := Changed(s, s.pool.(liquidity := liquidity), id, p', q', lo, up);
    forall k: nat | k < COUNTERS ensures CounterHolds(s', k) {
      assert CounterHolds(s, k);
      assert KeepsOutside(ViewOf(s.pool, s.ticks, k), p'.lower, lo) && KeepsOutside(ViewOf(s.pool, s.ticks, k), p'.upper, up);
      assert LatestOwed(s.positions[id].owed[k], s.positions[id].last[k], inside[k], s.positions[id].liquidity) == Some(p'.owed[k]);
      InsideVector(s, lo, up, p'.lower, p'.upper, inside, k);
      ChangeKeeps(ViewOf(s.pool, s.ticks, k), s.positions, s.protocols, Unclaimed(s.pool, k), id, p', q', lo, up);
    }
  }

  /** The value of all positions follows the value of the one that changed. */
  lemma ValueAfterChange(s: State, id: nat, p': Position, x: nat, y: nat, delta: int)
    requires Shape(s) && Coupled(s.pool) && id < |s.positions| && SameRange(s.positions[id], p')
    requires p'.liquidity == s.positions[id].liquidity + delta
    requires MIN_TICK <= p'.lower < p'.upper <= MAX_TICK
    requires if delta == 0 then x == y == 0
             else DeltaAmounts(s.pool.tick, s.pool.sqrtPrice, p'.lower, p'.upper, delta) == Some((x, y))
    ensures var ps, ps', price := s.positions, s.positions[id := p'], s.pool.sqrtPrice;
            var sx, sy := (if delta < 0 then -(x as real) else x as real), (if delta < 0 then -(y as real) else y as real);
            TotalValue(0, ps', price) <= TotalValue(0, ps, price) + sx && TotalValue(1, ps', price) <= TotalValue(1, ps, price) + sy
  {
    hide SqrtPriceAtTick, DeltaAmounts, Value;
    var p, price := s.positions[id], s.pool.sqrtPrice;
    PricesPositive(p);
    var a, b := SqrtPriceAtTick(p.lower), SqrtPriceAtTick(p.upper);
    SumUpdateR(s.positions, id, p', ValueAt(0, price));
    SumUpdateR(s.positions, id, p', ValueAt(1, price));
    if delta > 0 {
      AmountsAgainstValue(s.pool, p.lower, p.upper, delta, x, y);
      ValueLinear(0, p.liquidity, delta, a, b, price);
      ValueLinear(1, p.liquidity, delta, a, b, price);
    } else if delta < 0 {
      AmountsAgainstValue(s.pool, p.lower, p.upper, delta, x, y);
      ValueLinear(0, p'.liquidity, -delta, a, b, price);
      ValueLinear(1, p'.liquidity, -delta, a, b, price);
    }
  }

  /** A change of liquidity with its settlement keeps all ledgers, and the amounts computed for it cover
      (or, when removing, do not exceed) what the change is worth. */
  lemma ModifyKeeps(s: State, id: nat, delta: int, now: nat, m: Modified, settled: Position)
    requires Inv(s) && s.clock == now && HasRange(s, id) && s.positions[id].liquidity + delta >= 0
    requires var p := s.positions[id];
             && ModifyPosition(s.pool, s.protocols[(p.lower, p.upper)], TickOf(s.ticks, p.lower), TickOf(s.ticks, p.upper),
                               p.lower, p.upper, delta, now) == Some(m)
             && Settle(p, m.state.protocol.last) == Some(settled)
    ensures var p := s.positions[id]; var p' := settled.(liquidity := p.liquidity + delta);
            var s' := Changed(s, m.state.pool, id, p', m.state.protocol, m.state.lower, m.state.upper);
            && Ledgers(s') && s'.pool.sqrtPrice == s.pool.sqrtPrice && s'.pool.status == s.pool.status
            && s'.pool == s.pool.(liquidity := s'.pool.liquidity, rewards := s'.pool.rewards)
            && (delta >= 0 ==> Surplus(s', 0) >= Surplus(s, 0) - m.amount0 as real && Surplus(s', 1) >= Surplus(s, 1) - m.amount1 as real)
            && (delta <= 0 ==> Surplus(s', 0) >= Surplus(s, 0) + m.amount0 as real && Surplus(s', 1) >= Surplus(s, 1) + m.amount1 as real)
  {
    hide AccrueRewards, TickUpdate, GrowthsInside, DeltaAmounts, LatestOwed, SqrtPriceAtTick, CountersInv, LiquidityInv, TotalValue, KeepsOutside;
    var p := s.positions[id];
    var p' := settled.(liquidity := p.liquidity + delta);
    var pool1 := AccrueRewards(s.pool, now).value;
    AccrueRewardsKeeps(s, now, pool1);
    var s1 := s.(pool := pool1);
    var lo, up := m.state.lower, m.state.upper;
    InitialisedHasGross(s1, p.lower);
    InitialisedHasGross(s1, p.upper);
    forall k: nat | k < COUNTERS
      ensures KeepsOutside(ViewOf(s1.pool, s1.ticks, k), p.lower, lo) && KeepsOutside(ViewOf(s1.pool, s1.ticks, k), p.upper, up)
    {
      TickUpdateEffect(s1, p.lower, delta, false, lo, k);
      TickUpdateEffect(s1, p.upper, delta, true, up, k);
    }
    TickUpdateEffect(s1, p.lower, delta, false, lo, 0);
    TickUpdateEffect(s1, p.upper, delta, true, up, 0);
    LiquidityAfterChange(s1, id, p', m.state.protocol, lo, up, m.state.pool.liquidity);
    SettledAll(p, settled, m.state.protocol.last);
    CountersAfterChange(s1, id, p', m.state.protocol, lo, up, m.state.pool.liquidity, m.state.protocol.last);
    ValueAfterChange(s, id, p', m.amount0, m.amount1, delta);
  }

  lemma InitialisedHasGross(s: State, i: int)
    requires LiquidityInv(s)
    ensures i in s.ticks ==> s.ticks[i].gross > 0
  {
  }

  lemma SettledAll(p: Position, settled: Position, latest: Counters)
    requires Settle(p, latest) == Some(settled)
    ensures SameRange(p, settled) && settled.last == latest && settled.liquidity == p.liquidity
    ensures forall k: nat :: k < COUNTERS ==> LatestOwed(p.owed[k], p.last[k], latest[k], p.liquidity) == Some(settled.owed[k])
  {
    hide LatestOwed;
    forall k: nat | k < COUNTERS ensures LatestOwed(p.owed[k], p.last[k], latest[k], p.liquidity) == Some(settled.owed[k]) {
      assert k == 0 || k == 1 || k == 2 || k == 3 || k == 4;
    }
  }
}
