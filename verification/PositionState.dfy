/** The accounts of ranges and positions, and the update of a range with both its ticks
    (protocol_position.rs, personal_position.rs, open_position.rs). */
module PositionStates {
  import opened Wrappers
  import opened FullMath
  import opened LiquidityMath
  import opened TickMath
  import opened Model
  import opened Ticks
  import opened RewardRules
  import opened Positions
  import opened TickArrays
  import opened PoolStates

  class ProtocolPositionState {
    var liquidity: nat
    var growthInsideLast: Counters
    var tokenFeesOwed: PerToken

    function Contents(): Protocol
      reads this
    {
      Protocol(liquidity, growthInsideLast, tokenFeesOwed)
    }

    constructor (q: Protocol)
      ensures Contents() == q
    {
      liquidity, growthInsideLast, tokenFeesOwed := q.liquidity, q.last, q.feesOwed;
    }

    /** Takes the liquidity change and records the growth inside. Aborts as a whole. */
    method Update(lower: int, upper: int, delta: int, inside: Counters) returns (ok: bool)
      modifies this
      ensures var after := ProtocolUpdate(old(Contents()), delta, inside);
              && (ok <==> MIN_TICK <= lower <= MAX_TICK && MIN_TICK <= upper <= MAX_TICK && after.Some?)
              && (ok ==> Contents() == after.value)
    {
      hide MulDivFloor;
      if lower < MIN_TICK || lower > MAX_TICK { return false; }
      if upper < MIN_TICK || upper > MAX_TICK { return false; }
      var next := liquidity;
      if delta == 0 {
        if liquidity == 0 { return false; }
      } else {
        var sum := AddDelta(liquidity, delta);
        if sum.None? { return false; }
        next := sum.value;
      }
      var fee0 := MulDivFloor128(if inside[0] > growthInsideLast[0] then inside[0] - growthInsideLast[0] else 0, liquidity, Q64);
      if fee0.None? { return false; }
      var fee1 := MulDivFloor128(if inside[1] > growthInsideLast[1] then inside[1] - growthInsideLast[1] else 0, liquidity, Q64);
      if fee1.None? { return false; }
      var owed0, owed1 := ToUnderflow64(fee0.value), ToUnderflow64(fee1.value);
      if delta != 0 {
        liquidity := next;
      }
      growthInsideLast := inside;
      if tokenFeesOwed[0] + owed0 > U64_MAX || tokenFeesOwed[1] + owed1 > U64_MAX { return false; }
      tokenFeesOwed := [tokenFeesOwed[0] + owed0, tokenFeesOwed[1] + owed1];
      ok := true;
    }
  }

  class PersonalPositionState {
    const tickLower: int
    const tickUpper: int
    var liquidity: nat
    var growthInsideLast: Counters
    var owed: Counters

    function Contents(): Position
      reads this
    {
      Position(tickLower, tickUpper, liquidity, growthInsideLast, owed)
    }

    constructor (p: Position)
      ensures Contents() == p
    {
      tickLower, tickUpper, liquidity, growthInsideLast, owed := p.lower, p.upper, p.liquidity, p.last, p.owed;
    }

    /** Brings the owed rewards up to the growth the range has recorded, or only takes note of it. */
    method UpdateRewards(inside: Counters, addDelta: bool) returns (ok: bool)
      modifies this
      ensures liquidity == old(liquidity)
      ensures forall k :: 0 <= k < 2 ==> growthInsideLast[k] == old(growthInsideLast[k]) && owed[k] == old(owed[k])
      ensures ok <==> (addDelta ==> forall k :: 2 <= k < 5 ==> LatestOwed(old(owed[k]), old(growthInsideLast[k]), inside[k], old(liquidity)).Some?)
      ensures ok ==> forall k :: 2 <= k < 5 ==>
                growthInsideLast[k] == inside[k]
                && owed[k] == if addDelta then LatestOwed(old(owed[k]), old(growthInsideLast[k]), inside[k], old(liquidity)).value else old(owed[k])
      ensures ok && addDelta ==> forall k :: 2 <= k < 5 ==>
                OwesFloor(old(owed[k]), owed[k], (inside[k] - old(growthInsideLast[k])) % U128_MOD, liquidity)
    {
      hide LatestOwed;
      for i := 2 to 5
        invariant liquidity == old(liquidity)
        invariant forall k :: 0 <= k < 2 || i <= k < 5 ==> growthInsideLast[k] == old(growthInsideLast[k]) && owed[k] == old(owed[k])
        invariant forall k :: 2 <= k < i ==> growthInsideLast[k] == inside[k]
        invariant forall k :: 2 <= k < i && !addDelta ==> owed[k] == old(owed[k])
        invariant forall k :: 2 <= k < i && addDelta ==> Some(owed[k]) == LatestOwed(old(owed[k]), old(growthInsideLast[k]), inside[k], old(liquidity))
      {
        if addDelta {
          var latest := LatestOwed(owed[i], growthInsideLast[i], inside[i], liquidity);
          if latest.None? { return false; }
          owed := owed[i := latest.value];
        }
        growthInsideLast := growthInsideLast[i := inside[i]];
      }
      ok := true;
    }

    /** Brings owed fees and rewards up to what the range has recorded, at the liquidity held so far. */
    method SettleWith(latest: Counters) returns (ok: bool)
      modifies this
      ensures ok <==> Settle(old(Contents()), latest).Some?
      ensures ok ==> Contents() == Settle(old(Contents()), latest).value
      ensures ok ==> forall k :: 0 <= k < 5 ==>
                OwesFloor(old(owed[k]), owed[k], (latest[k] - old(growthInsideLast[k])) % U128_MOD, liquidity)
    {
      hide LatestOwed, OwesFloor;
      ghost var before := Contents();
      var fee0 := LatestOwed(owed[0], growthInsideLast[0], latest[0], liquidity);
      if fee0.None? { return false; }
      var fee1 := LatestOwed(owed[1], growthInsideLast[1], latest[1], liquidity);
      if fee1.None? { return false; }
      owed := owed[0 := fee0.value][1 := fee1.value];
      growthInsideLast := growthInsideLast[0 := latest[0]][1 := latest[1]];
      ok := UpdateRewards(latest, true);
      if ok {
        SameCounters(growthInsideLast, latest);
        SameCounters(owed, Settle(before, latest).value.owed);
        SettlePaysFloors(before, latest, Contents());
      }
    }
  }

  lemma SameCounters(a: Counters, b: Counters)
    requires a[0] == b[0] && a[1] == b[1] && a[2] == b[2] && a[3] == b[3] && a[4] == b[4]
    ensures a == b
  {
  }

  /** The growth inside a range: both fee counters, then the rewards one by one. */
  method GetGrowthsInside(lower: TickState, upper: TickState, pool: PoolState) returns (r: Option<Counters>)
    ensures r == GrowthsInside(lower.Contents().state, upper.Contents().state, lower.tick, upper.tick, pool.Fields())
  {
    hide InsideOne;
    var fee0 := InsideOne(true, lower.outside[0], upper.outside[0], lower.tick, upper.tick, pool.tickCurrent, pool.feeGrowth[0]);
    if fee0.None? { return None; }
    var fee1 := InsideOne(true, lower.outside[1], upper.outside[1], lower.tick, upper.tick, pool.tickCurrent, pool.feeGrowth[1]);
    if fee1.None? { return None; }
    var growths: Counters := [fee0.value, fee1.value, 0, 0, 0];
    for i := 0 to 3
      invariant growths[0] == fee0.value && growths[1] == fee1.value
      invariant forall k :: 0 <= k < i ==>
        InsideOne(pool.rewardInfos[k].initialized, lower.outside[2 + k], upper.outside[2 + k], lower.tick, upper.tick,
                  pool.tickCurrent, pool.rewardInfos[k].growth) == Some(growths[2 + k])
    {
      assert i == 0 || i == 1 || i == 2;
      var reward := InsideOne(pool.rewardInfos[i].initialized, lower.outside[2 + i], upper.outside[2 + i], lower.tick, upper.tick,
                              pool.tickCurrent, pool.rewardInfos[i].growth);
      if reward.None? { return None; }
      growths := growths[2 + i := reward.value];
    }
    assert growths == [growths[0], growths[1], growths[2], growths[3], growths[4]];
    r := Some(growths);
  }

  /** What is stored back for a tick: one that lost its last liquidity is blanked. */
  function Stored(before: Tick, after: Tick, delta: int): Tick {
    if delta < 0 && Flips(before, after) then EMPTY_TICK else after
  }

  /** Rewards, both ticks, growth inside, range: all updated in place. */
  method UpdatePosition(delta: int, pool: PoolState, range: ProtocolPositionState, lower: TickState, upper: TickState, now: nat)
    returns (r: Option<(bool, bool)>)
    requires lower != upper
    requires MIN_TICK <= lower.tick <= MAX_TICK && MIN_TICK <= upper.tick <= MAX_TICK
    modifies pool`rewardInfos, range, lower, upper
    ensures var lo, up := old(lower.Contents()), old(upper.Contents());
            var u := Positions.UpdatePosition(old(pool.Fields()), old(range.Contents()), lo.state, up.state, lo.tick, up.tick, delta, now);
            if u.None? then r == None
            else
              && pool.Fields() == u.value.pool && range.Contents() == u.value.protocol
              && lower.Contents() == Slot(lo.tick, Stored(lo.state, u.value.lower, delta))
              && upper.Contents() == Slot(up.tick, Stored(up.state, u.value.upper, delta))
              && r == Some((Flips(lo.state, u.value.lower), Flips(up.state, u.value.upper)))
  {
    hide AccrueRewards, TickUpdate, GrowthsInside, ProtocolUpdate;
    ghost var lo, up := lower.Contents(), upper.Contents();
    var accrued := pool.UpdateRewardInfos(now);
    if !accrued { return None; }
    var flippedLower, flippedUpper := false, false;
    if delta != 0 {
      var growths := Growths(pool.Fields());
      var flip := lower.Update(pool.tickCurrent, delta, growths, false);
      if flip.None? { return None; }
      flippedLower := flip.value;
      flip := upper.Update(pool.tickCurrent, delta, growths, true);
      if flip.None? { return None; }
      flippedUpper := flip.value;
    }
    var inside := GetGrowthsInside(lower, upper, pool);
    if inside.None? { return None; }
    var updated := range.Update(lower.tick, upper.tick, delta, inside.value);
    if !updated { return None; }
    if delta < 0 {
      if flippedLower {
        lower.Clear();
      }
      if flippedUpper {
        upper.Clear();
      }
    }
    r := Some((flippedLower, flippedUpper));
  }

  datatype Modification = Modification(amount0: nat, amount1: nat, flippedLower: bool, flippedUpper: bool)

  method ModifyPosition(delta: int, pool: PoolState, range: ProtocolPositionState, lower: TickState, upper: TickState, now: nat)
    returns (r: Option<Modification>)
    requires lower != upper
    requires MIN_TICK <= lower.tick <= MAX_TICK && MIN_TICK <= upper.tick <= MAX_TICK
    modifies pool`rewardInfos, pool`liquidity, range, lower, upper
    ensures var lo, up := old(lower.Contents()), old(upper.Contents());
            var m := Positions.ModifyPosition(old(pool.Fields()), old(range.Contents()), lo.state, up.state, lo.tick, up.tick, delta, now);
            if m.None? then r == None
            else
              && pool.Fields() == m.value.state.pool && range.Contents() == m.value.state.protocol
              && lower.Contents() == Slot(lo.tick, Stored(lo.state, m.value.state.lower, delta))
              && upper.Contents() == Slot(up.tick, Stored(up.state, m.value.state.upper, delta))
              && r == Some(Modification(m.value.amount0, m.value.amount1,
                                        Flips(lo.state, m.value.state.lower), Flips(up.state, m.value.state.upper)))
  {
    hide Positions.UpdatePosition, DeltaAmounts;
    var flips := UpdatePosition(delta, pool, range, lower, upper, now);
    if flips.None? { return None; }
    var amount0, amount1 := 0, 0;
    if delta != 0 {
      var amounts := DeltaAmounts(pool.tickCurrent, pool.sqrtPrice, lower.tick, upper.tick, delta);
      if amounts.None? { return None; }
      amount0, amount1 := amounts.value.0, amounts.value.1;
      if pool.tickCurrent >= lower.tick && pool.tickCurrent < upper.tick {
        var liquidity := AddDelta(pool.liquidity, delta);
        if liquidity.None? { return None; }
        pool.liquidity := liquidity.value;
      }
    }
    r := Some(Modification(amount0, amount1, flips.value.0, flips.value.1));
  }
}
