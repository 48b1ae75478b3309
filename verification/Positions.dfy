/** Updates of ranges and of single positions (open_position.rs, protocol_position.rs,
    increase_liquidity.rs, decrease_liquidity.rs, personal_position.rs). */
module Positions {
  import opened Wrappers
  import opened FullMath
  import opened LiquidityMath
  import opened TickMath
  import opened Model
  import opened Ticks
  import opened RewardRules

  function RecordFee(liquidity: nat, last: nat, latest: nat): Option<nat> {
    var owed :- MulDivFloor128(if latest > last then latest - last else 0, liquidity, Q64);
    Some(ToUnderflow64(owed))
  }

  /** The range takes the liquidity change and remembers the growth inside it. */
  function ProtocolUpdate(q: Protocol, delta: int, inside: Counters): Option<Protocol> {
    var liquidity :- if delta == 0 then (if q.liquidity > 0 then Some(q.liquidity) else None)
                     else AddDelta(q.liquidity, delta);
    var fee0 :- RecordFee(q.liquidity, q.last[0], inside[0]);
    var fee1 :- RecordFee(q.liquidity, q.last[1], inside[1]);
    if q.feesOwed[0] + fee0 > U64_MAX || q.feesOwed[1] + fee1 > U64_MAX then None
    else Some(Protocol(liquidity, inside, [q.feesOwed[0] + fee0, q.feesOwed[1] + fee1]))
  }

  datatype Updated = Updated(pool: Pool, protocol: Protocol, lower: Tick, upper: Tick)

  /** Rewards first, then both ticks, then the growth inside, then the range. */
  function UpdatePosition(pool: Pool, q: Protocol, lo: Tick, up: Tick, lower: int, upper: int,
                          delta: int, now: nat): Option<Updated> {
    var pool' :- AccrueRewards(pool, now);
    var lo' :- if delta == 0 then Some(lo) else TickUpdate(lo, lower, pool'.tick, delta, Growths(pool'), false);
    var up' :- if delta == 0 then Some(up) else TickUpdate(up, upper, pool'.tick, delta, Growths(pool'), true);
    var inside :- GrowthsInside(lo', up', lower, upper, pool');
    var q' :- ProtocolUpdate(q, delta, inside);
    Some(Updated(pool', q', lo', up'))
  }

  /** The token amounts of a liquidity change, by where the current tick stands. */
  function DeltaAmounts(tick: int, sqrtPrice: nat, lower: int, upper: int, delta: int): Option<(nat, nat)>
    requires MIN_TICK <= lower <= MAX_TICK && MIN_TICK <= upper <= MAX_TICK
  {
    var a, b := SqrtPriceAtTick(lower), SqrtPriceAtTick(upper);
    if tick < lower then
      var x :- DeltaAmount0Signed(a, b, delta);
      Some((x, 0))
    else if tick < upper then
      var x :- DeltaAmount0Signed(sqrtPrice, b, delta);
      var y :- DeltaAmount1Signed(a, sqrtPrice, delta);
      Some((x, y))
    else
      var y :- DeltaAmount1Signed(a, b, delta);
      Some((0, y))
  }

  datatype Modified = Modified(state: Updated, amount0: nat, amount1: nat)

  function ModifyPosition(pool: Pool, q: Protocol, lo: Tick, up: Tick, lower: int, upper: int,
                          delta: int, now: nat): Option<Modified>
    requires MIN_TICK <= lower <= MAX_TICK && MIN_TICK <= upper <= MAX_TICK
  {
    var u :- UpdatePosition(pool, q, lo, up, lower, upper, delta, now);
    if delta == 0 then Some(Modified(u, 0, 0))
    else
      var amounts :- DeltaAmounts(pool.tick, pool.sqrtPrice, lower, upper, delta);
      if lower <= pool.tick < upper then
        var liquidity :- AddDelta(u.pool.liquidity, delta);
        Some(Modified(u.(pool := u.pool.(liquidity := liquidity)), amounts.0, amounts.1))
      else Some(Modified(u, amounts.0, amounts.1))
  }

  /** The owed amount rises by growth times liquidity over Q64, rounded down; what does not stay below
      u64::MAX is not paid at all. */
  predicate OwesFloor(before: nat, after: nat, growth: nat, liquidity: nat) {
    && after >= before
    && (if growth * liquidity < U64_MAX * Q64 then IsFloor(after - before, growth * liquidity, Q64) else after == before)
  }

  /** What the growth since the last visit adds to an owed amount; an excess of u64 is dropped. */
  function LatestOwed(owed: nat, last: nat, latest: nat, liquidity: nat): (r: Option<nat>)
    ensures r.Some? ==> OwesFloor(owed, r.value, (latest - last) % U128_MOD, liquidity)
  {
    var x :- MulDivFloor128((latest - last) % U128_MOD, liquidity, Q64);
    FloorIsGreatest(x, (latest - last) % U128_MOD * liquidity, Q64, U64_MAX);
    if owed + ToUnderflow64(x) > U64_MAX then None else Some(owed + ToUnderflow64(x))
  }

  /** Settling aborts exactly if what is to be added leaves 128 bits or the owed amount leaves 64. */
  lemma LatestOwedFails(owed: nat, last: nat, latest: nat, liquidity: nat)
    requires liquidity <= U128_MAX
    ensures var n := (latest - last) % U128_MOD * liquidity;
            LatestOwed(owed, last, latest, liquidity).None? <==>
              || (U128_MAX + 1) * Q64 <= n || owed > U64_MAX || (n < U64_MAX * Q64 && (U64_MAX + 1 - owed) * Q64 <= n)
  {
    hide MulDivFloor;
    var g := (latest - last) % U128_MOD;
    ProductBound(g, liquidity, U128_MAX, U128_MAX);
    MulDivFloorFails(g, liquidity, Q64, U256_MAX, U128_MAX);
    var x := MulDivFloor128(g, liquidity, Q64);
    if x.Some? {
      FloorIsGreatest(x.value, g * liquidity, Q64, U64_MAX);
      FloorIsGreatest(x.value, g * liquidity, Q64, U64_MAX + 1 - owed);
    }
  }

  /** What a range records for itself: the growth since its last visit times its liquidity, rounded down,
      per token; the new growth; and the liquidity change. */
  lemma ProtocolUpdateRecords(q: Protocol, delta: int, inside: Counters, q': Protocol)
    requires ProtocolUpdate(q, delta, inside) == Some(q')
    ensures q'.liquidity == q.liquidity + delta && q'.last == inside && (delta == 0 ==> q.liquidity > 0)
    ensures forall t :: 0 <= t < 2 ==>
              OwesFloor(q.feesOwed[t], q'.feesOwed[t], if inside[t] > q.last[t] then inside[t] - q.last[t] else 0, q.liquidity)
  {
    hide MulDivFloor;
    RecordFeeIsFloor(q.liquidity, q.last[0], inside[0]);
    RecordFeeIsFloor(q.liquidity, q.last[1], inside[1]);
  }

  lemma RecordFeeIsFloor(liquidity: nat, last: nat, latest: nat)
    ensures var r := RecordFee(liquidity, last, latest);
            r.Some? ==> OwesFloor(0, r.value, if latest > last then latest - last else 0, liquidity)
  {
    hide MulDivFloor;
    var g := if latest > last then latest - last else 0;
    var x := MulDivFloor128(g, liquidity, Q64);
    if x.Some? {
      FloorIsGreatest(x.value, g * liquidity, Q64, U64_MAX);
    }
  }

  /** A settled position owes the floor on every counter, from the growth its range has recorded. */
  lemma SettlePaysFloors(p: Position, latest: Counters, p': Position)
    requires Settle(p, latest) == Some(p')
    ensures p' == p.(owed := p'.owed, last := latest)
    ensures forall k: nat :: k < COUNTERS ==> OwesFloor(p.owed[k], p'.owed[k], (latest[k] - p.last[k]) % U128_MOD, p.liquidity)
  {
    hide OwesFloor;
    forall k: nat | k < COUNTERS ensures OwesFloor(p.owed[k], p'.owed[k], (latest[k] - p.last[k]) % U128_MOD, p.liquidity) {
      assert k == 0 || k == 1 || k == 2 || k == 3 || k == 4;
    }
  }

  /** Brings a position's owed fees and rewards up to what its range has recorded. */
  function Settle(p: Position, latest: Counters): Option<Position> {
    var o0 :- LatestOwed(p.owed[0], p.last[0], latest[0], p.liquidity);
    var o1 :- LatestOwed(p.owed[1], p.last[1], latest[1], p.liquidity);
    var o2 :- LatestOwed(p.owed[2], p.last[2], latest[2], p.liquidity);
    var o3 :- LatestOwed(p.owed[3], p.last[3], latest[3], p.liquidity);
    var o4 :- LatestOwed(p.owed[4], p.last[4], latest[4], p.liquidity);
    Some(p.(owed := [o0, o1, o2, o3, o4], last := latest))
  }
}
