/** What holds of the accounts in every reachable state. */
module Invariants {
  import opened FullMath
  import opened TickMath
  import opened Sums
  import opened Model
  import opened Ledger
  import opened GrowthLedger
  import opened Curve
  import opened Machine

  /** The current tick and the current price agree. The price may sit on the upper end of its tick: a
      downward crossing leaves it there. */
  ghost predicate Coupled(pool: Pool) {
    && MIN_TICK <= pool.tick < MAX_TICK
    && SqrtPriceAtTick(pool.tick) <= pool.sqrtPrice <= SqrtPriceAtTick(pool.tick + 1)
    && MIN_SQRT_PRICE <= pool.sqrtPrice < MAX_SQRT_PRICE
  }

  predicate ValidTick(spacing: nat, i: int) {
    MIN_TICK <= i <= MAX_TICK && spacing > 0 && i % spacing == 0
  }

  ghost predicate ValidTicks(spacing: nat, ticks: map<int, Tick>) {
    forall i :: i in ticks ==> ValidTick(spacing, i)
  }

  ghost predicate ValidPositions(spacing: nat, ps: seq<Position>) {
    forall p :: p in ps ==> ValidTick(spacing, p.lower) && ValidTick(spacing, p.upper) && p.lower < p.upper
  }

  lemma PositionsInRange(spacing: nat, ps: seq<Position>)
    requires ValidPositions(spacing, ps)
    ensures Ordered(ps) && forall p :: p in ps ==> InRange(p)
  {
  }

  /** Liquidity of ticks, of ranges, and of the pool. */
  ghost predicate LiquidityInv(s: State) {
    && TicksBalance(s.positions, s.ticks)
    && RangesBalance(s.positions, s.protocols)
    && s.pool.liquidity == Active(s.positions, s.pool.tick)
  }

  ghost function ViewOf(pool: Pool, ticks: map<int, Tick>, k: nat): View
    requires k < COUNTERS
  {
    View(k, Growth(pool, k), ticks, pool.tick)
  }

  ghost predicate CounterHolds(s: State, k: nat)
    requires k < COUNTERS
  {
    && CounterInv(ViewOf(s.pool, s.ticks, k), s.positions, s.protocols, Unclaimed(s.pool, k))
    && (!Live(s.pool, k) ==> Growth(s.pool, k) == 0)
  }

  /** Every claim on every counter is covered. */
  ghost predicate CountersInv(s: State) {
    forall k: nat :: k < COUNTERS ==> CounterHolds(s, k)
  }

  /** A schedule's last update never lies beyond its end, nor beyond now once it has opened. */
  predicate RewardOrdered(r: Reward, clock: nat) {
    r.initialized ==> r.lastUpdate <= r.endTime && (r.lastUpdate <= clock || r.lastUpdate <= r.openTime)
  }

  ghost predicate RewardsInv(s: State) {
    forall j :: 0 <= j < REWARDS ==> RewardOrdered(s.pool.rewards[j], s.clock)
  }

  /** What the pool owes in token t beyond the positions' own tokens. */
  function Obligations(pool: Pool, t: nat): int
    requires t < TOKENS
  {
    Unclaimed(pool, t) + pool.protocolFees[t] + pool.fundFees[t]
  }

  /** What is left in the vault after every position and every fee is paid in full. */
  ghost function Surplus(s: State, t: nat): real
    requires t < TOKENS && |s.vault| == 2 && s.pool.sqrtPrice > 0
  {
    (s.vault[t] as real) - (Obligations(s.pool, t) as real) - TotalValue(t, s.positions, s.pool.sqrtPrice)
  }

  ghost predicate Solvent(s: State) {
    && |s.vault| == 2 && s.pool.sqrtPrice > 0
    && Surplus(s, 0) >= 0.0 && Surplus(s, 1) >= 0.0
  }

  ghost predicate Shape(s: State) {
    && |s.vault| == 2 && s.pool.spacing > 0 && ValidConfig(s.config)
    && ValidTicks(s.pool.spacing, s.ticks) && ValidPositions(s.pool.spacing, s.positions)
  }

  /** Everything but solvency. */
  ghost predicate Ledgers(s: State) {
    Shape(s) && Coupled(s.pool) && LiquidityInv(s) && CountersInv(s) && RewardsInv(s)
  }

  ghost predicate Inv(s: State) {
    Ledgers(s) && Solvent(s)
  }
}
