/** The main results: what holds in every reachable state, and what no sequence of swaps can do. */
module Theorems {
  import opened Wrappers
  import opened FullMath
  import opened LiquidityMath
  import opened TickMath
  import opened Sums
  import opened Model
  import opened RewardRules
  import opened Positions
  import opened Ledger
  import opened GrowthLedger
  import opened Curve
  import opened Machine
  import opened Runs
  import opened Invariants
  import opened SwapInvariant
  import opened SwapRuns
  import opened RewardInvariant
  import opened LiquidityInvariant
  import opened InstructionInvariant

  // ---------------------------------------------------------------------------------------------
  // Every reachable state

  lemma CreatedHolds(spacing: nat, sqrtPrice: nat, openTime: nat, config: Config, now: nat)
    requires CreatePool(spacing, sqrtPrice, openTime, config, now).Some?
    ensures Inv(CreatePool(spacing, sqrtPrice, openTime, config, now).value)
  {
    hide SqrtPriceAtTick;
    var s := CreatePool(spacing, sqrtPrice, openTime, config, now).value;
    forall k: nat | k < COUNTERS ensures CounterHolds(s, k) {
      assert k == 0 || k == 1 || k == 2 || k == 3 || k == 4;
    }
  }

  lemma ExecuteKeeps(s: State, a: Action, now: nat, s': State)
    requires Inv(s) && s.clock == now && Execute(s, a, now) == Some(s')
    ensures Inv(s')
  {
    hide Inv, OpenPosition, IncreaseLiquidity, DecreaseLiquidity, Swap, InitializeReward, SetRewardParams,
         CollectRemainingRewards, CollectProtocolFee, CollectFundFee;
    match a
    case DoOpen(lower, upper, liquidity, max0, max1, base0) => OpenKeepsAll(s, lower, upper, liquidity, max0, max1, base0, now, s');
    case DoIncrease(id, liquidity, max0, max1, base0) => IncreaseKeeps(s, id, liquidity, max0, max1, base0, now, s');
    case DoDecrease(id, liquidity, min0, min1) => DecreaseKeeps(s, id, liquidity, min0, min1, now, s');
    case DoSwap(amount, limit, zeroForOne, baseInput) => SwapKeeps(s, amount, limit, zeroForOne, baseInput, now, s');
    case DoUpdateRewards => AccrueRewardsKeeps(s, now, s'.pool);
    case DoInitializeReward(openTime, endTime, emissions) => InitializeRewardKeeps(s, openTime, endTime, emissions, now, s');
    case DoSetRewardParams(j, emissions, openTime, endTime, operator) => SetRewardParamsKeeps(s, j, emissions, openTime, endTime, operator, now, s');
    case DoCollectRemaining(j) => CollectRemainingKeeps(s, j, now, s');
    case DoCollectProtocolFee(x, y) => CollectProtocolFeeKeeps(s, x, y, s');
    case DoCollectFundFee(x, y) => CollectFundFeeKeeps(s, x, y, s');
    case DoSetStatus(status) => StatusKeeps(s, status);
    case DoUpdateConfig(config) => ConfigKeeps(s, config);
  }

  lemma StatusKeeps(s: State, status: Status)
    requires Inv(s)
    ensures Inv(s.(pool := s.pool.(status := status)))
  {
    hide Ledgers;
    StatusApart(s, status);
    SurplusIgnoresStatus(s, status);
  }

  lemma ConfigKeeps(s: State, c: Config)
    requires Inv(s) && ValidConfig(c)
    ensures Inv(s.(config := c))
  {
    hide CounterInv;
    forall k: nat | k < COUNTERS ensures CounterHolds(s.(config := c), k) {
      assert CounterHolds(s, k);
    }
  }

  lemma ClockKeeps(s: State, now: nat)
    requires Inv(s) && s.clock <= now
    ensures Inv(s.(clock := now))
  {
    hide CounterInv;
    forall k: nat | k < COUNTERS ensures CounterHolds(s.(clock := now), k) {
      assert CounterHolds(s, k);
    }
    forall j: nat | j < REWARDS ensures RewardOrdered(s.pool.rewards[j], now) {
      assert RewardOrdered(s.pool.rewards[j], s.clock);
    }
  }

  lemma TransactionKeeps(s: State, t: Transaction)
    requires Inv(s)
    ensures Inv(Runs.Step(s, t))
  {
    hide Inv, Execute;
    if t.now >= s.clock {
      ClockKeeps(s, t.now);
      var r := Execute(s.(clock := t.now), t.action, t.now);
      if r.Some? {
        ExecuteKeeps(s.(clock := t.now), t.action, t.now, r.value);
      }
    }
  }

  /** Any number of instructions in any order, failing ones included, from any state that holds. */
  lemma {:induction false} RunKeeps(s: State, ts: seq<Transaction>)
    requires Inv(s)
    ensures Inv(Run(s, ts))
  {
    hide Inv;
    if ts != [] {
      RunKeeps(s, ts[..|ts| - 1]);
      TransactionKeeps(Run(s, ts[..|ts| - 1]), ts[|ts| - 1]);
    }
  }

  /** Contains every new pool, and with every state the outcome of every transaction. */
  ghost predicate Closed(states: iset<State>) {
    && (forall spacing, sqrtPrice, openTime, config, now :: CreatePool(spacing, sqrtPrice, openTime, config, now).Some?
          ==> CreatePool(spacing, sqrtPrice, openTime, config, now).value in states)
    && (forall s, t :: s in states ==> Runs.Step(s, t) in states)
  }

  /** A state that a pool can be in: it belongs to every closed set of states. */
  ghost predicate Reachable(s: State) {
    forall states: iset<State> :: Closed(states) ==> s in states
  }

  ghost predicate ReachedBy(s: State, spacing: nat, sqrtPrice: nat, openTime: nat, config: Config, now: nat, ts: seq<Transaction>) {
    var created := CreatePool(spacing, sqrtPrice, openTime, config, now);
    created.Some? && s == Run(created.value, ts)
  }

  /** The outcome of some run on some new pool. */
  ghost predicate IsOutcome(s: State) {
    exists spacing, sqrtPrice, openTime, config, now, ts :: ReachedBy(s, spacing, sqrtPrice, openTime, config, now, ts)
  }

  /** The reachable states are exactly the outcomes of runs of transactions on a new pool. */
  lemma ReachableIsRun(s: State)
    ensures Reachable(s) <==> IsOutcome(s)
  {
    hide CreatePool, Run, Runs.Step;
    if IsOutcome(s) {
      var spacing, sqrtPrice, openTime, config, now, ts :| ReachedBy(s, spacing, sqrtPrice, openTime, config, now, ts);
      forall states: iset<State> | Closed(states) ensures s in states {
        RunStaysIn(CreatePool(spacing, sqrtPrice, openTime, config, now).value, ts, states);
      }
    }
    if Reachable(s) {
      var outcomes := iset s | IsOutcome(s);
      assert Closed(outcomes) by {
        OutcomesClosed(outcomes);
      }
    }
  }

  lemma {:induction false} RunStaysIn(s: State, ts: seq<Transaction>, states: iset<State>)
    requires Closed(states) && s in states
    ensures Run(s, ts) in states
  {
    hide CreatePool, Runs.Step;
    if ts != [] {
      RunStaysIn(s, ts[..|ts| - 1], states);
    }
  }

  lemma OutcomesClosed(outcomes: iset<State>)
    requires forall s :: s in outcomes <==> IsOutcome(s)
    ensures Closed(outcomes)
  {
    hide CreatePool, Runs.Step;
    forall spacing, sqrtPrice, openTime, config, now | CreatePool(spacing, sqrtPrice, openTime, config, now).Some?
      ensures CreatePool(spacing, sqrtPrice, openTime, config, now).value in outcomes {
      assert ReachedBy(CreatePool(spacing, sqrtPrice, openTime, config, now).value, spacing, sqrtPrice, openTime, config, now, []);
    }
    forall s, t | s in outcomes ensures Runs.Step(s, t) in outcomes {
      var spacing, sqrtPrice, openTime, config, now, ts :| ReachedBy(s, spacing, sqrtPrice, openTime, config, now, ts);
      assert (ts + [t])[..|ts|] == ts;
      assert ReachedBy(Runs.Step(s, t), spacing, sqrtPrice, openTime, config, now, ts + [t]);
    }
  }

  lemma ReachableHolds(s: State)
    requires Reachable(s)
    ensures Inv(s)
  {
    hide Inv, CreatePool, Runs.Step;
    var states := iset s | Inv(s);
    forall spacing, sqrtPrice, openTime, config, now | CreatePool(spacing, sqrtPrice, openTime, config, now).Some?
      ensures CreatePool(spacing, sqrtPrice, openTime, config, now).value in states {
      CreatedHolds(spacing, sqrtPrice, openTime, config, now);
    }
    forall s, t | s in states ensures Runs.Step(s, t) in states {
      TransactionKeeps(s, t);
    }
    assert Closed(states);
  }

  lemma StepReachable(s: State, t: Transaction)
    requires Reachable(s)
    ensures Reachable(Runs.Step(s, t))
  {
    hide Runs.Step, CreatePool;
    forall states: iset<State> | Closed(states) ensures Runs.Step(s, t) in states {
      assert s in states;
    }
  }

  /** The vault holds the exact value of all open positions at the current price, all liquidity fees not
      yet claimed, and the protocol and fund fees. */
  ghost predicate VaultCovers(s: State, t: nat)
    requires t < TOKENS
  {
    && |s.vault| == 2 && s.pool.sqrtPrice > 0
    && s.vault[t] as real
       >= TotalValue(t, s.positions, s.pool.sqrtPrice)
          + (Unclaimed(s.pool, t) as real)
          + (s.pool.protocolFees[t] as real) + (s.pool.fundFees[t] as real)
  }

  /** Solvency, in every reachable state and for either token. */
  lemma SolvencyTheorem(s: State, t: nat)
    requires Reachable(s) && t < TOKENS
    ensures VaultCovers(s, t)
  {
    hide Reachable, Ledgers, TotalValue;
    ReachableHolds(s);
  }

  /** What all positions are owed on counter k, plus what is pending for them, is within what was collected
      or emitted and not been claimed; in particular each single debt is. */
  ghost predicate ClaimsWithin(s: State, k: nat)
    requires k < COUNTERS
  {
    && Sum(s.positions, ClaimOf(ViewOf(s.pool, s.ticks, k))) <= Unclaimed(s.pool, k) * Q64
    && forall p :: p in s.positions ==> p.owed[k] <= Unclaimed(s.pool, k)
  }

  /** Fees and rewards are always covered, in every reachable state and for every counter. */
  lemma ClaimsTheorem(s: State, k: nat)
    requires Reachable(s) && k < COUNTERS
    ensures ClaimsWithin(s, k)
  {
    hide Reachable, Pending;
    ReachableHolds(s);
    assert CounterHolds(s, k);
    forall p | p in s.positions ensures p.owed[k] <= Unclaimed(s.pool, k) {
      var id :| 0 <= id < |s.positions| && s.positions[id] == p;
      OwedIsCovered(ViewOf(s.pool, s.ticks, k), s.positions, s.protocols, Unclaimed(s.pool, k), id);
    }
  }

  /** Liquidity: the pool's active liquidity is that of the positions covering the current tick, and the
      running sum of net liquidity over the ticks passed; ticks and ranges hold the sums of the positions
      that end there or share them. */
  lemma LiquidityTheorem(s: State)
    requires Reachable(s)
    ensures s.pool.liquidity == Active(s.positions, s.pool.tick)
    ensures forall ks: seq<int> :: Distinct(ks) && (forall i :: i in ks <==> i in s.ticks && i <= s.pool.tick)
              ==> s.pool.liquidity == NetOver(s.ticks, ks)
    ensures TicksBalance(s.positions, s.ticks) && RangesBalance(s.positions, s.protocols)
  {
    hide Reachable;
    ReachableHolds(s);
    PositionsInRange(s.pool.spacing, s.positions);
    forall ks: seq<int> | Distinct(ks) && (forall i :: i in ks <==> i in s.ticks && i <= s.pool.tick)
      ensures s.pool.liquidity == NetOver(s.ticks, ks) {
      ActiveIsNetBelow(s.positions, s.ticks, s.pool.tick, ks);
    }
  }

  /** A reward schedule is never updated beyond its end, nor, once open, beyond the clock. */
  lemma RewardScheduleTheorem(s: State, j: nat)
    requires Reachable(s) && j < REWARDS
    ensures RewardOrdered(s.pool.rewards[j], s.clock)
  {
    hide Reachable;
    ReachableHolds(s);
  }

  /** Price and tick agree in every reachable state. */
  lemma CouplingTheorem(s: State)
    requires Reachable(s)
    ensures Coupled(s.pool)
  {
    hide Reachable, Coupled;
    ReachableHolds(s);
  }

  /** The tick is the floor of the price exactly when the price is not on the upper end of the tick; there
      it is one less. */
  lemma TickIsFloor(s: State)
    requires Reachable(s)
    ensures Coupled(s.pool)
    ensures var floor := TickAtSqrtPrice(s.pool.sqrtPrice);
            && (s.pool.tick == floor <==> s.pool.sqrtPrice != SqrtPriceAtTick(s.pool.tick + 1))
            && (s.pool.tick != floor ==> s.pool.tick == floor - 1)
  {
    hide Reachable, SqrtPriceAtTick;
    CouplingTheorem(s);
    var t, floor := s.pool.tick, TickAtSqrtPrice(s.pool.sqrtPrice);
    if floor < t {
      PriceIncreasesOrSame(floor + 1, t);
    }
    if t + 1 < floor {
      PriceIncreases(t + 1, floor);
    }
  }

  lemma PriceIncreasesOrSame(s: int, t: int)
    requires MIN_TICK <= s <= t <= MAX_TICK
    ensures SqrtPriceAtTick(s) <= SqrtPriceAtTick(t)
  {
    hide SqrtPriceAtTick;
    if s < t {
      PriceIncreases(s, t);
    }
  }

  // ---------------------------------------------------------------------------------------------
  // A withdrawal is never refused for want of funds

  lemma TotalNonnegative(t: nat, ps: seq<Position>, price: nat)
    requires price > 0
    ensures TotalValue(t, ps, price) >= 0.0
  {
    hide SqrtPriceAtTick, Value;
    var zero := (p: Position) => 0.0;
    forall p | p in ps ensures zero(p) <= ValueAt(t, price)(p) {
      if InRange(p) {
        PricesPositive(p);
        ValueNonnegative(t, p.liquidity, SqrtPriceAtTick(p.lower), SqrtPriceAtTick(p.upper), price);
      }
    }
    SumMonotoneR(ps, zero, ValueAt(t, price));
    SumOfZero(ps, zero);
  }

  lemma {:induction false} SumOfZero(ps: seq<Position>, zero: Position -> real)
    requires forall p :: zero(p) == 0.0
    ensures SumR(ps, zero) == 0.0
  {
    if ps != [] {
      SumOfZero(ps[..|ps| - 1], zero);
    }
  }

  lemma UnclaimedNonnegative(s: State, k: nat)
    requires CountersInv(s) && k < COUNTERS
    ensures Unclaimed(s.pool, k) >= 0
  {
    hide Pending;
    assert CounterHolds(s, k);
    SumCovers(s.positions, ClaimOf(ViewOf(s.pool, s.ticks, k)));
  }

  /** What is spare beyond all claims is in the vault: the transfer out succeeds. */
  lemma PayoutNeverFails(s: State, x: nat, y: nat)
    requires Spare(s, x, y) && x <= U64_MAX && y <= U64_MAX
    ensures Payout(s, x, y).Some?
  {
    hide TotalValue;
    TotalNonnegative(0, s.positions, s.pool.sqrtPrice);
    TotalNonnegative(1, s.positions, s.pool.sqrtPrice);
    UnclaimedNonnegative(s, 0);
    UnclaimedNonnegative(s, 1);
    assert s.vault[0] as real >= x as real && s.vault[1] as real >= y as real;
  }

  /** In every reachable state an owner can withdraw: once the liquidity is burned and the minimum amounts
      are met, neither the fee guard nor an empty vault stops the payment of amounts and fees. */
  lemma WithdrawalIsPaid(s: State, id: nat, liquidity: nat, now: nat)
    requires Reachable(s) && s.clock <= now && HasRange(s, id) && liquidity <= s.positions[id].liquidity
    requires Burn(s.(clock := now), id, liquidity, now).Some?
    ensures var b := Burn(s.(clock := now), id, liquidity, now).value;
            && id < |b.state.positions|
            && CollectFees(b.state, id).Some?
            && var c := CollectFees(b.state, id).value;
               && |c.state.vault| == 2
               && (b.amount0 + c.fee0 <= U64_MAX && b.amount1 + c.fee1 <= U64_MAX
                   ==> Payout(c.state, b.amount0 + c.fee0, b.amount1 + c.fee1).Some?)
  {
    hide Reachable, Inv, Burn, CollectFees, Ledgers, Surplus, Payout;
    ReachableHolds(s);
    ClockKeeps(s, now);
    var b := Burn(s.(clock := now), id, liquidity, now).value;
    BurnKeeps(s.(clock := now), id, liquidity, now, b);
    FeeGuardNeverRejects(b.state, id);
    var c := CollectFees(b.state, id).value;
    CollectFeesKeeps(b.state, id, b.amount0, b.amount1, c);
    ShapeOf(c.state);
    if b.amount0 + c.fee0 <= U64_MAX && b.amount1 + c.fee1 <= U64_MAX {
      PayoutNeverFails(c.state, b.amount0 + c.fee0, b.amount1 + c.fee1);
    }
  }

  // ---------------------------------------------------------------------------------------------
  // No sequence of swaps profits

  /** Positions stay; neither vault loses against what is owed; what is owed in fees only grows. */
  ghost predicate Guarded(s: State, s': State)
    requires |s.vault| == 2 && |s'.vault| == 2 && s.pool.sqrtPrice > 0 && s'.pool.sqrtPrice > 0
  {
    && s'.positions == s.positions
    && forall t :: 0 <= t < TOKENS ==> Surplus(s', t) >= Surplus(s, t) && Obligations(s'.pool, t) >= Obligations(s.pool, t)
  }

  lemma SwapGuards(s: State, amount: nat, limit: nat, zeroForOne: bool, baseInput: bool, now: nat, s': State)
    requires Inv(s) && s.clock == now
    requires Swap(s, amount, limit, zeroForOne, baseInput, now) == Some(s')
    ensures |s'.vault| == 2 && s'.pool.sqrtPrice > 0 && Guarded(s, s')
  {
    hide AccrueRewards, SwapLoop, Ledgers, LimitAhead, TotalValue;
    var x := SwapArgs(zeroForOne, baseInput, EffectiveLimit(limit, zeroForOne));
    var pool := AccrueRewards(s.pool, now).value;
    AccrueRewardsKeeps(s, now, pool);
    ValidLimitAhead(pool, x);
    LoopKeeps(SwapState(s.(pool := pool), amount, 0), x);
  }

  predicate IsSwap(t: Transaction) {
    t.action.DoSwap?
  }

  lemma {:induction false} SwapsGuard(s: State, ts: seq<Transaction>)
    requires Inv(s) && forall t :: t in ts ==> IsSwap(t)
    ensures var s' := Run(s, ts);
            |s.vault| == 2 && |s'.vault| == 2 && s.pool.sqrtPrice > 0 && s'.pool.sqrtPrice > 0 && Guarded(s, s')
  {
    hide Ledgers, Swap, Surplus;
    if ts != [] {
      var before, t := ts[..|ts| - 1], ts[|ts| - 1];
      assert IsSwap(t);
      SwapsGuard(s, before);
      var mid := Run(s, before);
      RunKeeps(s, before);
      if t.now >= mid.clock {
        ClockKeeps(mid, t.now);
        var a := t.action;
        var r := Swap(mid.(clock := t.now), a.amount, a.limit, a.zeroForOne, a.baseInput, t.now);
        SurplusIgnoresClock(mid, t.now);
        if r.Some? {
          SwapGuards(mid.(clock := t.now), a.amount, a.limit, a.zeroForOne, a.baseInput, t.now, r.value);
        }
      }
    }
  }

  lemma SurplusIgnoresClock(s: State, now: nat)
    requires |s.vault| == 2 && s.pool.sqrtPrice > 0
    ensures forall t :: 0 <= t < TOKENS ==> Surplus(s.(clock := now), t) == Surplus(s, t)
  {
  }

  /** Any number of swaps, in either direction, of any kind, at any times, by any traders, with the
      positions left alone: if the pool has not gained in one token, it has not lost in the other. */
  lemma NoSwapSequenceProfits(s: State, ts: seq<Transaction>, t: nat)
    requires Reachable(s) && t < TOKENS && forall a :: a in ts ==> IsSwap(a)
    ensures NoGainWithoutLoss(s, Run(s, ts), t)
  {
    hide Reachable, Inv, Run;
    ReachableHolds(s);
    SwapsGuard(s, ts);
    GuardedTrade(s, Run(s, ts), t);
  }

  /** If the pool holds no more of token t than before, it holds no less of the other. */
  ghost predicate NoGainWithoutLoss(s: State, s': State, t: nat)
    requires t < TOKENS
  {
    |s.vault| == 2 && |s'.vault| == 2 && (s'.vault[t] <= s.vault[t] ==> s'.vault[1 - t] >= s.vault[1 - t])
  }

  lemma GuardedTrade(s: State, s': State, t: nat)
    requires |s.vault| == 2 && |s'.vault| == 2 && s.pool.sqrtPrice > 0 && s'.pool.sqrtPrice > 0
    requires Guarded(s, s') && t < TOKENS
    ensures NoGainWithoutLoss(s, s', t)
  {
    hide TotalValue, Obligations;
    var p, q := s.pool.sqrtPrice, s'.pool.sqrtPrice;
    if p <= q {
      TotalMonotone(s.positions, p, q);
    } else {
      TotalMonotone(s.positions, q, p);
    }
    assert Surplus(s', t) >= Surplus(s, t) && Obligations(s'.pool, t) >= Obligations(s.pool, t);
    assert Surplus(s', 1 - t) >= Surplus(s, 1 - t) && Obligations(s'.pool, 1 - t) >= Obligations(s.pool, 1 - t);
    if s'.vault[t] <= s.vault[t] {
      assert s'.vault[t] as real <= s.vault[t] as real;
      assert s'.vault[1 - t] as real >= s.vault[1 - t] as real;
    }
  }

  /** The round trip: the proceeds of one swap, fed back the other way, never return more than was paid. */
  lemma NoProfitableRoundTrip(s: State, zeroForOne: bool, amount: nat, limit: nat, s1: State,
                              proceeds: nat, limitBack: nat, s2: State, now: nat, later: nat)
    requires Reachable(s) && s.clock <= now <= later && |s.vault| == 2
    requires Swap(s.(clock := now), amount, limit, zeroForOne, true, now) == Some(s1)
    requires |s1.vault| == 2 && proceeds == s.vault[1 - TokenIn(zeroForOne)] - s1.vault[1 - TokenIn(zeroForOne)]
    requires Swap(s1.(clock := later), proceeds, limitBack, !zeroForOne, true, later) == Some(s2)
    ensures var i := TokenIn(zeroForOne);
            && |s2.vault| == 2
            && s1.vault[i] - s2.vault[i] <= s1.vault[i] - s.vault[i] <= amount
  {
    hide Reachable, Inv, Swap, Run;
    ReachableHolds(s);
    ClockKeeps(s, now);
    SwapAccounts(s.(clock := now), amount, limit, zeroForOne, true, now, s1);
    SwapKeeps(s.(clock := now), amount, limit, zeroForOne, true, now, s1);
    ClockUnchanged(s.(clock := now), amount, limit, zeroForOne, true, now, s1);
    ClockKeeps(s1, later);
    SwapAccounts(s1.(clock := later), proceeds, limitBack, !zeroForOne, true, later, s2);
    var t1 := Transaction(DoSwap(amount, limit, zeroForOne, true), now);
    var t2 := Transaction(DoSwap(proceeds, limitBack, !zeroForOne, true), later);
    RunOfTwo(s, t1, t2);
    NoSwapSequenceProfits(s, [t1, t2], 1 - TokenIn(zeroForOne));
  }

  lemma RunOfTwo(s: State, t1: Transaction, t2: Transaction)
    ensures Run(s, [t1, t2]) == Runs.Step(Runs.Step(s, t1), t2)
  {
    hide Runs.Step;
    assert [t1, t2][..1] == [t1] && [t1][..0] == [];
    assert Run(s, []) == s;
    assert Run(s, [t1]) == Runs.Step(s, t1);
  }

  /** The trader pays at most the specified input and at least nothing; the vaults record both sides. */
  lemma SwapAccounts(s: State, amount: nat, limit: nat, zeroForOne: bool, baseInput: bool, now: nat, s': State)
    requires Inv(s) && s.clock == now
    requires Swap(s, amount, limit, zeroForOne, baseInput, now) == Some(s')
    ensures |s.vault| == 2 && |s'.vault| == 2
    ensures var i := TokenIn(zeroForOne); var paid, received := s'.vault[i] - s.vault[i], s.vault[1 - i] - s'.vault[1 - i];
            paid > 0 && received > 0 && (if baseInput then paid <= amount else received <= amount)
  {
    hide AccrueRewards, SwapLoop, Ledgers, LimitAhead, Solvent, Principal, Obligations;
    var x := SwapArgs(zeroForOne, baseInput, EffectiveLimit(limit, zeroForOne));
    var pool := AccrueRewards(s.pool, now).value;
    AccrueRewardsKeeps(s, now, pool);
    ShapeOf(s);
    ValidLimitAhead(pool, x);
    LoopAccounts(SwapState(s.(pool := pool), amount, 0), x);
  }

  lemma ClockUnchanged(s: State, amount: nat, limit: nat, zeroForOne: bool, baseInput: bool, now: nat, s': State)
    requires Swap(s, amount, limit, zeroForOne, baseInput, now) == Some(s')
    ensures s'.clock == s.clock
  {
    hide AccrueRewards, SwapLoop;
    var x := SwapArgs(zeroForOne, baseInput, EffectiveLimit(limit, zeroForOne));
    LoopKeepsClock(SwapState(s.(pool := AccrueRewards(s.pool, now).value), amount, 0), x);
  }

  lemma {:induction false} LoopKeepsClock(w: SwapState, x: SwapArgs)
    requires SwapLoop(w, x).Some?
    ensures SwapLoop(w, x).value.state.clock == w.state.clock
    decreases |Ahead(w.state.ticks.Keys, w.state.pool.tick, x.zeroForOne)|
  {
    hide SqrtPriceAtTick;
    if !Finished(w, x) {
      var n := NextTick(w.state.ticks.Keys, w.state.pool.tick, x.zeroForOne).value;
      var w1 := SwapStepTo(w, x, n).value;
      if w1.state.pool.sqrtPrice == SqrtPriceAtTick(n) {
        CrossingShrinksAhead(w, x, n);
        LoopKeepsClock(w1, x);
      }
    }
  }
}
