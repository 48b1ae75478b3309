/** What a position is paid when it is visited: its liquidity times everything the eager ledger paid to its
    range since the last visit, rounded down once. */
module Visits {
  import opened Wrappers
  import opened FullMath
  import opened LiquidityMath
  import opened TickMath
  import opened SwapMath
  import opened SwapStepProofs
  import opened Model
  import opened Ticks
  import opened RewardRules
  import opened Positions
  import opened Ledger
  import opened GrowthLedger
  import opened Curve
  import opened Machine
  import opened Runs
  import opened Invariants
  import opened SwapInvariant
  import opened SwapRuns
  import opened FeeSplit
  import opened RewardInvariant
  import opened LiquidityInvariant
  import opened InstructionInvariant
  import opened Theorems
  import opened EagerLedger
  import opened Transfers

  // ---------------------------------------------------------------------------------------------
  // Growth only rises, and pays at most what it rises by

  lemma AccrualRaises(pool: Pool, now: nat, k: nat)
    requires k < COUNTERS && AccrueRewards(pool, now).Some?
    ensures Growth(AccrueRewards(pool, now).value, k) >= Growth(pool, k)
  {
    hide MulDivFloor, MulDivCeil;
    assert k == 0 || k == 1 || k == 2 || k == 3 || k == 4;
  }

  lemma ModifyRaises(pool: Pool, q: Protocol, lo: Tick, up: Tick, lower: int, upper: int, delta: int, now: nat, k: nat)
    requires k < COUNTERS && MIN_TICK <= lower <= MAX_TICK && MIN_TICK <= upper <= MAX_TICK
    ensures var m := ModifyPosition(pool, q, lo, up, lower, upper, delta, now);
            m.Some? ==> Growth(m.value.state.pool, k) >= Growth(pool, k)
  {
    hide AccrueRewards, TickUpdate, GrowthsInside, ProtocolUpdate, DeltaAmounts;
    if AccrueRewards(pool, now).Some? {
      AccrualRaises(pool, now, k);
    }
  }

  lemma AdditionRaises(s: State, q: Protocol, lower: int, upper: int, liquidity: nat, max0: nat, max1: nat, base0: Option<bool>, now: nat, k: nat)
    requires k < COUNTERS && MIN_TICK <= lower <= MAX_TICK && MIN_TICK <= upper <= MAX_TICK && |s.vault| == 2
    ensures var a := AddLiquidity(s, q, lower, upper, liquidity, max0, max1, base0, now);
            a.Some? ==> Growth(a.value.state.pool, k) >= Growth(s.pool, k)
  {
    hide ModifyPosition, RequestedLiquidity;
    var a := AddLiquidity(s, q, lower, upper, liquidity, max0, max1, base0, now);
    if a.Some? {
      ModifyRaises(s.pool, q, TickOf(s.ticks, lower), TickOf(s.ticks, upper), lower, upper, a.value.liquidity, now, k);
    }
  }

  lemma BurnRaises(s: State, id: nat, liquidity: nat, now: nat, k: nat)
    requires k < COUNTERS && HasRange(s, id) && liquidity <= s.positions[id].liquidity
    ensures var b := Burn(s, id, liquidity, now);
            b.Some? ==>
              && Growth(b.value.state.pool, k) >= Growth(s.pool, k)
              && |b.value.state.positions| == |s.positions| && b.value.state.vault == s.vault
  {
    hide ModifyPosition, Settle;
    var p := s.positions[id];
    ModifyRaises(s.pool, s.protocols[(p.lower, p.upper)], TickOf(s.ticks, p.lower), TickOf(s.ticks, p.upper),
                 p.lower, p.upper, -(liquidity as int), now, k);
  }

  lemma PayingKeepsGrowth(s: State, id: nat, k: nat)
    requires k < COUNTERS && id < |s.positions|
    ensures var c := CollectFees(s, id);
            c.Some? ==>
              && Growth(c.value.state.pool, k) == Growth(s.pool, k)
              && c.value.state.vault == s.vault && |c.value.state.positions| == |s.positions|
    ensures var r := CollectRewards(s, id); r.Some? ==> Growth(r.value.pool, k) == Growth(s.pool, k)
  {
    hide CollectReward;
    forall w: State, j: nat | j < REWARDS && id < |w.positions|
      ensures CollectReward(w, id, j).Some? ==>
                var w' := CollectReward(w, id, j).value; Growth(w'.pool, k) == Growth(w.pool, k) && |w'.positions| == |w.positions|
    {
      RewardKeepsGrowth(w, id, j, k);
    }
  }

  lemma RewardKeepsGrowth(s: State, id: nat, j: nat, k: nat)
    requires k < COUNTERS && id < |s.positions| && j < REWARDS
    ensures CollectReward(s, id, j).Some? ==>
              var s' := CollectReward(s, id, j).value; Growth(s'.pool, k) == Growth(s.pool, k) && |s'.positions| == |s.positions|
  {
  }

  lemma DecreaseRaises(s: State, id: nat, liquidity: nat, min0: nat, min1: nat, now: nat, k: nat)
    requires k < COUNTERS && DecreaseLiquidity(s, id, liquidity, min0, min1, now).Some?
    ensures Growth(DecreaseLiquidity(s, id, liquidity, min0, min1, now).value.pool, k) >= Growth(s.pool, k)
  {
    hide Burn, CollectFees, CollectRewards;
    if s.pool.status.decrease {
      BurnRaises(s, id, liquidity, now, k);
    }
    var b := if s.pool.status.decrease then Burn(s, id, liquidity, now).value else Burned(s, 0, 0);
    PayingKeepsGrowth(b.state, id, k);
    var c := if s.pool.status.collectFee then CollectFees(b.state, id).value else Collected(b.state, 0, 0);
    PayingKeepsGrowth(CheckVaults(Payout(c.state, b.amount0 + c.fee0, b.amount1 + c.fee1).value), id, k);
  }

  /** No instruction but the swap lowers a growth counter. */
  lemma OthersRaise(s: State, a: Action, now: nat, k: nat)
    requires k < COUNTERS && !a.DoSwap? && Execute(s, a, now).Some?
    ensures Growth(Execute(s, a, now).value.pool, k) >= Growth(s.pool, k)
  {
    hide AddLiquidity, Settle, DecreaseLiquidity, AccrueRewards, NormalUpdate, AdminUpdate, SqrtPriceAtTick, MulDivCeil;
    match a
    case DoOpen(lower, upper, liquidity, max0, max1, base0) =>
      var q := if (lower, upper) in s.protocols then s.protocols[(lower, upper)] else Protocol(0, NO_GROWTH, [0, 0]);
      AdditionRaises(s, q, lower, upper, liquidity, max0, max1, base0, now, k);
    case DoIncrease(id, liquidity, max0, max1, base0) =>
      var p := s.positions[id];
      AdditionRaises(s, s.protocols[(p.lower, p.upper)], p.lower, p.upper, liquidity, max0, max1, base0, now, k);
    case DoDecrease(id, liquidity, min0, min1) => DecreaseRaises(s, id, liquidity, min0, min1, now, k);
    case DoUpdateRewards => AccrualRaises(s.pool, now, k);
    case DoCollectRemaining(j) => AccrualRaises(s.pool, now, k);
    case DoSetRewardParams(j, emissions, openTime, endTime, operator) =>
      AccrualRaises(s.pool, now, k);
      UpdatesKeepGrowth(AccrueRewards(s.pool, now).value.rewards[j], now, emissions, openTime, endTime);
    case _ =>
  }

  lemma UpdatesKeepGrowth(r: Reward, now: nat, emissions: nat, openTime: nat, endTime: nat)
    ensures var u := NormalUpdate(r, now, emissions, openTime, endTime); u.Some? ==> u.value.0.growth == r.growth
    ensures var u := AdminUpdate(r, now, emissions, openTime, endTime); u.Some? ==> u.value.0.growth == r.growth
  {
  }

  lemma StepRaises(w: SwapState, x: SwapArgs, n: int, k: nat)
    requires k < COUNTERS && MIN_TICK <= n <= MAX_TICK && ValidConfig(w.state.config) && |w.state.vault| == 2 && SwapStepTo(w, x, n).Some?
    ensures Growth(SwapStepTo(w, x, n).value.state.pool, k) >= Growth(w.state.pool, k)
  {
    hide SqrtPriceAtTick, Arrive, ComputeStep, MulDivFloor, Share;
    var s := w.state;
    var step := ComputeStep(s.pool.sqrtPrice, Target(SqrtPriceAtTick(n), x), s.pool.liquidity, w.remaining,
                            s.config.tradeFeeRate, x.baseInput, x.zeroForOne).value;
    var credited := CreditFee(s.pool, s.config, TokenIn(x.zeroForOne), step.feeAmount).value;
    ArriveKeepsFees(credited, s.ticks, n, SqrtPriceAtTick(n), step.sqrtPriceNext, x.zeroForOne);
  }

  lemma {:induction false} SwapPaysWithin(w: SwapState, x: SwapArgs, r: Watch)
    requires r.k < COUNTERS && SwapLoop(w, x).Some?
    ensures 0 <= PaidBySwap(w, x, r) <= Growth(SwapLoop(w, x).value.state.pool, r.k) - Growth(w.state.pool, r.k)
    decreases |Ahead(w.state.ticks.Keys, w.state.pool.tick, x.zeroForOne)|
  {
    hide SqrtPriceAtTick, SwapStepTo, Growth;
    if !Finished(w, x) {
      var n := NextTick(w.state.ticks.Keys, w.state.pool.tick, x.zeroForOne).value;
      var w1 := SwapStepTo(w, x, n).value;
      StepRaises(w, x, n, r.k);
      if w1.state.pool.sqrtPrice == SqrtPriceAtTick(n) {
        CrossingShrinksAhead(w, x, n);
        SwapPaysWithin(w1, x, r);
      }
    }
  }

  lemma FinishKeepsGrowth(before: State, w: SwapState, x: SwapArgs, amount: nat, k: nat)
    requires k < COUNTERS
    ensures var s' := FinishSwap(before, w, x, amount); s'.Some? ==> Growth(s'.value.pool, k) == Growth(w.state.pool, k)
  {
  }

  lemma TransactionPaysWithin(s: State, t: Transaction, r: Watch)
    requires r.k < COUNTERS
    ensures 0 <= PaidBy(s, t, r) <= Growth(Runs.Step(s, t).pool, r.k) - Growth(s.pool, r.k)
  {
    hide SwapLoop, AccrueRewards, PaidBySwap, FinishSwap, Growth;
    var s0 := s.(clock := t.now);
    if t.now >= s.clock && Execute(s0, t.action, t.now).Some? {
      if !t.action.DoSwap? {
        hide Execute;
        OthersRaise(s0, t.action, t.now, r.k);
      } else {
        var a := t.action;
        var x := SwapArgs(a.zeroForOne, a.baseInput, EffectiveLimit(a.limit, a.zeroForOne));
        AccrualRaises(s.pool, t.now, r.k);
        var w := SwapState(s0.(pool := AccrueRewards(s.pool, t.now).value), a.amount, 0);
        SwapPaysWithin(w, x, r);
        FinishKeepsGrowth(s0, SwapLoop(w, x).value, x, a.amount, r.k);
      }
    }
  }

  lemma {:induction false} RunPaysWithin(s: State, ts: seq<Transaction>, r: Watch)
    requires r.k < COUNTERS
    ensures 0 <= PaidByRun(s, ts, r) <= Growth(Run(s, ts).pool, r.k) - Growth(s.pool, r.k)
  {
    hide PaidBy, Runs.Step, Growth;
    if ts != [] {
      var n := |ts| - 1;
      RunPaysWithin(s, ts[..n], r);
      TransactionPaysWithin(Run(s, ts[..n]), ts[n], r);
    }
  }

  // ---------------------------------------------------------------------------------------------
  // The visit

  /** What the range of an open position records at a visit: the growth inside it, rewards accrued. */
  lemma ModifyLatest(s: State, id: nat, delta: int, now: nat, m: Modified, k: nat)
    requires Inv(s) && s.clock == now && HasRange(s, id) && s.positions[id].liquidity > 0 && k < COUNTERS
    requires var p := s.positions[id];
             ModifyPosition(s.pool, s.protocols[(p.lower, p.upper)], TickOf(s.ticks, p.lower), TickOf(s.ticks, p.upper),
                            p.lower, p.upper, delta, now) == Some(m)
    ensures AccrueRewards(s.pool, now).Some?
    ensures var p := s.positions[id]; var accrued := s.(pool := AccrueRewards(s.pool, now).value);
            m.state.protocol.last[k] == InsideOf(accrued, Watch(p.lower, p.upper, k)) % U128_MOD
  {
    hide AccrueRewards, TickUpdate, GrowthsInside, DeltaAmounts, RecordFee, SqrtPriceAtTick, CountersInv, LiquidityInv, InsideExact;
    var p := s.positions[id];
    var pool1 := AccrueRewards(s.pool, now).value;
    AccrueRewardsKeeps(s, now, pool1);
    var s1 := s.(pool := pool1);
    InitialisedHasGross(s1, p.lower);
    InitialisedHasGross(s1, p.upper);
    TickUpdateEffect(s1, p.lower, delta, false, m.state.lower, k);
    TickUpdateEffect(s1, p.upper, delta, true, m.state.upper, k);
    InsideVector(s1, m.state.lower, m.state.upper, p.lower, p.upper, m.state.protocol.last, k);
    OpenEnds(s, id);
  }

  lemma OpenEnds(s: State, id: nat)
    requires LiquidityInv(s) && id < |s.positions| && s.positions[id].liquidity > 0
    ensures s.positions[id].lower in s.ticks && s.positions[id].upper in s.ticks
  {
    assert s.positions[id] in s.positions;
    EndsInitialised(s.positions, s.ticks, s.positions[id]);
  }

  /** What is recorded at a visit is the growth inside the range as it then stands: nothing stays pending. */
  lemma ModifyRecordsInside(s: State, q: Protocol, lower: int, upper: int, delta: int, now: nat, m: Modified, k: nat)
    requires Inv(s) && s.clock == now && MIN_TICK <= lower < upper <= MAX_TICK && k < COUNTERS
    requires ModifyPosition(s.pool, q, TickOf(s.ticks, lower), TickOf(s.ticks, upper), lower, upper, delta, now) == Some(m)
    ensures var ticks' := PutTick(PutTick(s.ticks, lower, m.state.lower), upper, m.state.upper);
            lower in ticks' && upper in ticks' ==>
              (Inside(ViewOf(m.state.pool, ticks', k), lower, upper) - m.state.protocol.last[k]) % U128_MOD == 0
  {
    hide AccrueRewards, TickUpdate, GrowthsInside, DeltaAmounts, RecordFee, SqrtPriceAtTick, CountersInv, LiquidityInv, InsideExact;
    var pool1 := AccrueRewards(s.pool, now).value;
    AccrueRewardsKeeps(s, now, pool1);
    var s1 := s.(pool := pool1);
    InitialisedHasGross(s1, lower);
    InitialisedHasGross(s1, upper);
    TickUpdateEffect(s1, lower, delta, false, m.state.lower, k);
    TickUpdateEffect(s1, upper, delta, true, m.state.upper, k);
    InsideVector(s1, m.state.lower, m.state.upper, lower, upper, m.state.protocol.last, k);
    SinceRecorded(InsideExact(m.state.lower.outside[k], m.state.upper.outside[k], lower, upper, pool1.tick, Growth(pool1, k)));
  }

  lemma BurnLeavesNothingPending(s: State, id: nat, liquidity: nat, now: nat, b: Burned, k: nat)
    requires Inv(s) && s.clock == now && HasRange(s, id) && liquidity <= s.positions[id].liquidity && k < COUNTERS
    requires Burn(s, id, liquidity, now) == Some(b) && liquidity < s.positions[id].liquidity
    ensures id < |b.state.positions| && Pending(ViewOf(b.state.pool, b.state.ticks, k), b.state.positions[id]) == 0
  {
    hide ModifyPosition, Settle, Inv, Ledgers, Inside, LiquidityInv, OwesFloor, Worth, Coupled;
    var p := s.positions[id];
    var q := s.protocols[(p.lower, p.upper)];
    var m := ModifyPosition(s.pool, q, TickOf(s.ticks, p.lower), TickOf(s.ticks, p.upper), p.lower, p.upper, -(liquidity as int), now).value;
    ModifyRecordsInside(s, q, p.lower, p.upper, -(liquidity as int), now, m, k);
    BurnKeeps(s, id, liquidity, now, b);
    LedgersBalance(b.state);
    CoupledIn(s);
    BurnMeans(s, id, liquidity, now, b);
    OpenEnds(b.state, id);
  }

  lemma LedgersBalance(s: State)
    requires Ledgers(s)
    ensures LiquidityInv(s)
  {
    hide LiquidityInv;
  }

  lemma AdditionLeavesNothingPending(s: State, q: Protocol, lower: int, upper: int, liquidity: nat, max0: nat, max1: nat,
                                     base0: Option<bool>, now: nat, a: Added, s': State, id: nat, k: nat)
    requires Inv(s) && s.clock == now && MIN_TICK <= lower < upper <= MAX_TICK && k < COUNTERS && |s.vault| == 2
    requires AddLiquidity(s, q, lower, upper, liquidity, max0, max1, base0, now) == Some(a) && !(liquidity == 0 && base0.None?)
    requires Inv(s') && s'.pool == a.state.pool && s'.ticks == a.state.ticks && id < |s'.positions|
    requires var p := s'.positions[id]; p.lower == lower && p.upper == upper && p.last == a.protocol.last && p.liquidity > 0
    ensures Pending(ViewOf(s'.pool, s'.ticks, k), s'.positions[id]) == 0
  {
    hide ModifyPosition, RequestedLiquidity, Inv, Inside, LiquidityInv, SqrtPriceAtTick;
    var m := ModifyPosition(s.pool, q, TickOf(s.ticks, lower), TickOf(s.ticks, upper), lower, upper, a.liquidity, now).value;
    ModifyRecordsInside(s, q, lower, upper, a.liquidity, now, m, k);
    BalanceIn(s');
    OpenEnds(s', id);
  }

  lemma BalanceIn(s: State)
    requires Inv(s)
    ensures LiquidityInv(s)
  {
    hide LiquidityInv;
  }

  lemma IncreaseLeavesNothingPending(s: State, id: nat, liquidity: nat, max0: nat, max1: nat, base0: Option<bool>, now: nat, s': State, k: nat)
    requires Inv(s) && s.clock == now && k < COUNTERS && !(liquidity == 0 && base0.None?)
    requires IncreaseLiquidity(s, id, liquidity, max0, max1, base0, now) == Some(s')
    ensures id < |s'.positions| && Pending(ViewOf(s'.pool, s'.ticks, k), s'.positions[id]) == 0
  {
    hide AddLiquidity, Inv, Settle, Inside, Granted, Deposited, OwesFloor, Coupled;
    CoupledIn(s);
    IncreaseMeans(s, id, liquidity, max0, max1, base0, now, s');
    IncreaseKeeps(s, id, liquidity, max0, max1, base0, now, s');
    var p := s.positions[id];
    var q := s.protocols[(p.lower, p.upper)];
    var a := AddLiquidity(s, q, p.lower, p.upper, liquidity, max0, max1, base0, now).value;
    AdditionMeans(s, q, p.lower, p.upper, liquidity, max0, max1, base0, now, a);
    assert a.liquidity > 0 by { GrantedIsPositive(s.pool, p.lower, p.upper, liquidity, max0, max1, base0, a.liquidity); }
    SettledAll(p, Settle(p, a.protocol.last).value, a.protocol.last);
    AdditionLeavesNothingPending(s, q, p.lower, p.upper, liquidity, max0, max1, base0, now, a, s', id, k);
  }

  lemma GrantedIsPositive(pool: Pool, lower: int, upper: int, liquidity: nat, max0: nat, max1: nat, base0: Option<bool>, added: nat)
    requires MIN_TICK <= lower <= MAX_TICK && MIN_TICK <= upper <= MAX_TICK
    requires Granted(pool, lower, upper, liquidity, max0, max1, base0, added)
    ensures added > 0
  {
    hide SqrtPriceAtTick;
  }

  lemma OpenLeavesNothingPending(s: State, lower: int, upper: int, liquidity: nat, max0: nat, max1: nat, base0: Option<bool>, now: nat, s': State, k: nat)
    requires Inv(s) && s.clock == now && k < COUNTERS && !(liquidity == 0 && base0.None?)
    requires OpenPosition(s, lower, upper, liquidity, max0, max1, base0, now) == Some(s')
    ensures |s'.positions| == |s.positions| + 1 && Pending(ViewOf(s'.pool, s'.ticks, k), s'.positions[|s.positions|]) == 0
  {
    hide AddLiquidity, Inv, Inside, Granted, Deposited, Coupled;
    CoupledIn(s);
    OpenMeans(s, lower, upper, liquidity, max0, max1, base0, now, s');
    OpenKeepsAll(s, lower, upper, liquidity, max0, max1, base0, now, s');
    var q := if (lower, upper) in s.protocols then s.protocols[(lower, upper)] else Protocol(0, NO_GROWTH, [0, 0]);
    var a := AddLiquidity(s, q, lower, upper, liquidity, max0, max1, base0, now).value;
    AdditionMeans(s, q, lower, upper, liquidity, max0, max1, base0, now, a);
    assert a.liquidity > 0 by { GrantedIsPositive(s.pool, lower, upper, liquidity, max0, max1, base0, a.liquidity); }
    AdditionLeavesNothingPending(s, q, lower, upper, liquidity, max0, max1, base0, now, a, s', |s.positions|, k);
  }

  /** Position id is as it was in s after the run, has liquidity, and had nothing pending on counter k. */
  ghost predicate Untouched(s: State, ts: seq<Transaction>, id: nat, k: nat) {
    && Reachable(s) && k < COUNTERS && id < |s.positions| && id < |Run(s, ts).positions|
    && Run(s, ts).positions[id] == s.positions[id] && s.positions[id].liquidity > 0
    && StaysWatched(s, ts, WatchOf(s, id, k)) && Pending(ViewOf(s.pool, s.ticks, k), s.positions[id]) == 0
  }

  function WatchOf(s: State, id: nat, k: nat): Watch
    requires id < |s.positions|
  {
    Watch(s.positions[id].lower, s.positions[id].upper, k)
  }

  /** What the eager ledger has paid to the range of position id: over the run, and for the rewards of the
      time up to the visit. */
  ghost function PaidUntil(s: State, ts: seq<Transaction>, id: nat, k: nat, now: nat): int
    requires id < |s.positions| && k < COUNTERS
  {
    var s1 := Run(s, ts);
    PaidByRun(s, ts, WatchOf(s, id, k))
    + (if AccrueRewards(s1.pool, now).Some? then Paid(s1, s1.(pool := AccrueRewards(s1.pool, now).value), WatchOf(s, id, k)) else 0)
  }

  /** The growth a visit settles is what the eager ledger has paid, as a plain number. */
  lemma SettledGrowthIsPaid(s: State, ts: seq<Transaction>, id: nat, k: nat, now: nat, latest: nat)
    requires Untouched(s, ts, id, k) && Run(s, ts).clock <= now && AccrueRewards(Run(s, ts).pool, now).Some?
    requires var s1 := Run(s, ts);
             latest == InsideOf(s1.(pool := AccrueRewards(s1.pool, now).value), WatchOf(s, id, k)) % U128_MOD
    ensures var paid := PaidUntil(s, ts, id, k, now);
            0 <= paid <= U128_MAX && (latest - s.positions[id].last[k]) % U128_MOD == paid
  {
    hide Reachable, Inv, Inside, InsideOf, Run, StaysWatched, PaidByRun, AccrueRewards, Growth, Pending;
    var s1, r := Run(s, ts), WatchOf(s, id, k);
    var p, accrued := s.positions[id], s1.(pool := AccrueRewards(s1.pool, now).value);
    ReachableHolds(s);
    RunKeeps(s, ts);
    GrowthInsideIsEager(s, ts, r);
    RunPaysWithin(s, ts, r);
    AccrualRaises(s1.pool, now, k);
    LastWatched(s, ts, r);
    AccrualPays(s1, now, r);
    GrowthFits(s1, now, k);
    PendingOf(s, p, k);
    var paid, before := PaidUntil(s, ts, id, k, now), InsideOf(s, r) - p.last[k];
    Recorded(InsideOf(accrued, r), p.last[k]);
    assert InsideOf(accrued, r) - p.last[k] == before + paid;
    ShiftedByMultiple(before, paid);
  }

  lemma LastWatched(s: State, ts: seq<Transaction>, r: Watch)
    requires StaysWatched(s, ts, r)
    ensures Watched(Run(s, ts), r)
  {
    hide Watched, Run;
    assert ts[..|ts|] == ts;
    assert Watched(Run(s, ts[..|ts|]), r);
  }

  lemma AccrualPays(s: State, now: nat, r: Watch)
    requires Watched(s, r) && AccrueRewards(s.pool, now).Some?
    ensures var s' := s.(pool := AccrueRewards(s.pool, now).value); InsideOf(s', r) == InsideOf(s, r) + Paid(s, s', r)
  {
    hide AccrueReward, Inside;
    StillPays(s, s.(pool := AccrueRewards(s.pool, now).value), r);
  }

  lemma GrowthFits(s: State, now: nat, k: nat)
    requires Inv(s) && s.clock <= now && k < COUNTERS && AccrueRewards(s.pool, now).Some?
    ensures Growth(AccrueRewards(s.pool, now).value, k) <= U128_MAX
  {
    hide Inv, CounterHolds, AccrueRewards;
    ClockKeeps(s, now);
    var s' := s.(clock := now, pool := AccrueRewards(s.pool, now).value);
    AccrueRewardsKeeps(s.(clock := now), now, s'.pool);
    CounterOf(s', k);
    GrowthBounded(s', k);
  }

  lemma CounterOf(s: State, k: nat)
    requires Inv(s) && k < COUNTERS
    ensures CounterHolds(s, k)
  {
    hide CounterHolds;
  }

  lemma Recorded(inside: int, last: int)
    ensures (inside % U128_MOD - last) % U128_MOD == (inside - last) % U128_MOD
  {
    WrappingTwice(inside, last);
  }

  lemma ShiftedByMultiple(x: int, d: int)
    requires x % U128_MOD == 0 && 0 <= d < U128_MOD
    ensures (x + d) % U128_MOD == d
  {
    ModAdd(x, d);
  }

  /** A visit that burns: on every counter the position is owed more by exactly its liquidity times what the
      eager ledger has paid since the last visit, over Q64, rounded down. */
  lemma BurnPaysEagerly(s: State, ts: seq<Transaction>, id: nat, k: nat, liquidity: nat, now: nat, b: Burned)
    requires Untouched(s, ts, id, k) && Run(s, ts).clock <= now
    requires var s1 := Run(s, ts).(clock := now);
             HasRange(s1, id) && liquidity <= s1.positions[id].liquidity && Burn(s1, id, liquidity, now) == Some(b)
    ensures id < |b.state.positions|
    ensures var p := s.positions[id]; var paid := PaidUntil(s, ts, id, k, now);
            0 <= paid <= U128_MAX && OwesFloor(p.owed[k], b.state.positions[id].owed[k], paid, p.liquidity)
  {
    hide Reachable, Inv, InsideOf, Run, StaysWatched, PaidUntil, Pending, AccrueRewards, Settle, ModifyPosition, OwesFloor, Worth, Coupled;
    var s1 := Run(s, ts).(clock := now);
    VisitHolds(s, ts, now);
    var p := s1.positions[id];
    var m := ModifyPosition(s1.pool, s1.protocols[(p.lower, p.upper)], TickOf(s1.ticks, p.lower), TickOf(s1.ticks, p.upper),
                            p.lower, p.upper, -(liquidity as int), now).value;
    ModifyLatest(s1, id, -(liquidity as int), now, m, k);
    InsideIgnoresClock(s, ts, id, k, now);
    SettledGrowthIsPaid(s, ts, id, k, now, m.state.protocol.last[k]);
    BurnMeans(s1, id, liquidity, now, b);
  }

  lemma VisitHolds(s: State, ts: seq<Transaction>, now: nat)
    requires Reachable(s) && Run(s, ts).clock <= now
    ensures Inv(Run(s, ts).(clock := now)) && Coupled(Run(s, ts).pool)
  {
    hide Reachable, Inv, Run, Coupled;
    ReachableHolds(s);
    RunKeeps(s, ts);
    ClockKeeps(Run(s, ts), now);
    CoupledIn(Run(s, ts));
  }

  lemma CoupledIn(s: State)
    requires Inv(s)
    ensures Coupled(s.pool)
  {
    hide Coupled;
  }

  lemma InsideIgnoresClock(s: State, ts: seq<Transaction>, id: nat, k: nat, now: nat)
    requires id < |s.positions| && k < COUNTERS && AccrueRewards(Run(s, ts).pool, now).Some?
    ensures var s1 := Run(s, ts); var pool := AccrueRewards(s1.pool, now).value;
            InsideOf(s1.(clock := now).(pool := pool), WatchOf(s, id, k)) == InsideOf(s1.(pool := pool), WatchOf(s, id, k))
  {
    hide Run, AccrueRewards;
  }

  /** A visit that adds liquidity pays the same. */
  lemma IncreasePaysEagerly(s: State, ts: seq<Transaction>, id: nat, k: nat, liquidity: nat, max0: nat, max1: nat,
                            base0: Option<bool>, now: nat, s': State)
    requires Untouched(s, ts, id, k) && Run(s, ts).clock <= now && !(liquidity == 0 && base0.None?)
    requires IncreaseLiquidity(Run(s, ts).(clock := now), id, liquidity, max0, max1, base0, now) == Some(s')
    ensures id < |s'.positions|
    ensures var p := s.positions[id]; var paid := PaidUntil(s, ts, id, k, now);
            0 <= paid <= U128_MAX && OwesFloor(p.owed[k], s'.positions[id].owed[k], paid, p.liquidity)
  {
    hide Reachable, Inv, InsideOf, Run, StaysWatched, PaidUntil, Pending, AccrueRewards, Settle, ModifyPosition, RequestedLiquidity,
         OwesFloor, Granted, Deposited, Coupled;
    var s1 := Run(s, ts).(clock := now);
    VisitHolds(s, ts, now);
    var p := s1.positions[id];
    var q := s1.protocols[(p.lower, p.upper)];
    var added := RequestedLiquidity(s1.pool, p.lower, p.upper, liquidity, max0, max1, base0).value;
    var m := ModifyPosition(s1.pool, q, TickOf(s1.ticks, p.lower), TickOf(s1.ticks, p.upper), p.lower, p.upper, added, now).value;
    ModifyLatest(s1, id, added, now, m, k);
    InsideIgnoresClock(s, ts, id, k, now);
    SettledGrowthIsPaid(s, ts, id, k, now, m.state.protocol.last[k]);
    IncreaseMeans(s1, id, liquidity, max0, max1, base0, now, s');
  }

  /** A withdrawal pays it out: the owed fees, with everything paid up to the visit, leave the vaults. */
  lemma WithdrawalPaysEagerly(s: State, ts: seq<Transaction>, id: nat, k: nat, liquidity: nat, min0: nat, min1: nat, now: nat, s': State)
    returns (x: nat, y: nat, p1: Position)
    requires Untouched(s, ts, id, k) && Run(s, ts).clock <= now && Run(s, ts).pool.status.decrease
    requires DecreaseLiquidity(Run(s, ts).(clock := now), id, liquidity, min0, min1, now) == Some(s')
    ensures PaidOut(Run(s, ts).(clock := now), s', id, x, y, p1)
    ensures var p := s.positions[id]; var paid := PaidUntil(s, ts, id, k, now);
            0 <= paid <= U128_MAX && OwesFloor(p.owed[k], p1.owed[k], paid, p.liquidity)
  {
    hide Reachable, Inv, Run, StaysWatched, PaidUntil, Pending, Burn, DecreaseLiquidity, OwesFloor, PaidOut, Refunded, Coupled;
    VisitHolds(s, ts, now);
    var s1 := Run(s, ts).(clock := now);
    x, y, p1 := DecreaseMeans(s1, id, liquidity, min0, min1, now, s');
    BurnPaysEagerly(s, ts, id, k, liquidity, now, Burn(s1, id, liquidity, now).value);
  }
}
