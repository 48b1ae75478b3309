/** The lazy growth counters against an eager ledger that pays every unit of growth, at the moment it
    arises, to exactly the ranges that cover the current tick. */
module EagerLedger {
  import opened Wrappers
  import opened FullMath
  import opened LiquidityMath
  import opened TickMath
  import opened SwapMath
  import opened SwapStepProofs
  import opened Model
  import opened Ticks
  import opened RewardRules
  import opened Positions
  import opened Ledger
  import opened GrowthLedger
  import opened Machine
  import opened Runs
  import opened Invariants
  import opened SwapInvariant
  import opened SwapRuns
  import opened RewardInvariant
  import opened LiquidityInvariant
  import opened InstructionInvariant
  import opened Theorems

  /** A range [lower, upper) watched on one counter. */
  datatype Watch = Watch(lower: int, upper: int, k: nat)

  ghost predicate Watched(s: State, w: Watch) {
    w.k < COUNTERS && w.lower < w.upper && w.lower in s.ticks && w.upper in s.ticks
  }

  ghost function InsideOf(s: State, w: Watch): int
    requires w.k < COUNTERS
  {
    Inside(ViewOf(s.pool, s.ticks, w.k), w.lower, w.upper)
  }

  /** What the eager ledger pays when the growth rises from one state to the next at a standing tick. */
  function Paid(s: State, s': State, w: Watch): int
    requires w.k < COUNTERS
  {
    if w.lower <= s.pool.tick < w.upper then Growth(s'.pool, w.k) - Growth(s.pool, w.k) else 0
  }

  /** What it pays over a whole swap, step by step: each step's fee goes to the tick the step starts at. */
  ghost function PaidBySwap(w: SwapState, x: SwapArgs, r: Watch): int
    requires r.k < COUNTERS
    decreases |Ahead(w.state.ticks.Keys, w.state.pool.tick, x.zeroForOne)|
  {
    var s := w.state;
    if Finished(w, x) then 0
    else
      var n := NextTick(s.ticks.Keys, s.pool.tick, x.zeroForOne);
      if n.None? || !(MIN_TICK <= n.value <= MAX_TICK) || !ValidConfig(s.config) || |s.vault| != 2 then 0
      else
        var w' := SwapStepTo(w, x, n.value);
        if w'.None? then 0
        else if w'.value.state.pool.sqrtPrice == SqrtPriceAtTick(n.value) then
          CrossingShrinksAhead(w, x, n.value);
          Paid(s, w'.value.state, r) + PaidBySwap(w'.value, x, r)
        else Paid(s, w'.value.state, r)
  }

  /** What it pays in one transaction: first the rewards, then, in a swap, the fees of its steps. */
  ghost function PaidBy(s: State, t: Transaction, r: Watch): int
    requires r.k < COUNTERS
  {
    var s' := Runs.Step(s, t);
    if t.now < s.clock || Execute(s.(clock := t.now), t.action, t.now).None? then 0
    else if t.action.DoSwap? then
      var a := t.action;
      var accrued := AccrueRewards(s.pool, t.now);
      if accrued.None? then 0
      else
        var s1 := s.(clock := t.now, pool := accrued.value);
        Paid(s, s1, r)
        + PaidBySwap(SwapState(s1, a.amount, 0), SwapArgs(a.zeroForOne, a.baseInput, EffectiveLimit(a.limit, a.zeroForOne)), r)
    else Paid(s, s', r)
  }

  ghost function PaidByRun(s: State, ts: seq<Transaction>, r: Watch): int
    requires r.k < COUNTERS
  {
    if ts == [] then 0
    else PaidByRun(s, ts[..|ts| - 1], r) + PaidBy(Run(s, ts[..|ts| - 1]), ts[|ts| - 1], r)
  }

  // ---------------------------------------------------------------------------------------------
  // Standing still

  /** The tick stands, and every tick initialised before and after keeps its outside growth. */
  ghost predicate Still(s: State, s': State) {
    && s'.pool.tick == s.pool.tick
    && forall i :: i in s.ticks && i in s'.ticks ==> s'.ticks[i].outside == s.ticks[i].outside
  }

  lemma StillPays(s: State, s': State, r: Watch)
    requires Still(s, s') && Watched(s, r) && Watched(s', r)
    ensures InsideOf(s', r) == InsideOf(s, r) + Paid(s, s', r)
  {
  }

  lemma UpdateKeepsOutside(t: Tick, index: int, tickCurrent: int, delta: int, growths: Counters, upper: bool, t': Tick)
    requires if delta == 0 then t' == t else TickUpdate(t, index, tickCurrent, delta, growths, upper) == Some(t')
    requires t.gross > 0
    ensures t'.outside == t.outside
  {
  }

  lemma ModifyIsStill(s: State, q: Protocol, lower: int, upper: int, delta: int, now: nat, m: Modified, s': State)
    requires TicksBalance(s.positions, s.ticks) && MIN_TICK <= lower < upper <= MAX_TICK
    requires ModifyPosition(s.pool, q, TickOf(s.ticks, lower), TickOf(s.ticks, upper), lower, upper, delta, now) == Some(m)
    requires s'.pool.tick == m.state.pool.tick
    requires s'.ticks == PutTick(PutTick(s.ticks, lower, m.state.lower), upper, m.state.upper)
    ensures Still(s, s')
  {
    hide AccrueReward, GrowthsInside, ProtocolUpdate, DeltaAmounts, TickUpdate, SqrtPriceAtTick;
    var pool1 := AccrueRewards(s.pool, now).value;
    if lower in s.ticks {
      UpdateKeepsOutside(s.ticks[lower], lower, pool1.tick, delta, Growths(pool1), false, m.state.lower);
    }
    if upper in s.ticks {
      UpdateKeepsOutside(s.ticks[upper], upper, pool1.tick, delta, Growths(pool1), true, m.state.upper);
    }
  }

  lemma AddIsStill(s: State, q: Protocol, lower: int, upper: int, liquidity: nat, max0: nat, max1: nat, base0: Option<bool>, now: nat, a: Added)
    requires Inv(s) && MIN_TICK <= lower < upper <= MAX_TICK
    requires AddLiquidity(s, q, lower, upper, liquidity, max0, max1, base0, now) == Some(a)
    ensures Still(s, a.state)
  {
    hide ModifyPosition, RequestedLiquidity, SqrtPriceAtTick;
    if !(liquidity == 0 && base0.None?) {
      var m := ModifyPosition(s.pool, q, TickOf(s.ticks, lower), TickOf(s.ticks, upper), lower, upper, a.liquidity, now).value;
      ModifyIsStill(s, q, lower, upper, a.liquidity, now, m, a.state);
    }
  }

  lemma BurnIsStill(s: State, id: nat, liquidity: nat, now: nat, b: Burned)
    requires Inv(s) && HasRange(s, id) && liquidity <= s.positions[id].liquidity
    requires Burn(s, id, liquidity, now) == Some(b)
    ensures Still(s, b.state) && |b.state.positions| == |s.positions| && b.state.vault == s.vault
  {
    hide ModifyPosition, Settle, SqrtPriceAtTick, Inv, Still, TicksBalance;
    var p := s.positions[id];
    var m := ModifyPosition(s.pool, s.protocols[(p.lower, p.upper)], TickOf(s.ticks, p.lower), TickOf(s.ticks, p.upper),
                            p.lower, p.upper, -(liquidity as int), now).value;
    BalanceOf(s);
    ModifyIsStill(s, s.protocols[(p.lower, p.upper)], p.lower, p.upper, -(liquidity as int), now, m, b.state);
  }

  lemma DecreaseIsStill(s: State, id: nat, liquidity: nat, min0: nat, min1: nat, now: nat, s': State)
    requires Inv(s) && DecreaseLiquidity(s, id, liquidity, min0, min1, now) == Some(s')
    ensures Still(s, s')
  {
    hide Burn, CollectFees, CollectRewards, SqrtPriceAtTick, Inv;
    if s.pool.status.decrease {
      BurnIsStill(s, id, liquidity, now, Burn(s, id, liquidity, now).value);
    }
    var b := if s.pool.status.decrease then Burn(s, id, liquidity, now).value else Burned(s, 0, 0);
    CollectFeesIsStill(b.state, id);
    var c := if s.pool.status.collectFee then CollectFees(b.state, id).value else Collected(b.state, 0, 0);
    var paid := Payout(c.state, b.amount0 + c.fee0, b.amount1 + c.fee1).value;
    CollectRewardsIsStill(CheckVaults(paid), id);
  }

  lemma BalanceOf(s: State)
    requires Inv(s)
    ensures TicksBalance(s.positions, s.ticks)
  {
  }

  lemma CollectFeesIsStill(s: State, id: nat)
    requires id < |s.positions|
    ensures CollectFees(s, id).Some? ==>
              var s' := CollectFees(s, id).value.state;
              s'.ticks == s.ticks && s'.pool.tick == s.pool.tick && s'.vault == s.vault && |s'.positions| == |s.positions|
  {
  }

  lemma CollectRewardsIsStill(s: State, id: nat)
    requires id < |s.positions|
    ensures CollectRewards(s, id).Some? ==>
              var s' := CollectRewards(s, id).value; s'.ticks == s.ticks && s'.pool.tick == s.pool.tick
  {
  }

  /** Every instruction but the swap leaves tick and outside growth where they are. */
  lemma OthersAreStill(s: State, a: Action, now: nat, s': State)
    requires Inv(s) && !a.DoSwap? && Execute(s, a, now) == Some(s')
    ensures Still(s, s')
  {
    hide Inv, AddLiquidity, Settle, DecreaseLiquidity, AccrueReward, NormalUpdate, AdminUpdate, SqrtPriceAtTick;
    match a
    case DoOpen(lower, upper, liquidity, max0, max1, base0) =>
      var q := if (lower, upper) in s.protocols then s.protocols[(lower, upper)] else Protocol(0, NO_GROWTH, [0, 0]);
      AddIsStill(s, q, lower, upper, liquidity, max0, max1, base0, now,
                 AddLiquidity(s, q, lower, upper, liquidity, max0, max1, base0, now).value);
    case DoIncrease(id, liquidity, max0, max1, base0) =>
      var p := s.positions[id];
      var q := s.protocols[(p.lower, p.upper)];
      AddIsStill(s, q, p.lower, p.upper, liquidity, max0, max1, base0, now,
                 AddLiquidity(s, q, p.lower, p.upper, liquidity, max0, max1, base0, now).value);
    case DoDecrease(id, liquidity, min0, min1) => DecreaseIsStill(s, id, liquidity, min0, min1, now, s');
    case _ =>
  }

  // ---------------------------------------------------------------------------------------------
  // Swapping

  lemma StepPays(w: SwapState, x: SwapArgs, n: int, r: Watch)
    requires Inv(w.state) && LimitAhead(w.state.pool, x) && Watched(w.state, r)
    requires IsNextTick(w.state.ticks.Keys, w.state.pool.tick, x.zeroForOne, n)
    requires MIN_TICK <= n <= MAX_TICK && SwapStepTo(w, x, n).Some?
    ensures var s' := SwapStepTo(w, x, n).value.state;
            Watched(s', r) && InsideOf(s', r) == InsideOf(w.state, r) + Paid(w.state, s', r)
  {
    hide SqrtPriceAtTick, CreditFee, ComputeStep, CountersInv, LiquidityInv, Inside, TickCross;
    var s := w.state;
    var s' := SwapStepTo(w, x, n).value.state;
    NextTickIsGap(s, x, n);
    TargetInGap(s.pool, s.ticks, x, n);
    var target := Target(SqrtPriceAtTick(n), x);
    var step := ComputeStep(s.pool.sqrtPrice, target, s.pool.liquidity, w.remaining, s.config.tradeFeeRate, x.baseInput, x.zeroForOne).value;
    StepContract(s.pool.sqrtPrice, target, s.pool.liquidity, w.remaining, s.config.tradeFeeRate, x.baseInput, x.zeroForOne);
    var credited := CreditFee(s.pool, s.config, TokenIn(x.zeroForOne), step.feeAmount).value;
    CreditFeeEffect(s, TokenIn(x.zeroForOne), step.feeAmount, credited);
    var mid := s.(pool := credited);
    StillPays(s, mid, r);
    ArrivePays(mid, x, n, target, step.sqrtPriceNext, r);
  }

  /** Where the price goes after the fee is credited changes no growth inside. */
  lemma ArrivePays(s: State, x: SwapArgs, n: int, target: nat, price: nat, r: Watch)
    requires CountersInv(s) && Coupled(s.pool) && LimitAhead(s.pool, x) && GapTo(s.pool, s.ticks, x, n) && Watched(s, r)
    requires target == Target(SqrtPriceAtTick(n), x)
    requires if x.zeroForOne then target <= price <= s.pool.sqrtPrice else s.pool.sqrtPrice <= price <= target
    requires Arrive(s.pool, s.ticks, n, SqrtPriceAtTick(n), price, x.zeroForOne).Some?
    ensures var a := Arrive(s.pool, s.ticks, n, SqrtPriceAtTick(n), price, x.zeroForOne).value;
            && Watched(s.(pool := a.0, ticks := a.1), r)
            && Inside(ViewOf(a.0, a.1, r.k), r.lower, r.upper) == InsideOf(s, r)
            && Growth(a.0, r.k) == Growth(s.pool, r.k)
  {
    hide SqrtPriceAtTick, TickCross, Inside;
    TargetInGap(s.pool, s.ticks, x, n);
    EndPoints();
    var v := ViewOf(s.pool, s.ticks, r.k);
    assert CounterHolds(s, r.k);
    if price == SqrtPriceAtTick(n) {
      var t' := TickCross(s.ticks[n], Growths(s.pool), s.pool).value;
      CrossTurnsOver(s, n, t', r.k);
      CrossKeepsInside(v, n, t', x.zeroForOne, r.lower, r.upper);
    } else if price != s.pool.sqrtPrice {
      FloorTickInGap(s.pool, s.ticks, x, n, price);
      MoveKeepsInside(v, TickAtSqrtPrice(price), r.lower, r.upper);
    }
  }

  lemma MoveKeepsInside(v: View, tick': int, lower: int, upper: int)
    requires v.k < COUNTERS && lower in v.ticks && upper in v.ticks
    requires NoneBetween(v.ticks, tick', v.tick) && NoneBetween(v.ticks, v.tick, tick')
    ensures Inside(v.(tick := tick'), lower, upper) == Inside(v, lower, upper)
  {
  }

  lemma {:induction false} LoopPays(w: SwapState, x: SwapArgs, r: Watch)
    requires Inv(w.state) && LimitAhead(w.state.pool, x) && Watched(w.state, r) && SwapLoop(w, x).Some?
    ensures var s' := SwapLoop(w, x).value.state;
            Watched(s', r) && InsideOf(s', r) == InsideOf(w.state, r) + PaidBySwap(w, x, r)
    decreases |Ahead(w.state.ticks.Keys, w.state.pool.tick, x.zeroForOne)|
  {
    hide SqrtPriceAtTick, SwapStepTo, Inv, InsideOf, Paid;
    RevealInv(w.state);
    if !Finished(w, x) {
      var n := NextTick(w.state.ticks.Keys, w.state.pool.tick, x.zeroForOne).value;
      var w1 := SwapStepTo(w, x, n).value;
      StepKeeps(w, x, n);
      StepPays(w, x, n, r);
      if w1.state.pool.sqrtPrice == SqrtPriceAtTick(n) {
        CrossingShrinksAhead(w, x, n);
        LoopPays(w1, x, r);
      }
    }
  }

  // ---------------------------------------------------------------------------------------------
  // Runs

  lemma TransactionPays(s: State, t: Transaction, r: Watch)
    requires Inv(s) && Watched(s, r) && Watched(Runs.Step(s, t), r)
    ensures InsideOf(Runs.Step(s, t), r) == InsideOf(s, r) + PaidBy(s, t, r)
  {
    hide Inv, Inside, Execute, Watched;
    WatchedCounter(s, r);
    if t.now >= s.clock {
      ClockKeeps(s, t.now);
      var s0 := s.(clock := t.now);
      var e := Execute(s0, t.action, t.now);
      if e.Some? && !t.action.DoSwap? {
        OthersAreStill(s0, t.action, t.now, e.value);
        StillPays(s0, e.value, r) by {
          assert Watched(s0, r) by { WatchedIgnoresClock(s, t.now, r); }
        }
      } else if e.Some? {
        SwapPays(s0, t, r, e.value) by {
          assert Watched(s0, r) by { WatchedIgnoresClock(s, t.now, r); }
        }
      }
    }
  }

  lemma WatchedCounter(s: State, r: Watch)
    requires Watched(s, r)
    ensures r.k < COUNTERS
  {
  }

  lemma WatchedIgnoresClock(s: State, now: nat, r: Watch)
    requires Watched(s, r)
    ensures Watched(s.(clock := now), r)
  {
  }

  lemma SwapPays(s: State, t: Transaction, r: Watch, s': State)
    requires Inv(s) && s.clock == t.now && Watched(s, r) && t.action.DoSwap?
    requires Execute(s, t.action, t.now) == Some(s')
    ensures AccrueRewards(s.pool, t.now).Some?
    ensures var a := t.action; var s1 := s.(pool := AccrueRewards(s.pool, t.now).value);
            InsideOf(s', r) == InsideOf(s, r) + Paid(s, s1, r)
              + PaidBySwap(SwapState(s1, a.amount, 0), SwapArgs(a.zeroForOne, a.baseInput, EffectiveLimit(a.limit, a.zeroForOne)), r)
  {
    hide AccrueRewards, SwapLoop, Inv, Inside, PaidBySwap, LimitAhead;
    var a := t.action;
    var x := SwapArgs(a.zeroForOne, a.baseInput, EffectiveLimit(a.limit, a.zeroForOne));
    var pool := AccrueRewards(s.pool, t.now).value;
    AccrueRewardsKeeps(s, t.now, pool);
    ValidLimitAhead(pool, x);
    var s1 := s.(pool := pool);
    StillPays(s, s1, r);
    LoopPays(SwapState(s1, a.amount, 0), x, r);
  }

  /** Both ends of the range stay initialised throughout the run. */
  ghost predicate StaysWatched(s: State, ts: seq<Transaction>, r: Watch) {
    forall i :: 0 <= i <= |ts| ==> Watched(Run(s, ts[..i]), r)
  }

  /** Between any two points of a run in which both ends stay initialised, the growth inside a range moves
      by exactly what the eager ledger paid to it, through any sequence of crossings. */
  lemma {:induction false} GrowthInsideIsEager(s: State, ts: seq<Transaction>, r: Watch)
    requires Inv(s) && r.k < COUNTERS && StaysWatched(s, ts, r)
    ensures InsideOf(Run(s, ts), r) == InsideOf(s, r) + PaidByRun(s, ts, r)
  {
    hide Inv, Inside, Watched, PaidBy, Runs.Step;
    if ts != [] {
      var n := |ts| - 1;
      assert ts[..|ts|] == ts;
      assert Watched(Run(s, ts[..n]), r) && Watched(Run(s, ts[..|ts|]), r);
      forall i | 0 <= i <= n ensures Watched(Run(s, ts[..n][..i]), r) {
        assert ts[..n][..i] == ts[..i];
      }
      GrowthInsideIsEager(s, ts[..n], r);
      RunKeeps(s, ts[..n]);
      TransactionPays(Run(s, ts[..n]), ts[n], r);
    }
  }

  /** What the program computes from its wrapping counters when it next visits an untouched position is,
      exactly, what the eager ledger paid since the last visit. */
  lemma PendingIsEager(s: State, ts: seq<Transaction>, p: Position, k: nat)
    requires Reachable(s) && k < COUNTERS && p in s.positions && p in Run(s, ts).positions && p.liquidity > 0
    requires StaysWatched(s, ts, Watch(p.lower, p.upper, k)) && Pending(ViewOf(s.pool, s.ticks, k), p) == 0
    ensures var s' := Run(s, ts); var paid := PaidByRun(s, ts, Watch(p.lower, p.upper, k));
            Pending(ViewOf(s'.pool, s'.ticks, k), p) == paid % U128_MOD
  {
    hide Reachable, Inv, Inside, InsideOf, Run, StaysWatched, Pending, PaidByRun;
    ReachableHolds(s);
    var r := Watch(p.lower, p.upper, k);
    GrowthInsideIsEager(s, ts, r);
    PendingOf(s, p, k);
    PendingOf(Run(s, ts), p, k);
    var before := InsideOf(s, r) - p.last[k];
    ModShift(PaidByRun(s, ts, r), before / U128_MOD);
  }

  lemma PendingOf(s: State, p: Position, k: nat)
    requires k < COUNTERS && p.liquidity > 0
    ensures Pending(ViewOf(s.pool, s.ticks, k), p) == (InsideOf(s, Watch(p.lower, p.upper, k)) - p.last[k]) % U128_MOD
  {
  }
}
