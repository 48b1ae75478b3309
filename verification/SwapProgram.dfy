/** The swap on the accounts (swap.rs): a loop over steps that updates a running state, writes crossed
    ticks back to their arrays, and settles the pool at the end. It refines the reference loop. */
module SwapProgram {
  import opened Wrappers
  import opened FullMath
  import opened LiquidityMath
  import opened TickMath
  import TickPrices
  import opened SwapMath
  import opened SwapStepProofs
  import opened Model
  import opened Ticks
  import opened Machine
  import opened Runs
  import opened Invariants
  import opened SwapInvariant
  import opened SwapRuns
  import RewardRules
  import RewardInvariant
  import InstructionInvariant
  import opened ArrayIndex
  import opened BitmapSearch
  import opened BitmapExtension
  import opened TickArrays
  import opened PoolStates
  import opened TickIndex
  import opened SwapSearch

  function With(s: PerToken, t: nat, x: nat): PerToken
    requires t < 2
  {
    s[t := x]
  }

  /** A pool with the growth given and the fees added. */
  function Credited(pool: Pool, t: nat, growth: nat, fees: nat, protocol: nat, fund: nat): Pool
    requires t < 2
  {
    pool.(feeGrowth := With(pool.feeGrowth, t, growth),
          totalFees := With(pool.totalFees, t, pool.totalFees[t] + fees),
          protocolFees := With(pool.protocolFees, t, pool.protocolFees[t] + protocol),
          fundFees := With(pool.fundFees, t, pool.fundFees[t] + fund))
  }

  /** The reference's fee credit on top of what has been credited so far. */
  lemma CreditOnTop(pool: Pool, c: Config, t: nat, fee: nat, growth: nat, fees: nat, protocol: nat, fund: nat)
    requires t < 2
    ensures var r := CreditFee(Credited(pool, t, growth, fees, protocol, fund), c, t, fee);
            var p, f := Share(fee, c.protocolFeeRate), Share(fee, c.fundFeeRate);
            if p + f > fee then r == None
            else if pool.liquidity == 0 then r == Some(Credited(pool, t, growth, fees, protocol + p, fund + f))
            else
              var more := MulDivFloor128(fee - p - f, Q64, pool.liquidity);
              if more.None? || growth + more.value > U128_MAX then r == None
              else r == Some(Credited(pool, t, growth + more.value, fees + (fee - p - f), protocol + p, fund + f))
  {
    hide MulDivFloor, Share;
    var p, f := Share(fee, c.protocolFeeRate), Share(fee, c.fundFeeRate);
    WithTwice(pool.protocolFees, t, pool.protocolFees[t] + protocol, pool.protocolFees[t] + (protocol + p));
    WithTwice(pool.fundFees, t, pool.fundFees[t] + fund, pool.fundFees[t] + (fund + f));
    if p + f <= fee && pool.liquidity > 0 {
      var more := MulDivFloor128(fee - p - f, Q64, pool.liquidity);
      if more.Some? {
        WithTwice(pool.feeGrowth, t, growth, growth + more.value);
        WithTwice(pool.totalFees, t, pool.totalFees[t] + fees, pool.totalFees[t] + (fees + (fee - p - f)));
      }
    }
  }

  lemma WithTwice(s: PerToken, t: nat, x: nat, y: nat)
    requires t < 2
    ensures With(s, t, x)[t] == x && With(s, t, x)[t := y] == With(s, t, y)
  {
  }

  lemma CreditedTotals(pool: Pool, t: nat, growth: nat, fees: nat, protocol: nat, fund: nat)
    requires t < 2
    ensures var p := Credited(pool, t, growth, fees, protocol, fund);
            && p.totalFees[t] == pool.totalFees[t] + fees
            && p.protocolFees[t] == pool.protocolFees[t] + protocol && p.fundFees[t] == pool.fundFees[t] + fund
  {
  }

  /** Some fee total of token t has grown out of its 64 bits. */
  predicate Outgrown(before: Pool, after: Pool, t: nat)
    requires t < 2
  {
    || after.totalFees[t] > before.totalFees[t] + U64_MAX
    || after.protocolFees[t] > before.protocolFees[t] + U64_MAX
    || after.fundFees[t] > before.fundFees[t] + U64_MAX
  }

  /** The state a swap carries along; fees are those of the input token since the swap began. */
  class RunningSwap {
    var remaining: nat
    var calculated: nat
    var sqrtPrice: nat
    var tick: int
    var feeGrowth: nat
    var feeAmount: nat
    var protocolFee: nat
    var fundFee: nat
    var liquidity: nat

    constructor (pool: Pool, amount: nat, t: nat)
      requires t < 2
      ensures remaining == amount && calculated == 0 && OnPool(pool, t) == pool
      ensures tick == pool.tick && sqrtPrice == pool.sqrtPrice
    {
      remaining, calculated := amount, 0;
      sqrtPrice, tick, liquidity := pool.sqrtPrice, pool.tick, pool.liquidity;
      feeGrowth := pool.feeGrowth[t];
      feeAmount, protocolFee, fundFee := 0, 0, 0;
      new;
      assert With(pool.feeGrowth, t, pool.feeGrowth[t]) == pool.feeGrowth && With(pool.totalFees, t, pool.totalFees[t]) == pool.totalFees
             && With(pool.protocolFees, t, pool.protocolFees[t]) == pool.protocolFees && With(pool.fundFees, t, pool.fundFees[t]) == pool.fundFees;
    }

    /** The pool as it would be if the swap were settled now. */
    function OnPool(pool: Pool, t: nat): Pool
      requires t < 2
      reads this
    {
      Credited(pool.(sqrtPrice := sqrtPrice, tick := tick, liquidity := liquidity), t, feeGrowth, feeAmount, protocolFee, fundFee)
    }

    /** Takes the protocol's and the fund's share off the fee of a step. */
    method TakeShares(c: Config, fee: nat) returns (left: Option<nat>)
      modifies `protocolFee, `fundFee
      ensures var p, f := Share(fee, c.protocolFeeRate), Share(fee, c.fundFeeRate);
              if left.Some? then
                p + f <= fee && left.value == fee - p - f && protocolFee == old(protocolFee) + p && fundFee == old(fundFee) + f
              else p + f > fee || old(protocolFee) + p > U64_MAX || old(fundFee) + f > U64_MAX
      ensures left.Some? ==>
                && IsFloor(protocolFee as int - old(protocolFee), fee * c.protocolFeeRate, 1_000_000)
                && IsFloor(fundFee as int - old(fundFee), fee * c.fundFeeRate, 1_000_000)
                && left.value + (protocolFee - old(protocolFee)) + (fundFee - old(fundFee)) == fee
    {
      hide Share;
      NoShare(fee);
      var rest := fee;
      if c.protocolFeeRate > 0 {
        var delta := Share(fee, c.protocolFeeRate);
        if rest < delta || protocolFee + delta > U64_MAX { return None; }
        rest := rest - delta;
        protocolFee := protocolFee + delta;
      }
      if c.fundFeeRate > 0 {
        var delta := Share(fee, c.fundFeeRate);
        if rest < delta || fundFee + delta > U64_MAX { return None; }
        rest := rest - delta;
        fundFee := fundFee + delta;
      }
      left := Some(rest);
    }

    /** Splits the fee of a step: protocol and fund shares first, the rest to the liquidity in range. */
    method CreditStepFee(c: Config, fee: nat, ghost pool: Pool, ghost t: nat) returns (ok: bool)
      requires t < 2
      modifies `protocolFee, `fundFee, `feeGrowth, `feeAmount
      ensures var credited := CreditFee(old(OnPool(pool, t)), c, t, fee);
              if ok then credited == Some(OnPool(pool, t)) else credited.None? || Outgrown(pool, credited.value, t)
    {
      hide MulDivFloor, Share, Credited, CreditFee;
      ghost var base := pool.(sqrtPrice := sqrtPrice, tick := tick, liquidity := liquidity);
      CreditOnTop(base, c, t, fee, feeGrowth, feeAmount, protocolFee, fundFee);
      ghost var credited := CreditFee(OnPool(pool, t), c, t, fee);
      ghost var p, f := Share(fee, c.protocolFeeRate), Share(fee, c.fundFeeRate);
      var left := TakeShares(c, fee);
      if left.None? {
        if credited.Some? && liquidity > 0 {
          CreditedTotals(base, t, feeGrowth + MulDivFloor128(fee - p - f, Q64, liquidity).value, feeAmount + (fee - p - f),
                         old(protocolFee) + p, old(fundFee) + f);
        } else {
          CreditedTotals(base, t, feeGrowth, feeAmount, old(protocolFee) + p, old(fundFee) + f);
        }
        return false;
      }
      if liquidity > 0 {
        var growth := MulDivFloor128(left.value, Q64, liquidity);
        if growth.None? || feeGrowth + growth.value > U128_MAX { return false; }
        CreditedTotals(base, t, feeGrowth + growth.value, feeAmount + left.value, protocolFee, fundFee);
        if feeAmount + left.value > U64_MAX { return false; }
        feeGrowth := feeGrowth + growth.value;
        feeAmount := feeAmount + left.value;
      }
      ok := true;
    }
  }

  lemma NoShare(fee: nat)
    ensures Share(fee, 0) == 0
  {
  }

  // ---------------------------------------------------------------------------------------------
  // One step

  /** The reference state a running swap stands for. */
  ghost function Ref(run: RunningSwap, s: State, ticks: map<int, Tick>, amount: nat, x: SwapArgs): Machine.SwapState
    requires |s.vault| == 2 && run.remaining <= amount
    reads run
  {
    var t := TokenIn(x.zeroForOne);
    var spent := amount - run.remaining;
    var paid, received := if x.baseInput then spent else run.calculated, if x.baseInput then run.calculated else spent;
    SwapState(s.(pool := run.OnPool(s.pool, t), ticks := ticks, vault := s.vault[t := s.vault[t] + paid][1 - t := s.vault[1 - t] - received]),
              run.remaining, run.calculated)
  }

  /** The array at hand belongs to its place in an index that agrees with the ticks. */
  ghost predicate Indexed(ticks: map<int, Tick>, arrays: map<int, TickArray>, bits: Bitmaps, spacing: nat, current: TickArrayState)
    requires spacing > 0
    reads current, current.ticks
  {
    IndexInv(ticks, Index(arrays, bits), spacing) && AtHand(current, arrays)
  }

  /** Crosses the tick: its outside growth is turned over and written back, its liquidity comes or goes. */
  method CrossTick(run: RunningSwap, pool: PoolState, current: TickArrayState, slot: Slot, zeroForOne: bool,
                   arrays: map<int, TickArray>, ghost ticks: map<int, Tick>, ghost bits: Bitmaps)
    returns (ok: bool, arrays': map<int, TickArray>, ghost ticks': map<int, Tick>)
    requires pool.spacing > 0 && Indexed(ticks, arrays, bits, pool.spacing, current)
    requires slot.tick in ticks && slot == Slot(slot.tick, ticks[slot.tick]) && slot.tick % pool.spacing == 0
    requires ArrayStart(slot.tick, pool.spacing) == current.startTickIndex
    modifies run`liquidity, current.ticks
    ensures current.Valid()
    ensures var t := TokenIn(zeroForOne); var before := old(run.OnPool(pool.Fields(), t));
            var crossed := TickCross(ticks[slot.tick], Growths(before), before);
            var liquidity := AddDelta(before.liquidity, if zeroForOne then -ticks[slot.tick].net else ticks[slot.tick].net);
            && (ok <==> crossed.Some? && liquidity.Some?)
            && (ok ==>
                  && run.liquidity == liquidity.value && ticks' == ticks[slot.tick := crossed.value]
                  && Indexed(ticks', arrays', bits, pool.spacing, current) && arrays'.Keys == arrays.Keys)
  {
    hide ArrayOf, ArrayStart, SlotIndex, IndexInv;
    arrays', ticks' := arrays, ticks;
    var tickState := new TickState(slot);
    var growths := [if zeroForOne then run.feeGrowth else pool.feeGrowth[0], if zeroForOne then pool.feeGrowth[1] else run.feeGrowth,
                    pool.rewardInfos[0].growth, pool.rewardInfos[1].growth, pool.rewardInfos[2].growth];
    ghost var before := run.OnPool(pool.Fields(), TokenIn(zeroForOne));
    assert growths == Growths(before);
    CrossIgnoresTheRest(slot.state, growths, before, pool.Fields());
    var net := tickState.Cross(growths, pool.Fields());
    if net.None? { return false, arrays, ticks; }
    CrossKeepsLiquidity(slot.state, growths, pool.Fields());
    CrossingKeepsIndex(ticks, Index(arrays, bits), pool.spacing, slot.tick, tickState.Contents().state);
    var stored := current.UpdateTickState(slot.tick, pool.spacing, tickState.Contents());
    arrays' := arrays[current.startTickIndex := current.Account()];
    ticks' := ticks[slot.tick := tickState.Contents().state];
    var liquidity := AddDelta(run.liquidity, if zeroForOne then -net.value else net.value);
    if liquidity.None? { return false, arrays, ticks; }
    run.liquidity := liquidity.value;
    ok := true;
  }

  lemma CrossIgnoresTheRest(t: Tick, growths: Counters, p: Pool, q: Pool)
    requires p.rewards == q.rewards
    ensures TickCross(t, growths, p) == TickCross(t, growths, q)
  {
  }

  lemma CrossKeepsLiquidity(t: Tick, growths: Counters, p: Pool)
    requires TickCross(t, growths, p).Some?
    ensures TickCross(t, growths, p).value.gross == t.gross && TickCross(t, growths, p).value.net == t.net
  {
  }

  /** Moves the tick to where the price has got, across the next tick if its price is reached. */
  method ArriveAt(run: RunningSwap, pool: PoolState, current: TickArrayState, slot: Slot, priceNext: nat, priceStart: nat, zeroForOne: bool,
                  arrays: map<int, TickArray>, ghost ticks: map<int, Tick>, ghost bits: Bitmaps)
    returns (ok: bool, arrays': map<int, TickArray>, ghost ticks': map<int, Tick>)
    requires pool.spacing > 0 && Indexed(ticks, arrays, bits, pool.spacing, current)
    requires slot.tick in ticks && slot == Slot(slot.tick, ticks[slot.tick]) && slot.tick % pool.spacing == 0
    requires ArrayStart(slot.tick, pool.spacing) == current.startTickIndex
    modifies run`liquidity, run`tick, current.ticks
    ensures current.Valid()
    ensures var t := TokenIn(zeroForOne); var before := old(run.OnPool(pool.Fields(), t)).(sqrtPrice := priceStart);
            var a := Arrive(before, ticks, slot.tick, priceNext, run.sqrtPrice, zeroForOne);
            && (ok <==> a.Some?)
            && (ok ==>
                  && (run.OnPool(pool.Fields(), t), ticks') == a.value
                  && Indexed(ticks', arrays', bits, pool.spacing, current) && arrays'.Keys == arrays.Keys)
  {
    hide ArrayOf, ArrayStart, SlotIndex, IndexInv, TickCross, SqrtPriceAtTick;
    ok, arrays', ticks' := true, arrays, ticks;
    ghost var t := TokenIn(zeroForOne);
    ghost var before := run.OnPool(pool.Fields(), t).(sqrtPrice := priceStart);
    if run.sqrtPrice == priceNext {
      CrossIgnoresTheRest(ticks[slot.tick], Growths(before), before, run.OnPool(pool.Fields(), t));
      ok, arrays', ticks' := CrossTick(run, pool, current, slot, zeroForOne, arrays, ticks, bits);
      if !ok { return; }
      run.tick := if zeroForOne then slot.tick - 1 else slot.tick;
    } else if run.sqrtPrice != priceStart {
      var tick := TickPrices.GetTickAtSqrtPrice(run.sqrtPrice);
      if tick.None? { return false, arrays, ticks; }
      run.tick := tick.value;
    }
  }

  lemma CreditIgnoresPrice(pool: Pool, c: Config, t: nat, fee: nat, price: nat)
    requires t < 2
    ensures var a, b := CreditFee(pool, c, t, fee), CreditFee(pool.(sqrtPrice := price), c, t, fee);
            (a.Some? <==> b.Some?) && (a.Some? ==> b.value == a.value.(sqrtPrice := price) && a.value.sqrtPrice == pool.sqrtPrice)
  {
    hide MulDivFloor, Share;
  }

  /** The step's amounts, taken off and added up. */
  method ChargeStep(run: RunningSwap, step: SwapStep, baseInput: bool) returns (ok: bool)
    modifies run
    ensures var paid := step.amountIn + step.feeAmount;
            var used, gained := if baseInput then paid else step.amountOut, if baseInput then step.amountOut else paid;
            && (ok <==> used <= old(run.remaining) && old(run.calculated) + gained <= U64_MAX)
            && (ok ==> run.remaining == old(run.remaining) - used && run.calculated == old(run.calculated) + gained)
    ensures run.sqrtPrice == old(run.sqrtPrice) && run.tick == old(run.tick) && run.liquidity == old(run.liquidity)
    ensures run.feeGrowth == old(run.feeGrowth) && run.feeAmount == old(run.feeAmount)
    ensures run.protocolFee == old(run.protocolFee) && run.fundFee == old(run.fundFee)
  {
    if baseInput {
      if step.amountIn + step.feeAmount > run.remaining { return false; }
      if run.calculated + step.amountOut > U64_MAX { return false; }
      run.remaining := run.remaining - (step.amountIn + step.feeAmount);
      run.calculated := run.calculated + step.amountOut;
    } else {
      if step.amountOut > run.remaining { return false; }
      if run.calculated + (step.amountIn + step.feeAmount) > U64_MAX { return false; }
      run.remaining := run.remaining - step.amountOut;
      run.calculated := run.calculated + (step.amountIn + step.feeAmount);
    }
    ok := true;
  }

  /** Next tick and target lie ahead of the price. */
  ghost predicate Facing(tick: int, price: nat, x: SwapArgs, n: int) {
    && MIN_TICK <= n <= MAX_TICK && Beyond(n, tick, x.zeroForOne) && price > 0
    && var priceNext := SqrtPriceAtTick(n); var target := Target(priceNext, x);
       target > 0 && if x.zeroForOne then priceNext <= price && target <= price else price <= priceNext && price <= target
  }

  lemma TargetIs(priceNext: nat, x: SwapArgs)
    ensures Target(priceNext, x)
            == if (x.zeroForOne && priceNext < x.limit) || (!x.zeroForOne && priceNext > x.limit) then x.limit else priceNext
  {
  }

  /** Paying into one vault and out of the other, twice in a row. */
  lemma VaultTwice(v: seq<int>, t: nat, a: int, b: int, c: int, d: int)
    requires |v| == 2 && t < 2
    ensures var w := v[t := v[t] + a][1 - t := v[1 - t] - b];
            w[t := w[t] + c][1 - t := w[1 - t] - d] == v[t := v[t] + (a + c)][1 - t := v[1 - t] - (b + d)]
  {
  }

  lemma ArriveKeepsTotals(pool: Pool, ticks: map<int, Tick>, n: int, priceNext: nat, price: nat, zeroForOne: bool)
    requires Arrive(pool, ticks, n, priceNext, price, zeroForOne).Some?
    ensures var p := Arrive(pool, ticks, n, priceNext, price, zeroForOne).value.0;
            p.totalFees == pool.totalFees && p.protocolFees == pool.protocolFees && p.fundFees == pool.fundFees
  {
    hide TickCross, SqrtPriceAtTick;
  }

  /** The reference step, put together from its parts. */
  lemma StepParts(w: Machine.SwapState, x: SwapArgs, n: int, step: SwapStep)
    requires MIN_TICK <= n <= MAX_TICK && ValidConfig(w.state.config) && |w.state.vault| == 2
    requires var s := w.state;
             ComputeStep(s.pool.sqrtPrice, Target(SqrtPriceAtTick(n), x), s.pool.liquidity, w.remaining,
                         s.config.tradeFeeRate, x.baseInput, x.zeroForOne) == Some(step)
    ensures var s, t := w.state, TokenIn(x.zeroForOne);
            var paid := step.amountIn + step.feeAmount;
            var used, gained := if x.baseInput then paid else step.amountOut, if x.baseInput then step.amountOut else paid;
            var credited := CreditFee(s.pool, s.config, t, step.feeAmount);
            if used > w.remaining || w.calculated + gained > U64_MAX || credited.None? then SwapStepTo(w, x, n).None?
            else
              var arrived := Arrive(credited.value, s.ticks, n, SqrtPriceAtTick(n), step.sqrtPriceNext, x.zeroForOne);
              if arrived.None? then SwapStepTo(w, x, n).None?
              else SwapStepTo(w, x, n)
                   == Some(SwapState(s.(pool := arrived.value.0, ticks := arrived.value.1,
                                        vault := s.vault[t := s.vault[t] + paid][1 - t := s.vault[1 - t] - step.amountOut]),
                                     w.remaining - used, w.calculated + gained))
  {
    hide SqrtPriceAtTick, CreditFee, Arrive, ComputeStep, Target;
  }

  lemma NoStep(w: Machine.SwapState, x: SwapArgs, n: int)
    requires MIN_TICK <= n <= MAX_TICK && ValidConfig(w.state.config) && |w.state.vault| == 2
    requires var s := w.state;
             ComputeStep(s.pool.sqrtPrice, Target(SqrtPriceAtTick(n), x), s.pool.liquidity, w.remaining,
                         s.config.tradeFeeRate, x.baseInput, x.zeroForOne) == None
    ensures SwapStepTo(w, x, n) == None
  {
    hide SqrtPriceAtTick, CreditFee, Arrive, ComputeStep, Target;
  }

  /** The step towards tick n, computed from the running state. None of the program's own sanity checks on
      prices and ticks ever fails. */
  method PlanStep(run: RunningSwap, c: Config, n: int, x: SwapArgs) returns (r: Option<SwapStep>)
    requires ValidConfig(c) && run.remaining <= U64_MAX && Facing(run.tick, run.sqrtPrice, x, n)
    ensures r == ComputeStep(run.sqrtPrice, Target(SqrtPriceAtTick(n), x), run.liquidity, run.remaining,
                             c.tradeFeeRate, x.baseInput, x.zeroForOne)
  {
    hide SqrtPriceAtTick, ComputeStep, InAmount, OutAmount, Target;
    var price := TickPrices.GetSqrtPriceAtTick(n);
    var priceNext := price.value;
    var target := if (x.zeroForOne && priceNext < x.limit) || (!x.zeroForOne && priceNext > x.limit) then x.limit else priceNext;
    TargetIs(priceNext, x);
    if x.zeroForOne {
      if run.tick < n || run.sqrtPrice < priceNext || run.sqrtPrice < target { return None; }
    } else {
      if n <= run.tick || priceNext < run.sqrtPrice || target < run.sqrtPrice { return None; }
    }
    r := ComputeSwapStep(run.sqrtPrice, target, run.liquidity, run.remaining, c.tradeFeeRate, x.baseInput, x.zeroForOne);
    if r.None? { return None; }
    StepContract(run.sqrtPrice, target, run.liquidity, run.remaining, c.tradeFeeRate, x.baseInput, x.zeroForOne);
    if x.zeroForOne {
      if r.value.sqrtPriceNext < target { return None; }
    } else {
      if target < r.value.sqrtPriceNext { return None; }
    }
  }

  /** One step of the loop, from the next tick on. */
  method TakeStep(run: RunningSwap, pool: PoolState, c: Config, current: TickArrayState, slot: Slot, x: SwapArgs, ghost amount: nat,
                  arrays: map<int, TickArray>, ghost s: State, ghost ticks: map<int, Tick>, ghost bits: Bitmaps)
    returns (ok: bool, arrays': map<int, TickArray>, ghost ticks': map<int, Tick>)
    requires pool.spacing > 0 && Indexed(ticks, arrays, bits, pool.spacing, current)
    requires slot.tick in ticks && slot == Slot(slot.tick, ticks[slot.tick]) && slot.tick % pool.spacing == 0
    requires ArrayStart(slot.tick, pool.spacing) == current.startTickIndex
    requires |s.vault| == 2 && s.pool == pool.Fields() && s.config == c && ValidConfig(c) && run.remaining <= amount <= U64_MAX
    requires Facing(run.tick, run.sqrtPrice, x, slot.tick)
    modifies run, current.ticks
    ensures current.Valid()
    ensures var w, n := old(Ref(run, s, ticks, amount, x)), slot.tick;
            if ok then
              && run.remaining <= amount && SwapStepTo(w, x, n) == Some(Ref(run, s, ticks', amount, x))
              && Indexed(ticks', arrays', bits, pool.spacing, current) && arrays'.Keys == arrays.Keys
            else
              || SwapStepTo(w, x, n).None?
              || Outgrown(s.pool, SwapStepTo(w, x, n).value.state.pool, TokenIn(x.zeroForOne))
  {
    hide ArrayOf, ArrayStart, SlotIndex, IndexInv, SqrtPriceAtTick, CreditFee, Arrive, ComputeStep, InAmount, OutAmount, Target, SwapStepTo, Facing;
    arrays', ticks' := arrays, ticks;
    ghost var w := Ref(run, s, ticks, amount, x);
    var priceStart := run.sqrtPrice;
    assert MIN_TICK <= slot.tick <= MAX_TICK by { FacingRange(run.tick, run.sqrtPrice, x, slot.tick); }
    var step := PlanStep(run, c, slot.tick, x);
    if step.None? {
      NoStep(w, x, slot.tick);
      return false, arrays, ticks;
    }
    StepParts(w, x, slot.tick, step.value);
    run.sqrtPrice := step.value.sqrtPriceNext;
    ok := ChargeStep(run, step.value, x.baseInput);
    if !ok { return false, arrays, ticks; }
    ok, arrays', ticks' := SettleStep(run, pool, c, current, slot, priceStart, step.value, x, arrays, s, w.state.pool, ticks, bits);
    ghost var t := TokenIn(x.zeroForOne);
    ghost var spent := amount - w.remaining;
    VaultTwice(s.vault, t, if x.baseInput then spent else w.calculated, if x.baseInput then w.calculated else spent,
               step.value.amountIn + step.value.feeAmount, step.value.amountOut);
  }

  lemma FacingRange(tick: int, price: nat, x: SwapArgs, n: int)
    requires Facing(tick, price, x, n)
    ensures MIN_TICK <= n <= MAX_TICK
  {
  }

  /** The fee of the step, then its arrival. */
  method SettleStep(run: RunningSwap, pool: PoolState, c: Config, current: TickArrayState, slot: Slot, priceStart: nat, step: SwapStep, x: SwapArgs,
                    arrays: map<int, TickArray>, ghost s: State, ghost before: Pool, ghost ticks: map<int, Tick>, ghost bits: Bitmaps)
    returns (ok: bool, arrays': map<int, TickArray>, ghost ticks': map<int, Tick>)
    requires pool.spacing > 0 && Indexed(ticks, arrays, bits, pool.spacing, current)
    requires slot.tick in ticks && slot == Slot(slot.tick, ticks[slot.tick]) && slot.tick % pool.spacing == 0
    requires ArrayStart(slot.tick, pool.spacing) == current.startTickIndex && MIN_TICK <= slot.tick <= MAX_TICK
    requires s.pool == pool.Fields() && before.sqrtPrice == priceStart && run.sqrtPrice == step.sqrtPriceNext
    requires run.OnPool(s.pool, TokenIn(x.zeroForOne)) == before.(sqrtPrice := run.sqrtPrice)
    modifies run, current.ticks
    ensures current.Valid() && run.remaining == old(run.remaining) && run.calculated == old(run.calculated)
    ensures var t := TokenIn(x.zeroForOne);
            var credited := CreditFee(before, c, t, step.feeAmount);
            if credited.None? then !ok
            else
              var arrived := Arrive(credited.value, ticks, slot.tick, SqrtPriceAtTick(slot.tick), step.sqrtPriceNext, x.zeroForOne);
              if ok then
                && arrived.Some? && (run.OnPool(s.pool, t), ticks') == arrived.value
                && Indexed(ticks', arrays', bits, pool.spacing, current) && arrays'.Keys == arrays.Keys
              else arrived.None? || Outgrown(s.pool, arrived.value.0, t)
  {
    hide ArrayOf, ArrayStart, SlotIndex, IndexInv, SqrtPriceAtTick, CreditFee, Arrive;
    arrays', ticks' := arrays, ticks;
    ghost var t := TokenIn(x.zeroForOne);
    var price := TickPrices.GetSqrtPriceAtTick(slot.tick);
    var priceNext := price.value;
    ok := run.CreditStepFee(c, step.feeAmount, s.pool, t);
    CreditIgnoresPrice(before, c, t, step.feeAmount, step.sqrtPriceNext);
    ghost var credited := CreditFee(before, c, t, step.feeAmount);
    if credited.Some? {
      ghost var arrived := Arrive(credited.value, ticks, slot.tick, priceNext, step.sqrtPriceNext, x.zeroForOne);
      if arrived.Some? {
        ArriveKeepsTotals(credited.value, ticks, slot.tick, priceNext, step.sqrtPriceNext, x.zeroForOne);
      }
    }
    if !ok { return false, arrays, ticks; }
    ok, arrays', ticks' := ArriveAt(run, pool, current, slot, priceNext, priceStart, x.zeroForOne, arrays, ticks, bits);
  }

  // ---------------------------------------------------------------------------------------------
  // The loop

  lemma NextTickIs(keys: set<int>, tick: int, zeroForOne: bool, n: int)
    requires IsNextTick(keys, tick, zeroForOne, n)
    ensures NextTick(keys, tick, zeroForOne) == Some(n)
  {
  }

  lemma NoNextTick(keys: set<int>, tick: int, zeroForOne: bool)
    requires forall t :: t in keys ==> !Beyond(t, tick, zeroForOne)
    ensures NextTick(keys, tick, zeroForOne) == None
  {
  }

  /** A step of the running swap is a step of the reference loop. */
  lemma StepUnfolds(w: Machine.SwapState, x: SwapArgs, n: int)
    requires Inv(w.state) && LimitAhead(w.state.pool, x) && !Finished(w, x)
    requires IsNextTick(w.state.ticks.Keys, w.state.pool.tick, x.zeroForOne, n) && MIN_TICK <= n <= MAX_TICK
    ensures |w.state.vault| == 2 && ValidConfig(w.state.config)
    ensures match SwapStepTo(w, x, n)
            case None => SwapLoop(w, x) == None
            case Some(w') =>
              && SwapLoop(w, x) == SwapLoop(w', x) && Inv(w'.state) && LimitAhead(w'.state.pool, x)
              && (Finished(w', x) ||
                  (&& w'.state.ticks.Keys == w.state.ticks.Keys
                   && w'.state.pool.tick == (if x.zeroForOne then n - 1 else n)
                   && |Ahead(w'.state.ticks.Keys, w'.state.pool.tick, x.zeroForOne)|
                      < |Ahead(w.state.ticks.Keys, w.state.pool.tick, x.zeroForOne)|))
  {
    hide SqrtPriceAtTick, SwapStepTo, Inv, KeepsValue;
    RevealInv(w.state);
    NextTickIs(w.state.ticks.Keys, w.state.pool.tick, x.zeroForOne, n);
    if SwapStepTo(w, x, n).Some? {
      StepKeeps(w, x, n);
      if SwapStepTo(w, x, n).value.state.pool.sqrtPrice == SqrtPriceAtTick(n) {
        CrossingShrinksAhead(w, x, n);
      }
    }
  }

  /** Fee totals never shrink in a swap. */
  lemma {:induction false} LoopTotalsGrow(w: Machine.SwapState, x: SwapArgs)
    requires SwapLoop(w, x).Some?
    ensures var t := TokenIn(x.zeroForOne); var p, q := w.state.pool, SwapLoop(w, x).value.state.pool;
            p.totalFees[t] <= q.totalFees[t] && p.protocolFees[t] <= q.protocolFees[t] && p.fundFees[t] <= q.fundFees[t]
    decreases |Ahead(w.state.ticks.Keys, w.state.pool.tick, x.zeroForOne)|
  {
    hide SqrtPriceAtTick, SwapStepTo;
    if !Finished(w, x) {
      var n := NextTick(w.state.ticks.Keys, w.state.pool.tick, x.zeroForOne).value;
      StepTotalsGrow(w, x, n);
      if SwapStepTo(w, x, n).value.state.pool.sqrtPrice == SqrtPriceAtTick(n) {
        CrossingShrinksAhead(w, x, n);
        LoopTotalsGrow(SwapStepTo(w, x, n).value, x);
      }
    }
  }

  lemma StepTotalsGrow(w: Machine.SwapState, x: SwapArgs, n: int)
    requires MIN_TICK <= n <= MAX_TICK && ValidConfig(w.state.config) && |w.state.vault| == 2 && SwapStepTo(w, x, n).Some?
    ensures var t := TokenIn(x.zeroForOne); var p, q := w.state.pool, SwapStepTo(w, x, n).value.state.pool;
            p.totalFees[t] <= q.totalFees[t] && p.protocolFees[t] <= q.protocolFees[t] && p.fundFees[t] <= q.fundFees[t]
  {
    hide SqrtPriceAtTick, ComputeStep, Arrive, Share, MulDivFloor;
    var s := w.state;
    var step := ComputeStep(s.pool.sqrtPrice, Target(SqrtPriceAtTick(n), x), s.pool.liquidity, w.remaining,
                            s.config.tradeFeeRate, x.baseInput, x.zeroForOne).value;
    var credited := CreditFee(s.pool, s.config, TokenIn(x.zeroForOne), step.feeAmount).value;
    ArriveKeepsTotals(credited, s.ticks, n, SqrtPriceAtTick(n), step.sqrtPriceNext, x.zeroForOne);
  }

  /** The accounts supplied hold every marked array from the current tick's own on, in the order of travel. */
  ghost predicate Supplies(queue: seq<int>, arrays: map<int, TickArray>, bits: Bitmaps, own: int, zeroForOne: bool, span: nat) {
    && (forall i :: 0 <= i < |queue| ==> queue[i] in arrays)
    && (forall i, j :: 0 <= i < j < |queue| ==> Past(queue[j], queue[i], zeroForOne))
    && (forall m :: HasArray(bits, m) && (m == own || Past(m, own, zeroForOne)) ==> m * span in queue)
  }

  /** What the loop keeps: the reference loop has still the same outcome ahead. */
  ghost predicate OnTrack(start: Machine.SwapState, w: Machine.SwapState, x: SwapArgs) {
    Inv(w.state) && LimitAhead(w.state.pool, x) && SwapLoop(start, x) == SwapLoop(w, x)
  }

  /** Next tick and target lie ahead in every state that holds. */
  lemma NextTickFaces(w: Machine.SwapState, x: SwapArgs, n: int)
    requires Inv(w.state) && LimitAhead(w.state.pool, x)
    requires IsNextTick(w.state.ticks.Keys, w.state.pool.tick, x.zeroForOne, n)
    ensures Facing(w.state.pool.tick, w.state.pool.sqrtPrice, x, n) && MIN_TICK <= n <= MAX_TICK && n in w.state.ticks
    ensures w.state.pool.spacing > 0 && n % w.state.pool.spacing == 0
  {
    hide SqrtPriceAtTick, LiquidityInv, CountersInv, Solvent;
    NextTickIsGap(w.state, x, n);
    TargetInGap(w.state.pool, w.state.ticks, x, n);
  }

  /** Where the loop stands with its accounts. */
  ghost predicate Prepared(pool: PoolState, ext: TickArrayBitmapExtension?, run: RunningSwap, current: TickArrayState,
                           matched: bool, x: SwapArgs, arrays: map<int, TickArray>, ticks: map<int, Tick>, bits: Bitmaps)
    reads pool, run, current, current.ticks, if ext == null then {} else {ext.positive, ext.negative}
  {
    && pool.spacing > 0 && Shows(bits, pool.tickArrayBitmap, ext) && Indexed(ticks, arrays, bits, pool.spacing, current)
    && (run.remaining != 0 && run.sqrtPrice != x.limit ==>
          var span := TickCount(pool.spacing);
          Positioned(bits, ArrayOf(current.startTickIndex, span), run.tick, matched, x.zeroForOne, span))
  }

  ghost function Rank(run: RunningSwap, ticks: map<int, Tick>, x: SwapArgs): nat
    reads run
  {
    if run.remaining == 0 || run.sqrtPrice == x.limit then 0 else 1 + |Ahead(ticks.Keys, run.tick, x.zeroForOne)|
  }

  lemma NoTickNoSwap(w: Machine.SwapState, x: SwapArgs)
    requires !Finished(w, x) && forall t :: t in w.state.ticks ==> !Beyond(t, w.state.pool.tick, x.zeroForOne)
    ensures SwapLoop(w, x) == None
  {
    NoNextTick(w.state.ticks.Keys, w.state.pool.tick, x.zeroForOne);
  }

  /** A step that fails for the running swap fails for the reference, at the latest when it is settled. */
  lemma OutgrownNeverFits(start: Machine.SwapState, w: Machine.SwapState, x: SwapArgs, n: int, before: Pool)
    requires OnTrack(start, w, x) && !Finished(w, x)
    requires IsNextTick(w.state.ticks.Keys, w.state.pool.tick, x.zeroForOne, n) && MIN_TICK <= n <= MAX_TICK
    requires |w.state.vault| == 2 && ValidConfig(w.state.config)
    requires SwapStepTo(w, x, n).None? || Outgrown(before, SwapStepTo(w, x, n).value.state.pool, TokenIn(x.zeroForOne))
    ensures SwapLoop(start, x).None? || !TotalsFit(SwapLoop(start, x).value.state.pool, TokenIn(x.zeroForOne))
  {
    hide Inv, LimitAhead, SwapStepTo, SwapLoop, IsNextTick;
    StepUnfolds(w, x, n);
    if SwapLoop(start, x).Some? {
      LoopTotalsGrow(SwapStepTo(w, x, n).value, x);
    }
  }

  lemma StartOfMarked(ticks: map<int, Tick>, x: Index, spacing: nat, start: int)
    requires spacing > 0 && IndexInv(ticks, x, spacing) && start in x.arrays
    ensures start == ArrayOf(start, TickCount(spacing)) * TickCount(spacing)
  {
    hide ArrayOf, Placed, Represents, BitsRight, CountsRight;
    assert x.arrays[start].start == start;
  }

  /** After a crossing the array at hand is still the right one. */
  lemma StillPositioned(bits: Bitmaps, span: nat, n: int, tick: int, zeroForOne: bool)
    requires span > 0 && HasArray(bits, ArrayOf(n, span)) && tick == (if zeroForOne then n - 1 else n)
    ensures Positioned(bits, ArrayOf(n, span), tick, true, zeroForOne, span)
  {
    hide ArrayOf, HasArray;
    var c := ArrayOf(n, span);
    ArrayBounds(n, span);
    if zeroForOne && n > c * span {
      ArrayInside(n - 1, c, span);
    }
  }

  lemma SuppliedSameKeys(rest: seq<int>, arrays: map<int, TickArray>, arrays': map<int, TickArray>, bits: Bitmaps, c: int, zeroForOne: bool, span: nat)
    requires arrays'.Keys == arrays.Keys && Supplied(rest, arrays, bits, c, zeroForOne, span)
    ensures Supplied(rest, arrays', bits, c, zeroForOne, span)
  {
    hide HasArray;
    assert forall k :: k in arrays <==> k in arrays';
  }

  /** One round of the loop: the search, then the step. */
  method Round(run: RunningSwap, pool: PoolState, ext: TickArrayBitmapExtension?, c: Config, current: TickArrayState, matched: bool,
               rest: seq<int>, x: SwapArgs, ghost amount: nat, arrays: map<int, TickArray>,
               ghost s: State, ghost start: Machine.SwapState, ghost ticks: map<int, Tick>, ghost bits: Bitmaps)
    returns (ok: bool, current': TickArrayState, rest': seq<int>, arrays': map<int, TickArray>, ghost ticks': map<int, Tick>)
    requires Prepared(pool, ext, run, current, matched, x, arrays, ticks, bits)
    requires run.remaining != 0 && run.sqrtPrice != x.limit
    requires |s.vault| == 2 && s.pool == pool.Fields() && s.config == c && ValidConfig(c) && run.remaining <= amount <= U64_MAX
    requires OnTrack(start, Ref(run, s, ticks, amount, x), x)
    modifies run, current.ticks
    ensures current' == current || (fresh(current') && fresh(current'.ticks))
    ensures ok ==>
              && Prepared(pool, ext, run, current', true, x, arrays', ticks', bits)
              && run.remaining <= amount && OnTrack(start, Ref(run, s, ticks', amount, x), x)
              && Rank(run, ticks', x) < old(Rank(run, ticks, x))
              && arrays'.Keys == arrays.Keys
    ensures ok ==>
              var span := TickCount(pool.spacing);
              Supplied(rest, arrays, bits, ArrayOf(current.startTickIndex, span), x.zeroForOne, span) ==>
                Supplied(rest', arrays', bits, ArrayOf(current'.startTickIndex, span), x.zeroForOne, span)
    ensures !ok ==>
              var span := TickCount(pool.spacing);
              || ext == null || !Supplied(rest, arrays, bits, ArrayOf(current.startTickIndex, span), x.zeroForOne, span)
              || SwapLoop(start, x).None? || !TotalsFit(SwapLoop(start, x).value.state.pool, TokenIn(x.zeroForOne))
  {
    hide ArrayOf, ArrayStart, HasArray, Shows, Inv, IndexInv, SwapLoop, SwapStepTo, LimitAhead, Facing, Supplied, Ahead, IsNextTick;
    arrays', ticks' := arrays, ticks;
    ghost var w := Ref(run, s, ticks, amount, x);
    var slot;
    slot, current', rest' := FindNextTick(pool, ext, current, matched, rest, run.tick, x.zeroForOne, arrays, ticks, bits);
    if slot.None? {
      if forall t :: t in ticks ==> !Beyond(t, run.tick, x.zeroForOne) {
        NoTickNoSwap(w, x);
      }
      return false, current', rest', arrays, ticks;
    }
    ghost var n := slot.value.tick;
    NextTickFaces(w, x, n);
    StepUnfolds(w, x, n);
    ArrayStartIsFloor(n, pool.spacing);
    assert ArrayStart(n, pool.spacing) == current'.startTickIndex by {
      StartOfMarked(ticks, Index(arrays, bits), pool.spacing, current'.startTickIndex);
    }
    ok, arrays', ticks' := TakeStep(run, pool, c, current', slot.value, x, amount, arrays, s, ticks, bits);
    if !ok {
      OutgrownNeverFits(start, w, x, n, s.pool);
      return false, current', rest', arrays, ticks;
    }
    ghost var span := TickCount(pool.spacing);
    if run.remaining != 0 && run.sqrtPrice != x.limit {
      StillPositioned(bits, span, n, run.tick, x.zeroForOne);
    }
    if Supplied(rest', arrays, bits, ArrayOf(current'.startTickIndex, span), x.zeroForOne, span) {
      SuppliedSameKeys(rest', arrays, arrays', bits, ArrayOf(current'.startTickIndex, span), x.zeroForOne, span);
    }
  }

  // ---------------------------------------------------------------------------------------------
  // The whole swap

  /** Takes arrays from the accounts supplied until the one the swap starts in is at hand. */
  method FirstArray(pool: PoolState, ext: TickArrayBitmapExtension?, queue: seq<int>, zeroForOne: bool,
                    arrays: map<int, TickArray>, ghost ticks: map<int, Tick>, ghost bits: Bitmaps)
    returns (current: TickArrayState?, matched: bool, rest: seq<int>)
    requires pool.spacing > 0 && Shows(bits, pool.tickArrayBitmap, ext) && IndexInv(ticks, Index(arrays, bits), pool.spacing)
    requires MIN_TICK <= pool.tickCurrent <= MAX_TICK
    ensures current != null ==>
              var span := TickCount(pool.spacing); var c := ArrayOf(current.startTickIndex, span);
              && fresh(current) && fresh(current.ticks) && AtHand(current, arrays)
              && Positioned(bits, c, pool.tickCurrent, matched, zeroForOne, span)
              && (Supplies(queue, arrays, bits, ArrayOf(pool.tickCurrent, span), zeroForOne, span) ==>
                    Supplied(rest, arrays, bits, c, zeroForOne, span))
    ensures current == null ==>
              var span := TickCount(pool.spacing);
              || ext == null || !Supplies(queue, arrays, bits, ArrayOf(pool.tickCurrent, span), zeroForOne, span)
              || forall t :: t in ticks ==> !Beyond(t, pool.tickCurrent, zeroForOne)
  {
    hide ArrayOf, ArrayStart, HasArray, Shows, Represents, BitsRight, CountsRight, Placed, OnlyValid;
    current, matched, rest := null, false, queue;
    ghost var x := Index(arrays, bits);
    ghost var span := TickCount(pool.spacing);
    ghost var own := ArrayOf(pool.tickCurrent, span);
    MarksAreValid(ticks, x, pool.spacing);
    var first := pool.GetFirstInitializedTickArray(ext, zeroForOne, bits);
    if first.None? {
      if ext != null {
        NothingMarkedAhead(ticks, x, pool.spacing, pool.tickCurrent, zeroForOne);
      }
      return;
    }
    matched := first.value.0;
    ghost var c := ArrayOf(first.value.1, span);
    ArrayOfStart(own, span);
    MarkedArray(ticks, x, pool.spacing, c);
    if queue == [] { return; }
    if queue[0] !in arrays { return; }
    assert arrays[queue[0]].start == queue[0] && Placed(arrays[queue[0]], pool.spacing) by { PlacedAt(ticks, x, pool.spacing, queue[0]); }
    var head := LoadArray(arrays[queue[0]], pool.spacing);
    ghost var taken;
    current, rest, taken := PopUntil(head, queue[1..], arrays, first.value.1, pool.spacing);
    if current != null && Supplies(queue, arrays, bits, own, zeroForOne, span) {
      assert queue[taken] == c * span;
      SuppliesAfter(queue, arrays, bits, own, c, zeroForOne, span, taken);
      assert rest == queue[taken + 1..];
    }
  }

  method LoadArray(t: TickArray, ghost spacing: nat) returns (r: TickArrayState)
    requires spacing > 0 && Placed(t, spacing)
    ensures fresh(r) && fresh(r.ticks) && r.Valid() && r.Account() == t
  {
    r := new TickArrayState(t);
  }

  lemma PlacedAt(ticks: map<int, Tick>, x: Index, spacing: nat, start: int)
    requires spacing > 0 && IndexInv(ticks, x, spacing) && start in x.arrays
    ensures x.arrays[start].start == start && Placed(x.arrays[start], spacing)
  {
    hide Placed, Represents, BitsRight, CountsRight;
  }

  lemma NothingMarkedAhead(ticks: map<int, Tick>, x: Index, spacing: nat, tick: int, zeroForOne: bool)
    requires spacing > 0 && IndexInv(ticks, x, spacing)
    requires var own := ArrayOf(tick, TickCount(spacing)); !HasArray(x.bits, own) && NonePast(x.bits, own, zeroForOne)
    ensures forall t :: t in ticks ==> !Beyond(t, tick, zeroForOne)
  {
    hide ArrayOf, HasArray, Represents, BitsRight, CountsRight, Placed, ArrayStart, SlotIndex;
    var span := TickCount(spacing);
    forall t | t in ticks ensures !Beyond(t, tick, zeroForOne) {
      TickIsSlot(ticks, x, spacing, t);
      if Beyond(t, tick, zeroForOne) {
        if zeroForOne { ArrayMonotone(t, tick, span); } else { ArrayMonotone(tick, t, span); }
      }
    }
  }

  lemma SuppliesAfter(queue: seq<int>, arrays: map<int, TickArray>, bits: Bitmaps, own: int, c: int, zeroForOne: bool, span: nat, k: nat)
    requires span > 0 && Supplies(queue, arrays, bits, own, zeroForOne, span) && k < |queue| && queue[k] == c * span
    requires c == own || Past(c, own, zeroForOne)
    ensures Supplied(queue[k + 1..], arrays, bits, c, zeroForOne, span)
  {
    hide HasArray;
    forall m | HasArray(bits, m) && Past(m, c, zeroForOne) ensures m * span in queue[k + 1..] {
      MultipleOrder(m, c, span);
      var i :| 0 <= i < |queue| && queue[i] == m * span;
      assert i > k;
      assert queue[k + 1..][i - k - 1] == m * span;
    }
  }

  /** The reference swap before it is finished. */
  ghost function Outcome(s: State, amount: nat, x: SwapArgs, now: nat): Option<Machine.SwapState> {
    var pool :- RewardRules.AccrueRewards(s.pool, now);
    SwapLoop(SwapState(s.(pool := pool), amount, 0), x)
  }

  /** What the loop leaves behind for the reference to compare with. */
  ghost predicate Matches(w: Machine.SwapState, pool: PoolState, ticks: map<int, Tick>, arrays: map<int, TickArray>, bits: Bitmaps,
                          s: State, amount: nat, x: SwapArgs, amounts: (nat, nat))
    requires |s.vault| == 2
    reads pool
  {
    var t := TokenIn(x.zeroForOne);
    var spent := amount - w.remaining;
    var paid, received := if x.baseInput then spent else w.calculated, if x.baseInput then w.calculated else spent;
    && pool.spacing > 0 && IndexInv(ticks, Index(arrays, bits), pool.spacing)
    && w.remaining <= amount && TotalsFit(w.state.pool, t)
    && w.state == s.(pool := pool.Fields(), ticks := ticks, vault := s.vault[t := s.vault[t] + paid][1 - t := s.vault[1 - t] - received])
    && amounts == (if x.zeroForOne then (paid, received) else (received, paid))
  }

  /** Round after round, until the amount is used up or the price limit is reached. */
  method RunLoop(run: RunningSwap, pool: PoolState, ext: TickArrayBitmapExtension?, c: Config, first: TickArrayState, atOwn: bool,
                 queue: seq<int>, x: SwapArgs, ghost amount: nat, arrays: map<int, TickArray>,
                 ghost s: State, ghost start: Machine.SwapState, ghost ticks: map<int, Tick>, ghost bits: Bitmaps)
    returns (ok: bool, arrays': map<int, TickArray>, ghost ticks': map<int, Tick>)
    requires Prepared(pool, ext, run, first, atOwn, x, arrays, ticks, bits)
    requires |s.vault| == 2 && s.pool == pool.Fields() && s.config == c && ValidConfig(c) && run.remaining <= amount <= U64_MAX
    requires OnTrack(start, Ref(run, s, ticks, amount, x), x)
    modifies run, first.ticks
    ensures ok ==>
              && IndexInv(ticks', Index(arrays', bits), pool.spacing) && arrays'.Keys == arrays.Keys
              && run.remaining <= amount && OnTrack(start, Ref(run, s, ticks', amount, x), x)
              && (run.remaining == 0 || run.sqrtPrice == x.limit)
    ensures !ok ==>
              var span := TickCount(pool.spacing);
              || ext == null || !Supplied(queue, arrays, bits, ArrayOf(first.startTickIndex, span), x.zeroForOne, span)
              || SwapLoop(start, x).None? || !TotalsFit(SwapLoop(start, x).value.state.pool, TokenIn(x.zeroForOne))
  {
    hide ArrayOf, Shows, OnTrack, IndexInv, SwapLoop, Supplied, Positioned, AtHand, Rank;
    arrays', ticks' := arrays, ticks;
    var current, matched, rest := first, atOwn, queue;
    ghost var span := TickCount(pool.spacing);
    ghost var supplied := Supplied(queue, arrays, bits, ArrayOf(first.startTickIndex, span), x.zeroForOne, span);
    while run.remaining != 0 && run.sqrtPrice != x.limit
      invariant current == first || (fresh(current) && fresh(current.ticks))
      invariant run.remaining <= amount
      invariant Prepared(pool, ext, run, current, matched, x, arrays', ticks', bits)
      invariant OnTrack(start, Ref(run, s, ticks', amount, x), x) && arrays'.Keys == arrays.Keys
      invariant supplied ==> Supplied(rest, arrays', bits, ArrayOf(current.startTickIndex, span), x.zeroForOne, span)
      decreases Rank(run, ticks', x)
    {
      ok, current, rest, arrays', ticks' := Round(run, pool, ext, c, current, matched, rest, x, amount, arrays', s, start, ticks', bits);
      if !ok { return false, arrays, ticks; }
      matched := true;
    }
    ok := true;
  }

  /** The swap once the rewards are up to date. */
  method SwapAccrued(pool: PoolState, ext: TickArrayBitmapExtension?, c: Config, queue: seq<int>, amount: nat, x: SwapArgs,
                     arrays: map<int, TickArray>, ghost s: State, ghost bits: Bitmaps)
    returns (r: Option<(nat, nat)>, arrays': map<int, TickArray>, ghost ticks': map<int, Tick>)
    requires Inv(s) && LimitAhead(s.pool, x) && |s.vault| == 2 && s.pool == pool.Fields() && s.config == c && ValidConfig(c) && amount <= U64_MAX
    requires pool.spacing > 0 && Shows(bits, pool.tickArrayBitmap, ext) && IndexInv(s.ticks, Index(arrays, bits), pool.spacing)
    requires MIN_TICK <= pool.tickCurrent <= MAX_TICK && amount > 0 && s.pool.sqrtPrice != x.limit
    modifies pool
    ensures pool.tickArrayBitmap == old(pool.tickArrayBitmap)
    ensures var w := SwapLoop(SwapState(s, amount, 0), x);
            if r.Some? then
              arrays'.Keys == arrays.Keys && w.Some? && Matches(w.value, pool, ticks', arrays', bits, s, amount, x, r.value)
            else
              || ext == null || !Supplies(queue, arrays, bits, ArrayOf(s.pool.tick, TickCount(pool.spacing)), x.zeroForOne, TickCount(pool.spacing))
              || w.None? || !TotalsFit(w.value.state.pool, TokenIn(x.zeroForOne))
  {
    hide ArrayOf, Shows, Inv, IndexInv, SwapLoop, Supplied, Supplies, Positioned, Ahead, LimitAhead, AtHand, Credited;
    arrays', ticks' := arrays, s.ticks;
    var t := TokenIn(x.zeroForOne);
    var run := new RunningSwap(pool.Fields(), amount, t);
    ghost var start := SwapState(s, amount, 0);
    StartsAtRef(run, s, amount, x);
    var first, matched, rest := FirstArray(pool, ext, queue, x.zeroForOne, arrays, s.ticks, bits);
    if first == null {
      if forall i :: i in s.ticks ==> !Beyond(i, pool.tickCurrent, x.zeroForOne) {
        NoTickNoSwap(start, x);
      }
      return None, arrays, s.ticks;
    }
    var ok;
    ok, arrays', ticks' := RunLoop(run, pool, ext, c, first, matched, rest, x, amount, arrays, s, start, s.ticks, bits);
    if !ok { return None, arrays, s.ticks; }
    StopsAtRef(run, s, ticks', amount, x);
    var settled := SettlePool(run, pool, t);
    if !settled { return None, arrays, s.ticks; }
    r := Some(if x.zeroForOne == x.baseInput then (amount - run.remaining, run.calculated) else (run.calculated, amount - run.remaining));
  }

  /** Swaps on the accounts: the outcome is that of the reference swap. It fails only where the reference
      does, or for want of accounts. */
  method SwapInternal(pool: PoolState, ext: TickArrayBitmapExtension?, c: Config, queue: seq<int>, amount: nat, x: SwapArgs, now: nat,
                      arrays: map<int, TickArray>, ghost s: State, ghost bits: Bitmaps)
    returns (r: Option<(nat, nat)>, arrays': map<int, TickArray>, ghost ticks': map<int, Tick>)
    requires Inv(s) && s.clock == now && s.pool == pool.Fields() && s.config == c && amount <= U64_MAX
    requires pool.spacing > 0 && Shows(bits, pool.tickArrayBitmap, ext) && IndexInv(s.ticks, Index(arrays, bits), pool.spacing)
    modifies pool
    ensures pool.tickArrayBitmap == old(pool.tickArrayBitmap)
    ensures |s.vault| == 2
    ensures r.Some? ==>
              && amount != 0 && s.pool.status.swap && ValidLimit(x.limit, s.pool.sqrtPrice, x.zeroForOne)
              && arrays'.Keys == arrays.Keys
              && var w := Outcome(s, amount, x, now); w.Some? && Matches(w.value, pool, ticks', arrays', bits, s, amount, x, r.value)
    ensures r.None? ==>
              || amount == 0 || !s.pool.status.swap || !ValidLimit(x.limit, s.pool.sqrtPrice, x.zeroForOne)
              || ext == null || !Supplies(queue, arrays, bits, ArrayOf(s.pool.tick, TickCount(pool.spacing)), x.zeroForOne, TickCount(pool.spacing))
              || var w := Outcome(s, amount, x, now); w.None? || !TotalsFit(w.value.state.pool, TokenIn(x.zeroForOne))
  {
    hide ArrayOf, Shows, Inv, IndexInv, SwapLoop, Supplied, Supplies, Positioned, Ahead, LimitAhead, RewardRules.AccrueRewards, AtHand;
    RevealInv(s);
    arrays', ticks' := arrays, s.ticks;
    if amount == 0 { return None, arrays, s.ticks; }
    if !pool.status.swap { return None, arrays, s.ticks; }
    if !(if x.zeroForOne then x.limit < pool.sqrtPrice && x.limit > MIN_SQRT_PRICE
         else x.limit > pool.sqrtPrice && x.limit < MAX_SQRT_PRICE) { return None, arrays, s.ticks; }
    var accrued := pool.UpdateRewardInfos(now);
    if !accrued { return None, arrays, s.ticks; }
    ghost var s1 := s.(pool := pool.Fields());
    AccruedOnTrack(s, now, pool.Fields(), x);
    r, arrays', ticks' := SwapAccrued(pool, ext, c, queue, amount, x, arrays, s1, bits);
  }

  /** Writes the running state back to the pool. A fee of zero adds nothing and cannot fail. */
  method SettlePool(run: RunningSwap, pool: PoolState, t: nat) returns (ok: bool)
    requires t < 2
    modifies pool
    ensures pool.tickArrayBitmap == old(pool.tickArrayBitmap)
    ensures ok <==> TotalsFit(run.OnPool(old(pool.Fields()), t), t)
    ensures ok ==> pool.Fields() == run.OnPool(old(pool.Fields()), t)
  {
    hide With;
    var total, protocol, fund := pool.totalFees[t] + run.feeAmount, pool.protocolFees[t] + run.protocolFee, pool.fundFees[t] + run.fundFee;
    CreditedTotals(pool.Fields(), t, run.feeGrowth, run.feeAmount, run.protocolFee, run.fundFee);
    CreditedTotals(pool.Fields().(sqrtPrice := run.sqrtPrice, tick := run.tick, liquidity := run.liquidity),
                   t, run.feeGrowth, run.feeAmount, run.protocolFee, run.fundFee);
    if total > U64_MAX || protocol > U64_MAX || fund > U64_MAX { return false; }
    pool.tickCurrent := run.tick;
    pool.sqrtPrice := run.sqrtPrice;
    pool.liquidity := run.liquidity;
    pool.feeGrowth := With(pool.feeGrowth, t, run.feeGrowth);
    pool.totalFees := With(pool.totalFees, t, total);
    pool.protocolFees := With(pool.protocolFees, t, protocol);
    pool.fundFees := With(pool.fundFees, t, fund);
    ok := true;
  }

  lemma AccruedOnTrack(s: State, now: nat, pool: Pool, x: SwapArgs)
    requires Inv(s) && s.clock == now && RewardRules.AccrueRewards(s.pool, now) == Some(pool)
    requires ValidLimit(x.limit, s.pool.sqrtPrice, x.zeroForOne)
    ensures Inv(s.(pool := pool)) && LimitAhead(pool, x)
    ensures pool.tick == s.pool.tick && MIN_TICK <= pool.tick <= MAX_TICK
    ensures pool == s.pool.(rewards := pool.rewards) && pool.sqrtPrice != x.limit
  {
    hide Inv, RewardRules.AccrueRewards;
    RewardInvariant.AccrueRewardsKeeps(s, now, pool);
    InstructionInvariant.ValidLimitAhead(s.pool, x);
    TickInRange(s);
  }

  lemma TickInRange(s: State)
    requires Inv(s)
    ensures MIN_TICK <= s.pool.tick < MAX_TICK
  {
  }

  lemma StartsAtRef(run: RunningSwap, s: State, amount: nat, x: SwapArgs)
    requires |s.vault| == 2 && run.remaining == amount && run.calculated == 0
    requires run.OnPool(s.pool, TokenIn(x.zeroForOne)) == s.pool
    ensures Ref(run, s, s.ticks, amount, x) == SwapState(s, amount, 0)
  {
    var t := TokenIn(x.zeroForOne);
    assert s.vault[t := s.vault[t] + 0][1 - t := s.vault[1 - t] - 0] == s.vault;
  }

  lemma StopsAtRef(run: RunningSwap, s: State, ticks: map<int, Tick>, amount: nat, x: SwapArgs)
    requires |s.vault| == 2 && run.remaining <= amount && (run.remaining == 0 || run.sqrtPrice == x.limit)
    ensures var w := Ref(run, s, ticks, amount, x); SwapLoop(w, x) == Some(w)
  {
  }
}
