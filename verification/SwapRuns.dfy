/** Whole swaps, across any number of ticks. */
module SwapRuns {
  import opened Wrappers
  import opened FullMath
  import opened LiquidityMath
  import opened TickMath
  import opened SqrtPriceMath
  import opened SwapMath
  import opened SwapStepProofs
  import opened Model
  import opened Curve
  import opened Machine
  import opened Invariants
  import opened SwapInvariant

  lemma KeepsValueTransitive(a: State, b: State, c: State, i: nat)
    requires i < TOKENS && |a.vault| == |b.vault| == |c.vault| == 2
    requires a.pool.sqrtPrice > 0 && b.pool.sqrtPrice > 0 && c.pool.sqrtPrice > 0
    requires KeepsValue(a, b, i) && KeepsValue(b, c, i)
    ensures KeepsValue(a, c, i)
  {
    hide Surplus;
  }

  /** A swap that succeeds keeps every invariant, moves the price one way only and never past the limit,
      and stops at the amount or at the limit. */
  lemma {:induction false} LoopKeeps(w: SwapState, x: SwapArgs)
    requires Inv(w.state) && LimitAhead(w.state.pool, x) && SwapLoop(w, x).Some?
    ensures var w' := SwapLoop(w, x).value; var s, s' := w.state, w'.state;
            && Inv(s') && LimitAhead(s'.pool, x) && Finished(w', x)
            && Advances(s.pool.sqrtPrice, s'.pool.sqrtPrice, x)
            && KeepsValue(s, s', TokenIn(x.zeroForOne))
    decreases |Ahead(w.state.ticks.Keys, w.state.pool.tick, x.zeroForOne)|
  {
    hide SqrtPriceAtTick, SwapStepTo, Inv, KeepsValue;
    RevealInv(w.state);
    if !Finished(w, x) {
      var n := NextTick(w.state.ticks.Keys, w.state.pool.tick, x.zeroForOne).value;
      var w1 := SwapStepTo(w, x, n).value;
      StepKeeps(w, x, n);
      RevealInv(w1.state);
      if w1.state.pool.sqrtPrice == SqrtPriceAtTick(n) {
        CrossingShrinksAhead(w, x, n);
        LoopKeeps(w1, x);
        RevealInv(SwapLoop(w1, x).value.state);
        KeepsValueTransitive(w.state, w1.state, SwapLoop(w1, x).value.state, TokenIn(x.zeroForOne));
      }
    } else {
      KeepsValueReflexive(w.state, TokenIn(x.zeroForOne));
    }
  }

  lemma RevealInv(s: State)
    requires Inv(s)
    ensures |s.vault| == 2 && s.pool.sqrtPrice > 0 && ValidConfig(s.config) && Shape(s)
  {
  }

  lemma KeepsValueReflexive(s: State, i: nat)
    requires i < TOKENS && |s.vault| == 2 && s.pool.sqrtPrice > 0
    ensures KeepsValue(s, s, i)
  {
  }

  /** Termination is not the only use of the measure: a swap takes at most one step for every initialised
      tick ahead, and one more that does not reach its tick. */
  ghost function Steps(w: SwapState, x: SwapArgs): nat
    decreases |Ahead(w.state.ticks.Keys, w.state.pool.tick, x.zeroForOne)|
  {
    var s := w.state;
    if Finished(w, x) then 0
    else
      var n := NextTick(s.ticks.Keys, s.pool.tick, x.zeroForOne);
      if n.None? || !(MIN_TICK <= n.value <= MAX_TICK) || !ValidConfig(s.config) || |s.vault| != 2 then 0
      else
        var w' := SwapStepTo(w, x, n.value);
        if w'.Some? && w'.value.state.pool.sqrtPrice == SqrtPriceAtTick(n.value) then
          CrossingShrinksAhead(w, x, n.value);
          1 + Steps(w'.value, x)
        else 1
  }

  lemma {:induction false} StepsBounded(w: SwapState, x: SwapArgs)
    ensures Steps(w, x) <= |Ahead(w.state.ticks.Keys, w.state.pool.tick, x.zeroForOne)| + 1
    decreases |Ahead(w.state.ticks.Keys, w.state.pool.tick, x.zeroForOne)|
  {
    hide SqrtPriceAtTick, SwapStepTo;
    var s := w.state;
    if !Finished(w, x) {
      var n := NextTick(s.ticks.Keys, s.pool.tick, x.zeroForOne);
      if n.Some? && MIN_TICK <= n.value <= MAX_TICK && ValidConfig(s.config) && |s.vault| == 2 {
        var w' := SwapStepTo(w, x, n.value);
        if w'.Some? && w'.value.state.pool.sqrtPrice == SqrtPriceAtTick(n.value) {
          CrossingShrinksAhead(w, x, n.value);
          StepsBounded(w'.value, x);
        }
      }
    }
  }

  // ---------------------------------------------------------------------------------------------
  // Accounting

  /** The input of all steps without their fees. */
  ghost function Principal(w: SwapState, x: SwapArgs): nat
    decreases |Ahead(w.state.ticks.Keys, w.state.pool.tick, x.zeroForOne)|
  {
    var s := w.state;
    if Finished(w, x) then 0
    else
      var n := NextTick(s.ticks.Keys, s.pool.tick, x.zeroForOne);
      if n.None? || !(MIN_TICK <= n.value <= MAX_TICK) || !ValidConfig(s.config) || |s.vault| != 2 then 0
      else
        var step := ComputeStep(s.pool.sqrtPrice, Target(SqrtPriceAtTick(n.value), x), s.pool.liquidity, w.remaining,
                                s.config.tradeFeeRate, x.baseInput, x.zeroForOne);
        var w' := SwapStepTo(w, x, n.value);
        if w'.None? || step.None? then 0
        else if w'.value.state.pool.sqrtPrice == SqrtPriceAtTick(n.value) then
          CrossingShrinksAhead(w, x, n.value);
          step.value.amountIn + Principal(w'.value, x)
        else step.value.amountIn
  }

  /** What the trader paid in and got out, by the vaults. */
  ghost predicate Accounts(w: SwapState, w': SwapState, x: SwapArgs)
    requires |w.state.vault| == 2 && |w'.state.vault| == 2
  {
    var i := TokenIn(x.zeroForOne);
    var paid := w'.state.vault[i] - w.state.vault[i];
    var received := w.state.vault[1 - i] - w'.state.vault[1 - i];
    && paid == (if x.baseInput then w.remaining - w'.remaining else w'.calculated - w.calculated)
    && received == (if x.baseInput then w'.calculated - w.calculated else w.remaining - w'.remaining)
    && paid >= 0 && received >= 0
  }

  lemma DivideZero(d: nat)
    requires d > 0
    ensures (d - 1) / d == 0
  {
  }

  /** Without liquidity in range nothing is paid, not even a fee: the step goes straight to its target. */
  lemma EmptyRangeIsFree(p: nat, t: nat, remaining: nat, feeRate: nat, baseInput: bool, zeroForOne: bool)
    requires feeRate < FEE_DENOMINATOR
    requires ComputeStep(p, t, 0, remaining, feeRate, baseInput, zeroForOne).Some?
    ensures var s := ComputeStep(p, t, 0, remaining, feeRate, baseInput, zeroForOne).value;
            s.sqrtPriceNext == t && s.amountIn == 0 && s.amountOut == 0 && s.feeAmount == 0
  {
    hide LessFee, DeltaAmount0Unsigned, DeltaAmount1Unsigned;
    DivideZero(FEE_DENOMINATOR - feeRate);
    NoLiquidityNoAmount(p, t, true);
    NoLiquidityNoAmount(p, t, false);
  }

  lemma NoLiquidityNoAmount(a: nat, b: nat, roundUp: bool)
    ensures DeltaAmount0Unsigned(a, b, 0, roundUp).Some? ==> DeltaAmount0Unsigned(a, b, 0, roundUp).value == 0
    ensures DeltaAmount1Unsigned(a, b, 0, roundUp).Some? ==> DeltaAmount1Unsigned(a, b, 0, roundUp).value == 0
    ensures DeltaAmount0Unsigned(b, a, 0, roundUp) == DeltaAmount0Unsigned(a, b, 0, roundUp)
    ensures DeltaAmount1Unsigned(b, a, 0, roundUp) == DeltaAmount1Unsigned(a, b, 0, roundUp)
  {
    DivideZero(Q64);
    if Max(a, b) > 0 {
      DivideZero(Max(a, b));
    }
  }

  lemma StepAccounts(w: SwapState, x: SwapArgs, n: int)
    requires Inv(w.state) && LimitAhead(w.state.pool, x)
    requires IsNextTick(w.state.ticks.Keys, w.state.pool.tick, x.zeroForOne, n)
    requires MIN_TICK <= n <= MAX_TICK && SwapStepTo(w, x, n).Some?
    ensures var s := w.state; var w' := SwapStepTo(w, x, n).value; var i := TokenIn(x.zeroForOne);
            var step := ComputeStep(s.pool.sqrtPrice, Target(SqrtPriceAtTick(n), x), s.pool.liquidity, w.remaining,
                                    s.config.tradeFeeRate, x.baseInput, x.zeroForOne).value;
            && |w'.state.vault| == 2 && Accounts(w, w', x)
            && w'.state.vault[i] - s.vault[i]
               == step.amountIn + (Obligations(w'.state.pool, i) - Obligations(s.pool, i))
  {
    hide SqrtPriceAtTick, CreditFee, Arrive, ComputeStep, CountersInv, LiquidityInv;
    var s := w.state;
    var w' := SwapStepTo(w, x, n).value;
    NextTickIsGap(s, x, n);
    TargetInGap(s.pool, s.ticks, x, n);
    var target := Target(SqrtPriceAtTick(n), x);
    var step := ComputeStep(s.pool.sqrtPrice, target, s.pool.liquidity, w.remaining, s.config.tradeFeeRate, x.baseInput, x.zeroForOne).value;
    StepContract(s.pool.sqrtPrice, target, s.pool.liquidity, w.remaining, s.config.tradeFeeRate, x.baseInput, x.zeroForOne);
    var i := TokenIn(x.zeroForOne);
    var credited := CreditFee(s.pool, s.config, i, step.feeAmount).value;
    CreditFeeEffect(s, i, step.feeAmount, credited);
    ArriveKeeps(s.(pool := credited), x, n, step.sqrtPriceNext, s.(pool := w'.state.pool, ticks := w'.state.ticks));
    if s.pool.liquidity == 0 {
      EmptyRangeIsFree(s.pool.sqrtPrice, target, w.remaining, s.config.tradeFeeRate, x.baseInput, x.zeroForOne);
    }
  }

  /** Nothing is lost between the trader and the pool: what is paid in is the principal of the steps plus
      exactly what the pool newly owes in liquidity, protocol and fund fees. */
  lemma {:induction false} LoopAccounts(w: SwapState, x: SwapArgs)
    requires Inv(w.state) && LimitAhead(w.state.pool, x) && SwapLoop(w, x).Some?
    ensures var w' := SwapLoop(w, x).value; var i := TokenIn(x.zeroForOne);
            && |w'.state.vault| == 2 && Accounts(w, w', x)
            && w'.state.vault[i] - w.state.vault[i]
               == Principal(w, x) + (Obligations(w'.state.pool, i) - Obligations(w.state.pool, i))
    decreases |Ahead(w.state.ticks.Keys, w.state.pool.tick, x.zeroForOne)|
  {
    hide SqrtPriceAtTick, Inv, Obligations, ComputeStep;
    RevealInv(w.state);
    if !Finished(w, x) {
      var n := NextTick(w.state.ticks.Keys, w.state.pool.tick, x.zeroForOne).value;
      var w1 := SwapStepTo(w, x, n).value;
      StepKeeps(w, x, n);
      StepAccounts(w, x, n);
      if w1.state.pool.sqrtPrice == SqrtPriceAtTick(n) {
        CrossingShrinksAhead(w, x, n);
        LoopAccounts(w1, x);
      }
    }
  }
}
