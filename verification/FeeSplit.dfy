/** Where the fee of a swap goes: protocol, fund and liquidity in range, step by step and over the whole
    swap (swap.rs). */
module FeeSplit {
  import opened Wrappers
  import opened FullMath
  import opened LiquidityMath
  import opened TickMath
  import opened SwapMath
  import opened SwapStepProofs
  import opened Model
  import opened Ticks
  import opened Curve
  import opened Machine
  import opened Invariants
  import opened SwapInvariant
  import opened SwapRuns

  function Rise(before: int, after: int): int {
    after - before
  }

  /** A fee of token t is split: protocol and fund get their rates' shares, rounded down; the liquidity in
      range gets the exact remainder, and its growth per unit rises by it, rounded down. Without liquidity
      nobody gets the remainder. Nothing of the other token moves. */
  ghost predicate Splits(before: Pool, after: Pool, c: Config, t: nat, fee: int)
    requires t < TOKENS
  {
    var protocol, fund := Rise(before.protocolFees[t], after.protocolFees[t]), Rise(before.fundFees[t], after.fundFees[t]);
    var left := fee - protocol - fund;
    var growth, total := Rise(before.feeGrowth[t], after.feeGrowth[t]), Rise(before.totalFees[t], after.totalFees[t]);
    && IsFloor(protocol, fee * c.protocolFeeRate, 1_000_000) && IsFloor(fund, fee * c.fundFeeRate, 1_000_000)
    && left >= 0
    && (if before.liquidity == 0 then growth == 0 && total == 0
        else total == left && IsFloor(growth, left * Q64, before.liquidity))
    && SameToken(before, after, 1 - t)
  }

  ghost predicate SameToken(before: Pool, after: Pool, t: nat)
    requires t < TOKENS
  {
    && after.protocolFees[t] == before.protocolFees[t] && after.fundFees[t] == before.fundFees[t]
    && after.feeGrowth[t] == before.feeGrowth[t] && after.totalFees[t] == before.totalFees[t]
  }

  lemma CreditSplits(pool: Pool, c: Config, t: nat, fee: nat)
    requires t < TOKENS
    ensures var r := CreditFee(pool, c, t, fee);
            r.Some? ==>
              && Splits(pool, r.value, c, t, fee)
              && r.value == pool.(protocolFees := r.value.protocolFees, fundFees := r.value.fundFees,
                                  feeGrowth := r.value.feeGrowth, totalFees := r.value.totalFees)
  {
  }

  /** The two shares never exceed the fee, and a credit aborts only if the growth leaves its 128 bits. */
  lemma CreditFails(pool: Pool, c: Config, t: nat, fee: nat)
    requires t < TOKENS && ValidConfig(c) && fee <= U64_MAX
    ensures var left := fee - Share(fee, c.protocolFeeRate) - Share(fee, c.fundFeeRate);
            && left >= 0
            && (CreditFee(pool, c, t, fee).None? <==>
                  pool.liquidity > 0 && (U128_MAX + 1 - pool.feeGrowth[t]) * pool.liquidity <= left * Q64)
  {
    hide Share, MulDivFloor;
    var a, b := Share(fee, c.protocolFeeRate), Share(fee, c.fundFeeRate);
    SharesFit(fee, c.protocolFeeRate, c.fundFeeRate, a, b);
    var left := fee - a - b;
    if pool.liquidity > 0 {
      ProductBound(left, Q64, U64_MAX, Q64);
      MulDivFloorFails(left, Q64, pool.liquidity, U256_MAX, U128_MAX);
      assert (U128_MAX + 1 - pool.feeGrowth[t]) * pool.liquidity == (U128_MAX + 1) * pool.liquidity - pool.feeGrowth[t] * pool.liquidity;
      var growth := MulDivFloor128(left, Q64, pool.liquidity);
      if growth.Some? {
        FloorIsGreatest(growth.value, left * Q64, pool.liquidity, U128_MAX + 1 - pool.feeGrowth[t]);
      }
    }
  }

  lemma SharesFit(fee: nat, x: nat, y: nat, a: nat, b: nat)
    requires x + y <= FEE_DENOMINATOR && IsFloor(a, fee * x, FEE_DENOMINATOR) && IsFloor(b, fee * y, FEE_DENOMINATOR)
    ensures a + b <= fee
  {
    assert fee * x + fee * y == fee * (x + y);
    ProductBound(fee, x + y, fee, FEE_DENOMINATOR);
  }

  // ---------------------------------------------------------------------------------------------
  // One step

  /** The fee of a step: what the vault takes in beyond the cost of the price move. */
  ghost function FeeOf(s: State, s': State, x: SwapArgs): int
    requires |s.vault| == 2 && |s'.vault| == 2
  {
    var t := TokenIn(x.zeroForOne);
    var cost := InAmount(s.pool.sqrtPrice, s'.pool.sqrtPrice, s.pool.liquidity, x.zeroForOne);
    s'.vault[t] - s.vault[t] - (if cost.Some? then cost.value else 0)
  }

  /** The target of a step towards tick n: the tick's price, or the limit if that comes first. */
  ghost predicate IsTarget(price: nat, priceNext: nat, target: nat, x: SwapArgs) {
    && (target == priceNext || target == x.limit)
    && (if x.zeroForOne then priceNext <= target && x.limit <= target else target <= priceNext && target <= x.limit)
  }

  /** One step of a swap by what it does to price, vaults and fees. The price moves towards the target and
      misses it only if the amount does not reach that far, and then by less than one unit of price. The
      input is the cost of the move and its fee, the output what the move yields. The fee is split. */
  ghost predicate StepMeans(w: SwapState, w': SwapState, x: SwapArgs, target: nat)
    requires |w.state.vault| == 2 && |w'.state.vault| == 2 && w.state.config.tradeFeeRate < FEE_DENOMINATOR
  {
    var s, s', t, rate := w.state, w'.state, TokenIn(x.zeroForOne), w.state.config.tradeFeeRate;
    var p, n, liquidity := s.pool.sqrtPrice, s'.pool.sqrtPrice, s.pool.liquidity;
    var paid, received := s'.vault[t] - s.vault[t], s.vault[1 - t] - s'.vault[1 - t];
    var cost, out, fee := InAmount(p, n, liquidity, x.zeroForOne), OutAmount(p, n, liquidity, x.zeroForOne), FeeOf(s, s', x);
    && (if x.zeroForOne then target <= n <= p else p <= n <= target)
    && cost.Some? && out.Some? && fee >= 0
    && w.remaining - w'.remaining == (if x.baseInput then paid else received)
    && w'.calculated - w.calculated == (if x.baseInput then received else paid)
    && received == (if x.baseInput then out.value else Min(out.value, w.remaining))
    && (n != target ==> w'.remaining == 0)
    && (n != target ==> UsesUp(p, n, liquidity, if x.baseInput then LessFee(w.remaining, rate) else w.remaining, x.baseInput, x.zeroForOne))
    && (!x.baseInput || n == target ==> IsCeil(fee, cost.value * rate, 1_000_000 - rate))
    && (x.baseInput && n != target ==> FeeWithDust(p, n, liquidity, w.remaining, rate, fee, x.zeroForOne))
    && (liquidity == 0 ==> fee == 0)
    && Splits(s.pool, s'.pool, s.config, t, fee)
  }

  lemma SwapStepMeans(w: SwapState, x: SwapArgs, n: int)
    requires Inv(w.state) && LimitAhead(w.state.pool, x)
    requires IsNextTick(w.state.ticks.Keys, w.state.pool.tick, x.zeroForOne, n)
    requires MIN_TICK <= n <= MAX_TICK && SwapStepTo(w, x, n).Some?
    ensures var w' := SwapStepTo(w, x, n).value; var target := Target(SqrtPriceAtTick(n), x);
            && |w.state.vault| == 2 && |w'.state.vault| == 2
            && IsTarget(w.state.pool.sqrtPrice, SqrtPriceAtTick(n), target, x) && StepMeans(w, w', x, target)
  {
    hide SqrtPriceAtTick, CreditFee, Arrive, ComputeStep, InAmount, OutAmount, CountersInv, LiquidityInv, UsesUp, FeeWithDust, Splits;
    var s := w.state;
    NextTickIsGap(s, x, n);
    TargetInGap(s.pool, s.ticks, x, n);
    var target := Target(SqrtPriceAtTick(n), x);
    var step := ComputeStep(s.pool.sqrtPrice, target, s.pool.liquidity, w.remaining, s.config.tradeFeeRate, x.baseInput, x.zeroForOne).value;
    StepContract(s.pool.sqrtPrice, target, s.pool.liquidity, w.remaining, s.config.tradeFeeRate, x.baseInput, x.zeroForOne);
    var t := TokenIn(x.zeroForOne);
    CreditSplits(s.pool, s.config, t, step.feeAmount);
    var credited := CreditFee(s.pool, s.config, t, step.feeAmount).value;
    ArriveKeepsFees(credited, s.ticks, n, SqrtPriceAtTick(n), step.sqrtPriceNext, x.zeroForOne);
    var after := SwapStepTo(w, x, n).value.state.pool;
    assert Splits(s.pool, after, s.config, t, step.feeAmount) by {
      SplitsIgnoresTheRest(s.pool, credited, after, s.config, t, step.feeAmount);
    }
    StepReceives(s, x, target, w.remaining, step);
    if s.pool.liquidity == 0 {
      EmptyRangeIsFree(s.pool.sqrtPrice, target, w.remaining, s.config.tradeFeeRate, x.baseInput, x.zeroForOne);
    }
  }

  lemma StepReceives(s: State, x: SwapArgs, target: nat, remaining: nat, step: SwapStep)
    requires s.config.tradeFeeRate < FEE_DENOMINATOR
    requires ComputeStep(s.pool.sqrtPrice, target, s.pool.liquidity, remaining, s.config.tradeFeeRate, x.baseInput, x.zeroForOne) == Some(step)
    ensures var out := OutAmount(s.pool.sqrtPrice, step.sqrtPriceNext, s.pool.liquidity, x.zeroForOne);
            out.Some? && step.amountOut == if x.baseInput then out.value else Min(out.value, remaining)
  {
    hide NextPrice, InAmount, OutAmount, MulDivCeil64;
  }

  lemma ArriveKeepsFees(pool: Pool, ticks: map<int, Tick>, n: int, priceNext: nat, price: nat, zeroForOne: bool)
    ensures var a := Arrive(pool, ticks, n, priceNext, price, zeroForOne);
            a.Some? ==>
              && a.value.0 == pool.(sqrtPrice := price, tick := a.value.0.tick, liquidity := a.value.0.liquidity)
  {
    hide TickCross;
  }

  lemma SplitsIgnoresTheRest(before: Pool, after: Pool, after': Pool, c: Config, t: nat, fee: nat)
    requires t < TOKENS && Splits(before, after, c, t, fee)
    requires SameToken(after, after', 0) && SameToken(after, after', 1)
    ensures Splits(before, after', c, t, fee)
  {
  }

  // ---------------------------------------------------------------------------------------------
  // The whole swap

  /** The states a swap goes through, from the first to the last. */
  ghost function Visited(w: SwapState, x: SwapArgs): seq<SwapState>
    decreases |Ahead(w.state.ticks.Keys, w.state.pool.tick, x.zeroForOne)|
  {
    var s := w.state;
    if Finished(w, x) then [w]
    else
      var n := NextTick(s.ticks.Keys, s.pool.tick, x.zeroForOne);
      if n.None? || !(MIN_TICK <= n.value <= MAX_TICK) || !ValidConfig(s.config) || |s.vault| != 2 then [w]
      else
        var w' := SwapStepTo(w, x, n.value);
        if w'.None? then [w]
        else if w'.value.state.pool.sqrtPrice == SqrtPriceAtTick(n.value) then
          CrossingShrinksAhead(w, x, n.value);
          [w] + Visited(w'.value, x)
        else [w, w'.value]
  }

  /** From one state to the next: towards the nearest initialised tick, as a step does. */
  ghost predicate Follows(w: SwapState, w': SwapState, x: SwapArgs) {
    && |w.state.vault| == 2 && |w'.state.vault| == 2 && w'.state.config == w.state.config && ValidConfig(w.state.config)
    && exists n: int, target: nat ::
         && IsNextTick(w.state.ticks.Keys, w.state.pool.tick, x.zeroForOne, n) && MIN_TICK <= n <= MAX_TICK
         && IsTarget(w.state.pool.sqrtPrice, SqrtPriceAtTick(n), target, x) && StepMeans(w, w', x, target)
  }

  ghost predicate Chain(ws: seq<SwapState>, x: SwapArgs) {
    forall i :: 0 <= i < |ws| - 1 ==> Follows(ws[i], ws[i + 1], x)
  }

  /** A swap is a chain of such steps, from its first state to its last. */
  lemma {:induction false} SwapIsChain(w: SwapState, x: SwapArgs)
    requires Inv(w.state) && LimitAhead(w.state.pool, x) && SwapLoop(w, x).Some?
    ensures var ws := Visited(w, x);
            |ws| > 0 && ws[0] == w && ws[|ws| - 1] == SwapLoop(w, x).value && Chain(ws, x)
    decreases |Ahead(w.state.ticks.Keys, w.state.pool.tick, x.zeroForOne)|
  {
    hide SqrtPriceAtTick, SwapStepTo, Inv, KeepsValue, Follows, LimitAhead, Advances;
    RevealInv(w.state);
    if !Finished(w, x) {
      var n := NextTick(w.state.ticks.Keys, w.state.pool.tick, x.zeroForOne).value;
      var w1 := SwapStepTo(w, x, n).value;
      StepKeeps(w, x, n);
      StepFollowsMeaning(w, x, n);
      if w1.state.pool.sqrtPrice == SqrtPriceAtTick(n) {
        CrossingShrinksAhead(w, x, n);
        SwapIsChain(w1, x);
        ChainGrows(w, Visited(w1, x), x);
      }
    }
  }

  lemma ChainGrows(w: SwapState, ws: seq<SwapState>, x: SwapArgs)
    requires |ws| > 0 && Chain(ws, x) && Follows(w, ws[0], x)
    ensures Chain([w] + ws, x)
  {
    hide Follows;
    var all := [w] + ws;
    forall i | 0 <= i < |all| - 1 ensures Follows(all[i], all[i + 1], x) {
      if i > 0 {
        assert Follows(ws[i - 1], ws[i], x);
      }
    }
  }

  lemma StepFollowsMeaning(w: SwapState, x: SwapArgs, n: int)
    requires Inv(w.state) && LimitAhead(w.state.pool, x)
    requires IsNextTick(w.state.ticks.Keys, w.state.pool.tick, x.zeroForOne, n)
    requires MIN_TICK <= n <= MAX_TICK && SwapStepTo(w, x, n).Some?
    ensures Follows(w, SwapStepTo(w, x, n).value, x)
  {
    hide SqrtPriceAtTick, StepMeans, CreditFee, Arrive, ComputeStep;
    RevealInv(w.state);
    SwapStepMeans(w, x, n);
  }

  /** All fees of a chain of steps. */
  ghost function FeesOf(ws: seq<SwapState>, x: SwapArgs): int {
    if |ws| <= 1 || |ws[0].state.vault| != 2 || |ws[1].state.vault| != 2 then 0
    else FeeOf(ws[0].state, ws[1].state, x) + FeesOf(ws[1..], x)
  }

  /** An amount is the rate's share of a total, short of it by less than one unit for each of k roundings. */
  ghost predicate ShareOf(amount: int, total: int, rate: nat, k: nat) {
    amount * 1_000_000 <= total * rate <= (amount + k) * 1_000_000
  }

  /** Over any chain of steps, protocol and fund get their shares of all fees, and the rest of the fees,
      to the last unit, goes to the liquidity in range. */
  lemma {:induction false} ChainSplits(ws: seq<SwapState>, x: SwapArgs)
    requires |ws| > 0 && Chain(ws, x)
    ensures var t := TokenIn(x.zeroForOne); var p, q, c := ws[0].state.pool, ws[|ws| - 1].state.pool, ws[0].state.config;
            var protocol, fund, fees := Rise(p.protocolFees[t], q.protocolFees[t]), Rise(p.fundFees[t], q.fundFees[t]), FeesOf(ws, x);
            && ShareOf(protocol, fees, c.protocolFeeRate, |ws| - 1) && ShareOf(fund, fees, c.fundFeeRate, |ws| - 1)
            && Rise(p.totalFees[t], q.totalFees[t]) == fees - protocol - fund
            && SameToken(p, q, 1 - t)
            && ws[|ws| - 1].state.config == c
    decreases |ws|
  {
    hide StepMeans, Follows, ShareOf;
    var t := TokenIn(x.zeroForOne);
    if |ws| == 1 {
      NothingShared(ws[0].state.config.protocolFeeRate);
      NothingShared(ws[0].state.config.fundFeeRate);
    } else {
      var rest := ws[1..];
      forall i | 0 <= i < |rest| - 1 ensures Follows(rest[i], rest[i + 1], x) {
        assert Follows(ws[i + 1], ws[i + 2], x);
      }
      ChainSplits(rest, x);
      assert Follows(ws[0], ws[1], x);
      FollowsSplits(ws[0], ws[1], x);
      var c, a, b, e := ws[0].state.config, ws[0].state.pool, ws[1].state.pool, ws[|ws| - 1].state.pool;
      var fee := FeeOf(ws[0].state, ws[1].state, x);
      SharesAdd(Rise(a.protocolFees[t], b.protocolFees[t]), fee, Rise(b.protocolFees[t], e.protocolFees[t]), FeesOf(rest, x), c.protocolFeeRate, |rest| - 1);
      SharesAdd(Rise(a.fundFees[t], b.fundFees[t]), fee, Rise(b.fundFees[t], e.fundFees[t]), FeesOf(rest, x), c.fundFeeRate, |rest| - 1);
    }
  }

  lemma NothingShared(rate: nat)
    ensures ShareOf(0, 0, rate, 0)
  {
  }

  lemma FollowsSplits(w: SwapState, w': SwapState, x: SwapArgs)
    requires Follows(w, w', x)
    ensures |w.state.vault| == 2 && |w'.state.vault| == 2 && w'.state.config == w.state.config
    ensures Splits(w.state.pool, w'.state.pool, w.state.config, TokenIn(x.zeroForOne), FeeOf(w.state, w'.state, x))
    ensures w.state.pool.liquidity == 0 ==> FeeOf(w.state, w'.state, x) == 0
  {
    hide Splits, UsesUp, FeeWithDust, SqrtPriceAtTick, InAmount, OutAmount;
  }

  lemma SharesAdd(a: int, fee: int, rest: int, fees: int, rate: nat, k: nat)
    requires IsFloor(a, fee * rate, 1_000_000) && ShareOf(rest, fees, rate, k)
    ensures ShareOf(a + rest, fee + fees, rate, k + 1)
  {
    assert (fee + fees) * rate == fee * rate + fees * rate;
  }

  /** Over a whole swap: protocol and fund get their rates' shares of the fees paid, which are what the
      trader paid beyond the principal. */
  lemma SwapSplits(w: SwapState, x: SwapArgs)
    requires Inv(w.state) && LimitAhead(w.state.pool, x) && SwapLoop(w, x).Some?
    ensures var ws := Visited(w, x); var t := TokenIn(x.zeroForOne); var s, s' := w.state, SwapLoop(w, x).value.state;
            var fees, k := FeesOf(ws, x), |ws| - 1;
            && k >= 0
            && ShareOf(Rise(s.pool.protocolFees[t], s'.pool.protocolFees[t]), fees, s.config.protocolFeeRate, k)
            && ShareOf(Rise(s.pool.fundFees[t], s'.pool.fundFees[t]), fees, s.config.fundFeeRate, k)
            && Rise(s.pool.totalFees[t], s'.pool.totalFees[t])
               == fees - Rise(s.pool.protocolFees[t], s'.pool.protocolFees[t]) - Rise(s.pool.fundFees[t], s'.pool.fundFees[t])
            && |s.vault| == 2 && |s'.vault| == 2 && fees == s'.vault[t] - s.vault[t] - Principal(w, x)
            && fees == Obligations(s'.pool, t) - Obligations(s.pool, t)
  {
    hide SwapLoop, Inv, Visited, Chain, LimitAhead, ShareOf, Obligations, FeesOf, Principal;
    SwapIsChain(w, x);
    ChainSplits(Visited(w, x), x);
    LoopAccounts(w, x);
    FeesArePaid(w, x);
  }

  lemma {:induction false} FeesArePaid(w: SwapState, x: SwapArgs)
    requires Inv(w.state) && LimitAhead(w.state.pool, x) && SwapLoop(w, x).Some?
    ensures |w.state.vault| == 2 && |SwapLoop(w, x).value.state.vault| == 2
    ensures var t := TokenIn(x.zeroForOne);
            FeesOf(Visited(w, x), x) == SwapLoop(w, x).value.state.vault[t] - w.state.vault[t] - Principal(w, x)
    decreases |Ahead(w.state.ticks.Keys, w.state.pool.tick, x.zeroForOne)|
  {
    hide SqrtPriceAtTick, SwapStepTo, ComputeStep, Inv, Obligations, FeeOf, Target;
    RevealInv(w.state);
    if !Finished(w, x) {
      var n := NextTick(w.state.ticks.Keys, w.state.pool.tick, x.zeroForOne).value;
      var w1 := SwapStepTo(w, x, n).value;
      StepKeeps(w, x, n);
      RevealInv(w1.state);
      StepFee(w, x, n);
      if w1.state.pool.sqrtPrice == SqrtPriceAtTick(n) {
        CrossingShrinksAhead(w, x, n);
        FeesArePaid(w1, x);
        FirstVisited(w1, x);
        assert Visited(w, x)[1..] == Visited(w1, x);
      } else {
        assert Visited(w, x)[1..] == [w1];
      }
    }
  }

  lemma FirstVisited(w: SwapState, x: SwapArgs)
    ensures |Visited(w, x)| > 0 && Visited(w, x)[0] == w
  {
    hide SwapStepTo;
  }

  lemma StepFee(w: SwapState, x: SwapArgs, n: int)
    requires Inv(w.state) && LimitAhead(w.state.pool, x)
    requires IsNextTick(w.state.ticks.Keys, w.state.pool.tick, x.zeroForOne, n)
    requires MIN_TICK <= n <= MAX_TICK && SwapStepTo(w, x, n).Some?
    ensures var s, s' := w.state, SwapStepTo(w, x, n).value.state; var t := TokenIn(x.zeroForOne);
            var step := ComputeStep(s.pool.sqrtPrice, Target(SqrtPriceAtTick(n), x), s.pool.liquidity, w.remaining,
                                    s.config.tradeFeeRate, x.baseInput, x.zeroForOne);
            && |s.vault| == 2 && |s'.vault| == 2 && step.Some?
            && FeeOf(s, s', x) == s'.vault[t] - s.vault[t] - step.value.amountIn
  {
    hide SqrtPriceAtTick, CreditFee, Arrive, ComputeStep, InAmount, OutAmount, CountersInv, LiquidityInv, UsesUp, FeeWithDust;
    var s := w.state;
    NextTickIsGap(s, x, n);
    TargetInGap(s.pool, s.ticks, x, n);
    var target := Target(SqrtPriceAtTick(n), x);
    StepContract(s.pool.sqrtPrice, target, s.pool.liquidity, w.remaining, s.config.tradeFeeRate, x.baseInput, x.zeroForOne);
    var step := ComputeStep(s.pool.sqrtPrice, target, s.pool.liquidity, w.remaining, s.config.tradeFeeRate, x.baseInput, x.zeroForOne).value;
    var credited := CreditFee(s.pool, s.config, TokenIn(x.zeroForOne), step.feeAmount).value;
    CreditKeepsPriceAndTick(s.pool, s.config, TokenIn(x.zeroForOne), step.feeAmount);
    ArriveKeepsFees(credited, s.ticks, n, SqrtPriceAtTick(n), step.sqrtPriceNext, x.zeroForOne);
  }
}
