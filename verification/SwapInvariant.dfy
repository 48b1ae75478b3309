/** Every step of a swap keeps every invariant. */
module SwapInvariant {
  import opened Wrappers
  import opened FullMath
  import opened LiquidityMath
  import opened TickMath
  import opened SwapMath
  import opened SwapStepProofs
  import opened Sums
  import opened Model
  import opened Ticks
  import opened Ledger
  import opened GrowthLedger
  import opened Curve
  import opened Machine
  import opened Invariants

  /** The limit lies ahead of the price, strictly inside the tick range. */
  predicate LimitAhead(pool: Pool, x: SwapArgs) {
    if x.zeroForOne then MIN_SQRT_PRICE < x.limit <= pool.sqrtPrice
    else pool.sqrtPrice <= x.limit < MAX_SQRT_PRICE
  }

  /** The next tick, as the gap between two neighbouring ticks around the current one. */
  ghost predicate GapTo(pool: Pool, ticks: map<int, Tick>, x: SwapArgs, n: int) {
    && MIN_TICK <= n <= MAX_TICK && n in ticks
    && if x.zeroForOne then n <= pool.tick && NoneBetween(ticks, n, pool.tick)
       else pool.tick < n && NoneBetween(ticks, pool.tick, n - 1)
  }

  lemma NextTickIsGap(s: State, x: SwapArgs, n: int)
    requires Shape(s) && IsNextTick(s.ticks.Keys, s.pool.tick, x.zeroForOne, n)
    ensures GapTo(s.pool, s.ticks, x, n)
  {
  }

  /** Lower and upper end of the gap that the step stays in. */
  function GapLow(pool: Pool, x: SwapArgs, n: int): int { if x.zeroForOne then n else pool.tick }
  function GapHigh(pool: Pool, x: SwapArgs, n: int): int { if x.zeroForOne then pool.tick + 1 else n }

  ghost predicate InGap(pool: Pool, x: SwapArgs, n: int, price: nat)
    requires MIN_TICK <= n <= MAX_TICK && MIN_TICK <= pool.tick < MAX_TICK
  {
    SqrtPriceAtTick(GapLow(pool, x, n)) <= price <= SqrtPriceAtTick(GapHigh(pool, x, n))
  }

  /** Current price and target both lie in the gap, the target ahead and within the limit. */
  lemma TargetInGap(pool: Pool, ticks: map<int, Tick>, x: SwapArgs, n: int)
    requires Coupled(pool) && LimitAhead(pool, x) && GapTo(pool, ticks, x, n)
    ensures var t := Target(SqrtPriceAtTick(n), x);
            && InGap(pool, x, n, pool.sqrtPrice) && InGap(pool, x, n, t)
            && (if x.zeroForOne then x.limit <= t <= pool.sqrtPrice else pool.sqrtPrice <= t <= x.limit)
            && t > 0
  {
    hide SqrtPriceAtTick;
    PriceAtLeast(n);
    if x.zeroForOne {
      PriceAtMost(n, pool.tick);
      PriceAtMost(n, pool.tick + 1);
    } else {
      PriceAtMost(pool.tick + 1, n);
      PriceAtMost(pool.tick, n);
    }
  }

  // ---------------------------------------------------------------------------------------------
  // Crediting the fee

  /** The fee of token t goes to protocol, fund and liquidity providers, and nowhere else. */
  lemma CreditFeeEffect(s: State, t: nat, fee: nat, pool': Pool)
    requires t < TOKENS && Shape(s) && LiquidityInv(s) && CountersInv(s)
    requires CreditFee(s.pool, s.config, t, fee) == Some(pool')
    ensures CountersInv(s.(pool := pool')) && LiquidityInv(s.(pool := pool'))
    ensures pool'.tick == s.pool.tick && pool'.sqrtPrice == s.pool.sqrtPrice && pool'.liquidity == s.pool.liquidity
    ensures pool'.rewards == s.pool.rewards && pool'.spacing == s.pool.spacing
    ensures Obligations(s.pool, t) <= Obligations(pool', t) <= Obligations(s.pool, t) + fee
    ensures s.pool.liquidity > 0 ==> Obligations(pool', t) == Obligations(s.pool, t) + fee
    ensures Obligations(pool', 1 - t) == Obligations(s.pool, 1 - t)
  {
    var s' := s.(pool := pool');
    PositionsInRange(s.pool.spacing, s.positions);
    var lp := fee - Share(fee, s.config.protocolFeeRate) - Share(fee, s.config.fundFeeRate);
    forall k: nat | k < COUNTERS ensures CounterHolds(s', k) {
      assert CounterHolds(s, k);
      var v := ViewOf(s.pool, s.ticks, k);
      if k == t && s.pool.liquidity > 0 {
        var d := MulDivFloor128(lp, Q64, s.pool.liquidity).value;
        assert d * s.pool.liquidity == Active(s.positions, v.tick) * d;
        Accrue(v, s.positions, s.protocols, Unclaimed(s.pool, k), d, lp);
      }
    }
  }

  // ---------------------------------------------------------------------------------------------
  // Arriving

  /** Crossing turns over every counter; a reward not set up has nothing to turn over. */
  lemma CrossTurnsOver(s: State, n: int, t': Tick, k: nat)
    requires CountersInv(s) && n in s.ticks && k < COUNTERS
    requires TickCross(s.ticks[n], Growths(s.pool), s.pool) == Some(t')
    ensures t'.outside[k] == Growth(s.pool, k) - s.ticks[n].outside[k]
    ensures t'.net == s.ticks[n].net && t'.gross == s.ticks[n].gross
  {
    assert CounterHolds(s, k);
  }

  /** Crossing never meets a tick whose outside growth exceeds the global one. */
  lemma CrossNeverFails(s: State, n: int)
    requires CountersInv(s) && n in s.ticks
    ensures TickCross(s.ticks[n], Growths(s.pool), s.pool).Some?
  {
    assert forall k: nat :: k < COUNTERS ==> CounterHolds(s, k);
    assert CounterHolds(s, 0) && CounterHolds(s, 1) && CounterHolds(s, 2) && CounterHolds(s, 3) && CounterHolds(s, 4);
  }

  lemma CrossingKeeps(s: State, x: SwapArgs, n: int, t': Tick, liquidity: nat, price: nat, s': State)
    requires Shape(s) && LiquidityInv(s) && CountersInv(s) && GapTo(s.pool, s.ticks, x, n)
    requires TickCross(s.ticks[n], Growths(s.pool), s.pool) == Some(t')
    requires liquidity == s.pool.liquidity + (if x.zeroForOne then -s.ticks[n].net else s.ticks[n].net)
    requires s' == s.(pool := s.pool.(sqrtPrice := price, liquidity := liquidity, tick := if x.zeroForOne then n - 1 else n),
                      ticks := s.ticks[n := t'])
    ensures LiquidityInv(s') && CountersInv(s') && Shape(s')
  {
    PositionsInRange(s.pool.spacing, s.positions);
    forall k: nat | k < COUNTERS ensures CounterHolds(s', k) {
      assert CounterHolds(s, k);
      CrossTurnsOver(s, n, t', k);
      CrossKeeps(ViewOf(s.pool, s.ticks, k), n, t', x.zeroForOne, s.positions, s.protocols, Unclaimed(s.pool, k));
      assert ViewOf(s'.pool, s'.ticks, k) == Crossed(ViewOf(s.pool, s.ticks, k), n, t', x.zeroForOne);
    }
    CrossTurnsOver(s, n, t', 0);
    forall i ensures TickOf(s'.ticks, i).gross == TickOf(s.ticks, i).gross && TickOf(s'.ticks, i).net == TickOf(s.ticks, i).net {
    }
    NetIsTheStep(s.positions, s.ticks, n);
    if x.zeroForOne {
      QuietMove(s.positions, s.ticks, n, s.pool.tick);
    } else {
      QuietMove(s.positions, s.ticks, s.pool.tick, n - 1);
    }
  }

  lemma MovingKeeps(s: State, tick': int, price: nat, s': State)
    requires Shape(s) && LiquidityInv(s) && CountersInv(s)
    requires NoneBetween(s.ticks, tick', s.pool.tick) && NoneBetween(s.ticks, s.pool.tick, tick')
    requires s' == s.(pool := s.pool.(sqrtPrice := price, tick := tick'))
    ensures LiquidityInv(s') && CountersInv(s') && Shape(s')
  {
    forall k: nat | k < COUNTERS ensures CounterHolds(s', k) {
      assert CounterHolds(s, k);
      MoveKeeps(ViewOf(s.pool, s.ticks, k), tick', s.positions, s.protocols, Unclaimed(s.pool, k));
    }
    if tick' <= s.pool.tick {
      QuietMove(s.positions, s.ticks, tick', s.pool.tick);
    } else {
      QuietMove(s.positions, s.ticks, s.pool.tick, tick');
    }
  }

  /** The floor tick of a price strictly inside the gap stays in the gap. */
  lemma FloorTickInGap(pool: Pool, ticks: map<int, Tick>, x: SwapArgs, n: int, price: nat)
    requires Coupled(pool) && GapTo(pool, ticks, x, n)
    requires MIN_SQRT_PRICE <= price < MAX_SQRT_PRICE && InGap(pool, x, n, price)
    requires if x.zeroForOne then price < pool.sqrtPrice else price < SqrtPriceAtTick(n)
    ensures GapLow(pool, x, n) <= TickAtSqrtPrice(price) < GapHigh(pool, x, n)
  {
    hide SqrtPriceAtTick;
    var t := TickAtSqrtPrice(price);
    if t < GapLow(pool, x, n) {
      PriceAtMost(t + 1, GapLow(pool, x, n));
    }
    if t >= GapHigh(pool, x, n) {
      PriceAtMost(GapHigh(pool, x, n), t);
    }
  }

  /** Wherever the step ends, the ledgers hold and price and tick agree. */
  lemma ArriveKeeps(s: State, x: SwapArgs, n: int, price: nat, s': State)
    requires Shape(s) && LiquidityInv(s) && CountersInv(s) && Coupled(s.pool)
    requires LimitAhead(s.pool, x) && GapTo(s.pool, s.ticks, x, n)
    requires var t := Target(SqrtPriceAtTick(n), x);
             if x.zeroForOne then t <= price <= s.pool.sqrtPrice else s.pool.sqrtPrice <= price <= t
    requires Arrive(s.pool, s.ticks, n, SqrtPriceAtTick(n), price, x.zeroForOne).Some?
    requires var a := Arrive(s.pool, s.ticks, n, SqrtPriceAtTick(n), price, x.zeroForOne).value;
             s' == s.(pool := a.0, ticks := a.1)
    ensures LiquidityInv(s') && CountersInv(s') && Shape(s') && Coupled(s'.pool) && LimitAhead(s'.pool, x)
    ensures s'.pool.sqrtPrice == price && InGap(s.pool, x, n, price)
    ensures Obligations(s'.pool, 0) == Obligations(s.pool, 0) && Obligations(s'.pool, 1) == Obligations(s.pool, 1)
    ensures s'.pool.rewards == s.pool.rewards
  {
    hide SqrtPriceAtTick, TickCross;
    TargetInGap(s.pool, s.ticks, x, n);
    EndPoints();
    if price == SqrtPriceAtTick(n) {
      var t' := TickCross(s.ticks[n], Growths(s.pool), s.pool).value;
      CrossingKeeps(s, x, n, t', s'.pool.liquidity, price, s');
      if x.zeroForOne {
        PriceStep(n - 1);
      } else {
        PriceStep(n);
      }
    } else if price != s.pool.sqrtPrice {
      FloorTickInGap(s.pool, s.ticks, x, n, price);
      MovingKeeps(s, TickAtSqrtPrice(price), price, s');
    }
  }

  // ---------------------------------------------------------------------------------------------
  // The step

  /** The step pays for the value it takes: per token, the vault changes by at least as much as what
      the positions are worth and what is owed in fees. */
  lemma StepValue(s: State, x: SwapArgs, n: int, amountIn: nat, amountOut: nat, fee: nat, s': State)
    requires Shape(s) && LiquidityInv(s) && Coupled(s.pool) && GapTo(s.pool, s.ticks, x, n)
    requires InGap(s.pool, x, n, s.pool.sqrtPrice) && InGap(s.pool, x, n, s'.pool.sqrtPrice) && s'.pool.sqrtPrice > 0
    requires if x.zeroForOne then s'.pool.sqrtPrice <= s.pool.sqrtPrice else s.pool.sqrtPrice <= s'.pool.sqrtPrice
    requires InAmount(s.pool.sqrtPrice, s'.pool.sqrtPrice, s.pool.liquidity, x.zeroForOne) == Some(amountIn)
    requires var out := OutAmount(s.pool.sqrtPrice, s'.pool.sqrtPrice, s.pool.liquidity, x.zeroForOne);
             out.Some? && amountOut <= out.value
    requires var i := TokenIn(x.zeroForOne);
             && s'.positions == s.positions
             && s'.vault == s.vault[i := s.vault[i] + amountIn + fee][1 - i := s.vault[1 - i] - amountOut]
             && Obligations(s'.pool, i) <= Obligations(s.pool, i) + fee
             && Obligations(s'.pool, 1 - i) == Obligations(s.pool, 1 - i)
    ensures Surplus(s', 0) >= Surplus(s, 0) && Surplus(s', 1) >= Surplus(s, 1)
  {
    hide SqrtPriceAtTick, InAmount, OutAmount, TotalValue, Slope, Obligations, Surplus, Rounds, TicksBalance, RangesBalance, Active;
    PositionsInRange(s.pool.spacing, s.positions);
    var p, q := s.pool.sqrtPrice, s'.pool.sqrtPrice;
    var lo, hi := GapLow(s.pool, x, n), GapHigh(s.pool, x, n);
    MoveInGap(0, s.positions, s.ticks, s.pool.tick, lo, hi, p, q);
    MoveInGap(1, s.positions, s.ticks, s.pool.tick, lo, hi, p, q);
    StepOnCurve(p, q, s.pool.liquidity, x.zeroForOne, amountIn, amountOut);
    PaidForValue(s, s', TokenIn(x.zeroForOne), amountIn, amountOut, fee);
  }

  lemma PaidForValue(s: State, s': State, i: nat, amountIn: nat, amountOut: nat, fee: nat)
    requires i < 2 && |s.vault| == 2 && s.pool.sqrtPrice > 0 && s'.pool.sqrtPrice > 0 && s'.positions == s.positions
    requires var p, q, l := s.pool.sqrtPrice, s'.pool.sqrtPrice, s.pool.liquidity as real;
             && (forall t: nat :: t < 2 ==> TotalValue(t, s.positions, q) == TotalValue(t, s.positions, p) + Slope(t, p, q) * l)
             && Slope(i, p, q) * l <= amountIn as real && amountOut as real <= -(Slope(1 - i, p, q) * l)
    requires s'.vault == s.vault[i := s.vault[i] + amountIn + fee][1 - i := s.vault[1 - i] - amountOut]
    requires Obligations(s'.pool, i) <= Obligations(s.pool, i) + fee
    requires Obligations(s'.pool, 1 - i) == Obligations(s.pool, 1 - i)
    ensures Surplus(s', 0) >= Surplus(s, 0) && Surplus(s', 1) >= Surplus(s, 1)
  {
    hide TotalValue, Slope, Obligations;
    var o := 1 - i;
    assert Surplus(s', i) >= Surplus(s, i);
    assert Surplus(s', o) >= Surplus(s, o);
  }

  /** Positions stay, no vault loses against what is owed, and only fees of token i may become owed. */
  ghost predicate KeepsValue(s: State, s': State, i: nat)
    requires i < TOKENS && |s.vault| == 2 && |s'.vault| == 2 && s.pool.sqrtPrice > 0 && s'.pool.sqrtPrice > 0
  {
    && s'.positions == s.positions && s'.config == s.config
    && Surplus(s', 0) >= Surplus(s, 0) && Surplus(s', 1) >= Surplus(s, 1)
    && Obligations(s'.pool, i) >= Obligations(s.pool, i) && Obligations(s'.pool, 1 - i) == Obligations(s.pool, 1 - i)
  }

  ghost predicate Advances(price: nat, price': nat, x: SwapArgs) {
    if x.zeroForOne then x.limit <= price' <= price else price <= price' <= x.limit
  }

  /** The ledgers do not depend on the vaults. */
  lemma VaultsApart(s: State, vault: seq<int>)
    requires LiquidityInv(s) && CountersInv(s)
    ensures LiquidityInv(s.(vault := vault)) && CountersInv(s.(vault := vault))
  {
    forall k: nat | k < COUNTERS ensures CounterHolds(s.(vault := vault), k) {
      assert CounterHolds(s, k);
    }
  }

  /** One step keeps every invariant, never moves the price back or past the limit, and leaves what the
      vaults hold beyond all claims no smaller in either token. A step that does not cross its tick ends
      the swap. */
  lemma StepKeeps(w: SwapState, x: SwapArgs, n: int)
    requires Inv(w.state) && LimitAhead(w.state.pool, x)
    requires IsNextTick(w.state.ticks.Keys, w.state.pool.tick, x.zeroForOne, n)
    requires MIN_TICK <= n <= MAX_TICK && SwapStepTo(w, x, n).Some?
    ensures var w' := SwapStepTo(w, x, n).value; var s, s' := w.state, w'.state;
            && Inv(s') && LimitAhead(s'.pool, x) && Advances(s.pool.sqrtPrice, s'.pool.sqrtPrice, x)
            && KeepsValue(s, s', TokenIn(x.zeroForOne))
            && (s'.pool.sqrtPrice != SqrtPriceAtTick(n) ==> Finished(w', x))
  {
    hide SqrtPriceAtTick, CreditFee, Arrive, ComputeStep, InAmount, OutAmount, CountersInv, LiquidityInv;
    var s := w.state;
    var w' := SwapStepTo(w, x, n).value;
    var s' := w'.state;
    NextTickIsGap(s, x, n);
    TargetInGap(s.pool, s.ticks, x, n);
    var target := Target(SqrtPriceAtTick(n), x);
    var step := ComputeStep(s.pool.sqrtPrice, target, s.pool.liquidity, w.remaining, s.config.tradeFeeRate, x.baseInput, x.zeroForOne).value;
    StepContract(s.pool.sqrtPrice, target, s.pool.liquidity, w.remaining, s.config.tradeFeeRate, x.baseInput, x.zeroForOne);
    var i := TokenIn(x.zeroForOne);
    var credited := CreditFee(s.pool, s.config, i, step.feeAmount).value;
    var charged := s.(vault := s'.vault);
    VaultsApart(s, s'.vault);
    CreditFeeEffect(charged, i, step.feeAmount, credited);
    ArriveKeeps(charged.(pool := credited), x, n, step.sqrtPriceNext, s');
    StepValue(s, x, n, step.amountIn, step.amountOut, step.feeAmount, s');

  }

  /** The price sits on the upper end of its tick only after a downward crossing, or because the step moved
      neither price nor tick; a step that does not move the price off its tick leaves the tick alone. */
  lemma UpperEndOnlyByCrossing(w: SwapState, x: SwapArgs, n: int)
    requires Inv(w.state) && LimitAhead(w.state.pool, x)
    requires IsNextTick(w.state.ticks.Keys, w.state.pool.tick, x.zeroForOne, n)
    requires MIN_TICK <= n <= MAX_TICK && SwapStepTo(w, x, n).Some?
    ensures var p, q := w.state.pool, SwapStepTo(w, x, n).value.state.pool;
            && MIN_TICK <= q.tick < MAX_TICK
            && (q.sqrtPrice == SqrtPriceAtTick(q.tick + 1) ==>
                  (x.zeroForOne && q.tick == n - 1) || (q.sqrtPrice == p.sqrtPrice && q.tick == p.tick))
            && (q.sqrtPrice == p.sqrtPrice && q.sqrtPrice != SqrtPriceAtTick(n) ==> q.tick == p.tick)
  {
    hide SqrtPriceAtTick, CreditFee, ComputeStep, CountersInv, LiquidityInv, TickCross;
    StepKeeps(w, x, n);
    EndPoints();
    if n < MAX_TICK {
      PriceStep(n);
    }
    var s := w.state;
    var step := ComputeStep(s.pool.sqrtPrice, Target(SqrtPriceAtTick(n), x), s.pool.liquidity, w.remaining,
                            s.config.tradeFeeRate, x.baseInput, x.zeroForOne).value;
    CreditKeepsPriceAndTick(s.pool, s.config, TokenIn(x.zeroForOne), step.feeAmount);
  }

  lemma CreditKeepsPriceAndTick(pool: Pool, c: Config, t: nat, fee: nat)
    requires t < 2 && CreditFee(pool, c, t, fee).Some?
    ensures var p := CreditFee(pool, c, t, fee).value;
            p.sqrtPrice == pool.sqrtPrice && p.tick == pool.tick && p.liquidity == pool.liquidity && p.rewards == pool.rewards
  {
    hide MulDivFloor, Share;
  }
}
