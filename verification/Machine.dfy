/** The pool as a state machine: every instruction as a function of the accounts. None means that the
    transaction aborts. The index structures are absent here: the next tick is simply the nearest
    initialised one. */
module Machine {
  import opened Wrappers
  import opened FullMath
  import opened LiquidityMath
  import opened TickMath
  import opened SwapMath
  import opened Model
  import opened Ticks
  import opened RewardRules
  import opened Positions

  // ---------------------------------------------------------------------------------------------
  // Liquidity

  /** The requested liquidity, or what the given maximum of one token buys at the current price. */
  function RequestedLiquidity(pool: Pool, lower: int, upper: int, liquidity: nat,
                              max0: nat, max1: nat, base0: Option<bool>): Option<nat>
    requires MIN_TICK <= lower <= MAX_TICK && MIN_TICK <= upper <= MAX_TICK
  {
    if liquidity > 0 || base0.None? then Some(liquidity)
    else if base0.value then
      LiquidityFromSingleAmount0(pool.sqrtPrice, SqrtPriceAtTick(lower), SqrtPriceAtTick(upper), max0)
    else
      LiquidityFromSingleAmount1(pool.sqrtPrice, SqrtPriceAtTick(lower), SqrtPriceAtTick(upper), max1)
  }

  datatype Added = Added(state: State, protocol: Protocol, liquidity: nat)

  /** Adds liquidity to a range and takes the deposit. Zero without a base token adds nothing and
      leaves the range as it was. */
  function AddLiquidity(s: State, q: Protocol, lower: int, upper: int, liquidity: nat,
                        max0: nat, max1: nat, base0: Option<bool>, now: nat): Option<Added>
    requires MIN_TICK <= lower <= MAX_TICK && MIN_TICK <= upper <= MAX_TICK && |s.vault| == 2
  {
    if liquidity == 0 && base0.None? then Some(Added(s, q, 0))
    else
      var added :- RequestedLiquidity(s.pool, lower, upper, liquidity, max0, max1, base0);
      if added == 0 || added > I128_MAX then None
      else
        var m :- ModifyPosition(s.pool, q, TickOf(s.ticks, lower), TickOf(s.ticks, upper), lower, upper, added, now);
        if m.amount0 == 0 && m.amount1 == 0 then None
        else if m.amount0 > max0 || m.amount1 > max1 then None
        else
          var ticks := PutTick(PutTick(s.ticks, lower, m.state.lower), upper, m.state.upper);
          Some(Added(s.(pool := m.state.pool, ticks := ticks,
                        vault := [s.vault[0] + m.amount0, s.vault[1] + m.amount1]),
                     m.state.protocol, added))
  }

  predicate ValidRange(pool: Pool, lower: int, upper: int) {
    && MIN_TICK <= lower < upper <= MAX_TICK
    && pool.spacing > 0 && lower % pool.spacing == 0 && upper % pool.spacing == 0
  }

  function OpenPosition(s: State, lower: int, upper: int, liquidity: nat,
                        max0: nat, max1: nat, base0: Option<bool>, now: nat): Option<State> {
    if !s.pool.status.open || !ValidRange(s.pool, lower, upper) || |s.vault| != 2 then None
    else
      var q := if (lower, upper) in s.protocols then s.protocols[(lower, upper)]
               else Protocol(0, NO_GROWTH, [0, 0]);
      var a :- AddLiquidity(s, q, lower, upper, liquidity, max0, max1, base0, now);
      Some(a.state.(protocols := a.state.protocols[(lower, upper) := a.protocol],
                    positions := a.state.positions + [Position(lower, upper, a.liquidity, a.protocol.last, NO_GROWTH)]))
  }

  /** The range of an existing position. */
  predicate HasRange(s: State, id: nat) {
    && id < |s.positions| && |s.vault| == 2
    && ValidRange(s.pool, s.positions[id].lower, s.positions[id].upper)
    && (s.positions[id].lower, s.positions[id].upper) in s.protocols
  }

  function IncreaseLiquidity(s: State, id: nat, liquidity: nat,
                             max0: nat, max1: nat, base0: Option<bool>, now: nat): Option<State> {
    if !s.pool.status.open || !HasRange(s, id) then None
    else
      var p := s.positions[id];
      var a :- AddLiquidity(s, s.protocols[(p.lower, p.upper)], p.lower, p.upper, liquidity, max0, max1, base0, now);
      var settled :- Settle(p, a.protocol.last);
      if p.liquidity + a.liquidity > U128_MAX then None
      else
        Some(a.state.(protocols := a.state.protocols[(p.lower, p.upper) := a.protocol],
                      positions := a.state.positions[id := settled.(liquidity := p.liquidity + a.liquidity)]))
  }

  datatype Burned = Burned(state: State, amount0: nat, amount1: nat)

  /** Removes liquidity (possibly none) and settles the position. */
  function Burn(s: State, id: nat, liquidity: nat, now: nat): Option<Burned>
    requires HasRange(s, id) && liquidity <= s.positions[id].liquidity
  {
    var p := s.positions[id];
    var q := s.protocols[(p.lower, p.upper)];
    if liquidity > I128_MAX then None
    else
      var m :- ModifyPosition(s.pool, q, TickOf(s.ticks, p.lower), TickOf(s.ticks, p.upper), p.lower, p.upper, -(liquidity as int), now);
      var settled :- Settle(p, m.state.protocol.last);
      var ticks := PutTick(PutTick(s.ticks, p.lower, m.state.lower), p.upper, m.state.upper);
      Some(Burned(s.(pool := m.state.pool, ticks := ticks,
                     protocols := s.protocols[(p.lower, p.upper) := m.state.protocol],
                     positions := s.positions[id := settled.(liquidity := p.liquidity - liquidity)]),
                  m.amount0, m.amount1))
  }

  datatype Collected = Collected(state: State, fee0: nat, fee1: nat)

  /** Pays out the owed fees, guarded by what has been collected and not been claimed. */
  function CollectFees(s: State, id: nat): Option<Collected>
    requires id < |s.positions|
  {
    var p := s.positions[id];
    if Unclaimed(s.pool, 0) < p.owed[0] || Unclaimed(s.pool, 1) < p.owed[1] then None
    else
      var claimed := [s.pool.claimedFees[0] + p.owed[0], s.pool.claimedFees[1] + p.owed[1]];
      Some(Collected(s.(pool := s.pool.(claimedFees := claimed),
                        positions := s.positions[id := p.(owed := p.owed[0 := 0][1 := 0])]),
                     p.owed[0], p.owed[1]))
  }

  /** Fee collection is switched off when the unclaimed fees reach the whole vault. */
  function CheckVaults(s: State): State
    requires |s.vault| == 2
  {
    if (Unclaimed(s.pool, 0) >= s.vault[0] && s.vault[0] != 0)
       || (Unclaimed(s.pool, 1) >= s.vault[1] && s.vault[1] != 0)
    then s.(pool := s.pool.(status := s.pool.status.(collectFee := false)))
    else s
  }

  /** Pays out reward j as far as its vault reaches, guarded by what was emitted and not claimed. */
  function CollectReward(s: State, id: nat, j: nat): Option<State>
    requires id < |s.positions| && j < REWARDS
  {
    var p := s.positions[id];
    var owed := p.owed[TOKENS + j];
    var r := s.pool.rewards[j];
    if !r.initialized || owed == 0 then Some(s)
    else if Unclaimed(s.pool, TOKENS + j) < owed then None
    else
      var paid := Min(owed, s.rewardVault[j]);
      if paid == 0 then Some(s)
      else if r.claimed + paid > U64_MAX then None
      else
        Some(s.(pool := s.pool.(rewards := s.pool.rewards[j := r.(claimed := r.claimed + paid)]),
                positions := s.positions[id := p.(owed := p.owed[TOKENS + j := owed - paid])],
                rewardVault := s.rewardVault[j := s.rewardVault[j] - paid]))
  }

  function CollectRewards(s: State, id: nat): (r: Option<State>)
    requires id < |s.positions|
  {
    if !s.pool.status.collectReward then Some(s)
    else
      var s0 :- CollectReward(s, id, 0);
      var s1 :- CollectReward(s0, id, 1);
      CollectReward(s1, id, 2)
  }

  /** Takes tokens out of the vaults; the transfer fails when they are not there. */
  function Payout(s: State, amount0: nat, amount1: nat): Option<State>
    requires |s.vault| == 2
  {
    if amount0 > U64_MAX || amount1 > U64_MAX || s.vault[0] < amount0 || s.vault[1] < amount1 then None
    else Some(s.(vault := [s.vault[0] - amount0, s.vault[1] - amount1]))
  }

  function DecreaseLiquidity(s: State, id: nat, liquidity: nat, min0: nat, min1: nat, now: nat): Option<State> {
    var status := s.pool.status;
    if !HasRange(s, id) || liquidity > s.positions[id].liquidity then None
    else if !status.decrease && !status.collectFee && !status.collectReward then None
    else
      var b :- if status.decrease then Burn(s, id, liquidity, now) else Some(Burned(s, 0, 0));
      var c :- if status.collectFee then CollectFees(b.state, id) else Some(Collected(b.state, 0, 0));
      if liquidity > 0 && (b.amount0 < min0 || b.amount1 < min1) then None
      else
        var paid :- Payout(c.state, b.amount0 + c.fee0, b.amount1 + c.fee1);
        CollectRewards(CheckVaults(paid), id)
  }

  // ---------------------------------------------------------------------------------------------
  // Swap

  datatype SwapArgs = SwapArgs(zeroForOne: bool, baseInput: bool, limit: nat)

  function TokenIn(zeroForOne: bool): (t: nat)
    ensures t < 2
  {
    if zeroForOne then 0 else 1
  }

  predicate Beyond(i: int, tick: int, zeroForOne: bool) {
    if zeroForOne then i <= tick else i > tick
  }

  ghost predicate IsNextTick(keys: set<int>, tick: int, zeroForOne: bool, n: int) {
    && n in keys && Beyond(n, tick, zeroForOne)
    && forall i :: i in keys && Beyond(i, tick, zeroForOne) ==> if zeroForOne then i <= n else n <= i
  }

  /** The nearest initialised tick in the direction of the swap, if there is one. */
  ghost function NextTick(keys: set<int>, tick: int, zeroForOne: bool): (r: Option<int>)
    ensures r.Some? ==> IsNextTick(keys, tick, zeroForOne, r.value)
  {
    if exists n :: IsNextTick(keys, tick, zeroForOne, n) then
      var n :| IsNextTick(keys, tick, zeroForOne, n);
      Some(n)
    else None
  }

  predicate ValidConfig(c: Config) {
    c.tradeFeeRate < FEE_DENOMINATOR && c.protocolFeeRate + c.fundFeeRate <= FEE_DENOMINATOR
  }

  /** A fee rate's share of a fee, rounded down. */
  function Share(fee: nat, rate: nat): (r: nat)
    ensures IsFloor(r, fee * rate, FEE_DENOMINATOR)
  {
    FloorOfDiv(fee * rate, FEE_DENOMINATOR);
    fee * rate / FEE_DENOMINATOR
  }

  /** The price of the next tick, held back by the price limit. */
  function Target(priceNext: nat, x: SwapArgs): nat {
    if x.zeroForOne then Max(priceNext, x.limit) else Min(priceNext, x.limit)
  }

  /** Splits a step's fee and credits it: protocol, fund, and the rest to the liquidity in range. The
      totals are checked against their width when the swap is finished. */
  function CreditFee(pool: Pool, c: Config, t: nat, fee: nat): Option<Pool>
    requires t < 2
  {
    var protocol, fund := Share(fee, c.protocolFeeRate), Share(fee, c.fundFeeRate);
    if protocol + fund > fee then None
    else
      var lp := fee - protocol - fund;
      var pool' := pool.(protocolFees := pool.protocolFees[t := pool.protocolFees[t] + protocol],
                         fundFees := pool.fundFees[t := pool.fundFees[t] + fund]);
      if pool.liquidity == 0 then Some(pool')
      else
        var delta :- MulDivFloor128(lp, Q64, pool.liquidity);
        if pool.feeGrowth[t] + delta > U128_MAX then None
        else Some(pool'.(feeGrowth := pool.feeGrowth[t := pool.feeGrowth[t] + delta],
                         totalFees := pool.totalFees[t := pool.totalFees[t] + lp]))
  }

  /** Where the price and the tick go after the step: across tick n if its price is reached. */
  function Arrive(pool: Pool, ticks: map<int, Tick>, n: int, priceNext: nat, price: nat, zeroForOne: bool): Option<(Pool, map<int, Tick>)> {
    if price == priceNext then
      var t := TickOf(ticks, n);
      var t' :- TickCross(t, Growths(pool), pool);
      var liquidity :- AddDelta(pool.liquidity, if zeroForOne then -t.net else t.net);
      Some((pool.(sqrtPrice := price, liquidity := liquidity, tick := if zeroForOne then n - 1 else n),
            ticks[n := t']))
    else if price == pool.sqrtPrice then Some((pool, ticks))
    else if price < MIN_SQRT_PRICE || price >= MAX_SQRT_PRICE then None
    else Some((pool.(sqrtPrice := price, tick := TickAtSqrtPrice(price)), ticks))
  }

  datatype SwapState = SwapState(state: State, remaining: nat, calculated: nat)

  /** One step of a swap towards tick n. Vaults are charged as the swap goes. */
  function SwapStepTo(w: SwapState, x: SwapArgs, n: int): Option<SwapState>
    requires MIN_TICK <= n <= MAX_TICK && ValidConfig(w.state.config) && |w.state.vault| == 2
  {
    var s := w.state;
    var priceNext := SqrtPriceAtTick(n);
    var step :- ComputeStep(s.pool.sqrtPrice, Target(priceNext, x), s.pool.liquidity, w.remaining,
                            s.config.tradeFeeRate, x.baseInput, x.zeroForOne);
    var paid := step.amountIn + step.feeAmount;
    var used := if x.baseInput then paid else step.amountOut;
    var gained := if x.baseInput then step.amountOut else paid;
    if used > w.remaining || w.calculated + gained > U64_MAX then None
    else
      var t := TokenIn(x.zeroForOne);
      var credited :- CreditFee(s.pool, s.config, t, step.feeAmount);
      var arrived :- Arrive(credited, s.ticks, n, priceNext, step.sqrtPriceNext, x.zeroForOne);
      Some(SwapState(s.(pool := arrived.0, ticks := arrived.1,
                        vault := s.vault[t := s.vault[t] + paid][1 - t := s.vault[1 - t] - step.amountOut]),
                     w.remaining - used, w.calculated + gained))
  }

  predicate Finished(w: SwapState, x: SwapArgs) {
    w.remaining == 0 || w.state.pool.sqrtPrice == x.limit
  }

  /** The initialised ticks still ahead of a swap. */
  function Ahead(keys: set<int>, tick: int, zeroForOne: bool): set<int> {
    set i | i in keys && Beyond(i, tick, zeroForOne)
  }

  /** The whole swap: from tick to nearest tick, until the amount or the price limit is reached. A step
      that does not cross its tick is the last one. */
  ghost function SwapLoop(w: SwapState, x: SwapArgs): Option<SwapState>
    decreases |Ahead(w.state.ticks.Keys, w.state.pool.tick, x.zeroForOne)|
  {
    var s := w.state;
    if Finished(w, x) then Some(w)
    else
      var n :- NextTick(s.ticks.Keys, s.pool.tick, x.zeroForOne);
      if !(MIN_TICK <= n <= MAX_TICK) || !ValidConfig(s.config) || |s.vault| != 2 then None
      else
        var w' :- SwapStepTo(w, x, n);
        if w'.state.pool.sqrtPrice == SqrtPriceAtTick(n) then
          CrossingShrinksAhead(w, x, n);
          SwapLoop(w', x)
        else if Finished(w', x) then Some(w')
        else None
  }

  lemma CrossingShrinksAhead(w: SwapState, x: SwapArgs, n: int)
    requires MIN_TICK <= n <= MAX_TICK && ValidConfig(w.state.config) && |w.state.vault| == 2
    requires IsNextTick(w.state.ticks.Keys, w.state.pool.tick, x.zeroForOne, n)
    requires SwapStepTo(w, x, n).Some?
    requires SwapStepTo(w, x, n).value.state.pool.sqrtPrice == SqrtPriceAtTick(n)
    ensures var s' := SwapStepTo(w, x, n).value.state;
            && s'.ticks.Keys == w.state.ticks.Keys
            && (s'.pool.tick == if x.zeroForOne then n - 1 else n)
            && Ahead(s'.ticks.Keys, s'.pool.tick, x.zeroForOne)
               == Ahead(w.state.ticks.Keys, w.state.pool.tick, x.zeroForOne) - {n}
            && |Ahead(s'.ticks.Keys, s'.pool.tick, x.zeroForOne)|
               < |Ahead(w.state.ticks.Keys, w.state.pool.tick, x.zeroForOne)|
  {
    hide SqrtPriceAtTick, ComputeStep, CreditFee, TickCross;
    var s' := SwapStepTo(w, x, n).value.state;
    var before := Ahead(w.state.ticks.Keys, w.state.pool.tick, x.zeroForOne);
    var after := Ahead(s'.ticks.Keys, s'.pool.tick, x.zeroForOne);
    assert after == before - {n};
    assert n in before;
  }
}
