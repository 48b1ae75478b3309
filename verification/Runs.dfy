/** Instructions, and runs of any number of them from pool creation on. */
module Runs {
  import opened Wrappers
  import opened FullMath
  import opened LiquidityMath
  import opened TickMath
  import opened SwapMath
  import opened Model
  import opened RewardRules
  import opened Machine

  function EffectiveLimit(limit: nat, zeroForOne: bool): nat {
    if limit != 0 then limit else if zeroForOne then MIN_SQRT_PRICE + 1 else MAX_SQRT_PRICE - 1
  }

  predicate ValidLimit(limit: nat, sqrtPrice: nat, zeroForOne: bool) {
    if zeroForOne then MIN_SQRT_PRICE < limit < sqrtPrice else sqrtPrice < limit < MAX_SQRT_PRICE
  }

  /** The fee totals fit their 64 bits. */
  predicate TotalsFit(pool: Pool, t: nat)
    requires t < 2
  {
    pool.totalFees[t] <= U64_MAX && pool.protocolFees[t] <= U64_MAX && pool.fundFees[t] <= U64_MAX
  }

  /** Totals that fit; amounts that moved; a price that moved; the output is in the vault. A vault
      emptied by the swap freezes the pool. */
  function FinishSwap(before: State, w: SwapState, x: SwapArgs, amount: nat): Option<State> {
    var s := w.state;
    var o := 1 - TokenIn(x.zeroForOne);
    if |s.vault| != 2 || w.remaining > amount || !TotalsFit(s.pool, TokenIn(x.zeroForOne)) then None
    else if amount - w.remaining == 0 || w.calculated == 0 || s.vault[o] < 0 then None
    else if !(if x.zeroForOne then s.pool.sqrtPrice < before.pool.sqrtPrice else before.pool.sqrtPrice < s.pool.sqrtPrice) then None
    else if s.vault[o] == 0 then Some(s.(pool := s.pool.(status := Status(false, false, false, false, false))))
    else Some(s)
  }

  ghost function Swap(s: State, amount: nat, limit: nat, zeroForOne: bool, baseInput: bool, now: nat): Option<State> {
    var x := SwapArgs(zeroForOne, baseInput, EffectiveLimit(limit, zeroForOne));
    if amount == 0 || amount > U64_MAX || !s.pool.status.swap || now <= s.pool.openTime then None
    else if !ValidLimit(x.limit, s.pool.sqrtPrice, zeroForOne) then None
    else
      var pool :- AccrueRewards(s.pool, now);
      var w :- SwapLoop(SwapState(s.(pool := pool), amount, 0), x);
      FinishSwap(s, w, x, amount)
  }

  function UpdateRewards(s: State, now: nat): Option<State> {
    var pool :- AccrueRewards(s.pool, now);
    Some(s.(pool := pool))
  }

  /** The lowest reward slot not in use gets a schedule; the funder pays its whole emission in advance. */
  function InitializeReward(s: State, openTime: nat, endTime: nat, emissions: nat, now: nat): Option<State> {
    if openTime >= endTime || openTime < now || emissions == 0 || emissions > U128_MAX then None
    else if endTime - openTime < MIN_REWARD_PERIOD || endTime - openTime > MAX_REWARD_PERIOD then None
    else
      var amount :- MulDivCeil(endTime - openTime, emissions, Q64, U256_MAX, U128_MAX);
      var r := s.pool.rewards;
      if amount > U64_MAX || (r[0].initialized && r[1].initialized && r[2].initialized) then None
      else
        var j := if !r[0].initialized then 0 else if !r[1].initialized then 1 else 2;
        var r' := r[j].(initialized := true, openTime := openTime, lastUpdate := openTime,
                        endTime := endTime, emissions := emissions);
        Some(s.(pool := s.pool.(rewards := r[j := r']), rewardVault := s.rewardVault[j := s.rewardVault[j] + amount]))
  }

  function SetRewardParams(s: State, j: nat, emissions: nat, openTime: nat, endTime: nat, operator: bool, now: nat): Option<State> {
    if j >= REWARDS || endTime <= openTime || emissions == 0 || emissions > U128_MAX || openTime <= now then None
    else
      var pool :- AccrueRewards(s.pool, now);
      var r := pool.rewards[j];
      if !r.initialized || (!operator && now <= r.openTime) then None
      else
        var u :- if operator then AdminUpdate(r, now, emissions, openTime, endTime)
                 else NormalUpdate(r, now, emissions, openTime, endTime);
        Some(s.(pool := pool.(rewards := pool.rewards[j := u.0]),
                rewardVault := s.rewardVault[j := s.rewardVault[j] + u.1]))
  }

  /** After the end of a schedule the owner takes back what no position can claim. */
  function CollectRemainingRewards(s: State, j: nat, now: nat): Option<State> {
    if j >= REWARDS then None
    else
      var pool :- AccrueRewards(s.pool, now);
      var r := pool.rewards[j];
      var kept := r.emissioned - r.claimed;
      if !r.initialized || r.lastUpdate != r.endTime || kept < 0 || s.rewardVault[j] < kept then None
      else Some(s.(pool := pool, rewardVault := s.rewardVault[j := kept]))
  }

  function CollectProtocolFee(s: State, requested0: nat, requested1: nat): Option<State> {
    var p := s.pool.protocolFees;
    var a, b := Min(requested0, p[0]), Min(requested1, p[1]);
    if |s.vault| != 2 then None
    else
      var paid :- Payout(s.(pool := s.pool.(protocolFees := [p[0] - a, p[1] - b])), a, b);
      Some(CheckVaults(paid))
  }

  function CollectFundFee(s: State, requested0: nat, requested1: nat): Option<State> {
    var p := s.pool.fundFees;
    var a, b := Min(requested0, p[0]), Min(requested1, p[1]);
    if |s.vault| != 2 then None
    else
      var paid :- Payout(s.(pool := s.pool.(fundFees := [p[0] - a, p[1] - b])), a, b);
      Some(CheckVaults(paid))
  }

  /** The fee rates stay valid under every accepted change. */
  function UpdateConfig(s: State, c: Config): Option<State> {
    if ValidConfig(c) then Some(s.(config := c)) else None
  }

  datatype Action =
    | DoOpen(lower: int, upper: int, liquidity: nat, max0: nat, max1: nat, base0: Option<bool>)
    | DoIncrease(id: nat, liquidity: nat, max0: nat, max1: nat, base0: Option<bool>)
    | DoDecrease(id: nat, liquidity: nat, min0: nat, min1: nat)
    | DoSwap(amount: nat, limit: nat, zeroForOne: bool, baseInput: bool)
    | DoUpdateRewards
    | DoInitializeReward(openTime: nat, endTime: nat, emissions: nat)
    | DoSetRewardParams(j: nat, emissions: nat, openTime: nat, endTime: nat, operator: bool)
    | DoCollectRemaining(j: nat)
    | DoCollectProtocolFee(requested0: nat, requested1: nat)
    | DoCollectFundFee(requested0: nat, requested1: nat)
    | DoSetStatus(status: Status)
    | DoUpdateConfig(config: Config)

  datatype Transaction = Transaction(action: Action, now: nat)

  ghost function Execute(s: State, a: Action, now: nat): Option<State> {
    match a
    case DoOpen(lower, upper, liquidity, max0, max1, base0) => OpenPosition(s, lower, upper, liquidity, max0, max1, base0, now)
    case DoIncrease(id, liquidity, max0, max1, base0) => IncreaseLiquidity(s, id, liquidity, max0, max1, base0, now)
    case DoDecrease(id, liquidity, min0, min1) => DecreaseLiquidity(s, id, liquidity, min0, min1, now)
    case DoSwap(amount, limit, zeroForOne, baseInput) => Swap(s, amount, limit, zeroForOne, baseInput, now)
    case DoUpdateRewards => UpdateRewards(s, now)
    case DoInitializeReward(openTime, endTime, emissions) => InitializeReward(s, openTime, endTime, emissions, now)
    case DoSetRewardParams(j, emissions, openTime, endTime, operator) => SetRewardParams(s, j, emissions, openTime, endTime, operator, now)
    case DoCollectRemaining(j) => CollectRemainingRewards(s, j, now)
    case DoCollectProtocolFee(a, b) => CollectProtocolFee(s, a, b)
    case DoCollectFundFee(a, b) => CollectFundFee(s, a, b)
    case DoSetStatus(status) => Some(s.(pool := s.pool.(status := status)))
    case DoUpdateConfig(config) => UpdateConfig(s, config)
  }

  /** The clock never runs backwards; an aborted transaction leaves the accounts as they were. */
  ghost function Step(s: State, t: Transaction): State {
    if t.now < s.clock then s
    else
      match Execute(s.(clock := t.now), t.action, t.now)
      case Some(s') => s'
      case None => s
  }

  ghost function Run(s: State, ts: seq<Transaction>): State {
    if ts == [] then s else Step(Run(s, ts[..|ts| - 1]), ts[|ts| - 1])
  }

  /** A new pool at a price within the tick range. */
  function CreatePool(spacing: nat, sqrtPrice: nat, openTime: nat, config: Config, now: nat): (r: Option<State>)
  {
    if spacing == 0 || !ValidConfig(config) || sqrtPrice < MIN_SQRT_PRICE || sqrtPrice >= MAX_SQRT_PRICE then None
    else
      var none := Reward(false, 0, 0, 0, 0, 0, 0, 0);
      var pool := Pool(spacing, openTime, Status(true, true, true, true, true), 0, sqrtPrice, TickAtSqrtPrice(sqrtPrice),
                       [0, 0], [0, 0], [0, 0], [0, 0], [0, 0], [none, none, none]);
      Some(State(pool, config, map[], map[], [], [0, 0], [0, 0, 0], now))
  }
}
