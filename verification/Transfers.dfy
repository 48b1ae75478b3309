/** What every instruction moves, in tokens and in claims, stated by vaults, positions and exact values. */
module Transfers {
  import opened Wrappers
  import opened FullMath
  import opened LiquidityMath
  import opened TickMath
  import opened SwapMath
  import opened Model
  import opened Ticks
  import opened RewardRules
  import opened Positions
  import opened Ledger
  import opened GrowthLedger
  import opened Curve
  import opened Machine
  import opened Runs
  import opened Invariants
  import opened SwapInvariant
  import opened SwapRuns
  import opened FeeSplit
  import opened RewardInvariant
  import opened LiquidityInvariant
  import opened InstructionInvariant

  // ---------------------------------------------------------------------------------------------
  // Deposits and refunds

  /** Amounts x and y are what a liquidity in a range is worth at the pool's price, each rounded once. */
  ghost predicate Worth(pool: Pool, lower: int, upper: int, liquidity: nat, x: nat, y: nat, roundUp: bool) {
    && MIN_TICK <= lower < upper <= MAX_TICK && pool.sqrtPrice > 0
    && 0 < SqrtPriceAtTick(lower) <= SqrtPriceAtTick(upper)
    && Rounds(x, Value(0, liquidity, SqrtPriceAtTick(lower), SqrtPriceAtTick(upper), pool.sqrtPrice), roundUp)
    && Rounds(y, Value(1, liquidity, SqrtPriceAtTick(lower), SqrtPriceAtTick(upper), pool.sqrtPrice), roundUp)
  }

  /** The amounts of a change of liquidity: what it is worth, rounded up when it is added and down when it
      is removed. */
  lemma ModifyAmounts(pool: Pool, q: Protocol, lo: Tick, up: Tick, lower: int, upper: int, delta: int, now: nat)
    requires Coupled(pool) && MIN_TICK <= lower < upper <= MAX_TICK
    ensures var m := ModifyPosition(pool, q, lo, up, lower, upper, delta, now);
            m.Some? ==>
              && (delta == 0 ==> m.value.amount0 == 0 && m.value.amount1 == 0)
              && (delta > 0 ==> Worth(pool, lower, upper, delta, m.value.amount0, m.value.amount1, true))
              && (delta < 0 ==> Worth(pool, lower, upper, -delta, m.value.amount0, m.value.amount1, false))
  {
    hide UpdatePosition, DeltaAmounts, SqrtPriceAtTick, Value, Coupled, Rounds;
    var m := ModifyPosition(pool, q, lo, up, lower, upper, delta, now);
    if m.Some? && delta != 0 {
      AmountsAgainstValue(pool, lower, upper, delta, m.value.amount0, m.value.amount1);
    }
  }

  /** The liquidity that an accepted addition adds: the one asked for, or else the largest one that the
      maximum of the base token buys in its part of the range. */
  ghost predicate Granted(pool: Pool, lower: int, upper: int, liquidity: nat, max0: nat, max1: nat, base0: Option<bool>, added: nat)
    requires MIN_TICK <= lower <= MAX_TICK && MIN_TICK <= upper <= MAX_TICK
  {
    var a, b := SqrtPriceAtTick(lower), SqrtPriceAtTick(upper);
    var c := Clamp(pool.sqrtPrice, a, b);
    && added > 0
    && (if liquidity > 0 then added == liquidity
        else if base0 == Some(true) then
          && c < b && added * Q64 * (b - c) <= max0 * (c * b)
          && max0 * (c * b - Q64) < (added + 1) * Q64 * (b - c)
        else
          && base0 == Some(false) && a < c && IsFloor(added, max1 * Q64, c - a))
  }

  lemma RequestIsGranted(pool: Pool, lower: int, upper: int, liquidity: nat, max0: nat, max1: nat, base0: Option<bool>)
    requires Coupled(pool) && MIN_TICK <= lower < upper <= MAX_TICK && !(liquidity == 0 && base0.None?)
    ensures var r := RequestedLiquidity(pool, lower, upper, liquidity, max0, max1, base0);
            r.Some? && r.value > 0 ==> Granted(pool, lower, upper, liquidity, max0, max1, base0, r.value)
  {
    hide SqrtPriceAtTick, LiquidityFromAmount0, LiquidityFromAmount1, Coupled;
    PriceAtLeast(lower);
    PriceIncreases(lower, upper);
    var a, b, p := SqrtPriceAtTick(lower), SqrtPriceAtTick(upper), pool.sqrtPrice;
    var c := Clamp(p, a, b);
    var r := RequestedLiquidity(pool, lower, upper, liquidity, max0, max1, base0);
    if liquidity == 0 && r.Some? && r.value > 0 {
      if base0.value {
        LiquidityFromAmount0IsLargest(c, b, max0);
        PayingNothingBuysNothing(c, b, max0);
      } else {
        PriceBought1(a, c, max1);
      }
    }
  }

  lemma PayingNothingBuysNothing(a: nat, b: nat, amount: nat)
    requires a < b
    ensures LiquidityFromAmount0(a, b, amount).Some? && LiquidityFromAmount0(a, b, amount).value > 0 ==> amount > 0
  {
    hide MulDivFloor;
    if LiquidityFromAmount0(a, b, amount).Some? && amount == 0 {
      var l := LiquidityFromAmount0(a, b, amount).value;
      assert l * (b - a) <= 0;
    }
  }

  lemma PriceBought1(a: nat, b: nat, amount: nat)
    requires a <= b
    ensures var r := LiquidityFromAmount1(a, b, amount); r.Some? ==> a < b && IsFloor(r.value, amount * Q64, b - a)
  {
    hide MulDivFloor;
  }

  /** An accepted addition takes exactly what the liquidity is worth, rounded up, and within the maxima. */
  ghost predicate Deposited(s: State, s': State, lower: int, upper: int, added: nat, max0: nat, max1: nat) {
    && |s.vault| == 2 && |s'.vault| == 2
    && var x, y := s'.vault[0] - s.vault[0], s'.vault[1] - s.vault[1];
       0 <= x <= max0 && 0 <= y <= max1 && x + y > 0 && Worth(s.pool, lower, upper, added, x, y, true)
  }

  lemma AdditionMeans(s: State, q: Protocol, lower: int, upper: int, liquidity: nat, max0: nat, max1: nat, base0: Option<bool>, now: nat, a: Added)
    requires Coupled(s.pool) && |s.vault| == 2 && MIN_TICK <= lower < upper <= MAX_TICK
    requires AddLiquidity(s, q, lower, upper, liquidity, max0, max1, base0, now) == Some(a)
    ensures if liquidity == 0 && base0.None? then a == Added(s, q, 0)
            else
              && Granted(s.pool, lower, upper, liquidity, max0, max1, base0, a.liquidity)
              && Deposited(s, a.state, lower, upper, a.liquidity, max0, max1)
              && a.protocol.liquidity == q.liquidity + a.liquidity
    ensures a.state == s.(pool := a.state.pool, ticks := a.state.ticks, vault := a.state.vault)
  {
    hide ModifyPosition, RequestedLiquidity, Granted, Worth, Coupled, SqrtPriceAtTick;
    if !(liquidity == 0 && base0.None?) {
      RequestIsGranted(s.pool, lower, upper, liquidity, max0, max1, base0);
      ModifyAmounts(s.pool, q, TickOf(s.ticks, lower), TickOf(s.ticks, upper), lower, upper, a.liquidity, now);
      ModifyRecords(s.pool, q, TickOf(s.ticks, lower), TickOf(s.ticks, upper), lower, upper, a.liquidity, now);
    }
  }

  /** The range takes the change of liquidity. */
  lemma ModifyRecords(pool: Pool, q: Protocol, lo: Tick, up: Tick, lower: int, upper: int, delta: int, now: nat)
    requires MIN_TICK <= lower <= MAX_TICK && MIN_TICK <= upper <= MAX_TICK
    ensures var m := ModifyPosition(pool, q, lo, up, lower, upper, delta, now);
            m.Some? ==> m.value.state.protocol.liquidity == q.liquidity + delta
  {
    hide AccrueRewards, TickUpdate, GrowthsInside, DeltaAmounts, RecordFee;
  }

  /** Both ticks of a change take it, with the sign of the end they are; one that was not in use starts as if
      all growth so far, rewards accrued, had happened below it. */
  lemma ModifyTicks(pool: Pool, q: Protocol, lo: Tick, up: Tick, lower: int, upper: int, delta: int, now: nat, k: nat)
    requires MIN_TICK <= lower <= MAX_TICK && MIN_TICK <= upper <= MAX_TICK && k < COUNTERS
    ensures var m := ModifyPosition(pool, q, lo, up, lower, upper, delta, now);
            m.Some? ==>
              var u := m.value.state; var growth := Growth(u.pool, k);
              && u.lower.gross == lo.gross + delta && u.lower.net == lo.net + delta
              && u.upper.gross == up.gross + delta && u.upper.net == up.net - delta
              && (lo == EMPTY_TICK && delta != 0 ==>
                    Below(u.lower.outside[k], lower, u.pool.tick, growth) == growth && Above(u.lower.outside[k], lower, u.pool.tick, growth) == 0)
              && (up == EMPTY_TICK && delta != 0 ==>
                    Below(u.upper.outside[k], upper, u.pool.tick, growth) == growth && Above(u.upper.outside[k], upper, u.pool.tick, growth) == 0)
  {
    hide AccrueReward, GrowthsInside, ProtocolUpdate, DeltaAmounts, TickUpdate, Below, Above, SqrtPriceAtTick;
    var m := ModifyPosition(pool, q, lo, up, lower, upper, delta, now);
    if m.Some? && delta != 0 {
      var pool1 := AccrueRewards(pool, now).value;
      assert Growths(pool1)[k] == Growth(pool1, k);
      TickUpdateMeans(lo, lower, pool1.tick, delta, Growths(pool1), false);
      TickUpdateMeans(up, upper, pool1.tick, delta, Growths(pool1), true);
      FreshTickCountsAsBelow(lower, pool1.tick, delta, Growths(pool1), false, k);
      FreshTickCountsAsBelow(upper, pool1.tick, delta, Growths(pool1), true, k);
    }
  }

  /** Opening: the deposit is paid, and a position with exactly the liquidity granted, and nothing owed, is
      added to the end. */
  lemma OpenMeans(s: State, lower: int, upper: int, liquidity: nat, max0: nat, max1: nat, base0: Option<bool>, now: nat, s': State)
    requires Coupled(s.pool) && OpenPosition(s, lower, upper, liquidity, max0, max1, base0, now) == Some(s')
    ensures MIN_TICK <= lower < upper <= MAX_TICK && |s'.positions| == |s.positions| + 1
    ensures s'.positions[..|s.positions|] == s.positions
    ensures var p := s'.positions[|s.positions|];
            && p.lower == lower && p.upper == upper && p.owed == NO_GROWTH
            && (lower, upper) in s'.protocols && p.last == s'.protocols[(lower, upper)].last
            && (if liquidity == 0 && base0.None? then p.liquidity == 0 && s'.vault == s.vault
                else Granted(s.pool, lower, upper, liquidity, max0, max1, base0, p.liquidity)
                     && Deposited(s, s', lower, upper, p.liquidity, max0, max1))
  {
    hide AddLiquidity, Granted, Worth, Coupled;
    var q := if (lower, upper) in s.protocols then s.protocols[(lower, upper)] else Protocol(0, NO_GROWTH, [0, 0]);
    AdditionMeans(s, q, lower, upper, liquidity, max0, max1, base0, now, AddLiquidity(s, q, lower, upper, liquidity, max0, max1, base0, now).value);
  }

  /** Nobody else's position changes. */
  ghost predicate OthersSame(s: State, s': State, id: nat) {
    && |s'.positions| == |s.positions|
    && forall i :: 0 <= i < |s.positions| && i != id ==> s'.positions[i] == s.positions[i]
  }

  /** What a position is owed after a visit: on every counter, the floor of the growth its range has
      recorded, on top of what it was owed. */
  ghost predicate SettledAt(p: Position, p': Position, latest: Counters) {
    && p'.lower == p.lower && p'.upper == p.upper && p'.last == latest
    && forall k: nat :: k < COUNTERS ==> OwesFloor(p.owed[k], p'.owed[k], (latest[k] - p.last[k]) % U128_MOD, p.liquidity)
  }

  /** Increasing: the deposit is paid, the position grows by exactly the liquidity granted and is settled. */
  lemma IncreaseMeans(s: State, id: nat, liquidity: nat, max0: nat, max1: nat, base0: Option<bool>, now: nat, s': State)
    requires Coupled(s.pool) && IncreaseLiquidity(s, id, liquidity, max0, max1, base0, now) == Some(s')
    ensures HasRange(s, id) && OthersSame(s, s', id)
    ensures var p, p' := s.positions[id], s'.positions[id]; var range := (p.lower, p.upper);
            && range in s'.protocols && SettledAt(p, p', s'.protocols[range].last) && p'.liquidity >= p.liquidity
            && (if liquidity == 0 && base0.None? then p'.liquidity == p.liquidity && s'.vault == s.vault
                else Granted(s.pool, p.lower, p.upper, liquidity, max0, max1, base0, p'.liquidity - p.liquidity)
                     && Deposited(s, s', p.lower, p.upper, p'.liquidity - p.liquidity, max0, max1))
  {
    hide AddLiquidity, Granted, Worth, Coupled, Settle, OwesFloor;
    var p := s.positions[id];
    var q := s.protocols[(p.lower, p.upper)];
    var a := AddLiquidity(s, q, p.lower, p.upper, liquidity, max0, max1, base0, now).value;
    AdditionMeans(s, q, p.lower, p.upper, liquidity, max0, max1, base0, now, a);
    SettlePaysFloors(p, a.protocol.last, Settle(p, a.protocol.last).value);
  }

  /** Burning: the amounts are what the liquidity is worth, rounded down; the position shrinks by exactly
      that liquidity and is settled. */
  lemma BurnMeans(s: State, id: nat, liquidity: nat, now: nat, b: Burned)
    requires Coupled(s.pool) && HasRange(s, id) && liquidity <= s.positions[id].liquidity
    requires Burn(s, id, liquidity, now) == Some(b)
    ensures var p, s' := s.positions[id], b.state; var range := (p.lower, p.upper);
            && OthersSame(s, s', id) && s'.vault == s.vault && s'.rewardVault == s.rewardVault
            && range in s'.protocols && SettledAt(p, s'.positions[id], s'.protocols[range].last)
            && s'.positions[id].liquidity == p.liquidity - liquidity
            && (if liquidity == 0 then b.amount0 == 0 && b.amount1 == 0
                else Worth(s.pool, p.lower, p.upper, liquidity, b.amount0, b.amount1, false))
  {
    hide ModifyPosition, Worth, Coupled, Settle, OwesFloor;
    var p := s.positions[id];
    var q := s.protocols[(p.lower, p.upper)];
    ModifyAmounts(s.pool, q, TickOf(s.ticks, p.lower), TickOf(s.ticks, p.upper), p.lower, p.upper, -(liquidity as int), now);
    var m := ModifyPosition(s.pool, q, TickOf(s.ticks, p.lower), TickOf(s.ticks, p.upper), p.lower, p.upper, -(liquidity as int), now).value;
    SettlePaysFloors(p, m.state.protocol.last, Settle(p, m.state.protocol.last).value);
  }

  // ---------------------------------------------------------------------------------------------
  // Fees and rewards paid out

  /** On counter k, what the position is no longer owed has been claimed from the pool. */
  ghost predicate Claims(s: State, s': State, id: nat, k: nat, amount: int)
    requires k < COUNTERS && id < |s.positions| && id < |s'.positions|
  {
    && amount >= 0
    && s'.positions[id].owed[k] == s.positions[id].owed[k] - amount
    && Unclaimed(s'.pool, k) == Unclaimed(s.pool, k) - amount
  }

  /** Everything but owed amounts stays in a position. */
  ghost predicate OwedOnly(s: State, s': State, id: nat) {
    && OthersSame(s, s', id)
    && (id < |s.positions| ==> s'.positions[id] == s.positions[id].(owed := s'.positions[id].owed))
  }

  /** Both owed fees are paid in full: struck off the position, claimed from the pool, handed out. It is
      refused exactly if one of them has not been collected. */
  lemma CollectFeesMeans(s: State, id: nat)
    requires id < |s.positions|
    ensures var c := CollectFees(s, id); var owed := s.positions[id].owed;
            && (c.None? <==> owed[0] > Unclaimed(s.pool, 0) || owed[1] > Unclaimed(s.pool, 1))
            && (c.Some? ==>
                  var s' := c.value.state;
                  && c.value.fee0 == owed[0] && c.value.fee1 == owed[1] && OwedOnly(s, s', id)
                  && Claims(s, s', id, 0, owed[0]) && Claims(s, s', id, 1, owed[1])
                  && (forall k :: TOKENS <= k < COUNTERS ==> Claims(s, s', id, k, 0))
                  && s' == s.(pool := s.pool.(claimedFees := s'.pool.claimedFees), positions := s'.positions))
  {
  }

  /** A reward pays what is owed as far as its vault reaches; that much is struck off, claimed and taken
      from the vault. */
  ghost predicate PaysReward(s: State, s': State, id: nat, j: nat)
    requires j < REWARDS && id < |s.positions| && id < |s'.positions|
  {
    var amount := s.rewardVault[j] as int - s'.rewardVault[j];
    && Claims(s, s', id, TOKENS + j, amount)
    && amount == (if s.pool.rewards[j].initialized then Min(s.positions[id].owed[TOKENS + j], s.rewardVault[j]) else 0)
  }

  /** Reward j is untouched. */
  ghost predicate SameReward(s: State, s': State, id: nat, j: nat)
    requires j < REWARDS && id < |s.positions| && id < |s'.positions|
  {
    && s'.rewardVault[j] == s.rewardVault[j] && s'.pool.rewards[j] == s.pool.rewards[j]
    && s'.positions[id].owed[TOKENS + j] == s.positions[id].owed[TOKENS + j]
  }

  /** Rewards are paid without touching anything else. */
  ghost predicate RewardsOnly(s: State, s': State, id: nat)
    requires id < |s.positions|
  {
    && OwedOnly(s, s', id)
    && s'.positions[id].owed[0] == s.positions[id].owed[0] && s'.positions[id].owed[1] == s.positions[id].owed[1]
    && s' == s.(pool := s.pool.(rewards := s'.pool.rewards), positions := s'.positions, rewardVault := s'.rewardVault)
  }

  lemma CollectRewardMeans(s: State, id: nat, j: nat, s': State)
    requires id < |s.positions| && j < REWARDS && CollectReward(s, id, j) == Some(s')
    ensures RewardsOnly(s, s', id) && PaysReward(s, s', id, j)
    ensures forall i :: 0 <= i < REWARDS && i != j ==> SameReward(s, s', id, i)
  {
  }

  lemma CollectRewardsMeans(s: State, id: nat, s': State)
    requires id < |s.positions| && CollectRewards(s, id) == Some(s')
    ensures RewardsOnly(s, s', id)
    ensures forall j :: 0 <= j < REWARDS ==> if s.pool.status.collectReward then PaysReward(s, s', id, j) else SameReward(s, s', id, j)
  {
    hide CollectReward;
    if s.pool.status.collectReward {
      var s0 := CollectReward(s, id, 0).value;
      CollectRewardMeans(s, id, 0, s0);
      var s1 := CollectReward(s0, id, 1).value;
      CollectRewardMeans(s0, id, 1, s1);
      CollectRewardMeans(s1, id, 2, s');
      RewardsInTurn(s, s0, s1, s', id);
    }
  }

  lemma RewardsInTurn(s: State, s0: State, s1: State, s': State, id: nat)
    requires id < |s.positions|
    requires RewardsOnly(s, s0, id) && PaysReward(s, s0, id, 0) && SameReward(s, s0, id, 1) && SameReward(s, s0, id, 2)
    requires RewardsOnly(s0, s1, id) && PaysReward(s0, s1, id, 1) && SameReward(s0, s1, id, 0) && SameReward(s0, s1, id, 2)
    requires RewardsOnly(s1, s', id) && PaysReward(s1, s', id, 2) && SameReward(s1, s', id, 0) && SameReward(s1, s', id, 1)
    ensures RewardsOnly(s, s', id)
    ensures forall j :: 0 <= j < REWARDS ==> PaysReward(s, s', id, j)
  {
    forall j | 0 <= j < REWARDS ensures PaysReward(s, s', id, j) {
      assert j == 0 || j == 1 || j == 2;
    }
  }

  /** Fee collection is switched off exactly when the unclaimed fees of a token reach its whole vault. */
  ghost predicate VaultsChecked(s: State, s': State)
    requires |s.vault| == 2
  {
    var whole := exists t: nat :: t < TOKENS && s.vault[t] != 0 && Unclaimed(s.pool, t) >= s.vault[t];
    s' == s.(pool := s.pool.(status := if whole then s.pool.status.(collectFee := false) else s.pool.status))
  }

  lemma CheckVaultsMeans(s: State)
    requires |s.vault| == 2
    ensures VaultsChecked(s, CheckVaults(s))
  {
    var s' := CheckVaults(s);
    if t: nat :| t < TOKENS && s.vault[t] != 0 && Unclaimed(s.pool, t) >= s.vault[t] {
      assert t == 0 || t == 1;
    }
  }

  /** The burn of a withdrawal refunds x and y and leaves the position settled as p1. It is skipped, with
      nothing refunded, when decreasing is switched off. */
  ghost predicate Refunded(s: State, id: nat, liquidity: nat, x: nat, y: nat, p1: Position)
    requires id < |s.positions|
  {
    var p := s.positions[id];
    if s.pool.status.decrease then
      && p1.liquidity == p.liquidity - liquidity && SettledAt(p, p1, p1.last)
      && (if liquidity == 0 then x == 0 && y == 0 else Worth(s.pool, p.lower, p.upper, liquidity, x, y, false))
    else p1 == p && x == 0 && y == 0
  }

  /** The refund and both owed fees leave the vaults, what is owed in rewards leaves the reward vaults as far
      as they reach; all of it is struck off the position and, but for the refund, claimed from the pool. */
  ghost predicate PaidOut(s: State, s': State, id: nat, x: nat, y: nat, p1: Position)
  {
    var status := s.pool.status;
    var fee0, fee1 := if status.collectFee then p1.owed[0] else 0, if status.collectFee then p1.owed[1] else 0;
    && OthersSame(s, s', id) && id < |s'.positions| && |s.vault| == 2 && |s'.vault| == 2
    && s'.vault[0] == s.vault[0] - x - fee0 && s'.vault[1] == s.vault[1] - y - fee1 && s'.vault[0] >= 0 && s'.vault[1] >= 0
    && Unclaimed(s'.pool, 0) == Unclaimed(s.pool, 0) - fee0 && Unclaimed(s'.pool, 1) == Unclaimed(s.pool, 1) - fee1
    && var p' := s'.positions[id];
       && p' == p1.(owed := p'.owed) && p'.owed[0] == p1.owed[0] - fee0 && p'.owed[1] == p1.owed[1] - fee1
       && forall j :: 0 <= j < REWARDS ==> RewardPaid(s, s', p1, p', j)
  }

  ghost predicate RewardPaid(s: State, s': State, p1: Position, p': Position, j: nat)
    requires j < REWARDS
  {
    var paid := s.rewardVault[j] as int - s'.rewardVault[j];
    && paid == (if s.pool.status.collectReward && s.pool.rewards[j].initialized then Min(p1.owed[TOKENS + j], s.rewardVault[j]) else 0)
    && p'.owed[TOKENS + j] == p1.owed[TOKENS + j] - paid
  }

  /** A withdrawal: a refund, not below the minima, and the payment of refund, fees and rewards. */
  lemma DecreaseMeans(s: State, id: nat, liquidity: nat, min0: nat, min1: nat, now: nat, s': State) returns (x: nat, y: nat, p1: Position)
    requires Coupled(s.pool) && DecreaseLiquidity(s, id, liquidity, min0, min1, now) == Some(s')
    ensures id < |s.positions| && Refunded(s, id, liquidity, x, y, p1)
    ensures s.pool.status.decrease ==>
              HasRange(s, id) && liquidity <= s.positions[id].liquidity && Burn(s, id, liquidity, now).Some?
              && Burn(s, id, liquidity, now).value.state.positions[id..] != [] && p1 == Burn(s, id, liquidity, now).value.state.positions[id]
    ensures liquidity > 0 ==> x >= min0 && y >= min1
    ensures PaidOut(s, s', id, x, y, p1)
  {
    hide Burn, CollectFees, CollectRewards, CheckVaults, Worth, Coupled, OwesFloor, PaidOut, Accrues;
    var status := s.pool.status;
    var b := if status.decrease then Burn(s, id, liquidity, now).value else Burned(s, 0, 0);
    if status.decrease {
      BurnMeans(s, id, liquidity, now, b);
      BurnKeepsRewardsAndFees(s, id, liquidity, now, b);
    }
    x, y, p1 := b.amount0, b.amount1, b.state.positions[id];
    var c := if status.collectFee then CollectFees(b.state, id).value else Collected(b.state, 0, 0);
    CollectFeesMeans(b.state, id);
    CheckVaultsMeans(Payout(c.state, x + c.fee0, y + c.fee1).value);
    PaymentMeans(b.state, id, x, y, c, s');
    PaidOutFrom(s, b.state, s', id, x, y, p1);
  }

  lemma PaymentMeans(s: State, id: nat, x: nat, y: nat, c: Collected, s': State)
    requires id < |s.positions| && |s.vault| == 2
    requires if s.pool.status.collectFee then CollectFees(s, id) == Some(c) else c == Collected(s, 0, 0)
    requires |c.state.vault| == 2 && Payout(c.state, x + c.fee0, y + c.fee1).Some?
    requires id < |CheckVaults(Payout(c.state, x + c.fee0, y + c.fee1).value).positions|
    requires CollectRewards(CheckVaults(Payout(c.state, x + c.fee0, y + c.fee1).value), id) == Some(s')
    ensures PaidOut(s, s', id, x, y, s.positions[id])
  {
    hide CollectFees, CollectRewards, CheckVaults;
    CollectFeesMeans(s, id);
    var paid := Payout(c.state, x + c.fee0, y + c.fee1).value;
    var w := CheckVaults(paid);
    CheckVaultsMeans(paid);
    CollectRewardsMeans(w, id, s');
    forall j | 0 <= j < REWARDS ensures RewardPaid(s, s', s.positions[id], s'.positions[id], j) {
      assert if s.pool.status.collectReward then PaysReward(w, s', id, j) else SameReward(w, s', id, j);
      assert s.pool.status.collectFee ==> Claims(s, c.state, id, TOKENS + j, 0);
    }
  }

  /** A payment out of a state that differs in what a burn changes only. */
  lemma PaidOutFrom(s: State, b: State, s': State, id: nat, x: nat, y: nat, p1: Position)
    requires PaidOut(b, s', id, x, y, p1) && OthersSame(s, b, id) && b.vault == s.vault && b.rewardVault == s.rewardVault
    requires b.pool == s.pool.(liquidity := b.pool.liquidity, rewards := b.pool.rewards)
    requires forall j :: 0 <= j < REWARDS ==> b.pool.rewards[j].initialized == s.pool.rewards[j].initialized
    ensures PaidOut(s, s', id, x, y, p1)
  {
    forall j | 0 <= j < REWARDS ensures RewardPaid(s, s', p1, s'.positions[id], j) {
      assert RewardPaid(b, s', p1, s'.positions[id], j);
    }
  }

  /** Neither fees nor the status of the pool, nor which rewards are set up, depend on a burn. */
  lemma BurnKeepsRewardsAndFees(s: State, id: nat, liquidity: nat, now: nat, b: Burned)
    requires HasRange(s, id) && liquidity <= s.positions[id].liquidity && Burn(s, id, liquidity, now) == Some(b)
    ensures b.state.pool == s.pool.(liquidity := b.state.pool.liquidity, rewards := b.state.pool.rewards)
    ensures forall j :: 0 <= j < REWARDS ==> Accrues(s.pool.rewards[j], b.state.pool.rewards[j], s.pool.liquidity, now)
    ensures forall j :: 0 <= j < REWARDS ==> b.state.pool.rewards[j].initialized == s.pool.rewards[j].initialized
  {
    hide AccrueRewards, TickUpdate, GrowthsInside, DeltaAmounts, ProtocolUpdate, Settle;
    RewardsAccrue(s.pool, now, AccrueRewards(s.pool, now).value);
    forall j | 0 <= j < REWARDS ensures b.state.pool.rewards[j].initialized == s.pool.rewards[j].initialized {
      assert Accrues(s.pool.rewards[j], b.state.pool.rewards[j], s.pool.liquidity, now);
    }
  }

  // ---------------------------------------------------------------------------------------------
  // Swaps

  /** The price limit a swap keeps to: the caller's own, or the last price inside the range. */
  ghost predicate WithinLimit(limit: nat, zeroForOne: bool, before: nat, after: nat) {
    if zeroForOne then after < before && (if limit != 0 then limit <= after else MIN_SQRT_PRICE < after)
    else before < after && (if limit != 0 then after <= limit else after < MAX_SQRT_PRICE)
  }

  /** At the limit, so that the swap cannot go on. */
  ghost predicate AtLimit(limit: nat, zeroForOne: bool, price: nat) {
    if limit != 0 then price == limit
    else price == if zeroForOne then MIN_SQRT_PRICE + 1 else MAX_SQRT_PRICE - 1
  }

  /** A swap takes the input, pays the output, keeps to the caller's limit, and stops only when the specified
      amount is used up or the limit is reached. Rewards accrue first. A vault it empties freezes the pool;
      otherwise the status stays. */
  lemma SwapMeans(s: State, amount: nat, limit: nat, zeroForOne: bool, baseInput: bool, now: nat, s': State)
    requires Inv(s) && s.clock == now
    requires Swap(s, amount, limit, zeroForOne, baseInput, now) == Some(s')
    ensures |s.vault| == 2 && |s'.vault| == 2 && s'.positions == s.positions && s'.config == s.config
    ensures var t := TokenIn(zeroForOne); var paid, received := s'.vault[t] - s.vault[t], s.vault[1 - t] - s'.vault[1 - t];
            && WithinLimit(limit, zeroForOne, s.pool.sqrtPrice, s'.pool.sqrtPrice)
            && paid > 0 && received > 0 && s'.vault[1 - t] >= 0
            && (var specified := if baseInput then paid else received;
                specified <= amount && (specified < amount ==> AtLimit(limit, zeroForOne, s'.pool.sqrtPrice)))
            && s'.pool.status == (if s'.vault[1 - t] == 0 then Status(false, false, false, false, false) else s.pool.status)
    ensures forall j :: 0 <= j < REWARDS ==> Accrues(s.pool.rewards[j], s'.pool.rewards[j], s.pool.liquidity, now)
  {
    hide AccrueRewards, SwapLoop, Inv, LimitAhead, Accrues, Accounts, KeepsValue;
    var x := SwapArgs(zeroForOne, baseInput, EffectiveLimit(limit, zeroForOne));
    var pool := AccrueRewards(s.pool, now).value;
    var w := SwapState(s.(pool := pool), amount, 0);
    AccrueRewardsKeeps(s, now, pool);
    RewardsAccrue(s.pool, now, pool);
    ValidLimitAhead(pool, x);
    LoopKeeps(w, x);
    LoopAccounts(w, x);
    LoopKeepsStatus(w, x);
    RevealInv(s);
    SwapTotals(w, SwapLoop(w, x).value, x);
  }

  lemma SwapTotals(w: SwapState, w': SwapState, x: SwapArgs)
    requires |w.state.vault| == 2 && |w'.state.vault| == 2 && Accounts(w, w', x) && w.state.pool.sqrtPrice > 0 && w'.state.pool.sqrtPrice > 0
    requires KeepsValue(w.state, w'.state, TokenIn(x.zeroForOne))
    ensures var i := TokenIn(x.zeroForOne); var paid, received := w'.state.vault[i] - w.state.vault[i], w.state.vault[1 - i] - w'.state.vault[1 - i];
            && paid == (if x.baseInput then w.remaining - w'.remaining else w'.calculated - w.calculated)
            && received == (if x.baseInput then w'.calculated - w.calculated else w.remaining - w'.remaining)
            && w'.state.positions == w.state.positions && w'.state.config == w.state.config
  {
    hide Surplus, Obligations;
  }

  lemma {:induction false} LoopKeepsStatus(w: SwapState, x: SwapArgs)
    requires SwapLoop(w, x).Some?
    ensures var p, q := w.state.pool, SwapLoop(w, x).value.state.pool;
            && q.status == p.status && q.rewards == p.rewards && q.openTime == p.openTime && q.spacing == p.spacing
            && q.claimedFees == p.claimedFees
    decreases |Ahead(w.state.ticks.Keys, w.state.pool.tick, x.zeroForOne)|
  {
    hide SqrtPriceAtTick, SwapStepTo;
    if !Finished(w, x) {
      var n := NextTick(w.state.ticks.Keys, w.state.pool.tick, x.zeroForOne).value;
      var w1 := SwapStepTo(w, x, n).value;
      StepKeepsStatus(w, x, n);
      if w1.state.pool.sqrtPrice == SqrtPriceAtTick(n) {
        CrossingShrinksAhead(w, x, n);
        LoopKeepsStatus(w1, x);
      }
    }
  }

  lemma StepKeepsStatus(w: SwapState, x: SwapArgs, n: int)
    requires MIN_TICK <= n <= MAX_TICK && ValidConfig(w.state.config) && |w.state.vault| == 2 && SwapStepTo(w, x, n).Some?
    ensures var p, q := w.state.pool, SwapStepTo(w, x, n).value.state.pool;
            && q.status == p.status && q.rewards == p.rewards && q.openTime == p.openTime && q.spacing == p.spacing
            && q.claimedFees == p.claimedFees
  {
    hide SqrtPriceAtTick, CreditFee, Arrive, ComputeStep;
    var s := w.state;
    var step := ComputeStep(s.pool.sqrtPrice, Target(SqrtPriceAtTick(n), x), s.pool.liquidity, w.remaining,
                            s.config.tradeFeeRate, x.baseInput, x.zeroForOne).value;
    CreditSplits(s.pool, s.config, TokenIn(x.zeroForOne), step.feeAmount);
    var credited := CreditFee(s.pool, s.config, TokenIn(x.zeroForOne), step.feeAmount).value;
    ArriveKeepsFees(credited, s.ticks, n, SqrtPriceAtTick(n), step.sqrtPriceNext, x.zeroForOne);
  }

  // ---------------------------------------------------------------------------------------------
  // Protocol and fund fees

  /** Of each token the smaller of what is asked for and what is owed leaves the vault and the fees owed. */
  ghost predicate FeesTaken(vault: seq<int>, vault': seq<int>, fees: PerToken, fees': PerToken, requested0: nat, requested1: nat) {
    && |vault| == 2 && |vault'| == 2
    && var a, b := vault[0] - vault'[0], vault[1] - vault'[1];
       && a == Min(requested0, fees[0]) && b == Min(requested1, fees[1])
       && fees'[0] == fees[0] - a && fees'[1] == fees[1] - b
  }

  lemma CollectProtocolFeeMeans(s: State, requested0: nat, requested1: nat, s': State)
    requires CollectProtocolFee(s, requested0, requested1) == Some(s')
    ensures FeesTaken(s.vault, s'.vault, s.pool.protocolFees, s'.pool.protocolFees, requested0, requested1)
    ensures s' == s.(vault := s'.vault, pool := s.pool.(protocolFees := s'.pool.protocolFees, status := s'.pool.status))
    ensures VaultsChecked(s'.(pool := s'.pool.(status := s.pool.status)), s')
  {
    hide CheckVaults;
    var p := s.pool.protocolFees;
    var a, b := Min(requested0, p[0]), Min(requested1, p[1]);
    CheckVaultsMeans(Payout(s.(pool := s.pool.(protocolFees := [p[0] - a, p[1] - b])), a, b).value);
  }

  lemma CollectFundFeeMeans(s: State, requested0: nat, requested1: nat, s': State)
    requires CollectFundFee(s, requested0, requested1) == Some(s')
    ensures FeesTaken(s.vault, s'.vault, s.pool.fundFees, s'.pool.fundFees, requested0, requested1)
    ensures s' == s.(vault := s'.vault, pool := s.pool.(fundFees := s'.pool.fundFees, status := s'.pool.status))
    ensures VaultsChecked(s'.(pool := s'.pool.(status := s.pool.status)), s')
  {
    hide CheckVaults;
    var p := s.pool.fundFees;
    var a, b := Min(requested0, p[0]), Min(requested1, p[1]);
    CheckVaultsMeans(Payout(s.(pool := s.pool.(fundFees := [p[0] - a, p[1] - b])), a, b).value);
  }

  // ---------------------------------------------------------------------------------------------
  // Rewards

  /** Updating rewards accrues all of them and does nothing else. */
  lemma UpdateRewardsMeans(s: State, now: nat, s': State)
    requires Runs.UpdateRewards(s, now) == Some(s')
    ensures s' == s.(pool := s.pool.(rewards := s'.pool.rewards))
    ensures forall j :: 0 <= j < REWARDS ==> Accrues(s.pool.rewards[j], s'.pool.rewards[j], s.pool.liquidity, now)
  {
    hide AccrueRewards, Accrues;
    RewardsAccrue(s.pool, now, s'.pool);
  }

  /** A new reward takes the first free slot, for 7 to 90 days ahead, and its whole emission is paid in. */
  lemma InitializeRewardMeans(s: State, openTime: nat, endTime: nat, emissions: nat, now: nat, s': State) returns (j: nat)
    requires InitializeReward(s, openTime, endTime, emissions, now) == Some(s')
    ensures now <= openTime && 604800 <= endTime - openTime <= 7776000 && emissions > 0
    ensures j < REWARDS && !s.pool.rewards[j].initialized && forall i :: 0 <= i < j ==> s.pool.rewards[i].initialized
    ensures s'.pool.rewards[j].initialized
            && Rescheduled(s.pool.rewards[j].(initialized := true), s'.pool.rewards[j], openTime, openTime, endTime, emissions)
    ensures s'.rewardVault[j] >= s.rewardVault[j] && PaysForPeriod(s'.rewardVault[j] - s.rewardVault[j], endTime - openTime, emissions)
    ensures s' == s.(pool := s.pool.(rewards := s.pool.rewards[j := s'.pool.rewards[j]]), rewardVault := s.rewardVault[j := s'.rewardVault[j]])
  {
    hide MulDivCeil;
    var r := s.pool.rewards;
    j := if !r[0].initialized then 0 else if !r[1].initialized then 1 else 2;
  }

  /** A change of schedule: all rewards accrue first, then reward j is rescheduled by the rule that applies,
      and what the rule charges is paid into its vault. */
  lemma SetRewardParamsMeans(s: State, j: nat, emissions: nat, openTime: nat, endTime: nat, operator: bool, now: nat, s': State)
    returns (r: Reward, amount: nat)
    requires SetRewardParams(s, j, emissions, openTime, endTime, operator, now) == Some(s')
    ensures j < REWARDS && now < openTime < endTime && Accrues(s.pool.rewards[j], r, s.pool.liquidity, now) && r.initialized
    ensures forall i :: 0 <= i < REWARDS && i != j ==> Accrues(s.pool.rewards[i], s'.pool.rewards[i], s.pool.liquidity, now)
    ensures if operator then RewardRules.AdminUpdate(r, now, emissions, openTime, endTime) == Some((s'.pool.rewards[j], amount))
            else r.openTime < now && RewardRules.NormalUpdate(r, now, emissions, openTime, endTime) == Some((s'.pool.rewards[j], amount))
    ensures s' == s.(pool := s.pool.(rewards := s'.pool.rewards), rewardVault := s.rewardVault[j := s.rewardVault[j] + amount])
  {
    hide AccrueRewards, Accrues, AdminUpdate, NormalUpdate;
    var pool := AccrueRewards(s.pool, now).value;
    RewardsAccrue(s.pool, now, pool);
    r := pool.rewards[j];
    amount := if operator then RewardRules.AdminUpdate(r, now, emissions, openTime, endTime).value.1
              else RewardRules.NormalUpdate(r, now, emissions, openTime, endTime).value.1;
    assert Accrues(s.pool.rewards[j], r, s.pool.liquidity, now);
    forall i | 0 <= i < REWARDS && i != j ensures Accrues(s.pool.rewards[i], s'.pool.rewards[i], s.pool.liquidity, now) {
      assert Accrues(s.pool.rewards[i], pool.rewards[i], s.pool.liquidity, now);
    }
  }

  /** After the end of a schedule everything beyond what can still be claimed is taken back, and no more. */
  lemma CollectRemainingMeans(s: State, j: nat, now: nat, s': State)
    requires CollectRemainingRewards(s, j, now) == Some(s')
    ensures j < REWARDS && s'.pool.rewards[j].lastUpdate == s'.pool.rewards[j].endTime
    ensures forall i :: 0 <= i < REWARDS ==> Accrues(s.pool.rewards[i], s'.pool.rewards[i], s.pool.liquidity, now)
    ensures s'.rewardVault[j] == Unclaimed(s'.pool, TOKENS + j) && s'.rewardVault[j] <= s.rewardVault[j]
    ensures s' == s.(pool := s.pool.(rewards := s'.pool.rewards), rewardVault := s.rewardVault[j := s'.rewardVault[j]])
  {
    hide AccrueRewards, Accrues;
    RewardsAccrue(s.pool, now, s'.pool);
  }
}
