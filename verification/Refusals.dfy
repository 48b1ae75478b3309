/** For which reasons an instruction is refused, and that there are no others. In reachable states neither a
    guard on claims nor an empty vault is among them. */
module Refusals {
  import opened Wrappers
  import opened FullMath
  import opened LiquidityMath
  import opened TickMath
  import opened SwapMath
  import opened Model
  import opened RewardRules
  import opened Positions
  import opened Curve
  import opened Machine
  import opened Runs
  import opened Invariants
  import opened SwapInvariant
  import opened SwapRuns
  import opened RewardInvariant
  import opened LiquidityInvariant
  import opened InstructionInvariant
  import opened FeeSplit
  import opened Transfers
  import opened Theorems

  // ---------------------------------------------------------------------------------------------
  // Adding liquidity

  /** An addition, other than of nothing, is refused if no liquidity comes out of the request, if the change
      itself is refused, if it costs nothing at all, or if it costs more than one of the maxima. */
  lemma AdditionRefused(s: State, q: Protocol, lower: int, upper: int, liquidity: nat, max0: nat, max1: nat, base0: Option<bool>, now: nat)
    requires MIN_TICK <= lower <= MAX_TICK && MIN_TICK <= upper <= MAX_TICK && |s.vault| == 2
    ensures var r := RequestedLiquidity(s.pool, lower, upper, liquidity, max0, max1, base0);
            AddLiquidity(s, q, lower, upper, liquidity, max0, max1, base0, now).None? <==>
              && !(liquidity == 0 && base0.None?)
              && (|| r.None? || r.value == 0 || r.value > I128_MAX
                  || var m := ModifyPosition(s.pool, q, TickOf(s.ticks, lower), TickOf(s.ticks, upper), lower, upper, r.value, now);
                     m.None? || (m.value.amount0 == 0 && m.value.amount1 == 0) || m.value.amount0 > max0 || m.value.amount1 > max1)
  {
    hide ModifyPosition, RequestedLiquidity;
  }

  lemma OpeningRefused(s: State, lower: int, upper: int, liquidity: nat, max0: nat, max1: nat, base0: Option<bool>, now: nat)
    requires |s.vault| == 2 && s.pool.spacing > 0
    ensures OpenPosition(s, lower, upper, liquidity, max0, max1, base0, now).None? <==>
              || !s.pool.status.open || lower < MIN_TICK || upper > MAX_TICK || lower >= upper
              || lower % s.pool.spacing != 0 || upper % s.pool.spacing != 0
              || var q := if (lower, upper) in s.protocols then s.protocols[(lower, upper)] else Protocol(0, NO_GROWTH, [0, 0]);
                 AddLiquidity(s, q, lower, upper, liquidity, max0, max1, base0, now).None?
  {
    hide AddLiquidity;
  }

  lemma IncreaseRefused(s: State, id: nat, liquidity: nat, max0: nat, max1: nat, base0: Option<bool>, now: nat)
    requires HasRange(s, id)
    ensures var p := s.positions[id];
            var a := AddLiquidity(s, s.protocols[(p.lower, p.upper)], p.lower, p.upper, liquidity, max0, max1, base0, now);
            IncreaseLiquidity(s, id, liquidity, max0, max1, base0, now).None? <==>
              || !s.pool.status.open || a.None? || Settle(p, a.value.protocol.last).None? || p.liquidity + a.value.liquidity > U128_MAX
  {
    hide AddLiquidity, Settle;
  }

  /** Settling is refused exactly if it is on one of the counters. */
  lemma SettlingRefused(p: Position, latest: Counters)
    ensures Settle(p, latest).None? <==>
              exists k: nat :: k < COUNTERS && LatestOwed(p.owed[k], p.last[k], latest[k], p.liquidity).None?
  {
    hide LatestOwed;
    if Settle(p, latest).None? {
      assert LatestOwed(p.owed[0], p.last[0], latest[0], p.liquidity).None? || LatestOwed(p.owed[1], p.last[1], latest[1], p.liquidity).None?
             || LatestOwed(p.owed[2], p.last[2], latest[2], p.liquidity).None? || LatestOwed(p.owed[3], p.last[3], latest[3], p.liquidity).None?
             || LatestOwed(p.owed[4], p.last[4], latest[4], p.liquidity).None?;
    } else {
      forall k: nat | k < COUNTERS ensures LatestOwed(p.owed[k], p.last[k], latest[k], p.liquidity).Some? {
        assert k == 0 || k == 1 || k == 2 || k == 3 || k == 4;
      }
    }
  }

  // ---------------------------------------------------------------------------------------------
  // Withdrawing

  /** Every reward's claimed total still fits its 64 bits after the payment. */
  ghost predicate RewardsFit(s: State, id: nat)
    requires id < |s.positions|
  {
    forall j :: 0 <= j < REWARDS && s.pool.rewards[j].initialized && s.positions[id].owed[TOKENS + j] > 0 && s.rewardVault[j] > 0 ==>
      s.pool.rewards[j].claimed + Min(s.positions[id].owed[TOKENS + j], s.rewardVault[j]) <= U64_MAX
  }

  ghost predicate RewardFits(s: State, id: nat, j: nat)
    requires id < |s.positions| && j < REWARDS
  {
    s.pool.rewards[j].initialized && s.positions[id].owed[TOKENS + j] > 0 && s.rewardVault[j] > 0 ==>
      s.pool.rewards[j].claimed + Min(s.positions[id].owed[TOKENS + j], s.rewardVault[j]) <= U64_MAX
  }

  lemma RewardRefused(s: State, id: nat, j: nat)
    requires id < |s.positions| && j < REWARDS && s.positions[id].owed[TOKENS + j] <= Unclaimed(s.pool, TOKENS + j)
    ensures CollectReward(s, id, j).None? <==> !RewardFits(s, id, j)
  {
  }

  /** Where the ledgers hold, rewards are refused only for the width of what has been claimed. */
  lemma RewardsRefused(s: State, id: nat)
    requires Ledgers(s) && id < |s.positions|
    ensures CollectRewards(s, id).None? <==> s.pool.status.collectReward && !RewardsFit(s, id)
  {
    hide Ledgers, CollectReward, RewardFits;
    RewardGuardNeverRejects(s, id, 0);
    RewardGuardNeverRejects(s, id, 1);
    RewardGuardNeverRejects(s, id, 2);
    FitsOneByOne(s, id);
    RewardRefused(s, id, 0);
    if CollectReward(s, id, 0).Some? {
      var s0 := CollectReward(s, id, 0).value;
      CollectRewardMeans(s, id, 0, s0);
      SameFits(s, s0, id, 1);
      SameFits(s, s0, id, 2);
      RewardRefused(s0, id, 1);
      if CollectReward(s0, id, 1).Some? {
        var s1 := CollectReward(s0, id, 1).value;
        CollectRewardMeans(s0, id, 1, s1);
        SameFits(s0, s1, id, 2);
        RewardRefused(s1, id, 2);
      }
    }
  }

  lemma FitsOneByOne(s: State, id: nat)
    requires id < |s.positions|
    ensures RewardsFit(s, id) <==> RewardFits(s, id, 0) && RewardFits(s, id, 1) && RewardFits(s, id, 2)
  {
    if RewardsFit(s, id) {
      forall j: nat | j < REWARDS ensures RewardFits(s, id, j) {
        assert 0 <= j < REWARDS;
      }
    } else {
      var j :| 0 <= j < REWARDS && s.pool.rewards[j].initialized && s.positions[id].owed[TOKENS + j] > 0 && s.rewardVault[j] > 0
               && s.pool.rewards[j].claimed + Min(s.positions[id].owed[TOKENS + j], s.rewardVault[j]) > U64_MAX;
      assert j == 0 || j == 1 || j == 2;
    }
  }

  lemma SameFits(s: State, s': State, id: nat, j: nat)
    requires id < |s.positions| && id < |s'.positions| && j < REWARDS && SameReward(s, s', id, j)
    ensures RewardFits(s', id, j) <==> RewardFits(s, id, j)
    ensures Unclaimed(s'.pool, TOKENS + j) == Unclaimed(s.pool, TOKENS + j)
  {
  }

  /** In every reachable state a withdrawal is refused for these reasons only: no such position or liquidity,
      everything switched off, the burn refused, an amount below its minimum, a payment or a claimed reward
      beyond 64 bits. */
  lemma WithdrawalRefused(s: State, id: nat, liquidity: nat, min0: nat, min1: nat, now: nat)
    requires Reachable(s) && s.clock <= now && HasRange(s, id) && liquidity <= s.positions[id].liquidity
    requires s.pool.status.decrease || s.pool.status.collectFee || s.pool.status.collectReward
    ensures var s0 := s.(clock := now);
            var b := if s.pool.status.decrease then Burn(s0, id, liquidity, now) else Some(Burned(s0, 0, 0));
            DecreaseLiquidity(s0, id, liquidity, min0, min1, now).None? <==>
              || b.None? || (liquidity > 0 && (b.value.amount0 < min0 || b.value.amount1 < min1))
              || id >= |b.value.state.positions|
              || var owed := b.value.state.positions[id].owed;
                 var fee0, fee1 := if s.pool.status.collectFee then owed[0] else 0, if s.pool.status.collectFee then owed[1] else 0;
                 || b.value.amount0 + fee0 > U64_MAX || b.value.amount1 + fee1 > U64_MAX
                 || (s.pool.status.collectReward && !RewardsFit(b.value.state, id))
    ensures s.pool.status.decrease && Burn(s.(clock := now), id, liquidity, now).Some? ==>
              id < |Burn(s.(clock := now), id, liquidity, now).value.state.positions|
  {
    hide Reachable, Inv, Burn, CollectFees, CollectRewards, CheckVaults, Ledgers, Surplus, RewardsFit;
    ReachableHolds(s);
    ClockKeeps(s, now);
    var s0 := s.(clock := now);
    var b := if s.pool.status.decrease then Burn(s0, id, liquidity, now) else Some(Burned(s0, 0, 0));
    if b.Some? {
      if s.pool.status.decrease {
        BurnKeeps(s0, id, liquidity, now, b.value);
      } else {
        NothingToSpare(s0);
      }
      PaymentRefused(b.value.state, id, b.value.amount0, b.value.amount1);
    }
  }

  lemma NothingToSpare(s: State)
    requires Inv(s)
    ensures Spare(s, 0, 0)
  {
    hide Ledgers, Surplus;
  }

  /** What can be spared and what is owed can be paid. */
  lemma PaymentRefused(s: State, id: nat, x: nat, y: nat)
    requires Spare(s, x, y) && id < |s.positions|
    ensures |s.vault| == 2
    ensures var c := if s.pool.status.collectFee then CollectFees(s, id) else Some(Collected(s, 0, 0));
            && c.Some? && |c.value.state.vault| == 2 && id < |c.value.state.positions|
            && c.value.fee0 == (if s.pool.status.collectFee then s.positions[id].owed[0] else 0)
            && c.value.fee1 == (if s.pool.status.collectFee then s.positions[id].owed[1] else 0)
            && var paid := Payout(c.value.state, x + c.value.fee0, y + c.value.fee1);
               && (paid.None? <==> x + c.value.fee0 > U64_MAX || y + c.value.fee1 > U64_MAX)
               && (paid.Some? ==>
                     && |paid.value.vault| == 2 && id < |CheckVaults(paid.value).positions|
                     && (CollectRewards(CheckVaults(paid.value), id).None? <==> s.pool.status.collectReward && !RewardsFit(s, id)))
  {
    hide Spare, CollectFees, CollectRewards, CheckVaults, Payout, RewardsFit;
    FeesAreSpare(s, id, x, y);
    var c := if s.pool.status.collectFee then CollectFees(s, id).value else Collected(s, 0, 0);
    PaymentAfterFees(s, id, x, y, c);
  }

  lemma FeesAreSpare(s: State, id: nat, x: nat, y: nat)
    requires Spare(s, x, y) && id < |s.positions|
    ensures |s.vault| == 2
    ensures var c := if s.pool.status.collectFee then CollectFees(s, id) else Some(Collected(s, 0, 0));
            && c.Some? && |c.value.state.vault| == 2 && id < |c.value.state.positions|
            && c.value.fee0 == (if s.pool.status.collectFee then s.positions[id].owed[0] else 0)
            && c.value.fee1 == (if s.pool.status.collectFee then s.positions[id].owed[1] else 0)
            && Spare(c.value.state, x + c.value.fee0, y + c.value.fee1)
  {
    hide Ledgers, Surplus, CollectFees;
    ShapeOf(s);
    if s.pool.status.collectFee {
      FeeGuardNeverRejects(s, id);
      CollectFeesKeeps(s, id, x, y, CollectFees(s, id).value);
      CollectFeesMeans(s, id);
    }
  }

  lemma PaymentAfterFees(s: State, id: nat, x: nat, y: nat, c: Collected)
    requires id < |s.positions| && id < |c.state.positions| && |c.state.vault| == 2
    requires if s.pool.status.collectFee then CollectFees(s, id) == Some(c) else c == Collected(s, 0, 0)
    requires Spare(c.state, x + c.fee0, y + c.fee1)
    ensures var paid := Payout(c.state, x + c.fee0, y + c.fee1);
            && (paid.None? <==> x + c.fee0 > U64_MAX || y + c.fee1 > U64_MAX)
            && (paid.Some? ==>
                  && |paid.value.vault| == 2 && id < |CheckVaults(paid.value).positions|
                  && (CollectRewards(CheckVaults(paid.value), id).None? <==> s.pool.status.collectReward && !RewardsFit(s, id)))
  {
    hide Spare, Inv, CollectFees, CollectRewards, CheckVaults, RewardsFit;
    if x + c.fee0 <= U64_MAX && y + c.fee1 <= U64_MAX {
      PayoutNeverFails(c.state, x + c.fee0, y + c.fee1);
      PayoutKeeps(c.state, x + c.fee0, y + c.fee1);
      var paid := Payout(c.state, x + c.fee0, y + c.fee1).value;
      CheckVaultsMeans(paid);
      CheckVaultsKeeps(paid);
      RewardsAfterPayment(s, c, paid, CheckVaults(paid), id);
      LedgersIn(CheckVaults(paid));
      RewardsRefused(CheckVaults(paid), id);
    }
  }

  lemma LedgersIn(s: State)
    requires Inv(s)
    ensures Ledgers(s)
  {
    hide Ledgers;
  }

  lemma RewardsAfterPayment(s: State, c: Collected, paid: State, s': State, id: nat)
    requires id < |s.positions| && id < |c.state.positions| && |paid.vault| == 2
    requires if s.pool.status.collectFee then CollectFees(s, id) == Some(c) else c == Collected(s, 0, 0)
    requires paid == c.state.(vault := paid.vault) && VaultsChecked(paid, s')
    ensures id < |s'.positions| && s'.pool.status.collectReward == s.pool.status.collectReward
    ensures RewardsFit(s', id) <==> RewardsFit(s, id)
  {
    assert s'.pool.rewards == s.pool.rewards && s'.rewardVault == s.rewardVault;
    var owed, owed' := s.positions[id].owed, s'.positions[id].owed;
    assert owed'[2] == owed[2] && owed'[3] == owed[3] && owed'[4] == owed[4];
  }

  // ---------------------------------------------------------------------------------------------
  // Swapping

  /** In a state that holds, a swap is refused for these reasons only: the amount, the status, the time, a
      limit that is not strictly ahead and within the range, an accrual or the steps refused, a fee total
      beyond its width, or nothing moved. The output is always there. */
  lemma SwapRefusedFor(s: State, amount: nat, limit: nat, zeroForOne: bool, baseInput: bool, now: nat)
    requires Inv(s) && s.clock == now
    ensures var x := SwapArgs(zeroForOne, baseInput, EffectiveLimit(limit, zeroForOne)); var t := TokenIn(zeroForOne);
            var pool := AccrueRewards(s.pool, now);
            Swap(s, amount, limit, zeroForOne, baseInput, now).None? <==>
              || amount == 0 || amount > U64_MAX || !s.pool.status.swap || now <= s.pool.openTime
              || (if zeroForOne then x.limit <= MIN_SQRT_PRICE || x.limit >= s.pool.sqrtPrice
                  else x.limit <= s.pool.sqrtPrice || x.limit >= MAX_SQRT_PRICE)
              || pool.None?
              || var w := SwapLoop(SwapState(s.(pool := pool.value), amount, 0), x);
                 || w.None? || w.value.state.pool.totalFees[t] > U64_MAX || w.value.state.pool.protocolFees[t] > U64_MAX
                 || w.value.state.pool.fundFees[t] > U64_MAX
                 || w.value.remaining == amount || w.value.calculated == 0 || w.value.state.pool.sqrtPrice == s.pool.sqrtPrice
  {
    hide AccrueRewards, SwapLoop, Inv, LimitAhead, Accounts, KeepsValue;
    var x := SwapArgs(zeroForOne, baseInput, EffectiveLimit(limit, zeroForOne));
    if ValidLimit(x.limit, s.pool.sqrtPrice, zeroForOne) && AccrueRewards(s.pool, now).Some? {
      var pool := AccrueRewards(s.pool, now).value;
      var w := SwapState(s.(pool := pool), amount, 0);
      AccrueRewardsKeeps(s, now, pool);
      ValidLimitAhead(pool, x);
      if SwapLoop(w, x).Some? {
        LoopKeeps(w, x);
        LoopAccounts(w, x);
        RevealInv(s);
        RevealInv(SwapLoop(w, x).value.state);
        OutputIsThere(SwapLoop(w, x).value.state);
        SwapTotals(w, SwapLoop(w, x).value, x);
        AtMostTheAmount(w, SwapLoop(w, x).value, x);
      }
    }
  }

  lemma AtMostTheAmount(w: SwapState, w': SwapState, x: SwapArgs)
    requires |w.state.vault| == 2 && |w'.state.vault| == 2 && Accounts(w, w', x)
    ensures w'.remaining <= w.remaining
  {
  }

  lemma OutputIsThere(s: State)
    requires Inv(s)
    ensures |s.vault| == 2 && s.vault[0] >= 0 && s.vault[1] >= 0
  {
    hide Ledgers, TotalValue;
    NothingToSpare(s);
    PayoutNeverFails(s, 0, 0);
    ShapeOf(s);
  }

  // ---------------------------------------------------------------------------------------------
  // Protocol and fund fees

  /** In a state that holds, collecting protocol or fund fees is refused only beyond 64 bits. */
  lemma FeeCollectionRefused(s: State, requested0: nat, requested1: nat)
    requires Inv(s)
    ensures var p := s.pool.protocolFees;
            CollectProtocolFee(s, requested0, requested1).None? <==> Min(requested0, p[0]) > U64_MAX || Min(requested1, p[1]) > U64_MAX
    ensures var p := s.pool.fundFees;
            CollectFundFee(s, requested0, requested1).None? <==> Min(requested0, p[0]) > U64_MAX || Min(requested1, p[1]) > U64_MAX
  {
    hide Ledgers, TotalValue, CheckVaults;
    FeesInVault(s);
  }

  lemma FeesInVault(s: State)
    requires Inv(s)
    ensures |s.vault| == 2
    ensures forall t :: 0 <= t < TOKENS ==> s.vault[t] >= s.pool.protocolFees[t] + s.pool.fundFees[t]
  {
    hide Ledgers, TotalValue;
    LedgersIn(s);
    CountersIn(s);
    ShapeOf(s);
    TotalNonnegative(0, s.positions, s.pool.sqrtPrice);
    TotalNonnegative(1, s.positions, s.pool.sqrtPrice);
    UnclaimedNonnegative(s, 0);
    UnclaimedNonnegative(s, 1);
    forall t | 0 <= t < TOKENS ensures s.vault[t] >= s.pool.protocolFees[t] + s.pool.fundFees[t] {
      assert t == 0 || t == 1;
    }
  }

  lemma CountersIn(s: State)
    requires Ledgers(s)
    ensures CountersInv(s)
  {
    hide CountersInv;
  }

  // ---------------------------------------------------------------------------------------------
  // A new pool

  /** A pool is created exactly for a positive spacing, valid fee rates and a price within the range. It is
      empty, at the floor tick of its price, with everything switched on. */
  lemma CreationMeans(spacing: nat, sqrtPrice: nat, openTime: nat, config: Config, now: nat)
    ensures var r := CreatePool(spacing, sqrtPrice, openTime, config, now);
            && (r.None? <==> spacing == 0 || sqrtPrice < MIN_SQRT_PRICE || sqrtPrice >= MAX_SQRT_PRICE
                             || config.tradeFeeRate >= 1_000_000 || config.protocolFeeRate + config.fundFeeRate > 1_000_000)
            && (r.Some? ==>
                  var s, p := r.value, r.value.pool;
                  && p.sqrtPrice == sqrtPrice && p.spacing == spacing && p.openTime == openTime && p.liquidity == 0
                  && TickCovers(p.tick, sqrtPrice) && p.status == Status(true, true, true, true, true)
                  && s.config == config && s.clock == now && s.positions == [] && s.ticks == map[] && s.protocols == map[]
                  && s.vault == [0, 0] && s.rewardVault == [0, 0, 0]
                  && (forall j :: 0 <= j < REWARDS ==> p.rewards[j] == Reward(false, 0, 0, 0, 0, 0, 0, 0))
                  && (forall t :: 0 <= t < TOKENS ==>
                        p.feeGrowth[t] == p.totalFees[t] == p.claimedFees[t] == p.protocolFees[t] == p.fundFees[t] == 0))
  {
    hide SqrtPriceAtTick;
  }
}
