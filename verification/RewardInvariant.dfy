/** Reward emission and every change of its schedule keep every invariant. */
module RewardInvariant {
  import opened Wrappers
  import opened FullMath
  import opened LiquidityMath
  import opened Sums
  import opened Model
  import opened RewardRules
  import opened Ledger
  import opened GrowthLedger
  import opened Curve
  import opened Machine
  import opened Runs
  import opened Invariants

  /** What one emission does: the growth times the liquidity is covered by the amount emitted. */
  lemma AccrueRewardEffect(r: Reward, liquidity: nat, now: nat, clock: nat, r': Reward)
    requires AccrueReward(r, liquidity, now) == Some(r') && RewardOrdered(r, clock) && clock <= now
    ensures RewardOrdered(r', now) && r'.initialized == r.initialized && r'.claimed == r.claimed
    ensures !r.initialized ==> r' == r
    ensures r.growth <= r'.growth && (r'.growth <= U128_MAX || r'.growth == r.growth)
    ensures r.emissioned <= r'.emissioned
    ensures liquidity * (r'.growth - r.growth) <= (r'.emissioned - r.emissioned) * Q64
    ensures r'.openTime == r.openTime && r'.endTime == r.endTime
  {
  }

  /** The check that time has not run backwards for a reward never rejects. */
  lemma RewardClockNeverRejects(r: Reward, clock: nat, now: nat)
    requires RewardOrdered(r, clock) && clock <= now && r.initialized && now > r.openTime
    ensures r.lastUpdate <= Min(now, r.endTime)
  {
  }

  /** A change of the rewards alone keeps the invariants if each schedule stays ordered and each counter
      stays covered. */
  lemma RewardsChangeKeeps(s: State, rewards: Rewards)
    requires Inv(s)
    requires forall j :: 0 <= j < REWARDS ==> RewardOrdered(rewards[j], s.clock)
    requires forall k: nat :: TOKENS <= k < COUNTERS ==> CounterHolds(s.(pool := s.pool.(rewards := rewards)), k)
    ensures Inv(s.(pool := s.pool.(rewards := rewards)))
  {
    hide CounterInv;
    var s' := s.(pool := s.pool.(rewards := rewards));
    forall k: nat | k < COUNTERS ensures CounterHolds(s', k) {
      assert CounterHolds(s, k);
    }
  }

  lemma AccrueRewardsKeeps(s: State, now: nat, pool': Pool)
    requires Inv(s) && s.clock == now && AccrueRewards(s.pool, now) == Some(pool')
    ensures Inv(s.(pool := pool'))
    ensures pool' == s.pool.(rewards := pool'.rewards)
  {
    hide AccrueReward, CounterHolds, Inv;
    forall j: nat | j < REWARDS ensures RewardOrdered(pool'.rewards[j], now) && CounterHolds(s.(pool := pool'), j + TOKENS) {
      assert AccrueReward(s.pool.rewards[j], s.pool.liquidity, now) == Some(pool'.rewards[j]) by {
        assert j == 0 || j == 1 || j == 2;
      }
      AccrueOneKeeps(s, now, pool', j);
    }
    forall k: nat | TOKENS <= k < COUNTERS ensures CounterHolds(s.(pool := pool'), k) {
      assert RewardOrdered(pool'.rewards[k - TOKENS], now);
    }
    RewardsChangeKeeps(s, pool'.rewards);
  }

  lemma AccrueOneKeeps(s: State, now: nat, pool': Pool, j: nat)
    requires Inv(s) && s.clock == now && j < REWARDS && pool' == s.pool.(rewards := pool'.rewards)
    requires AccrueReward(s.pool.rewards[j], s.pool.liquidity, now) == Some(pool'.rewards[j])
    ensures RewardOrdered(pool'.rewards[j], now) && CounterHolds(s.(pool := pool'), j + TOKENS)
  {
    hide AccrueReward, CounterInv, Active;
    var r, r' := s.pool.rewards[j], pool'.rewards[j];
    PositionsInRange(s.pool.spacing, s.positions);
    assert CounterHolds(s, j + TOKENS) && RewardOrdered(r, s.clock);
    AccrueRewardEffect(r, s.pool.liquidity, now, s.clock, r');
    GrowthBounded(s, j + TOKENS);
    AccrueCounter(s, j, r'.growth - r.growth, r'.emissioned - r.emissioned);
  }

  lemma GrowthBounded(s: State, k: nat)
    requires k < COUNTERS && CounterHolds(s, k)
    ensures Growth(s.pool, k) <= U128_MAX
  {
  }

  lemma AccrueCounter(s: State, j: nat, d: int, a: int)
    requires j < REWARDS && CounterHolds(s, j + TOKENS) && Ordered(s.positions) && s.pool.liquidity == Active(s.positions, s.pool.tick)
    requires d >= 0 && a >= 0 && s.pool.rewards[j].growth + d <= U128_MAX && s.pool.liquidity * d <= a * Q64
    ensures var k := j + TOKENS; var v := ViewOf(s.pool, s.ticks, k);
            CounterInv(v.(growth := v.growth + d), s.positions, s.protocols, Unclaimed(s.pool, k) + a)
  {
    var k := j + TOKENS;
    Accrue(ViewOf(s.pool, s.ticks, k), s.positions, s.protocols, Unclaimed(s.pool, k), d, a);
  }

  /** Setting up the first unused reward slot. */
  lemma InitializeRewardKeeps(s: State, openTime: nat, endTime: nat, emissions: nat, now: nat, s': State)
    requires Inv(s) && s.clock == now
    requires InitializeReward(s, openTime, endTime, emissions, now) == Some(s')
    ensures Inv(s')
  {
    ScheduleChangeKeeps(s, s'.pool.rewards);
    VaultsOfRewardsApart(s.(pool := s'.pool), s'.rewardVault);
  }

  /** Schedules may change freely as long as they stay ordered: claims, growth and totals are untouched. */
  lemma ScheduleChangeKeeps(s: State, rewards: Rewards)
    requires Inv(s)
    requires forall j :: 0 <= j < REWARDS ==>
               && RewardOrdered(rewards[j], s.clock)
               && rewards[j].growth == s.pool.rewards[j].growth && rewards[j].emissioned == s.pool.rewards[j].emissioned
               && rewards[j].claimed == s.pool.rewards[j].claimed
               && (s.pool.rewards[j].initialized ==> rewards[j].initialized)
    ensures Inv(s.(pool := s.pool.(rewards := rewards)))
  {
    hide CounterInv;
    forall k: nat | TOKENS <= k < COUNTERS ensures CounterHolds(s.(pool := s.pool.(rewards := rewards)), k) {
      assert CounterHolds(s, k);
    }
    RewardsChangeKeeps(s, rewards);
  }

  /** No invariant speaks of the reward vaults: top-ups round down, so the code does not fund them fully. */
  lemma VaultsOfRewardsApart(s: State, rewardVault: PerReward)
    requires Inv(s)
    ensures Inv(s.(rewardVault := rewardVault))
  {
    hide CounterInv;
    forall k: nat | k < COUNTERS ensures CounterHolds(s.(rewardVault := rewardVault), k) {
      assert CounterHolds(s, k);
    }
  }

  /** Both kinds of update leave what has accrued alone and never let the end fall behind the last update. */
  lemma ScheduleUpdates(r: Reward, now: nat, emissions: nat, openTime: nat, endTime: nat)
    requires r.initialized && RewardOrdered(r, now) && now < openTime < endTime
    ensures var u := NormalUpdate(r, now, emissions, openTime, endTime);
            u.Some? ==> RewardOrdered(u.value.0, now) && SameAccrual(r, u.value.0)
    ensures var u := AdminUpdate(r, now, emissions, openTime, endTime);
            u.Some? ==> RewardOrdered(u.value.0, now) && SameAccrual(r, u.value.0)
  {
  }

  predicate SameAccrual(r: Reward, r': Reward) {
    r'.growth == r.growth && r'.emissioned == r.emissioned && r'.claimed == r.claimed && r'.initialized == r.initialized
  }

  lemma SetRewardParamsKeeps(s: State, j: nat, emissions: nat, openTime: nat, endTime: nat, operator: bool, now: nat, s': State)
    requires Inv(s) && s.clock == now
    requires SetRewardParams(s, j, emissions, openTime, endTime, operator, now) == Some(s')
    ensures Inv(s')
  {
    hide NormalUpdate, AdminUpdate, AccrueRewards, CountersInv;
    var pool := AccrueRewards(s.pool, now).value;
    AccrueRewardsKeeps(s, now, pool);
    assert RewardOrdered(pool.rewards[j], now);
    ScheduleUpdates(pool.rewards[j], now, emissions, openTime, endTime);
    ScheduleChangeKeeps(s.(pool := pool), s'.pool.rewards);
    VaultsOfRewardsApart(s.(pool := s'.pool), s'.rewardVault);
  }

  lemma CollectRemainingKeeps(s: State, j: nat, now: nat, s': State)
    requires Inv(s) && s.clock == now
    requires CollectRemainingRewards(s, j, now) == Some(s')
    ensures Inv(s')
  {
    hide AccrueRewards, CountersInv;
    AccrueRewardsKeeps(s, now, s'.pool);
    VaultsOfRewardsApart(s.(pool := s'.pool), s'.rewardVault);
  }
}
