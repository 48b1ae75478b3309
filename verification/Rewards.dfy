/** Reward emission and its schedule (pool.rs, set_reward_params.rs, initialize_reward.rs). */
module RewardRules {
  import opened Wrappers
  import opened FullMath
  import opened LiquidityMath
  import opened Model

  const MIN_REWARD_PERIOD: nat := 7 * 24 * 60 * 60
  const MAX_REWARD_PERIOD: nat := 90 * 24 * 60 * 60
  const INCREASE_EMISSIONS_PERIOD: nat := 72 * 60 * 60

  /** Emits the reward of the time since the last update: per unit of liquidity rounded down, in
      total rounded up. Time without liquidity passes without emission. */
  function AccrueReward(r: Reward, liquidity: nat, now: nat): Option<Reward> {
    if !r.initialized || now <= r.openTime then Some(r)
    else
      var latest := Min(now, r.endTime);
      if liquidity == 0 then Some(r.(lastUpdate := latest))
      else if latest < r.lastUpdate then None
      else
        var elapsed := latest - r.lastUpdate;
        var growthDelta :- MulDivFloor(elapsed, r.emissions, liquidity, U256_MAX, U128_MAX);
        var emitted :- MulDivCeil128(elapsed, r.emissions, Q64);
        if r.growth + growthDelta > U128_MAX || emitted > U64_MAX || r.emissioned + emitted > U64_MAX then None
        else Some(r.(growth := r.growth + growthDelta, emissioned := r.emissioned + emitted, lastUpdate := latest))
  }

  /** What one accrual means. Before the opening nothing happens. From then on the clock moves to now, but
      not beyond the end; if there is liquidity, the growth per unit of it is what the time since the last
      update emits, rounded down, and the emission is booked as a whole, rounded up. */
  ghost predicate Accrues(r: Reward, r': Reward, liquidity: nat, now: nat) {
    var latest := Min(now, r.endTime);
    var emitted := (latest - r.lastUpdate) * r.emissions;
    if !r.initialized || now <= r.openTime then r' == r
    else
      && r' == r.(growth := r'.growth, emissioned := r'.emissioned, lastUpdate := latest)
      && (if liquidity == 0 then r'.growth == r.growth && r'.emissioned == r.emissioned
          else IsFloor(r'.growth - r.growth, emitted, liquidity) && IsCeil(r'.emissioned - r.emissioned, emitted, Q64))
  }

  lemma AccrualIsExact(r: Reward, liquidity: nat, now: nat)
    ensures var r' := AccrueReward(r, liquidity, now); r'.Some? ==> Accrues(r, r'.value, liquidity, now)
  {
  }

  /** An accrual aborts exactly if time ran backwards or a total leaves its width. */
  lemma AccrualFails(r: Reward, liquidity: nat, now: nat)
    ensures var latest := Min(now, r.endTime); var emitted := (latest - r.lastUpdate) * r.emissions;
            AccrueReward(r, liquidity, now).None? <==>
              && r.initialized && now > r.openTime && liquidity > 0
              && (|| latest < r.lastUpdate || emitted + (Q64 - 1) > U256_MAX
                  || (U128_MAX + 1 - r.growth) * liquidity <= emitted || (U64_MAX - r.emissioned) * Q64 < emitted)
  {
    hide MulDivFloor, MulDivCeil;
    var latest := Min(now, r.endTime);
    if r.initialized && now > r.openTime && liquidity > 0 && latest >= r.lastUpdate {
      var elapsed := latest - r.lastUpdate;
      var n := elapsed * r.emissions;
      MulDivFloorFails(elapsed, r.emissions, liquidity, U256_MAX, U128_MAX);
      MulDivCeilFails(elapsed, r.emissions, Q64, U256_MAX, U128_MAX);
      assert (U128_MAX + 1 - r.growth) * liquidity == (U128_MAX + 1) * liquidity - r.growth * liquidity;
      var growth := MulDivFloor(elapsed, r.emissions, liquidity, U256_MAX, U128_MAX);
      if growth.Some? {
        FloorIsGreatest(growth.value, n, liquidity, U128_MAX + 1 - r.growth);
      }
      var emitted := MulDivCeil128(elapsed, r.emissions, Q64);
      if emitted.Some? {
        CeilIsLeast(emitted.value, n, Q64, U64_MAX - r.emissioned);
      }
    }
  }

  /** All three rewards accrue, and nothing else of the pool changes. */
  lemma RewardsAccrue(pool: Pool, now: nat, pool': Pool)
    requires AccrueRewards(pool, now) == Some(pool')
    ensures pool' == pool.(rewards := pool'.rewards)
    ensures forall j :: 0 <= j < REWARDS ==> Accrues(pool.rewards[j], pool'.rewards[j], pool.liquidity, now)
  {
    hide AccrueReward, Accrues;
    AccrualIsExact(pool.rewards[0], pool.liquidity, now);
    AccrualIsExact(pool.rewards[1], pool.liquidity, now);
    AccrualIsExact(pool.rewards[2], pool.liquidity, now);
    forall j | 0 <= j < REWARDS ensures Accrues(pool.rewards[j], pool'.rewards[j], pool.liquidity, now) {
      assert j == 0 || j == 1 || j == 2;
    }
  }

  function AccrueRewards(pool: Pool, now: nat): Option<Pool> {
    var r0 :- AccrueReward(pool.rewards[0], pool.liquidity, now);
    var r1 :- AccrueReward(pool.rewards[1], pool.liquidity, now);
    var r2 :- AccrueReward(pool.rewards[2], pool.liquidity, now);
    Some(pool.(rewards := [r0, r1, r2]))
  }

  /** A new schedule for a finished (or not yet opened) reward; the amount funds it, rounded up. */
  function Restart(r: Reward, emissions: nat, openTime: nat, endTime: nat): Option<(Reward, nat)> {
    if endTime < openTime then None
    else
      var amount :- MulDivCeil(endTime - openTime, emissions, Q64, U256_MAX, U128_MAX);
      if amount > U64_MAX then None
      else Some((r.(openTime := openTime, lastUpdate := openTime, endTime := endTime, emissions := emissions), amount))
  }

  /** Top-up for the time left at a higher rate plus the extension at the new rate, both rounded down. */
  function TopUp(left: nat, extension: nat, before: nat, after: nat): Option<nat> {
    var raise := if after > before then after - before else 0;
    var a :- MulDivFloor(left, raise, Q64, U256_MAX, U128_MAX);
    var b :- MulDivFloor(extension, after, Q64, U256_MAX, U128_MAX);
    if a > U64_MAX || b > U64_MAX || a + b > U64_MAX then None else Some(a + b)
  }

  /** The pool owner's update: a restart within the period limits, or an extension within them that
      lowers the rate only in the last 72 hours. */
  function NormalUpdate(r: Reward, now: nat, emissions: nat, openTime: nat, endTime: nat): Option<(Reward, nat)> {
    if r.lastUpdate == r.endTime then
      if endTime < openTime || endTime - openTime < MIN_REWARD_PERIOD || endTime - openTime > MAX_REWARD_PERIOD then None
      else Restart(r, emissions, openTime, endTime)
    else if r.endTime < now || endTime < r.endTime then None
    else
      var left := r.endTime - now;
      var extension := endTime - r.endTime;
      if extension < MIN_REWARD_PERIOD || extension > MAX_REWARD_PERIOD then None
      else if emissions < r.emissions && left >= INCREASE_EMISSIONS_PERIOD then None
      else
        var amount :- TopUp(left, extension, r.emissions, emissions);
        Some((r.(emissions := emissions, endTime := endTime), amount))
  }

  /** The operator's update: any period, and the end may also move closer. */
  function AdminUpdate(r: Reward, now: nat, emissions: nat, openTime: nat, endTime: nat): Option<(Reward, nat)> {
    if r.lastUpdate == r.endTime || r.openTime > now then
      if endTime <= openTime then None else Restart(r, emissions, openTime, endTime)
    else if r.endTime < now then None
    else
      var extension := if endTime > r.endTime then endTime - r.endTime else 0;
      var amount :- TopUp(r.endTime - now, extension, r.emissions, emissions);
      Some((r.(emissions := emissions, endTime := endTime), amount))
  }

  // ---------------------------------------------------------------------------------------------
  // What the schedule changes charge and refuse

  /** The whole period at the new rate is paid for in advance, rounded up. */
  ghost predicate PaysForPeriod(amount: nat, period: int, emissions: nat) {
    IsCeil(amount, period * emissions, Q64) && amount <= U64_MAX
  }

  /** The raise for the time left and the new rate for the extension are paid for, each rounded down. */
  ghost predicate PaysForChange(amount: nat, left: int, raise: int, extension: int, emissions: nat) {
    && amount <= U64_MAX
    && exists a: nat, b: nat :: amount == a + b && IsFloor(a, left * raise, Q64) && IsFloor(b, extension * emissions, Q64)
  }

  /** Only the schedule changes; what has accrued stays. */
  ghost predicate Rescheduled(r: Reward, r': Reward, openTime: nat, lastUpdate: nat, endTime: nat, emissions: nat) {
    r' == Reward(r.initialized, openTime, endTime, lastUpdate, emissions, r.emissioned, r.claimed, r.growth)
  }

  lemma RestartCharges(r: Reward, emissions: nat, openTime: nat, endTime: nat)
    ensures var u := Restart(r, emissions, openTime, endTime);
            u.Some? ==>
              && Rescheduled(r, u.value.0, openTime, openTime, endTime, emissions)
              && PaysForPeriod(u.value.1, endTime - openTime, emissions)
    ensures endTime - openTime <= U64_MAX && emissions <= U128_MAX ==>
              (Restart(r, emissions, openTime, endTime).None? <==> endTime < openTime || U64_MAX * Q64 < (endTime - openTime) * emissions)
  {
    hide MulDivCeil;
    if endTime >= openTime {
      var period := endTime - openTime;
      MulDivCeilFails(period, emissions, Q64, U256_MAX, U128_MAX);
      if period <= U64_MAX && emissions <= U128_MAX {
        ProductBound(period, emissions, U64_MAX, U128_MAX);
      }
      var amount := MulDivCeil(period, emissions, Q64, U256_MAX, U128_MAX);
      if amount.Some? {
        CeilIsLeast(amount.value, period * emissions, Q64, U64_MAX);
      }
    }
  }

  lemma TopUpCharges(left: nat, extension: nat, before: nat, after: nat)
    ensures var u := TopUp(left, extension, before, after);
            u.Some? ==> PaysForChange(u.value, left, if after > before then after - before else 0, extension, after)
  {
    hide MulDivFloor;
    var raise := if after > before then after - before else 0;
    if TopUp(left, extension, before, after).Some? {
      var a := MulDivFloor(left, raise, Q64, U256_MAX, U128_MAX).value;
      var b := MulDivFloor(extension, after, Q64, U256_MAX, U128_MAX).value;
      assert IsFloor(a, left * raise, Q64) && IsFloor(b, extension * after, Q64);
    }
  }

  /** The owner's rule. A finished schedule is replaced by one of 7 to 90 days, paid for as a whole. A running
      one is extended by 7 to 90 days; its rate may fall only in its last 72 hours, and what is added is paid for. */
  lemma NormalUpdateRule(r: Reward, now: nat, emissions: nat, openTime: nat, endTime: nat, r': Reward, amount: nat)
    requires NormalUpdate(r, now, emissions, openTime, endTime) == Some((r', amount))
    ensures if r.lastUpdate == r.endTime then
              && 604800 <= endTime - openTime <= 7776000
              && Rescheduled(r, r', openTime, openTime, endTime, emissions) && PaysForPeriod(amount, endTime - openTime, emissions)
            else
              && now <= r.endTime && 604800 <= endTime - r.endTime <= 7776000
              && (emissions < r.emissions ==> r.endTime - now < 259200)
              && Rescheduled(r, r', r.openTime, r.lastUpdate, endTime, emissions)
              && PaysForChange(amount, r.endTime - now, if emissions > r.emissions then emissions - r.emissions else 0,
                               endTime - r.endTime, emissions)
  {
    hide Restart, TopUp, PaysForChange;
    if r.lastUpdate == r.endTime {
      RestartCharges(r, emissions, openTime, endTime);
    } else {
      TopUpCharges(r.endTime - now, endTime - r.endTime, r.emissions, emissions);
    }
  }

  /** The operator's rule: any period; a schedule that has not opened may be replaced; a running one may
      also end earlier, without a refund. */
  lemma AdminUpdateRule(r: Reward, now: nat, emissions: nat, openTime: nat, endTime: nat, r': Reward, amount: nat)
    requires AdminUpdate(r, now, emissions, openTime, endTime) == Some((r', amount))
    ensures if r.lastUpdate == r.endTime || r.openTime > now then
              && openTime < endTime
              && Rescheduled(r, r', openTime, openTime, endTime, emissions) && PaysForPeriod(amount, endTime - openTime, emissions)
            else
              && now <= r.endTime
              && Rescheduled(r, r', r.openTime, r.lastUpdate, endTime, emissions)
              && PaysForChange(amount, r.endTime - now, if emissions > r.emissions then emissions - r.emissions else 0,
                               if endTime > r.endTime then endTime - r.endTime else 0, emissions)
  {
    hide Restart, TopUp, PaysForChange;
    if r.lastUpdate == r.endTime || r.openTime > now {
      RestartCharges(r, emissions, openTime, endTime);
    } else {
      TopUpCharges(r.endTime - now, if endTime > r.endTime then endTime - r.endTime else 0, r.emissions, emissions);
    }
  }

  /** Within the widths of the fields, the owner's update is refused for these reasons and no other. */
  lemma NormalUpdateRefusals(r: Reward, now: nat, emissions: nat, openTime: nat, endTime: nat)
    requires emissions <= U128_MAX && r.emissions <= U128_MAX && endTime <= U64_MAX && r.endTime <= U64_MAX
    ensures var left := r.endTime - now; var extension := endTime - r.endTime;
            NormalUpdate(r, now, emissions, openTime, endTime).None? <==>
              if r.lastUpdate == r.endTime then
                || endTime - openTime < 604800 || endTime - openTime > 7776000 || U64_MAX * Q64 < (endTime - openTime) * emissions
              else
                || left < 0 || extension < 604800 || extension > 7776000 || (emissions < r.emissions && left >= 259200)
                || TopUp(left, extension, r.emissions, emissions).None?
  {
    hide Restart, TopUp;
    if r.lastUpdate == r.endTime && endTime - openTime >= 0 {
      RestartCharges(r, emissions, openTime, endTime);
    }
  }
}
