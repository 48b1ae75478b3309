/** A reward schedule as its updates change it, field by field (set_reward_params.rs). */
module RewardInfos {
  import opened Wrappers
  import opened FullMath
  import opened Model
  import opened RewardRules

  class RewardInfo {
    const initialized: bool
    const emissioned: nat
    const claimed: nat
    const growth: nat
    var openTime: nat
    var endTime: nat
    var lastUpdateTime: nat
    var emissionsPerSecond: nat

    function Contents(): Reward
      reads this
    {
      Reward(initialized, openTime, endTime, lastUpdateTime, emissionsPerSecond, emissioned, claimed, growth)
    }

    constructor (r: Reward)
      ensures Contents() == r
    {
      initialized, emissioned, claimed, growth := r.initialized, r.emissioned, r.claimed, r.growth;
      openTime, endTime, lastUpdateTime, emissionsPerSecond := r.openTime, r.endTime, r.lastUpdate, r.emissions;
    }

    /** A new schedule for a reward whose emission has finished. */
    method StartAgain(emissions: nat, from: nat, until: nat) returns (amount: Option<nat>)
      requires from <= until
      modifies this
      ensures var after := Restart(old(Contents()), emissions, from, until);
              if after.None? then amount == None else amount.Some? && after.value == (Contents(), amount.value)
    {
      var whole := MulDivCeil(until - from, emissions, Q64, U256_MAX, U128_MAX);
      if whole.None? || whole.value > U64_MAX { return None; }
      openTime := from;
      lastUpdateTime := from;
      endTime := until;
      emissionsPerSecond := emissions;
      amount := whole;
    }

    /** The pool owner's update; the amount is what has to be added to the reward vault. */
    method NormalUpdate(now: nat, emissions: nat, from: nat, until: nat) returns (amount: Option<nat>)
      modifies this
      ensures var after := RewardRules.NormalUpdate(old(Contents()), now, emissions, from, until);
              if after.None? then amount == None else amount.Some? && after.value == (Contents(), amount.value)
    {
      hide MulDivFloor, MulDivCeil;
      if lastUpdateTime == endTime {
        if until < from { return None; }
        var period := until - from;
        if period < MIN_REWARD_PERIOD || period > MAX_REWARD_PERIOD { return None; }
        amount := StartAgain(emissions, from, until);
      } else {
        if endTime < now { return None; }
        var left := endTime - now;
        if until < endTime { return None; }
        var extension := until - endTime;
        if extension < MIN_REWARD_PERIOD || extension > MAX_REWARD_PERIOD { return None; }
        if emissions < emissionsPerSecond {
          if left >= INCREASE_EMISSIONS_PERIOD { return None; }
        }
        var raise := if emissions > emissionsPerSecond then emissions - emissionsPerSecond else 0;
        var total := MulDivFloor(left, raise, Q64, U256_MAX, U128_MAX);
        if total.None? || total.value > U64_MAX { return None; }
        emissionsPerSecond := emissions;
        var more := MulDivFloor(extension, emissionsPerSecond, Q64, U256_MAX, U128_MAX);
        if more.None? || more.value > U64_MAX || total.value + more.value > U64_MAX { return None; }
        endTime := until;
        amount := Some(total.value + more.value);
      }
    }

    /** The operator's update, without limits on the period. */
    method AdminUpdate(now: nat, emissions: nat, from: nat, until: nat) returns (amount: Option<nat>)
      modifies this
      ensures var after := RewardRules.AdminUpdate(old(Contents()), now, emissions, from, until);
              if after.None? then amount == None else amount.Some? && after.value == (Contents(), amount.value)
    {
      hide MulDivFloor, MulDivCeil;
      if lastUpdateTime == endTime || openTime > now {
        if until < from || until - from == 0 { return None; }
        amount := StartAgain(emissions, from, until);
      } else {
        if endTime < now { return None; }
        var left := endTime - now;
        var extension := if until > endTime then until - endTime else 0;
        var raise := if emissions > emissionsPerSecond then emissions - emissionsPerSecond else 0;
        var total := MulDivFloor(left, raise, Q64, U256_MAX, U128_MAX);
        if total.None? || total.value > U64_MAX { return None; }
        emissionsPerSecond := emissions;
        var more := MulDivFloor(extension, emissionsPerSecond, Q64, U256_MAX, U128_MAX);
        if more.None? || more.value > U64_MAX || total.value + more.value > U64_MAX { return None; }
        endTime := until;
        amount := Some(total.value + more.value);
      }
    }
  }
}
