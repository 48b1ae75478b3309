/** The stages of a withdrawal on the accounts (decrease_liquidity.rs): fees, vault check, rewards. */
module Withdrawals {
  import opened Wrappers
  import opened FullMath
  import opened LiquidityMath
  import opened Model
  import opened Machine
  import opened PoolStates
  import opened PositionStates

  /** The loaded accounts hold the pool and position id of state s. */
  ghost predicate Mirrors(s: State, pool: PoolState, p: PersonalPositionState, id: nat)
    reads pool, p
  {
    s.pool == pool.Fields() && id < |s.positions| && s.positions[id] == p.Contents()
  }

  /** Hands out the owed fees, guarded by what has been collected and not been claimed. */
  method CollectFeesOn(pool: PoolState, p: PersonalPositionState, ghost s: State, ghost id: nat) returns (r: Option<(nat, nat)>)
    requires Mirrors(s, pool, p, id)
    modifies pool`totalFeesClaimed, p`owed
    ensures var c := CollectFees(s, id);
            if c.None? then r == None
            else
              && r == Some((c.value.fee0, c.value.fee1)) && Mirrors(c.value.state, pool, p, id)
              && c.value.state == s.(pool := pool.Fields(), positions := s.positions[id := p.Contents()])
  {
    var fee0, fee1 := p.owed[0], p.owed[1];
    if (pool.totalFees[0] as int) - pool.totalFeesClaimed[0] < fee0 { return None; }
    if (pool.totalFees[1] as int) - pool.totalFeesClaimed[1] < fee1 { return None; }
    p.owed := p.owed[0 := 0][1 := 0];
    pool.totalFeesClaimed := [pool.totalFeesClaimed[0] + fee0, pool.totalFeesClaimed[1] + fee1];
    r := Some((fee0, fee1));
  }

  /** Switches fee collection off when the unclaimed fees reach a whole vault. */
  method CheckUnclaimedFeesAndVault(pool: PoolState, vault: seq<int>, ghost s: State)
    requires |vault| == 2 && s.pool == pool.Fields() && s.vault == vault
    modifies pool`status
    ensures CheckVaults(s) == s.(pool := pool.Fields())
  {
    var unclaimed0 := (pool.totalFees[0] as int) - pool.totalFeesClaimed[0];
    var unclaimed1 := (pool.totalFees[1] as int) - pool.totalFeesClaimed[1];
    if (unclaimed0 >= vault[0] && vault[0] != 0) || (unclaimed1 >= vault[1] && vault[1] != 0) {
      pool.status := pool.status.(collectFee := false);
    }
  }

  /** The reference's collection of the rewards from j on. */
  function CollectFrom(s: State, id: nat, j: nat): Option<State>
    requires id < |s.positions| && j <= REWARDS
    decreases REWARDS - j
  {
    if j == REWARDS then Some(s)
    else
      var s' :- CollectReward(s, id, j);
      if id < |s'.positions| then CollectFrom(s', id, j + 1) else None
  }

  lemma CollectFromStart(s: State, id: nat)
    requires id < |s.positions|
    ensures CollectRewards(s, id) == if s.pool.status.collectReward then CollectFrom(s, id, 0) else Some(s)
  {
    hide CollectReward;
    CollectKeepsPositions(s, id, 0);
    if CollectReward(s, id, 0).Some? {
      var s0 := CollectReward(s, id, 0).value;
      CollectKeepsPositions(s0, id, 1);
      if CollectReward(s0, id, 1).Some? {
        var s1 := CollectReward(s0, id, 1).value;
        CollectKeepsPositions(s1, id, 2);
        assert CollectFrom(s1, id, 2) == CollectReward(s1, id, 2);
        assert CollectFrom(s0, id, 1) == CollectFrom(s1, id, 2);
      }
    }
  }

  lemma CollectKeepsPositions(s: State, id: nat, j: nat)
    requires id < |s.positions| && j < REWARDS
    ensures CollectReward(s, id, j).Some? ==> |CollectReward(s, id, j).value.positions| == |s.positions|
  {
  }

  /** Pays the owed rewards one by one, each as far as its vault reaches. */
  method CollectRewardsOn(pool: PoolState, p: PersonalPositionState, rewardVault: PerReward, ghost s: State, ghost id: nat)
    returns (ok: bool, rewardVault': PerReward)
    requires Mirrors(s, pool, p, id) && s.rewardVault == rewardVault
    modifies pool`rewardInfos, p`owed
    ensures ok <==> CollectRewards(s, id).Some?
    ensures ok ==> CollectRewards(s, id).value
                   == s.(pool := pool.Fields(), positions := s.positions[id := p.Contents()], rewardVault := rewardVault')
  {
    hide CollectReward;
    CollectFromStart(s, id);
    rewardVault' := rewardVault;
    ghost var w := s;
    assert s.positions[id := s.positions[id]] == s.positions;
    if !pool.status.collectReward { return true, rewardVault; }
    for i := 0 to 3
      invariant Mirrors(w, pool, p, id) && w.rewardVault == rewardVault'
      invariant w == s.(pool := pool.Fields(), positions := s.positions[id := p.Contents()], rewardVault := rewardVault')
      invariant CollectFrom(s, id, 0) == CollectFrom(w, id, i)
    {
      ghost var before := w;
      CollectKeepsPositions(before, id, i);
      ok, rewardVault', w := CollectOne(pool, p, rewardVault', i, before, id);
      if !ok { return; }
    }
    ok := true;
  }

  /** One reward. */
  method CollectOne(pool: PoolState, p: PersonalPositionState, rewardVault: PerReward, i: nat, ghost s: State, ghost id: nat)
    returns (ok: bool, rewardVault': PerReward, ghost s': State)
    requires i < 3 && Mirrors(s, pool, p, id) && s.rewardVault == rewardVault
    modifies pool`rewardInfos, p`owed
    ensures ok <==> CollectReward(s, id, i).Some?
    ensures ok ==>
              && CollectReward(s, id, i) == Some(s') && Mirrors(s', pool, p, id) && s'.rewardVault == rewardVault'
              && s' == s.(pool := pool.Fields(), positions := s.positions[id := p.Contents()], rewardVault := rewardVault')
  {
    rewardVault', s' := rewardVault, s;
    assert s.positions[id := s.positions[id]] == s.positions;
    var owed := p.owed[2 + i];
    var info := pool.rewardInfos[i];
    if !info.initialized || owed == 0 { return true, rewardVault, s; }
    if info.emissioned - info.claimed < owed { return false, rewardVault, s; }
    var amount := if owed > rewardVault[i] then rewardVault[i] else owed;
    if amount > 0 {
      p.owed := p.owed[2 + i := owed - amount];
      if info.claimed + amount > U64_MAX { return false, rewardVault, s; }
      pool.rewardInfos := pool.rewardInfos[i := info.(claimed := info.claimed + amount)];
      rewardVault' := rewardVault[i := rewardVault[i] - amount];
    }
    s' := s.(pool := pool.Fields(), positions := s.positions[id := p.Contents()], rewardVault := rewardVault');
    ok := true;
  }

  // ---------------------------------------------------------------------------------------------
  // From the burned liquidity to the money

  /** The reference's withdrawal once the liquidity is burned. */
  function Withdraw(s: State, id: nat, amount0: nat, amount1: nat, slippage: bool): Option<State>
    requires id < |s.positions| && |s.vault| == 2
  {
    var c :- if s.pool.status.collectFee then CollectFees(s, id) else Some(Collected(s, 0, 0));
    if slippage || |c.state.vault| != 2 || id >= |c.state.positions| then None
    else
      var paid :- Payout(c.state, amount0 + c.fee0, amount1 + c.fee1);
      CollectRewards(CheckVaults(paid), id)
  }

  datatype Payment = Payment(pool: Pool, position: Position, vault: seq<int>, rewardVault: PerReward)

  /** Fees, slippage, transfers out of both vaults, vault check, rewards. */
  method PayOut(poolBefore: Pool, bitmap: seq<nat>, position: Position, amount0: nat, amount1: nat, liquidity: nat, min0: nat, min1: nat,
                vault: seq<int>, rewardVault: PerReward, ghost s: State, ghost id: nat)
    returns (r: Option<Payment>)
    requires id < |s.positions| && s.positions[id] == position && s.pool == poolBefore
    requires |vault| == 2 && s.vault == vault && s.rewardVault == rewardVault
    ensures var w := Withdraw(s, id, amount0, amount1, liquidity > 0 && (amount0 < min0 || amount1 < min1));
            if w.None? then r == None
            else r.Some? && w.value == s.(pool := r.value.pool, positions := s.positions[id := r.value.position],
                                          vault := r.value.vault, rewardVault := r.value.rewardVault)
  {
    hide CollectFees, CollectRewards, CheckVaults;
    assert s.positions[id := s.positions[id]] == s.positions;
    var pool := new PoolState(poolBefore, bitmap);
    var p := new PersonalPositionState(position);
    var fee0, fee1 := 0, 0;
    ghost var s1 := s;
    if pool.status.collectFee {
      var fees := CollectFeesOn(pool, p, s, id);
      if fees.None? { return None; }
      fee0, fee1 := fees.value.0, fees.value.1;
      s1 := CollectFees(s, id).value.state;
    }
    if liquidity > 0 {
      if amount0 < min0 || amount1 < min1 { return None; }
    }
    var transfer0, transfer1 := amount0 + fee0, amount1 + fee1;
    if transfer0 > U64_MAX || transfer1 > U64_MAX { return None; }
    if vault[0] < transfer0 || vault[1] < transfer1 { return None; }
    var newVault := [vault[0] - transfer0, vault[1] - transfer1];
    ghost var s2 := s1.(vault := newVault);
    assert Payout(s1, transfer0, transfer1) == Some(s2);
    CheckUnclaimedFeesAndVault(pool, newVault, s2);
    var ok, newRewardVault := CollectRewardsOn(pool, p, rewardVault, CheckVaults(s2), id);
    if !ok { return None; }
    r := Some(Payment(pool.Fields(), p.Contents(), newVault, newRewardVault));
  }
}
