/** Every instruction keeps every invariant. */
module InstructionInvariant {
  import opened Wrappers
  import opened FullMath
  import opened LiquidityMath
  import opened TickMath
  import opened SwapMath
  import opened Sums
  import opened Model
  import opened Positions
  import opened RewardRules
  import opened Ledger
  import opened GrowthLedger
  import opened Curve
  import opened Machine
  import opened Runs
  import opened Invariants
  import opened SwapInvariant
  import opened SwapRuns
  import opened RewardInvariant
  import opened LiquidityInvariant

  // ---------------------------------------------------------------------------------------------
  // Increase and open

  /** Settling against the record of the range, without touching the pool. */
  lemma StaleSettleKeepsAll(s: State, id: nat, settled: Position)
    requires Inv(s) && HasRange(s, id)
    requires var p := s.positions[id]; Settle(p, s.protocols[(p.lower, p.upper)].last) == Some(settled)
    ensures Inv(s.(positions := s.positions[id := settled]))
  {
    hide LatestOwed, CounterInv, TotalValue;
    var s' := s.(positions := s.positions[id := settled]);
    var p := s.positions[id];
    assert p in s.positions;
    SettledAll(p, settled, s.protocols[(p.lower, p.upper)].last);
    forall k: nat | k < COUNTERS ensures CounterHolds(s', k) {
      assert CounterHolds(s, k);
      assert LatestOwed(p.owed[k], p.last[k], settled.last[k], p.liquidity) == Some(settled.owed[k]);
      StaleSettleKeeps(ViewOf(s.pool, s.ticks, k), s.positions, s.protocols, Unclaimed(s.pool, k), id, settled);
    }
    SameLiquidityKeeps(s, id, settled);
  }

  /** A position that keeps its range and liquidity keeps the liquidity ledger, its shape and its worth. */
  lemma SameLiquidityKeeps(s: State, id: nat, p': Position)
    requires Shape(s) && LiquidityInv(s) && Coupled(s.pool) && id < |s.positions|
    requires SameRange(s.positions[id], p') && p'.liquidity == s.positions[id].liquidity
    ensures var s' := s.(positions := s.positions[id := p']);
            && Shape(s') && LiquidityInv(s')
            && TotalValue(0, s'.positions, s.pool.sqrtPrice) == TotalValue(0, s.positions, s.pool.sqrtPrice)
            && TotalValue(1, s'.positions, s.pool.sqrtPrice) == TotalValue(1, s.positions, s.pool.sqrtPrice)
  {
    hide SqrtPriceAtTick, Value;
    var ps, p := s.positions, s.positions[id];
    assert p in ps;
    SumsAfterChange(ps, id, p');
    assert forall i :: TickOf(s.ticks, i).gross == GrossSum(ps, i) && TickOf(s.ticks, i).net == NetSum(ps, i);
    SumUpdateR(ps, id, p', ValueAt(0, s.pool.sqrtPrice));
    SumUpdateR(ps, id, p', ValueAt(1, s.pool.sqrtPrice));
    forall x | x in ps[id := p'] ensures x == p' || x in ps {}
  }

  /** Adding liquidity to an existing position, whatever the vault takes in for it. */
  lemma AddKeeps(s: State, id: nat, liquidity: nat, max0: nat, max1: nat, base0: Option<bool>, now: nat, a: Added, settled: Position)
    requires Inv(s) && s.clock == now && HasRange(s, id)
    requires var p := s.positions[id];
             && AddLiquidity(s, s.protocols[(p.lower, p.upper)], p.lower, p.upper, liquidity, max0, max1, base0, now) == Some(a)
             && Settle(p, a.protocol.last) == Some(settled)
    ensures var p := s.positions[id];
            Inv(a.state.(protocols := a.state.protocols[(p.lower, p.upper) := a.protocol],
                         positions := a.state.positions[id := settled.(liquidity := p.liquidity + a.liquidity)]))
  {
    hide ModifyPosition, RequestedLiquidity, Ledgers, Settle, TotalValue;
    var p := s.positions[id];
    if liquidity == 0 && base0.None? {
      StaleSettleKeepsAll(s, id, settled);
      SettledRange(p, a.protocol.last, settled);
      assert s.protocols[(p.lower, p.upper) := a.protocol] == s.protocols;
    } else {
      var m := ModifyPosition(s.pool, s.protocols[(p.lower, p.upper)], TickOf(s.ticks, p.lower), TickOf(s.ticks, p.upper),
                              p.lower, p.upper, a.liquidity, now).value;
      ModifyKeeps(s, id, a.liquidity, now, m, settled);
      SettledRange(p, a.protocol.last, settled);
      var s' := Changed(s, m.state.pool, id, settled.(liquidity := p.liquidity + a.liquidity), m.state.protocol, m.state.lower, m.state.upper);
      VaultsApartFromLedgers(s', a.state.vault);
    }
  }

  lemma SettledRange(p: Position, latest: Counters, settled: Position)
    requires Settle(p, latest) == Some(settled)
    ensures SameRange(p, settled) && settled.liquidity == p.liquidity
  {
    SettledAll(p, settled, latest);
  }

  lemma VaultsApartFromLedgers(s: State, vault: seq<int>)
    requires Ledgers(s) && |vault| == 2
    ensures Ledgers(s.(vault := vault))
  {
    VaultsApart(s, vault);
  }

  lemma IncreaseKeeps(s: State, id: nat, liquidity: nat, max0: nat, max1: nat, base0: Option<bool>, now: nat, s': State)
    requires Inv(s) && s.clock == now
    requires IncreaseLiquidity(s, id, liquidity, max0, max1, base0, now) == Some(s')
    ensures Inv(s')
  {
    hide AddLiquidity, Settle, Inv;
    var p := s.positions[id];
    var a := AddLiquidity(s, s.protocols[(p.lower, p.upper)], p.lower, p.upper, liquidity, max0, max1, base0, now).value;
    AddKeeps(s, id, liquidity, max0, max1, base0, now, a, Settle(p, a.protocol.last).value);
  }

  /** The accounts with an empty position and its range added. */
  ghost function WithEmpty(s: State, p: Position): State {
    var r := (p.lower, p.upper);
    s.(positions := s.positions + [p],
       protocols := s.protocols[r := if r in s.protocols then s.protocols[r] else Protocol(0, NO_GROWTH, [0, 0])])
  }

  lemma EmptyCounters(s: State, p: Position)
    requires CountersInv(s) && p.liquidity == 0 && p.owed == NO_GROWTH
    ensures CountersInv(WithEmpty(s, p))
  {
    hide CounterInv;
    var s' := WithEmpty(s, p);
    forall k: nat | k < COUNTERS ensures CounterHolds(s', k) {
      assert CounterHolds(s, k);
      OpenKeeps(ViewOf(s.pool, s.ticks, k), s.positions, s.protocols, Unclaimed(s.pool, k), p, s'.protocols[(p.lower, p.upper)]);
    }
  }

  lemma EmptyRanges(s: State, p: Position)
    requires RangesBalance(s.positions, s.protocols) && p.liquidity == 0
    ensures RangesBalance(WithEmpty(s, p).positions, WithEmpty(s, p).protocols)
  {
    var s' := WithEmpty(s, p);
    if (p.lower, p.upper) !in s.protocols {
      NoRangeNoLiquidity(s.positions, s.protocols, p.lower, p.upper);
    }
    forall r | r in s'.protocols ensures s'.protocols[r].liquidity == RangeSum(s'.positions, r.0, r.1) {
      SumAppend(s.positions, p, RangeAt(r.0, r.1));
    }
  }

  lemma EmptyTicks(ps: seq<Position>, ticks: map<int, Tick>, p: Position)
    requires TicksBalance(ps, ticks) && p.liquidity == 0
    ensures TicksBalance(ps + [p], ticks)
  {
    forall i ensures TickOf(ticks, i).gross == GrossSum(ps + [p], i) && TickOf(ticks, i).net == NetSum(ps + [p], i) {
      assert TickOf(ticks, i).gross == GrossSum(ps, i) && TickOf(ticks, i).net == NetSum(ps, i);
      SumAppend(ps, p, GrossAt(i));
      SumAppend(ps, p, NetAt(i));
    }
  }

  lemma EmptyLiquidity(s: State, p: Position)
    requires LiquidityInv(s) && Shape(s) && p.liquidity == 0 && ValidRange(s.pool, p.lower, p.upper)
    ensures LiquidityInv(WithEmpty(s, p)) && Shape(WithEmpty(s, p))
  {
    hide TicksBalance, RangesBalance;
    EmptyTicks(s.positions, s.ticks, p);
    EmptyRanges(s, p);
    SumAppend(s.positions, p, CoverAt(s.pool.tick));
    forall x | x in s.positions + [p] ensures x == p || x in s.positions {}
  }

  lemma EmptyValues(s: State, p: Position, t: nat)
    requires InRange(p) && p.liquidity == 0 && s.pool.sqrtPrice > 0
    ensures TotalValue(t, WithEmpty(s, p).positions, s.pool.sqrtPrice) == TotalValue(t, s.positions, s.pool.sqrtPrice)
  {
    hide SqrtPriceAtTick, Value;
    SumAppendR(s.positions, p, ValueAt(t, s.pool.sqrtPrice));
    PricesPositive(p);
    NoLiquidityNoValue(t, SqrtPriceAtTick(p.lower), SqrtPriceAtTick(p.upper), s.pool.sqrtPrice);
  }

  /** An empty position and its range may appear at any time. */
  lemma OpenEmptyKeeps(s: State, p: Position)
    requires Inv(s) && p.liquidity == 0 && p.owed == NO_GROWTH && ValidRange(s.pool, p.lower, p.upper)
    ensures Inv(WithEmpty(s, p))
  {
    hide CountersInv, LiquidityInv, TotalValue, SqrtPriceAtTick;
    EmptyCounters(s, p);
    EmptyLiquidity(s, p);
    EmptyValues(s, p, 0);
    EmptyValues(s, p, 1);
  }

  lemma NoRangeNoLiquidity(ps: seq<Position>, protocols: map<(int, int), Protocol>, lower: int, upper: int)
    requires RangesBalance(ps, protocols) && (lower, upper) !in protocols
    ensures RangeSum(ps, lower, upper) == 0
  {
    SumLinear(ps, RangeAt(lower, upper), RangeAt(lower, upper), RangeAt(lower, upper), -1);
  }

  lemma NothingToSettle(p: Position, latest: Counters)
    requires p.liquidity == 0 && p.owed == NO_GROWTH
    ensures Settle(p, latest) == Some(p.(last := latest))
  {
    hide MulDivFloor128;
    forall k: nat | k < COUNTERS ensures LatestOwed(p.owed[k], p.last[k], latest[k], 0) == Some(0) {
      ZeroFloor((latest[k] - p.last[k]) % U128_MOD);
    }
    assert p.(owed := [0, 0, 0, 0, 0], last := latest) == p.(last := latest);
  }

  lemma ZeroFloor(x: nat)
    ensures MulDivFloor128(x, 0, Q64) == Some(0)
  {
  }

  /** Opening is the arrival of an empty position followed by an increase. */
  lemma OpenKeepsAll(s: State, lower: int, upper: int, liquidity: nat, max0: nat, max1: nat, base0: Option<bool>, now: nat, s': State)
    requires Inv(s) && s.clock == now
    requires OpenPosition(s, lower, upper, liquidity, max0, max1, base0, now) == Some(s')
    ensures Inv(s')
  {
    hide ModifyPosition, RequestedLiquidity, Inv, Settle;
    var q := if (lower, upper) in s.protocols then s.protocols[(lower, upper)] else Protocol(0, NO_GROWTH, [0, 0]);
    var p := Position(lower, upper, 0, NO_GROWTH, NO_GROWTH);
    var a := AddLiquidity(s, q, lower, upper, liquidity, max0, max1, base0, now).value;
    OpenEmptyKeeps(s, p);
    var s1 := WithEmpty(s, p);
    var a1 := a.(state := a.state.(positions := s1.positions, protocols := s1.protocols));
    assert AddLiquidity(s1, q, lower, upper, liquidity, max0, max1, base0, now) == Some(a1);
    NothingToSettle(p, a.protocol.last);
    var id := |s.positions|;
    AddKeeps(s1, id, liquidity, max0, max1, base0, now, a1, p.(last := a.protocol.last));
    var p' := Position(lower, upper, a.liquidity, a.protocol.last, NO_GROWTH);
    assert s1.positions[id := p'] == s.positions + [p'];
    assert s1.protocols[(lower, upper) := a.protocol] == s.protocols[(lower, upper) := a.protocol];
  }

  // ---------------------------------------------------------------------------------------------
  // Decrease and collect

  /** At least x and y are left in the vaults beyond every claim. */
  ghost predicate Spare(s: State, x: nat, y: nat) {
    && Ledgers(s) && s.pool.sqrtPrice > 0
    && Surplus(s, 0) >= x as real && Surplus(s, 1) >= y as real
  }

  lemma BurnKeeps(s: State, id: nat, liquidity: nat, now: nat, b: Burned)
    requires Inv(s) && s.clock == now && HasRange(s, id) && liquidity <= s.positions[id].liquidity
    requires Burn(s, id, liquidity, now) == Some(b)
    ensures Spare(b.state, b.amount0, b.amount1) && |b.state.positions| == |s.positions| && b.state.pool.status == s.pool.status
    ensures b.state.rewardVault == s.rewardVault
  {
    hide ModifyPosition, Ledgers, Settle, TotalValue, Obligations;
    var p := s.positions[id];
    var m := ModifyPosition(s.pool, s.protocols[(p.lower, p.upper)], TickOf(s.ticks, p.lower), TickOf(s.ticks, p.upper),
                            p.lower, p.upper, -(liquidity as int), now).value;
    var settled := Settle(p, m.state.protocol.last).value;
    ModifyKeeps(s, id, -(liquidity as int), now, m, settled);
    SettledRange(p, m.state.protocol.last, settled);
    assert b.state == Changed(s, m.state.pool, id, settled.(liquidity := p.liquidity - liquidity), m.state.protocol, m.state.lower, m.state.upper);
    ShapeOf(b.state);
    CoupledOf(b.state);
  }

  lemma ShapeOf(s: State)
    requires Ledgers(s)
    ensures Shape(s)
  {
  }

  lemma CoupledOf(s: State)
    requires Ledgers(s)
    ensures s.pool.sqrtPrice > 0
  {
  }

  /** Paying a position a_k on every counter k, with the totals of what was claimed moving along. */
  lemma PaidKeeps(s: State, id: nat, p': Position, pool': Pool)
    requires Ledgers(s) && id < |s.positions|
    requires SameRange(s.positions[id], p') && p'.liquidity == s.positions[id].liquidity && p'.last == s.positions[id].last
    requires pool' == s.pool.(claimedFees := pool'.claimedFees, rewards := pool'.rewards)
    requires forall j: nat :: j < REWARDS ==> pool'.rewards[j] == s.pool.rewards[j].(claimed := pool'.rewards[j].claimed)
    requires forall k: nat :: k < COUNTERS ==>
               && p'.owed[k] <= s.positions[id].owed[k]
               && s.positions[id].owed[k] - p'.owed[k] == Unclaimed(s.pool, k) - Unclaimed(pool', k)
    ensures var s' := s.(pool := pool', positions := s.positions[id := p']);
            && Ledgers(s') && s'.pool.sqrtPrice > 0
            && TotalValue(0, s'.positions, s.pool.sqrtPrice) == TotalValue(0, s.positions, s.pool.sqrtPrice)
            && TotalValue(1, s'.positions, s.pool.sqrtPrice) == TotalValue(1, s.positions, s.pool.sqrtPrice)
  {
    hide CounterInv, TotalValue;
    var s' := s.(pool := pool', positions := s.positions[id := p']);
    SameLiquidityKeeps(s, id, p');
    forall k: nat | k < COUNTERS ensures CounterHolds(s', k) {
      assert CounterHolds(s, k);
      assert Growth(pool', k) == Growth(s.pool, k) && Live(pool', k) == Live(s.pool, k) by {
        if k >= TOKENS {
          assert pool'.rewards[k - TOKENS] == s.pool.rewards[k - TOKENS].(claimed := pool'.rewards[k - TOKENS].claimed);
        }
      }
      PayKeeps(ViewOf(s.pool, s.ticks, k), s.positions, s.protocols, Unclaimed(s.pool, k), id, p',
               s.positions[id].owed[k] - p'.owed[k]);
    }
    forall j: nat | j < REWARDS ensures RewardOrdered(pool'.rewards[j], s.clock) {
      assert RewardOrdered(s.pool.rewards[j], s.clock);
    }
  }

  lemma CollectFeesKeeps(s: State, id: nat, x: nat, y: nat, c: Collected)
    requires Spare(s, x, y) && id < |s.positions| && CollectFees(s, id) == Some(c)
    ensures Spare(c.state, x + c.fee0, y + c.fee1) && |c.state.positions| == |s.positions| && c.state.pool.status == s.pool.status
  {
    hide Ledgers, TotalValue;
    var p := s.positions[id];
    var p' := c.state.positions[id];
    forall k: nat | k < COUNTERS
      ensures && p'.owed[k] <= p.owed[k]
              && p.owed[k] - p'.owed[k] == Unclaimed(s.pool, k) - Unclaimed(c.state.pool, k) {
      assert k == 0 || k == 1 || k == 2 || k == 3 || k == 4;
    }
    PaidKeeps(s, id, p', c.state.pool);
    ShapeOf(s);
  }

  /** In a reachable state the fee guard never rejects: a collection cannot fail. */
  lemma FeeGuardNeverRejects(s: State, id: nat)
    requires Ledgers(s) && id < |s.positions|
    ensures CollectFees(s, id).Some?
  {
    assert CounterHolds(s, 0) && CounterHolds(s, 1);
    OwedIsCovered(ViewOf(s.pool, s.ticks, 0), s.positions, s.protocols, Unclaimed(s.pool, 0), id);
    OwedIsCovered(ViewOf(s.pool, s.ticks, 1), s.positions, s.protocols, Unclaimed(s.pool, 1), id);
  }

  /** Nor does the reward guard. */
  lemma RewardGuardNeverRejects(s: State, id: nat, j: nat)
    requires Ledgers(s) && id < |s.positions| && j < REWARDS
    ensures s.positions[id].owed[TOKENS + j] <= Unclaimed(s.pool, TOKENS + j)
  {
    assert CounterHolds(s, TOKENS + j);
    OwedIsCovered(ViewOf(s.pool, s.ticks, TOKENS + j), s.positions, s.protocols, Unclaimed(s.pool, TOKENS + j), id);
  }

  lemma StatusApart(s: State, status: Status)
    requires Ledgers(s)
    ensures Ledgers(s.(pool := s.pool.(status := status)))
  {
    hide CounterInv;
    forall k: nat | k < COUNTERS ensures CounterHolds(s.(pool := s.pool.(status := status)), k) {
      assert CounterHolds(s, k);
    }
  }

  lemma CheckVaultsKeeps(s: State)
    requires Inv(s)
    ensures Inv(CheckVaults(s)) && CheckVaults(s).positions == s.positions
  {
    hide Ledgers, TotalValue;
    StatusApart(s, s.pool.status.(collectFee := false));
  }

  lemma PayoutKeeps(s: State, x: nat, y: nat)
    requires Spare(s, x, y) && Payout(s, x, y).Some?
    ensures Inv(Payout(s, x, y).value) && Payout(s, x, y).value.positions == s.positions
  {
    hide Ledgers, TotalValue;
    ShapeOf(s);
    VaultsApartFromLedgers(s, [s.vault[0] - x, s.vault[1] - y]);
  }

  lemma CollectRewardKeeps(s: State, id: nat, j: nat, s': State)
    requires Inv(s) && id < |s.positions| && j < REWARDS && CollectReward(s, id, j) == Some(s')
    ensures Inv(s') && |s'.positions| == |s.positions|
  {
    hide Ledgers, TotalValue;
    if s' != s {
      var p := s.positions[id];
      var p' := s'.positions[id];
      forall k: nat | k < COUNTERS
        ensures && p'.owed[k] <= p.owed[k]
                && p.owed[k] - p'.owed[k] == Unclaimed(s.pool, k) - Unclaimed(s'.pool, k) {
      }
      PaidKeeps(s, id, p', s'.pool);
      ShapeOf(s);
      assert s' == s.(pool := s'.pool, positions := s.positions[id := p']).(rewardVault := s'.rewardVault);
      VaultsOfRewardsApart(s.(pool := s'.pool, positions := s.positions[id := p']), s'.rewardVault);
    }
  }

  lemma CollectRewardsKeeps(s: State, id: nat, s': State)
    requires Inv(s) && id < |s.positions| && CollectRewards(s, id) == Some(s')
    ensures Inv(s')
  {
    hide Inv, CollectReward;
    if s.pool.status.collectReward {
      var s0 := CollectReward(s, id, 0).value;
      CollectRewardKeeps(s, id, 0, s0);
      var s1 := CollectReward(s0, id, 1).value;
      CollectRewardKeeps(s0, id, 1, s1);
      CollectRewardKeeps(s1, id, 2, s');
    }
  }

  lemma DecreaseKeeps(s: State, id: nat, liquidity: nat, min0: nat, min1: nat, now: nat, s': State)
    requires Inv(s) && s.clock == now
    requires DecreaseLiquidity(s, id, liquidity, min0, min1, now) == Some(s')
    ensures Inv(s')
  {
    hide Burn, CollectFees, CheckVaults, Payout, CollectRewards, Ledgers, Surplus;
    var b := if s.pool.status.decrease then Burn(s, id, liquidity, now).value else Burned(s, 0, 0);
    if s.pool.status.decrease {
      BurnKeeps(s, id, liquidity, now, b);
    }
    var c := if s.pool.status.collectFee then CollectFees(b.state, id).value else Collected(b.state, 0, 0);
    if s.pool.status.collectFee {
      CollectFeesKeeps(b.state, id, b.amount0, b.amount1, c);
    }
    ShapeOf(c.state);
    PayoutKeeps(c.state, b.amount0 + c.fee0, b.amount1 + c.fee1);
    var paid := Payout(c.state, b.amount0 + c.fee0, b.amount1 + c.fee1).value;
    CheckVaultsKeeps(paid);
    CollectRewardsKeeps(CheckVaults(paid), id, s');
  }

  // ---------------------------------------------------------------------------------------------
  // Protocol and fund fees

  lemma FeesOutKeeps(s: State, protocolFees: PerToken, fundFees: PerToken, x: nat, y: nat)
    requires Inv(s)
    requires s.pool.protocolFees[0] + s.pool.fundFees[0] == protocolFees[0] + fundFees[0] + x
    requires s.pool.protocolFees[1] + s.pool.fundFees[1] == protocolFees[1] + fundFees[1] + y
    ensures Spare(s.(pool := s.pool.(protocolFees := protocolFees, fundFees := fundFees)), x, y)
  {
    hide CounterInv, TotalValue;
    var s' := s.(pool := s.pool.(protocolFees := protocolFees, fundFees := fundFees));
    forall k: nat | k < COUNTERS ensures CounterHolds(s', k) {
      assert CounterHolds(s, k);
    }
  }

  lemma CollectProtocolFeeKeeps(s: State, a: nat, b: nat, s': State)
    requires Inv(s) && CollectProtocolFee(s, a, b) == Some(s')
    ensures Inv(s')
  {
    hide Ledgers, Surplus, CheckVaults, Payout;
    var p := s.pool.protocolFees;
    var x, y := Min(a, p[0]), Min(b, p[1]);
    FeesOutKeeps(s, [p[0] - x, p[1] - y], s.pool.fundFees, x, y);
    PayoutKeeps(s.(pool := s.pool.(protocolFees := [p[0] - x, p[1] - y])), x, y);
    CheckVaultsKeeps(Payout(s.(pool := s.pool.(protocolFees := [p[0] - x, p[1] - y])), x, y).value);
  }

  lemma CollectFundFeeKeeps(s: State, a: nat, b: nat, s': State)
    requires Inv(s) && CollectFundFee(s, a, b) == Some(s')
    ensures Inv(s')
  {
    hide Ledgers, Surplus, CheckVaults, Payout;
    var p := s.pool.fundFees;
    var x, y := Min(a, p[0]), Min(b, p[1]);
    FeesOutKeeps(s, s.pool.protocolFees, [p[0] - x, p[1] - y], x, y);
    PayoutKeeps(s.(pool := s.pool.(fundFees := [p[0] - x, p[1] - y])), x, y);
    CheckVaultsKeeps(Payout(s.(pool := s.pool.(fundFees := [p[0] - x, p[1] - y])), x, y).value);
  }

  // ---------------------------------------------------------------------------------------------
  // Swap

  lemma SwapKeeps(s: State, amount: nat, limit: nat, zeroForOne: bool, baseInput: bool, now: nat, s': State)
    requires Inv(s) && s.clock == now
    requires Swap(s, amount, limit, zeroForOne, baseInput, now) == Some(s')
    ensures Inv(s')
  {
    hide AccrueRewards, SwapLoop, Ledgers, KeepsValue, Surplus, LimitAhead;
    var x := SwapArgs(zeroForOne, baseInput, EffectiveLimit(limit, zeroForOne));
    var pool := AccrueRewards(s.pool, now).value;
    AccrueRewardsKeeps(s, now, pool);
    ValidLimitAhead(s.pool, x);
    ValidLimitAhead(pool, x);
    var w0 := SwapState(s.(pool := pool), amount, 0);
    LoopKeeps(w0, x);
    StatusApart(SwapLoop(w0, x).value.state, Status(false, false, false, false, false));
    SurplusIgnoresStatus(SwapLoop(w0, x).value.state, Status(false, false, false, false, false));
  }

  lemma SurplusIgnoresStatus(s: State, status: Status)
    requires Solvent(s)
    ensures Solvent(s.(pool := s.pool.(status := status)))
  {
    hide TotalValue;
  }

  lemma ValidLimitAhead(pool: Pool, x: SwapArgs)
    requires ValidLimit(x.limit, pool.sqrtPrice, x.zeroForOne)
    ensures LimitAhead(pool, x)
  {
  }
}
