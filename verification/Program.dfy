/** The program: accounts as the chain stores them, and instructions that load working copies, change them
    in place, and write them back only on success. Every instruction is the reference's transaction on the
    ticks the accounts stand for; wrong or missing accounts leave everything as it was. */
module Programs {
  import opened Wrappers
  import opened FullMath
  import opened LiquidityMath
  import opened Powers
  import opened TickMath
  import opened BigNum
  import opened Model
  import opened Positions
  import Sums
  import Ticks
  import RewardRules
  import opened Ledger
  import opened Machine
  import opened Runs
  import opened Invariants
  import opened SwapRuns
  import opened Theorems
  import opened ArrayIndex
  import opened BitmapSearch
  import opened BitmapExtension
  import opened TickArrays
  import opened PoolStates
  import opened PositionStates
  import opened RewardInfos
  import opened TickIndex
  import opened LiquidityChanges
  import opened Withdrawals
  import opened SwapProgram

  /** The accounts an instruction gives back. */
  datatype Changed = Changed(pool: Pool, arrays: map<int, TickArray>, bitmap: seq<nat>, positive: seq<seq<nat>>, negative: seq<seq<nat>>) {
    ghost predicate WordsFit() {
      |bitmap| == POOL_WORDS && Words(bitmap) && Holds(positive) && Holds(negative)
    }

    ghost function Bits(): Bitmaps {
      Bitmaps(Value(bitmap), Values(positive), Values(negative))
    }
  }

  /** What adding liquidity, or burning it, gives back. */
  datatype AddResult = AddResult(accounts: Changed, range: Protocol, added: Addition)
  datatype BurnResult = BurnResult(accounts: Changed, range: Protocol, position: Position, amount0: nat, amount1: nat)

  class Program {
    var pool: Pool
    var config: Config
    var ranges: map<(int, int), Protocol>
    var positions: seq<Position>
    var vault: seq<int>
    var rewardVault: PerReward
    var clock: nat
    var arrays: map<int, TickArray>
    var bitmap: seq<nat>
    var positive: seq<seq<nat>>
    var negative: seq<seq<nat>>
    ghost var ticks: map<int, Tick>

    /** The reference state the accounts stand for. */
    ghost function AsState(): State
      reads this
    {
      State(pool, config, ticks, ranges, positions, vault, rewardVault, clock)
    }

    ghost function Bits(): Bitmaps
      reads this
    {
      Bitmaps(Value(bitmap), Values(positive), Values(negative))
    }

    ghost predicate WordsFit()
      reads this
    {
      |bitmap| == POOL_WORDS && Words(bitmap) && Holds(positive) && Holds(negative)
    }

    ghost predicate Valid()
      reads this
    {
      && WordsFit() && pool.spacing > 0
      && Reachable(AsState()) && IndexInv(ticks, Index(arrays, Bits()), pool.spacing)
    }

    /** The accounts of a new pool: no positions, no arrays, no bits. */
    constructor (created: State)
      requires created.ticks == map[] && created.pool.spacing > 0 && Reachable(created)
      ensures Valid() && AsState() == created
    {
      pool, config, ranges, positions := created.pool, created.config, created.protocols, created.positions;
      vault, rewardVault, clock := created.vault, created.rewardVault, created.clock;
      arrays := map[];
      bitmap := seq(POOL_WORDS, i => 0);
      positive := seq(EXTENSION_SIZE, i => seq(EXTENSION_WORDS, j => 0));
      negative := seq(EXTENSION_SIZE, i => seq(EXTENSION_WORDS, j => 0));
      ticks := map[];
      new;
      NothingMarked(bitmap, positive, negative);
      NothingIndexed(Bits(), pool.spacing);
    }

    lemma BitsSized()
      requires WordsFit()
      ensures Sized(Bits())
    {
      ValueBound(bitmap);
      ValuesFit(positive);
      ValuesFit(negative);
    }

    /** Working copies of the pool and, if it is supplied, of the extension. */
    method Load(extSupplied: bool) returns (p: PoolState, ext: TickArrayBitmapExtension?)
      requires WordsFit() && pool.spacing > 0
      ensures fresh(p) && p.Fields() == pool && p.tickArrayBitmap == bitmap && (ext == null <==> !extSupplied)
      ensures ext != null ==> fresh(ext) && fresh(ext.positive) && fresh(ext.negative)
      ensures Shows(Bits(), p.tickArrayBitmap, ext)
    {
      hide Value;
      BitsSized();
      p := new PoolState(pool, bitmap);
      ext := null;
      if extSupplied {
        ext := new TickArrayBitmapExtension(positive, negative);
      }
    }

    /** What the working copies of pool and extension hold at the end. */
    method Unload(p: PoolState, ext: TickArrayBitmapExtension?, accounts: map<int, TickArray>, ghost bits: Bitmaps) returns (c: Changed)
      requires WordsFit() && Shows(bits, p.tickArrayBitmap, ext) && SameExtension(Bits(), bits, ext)
      ensures c.WordsFit() && c.pool == p.Fields() && c.arrays == accounts && c.Bits() == bits
    {
      hide Value, Sized;
      c := Changed(p.Fields(), accounts, p.tickArrayBitmap, positive, negative);
      if ext != null {
        c := c.(positive := ext.positive[..], negative := ext.negative[..]);
      }
    }

    /** Writes all accounts back. */
    method Commit(c: Changed, newRanges: map<(int, int), Protocol>, newPositions: seq<Position>, newVault: seq<int>,
                  newRewardVault: PerReward, now: nat, ghost s': State)
      requires s' == State(c.pool, config, s'.ticks, newRanges, newPositions, newVault, newRewardVault, now)
      requires Reachable(s') && c.WordsFit() && c.pool.spacing > 0 && IndexInv(s'.ticks, Index(c.arrays, c.Bits()), c.pool.spacing)
      modifies this
      ensures Valid() && AsState() == s'
    {
      hide Reachable, IndexInv, Words, Holds, Value, Values;
      pool, arrays, bitmap, positive, negative := c.pool, c.arrays, c.bitmap, c.positive, c.negative;
      ranges, positions, vault, rewardVault, clock := newRanges, newPositions, newVault, newRewardVault, now;
      ticks := s'.ticks;
    }

    /** The arrays of both ticks: one working copy if they are the same account. */
    method LoadArrays(lowerStart: int, upperStart: int, accounts: map<int, TickArray>, ghost bits: Bitmaps)
      returns (lower: TickArrayState, upper: TickArrayState)
      requires pool.spacing > 0 && IndexInv(ticks, Index(accounts, bits), pool.spacing)
      requires lowerStart in accounts && upperStart in accounts
      ensures fresh(lower) && fresh(lower.ticks) && fresh(upper) && fresh(upper.ticks)
      ensures lower.startTickIndex == lowerStart && upper.startTickIndex == upperStart
      ensures Loaded(Index(accounts, bits), lower, upper)
    {
      PlacedAt(ticks, Index(accounts, bits), pool.spacing, lowerStart);
      PlacedAt(ticks, Index(accounts, bits), pool.spacing, upperStart);
      lower := new TickArrayState(accounts[lowerStart]);
      upper := lower;
      if upperStart != lowerStart {
        upper := new TickArrayState(accounts[upperStart]);
      }
    }

    /** The account of an array, created blank if it does not exist yet. */
    method GetOrCreateTickArray(start: int, accounts: map<int, TickArray>, ghost bits: Bitmaps) returns (accounts': map<int, TickArray>)
      requires pool.spacing > 0 && IndexInv(ticks, Index(accounts, bits), pool.spacing) && CheckIsValidStartIndex(start, pool.spacing)
      ensures IndexInv(ticks, Index(accounts', bits), pool.spacing) && start in accounts'
      ensures forall k :: k in accounts ==> k in accounts' && accounts'[k] == accounts[k]
    {
      hide IndexInv;
      accounts' := accounts;
      if start !in accounts {
        ValidStartIndices(start, pool.spacing);
        AddBlank(ticks, Index(accounts, bits), pool.spacing, start);
        accounts' := accounts[start := TickArray(start, seq(TICK_ARRAY_SIZE, i => NO_SLOT), 0)];
      }
    }

    // -------------------------------------------------------------------------------------------
    // Instructions

    /** Both ticks lie in the arrays named for them, and the extension is supplied. */
    ghost predicate RightAccounts(lower: int, upper: int, lowerStart: int, upperStart: int, extSupplied: bool)
      reads this
    {
      pool.spacing > 0 && extSupplied && !WrongArrays(lower, upper, pool.spacing, lowerStart, upperStart)
    }

    /** Adds liquidity on working copies of the accounts. */
    method AddOnAccounts(accounts: map<int, TickArray>, range: Protocol, lower: int, upper: int, lowerStart: int, upperStart: int,
                         liquidity: nat, max0: nat, max1: nat, base0: Option<bool>, extSupplied: bool, now: nat, ghost s: State)
      returns (r: Option<AddResult>, ghost a: Added)
      requires WordsFit() && pool.spacing > 0 && IndexInv(ticks, Index(accounts, Bits()), pool.spacing)
      requires s.pool == pool && s.ticks == ticks && |s.vault| == 2 && ValidRange(pool, lower, upper)
      requires lowerStart in accounts && upperStart in accounts
      ensures r.Some? ==>
                && Machine.AddLiquidity(s, range, lower, upper, liquidity, max0, max1, base0, now) == Some(a)
                && var c, range', added := r.value.accounts, r.value.range, r.value.added;
                   && c.WordsFit() && c.pool == a.state.pool && c.pool.spacing == pool.spacing
                   && IndexInv(a.state.ticks, Index(c.arrays, c.Bits()), pool.spacing)
                   && range' == a.protocol && added.liquidity == a.liquidity
                   && a.state.vault == [s.vault[0] + added.amount0, s.vault[1] + added.amount1]
                   && a.state == s.(pool := a.state.pool, ticks := a.state.ticks, vault := a.state.vault)
      ensures r.None? && RightAccounts(lower, upper, lowerStart, upperStart, extSupplied) ==>
                Machine.AddLiquidity(s, range, lower, upper, liquidity, max0, max1, base0, now) == None
    {
      hide IndexInv, Shows, Machine.AddLiquidity, ArrayStart, SameExtension, Loaded, Value, Words, Holds;
      var p, ext := Load(extSupplied);
      var lowerArray, upperArray := LoadArrays(lowerStart, upperStart, accounts, Bits());
      var q := new ProtocolPositionState(range);
      var added;
      ghost var x';
      added, x' := LiquidityChanges.AddLiquidity(p, lowerArray, upperArray, q, ext, liquidity, max0, max1, lower, upper, base0, now, s, Index(accounts, Bits()));
      a := Added(s, range, 0);
      if added.None? { return None, a; }
      a := Machine.AddLiquidity(s, range, lower, upper, liquidity, max0, max1, base0, now).value;
      AddTouches(s, range, lower, upper, liquidity, max0, max1, base0, now);
      var c := Unload(p, ext, accounts[lowerStart := lowerArray.Account()][upperStart := upperArray.Account()], x'.bits);
      assert x' == Index(c.arrays, c.Bits());
      r := Some(AddResult(c, q.Contents(), added.value));
    }

    /** Opens a position, possibly with liquidity. */
    method OpenPosition(lower: int, upper: int, lowerStart: int, upperStart: int, liquidity: nat, max0: nat, max1: nat,
                        base0: Option<bool>, extSupplied: bool, now: nat) returns (ok: bool)
      requires Valid()
      modifies this
      ensures Valid()
      ensures ok || old(RightAccounts(lower, upper, lowerStart, upperStart, extSupplied)) ==>
                AsState() == Runs.Step(old(AsState()), Transaction(DoOpen(lower, upper, liquidity, max0, max1, base0), now))
      ensures !ok ==> AsState() == old(AsState()) && arrays == old(arrays) && Bits() == old(Bits())
    {
      hide Reachable, Inv, IndexInv, Machine.AddLiquidity, CheckIsValidStartIndex, ArrayStart, Value, Words, Holds, Runs.Step;
      ReachableHolds(AsState());
      ghost var s := AsState().(clock := now);
      assert |vault| == 2 by { RevealInv(AsState()); }
      if now < clock || !pool.status.open || !ValidRange(pool, lower, upper) {
        OpenRefused(AsState(), lower, upper, liquidity, max0, max1, base0, now);
        return false;
      }
      if ArrayStart(lower, pool.spacing) != lowerStart || ArrayStart(upper, pool.spacing) != upperStart { return false; }
      if (IsOverflow(lowerStart, pool.spacing) || IsOverflow(upperStart, pool.spacing)) && !extSupplied { return false; }
      ArrayOfUsableTick(lower, pool.spacing);
      ArrayOfUsableTick(upper, pool.spacing);
      var accounts := GetOrCreateTickArray(lowerStart, arrays, Bits());
      accounts := GetOrCreateTickArray(upperStart, accounts, Bits());
      var range := if (lower, upper) in ranges then ranges[(lower, upper)] else Protocol(0, NO_GROWTH, [0, 0]);
      OpenIsAdd(AsState(), lower, upper, liquidity, max0, max1, base0, now);
      var r;
      ghost var a;
      r, a := AddOnAccounts(accounts, range, lower, upper, lowerStart, upperStart, liquidity, max0, max1, base0, extSupplied, now, s);
      if r.None? { return false; }
      var c, range', added := r.value.accounts, r.value.range, r.value.added;
      var personal := NewPosition(lower, upper, added.liquidity, range'.last);
      StepReachable(AsState(), Transaction(DoOpen(lower, upper, liquidity, max0, max1, base0), now));
      Commit(c, ranges[(lower, upper) := range'], positions + [personal],
             [vault[0] + added.amount0, vault[1] + added.amount1], rewardVault, now,
             Runs.Step(AsState(), Transaction(DoOpen(lower, upper, liquidity, max0, max1, base0), now)));
      ok := true;
    }

    /** The arrays named exist, the ticks of the position lie in them, and the extension is supplied. */
    ghost predicate RightAccountsFor(id: nat, lowerStart: int, upperStart: int, extSupplied: bool)
      reads this
    {
      && id < |positions| && lowerStart in arrays && upperStart in arrays
      && RightAccounts(positions[id].lower, positions[id].upper, lowerStart, upperStart, extSupplied)
    }

    /** Adds liquidity to a position and settles what it has earned so far. */
    method IncreaseLiquidity(id: nat, lowerStart: int, upperStart: int, liquidity: nat, max0: nat, max1: nat,
                             base0: Option<bool>, extSupplied: bool, now: nat) returns (ok: bool)
      requires Valid()
      modifies this
      ensures Valid()
      ensures ok || old(RightAccountsFor(id, lowerStart, upperStart, extSupplied)) ==>
                AsState() == Runs.Step(old(AsState()), Transaction(DoIncrease(id, liquidity, max0, max1, base0), now))
      ensures !ok ==> AsState() == old(AsState()) && arrays == old(arrays) && Bits() == old(Bits())
    {
      hide Reachable, Inv, IndexInv, Machine.AddLiquidity, ArrayStart, Value, Words, Holds, Runs.Step, Settle;
      ReachableHolds(AsState());
      ghost var s := AsState().(clock := now);
      if id >= |positions| || now < clock || !pool.status.open {
        IncreaseRefused(AsState(), id, liquidity, max0, max1, base0, now);
        return false;
      }
      if lowerStart !in arrays || upperStart !in arrays { return false; }
      PositionHasRange(AsState(), id);
      IncreaseIsAdd(AsState(), id, liquidity, max0, max1, base0, now);
      var lower, upper := positions[id].lower, positions[id].upper;
      if (IsOverflow(lower, pool.spacing) || IsOverflow(upper, pool.spacing)) && !extSupplied { return false; }
      var r;
      ghost var a;
      r, a := AddOnAccounts(arrays, ranges[(lower, upper)], lower, upper, lowerStart, upperStart, liquidity, max0, max1, base0, extSupplied, now, s);
      if r.None? { return false; }
      var c, range', added := r.value.accounts, r.value.range, r.value.added;
      var settled := SettledPosition(positions[id], range'.last);
      if settled.None? { return false; }
      if positions[id].liquidity + added.liquidity > U128_MAX { return false; }
      StepReachable(AsState(), Transaction(DoIncrease(id, liquidity, max0, max1, base0), now));
      Commit(c, ranges[(lower, upper) := range'],
             positions[id := settled.value.(liquidity := settled.value.liquidity + added.liquidity)],
             [vault[0] + added.amount0, vault[1] + added.amount1], rewardVault, now,
             Runs.Step(AsState(), Transaction(DoIncrease(id, liquidity, max0, max1, base0), now)));
      ok := true;
    }

    /** Burns liquidity on working copies of the accounts and settles the position. */
    method BurnOnAccounts(id: nat, liquidity: nat, lowerStart: int, upperStart: int, extSupplied: bool, now: nat, ghost s: State)
      returns (r: Option<BurnResult>, ghost b: Burned)
      requires Valid() && s == AsState().(clock := now) && HasRange(s, id) && liquidity <= positions[id].liquidity
      requires lowerStart in arrays && upperStart in arrays
      ensures r.Some? ==>
                && Machine.Burn(s, id, liquidity, now) == Some(b)
                && var c := r.value.accounts;
                   && c.WordsFit() && c.pool == b.state.pool && c.pool.spacing == pool.spacing
                   && IndexInv(b.state.ticks, Index(c.arrays, c.Bits()), pool.spacing)
                   && r.value.amount0 == b.amount0 && r.value.amount1 == b.amount1
                   && b.state == s.(pool := c.pool, ticks := b.state.ticks,
                                    protocols := s.protocols[(positions[id].lower, positions[id].upper) := r.value.range],
                                    positions := s.positions[id := r.value.position])
      ensures r.None? && RightAccountsFor(id, lowerStart, upperStart, extSupplied) ==> Machine.Burn(s, id, liquidity, now) == None
    {
      hide Reachable, Inv, IndexInv, Shows, Positions.ModifyPosition, ArrayStart, SameExtension, Loaded, Value, Words, Holds, Settle;
      ReachableHolds(AsState());
      var lower, upper := positions[id].lower, positions[id].upper;
      LiquidityAtEnds(AsState(), lower, upper);
      var p, ext := Load(extSupplied);
      var lowerArray, upperArray := LoadArrays(lowerStart, upperStart, arrays, Bits());
      var q := new ProtocolPositionState(ranges[(lower, upper)]);
      var amounts;
      ghost var x';
      amounts, x' := BurnLiquidity(p, lowerArray, upperArray, q, ext, liquidity, lower, upper, now, s, Index(arrays, Bits()));
      b := Burned(s, 0, 0);
      BurnParts(s, id, liquidity, now);
      if amounts.None? { return None, b; }
      var settled := SettledPosition(positions[id], q.growthInsideLast);
      if settled.None? { return None, b; }
      b := Machine.Burn(s, id, liquidity, now).value;
      var c := Unload(p, ext, arrays[lowerStart := lowerArray.Account()][upperStart := upperArray.Account()], x'.bits);
      assert x' == Index(c.arrays, c.Bits());
      r := Some(BurnResult(c, q.Contents(), settled.value.(liquidity := settled.value.liquidity - liquidity), amounts.value.0, amounts.value.1));
    }

    /** Takes liquidity out of a position and pays it out, with fees and rewards, as far as the pool's status allows. */
    method DecreaseLiquidity(id: nat, lowerStart: int, upperStart: int, liquidity: nat, min0: nat, min1: nat,
                             extSupplied: bool, now: nat) returns (ok: bool)
      requires Valid()
      modifies this
      ensures Valid()
      ensures ok || old(RightAccountsFor(id, lowerStart, upperStart, extSupplied)) ==>
                AsState() == Runs.Step(old(AsState()), Transaction(DoDecrease(id, liquidity, min0, min1), now))
      ensures !ok ==> AsState() == old(AsState()) && arrays == old(arrays) && Bits() == old(Bits())
    {
      hide Reachable, Inv, IndexInv, Machine.Burn, Machine.DecreaseLiquidity, ArrayStart, Value, Words, Holds, Runs.Step, Withdraw;
      ReachableHolds(AsState());
      ghost var s := AsState().(clock := now);
      ghost var tx := Transaction(DoDecrease(id, liquidity, min0, min1), now);
      var status := pool.status;
      if id >= |positions| || now < clock || liquidity > positions[id].liquidity
         || (!status.decrease && !status.collectFee && !status.collectReward) {
        DecreaseRefused(AsState(), id, liquidity, min0, min1, now);
        return false;
      }
      if lowerStart !in arrays || upperStart !in arrays { return false; }
      if (IsOverflow(lowerStart, pool.spacing) || IsOverflow(upperStart, pool.spacing)) && !extSupplied { return false; }
      PositionHasRange(AsState(), id);
      DecreaseParts(AsState(), id, liquidity, min0, min1, now);
      var c := Changed(pool, arrays, bitmap, positive, negative);
      var newRanges, newPositions := ranges, positions;
      var amount0, amount1 := 0, 0;
      ghost var s1 := s;
      if status.decrease {
        var r;
        ghost var b;
        r, b := BurnOnAccounts(id, liquidity, lowerStart, upperStart, extSupplied, now, s);
        if r.None? { return false; }
        c, amount0, amount1 := r.value.accounts, r.value.amount0, r.value.amount1;
        newRanges := ranges[(positions[id].lower, positions[id].upper) := r.value.range];
        newPositions := positions[id := r.value.position];
        s1 := b.state;
      }
      var paid := PayOut(c.pool, c.bitmap, newPositions[id], amount0, amount1, liquidity, min0, min1, vault, rewardVault, s1, id);
      if paid.None? { return false; }
      StepReachable(AsState(), tx);
      SpacingStays(s1, id, amount0, amount1, liquidity > 0 && (amount0 < min0 || amount1 < min1));
      Commit(c.(pool := paid.value.pool), newRanges, newPositions[id := paid.value.position], paid.value.vault, paid.value.rewardVault, now,
             Runs.Step(AsState(), tx));
      ok := true;
    }

    /** The arrays supplied hold every marked array from the current tick's own on, in the order of travel. */
    ghost predicate RightQueue(queue: seq<int>, zeroForOne: bool, extSupplied: bool)
      reads this
    {
      && pool.spacing > 0 && extSupplied
      && var span := TickCount(pool.spacing); Supplies(queue, arrays, Bits(), ArrayOf(pool.tick, span), zeroForOne, span)
    }

    /** Swaps, takes the input and pays the output out. */
    method SwapTokens(amount: nat, limit: nat, zeroForOne: bool, baseInput: bool, queue: seq<int>, extSupplied: bool, now: nat) returns (ok: bool)
      requires Valid()
      modifies this
      ensures Valid()
      ensures ok || old(RightQueue(queue, zeroForOne, extSupplied)) ==>
                AsState() == Runs.Step(old(AsState()), Transaction(DoSwap(amount, limit, zeroForOne, baseInput), now))
      ensures !ok ==> AsState() == old(AsState()) && arrays == old(arrays) && Bits() == old(Bits())
    {
      hide Reachable, Inv, IndexInv, Shows, Supplies, ArrayOf, Value, Words, Holds, Runs.Step, Outcome, FinishSwap;
      ReachableHolds(AsState());
      ghost var s := AsState().(clock := now);
      ghost var tx := Transaction(DoSwap(amount, limit, zeroForOne, baseInput), now);
      if now < clock || now <= pool.openTime || amount > U64_MAX {
        SwapRefused(AsState(), amount, limit, zeroForOne, baseInput, now);
        return false;
      }
      RevealInv(AsState());
      ClockKeeps(AsState(), now);
      var x := SwapArgs(zeroForOne, baseInput, EffectiveLimit(limit, zeroForOne));
      SwapParts(AsState(), amount, limit, zeroForOne, baseInput, now);
      var p, ext := Load(extSupplied);
      var priceBefore := pool.sqrtPrice;
      var r, arrays';
      ghost var ticks';
      r, arrays', ticks' := SwapInternal(p, ext, config, queue, amount, x, now, arrays, s, Bits());
      if r.None? {
        if Outcome(s, amount, x, now).Some? && !TotalsFit(Outcome(s, amount, x, now).value.state.pool, TokenIn(zeroForOne)) {
          UnfitNeverFinishes(s, Outcome(s, amount, x, now).value, x, amount);
        }
        return false;
      }
      ghost var w := Outcome(s, amount, x, now).value;
      var paid, received := if zeroForOne then r.value.0 else r.value.1, if zeroForOne then r.value.1 else r.value.0;
      FinishIs(s, w, x, amount, paid, received);
      if r.value.0 == 0 || r.value.1 == 0 { return false; }
      var t := TokenIn(zeroForOne);
      var taken := vault[t := vault[t] + paid];
      if taken[1 - t] < received { return false; }
      if taken[1 - t] <= received {
        p.status := Status(false, false, false, false, false);
      }
      var newVault := taken[1 - t := taken[1 - t] - received];
      if !(if zeroForOne then p.sqrtPrice < priceBefore else priceBefore < p.sqrtPrice) { return false; }
      StepReachable(AsState(), tx);
      var c := Changed(p.Fields(), arrays', bitmap, positive, negative);
      Commit(c, ranges, positions, newVault, rewardVault, now, Runs.Step(AsState(), tx));
      ok := true;
    }

    /** Brings the rewards up to date. */
    method UpdateRewards(now: nat) returns (ok: bool)
      requires Valid()
      modifies this
      ensures Valid() && AsState() == Runs.Step(old(AsState()), Transaction(DoUpdateRewards, now))
      ensures ok ==> forall j :: 0 <= j < REWARDS ==> RewardRules.Accrues(old(pool).rewards[j], pool.rewards[j], old(pool).liquidity, now)
    {
      hide Reachable, Inv, IndexInv, Words, Holds, Value, RewardRules.AccrueReward, RewardRules.Accrues;
      ghost var s := AsState();
      StepReachable(s, Transaction(DoUpdateRewards, now));
      if now < clock { return false; }
      var p := new PoolState(pool, bitmap);
      ok := p.UpdateRewardInfos(now);
      if !ok { return false; }
      Commit(Changed(p.Fields(), arrays, bitmap, positive, negative), ranges, positions, vault, rewardVault, now,
             Runs.Step(s, Transaction(DoUpdateRewards, now)));
    }

    /** Sets a new schedule for a reward, or extends it; the funder pays the difference in advance. */
    method SetRewardParams(j: nat, emissions: nat, openTime: nat, endTime: nat, operator: bool, now: nat) returns (ok: bool)
      requires Valid()
      modifies this
      ensures Valid() && AsState() == Runs.Step(old(AsState()), Transaction(DoSetRewardParams(j, emissions, openTime, endTime, operator), now))
    {
      hide Reachable, Inv, IndexInv, Words, Holds, Value, Runs.Step, RewardRules.AccrueRewards, RewardRules.NormalUpdate, RewardRules.AdminUpdate;
      ghost var s, tx := AsState(), Transaction(DoSetRewardParams(j, emissions, openTime, endTime, operator), now);
      StepReachable(s, tx);
      SetRewardParts(s, j, emissions, openTime, endTime, operator, now);
      if now < clock { return false; }
      if j >= REWARDS || endTime <= openTime || emissions == 0 || emissions > U128_MAX || openTime <= now { return false; }
      var p := new PoolState(pool, bitmap);
      ok := p.UpdateRewardInfos(now);
      if !ok { return false; }
      if !p.rewardInfos[j].initialized { return false; }
      var info := new RewardInfo(p.rewardInfos[j]);
      var amount;
      if operator {
        amount := info.AdminUpdate(now, emissions, openTime, endTime);
      } else {
        if now <= info.openTime { return false; }
        amount := info.NormalUpdate(now, emissions, openTime, endTime);
      }
      if amount.None? { return false; }
      p.rewardInfos := p.rewardInfos[j := info.Contents()];
      Commit(Changed(p.Fields(), arrays, bitmap, positive, negative), ranges, positions, vault,
             rewardVault[j := rewardVault[j] + amount.value], now, Runs.Step(s, tx));
      ok := true;
    }

    /** The remaining instructions touch neither ticks nor index. They are carried out as they are stated. */
    method Apply(a: Action, now: nat) returns (ok: bool)
      requires Valid() && IsQuiet(a)
      modifies this
      ensures Valid() && AsState() == Runs.Step(old(AsState()), Transaction(a, now))
    {
      hide Reachable, Inv, IndexInv, Words, Holds, Value, Quiet;
      ghost var s, tx := AsState(), Transaction(a, now);
      StepReachable(s, tx);
      if now < clock { return false; }
      var blind := State(pool, config, map[], ranges, positions, vault, rewardVault, now);
      var r := Quiet(blind, a, now);
      QuietIgnoresTicks(blind, a, now, ticks);
      QuietIsExecute(s.(clock := now), a, now);
      assert blind.(ticks := ticks) == s.(clock := now);
      if r.None? { return false; }
      var s' := r.value;
      config := s'.config;
      Commit(Changed(s'.pool, arrays, bitmap, positive, negative), s'.protocols, s'.positions, s'.vault, s'.rewardVault, now, Runs.Step(s, tx));
      ok := true;
    }
  }

  lemma NothingMarked(bitmap: seq<nat>, positive: seq<seq<nat>>, negative: seq<seq<nat>>)
    requires forall i :: 0 <= i < |bitmap| ==> bitmap[i] == 0
    requires forall i, j :: 0 <= i < |positive| && 0 <= j < |positive[i]| ==> positive[i][j] == 0
    requires forall i, j :: 0 <= i < |negative| && 0 <= j < |negative[i]| ==> negative[i][j] == 0
    ensures forall a :: !HasArray(Bitmaps(Value(bitmap), Values(positive), Values(negative)), a)
  {
    hide Value, Bit;
    ZeroWords(bitmap);
    forall i | 0 <= i < |positive| ensures Value(positive[i]) == 0 {
      ZeroWords(positive[i]);
    }
    forall i | 0 <= i < |negative| ensures Value(negative[i]) == 0 {
      ZeroWords(negative[i]);
    }
    forall i: nat ensures !Bit(0, i) {
      NoBitsInZero(i);
    }
  }

  lemma NothingIndexed(bits: Bitmaps, spacing: nat)
    requires spacing > 0 && forall a :: !HasArray(bits, a)
    ensures IndexInv(map[], Index(map[], bits), spacing)
  {
    hide HasArray, ArrayStart;
  }

  /** Sets up a pool, if its parameters are in order. */
  method CreateProgram(spacing: nat, sqrtPrice: nat, openTime: nat, config: Config, now: nat) returns (p: Program?)
    ensures p == null <==> CreatePool(spacing, sqrtPrice, openTime, config, now).None?
    ensures p != null ==> fresh(p) && p.Valid() && p.AsState() == CreatePool(spacing, sqrtPrice, openTime, config, now).value
  {
    hide Runs.Step, Reachable, IndexInv;
    var created := CreatePool(spacing, sqrtPrice, openTime, config, now);
    p := null;
    if created.Some? {
      CreatedReachable(spacing, sqrtPrice, openTime, config, now);
      p := new Program(created.value);
    }
  }

  lemma CreatedReachable(spacing: nat, sqrtPrice: nat, openTime: nat, config: Config, now: nat)
    requires CreatePool(spacing, sqrtPrice, openTime, config, now).Some?
    ensures var s := CreatePool(spacing, sqrtPrice, openTime, config, now).value;
            Reachable(s) && s.ticks == map[] && s.pool.spacing > 0
  {
    hide Runs.Step;
  }

  /** A new position takes note of the growth its range has recorded. */
  method NewPosition(lower: int, upper: int, liquidity: nat, last: Counters) returns (p: Position)
    ensures p == Position(lower, upper, liquidity, last, NO_GROWTH)
  {
    var personal := new PersonalPositionState(Position(lower, upper, 0, [last[0], last[1], 0, 0, 0], NO_GROWTH));
    var noted := personal.UpdateRewards(last, false);
    SameCounters(personal.growthInsideLast, last);
    SameCounters(personal.owed, NO_GROWTH);
    personal.liquidity := liquidity;
    p := personal.Contents();
  }

  method SettledPosition(p: Position, latest: Counters) returns (r: Option<Position>)
    ensures r == Settle(p, latest) && (r.Some? ==> r.value.liquidity == p.liquidity)
  {
    var personal := new PersonalPositionState(p);
    var settled := personal.SettleWith(latest);
    r := if settled then Some(personal.Contents()) else None;
  }

  predicate IsQuiet(a: Action) {
    a.DoInitializeReward? || a.DoCollectRemaining? || a.DoCollectProtocolFee? || a.DoCollectFundFee? || a.DoSetStatus? || a.DoUpdateConfig?
  }

  function Quiet(s: State, a: Action, now: nat): Option<State> {
    match a
    case DoInitializeReward(openTime, endTime, emissions) => InitializeReward(s, openTime, endTime, emissions, now)
    case DoCollectRemaining(j) => CollectRemainingRewards(s, j, now)
    case DoCollectProtocolFee(x, y) => CollectProtocolFee(s, x, y)
    case DoCollectFundFee(x, y) => CollectFundFee(s, x, y)
    case DoSetStatus(status) => Some(s.(pool := s.pool.(status := status)))
    case DoUpdateConfig(c) => UpdateConfig(s, c)
    case _ => None
  }

  /** The same outcome, whatever the ticks. */
  ghost predicate SameBut(s: State, r: Option<State>, r': Option<State>, ticks: map<int, Tick>) {
    && (r.Some? <==> r'.Some?)
    && (r.Some? ==> r'.value == r.value.(ticks := ticks) && r.value.pool.spacing == s.pool.spacing && r.value.clock == s.clock)
  }

  lemma QuietIgnoresTicks(s: State, a: Action, now: nat, ticks: map<int, Tick>)
    requires IsQuiet(a)
    ensures SameBut(s, Quiet(s, a, now), Quiet(s.(ticks := ticks), a, now), ticks)
  {
    hide InitializeReward, CollectRemainingRewards, CollectProtocolFee, CollectFundFee;
    match a
    case DoInitializeReward(openTime, endTime, emissions) => InitializeIgnoresTicks(s, openTime, endTime, emissions, now, ticks);
    case DoCollectRemaining(j) => RemainingIgnoresTicks(s, j, now, ticks);
    case DoCollectProtocolFee(x, y) => ProtocolFeeIgnoresTicks(s, x, y, ticks);
    case DoCollectFundFee(x, y) => FundFeeIgnoresTicks(s, x, y, ticks);
    case _ =>
  }

  lemma InitializeIgnoresTicks(s: State, openTime: nat, endTime: nat, emissions: nat, now: nat, ticks: map<int, Tick>)
    ensures SameBut(s, InitializeReward(s, openTime, endTime, emissions, now),
                    InitializeReward(s.(ticks := ticks), openTime, endTime, emissions, now), ticks)
  {
    hide MulDivCeil;
  }

  lemma RemainingIgnoresTicks(s: State, j: nat, now: nat, ticks: map<int, Tick>)
    ensures SameBut(s, CollectRemainingRewards(s, j, now), CollectRemainingRewards(s.(ticks := ticks), j, now), ticks)
  {
    hide RewardRules.AccrueReward;
  }

  lemma ProtocolFeeIgnoresTicks(s: State, x: nat, y: nat, ticks: map<int, Tick>)
    ensures SameBut(s, CollectProtocolFee(s, x, y), CollectProtocolFee(s.(ticks := ticks), x, y), ticks)
  {
    hide Payout, CheckVaults;
    if |s.vault| == 2 {
      var p := s.pool.protocolFees;
      var a, b := Min(x, p[0]), Min(y, p[1]);
      PayoutIgnoresTicks(s.(pool := s.pool.(protocolFees := [p[0] - a, p[1] - b])), a, b, ticks);
    }
  }

  lemma FundFeeIgnoresTicks(s: State, x: nat, y: nat, ticks: map<int, Tick>)
    ensures SameBut(s, CollectFundFee(s, x, y), CollectFundFee(s.(ticks := ticks), x, y), ticks)
  {
    hide Payout, CheckVaults;
    if |s.vault| == 2 {
      var p := s.pool.fundFees;
      var a, b := Min(x, p[0]), Min(y, p[1]);
      PayoutIgnoresTicks(s.(pool := s.pool.(fundFees := [p[0] - a, p[1] - b])), a, b, ticks);
    }
  }

  lemma PayoutIgnoresTicks(s: State, a: nat, b: nat, ticks: map<int, Tick>)
    requires |s.vault| == 2
    ensures var r, r' := Payout(s, a, b), Payout(s.(ticks := ticks), a, b);
            && (r.Some? <==> r'.Some?)
            && (r.Some? ==> |r.value.vault| == 2 && |r'.value.vault| == 2
                            && CheckVaults(r'.value) == CheckVaults(r.value).(ticks := ticks)
                            && CheckVaults(r.value).pool.spacing == s.pool.spacing && CheckVaults(r.value).clock == s.clock)
  {
  }

  lemma QuietIsExecute(s: State, a: Action, now: nat)
    requires IsQuiet(a)
    ensures Quiet(s, a, now) == Execute(s, a, now)
  {
    hide InitializeReward, CollectRemainingRewards, CollectProtocolFee, CollectFundFee, UpdateConfig;
  }

  ghost function RangeOf(s: State, lower: int, upper: int): Protocol {
    if (lower, upper) in s.protocols then s.protocols[(lower, upper)] else Protocol(0, NO_GROWTH, [0, 0])
  }

  /** The reference's opening of a position, in terms of the liquidity it adds. */
  lemma OpenIsAdd(s: State, lower: int, upper: int, liquidity: nat, max0: nat, max1: nat, base0: Option<bool>, now: nat)
    requires s.clock <= now && s.pool.status.open && ValidRange(s.pool, lower, upper) && |s.vault| == 2
    ensures var a := Machine.AddLiquidity(s.(clock := now), RangeOf(s, lower, upper), lower, upper, liquidity, max0, max1, base0, now);
            var s' := Runs.Step(s, Transaction(DoOpen(lower, upper, liquidity, max0, max1, base0), now));
            if a.None? then s' == s
            else s' == a.value.state.(protocols := a.value.state.protocols[(lower, upper) := a.value.protocol],
                                      positions := a.value.state.positions
                                                   + [Position(lower, upper, a.value.liquidity, a.value.protocol.last, NO_GROWTH)])
  {
    hide Machine.AddLiquidity;
  }

  /** Every position has its range among the accounts. */
  lemma PositionHasRange(s: State, id: nat)
    requires Inv(s) && id < |s.positions|
    ensures HasRange(s, id) && |s.vault| == 2
  {
    assert s.positions[id] in s.positions;
  }

  lemma IncreaseRefused(s: State, id: nat, liquidity: nat, max0: nat, max1: nat, base0: Option<bool>, now: nat)
    requires id >= |s.positions| || now < s.clock || !s.pool.status.open
    ensures Runs.Step(s, Transaction(DoIncrease(id, liquidity, max0, max1, base0), now)) == s
  {
    hide Machine.AddLiquidity;
  }

  /** The reference's increase, in terms of the liquidity it adds and the position it settles. */
  lemma IncreaseIsAdd(s: State, id: nat, liquidity: nat, max0: nat, max1: nat, base0: Option<bool>, now: nat)
    requires s.clock <= now && s.pool.status.open && HasRange(s, id)
    ensures var p := s.positions[id];
            var a := Machine.AddLiquidity(s.(clock := now), RangeOf(s, p.lower, p.upper), p.lower, p.upper, liquidity, max0, max1, base0, now);
            var s' := Runs.Step(s, Transaction(DoIncrease(id, liquidity, max0, max1, base0), now));
            if a.None? then s' == s
            else
              var settled := Settle(p, a.value.protocol.last);
              if settled.None? || p.liquidity + a.value.liquidity > U128_MAX then s' == s
              else
                |a.value.state.positions| == |s.positions|
                && s' == a.value.state.(protocols := a.value.state.protocols[(p.lower, p.upper) := a.value.protocol],
                                        positions := a.value.state.positions[id := settled.value.(liquidity := p.liquidity + a.value.liquidity)])
  {
    hide Machine.AddLiquidity, Settle;
    var p := s.positions[id];
    AddTouches(s.(clock := now), RangeOf(s, p.lower, p.upper), p.lower, p.upper, liquidity, max0, max1, base0, now);
  }

  /** A range with liquidity has both its ticks initialised. */
  lemma LiquidityAtEnds(s: State, lower: int, upper: int)
    requires Inv(s) && (lower, upper) in s.protocols
    ensures s.protocols[(lower, upper)].liquidity > 0 ==> lower in s.ticks && upper in s.ticks
  {
    var ps := s.positions;
    var f := RangeAt(lower, upper);
    Sums.SumBound(ps, f, GrossAt(lower), GrossAt(lower), 0);
    Sums.SumBound(ps, f, GrossAt(upper), GrossAt(upper), 0);
    assert TickOf(s.ticks, lower).gross == GrossSum(ps, lower) && TickOf(s.ticks, upper).gross == GrossSum(ps, upper);
    assert s.protocols[(lower, upper)].liquidity == RangeSum(ps, lower, upper);
  }

  /** The reference's burn, put together from its parts. */
  lemma BurnParts(s: State, id: nat, liquidity: nat, now: nat)
    requires HasRange(s, id) && liquidity <= s.positions[id].liquidity
    ensures var p := s.positions[id];
            var m := Positions.ModifyPosition(s.pool, s.protocols[(p.lower, p.upper)], TickOf(s.ticks, p.lower), TickOf(s.ticks, p.upper),
                                              p.lower, p.upper, -(liquidity as int), now);
            var b := Machine.Burn(s, id, liquidity, now);
            if liquidity > I128_MAX || m.None? then b == None
            else
              var settled := Settle(p, m.value.state.protocol.last);
              if settled.None? then b == None
              else b == Some(Burned(s.(pool := m.value.state.pool,
                                       ticks := PutTick(PutTick(s.ticks, p.lower, m.value.state.lower), p.upper, m.value.state.upper),
                                       protocols := s.protocols[(p.lower, p.upper) := m.value.state.protocol],
                                       positions := s.positions[id := settled.value.(liquidity := p.liquidity - liquidity)]),
                                    m.value.amount0, m.value.amount1))
  {
    hide Positions.ModifyPosition, Settle, PutTick;
  }

  lemma BurnKeepsStatus(s: State, id: nat, liquidity: nat, now: nat)
    requires HasRange(s, id) && liquidity <= s.positions[id].liquidity && Machine.Burn(s, id, liquidity, now).Some?
    ensures var s' := Machine.Burn(s, id, liquidity, now).value.state;
            s'.pool.status == s.pool.status && |s'.positions| == |s.positions| && s'.vault == s.vault
  {
    hide Ticks.TickUpdate, Ticks.GrowthsInside, ProtocolUpdate, DeltaAmounts, RewardRules.AccrueReward, Settle, PutTick;
  }

  /** A withdrawal does not touch the spacing. */
  lemma SpacingStays(s: State, id: nat, amount0: nat, amount1: nat, slippage: bool)
    requires id < |s.positions| && |s.vault| == 2 && Withdraw(s, id, amount0, amount1, slippage).Some?
    ensures Withdraw(s, id, amount0, amount1, slippage).value.pool.spacing == s.pool.spacing
  {
    hide CollectRewards;
    var c := if s.pool.status.collectFee then CollectFees(s, id).value else Collected(s, 0, 0);
    var paid := Payout(c.state, amount0 + c.fee0, amount1 + c.fee1).value;
    RewardsKeepSpacing(CheckVaults(paid), id);
  }

  lemma RewardsKeepSpacing(s: State, id: nat)
    requires id < |s.positions|
    ensures CollectRewards(s, id).Some? ==> CollectRewards(s, id).value.pool.spacing == s.pool.spacing
  {
  }

  lemma DecreaseRefused(s: State, id: nat, liquidity: nat, min0: nat, min1: nat, now: nat)
    requires id >= |s.positions| || now < s.clock || liquidity > s.positions[id].liquidity
             || (!s.pool.status.decrease && !s.pool.status.collectFee && !s.pool.status.collectReward)
    ensures Runs.Step(s, Transaction(DoDecrease(id, liquidity, min0, min1), now)) == s
  {
    hide Machine.Burn, CollectFees, CollectRewards;
  }

  /** The reference's decrease: burn, then withdraw. */
  lemma DecreaseParts(s: State, id: nat, liquidity: nat, min0: nat, min1: nat, now: nat)
    requires HasRange(s, id) && s.clock <= now && liquidity <= s.positions[id].liquidity
    requires s.pool.status.decrease || s.pool.status.collectFee || s.pool.status.collectReward
    ensures var s' := Runs.Step(s, Transaction(DoDecrease(id, liquidity, min0, min1), now));
            var s0 := s.(clock := now);
            var b := if s.pool.status.decrease then Machine.Burn(s0, id, liquidity, now) else Some(Burned(s0, 0, 0));
            if b.None? then s' == s
            else
              && id < |b.value.state.positions| && |b.value.state.vault| == 2
              && var w := Withdraw(b.value.state, id, b.value.amount0, b.value.amount1,
                                   liquidity > 0 && (b.value.amount0 < min0 || b.value.amount1 < min1));
                 s' == if w.None? then s else w.value
  {
    hide Machine.Burn, CollectFees, CollectRewards, CheckVaults;
    var s0 := s.(clock := now);
    if s.pool.status.decrease && Machine.Burn(s0, id, liquidity, now).Some? {
      BurnKeepsStatus(s0, id, liquidity, now);
    }
    var b := if s.pool.status.decrease then Machine.Burn(s0, id, liquidity, now) else Some(Burned(s0, 0, 0));
    if b.Some? {
      FeesKeepShape(b.value.state, id);
    }
  }

  lemma FeesKeepShape(s: State, id: nat)
    requires id < |s.positions|
    ensures var c := CollectFees(s, id); c.Some? ==> c.value.state.vault == s.vault && |c.value.state.positions| == |s.positions|
  {
  }

  /** The reference's change of schedule: accrual, then the update that applies. */
  lemma SetRewardParts(s: State, j: nat, emissions: nat, openTime: nat, endTime: nat, operator: bool, now: nat)
    ensures var s' := Runs.Step(s, Transaction(DoSetRewardParams(j, emissions, openTime, endTime, operator), now));
            var accrued := RewardRules.AccrueRewards(s.pool, now);
            if now < s.clock || j >= REWARDS || endTime <= openTime || emissions == 0 || emissions > U128_MAX || openTime <= now || accrued.None?
               || !accrued.value.rewards[j].initialized || (!operator && now <= accrued.value.rewards[j].openTime) then s' == s
            else
              var r := accrued.value.rewards[j];
              var u := if operator then RewardRules.AdminUpdate(r, now, emissions, openTime, endTime)
                       else RewardRules.NormalUpdate(r, now, emissions, openTime, endTime);
              s' == if u.None? then s
                    else s.(clock := now, pool := accrued.value.(rewards := accrued.value.rewards[j := u.value.0]),
                            rewardVault := s.rewardVault[j := s.rewardVault[j] + u.value.1])
  {
    hide RewardRules.AccrueRewards, RewardRules.NormalUpdate, RewardRules.AdminUpdate;
  }

  lemma SwapRefused(s: State, amount: nat, limit: nat, zeroForOne: bool, baseInput: bool, now: nat)
    requires now < s.clock || now <= s.pool.openTime || amount > U64_MAX
    ensures Runs.Step(s, Transaction(DoSwap(amount, limit, zeroForOne, baseInput), now)) == s
  {
  }

  /** The reference's swap: the loop, then the finish. */
  lemma SwapParts(s: State, amount: nat, limit: nat, zeroForOne: bool, baseInput: bool, now: nat)
    requires s.clock <= now && s.pool.openTime < now && amount <= U64_MAX
    ensures var x := SwapArgs(zeroForOne, baseInput, EffectiveLimit(limit, zeroForOne));
            var s0 := s.(clock := now);
            var s' := Runs.Step(s, Transaction(DoSwap(amount, limit, zeroForOne, baseInput), now));
            var w := Outcome(s0, amount, x, now);
            if amount == 0 || !s.pool.status.swap || !ValidLimit(x.limit, s.pool.sqrtPrice, zeroForOne) || w.None? then s' == s
            else
              var done := FinishSwap(s0, w.value, x, amount);
              s' == if done.None? then s else done.value
  {
    hide SwapLoop, FinishSwap, RewardRules.AccrueRewards;
  }

  lemma UnfitNeverFinishes(s: State, w: Machine.SwapState, x: SwapArgs, amount: nat)
    requires !TotalsFit(w.state.pool, TokenIn(x.zeroForOne))
    ensures FinishSwap(s, w, x, amount) == None
  {
  }

  /** The finish, in terms of what was paid and received. */
  lemma FinishIs(s: State, w: Machine.SwapState, x: SwapArgs, amount: nat, paid: nat, received: nat)
    requires |s.vault| == 2 && w.remaining <= amount && TotalsFit(w.state.pool, TokenIn(x.zeroForOne))
    requires paid == (if x.baseInput then amount - w.remaining else w.calculated)
    requires received == (if x.baseInput then w.calculated else amount - w.remaining)
    requires var t := TokenIn(x.zeroForOne); w.state.vault == s.vault[t := s.vault[t] + paid][1 - t := s.vault[1 - t] - received]
    ensures var o := 1 - TokenIn(x.zeroForOne); var done := FinishSwap(s, w, x, amount);
            if paid == 0 || received == 0 || s.vault[o] < received
               || !(if x.zeroForOne then w.state.pool.sqrtPrice < s.pool.sqrtPrice else s.pool.sqrtPrice < w.state.pool.sqrtPrice)
            then done == None
            else done == Some(if s.vault[o] <= received
                              then w.state.(pool := w.state.pool.(status := Status(false, false, false, false, false))) else w.state)
  {
  }

  lemma OpenRefused(s: State, lower: int, upper: int, liquidity: nat, max0: nat, max1: nat, base0: Option<bool>, now: nat)
    requires now < s.clock || !s.pool.status.open || !ValidRange(s.pool, lower, upper)
    ensures Runs.Step(s, Transaction(DoOpen(lower, upper, liquidity, max0, max1, base0), now)) == s
  {
    hide Machine.AddLiquidity;
  }

  /** Adding liquidity changes pool, ticks and vaults only. */
  lemma AddTouches(s: State, q: Protocol, lower: int, upper: int, liquidity: nat, max0: nat, max1: nat, base0: Option<bool>, now: nat)
    requires MIN_TICK <= lower <= MAX_TICK && MIN_TICK <= upper <= MAX_TICK && |s.vault| == 2
    ensures var a := Machine.AddLiquidity(s, q, lower, upper, liquidity, max0, max1, base0, now);
            a.Some? ==> a.value.state == s.(pool := a.value.state.pool, ticks := a.value.state.ticks, vault := a.value.state.vault)
  {
    hide Positions.ModifyPosition, RequestedLiquidity;
  }

  /** The start index of a tick in range is valid. */
  lemma ArrayOfUsableTick(t: int, spacing: nat)
    requires spacing > 0 && MIN_TICK <= t <= MAX_TICK
    ensures CheckIsValidStartIndex(ArrayStart(t, spacing), spacing)
  {
    hide ArrayOf, ArrayStart, CheckIsValidStartIndex;
    var span := TickCount(spacing);
    ArrayStartIsFloor(t, spacing);
    ArrayOfStart(ArrayOf(t, span), span);
    ArrayMonotone(MIN_TICK, t, span);
    ArrayMonotone(t, MAX_TICK, span);
    ValidStartIndices(ArrayStart(t, spacing), spacing);
  }
}
