/** Adding and burning liquidity on the accounts: both ticks in their arrays, counts, bits, range and
    pool, all updated in place (open_position.rs, decrease_liquidity.rs). Both ticks may lie in the same
    array. */
module LiquidityChanges {
  import opened Wrappers
  import opened FullMath
  import opened LiquidityMath
  import opened TickMath
  import opened Model
  import opened Ticks
  import opened Positions
  import opened Machine
  import opened ArrayIndex
  import opened BitmapSearch
  import opened BitmapExtension
  import opened TickArrays
  import opened PoolStates
  import opened PositionStates
  import opened TickIndex

  /** The two arrays of a range: one object if both ticks lie in the same array. */
  ghost predicate Loaded(x: Index, lower: TickArrayState, upper: TickArrayState)
    reads lower, lower.ticks, upper, upper.ticks
  {
    && lower.Valid() && upper.Valid()
    && (lower != upper ==> lower.ticks != upper.ticks && lower.startTickIndex != upper.startTickIndex)
    && lower.startTickIndex in x.arrays && x.arrays[lower.startTickIndex] == lower.Account()
    && upper.startTickIndex in x.arrays && x.arrays[upper.startTickIndex] == upper.Account()
  }

  /** An extension that is not supplied stays as it is. */
  ghost predicate SameExtension(b: Bitmaps, b': Bitmaps, ext: TickArrayBitmapExtension?) {
    ext == null ==> b'.positive == b.positive && b'.negative == b.negative
  }

  /** Counts one more, or one fewer, initialised tick in an array and keeps its bit right. */
  method CountTick(pool: PoolState, tickArray: TickArrayState, ext: TickArrayBitmapExtension?, add: bool, ghost x: Index)
    returns (ok: bool, ghost bits: Bitmaps)
    requires pool.spacing > 0 && Shows(x.bits, pool.tickArrayBitmap, ext)
    requires BitsRight(x.bits, x.arrays, TickCount(pool.spacing)) && IsArrayStart(tickArray.startTickIndex, pool.spacing)
    requires tickArray.startTickIndex in x.arrays && x.arrays[tickArray.startTickIndex].count == tickArray.initializedTickCount
    requires if add then 0 <= tickArray.initializedTickCount < 255 else 0 < tickArray.initializedTickCount <= 255
    modifies tickArray`initializedTickCount, pool`tickArrayBitmap
    modifies if ext == null then {} else {ext.positive, ext.negative}
    ensures tickArray.initializedTickCount == old(tickArray.initializedTickCount) + if add then 1 else -1
    ensures !ok ==> ext == null
    ensures ok ==> Shows(bits, pool.tickArrayBitmap, ext) && SameExtension(x.bits, bits, ext)
    ensures ok ==> var start := tickArray.startTickIndex;
              BitsRight(bits, x.arrays[start := x.arrays[start].(count := tickArray.initializedTickCount)], TickCount(pool.spacing))
  {
    hide ArrayOf, HasArray, Shows;
    var start := tickArray.startTickIndex;
    ghost var a := ArrayOf(start, TickCount(pool.spacing));
    var before := tickArray.initializedTickCount;
    ok := tickArray.UpdateInitializedTickCount(add);
    bits := x.bits;
    if (if add then before == 0 else tickArray.initializedTickCount == 0) {
      ok, bits := pool.FlipTickArrayBit(ext, start, x.bits);
    }
    ghost var arrays' := x.arrays[start := x.arrays[start].(count := tickArray.initializedTickCount)];
    if ok {
      forall m ensures HasArray(bits, m) <==>
          m * TickCount(pool.spacing) in arrays' && arrays'[m * TickCount(pool.spacing)].count > 0 {
        MultipleOrder(m, a, TickCount(pool.spacing));
      }
    }
  }

  /** What both writes and both counts have to leave behind. */
  ghost predicate Settled(ticks: map<int, Tick>, x: Index, x': Index, pool: PoolState, ext: TickArrayBitmapExtension?,
                          lower: TickArrayState, upper: TickArrayState)
    requires pool.spacing > 0
    reads pool, lower, lower.ticks, upper, upper.ticks, if ext == null then {} else {ext.positive, ext.negative}
  {
    && lower.Valid() && upper.Valid()
    && x'.arrays == x.arrays[lower.startTickIndex := lower.Account()][upper.startTickIndex := upper.Account()]
    && Shows(x'.bits, pool.tickArrayBitmap, ext) && SameExtension(x.bits, x'.bits, ext)
    && IndexInv(ticks, x', pool.spacing)
  }

  /** Counts that lag behind the slots by one flip of each tick. */
  ghost predicate CountsLag(arrays: map<int, TickArray>, lower: int, lowerBy: int, upper: int, upperBy: int) {
    forall start :: start in arrays ==>
      && arrays[start].count >= 0
      && Initialized(arrays[start].slots)
         == arrays[start].count + (if start == lower then lowerBy else 0) + (if start == upper then upperBy else 0)
  }

  /** Writes both ticks into their slots. */
  method WriteTicks(spacing: nat, lowerArray: TickArrayState, upperArray: TickArrayState,
                    lower: int, upper: int, lowerSlot: Slot, upperSlot: Slot,
                    ghost flippedLower: bool, ghost flippedUpper: bool, ghost add: bool, ghost ticks: map<int, Tick>, ghost x: Index)
    requires spacing > 0 && IndexInv(ticks, x, spacing) && Loaded(x, lowerArray, upperArray)
    requires lower != upper && lower % spacing == 0 && upper % spacing == 0
    requires ArrayStart(lower, spacing) == lowerArray.startTickIndex && ArrayStart(upper, spacing) == upperArray.startTickIndex
    requires StoresTick(ticks, lower, lowerSlot, flippedLower, add) && StoresTick(ticks, upper, upperSlot, flippedUpper, add)
    modifies lowerArray.ticks, upperArray.ticks
    ensures lowerArray.Valid() && upperArray.Valid()
    ensures var ls, us := lowerArray.startTickIndex, upperArray.startTickIndex;
            var arrays' := x.arrays[ls := lowerArray.Account()][us := upperArray.Account()];
            && ArraysPlaced(arrays', spacing)
            && Represents(PutTick(PutTick(ticks, lower, lowerSlot.state), upper, upperSlot.state), arrays', spacing)
            && CountsLag(arrays', ls, Delta(flippedLower, add), us, Delta(flippedUpper, add))
            && BitsRight(x.bits, arrays', TickCount(spacing))
            && Loaded(Index(arrays', x.bits), lowerArray, upperArray)
  {
    hide ArrayOf, ArrayStart, HasArray, SlotIndex, PutTick, TickOf, Represents, SlotOf, ArraysPlaced, StoresTick, Initialized, Delta;
    ghost var ls, us := lowerArray.startTickIndex, upperArray.startTickIndex;
    var stored := lowerArray.UpdateTickState(lower, spacing, lowerSlot);
    WriteOne(ticks, x.arrays, spacing, lower, lowerSlot, flippedLower, add);
    ghost var arrays1 := x.arrays[ls := lowerArray.Account()];
    StoresAfterPut(ticks, lower, lowerSlot.state, upper, upperSlot, flippedUpper, add);
    stored := upperArray.UpdateTickState(upper, spacing, upperSlot);
    WriteOne(PutTick(ticks, lower, lowerSlot.state), arrays1, spacing, upper, upperSlot, flippedUpper, add);
    ghost var arrays2 := arrays1[us := upperArray.Account()];
    assert arrays2 == x.arrays[ls := lowerArray.Account()][us := upperArray.Account()];
  }

  /** Counts the flips of both ticks. */
  method CountTicks(pool: PoolState, lowerArray: TickArrayState, upperArray: TickArrayState, ext: TickArrayBitmapExtension?,
                    flippedLower: bool, flippedUpper: bool, add: bool, ghost x: Index)
    returns (ok: bool, ghost x': Index)
    requires pool.spacing > 0 && Shows(x.bits, pool.tickArrayBitmap, ext) && Loaded(x, lowerArray, upperArray)
    requires ArraysPlaced(x.arrays, pool.spacing) && BitsRight(x.bits, x.arrays, TickCount(pool.spacing))
    requires CountsLag(x.arrays, lowerArray.startTickIndex, Delta(flippedLower, add), upperArray.startTickIndex, Delta(flippedUpper, add))
    modifies pool`tickArrayBitmap, lowerArray`initializedTickCount, upperArray`initializedTickCount
    modifies if ext == null then {} else {ext.positive, ext.negative}
    ensures lowerArray.Valid() && upperArray.Valid()
    ensures !ok ==> ext == null
    ensures ok ==>
              && x'.arrays == x.arrays[lowerArray.startTickIndex := lowerArray.Account()][upperArray.startTickIndex := upperArray.Account()]
              && CountsRight(x'.arrays) && BitsRight(x'.bits, x'.arrays, TickCount(pool.spacing))
              && Shows(x'.bits, pool.tickArrayBitmap, ext) && SameExtension(x.bits, x'.bits, ext)
              && (forall start :: start in x.arrays ==> start in x'.arrays && x'.arrays[start] == x.arrays[start].(count := x'.arrays[start].count))
              && x'.arrays.Keys == x.arrays.Keys
  {
    hide ArrayOf, HasArray, Shows, Placed;
    ghost var ls, us := lowerArray.startTickIndex, upperArray.startTickIndex;
    ok, x' := true, x;
    if flippedLower {
      ghost var bits;
      ok, bits := CountTick(pool, lowerArray, ext, add, x);
      if !ok { return; }
      x' := Index(x.arrays[ls := lowerArray.Account()], bits);
      assert lowerArray.Account() == x.arrays[ls].(count := lowerArray.initializedTickCount);
    }
    if flippedUpper {
      ghost var bits;
      ok, bits := CountTick(pool, upperArray, ext, add, x');
      if !ok { return; }
      assert upperArray.Account() == x'.arrays[us].(count := upperArray.initializedTickCount);
      x' := Index(x'.arrays[us := upperArray.Account()], bits);
    }
    assert x'.arrays == x.arrays[ls := lowerArray.Account()][us := upperArray.Account()];
  }

  /** Moving counts alone leaves the ticks represented where they are. */
  lemma CountsApart(ticks: map<int, Tick>, arrays: map<int, TickArray>, arrays': map<int, TickArray>, spacing: nat)
    requires spacing > 0 && ArraysPlaced(arrays, spacing) && Represents(ticks, arrays, spacing)
    requires arrays'.Keys == arrays.Keys && forall start :: start in arrays ==> arrays'[start] == arrays[start].(count := arrays'[start].count)
    ensures ArraysPlaced(arrays', spacing) && Represents(ticks, arrays', spacing)
  {
    hide ArrayOf, ArrayStart, SlotIndex;
    forall t ensures SlotOf(arrays', spacing, t) == SlotOf(arrays, spacing, t) {
      if t % spacing == 0 {
        SlotIndexIs(t, spacing);
      }
    }
  }

  /** Stores both ticks and adjusts counts and bits: the tail that adding and burning share. */
  method StoreTicks(pool: PoolState, lowerArray: TickArrayState, upperArray: TickArrayState, ext: TickArrayBitmapExtension?,
                    lower: int, upper: int, lowerTick: TickState, upperTick: TickState,
                    flippedLower: bool, flippedUpper: bool, add: bool, ghost ticks: map<int, Tick>, ghost x: Index)
    returns (ok: bool, ghost x': Index)
    requires pool.spacing > 0 && Shows(x.bits, pool.tickArrayBitmap, ext) && IndexInv(ticks, x, pool.spacing)
    requires Loaded(x, lowerArray, upperArray)
    requires lower != upper && lower % pool.spacing == 0 && upper % pool.spacing == 0
    requires ArrayStart(lower, pool.spacing) == lowerArray.startTickIndex && ArrayStart(upper, pool.spacing) == upperArray.startTickIndex
    requires StoresTick(ticks, lower, lowerTick.Contents(), flippedLower, add) && StoresTick(ticks, upper, upperTick.Contents(), flippedUpper, add)
    modifies pool`tickArrayBitmap, lowerArray, lowerArray.ticks, upperArray, upperArray.ticks
    modifies if ext == null then {} else {ext.positive, ext.negative}
    ensures !ok ==> ext == null
    ensures ok ==> Settled(PutTick(PutTick(ticks, lower, old(lowerTick.Contents().state)), upper, old(upperTick.Contents().state)),
                           x, x', pool, ext, lowerArray, upperArray)
  {
    hide ArrayOf, ArrayStart, HasArray, Shows, SlotIndex, PutTick, TickOf, Represents, SlotOf, ArraysPlaced, CountsLag;
    ghost var ticks' := PutTick(PutTick(ticks, lower, lowerTick.Contents().state), upper, upperTick.Contents().state);
    WriteTicks(pool.spacing, lowerArray, upperArray, lower, upper, lowerTick.Contents(), upperTick.Contents(),
               flippedLower, flippedUpper, add, ticks, x);
    ghost var x1 := x.(arrays := x.arrays[lowerArray.startTickIndex := lowerArray.Account()][upperArray.startTickIndex := upperArray.Account()]);
    ok, x' := CountTicks(pool, lowerArray, upperArray, ext, flippedLower, flippedUpper, add, x1);
    if ok {
      CountsApart(ticks', x1.arrays, x'.arrays, pool.spacing);
    }
  }

  lemma StoresAfterPut(ticks: map<int, Tick>, t: int, s: Tick, u: int, slot: Slot, flipped: bool, add: bool)
    requires t != u && StoresTick(ticks, u, slot, flipped, add)
    ensures StoresTick(PutTick(ticks, t, s), u, slot, flipped, add)
  {
  }

  ghost function Delta(flipped: bool, add: bool): int {
    if !flipped then 0 else if add then 1 else -1
  }

  /** One write: the ticks represented, and the number of initialised slots. */
  lemma WriteOne(ticks: map<int, Tick>, arrays: map<int, TickArray>, spacing: nat, t: int, s: Slot, flipped: bool, add: bool)
    requires spacing > 0 && t % spacing == 0 && ArraysPlaced(arrays, spacing) && Represents(ticks, arrays, spacing)
    requires ArrayStart(t, spacing) in arrays && StoresTick(ticks, t, s, flipped, add)
    ensures var start := ArrayStart(t, spacing); var i := SlotIndex(t, start, spacing); var before := arrays[start];
            && 0 <= i < |before.slots|
            && var arrays' := arrays[start := before.(slots := before.slots[i := s])];
               && ArraysPlaced(arrays', spacing) && Represents(PutTick(ticks, t, s.state), arrays', spacing)
               && Initialized(before.slots[i := s]) == Initialized(before.slots) + Delta(flipped, add)
  {
    hide ArrayOf, ArrayStart, SlotIndex, SlotOf;
    var start := ArrayStart(t, spacing);
    var i := SlotIndex(t, start, spacing);
    WriteSlot(ticks, arrays, spacing, t, s);
    assert arrays[start].slots[i].Initialized() <==> t in ticks;
    InitializedAfter(arrays[start].slots, i, s);
  }

  /** The slot to store belongs to the tick; it gains or loses its liquidity exactly if it is flipped. */
  ghost predicate StoresTick(ticks: map<int, Tick>, t: int, s: Slot, flipped: bool, add: bool) {
    && s.tick == t && (s.state.gross == 0 ==> s.state == EMPTY_TICK)
    && (s.Initialized() <==> if flipped then add else t in ticks)
    && (flipped ==> (t in ticks <==> !add))
  }

  // ---------------------------------------------------------------------------------------------
  // Adding and burning

  /** The ticks that go back into the slots: flipped exactly when their liquidity appears or vanishes. */
  lemma UpdatedTick(ticks: map<int, Tick>, t: int, tickCurrent: int, delta: int, growths: Counters, upper: bool, after: Tick)
    requires TickOf(ticks, t).gross == 0 <==> t !in ticks
    requires TickOf(ticks, t).gross == 0 ==> TickOf(ticks, t) == EMPTY_TICK
    requires if delta == 0 then after == TickOf(ticks, t) else TickUpdate(TickOf(ticks, t), t, tickCurrent, delta, growths, upper) == Some(after)
    ensures var before := TickOf(ticks, t); var stored := Stored(before, after, delta);
            && StoresTick(ticks, t, Slot(t, stored), Flips(before, after), delta > 0)
            && PutTick(ticks, t, stored) == PutTick(ticks, t, after)
            && (after.gross == 0 ==> delta <= 0)
  {
  }

  /** Both ticks after a change of the range's liquidity. */
  lemma ModifiedTicks(ticks: map<int, Tick>, pool: Pool, q: Protocol, lower: int, upper: int, delta: int, now: nat, m: Modified)
    requires forall t :: TickOf(ticks, t).gross == 0 ==> TickOf(ticks, t) == EMPTY_TICK && t !in ticks
    requires lower != upper && MIN_TICK <= lower <= MAX_TICK && MIN_TICK <= upper <= MAX_TICK
    requires Positions.ModifyPosition(pool, q, TickOf(ticks, lower), TickOf(ticks, upper), lower, upper, delta, now) == Some(m)
    ensures var lo, up := TickOf(ticks, lower), TickOf(ticks, upper);
            var lo', up' := Stored(lo, m.state.lower, delta), Stored(up, m.state.upper, delta);
            && StoresTick(ticks, lower, Slot(lower, lo'), Flips(lo, m.state.lower), delta > 0)
            && StoresTick(ticks, upper, Slot(upper, up'), Flips(up, m.state.upper), delta > 0)
            && PutTick(PutTick(ticks, lower, lo'), upper, up') == PutTick(PutTick(ticks, lower, m.state.lower), upper, m.state.upper)
  {
    hide TickUpdate, GrowthsInside, ProtocolUpdate, DeltaAmounts, RewardRules.AccrueRewards;
    var pool1 := RewardRules.AccrueRewards(pool, now).value;
    UpdatedTick(ticks, lower, pool1.tick, delta, Growths(pool1), false, m.state.lower);
    UpdatedTick(ticks, upper, pool1.tick, delta, Growths(pool1), true, m.state.upper);
  }

  lemma BlankUnlessInitialised(ticks: map<int, Tick>, arrays: map<int, TickArray>, spacing: nat)
    requires spacing > 0 && ArraysPlaced(arrays, spacing) && Represents(ticks, arrays, spacing)
    ensures forall t :: TickOf(ticks, t).gross == 0 ==> TickOf(ticks, t) == EMPTY_TICK && t !in ticks
  {
  }

  /** Neither tick lies in the array supplied for it. */
  predicate WrongArrays(lower: int, upper: int, spacing: nat, lowerStart: int, upperStart: int)
    requires spacing > 0
  {
    ArrayStart(lower, spacing) != lowerStart || ArrayStart(upper, spacing) != upperStart
  }

  /** A working copy of a tick. */
  method LoadTick(tickArray: TickArrayState, t: int, spacing: nat, ghost ticks: map<int, Tick>, ghost x: Index) returns (r: TickState?)
    requires spacing > 0 && t % spacing == 0 && IndexInv(ticks, x, spacing) && tickArray.Valid()
    requires tickArray.startTickIndex in x.arrays && x.arrays[tickArray.startTickIndex] == tickArray.Account()
    ensures r == null <==> ArrayStart(t, spacing) != tickArray.startTickIndex
    ensures r != null ==> fresh(r) && r.Contents().state == TickOf(ticks, t) && (r.tick == 0 || r.tick == t) && (t in ticks ==> r.tick == t)
  {
    hide ArrayOf, ArrayStart, SlotIndex, HasArray;
    var slot := tickArray.GetTickState(t, spacing);
    if slot.None? { return null; }
    ReadSlot(ticks, x.arrays, spacing, t);
    r := new TickState(slot.value);
  }

  /** The change itself, and the way back into the arrays: what adding and burning share. */
  method ChangeRange(pool: PoolState, lowerArray: TickArrayState, upperArray: TickArrayState, range: ProtocolPositionState,
                     ext: TickArrayBitmapExtension?, lower: int, upper: int, lowerTick: TickState, upperTick: TickState,
                     delta: int, now: nat, ghost ticks: map<int, Tick>, ghost x: Index)
    returns (r: Option<(nat, nat)>, ghost x': Index)
    requires pool.spacing > 0 && Shows(x.bits, pool.tickArrayBitmap, ext) && IndexInv(ticks, x, pool.spacing)
    requires Loaded(x, lowerArray, upperArray) && ValidRange(pool.Fields(), lower, upper)
    requires ArrayStart(lower, pool.spacing) == lowerArray.startTickIndex && ArrayStart(upper, pool.spacing) == upperArray.startTickIndex
    requires lowerTick != upperTick
    requires lowerTick.Contents().state == TickOf(ticks, lower) && upperTick.Contents().state == TickOf(ticks, upper)
    requires (lowerTick.tick == 0 || lowerTick.tick == lower) && (upperTick.tick == 0 || upperTick.tick == upper)
    requires delta > 0 || range.liquidity > 0 ==> lowerTick.tick == lower && upperTick.tick == upper
    modifies pool`rewardInfos, pool`liquidity, pool`tickArrayBitmap, range, lowerTick, upperTick
    modifies lowerArray, lowerArray.ticks, upperArray, upperArray.ticks
    modifies if ext == null then {} else {ext.positive, ext.negative}
    ensures var m := Positions.ModifyPosition(old(pool.Fields()), old(range.Contents()), TickOf(ticks, lower), TickOf(ticks, upper),
                                              lower, upper, delta, now);
            if r.None? then m.None? || ext == null
            else
              && m.Some? && m.value.state.pool == pool.Fields() && m.value.state.protocol == range.Contents()
              && r.value == (m.value.amount0, m.value.amount1)
              && Settled(PutTick(PutTick(ticks, lower, m.value.state.lower), upper, m.value.state.upper),
                         x, x', pool, ext, lowerArray, upperArray)
  {
    hide ArrayOf, ArrayStart, Shows, SlotIndex, PutTick, Positions.ModifyPosition, IndexInv, StoresTick, TickOf;
    x' := x;
    if delta <= 0 && range.liquidity == 0 {
      NothingToBurn(pool.Fields(), range.Contents(), TickOf(ticks, lower), TickOf(ticks, upper), lower, upper, delta, now);
      NothingToBurn(pool.Fields(), range.Contents(), TickOf(ticks, lower), TickOf(ticks, upper), lowerTick.tick, upperTick.tick, delta, now);
    }
    var m := PositionStates.ModifyPosition(delta, pool, range, lowerTick, upperTick, now);
    if m.None? { return None, x; }
    IndexParts(ticks, x, pool.spacing);
    BlankUnlessInitialised(ticks, x.arrays, pool.spacing);
    ModifiedTicks(ticks, old(pool.Fields()), old(range.Contents()), lower, upper, delta, now,
                  Positions.ModifyPosition(old(pool.Fields()), old(range.Contents()), TickOf(ticks, lower), TickOf(ticks, upper), lower, upper, delta, now).value);
    var ok;
    ok, x' := StoreTicks(pool, lowerArray, upperArray, ext, lower, upper, lowerTick, upperTick,
                         m.value.flippedLower, m.value.flippedUpper, delta > 0, ticks, x);
    if !ok { return None, x; }
    r := Some((m.value.amount0, m.value.amount1));
  }

  /** Takes both ticks out of their arrays, gives unused ones their index, and adds the liquidity. */
  method AddAmount(pool: PoolState, lowerArray: TickArrayState, upperArray: TickArrayState, range: ProtocolPositionState,
                   ext: TickArrayBitmapExtension?, added: nat, lower: int, upper: int, now: nat, ghost ticks: map<int, Tick>, ghost x: Index)
    returns (r: Option<(nat, nat)>, ghost x': Index)
    requires pool.spacing > 0 && Shows(x.bits, pool.tickArrayBitmap, ext) && IndexInv(ticks, x, pool.spacing)
    requires Loaded(x, lowerArray, upperArray) && ValidRange(pool.Fields(), lower, upper) && added > 0
    modifies pool`rewardInfos, pool`liquidity, pool`tickArrayBitmap, range
    modifies lowerArray, lowerArray.ticks, upperArray, upperArray.ticks
    modifies if ext == null then {} else {ext.positive, ext.negative}
    ensures var m := Positions.ModifyPosition(old(pool.Fields()), old(range.Contents()), TickOf(ticks, lower), TickOf(ticks, upper),
                                              lower, upper, added, now);
            if r.None? then
              m.None? || added > I128_MAX || ext == null
              || WrongArrays(lower, upper, pool.spacing, lowerArray.startTickIndex, upperArray.startTickIndex)
            else
              && m.Some? && added <= I128_MAX && m.value.state.pool == pool.Fields() && m.value.state.protocol == range.Contents()
              && r.value == (m.value.amount0, m.value.amount1)
              && Settled(PutTick(PutTick(ticks, lower, m.value.state.lower), upper, m.value.state.upper),
                         x, x', pool, ext, lowerArray, upperArray)
  {
    hide ArrayOf, ArrayStart, Shows, PutTick, Positions.ModifyPosition, SqrtPriceAtTick, IndexInv, TickOf, Settled;
    x' := x;
    var lowerTick := LoadTick(lowerArray, lower, pool.spacing, ticks, x);
    if lowerTick == null { return None, x; }
    var upperTick := LoadTick(upperArray, upper, pool.spacing, ticks, x);
    if upperTick == null { return None, x; }
    if lowerTick.tick == 0 {
      lowerTick.tick := lower;
    }
    if upperTick.tick == 0 {
      upperTick.tick := upper;
    }
    if added > I128_MAX { return None, x; }
    r, x' := ChangeRange(pool, lowerArray, upperArray, range, ext, lower, upper, lowerTick, upperTick, added, now, ticks, x);
  }

  datatype Addition = Addition(liquidity: nat, amount0: nat, amount1: nat)

  /** Adds liquidity to a range; the deposit is left to the caller. It does what the reference does, and
      keeps the index in agreement; it fails only where the reference does, or for accounts that are
      wrong or missing. */
  method AddLiquidity(pool: PoolState, lowerArray: TickArrayState, upperArray: TickArrayState, range: ProtocolPositionState,
                      ext: TickArrayBitmapExtension?, liquidity: nat, max0: nat, max1: nat, lower: int, upper: int,
                      base0: Option<bool>, now: nat, ghost s: State, ghost x: Index)
    returns (r: Option<Addition>, ghost x': Index)
    requires pool.spacing > 0 && Shows(x.bits, pool.tickArrayBitmap, ext) && IndexInv(s.ticks, x, pool.spacing)
    requires Loaded(x, lowerArray, upperArray) && ValidRange(pool.Fields(), lower, upper)
    requires s.pool == pool.Fields() && |s.vault| == 2
    modifies pool`rewardInfos, pool`liquidity, pool`tickArrayBitmap, range
    modifies lowerArray, lowerArray.ticks, upperArray, upperArray.ticks
    modifies if ext == null then {} else {ext.positive, ext.negative}
    ensures var a := Machine.AddLiquidity(s, old(range.Contents()), lower, upper, liquidity, max0, max1, base0, now);
            if r.None? then a.None? || ext == null || WrongArrays(lower, upper, pool.spacing, lowerArray.startTickIndex, upperArray.startTickIndex)
            else
              && a.Some? && a.value.state.pool == pool.Fields() && a.value.protocol == range.Contents()
              && a.value.liquidity == r.value.liquidity
              && a.value.state.vault == [s.vault[0] + r.value.amount0, s.vault[1] + r.value.amount1]
              && Settled(a.value.state.ticks, x, x', pool, ext, lowerArray, upperArray)
  {
    hide ArrayOf, ArrayStart, Shows, PutTick, Positions.ModifyPosition, SqrtPriceAtTick, RequestedLiquidity, IndexInv, TickOf, Settled;
    x' := x;
    if liquidity == 0 && base0.None? {
      Unchanged(s.ticks, x, pool, ext, lowerArray, upperArray);
      return Some(Addition(0, 0, 0)), x;
    }
    var requested := Requested(pool, lower, upper, liquidity, max0, max1, base0);
    if requested.None? || requested.value == 0 { return None, x; }
    var added := requested.value;
    var amounts;
    amounts, x' := AddAmount(pool, lowerArray, upperArray, range, ext, added, lower, upper, now, s.ticks, x);
    if amounts.None? { return None, x; }
    if amounts.value.0 == 0 && amounts.value.1 == 0 { return None, x; }
    if amounts.value.0 > max0 || amounts.value.1 > max1 { return None, x; }
    r := Some(Addition(added, amounts.value.0, amounts.value.1));
  }

  /** The liquidity asked for, or what the maximum of the base token buys. */
  method Requested(pool: PoolState, lower: int, upper: int, liquidity: nat, max0: nat, max1: nat, base0: Option<bool>) returns (r: Option<nat>)
    requires MIN_TICK <= lower <= MAX_TICK && MIN_TICK <= upper <= MAX_TICK && (liquidity == 0 ==> base0.Some?)
    ensures r == RequestedLiquidity(pool.Fields(), lower, upper, liquidity, max0, max1, base0)
  {
    hide SqrtPriceAtTick, LiquidityFromSingleAmount0, LiquidityFromSingleAmount1;
    r := Some(liquidity);
    if liquidity == 0 {
      if base0.value {
        r := LiquidityFromSingleAmount0(pool.sqrtPrice, SqrtPriceAtTick(lower), SqrtPriceAtTick(upper), max0);
      } else {
        r := LiquidityFromSingleAmount1(pool.sqrtPrice, SqrtPriceAtTick(lower), SqrtPriceAtTick(upper), max1);
      }
    }
  }

  lemma Unchanged(ticks: map<int, Tick>, x: Index, pool: PoolState, ext: TickArrayBitmapExtension?, lower: TickArrayState, upper: TickArrayState)
    requires pool.spacing > 0 && Shows(x.bits, pool.tickArrayBitmap, ext) && IndexInv(ticks, x, pool.spacing) && Loaded(x, lower, upper)
    ensures Settled(ticks, x, x, pool, ext, lower, upper)
  {
    hide IndexInv, Shows;
    assert x.arrays == x.arrays[lower.startTickIndex := lower.Account()][upper.startTickIndex := upper.Account()];
  }

  lemma IndexParts(ticks: map<int, Tick>, x: Index, spacing: nat)
    requires spacing > 0 && IndexInv(ticks, x, spacing)
    ensures ArraysPlaced(x.arrays, spacing) && Represents(ticks, x.arrays, spacing)
  {
  }

  /** Burns liquidity of a range (possibly none). */
  method BurnLiquidity(pool: PoolState, lowerArray: TickArrayState, upperArray: TickArrayState, range: ProtocolPositionState,
                       ext: TickArrayBitmapExtension?, liquidity: nat, lower: int, upper: int, now: nat, ghost s: State, ghost x: Index)
    returns (r: Option<(nat, nat)>, ghost x': Index)
    requires pool.spacing > 0 && Shows(x.bits, pool.tickArrayBitmap, ext) && IndexInv(s.ticks, x, pool.spacing)
    requires Loaded(x, lowerArray, upperArray) && ValidRange(pool.Fields(), lower, upper)
    requires s.pool == pool.Fields() && (range.liquidity > 0 ==> lower in s.ticks && upper in s.ticks)
    modifies pool`rewardInfos, pool`liquidity, pool`tickArrayBitmap, range
    modifies lowerArray, lowerArray.ticks, upperArray, upperArray.ticks
    modifies if ext == null then {} else {ext.positive, ext.negative}
    ensures var m := Positions.ModifyPosition(s.pool, old(range.Contents()), TickOf(s.ticks, lower), TickOf(s.ticks, upper),
                                              lower, upper, -(liquidity as int), now);
            if r.None? then
              m.None? || liquidity > I128_MAX || ext == null
              || WrongArrays(lower, upper, pool.spacing, lowerArray.startTickIndex, upperArray.startTickIndex)
            else
              && m.Some? && liquidity <= I128_MAX && m.value.state.pool == pool.Fields() && m.value.state.protocol == range.Contents()
              && r.value == (m.value.amount0, m.value.amount1)
              && Settled(PutTick(PutTick(s.ticks, lower, m.value.state.lower), upper, m.value.state.upper),
                         x, x', pool, ext, lowerArray, upperArray)
  {
    hide ArrayOf, ArrayStart, Shows, PutTick, Positions.ModifyPosition, SqrtPriceAtTick, RequestedLiquidity, IndexInv, TickOf, Settled;
    x' := x;
    var lowerTick := LoadTick(lowerArray, lower, pool.spacing, s.ticks, x);
    if lowerTick == null { return None, x; }
    var upperTick := LoadTick(upperArray, upper, pool.spacing, s.ticks, x);
    if upperTick == null { return None, x; }
    if liquidity > I128_MAX { return None, x; }
    r, x' := ChangeRange(pool, lowerArray, upperArray, range, ext, lower, upper, lowerTick, upperTick, -(liquidity as int), now, s.ticks, x);
  }

  lemma NothingToBurn(pool: Pool, q: Protocol, lo: Tick, up: Tick, lower: int, upper: int, delta: int, now: nat)
    requires q.liquidity == 0 && delta <= 0 && MIN_TICK <= lower <= MAX_TICK && MIN_TICK <= upper <= MAX_TICK
    ensures Positions.ModifyPosition(pool, q, lo, up, lower, upper, delta, now) == None
  {
    hide RewardRules.AccrueRewards, TickUpdate, GrowthsInside, SqrtPriceAtTick;
  }
}
