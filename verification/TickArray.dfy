/** Ticks and tick arrays as the program updates them (tick_array.rs). */
module TickArrays {
  import opened Wrappers
  import opened FullMath
  import opened LiquidityMath
  import opened TickMath
  import opened Model
  import opened Ticks
  import opened ArrayIndex
  import opened Machine

  /** A slot of a tick array. The tick index is filled in when the slot is first used. */
  datatype Slot = Slot(tick: int, state: Tick) {
    predicate Initialized() { state.gross != 0 }
  }

  /** The contents of a tick array account. */
  datatype TickArray = TickArray(start: int, slots: seq<Slot>, count: int)

  const NO_SLOT: Slot := Slot(0, EMPTY_TICK)

  // ---------------------------------------------------------------------------------------------
  // One tick

  class TickState {
    var tick: int
    var liquidityNet: int
    var liquidityGross: nat
    var outside: Counters

    function Contents(): Slot
      reads this
    {
      Slot(tick, Tick(liquidityNet, liquidityGross, outside))
    }

    constructor (s: Slot)
      ensures Contents() == s
    {
      tick, liquidityNet, liquidityGross, outside := s.tick, s.state.net, s.state.gross, s.state.outside;
    }

    /** Adds liquidity to the tick or removes it; reports whether the tick became initialised or ceased
        to be. Aborts as a whole. */
    method Update(tickCurrent: int, delta: int, growths: Counters, upper: bool) returns (flipped: Option<bool>)
      modifies this
      ensures var before := old(Contents()); var after := TickUpdate(before.state, before.tick, tickCurrent, delta, growths, upper);
              if after.None? then flipped == None
              else Contents() == Slot(before.tick, after.value) && flipped == Some(Flips(before.state, after.value))
    {
      var before := liquidityGross;
      var after := AddDelta(before, delta);
      if after.None? { return None; }
      if before == 0 {
        if tick <= tickCurrent {
          outside := growths;
        }
      }
      liquidityGross := after.value;
      var net := if upper then liquidityNet - delta else liquidityNet + delta;
      if net < -I128_MAX - 1 || net > I128_MAX { return None; }
      liquidityNet := net;
      flipped := Some((after.value == 0) != (before == 0));
    }

    /** Turns every live outside counter over; the net liquidity is what crossing upwards adds. */
    method Cross(growths: Counters, pool: Pool) returns (net: Option<int>)
      modifies this
      ensures var after := TickCross(old(Contents()).state, growths, pool);
              if after.None? then net == None
              else Contents() == Slot(old(tick), after.value) && net == Some(after.value.net)
    {
      ghost var before := Contents();
      if growths[0] < outside[0] { return None; }
      outside := outside[0 := growths[0] - outside[0]];
      if growths[1] < outside[1] { return None; }
      outside := outside[1 := growths[1] - outside[1]];
      for i := 0 to 3
        invariant Contents() == Slot(before.tick, before.state.(outside := outside))
        invariant CrossOne(true, growths[0], before.state.outside[0]) == Some(outside[0])
        invariant CrossOne(true, growths[1], before.state.outside[1]) == Some(outside[1])
        invariant forall k :: 0 <= k < i ==> CrossOne(pool.rewards[k].initialized, growths[2 + k], before.state.outside[2 + k]) == Some(outside[2 + k])
        invariant forall k :: 2 + i <= k < 5 ==> outside[k] == before.state.outside[k]
      {
        assert i == 0 || i == 1 || i == 2;
        if !pool.rewards[i].initialized { continue; }
        if growths[2 + i] < outside[2 + i] { return None; }
        outside := outside[2 + i := growths[2 + i] - outside[2 + i]];
      }
      assert outside == [outside[0], outside[1], outside[2], outside[3], outside[4]];
      net := Some(liquidityNet);
    }

    method Clear()
      modifies this
      ensures Contents() == Slot(old(tick), EMPTY_TICK)
    {
      liquidityNet := 0;
      liquidityGross := 0;
      outside := NO_GROWTH;
    }
  }

  // ---------------------------------------------------------------------------------------------
  // One array

  function Initialized(slots: seq<Slot>): (r: nat)
    ensures r <= |slots|
  {
    if slots == [] then 0
    else Initialized(slots[..|slots| - 1]) + if slots[|slots| - 1].Initialized() then 1 else 0
  }

  lemma {:induction false} InitializedAfter(slots: seq<Slot>, i: nat, s: Slot)
    requires i < |slots|
    ensures Initialized(slots[i := s])
            == Initialized(slots) - (if slots[i].Initialized() then 1 else 0) + (if s.Initialized() then 1 else 0)
  {
    var n := |slots| - 1;
    if i < n {
      InitializedAfter(slots[..n], i, s);
      assert slots[i := s][..n] == slots[..n][i := s];
    } else {
      assert slots[i := s][..n] == slots[..n];
    }
  }

  lemma {:induction false} SomeInitialized(slots: seq<Slot>)
    ensures Initialized(slots) > 0 <==> exists i :: 0 <= i < |slots| && slots[i].Initialized()
  {
    if slots != [] {
      var n := |slots| - 1;
      SomeInitialized(slots[..n]);
      if Initialized(slots[..n]) > 0 {
        var i :| 0 <= i < n && slots[..n][i].Initialized();
        assert slots[i].Initialized();
      }
      if exists i :: 0 <= i < |slots| && slots[i].Initialized() {
        var i :| 0 <= i < |slots| && slots[i].Initialized();
        if i < n {
          assert slots[..n][i].Initialized();
        }
      }
    }
  }

  /** The array lies where its start index says, its used slots carry their own tick index, and slots
      without liquidity are blank. */
  ghost predicate Placed(t: TickArray, spacing: nat)
    requires spacing > 0
  {
    && |t.slots| == TICK_ARRAY_SIZE
    && (forall i :: 0 <= i < TICK_ARRAY_SIZE ==>
          (t.slots[i].tick == 0 || t.slots[i].tick == t.start + i * spacing)
          && (if t.slots[i].Initialized() then t.slots[i].tick == t.start + i * spacing else t.slots[i].state == EMPTY_TICK))
  }

  /** The slot of a tick of this array. */
  function SlotIndex(tick: int, start: int, spacing: nat): int
    requires spacing > 0
  {
    Quot(tick - start, spacing)
  }

  lemma SlotIndexIs(tick: int, spacing: nat)
    requires spacing > 0
    ensures var start := ArrayStart(tick, spacing); var i := SlotIndex(tick, start, spacing);
            0 <= i < TICK_ARRAY_SIZE && start + i * spacing <= tick < start + i * spacing + spacing
  {
    hide ArrayStart;
    ArrayStartIsFloor(tick, spacing);
    var d := tick - ArrayStart(tick, spacing);
    FloorDiv(d, spacing);
    assert (d / spacing + 1) * spacing == d / spacing * spacing + spacing;
    MultipleOrder(d / spacing, TICK_ARRAY_SIZE, spacing);
    MultipleOrder(-1, d / spacing, spacing);
  }

  class TickArrayState {
    const startTickIndex: int
    const ticks: array<Slot>
    var initializedTickCount: int

    function Account(): TickArray
      reads this, ticks
    {
      TickArray(startTickIndex, ticks[..], initializedTickCount)
    }

    ghost predicate Valid()
      reads this, ticks
    {
      ticks.Length == TICK_ARRAY_SIZE
    }

    constructor (t: TickArray)
      requires |t.slots| == TICK_ARRAY_SIZE
      ensures Valid() && Account() == t && fresh(ticks)
    {
      startTickIndex := t.start;
      ticks := new Slot[|t.slots|](i requires 0 <= i < |t.slots| => t.slots[i]);
      initializedTickCount := t.count;
    }

    /** A new account for the array with the given start index. */
    constructor Initialize(start: int)
      ensures Valid() && Account() == TickArray(start, seq(TICK_ARRAY_SIZE, i => NO_SLOT), 0) && fresh(ticks)
    {
      startTickIndex := start;
      ticks := new Slot[TICK_ARRAY_SIZE](i => NO_SLOT);
      initializedTickCount := 0;
    }

    method UpdateInitializedTickCount(add: bool) returns (ok: bool)
      modifies `initializedTickCount
      ensures ok <==> 0 <= old(initializedTickCount) + (if add then 1 else -1) <= 255
      ensures initializedTickCount == if ok then old(initializedTickCount) + (if add then 1 else -1) else old(initializedTickCount)
    {
      var count := if add then initializedTickCount + 1 else initializedTickCount - 1;
      if count < 0 || count > 255 { return false; }
      initializedTickCount := count;
      ok := true;
    }

    /** The slot of a tick, if the tick lies in this array. */
    method GetTickState(tick: int, spacing: nat) returns (r: Option<Slot>)
      requires Valid() && spacing > 0
      ensures if ArrayStart(tick, spacing) == startTickIndex
              then r == Some(ticks[SlotIndexOf(tick, spacing)])
              else r == None
    {
      if ArrayStart(tick, spacing) != startTickIndex { return None; }
      SlotIndexIs(tick, spacing);
      r := Some(ticks[SlotIndex(tick, startTickIndex, spacing)]);
    }

    function SlotIndexOf(tick: int, spacing: nat): (i: nat)
      requires spacing > 0 && ArrayStart(tick, spacing) == startTickIndex
      ensures i < TICK_ARRAY_SIZE
    {
      SlotIndexIs(tick, spacing);
      SlotIndex(tick, startTickIndex, spacing)
    }

    method UpdateTickState(tick: int, spacing: nat, s: Slot) returns (ok: bool)
      requires Valid() && spacing > 0
      modifies ticks
      ensures Valid() && (ok <==> ArrayStart(tick, spacing) == startTickIndex)
      ensures ticks[..] == if ok then old(ticks[..])[SlotIndexOf(tick, spacing) := s] else old(ticks[..])
    {
      if ArrayStart(tick, spacing) != startTickIndex { return false; }
      SlotIndexIs(tick, spacing);
      ticks[SlotIndex(tick, startTickIndex, spacing)] := s;
      ok := true;
    }

    /** The highest (going down) or lowest (going up) initialised slot. */
    method FirstInitializedTick(zeroForOne: bool) returns (r: Option<Slot>, ghost at: int)
      requires Valid()
      ensures r.Some? ==> 0 <= at < TICK_ARRAY_SIZE && r.value == ticks[at] && ticks[at].Initialized()
      ensures r.Some? ==> forall j :: 0 <= j < TICK_ARRAY_SIZE && ticks[j].Initialized() ==> if zeroForOne then j <= at else at <= j
      ensures r.None? ==> forall j :: 0 <= j < TICK_ARRAY_SIZE ==> !ticks[j].Initialized()
    {
      at := 0;
      if zeroForOne {
        var i := TICK_ARRAY_SIZE - 1;
        while i >= 0
          invariant -1 <= i < TICK_ARRAY_SIZE
          invariant forall j :: i < j < TICK_ARRAY_SIZE ==> !ticks[j].Initialized()
        {
          if ticks[i].Initialized() { return Some(ticks[i]), i; }
          i := i - 1;
        }
      } else {
        var i := 0;
        while i < TICK_ARRAY_SIZE
          invariant 0 <= i <= TICK_ARRAY_SIZE
          invariant forall j :: 0 <= j < i ==> !ticks[j].Initialized()
        {
          if ticks[i].Initialized() { return Some(ticks[i]), i; }
          i := i + 1;
        }
      }
      r := None;
    }

    /** The initialised slot nearest to the current tick in the direction of the swap, if the current
        tick lies in this array and there is such a slot. */
    method NextInitializedTick(current: int, spacing: nat, zeroForOne: bool) returns (r: Option<Slot>, ghost at: int)
      requires Valid() && spacing > 0
      ensures r.Some? ==>
                && ArrayStart(current, spacing) == startTickIndex
                && 0 <= at < TICK_ARRAY_SIZE && r.value == ticks[at] && ticks[at].Initialized()
                && Beyond(startTickIndex + at * spacing, current, zeroForOne)
                && forall j :: 0 <= j < TICK_ARRAY_SIZE && ticks[j].Initialized() && Beyond(startTickIndex + j * spacing, current, zeroForOne)
                     ==> if zeroForOne then j <= at else at <= j
      ensures r.None? ==>
                || ArrayStart(current, spacing) != startTickIndex
                || forall j :: 0 <= j < TICK_ARRAY_SIZE && ticks[j].Initialized() ==> !Beyond(startTickIndex + j * spacing, current, zeroForOne)
    {
      hide ArrayStart;
      at := 0;
      if ArrayStart(current, spacing) != startTickIndex { return None, at; }
      var offset := SlotIndex(current, startTickIndex, spacing);
      SlotIndexIs(current, spacing);
      ghost var o := offset;
      forall j ensures Beyond(startTickIndex + j * spacing, current, zeroForOne) <==> (if zeroForOne then j <= o else j > o) {
        MultipleOrder(j, o, spacing);
        MultipleOrder(o + 1, j, spacing);
        assert (o + 1) * spacing == o * spacing + spacing;
      }
      if zeroForOne {
        while offset >= 0
          invariant -1 <= offset <= o
          invariant forall j :: offset < j <= o ==> !ticks[j].Initialized()
        {
          if ticks[offset].Initialized() { return Some(ticks[offset]), offset; }
          offset := offset - 1;
        }
      } else {
        offset := offset + 1;
        while offset < TICK_ARRAY_SIZE
          invariant o + 1 <= offset <= TICK_ARRAY_SIZE
          invariant forall j :: o < j < offset ==> !ticks[j].Initialized()
        {
          if ticks[offset].Initialized() { return Some(ticks[offset]), offset; }
          offset := offset + 1;
        }
      }
      r := None;
    }
  }
}
