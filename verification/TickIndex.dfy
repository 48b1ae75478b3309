/** The index over the initialised ticks: arrays of slots with their counts, and one bit per array. It is
    compared with the plain set of initialised ticks. */
module TickIndex {
  import opened Wrappers
  import opened FullMath
  import opened TickMath
  import opened Model
  import opened Machine
  import opened ArrayIndex
  import opened BitmapSearch
  import opened BitmapExtension
  import opened TickArrays
  import opened PoolStates

  /** The tick array accounts by start index, and what the bitmaps stand for. */
  datatype Index = Index(arrays: map<int, TickArray>, bits: Bitmaps)

  /** What the arrays hold for a tick. */
  function SlotOf(arrays: map<int, TickArray>, spacing: nat, t: int): Tick
    requires spacing > 0
  {
    var start := ArrayStart(t, spacing);
    if start in arrays && |arrays[start].slots| == TICK_ARRAY_SIZE && t % spacing == 0 then
      SlotIndexIs(t, spacing);
      arrays[start].slots[SlotIndex(t, start, spacing)].state
    else EMPTY_TICK
  }

  /** Every array lies at its own start index. */
  ghost predicate ArraysPlaced(arrays: map<int, TickArray>, spacing: nat)
    requires spacing > 0
  {
    forall start :: start in arrays ==>
      arrays[start].start == start && IsArrayStart(start, spacing) && Placed(arrays[start], spacing)
  }

  ghost predicate IsArrayStart(start: int, spacing: nat)
    requires spacing > 0
  {
    var span := TickCount(spacing);
    start == ArrayOf(start, span) * span && ValidArray(ArrayOf(start, span), span)
  }

  /** The slots hold exactly the initialised ticks. */
  ghost predicate Represents(ticks: map<int, Tick>, arrays: map<int, TickArray>, spacing: nat)
    requires spacing > 0
  {
    && (forall t :: TickOf(ticks, t) == SlotOf(arrays, spacing, t))
    && (forall t :: t in ticks ==> ticks[t].gross > 0)
  }

  /** Counts are the numbers of initialised slots. */
  ghost predicate CountsRight(arrays: map<int, TickArray>) {
    forall start :: start in arrays ==> arrays[start].count == Initialized(arrays[start].slots)
  }

  /** An array's bit is set exactly if its count is positive. */
  ghost predicate BitsRight(bits: Bitmaps, arrays: map<int, TickArray>, span: nat) {
    forall a :: HasArray(bits, a) <==> a * span in arrays && arrays[a * span].count > 0
  }

  ghost predicate IndexInv(ticks: map<int, Tick>, x: Index, spacing: nat)
    requires spacing > 0
  {
    && ArraysPlaced(x.arrays, spacing) && Represents(ticks, x.arrays, spacing)
    && CountsRight(x.arrays) && BitsRight(x.bits, x.arrays, TickCount(spacing))
  }

  // ---------------------------------------------------------------------------------------------
  // Slots and ticks

  /** A usable tick is the tick of its slot. */
  lemma SlotTick(t: int, spacing: nat)
    requires spacing > 0 && t % spacing == 0
    ensures var start := ArrayStart(t, spacing); t == start + SlotIndex(t, start, spacing) * spacing
  {
    hide ArrayStart, SlotIndex, ArrayOf;
    var start := ArrayStart(t, spacing);
    var i := SlotIndex(t, start, spacing);
    SlotIndexIs(t, spacing);
    ArrayStartIsFloor(t, spacing);
    var a := ArrayOf(t, TickCount(spacing));
    var q := t / spacing;
    assert t == q * spacing;
    assert start + i * spacing == (TICK_ARRAY_SIZE * a + i) * spacing by {
      assert a * (TICK_ARRAY_SIZE * spacing) == TICK_ARRAY_SIZE * a * spacing;
    }
    MultipleOrder(TICK_ARRAY_SIZE * a + i, q, spacing);
    MultipleOrder(q, TICK_ARRAY_SIZE * a + i + 1, spacing);
    assert (TICK_ARRAY_SIZE * a + i + 1) * spacing == (TICK_ARRAY_SIZE * a + i) * spacing + spacing;
  }

  /** Slot i of the array at `start` is the slot of tick start + i * spacing. */
  lemma TickSlot(start: int, i: int, spacing: nat)
    requires spacing > 0 && 0 <= i < TICK_ARRAY_SIZE && start == ArrayOf(start, TickCount(spacing)) * TickCount(spacing)
    ensures var t := start + i * spacing;
            t % spacing == 0 && ArrayStart(t, spacing) == start && SlotIndex(t, start, spacing) == i
  {
    hide ArrayStart, ArrayOf;
    var span := TickCount(spacing);
    var t := start + i * spacing;
    var a := ArrayOf(start, span);
    MultipleOrder(i, TICK_ARRAY_SIZE, spacing);
    MultipleOrder(0, i + 1, spacing);
    ArrayStartIsFloor(t, spacing);
    ArrayBounds(t, span);
    ArrayInside(t, a, span);
    var q := TICK_ARRAY_SIZE * a + i;
    assert t == q * spacing by {
      assert a * (TICK_ARRAY_SIZE * spacing) == TICK_ARRAY_SIZE * a * spacing;
    }
    assert (q + 1) * spacing == q * spacing + spacing;
    DivIs(t, spacing, q);
    QuotOfMultiple(i, spacing);
  }

  lemma ArrayInside(t: int, a: int, span: nat)
    requires span > 0 && a * span <= t < a * span + span
    ensures ArrayOf(t, span) == a
  {
    assert (a + 1) * span == a * span + span;
    DivIs(t, span, a);
  }

  /** Writing the slot of one tick is storing that tick. */
  lemma WriteSlot(ticks: map<int, Tick>, arrays: map<int, TickArray>, spacing: nat, t: int, s: Slot)
    requires spacing > 0 && t % spacing == 0 && ArraysPlaced(arrays, spacing) && Represents(ticks, arrays, spacing)
    requires ArrayStart(t, spacing) in arrays && s.tick == t && (s.state.gross == 0 ==> s.state == EMPTY_TICK)
    ensures var start := ArrayStart(t, spacing); var before := arrays[start];
            var i := SlotIndex(t, start, spacing);
            && 0 <= i < |before.slots| && before.slots[i].state == TickOf(ticks, t)
            && (before.slots[i].tick == 0 || before.slots[i].tick == t)
            && (before.slots[i].Initialized() ==> before.slots[i].tick == t)
            && var arrays' := arrays[start := before.(slots := before.slots[i := s])];
               ArraysPlaced(arrays', spacing) && Represents(PutTick(ticks, t, s.state), arrays', spacing)
  {
    hide ArrayStart, SlotIndex, ArrayOf;
    var start := ArrayStart(t, spacing);
    var before := arrays[start];
    var i := SlotIndex(t, start, spacing);
    SlotIndexIs(t, spacing);
    SlotTick(t, spacing);
    assert TickOf(ticks, t) == SlotOf(arrays, spacing, t);
    var arrays' := arrays[start := before.(slots := before.slots[i := s])];
    var ticks' := PutTick(ticks, t, s.state);
    forall u ensures TickOf(ticks', u) == SlotOf(arrays', spacing, u) {
      assert TickOf(ticks, u) == SlotOf(arrays, spacing, u);
      if u != t && u % spacing == 0 {
        SlotTick(u, spacing);
        SlotIndexIs(u, spacing);
      }
    }
  }

  /** Reading the slot of one tick. */
  lemma ReadSlot(ticks: map<int, Tick>, arrays: map<int, TickArray>, spacing: nat, t: int)
    requires spacing > 0 && t % spacing == 0 && ArraysPlaced(arrays, spacing) && Represents(ticks, arrays, spacing)
    requires ArrayStart(t, spacing) in arrays
    ensures var start := ArrayStart(t, spacing); var i := SlotIndex(t, start, spacing);
            && 0 <= i < |arrays[start].slots| && arrays[start].slots[i].state == TickOf(ticks, t)
            && (arrays[start].slots[i].tick == 0 || arrays[start].slots[i].tick == t)
            && (t in ticks ==> arrays[start].slots[i].tick == t)
            && (TickOf(ticks, t).gross == 0 ==> TickOf(ticks, t) == EMPTY_TICK && t !in ticks)
  {
    hide ArrayStart, SlotIndex, ArrayOf;
    SlotIndexIs(t, spacing);
    SlotTick(t, spacing);
    assert TickOf(ticks, t) == SlotOf(arrays, spacing, t);
  }

  /** A new, blank array changes nothing that the index stands for. */
  lemma AddBlank(ticks: map<int, Tick>, x: Index, spacing: nat, start: int)
    requires spacing > 0 && IndexInv(ticks, x, spacing) && start !in x.arrays && IsArrayStart(start, spacing)
    ensures var blank := TickArray(start, seq(TICK_ARRAY_SIZE, i => NO_SLOT), 0);
            IndexInv(ticks, x.(arrays := x.arrays[start := blank]), spacing)
  {
    hide ArrayStart, SlotIndex, ArrayOf, HasArray;
    var blank := TickArray(start, seq(TICK_ARRAY_SIZE, i => NO_SLOT), 0);
    var arrays' := x.arrays[start := blank];
    forall u ensures TickOf(ticks, u) == SlotOf(arrays', spacing, u) {
      assert TickOf(ticks, u) == SlotOf(x.arrays, spacing, u);
      if u % spacing == 0 {
        SlotIndexIs(u, spacing);
      }
    }
    SomeInitialized(blank.slots);
  }

  // ---------------------------------------------------------------------------------------------
  // Searching

  /** An initialised slot is an initialised tick. */
  lemma SlotIsTick(ticks: map<int, Tick>, arrays: map<int, TickArray>, spacing: nat, start: int, i: int)
    requires spacing > 0 && ArraysPlaced(arrays, spacing) && Represents(ticks, arrays, spacing)
    requires start in arrays && 0 <= i < TICK_ARRAY_SIZE
    ensures var t := start + i * spacing;
            && (arrays[start].slots[i].Initialized() <==> t in ticks)
            && (t in ticks ==> ticks[t] == arrays[start].slots[i].state && arrays[start].slots[i].tick == t)
  {
    hide ArrayStart, SlotIndex, ArrayOf;
    TickSlot(start, i, spacing);
    var t := start + i * spacing;
    assert TickOf(ticks, t) == SlotOf(arrays, spacing, t);
  }

  /** An initialised tick has an initialised slot in an array that is marked. */
  lemma TickIsSlot(ticks: map<int, Tick>, x: Index, spacing: nat, t: int)
    requires spacing > 0 && IndexInv(ticks, x, spacing) && t in ticks
    ensures var start := ArrayStart(t, spacing); var i := SlotIndex(t, start, spacing); var a := ArrayOf(t, TickCount(spacing));
            && start in x.arrays && 0 <= i < TICK_ARRAY_SIZE && t == start + i * spacing && x.arrays[start].slots[i].Initialized()
            && start == a * TickCount(spacing) && HasArray(x.bits, a)
  {
    hide ArrayStart, SlotIndex, ArrayOf, HasArray;
    assert TickOf(ticks, t) == SlotOf(x.arrays, spacing, t);
    SlotIndexIs(t, spacing);
    SlotTick(t, spacing);
    ArrayStartIsFloor(t, spacing);
    SomeInitialized(x.arrays[ArrayStart(t, spacing)].slots);
  }

  /** Marked arrays are valid, exist, and hold an initialised tick; all others hold none. */
  lemma MarkedArray(ticks: map<int, Tick>, x: Index, spacing: nat, a: int)
    requires spacing > 0 && IndexInv(ticks, x, spacing) && HasArray(x.bits, a)
    ensures var start := a * TickCount(spacing);
            && start in x.arrays && ValidArray(a, TickCount(spacing)) && ArrayOf(start, TickCount(spacing)) == a
            && exists i :: 0 <= i < |x.arrays[start].slots| && x.arrays[start].slots[i].Initialized()
  {
    hide ArrayOf, HasArray;
    ArrayOfStart(a, TickCount(spacing));
    SomeInitialized(x.arrays[a * TickCount(spacing)].slots);
  }

  lemma MarksAreValid(ticks: map<int, Tick>, x: Index, spacing: nat)
    requires spacing > 0 && IndexInv(ticks, x, spacing)
    ensures OnlyValid(x.bits, TickCount(spacing))
  {
    hide ArrayOf, HasArray, IndexInv;
    forall a | HasArray(x.bits, a) ensures ValidArray(a, TickCount(spacing)) {
      MarkedArray(ticks, x, spacing, a);
    }
  }

  /** Index agreement: an array is marked exactly if its count is positive, exactly if one of its slots
      has liquidity; the count is the number of such slots and at most 60. */
  lemma IndexAgreement(ticks: map<int, Tick>, x: Index, spacing: nat, a: int)
    requires spacing > 0 && IndexInv(ticks, x, spacing) && a * TickCount(spacing) in x.arrays
    ensures var t := x.arrays[a * TickCount(spacing)];
            && (HasArray(x.bits, a) <==> t.count > 0)
            && (HasArray(x.bits, a) <==> exists i :: 0 <= i < |t.slots| && t.slots[i].state.gross > 0)
            && t.count == Initialized(t.slots) && 0 <= t.count <= 60
  {
    hide HasArray, ArrayOf;
    var t := x.arrays[a * TickCount(spacing)];
    SomeInitialized(t.slots);
    assert forall i :: 0 <= i < |t.slots| ==> (t.slots[i].Initialized() <==> t.slots[i].state.gross > 0);
  }

  /** A crossing changes outside growth only: ticks, counts and bits stay where they are. */
  lemma CrossingKeepsIndex(ticks: map<int, Tick>, x: Index, spacing: nat, t: int, after: Tick)
    requires spacing > 0 && t % spacing == 0 && IndexInv(ticks, x, spacing) && t in ticks && after.gross == ticks[t].gross
    ensures var start := ArrayStart(t, spacing); var i := SlotIndex(t, start, spacing);
            && start in x.arrays && 0 <= i < |x.arrays[start].slots|
            && var arrays' := x.arrays[start := x.arrays[start].(slots := x.arrays[start].slots[i := Slot(t, after)])];
               IndexInv(ticks[t := after], x.(arrays := arrays'), spacing)
  {
    hide ArrayStart, SlotIndex, ArrayOf, HasArray;
    TickIsSlot(ticks, x, spacing, t);
    WriteSlot(ticks, x.arrays, spacing, t, Slot(t, after));
    var start := ArrayStart(t, spacing);
    InitializedAfter(x.arrays[start].slots, SlotIndex(t, start, spacing), Slot(t, after));
    assert PutTick(ticks, t, after) == ticks[t := after];
  }
}
