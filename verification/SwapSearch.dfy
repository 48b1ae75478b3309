/** How a swap finds its next tick: in the array at hand, or by hopping to the next marked array among the
    accounts supplied (swap.rs). The search is exact: it returns the nearest initialised tick. */
module SwapSearch {
  import opened Wrappers
  import opened FullMath
  import opened TickMath
  import opened Model
  import opened Machine
  import opened ArrayIndex
  import opened BitmapSearch
  import opened BitmapExtension
  import opened TickArrays
  import opened PoolStates
  import opened TickIndex

  /** The array at hand is marked, and no initialised tick in the direction of the swap lies before it.
      Matched: it is the current tick's own array, or the swap has just left it downwards. Otherwise it is
      the nearest marked array ahead. */
  ghost predicate Positioned(bits: Bitmaps, c: int, tick: int, matched: bool, zeroForOne: bool, span: nat)
    requires span > 0
  {
    var own := ArrayOf(tick, span);
    && HasArray(bits, c)
    && (if matched then own == c || (zeroForOne && tick == c * span - 1)
        else !HasArray(bits, own) && IsNearest(bits, own, zeroForOne, c))
  }

  /** The accounts still to come contain every marked array ahead, in the order of travel. */
  ghost predicate Supplied(rest: seq<int>, arrays: map<int, TickArray>, bits: Bitmaps, c: int, zeroForOne: bool, span: nat) {
    && (forall i :: 0 <= i < |rest| ==> rest[i] in arrays)
    && (forall i, j :: 0 <= i < j < |rest| ==> Past(rest[j], rest[i], zeroForOne))
    && (forall m :: HasArray(bits, m) && Past(m, c, zeroForOne) ==> m * span in rest)
  }

  /** The array at hand is a working copy of its account. */
  ghost predicate AtHand(current: TickArrayState, arrays: map<int, TickArray>)
    reads current, current.ticks
  {
    current.Valid() && current.startTickIndex in arrays && arrays[current.startTickIndex] == current.Account()
  }

  /** Slots and ticks of one array compare alike. */
  lemma SlotOrder(start: int, i: int, j: int, spacing: nat)
    requires spacing > 0
    ensures i <= j <==> start + i * spacing <= start + j * spacing
  {
    MultipleOrder(i, j, spacing);
  }

  /** Ticks of nearer arrays are nearer. */
  lemma ArrayOrder(t: int, u: int, span: nat)
    requires span > 0 && ArrayOf(t, span) < ArrayOf(u, span)
    ensures t < u
  {
    hide ArrayOf;
    if u <= t {
      ArrayMonotone(u, t, span);
    }
  }

  /** The slot found in the current tick's own array is the nearest tick of all. */
  lemma NearestInOwnArray(ticks: map<int, Tick>, x: Index, spacing: nat, c: int, tick: int, at: int, zeroForOne: bool)
    requires spacing > 0 && IndexInv(ticks, x, spacing)
    requires var span := TickCount(spacing); ArrayOf(tick, span) == c && HasArray(x.bits, c) && 0 <= at < TICK_ARRAY_SIZE
    requires var start := c * TickCount(spacing);
             && start in x.arrays && x.arrays[start].slots[at].Initialized() && Beyond(start + at * spacing, tick, zeroForOne)
             && forall j :: 0 <= j < TICK_ARRAY_SIZE && x.arrays[start].slots[j].Initialized() && Beyond(start + j * spacing, tick, zeroForOne)
                  ==> if zeroForOne then j <= at else at <= j
    ensures var start := c * TickCount(spacing); var n := start + at * spacing;
            && IsNextTick(ticks.Keys, tick, zeroForOne, n)
            && x.arrays[start].slots[at] == Slot(n, ticks[n]) && ArrayOf(n, TickCount(spacing)) == c
  {
    hide ArrayOf, HasArray, ArrayStart, SlotIndex, Represents, BitsRight, CountsRight, Placed;
    var span := TickCount(spacing);
    var start := c * span;
    var n := start + at * spacing;
    SlotIsTick(ticks, x.arrays, spacing, start, at);
    ArrayOfSlot(start, at, c, spacing);
    forall t | t in ticks.Keys && Beyond(t, tick, zeroForOne) ensures if zeroForOne then t <= n else n <= t {
      TickIsSlot(ticks, x, spacing, t);
      var d := ArrayOf(t, span);
      if d == c {
        SlotOrder(start, SlotIndex(t, start, spacing), at, spacing);
        SlotOrder(start, at, SlotIndex(t, start, spacing), spacing);
      } else if zeroForOne {
        if d > c { ArrayOrder(tick, t, span); } else { ArrayOrder(t, n, span); }
      } else {
        if d < c { ArrayOrder(t, tick, span); } else { ArrayOrder(n, t, span); }
      }
    }
  }

  lemma ArrayOfSlot(start: int, i: int, c: int, spacing: nat)
    requires spacing > 0 && start == c * TickCount(spacing) && 0 <= i < TICK_ARRAY_SIZE
    ensures ArrayOf(start + i * spacing, TickCount(spacing)) == c
  {
    hide ArrayOf;
    MultipleOrder(i, TICK_ARRAY_SIZE, spacing);
    MultipleOrder(-1, i, spacing);
    ArrayInside(start + i * spacing, c, TickCount(spacing));
  }

  /** No initialised tick in the direction of the swap lies before array c. */
  ghost predicate NoneBefore(ticks: map<int, Tick>, tick: int, c: int, zeroForOne: bool, span: nat)
    requires span > 0
  {
    forall t :: t in ticks && Beyond(t, tick, zeroForOne) ==> !Past(c, ArrayOf(t, span), zeroForOne)
  }

  /** The first slot of the nearest marked array ahead is the nearest tick of all. */
  lemma NearestInNextArray(ticks: map<int, Tick>, x: Index, spacing: nat, c: int, tick: int, at: int, zeroForOne: bool)
    requires spacing > 0 && IndexInv(ticks, x, spacing) && HasArray(x.bits, c) && 0 <= at < TICK_ARRAY_SIZE
    requires var span := TickCount(spacing);
             NoneBefore(ticks, tick, c, zeroForOne, span) && (Past(c, ArrayOf(tick, span), zeroForOne) || (zeroForOne && tick >= c * span + span - 1))
    requires var start := c * TickCount(spacing);
             && start in x.arrays && x.arrays[start].slots[at].Initialized()
             && forall j :: 0 <= j < TICK_ARRAY_SIZE && x.arrays[start].slots[j].Initialized() ==> if zeroForOne then j <= at else at <= j
    ensures var start := c * TickCount(spacing); var n := start + at * spacing;
            && IsNextTick(ticks.Keys, tick, zeroForOne, n)
            && x.arrays[start].slots[at] == Slot(n, ticks[n]) && ArrayOf(n, TickCount(spacing)) == c
  {
    hide ArrayOf, HasArray, ArrayStart, SlotIndex, Represents, BitsRight, CountsRight, Placed;
    var span := TickCount(spacing);
    var start := c * span;
    var n := start + at * spacing;
    SlotIsTick(ticks, x.arrays, spacing, start, at);
    ArrayOfSlot(start, at, c, spacing);
    ArrayBounds(n, span);
    assert Beyond(n, tick, zeroForOne) by {
      if Past(c, ArrayOf(tick, span), zeroForOne) {
        if zeroForOne { ArrayOrder(n, tick, span); } else { ArrayOrder(tick, n, span); }
      }
    }
    forall t | t in ticks.Keys && Beyond(t, tick, zeroForOne) ensures if zeroForOne then t <= n else n <= t {
      TickIsSlot(ticks, x, spacing, t);
      var d := ArrayOf(t, span);
      assert !Past(c, d, zeroForOne);
      if d == c {
        SlotOrder(start, SlotIndex(t, start, spacing), at, spacing);
        SlotOrder(start, at, SlotIndex(t, start, spacing), spacing);
      } else if zeroForOne {
        ArrayOrder(t, n, span);
      } else {
        ArrayOrder(n, t, span);
      }
    }
  }

  lemma SuppliedAfter(rest: seq<int>, arrays: map<int, TickArray>, bits: Bitmaps, c: int, n: int, zeroForOne: bool, span: nat, k: nat)
    requires span > 0 && Supplied(rest, arrays, bits, c, zeroForOne, span) && k < |rest| && rest[k] == n * span && Past(n, c, zeroForOne)
    ensures Supplied(rest[k + 1..], arrays, bits, n, zeroForOne, span)
  {
    hide HasArray;
    forall m | HasArray(bits, m) && Past(m, n, zeroForOne) ensures m * span in rest[k + 1..] {
      MultipleOrder(m, n, span);
      var i :| 0 <= i < |rest| && rest[i] == m * span;
      assert i > k;
      assert rest[k + 1..][i - k - 1] == m * span;
    }
  }

  /** Takes arrays from the accounts supplied until the wanted one is at hand. */
  method PopUntil(current: TickArrayState, rest: seq<int>, arrays: map<int, TickArray>, wanted: int, spacing: nat)
    returns (current': TickArrayState?, left: seq<int>, ghost taken: nat)
    requires spacing > 0 && ArraysPlaced(arrays, spacing) && AtHand(current, arrays)
    ensures current' != null ==> AtHand(current', arrays) && current'.startTickIndex == wanted && (current' == current || (fresh(current') && fresh(current'.ticks)))
    ensures current' != null ==> taken <= |rest| && left == rest[taken..] && (if taken == 0 then current' == current else rest[taken - 1] == wanted)
    ensures current' == null ==> current.startTickIndex != wanted && (wanted !in rest || exists i :: 0 <= i < |rest| && rest[i] !in arrays)
  {
    hide IsArrayStart;
    current' := current;
    taken := 0;
    left := rest;
    while current'.startTickIndex != wanted
      invariant current' != null && AtHand(current', arrays) && (current' == current || (fresh(current') && fresh(current'.ticks)))
      invariant taken <= |rest| && left == rest[taken..] && forall i :: 0 <= i < taken - 1 ==> rest[i] != wanted
      invariant if taken == 0 then current' == current else rest[taken - 1] == current'.startTickIndex
      invariant taken > 0 ==> current.startTickIndex != wanted
      decreases |left|
    {
      if left == [] { return null, left, taken; }
      if left[0] !in arrays { return null, left, taken; }
      assert arrays[left[0]].start == left[0] && Placed(arrays[left[0]], spacing);
      current' := new TickArrayState(arrays[left[0]]);
      left := left[1..];
      taken := taken + 1;
    }
  }

  /** Nothing lies between the tick and the nearest marked array ahead. */
  lemma UnmarkedBefore(ticks: map<int, Tick>, x: Index, spacing: nat, tick: int, c: int, zeroForOne: bool)
    requires spacing > 0 && IndexInv(ticks, x, spacing)
    requires Positioned(x.bits, c, tick, false, zeroForOne, TickCount(spacing))
    ensures var span := TickCount(spacing);
            NoneBefore(ticks, tick, c, zeroForOne, span) && Past(c, ArrayOf(tick, span), zeroForOne)
  {
    hide ArrayOf, HasArray, ArrayStart, SlotIndex, Represents, BitsRight, CountsRight, Placed;
    var span := TickCount(spacing);
    var own := ArrayOf(tick, span);
    forall t | t in ticks && Beyond(t, tick, zeroForOne) ensures !Past(c, ArrayOf(t, span), zeroForOne) {
      TickIsSlot(ticks, x, spacing, t);
      if zeroForOne { ArrayMonotone(t, tick, span); } else { ArrayMonotone(tick, t, span); }
    }
  }

  ghost predicate NoneIn(ticks: map<int, Tick>, tick: int, c: int, zeroForOne: bool, span: nat)
    requires span > 0
  {
    forall t :: t in ticks && Beyond(t, tick, zeroForOne) ==> ArrayOf(t, span) != c
  }

  /** An array searched in vain holds no tick in the direction of the swap. */
  lemma NoneInArray(ticks: map<int, Tick>, x: Index, spacing: nat, c: int, tick: int, zeroForOne: bool)
    requires spacing > 0 && IndexInv(ticks, x, spacing)
    requires var span := TickCount(spacing); var start := c * span;
             && Positioned(x.bits, c, tick, true, zeroForOne, span) && start in x.arrays
             && (|| ArrayStart(tick, spacing) != start
                 || forall j :: 0 <= j < TICK_ARRAY_SIZE && x.arrays[start].slots[j].Initialized() ==> !Beyond(start + j * spacing, tick, zeroForOne))
    ensures NoneIn(ticks, tick, c, zeroForOne, TickCount(spacing))
  {
    hide ArrayOf, HasArray, ArrayStart, SlotIndex, Represents, BitsRight, CountsRight, Placed;
    var span := TickCount(spacing);
    forall t | t in ticks && Beyond(t, tick, zeroForOne) ensures ArrayOf(t, span) != c {
      TickIsSlot(ticks, x, spacing, t);
      ArrayStartIsFloor(tick, spacing);
      ArrayBounds(t, span);
    }
  }

  /** Ticks ahead lie in the array at hand or past it. */
  lemma NoneBehind(tick: int, t: int, c: int, zeroForOne: bool, span: nat, bits: Bitmaps)
    requires span > 0 && Positioned(bits, c, tick, true, zeroForOne, span) && Beyond(t, tick, zeroForOne)
    ensures ArrayOf(t, span) == c || Past(ArrayOf(t, span), c, zeroForOne)
  {
    hide ArrayOf, HasArray;
    if zeroForOne {
      ArrayMonotone(t, tick, span);
      ArrayInsideBelow(c, span);
    } else {
      ArrayMonotone(tick, t, span);
    }
  }

  lemma ArrayInsideBelow(c: int, span: nat)
    requires span > 0
    ensures ArrayOf(c * span - 1, span) == c - 1
  {
    hide ArrayOf;
    assert (c - 1) * span == c * span - span;
    ArrayInside(c * span - 1, c - 1, span);
  }

  lemma NoneAhead(ticks: map<int, Tick>, x: Index, spacing: nat, c: int, tick: int, zeroForOne: bool)
    requires spacing > 0 && IndexInv(ticks, x, spacing)
    requires var span := TickCount(spacing);
             && Positioned(x.bits, c, tick, true, zeroForOne, span)
             && NoneIn(ticks, tick, c, zeroForOne, span) && NonePast(x.bits, c, zeroForOne)
    ensures forall t :: t in ticks ==> !Beyond(t, tick, zeroForOne)
  {
    hide ArrayOf, HasArray, ArrayStart, SlotIndex, Represents, BitsRight, CountsRight, Placed;
    var span := TickCount(spacing);
    forall t | t in ticks ensures !Beyond(t, tick, zeroForOne) {
      TickIsSlot(ticks, x, spacing, t);
      if Beyond(t, tick, zeroForOne) {
        NoneBehind(tick, t, c, zeroForOne, span, x.bits);
      }
    }
  }

  lemma NoneBetweenArrays(ticks: map<int, Tick>, x: Index, spacing: nat, c: int, n: int, tick: int, zeroForOne: bool)
    requires spacing > 0 && IndexInv(ticks, x, spacing)
    requires var span := TickCount(spacing);
             && Positioned(x.bits, c, tick, true, zeroForOne, span)
             && NoneIn(ticks, tick, c, zeroForOne, span) && IsNearest(x.bits, c, zeroForOne, n)
    ensures var span := TickCount(spacing);
            && NoneBefore(ticks, tick, n, zeroForOne, span)
            && (Past(n, ArrayOf(tick, span), zeroForOne) || (zeroForOne && tick >= n * span + span - 1))
  {
    hide ArrayOf, HasArray, ArrayStart, SlotIndex, Represents, BitsRight, CountsRight, Placed;
    var span := TickCount(spacing);
    forall t | t in ticks && Beyond(t, tick, zeroForOne) ensures !Past(n, ArrayOf(t, span), zeroForOne) {
      TickIsSlot(ticks, x, spacing, t);
      NoneBehind(tick, t, c, zeroForOne, span, x.bits);
    }
    ArrayInsideBelow(c, span);
    assert (c - 1) * span == c * span - span;
  }

  /** The exact search. It fails only for want of accounts, or if there is no tick ahead. */
  method FindNextTick(pool: PoolState, ext: TickArrayBitmapExtension?, current: TickArrayState, matched: bool, rest: seq<int>,
                      tick: int, zeroForOne: bool, arrays: map<int, TickArray>, ghost ticks: map<int, Tick>, ghost bits: Bitmaps)
    returns (r: Option<Slot>, current': TickArrayState, rest': seq<int>)
    requires pool.spacing > 0 && Shows(bits, pool.tickArrayBitmap, ext) && IndexInv(ticks, Index(arrays, bits), pool.spacing)
    requires AtHand(current, arrays)
    requires var span := TickCount(pool.spacing); Positioned(bits, ArrayOf(current.startTickIndex, span), tick, matched, zeroForOne, span)
    ensures current' == current || (fresh(current') && fresh(current'.ticks))
    ensures r.Some? ==>
              var span := TickCount(pool.spacing); var n := r.value.tick; var c := ArrayOf(current'.startTickIndex, span);
              && IsNextTick(ticks.Keys, tick, zeroForOne, n) && r.value == Slot(n, ticks[n])
              && AtHand(current', arrays) && ArrayOf(n, span) == c && HasArray(bits, c)
              && (Supplied(rest, arrays, bits, ArrayOf(current.startTickIndex, span), zeroForOne, span) ==>
                    Supplied(rest', arrays, bits, c, zeroForOne, span))
    ensures r.None? ==>
              var span := TickCount(pool.spacing);
              || ext == null || !Supplied(rest, arrays, bits, ArrayOf(current.startTickIndex, span), zeroForOne, span)
              || forall t :: t in ticks ==> !Beyond(t, tick, zeroForOne)
  {
    hide ArrayOf, ArrayStart, HasArray, Shows, Represents, BitsRight, CountsRight, Placed, OnlyValid, SlotIndex;
    ghost var x := Index(arrays, bits);
    ghost var span := TickCount(pool.spacing);
    ghost var c := ArrayOf(current.startTickIndex, span);
    MarkedArray(ticks, x, pool.spacing, c);
    ArrayStartIsFloor(tick, pool.spacing);
    current', rest' := current, rest;
    ghost var at;
    r, at := current.NextInitializedTick(tick, pool.spacing, zeroForOne);
    MultipleOrder(ArrayOf(tick, span), c, span);
    if r.Some? {
      NearestInOwnArray(ticks, x, pool.spacing, c, tick, at, zeroForOne);
      return;
    }
    if !matched {
      r, at := current.FirstInitializedTick(zeroForOne);
      UnmarkedBefore(ticks, x, pool.spacing, tick, c, zeroForOne);
      if r.Some? {
        NearestInNextArray(ticks, x, pool.spacing, c, tick, at, zeroForOne);
      }
      return;
    }
    NoneInArray(ticks, x, pool.spacing, c, tick, zeroForOne);
    MarksAreValid(ticks, x, pool.spacing);
    var next := pool.NextInitializedTickArrayStartIndex(ext, current.startTickIndex, zeroForOne, bits);
    if next.None? { return; }
    if next.value.None? {
      NoneAhead(ticks, x, pool.spacing, c, tick, zeroForOne);
      return;
    }
    ghost var n := ArrayOf(next.value.value, span);
    ghost var taken;
    var popped;
    popped, rest', taken := PopUntil(current, rest, arrays, next.value.value, pool.spacing);
    if popped == null { return; }
    current' := popped;
    if Supplied(rest, arrays, bits, c, zeroForOne, span) {
      SuppliedAfter(rest, arrays, bits, c, n, zeroForOne, span, taken - 1);
    }
    MarkedArray(ticks, x, pool.spacing, n);
    r, at := current'.FirstInitializedTick(zeroForOne);
    NoneBetweenArrays(ticks, x, pool.spacing, c, n, tick, zeroForOne);
    NearestInNextArray(ticks, x, pool.spacing, n, tick, at, zeroForOne);
  }
}
