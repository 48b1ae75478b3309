/** Which tick array a tick lies in, and which bit of which bitmap stands for the array
    (tick_array.rs, tick_array_bit_map.rs, tickarray_bitmap_extension.rs). The program works with start
    indices and divisions that truncate toward zero; here they are compared with array numbers, the
    tick divided by the array's span and rounded down. */
module ArrayIndex {
  import opened Wrappers
  import opened FullMath
  import opened TickMath
  import opened Powers

  const TICK_ARRAY_SIZE: nat := 60
  const BITMAP_SIZE: int := 512
  const EXTENSION_SIZE: int := 14

  // ---------------------------------------------------------------------------------------------
  // Division

  /** Machine division: rounds toward zero. */
  function Quot(a: int, b: nat): int
    requires b > 0
  {
    if a < 0 then -((-a) / b) else a / b
  }

  /** Machine remainder: has the sign of the dividend. */
  function Remainder(a: int, b: nat): int
    requires b > 0
  {
    if a < 0 then -((-a) % b) else a % b
  }

  lemma DivIs(n: int, d: nat, q: int)
    requires d > 0 && q * d <= n < (q + 1) * d
    ensures n / d == q && n % d == n - q * d
  {
    assert n == (n / d) * d + n % d;
    assert (n / d - q) * d == n - n % d - q * d;
    assert (q + 1) * d == q * d + d;
    SmallMultiple(n / d - q, d);
  }

  lemma FloorDiv(n: int, d: nat)
    requires d > 0
    ensures (n / d) * d <= n < (n / d + 1) * d
  {
    assert n == (n / d) * d + n % d;
    assert (n / d + 1) * d == (n / d) * d + d;
  }

  lemma MultipleOrder(a: int, b: int, d: nat)
    requires d > 0
    ensures a < b <==> a * d < b * d
    ensures a <= b <==> a * d <= b * d
    ensures a == b <==> a * d == b * d
  {
    assert (b - a) * d == b * d - a * d;
    SignOfMultiple(b - a, d);
  }

  lemma SignOfMultiple(x: int, d: nat)
    requires d > 0
    ensures x > 0 <==> x * d > 0
    ensures x == 0 <==> x * d == 0
  {
    assert x >= 1 ==> x * d >= 1 * d;
    assert x <= -1 ==> x * d <= -1 * d;
  }

  // ---------------------------------------------------------------------------------------------
  // Start indices

  /** The number of ticks one array spans. */
  function TickCount(spacing: nat): (r: nat)
    ensures spacing > 0 ==> r > 0
  {
    TICK_ARRAY_SIZE * spacing
  }

  /** The number of the array a tick lies in. */
  function ArrayOf(tick: int, span: nat): int
    requires span > 0
  {
    tick / span
  }

  /** The start index of the array a tick lies in, as the program computes it. */
  function ArrayStart(tick: int, spacing: nat): int
    requires spacing > 0
  {
    var span := TickCount(spacing);
    var start := Quot(tick, span);
    (if tick < 0 && Remainder(tick, span) != 0 then start - 1 else start) * span
  }

  lemma ArrayStartIsFloor(tick: int, spacing: nat)
    requires spacing > 0
    ensures var span := TickCount(spacing);
            && ArrayStart(tick, spacing) == ArrayOf(tick, span) * span
            && ArrayStart(tick, spacing) <= tick < ArrayStart(tick, spacing) + span
  {
    var span := TickCount(spacing);
    FloorDiv(tick, span);
    var a := tick / span;
    assert (a + 1) * span == a * span + span;
    if tick < 0 {
      var x := -tick;
      FloorDiv(x, span);
      assert x == (x / span) * span + x % span;
      if x % span == 0 {
        DivIs(tick, span, -(x / span)) by {
          assert -(x / span) * span == tick;
          assert (-(x / span) + 1) * span == tick + span;
        }
      } else {
        DivIs(tick, span, -(x / span) - 1) by {
          assert (-(x / span) - 1) * span == -((x / span) * span) - span;
          assert (-(x / span) - 1 + 1) * span == -((x / span) * span);
        }
      }
    }
  }

  lemma ArrayOfStart(a: int, span: nat)
    requires span > 0
    ensures ArrayOf(a * span, span) == a
  {
    assert (a + 1) * span == a * span + span;
    DivIs(a * span, span, a);
  }

  function MinArray(span: nat): int
    requires span > 0
  {
    ArrayOf(MIN_TICK, span)
  }

  function MaxArray(span: nat): int
    requires span > 0
  {
    ArrayOf(MAX_TICK, span)
  }

  /** Arrays that hold at least one tick of the tick range. */
  predicate ValidArray(a: int, span: nat)
    requires span > 0
  {
    MinArray(span) <= a <= MaxArray(span)
  }

  predicate OutOfBoundary(tick: int) {
    tick < MIN_TICK || tick > MAX_TICK
  }

  /** The program's test of a start index. */
  predicate CheckIsValidStartIndex(index: int, spacing: nat)
    requires spacing > 0
  {
    if OutOfBoundary(index) then
      if index > MAX_TICK then false else index == ArrayStart(MIN_TICK, spacing)
    else Remainder(index, TickCount(spacing)) == 0
  }

  lemma ArrayBounds(tick: int, span: nat)
    requires span > 0
    ensures ArrayOf(tick, span) * span <= tick < ArrayOf(tick, span) * span + span
  {
    FloorDiv(tick, span);
    assert (tick / span + 1) * span == (tick / span) * span + span;
  }

  /** It accepts exactly the start indices of valid arrays. */
  lemma ValidStartIndices(index: int, spacing: nat)
    requires spacing > 0
    ensures var span := TickCount(spacing);
            CheckIsValidStartIndex(index, spacing)
            <==> index == ArrayOf(index, span) * span && ValidArray(ArrayOf(index, span), span)
  {
    hide ArrayStart, ArrayOf;
    var span := TickCount(spacing);
    var a := ArrayOf(index, span);
    ArrayBounds(index, span);
    if index > MAX_TICK {
      ArrayBounds(MAX_TICK, span);
      MultipleOrder(a, MaxArray(span), span);
    } else if index < MIN_TICK {
      ArrayStartIsFloor(MIN_TICK, spacing);
      ArrayBounds(MIN_TICK, span);
      ArrayOfStart(MinArray(span), span);
      ArrayMonotone(index, MIN_TICK, span);
      ArrayMonotone(index, MAX_TICK, span);
    } else {
      IsStart(index, span);
      ArrayMonotone(MIN_TICK, index, span);
      ArrayMonotone(index, MAX_TICK, span);
    }
  }

  lemma IsStart(n: int, span: nat)
    requires span > 0
    ensures Remainder(n, span) == 0 <==> n == ArrayOf(n, span) * span
  {
    hide Remainder;
    RemainderOfMultiple(n, span);
  }

  lemma ArrayMonotone(m: int, n: int, span: nat)
    requires span > 0 && m <= n
    ensures ArrayOf(m, span) <= ArrayOf(n, span)
  {
    hide ArrayOf;
    ArrayBounds(m, span);
    ArrayBounds(n, span);
    MultipleOrder(ArrayOf(m, span), ArrayOf(n, span) + 1, span);
    assert (ArrayOf(n, span) + 1) * span == ArrayOf(n, span) * span + span;
  }

  lemma RemainderOfMultiple(n: int, d: nat)
    requires d > 0
    ensures Remainder(n, d) == 0 <==> n == (n / d) * d
  {
    assert n == (n / d) * d + n % d;
    if n < 0 {
      var x := -n;
      assert x == (x / d) * d + x % d;
      FloorDiv(x, d);
      if x % d == 0 {
        assert (-(x / d)) * d == n;
        assert (-(x / d) + 1) * d == n + d;
        DivIs(n, d, -(x / d));
      } else if n % d == 0 {
        assert (-(n / d)) * d == x;
        assert (-(n / d) + 1) * d == x + d;
        DivIs(x, d, -(n / d));
      }
    }
  }

  // ---------------------------------------------------------------------------------------------
  // Bits

  /** Where the bit of an array is: in the pool's own bitmap for the 1024 arrays around tick zero,
      otherwise in one of the extension's bitmaps for positive or negative ticks. */
  datatype Location = InPool(bit: int) | InPositive(offset: int, bit: int) | InNegative(offset: int, bit: int)

  function LocationOf(a: int): Location {
    if -BITMAP_SIZE <= a < BITMAP_SIZE then InPool(a + BITMAP_SIZE)
    else if a >= BITMAP_SIZE then InPositive(a / BITMAP_SIZE - 1, a % BITMAP_SIZE)
    else InNegative(-(a / BITMAP_SIZE) - 2, a % BITMAP_SIZE)
  }

  /** No two arrays share a bit. */
  lemma LocationInjective(a: int, b: int)
    requires LocationOf(a) == LocationOf(b)
    ensures a == b
  {
  }

  /** Every valid array has its bit within the bitmaps, for every tick spacing. */
  lemma LocationExists(a: int, span: nat)
    requires span >= TICK_ARRAY_SIZE && ValidArray(a, span)
    ensures match LocationOf(a)
            case InPool(bit) => 0 <= bit < 2 * BITMAP_SIZE
            case InPositive(offset, bit) => 0 <= offset < EXTENSION_SIZE && 0 <= bit < BITMAP_SIZE
            case InNegative(offset, bit) => 0 <= offset < EXTENSION_SIZE && 0 <= bit < BITMAP_SIZE
  {
    ArraysBound(span);
  }

  lemma ArraysBound(span: nat)
    requires span >= TICK_ARRAY_SIZE
    ensures -7394 <= MinArray(span) && MaxArray(span) <= 7393
  {
    hide ArrayOf;
    var lo, hi := MinArray(span), MaxArray(span);
    ArrayBounds(MIN_TICK, span);
    ArrayBounds(MAX_TICK, span);
    MultipleOrder(7394, hi, span);
    MultipleOrder(lo + 1, -7394, span);
    assert (lo + 1) * span == lo * span + span;
  }

  /** The span of one bitmap of 512 arrays (and half the span of the pool's own). */
  function MaxTickInBitmap(spacing: nat): (r: nat)
    ensures spacing > 0 ==> r > 0
  {
    spacing * TICK_ARRAY_SIZE * BITMAP_SIZE
  }

  lemma BitmapSpan(spacing: nat)
    ensures MaxTickInBitmap(spacing) == BITMAP_SIZE * TickCount(spacing)
  {
  }

  /** The bit of an array in the pool's bitmap. */
  function PoolBit(start: int, spacing: nat): int
    requires spacing > 0
  {
    Quot(start, TickCount(spacing)) + BITMAP_SIZE
  }

  lemma QuotOfMultiple(a: int, d: nat)
    requires d > 0
    ensures Quot(a * d, d) == a
  {
    SignOfMultiple(a, d);
    if a < 0 {
      ArrayOfStart(-a, d);
      assert (-a) * d == -(a * d);
    } else {
      ArrayOfStart(a, d);
    }
  }

  lemma PoolBitIs(a: int, spacing: nat)
    requires spacing > 0
    ensures PoolBit(a * TickCount(spacing), spacing) == a + BITMAP_SIZE
  {
    hide Quot;
    QuotOfMultiple(a, TickCount(spacing));
  }

  /** The start indices the pool's bitmap stands for: from the first one up to below the second. */
  function PoolRange(spacing: nat): (int, int)
    requires spacing > 0
  {
    var boundary: int := MaxTickInBitmap(spacing);
    (if -boundary < MIN_TICK then ArrayStart(MIN_TICK, spacing) else -boundary,
     if boundary > MAX_TICK then ArrayStart(MAX_TICK, spacing) + TickCount(spacing) else boundary)
  }

  predicate IsOverflow(tick: int, spacing: nat)
    requires spacing > 0
  {
    var start := ArrayStart(tick, spacing);
    start >= PoolRange(spacing).1 || start < PoolRange(spacing).0
  }

  /** Exactly the arrays beyond 512 on either side are left to the extension. */
  lemma OverflowIsOutsidePool(tick: int, spacing: nat)
    requires spacing > 0 && ValidArray(ArrayOf(tick, TickCount(spacing)), TickCount(spacing))
    ensures IsOverflow(tick, spacing) <==> !LocationOf(ArrayOf(tick, TickCount(spacing))).InPool?
  {
    hide ArrayOf, ArrayStart;
    var span := TickCount(spacing);
    var a := ArrayOf(tick, span);
    BitmapSpan(spacing);
    ArrayStartIsFloor(tick, spacing);
    ArrayStartIsFloor(MIN_TICK, spacing);
    ArrayStartIsFloor(MAX_TICK, spacing);
    MultipleOrder(a, BITMAP_SIZE, span);
    MultipleOrder(a, -BITMAP_SIZE, span);
    MultipleOrder(MinArray(span), a, span);
    MultipleOrder(a, MaxArray(span), span);
    MultipleOrder(MaxArray(span), BITMAP_SIZE, span);
    MultipleOrder(-BITMAP_SIZE - 1, MinArray(span), span);
    assert (-BITMAP_SIZE - 1) * span == -BITMAP_SIZE * span - span;
  }

  function AbsInt(x: int): nat { if x < 0 then -x else x }

  /** Extension bitmaps exist only where the pool's bitmap ends within the tick range. */
  predicate CheckExtensionBoundary(index: int, spacing: nat) {
    var boundary: int := MaxTickInBitmap(spacing);
    MAX_TICK > boundary && -boundary > MIN_TICK && !(-boundary <= index < boundary)
  }

  /** The extension bitmap an array belongs to. */
  function BitmapOffset(start: int, spacing: nat): Option<int>
    requires spacing > 0
  {
    if !CheckIsValidStartIndex(start, spacing) || !CheckExtensionBoundary(start, spacing) then None
    else
      var span := MaxTickInBitmap(spacing);
      var offset := AbsInt(start) / span - 1;
      Some(if start < 0 && AbsInt(start) % span == 0 then offset - 1 else offset)
  }

  /** The bit of an array within its extension bitmap. */
  function OffsetInBitmap(start: int, spacing: nat): int
    requires spacing > 0
  {
    var m := AbsInt(start) % MaxTickInBitmap(spacing);
    var offset := m / TickCount(spacing);
    if start < 0 && m != 0 then BITMAP_SIZE - offset else offset
  }

  /** The start indices one bitmap stands for: from the first one up to below the second. */
  function BitmapBoundary(start: int, spacing: nat): (int, int)
    requires spacing > 0
  {
    var span := MaxTickInBitmap(spacing);
    var m := AbsInt(start) / span;
    var m' := if start < 0 && AbsInt(start) % span != 0 then m + 1 else m;
    if start < 0 then (-(span * m'), -(span * m') + span) else (span * m', span * m' + span)
  }

  lemma DivScaled(x: nat, k: nat, d: nat)
    requires k > 0 && d > 0
    ensures x * d / (k * d) == x / k
    ensures x * d % (k * d) == (x % k) * d
  {
    var q, r := x / k, x % k;
    assert x == q * k + r;
    assert x * d == q * (k * d) + r * d;
    assert r * d < k * d by {
      MultipleOrder(r, k, d);
    }
    assert (q + 1) * (k * d) == q * (k * d) + k * d;
    DivIs(x * d, k * d, q);
  }

  /** The program's group, bit and boundary of a start index are those of the array number. */
  lemma ExtensionFormulas(a: int, spacing: nat)
    requires spacing > 0
    ensures var span := TickCount(spacing); var start := a * span;
            && OffsetInBitmap(start, spacing) == a % BITMAP_SIZE
            && BitmapBoundary(start, spacing) == (a / BITMAP_SIZE * BITMAP_SIZE * span, (a / BITMAP_SIZE + 1) * BITMAP_SIZE * span)
            && AbsInt(start) / MaxTickInBitmap(spacing) == AbsInt(a) / BITMAP_SIZE
            && (AbsInt(start) % MaxTickInBitmap(spacing) == 0 <==> AbsInt(a) % BITMAP_SIZE == 0)
            && (start < 0 <==> a < 0)
  {
    var span := TickCount(spacing);
    var x := AbsInt(a);
    BitmapSpan(spacing);
    SignOfMultiple(a, span);
    assert AbsInt(a * span) == x * span by {
      assert (-a) * span == -(a * span);
    }
    DivScaled(x, BITMAP_SIZE, span);
    SignOfMultiple(x % BITMAP_SIZE, span);
    ArrayOfStart(x % BITMAP_SIZE, span);
    BoundaryArithmetic(a, span);
  }

  lemma BoundaryArithmetic(a: int, span: nat)
    ensures var x := AbsInt(a); var m := if a < 0 && x % BITMAP_SIZE != 0 then x / BITMAP_SIZE + 1 else x / BITMAP_SIZE;
            var g := a / BITMAP_SIZE;
            && (if a < 0 then -m else m) == g
            && BITMAP_SIZE * span * m == m * BITMAP_SIZE * span
            && g * BITMAP_SIZE * span + BITMAP_SIZE * span == (g + 1) * BITMAP_SIZE * span
            && -(m * BITMAP_SIZE * span) == -m * BITMAP_SIZE * span
  {
  }

  /** For an array beyond the pool's bitmap the program finds its extension bitmap and bit. */
  lemma ExtensionLocation(a: int, spacing: nat)
    requires spacing > 0 && ValidArray(a, TickCount(spacing)) && !LocationOf(a).InPool?
    ensures var start := a * TickCount(spacing);
            && BitmapOffset(start, spacing) == Some(LocationOf(a).offset)
            && OffsetInBitmap(start, spacing) == LocationOf(a).bit
            && (start < 0 <==> LocationOf(a).InNegative?)
  {
    hide ArrayOf, ArrayStart, OffsetInBitmap, CheckIsValidStartIndex, CheckExtensionBoundary, AbsInt, BitmapBoundary;
    ExtensionFormulas(a, spacing);
    ValidStartIndices(a * TickCount(spacing), spacing);
    ArrayOfStart(a, TickCount(spacing));
    BeyondPool(a, spacing);
    assert AbsInt(a) == if a < 0 then -a else a by {
      AbsOf(a);
    }
  }

  lemma AbsOf(x: int)
    ensures AbsInt(x) == if x < 0 then -x else x
  {
  }

  lemma BeyondPool(a: int, spacing: nat)
    requires spacing > 0 && ValidArray(a, TickCount(spacing)) && !LocationOf(a).InPool?
    ensures CheckExtensionBoundary(a * TickCount(spacing), spacing)
  {
    hide ArrayOf;
    var span := TickCount(spacing);
    BitmapSpan(spacing);
    PoolEndsInside(a, span);
    MultipleOrder(a, BITMAP_SIZE, span);
    MultipleOrder(a, -BITMAP_SIZE, span);
  }

  lemma PoolEndsInside(a: int, span: nat)
    requires span >= TICK_ARRAY_SIZE && ValidArray(a, span) && !LocationOf(a).InPool?
    ensures MAX_TICK > BITMAP_SIZE * span && -(BITMAP_SIZE * span) > MIN_TICK
  {
    hide ArrayOf;
    ArrayBounds(MIN_TICK, span);
    ArrayBounds(MAX_TICK, span);
    if a >= BITMAP_SIZE {
      MultipleOrder(BITMAP_SIZE, MaxArray(span), span);
      assert BITMAP_SIZE * span <= MAX_TICK;
      NotABitmapEdge(span);
    } else {
      MultipleOrder(MinArray(span), -BITMAP_SIZE - 1, span);
      assert (-BITMAP_SIZE - 1) * span == -(BITMAP_SIZE * span) - span;
    }
  }

  // The tick range does not end on a bitmap boundary.
  lemma NotABitmapEdge(span: nat)
    ensures BITMAP_SIZE * span != MAX_TICK
  {
    assert (BITMAP_SIZE * span) % 8 == 0 && MAX_TICK % 8 == 4;
  }
}
