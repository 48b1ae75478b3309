/** Searches for the next initialised tick array in one bitmap (tick_array_bit_map.rs,
    tickarray_bitmap_extension.rs), compared with the set of arrays the bitmaps stand for. */
module BitmapSearch {
  import opened Wrappers
  import opened FullMath
  import opened Powers
  import opened TickMath
  import opened BigNum
  import opened ArrayIndex

  const POOL_BITS: nat := 1024
  const EXTENSION_BITS: nat := 512

  /** The numbers the bitmap words of the pool and of its extension stand for. */
  datatype Bitmaps = Bitmaps(pool: nat, positive: seq<nat>, negative: seq<nat>)

  predicate HasBit(b: Bitmaps, l: Location) {
    match l
    case InPool(bit) => bit >= 0 && Bit(b.pool, bit)
    case InPositive(offset, bit) => 0 <= offset < |b.positive| && bit >= 0 && Bit(b.positive[offset], bit)
    case InNegative(offset, bit) => 0 <= offset < |b.negative| && bit >= 0 && Bit(b.negative[offset], bit)
  }

  /** The bitmaps mark array a as initialised. */
  predicate HasArray(b: Bitmaps, a: int) {
    HasBit(b, LocationOf(a))
  }

  ghost predicate Sized(b: Bitmaps) {
    && b.pool < Pow2(POOL_BITS)
    && |b.positive| == EXTENSION_SIZE && |b.negative| == EXTENSION_SIZE
    && forall i :: 0 <= i < EXTENSION_SIZE ==> b.positive[i] < Pow2(EXTENSION_BITS) && b.negative[i] < Pow2(EXTENSION_BITS)
  }

  /** Arrays strictly beyond `from` in the direction of the search. */
  predicate Past(m: int, from: int, zeroForOne: bool) {
    if zeroForOne then m < from else m > from
  }

  /** The array nearest to `from` and strictly beyond it. */
  ghost predicate IsNearest(b: Bitmaps, from: int, zeroForOne: bool, n: int) {
    HasArray(b, n) && Past(n, from, zeroForOne) && NoneUntil(b, from, n, zeroForOne)
  }

  /** No array between the two, both excluded. */
  ghost predicate NoneUntil(b: Bitmaps, from: int, n: int, zeroForOne: bool) {
    forall m :: Past(m, from, zeroForOne) && Past(n, m, zeroForOne) ==> !HasArray(b, m)
  }

  ghost predicate NonePast(b: Bitmaps, from: int, zeroForOne: bool) {
    forall m :: Past(m, from, zeroForOne) ==> !HasArray(b, m)
  }

  function Next(a: int, zeroForOne: bool): int { if zeroForOne then a - 1 else a + 1 }

  // ---------------------------------------------------------------------------------------------
  // One bitmap

  function MostSignificantBit(x: nat, width: nat): Option<int> {
    if x == 0 then None else Some(LeadingZeros(x, width))
  }

  function LeastSignificantBit(x: nat, width: nat): Option<int> {
    if x == 0 then None else Some(TrailingZeros(x, width))
  }

  /** The search in the pool's bitmap: whether an array was found beyond the last one, and its start
      index or the place the search has got to. None where the program panics. */
  function NextInPool(bitMap: nat, last: int, spacing: nat, zeroForOne: bool): Option<(bool, int)>
    requires spacing > 0
  {
    var boundary: int := MaxTickInBitmap(spacing);
    var next := if zeroForOne then last - TickCount(spacing) else last + TickCount(spacing);
    if !CheckIsValidStartIndex(last, spacing) then None
    else if next < -boundary || next >= boundary then Some((false, last))
    else
      var multiplier := TickCount(spacing);
      var quotient := Quot(next, multiplier) + 512;
      var bitPos := AbsInt(if next < 0 && Remainder(next, multiplier) != 0 then quotient - 1 else quotient);
      if zeroForOne then
        if bitPos >= POOL_BITS then None
        else
          match MostSignificantBit(Shl(bitMap, POOL_BITS - bitPos - 1, POOL_BITS), POOL_BITS)
          case Some(distance) => Some((true, (bitPos - distance - 512) * multiplier))
          case None => Some((false, -boundary))
      else
        match LeastSignificantBit(Shr(bitMap, bitPos), POOL_BITS)
        case Some(distance) => Some((true, (bitPos + distance - 512) * multiplier))
        case None => Some((false, boundary - multiplier))
  }

  /** What a search in one bitmap for the arrays lo..hi reports when it starts at array n: the nearest
      array from n on, or that there is none and the last array looked at. */
  ghost predicate Searched(b: Bitmaps, n: int, lo: int, hi: int, zeroForOne: bool, r: (bool, int), span: nat) {
    if r.0 then
      exists m :: lo <= m < hi && r.1 == m * span && HasArray(b, m)
               && (if zeroForOne then m <= n && NoneFrom(b, m + 1, n + 1) else n <= m && NoneFrom(b, n, m))
    else if zeroForOne then r.1 == lo * span && NoneFrom(b, lo, n + 1)
    else r.1 == (hi - 1) * span && NoneFrom(b, n, hi)
  }

  ghost predicate NoneFrom(b: Bitmaps, lo: int, hi: int) {
    forall m :: lo <= m < hi ==> !HasArray(b, m)
  }

  /** Bits 0..width-1 of v stand for arrays lo..lo + width - 1. */
  ghost predicate StandsFor(v: nat, width: nat, b: Bitmaps, lo: int) {
    v < Pow2(width) && forall m :: lo <= m < lo + width ==> (HasArray(b, m) <==> Bit(v, m - lo))
  }

  lemma SearchDown(v: nat, width: nat, b: Bitmaps, lo: int, n: int)
    requires StandsFor(v, width, b, lo) && lo <= n < lo + width
    ensures match MostSignificantBit(Shl(v, width - (n - lo) - 1, width), width)
            case Some(d) => lo <= n - d <= n && HasArray(b, n - d) && NoneFrom(b, n - d + 1, n + 1)
            case None => NoneFrom(b, lo, n + 1)
  {
    hide Shl, Pow2, LeadingZeros, Bit, HasArray;
    NearestBelow(v, n - lo, width);
  }

  lemma SearchUp(v: nat, width: nat, b: Bitmaps, lo: int, n: int)
    requires StandsFor(v, width, b, lo) && lo <= n < lo + width
    ensures match LeastSignificantBit(Shr(v, n - lo), width)
            case Some(d) => n <= n + d < lo + width && HasArray(b, n + d) && NoneFrom(b, n, n + d)
            case None => NoneFrom(b, n, lo + width)
  {
    hide Shr, Pow2, TrailingZeros, Bit, HasArray;
    NearestAbove(v, n - lo, width);
  }

  lemma PoolStandsFor(b: Bitmaps)
    requires Sized(b)
    ensures StandsFor(b.pool, POOL_BITS, b, -512)
  {
  }

  /** The pool search reports on arrays -512..511. */
  lemma NextInPoolSearches(b: Bitmaps, a: int, spacing: nat, zeroForOne: bool)
    requires spacing > 0 && Sized(b) && ValidArray(a, TickCount(spacing))
    ensures var span := TickCount(spacing); var n := Next(a, zeroForOne);
            var r := NextInPool(b.pool, a * span, spacing, zeroForOne);
            && r.Some?
            && (if -512 <= n < 512 then Searched(b, n, -512, 512, zeroForOne, r.value, span)
                else r.value == (false, a * span))
  {
    hide ArrayOf, CheckIsValidStartIndex, Shl, Shr, StandsFor, MostSignificantBit, LeastSignificantBit, Quot, Remainder, NoneFrom, HasArray;
    var span := TickCount(spacing);
    var n := Next(a, zeroForOne);
    ValidStartIndices(a * span, spacing);
    ArrayOfStart(a, span);
    BitmapSpan(spacing);
    assert (a - 1) * span == a * span - span && (a + 1) * span == a * span + span;
    MultipleOrder(n, -512, span);
    MultipleOrder(n, 512, span);
    if -512 <= n < 512 {
      QuotOfMultiple(n, span);
      IsStart(n * span, span);
      ArrayOfStart(n, span);
      PoolStandsFor(b);
      if zeroForOne {
        SearchDown(b.pool, POOL_BITS, b, -512, n);
      } else {
        SearchUp(b.pool, POOL_BITS, b, -512, n);
      }
    }
  }

  // ---------------------------------------------------------------------------------------------
  // The extension

  /** The extension bitmap of a start index. */
  function GetBitmap(positive: seq<nat>, negative: seq<nat>, start: int, spacing: nat): Option<nat>
    requires spacing > 0
  {
    var offset :- BitmapOffset(start, spacing);
    if start < 0 then
      if 0 <= offset < |negative| then Some(negative[offset]) else None
    else
      if 0 <= offset < |positive| then Some(positive[offset]) else None
  }

  /** The search in the extension bitmap of the array next to the last one. */
  function NextFromOneBitmap(positive: seq<nat>, negative: seq<nat>, last: int, spacing: nat, zeroForOne: bool): Option<(bool, int)>
    requires spacing > 0
  {
    var next := if zeroForOne then last - TickCount(spacing) else last + TickCount(spacing);
    if next < ArrayStart(MIN_TICK, spacing) || next > ArrayStart(MAX_TICK, spacing) then Some((false, next))
    else
      var bitmap :- GetBitmap(positive, negative, next, spacing);
      NextInBitmap(bitmap, next, spacing, zeroForOne)
  }

  function NextInBitmap(bitmap: nat, next: int, spacing: nat, zeroForOne: bool): Option<(bool, int)>
    requires spacing > 0
  {
    var boundary := BitmapBoundary(next, spacing);
    var offset := OffsetInBitmap(next, spacing);
    if offset < 0 || offset >= EXTENSION_BITS then None
    else if zeroForOne then
      match MostSignificantBit(Shl(bitmap, EXTENSION_BITS - 1 - offset, EXTENSION_BITS), EXTENSION_BITS)
      case Some(distance) => Some((true, next - distance * TickCount(spacing)))
      case None => Some((false, boundary.0))
    else
      match LeastSignificantBit(Shr(bitmap, offset), EXTENSION_BITS)
      case Some(distance) => Some((true, next + distance * TickCount(spacing)))
      case None => Some((false, boundary.1 - TickCount(spacing)))
  }

  lemma ExtensionStandsFor(b: Bitmaps, a: int, spacing: nat)
    requires spacing > 0 && Sized(b) && ValidArray(a, TickCount(spacing)) && !(-512 <= a < 512)
    ensures var bitmap := GetBitmap(b.positive, b.negative, a * TickCount(spacing), spacing);
            bitmap.Some? && StandsFor(bitmap.value, EXTENSION_BITS, b, a / 512 * 512)
  {
    hide ArrayOf, BitmapOffset, OffsetInBitmap, Pow2, Bit;
    ExtensionLocation(a, spacing);
    LocationExists(a, TickCount(spacing));
    var v := GetBitmap(b.positive, b.negative, a * TickCount(spacing), spacing).value;
    forall m | a / 512 * 512 <= m < a / 512 * 512 + 512 ensures HasArray(b, m) <==> Bit(v, m - a / 512 * 512) {
      assert m / 512 == a / 512;
    }
  }

  lemma NextInBitmapSearches(b: Bitmaps, v: nat, n: int, spacing: nat, zeroForOne: bool)
    requires spacing > 0 && StandsFor(v, EXTENSION_BITS, b, n / 512 * 512)
    ensures var span := TickCount(spacing);
            var r := NextInBitmap(v, n * span, spacing, zeroForOne);
            r.Some? && Searched(b, n, n / 512 * 512, n / 512 * 512 + 512, zeroForOne, r.value, span)
  {
    hide Shl, Shr, StandsFor, MostSignificantBit, LeastSignificantBit, NoneFrom, HasArray, BitmapBoundary, OffsetInBitmap;
    var span := TickCount(spacing);
    ExtensionFormulas(n, spacing);
    var lo := n / 512 * 512;
    assert n % 512 == n - lo;
    if zeroForOne {
      SearchDown(v, EXTENSION_BITS, b, lo, n);
      var found := MostSignificantBit(Shl(v, EXTENSION_BITS - (n - lo) - 1, EXTENSION_BITS), EXTENSION_BITS);
      if found.Some? {
        Distance(n, -found.value, span);
      }
    } else {
      SearchUp(v, EXTENSION_BITS, b, lo, n);
      var found := LeastSignificantBit(Shr(v, n - lo), EXTENSION_BITS);
      if found.Some? {
        Distance(n, found.value, span);
      } else {
        Distance(lo + 512, -1, span);
      }
    }
  }

  lemma Distance(n: int, d: int, span: nat)
    ensures n * span + d * span == (n + d) * span && -d * span == -(d * span)
  {
  }

  /** The extension search reports on the 512 arrays of one bitmap. It stops at the ends of the tick
      range; it fails on the arrays of the pool's bitmap, and only there. */
  lemma NextFromOneBitmapSearches(b: Bitmaps, a: int, spacing: nat, zeroForOne: bool)
    requires spacing > 0 && Sized(b)
    ensures var span := TickCount(spacing); var n := Next(a, zeroForOne);
            var r := NextFromOneBitmap(b.positive, b.negative, a * span, spacing, zeroForOne);
            if !ValidArray(n, span) then r == Some((false, n * span))
            else if -512 <= n < 512 then r == None
            else r.Some? && Searched(b, n, n / 512 * 512, n / 512 * 512 + 512, zeroForOne, r.value, span)
  {
    hide ArrayOf, StandsFor, NoneFrom, HasArray, ArrayStart, GetBitmap, NextInBitmap, Searched;
    var span := TickCount(spacing);
    var n := Next(a, zeroForOne);
    Distance(a, if zeroForOne then -1 else 1, span);
    ArrayStartIsFloor(MIN_TICK, spacing);
    ArrayStartIsFloor(MAX_TICK, spacing);
    MultipleOrder(n, MinArray(span), span);
    MultipleOrder(MaxArray(span), n, span);
    if ValidArray(n, span) {
      if -512 <= n < 512 {
        NoBitmapInPool(b, n, spacing);
      } else {
        ExtensionStandsFor(b, n, spacing);
        NextInBitmapSearches(b, GetBitmap(b.positive, b.negative, n * span, spacing).value, n, spacing, zeroForOne);
      }
    }
  }

  lemma NoBitmapInPool(b: Bitmaps, n: int, spacing: nat)
    requires spacing > 0 && -512 <= n < 512
    ensures GetBitmap(b.positive, b.negative, n * TickCount(spacing), spacing) == None
  {
    var span := TickCount(spacing);
    BitmapSpan(spacing);
    MultipleOrder(n, 512, span);
    MultipleOrder(-512, n, span);
  }

  // ---------------------------------------------------------------------------------------------
  // The same searches on words

  method MostSignificantBitOf(words: seq<nat>) returns (r: Option<int>)
    requires Words(words)
    ensures r == MostSignificantBit(Value(words), Width(words))
  {
    var zero := IsZero(words);
    if zero { return None; }
    var n := CountLeadingZeros(words);
    r := Some(n);
  }

  method LeastSignificantBitOf(words: seq<nat>) returns (r: Option<int>)
    requires Words(words)
    ensures r == LeastSignificantBit(Value(words), Width(words))
  {
    var zero := IsZero(words);
    if zero { return None; }
    var n := CountTrailingZeros(words);
    r := Some(n);
  }

  method NextInPoolWords(words: seq<nat>, last: int, spacing: nat, zeroForOne: bool) returns (r: Option<(bool, int)>)
    requires spacing > 0 && Words(words) && Width(words) == POOL_BITS
    ensures r == NextInPool(Value(words), last, spacing, zeroForOne)
  {
    hide Value, Shl, Shr, Quot, Remainder, MostSignificantBit, LeastSignificantBit, CheckIsValidStartIndex;
    if !CheckIsValidStartIndex(last, spacing) { return None; }
    var boundary: int := MaxTickInBitmap(spacing);
    var multiplier := TickCount(spacing);
    var next := if zeroForOne then last - multiplier else last + multiplier;
    if next < -boundary || next >= boundary { return Some((false, last)); }
    var compressed := Quot(next, multiplier) + 512;
    if next < 0 && Remainder(next, multiplier) != 0 {
      compressed := compressed - 1;
    }
    var bitPos := AbsInt(compressed);
    if zeroForOne {
      if bitPos >= POOL_BITS { return None; }
      var offset := ShiftLeft(words, POOL_BITS - bitPos - 1);
      var nextBit := MostSignificantBitOf(offset);
      r := if nextBit.Some? then Some((true, (bitPos - nextBit.value - 512) * multiplier)) else Some((false, -boundary));
    } else {
      var offset := ShiftRight(words, bitPos);
      var nextBit := LeastSignificantBitOf(offset);
      r := if nextBit.Some? then Some((true, (bitPos + nextBit.value - 512) * multiplier)) else Some((false, boundary - multiplier));
    }
  }

  method NextInBitmapWords(words: seq<nat>, next: int, spacing: nat, zeroForOne: bool) returns (r: Option<(bool, int)>)
    requires spacing > 0 && Words(words) && Width(words) == EXTENSION_BITS
    ensures r == NextInBitmap(Value(words), next, spacing, zeroForOne)
  {
    hide Value, Shl, Shr, MostSignificantBit, LeastSignificantBit, BitmapBoundary, OffsetInBitmap;
    var boundary := BitmapBoundary(next, spacing);
    var offset := OffsetInBitmap(next, spacing);
    if offset < 0 || offset >= EXTENSION_BITS { return None; }
    if zeroForOne {
      var shifted := ShiftLeft(words, EXTENSION_BITS - 1 - offset);
      var nextBit := MostSignificantBitOf(shifted);
      r := if nextBit.Some? then Some((true, next - nextBit.value * TickCount(spacing))) else Some((false, boundary.0));
    } else {
      var shifted := ShiftRight(words, offset);
      var nextBit := LeastSignificantBitOf(shifted);
      r := if nextBit.Some? then Some((true, next + nextBit.value * TickCount(spacing)))
           else Some((false, boundary.1 - TickCount(spacing)));
    }
  }
}
