/** The account holding the bitmaps for arrays far from tick zero (tickarray_bitmap_extension.rs). */
module BitmapExtension {
  import opened Wrappers
  import opened Powers
  import opened TickMath
  import opened BigNum
  import opened ArrayIndex
  import opened BitmapSearch

  const EXTENSION_WORDS: nat := 8

  ghost predicate Holds(words: seq<seq<nat>>) {
    |words| == EXTENSION_SIZE && forall i :: 0 <= i < |words| ==> |words[i]| == EXTENSION_WORDS && Words(words[i])
  }

  function Values(words: seq<seq<nat>>): seq<nat> {
    seq(|words|, i requires 0 <= i < |words| => Value(words[i]))
  }

  lemma ValuesFit(words: seq<seq<nat>>)
    requires Holds(words)
    ensures forall i :: 0 <= i < EXTENSION_SIZE ==> Values(words)[i] < Pow2(EXTENSION_BITS)
  {
    forall i | 0 <= i < EXTENSION_SIZE ensures Values(words)[i] < Pow2(EXTENSION_BITS) {
      ValueBound(words[i]);
    }
  }

  class TickArrayBitmapExtension {
    const positive: array<seq<nat>>
    const negative: array<seq<nat>>

    ghost predicate Valid()
      reads positive, negative
    {
      positive != negative && Holds(positive[..]) && Holds(negative[..])
    }

    constructor (positiveWords: seq<seq<nat>>, negativeWords: seq<seq<nat>>)
      requires Holds(positiveWords) && Holds(negativeWords)
      ensures Valid() && fresh(positive) && fresh(negative)
      ensures positive[..] == positiveWords && negative[..] == negativeWords
    {
      positive := new seq<nat>[|positiveWords|](i requires 0 <= i < |positiveWords| => positiveWords[i]);
      negative := new seq<nat>[|negativeWords|](i requires 0 <= i < |negativeWords| => negativeWords[i]);
    }

    /** The bitmaps together with the pool's own. */
    ghost function With(pool: nat): Bitmaps
      reads positive, negative
    {
      Bitmaps(pool, Values(positive[..]), Values(negative[..]))
    }

    lemma IsSized(pool: nat)
      requires Valid() && pool < Pow2(POOL_BITS)
      ensures Sized(With(pool))
    {
      ValuesFit(positive[..]);
      ValuesFit(negative[..]);
    }

    /** Whether an array of the extension is initialised; None on any other start index. */
    method CheckTickArrayIsInitialized(start: int, spacing: nat) returns (r: Option<(bool, int)>)
      requires Valid() && spacing > 0
      ensures var span := TickCount(spacing); var a := ArrayOf(start, span);
              if start == a * span && ValidArray(a, span) && !LocationOf(a).InPool?
              then forall pool :: r == Some((HasArray(With(pool), a), start))
              else r == None
    {
      hide ArrayOf, CheckIsValidStartIndex, CheckExtensionBoundary, Bit, Value;
      ghost var span := TickCount(spacing);
      ghost var a := ArrayOf(start, span);
      ValidStartIndices(start, spacing);
      if start == a * span && ValidArray(a, span) {
        OffsetOrNone(a, spacing);
      }
      var offset := BitmapOffset(start, spacing);
      if offset.None? { return None; }
      var words := if start < 0 then negative[offset.value] else positive[offset.value];
      var initialized := GetBit(words, OffsetInBitmap(start, spacing));
      r := Some((initialized, start));
    }

    /** The search in the bitmap of the array next to the last one. */
    method NextInitializedTickArrayFromOneBitmap(last: int, spacing: nat, zeroForOne: bool) returns (r: Option<(bool, int)>)
      requires Valid() && spacing > 0
      ensures r == NextFromOneBitmap(Values(positive[..]), Values(negative[..]), last, spacing, zeroForOne)
    {
      hide Value, ArrayStart, BitmapOffset, NextInBitmap;
      var next := if zeroForOne then last - TickCount(spacing) else last + TickCount(spacing);
      if next < ArrayStart(MIN_TICK, spacing) || next > ArrayStart(MAX_TICK, spacing) { return Some((false, next)); }
      var offset := BitmapOffset(next, spacing);
      if offset.None? { return None; }
      if offset.value < 0 || offset.value >= EXTENSION_SIZE { return None; }
      var words := if next < 0 then negative[offset.value] else positive[offset.value];
      r := NextInBitmapWords(words, next, spacing, zeroForOne);
    }

    /** Flips the bit of one array, in place. */
    method FlipTickArrayBit(start: int, spacing: nat) returns (ok: bool)
      requires Valid() && spacing > 0
      modifies positive, negative
      ensures Valid()
      ensures var span := TickCount(spacing); var a := ArrayOf(start, span);
              ok <==> start == a * span && ValidArray(a, span) && !LocationOf(a).InPool?
      ensures ok ==> forall pool, m :: var a := ArrayOf(start, TickCount(spacing));
                HasArray(With(pool), m) <==> (if m == a then !old(HasArray(With(pool), a)) else old(HasArray(With(pool), m)))
      ensures !ok ==> positive[..] == old(positive[..]) && negative[..] == old(negative[..])
    {
      hide ArrayOf, CheckIsValidStartIndex, CheckExtensionBoundary, Bit, Value;
      ghost var span := TickCount(spacing);
      ghost var a := ArrayOf(start, span);
      ValidStartIndices(start, spacing);
      if start == a * span && ValidArray(a, span) {
        OffsetOrNone(a, spacing);
      }
      var offset := BitmapOffset(start, spacing);
      if offset.None? { return false; }
      var bit := OffsetInBitmap(start, spacing);
      if start < 0 {
        var flipped := FlipBit(negative[offset.value], bit);
        negative[offset.value] := flipped;
      } else {
        var flipped := FlipBit(positive[offset.value], bit);
        positive[offset.value] := flipped;
      }
      ok := true;
      forall pool, m ensures HasArray(With(pool), m) <==> (if m == a then !old(HasArray(With(pool), a)) else old(HasArray(With(pool), m))) {
        if LocationOf(m) == LocationOf(a) {
          LocationInjective(m, a);
        }
      }
    }
  }

  lemma OffsetOrNone(a: int, spacing: nat)
    requires spacing > 0 && ValidArray(a, TickCount(spacing))
    ensures var start := a * TickCount(spacing); var l := LocationOf(a);
            if l.InPool? then BitmapOffset(start, spacing) == None
            else
              && BitmapOffset(start, spacing) == Some(l.offset) && 0 <= l.offset < EXTENSION_SIZE
              && OffsetInBitmap(start, spacing) == l.bit && 0 <= l.bit < EXTENSION_BITS
              && (start < 0 <==> l.InNegative?)
  {
    hide ArrayOf, OffsetInBitmap, CheckIsValidStartIndex;
    if LocationOf(a).InPool? {
      BitmapSpan(spacing);
      MultipleOrder(a, 512, TickCount(spacing));
      MultipleOrder(-512, a, TickCount(spacing));
    } else {
      ExtensionLocation(a, spacing);
      LocationExists(a, TickCount(spacing));
    }
  }
}
