/** The pool account (pool.rs): its fields, updated in place, and the walk over its bitmaps. */
module PoolStates {
  import opened Wrappers
  import opened FullMath
  import opened LiquidityMath
  import opened Powers
  import opened BigNum
  import opened TickMath
  import opened Model
  import opened RewardRules
  import opened ArrayIndex
  import opened BitmapSearch
  import opened BitmapExtension

  const POOL_WORDS: nat := 16

  /** b is what the pool's bitmap words and, if the account is supplied, the extension's words stand for. */
  ghost predicate Shows(b: Bitmaps, words: seq<nat>, ext: TickArrayBitmapExtension?)
    reads if ext == null then {} else {ext.positive, ext.negative}
  {
    && |words| == POOL_WORDS && Words(words) && b.pool == Value(words) && Sized(b)
    && (ext != null ==> ext.Valid() && b == ext.With(b.pool))
  }

  /** Bits only where the tick range has arrays. */
  ghost predicate OnlyValid(b: Bitmaps, span: nat)
    requires span > 0
  {
    forall a :: HasArray(b, a) ==> ValidArray(a, span)
  }

  /** Every array strictly beyond `from`, up to and including `to`, is uninitialised. */
  ghost predicate Explored(b: Bitmaps, from: int, to: int, zeroForOne: bool) {
    forall m :: Past(m, from, zeroForOne) && !Past(m, to, zeroForOne) ==> !HasArray(b, m)
  }

  lemma FoundIsNearest(b: Bitmaps, from: int, c: int, lo: int, hi: int, zeroForOne: bool, r: (bool, int), span: nat)
    requires span > 0 && Explored(b, from, c, zeroForOne) && !Past(from, c, zeroForOne)
    requires Searched(b, Next(c, zeroForOne), lo, hi, zeroForOne, r, span) && r.0
    ensures r.1 == ArrayOf(r.1, span) * span && IsNearest(b, from, zeroForOne, ArrayOf(r.1, span))
  {
    hide HasArray, ArrayOf;
    var n := Next(c, zeroForOne);
    var m :| lo <= m < hi && r.1 == m * span && HasArray(b, m)
             && (if zeroForOne then m <= n && NoneFrom(b, m + 1, n + 1) else n <= m && NoneFrom(b, n, m));
    ArrayOfStart(m, span);
  }

  lemma NotFoundExplores(b: Bitmaps, from: int, c: int, lo: int, hi: int, zeroForOne: bool, r: (bool, int), span: nat)
    requires Explored(b, from, c, zeroForOne) && !Past(from, c, zeroForOne) && lo <= Next(c, zeroForOne) < hi
    requires Searched(b, Next(c, zeroForOne), lo, hi, zeroForOne, r, span) && !r.0
    ensures var c' := if zeroForOne then lo else hi - 1;
            r.1 == c' * span && Explored(b, from, c', zeroForOne) && Past(c', c, zeroForOne)
  {
    hide HasArray;
  }

  lemma NothingFurther(b: Bitmaps, from: int, c: int, zeroForOne: bool, span: nat)
    requires span > 0 && OnlyValid(b, span) && Explored(b, from, c, zeroForOne)
    requires if zeroForOne then c * span < MIN_TICK || Next(c, true) < MinArray(span)
             else c * span > MAX_TICK || Next(c, false) > MaxArray(span)
    ensures NonePast(b, from, zeroForOne)
  {
    hide HasArray, ArrayOf;
    ArrayBounds(MIN_TICK, span);
    ArrayBounds(MAX_TICK, span);
    forall m | Past(m, from, zeroForOne) ensures !HasArray(b, m) {
      if Past(m, c, zeroForOne) {
        if zeroForOne {
          MultipleOrder(m + 1, c, span);
          MultipleOrder(MinArray(span), m, span);
          assert (m + 1) * span == m * span + span;
        } else {
          MultipleOrder(c, m, span);
          MultipleOrder(m, MaxArray(span), span);
        }
      }
    }
  }

  lemma EndsBeyondRange(n: int, span: nat)
    requires span > 0 && !ValidArray(n, span)
    ensures n < MinArray(span) ==> n * span < MIN_TICK
    ensures n > MaxArray(span) ==> n * span > MAX_TICK
  {
    hide ArrayOf;
    ArrayBounds(MIN_TICK, span);
    ArrayBounds(MAX_TICK, span);
    MultipleOrder(n, MinArray(span) - 1, span);
    MultipleOrder(MaxArray(span) + 1, n, span);
    assert (MinArray(span) - 1) * span == MinArray(span) * span - span;
    assert (MaxArray(span) + 1) * span == MaxArray(span) * span + span;
  }

  lemma OutsideAhead(n: int, d: int, zeroForOne: bool, span: nat)
    requires span > 0 && ValidArray(n, span) && (if zeroForOne then d <= n else d >= n > MinArray(span))
    requires d * span < MIN_TICK || d * span > MAX_TICK
    ensures if zeroForOne then d * span < MIN_TICK else d * span > MAX_TICK
  {
    hide ArrayOf;
    ArrayBounds(MIN_TICK, span);
    ArrayBounds(MAX_TICK, span);
    MultipleOrder(d, MaxArray(span), span);
    MultipleOrder(MinArray(span) + 1, d, span);
    assert (MinArray(span) + 1) * span == MinArray(span) * span + span;
  }

  lemma StartsWithinRange(c: int, span: nat)
    requires span > 0 && MIN_TICK <= c * span <= MAX_TICK
    ensures ValidArray(c, span)
  {
    hide ArrayOf;
    ArrayOfStart(c, span);
    ArrayMonotone(MIN_TICK, c * span, span);
    ArrayMonotone(c * span, MAX_TICK, span);
  }

  /** Whether the tick's own array is marked in the pool's bitmap, and its start index. */
  function CheckCurrentTickArrayIsInitialized(bitMap: nat, tick: int, spacing: nat): Option<(bool, int)>
    requires spacing > 0
  {
    if OutOfBoundary(tick) then None
    else
      var multiplier := spacing * TICK_ARRAY_SIZE;
      var quotient := Quot(tick, multiplier) + 512;
      var compressed := if tick < 0 && Remainder(tick, multiplier) != 0 then quotient - 1 else quotient;
      Some((Bit(bitMap, AbsInt(compressed)), (compressed - 512) * multiplier))
  }

  lemma CurrentTickArray(b: Bitmaps, tick: int, spacing: nat)
    requires spacing > 0 && !OutOfBoundary(tick) && -512 <= ArrayOf(tick, TickCount(spacing)) < 512
    ensures var a := ArrayOf(tick, TickCount(spacing));
            CheckCurrentTickArrayIsInitialized(b.pool, tick, spacing) == Some((HasArray(b, a), a * TickCount(spacing)))
  {
    hide ArrayOf, Bit, Quot, Remainder;
    var span := TickCount(spacing);
    var a := ArrayOf(tick, span);
    var q := Quot(tick, span);
    var d := if tick < 0 && Remainder(tick, span) != 0 then q - 1 else q;
    assert d * span == a * span by {
      ArrayStartIsFloor(tick, spacing);
    }
    MultipleOrder(d, a, span);
  }

  class PoolState {
    const spacing: nat
    const openTime: nat
    var status: Status
    var liquidity: nat
    var sqrtPrice: nat
    var tickCurrent: int
    var feeGrowth: PerToken
    var totalFees: PerToken
    var totalFeesClaimed: PerToken
    var protocolFees: PerToken
    var fundFees: PerToken
    var rewardInfos: Rewards
    var tickArrayBitmap: seq<nat>

    /** The account's fields apart from the bitmap. */
    function Fields(): Pool
      reads this
    {
      Pool(spacing, openTime, status, liquidity, sqrtPrice, tickCurrent, feeGrowth, totalFees, totalFeesClaimed,
           protocolFees, fundFees, rewardInfos)
    }

    constructor (p: Pool, bitmap: seq<nat>)
      ensures Fields() == p && tickArrayBitmap == bitmap
    {
      spacing, openTime, status := p.spacing, p.openTime, p.status;
      liquidity, sqrtPrice, tickCurrent := p.liquidity, p.sqrtPrice, p.tick;
      feeGrowth, totalFees, totalFeesClaimed := p.feeGrowth, p.totalFees, p.claimedFees;
      protocolFees, fundFees := p.protocolFees, p.fundFees;
      rewardInfos := p.rewards;
      tickArrayBitmap := bitmap;
    }

    /** Brings all reward accumulators up to now. */
    method UpdateRewardInfos(now: nat) returns (ok: bool)
      modifies `rewardInfos
      ensures ok <==> AccrueRewards(old(Fields()), now).Some?
      ensures Fields() == if ok then AccrueRewards(old(Fields()), now).value else old(Fields())
      ensures ok ==> forall j :: 0 <= j < REWARDS ==> Accrues(old(rewardInfos[j]), rewardInfos[j], liquidity, now)
    {
      hide AccrueReward, Accrues;
      var next := new Reward[3](i requires 0 <= i < 3 reads this => rewardInfos[i]);
      for i := 0 to 3
        invariant Fields() == old(Fields())
        invariant forall k :: 0 <= k < i ==> AccrueReward(rewardInfos[k], liquidity, now) == Some(next[k])
        invariant forall k :: 0 <= k < i ==> Accrues(rewardInfos[k], next[k], liquidity, now)
        invariant forall k :: i <= k < 3 ==> next[k] == rewardInfos[k]
      {
        var updated := AccrueOne(next[i], now);
        assert i == 0 || i == 1 || i == 2;
        if updated.None? { return false; }
        next[i] := updated.value;
      }
      rewardInfos := next[..];
      ok := true;
    }

    /** One reward accumulator, statement by statement. */
    method AccrueOne(before: Reward, now: nat) returns (r: Option<Reward>)
      ensures r == AccrueReward(before, liquidity, now)
      ensures r.Some? ==> Accrues(before, r.value, liquidity, now)
    {
      var info := before;
      if !info.initialized { return Some(info); }
      if now <= info.openTime { return Some(info); }
      var latest := Min(now, info.endTime);
      if liquidity != 0 {
        if latest < info.lastUpdate { return None; }
        var elapsed := latest - info.lastUpdate;
        var growthDelta := MulDivFloor(elapsed, info.emissions, liquidity, U256_MAX, U128_MAX);
        if growthDelta.None? || info.growth + growthDelta.value > U128_MAX { return None; }
        info := info.(growth := info.growth + growthDelta.value);
        var emitted := MulDivCeil128(elapsed, info.emissions, Q64);
        if emitted.None? || emitted.value > U64_MAX || info.emissioned + emitted.value > U64_MAX { return None; }
        info := info.(emissioned := info.emissioned + emitted.value);
      }
      info := info.(lastUpdate := latest);
      r := Some(info);
    }

    /** Flips the bit of an array, in the pool's bitmap or in the extension's. */
    method FlipTickArrayBit(ext: TickArrayBitmapExtension?, start: int, ghost b: Bitmaps) returns (ok: bool, ghost b': Bitmaps)
      requires spacing > 0 && Shows(b, tickArrayBitmap, ext)
      requires var span := TickCount(spacing); start == ArrayOf(start, span) * span && ValidArray(ArrayOf(start, span), span)
      modifies `tickArrayBitmap
      modifies if ext == null then {} else {ext.positive, ext.negative}
      ensures Shows(b', tickArrayBitmap, ext)
      ensures var a := ArrayOf(start, TickCount(spacing));
              && (ok ==> forall m :: HasArray(b', m) <==> (if m == a then !HasArray(b, a) else HasArray(b, m)))
              && (!ok ==> ext == null && !LocationOf(a).InPool?)
      ensures ok && ext == null ==> b'.positive == b.positive && b'.negative == b.negative
    {
      hide ArrayOf, ArrayStart, Bit, Value, Pow2, Quot;
      ghost var span := TickCount(spacing);
      ghost var a := ArrayOf(start, span);
      ArrayOfStart(a, span);
      OverflowIsOutsidePool(start, spacing);
      if IsOverflow(start, spacing) {
        b' := b;
        if ext == null { return false, b; }
        ok := ext.FlipTickArrayBit(start, spacing);
        ext.IsSized(b.pool);
        b' := ext.With(b.pool);
      } else {
        PoolBitIs(a, spacing);
        tickArrayBitmap := FlipBit(tickArrayBitmap, PoolBit(start, spacing));
        ValueBound(tickArrayBitmap);
        b' := b.(pool := Value(tickArrayBitmap));
        ok := true;
        forall m ensures HasArray(b', m) <==> (if m == a then !HasArray(b, a) else HasArray(b, m)) {
          if LocationOf(m) == LocationOf(a) {
            LocationInjective(m, a);
          }
        }
      }
    }

    /** The nearest initialised array strictly beyond the given one, across all bitmaps; None inside if
        there is none. The walk fails only when it needs an extension that is not supplied. */
    method NextInitializedTickArrayStartIndex(ext: TickArrayBitmapExtension?, last: int, zeroForOne: bool, ghost b: Bitmaps)
      returns (r: Option<Option<int>>)
      requires spacing > 0 && Shows(b, tickArrayBitmap, ext) && OnlyValid(b, TickCount(spacing))
      requires ValidArray(ArrayOf(last, TickCount(spacing)), TickCount(spacing))
      ensures r.None? ==> ext == null
      ensures var span := TickCount(spacing); var a := ArrayOf(last, span);
              match r
              case Some(Some(start)) => start == ArrayOf(start, span) * span && IsNearest(b, a, zeroForOne, ArrayOf(start, span))
              case Some(None) => NonePast(b, a, zeroForOne)
              case None => true
    {
      hide ArrayOf, ArrayStart, Value, HasArray, NextInPool, NextFromOneBitmap, Searched, Explored, OnlyValid, IsNearest, NonePast, Sized;
      ghost var span := TickCount(spacing);
      ghost var a := ArrayOf(last, span);
      var at := ArrayStart(last, spacing);
      ghost var c := a;
      ArrayStartIsFloor(last, spacing);
      assert Explored(b, a, c, zeroForOne) by { ExploredNothing(b, a, zeroForOne); }
      while true
        invariant at == c * span && ValidArray(c, span) && Explored(b, a, c, zeroForOne) && !Past(a, c, zeroForOne)
        decreases if zeroForOne then c - MinArray(span) else MaxArray(span) - c
      {
        var step := NextInPoolWords(tickArrayBitmap, at, spacing, zeroForOne);
        NextInPoolSearches(b, c, spacing, zeroForOne);
        if step.value.0 {
          FoundIsNearest(b, a, c, -512, 512, zeroForOne, step.value, span);
          return Some(Some(step.value.1));
        }
        at := step.value.1;
        ghost var d := c;
        if -512 <= Next(c, zeroForOne) < 512 {
          NotFoundExplores(b, a, c, -512, 512, zeroForOne, step.value, span);
          d := if zeroForOne then -512 else 511;
        }
        if ext == null { return None; }
        step := ext.NextInitializedTickArrayFromOneBitmap(at, spacing, zeroForOne);
        NextFromOneBitmapSearches(b, d, spacing, zeroForOne);
        ghost var n := Next(d, zeroForOne);
        if step.value.0 {
          FoundIsNearest(b, a, d, n / 512 * 512, n / 512 * 512 + 512, zeroForOne, step.value, span);
          return Some(Some(step.value.1));
        }
        at := step.value.1;
        if ValidArray(n, span) {
          NotFoundExplores(b, a, d, n / 512 * 512, n / 512 * 512 + 512, zeroForOne, step.value, span);
          d := if zeroForOne then n / 512 * 512 else n / 512 * 512 + 511;
        } else {
          EndsBeyondRange(n, span);
        }
        if at < MIN_TICK || at > MAX_TICK {
          if ValidArray(n, span) {
            OutsideAhead(n, d, zeroForOne, span);
          }
          NothingFurther(b, a, d, zeroForOne, span);
          return Some(None);
        }
        StartsWithinRange(d, span);
        c := d;
      }
    }

    /** Whether the current tick's own array is initialised, and its start index. */
    method OwnTickArray(ext: TickArrayBitmapExtension?, ghost b: Bitmaps) returns (r: Option<(bool, int)>)
      requires spacing > 0 && Shows(b, tickArrayBitmap, ext)
      requires MIN_TICK <= tickCurrent <= MAX_TICK
      ensures r.None? ==> ext == null
      ensures var span := TickCount(spacing); var a := ArrayOf(tickCurrent, span);
              r.Some? ==> r.value == (HasArray(b, a), a * span)
    {
      hide ArrayOf, ArrayStart, Value, HasArray, Sized, CheckCurrentTickArrayIsInitialized, IsOverflow;
      ghost var span := TickCount(spacing);
      ghost var a := ArrayOf(tickCurrent, span);
      ArrayMonotone(MIN_TICK, tickCurrent, span);
      ArrayMonotone(tickCurrent, MAX_TICK, span);
      OverflowIsOutsidePool(tickCurrent, spacing);
      if IsOverflow(tickCurrent, spacing) {
        if ext == null { return None; }
        ArrayStartIsFloor(tickCurrent, spacing);
        ArrayOfStart(a, span);
        r := ext.CheckTickArrayIsInitialized(ArrayStart(tickCurrent, spacing), spacing);
        assert r == Some((HasArray(ext.With(b.pool), a), a * span));
      } else {
        CurrentTickArray(b, tickCurrent, spacing);
        r := CheckCurrentTickArrayIsInitialized(Value(tickArrayBitmap), tickCurrent, spacing);
      }
    }

    /** The array a swap starts in: the current tick's own if it is initialised, otherwise the nearest
        one in the direction of the swap. */
    method GetFirstInitializedTickArray(ext: TickArrayBitmapExtension?, zeroForOne: bool, ghost b: Bitmaps) returns (r: Option<(bool, int)>)
      requires spacing > 0 && Shows(b, tickArrayBitmap, ext) && OnlyValid(b, TickCount(spacing))
      requires MIN_TICK <= tickCurrent <= MAX_TICK
      ensures var span := TickCount(spacing); var a := ArrayOf(tickCurrent, span);
              match r
              case Some((true, start)) => start == a * span && HasArray(b, a)
              case Some((false, start)) =>
                !HasArray(b, a) && start == ArrayOf(start, span) * span && IsNearest(b, a, zeroForOne, ArrayOf(start, span))
              case None => ext == null || (!HasArray(b, a) && NonePast(b, a, zeroForOne))
    {
      hide ArrayOf, ArrayStart, Value, HasArray, OnlyValid, IsNearest, NonePast, Sized, Shows;
      ghost var span := TickCount(spacing);
      ghost var a := ArrayOf(tickCurrent, span);
      ArrayMonotone(MIN_TICK, tickCurrent, span);
      ArrayMonotone(tickCurrent, MAX_TICK, span);
      ArrayStartIsFloor(tickCurrent, spacing);
      ArrayOfStart(a, span);
      var own := OwnTickArray(ext, b);
      if own.None? { return None; }
      if own.value.0 { return own; }
      var next := NextInitializedTickArrayStartIndex(ext, ArrayStart(tickCurrent, spacing), zeroForOne, b);
      if next.None? || next.value.None? { return None; }
      r := Some((false, next.value.value));
    }
  }

  lemma ExploredNothing(b: Bitmaps, a: int, zeroForOne: bool)
    ensures Explored(b, a, a, zeroForOne)
  {
  }
}
