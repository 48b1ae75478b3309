/** The off-chain quote (client/src/instructions/utils.rs): a loop like the swap's on a snapshot of the
    accounts, without fees to account for. Whatever it returns after stopping at zero or at the limit is
    what the swap then computes. */
module Quotes {
  import opened Wrappers
  import opened FullMath
  import opened LiquidityMath
  import opened TickMath
  import TickPrices
  import opened SwapMath
  import opened SwapStepProofs
  import opened Model
  import opened Ticks
  import opened Machine
  import opened Runs
  import opened Invariants
  import opened SwapInvariant
  import opened SwapRuns
  import opened ArrayIndex
  import opened BitmapSearch
  import opened BitmapExtension
  import opened TickArrays
  import opened PoolStates
  import opened TickIndex
  import opened SwapSearch
  import opened SwapProgram
  import opened LiquidityChanges
  import RewardRules

  const MAX_LOOPS: nat := 10

  datatype QuoteState = QuoteState(remaining: nat, calculated: nat, sqrtPrice: nat, tick: int, liquidity: nat)

  /** The quote stopped because the amount is used up or the price limit is reached. */
  predicate Stopped(q: QuoteState, x: SwapArgs) {
    q.remaining == 0 || q.sqrtPrice == x.limit
  }

  /** The reference state agrees with the quote on everything the quote knows, and with the snapshot on
      which ticks there are and what crossing them adds. */
  ghost predicate Follows(w: Machine.SwapState, q: QuoteState, ticks: map<int, Tick>, feeRate: nat) {
    && w.remaining == q.remaining && w.calculated == q.calculated
    && w.state.pool.sqrtPrice == q.sqrtPrice && w.state.pool.tick == q.tick && w.state.pool.liquidity == q.liquidity
    && w.state.config.tradeFeeRate == feeRate
    && w.state.ticks.Keys == ticks.Keys && forall t :: t in ticks ==> w.state.ticks[t].net == ticks[t].net
  }

  /** One step of the quote from the next tick on; None where the program panics. */
  function QuoteStep(q: QuoteState, x: SwapArgs, feeRate: nat, n: int, net: int): Option<QuoteState>
    requires feeRate < FEE_DENOMINATOR && MIN_TICK <= n <= MAX_TICK
  {
    var priceNext := SqrtPriceAtTick(n);
    var step :- ComputeStep(q.sqrtPrice, Target(priceNext, x), q.liquidity, q.remaining, feeRate, x.baseInput, x.zeroForOne);
    var paid := step.amountIn + step.feeAmount;
    var used := if x.baseInput then paid else step.amountOut;
    var gained := if x.baseInput then step.amountOut else paid;
    if used > q.remaining || q.calculated + gained > U64_MAX then None
    else
      var q' := q.(remaining := q.remaining - used, calculated := q.calculated + gained, sqrtPrice := step.sqrtPriceNext);
      if step.sqrtPriceNext == priceNext then
        var liquidity :- AddDelta(q.liquidity, if x.zeroForOne then -net else net);
        Some(q'.(liquidity := liquidity, tick := if x.zeroForOne then n - 1 else n))
      else if step.sqrtPriceNext == q.sqrtPrice then Some(q')
      else if step.sqrtPriceNext < MIN_SQRT_PRICE || step.sqrtPriceNext >= MAX_SQRT_PRICE then None
      else Some(q'.(tick := TickAtSqrtPrice(step.sqrtPriceNext)))
  }

  /** The same step, statement by statement. */
  method TakeQuoteStep(q: QuoteState, x: SwapArgs, feeRate: nat, slot: Slot) returns (r: Option<QuoteState>)
    requires feeRate < FEE_DENOMINATOR && q.remaining <= U64_MAX
    ensures MIN_TICK <= slot.tick <= MAX_TICK && slot.Initialized() ==> r == QuoteStep(q, x, feeRate, slot.tick, slot.state.net)
    ensures r.Some? ==> r.value.remaining <= q.remaining
  {
    hide SqrtPriceAtTick, ComputeStep, Target;
    var state := q;
    var tickNext := slot.tick;
    if tickNext < MIN_TICK {
      tickNext := MIN_TICK;
    } else if tickNext > MAX_TICK {
      tickNext := MAX_TICK;
    }
    var price := TickPrices.GetSqrtPriceAtTick(tickNext);
    var priceNext := price.value;
    var target := if (x.zeroForOne && priceNext < x.limit) || (!x.zeroForOne && priceNext > x.limit) then x.limit else priceNext;
    TargetIs(priceNext, x);
    var computed := ComputeSwapStep(state.sqrtPrice, target, state.liquidity, state.remaining, feeRate, x.baseInput, x.zeroForOne);
    if computed.None? { return None; }
    var step := computed.value;
    state := state.(sqrtPrice := step.sqrtPriceNext);
    if x.baseInput {
      if step.amountIn + step.feeAmount > state.remaining { return None; }
      if state.calculated + step.amountOut > U64_MAX { return None; }
      state := state.(remaining := state.remaining - (step.amountIn + step.feeAmount), calculated := state.calculated + step.amountOut);
    } else {
      if step.amountOut > state.remaining { return None; }
      if state.calculated + (step.amountIn + step.feeAmount) > U64_MAX { return None; }
      state := state.(remaining := state.remaining - step.amountOut, calculated := state.calculated + (step.amountIn + step.feeAmount));
    }
    if state.sqrtPrice == priceNext {
      if slot.Initialized() {
        var liquidity := AddDelta(state.liquidity, if x.zeroForOne then -slot.state.net else slot.state.net);
        if liquidity.None? { return None; }
        state := state.(liquidity := liquidity.value);
      }
      state := state.(tick := if x.zeroForOne then tickNext - 1 else tickNext);
    } else if state.sqrtPrice != q.sqrtPrice {
      var tick := TickPrices.GetTickAtSqrtPrice(state.sqrtPrice);
      if tick.None? { return None; }
      state := state.(tick := tick.value);
    }
    r := Some(state);
  }

  /** If both succeed, the reference's step follows the quote's. */
  lemma StepFollows(w: Machine.SwapState, q: QuoteState, x: SwapArgs, n: int, ticks: map<int, Tick>, feeRate: nat)
    requires MIN_TICK <= n <= MAX_TICK && ValidConfig(w.state.config) && |w.state.vault| == 2 && n in ticks
    requires Follows(w, q, ticks, feeRate) && SwapStepTo(w, x, n).Some?
    ensures feeRate < FEE_DENOMINATOR
    ensures QuoteStep(q, x, feeRate, n, ticks[n].net).Some?
    ensures Follows(SwapStepTo(w, x, n).value, QuoteStep(q, x, feeRate, n, ticks[n].net).value, ticks, feeRate)
  {
    hide SqrtPriceAtTick, ComputeStep, Target, CreditFee, TickCross;
    var s := w.state;
    var step := ComputeStep(s.pool.sqrtPrice, Target(SqrtPriceAtTick(n), x), s.pool.liquidity, w.remaining,
                            s.config.tradeFeeRate, x.baseInput, x.zeroForOne).value;
    CreditKeepsPriceAndTick(s.pool, s.config, TokenIn(x.zeroForOne), step.feeAmount);
    var credited := CreditFee(s.pool, s.config, TokenIn(x.zeroForOne), step.feeAmount).value;
    if step.sqrtPriceNext == SqrtPriceAtTick(n) {
      CrossKeepsLiquidity(s.ticks[n], Growths(credited), credited);
    }
  }

  /** The arrays fetched are those of the snapshot, no array twice. */
  ghost predicate Fetched(tickArrays: seq<TickArray>, arrays: map<int, TickArray>) {
    && (forall i :: 0 <= i < |tickArrays| ==> tickArrays[i].start in arrays && arrays[tickArrays[i].start] == tickArrays[i])
    && (forall i, j :: 0 <= i < j < |tickArrays| ==> tickArrays[i].start != tickArrays[j].start)
  }

  /** Array a is neither the one at hand nor the one the quote would turn to: the first of those not yet
      used, if that is the nearest marked array beyond the very first one. */
  ghost predicate OutOfSight(bits: Bitmaps, c: int, first: int, a: int, rest: seq<TickArray>, zeroForOne: bool, span: nat) {
    a != c && !(rest != [] && rest[0].start == a * span && IsNearest(bits, first, zeroForOne, a))
  }

  /** The quote's search for the next tick. Beyond the array at hand it always looks from the first array
      on, whichever array is at hand: the variable meant to remember the last one is shadowed. */
  method QuoteSearch(pool: PoolState, ext: TickArrayBitmapExtension, current: TickArrayState, matched: bool, rest: seq<TickArray>,
                     first: int, tick: int, zeroForOne: bool, ghost arrays: map<int, TickArray>, ghost ticks: map<int, Tick>, ghost bits: Bitmaps)
    returns (r: Option<Slot>, current': TickArrayState, matched': bool, hop: bool)
    requires pool.spacing > 0 && Shows(bits, pool.tickArrayBitmap, ext) && IndexInv(ticks, Index(arrays, bits), pool.spacing)
    requires AtHand(current, arrays) && Fetched(rest, arrays)
    requires first == ArrayOf(first, TickCount(pool.spacing)) * TickCount(pool.spacing) && ValidArray(ArrayOf(first, TickCount(pool.spacing)), TickCount(pool.spacing))
    ensures current' == current || (fresh(current') && fresh(current'.ticks))
    ensures r.Some? ==>
              var span := TickCount(pool.spacing); var c := ArrayOf(current'.startTickIndex, span);
              && AtHand(current', arrays) && (matched || hop ==> matched')
              && (!hop ==> current' == current)
              && (hop ==> rest != [] && current'.startTickIndex == rest[0].start && IsNearest(bits, ArrayOf(first, span), zeroForOne, c))
              && (Positioned(bits, ArrayOf(current.startTickIndex, span), tick, matched, zeroForOne, span)
                  && (hop ==> current.startTickIndex == first) ==>
                    && IsNextTick(ticks.Keys, tick, zeroForOne, r.value.tick) && r.value == Slot(r.value.tick, ticks[r.value.tick])
                    && HasArray(bits, c) && ArrayOf(r.value.tick, span) == c && matched')
    ensures r.None? ==>
              var span := TickCount(pool.spacing); var c := ArrayOf(current.startTickIndex, span);
              Positioned(bits, c, tick, matched, zeroForOne, span) ==>
                forall n :: IsNextTick(ticks.Keys, tick, zeroForOne, n) ==> OutOfSight(bits, c, ArrayOf(first, span), ArrayOf(n, span), rest, zeroForOne, span)
  {
    hide ArrayOf, ArrayStart, HasArray, Shows, Represents, BitsRight, CountsRight, Placed, OnlyValid, SlotIndex, Positioned, IsNearest, IsNextTick;
    ghost var x := Index(arrays, bits);
    ghost var span := TickCount(pool.spacing);
    ghost var c := ArrayOf(current.startTickIndex, span);
    ghost var positioned := Positioned(bits, c, tick, matched, zeroForOne, span);
    current', matched', hop := current, matched, false;
    StartOfMarked(ticks, x, pool.spacing, current.startTickIndex);
    ghost var at;
    r, at := current.NextInitializedTick(tick, pool.spacing, zeroForOne);
    if r.Some? {
      if positioned {
        FoundInOwn(ticks, x, pool.spacing, c, tick, at, matched, zeroForOne);
      }
      return;
    }
    if !matched {
      matched' := true;
      r, at := current.FirstInitializedTick(zeroForOne);
      if positioned && r.Some? {
        PositionedMark(bits, c, tick, matched, zeroForOne, span);
        UnmarkedBefore(ticks, x, pool.spacing, tick, c, zeroForOne);
        NearestInNextArray(ticks, x, pool.spacing, c, tick, at, zeroForOne);
      }
      if positioned {
        PositionedMark(bits, c, tick, matched, zeroForOne, span);
        MarkedArray(ticks, x, pool.spacing, c);
        assert r.Some?;
      }
      return;
    }
    if positioned {
      NoneInArray(ticks, x, pool.spacing, c, tick, zeroForOne);
      NextIsElsewhere(ticks, tick, c, zeroForOne, span);
    }
    MarksAreValid(ticks, x, pool.spacing);
    var next := pool.NextInitializedTickArrayStartIndex(ext, first, zeroForOne, bits);
    OnlyTheNearest(bits, ArrayOf(first, span), zeroForOne, next.value, span);
    if rest == [] { return; }
    if next.value.None? { return; }
    if rest[0].start != next.value.value { return; }
    ghost var n := ArrayOf(next.value.value, span);
    PlacedAt(ticks, x, pool.spacing, rest[0].start);
    current' := LoadArray(rest[0], pool.spacing);
    hop := true;
    r, at := current'.FirstInitializedTick(zeroForOne);
    NearestMark(bits, ArrayOf(first, span), n, zeroForOne);
    MarkedArray(ticks, x, pool.spacing, n);
    assert r.Some?;
    if positioned && current.startTickIndex == first && r.Some? {
      NearestMark(bits, c, n, zeroForOne);
      NoneBetweenArrays(ticks, x, pool.spacing, c, n, tick, zeroForOne);
      NearestInNextArray(ticks, x, pool.spacing, n, tick, at, zeroForOne);
    }
  }

  lemma NextIsElsewhere(ticks: map<int, Tick>, tick: int, c: int, zeroForOne: bool, span: nat)
    requires span > 0 && NoneIn(ticks, tick, c, zeroForOne, span)
    ensures forall n :: IsNextTick(ticks.Keys, tick, zeroForOne, n) ==> ArrayOf(n, span) != c
  {
    hide ArrayOf;
  }

  /** What the search for the next array says about every array. */
  lemma OnlyTheNearest(bits: Bitmaps, c: int, zeroForOne: bool, next: Option<int>, span: nat)
    requires span > 0
    requires match next
             case Some(start) => start == ArrayOf(start, span) * span && IsNearest(bits, c, zeroForOne, ArrayOf(start, span))
             case None => NonePast(bits, c, zeroForOne)
    ensures forall a :: IsNearest(bits, c, zeroForOne, a) ==> next.Some? && next.value == a * span
  {
    hide HasArray, ArrayOf;
    forall a | IsNearest(bits, c, zeroForOne, a) ensures next.Some? && next.value == a * span {
      if next.Some? {
        NearestUnique(bits, c, zeroForOne, a, ArrayOf(next.value, span));
      }
    }
  }

  lemma PositionedMark(bits: Bitmaps, c: int, tick: int, matched: bool, zeroForOne: bool, span: nat)
    requires span > 0 && Positioned(bits, c, tick, matched, zeroForOne, span)
    ensures HasArray(bits, c)
  {
  }

  lemma NearestMark(bits: Bitmaps, c: int, n: int, zeroForOne: bool)
    requires IsNearest(bits, c, zeroForOne, n)
    ensures HasArray(bits, n)
  {
  }

  /** A slot found in the array at hand is in the current tick's own array. */
  lemma FoundInOwn(ticks: map<int, Tick>, x: Index, spacing: nat, c: int, tick: int, at: int, matched: bool, zeroForOne: bool)
    requires spacing > 0 && IndexInv(ticks, x, spacing) && 0 <= at < TICK_ARRAY_SIZE
    requires var span := TickCount(spacing); var start := c * span;
             && Positioned(x.bits, c, tick, matched, zeroForOne, span) && ArrayStart(tick, spacing) == start
             && start in x.arrays && x.arrays[start].slots[at].Initialized() && Beyond(start + at * spacing, tick, zeroForOne)
             && forall j :: 0 <= j < TICK_ARRAY_SIZE && x.arrays[start].slots[j].Initialized() && Beyond(start + j * spacing, tick, zeroForOne)
                  ==> if zeroForOne then j <= at else at <= j
    ensures var start := c * TickCount(spacing); var n := start + at * spacing;
            && IsNextTick(ticks.Keys, tick, zeroForOne, n) && x.arrays[start].slots[at] == Slot(n, ticks[n])
            && HasArray(x.bits, c) && ArrayOf(n, TickCount(spacing)) == c && matched
  {
    hide ArrayOf, ArrayStart, HasArray, IndexInv;
    ArrayStartIsFloor(tick, spacing);
    MultipleOrder(ArrayOf(tick, TickCount(spacing)), c, TickCount(spacing));
    NearestInOwnArray(ticks, x, spacing, c, tick, at, zeroForOne);
  }

  lemma NearestUnique(bits: Bitmaps, c: int, zeroForOne: bool, m: int, n: int)
    requires IsNearest(bits, c, zeroForOne, m) && IsNearest(bits, c, zeroForOne, n)
    ensures m == n
  {
    hide HasArray;
  }

  lemma FinishedLoop(w: Machine.SwapState, x: SwapArgs)
    requires Finished(w, x)
    ensures SwapLoop(w, x) == Some(w)
  {
  }

  lemma TickHasLiquidity(s: State, n: int)
    requires Inv(s) && n in s.ticks
    ensures s.ticks[n].gross != 0
  {
  }

  /** What ties the quote to the swap, as long as the swap has an outcome. */
  ghost predicate Tied(outcome: bool, start: Machine.SwapState, w: Machine.SwapState, q: QuoteState, x: SwapArgs,
                       ticks: map<int, Tick>, feeRate: nat) {
    outcome ==> OnTrack(start, w, x) && SwapLoop(start, x).Some? && Follows(w, q, ticks, feeRate)
  }

  /** One round of the quote on a swap that has an outcome. */
  lemma RoundTied(start: Machine.SwapState, w: Machine.SwapState, q: QuoteState, x: SwapArgs, ticks: map<int, Tick>, feeRate: nat, n: int)
    requires Tied(true, start, w, q, x, ticks, feeRate) && !Stopped(q, x) && IsNextTick(ticks.Keys, q.tick, x.zeroForOne, n)
    ensures n in ticks && MIN_TICK <= n <= MAX_TICK && feeRate < FEE_DENOMINATOR && |w.state.vault| == 2 && ValidConfig(w.state.config)
    ensures SwapStepTo(w, x, n).Some?
    ensures var next := QuoteStep(q, x, feeRate, n, ticks[n].net);
            && next.Some? && Tied(true, start, SwapStepTo(w, x, n).value, next.value, x, ticks, feeRate)
            && (Stopped(next.value, x) || next.value.tick == (if x.zeroForOne then n - 1 else n))
  {
    hide Inv, SwapLoop, SwapStepTo, LimitAhead, IsNextTick, Facing, Ahead, QuoteStep;
    NextTickFaces(w, x, n);
    StepUnfolds(w, x, n);
    StepFollows(w, q, x, n, ticks, feeRate);
  }

  /** The array is the first one handed over, or the second one, and then the nearest marked beyond the first. */
  ghost predicate InSight(bits: Bitmaps, first: int, a: int, tickArrays: seq<TickArray>, zeroForOne: bool, span: nat) {
    a == first || (|tickArrays| > 1 && tickArrays[1].start == a * span && IsNearest(bits, first, zeroForOne, a))
  }

  lemma Seen(bits: Bitmaps, first: int, a: int, tickArrays: seq<TickArray>, zeroForOne: bool, span: nat)
    ensures a == first ==> InSight(bits, first, a, tickArrays, zeroForOne, span)
    ensures |tickArrays| > 1 && tickArrays[1].start == a * span && IsNearest(bits, first, zeroForOne, a) ==>
              InSight(bits, first, a, tickArrays, zeroForOne, span)
  {
  }

  /** Exactly when the quote can follow the swap to its end: it takes no more than the given number of
      rounds, every next tick lies in one of two arrays, and no round starts from the lowest tick. */
  ghost predicate Quotable(w: Machine.SwapState, x: SwapArgs, bits: Bitmaps, first: int, tickArrays: seq<TickArray>, span: nat, rounds: nat)
    requires span > 0
    decreases rounds
  {
    var s := w.state;
    var n := NextTick(s.ticks.Keys, s.pool.tick, x.zeroForOne);
    || Finished(w, x)
    || (&& s.pool.tick > MIN_TICK && rounds > 0
        && n.Some? && MIN_TICK <= n.value <= MAX_TICK && ValidConfig(s.config) && |s.vault| == 2
        && InSight(bits, first, ArrayOf(n.value, span), tickArrays, x.zeroForOne, span)
        && SwapStepTo(w, x, n.value).Some?
        && Quotable(SwapStepTo(w, x, n.value).value, x, bits, first, tickArrays, span, rounds - 1))
  }

  /** The quote follows from round to round. */
  lemma QuotableRound(w: Machine.SwapState, x: SwapArgs, bits: Bitmaps, first: int, tickArrays: seq<TickArray>, span: nat, rounds: nat, n: int)
    requires span > 0 && !Finished(w, x) && IsNextTick(w.state.ticks.Keys, w.state.pool.tick, x.zeroForOne, n)
    requires MIN_TICK <= n <= MAX_TICK && ValidConfig(w.state.config) && |w.state.vault| == 2
    ensures Quotable(w, x, bits, first, tickArrays, span, rounds) <==>
              && w.state.pool.tick > MIN_TICK && rounds > 0 && InSight(bits, first, ArrayOf(n, span), tickArrays, x.zeroForOne, span)
              && SwapStepTo(w, x, n).Some?
              && Quotable(SwapStepTo(w, x, n).value, x, bits, first, tickArrays, span, rounds - 1)
  {
    hide SwapStepTo, IsNextTick, ArrayOf, InSight;
    NextTickIs(w.state.ticks.Keys, w.state.pool.tick, x.zeroForOne, n);
  }

  /** Where the search ends without a tick, the swap has none in sight. */
  lemma NotInSight(ticks: map<int, Tick>, bits: Bitmaps, c: int, first: int, tickArrays: seq<TickArray>, rest: seq<TickArray>,
                   hopped: bool, tick: int, matched: bool, zeroForOne: bool, span: nat, n: int)
    requires span > 0 && Positioned(bits, c, tick, matched, zeroForOne, span) && IsNextTick(ticks.Keys, tick, zeroForOne, n)
    requires OutOfSight(bits, c, first, ArrayOf(n, span), rest, zeroForOne, span)
    requires if hopped then |tickArrays| > 1 && tickArrays[1].start == c * span && IsNearest(bits, first, zeroForOne, c)
             else c == first && rest == tickArrays[if tickArrays == [] then 0 else 1..]
    requires hopped ==> matched
    ensures !InSight(bits, first, ArrayOf(n, span), tickArrays, zeroForOne, span)
  {
    hide ArrayOf, HasArray;
    var a := ArrayOf(n, span);
    if hopped {
      NoneBehind(tick, n, c, zeroForOne, span, bits);
      MultipleOrder(a, c, span);
      MultipleOrder(c, a, span);
    }
  }

  /** A swap that is still going on has a next tick. */
  lemma GoesOn(start: Machine.SwapState, w: Machine.SwapState, q: QuoteState, x: SwapArgs, ticks: map<int, Tick>, feeRate: nat) returns (n: int)
    requires Tied(true, start, w, q, x, ticks, feeRate) && !Stopped(q, x)
    ensures IsNextTick(w.state.ticks.Keys, w.state.pool.tick, x.zeroForOne, n) && IsNextTick(ticks.Keys, q.tick, x.zeroForOne, n)
    ensures MIN_TICK <= n <= MAX_TICK && ValidConfig(w.state.config) && |w.state.vault| == 2 && !Finished(w, x)
    ensures MIN_TICK <= q.tick < MAX_TICK && q.tick == w.state.pool.tick
  {
    hide SwapStepTo, IsNextTick, SqrtPriceAtTick, LiquidityInv, CountersInv, Solvent;
    n := NextTick(w.state.ticks.Keys, w.state.pool.tick, x.zeroForOne).value;
    NextTickFaces(w, x, n);
  }

  /** Round after round, until the amount is used up, the limit is reached, or the ticks end. */
  method QuoteLoop(x: SwapArgs, isPoolCurrentTickArray: bool, feeRate: nat, firstStart: int, q: QuoteState,
                   pool: PoolState, ext: TickArrayBitmapExtension, tickArrays: seq<TickArray>,
                   ghost s: State, ghost outcome: bool, ghost start: Machine.SwapState, ghost arrays: map<int, TickArray>, ghost bits: Bitmaps)
    returns (r: Option<(QuoteState, seq<int>)>, ghost w: Machine.SwapState)
    requires Inv(s) && feeRate < FEE_DENOMINATOR && q.remaining <= U64_MAX
    requires pool.spacing > 0 && Shows(bits, pool.tickArrayBitmap, ext) && IndexInv(s.ticks, Index(arrays, bits), pool.spacing)
    requires Fetched(tickArrays, arrays)
    requires var span := TickCount(pool.spacing);
             firstStart == ArrayOf(firstStart, span) * span && ValidArray(ArrayOf(firstStart, span), span)
             && Positioned(bits, ArrayOf(firstStart, span), q.tick, isPoolCurrentTickArray, x.zeroForOne, span)
    requires Tied(outcome, start, start, q, x, s.ticks, feeRate)
    ensures r.Some? ==> Tied(outcome, start, w, r.value.0, x, s.ticks, feeRate) && |r.value.1| <= 2
    ensures var span := TickCount(pool.spacing);
            outcome && tickArrays != [] && tickArrays[0].start == firstStart ==>
              (r.Some? && Stopped(r.value.0, x) <==> Quotable(start, x, bits, ArrayOf(firstStart, span), tickArrays, span, MAX_LOOPS + 1))
  {
    hide Quotable, OutOfSight, Tied, ArrayOf, HasArray, Shows, IndexInv, Inv, OnTrack, Follows, SwapLoop, IsNextTick, Positioned, IsNearest, QuoteStep, SwapStepTo;
    ghost var span := TickCount(pool.spacing);
    ghost var c0 := ArrayOf(firstStart, span);
    w := start;
    var matched, state := isPoolCurrentTickArray, q;
    if tickArrays == [] || tickArrays[0].start != firstStart { return None, w; }
    PlacedAt(s.ticks, Index(arrays, bits), pool.spacing, firstStart);
    var current := LoadArray(tickArrays[0], pool.spacing);
    var rest := tickArrays[1..];
    var visited := [firstStart];
    var loops := 0;
    while state.remaining != 0 && state.sqrtPrice != x.limit && state.tick < MAX_TICK && state.tick > MIN_TICK
      invariant fresh(current) && fresh(current.ticks) && AtHand(current, arrays)
      invariant state.remaining <= U64_MAX && 0 <= loops <= MAX_LOOPS + 1
      invariant Fetched(rest, arrays) && forall i :: 0 <= i < |rest| ==> rest[i].start != current.startTickIndex
      invariant 1 <= |visited| <= 2
      invariant if |visited| == 1 then current.startTickIndex == firstStart
                else IsNearest(bits, c0, x.zeroForOne, ArrayOf(current.startTickIndex, span))
      invariant outcome ==> Tied(true, start, w, state, x, s.ticks, feeRate)
      invariant if |visited| == 1 then rest == tickArrays[1..]
                else matched && |tickArrays| > 1 && tickArrays[1].start == current.startTickIndex
      invariant outcome ==>
                  (Quotable(start, x, bits, c0, tickArrays, span, MAX_LOOPS + 1) <==> Quotable(w, x, bits, c0, tickArrays, span, MAX_LOOPS + 1 - loops))
      invariant outcome && !Stopped(state, x) ==>
                  Positioned(bits, ArrayOf(current.startTickIndex, span), state.tick, matched, x.zeroForOne, span)
      decreases MAX_LOOPS + 1 - loops
    {
      ghost var left := MAX_LOOPS + 1 - loops;
      if loops > MAX_LOOPS {
        if outcome {
          NoRoundLeft(start, w, state, x, s.ticks, feeRate, bits, c0, tickArrays, span);
        }
        return None, w;
      }
      var slot, hop;
      ghost var had, restBefore := matched, rest;
      ghost var before := ArrayOf(current.startTickIndex, span);
      ghost var hadOne := |visited| == 1;
      StartOfMarked(s.ticks, Index(arrays, bits), pool.spacing, current.startTickIndex);
      slot, current, matched, hop := QuoteSearch(pool, ext, current, matched, rest, firstStart, state.tick, x.zeroForOne, arrays, s.ticks, bits);
      if slot.None? {
        if outcome {
          NothingInSight(start, w, state, x, s.ticks, feeRate, bits, before, c0, tickArrays, restBefore, !hadOne, had, span, left);
        }
        return None, w;
      }
      StartOfMarked(s.ticks, Index(arrays, bits), pool.spacing, current.startTickIndex);
      if hop {
        assert hadOne by {
          if !hadOne {
            NearestUnique(bits, c0, x.zeroForOne, before, ArrayOf(current.startTickIndex, span));
          }
        }
        visited := visited + [rest[0].start];
        rest := rest[1..];
      }
      var next := TakeQuoteStep(state, x, feeRate, slot.value);
      if outcome {
        RoundFollows(start, w, state, x, s.ticks, feeRate, slot.value.tick, bits, c0, tickArrays, span, left);
        TickHasLiquidity(s, slot.value.tick);
        w := SwapStepTo(w, x, slot.value.tick).value;
      }
      if next.None? { return None, w; }
      state := next.value;
      loops := loops + 1;
    }
    if outcome {
      LoopEnds(start, w, state, x, s.ticks, feeRate, bits, c0, tickArrays, span, MAX_LOOPS + 1 - loops);
    } else {
      Untied(start, w, state, x, s.ticks, feeRate);
    }
    r := Some((state, visited));
  }

  lemma Untied(start: Machine.SwapState, w: Machine.SwapState, q: QuoteState, x: SwapArgs, ticks: map<int, Tick>, feeRate: nat)
    ensures Tied(false, start, w, q, x, ticks, feeRate)
  {
  }

  lemma LoopEnds(start: Machine.SwapState, w: Machine.SwapState, q: QuoteState, x: SwapArgs, ticks: map<int, Tick>, feeRate: nat,
                 bits: Bitmaps, first: int, tickArrays: seq<TickArray>, span: nat, rounds: nat)
    requires span > 0 && Tied(true, start, w, q, x, ticks, feeRate)
    requires Stopped(q, x) || q.tick >= MAX_TICK || q.tick <= MIN_TICK
    ensures Stopped(q, x) <==> Quotable(w, x, bits, first, tickArrays, span, rounds)
  {
    hide SwapLoop, SwapStepTo, Follows, OnTrack, Quotable, IsNextTick;
    StoppedIsFinished(w, q, ticks, feeRate, x);
    Ends(w, x, bits, first, tickArrays, span, rounds);
    if !Stopped(q, x) {
      var n := GoesOn(start, w, q, x, ticks, feeRate);
    }
  }

  lemma NoRoundLeft(start: Machine.SwapState, w: Machine.SwapState, q: QuoteState, x: SwapArgs, ticks: map<int, Tick>, feeRate: nat,
                    bits: Bitmaps, first: int, tickArrays: seq<TickArray>, span: nat)
    requires span > 0 && Tied(true, start, w, q, x, ticks, feeRate) && !Stopped(q, x)
    ensures !Quotable(w, x, bits, first, tickArrays, span, 0)
  {
    hide SwapLoop, SwapStepTo, OnTrack, Quotable, IsNextTick;
    var n := GoesOn(start, w, q, x, ticks, feeRate);
    QuotableRound(w, x, bits, first, tickArrays, span, 0, n);
  }

  lemma NothingInSight(start: Machine.SwapState, w: Machine.SwapState, q: QuoteState, x: SwapArgs, ticks: map<int, Tick>, feeRate: nat,
                       bits: Bitmaps, c: int, first: int, tickArrays: seq<TickArray>, rest: seq<TickArray>, hopped: bool, matched: bool,
                       span: nat, rounds: nat)
    requires span > 0 && Tied(true, start, w, q, x, ticks, feeRate) && !Stopped(q, x)
    requires Positioned(bits, c, q.tick, matched, x.zeroForOne, span)
    requires forall n :: IsNextTick(ticks.Keys, q.tick, x.zeroForOne, n) ==> OutOfSight(bits, c, first, ArrayOf(n, span), rest, x.zeroForOne, span)
    requires if hopped then |tickArrays| > 1 && tickArrays[1].start == c * span && IsNearest(bits, first, x.zeroForOne, c)
             else c == first && rest == tickArrays[if tickArrays == [] then 0 else 1..]
    requires hopped ==> matched
    ensures !Quotable(w, x, bits, first, tickArrays, span, rounds)
  {
    hide SwapLoop, SwapStepTo, OnTrack, Quotable, IsNextTick, Positioned, ArrayOf, InSight, OutOfSight, IsNearest;
    var n := GoesOn(start, w, q, x, ticks, feeRate);
    QuotableRound(w, x, bits, first, tickArrays, span, rounds, n);
    NotInSight(ticks, bits, c, first, tickArrays, rest, hopped, q.tick, matched, x.zeroForOne, span, n);
  }

  /** One round: quote and swap stay tied, and what is still to come decides whether the quote gets there. */
  lemma RoundFollows(start: Machine.SwapState, w: Machine.SwapState, q: QuoteState, x: SwapArgs, ticks: map<int, Tick>, feeRate: nat, n: int,
                     bits: Bitmaps, first: int, tickArrays: seq<TickArray>, span: nat, rounds: nat)
    requires span > 0 && rounds > 0 && Tied(true, start, w, q, x, ticks, feeRate) && !Stopped(q, x) && q.tick > MIN_TICK
    requires IsNextTick(ticks.Keys, q.tick, x.zeroForOne, n) && HasArray(bits, ArrayOf(n, span))
    requires var a := ArrayOf(n, span);
             a == first || (|tickArrays| > 1 && tickArrays[1].start == a * span && IsNearest(bits, first, x.zeroForOne, a))
    ensures n in ticks && MIN_TICK <= n <= MAX_TICK && feeRate < FEE_DENOMINATOR && |w.state.vault| == 2 && ValidConfig(w.state.config)
    ensures SwapStepTo(w, x, n).Some? && QuoteStep(q, x, feeRate, n, ticks[n].net).Some?
    ensures var w', q' := SwapStepTo(w, x, n).value, QuoteStep(q, x, feeRate, n, ticks[n].net).value;
            && Tied(true, start, w', q', x, ticks, feeRate)
            && (Quotable(w, x, bits, first, tickArrays, span, rounds) <==> Quotable(w', x, bits, first, tickArrays, span, rounds - 1))
            && (!Stopped(q', x) ==> Positioned(bits, ArrayOf(n, span), q'.tick, true, x.zeroForOne, span))
  {
    hide SwapLoop, SwapStepTo, Follows, OnTrack, Quotable, IsNextTick, Positioned, ArrayOf, HasArray, InSight, IsNearest, QuoteStep;
    RoundTied(start, w, q, x, ticks, feeRate, n);
    var m := GoesOn(start, w, q, x, ticks, feeRate);
    SameNextTick(ticks.Keys, q.tick, x.zeroForOne, m, n);
    QuotableRound(w, x, bits, first, tickArrays, span, rounds, n);
    Seen(bits, first, ArrayOf(n, span), tickArrays, x.zeroForOne, span);
    var q' := QuoteStep(q, x, feeRate, n, ticks[n].net).value;
    if !Stopped(q', x) {
      StillPositioned(bits, span, n, q'.tick, x.zeroForOne);
    }
  }

  lemma StoppedIsFinished(w: Machine.SwapState, q: QuoteState, ticks: map<int, Tick>, feeRate: nat, x: SwapArgs)
    requires Follows(w, q, ticks, feeRate)
    ensures (Finished(w, x) <==> Stopped(q, x)) && w.state.pool.tick == q.tick
  {
  }

  lemma SameNextTick(keys: set<int>, tick: int, zeroForOne: bool, m: int, n: int)
    requires IsNextTick(keys, tick, zeroForOne, m) && IsNextTick(keys, tick, zeroForOne, n)
    ensures m == n
  {
  }

  lemma Ends(w: Machine.SwapState, x: SwapArgs, bits: Bitmaps, first: int, tickArrays: seq<TickArray>, span: nat, rounds: nat)
    requires span > 0
    ensures Finished(w, x) ==> Quotable(w, x, bits, first, tickArrays, span, rounds)
    ensures !Finished(w, x) && w.state.pool.tick <= MIN_TICK ==> !Quotable(w, x, bits, first, tickArrays, span, rounds)
  {
    hide SwapStepTo, InSight, ArrayOf;
  }

  /** The state a swap starts its steps from: rewards accrued. */
  ghost function Begun(s: State, amount: nat, now: nat): Machine.SwapState {
    var accrued := RewardRules.AccrueRewards(s.pool, now);
    SwapState(if accrued.Some? then s.(pool := accrued.value) else s, amount, 0)
  }

  /** The quote. For a swap from the same state to the same limit that has an outcome, a quote that stopped
      at zero or at the limit has computed that outcome's amounts. It does so exactly if the swap is
      quotable: within eleven rounds, two arrays, and above the lowest tick. */
  method SwapCompute(zeroForOne: bool, baseInput: bool, isPoolCurrentTickArray: bool, feeRate: nat, amount: nat, firstStart: int, limit: nat,
                     pool: PoolState, ext: TickArrayBitmapExtension, tickArrays: seq<TickArray>, now: nat,
                     ghost s: State, ghost arrays: map<int, TickArray>, ghost bits: Bitmaps)
    returns (r: Option<(QuoteState, seq<int>)>)
    requires Inv(s) && s.clock == now && s.pool == pool.Fields() && s.config.tradeFeeRate == feeRate && amount <= U64_MAX
    requires pool.spacing > 0 && Shows(bits, pool.tickArrayBitmap, ext) && IndexInv(s.ticks, Index(arrays, bits), pool.spacing)
    requires Fetched(tickArrays, arrays)
    requires var span := TickCount(pool.spacing);
             firstStart == ArrayOf(firstStart, span) * span
             && Positioned(bits, ArrayOf(firstStart, span), pool.tickCurrent, isPoolCurrentTickArray, zeroForOne, span)
    ensures var x := SwapArgs(zeroForOne, baseInput, EffectiveLimit(limit, zeroForOne));
            var w := Outcome(s, amount, x, now);
            r.Some? && Stopped(r.value.0, x) && ValidLimit(x.limit, s.pool.sqrtPrice, zeroForOne) && w.Some? ==>
              r.value.0.calculated == w.value.calculated && r.value.0.remaining == w.value.remaining
    ensures var x := SwapArgs(zeroForOne, baseInput, EffectiveLimit(limit, zeroForOne)); var span := TickCount(pool.spacing);
            Outcome(s, amount, x, now).Some? && amount != 0 && ValidLimit(x.limit, s.pool.sqrtPrice, zeroForOne)
            && tickArrays != [] && tickArrays[0].start == firstStart ==>
              (r.Some? && Stopped(r.value.0, x) <==>
                 Quotable(Begun(s, amount, now), x, bits, ArrayOf(firstStart, span), tickArrays, span, MAX_LOOPS + 1))
    ensures r.Some? ==> |r.value.1| <= 2
  {
    hide Quotable, ArrayOf, HasArray, Shows, IndexInv, Inv, SwapLoop, SwapStepTo, LimitAhead, IsNextTick, Positioned, IsNearest, QuoteStep, RewardRules.AccrueRewards;
    if amount == 0 { return None; }
    var x := SwapArgs(zeroForOne, baseInput, EffectiveLimit(limit, zeroForOne));
    if zeroForOne {
      if x.limit < MIN_SQRT_PRICE || x.limit >= pool.sqrtPrice { return None; }
    } else {
      if x.limit > MAX_SQRT_PRICE || x.limit <= pool.sqrtPrice { return None; }
    }
    RevealInv(s);
    ghost var span := TickCount(pool.spacing);
    ghost var c0 := ArrayOf(firstStart, span);
    PositionedMark(bits, c0, pool.tickCurrent, isPoolCurrentTickArray, zeroForOne, span);
    MarkedArray(s.ticks, Index(arrays, bits), pool.spacing, c0);
    ghost var outcome := ValidLimit(x.limit, s.pool.sqrtPrice, zeroForOne) && Outcome(s, amount, x, now).Some?;
    ghost var start := SwapState(s, amount, 0);
    if outcome {
      AccruedOnTrack(s, now, RewardRules.AccrueRewards(s.pool, now).value, x);
      start := SwapState(s.(pool := RewardRules.AccrueRewards(s.pool, now).value), amount, 0);
    }
    var state := QuoteState(amount, 0, pool.sqrtPrice, pool.tickCurrent, pool.liquidity);
    ghost var w;
    r, w := QuoteLoop(x, isPoolCurrentTickArray, feeRate, firstStart, state, pool, ext, tickArrays, s, outcome, start, arrays, bits);
    if r.None? { return None; }
    if outcome && Stopped(r.value.0, x) {
      FinishedLoop(w, x);
    }
  }
}
