/** What one swap step guarantees, in all four modes (exact input or output, price down or up). */
module SwapStepProofs {
  import opened Wrappers
  import opened FullMath
  import opened LiquidityMath
  import opened SqrtPriceMath
  import opened SwapMath

  /** x * d < n <= y * d leaves x < y. */
  lemma StrictlyBelow(x: int, y: int, n: int, d: int)
    requires d > 0 && x * d < n <= y * d
    ensures x < y
  {
    assert y <= x ==> y * d <= x * d;
  }

  lemma Expand(x: int, a: int, p: int, n: int)
    ensures n * (x + a * p) == x * n + a * (n * p)
    ensures n * (x - a * p) == x * n - a * (n * p)
    ensures x * (p - n) == x * p - x * n
  {
    assert n * (a * p) == a * (n * p);
  }

  // An input too small for the target stops strictly before it and is not exceeded.

  lemma InputDownStopsShort(p: nat, t: nat, liquidity: nat, a: nat, full: nat, n: nat)
    requires 0 < t <= p && liquidity > 0
    requires IsCeil(full, liquidity * Q64 * (p - t), t * p) && a < full
    requires NextFromAmount0RoundingUp(p, liquidity, a, true) == Some(n)
    ensures t < n <= p
    ensures liquidity * Q64 * (p - n) <= a * (n * p)
    ensures a * ((n - 1) * p) < liquidity * Q64 * (p - n + 1)
  {
    var x := liquidity * Q64;
    CeilIsLeast(full, x * (p - t), t * p, a);
    if a > 0 {
      InputDownPrice(x, p, t, a, n);
    }
  }

  /** The quotient x * p / (x + a * p) rounded up. */
  lemma InputDownPrice(x: nat, p: nat, t: nat, a: nat, n: nat)
    requires x > 0 && a * (t * p) < x * (p - t)
    requires IsCeil(n, x * p, x + a * p)
    ensures t < n <= p
    ensures x * (p - n) <= a * (n * p)
    ensures a * ((n - 1) * p) < x * (p - n + 1)
  {
    var d := x + a * p;
    Expand(x, a, p, t);
    StrictlyBelow(t, n, x * p, d);
    Expand(x, a, p, p);
    CeilIsLeast(n, x * p, d, p);
    Expand(x, a, p, n);
    Expand(x, a, p, n - 1);
  }

  lemma InputUpStopsShort(p: nat, t: nat, liquidity: nat, a: nat, full: nat, n: nat)
    requires p <= t && liquidity > 0
    requires IsCeil(full, liquidity * (t - p), Q64) && a < full
    requires NextFromAmount1RoundingDown(p, liquidity, a, true) == Some(n)
    ensures p <= n < t
    ensures liquidity * (n - p) <= a * Q64 < liquidity * (n + 1 - p)
  {
    CeilIsLeast(full, liquidity * (t - p), Q64, a);
    FloorOfDiv(a * Q64, liquidity);
    assert liquidity * (n - p) <= a * Q64 < liquidity * (t - p);
    StrictlyBelow(n - p, t - p, liquidity * (t - p), liquidity);
  }

  // An output too small for the target stops at or before it and is met in full.

  lemma OutputDownStopsShort(p: nat, t: nat, liquidity: nat, a: nat, full: nat, n: nat)
    requires t <= p && liquidity > 0
    requires IsFloor(full, liquidity * (p - t), Q64) && a < full
    requires NextFromAmount1RoundingDown(p, liquidity, a, false) == Some(n)
    ensures t <= n <= p
    ensures liquidity * (p - n - 1) < a * Q64 <= liquidity * (p - n)
  {
    FloorIsGreatest(full, liquidity * (p - t), Q64, a);
    assert IsCeil(p - n, a * Q64, liquidity);
    assert (p - t) * liquidity == liquidity * (p - t);
    CeilIsLeast(p - n, a * Q64, liquidity, p - t);
  }

  lemma OutputUpStopsShort(p: nat, t: nat, liquidity: nat, a: nat, full: nat, n: nat)
    requires 0 < p <= t && liquidity > 0
    requires IsFloor(full, liquidity * Q64 * (t - p), p * t) && a < full
    requires NextFromAmount0RoundingUp(p, liquidity, a, false) == Some(n)
    ensures p <= n <= t
    ensures a * (p * n) <= liquidity * Q64 * (n - p)
    ensures liquidity * Q64 * (n - 1 - p) < a * (p * (n - 1))
  {
    var x := liquidity * Q64;
    FloorIsGreatest(full, x * (t - p), p * t, a);
    if a > 0 {
      OutputUpPrice(x, p, t, a, n);
    }
  }

  /** The quotient x * p / (x - a * p) rounded up. */
  lemma OutputUpPrice(x: nat, p: nat, t: nat, a: nat, n: nat)
    requires a * p < x && a * (p * t) <= x * (t - p)
    requires IsCeil(n, x * p, x - a * p)
    ensures p <= n <= t
    ensures a * (p * n) <= x * (n - p)
    ensures x * (n - 1 - p) < a * (p * (n - 1))
  {
    var d := x - a * p;
    Expand(x, a, p, t);
    assert x * (t - p) == x * t - x * p;
    assert t * p == p * t;
    CeilIsLeast(n, x * p, d, t);
    Expand(x, a, p, p);
    assert (p - 1) * d == p * d - d;
    StrictlyBelow(p - 1, n, x * p, d);
    Expand(x, a, p, n);
    assert n * p == p * n;
    Expand(x, a, p, n - 1);
    assert (n - 1) * p == p * (n - 1);
    assert x * (n - 1 - p) == x * (n - 1) - x * p;
  }

  /** Price n uses the amount up to one unit of price. For an input: the price one unit further costs more
      than the amount. For an output: the price one unit nearer yields less than the amount. */
  ghost predicate UsesUp(p: nat, n: nat, liquidity: nat, amount: nat, baseInput: bool, zeroForOne: bool) {
    if baseInput then
      if zeroForOne then amount * ((n - 1) * p) < liquidity * Q64 * (p - n + 1)
      else amount * Q64 < liquidity * (n + 1 - p)
    else
      if zeroForOne then liquidity * (p - n - 1) < amount * Q64
      else liquidity * Q64 * (n - 1 - p) < amount * (p * (n - 1))
  }

  /** The target costs more than the amount less fee, or yields more than the amount asked for. */
  ghost predicate OutOfReach(p: nat, t: nat, liquidity: nat, remaining: nat, feeRate: nat, baseInput: bool, zeroForOne: bool)
    requires feeRate < FEE_DENOMINATOR
  {
    if baseInput then
      InAmount(p, t, liquidity, zeroForOne).Some? && LessFee(remaining, feeRate) < InAmount(p, t, liquidity, zeroForOne).value
    else
      OutAmount(p, t, liquidity, zeroForOne).Some? && remaining < OutAmount(p, t, liquidity, zeroForOne).value
  }

  /** The price a step reaches and how the specified amount relates to it. It falls short of the target
      only if the target is out of reach, and then by less than one unit of price. */
  lemma NextPriceContract(p: nat, t: nat, liquidity: nat, remaining: nat, feeRate: nat,
                          baseInput: bool, zeroForOne: bool)
    requires feeRate < FEE_DENOMINATOR && p > 0 && t > 0
    requires if zeroForOne then t <= p else p <= t
    requires NextPrice(p, t, liquidity, remaining, feeRate, baseInput, zeroForOne).Some?
    ensures var n := NextPrice(p, t, liquidity, remaining, feeRate, baseInput, zeroForOne).value;
            var in' := InAmount(p, n, liquidity, zeroForOne);
            var out := OutAmount(p, n, liquidity, zeroForOne);
            && (if zeroForOne then t <= n <= p else p <= n <= t)
            && (baseInput && in'.Some? ==> in'.value <= LessFee(remaining, feeRate))
            && (!baseInput && n != t && out.Some? ==> remaining <= out.value)
            && (n != t ==> OutOfReach(p, t, liquidity, remaining, feeRate, baseInput, zeroForOne))
            && (n != t ==> UsesUp(p, n, liquidity, if baseInput then LessFee(remaining, feeRate) else remaining, baseInput, zeroForOne))
  {
    hide MulDivCeil, MulDivFloor, LessFee;
    var n := NextPrice(p, t, liquidity, remaining, feeRate, baseInput, zeroForOne).value;
    var a := LessFee(remaining, feeRate);
    if baseInput {
      var full := InAmount(p, t, liquidity, zeroForOne).value;
      if zeroForOne {
        DeltaAmount0Rounds(t, p, liquidity, true);
        if a < full {
          InputDownStopsShort(p, t, liquidity, a, full, n);
          if DeltaAmount0Unsigned(n, p, liquidity, true).Some? {
            DeltaAmount0Rounds(n, p, liquidity, true);
            CeilIsLeast(InAmount(p, n, liquidity, true).value, liquidity * Q64 * (p - n), n * p, a);
          }
        }
      } else {
        DeltaAmount1Rounds(p, t, liquidity, true);
        if a < full {
          InputUpStopsShort(p, t, liquidity, a, full, n);
          if DeltaAmount1Unsigned(p, n, liquidity, true).Some? {
            DeltaAmount1Rounds(p, n, liquidity, true);
            CeilIsLeast(InAmount(p, n, liquidity, false).value, liquidity * (n - p), Q64, a);
          }
        }
      }
    } else {
      var full := OutAmount(p, t, liquidity, zeroForOne).value;
      if zeroForOne {
        DeltaAmount1Rounds(t, p, liquidity, false);
        if remaining < full {
          OutputDownStopsShort(p, t, liquidity, remaining, full, n);
          if DeltaAmount1Unsigned(n, p, liquidity, false).Some? {
            DeltaAmount1Rounds(n, p, liquidity, false);
            FloorIsGreatest(OutAmount(p, n, liquidity, true).value, liquidity * (p - n), Q64, remaining);
          }
        }
      } else {
        DeltaAmount0Rounds(p, t, liquidity, false);
        if remaining < full {
          OutputUpStopsShort(p, t, liquidity, remaining, full, n);
          if DeltaAmount0Unsigned(p, n, liquidity, false).Some? {
            DeltaAmount0Rounds(p, n, liquidity, false);
            FloorIsGreatest(OutAmount(p, n, liquidity, false).value, liquidity * Q64 * (n - p), p * n, remaining);
          }
        }
      }
    }
  }

  /** The only reasons for a step to find no price: the amount up to the target does not fit its width, or
      the quotient of the token-0 formula has a product beyond 256 bits. */
  lemma NextPriceFails(p: nat, t: nat, liquidity: nat, remaining: nat, feeRate: nat, baseInput: bool, zeroForOne: bool)
    requires feeRate < FEE_DENOMINATOR && 0 < p <= U128_MAX && 0 < t <= U128_MAX
    requires if zeroForOne then t <= p else p <= t
    ensures var full := if baseInput then InAmount(p, t, liquidity, zeroForOne) else OutAmount(p, t, liquidity, zeroForOne);
            var a := if baseInput then LessFee(remaining, feeRate) else remaining;
            var x := liquidity * Q64; var d := if baseInput then x + a * p else x - a * p;
            NextPrice(p, t, liquidity, remaining, feeRate, baseInput, zeroForOne).None? <==>
              full.None? || (a < full.value && a > 0 && baseInput == zeroForOne && x * p + d - 1 > U256_MAX)
  {
    hide MulDivCeil, MulDivFloor, LessFee, DeltaAmount0Unsigned, DeltaAmount1Unsigned, NextFromAmount0RoundingUp, NextFromAmount1RoundingDown;
    var a := if baseInput then LessFee(remaining, feeRate) else remaining;
    var full := if baseInput then InAmount(p, t, liquidity, zeroForOne) else OutAmount(p, t, liquidity, zeroForOne);
    if full.Some? && a < full.value {
      if baseInput == zeroForOne {
        if zeroForOne { DeltaAmount0Rounds(t, p, liquidity, true); } else { DeltaAmount0Rounds(p, t, liquidity, false); }
        Price0Fails(p, t, liquidity, a, full.value, baseInput);
      } else {
        if zeroForOne { DeltaAmount1Rounds(t, p, liquidity, false); } else { DeltaAmount1Rounds(p, t, liquidity, true); }
        Price1Found(p, t, liquidity, a, full.value, baseInput);
      }
    }
  }

  lemma Price0Fails(p: nat, t: nat, liquidity: nat, a: nat, full: nat, add: bool)
    requires 0 < p <= U128_MAX && 0 < t <= U128_MAX && a < full
    requires if add then t <= p && IsCeil(full, liquidity * Q64 * (p - t), t * p)
             else p <= t && IsFloor(full, liquidity * Q64 * (t - p), p * t)
    ensures liquidity > 0
    ensures var x := liquidity * Q64; var d := if add then x + a * p else x - a * p;
            NextFromAmount0RoundingUp(p, liquidity, a, add).None? <==> a > 0 && x * p + d - 1 > U256_MAX
  {
    hide MulDivCeil;
    var x := liquidity * Q64;
    var d := if add then x + a * p else x - a * p;
    if add {
      CeilIsLeast(full, x * (p - t), t * p, a);
      assert x > 0;
      MulDivCeilFails(x, p, d, U256_MAX, U128_MAX);
      assert x * p <= U128_MAX * d by {
        ProductBound(x, p, d, U128_MAX);
      }
    } else {
      FloorIsGreatest(full, x * (t - p), p * t, a);
      FloorIsGreatest(full, x * (t - p), p * t, full);
      OutputLeaves(x, p, t, a);
      MulDivCeilFails(x, p, d, U256_MAX, U128_MAX);
      ProductBound(t, d, U128_MAX, d);
    }
  }

  /** An output below what the way to the target yields leaves a denominator, and a price within the target. */
  lemma OutputLeaves(x: nat, p: nat, t: nat, a: nat)
    requires 0 < p <= t && x > 0 && a * (p * t) <= x * (t - p)
    ensures x - a * p > 0 && x * p <= t * (x - a * p)
  {
    Expand(x, a, p, t);
    assert a * (p * t) == a * (t * p) && x * (t - p) == x * t - x * p;
    assert 0 < x * p;
  }

  lemma Price1Found(p: nat, t: nat, liquidity: nat, a: nat, full: nat, add: bool)
    requires 0 < p <= U128_MAX && 0 < t <= U128_MAX && a < full
    requires if add then p <= t && IsCeil(full, liquidity * (t - p), Q64)
             else t <= p && IsFloor(full, liquidity * (p - t), Q64)
    ensures liquidity > 0 && NextFromAmount1RoundingDown(p, liquidity, a, add).Some?
  {
    if add {
      CeilIsLeast(full, liquidity * (t - p), Q64, a);
      assert liquidity > 0;
      FloorOfDiv(a * Q64, liquidity);
      FloorIsGreatest(a * Q64 / liquidity, a * Q64, liquidity, t - p);
      assert (t - p) * liquidity == liquidity * (t - p);
    } else {
      FloorIsGreatest(full, liquidity * (p - t), Q64, a);
      FloorIsGreatest(full, liquidity * (p - t), Q64, full);
      assert liquidity > 0;
      CeilIsLeast(DivRoundingUp(a * Q64, liquidity), a * Q64, liquidity, p - t);
      assert (p - t) * liquidity == liquidity * (p - t);
    }
  }

  /** The fee leaves room: an input within the amount less fee, plus its own fee, is within the amount. */
  lemma FeeFits(amountIn: nat, remaining: nat, feeRate: nat)
    requires feeRate < FEE_DENOMINATOR
    requires amountIn <= LessFee(remaining, feeRate)
    ensures amountIn <= remaining
    ensures amountIn * feeRate <= (remaining - amountIn) * (FEE_DENOMINATOR - feeRate)
    ensures var fee := MulDivCeil64(amountIn, feeRate, FEE_DENOMINATOR - feeRate);
            && (fee.Some? ==> amountIn + fee.value <= remaining)
            && (remaining <= U64_MAX ==> fee.Some?)
  {
    hide LessFee;
    var d := FEE_DENOMINATOR - feeRate;
    assert amountIn * FEE_DENOMINATOR <= remaining * d;
    assert amountIn * FEE_DENOMINATOR == amountIn * feeRate + amountIn * d;
    assert (remaining - amountIn) * d == remaining * d - amountIn * d;
    var fee := (amountIn * feeRate + d - 1) / d;
    CeilOfDiv(amountIn * feeRate, d);
    CeilIsLeast(fee, amountIn * feeRate, d, remaining - amountIn);
    if remaining <= U64_MAX {
      ProductBound(amountIn, feeRate, U64_MAX, FEE_DENOMINATOR);
    }
  }

  /** The contract of a step. The price stays between current and target. A specified amount is used
      up exactly when the target is missed and never exceeded; the input is rounded up and the output
      down against the exact curve. A target is missed only if the amount does not reach it, and then by less
      than one unit of price. The fee is the fee rate's share of what is paid, rounded up; where the target
      is missed with an exact input it is all that the price move leaves, which is that share up to the
      worth of one unit of price. */
  lemma StepContract(p: nat, t: nat, liquidity: nat, remaining: nat, feeRate: nat,
                     baseInput: bool, zeroForOne: bool)
    requires feeRate < FEE_DENOMINATOR && p > 0 && t > 0
    requires if zeroForOne then t <= p else p <= t
    requires ComputeStep(p, t, liquidity, remaining, feeRate, baseInput, zeroForOne).Some?
    ensures var s := ComputeStep(p, t, liquidity, remaining, feeRate, baseInput, zeroForOne).value;
            var n := s.sqrtPriceNext;
            var used := if baseInput then s.amountIn + s.feeAmount else s.amountOut;
            && (if zeroForOne then t <= n <= p else p <= n <= t)
            && used <= remaining
            && (n != t ==> used == remaining)
            && InAmount(p, n, liquidity, zeroForOne) == Some(s.amountIn)
            && OutAmount(p, n, liquidity, zeroForOne).Some?
            && s.amountOut <= OutAmount(p, n, liquidity, zeroForOne).value
            && (baseInput || s.amountOut < remaining ==> OutAmount(p, n, liquidity, zeroForOne) == Some(s.amountOut))
            && s.amountIn * feeRate <= s.feeAmount * (FEE_DENOMINATOR - feeRate)
            && (n != t ==> UsesUp(p, n, liquidity, if baseInput then LessFee(remaining, feeRate) else remaining, baseInput, zeroForOne))
            && (!baseInput || n == t ==> IsCeil(s.feeAmount, s.amountIn * feeRate, FEE_DENOMINATOR - feeRate))
            && (baseInput && n != t ==> FeeWithDust(p, n, liquidity, remaining, feeRate, s.feeAmount, zeroForOne))
  {
    hide InAmount, OutAmount, MulDivCeil, LessFee, NextPrice, UsesUp, FeeWithDust;
    var s := ComputeStep(p, t, liquidity, remaining, feeRate, baseInput, zeroForOne).value;
    NextPriceContract(p, t, liquidity, remaining, feeRate, baseInput, zeroForOne);
    if baseInput {
      FeeFits(s.amountIn, remaining, feeRate);
    }
    if !(baseInput && s.sqrtPriceNext != t) {
      FeeCoversRate(s.amountIn, feeRate);
    } else {
      DustIsSmall(p, s.sqrtPriceNext, liquidity, remaining, feeRate, s.amountIn, zeroForOne);
    }
  }

  /** A fee that is what is left of the amount: the share of the whole amount, rounded up, and a dust that
      is worth less than one unit of price. */
  ghost predicate FeeWithDust(p: nat, n: nat, liquidity: nat, remaining: nat, feeRate: nat, fee: nat, zeroForOne: bool)
    requires feeRate < FEE_DENOMINATOR
  {
    var dust := fee - (remaining - LessFee(remaining, feeRate));
    && IsCeil(remaining - LessFee(remaining, feeRate), remaining * feeRate, FEE_DENOMINATOR)
    && 0 <= dust
    && (if zeroForOne then dust * (n * p) < LessFee(remaining, feeRate) * p + liquidity * Q64 else dust * Q64 < liquidity)
  }

  lemma DustIsSmall(p: nat, n: nat, liquidity: nat, remaining: nat, feeRate: nat, amountIn: nat, zeroForOne: bool)
    requires feeRate < FEE_DENOMINATOR && 0 < p && 0 < n && if zeroForOne then n <= p else p <= n
    requires InAmount(p, n, liquidity, zeroForOne) == Some(amountIn) && amountIn <= LessFee(remaining, feeRate)
    requires UsesUp(p, n, liquidity, LessFee(remaining, feeRate), true, zeroForOne)
    ensures amountIn <= remaining && FeeWithDust(p, n, liquidity, remaining, feeRate, remaining - amountIn, zeroForOne)
  {
    hide LessFee, DeltaAmount0Unsigned, DeltaAmount1Unsigned;
    var a := LessFee(remaining, feeRate);
    assert remaining * (FEE_DENOMINATOR - feeRate) == remaining * FEE_DENOMINATOR - remaining * feeRate;
    if zeroForOne {
      DeltaAmount0Rounds(n, p, liquidity, true);
      DustDown(p, n, liquidity * Q64, a, amountIn);
    } else {
      DeltaAmount1Rounds(p, n, liquidity, true);
      DustUp(p, n, liquidity, a, amountIn);
    }
  }

  lemma DustUp(p: nat, n: nat, liquidity: nat, a: nat, amountIn: nat)
    requires liquidity * (n - p) <= amountIn * Q64 && a * Q64 < liquidity * (n + 1 - p)
    ensures (a - amountIn) * Q64 < liquidity
  {
    assert liquidity * (n + 1 - p) == liquidity * (n - p) + liquidity;
  }

  lemma DustDown(p: nat, n: nat, x: nat, a: nat, amountIn: nat)
    requires x * (p - n) <= amountIn * (n * p) && a * ((n - 1) * p) < x * (p - n + 1)
    ensures (a - amountIn) * (n * p) < a * p + x
  {
    var m := n * p;
    assert (n - 1) * p == m - p;
    assert a * (m - p) == a * m - a * p;
    assert x * (p - n + 1) == x * (p - n) + x;
    assert (a - amountIn) * m == a * m - amountIn * m;
  }

  lemma FeeCoversRate(amountIn: nat, feeRate: nat)
    requires feeRate < FEE_DENOMINATOR
    ensures var fee := MulDivCeil64(amountIn, feeRate, FEE_DENOMINATOR - feeRate);
            fee.Some? ==> IsCeil(fee.value, amountIn * feeRate, FEE_DENOMINATOR - feeRate)
  {
  }

  /** In the exact-input modes the subtraction that yields the fee never underflows: a step can only
      abort on a curve amount outside its width. */
  lemma FeeNeverUnderflows(p: nat, t: nat, liquidity: nat, remaining: nat, feeRate: nat, zeroForOne: bool)
    requires feeRate < FEE_DENOMINATOR && p > 0 && t > 0 && remaining <= U64_MAX
    requires if zeroForOne then t <= p else p <= t
    ensures var next := NextPrice(p, t, liquidity, remaining, feeRate, true, zeroForOne);
            ComputeStep(p, t, liquidity, remaining, feeRate, true, zeroForOne).Some? <==>
              next.Some? && InAmount(p, next.value, liquidity, zeroForOne).Some?
              && OutAmount(p, next.value, liquidity, zeroForOne).Some?
  {
    hide InAmount, OutAmount, NextPrice, LessFee, MulDivCeil, MulDivCeil64;
    var next := NextPrice(p, t, liquidity, remaining, feeRate, true, zeroForOne);
    if next.Some? && InAmount(p, next.value, liquidity, zeroForOne).Some?
       && OutAmount(p, next.value, liquidity, zeroForOne).Some? {
      NextPriceContract(p, t, liquidity, remaining, feeRate, true, zeroForOne);
      FeeFits(InAmount(p, next.value, liquidity, zeroForOne).value, remaining, feeRate);
    }
  }
}
