/** One step of a swap at constant liquidity (swap_math.rs). */
module SwapMath {
  import opened Wrappers
  import opened FullMath
  import opened LiquidityMath
  import opened SqrtPriceMath

  const FEE_DENOMINATOR: nat := 1_000_000

  datatype SwapStep = SwapStep(sqrtPriceNext: nat, amountIn: nat, amountOut: nat, feeAmount: nat)

  /** What the trader pays for moving the price from p to q (rounded up). */
  function InAmount(p: nat, q: nat, liquidity: nat, zeroForOne: bool): (r: Option<nat>) {
    if zeroForOne then DeltaAmount0Unsigned(q, p, liquidity, true)
    else DeltaAmount1Unsigned(p, q, liquidity, true)
  }

  /** What the trader receives for moving the price from p to q (rounded down). */
  function OutAmount(p: nat, q: nat, liquidity: nat, zeroForOne: bool): (r: Option<nat>) {
    if zeroForOne then DeltaAmount1Unsigned(q, p, liquidity, false)
    else DeltaAmount0Unsigned(p, q, liquidity, false)
  }

  /** The input left for the curve once the fee rate is taken off. */
  function LessFee(amount: nat, feeRate: nat): (r: nat)
    requires feeRate < FEE_DENOMINATOR
    ensures IsFloor(r, amount * (FEE_DENOMINATOR - feeRate), FEE_DENOMINATOR)
    ensures r <= amount
  {
    var n := amount * (FEE_DENOMINATOR - feeRate);
    FloorOfDiv(n, FEE_DENOMINATOR);
    assert n <= amount * FEE_DENOMINATOR by {
      assert n == amount * FEE_DENOMINATOR - amount * feeRate;
    }
    n / FEE_DENOMINATOR
  }

  lemma LessFeeFits(amount: nat, feeRate: nat)
    requires feeRate < FEE_DENOMINATOR && amount <= U64_MAX
    ensures MulDivFloor64(amount, FEE_DENOMINATOR - feeRate, FEE_DENOMINATOR) == Some(LessFee(amount, feeRate))
  {
    ProductBound(amount, FEE_DENOMINATOR - feeRate, U64_MAX, FEE_DENOMINATOR);
    assert LessFee(amount, feeRate) <= U64_MAX;
  }

  /** Where the step ends: at the target if the amount suffices, otherwise where it runs out. */
  function NextPrice(current: nat, target: nat, liquidity: nat, remaining: nat, feeRate: nat,
                     baseInput: bool, zeroForOne: bool): (r: Option<nat>)
    requires feeRate < FEE_DENOMINATOR
  {
    if baseInput then
      var lessFee := LessFee(remaining, feeRate);
      var full :- InAmount(current, target, liquidity, zeroForOne);
      if lessFee >= full then Some(target) else NextFromInput(current, liquidity, lessFee, zeroForOne)
    else
      var full :- OutAmount(current, target, liquidity, zeroForOne);
      if remaining >= full then Some(target) else NextFromOutput(current, liquidity, remaining, zeroForOne)
  }

  /** The step by its meaning: the price it reaches and the amounts that price move costs. */
  function ComputeStep(current: nat, target: nat, liquidity: nat, remaining: nat, feeRate: nat,
                       baseInput: bool, zeroForOne: bool): (r: Option<SwapStep>)
    requires feeRate < FEE_DENOMINATOR
  {
    var next :- NextPrice(current, target, liquidity, remaining, feeRate, baseInput, zeroForOne);
    var amountIn :- InAmount(current, next, liquidity, zeroForOne);
    var out :- OutAmount(current, next, liquidity, zeroForOne);
    var amountOut := if baseInput then out else Min(out, remaining);
    if baseInput && next != target then
      if remaining < amountIn then None
      else Some(SwapStep(next, amountIn, amountOut, remaining - amountIn))
    else
      var fee :- MulDivCeil64(amountIn, feeRate, FEE_DENOMINATOR - feeRate);
      Some(SwapStep(next, amountIn, amountOut, fee))
  }

  /** The same step as the program computes it: amounts already known from the search for the
      price are reused when the target is reached, all others are computed afterwards. */
  method ComputeSwapStep(current: nat, target: nat, liquidity: nat, remaining: nat, feeRate: nat,
                         baseInput: bool, zeroForOne: bool) returns (r: Option<SwapStep>)
    requires feeRate < FEE_DENOMINATOR && remaining <= U64_MAX
    ensures r == ComputeStep(current, target, liquidity, remaining, feeRate, baseInput, zeroForOne)
  {
    hide DeltaAmount0Unsigned, DeltaAmount1Unsigned, NextFromInput, NextFromOutput, MulDivCeil64;
    LessFeeFits(remaining, feeRate);
    var next, amountIn, amountOut, feeAmount := 0, 0, 0, 0;
    if baseInput {
      var lessFee := MulDivFloor64(remaining, FEE_DENOMINATOR - feeRate, FEE_DENOMINATOR);
      if lessFee.None? { return None; }
      var full := if zeroForOne then DeltaAmount0Unsigned(target, current, liquidity, true)
                  else DeltaAmount1Unsigned(current, target, liquidity, true);
      if full.None? { return None; }
      amountIn := full.value;
      var price := if lessFee.value >= amountIn then Some(target)
                   else NextFromInput(current, liquidity, lessFee.value, zeroForOne);
      if price.None? { return None; }
      next := price.value;
    } else {
      var full := if zeroForOne then DeltaAmount1Unsigned(target, current, liquidity, false)
                  else DeltaAmount0Unsigned(current, target, liquidity, false);
      if full.None? { return None; }
      amountOut := full.value;
      var price := if remaining >= amountOut then Some(target)
                   else NextFromOutput(current, liquidity, remaining, zeroForOne);
      if price.None? { return None; }
      next := price.value;
    }
    var max := target == next;
    if zeroForOne {
      if !(max && baseInput) {
        var x := DeltaAmount0Unsigned(next, current, liquidity, true);
        if x.None? { return None; }
        amountIn := x.value;
      }
      if !(max && !baseInput) {
        var x := DeltaAmount1Unsigned(next, current, liquidity, false);
        if x.None? { return None; }
        amountOut := x.value;
      }
    } else {
      if !(max && baseInput) {
        var x := DeltaAmount1Unsigned(current, next, liquidity, true);
        if x.None? { return None; }
        amountIn := x.value;
      }
      if !(max && !baseInput) {
        var x := DeltaAmount0Unsigned(current, next, liquidity, false);
        if x.None? { return None; }
        amountOut := x.value;
      }
    }
    if !baseInput && amountOut > remaining {
      amountOut := remaining;
    }
    if baseInput && next != target {
      if remaining < amountIn { return None; }
      feeAmount := remaining - amountIn;
    } else {
      var fee := MulDivCeil64(amountIn, feeRate, FEE_DENOMINATOR - feeRate);
      if fee.None? { return None; }
      feeAmount := fee.value;
    }
    return Some(SwapStep(next, amountIn, amountOut, feeAmount));
  }
}
