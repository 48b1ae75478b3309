/** The price reached by adding or removing a token amount (sqrt_price_math.rs).
    Prices are square roots of token_1 / token_0 in Q64.64. */
module SqrtPriceMath {
  import opened Wrappers
  import opened FullMath

  /** sqrtP * L / (L +- amount * sqrtP), rounded up so that the price never moves too far. The
      overflow form of the original's add branch is dead: amount * sqrtP needs 192 bits at most. */
  function NextFromAmount0RoundingUp(sqrtPrice: nat, liquidity: nat, amount: nat, add: bool): (r: Option<nat>) {
    if amount == 0 then Some(sqrtPrice)
    else
      var numerator := liquidity * Q64;
      var product := amount * sqrtPrice;
      if add then
        MulDivCeil(numerator, sqrtPrice, numerator + product, U256_MAX, U128_MAX)
      else if numerator < product then None
      else MulDivCeil(numerator, sqrtPrice, numerator - product, U256_MAX, U128_MAX)
  }

  /** sqrtP +- amount / L, rounded down. */
  function NextFromAmount1RoundingDown(sqrtPrice: nat, liquidity: nat, amount: nat, add: bool): (r: Option<nat>) {
    if liquidity == 0 then None
    else if add then
      var quotient := amount * Q64 / liquidity;
      if quotient > U128_MAX || sqrtPrice + quotient > U128_MAX then None else Some(sqrtPrice + quotient)
    else
      var quotient := DivRoundingUp(amount * Q64, liquidity);
      if quotient > U128_MAX || sqrtPrice < quotient then None else Some(sqrtPrice - quotient)
  }

  function NextFromInput(sqrtPrice: nat, liquidity: nat, amountIn: nat, zeroForOne: bool): (r: Option<nat>) {
    if sqrtPrice == 0 || liquidity == 0 then None
    else if zeroForOne then NextFromAmount0RoundingUp(sqrtPrice, liquidity, amountIn, true)
    else NextFromAmount1RoundingDown(sqrtPrice, liquidity, amountIn, true)
  }

  function NextFromOutput(sqrtPrice: nat, liquidity: nat, amountOut: nat, zeroForOne: bool): (r: Option<nat>) {
    if sqrtPrice == 0 || liquidity == 0 then None
    else if zeroForOne then NextFromAmount1RoundingDown(sqrtPrice, liquidity, amountOut, false)
    else NextFromAmount0RoundingUp(sqrtPrice, liquidity, amountOut, false)
  }
}
