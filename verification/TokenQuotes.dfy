/**
"Buy the token" and "sell the token" priced on either pool orientation, at the
reserves the program prices against (`src/math.rs`).
*/
module TokenQuotes {
  import opened FeeSchedule
  import opened MachineInts
  import opened Pool
  import opened Quotes
  import opened Slippage

  /** Spend exactly `solIn`, receive tokens. */
  function TokenBuyQuote(solIn: u64, reserves: (u64, u64), pool: PoolInfo, fees: Fees, slippage: F64): SwapQuote {
    var (base, quote) := pool.EffectiveReserves(reserves.0, reserves.1);
    if pool.SolIsBase() then QuoteSell(solIn, base, quote, fees, slippage)
    else QuoteBuyExactQuoteIn(solIn, base, quote, fees, slippage)
  }

  /** Spend exactly `tokensIn`, receive lamports. */
  function TokenSellQuote(tokensIn: u64, reserves: (u64, u64), pool: PoolInfo, fees: Fees, slippage: F64): SwapQuote {
    var (base, quote) := pool.EffectiveReserves(reserves.0, reserves.1);
    if pool.SolIsBase() then QuoteBuyExactQuoteIn(tokensIn, base, quote, fees, slippage)
    else QuoteSell(tokensIn, base, quote, fees, slippage)
  }

  /**
  The base mint decides the direction: where it is wrapped SOL, buying the token sells
  base, anywhere else it buys base; prices are those of the adjusted, clamped quote side.
  */
  lemma OrientationByMint(amount: u64, reserves: (u64, u64), pool: PoolInfo, fees: Fees, slippage: F64)
    ensures var (base, quote) := (reserves.0, Clamp(reserves.1 + pool.virtualQuoteReserves, 0, U64_MAX));
            var sold := QuoteSell(amount, base, quote, fees, slippage);
            var bought := QuoteBuyExactQuoteIn(amount, base, quote, fees, slippage);
            && TokenBuyQuote(amount, reserves, pool, fees, slippage)
               == (if pool.baseMint == WRAPPED_SOL_MINT then sold else bought)
            && TokenSellQuote(amount, reserves, pool, fees, slippage)
               == (if pool.baseMint == WRAPPED_SOL_MINT then bought else sold)
  {
    EffectiveQuoteIsClampedSum(pool, reserves.0, reserves.1);
  }
}
