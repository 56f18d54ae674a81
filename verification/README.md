# pump-swap-sdk: a verified model of its pricing, planning and decoding

This project models the parts of pump-swap-sdk that decide how much money moves and
proves what they promise. Nothing here runs the SDK; every statement holds for all
inputs, all runs or all reachable states of the model.

- **Pricing** (`Arith`, `MachineInts`, `FeeSchedule`, `Curve`, `Float64`, `Slippage`,
  `Quotes`, `TokenQuotes`): the constant-product curve, the three-component fee and the three swap
  quotes in 64/128-bit integers, with saturation written out, and the slippage limits
  in binary64 arithmetic (IEEE 754-2019, section 4.3.1) expressed over integers.
- **The pool over time** (`Pool`, `FeeLadder`, `PoolRun`): account decoding, effective
  reserves, the market-cap ladder, and a step machine of swaps and sweeps in which the
  part of a fee that stays in the priced reserve, and the part kept in the vault for a
  later sweep, are arbitrary at every step.
- **The payout planner** (`SweepPlan`): creator-fee sweeps planned from a read that may
  be stale when the transaction executes.
- **The trader-intent compiler** (`TradeIntent`): "buy/sell the token" compiled to
  instructions, against a ledger of wallet, temporary wrapped-SOL account and token
  account.
- **Account decoding** (`Bytes`, `AccountReader`, `AccountDecoders`, `VolumeDays`): the
  borsh cursor as a class, four account decoders with matching encoders (little-endian
  integers, one-byte bool and enum tags, 32-bit-length-prefixed vectors, as the Borsh
  specification has them), and the day buckets.
- **The client pool** (`JitoPool`): ticket counter and cooldown table as a class, and a
  step machine that interleaves any number of callers.

Where the source is pure the model is functions and lemmas. Where it works by changing
state (`Reader`, `JitoPool`, the instruction builders) the model is classes and methods
with loops, each proved against a specification.

Main results:

- No run of swaps, under any fee schedules and any retention of fees, makes the traders
  better off; holding at least as much base as before, they have paid at least every fee
  that left the price (`PoolRun.NoArbitrage`).
- Splitting does not pay: a sale cut up over a run pays at most two units more than one
  sale of the whole, and a purchase cut up buys nothing that two more units fed at once
  would not, when no fee stays in the price; both slacks are reached. A fee that does stay
  in the price makes splitting pay (`PoolRun.SplitSaleGainsAtMostTwo`,
  `SplitPurchaseGainsAtMostTwo`, `SplittingPaysWhenFeesStay`).
- For fees of at most 100%, spending the total of an exact-out quote through the exact-in
  instruction always buys strictly less, five units more always buy it, and four need not
  (`Quotes.ExactOutTotalBuysStrictlyLess`, `FiveMoreUnitsBuyTheOutput`,
  `FourMoreUnitsMayNot`).
- A payout plan is never refused for an unswept fee, however stale its read, and the
  planner leaves the curve sweep out exactly when that is safe
  (`SweepPlan.StaleReadIsSafe`, `CurveSweepIffNeeded`).
- A compiled buy or sell does on the ledger exactly what the quote says, on both pool
  orientations, with the exact conditions of success and of a slippage refusal
  (`TradeIntent.TokenBuyMeaning`, `TokenSellMeaning`).
- Each decoder is the exact inverse of its encoder (`AccountDecoders`).
- A slippage limit is the exact product rounded, within the error of the floating-point
  steps, at every slippage (`Slippage.MinimumAtEverySlippage`, `CapAtEverySlippage`), and
  accepts the amount it was derived from except exactly when the slippage vanishes in
  binary64 and the amount moves the wrong way (`FloorIsSafeIff`, `CapIsSafeIff`).
- A pool state pays the last ladder rung that supply times effective price reaches
  (`FeeLadder.LadderFeesFor`).

Found on the way; in each case the model follows the code:

- Above 2^53 a minimum can exceed the fill it was derived from, by up to 1024 units,
  because the amount is rounded to binary64 first (src/math.rs:56-59). For a given fill
  and slippage that happens exactly when `1.0 - slippage` rounds to 1 or more (a slippage
  of at most 2^-54, zero and negative values included) and the fill rounds up; any larger
  slippage is safe (`Slippage.FloorIsSafeIff`). A sale that its own minimum refuses is
  `Quotes.SaleRefusedByItsMinimum`.
- In the same way a spending cap can fall below its own total (src/math.rs:178-179), by up
  to 1024 units: exactly when `1.0 + slippage` rounds to 1 (a slippage of at most 2^-53,
  negative or not a number) and the total rounds down (`Slippage.CapIsSafeIff`). A purchase
  that its own cap refuses is `Quotes.PurchaseRefusedByItsCap`.
- Fee and net of an exact-in quote do not add up to the spend exactly when one unit is
  charged and its fee is above the whole spend, for every schedule whose components sum
  to a 64-bit rate; up to 100% that is one spend only, two units against three non-zero
  components (`Quotes.FeePlusNetIsSpend`, `FeePlusNetUpToFullRate`). Beyond a 64-bit sum
  it can fail for larger charges (`Quotes.SaturatedRateBreaksTheSplit`).
- Beyond 100%, what a spend buys can cost more outright, exactly when its price is above
  the charged part of the spend (`Quotes.OutrightIsCheaperIff`, `OutrightCanCostMore`).
- Beyond 100%, an exact-out total cut down to 64 bits can buy its output again, exactly
  when `Quotes.ExactOutTotalBuysStrictlyLess` says.
- The comment at src/state.rs:554-557 says an empty ladder falls back to the most
  expensive schedule; the code at src/state.rs:572-575 falls back to the flat fees
  (`FeeLadder.TieredPoolPaysARung`).
- A curve price that does not fit in 64 bits is reported as the largest 64-bit value,
  which does not buy the output (`Curve.CurveInverse`, `CurveInverseExceptionIsReal`).
- `day_index` subtracts two 64-bit timestamps; a window more than 2^63 - 1 seconds long
  can give a wrong day, exactly when `VolumeDays.DayIndexIsRightIff` says; one such
  window is `VolumeDays.DayIndexCanBeWrong`.

## Model

| member | source | states |
|---|---|---|
| FeeSchedule.FeeOnIsCappedSum | src/state.rs:440-445 | saturating after every component equals the exact three-part fee capped once at 64 bits |
| FeeSchedule.FeeOnBounds | src/state.rs:412-445 | the fee is never below the combined rate rounded up once, and at most two units above it while the three rates sum to at most 64 bits |
| FeeSchedule.FeeOnBoundsAreSharp | src/state.rs:435-445 | both ends of that bound are reached |
| FeeSchedule.FeeCoversAmount | src/state.rs:440-445 | from 100% on the fee is at least the whole amount |
| FeeSchedule.FeeOnSubadditive | src/state.rs:440-445 | the fee on a sum is at most the sum of the fees |
| FeeSchedule.FeeOnGrowth | src/state.rs:440-445 | up to 100%, the fee grows by at most the growth of the amount plus two |
| Curve.OutIsGreatest | src/math.rs:35-42 | the output is the greatest amount that keeps the product from falling, is below the reserve, and the 64-bit fallback is never taken |
| Curve.OutMonotone | src/math.rs:35-42 | a larger input never buys less |
| Curve.InIsCappedExact | src/math.rs:47-54 | there is a price exactly below the reserve, and it is the exact price capped at 64 bits |
| Curve.CurveInverse | src/math.rs:35-54 | the price of an output is the least input that yields it, except exactly for a price cut down to 64 bits against the largest input |
| Curve.CurveInverseExceptionIsReal | src/math.rs:47-54 | that exception is reachable |
| Float64.RoundIsNearest | src/math.rs:56-59 | the rounding used for amounts is to a nearest binary64 value |
| Float64.RoundScale | src/math.rs:56-59 | rounding depends on the value, not on the exponent it is written with |
| Slippage.MinimumAtEverySlippage | src/math.rs:56-59 | at every slippage: the exact product rounded down within two below and one above up to 2^53, exactly rounded down while it needs no rounding, within a 2^-51 part beyond; nothing from a slippage of one on; the binary64 amount when negative |
| Slippage.CapAtEverySlippage | src/math.rs:178-179 | at every slippage: the exact product rounded up, cut to 64 bits, within the same kind of bounds, with `u32::MAX` as the largest factor; the binary64 total when negative or not a number |
| Slippage.FloorError | src/math.rs:56-59 | the minimum is that of the amount, at most the fill up to 2^53, equal there when the slippage vanishes in binary64, and never more than 1024 above |
| Slippage.CapError | src/math.rs:178-179 | the spending cap is that of the total, at least the total up to 2^53, equal there when the slippage vanishes in binary64, and never more than 1024 below |
| Slippage.FloorIsSafeIff | src/math.rs:56-59 | for every fill and slippage: the minimum is at most the fill exactly unless one minus the slippage rounds to 1 or more and the fill grows in binary64 |
| Slippage.CapIsSafeIff | src/math.rs:178-179 | for every total and slippage: the cap is at least the total exactly unless one plus the slippage rounds to 1 and the total shrinks in binary64 |
| Slippage.FloorFactor | src/math.rs:57-57 | the clamped factor is a binary64 value of at most one, and one exactly for a slippage of at most 2^-54 or negative |
| Slippage.CapFactor | src/math.rs:178-179 | the cap's factor is a binary64 value of at least one, and one exactly for a slippage of at most 2^-53, negative or not a number |
| Slippage.FloorExceedsFillByFullError | src/math.rs:56-59 | a fill whose minimum is 1024 above it at every slippage too small to count |
| Slippage.CapFallsShortByFullError | src/math.rs:178-179 | a total whose cap is 1024 below it at every slippage too small to count |
| Quotes.ChargedIsGreatest | src/math.rs:145-146 | the charged amount is the greatest whose fee-inclusive cost is within the spend |
| Quotes.ChargedPlusFee | src/math.rs:145-147 | charged amount and its fee exceed the spend by at most two while the rates sum to at most 64 bits |
| Quotes.SplitIffFeeWithinSpend | src/math.rs:145-148 | under any schedule fee and net add up to the spend exactly when the fee on the charged amount is within it |
| Quotes.FeePlusNetIsSpend | src/math.rs:145-148 | for every rate that fits in 64 bits, fee and net add up to the spend exactly unless one unit is charged at a fee above the spend |
| Quotes.FeePlusNetUpToFullRate | src/math.rs:145-148 | up to 100% the only exception is a spend of two against three non-zero components |
| Quotes.SaturatedRateBreaksTheSplit | src/math.rs:145-148 | a schedule beyond 64 bits of rate where a charge of 9999 breaks the split |
| Quotes.NetAtMostChargedPlusOne | src/math.rs:145-148 | the net is at most one unit above the charged amount |
| Quotes.OutrightIsCheaperIff | src/math.rs:138-186 | under any schedule what a spend buys has an outright price, and costs strictly less exactly when that price is within the charged part of the spend |
| Quotes.ExactInNeverBeatsExactOut | src/math.rs:138-186 | up to 100% buying outright what a spend buys costs strictly less than the spend |
| Quotes.OutrightCanCostMore | src/math.rs:138-186 | at 200% a spend of five that buys what costs six outright |
| Quotes.ExactOutTotalBuysStrictlyLess | src/math.rs:138-186 | the total of an exact-out quote, spent exact-in, buys strictly less, exactly up to 100%, or without saturation, or when the largest spend nets at most the exact price |
| Quotes.SaturatedTotalCanBuyMore | src/math.rs:168-186 | beyond 100% and with a saturated total that ordering can fail |
| Quotes.FiveMoreUnitsBuyTheOutput | src/math.rs:138-186 | five units above the exact-out total always buy the output exact-in |
| Quotes.FourMoreUnitsMayNot | src/math.rs:138-186 | four units do not always |
| Quotes.SellPaysNetOfRate | src/math.rs:105-121 | a sale pays the output net of the combined rate rounded down, or up to two less, never more |
| Quotes.SellNearMonotone | src/math.rs:105-121 | under any schedule a larger sale pays at least the smaller one's amount minus two |
| Quotes.SellSlackIsSharp | src/math.rs:105-121 | a sale where exactly two are lost |
| Quotes.NetNearMonotone | src/math.rs:145-148 | up to 100% a larger spend nets at least the smaller one's net minus two |
| Quotes.NetSlackIsSharp | src/math.rs:145-148 | a spend where exactly two are lost |
| Quotes.NetSlackBeyondFullRate | src/math.rs:145-148 | at 400% a spend where three are lost |
| Quotes.SaleFields | src/math.rs:105-121 | every field of a sale: greatest gross output, exact fee cut to 64 bits, payout, and the minimum of the payout |
| Quotes.ExactInOutput | src/math.rs:138-160 | an exact-in buy gets the greatest output for what the spend leaves after the fee and one unit |
| Quotes.ExactInFields | src/math.rs:138-160 | its fee is the exact one on the charged part cut to 64 bits, gross and net output are the same, and the minimum is that of the output |
| Quotes.ExactOutFields | src/math.rs:168-186 | priced exactly below the reserve; price, fee and total are the exact ones cut to 64 bits, and the cap is that of the total |
| Quotes.QuotedLimitsAcceptTheFill | src/math.rs:105-186 | each limit of the three quotes accepts the quoted fill exactly unless the slippage vanishes in binary64 and the amount moves the wrong way |
| TokenQuotes.OrientationByMint | src/math.rs:194-227 | a base mint of wrapped SOL makes a token buy a sale of base and a token sell an exact-in buy, any other base mint the reverse, both at the adjusted and clamped reserves |
| Quotes.MissesAreSmall | src/math.rs:56-59 | such misses need an amount above 2^53 and are of at most 1024 |
| Quotes.SaleRefusedByItsMinimum | src/math.rs:105-121 | a fee-free sale whose quoted minimum is 1024 above its own fill |
| Quotes.PurchaseRefusedByItsCap | src/math.rs:168-186 | a fee-free purchase whose quoted cap is 1024 below its own total |
| Pool.EffectiveQuoteIsClampedSum | src/state.rs:240-247 | the effective reserve is the exact signed sum clamped to 64 bits; the 128-bit saturation never shows |
| Pool.DecodedExactly | src/state.rs:172-231 | refused exactly below 245 bytes; any byte but zero sets a flag; length, address and programs are those given |
| Pool.Truncation | src/state.rs:172-231 | cutting an account anywhere past the struct zeroes exactly the incomplete trailing fields and changes nothing else but the length |
| Pool.RoundTrip | src/state.rs:172-231 | an encoded pool account, with any tail, decodes to what was encoded |
| Bytes.SignedRoundTrip | src/state.rs:191-195 | signed little-endian fields round-trip over their whole range |
| FeeLadder.LookupIsHighest | src/state.rs:578-583 | on an ascending ladder the reverse scan finds the highest threshold at or below the market cap, or there is none |
| FeeLadder.TieredPoolPaysARung | src/state.rs:558-576 | a tiered pool pays the highest rung reached, else the first; only an empty ladder gives the flat fees |
| FeeLadder.FlatFeesFor | src/client.rs:280-297 | an all-zero coin creator or an empty ladder gives the flat fees |
| FeeLadder.LadderFeesFor | src/client.rs:280-297 | any other pool pays the last rung whose threshold times base is within supply times effective quote, or the first rung if none is |
| FeeLadder.MarketCapIsGreatest | src/math.rs:264-269 | the market cap is the greatest amount that supply times price covers |
| FeeLadder.FeesNeverRiseWithPrice | src/client.rs:280-297 | on a ladder that is cheaper above, a pool whose price rose never costs more |
| PoolRun.FillFeeIsNotNegative | src/math.rs:105-186 | no fill takes less from the trader than goes to the curve |
| PoolRun.FillKeepsProduct | src/math.rs:105-186 | every fill keeps both reserves positive and their product from falling |
| PoolRun.SwapAcceptedIff | src/state.rs:61-84 | a swap goes through exactly when it keeps at most its fee, the vault can pay, and nothing outgrows 64 bits; each kept part arrives at its own place |
| PoolRun.SweepAcceptedIff | src/state.rs:61-84 | a sweep goes through exactly when the vault holds the fee, and pays out that one fee and nothing else |
| PoolRun.OutrightFill | src/math.rs:168-186 | an exact-out swap moves the exact price and takes price and fee, both cut to 64 bits |
| PoolRun.SwapStep | src/state.rs:61-84 | an accepted swap keeps the clamp idle and the boost constant, and moves the effective reserves by the fill and the share left in the price |
| PoolRun.SweepMovesNoPrice | src/state.rs:61-84 | a sweep changes neither effective reserves, nor fee schedule, nor any quote |
| PoolRun.RunInvariant | src/math.rs:105-186 | over a run base and quote are conserved up to fees off the price, the product never falls, the boost is constant |
| PoolRun.NoArbitrage | src/math.rs:105-186 | no run leaves the traders with at least as much of one side and more of the other |
| PoolRun.TokenTradesAreQuotes | src/math.rs:194-227 | the swaps that buy and sell the token take the input on the side of its mint and pay the quoted output on the other |
| PoolRun.BuyThenSellNeverGains | src/math.rs:194-227 | buying and selling back everything bought never returns more SOL than was spent, on either orientation |
| PoolRun.SplitSaleGainsAtMostTwo | src/math.rs:105-121 | over a run of sales under one schedule, none of whose fee stays in the price, with sweeps in between, the traders get at most two units more than one sale of the whole |
| PoolRun.SplitSaleSlackIsSharp | src/math.rs:105-121 | two sales that get exactly two more |
| PoolRun.SplittingPaysWhenFeesStay | src/math.rs:105-121 | with the fee left in the price two halves get 270 where the whole gets 250 |
| PoolRun.SplitPurchaseGainsAtMostTwo | src/math.rs:138-160 | over such a run of exact-in buys, the curve's price of all that is bought is at most two above what one spend of the total feeds it |
| PoolRun.SplitPurchaseSlackIsSharp | src/math.rs:145-150 | two spends that feed the curve exactly two more than one |
| PoolRun.StalePairError | src/state.rs:233-247 | an old pool account with new vault balances misprices by exactly the change in waiting fees, up to clamping |
| PoolRun.StalePairOverstatesByKept | src/client.rs:327-337 | with no sweep in between the error is exactly the fees kept |
| PoolRun.LadderFollowsTrade | src/client.rs:280-297 | a buy never raises and a sell never lowers the ladder cost |
| PoolRun.LadderFallsAlongBuys | src/client.rs:280-297 | along a run of buys and sweeps the ladder cost never rises |
| SweepPlan.CurveFeeIsRead | src/state.rs:260-269 | exactly tagged accounts are read; the fee is that of bytes 125 to 132, and nothing on an account that ends before them |
| SweepPlan.CurveFeeRoundTrip | src/state.rs:260-269 | a fee written behind 125 tagged bytes is read back under any tail |
| SweepPlan.AccountsAreRead | src/client.rs:1137-1160 | the two accounts are read as a coin exactly if they are that coin's |
| SweepPlan.BuildCreatorFeeSweepIxs | src/client.rs:1129-1169 | which accounts are refused and why, and for every coin whose accounts these are the sweeps planned and that they are safe |
| SweepPlan.ActiveShareholders | src/client.rs:1209-1231 | addresses in stored order exactly for a config that exists and is active |
| SweepPlan.BuildCreatorFeeWithdrawIxs | src/client.rs:1097-1114 | sweeps, then transfer, then payout to the shareholders in order; which inputs are refused and why; from any later state of the coin whose accounts were read never refused for an unswept fee |
| SweepPlan.EvolveKeeps | src/client.rs:1121-1124 | whatever happens, a graduated coin's curve can only lose its fee |
| SweepPlan.EvolveConserves | src/client.rs:1121-1124 | whatever happens, a coin's fees are those it had and those of its trades |
| SweepPlan.StaleReadIsSafe | src/client.rs:1078-1081 | a plan from any read, executed at any later time, is never refused for an unswept fee |
| SweepPlan.SafeWithoutCurveSweepIff | src/client.rs:1118-1124 | leaving the curve sweep out is safe exactly for a graduated coin with nothing on its curve |
| SweepPlan.CurveSweepIffNeeded | src/client.rs:1147-1156 | the planner sweeps the curve exactly when leaving it out would not be safe |
| SweepPlan.SweepsInOwnTransaction | src/client.rs:1126-1128 | after sweeps in a transaction of their own the payout is safe exactly if the coin has graduated |
| SweepPlan.PayoutPaysEverything | src/client.rs:1046-1048 | for a plan from any read, a coin without a curve included: when the payout succeeds, and that it then pays everything swept and transferred, conserving the total |
| SweepPlan.EditedSplitIsRefused | src/client.rs:1046-1048 | a split edited to other shareholders after the read makes the payout fail |
| SweepPlan.PoolFeeSinceReadStays | src/client.rs:1118-1124 | a plan read before graduation still pays, and leaves the pool's fee since then in the pool |
| SweepPlan.PaidOnce | src/client.rs:1046-1048 | of two equal plans the second pays nothing |
| TradeIntent.BuildTokenBuyIxs | src/client.rs:1493-1562 | the instruction list of a buy, whose execution in any market is exactly a buy, and never succeeds on a pool without a SOL side |
| TradeIntent.BuildTokenSellIxs | src/client.rs:1573-1645 | the instruction list of a sell, whose execution in any market is exactly a sell, and never succeeds on a pool without a SOL side |
| TradeIntent.TokenBuyMeaning | src/client.rs:1484-1562 | on both orientations a buy comes to the quote at the same reserves, with exact success and slippage conditions, rent returned |
| TradeIntent.TokenSellMeaning | src/client.rs:1564-1645 | the same for a sell, including the optional close of the token account |
| TradeIntent.NoSolSideNeverTrades | src/client.rs:1527-1560 | neither list succeeds on a pool without a SOL side |
| TradeIntent.FillsAreQuotes | src/math.rs:194-227 | what each orientation's swap instruction pays is what the token quote promises |
| TradeIntent.QuotedMinimumIsAccepted | src/client.rs:299-302 | a minimum taken from the quote at the same reserves refuses a funded trade exactly when it misses the fill in binary64 |
| AccountReader.Reader.AfterDiscriminator | src/state.rs:299-309 | opens exactly the accounts that start with the expected tag, past it |
| AccountReader.Reader.Take | src/state.rs:311-324 | the next bytes, or an error that leaves the cursor where it was |
| AccountReader.Reader.I64 | src/state.rs:354-356 | reads the value whose two's-complement bytes are there |
| AccountReader.Reader.Bool | src/state.rs:334-340 | succeeds exactly on a byte 0 or 1 |
| AccountReader.Reader.U64Array | src/state.rs:358-364 | succeeds exactly if all elements are there, and reads them in order |
| AccountReader.Reader.VecCount | src/state.rs:381-390 | passes exactly if the announced elements fit in the rest |
| AccountReader.Reader.Tiers | src/state.rs:381-392 | once the guard passes every tier is read, and the cursor ends exactly behind the last |
| AccountReader.Reader.Shareholders | src/state.rs:381-392 | once the guard passes every shareholder is read, and the cursor ends exactly behind the last |
| AccountReader.GuardIsNecessary | src/state.rs:386-390 | the guard never refuses a vector that is there |
| AccountReader.VecUnique | src/state.rs:381-392 | at most one vector starts at a position |
| AccountDecoders.FeeConfigFromAccountData | src/state.rs:512-521 | returns x on encode(x) and any tail, only such inputs succeed, and proper prefixes are refused |
| AccountDecoders.FeeConfigPrefixFree | src/state.rs:512-521 | no encoded FeeConfig is a prefix of another |
| AccountDecoders.KindsAreToldApart | src/state.rs:271-290 | no input starts with encodings of two of the four kinds of accounts |
| AccountDecoders.FirstEightBytes | src/state.rs:271-290 | the discriminator bytes of the four encodings |
| AccountDecoders.ReadStatus | src/state.rs:849-855 | a status is one byte, 0 or 1, and nothing else |
| AccountDecoders.SharingConfigFromAccountData | src/state.rs:921-933 | returns x on encode(x) and any tail, only such inputs succeed, and proper prefixes are refused |
| AccountDecoders.UserVolumeFromAccountData | src/state.rs:744-761 | returns x on encode(x) and any tail, only such inputs succeed, and proper prefixes are refused |
| AccountDecoders.GlobalVolumeFromAccountData | src/state.rs:801-815 | returns x on encode(x) and any tail, only such inputs succeed, and proper prefixes are refused |
| VolumeDays.NoDayOutsideWindow | src/state.rs:820-831 | outside the half-open window, or with a day of no length, there is no day, whatever time has elapsed |
| VolumeDays.DayIndexIsBucket | src/state.rs:828-836 | while the subtraction does not overflow, the index is d exactly when the time lies in the window and in bucket d |
| VolumeDays.DayIndexMonotone | src/state.rs:828-836 | later times never fall into earlier buckets |
| VolumeDays.DayIndexIsRightIff | src/state.rs:828-836 | exactly when the index is right, overflow included |
| VolumeDays.DayIndexCanBeWrong | src/state.rs:828-836 | a window and a time in day 2 that is put in day 0 |
| JitoPool.JitoPool.New | src/util.rs:42-58 | refuses exactly an empty endpoint list; every region is usable at once |
| JitoPool.JitoPool.TakeTicket | src/util.rs:63-63 | the region comes from the counter's old value, which wraps |
| JitoPool.JitoPool.TryReserve | src/util.rs:66-75 | reserves exactly a region whose time has come and touches no other; a refusal changes nothing and its wait ends when the region is free |
| JitoPool.JitoPool.NextClient | src/util.rs:62-84 | the ticket's client, no earlier than its cooldown allowed, on cooldown from then on; a free region at once, else after asking to sleep exactly the rest of the cooldown |
| JitoPool.RunKeepsInvariant | src/util.rs:60-84 | under any interleaving the table tells each region's last reservation, tickets are in order, callers are served once |
| JitoPool.Cooldown | src/util.rs:26-29 | two reservations of a region are at least the interval apart, in any run |
| JitoPool.RefusedIffCoolingDown | src/util.rs:69-74 | an attempt is refused exactly while a reservation of its region is less than the interval old |
| JitoPool.NewCallerMayTry | src/util.rs:62-69 | a new caller may try at once |
| JitoPool.WaitsExactlyUntilFree | src/util.rs:69-83 | a refused caller may try again exactly when its region has become free, and is served then if undisturbed |
| JitoPool.CancelledIsNeverServed | src/util.rs:60-84 | a caller that gave up while waiting never holds a reservation |
| JitoPool.RefusedAgainMeansOvertaken | src/util.rs:65-83 | a caller refused again after waiting as told lost its region to another caller in between |
| JitoPool.WindowBound | src/util.rs:60-84 | a window of length W sees at most W/interval + 1 reservations of a region |
| JitoPool.DrawsAreFair | src/util.rs:63-63 | among m consecutive tickets each region is drawn floor(m/n) or ceil(m/n) times |
| JitoPool.CallersSpreadEvenly | src/util.rs:60-63 | in any run, m callers in a row are spread that evenly while the counter has not wrapped |

## Left out

- RPC fetching, signing, sending, simulation and Jito HTTP: I/O. The two accounts the planner fetches are parameters, read as one snapshot.
- Address derivation, account-meta lists, discriminators of instructions and their byte layouts: fixed data; keys are opaque 32-byte strings.
- `calc_amount_out`: a legacy float curve documented as not pricing real swaps.
- The other base/quote-oriented builders and the `_v2` payout: the same shape as the ones modelled.
- The on-chain programs: only rules the repository documents are modelled. Which check of a payout comes first, and the order of checks inside a swap, are fixed by the model; a refusal for an unswept fee is checked first, which makes the safety result stronger.
- Graduation is modelled as documented: the curve takes no more trades, and its waiting fee stays on it.
- `GlobalConfig` decoding and the stable ladder: no branch that the other decoders and the standard ladder do not have; no quote mint selects the stable ladder in the source.
- Log and error message texts, and reserve orientation for display.
- The per-trade swap cost of extending a pool account: a parameter of the ledger.
- Vector reading over an arbitrary element reader: written out for its two element types, because a method cannot take a method.
- The 64-bit offset overflow check of the cursor: offsets are unbounded here, and no account is near that size.
- Fairness of the scheduler: `NextClient` is proved to return without interference; under interleaving a caller is only ever refused again because another one was served (`RefusedAgainMeansOvertaken`), not proved to be served eventually.
- Subnormal results and binary64 overflow in the slippage factor: neither can occur for the operations involved, as the comment in `Slippage.dfy` explains.
