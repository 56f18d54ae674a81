/**
A pool over whole runs of swaps and sweeps. Every swap is priced by the quote functions
at the effective reserves; which part of the fee stays in the priced reserve, and which
part is kept in the vault for a later sweep, is free at every step.
*/
module PoolRun {
  import opened Arith
  import opened Curve
  import opened FeeLadder
  import opened FeeSchedule
  import opened MachineInts
  import opened Pool
  import opened Quotes
  import opened Slippage
  import opened TokenQuotes

  /** A pool account together with its two vault balances. */
  datatype PoolState = PoolState(info: PoolInfo, baseVault: u64, quoteVault: u64) {

    function Effective(): (u64, u64) {
      info.EffectiveReserves(baseVault, quoteVault)
    }

    /** Fees waiting in the quote vault. */
    function Waiting(): nat {
      info.protocolFees + info.creatorFees
    }

    /** The pool's virtual liquidity apart from waiting fees. */
    function Boost(): int {
      info.virtualQuoteReserves + Waiting()
    }

    /** Both sides hold liquidity, and the signed sum fits without clamping. */
    ghost predicate Sound() {
      && 0 < baseVault
      && 0 < quoteVault + info.virtualQuoteReserves <= U64_MAX
    }

    ghost function Product(): nat {
      Effective().0 * Effective().1
    }
  }

  datatype Trade = Sell(baseIn: u64) | BuyExactIn(quoteIn: u64) | BuyExactOut(baseOut: u64)

  /** How much of a swap's fee joins the priced reserve, and how much waits for a sweep. */
  datatype Kept = Kept(lp: nat, protocol: nat, creator: nat) {
    function Total(): nat {
      lp + protocol + creator
    }
  }

  datatype Step =
    | Swap(trade: Trade, fees: Fees, kept: Kept)
    | SweepProtocolFees
    | SweepCreatorFees

  /** What a swap moves: into the curve on each side, and out of the trader's quote. */
  datatype Fill = Fill(baseIn: int, quoteIn: int, traderPays: int) {
    /** Quote the trader gave up that neither the curve nor the trader has. */
    function Fee(): int {
      traderPays - quoteIn
    }
  }

  /** A fill does not depend on the slippage setting; only the unused limit of the quote does. */
  const ANY_SLIPPAGE: F64 := NaN

  function FillOf(trade: Trade, fees: Fees, base: u64, quote: u64): Option<Fill> {
    match trade
    case Sell(baseIn) =>
      var q := QuoteSell(baseIn, base, quote, fees, ANY_SLIPPAGE);
      Some(Fill(baseIn, 0 - q.grossAmountOut, 0 - q.amountOut))
    case BuyExactIn(quoteIn) =>
      var q := QuoteBuyExactQuoteIn(quoteIn, base, quote, fees, ANY_SLIPPAGE);
      Some(Fill(0 - q.amountOut, FedToCurve(quoteIn, fees), quoteIn))
    case BuyExactOut(baseOut) =>
      match QuoteBuyExactBaseOut(baseOut, base, quote, fees, ANY_SLIPPAGE)
      case None => None
      case Some(q) => Some(Fill(0 - baseOut, q.quoteAmountIn, q.totalQuoteIn))
  }

  predicate FitsU64(n: int) {
    0 <= n <= U64_MAX
  }

  /** Book a fill; refused when it keeps more than its fee or a balance leaves 64 bits. */
  function ApplyFill(s: PoolState, fill: Fill, kept: Kept): Option<PoolState> {
    var base' := s.baseVault + fill.baseIn;
    var quote' := s.quoteVault + fill.quoteIn + kept.Total();
    var virtual' := s.info.virtualQuoteReserves - kept.protocol - kept.creator;
    var protocol' := s.info.protocolFees + kept.protocol;
    var creator' := s.info.creatorFees + kept.creator;
    if kept.Total() <= fill.Fee() && FitsU64(base') && FitsU64(quote') && FitsU64(quote' + virtual')
       && FitsU64(protocol') && FitsU64(creator')
    then
      Some(PoolState(
             s.info.(virtualQuoteReserves := virtual', protocolFees := protocol', creatorFees := creator'),
             base', quote'))
    else None
  }

  /** One swap at the prices of the effective reserves. */
  function ApplySwap(s: PoolState, trade: Trade, fees: Fees, kept: Kept): Option<PoolState> {
    match FillOf(trade, fees, s.Effective().0, s.Effective().1)
    case None => None
    case Some(fill) => ApplyFill(s, fill, kept)
  }

  /** Pay waiting fees out of the vault; the adjustment follows so that the price does not. */
  function Sweep(s: PoolState, protocol: u64, creator: u64): Option<PoolState>
    requires protocol <= s.info.protocolFees && creator <= s.info.creatorFees
  {
    var amount := protocol + creator;
    var virtual' := s.info.virtualQuoteReserves + amount;
    if s.quoteVault < amount || virtual' > I128_MAX then None else
    Some(PoolState(
           s.info.(virtualQuoteReserves := virtual', protocolFees := s.info.protocolFees - protocol,
                   creatorFees := s.info.creatorFees - creator),
           s.baseVault, s.quoteVault - amount))
  }

  function Apply(s: PoolState, step: Step): Option<PoolState> {
    match step
    case Swap(trade, fees, kept) => ApplySwap(s, trade, fees, kept)
    case SweepProtocolFees => Sweep(s, s.info.protocolFees, 0)
    case SweepCreatorFees => Sweep(s, 0, s.info.creatorFees)
  }

  /** A finished run: the pool, what the traders gained in total, and fees taken out of the price. */
  datatype Outcome = Outcome(state: PoolState, traderBase: int, traderQuote: int, feesOffPrice: int)

  function Run(s: PoolState, steps: seq<Step>): Option<Outcome> {
    if steps == [] then Some(Outcome(s, 0, 0, 0)) else
    match Run(s, steps[..|steps| - 1])
    case None => None
    case Some(before) =>
      var step := steps[|steps| - 1];
      match Apply(before.state, step)
      case None => None
      case Some(after) => Some(Tally(before, step, after))
  }

  function Tally(before: Outcome, step: Step, after: PoolState): Outcome {
    var (base, quote) := before.state.Effective();
    match step
    case Swap(trade, fees, kept) =>
      (match FillOf(trade, fees, base, quote)
       case None => before.(state := after)
       case Some(fill) =>
         Outcome(after, before.traderBase - fill.baseIn, before.traderQuote - fill.traderPays,
                 before.feesOffPrice + fill.Fee() - kept.lp))
    case _ => before.(state := after)
  }

  // ---------- One step ----------

  /** Paying out at most the constant-product share keeps the product. */
  lemma ProductKept(reserveIn: nat, reserveOut: nat, paidIn: nat, paidOut: nat)
    requires paidOut <= reserveOut
    requires paidOut * (reserveIn + paidIn) <= reserveOut * paidIn
    ensures reserveIn * reserveOut <= (reserveIn + paidIn) * (reserveOut - paidOut)
  {
    assert (reserveIn + paidIn) * (reserveOut - paidOut)
        == reserveIn * reserveOut + reserveOut * paidIn - paidOut * (reserveIn + paidIn);
  }

  /** The same, for an input that covers the price of its output. */
  lemma CoveredPriceKeepsProduct(reserveIn: nat, reserveOut: nat, paidIn: nat, paidOut: nat)
    requires paidOut <= reserveOut
    requires reserveIn * paidOut <= paidIn * (reserveOut - paidOut)
    ensures reserveIn * reserveOut <= (reserveIn + paidIn) * (reserveOut - paidOut)
  {
    assert paidOut * (reserveIn + paidIn) == reserveIn * paidOut + paidIn * paidOut;
    assert paidIn * (reserveOut - paidOut) == reserveOut * paidIn - paidIn * paidOut;
    ProductKept(reserveIn, reserveOut, paidIn, paidOut);
  }

  /** A fill that leaves both sides of the curve positive and its product no smaller. */
  ghost predicate KeepsCurve(base: nat, quote: nat, fill: Fill) {
    && base + fill.baseIn > 0
    && quote + fill.quoteIn > 0
    && base * quote <= (base + fill.baseIn) * (quote + fill.quoteIn)
  }

  lemma SellKeepsCurve(baseIn: u64, base: u64, quote: u64, pays: int)
    requires base > 0 && quote > 0
    ensures KeepsCurve(base, quote, Fill(baseIn, 0 - ConstantProductOut(baseIn, base, quote), pays))
  {
    var gross := ConstantProductOut(baseIn, base, quote);
    OutIsGreatest(baseIn, base, quote, gross);
    ProductKept(base, quote, baseIn, gross);
  }

  lemma BuyKeepsCurve(curveIn: u64, base: u64, quote: u64, pays: int)
    requires base > 0 && quote > 0
    ensures KeepsCurve(base, quote, Fill(0 - ConstantProductOut(curveIn, quote, base), curveIn, pays))
  {
    var out := ConstantProductOut(curveIn, quote, base);
    OutIsGreatest(curveIn, quote, base, out);
    ProductKept(quote, base, curveIn, out);
    Commute(base, quote);
    Commute(base - out, quote + curveIn);
  }

  lemma BuyOutrightKeepsCurve(baseOut: u64, base: u64, quote: u64, pays: int)
    requires base > 0 && quote > 0 && baseOut < base
    requires quote + ConstantProductIn(baseOut, quote, base).value <= U64_MAX
    ensures KeepsCurve(base, quote, Fill(0 - baseOut, ConstantProductIn(baseOut, quote, base).value, pays))
  {
    var price := ConstantProductIn(baseOut, quote, base).value;
    InIsCappedExact(baseOut, quote, base);
    CeilGalois(price, quote * baseOut, base - baseOut);
    CoveredPriceKeepsProduct(quote, base, price, baseOut);
    Commute(base, quote);
    Commute(base - baseOut, quote + price);
  }

  lemma Commute(a: int, b: int)
    ensures a * b == b * a
  {
  }

  /** No fill takes less from the trader than goes to the curve. */
  lemma FillFeeIsNotNegative(trade: Trade, fees: Fees, base: u64, quote: u64)
    ensures match FillOf(trade, fees, base, quote)
            case None => true
            case Some(fill) => fill.Fee() >= 0
  {
  }

  /** What a sale moves. */
  lemma SellFill(baseIn: u64, fees: Fees, base: u64, quote: u64)
    ensures var gross := ConstantProductOut(baseIn, base, quote);
            FillOf(Sell(baseIn), fees, base, quote)
            == Some(Fill(baseIn, 0 - gross, 0 - SaturatingSub(gross, fees.FeeOn(gross))))
  {
  }

  /** What an exact-in buy moves. */
  lemma BuyFill(quoteIn: u64, fees: Fees, base: u64, quote: u64)
    ensures var fed := FedToCurve(quoteIn, fees);
            FillOf(BuyExactIn(quoteIn), fees, base, quote)
            == Some(Fill(0 - ConstantProductOut(fed, quote, base), fed, quoteIn))
  {
  }

  /** What an exact-out buy moves: the exact price, and with its fee the total, both cut to 64 bits. */
  lemma OutrightFill(baseOut: u64, fees: Fees, base: u64, quote: u64)
    ensures match FillOf(BuyExactOut(baseOut), fees, base, quote)
            case None => baseOut >= base
            case Some(fill) =>
              && baseOut < base && fill.baseIn == 0 - baseOut
              && fill.quoteIn == Min(ExactIn(baseOut, quote, base), U64_MAX)
              && fill.traderPays == Min(fill.quoteIn + fees.ExactFee(fill.quoteIn), U64_MAX)
  {
    ExactOutFields(baseOut, base, quote, fees, ANY_SLIPPAGE);
  }

  lemma SellFillKeepsCurve(baseIn: u64, fees: Fees, base: u64, quote: u64)
    requires base > 0 && quote > 0
    ensures KeepsCurve(base, quote, FillOf(Sell(baseIn), fees, base, quote).value)
  {
    SellFill(baseIn, fees, base, quote);
    SellKeepsCurve(baseIn, base, quote, FillOf(Sell(baseIn), fees, base, quote).value.traderPays);
  }

  lemma BuyExactInFillKeepsCurve(quoteIn: u64, fees: Fees, base: u64, quote: u64)
    requires base > 0 && quote > 0
    ensures KeepsCurve(base, quote, FillOf(BuyExactIn(quoteIn), fees, base, quote).value)
  {
    BuyFill(quoteIn, fees, base, quote);
    BuyKeepsCurve(FedToCurve(quoteIn, fees), base, quote, quoteIn);
  }

  lemma BuyExactOutFillKeepsCurve(baseOut: u64, fees: Fees, base: u64, quote: u64)
    requires base > 0 && quote > 0
    ensures match FillOf(BuyExactOut(baseOut), fees, base, quote)
            case None => true
            case Some(fill) => quote + fill.quoteIn <= U64_MAX ==> KeepsCurve(base, quote, fill)
  {
    match FillOf(BuyExactOut(baseOut), fees, base, quote)
    case None =>
    case Some(fill) =>
      assert fill == Fill(0 - baseOut, ConstantProductIn(baseOut, quote, base).value, fill.traderPays);
      if quote + fill.quoteIn <= U64_MAX {
        BuyOutrightKeepsCurve(baseOut, base, quote, fill.traderPays);
      }
  }

  /** Every fill keeps the curve, unless the quote side would overflow. */
  lemma FillKeepsProduct(trade: Trade, fees: Fees, base: u64, quote: u64)
    requires base > 0 && quote > 0
    ensures match FillOf(trade, fees, base, quote)
            case None => true
            case Some(fill) => quote + fill.quoteIn <= U64_MAX ==> KeepsCurve(base, quote, fill)
  {
    match trade
    case Sell(baseIn) => SellFillKeepsCurve(baseIn, fees, base, quote);
    case BuyExactIn(quoteIn) => BuyExactInFillKeepsCurve(quoteIn, fees, base, quote);
    case BuyExactOut(baseOut) => BuyExactOutFillKeepsCurve(baseOut, fees, base, quote);
  }

  /** In a sound state the clamp and the saturation of the effective reserve are idle. */
  lemma ClampIdle(s: PoolState)
    requires s.Sound()
    ensures s.Effective() == (s.baseVault, s.quoteVault + s.info.virtualQuoteReserves)
  {
    EffectiveQuoteIsClampedSum(s.info, s.baseVault, s.quoteVault);
  }

  /** Fees left in the priced reserve only add to the product. */
  lemma LeftInKeepsCurve(base: nat, quote: nat, fill: Fill, lp: nat)
    requires KeepsCurve(base, quote, fill)
    ensures base * quote <= (base + fill.baseIn) * (quote + fill.quoteIn + lp)
    ensures base + fill.baseIn > 0 && quote + fill.quoteIn + lp > 0
  {
    MulMono(quote + fill.quoteIn, quote + fill.quoteIn + lp, base + fill.baseIn);
  }

  /** What booking a fill that keeps the curve does to everything a run keeps track of. */
  ghost predicate Booked(s: PoolState, fill: Fill, kept: Kept, s': PoolState) {
    && s'.Sound()
    && s'.Product() >= s.Product()
    && s'.Effective() == (s.Effective().0 + fill.baseIn, s.Effective().1 + fill.quoteIn + kept.lp)
    && s'.Boost() == s.Boost()
    && s'.Waiting() == s.Waiting() + kept.protocol + kept.creator
    && 0 <= kept.lp <= fill.Fee()
  }

  lemma FillStep(s: PoolState, fill: Fill, kept: Kept)
    requires s.Sound() && ApplyFill(s, fill, kept).Some?
    requires s.Effective().1 + fill.quoteIn <= U64_MAX ==> KeepsCurve(s.Effective().0, s.Effective().1, fill)
    ensures Booked(s, fill, kept, ApplyFill(s, fill, kept).value)
  {
    ClampIdle(s);
    LeftInKeepsCurve(s.Effective().0, s.Effective().1, fill, kept.lp);
    ClampIdle(ApplyFill(s, fill, kept).value);
  }

  /** Every accepted swap is such a booking. */
  lemma SwapStep(s: PoolState, trade: Trade, fees: Fees, kept: Kept)
    requires s.Sound()
    ensures ApplySwap(s, trade, fees, kept).Some? ==>
              Booked(s, FillOf(trade, fees, s.Effective().0, s.Effective().1).value, kept,
                     ApplySwap(s, trade, fees, kept).value)
  {
    if ApplySwap(s, trade, fees, kept).Some? {
      ClampIdle(s);
      FillFeeIsNotNegative(trade, fees, s.Effective().0, s.Effective().1);
      FillKeepsProduct(trade, fees, s.Effective().0, s.Effective().1);
      FillStep(s, FillOf(trade, fees, s.Effective().0, s.Effective().1).value, kept);
    }
  }

  ghost predicate BookedExactly(s: PoolState, fill: Fill, kept: Kept, after: Option<PoolState>) {
    && (after.Some? <==>
          && kept.Total() <= fill.Fee()
          && 0 <= s.quoteVault + fill.quoteIn + kept.Total() <= U64_MAX
          && s.baseVault + fill.baseIn <= U64_MAX
          && s.Effective().1 + fill.quoteIn + kept.lp <= U64_MAX
          && s.info.protocolFees + kept.protocol <= U64_MAX
          && s.info.creatorFees + kept.creator <= U64_MAX)
    && (after.Some? ==>
          && after.value.baseVault == s.baseVault + fill.baseIn
          && after.value.quoteVault == s.quoteVault + fill.quoteIn + kept.lp + kept.protocol + kept.creator
          && after.value.info.protocolFees == s.info.protocolFees + kept.protocol
          && after.value.info.creatorFees == s.info.creatorFees + kept.creator
          && after.value.info.virtualQuoteReserves
             == s.info.virtualQuoteReserves - kept.protocol - kept.creator
          && after.value.info == s.info.(
               virtualQuoteReserves := after.value.info.virtualQuoteReserves,
               protocolFees := after.value.info.protocolFees,
               creatorFees := after.value.info.creatorFees))
  }

  lemma FillAcceptedIff(s: PoolState, fill: Fill, kept: Kept)
    requires s.Sound()
    ensures s.Effective().0 + fill.baseIn > 0
            && (s.Effective().1 + fill.quoteIn <= U64_MAX ==> s.Effective().1 + fill.quoteIn > 0) ==>
              BookedExactly(s, fill, kept, ApplyFill(s, fill, kept))
  {
    ClampIdle(s);
  }

  /**
  A swap goes through exactly when it keeps no more than its fee, the quote vault can pay,
  and nothing grows past 64 bits; each kept part then arrives at its own place.
  */
  lemma SwapAcceptedIff(s: PoolState, trade: Trade, fees: Fees, kept: Kept)
    requires s.Sound()
    ensures match FillOf(trade, fees, s.Effective().0, s.Effective().1)
            case None => ApplySwap(s, trade, fees, kept) == None
            case Some(fill) => BookedExactly(s, fill, kept, ApplySwap(s, trade, fees, kept))
  {
    var (base, quote) := s.Effective();
    FillKeepsProduct(trade, fees, base, quote);
    ClampIdle(s);
    match FillOf(trade, fees, base, quote)
    case None =>
    case Some(fill) => FillAcceptedIff(s, fill, kept);
  }

  /** A sweep goes through exactly when the vault holds the fee; it pays that one fee out, and only that. */
  lemma SweepAcceptedIff(s: PoolState)
    requires s.Sound()
    ensures Apply(s, SweepProtocolFees) ==
            if s.quoteVault < s.info.protocolFees then None else
            Some(s.(
              quoteVault := s.quoteVault - s.info.protocolFees,
              info := s.info.(protocolFees := 0,
                              virtualQuoteReserves := s.info.virtualQuoteReserves + s.info.protocolFees)))
    ensures Apply(s, SweepCreatorFees) ==
            if s.quoteVault < s.info.creatorFees then None else
            Some(s.(
              quoteVault := s.quoteVault - s.info.creatorFees,
              info := s.info.(creatorFees := 0,
                              virtualQuoteReserves := s.info.virtualQuoteReserves + s.info.creatorFees)))
  {
  }

  /**
  A sweep moves money out of the vault and nothing that a price depends on: not the
  effective reserves, the market cap, the fee schedule, or any quote.
  */
  lemma SweepMovesNoPrice(
    s: PoolState, step: Step, config: FeeConfig, supply: u64, fees: Fees, amount: u64, slippage: F64)
    requires s.Sound() && !step.Swap? && Apply(s, step).Some?
    ensures var s' := Apply(s, step).value;
            && s'.Sound()
            && s'.Effective() == s.Effective()
            && s'.Boost() == s.Boost()
            && s.quoteVault - s'.quoteVault == s.Waiting() - s'.Waiting()
            && FeesFromState(config, s'.info, supply, s'.baseVault, s'.quoteVault)
               == FeesFromState(config, s.info, supply, s.baseVault, s.quoteVault)
            && TokenBuyQuote(amount, (s'.baseVault, s'.quoteVault), s'.info, fees, slippage)
               == TokenBuyQuote(amount, (s.baseVault, s.quoteVault), s.info, fees, slippage)
            && TokenSellQuote(amount, (s'.baseVault, s'.quoteVault), s'.info, fees, slippage)
               == TokenSellQuote(amount, (s.baseVault, s.quoteVault), s.info, fees, slippage)
  {
    ClampIdle(s);
    ClampIdle(Apply(s, step).value);
  }

  // ---------- Whole runs ----------

  /** Base and quote are conserved up to the fees off the price, and the product never falls. */
  lemma {:induction false} RunInvariant(s: PoolState, steps: seq<Step>)
    requires s.Sound()
    ensures match Run(s, steps)
            case None => true
            case Some(o) =>
              && o.state.Sound()
              && o.state.Product() >= s.Product()
              && o.state.Boost() == s.Boost()
              && o.state.Effective().0 + o.traderBase == s.Effective().0
              && o.state.Effective().1 + o.traderQuote + o.feesOffPrice == s.Effective().1
              && o.feesOffPrice >= 0
  {
    if steps != [] && Run(s, steps).Some? {
      var prefix := steps[..|steps| - 1];
      RunInvariant(s, prefix);
      TallyStep(Run(s, prefix).value, steps[|steps| - 1]);
    }
  }

  /** One more step of a run, as the run's totals see it. */
  lemma TallyStep(before: Outcome, step: Step)
    requires before.state.Sound() && Apply(before.state, step).Some?
    ensures var after := Tally(before, step, Apply(before.state, step).value);
            && after.state == Apply(before.state, step).value
            && after.state.Sound()
            && after.state.Product() >= before.state.Product()
            && after.state.Boost() == before.state.Boost()
            && after.state.Effective().0 + after.traderBase == before.state.Effective().0 + before.traderBase
            && after.state.Effective().1 + after.traderQuote + after.feesOffPrice
               == before.state.Effective().1 + before.traderQuote + before.feesOffPrice
            && after.feesOffPrice >= before.feesOffPrice
  {
    match step
    case Swap(trade, fees, kept) => SwapStep(before.state, trade, fees, kept);
    case _ =>
      ClampIdle(before.state);
      ClampIdle(Apply(before.state, step).value);
  }

  lemma ProductForcesOtherSide(base: nat, quote: nat, base': nat, quote': nat)
    requires base > 0 && quote > 0 && base * quote <= base' * quote'
    ensures base' <= base ==> quote <= quote'
    ensures quote' <= quote ==> base <= base'
  {
    if base' <= base {
      MulMono(base', base, quote');
      MulCancel(quote, quote', base);
    }
    if quote' <= quote {
      MulMono(quote', quote, base');
      MulCancel(base, base', quote);
    }
  }

  /**
  No run makes the traders better off: if together they end with at least as much base
  they have paid, in quote, at least every fee that left the price; and if they end
  with at least as much quote, they have not gained base.
  */
  lemma NoArbitrage(s: PoolState, steps: seq<Step>)
    requires s.Sound()
    ensures match Run(s, steps)
            case None => true
            case Some(o) =>
              && (o.traderBase >= 0 ==> o.traderQuote <= -o.feesOffPrice <= 0)
              && (o.traderQuote >= 0 ==> o.traderBase <= 0)
  {
    RunInvariant(s, steps);
    match Run(s, steps)
    case None =>
    case Some(o) =>
      ClampIdle(s);
      ClampIdle(o.state);
      ProductForcesOtherSide(s.Effective().0, s.Effective().1, o.state.Effective().0, o.state.Effective().1);
  }

  // ---------- Splitting a sale ----------

  /** Sales under one fee schedule that leave no part of their fee in the price; sweeps in between. */
  ghost predicate SellsOnly(steps: seq<Step>, fees: Fees) {
    forall step :: step in steps && step.Swap? ==> step.trade.Sell? && step.fees == fees && step.kept.lp == 0
  }

  /**
  One more sale, in terms of the gross amounts that paid anything: the fee on their sum
  is at most the sum of their fees.
  */
  lemma OneMoreSale(fees: Fees, paying: nat, paid: int, gross: u64) returns (paying': nat)
    requires paying + gross <= U64_MAX
    ensures paying <= paying' <= paying + gross
    ensures paid + fees.FeeOn(paying) <= paying ==>
              paid + SaturatingSub(gross, fees.FeeOn(gross)) + fees.FeeOn(paying') <= paying'
  {
    if fees.FeeOn(gross) < gross {
      FeeOnSubadditive(fees, paying, gross);
      paying' := paying + gross;
    } else {
      paying' := paying;
    }
  }

  /** A sale whose fee all leaves the price moves the reserves by its gross amount and pays the rest. */
  lemma SaleStep(before: Outcome, step: Step)
    requires before.state.Sound() && step.Swap? && step.trade.Sell? && step.kept.lp == 0
    ensures Apply(before.state, step).Some? ==>
            var after := Tally(before, step, Apply(before.state, step).value);
            var (base, quote) := before.state.Effective();
            var gross := ConstantProductOut(step.trade.baseIn, base, quote);
            && after.state.Effective() == (base + step.trade.baseIn, quote - gross)
            && after.traderBase == before.traderBase - step.trade.baseIn
            && after.traderQuote == before.traderQuote + SaturatingSub(gross, step.fees.FeeOn(gross))
  {
    var (base, quote) := before.state.Effective();
    SellFill(step.trade.baseIn, step.fees, base, quote);
    SwapStep(before.state, step.trade, step.fees, step.kept);
  }

  /** Gross amounts out of the reserve that account for all the quote paid out by a run of sales. */
  lemma {:induction false} SalesPay(s: PoolState, steps: seq<Step>, fees: Fees) returns (paying: nat)
    requires s.Sound() && SellsOnly(steps, fees)
    ensures match Run(s, steps)
            case None => true
            case Some(o) =>
              && o.traderBase <= 0
              && paying + o.state.Effective().1 <= s.Effective().1
              && o.traderQuote + fees.FeeOn(paying) <= paying
  {
    paying := 0;
    if steps == [] {
      FeeOnNothing(fees);
    } else if Run(s, steps).Some? {
      var prefix, step := steps[..|steps| - 1], steps[|steps| - 1];
      var before := Run(s, prefix).value;
      RunInvariant(s, prefix);
      paying := SalesPay(s, prefix, fees);
      if step.Swap? {
        SaleStep(before, step);
        var (base, quote) := before.state.Effective();
        paying := OneMoreSale(fees, paying, before.traderQuote, ConstantProductOut(step.trade.baseIn, base, quote));
      } else {
        TallyStep(before, step);
      }
    }
  }

  /** What a product that did not fall says about the amount taken out. */
  lemma TakenAtMostShare(x: nat, y: nat, added: nat, taken: nat, left: nat)
    requires taken + left <= y && x * y <= (x + added) * left
    ensures taken * (x + added) <= y * added
  {
    MulMono(taken + left, y, x + added);
    Distribute(taken, left, x + added);
    Commute(left, x + added);
    assert y * (x + added) == x * y + y * added;
  }

  /** In a run that kept the product, what left the quote side is at most one sale's output. */
  lemma TakenAtMostOutput(s: PoolState, o: Outcome, taken: nat)
    requires s.Sound() && o.state.Sound() && o.state.Product() >= s.Product()
    requires o.traderBase <= 0 && o.state.Effective().0 + o.traderBase == s.Effective().0
    requires taken + o.state.Effective().1 <= s.Effective().1
    ensures FitsU64(0 - o.traderBase)
    ensures taken <= ConstantProductOut(0 - o.traderBase, s.Effective().0, s.Effective().1)
  {
    var (x, y) := s.Effective();
    var (x', y') := o.state.Effective();
    var sold: u64 := x' - x;
    ClampIdle(s);
    TakenAtMostShare(x, y, sold, taken, y');
    OutIsGreatest(sold, x, y, taken);
  }

  /**
  Splitting a sale does not pay: however it is cut up and spread over a run, with sweeps
  in between, it pays at most two units more than selling everything at once.
  */
  lemma SplitSaleGainsAtMostTwo(s: PoolState, steps: seq<Step>, fees: Fees, slippage: F64)
    requires s.Sound() && SellsOnly(steps, fees)
    ensures match Run(s, steps)
            case None => true
            case Some(o) =>
              && FitsU64(0 - o.traderBase)
              && o.traderQuote
                 <= QuoteSell(0 - o.traderBase, s.Effective().0, s.Effective().1, fees, slippage).amountOut + 2
  {
    var paying := SalesPay(s, steps, fees);
    RunInvariant(s, steps);
    match Run(s, steps)
    case None =>
    case Some(o) =>
      TakenAtMostOutput(s, o, paying);
      var gross := ConstantProductOut(0 - o.traderBase, s.Effective().0, s.Effective().1);
      PayoutNearMonotone(paying, gross, fees);
  }

  /** A pool without virtual reserves or waiting fees, holding these balances. */
  predicate Plain(s: PoolState, base: u64, quote: u64) {
    && s.baseVault == base && s.quoteVault == quote
    && s.info.virtualQuoteReserves == 0 && s.info.protocolFees == 0 && s.info.creatorFees == 0
  }

  /** The gross amount and fee of a sale at these reserves, and a part of the fee that may stay. */
  ghost predicate SaleAt(base: u64, quote: u64, baseIn: u64, fees: Fees, gross: u64, fee: u64, lp: nat) {
    gross == ConstantProductOut(baseIn, base, quote) && fee == fees.FeeOn(gross) && lp <= fee <= gross < quote
  }

  lemma PlainSale(before: Outcome, base: u64, quote: u64, baseIn: u64, fees: Fees, gross: u64, fee: u64, lp: nat)
    requires Plain(before.state, base, quote) && base > 0 && base + baseIn <= U64_MAX
    ensures SaleAt(base, quote, baseIn, fees, gross, fee, lp) ==>
            var step := Swap(Sell(baseIn), fees, Kept(lp, 0, 0));
            && Apply(before.state, step).Some?
            && var after := Tally(before, step, Apply(before.state, step).value);
            && Plain(after.state, base + baseIn, quote - gross + lp)
            && after.state == Apply(before.state, step).value
            && after.traderBase == before.traderBase - baseIn
            && after.traderQuote == before.traderQuote + gross - fee
  {
    if quote > 0 {
      ClampIdle(before.state);
      SellFill(baseIn, fees, base, quote);
    }
  }

  lemma TwoPlainSales(
    s: PoolState, base: u64, quote: u64, fees: Fees, baseIn: u64, gross: u64, fee: u64, lp: nat,
    baseIn': u64, gross': u64, fee': u64, lp': nat)
    requires Plain(s, base, quote) && base > 0 && base + baseIn + baseIn' <= U64_MAX
    ensures SaleAt(base, quote, baseIn, fees, gross, fee, lp)
            && SaleAt(base + baseIn, quote - gross + lp, baseIn', fees, gross', fee', lp') ==>
            var steps := [Swap(Sell(baseIn), fees, Kept(lp, 0, 0)), Swap(Sell(baseIn'), fees, Kept(lp', 0, 0))];
            && Run(s, steps).Some?
            && Run(s, steps).value.traderBase == 0 - baseIn - baseIn'
            && Run(s, steps).value.traderQuote == gross - fee + gross' - fee'
  {
    var first, second := Swap(Sell(baseIn), fees, Kept(lp, 0, 0)), Swap(Sell(baseIn'), fees, Kept(lp', 0, 0));
    var start := Outcome(s, 0, 0, 0);
    PlainSale(start, base, quote, baseIn, fees, gross, fee, lp);
    if SaleAt(base, quote, baseIn, fees, gross, fee, lp) {
      var one := Tally(start, first, Apply(s, first).value);
      PlainSale(one, base + baseIn, quote - gross + lp, baseIn', fees, gross', fee', lp');
      TwoSteps(s, first, one.state, second);
    }
  }

  /** The two units are reached: here the second sale pays nothing, and selling it along costs two. */
  lemma SplitSaleSlackIsSharp(s: PoolState, slippage: F64)
    requires Plain(s, 10_000, 20_000)
    ensures var fees := Fees(1, 1, 1);
            var steps := [Swap(Sell(10_001), fees, Kept(0, 0, 0)), Swap(Sell(2), fees, Kept(0, 0, 0))];
            && SellsOnly(steps, fees)
            && Run(s, steps).Some?
            && Run(s, steps).value.traderQuote
               == QuoteSell(10_003, 10_000, 20_000, fees, slippage).amountOut + 2
  {
    OutIs(10_001, 10_000, 20_000, 10_000);
    OutIs(2, 20_001, 10_000, 0);
    OutIs(10_003, 10_000, 20_000, 10_001);
    FeeStep();
    FeeOnNothing(Fees(1, 1, 1));
    TwoPlainSales(s, 10_000, 20_000, Fees(1, 1, 1), 10_001, 10_000, 3, 0, 2, 0, 0, 0);
  }

  /** A fee that stays in the price is paid back in part to the next sale, so then splitting does pay. */
  lemma SplittingPaysWhenFeesStay(s: PoolState, slippage: F64)
    requires Plain(s, 1_000, 1_000)
    ensures var fees := Fees(5_000, 0, 0);
            var steps := [Swap(Sell(500), fees, Kept(167, 0, 0)), Swap(Sell(500), fees, Kept(104, 0, 0))];
            && Run(s, steps).Some?
            && Run(s, steps).value.traderQuote == 270
            && QuoteSell(1_000, 1_000, 1_000, fees, slippage).amountOut == 250
  {
    OutIs(500, 1_000, 1_000, 333);
    OutIs(500, 1_500, 834, 208);
    OutIs(1_000, 1_000, 1_000, 500);
    HalfFees();
    TwoPlainSales(s, 1_000, 1_000, Fees(5_000, 0, 0), 500, 333, 167, 167, 500, 208, 104, 104);
  }

  lemma HalfFees()
    ensures Fees(5_000, 0, 0).FeeOn(333) == 167
    ensures Fees(5_000, 0, 0).FeeOn(208) == 104
    ensures Fees(5_000, 0, 0).FeeOn(500) == 250
  {
    SingleComponent(5_000, 333);
    SingleComponent(5_000, 208);
    SingleComponent(5_000, 500);
  }

  // ---------- Splitting a purchase ----------

  /** Exact-in buys under one fee schedule that leave no part of their fee in the price; sweeps in between. */
  ghost predicate BuysOnly(steps: seq<Step>, fees: Fees) {
    forall step :: step in steps && step.Swap? ==> step.trade.BuyExactIn? && step.fees == fees && step.kept.lp == 0
  }

  /**
  Spends that together fed the curve `fed`: their sum, the sum of their charged amounts,
  and one unit for every spend after the first, which is also what charging them together
  can add.
  */
  ghost predicate Feeds(fees: Fees, spent: u64, charged: u64, fed: nat) {
    || (spent == 0 && charged == 0 && fed == 0)
    || (charged <= Charged(spent, fees)
        && fed + fees.FeeOn(charged) + (Charged(spent, fees) - charged) + 1 <= spent)
  }

  /** A spend that feeds the curve does so with all but its fee and one unit. */
  lemma FeedsAlone(fees: Fees, quoteIn: u64)
    ensures FedToCurve(quoteIn, fees) > 0 ==>
              FedToCurve(quoteIn, fees) + fees.FeeOn(Charged(quoteIn, fees)) + 1 == quoteIn
  {
  }

  lemma FeedsBoth(fees: Fees, spent: u64, charged: u64, fed: nat, spent': u64, charged': u64, fed': nat)
    requires spent + spent' <= U64_MAX
    ensures Feeds(fees, spent, charged, fed)
            && charged' == Charged(spent', fees) && fed' + fees.FeeOn(charged') + 1 == spent' ==>
              charged + charged' <= U64_MAX && Feeds(fees, spent + spent', charged + charged', fed + fed')
  {
    ChargedOfSum(spent, spent', fees);
    if charged + charged' <= U64_MAX {
      FeeOnSubadditive(fees, charged, charged');
    }
  }

  lemma OneMoreBuy(fees: Fees, spent: u64, charged: u64, fed: nat, quoteIn: u64) returns (spent': u64, charged': u64)
    requires spent + quoteIn <= U64_MAX
    ensures spent <= spent' <= spent + quoteIn
    ensures Feeds(fees, spent, charged, fed) ==> Feeds(fees, spent', charged', fed + FedToCurve(quoteIn, fees))
  {
    spent', charged' := spent, charged;
    if Feeds(fees, spent, charged, fed) && FedToCurve(quoteIn, fees) > 0 {
      FeedsAlone(fees, quoteIn);
      FeedsBoth(fees, spent, charged, fed, quoteIn, Charged(quoteIn, fees), FedToCurve(quoteIn, fees));
      spent', charged' := spent + quoteIn, charged + Charged(quoteIn, fees);
    }
  }

  /** Spends fed at most two units more than one spend of at least their sum. */
  lemma FedTogether(fees: Fees, spent: u64, charged: u64, fed: nat, total: u64)
    requires spent <= total && fees.TotalBps() <= 10_000
    ensures Feeds(fees, spent, charged, fed) ==> fed <= FedToCurve(total, fees) + 2
  {
    if Feeds(fees, spent, charged, fed) && fed > 0 {
      ChargedGrowsNoFasterThanSpend(spent, total, fees);
      FeeOnGrowth(fees, charged, Charged(total, fees));
    }
  }

  /** A buy whose fee all leaves the price moves the reserves by what it buys and feeds the curve. */
  lemma BuyStep(before: Outcome, step: Step)
    requires before.state.Sound() && step.Swap? && step.trade.BuyExactIn? && step.kept.lp == 0
    ensures Apply(before.state, step).Some? ==>
            var after := Tally(before, step, Apply(before.state, step).value);
            && after.state.Effective().1
               == before.state.Effective().1 + FedToCurve(step.trade.quoteIn, step.fees)
            && after.traderBase >= before.traderBase
            && after.traderQuote == before.traderQuote - step.trade.quoteIn
  {
    var (base, quote) := before.state.Effective();
    BuyFill(step.trade.quoteIn, step.fees, base, quote);
    SwapStep(before.state, step.trade, step.fees, step.kept);
  }

  /** Spends that account for everything fed to the curve since `start`. */
  ghost predicate FedSince(start: PoolState, o: Outcome, fees: Fees, spent: u64, charged: u64) {
    && o.traderBase >= 0 && o.traderQuote <= 0
    && start.Effective().1 <= o.state.Effective().1
    && (FitsU64(0 - o.traderQuote) ==>
          && spent <= 0 - o.traderQuote
          && Feeds(fees, spent, charged, o.state.Effective().1 - start.Effective().1))
  }

  lemma FedMore(
    start: PoolState, before: Outcome, after: Outcome, quoteIn: u64, fees: Fees, spent: u64, charged: u64)
    returns (spent': u64, charged': u64)
    requires after.traderBase >= before.traderBase && after.traderQuote == before.traderQuote - quoteIn
    ensures after.state.Effective().1 == before.state.Effective().1 + FedToCurve(quoteIn, fees)
            && FedSince(start, before, fees, spent, charged) ==>
              FedSince(start, after, fees, spent', charged')
  {
    spent', charged' := spent, charged;
    if FedSince(start, before, fees, spent, charged) && FitsU64(0 - after.traderQuote) {
      var fed := before.state.Effective().1 - start.Effective().1;
      spent', charged' := OneMoreBuy(fees, spent, charged, fed, quoteIn);
    }
  }

  lemma BuyFeeds(start: PoolState, before: Outcome, step: Step, fees: Fees, spent: u64, charged: u64)
    returns (spent': u64, charged': u64)
    requires before.state.Sound() && step.Swap? && step.trade.BuyExactIn? && step.fees == fees && step.kept.lp == 0
    ensures FedSince(start, before, fees, spent, charged) && Apply(before.state, step).Some? ==>
              FedSince(start, Tally(before, step, Apply(before.state, step).value), fees, spent', charged')
  {
    spent', charged' := spent, charged;
    BuyStep(before, step);
    if Apply(before.state, step).Some? {
      var after := Tally(before, step, Apply(before.state, step).value);
      spent', charged' := FedMore(start, before, after, step.trade.quoteIn, fees, spent, charged);
    }
  }

  lemma {:induction false} BuysFeed(s: PoolState, steps: seq<Step>, fees: Fees)
    returns (spent: u64, charged: u64)
    requires s.Sound() && BuysOnly(steps, fees)
    ensures match Run(s, steps)
            case None => true
            case Some(o) => FedSince(s, o, fees, spent, charged)
  {
    spent, charged := 0, 0;
    if steps != [] && Run(s, steps).Some? {
      var prefix, step := steps[..|steps| - 1], steps[|steps| - 1];
      var before := Run(s, prefix).value;
      RunInvariant(s, prefix);
      spent, charged := BuysFeed(s, prefix, fees);
      if step.Swap? {
        spent, charged := BuyFeeds(s, before, step, fees, spent, charged);
      } else {
        TallyStep(before, step);
      }
    }
  }

  /** What a product that did not fall says about the price of the amount taken out. */
  lemma TakenIsCovered(x: nat, y: nat, taken: nat, added: nat, left: nat)
    requires left > 0 && taken + left == x && x * y <= left * (y + added)
    ensures CeilDiv(y * taken, left) <= added
  {
    Distribute(taken, left, y);
    Commute(taken, y);
    assert left * (y + added) == left * y + added * left;
    CeilGalois(added, y * taken, left);
  }

  lemma FedAtMostTogether(s: PoolState, o: Outcome, fees: Fees, spent: u64, charged: u64)
    requires FedSince(s, o, fees, spent, charged) && fees.TotalBps() <= 10_000
    ensures FitsU64(0 - o.traderQuote) ==>
              o.state.Effective().1 - s.Effective().1 <= FedToCurve(0 - o.traderQuote, fees) + 2
  {
    if FitsU64(0 - o.traderQuote) {
      FedTogether(fees, spent, charged, o.state.Effective().1 - s.Effective().1, 0 - o.traderQuote);
    }
  }

  /**
  The curve's price, before the run, of all that was bought is at most two units above
  what spending it at once feeds the curve (a total spend past 64 bits is no single spend).
  */
  ghost predicate WorthTheSpend(s: PoolState, o: Outcome, fees: Fees) {
    && 0 <= o.traderBase < s.Effective().0
    && (FitsU64(0 - o.traderQuote) ==>
          ExactIn(o.traderBase, s.Effective().1, s.Effective().0) <= FedToCurve(0 - o.traderQuote, fees) + 2)
  }

  /** In a run that kept the product, the price of what was bought is at most what was fed. */
  lemma BoughtCostsAtMostFed(s: PoolState, o: Outcome)
    requires s.Sound() && o.state.Sound() && o.state.Product() >= s.Product()
    requires o.traderBase >= 0 && o.state.Effective().0 + o.traderBase == s.Effective().0
    requires s.Effective().1 <= o.state.Effective().1
    ensures o.traderBase < s.Effective().0
    ensures ExactIn(o.traderBase, s.Effective().1, s.Effective().0) <= o.state.Effective().1 - s.Effective().1
  {
    var (x, y) := s.Effective();
    var (x', y') := o.state.Effective();
    ClampIdle(o.state);
    TakenIsCovered(x, y, o.traderBase, y' - y, x');
  }

  lemma BoughtTogether(s: PoolState, o: Outcome, fees: Fees, spent: u64, charged: u64)
    requires s.Sound() && o.state.Sound() && FedSince(s, o, fees, spent, charged) && fees.TotalBps() <= 10_000
    requires o.state.Product() >= s.Product() && o.state.Effective().0 + o.traderBase == s.Effective().0
    ensures WorthTheSpend(s, o, fees)
  {
    BoughtCostsAtMostFed(s, o);
    FedAtMostTogether(s, o, fees, spent, charged);
  }

  /**
  Splitting a purchase does not pay either: however a spend is cut up and spread over a
  run, with sweeps in between, it buys nothing that two units more fed at once would not.
  */
  lemma SplitPurchaseGainsAtMostTwo(s: PoolState, steps: seq<Step>, fees: Fees)
    requires s.Sound() && BuysOnly(steps, fees) && fees.TotalBps() <= 10_000
    ensures match Run(s, steps)
            case None => true
            case Some(o) => WorthTheSpend(s, o, fees)
  {
    var spent, charged := BuysFeed(s, steps, fees);
    RunInvariant(s, steps);
    match Run(s, steps)
    case None =>
    case Some(o) => BoughtTogether(s, o, fees, spent, charged);
  }

  /** Two spends that feed the curve two units more than one. */
  lemma SplitPurchaseSlackIsSharp()
    ensures var fees := Fees(1, 2, 1);
            FedToCurve(10_005, fees) + FedToCurve(10_005, fees) == FedToCurve(20_010, fees) + 2
  {
    var fees := Fees(1, 2, 1);
    assert Charged(10_005, fees) == 10_000;
    assert Charged(20_010, fees) == 20_001;
    assert fees.FeeOn(10_000) == 4 && fees.FeeOn(20_001) == 11;
  }

  /** The trades that buying and selling the token compile to on this pool. */
  function BuyTrade(pool: PoolInfo, solIn: u64): Trade {
    if pool.SolIsBase() then Sell(solIn) else BuyExactIn(solIn)
  }

  function SellTrade(pool: PoolInfo, tokensIn: u64): Trade {
    if pool.SolIsBase() then BuyExactIn(tokensIn) else Sell(tokensIn)
  }

  /** These trades take exactly the input on the side of their mint and pay exactly the quoted output on the other. */
  lemma TokenTradesAreQuotes(s: PoolState, amount: u64, fees: Fees, slippage: F64)
    ensures var (base, quote) := s.Effective();
            var buy := FillOf(BuyTrade(s.info, amount), fees, base, quote);
            var tokens := TokenBuyQuote(amount, (s.baseVault, s.quoteVault), s.info, fees, slippage).amountOut;
            buy.Some? && (if s.info.baseMint == WRAPPED_SOL_MINT
                          then buy.value.baseIn == amount && buy.value.traderPays == 0 - tokens
                          else buy.value.traderPays == amount && buy.value.baseIn == 0 - tokens)
    ensures var (base, quote) := s.Effective();
            var sell := FillOf(SellTrade(s.info, amount), fees, base, quote);
            var sol := TokenSellQuote(amount, (s.baseVault, s.quoteVault), s.info, fees, slippage).amountOut;
            sell.Some? && (if s.info.baseMint == WRAPPED_SOL_MINT
                           then sell.value.traderPays == amount && sell.value.baseIn == 0 - sol
                           else sell.value.baseIn == amount && sell.value.traderPays == 0 - sol)
  {
    var (base, quote) := s.Effective();
    SellFill(amount, fees, base, quote);
    BuyFill(amount, fees, base, quote);
  }

  /**
  Buying the token and selling everything bought, on either orientation and under any
  two fee schedules, never returns more SOL than was spent.
  */
  lemma BuyThenSellNeverGains(s: PoolState, solIn: u64, fees: Fees, kept: Kept, fees': Fees, kept': Kept, slippage: F64)
    requires s.Sound()
    ensures var bought := TokenBuyQuote(solIn, (s.baseVault, s.quoteVault), s.info, fees, slippage).amountOut;
            match ApplySwap(s, BuyTrade(s.info, solIn), fees, kept)
            case None => true
            case Some(s') =>
              ApplySwap(s', SellTrade(s.info, bought), fees', kept').Some? ==>
                TokenSellQuote(bought, (s'.baseVault, s'.quoteVault), s'.info, fees', slippage).amountOut <= solIn
  {
    var bought := TokenBuyQuote(solIn, (s.baseVault, s.quoteVault), s.info, fees, slippage).amountOut;
    var buy := Swap(BuyTrade(s.info, solIn), fees, kept);
    var sell := Swap(SellTrade(s.info, bought), fees', kept');
    match ApplySwap(s, buy.trade, fees, kept)
    case None =>
    case Some(s') =>
      if ApplySwap(s', sell.trade, fees', kept').Some? {
        TwoSteps(s, buy, s', sell);
        NoArbitrage(s, [buy, sell]);
      }
  }

  lemma TwoSteps(s: PoolState, first: Step, s': PoolState, second: Step)
    ensures Apply(s, first) == Some(s') && Apply(s', second).Some? ==>
              Run(s, [first, second])
              == Some(Tally(Tally(Outcome(s, 0, 0, 0), first, s'), second, Apply(s', second).value))
  {
    if Apply(s, first) == Some(s') && Apply(s', second).Some? {
      var one := Tally(Outcome(s, 0, 0, 0), first, s');
      RunSnoc(s, [], Outcome(s, 0, 0, 0), first);
      assert [] + [first] == [first] && [first] + [second] == [first, second];
      assert one.state == s' && Run(s, [first]) == Some(one);
      RunSnoc(s, [first], one, second);
    }
  }

  lemma RunSnoc(s: PoolState, steps: seq<Step>, before: Outcome, step: Step)
    ensures Run(s, steps) == Some(before) && Apply(before.state, step).Some? ==>
              Run(s, steps + [step]) == Some(Tally(before, step, Apply(before.state, step).value))
  {
    assert (steps + [step])[..|steps|] == steps;
  }

  /** The account of `past`, read with the vaults of `now`, is off by `error` on the quote side, up to clamping. */
  ghost predicate PricesOffBy(past: PoolState, now: PoolState, error: int) {
    past.info.EffectiveReserves(now.baseVault, now.quoteVault)
    == (now.Effective().0, Clamp(now.Effective().1 + error, 0, U64_MAX))
  }

  /** Two moments with the same virtual liquidity apart from waiting fees. */
  lemma PairError(past: PoolState, now: PoolState)
    requires now.Sound() && now.Boost() == past.Boost()
    ensures PricesOffBy(past, now, now.Waiting() - past.Waiting())
  {
    ClampIdle(now);
    EffectiveQuoteIsClampedSum(past.info, now.baseVault, now.quoteVault);
  }

  /**
  The pool account of an earlier moment paired with the vaults of a later one prices
  against a reserve that is off by exactly the change in waiting fees, up to clamping.
  */
  lemma StalePairError(s: PoolState, steps: seq<Step>)
    requires s.Sound()
    ensures match Run(s, steps)
            case None => true
            case Some(o) => PricesOffBy(s, o.state, o.state.Waiting() - s.Waiting())
  {
    RunInvariant(s, steps);
    match Run(s, steps)
    case None =>
    case Some(o) => PairError(s, o.state);
  }

  /** Protocol and creator fees that the swaps of a run left in the vault. */
  function KeptForSweep(steps: seq<Step>): nat {
    if steps == [] then 0 else
    KeptForSweep(steps[..|steps| - 1]) +
    match steps[|steps| - 1]
    case Swap(_, _, kept) => kept.protocol + kept.creator
    case _ => 0
  }

  lemma {:induction false} WaitingGrowsByKept(s: PoolState, steps: seq<Step>)
    requires forall step :: step in steps ==> step.Swap?
    ensures match Run(s, steps)
            case None => true
            case Some(o) => o.state.Waiting() == s.Waiting() + KeptForSweep(steps)
  {
    if steps != [] {
      WaitingGrowsByKept(s, steps[..|steps| - 1]);
    }
  }

  lemma OverstatedPair(past: PoolState, now: PoolState, kept: nat)
    requires PricesOffBy(past, now, now.Waiting() - past.Waiting()) && now.Waiting() == past.Waiting() + kept
    ensures past.info.EffectiveReserves(now.baseVault, now.quoteVault).1 == Min(now.Effective().1 + kept, U64_MAX)
  {
  }

  /** With no sweep in between, the stale pair overstates the quote side by exactly the fees kept. */
  lemma StalePairOverstatesByKept(s: PoolState, steps: seq<Step>)
    requires s.Sound() && forall step :: step in steps ==> step.Swap?
    ensures match Run(s, steps)
            case None => true
            case Some(o) =>
              s.info.EffectiveReserves(o.state.baseVault, o.state.quoteVault).1
              == Min(o.state.Effective().1 + KeptForSweep(steps), U64_MAX)
  {
    StalePairError(s, steps);
    WaitingGrowsByKept(s, steps);
    match Run(s, steps)
    case None =>
    case Some(o) => OverstatedPair(s, o.state, KeptForSweep(steps));
  }

  // ---------- The fee ladder along a run ----------

  /** What the ladder charges a trade in this state. */
  ghost function LadderCost(s: PoolState, config: FeeConfig, supply: u64): nat {
    FeesFromState(config, s.info, supply, s.baseVault, s.quoteVault).TotalBps()
  }

  /** A swap never moves the pool's ladder cost against its own direction. */
  lemma LadderFollowsTrade(s: PoolState, trade: Trade, fees: Fees, kept: Kept, config: FeeConfig, supply: u64)
    requires s.Sound() && CheaperAbove(config.feeTiers)
    ensures match ApplySwap(s, trade, fees, kept)
            case None => true
            case Some(s') =>
              if trade.Sell? then LadderCost(s', config, supply) >= LadderCost(s, config, supply)
              else LadderCost(s', config, supply) <= LadderCost(s, config, supply)
  {
    SwapStep(s, trade, fees, kept);
    match ApplySwap(s, trade, fees, kept)
    case None =>
    case Some(s') =>
      ClampIdle(s);
      ClampIdle(s');
      if trade.Sell? {
        FeesNeverRiseWithPrice(config, s'.info, supply, s'.baseVault, s'.quoteVault, s.info, s.baseVault, s.quoteVault);
      } else {
        FeesNeverRiseWithPrice(config, s.info, supply, s.baseVault, s.quoteVault, s'.info, s'.baseVault, s'.quoteVault);
      }
  }

  /** Along a run without sells, whatever is swept in between, the ladder cost never rises. */
  lemma {:induction false} LadderFallsAlongBuys(s: PoolState, steps: seq<Step>, config: FeeConfig, supply: u64)
    requires s.Sound() && CheaperAbove(config.feeTiers)
    requires forall step :: step in steps && step.Swap? ==> !step.trade.Sell?
    ensures match Run(s, steps)
            case None => true
            case Some(o) => LadderCost(o.state, config, supply) <= LadderCost(s, config, supply)
  {
    if steps != [] && Run(s, steps).Some? {
      var prefix, step := steps[..|steps| - 1], steps[|steps| - 1];
      LadderFallsAlongBuys(s, prefix, config, supply);
      RunInvariant(s, prefix);
      var before := Run(s, prefix).value.state;
      if step.Swap? {
        LadderFollowsTrade(before, step.trade, step.fees, step.kept, config, supply);
      } else {
        SweepMovesNoPrice(before, step, config, supply, Fees(0, 0, 0), 0, NaN);
      }
    }
  }
}
