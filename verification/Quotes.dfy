/**
The three swap quotes of `src/math.rs` and what relates them: how the fee splits the
spend, the strict ordering between the two buy instructions, and how far a larger
trade can pay less than a smaller one.
*/
module Quotes {
  import opened Arith
  import opened Curve
  import opened FeeSchedule
  import opened Float64
  import opened MachineInts
  import opened Slippage

  datatype SwapQuote = SwapQuote(grossAmountOut: u64, fee: u64, amountOut: u64, minAmountOut: u64)

  datatype BuyExactOutQuote =
    BuyExactOutQuote(quoteAmountIn: u64, fee: u64, totalQuoteIn: u64, maxQuoteIn: u64)

  function QuoteSell(baseIn: u64, baseReserve: u64, quoteReserve: u64, fees: Fees, slippage: F64): SwapQuote {
    var gross := ConstantProductOut(baseIn, baseReserve, quoteReserve);
    var fee := fees.FeeOn(gross);
    var amountOut := SaturatingSub(gross, fee);
    SwapQuote(gross, fee, amountOut, ApplySlippage(amountOut, slippage))
  }

  /** The part of the spend the fee is charged on: the fee-inclusive rate divided out. */
  function Charged(quoteIn: u64, fees: Fees): u64 {
    var denominator: u128 := 10_000 + fees.TotalBps();
    var numerator: u128 := quoteIn * 10_000;
    NarrowU64(numerator / denominator)
  }

  function QuoteBuyExactQuoteIn(quoteIn: u64, baseReserve: u64, quoteReserve: u64, fees: Fees, slippage: F64)
    : SwapQuote
  {
    var charged := Charged(quoteIn, fees);
    var fee := fees.FeeOn(charged);
    var net := SaturatingSub(quoteIn, fee);
    var curveIn := SaturatingSub(net, 1);
    var amountOut := ConstantProductOut(curveIn, quoteReserve, baseReserve);
    SwapQuote(amountOut, fee, amountOut, ApplySlippage(amountOut, slippage))
  }

  function QuoteBuyExactBaseOut(baseOut: u64, baseReserve: u64, quoteReserve: u64, fees: Fees, slippage: F64)
    : Option<BuyExactOutQuote>
  {
    match ConstantProductIn(baseOut, quoteReserve, baseReserve)
    case None => None
    case Some(quoteIn) =>
      var fee := fees.FeeOn(quoteIn);
      var total := SaturatingAdd(quoteIn, fee);
      Some(BuyExactOutQuote(quoteIn, fee, total, RaiseBySlippage(total, slippage)))
  }

  /** The spend net of its fee, before the unit that is deliberately left out of the curve. */
  function Net(quoteIn: u64, fees: Fees): u64 {
    SaturatingSub(quoteIn, fees.FeeOn(Charged(quoteIn, fees)))
  }

  /** What it then feeds the curve. */
  function FedToCurve(quoteIn: u64, fees: Fees): u64 {
    SaturatingSub(Net(quoteIn, fees), 1)
  }

  // ---------- How an exact-in spend splits into fee and net ----------

  /** The charged amount is the greatest whose fee-inclusive cost is within the spend. */
  lemma ChargedIsGreatest(quoteIn: u64, fees: Fees, c: nat)
    ensures c <= Charged(quoteIn, fees) <==> c * 10_000 + c * fees.TotalBps() <= quoteIn * 10_000
    ensures Charged(quoteIn, fees) <= quoteIn
  {
    var t: nat := fees.TotalBps();
    QuotientAtMost(quoteIn, 10_000, t);
    FloorGaloisSum(c, quoteIn * 10_000, 10_000, t);
  }

  /** Charged amount and its combined fee, rounded up, still fit in the spend. */
  lemma ChargedPlusShareFits(quoteIn: u64, fees: Fees)
    ensures Charged(quoteIn, fees) + Share(Charged(quoteIn, fees), fees.TotalBps()) <= quoteIn
  {
    var c: nat := Charged(quoteIn, fees);
    var t: nat := fees.TotalBps();
    ChargedIsGreatest(quoteIn, fees, c);
    MulMono(0, t, c);
    CeilGalois(quoteIn - c, c * t, 10_000);
  }

  lemma ChargedPlusFee(quoteIn: u64, fees: Fees)
    requires fees.Rate() <= U64_MAX
    ensures Charged(quoteIn, fees) + fees.FeeOn(Charged(quoteIn, fees)) <= quoteIn + 2
  {
    ChargedPlusShareFits(quoteIn, fees);
    FeeOnBounds(fees, Charged(quoteIn, fees));
  }

  lemma FeeOnOne(fees: Fees)
    requires fees.TotalBps() <= 10_000
    ensures fees.FeeOn(1) == (if fees.lp > 0 then 1 else 0) + (if fees.protocol > 0 then 1 else 0)
                           + (if fees.creator > 0 then 1 else 0)
    ensures fees.FeeOn(0) == 0
  {
    CeilOfRate(fees.lp);
    CeilOfRate(fees.protocol);
    CeilOfRate(fees.creator);
  }

  lemma CeilOfRate(bps: u64)
    requires bps <= 10_000
    ensures CeilDivBps(1, bps) == if bps > 0 then 1 else 0
    ensures CeilDivBps(0, bps) == 0
  {
  }

  lemma ZeroRateIsFree(amount: u64)
    ensures CeilDivBps(amount, 0) == 0
  {
    assert amount * 0 == 0;
  }

  lemma SingleComponent(bps: u64, amount: u64)
    ensures Fees(bps, 0, 0).FeeOn(amount) == CeilDivBps(amount, bps)
  {
    ZeroRateIsFree(amount);
  }

  /** The fee is within the spend unless one unit is charged for more than all of it. */
  lemma FeeWithinSpendIff(quoteIn: u64, fees: Fees)
    requires fees.Rate() <= U64_MAX
    ensures var charged := Charged(quoteIn, fees);
            fees.FeeOn(charged) <= quoteIn <==> !(charged == 1 && fees.FeeOn(1) > quoteIn)
  {
    var charged := Charged(quoteIn, fees);
    if charged == 0 {
      FeeOnNothing(fees);
    } else if charged >= 2 {
      ChargedPlusFee(quoteIn, fees);
    }
  }

  /** Fee and net add up to the spend, under any schedule, exactly when the fee is within the spend. */
  lemma SplitIffFeeWithinSpend(quoteIn: u64, baseReserve: u64, quoteReserve: u64, fees: Fees, slippage: F64)
    ensures var quote := QuoteBuyExactQuoteIn(quoteIn, baseReserve, quoteReserve, fees, slippage);
            quote.fee + Net(quoteIn, fees) == quoteIn <==> fees.FeeOn(Charged(quoteIn, fees)) <= quoteIn
  {
  }

  /**
  Fee and net of an exact-in quote add up to the spend, for every schedule whose rate
  does not saturate, except exactly when one unit is charged and its fee is above the
  whole spend.
  */
  lemma FeePlusNetIsSpend(quoteIn: u64, baseReserve: u64, quoteReserve: u64, fees: Fees, slippage: F64)
    requires fees.Rate() <= U64_MAX
    ensures var quote := QuoteBuyExactQuoteIn(quoteIn, baseReserve, quoteReserve, fees, slippage);
            quote.fee + Net(quoteIn, fees) == quoteIn
            <==> !(Charged(quoteIn, fees) == 1 && fees.FeeOn(1) > quoteIn)
  {
    SplitIffFeeWithinSpend(quoteIn, baseReserve, quoteReserve, fees, slippage);
    FeeWithinSpendIff(quoteIn, fees);
  }

  lemma FeeOnNothing(fees: Fees)
    ensures fees.FeeOn(0) == 0
  {
  }

  /** Past 64 bits of combined rate the split can fail for larger charges too. */
  lemma SaturatedRateBreaksTheSplit(slippage: F64)
    ensures var fees := Fees(U64_MAX, U64_MAX, 0);
            var quote := QuoteBuyExactQuoteIn(U64_MAX - 1, 1, 1, fees, slippage);
            quote.fee + Net(U64_MAX - 1, fees) != U64_MAX - 1 && Charged(U64_MAX - 1, fees) == 9_999
  {
    var fees := Fees(U64_MAX, U64_MAX, 0);
    assert fees.TotalBps() == U64_MAX;
    ChargedIsGreatest(U64_MAX - 1, fees, 9_999);
    ChargedIsGreatest(U64_MAX - 1, fees, 10_000);
    assert fees.FeeOn(9_999) == U64_MAX;
  }

  /** Up to 100% the exception is a single spend: two units, against three non-zero components. */
  lemma FeePlusNetUpToFullRate(quoteIn: u64, baseReserve: u64, quoteReserve: u64, fees: Fees, slippage: F64)
    requires fees.TotalBps() <= 10_000
    ensures var quote := QuoteBuyExactQuoteIn(quoteIn, baseReserve, quoteReserve, fees, slippage);
            quote.fee + Net(quoteIn, fees) == quoteIn
            <==> !(quoteIn == 2 && fees.lp > 0 && fees.protocol > 0 && fees.creator > 0)
  {
    FeePlusNetIsSpend(quoteIn, baseReserve, quoteReserve, fees, slippage);
    FeeOnOne(fees);
    ChargedIsOne(quoteIn, fees);
  }

  /** One unit is charged out of a spend of one or two, and of two only if there is a fee at all. */
  lemma ChargedIsOne(quoteIn: u64, fees: Fees)
    requires fees.TotalBps() <= 10_000
    ensures Charged(quoteIn, fees) == 1 && quoteIn <= 2 <==>
            (quoteIn == 1 && fees.TotalBps() == 0) || (quoteIn == 2 && fees.TotalBps() > 0)
  {
    ChargedIsGreatest(quoteIn, fees, 1);
    ChargedIsGreatest(quoteIn, fees, 2);
  }

  /** A spend below the cost of charging one unit more, in whole units. */
  lemma SpendBelowNextCharge(q: nat, c: nat, t: nat, share: nat)
    requires q * 10_000 < (c + 1) * 10_000 + (c + 1) * t
    requires c * t <= share * 10_000 && t <= 10_000
    ensures q <= share + c + 1
  {
    assert (c + 1) * t == c * t + t;
  }

  /** The fee covers at least its combined share, so the net is at most one above charged. */
  lemma NetAtMostChargedPlusOne(quoteIn: u64, fees: Fees)
    requires fees.TotalBps() <= 10_000
    ensures Net(quoteIn, fees) <= Charged(quoteIn, fees) + 1
  {
    var c: nat := Charged(quoteIn, fees);
    var t: nat := fees.TotalBps();
    ChargedIsGreatest(quoteIn, fees, c + 1);
    FeeOnBounds(fees, c);
    MulMono(0, t, c);
    CeilBounds(c * t, 10_000);
    SpendBelowNextCharge(quoteIn, c, t, Share(c, t));
  }

  // ---------- The two buy instructions ----------

  /** A price above the charged amount costs, with its fee, at least the whole spend. */
  lemma PriceAboveCharged(price: u64, quoteIn: u64, fees: Fees)
    requires price > Charged(quoteIn, fees)
    ensures SaturatingAdd(price, fees.FeeOn(price)) >= quoteIn
  {
    var t: nat := fees.TotalBps();
    ChargedIsGreatest(quoteIn, fees, price);
    FeeOnBounds(fees, price);
    MulMono(0, t, price);
    CeilBounds(price * t, 10_000);
  }

  /**
  Whatever an exact spend buys can be bought outright; under any schedule that is
  strictly cheaper exactly when its price is within the charged part of the spend.
  */
  lemma OutrightIsCheaperIff(
    quoteIn: u64, baseReserve: u64, quoteReserve: u64, fees: Fees, slippage: F64, slippage': F64)
    requires quoteIn >= 1 && baseReserve > 0 && quoteReserve > 0
    ensures var out := QuoteBuyExactQuoteIn(quoteIn, baseReserve, quoteReserve, fees, slippage).amountOut;
            var outright := QuoteBuyExactBaseOut(out, baseReserve, quoteReserve, fees, slippage');
            && outright.Some?
            && outright.value.quoteAmountIn <= FedToCurve(quoteIn, fees)
            && (outright.value.totalQuoteIn < quoteIn
                <==> outright.value.quoteAmountIn <= Charged(quoteIn, fees))
  {
    var curveIn := FedToCurve(quoteIn, fees);
    var out := ConstantProductOut(curveIn, quoteReserve, baseReserve);
    OutIsGreatest(curveIn, quoteReserve, baseReserve, out);
    OutReachesIffCovered(out, curveIn, quoteReserve, baseReserve);
    InIsCappedExact(out, quoteReserve, baseReserve);
    var price := ConstantProductIn(out, quoteReserve, baseReserve).value;
    assert price <= curveIn;
    if price <= Charged(quoteIn, fees) {
      FeeOnMonotone(fees, price, Charged(quoteIn, fees));
      FeeOnNothing(fees);
    } else {
      PriceAboveCharged(price, quoteIn, fees);
    }
  }

  /**
  Up to 100%, buying an output outright is strictly cheaper than spending an exact amount
  that happens to buy it.
  */
  lemma ExactInNeverBeatsExactOut(
    quoteIn: u64, baseReserve: u64, quoteReserve: u64, fees: Fees, slippage: F64, slippage': F64)
    requires quoteIn >= 1 && baseReserve > 0 && quoteReserve > 0
    requires fees.TotalBps() <= 10_000
    ensures var out := QuoteBuyExactQuoteIn(quoteIn, baseReserve, quoteReserve, fees, slippage).amountOut;
            var outright := QuoteBuyExactBaseOut(out, baseReserve, quoteReserve, fees, slippage');
            outright.Some? && outright.value.totalQuoteIn < quoteIn
  {
    OutrightIsCheaperIff(quoteIn, baseReserve, quoteReserve, fees, slippage, slippage');
    NetAtMostChargedPlusOne(quoteIn, fees);
  }

  /** At 200% a spend of five buys what costs six outright. */
  lemma OutrightCanCostMore(slippage: F64)
    ensures var fees := Fees(20_000, 0, 0);
            && QuoteBuyExactQuoteIn(5, 2, 2, fees, slippage).amountOut == 1
            && QuoteBuyExactBaseOut(1, 2, 2, fees, slippage).value.totalQuoteIn == 6
  {
    DoubleFees();
    assert ConstantProductIn(1, 2, 2) == Some(2);
    OutIs(2, 2, 2, 1);
  }

  lemma DoubleFees()
    ensures FedToCurve(5, Fees(20_000, 0, 0)) == 2
    ensures Fees(20_000, 0, 0).FeeOn(2) == 4
  {
    assert Charged(5, Fees(20_000, 0, 0)) == 1;
    SingleComponent(20_000, 1);
    SingleComponent(20_000, 2);
  }

  /** The charged part of a total price is at least the curve's own price. */
  lemma ChargedCoversPrice(price: u64, total: u64, fees: Fees)
    requires price + Min(Share(price, fees.TotalBps()), U64_MAX) <= total
    requires total == U64_MAX ==> price + Share(price, fees.TotalBps()) <= U64_MAX
    ensures price <= Charged(total, fees)
  {
    var t := fees.TotalBps();
    CeilGalois(Share(price, t), price * t, 10_000);
    ChargedIsGreatest(total, fees, price);
  }

  /** Up to 100%, or without saturation, the total nets at most the price it was built from. */
  lemma TotalNetsAtMostPrice(price: u64, fees: Fees)
    requires fees.TotalBps() <= 10_000 || price + fees.FeeOn(price) <= U64_MAX
    requires price > 0
    ensures Net(SaturatingAdd(price, fees.FeeOn(price)), fees) <= price
  {
    var total := SaturatingAdd(price, fees.FeeOn(price));
    var charged := Charged(total, fees);
    if price + fees.FeeOn(price) <= U64_MAX {
      FeeOnBounds(fees, price);
      ChargedCoversPrice(price, total, fees);
      FeeOnMonotone(fees, price, charged);
    } else if price <= charged {
      FeeOnMonotone(fees, price, charged);
    } else {
      NetAtMostChargedPlusOne(total, fees);
    }
  }

  /** When the total feeds the curve less than the exact price, whatever is cut to 64 bits. */
  lemma TotalFallsShortIff(exact: nat, fees: Fees)
    requires exact > 0
    ensures var price := Min(exact, U64_MAX);
            FedToCurve(SaturatingAdd(price, fees.FeeOn(price)), fees) < exact
            <==>
            (fees.TotalBps() <= 10_000 || price + fees.FeeOn(price) <= U64_MAX || Net(U64_MAX, fees) <= exact)
  {
    var price := Min(exact, U64_MAX);
    if fees.TotalBps() <= 10_000 || price + fees.FeeOn(price) <= U64_MAX {
      TotalNetsAtMostPrice(price, fees);
    }
  }

  /**
  Spending the total of an exact-out quote through the exact-in instruction buys
  strictly less than that output: the rounding of one direction is never refunded by
  the other. That holds exactly for a schedule of at most 100%, a total that did not
  saturate, or a saturated one whose net does not exceed the exact price.
  */
  lemma ExactOutTotalBuysStrictlyLess(
    baseOut: u64, baseReserve: u64, quoteReserve: u64, fees: Fees, slippage: F64, slippage': F64)
    requires 0 < baseOut < baseReserve && quoteReserve > 0
    ensures var price := ConstantProductIn(baseOut, quoteReserve, baseReserve).value;
            var total := QuoteBuyExactBaseOut(baseOut, baseReserve, quoteReserve, fees, slippage).value.totalQuoteIn;
            QuoteBuyExactQuoteIn(total, baseReserve, quoteReserve, fees, slippage').amountOut < baseOut
            <==>
            (fees.TotalBps() <= 10_000 || price + fees.FeeOn(price) <= U64_MAX
             || Net(U64_MAX, fees) <= ExactIn(baseOut, quoteReserve, baseReserve))
  {
    var exact := ExactIn(baseOut, quoteReserve, baseReserve);
    var total := SaturatingAdd(Min(exact, U64_MAX), fees.FeeOn(Min(exact, U64_MAX)));
    InIsCappedExact(baseOut, quoteReserve, baseReserve);
    PriceIsPositive(baseOut, quoteReserve, baseReserve);
    TotalFallsShortIff(exact, fees);
    OutReachesIffCovered(baseOut, FedToCurve(total, fees), quoteReserve, baseReserve);
  }

  /** Five units above the total the exact-in instruction has the price of the output to spend. */
  lemma NetCoversPrice(price: u64, quoteIn: u64, fees: Fees)
    requires fees.TotalBps() <= 10_000
    ensures price + fees.FeeOn(price) + 5 <= quoteIn ==> price + 1 <= Net(quoteIn, fees)
  {
    var charged := Charged(quoteIn, fees);
    ChargedPlusFee(quoteIn, fees);
    if charged <= price + 2 <= U64_MAX {
      FeeOnMonotone(fees, charged, price + 2);
      FeeOnGrowth(fees, price, price + 2);
    }
  }

  /**
  The other half of the ordering: five units more than the total of an exact-out quote
  always buy that output through the exact-in instruction.
  */
  lemma FiveMoreUnitsBuyTheOutput(
    baseOut: u64, baseReserve: u64, quoteReserve: u64, fees: Fees, slippage: F64, slippage': F64, quoteIn: u64)
    requires baseOut < baseReserve && quoteReserve > 0 && fees.TotalBps() <= 10_000
    ensures var outright := QuoteBuyExactBaseOut(baseOut, baseReserve, quoteReserve, fees, slippage);
            outright.Some? && (
              outright.value.totalQuoteIn + 5 <= quoteIn ==>
                QuoteBuyExactQuoteIn(quoteIn, baseReserve, quoteReserve, fees, slippage').amountOut >= baseOut)
  {
    InIsCappedExact(baseOut, quoteReserve, baseReserve);
    var price := ConstantProductIn(baseOut, quoteReserve, baseReserve).value;
    NetCoversPrice(price, quoteIn, fees);
    OutReachesIffCovered(baseOut, FedToCurve(quoteIn, fees), quoteReserve, baseReserve);
  }

  /** Four units are not always enough. */
  lemma FourMoreUnitsMayNot(slippage: F64)
    ensures var fees := Fees(8051, 200, 1);
            var total := QuoteBuyExactBaseOut(1, 2, 10_000, fees, slippage).value.totalQuoteIn;
            total == 18_252 && QuoteBuyExactQuoteIn(total + 4, 2, 10_000, fees, slippage).amountOut < 1
  {
    var fees := Fees(8051, 200, 1);
    assert ConstantProductIn(1, 10_000, 2) == Some(10_000);
    FeesAroundThePrice();
    OutIs(9_999, 10_000, 2, 0);
  }

  lemma FeesAroundThePrice()
    ensures Fees(8051, 200, 1).FeeOn(10_000) == 8_252
    ensures FedToCurve(18_256, Fees(8051, 200, 1)) == 9_999
  {
    assert Charged(18_256, Fees(8051, 200, 1)) == 10_002;
    assert Fees(8051, 200, 1).FeeOn(10_002) == 8_256;
  }

  lemma PriceIsPositive(out: u64, reserveIn: u64, reserveOut: u64)
    requires 0 < out < reserveOut && reserveIn > 0
    ensures ExactIn(out, reserveIn, reserveOut) > 0
  {
    CeilGalois(0, reserveIn * out, reserveOut - out);
    MulMono(1, out, reserveIn);
  }

  /** Above 100% a total that saturates can buy the output again, so the guard matters. */
  lemma SaturatedTotalCanBuyMore(slippage: F64)
    ensures var fees := Fees(U64_MAX, 0, 0);
            var total := QuoteBuyExactBaseOut(1, 2, 20_000, fees, slippage).value.totalQuoteIn;
            total == U64_MAX
            && QuoteBuyExactQuoteIn(total, 2, 20_000, fees, slippage).amountOut >= 1
  {
    var fees := Fees(U64_MAX, 0, 0);
    assert ConstantProductIn(1, 20_000, 2) == Some(20_000);
    assert fees.FeeOn(20_000) == U64_MAX;
    assert Charged(U64_MAX, fees) == 9_999;
    var curveIn := FedToCurve(U64_MAX, fees);
    assert fees.FeeOn(9_999) <= U64_MAX - 30_000;
    OutIsGreatest(curveIn, 20_000, 2, 1);
  }

  // ---------- What a sale pays ----------

  lemma NetOfRate(gross: nat, t: nat)
    requires t <= 10_000
    ensures 0 <= gross * (10_000 - t)
    ensures Share(gross, t) <= gross
    ensures gross - Share(gross, t) == gross * (10_000 - t) / 10_000
  {
    var rest: nat := 10_000 - t;
    MulMono(0, t, gross);
    MulMono(0, rest, gross);
    assert gross * rest == gross * 10_000 - gross * t;
    var share := Share(gross, t);
    CeilGalois(gross, gross * t, 10_000);
    MulMono(t, 10_000, gross);
    CeilGalois(share, gross * t, 10_000);
    FloorGalois(gross - share, gross * rest, 10_000);
    if share > 0 {
      CeilGalois(share - 1, gross * t, 10_000);
    }
    FloorGalois(gross - share + 1, gross * rest, 10_000);
  }

  /**
  A sale pays the curve output net of the combined rate, rounded down, and at most two
  units less than that: never more, which would revert a zero-slippage swap.
  */
  lemma SellPaysNetOfRate(baseIn: u64, baseReserve: u64, quoteReserve: u64, fees: Fees, slippage: F64)
    requires fees.TotalBps() <= 10_000
    ensures var sale := QuoteSell(baseIn, baseReserve, quoteReserve, fees, slippage);
            var ideal := sale.grossAmountOut * (10_000 - fees.TotalBps()) / 10_000;
            ideal - 2 <= sale.amountOut <= ideal
  {
    var gross := ConstantProductOut(baseIn, baseReserve, quoteReserve);
    NetOfRate(gross, fees.TotalBps());
    FeeOnBounds(fees, gross);
  }

  // ---------- Larger trades ----------

  /** Deducting the fee loses at most two units of order, and exactly two for some amounts. */
  lemma PayoutNearMonotone(a: u64, b: u64, fees: Fees)
    requires a <= b
    ensures SaturatingSub(b, fees.FeeOn(b)) >= SaturatingSub(a, fees.FeeOn(a)) - 2
  {
    if fees.TotalBps() <= 10_000 {
      FeeOnGrowth(fees, a, b);
    } else {
      FeeCoversAmount(fees, a);
    }
  }

  lemma SellNearMonotone(
    a: u64, b: u64, baseReserve: u64, quoteReserve: u64, fees: Fees, slippage: F64)
    requires a <= b
    ensures QuoteSell(b, baseReserve, quoteReserve, fees, slippage).amountOut
         >= QuoteSell(a, baseReserve, quoteReserve, fees, slippage).amountOut - 2
  {
    OutMonotone(a, b, baseReserve, quoteReserve);
    PayoutNearMonotone(
      ConstantProductOut(a, baseReserve, quoteReserve),
      ConstantProductOut(b, baseReserve, quoteReserve), fees);
  }

  lemma SellSlackIsSharp(slippage: F64)
    ensures QuoteSell(10_003, 10_000, 20_000, Fees(1, 1, 1), slippage).amountOut
         == QuoteSell(10_000, 10_000, 20_000, Fees(1, 1, 1), slippage).amountOut - 2
  {
    assert ConstantProductOut(10_000, 10_000, 20_000) == 10_000;
    assert ConstantProductOut(10_003, 10_000, 20_000) == 10_001;
    FeeStep();
  }

  lemma FeeStep()
    ensures Fees(1, 1, 1).FeeOn(10_000) == 3
    ensures Fees(1, 1, 1).FeeOn(10_001) == 6
  {
  }

  lemma ChargedGrowsNoFasterThanSpend(a: u64, b: u64, fees: Fees)
    requires a <= b
    ensures Charged(a, fees) <= Charged(b, fees) <= Charged(a, fees) + (b - a)
  {
    var ca, cb, t := Charged(a, fees), Charged(b, fees), fees.TotalBps();
    ChargedIsGreatest(a, fees, ca);
    ChargedIsGreatest(b, fees, ca);
    ChargedIsGreatest(b, fees, cb);
    if cb > ca + (b - a) {
      var c := cb - (b - a);
      ChargedIsGreatest(a, fees, c);
      MulMono(c, cb, t);
    }
  }

  lemma CostsAddUp(a: nat, b: nat, c: nat, d: nat, t: nat)
    requires c * 10_000 + c * t > a * 10_000 && d * 10_000 + d * t > b * 10_000
    ensures (c + d) * 10_000 + (c + d) * t > (a + b) * 10_000
  {
    Distribute(c, d, t);
  }

  lemma ChargedOfSumUpper(a: u64, b: u64, fees: Fees)
    requires a + b <= U64_MAX
    ensures Charged(a + b, fees) <= Charged(a, fees) + Charged(b, fees) + 1
  {
    var c: nat, d: nat := Charged(a, fees) + 1, Charged(b, fees) + 1;
    ChargedIsGreatest(a, fees, c);
    ChargedIsGreatest(b, fees, d);
    CostsAddUp(a, b, c, d, fees.TotalBps());
    ChargedIsGreatest(a + b, fees, c + d);
  }

  lemma ChargedOfSumLower(a: u64, b: u64, fees: Fees)
    requires a + b <= U64_MAX
    ensures Charged(a, fees) + Charged(b, fees) <= Charged(a + b, fees)
  {
    var c: nat, d: nat := Charged(a, fees), Charged(b, fees);
    ChargedIsGreatest(a, fees, c);
    ChargedIsGreatest(b, fees, d);
    Distribute(c, d, fees.TotalBps());
    ChargedIsGreatest(a + b, fees, c + d);
  }

  /** Two spends are charged together at most one unit more than apart, and never less. */
  lemma ChargedOfSum(a: u64, b: u64, fees: Fees)
    requires a + b <= U64_MAX
    ensures Charged(a, fees) + Charged(b, fees) <= Charged(a + b, fees) <= Charged(a, fees) + Charged(b, fees) + 1
  {
    ChargedOfSumLower(a, b, fees);
    ChargedOfSumUpper(a, b, fees);
  }

  lemma NetNearMonotone(a: u64, b: u64, fees: Fees)
    requires a <= b && fees.TotalBps() <= 10_000
    ensures Net(b, fees) >= Net(a, fees) - 2
  {
    var ca, cb := Charged(a, fees), Charged(b, fees);
    ChargedGrowsNoFasterThanSpend(a, b, fees);
    FeeOnGrowth(fees, ca, cb);
  }

  lemma NetSlackIsSharp()
    ensures Net(10_005, Fees(1, 1, 1)) == Net(10_004, Fees(1, 1, 1)) - 2
  {
    assert Charged(10_004, Fees(1, 1, 1)) == 10_000;
    assert Charged(10_005, Fees(1, 1, 1)) == 10_001;
    FeeStep();
  }

  /** Beyond 100% a larger spend can net less by more than that. */
  lemma NetSlackBeyondFullRate()
    ensures Net(5, Fees(40_000, 0, 0)) == Net(4, Fees(40_000, 0, 0)) - 3
  {
    assert Charged(4, Fees(40_000, 0, 0)) == 0 && Charged(5, Fees(40_000, 0, 0)) == 1;
    SingleComponent(40_000, 0);
    SingleComponent(40_000, 1);
  }

  // ---------- The limits derived from a quote ----------

  /** A floor misses the fill it was derived from: slippage too small to count, and a fill that grows. */
  predicate FloorMisses(fill: u64, slippage: F64) {
    TooSmallToLower(slippage) && NarrowU64(Round(fill)) > fill
  }

  /** A cap misses the total it was derived from: slippage too small to count, and a total that shrinks. */
  predicate CapMisses(total: u64, slippage: F64) {
    TooSmallToRaise(slippage) && NarrowU64(Round(total)) < total
  }

  /** The instruction arguments derived from a quote accept the quoted fill, exactly unless they miss. */
  lemma QuotedLimitsAcceptTheFill(
    amount: u64, baseReserve: u64, quoteReserve: u64, fees: Fees, slippage: F64)
    ensures var sell := QuoteSell(amount, baseReserve, quoteReserve, fees, slippage);
            sell.minAmountOut <= sell.amountOut <==> !FloorMisses(sell.amountOut, slippage)
    ensures var buy := QuoteBuyExactQuoteIn(amount, baseReserve, quoteReserve, fees, slippage);
            buy.minAmountOut <= buy.amountOut <==> !FloorMisses(buy.amountOut, slippage)
    ensures var outright := QuoteBuyExactBaseOut(amount, baseReserve, quoteReserve, fees, slippage);
            outright.Some? ==>
              (outright.value.maxQuoteIn >= outright.value.totalQuoteIn
               <==> !CapMisses(outright.value.totalQuoteIn, slippage))
  {
    var sell := QuoteSell(amount, baseReserve, quoteReserve, fees, slippage);
    var buy := QuoteBuyExactQuoteIn(amount, baseReserve, quoteReserve, fees, slippage);
    var outright := QuoteBuyExactBaseOut(amount, baseReserve, quoteReserve, fees, slippage);
    FloorIsSafeIff(sell.amountOut, slippage);
    FloorIsSafeIff(buy.amountOut, slippage);
    if outright.Some? {
      CapIsSafeIff(outright.value.totalQuoteIn, slippage);
    }
  }

  /** Nothing up to 2^53 is missed, and nothing is missed by more than 1024. */
  lemma MissesAreSmall(amount: u64, slippage: F64)
    ensures FloorMisses(amount, slippage) ==>
              amount > 0x20_0000_0000_0000 && ApplySlippage(amount, slippage) <= amount + 1024
    ensures CapMisses(amount, slippage) ==>
              amount > 0x20_0000_0000_0000 && RaiseBySlippage(amount, slippage) >= amount - 1024
  {
    FloorIsSafeIff(amount, slippage);
    CapIsSafeIff(amount, slippage);
    FloorError(amount, slippage);
    CapError(amount, slippage);
  }

  lemma SaleGross()
    ensures ConstantProductOut(U64_MAX, 1, 0x8000_0000_0000_0C01) == 0x8000_0000_0000_0C00
  {
    OutIsGreatest(U64_MAX, 1, 0x8000_0000_0000_0C01, 0x8000_0000_0000_0C00);
    OutIsGreatest(U64_MAX, 1, 0x8000_0000_0000_0C01, 0x8000_0000_0000_0C01);
  }

  lemma FreeSaleIsUnreduced(gross: u64)
    ensures SaturatingSub(gross, Fees(0, 0, 0).FeeOn(gross)) == gross
  {
    ZeroRateIsFree(gross);
  }

  /** A sale whose own minimum refuses it, by the full 1024. */
  lemma SaleRefusedByItsMinimum(slippage: F64)
    requires TooSmallToLower(slippage)
    ensures var sale := QuoteSell(U64_MAX, 1, 0x8000_0000_0000_0C01, Fees(0, 0, 0), slippage);
            sale.amountOut == 0x8000_0000_0000_0C00 && sale.minAmountOut == sale.amountOut + 1024
  {
    SaleGross();
    FreeSaleIsUnreduced(0x8000_0000_0000_0C00);
    FloorExceedsFillByFullError(slippage);
  }

  lemma OutrightPrice()
    ensures ConstantProductIn(1, 0x8000_0000_0000_0400, 2) == Some(0x8000_0000_0000_0400)
  {
    assert CeilDiv(0x8000_0000_0000_0400, 1) == 0x8000_0000_0000_0400;
  }

  /** A purchase whose own spending cap is 1024 short of its total. */
  lemma PurchaseRefusedByItsCap(slippage: F64)
    requires TooSmallToRaise(slippage)
    ensures var purchase := QuoteBuyExactBaseOut(1, 2, 0x8000_0000_0000_0400, Fees(0, 0, 0), slippage);
            && purchase.Some?
            && purchase.value.totalQuoteIn == 0x8000_0000_0000_0400
            && purchase.value.maxQuoteIn == purchase.value.totalQuoteIn - 1024
  {
    OutrightPrice();
    ZeroRateIsFree(0x8000_0000_0000_0400);
    CapFallsShortByFullError(slippage);
  }

  // ---------- What every field of a quote is ----------

  /**
  A sale: the gross output is the greatest that keeps the product, the fee is the exact one
  cut to 64 bits, the payout is what it leaves, and the minimum is that of the payout.
  */
  lemma SaleFields(baseIn: u64, baseReserve: u64, quoteReserve: u64, fees: Fees, slippage: F64, out: nat)
    ensures var sale := QuoteSell(baseIn, baseReserve, quoteReserve, fees, slippage);
            && IsGreatestOutput(sale.grossAmountOut, baseIn, baseReserve, quoteReserve, out)
            && sale.fee == Min(fees.ExactFee(sale.grossAmountOut), U64_MAX)
            && (sale.fee <= sale.grossAmountOut ==> sale.amountOut + sale.fee == sale.grossAmountOut)
            && (sale.fee > sale.grossAmountOut ==> sale.amountOut == 0)
            && IsMinimumOf(sale.minAmountOut, sale.amountOut, slippage)
  {
    var gross := ConstantProductOut(baseIn, baseReserve, quoteReserve);
    OutIsGreatestOutput(baseIn, baseReserve, quoteReserve, out);
    FeeOnIsCappedSum(fees, gross);
    MinimumAtEverySlippage(SaturatingSub(gross, fees.FeeOn(gross)), slippage);
  }

  lemma ExactInParts(quoteIn: u64, baseReserve: u64, quoteReserve: u64, fees: Fees, slippage: F64)
    ensures var buy := QuoteBuyExactQuoteIn(quoteIn, baseReserve, quoteReserve, fees, slippage);
            && buy.amountOut == ConstantProductOut(FedToCurve(quoteIn, fees), quoteReserve, baseReserve)
            && FedToCurve(quoteIn, fees) == Max(quoteIn - buy.fee - 1, 0)
  {
  }

  /** An exact-in buy: the greatest output for what the spend leaves after the fee and one unit. */
  lemma ExactInOutput(quoteIn: u64, baseReserve: u64, quoteReserve: u64, fees: Fees, slippage: F64, out: nat)
    ensures var buy := QuoteBuyExactQuoteIn(quoteIn, baseReserve, quoteReserve, fees, slippage);
            var fed := Max(quoteIn - buy.fee - 1, 0);
            IsGreatestOutput(buy.amountOut, fed, quoteReserve, baseReserve, out)
  {
    var fed := FedToCurve(quoteIn, fees);
    ExactInParts(quoteIn, baseReserve, quoteReserve, fees, slippage);
    OutIsGreatestOutput(fed, quoteReserve, baseReserve, out);
  }

  /** Its gross and net output are the same, its fee is on the charged part, its minimum that of the output. */
  lemma ExactInFields(quoteIn: u64, baseReserve: u64, quoteReserve: u64, fees: Fees, slippage: F64)
    ensures var buy := QuoteBuyExactQuoteIn(quoteIn, baseReserve, quoteReserve, fees, slippage);
            && buy.fee == Min(fees.ExactFee(Charged(quoteIn, fees)), U64_MAX)
            && buy.grossAmountOut == buy.amountOut
            && IsMinimumOf(buy.minAmountOut, buy.amountOut, slippage)
  {
    FeeOnIsCappedSum(fees, Charged(quoteIn, fees));
    MinimumAtEverySlippage(
      ConstantProductOut(FedToCurve(quoteIn, fees), quoteReserve, baseReserve), slippage);
  }

  /** An exact-out buy: price, fee and total are the exact ones cut to 64 bits, and the cap is that of the total. */
  lemma ExactOutFields(baseOut: u64, baseReserve: u64, quoteReserve: u64, fees: Fees, slippage: F64)
    ensures match QuoteBuyExactBaseOut(baseOut, baseReserve, quoteReserve, fees, slippage)
            case None => baseOut >= baseReserve
            case Some(buy) =>
              && baseOut < baseReserve
              && buy.quoteAmountIn == Min(ExactIn(baseOut, quoteReserve, baseReserve), U64_MAX)
              && buy.fee == Min(fees.ExactFee(buy.quoteAmountIn), U64_MAX)
              && buy.totalQuoteIn == Min(buy.quoteAmountIn + buy.fee, U64_MAX)
              && IsCapOf(buy.maxQuoteIn, buy.totalQuoteIn, slippage)
  {
    InIsCappedExact(baseOut, quoteReserve, baseReserve);
    match ConstantProductIn(baseOut, quoteReserve, baseReserve)
    case None =>
    case Some(price) =>
      FeeOnIsCappedSum(fees, price);
      CapAtEverySlippage(SaturatingAdd(price, fees.FeeOn(price)), slippage);
  }
}
