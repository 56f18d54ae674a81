/**
The market-cap fee ladder: `FeeConfig`'s lookup in `src/state.rs` and `fees_from_state`
in `src/client.rs`.
*/
module FeeLadder {
  import opened Arith
  import opened Bytes
  import opened FeeSchedule
  import opened MachineInts
  import opened Pool

  datatype FeeTier = FeeTier(threshold: u128, fees: Fees)

  /** A borsh `Vec` holds at most a 32-bit count of elements. */
  type Tiers = tiers: seq<FeeTier> | |tiers| < 0x1_0000_0000

  datatype FeeConfig = FeeConfig(bump: byte, admin: Pubkey, flatFees: Fees, feeTiers: Tiers, stableFeeTiers: Tiers)
  {
    /** No quote mint is known to select the stable ladder, so the standard one is used. */
    function FeesForPool(isTiered: bool, marketCap: u128): Fees {
      if !isTiered then flatFees else
      match TierForMarketCap(feeTiers, marketCap)
      case Some(tier) => tier.fees
      case None => if feeTiers == [] then flatFees else feeTiers[0].fees
    }
  }

  /** The first match scanning from the end. */
  function TierForMarketCap(tiers: seq<FeeTier>, marketCap: u128): Option<FeeTier> {
    if tiers == [] then None
    else if tiers[|tiers| - 1].threshold <= marketCap then Some(tiers[|tiers| - 1])
    else TierForMarketCap(tiers[..|tiers| - 1], marketCap)
  }

  function MarketCapLamports(baseSupply: u64, baseReserve: u64, quoteReserve: u64): u128 {
    if baseReserve == 0 then 0 else
    MulBound(baseSupply, quoteReserve, U64_MAX);
    QuotientAtMostDividend(baseSupply * quoteReserve, baseReserve);
    baseSupply * quoteReserve / baseReserve
  }

  lemma QuotientAtMostDividend(n: nat, d: nat)
    requires d > 0
    ensures 0 <= n / d <= n
  {
    DivMod(n, d);
    MulMono(1, d, n / d);
  }

  predicate IsTieredFeePool(pool: PoolInfo) {
    pool.coinCreator != DEFAULT_KEY
  }

  function FeesFromState(config: FeeConfig, pool: PoolInfo, baseSupply: u64, baseReserve: u64, quoteReserve: u64)
    : Fees
  {
    var isTiered := IsTieredFeePool(pool);
    var effective := pool.EffectiveReserves(baseReserve, quoteReserve);
    var marketCap := if isTiered then MarketCapLamports(baseSupply, effective.0, effective.1) else 0;
    config.FeesForPool(isTiered, marketCap)
  }

  // ---------- The lookup against its description ----------

  ghost predicate Ascending(tiers: seq<FeeTier>) {
    forall i, j :: 0 <= i < j < |tiers| ==> tiers[i].threshold <= tiers[j].threshold
  }

  /** Position of the last rung at or below the market cap, or -1. */
  ghost function LastReached(tiers: seq<FeeTier>, marketCap: nat): (rung: int)
    ensures -1 <= rung < |tiers|
    ensures rung >= 0 ==> tiers[rung].threshold <= marketCap
    ensures forall i :: rung < i < |tiers| ==> tiers[i].threshold > marketCap
  {
    if tiers == [] then -1
    else if tiers[|tiers| - 1].threshold <= marketCap then |tiers| - 1
    else LastReached(tiers[..|tiers| - 1], marketCap)
  }

  lemma {:induction false} LookupIsLastReached(tiers: seq<FeeTier>, marketCap: u128)
    ensures var rung := LastReached(tiers, marketCap);
            TierForMarketCap(tiers, marketCap) == if rung >= 0 then Some(tiers[rung]) else None
  {
    if tiers != [] && tiers[|tiers| - 1].threshold > marketCap {
      LookupIsLastReached(tiers[..|tiers| - 1], marketCap);
    }
  }

  /**
  On an ascending ladder the reverse scan finds the highest threshold at or below the
  market cap, and finds none only when every threshold is above it.
  */
  lemma LookupIsHighest(tiers: seq<FeeTier>, marketCap: u128)
    requires Ascending(tiers)
    ensures match TierForMarketCap(tiers, marketCap)
            case None => forall tier :: tier in tiers ==> tier.threshold > marketCap
            case Some(found) =>
              found in tiers && found.threshold <= marketCap
              && forall tier :: tier in tiers && tier.threshold <= marketCap ==> tier.threshold <= found.threshold
  {
    LookupIsLastReached(tiers, marketCap);
  }

  /**
  A tiered pool pays a rung of its ladder: the highest one reached, or the first one
  when the market cap is below them all. Only an empty ladder lets the flat fees stand in.
  */
  lemma TieredPoolPaysARung(config: FeeConfig, marketCap: u128)
    ensures config.FeesForPool(true, marketCap)
         == if config.feeTiers == [] then config.flatFees
            else config.feeTiers[Max(LastReached(config.feeTiers, marketCap), 0)].fees
  {
    LookupIsLastReached(config.feeTiers, marketCap);
  }

  // ---------- The schedule of a pool state ----------

  /** Supply times price reaches the threshold; with no base reserve the market cap counts as zero. */
  ghost predicate Reached(tier: FeeTier, supply: u64, base: u64, quote: u64) {
    if base == 0 then tier.threshold == 0 else tier.threshold * base <= supply * quote
  }

  lemma ReachedIffBelowCap(tiers: seq<FeeTier>, supply: u64, base: u64, quote: u64)
    ensures forall i :: 0 <= i < |tiers| ==>
              (tiers[i].threshold <= MarketCapLamports(supply, base, quote) <==> Reached(tiers[i], supply, base, quote))
  {
    forall i | 0 <= i < |tiers|
      ensures tiers[i].threshold <= MarketCapLamports(supply, base, quote)
              <==> Reached(tiers[i], supply, base, quote)
    {
      if base > 0 {
        MarketCapIsGreatest(supply, base, quote, tiers[i].threshold);
      }
    }
  }

  /** The creator key is all zeros. */
  ghost predicate NoCreator(pool: PoolInfo) {
    forall i :: 0 <= i < 32 ==> pool.coinCreator[i] == 0
  }

  /** Without a coin creator the flat fees, and also on an empty ladder. */
  lemma FlatFeesFor(config: FeeConfig, pool: PoolInfo, supply: u64, baseReserve: u64, quoteReserve: u64)
    requires NoCreator(pool) || config.feeTiers == []
    ensures FeesFromState(config, pool, supply, baseReserve, quoteReserve) == config.flatFees
  {
    DefaultKeyIsZero(pool.coinCreator);
  }

  /**
  With a coin creator, the last rung that supply times effective price reaches, or the
  first rung when none is reached.
  */
  lemma LadderFeesFor(config: FeeConfig, pool: PoolInfo, supply: u64, baseReserve: u64, quoteReserve: u64, rung: nat)
    requires !NoCreator(pool) && rung < |config.feeTiers|
    ensures var quote := Clamp(quoteReserve + pool.virtualQuoteReserves, 0, U64_MAX);
            (rung == 0 || Reached(config.feeTiers[rung], supply, baseReserve, quote))
            && (forall i :: rung < i < |config.feeTiers| ==>
                  !Reached(config.feeTiers[i], supply, baseReserve, quote)) ==>
              FeesFromState(config, pool, supply, baseReserve, quoteReserve) == config.feeTiers[rung].fees
  {
    DefaultKeyIsZero(pool.coinCreator);
    EffectiveQuoteIsClampedSum(pool, baseReserve, quoteReserve);
    var quote := Clamp(quoteReserve + pool.virtualQuoteReserves, 0, U64_MAX);
    ReachedIffBelowCap(config.feeTiers, supply, baseReserve, quote);
    TieredPoolPaysARung(config, MarketCapLamports(supply, baseReserve, quote));
  }

  // ---------- Stability under price moves ----------

  /** Every rung costs at most as much as the one below it. */
  ghost predicate CheaperAbove(tiers: seq<FeeTier>) {
    forall i, j :: 0 <= i <= j < |tiers| ==> tiers[j].fees.TotalBps() <= tiers[i].fees.TotalBps()
  }

  lemma FeesFallWithMarketCap(config: FeeConfig, isTiered: bool, low: u128, high: u128)
    requires low <= high && CheaperAbove(config.feeTiers)
    ensures config.FeesForPool(isTiered, high).TotalBps() <= config.FeesForPool(isTiered, low).TotalBps()
  {
    LookupIsLastReached(config.feeTiers, low);
    LookupIsLastReached(config.feeTiers, high);
  }

  /** The market cap is the greatest amount that supply times price covers. */
  lemma MarketCapIsGreatest(supply: u64, base: u64, quote: u64, cap: nat)
    requires base > 0
    ensures cap <= MarketCapLamports(supply, base, quote) <==> cap * base <= supply * quote
  {
    MulMono(0, quote, supply);
    FloorGalois(cap, supply * quote, base);
  }

  lemma MarketCapRises(
    supply: u64, base: u64, quote: u64, base': u64, quote': u64)
    requires 0 < base' <= base && quote <= quote'
    ensures MarketCapLamports(supply, base, quote) <= MarketCapLamports(supply, base', quote')
  {
    var cap := MarketCapLamports(supply, base, quote);
    MarketCapIsGreatest(supply, base, quote, cap);
    MulMono(base', base, cap);
    MulMono(quote, quote', supply);
    MarketCapIsGreatest(supply, base', quote', cap);
  }

  /**
  When effective base falls and effective quote rises, the schedule of a pool on a
  ladder that is cheaper above never costs more.
  */
  lemma FeesNeverRiseWithPrice(
    config: FeeConfig, pool: PoolInfo, supply: u64, base: u64, quote: u64,
    pool': PoolInfo, base': u64, quote': u64)
    requires CheaperAbove(config.feeTiers) && pool.coinCreator == pool'.coinCreator
    requires var (b, q) := pool.EffectiveReserves(base, quote);
             var (b', q') := pool'.EffectiveReserves(base', quote');
             0 < b' <= b && q <= q'
    ensures FeesFromState(config, pool', supply, base', quote').TotalBps()
         <= FeesFromState(config, pool, supply, base, quote).TotalBps()
  {
    var (b, q) := pool.EffectiveReserves(base, quote);
    var (b', q') := pool'.EffectiveReserves(base', quote');
    MarketCapRises(supply, b, q, b', q');
    FeesFallWithMarketCap(
      config, IsTieredFeePool(pool),
      if IsTieredFeePool(pool) then MarketCapLamports(supply, b, q) else 0,
      if IsTieredFeePool(pool) then MarketCapLamports(supply, b', q') else 0);
  }
}
