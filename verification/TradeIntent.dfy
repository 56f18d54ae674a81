/**
"Buy the token with SOL" and "sell the token for SOL" compiled to an instruction list
(`src/client.rs`), and the list's meaning on a small ledger: the trader's wallet, the
temporary wrapped-SOL account, and the trader's token account.
*/
module TradeIntent {
  import opened Bytes
  import opened FeeSchedule
  import opened MachineInts
  import opened Pool
  import opened Quotes
  import opened Slippage
  import opened TokenQuotes

  // ---------- Instructions ----------

  /** Which of the trader's two token accounts stands at an instruction's base or quote position. */
  datatype Slot = Wsol | TokenAta

  datatype Ix =
    | ExtendPool
    | CreateWsol(lamports: u64)
    | InitializeWsol
    | CreateAtaIdempotent
    | Sell(baseIn: u64, minQuoteOut: u64, userBase: Slot, userQuote: Slot)
    | BuyExactQuoteIn(quoteIn: u64, minBaseOut: u64, userBase: Slot, userQuote: Slot)
    | CloseWsol
    | CloseAta

  /** Rent-exempt minimum of a 165-byte token account. */
  const WSOL_RENT: u64 := 2_039_280

  const POOL_ACCOUNT_NEW_SIZE: nat := 301

  // ---------- Ledger semantics ----------

  /** A token account that is allocated, and later initialized to hold wrapped SOL. */
  datatype WsolAccount = Allocated(lamports: u64) | Ready(lamports: u64, amount: u64)

  datatype Ledger = Ledger(wallet: u64, wsol: Option<WsolAccount>, token: Option<u64>)

  /** What execution sees besides the trader: the pool, what it pays for an exact input, and rents. */
  datatype Market = Market(
    pool: PoolInfo, sellFill: u64 -> u64, buyFill: u64 -> u64, ataRent: u64, extendRent: u64)

  /** The market the program makes at these vault balances and fees. */
  function MarketAt(pool: PoolInfo, reserves: (u64, u64), fees: Fees, ataRent: u64, extendRent: u64): Market {
    var effective := pool.EffectiveReserves(reserves.0, reserves.1);
    Market(
      pool,
      (baseIn: u64) => QuoteSell(baseIn, effective.0, effective.1, fees, NaN).amountOut,
      (quoteIn: u64) => QuoteBuyExactQuoteIn(quoteIn, effective.0, effective.1, fees, NaN).amountOut,
      ataRent,
      extendRent)
  }

  datatype LedgerError =
    | InsufficientFunds
    | AccountInUse
    | MissingAccount
    | NotRentExempt
    | MintMismatch
    | SlippageExceeded
    | NonZeroBalance
    | Overflow

  function PayLamports(l: Ledger, lamports: u64): Result<Ledger, LedgerError> {
    if l.wallet < lamports then Err(InsufficientFunds) else Ok(l.(wallet := l.wallet - lamports))
  }

  function ReceiveLamports(l: Ledger, lamports: u64): Result<Ledger, LedgerError> {
    if l.wallet + lamports > U64_MAX then Err(Overflow) else Ok(l.(wallet := l.wallet + lamports))
  }

  /** Move a slot's token balance; wrapped SOL carries its lamports along. */
  function Adjust(l: Ledger, slot: Slot, change: int): Result<Ledger, LedgerError> {
    match slot
    case TokenAta =>
      if !Exists(l, slot) then Err(MissingAccount)
      else if l.token.value + change < 0 then Err(InsufficientFunds)
      else if l.token.value + change > U64_MAX then Err(Overflow)
      else Ok(l.(token := Some(l.token.value + change)))
    case Wsol =>
      if !Exists(l, slot) then Err(MissingAccount)
      else
        var account := l.wsol.value;
        if account.amount + change < 0 || account.lamports + change < 0 then Err(InsufficientFunds)
        else if account.amount + change > U64_MAX || account.lamports + change > U64_MAX then Err(Overflow)
        else Ok(l.(wsol := Some(Ready(account.lamports + change, account.amount + change))))
  }

  /** The account in the slot holds the given mint. */
  predicate Holds(market: Market, slot: Slot, mint: Pubkey) {
    mint == match slot case Wsol => WRAPPED_SOL_MINT case TokenAta => market.pool.TokenMint()
  }

  predicate Exists(l: Ledger, slot: Slot) {
    match slot case TokenAta => l.token.Some? case Wsol => l.wsol.Some? && l.wsol.value.Ready?
  }

  /** Find both accounts, take the input, check the fill against the minimum, hand over the output. */
  function Exchange(l: Ledger, from: Slot, spent: u64, to: Slot, received: u64, minimum: u64)
    : Result<Ledger, LedgerError>
  {
    if !Exists(l, from) || !Exists(l, to) then Err(MissingAccount) else
    match Adjust(l, from, 0 - spent)
    case Err(error) => Err(error)
    case Ok(debited) =>
      if received < minimum then Err(SlippageExceeded) else Adjust(debited, to, received)
  }

  function ExecuteIx(l: Ledger, ix: Ix, market: Market): Result<Ledger, LedgerError> {
    match ix
    case ExtendPool => PayLamports(l, market.extendRent)
    case CreateWsol(lamports) =>
      if l.wsol.Some? then Err(AccountInUse) else
      (match PayLamports(l, lamports)
       case Err(error) => Err(error)
       case Ok(paid) => Ok(paid.(wsol := Some(Allocated(lamports)))))
    case InitializeWsol =>
      if l.wsol.None? then Err(MissingAccount)
      else if l.wsol.value.Ready? then Err(AccountInUse)
      else if l.wsol.value.lamports < WSOL_RENT then Err(NotRentExempt)
      else Ok(l.(wsol := Some(Ready(l.wsol.value.lamports, l.wsol.value.lamports - WSOL_RENT))))
    case CreateAtaIdempotent =>
      if l.token.Some? then Ok(l) else
      (match PayLamports(l, market.ataRent)
       case Err(error) => Err(error)
       case Ok(paid) => Ok(paid.(token := Some(0))))
    case Sell(baseIn, minQuoteOut, userBase, userQuote) =>
      if !Holds(market, userBase, market.pool.baseMint) || !Holds(market, userQuote, market.pool.quoteMint)
      then Err(MintMismatch)
      else Exchange(l, userBase, baseIn, userQuote, market.sellFill(baseIn), minQuoteOut)
    case BuyExactQuoteIn(quoteIn, minBaseOut, userBase, userQuote) =>
      if !Holds(market, userBase, market.pool.baseMint) || !Holds(market, userQuote, market.pool.quoteMint)
      then Err(MintMismatch)
      else Exchange(l, userQuote, quoteIn, userBase, market.buyFill(quoteIn), minBaseOut)
    case CloseWsol =>
      if l.wsol.None? then Err(MissingAccount)
      else ReceiveLamports(l.(wsol := None), l.wsol.value.lamports)
    case CloseAta =>
      if l.token.None? then Err(MissingAccount)
      else if l.token.value != 0 then Err(NonZeroBalance)
      else ReceiveLamports(l.(token := None), market.ataRent)
  }

  /** A transaction: all of its instructions, or none. */
  function Execute(l: Ledger, ixs: seq<Ix>, market: Market): Result<Ledger, LedgerError>
    decreases |ixs|
  {
    if ixs == [] then Ok(l) else
    match ExecuteIx(l, ixs[0], market)
    case Err(error) => Err(error)
    case Ok(l') => Execute(l', ixs[1..], market)
  }

  lemma {:induction false} ExecuteConcat(l: Ledger, a: seq<Ix>, b: seq<Ix>, market: Market)
    ensures Execute(l, a + b, market) == match Execute(l, a, market)
                                         case Err(error) => Err(error)
                                         case Ok(l') => Execute(l', b, market)
    decreases |a|
  {
    if a == [] {
      assert a + b == b;
    } else {
      assert (a + b)[1..] == a[1..] + b;
      match ExecuteIx(l, a[0], market)
      case Err(_) =>
      case Ok(l') => ExecuteConcat(l', a[1..], b, market);
    }
  }

  lemma ExecuteOne(l: Ledger, ix: Ix, market: Market)
    ensures Execute(l, [ix], market) == ExecuteIx(l, ix, market)
  {
    assert [ix][1..] == [];
  }

  // ---------- The compiled lists ----------

  /** `min_rent_exempt + sol_in` in 64 bits, as a release build computes it. */
  function Funding(sol: u64): u64 {
    (WSOL_RENT + sol) % (U64_MAX + 1)
  }

  function MaybeExtendPool(pool: PoolInfo): seq<Ix> {
    if pool.accountDataLen < POOL_ACCOUNT_NEW_SIZE then [ExtendPool] else []
  }

  function OpenWsol(sol: u64): seq<Ix> {
    [CreateWsol(Funding(sol))] + [InitializeWsol]
  }

  function BuySwap(pool: PoolInfo, solIn: u64, minTokensOut: u64): Ix {
    if pool.SolIsBase() then Sell(solIn, minTokensOut, Wsol, TokenAta)
    else BuyExactQuoteIn(solIn, minTokensOut, TokenAta, Wsol)
  }

  function SellSwap(pool: PoolInfo, tokensIn: u64, minSolOut: u64): Ix {
    if pool.SolIsBase() then BuyExactQuoteIn(tokensIn, minSolOut, Wsol, TokenAta)
    else Sell(tokensIn, minSolOut, TokenAta, Wsol)
  }

  function TokenBuyList(solIn: u64, minTokensOut: u64, pool: PoolInfo, createAta: bool): seq<Ix> {
    MaybeExtendPool(pool) + OpenWsol(solIn) + (if createAta then [CreateAtaIdempotent] else [])
    + [BuySwap(pool, solIn, minTokensOut)] + [CloseWsol]
  }

  function TokenSellList(tokensIn: u64, minSolOut: u64, pool: PoolInfo, closeAta: bool): seq<Ix> {
    MaybeExtendPool(pool) + OpenWsol(0) + [SellSwap(pool, tokensIn, minSolOut)] + [CloseWsol]
    + (if closeAta then [CloseAta] else [])
  }

  method BuildTokenBuyIxs(solIn: u64, minTokensOut: u64, pool: PoolInfo, createAta: bool)
    returns (instructions: seq<Ix>)
    ensures instructions == TokenBuyList(solIn, minTokensOut, pool, createAta)
    ensures SolPair(pool) ==> forall l, market: Market :: market.pool == pool ==>
              IsBuy(Execute(l, instructions, market), l, market,
                    solIn, TokensFor(market, solIn), minTokensOut, createAta)
    ensures !SolPair(pool) ==> forall l, market: Market :: market.pool == pool ==>
              Execute(l, instructions, market).Err?
  {
    instructions := [];
    if pool.accountDataLen < POOL_ACCOUNT_NEW_SIZE {
      instructions := instructions + [ExtendPool];
    }
    instructions := instructions + [CreateWsol(Funding(solIn)), InitializeWsol];
    if createAta {
      instructions := instructions + [CreateAtaIdempotent];
    }
    var swap;
    if pool.SolIsBase() {
      swap := Sell(solIn, minTokensOut, Wsol, TokenAta);
    } else {
      swap := BuyExactQuoteIn(solIn, minTokensOut, TokenAta, Wsol);
    }
    instructions := instructions + [swap];
    instructions := instructions + [CloseWsol];
    assert instructions == TokenBuyList(solIn, minTokensOut, pool, createAta);
    if SolPair(pool) {
      forall l, market: Market | market.pool == pool
        ensures IsBuy(Execute(l, TokenBuyList(solIn, minTokensOut, pool, createAta), market),
                      l, market, solIn, TokensFor(market, solIn), minTokensOut, createAta)
      {
        BuyListMeaning(l, market, solIn, minTokensOut, createAta);
      }
    } else {
      forall l, market: Market | market.pool == pool
        ensures Execute(l, TokenBuyList(solIn, minTokensOut, pool, createAta), market).Err?
      {
        NoSolSideNeverTrades(l, market, solIn, minTokensOut, createAta);
      }
    }
  }

  method BuildTokenSellIxs(tokensIn: u64, minSolOut: u64, pool: PoolInfo, closeTokenAta: bool)
    returns (instructions: seq<Ix>)
    ensures instructions == TokenSellList(tokensIn, minSolOut, pool, closeTokenAta)
    ensures SolPair(pool) ==> forall l, market: Market :: market.pool == pool ==>
              IsSell(Execute(l, instructions, market), l, market, tokensIn, SolFor(market, tokensIn), minSolOut,
                     closeTokenAta)
    ensures !SolPair(pool) ==> forall l, market: Market :: market.pool == pool ==>
              Execute(l, instructions, market).Err?
  {
    instructions := [];
    if pool.accountDataLen < POOL_ACCOUNT_NEW_SIZE {
      instructions := instructions + [ExtendPool];
    }
    instructions := instructions + [CreateWsol(WSOL_RENT), InitializeWsol];
    var swap;
    if pool.SolIsBase() {
      swap := BuyExactQuoteIn(tokensIn, minSolOut, Wsol, TokenAta);
    } else {
      swap := Sell(tokensIn, minSolOut, TokenAta, Wsol);
    }
    instructions := instructions + [swap];
    instructions := instructions + [CloseWsol];
    if closeTokenAta {
      instructions := instructions + [CloseAta];
    }
    assert instructions == TokenSellList(tokensIn, minSolOut, pool, closeTokenAta);
    if SolPair(pool) {
      forall l, market: Market | market.pool == pool
        ensures IsSell(Execute(l, TokenSellList(tokensIn, minSolOut, pool, closeTokenAta), market),
                       l, market, tokensIn, SolFor(market, tokensIn), minSolOut, closeTokenAta)
      {
        SellListMeaning(l, market, tokensIn, minSolOut, closeTokenAta);
      }
    } else {
      forall l, market: Market | market.pool == pool
        ensures Execute(l, TokenSellList(tokensIn, minSolOut, pool, closeTokenAta), market).Err?
      {
        NoSolSideNeverTrades(l, market, tokensIn, minSolOut, closeTokenAta);
      }
    }
  }

  // ---------- Meaning ----------

  /** One side of the pool is wrapped SOL. */
  ghost predicate SolPair(pool: PoolInfo) {
    pool.baseMint == WRAPPED_SOL_MINT || pool.quoteMint == WRAPPED_SOL_MINT
  }

  ghost function ExtendCost(market: Market): nat {
    if market.pool.accountDataLen < 301 then market.extendRent else 0
  }

  ghost function AtaCost(l: Ledger, market: Market): nat {
    if l.token.None? then market.ataRent else 0
  }

  /**
  The wallet covers the spend, the rents (2,039,280 lamports for a token account) and the
  pool extension (below 301 bytes), and the token account will exist.
  */
  ghost predicate BuyFunded(l: Ledger, market: Market, solIn: u64, createAta: bool) {
    && l.wsol.None?
    && (l.token.Some? || createAta)
    && ExtendCost(market) + 2_039_280 + solIn + AtaCost(l, market) <= l.wallet
  }

  ghost predicate SellFunded(l: Ledger, market: Market, tokensIn: u64) {
    && l.wsol.None?
    && l.token.Some? && tokensIn <= l.token.value
    && ExtendCost(market) + 2_039_280 <= l.wallet
  }

  /** Extending the pool and opening the temporary account, in one step. */
  lemma OpeningMeaning(l: Ledger, market: Market, sol: u64)
    ensures var ixs := MaybeExtendPool(market.pool) + OpenWsol(sol);
            if l.wsol.None? && ExtendCost(market) + Funding(sol) <= l.wallet && WSOL_RENT <= Funding(sol)
            then Execute(l, ixs, market) == Ok(Opened(l, market, Funding(sol)))
            else Execute(l, ixs, market).Err? && Execute(l, ixs, market) != Err(SlippageExceeded)
  {
    ExecuteConcat(l, MaybeExtendPool(market.pool), OpenWsol(sol), market);
    ExecuteOne(l, ExtendPool, market);
    var l1 := if market.pool.accountDataLen < POOL_ACCOUNT_NEW_SIZE then PayLamports(l, market.extendRent) else Ok(l);
    if l1.Ok? {
      ExecuteConcat(l1.value, [CreateWsol(Funding(sol))], [InitializeWsol], market);
      ExecuteOne(l1.value, CreateWsol(Funding(sol)), market);
      var l2 := ExecuteIx(l1.value, CreateWsol(Funding(sol)), market);
      if l2.Ok? {
        ExecuteOne(l2.value, InitializeWsol, market);
      }
    }
  }

  ghost function Opened(l: Ledger, market: Market, lamports: u64): Ledger
    requires WSOL_RENT <= lamports && ExtendCost(market) + lamports <= l.wallet
  {
    l.(wallet := l.wallet - ExtendCost(market) - lamports, wsol := Some(Ready(lamports, lamports - WSOL_RENT)))
  }

  /** What the market pays for SOL, and for tokens, on this pool's orientation. */
  ghost function TokensFor(market: Market, solIn: u64): u64 {
    if market.pool.SolIsBase() then market.sellFill(solIn) else market.buyFill(solIn)
  }

  ghost function SolFor(market: Market, tokensIn: u64): u64 {
    if market.pool.SolIsBase() then market.buyFill(tokensIn) else market.sellFill(tokensIn)
  }

  /** The slots chosen per orientation always match the pool's mints. */
  lemma SwapMeaning(l: Ledger, market: Market, amount: u64, minimum: u64)
    requires SolPair(market.pool)
    ensures ExecuteIx(l, BuySwap(market.pool, amount, minimum), market)
         == Exchange(l, Wsol, amount, TokenAta, TokensFor(market, amount), minimum)
    ensures ExecuteIx(l, SellSwap(market.pool, amount, minimum), market)
         == Exchange(l, TokenAta, amount, Wsol, SolFor(market, amount), minimum)
  {
  }

  /** Without a SOL side the wrapped-SOL account stands where the pool expects another mint. */
  lemma NoSolSideMismatch(l: Ledger, market: Market, amount: u64, minimum: u64)
    requires !SolPair(market.pool)
    ensures ExecuteIx(l, BuySwap(market.pool, amount, minimum), market) == Err(MintMismatch)
    ensures ExecuteIx(l, SellSwap(market.pool, amount, minimum), market) == Err(MintMismatch)
  {
  }

  /** A list with an instruction that always fails always fails. */
  lemma FailsInside(l: Ledger, before: seq<Ix>, ix: Ix, after: seq<Ix>, market: Market)
    requires forall l' :: ExecuteIx(l', ix, market).Err?
    ensures Execute(l, before + [ix] + after, market).Err?
  {
    ExecuteConcat(l, before + [ix], after, market);
    ExecuteConcat(l, before, [ix], market);
    if Execute(l, before, market).Ok? {
      ExecuteOne(Execute(l, before, market).value, ix, market);
    }
  }

  /** On a pool without a SOL side no compiled list succeeds. */
  lemma NoSolSideNeverTrades(l: Ledger, market: Market, amount: u64, minimum: u64, flag: bool)
    requires !SolPair(market.pool)
    ensures Execute(l, TokenBuyList(amount, minimum, market.pool, flag), market).Err?
    ensures Execute(l, TokenSellList(amount, minimum, market.pool, flag), market).Err?
  {
    var pool := market.pool;
    forall l'
      ensures ExecuteIx(l', BuySwap(pool, amount, minimum), market).Err?
      ensures ExecuteIx(l', SellSwap(pool, amount, minimum), market).Err?
    {
      NoSolSideMismatch(l', market, amount, minimum);
    }
    FailsInside(l, MaybeExtendPool(pool) + OpenWsol(amount) + (if flag then [CreateAtaIdempotent] else []),
                BuySwap(pool, amount, minimum), [CloseWsol], market);
    var closing := [CloseWsol] + if flag then [CloseAta] else [];
    FailsInside(l, MaybeExtendPool(pool) + OpenWsol(0), SellSwap(pool, amount, minimum), closing, market);
    assert TokenSellList(amount, minimum, pool, flag)
        == MaybeExtendPool(pool) + OpenWsol(0) + [SellSwap(pool, amount, minimum)] + closing;
  }

  /** An open temporary account that holds `amount` on top of its rent. */
  ghost predicate Holding(l: Ledger, amount: u64) {
    WSOL_RENT + amount <= U64_MAX && l.wsol == Some(Ready(WSOL_RENT + amount, amount))
  }

  /** Handing all wrapped SOL over for tokens. */
  lemma BuyExchange(l: Ledger, solIn: u64, out: u64, minimum: u64)
    requires Holding(l, solIn)
    ensures Exchange(l, Wsol, solIn, TokenAta, out, minimum)
         == if l.token.None? then Err(MissingAccount)
            else if out < minimum then Err(SlippageExceeded)
            else if l.token.value + out > U64_MAX then Err(Overflow)
            else Ok(Ledger(l.wallet, Some(Ready(WSOL_RENT, 0)), Some(l.token.value + out)))
  {
  }

  /** Handing tokens over for wrapped SOL. */
  lemma SellExchange(l: Ledger, tokensIn: u64, out: u64, minimum: u64)
    requires Holding(l, 0)
    ensures Exchange(l, TokenAta, tokensIn, Wsol, out, minimum)
         == if l.token.None? then Err(MissingAccount)
            else if l.token.value < tokensIn then Err(InsufficientFunds)
            else if out < minimum then Err(SlippageExceeded)
            else if WSOL_RENT + out > U64_MAX then Err(Overflow)
            else Ok(Ledger(l.wallet, Some(Ready(WSOL_RENT + out, out)), Some(l.token.value - tokensIn)))
  {
  }

  /** Spend all wrapped SOL into the token account and close the temporary one. */
  lemma BuyTail(l: Ledger, market: Market, solIn: u64, minimum: u64, createAta: bool)
    requires SolPair(market.pool) && Holding(l, solIn)
    ensures var ata := if createAta then [CreateAtaIdempotent] else [];
            var r := Execute(l, ata + [BuySwap(market.pool, solIn, minimum)] + [CloseWsol], market);
            var had := if l.token.Some? then l.token.value else 0;
            var out := TokensFor(market, solIn);
            var ready := (l.token.Some? || createAta) && AtaCost(l, market) <= l.wallet;
            var wallet' := l.wallet - AtaCost(l, market) + WSOL_RENT;
            && (r == Err(SlippageExceeded) <==> ready && out < minimum)
            && (r.Ok? <==> ready && minimum <= out && had + out <= U64_MAX && wallet' <= U64_MAX)
            && (r.Ok? ==> r.value == Ledger(wallet', None, Some(had + out)))
  {
    var ata := if createAta then [CreateAtaIdempotent] else [];
    var swap := BuySwap(market.pool, solIn, minimum);
    ExecuteConcat(l, ata + [swap], [CloseWsol], market);
    ExecuteConcat(l, ata, [swap], market);
    ExecuteOne(l, CreateAtaIdempotent, market);
    var l1 := Execute(l, ata, market);
    if l1.Ok? {
      ExecuteOne(l1.value, swap, market);
      SwapMeaning(l1.value, market, solIn, minimum);
      BuyExchange(l1.value, solIn, TokensFor(market, solIn), minimum);
      var l2 := ExecuteIx(l1.value, swap, market);
      if l2.Ok? {
        ExecuteOne(l2.value, CloseWsol, market);
      }
    }
  }

  /** Sell out of the token account into the empty temporary one, and close the latter. */
  lemma SellAndClose(l: Ledger, market: Market, tokensIn: u64, minimum: u64)
    requires SolPair(market.pool) && Holding(l, 0)
    ensures var r := Execute(l, [SellSwap(market.pool, tokensIn, minimum)] + [CloseWsol], market);
            var wallet' := l.wallet + WSOL_RENT + SolFor(market, tokensIn);
            var ready := l.token.Some? && tokensIn <= l.token.value;
            && (r == Err(SlippageExceeded) <==> ready && SolFor(market, tokensIn) < minimum)
            && (r.Ok? <==> ready && minimum <= SolFor(market, tokensIn) && wallet' <= U64_MAX)
            && (r.Ok? ==> r.value == Ledger(wallet', None, Some(l.token.value - tokensIn)))
  {
    var swap := SellSwap(market.pool, tokensIn, minimum);
    ExecuteConcat(l, [swap], [CloseWsol], market);
    ExecuteOne(l, swap, market);
    SwapMeaning(l, market, tokensIn, minimum);
    SellExchange(l, tokensIn, SolFor(market, tokensIn), minimum);
    var l1 := ExecuteIx(l, swap, market);
    if l1.Ok? {
      ExecuteOne(l1.value, CloseWsol, market);
    }
  }

  /** The same, and close the token account if asked to. */
  lemma SellTail(l: Ledger, market: Market, tokensIn: u64, minimum: u64, closeAta: bool)
    requires SolPair(market.pool) && Holding(l, 0)
    ensures var closing := if closeAta then [CloseAta] else [];
            var r := Execute(l, [SellSwap(market.pool, tokensIn, minimum)] + [CloseWsol] + closing, market);
            var out := SolFor(market, tokensIn);
            var wallet' := l.wallet + WSOL_RENT + out + if closeAta then market.ataRent else 0;
            var ready := l.token.Some? && tokensIn <= l.token.value;
            && (r == Err(SlippageExceeded) <==> ready && out < minimum)
            && (r.Ok? <==> ready && minimum <= out && wallet' <= U64_MAX && (closeAta ==> l.token.value == tokensIn))
            && (r.Ok? ==> r.value == Ledger(wallet', None, if closeAta then None else Some(l.token.value - tokensIn)))
  {
    var closing := if closeAta then [CloseAta] else [];
    var selling := [SellSwap(market.pool, tokensIn, minimum)] + [CloseWsol];
    ExecuteConcat(l, selling, closing, market);
    SellAndClose(l, market, tokensIn, minimum);
    var l1 := Execute(l, selling, market);
    if l1.Ok? {
      ExecuteOne(l1.value, CloseAta, market);
    }
  }

  /** Funding that wrapped around 64 bits is below the rent, so what gets opened holds exactly the spend. */
  lemma FundingIsExact(sol: u64)
    ensures WSOL_RENT <= Funding(sol) <==> WSOL_RENT + sol <= U64_MAX
    ensures WSOL_RENT + sol <= U64_MAX ==> Funding(sol) == WSOL_RENT + sol
  {
  }

  /**
  What a buy list must come to: refused for slippage exactly when the trader could pay
  and the fill is below the minimum; carried out exactly when it is not; and then the
  trader is down `solIn` and the rents that stay locked, up the fill, and the temporary
  account is gone with its rent returned.
  */
  ghost predicate IsBuy(
    r: Result<Ledger, LedgerError>, l: Ledger, market: Market, solIn: u64, out: u64, minimum: u64, createAta: bool)
  {
    var had := if l.token.Some? then l.token.value else 0;
    && (r == Err(SlippageExceeded) <==> BuyFunded(l, market, solIn, createAta) && out < minimum)
    && (r.Ok? <==> BuyFunded(l, market, solIn, createAta) && minimum <= out && had + out <= U64_MAX)
    && (r.Ok? ==>
          r.value == Ledger(l.wallet - ExtendCost(market) - AtaCost(l, market) - solIn, None, Some(had + out)))
  }

  /**
  What a sell list must come to. Asked to close the token account it succeeds only when
  the sale empties it, and then returns that rent as well.
  */
  ghost predicate IsSell(
    r: Result<Ledger, LedgerError>, l: Ledger, market: Market, tokensIn: u64, out: u64, minimum: u64, closeAta: bool)
  {
    var wallet' := l.wallet - ExtendCost(market) + out + if closeAta then market.ataRent else 0;
    && (r == Err(SlippageExceeded) <==> SellFunded(l, market, tokensIn) && out < minimum)
    && (r.Ok? <==> SellFunded(l, market, tokensIn) && minimum <= out && wallet' <= U64_MAX
                   && (closeAta ==> l.token.value == tokensIn))
    && (r.Ok? ==> r.value == Ledger(wallet', None, if closeAta then None else Some(l.token.value - tokensIn)))
  }

  lemma BuyListMeaning(l: Ledger, market: Market, solIn: u64, minimum: u64, createAta: bool)
    requires SolPair(market.pool)
    ensures IsBuy(Execute(l, TokenBuyList(solIn, minimum, market.pool, createAta), market),
                  l, market, solIn, TokensFor(market, solIn), minimum, createAta)
  {
    var opening := MaybeExtendPool(market.pool) + OpenWsol(solIn);
    var ata := if createAta then [CreateAtaIdempotent] else [];
    var tail := ata + [BuySwap(market.pool, solIn, minimum)] + [CloseWsol];
    assert TokenBuyList(solIn, minimum, market.pool, createAta) == opening + tail;
    ExecuteConcat(l, opening, tail, market);
    OpeningMeaning(l, market, solIn);
    FundingIsExact(solIn);
    if Execute(l, opening, market).Ok? {
      BuyTail(Execute(l, opening, market).value, market, solIn, minimum, createAta);
    }
  }

  lemma SellListMeaning(l: Ledger, market: Market, tokensIn: u64, minimum: u64, closeAta: bool)
    requires SolPair(market.pool)
    ensures IsSell(Execute(l, TokenSellList(tokensIn, minimum, market.pool, closeAta), market),
                   l, market, tokensIn, SolFor(market, tokensIn), minimum, closeAta)
  {
    var opening := MaybeExtendPool(market.pool) + OpenWsol(0);
    var closing := if closeAta then [CloseAta] else [];
    var tail := [SellSwap(market.pool, tokensIn, minimum)] + [CloseWsol] + closing;
    assert TokenSellList(tokensIn, minimum, market.pool, closeAta) == opening + tail;
    ExecuteConcat(l, opening, tail, market);
    OpeningMeaning(l, market, 0);
    FundingIsExact(0);
    if Execute(l, opening, market).Ok? {
      SellTail(Execute(l, opening, market).value, market, tokensIn, minimum, closeAta);
    }
  }

  /** What the market pays is what the quote promises, on either orientation. */
  lemma FillsAreQuotes(pool: PoolInfo, reserves: (u64, u64), fees: Fees, market: Market, amount: u64, slippage: F64)
    requires market == MarketAt(pool, reserves, fees, market.ataRent, market.extendRent)
    ensures TokensFor(market, amount) == TokenBuyQuote(amount, reserves, pool, fees, slippage).amountOut
    ensures SolFor(market, amount) == TokenSellQuote(amount, reserves, pool, fees, slippage).amountOut
  {
  }

  /** On either orientation a compiled buy comes to the quote at the same reserves. */
  lemma TokenBuyMeaning(
    l: Ledger, pool: PoolInfo, reserves: (u64, u64), fees: Fees, ataRent: u64, extendRent: u64,
    solIn: u64, minimum: u64, createAta: bool, slippage: F64)
    requires SolPair(pool)
    ensures var market := MarketAt(pool, reserves, fees, ataRent, extendRent);
            IsBuy(Execute(l, TokenBuyList(solIn, minimum, pool, createAta), market),
                  l, market, solIn, TokenBuyQuote(solIn, reserves, pool, fees, slippage).amountOut, minimum, createAta)
  {
    var market := MarketAt(pool, reserves, fees, ataRent, extendRent);
    BuyListMeaning(l, market, solIn, minimum, createAta);
    FillsAreQuotes(pool, reserves, fees, market, solIn, slippage);
  }

  /** On either orientation a compiled sell comes to the quote at the same reserves. */
  lemma TokenSellMeaning(
    l: Ledger, pool: PoolInfo, reserves: (u64, u64), fees: Fees, ataRent: u64, extendRent: u64,
    tokensIn: u64, minimum: u64, closeAta: bool, slippage: F64)
    requires SolPair(pool)
    ensures var market := MarketAt(pool, reserves, fees, ataRent, extendRent);
            IsSell(Execute(l, TokenSellList(tokensIn, minimum, pool, closeAta), market),
                   l, market, tokensIn, TokenSellQuote(tokensIn, reserves, pool, fees, slippage).amountOut, minimum,
                   closeAta)
  {
    var market := MarketAt(pool, reserves, fees, ataRent, extendRent);
    SellListMeaning(l, market, tokensIn, minimum, closeAta);
    FillsAreQuotes(pool, reserves, fees, market, tokensIn, slippage);
  }

  /**
  A minimum taken from the quote at the same reserves is the reason a funded trade is
  refused exactly when the floor misses the fill; up to 2^53, or at any slippage that
  counts, it never is.
  */
  lemma QuotedMinimumIsAccepted(
    l: Ledger, pool: PoolInfo, reserves: (u64, u64), fees: Fees, ataRent: u64, extendRent: u64,
    amount: u64, flag: bool, slippage: F64)
    requires SolPair(pool)
    ensures var market := MarketAt(pool, reserves, fees, ataRent, extendRent);
            var buy := TokenBuyQuote(amount, reserves, pool, fees, slippage);
            Execute(l, TokenBuyList(amount, buy.minAmountOut, pool, flag), market) == Err(SlippageExceeded)
            <==> BuyFunded(l, market, amount, flag) && FloorMisses(buy.amountOut, slippage)
    ensures var market := MarketAt(pool, reserves, fees, ataRent, extendRent);
            var sell := TokenSellQuote(amount, reserves, pool, fees, slippage);
            Execute(l, TokenSellList(amount, sell.minAmountOut, pool, flag), market) == Err(SlippageExceeded)
            <==> SellFunded(l, market, amount) && FloorMisses(sell.amountOut, slippage)
  {
    var buy := TokenBuyQuote(amount, reserves, pool, fees, slippage);
    var sell := TokenSellQuote(amount, reserves, pool, fees, slippage);
    TokenBuyMeaning(l, pool, reserves, fees, ataRent, extendRent, amount, buy.minAmountOut, flag, slippage);
    TokenSellMeaning(l, pool, reserves, fees, ataRent, extendRent, amount, sell.minAmountOut, flag, slippage);
    FloorIsSafeIff(buy.amountOut, slippage);
    FloorIsSafeIff(sell.amountOut, slippage);
  }
}
