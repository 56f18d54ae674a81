/**
The creator-fee payout of a fee-sharing coin as a protocol: a plan is built from a read
of the chain (`src/client.rs`) and executed atomically some time later, after anybody
may have traded, graduated the coin, swept, paid out or edited the split.
*/
module SweepPlan {
  import opened AccountDecoders
  import opened AccountReader
  import opened Bytes
  import opened MachineInts
  import opened Pool

  // ---------- The chain ----------

  /** Where a coin's creator fees are. A coin is graduated once its pool account exists. */
  datatype Coin = Coin(
    curve: Option<nat>,        // fee waiting on the bonding curve, if the curve exists
    pool: Option<nat>,         // fee waiting in the graduated pool
    poolVault: nat,            // pump-amm's coin-creator vault
    pumpVault: nat,            // pump.fun's creator vault
    paid: nat,                 // paid out to shareholders so far
    config: Option<SharingConfig>)
  {
    function CurveFee(): nat {
      if curve.Some? then curve.value else 0
    }

    function PoolFee(): nat {
      if pool.Some? then pool.value else 0
    }

    ghost function Total(): nat {
      CurveFee() + PoolFee() + poolVault + pumpVault + paid
    }
  }

  /** Balances below which a transfer is skipped, and below which a payout is refused. */
  datatype Limits = Limits(rentMinimum: nat, distributableMinimum: nat)

  datatype Ix = SweepCurve | SweepPool | TransferToPump | Distribute(holders: seq<Pubkey>)

  datatype ChainError = MissingAccount | CreatorFeesNotSwept | SharingConfigNotActive | HoldersMismatch | BelowMinimum

  function Addresses(holders: seq<Shareholder>): (addresses: seq<Pubkey>)
    ensures |addresses| == |holders|
    ensures forall i :: 0 <= i < |holders| ==> addresses[i] == holders[i].address
  {
    if holders == [] then [] else Addresses(holders[..|holders| - 1]) + [holders[|holders| - 1].address]
  }

  function ExecuteIx(c: Coin, ix: Ix, limits: Limits): Result<Coin, ChainError> {
    match ix
    case SweepCurve =>
      if c.curve.None? then Err(MissingAccount)
      else Ok(c.(curve := Some(0), pumpVault := c.pumpVault + c.CurveFee()))
    case SweepPool =>
      if c.pool.None? then Err(MissingAccount)
      else Ok(c.(pool := Some(0), poolVault := c.poolVault + c.PoolFee()))
    case TransferToPump =>
      if c.poolVault < limits.rentMinimum then Ok(c)
      else Ok(c.(poolVault := 0, pumpVault := c.pumpVault + c.poolVault))
    case Distribute(holders) =>
      if c.curve.None? then Err(MissingAccount)
      else if c.CurveFee() > 0 then Err(CreatorFeesNotSwept)
      else if c.config.None? || c.config.value.status.Paused? then Err(SharingConfigNotActive)
      else if holders != Addresses(c.config.value.shareholders) then Err(HoldersMismatch)
      else if c.pumpVault < limits.distributableMinimum then Err(BelowMinimum)
      else Ok(c.(pumpVault := 0, paid := c.paid + c.pumpVault))
  }

  /** A transaction: all of its instructions, or none. */
  function Execute(c: Coin, ixs: seq<Ix>, limits: Limits): Result<Coin, ChainError>
    decreases |ixs|
  {
    if ixs == [] then Ok(c) else
    match ExecuteIx(c, ixs[0], limits)
    case Err(error) => Err(error)
    case Ok(c') => Execute(c', ixs[1..], limits)
  }

  /** What others may do between the read and the payout. */
  datatype Event =
    | CreateCurve
    | CurveTrade(fee: nat)
    | Graduate
    | PoolTrade(fee: nat)
    | OtherTransaction(ixs: seq<Ix>)
    | EditSplit(config: SharingConfig)

  /** A graduated curve takes no trades, and graduation leaves its waiting fee where it is. */
  function Happen(c: Coin, event: Event, limits: Limits): Coin {
    match event
    case CreateCurve => if c.curve.None? && c.pool.None? then c.(curve := Some(0)) else c
    case CurveTrade(fee) => if c.curve.Some? && c.pool.None? then c.(curve := Some(c.CurveFee() + fee)) else c
    case Graduate => if c.curve.Some? && c.pool.None? then c.(pool := Some(0)) else c
    case PoolTrade(fee) => if c.pool.Some? then c.(pool := Some(c.PoolFee() + fee)) else c
    case OtherTransaction(ixs) =>
      (match Execute(c, ixs, limits)
       case Ok(c') => c'
       case Err(_) => c)
    case EditSplit(config) => c.(config := Some(config))
  }

  function Evolve(c: Coin, events: seq<Event>, limits: Limits): Coin {
    if events == [] then c
    else Happen(Evolve(c, events[..|events| - 1], limits), events[|events| - 1], limits)
  }

  // ---------- The planner ----------

  /** What `build_creator_fee_sweep_ixs` learns: both accounts, fetched in one call. */
  datatype Read = Read(curve: Option<nat>, graduated: bool)

  function ReadOf(c: Coin): Read {
    Read(c.curve, c.pool.Some?)
  }

  function Sweeps(read: Read): seq<Ix> {
    (if !read.graduated || (read.curve.Some? && read.curve.value > 0) then [SweepCurve] else [])
    + (if read.graduated then [SweepPool] else [])
  }

  function Payout(holders: seq<Pubkey>): seq<Ix> {
    [TransferToPump, Distribute(holders)]
  }

  datatype PlanError = NoSharingConfig | ConfigPaused | NotABondingCurve | PoolTooShort

  const BONDING_CURVE_TAG: seq<byte> := [23, 183, 248, 55, 96, 216, 172, 96]
  const BONDING_CURVE_CREATOR_FEE_OFFSET: nat := 125

  /** The fee waiting on a curve; an account written before the field existed has none. */
  function BondingCurveCreatorFee(data: seq<byte>): Result<u64, PlanError> {
    if Get(data, 0, 8) != Some(BONDING_CURVE_TAG) then Err(NotABondingCurve)
    else Ok(U64At(data, BONDING_CURVE_CREATOR_FEE_OFFSET))
  }

  /** What the two fetched accounts say, if both can be decoded. */
  function ReadAccounts(curve: Option<seq<byte>>, pool: Option<seq<byte>>): Result<Read, PlanError> {
    var fee := match curve
               case None => Ok(None)
               case Some(data) =>
                 match BondingCurveCreatorFee(data)
                 case Err(error) => Err(error)
                 case Ok(fee) => Ok(Some(fee));
    if fee.Err? then Err(fee.error)
    else if pool.Some? && |pool.value| < STRUCT_END then Err(PoolTooShort)
    else Ok(Read(fee.value, pool.Some?))
  }

  /**
  A bonding curve account on which this fee waits: tagged, and the fee in bytes 125 to
  132; an account that ends before them has none waiting.
  */
  ghost predicate HoldsCurveFee(data: seq<byte>, fee: nat) {
    && IsBondingCurve(data)
    && if |data| >= 133 then fee <= U64_MAX && data[125..133] == LeBytes(fee, 8) else fee == 0
  }

  ghost predicate IsBondingCurve(data: seq<byte>) {
    |data| >= 8 && data[..8] == [23, 183, 248, 55, 96, 216, 172, 96]
  }

  lemma CurveFeeIsRead(data: seq<byte>, fee: nat)
    ensures IsBondingCurve(data) <==> BondingCurveCreatorFee(data).Ok?
    ensures HoldsCurveFee(data, fee) <==> BondingCurveCreatorFee(data) == Ok(fee)
  {
    Widths();
    if |data| >= 133 {
      LeBytesOfFromLe(data[125..133]);
      if fee <= U64_MAX {
        FromLeOfLeBytes(fee, 8);
      }
    }
  }

  /** A fee written behind 125 tagged bytes is read back, whatever follows it. */
  lemma CurveFeeRoundTrip(head: seq<byte>, fee: u64, tail: seq<byte>)
    requires |head| == 125 && head[..8] == [23, 183, 248, 55, 96, 216, 172, 96]
    ensures BondingCurveCreatorFee(head + LeBytes(fee, 8) + tail) == Ok(fee)
  {
    var data := head + LeBytes(fee, 8) + tail;
    assert data[..8] == head[..8];
    assert data[125..133] == LeBytes(fee, 8);
    CurveFeeIsRead(data, fee);
  }

  /** The two accounts, each absent or present, of this coin. */
  ghost predicate AccountsOf(c: Coin, curve: Option<seq<byte>>, pool: Option<seq<byte>>) {
    && (match c.curve
        case None => curve.None?
        case Some(fee) => curve.Some? && HoldsCurveFee(curve.value, fee))
    && (if c.pool.Some? then pool.Some? && |pool.value| >= 245 else pool.None?)
  }

  /** The accounts of a coin are read as that coin, and no others are. */
  lemma AccountsAreRead(c: Coin, curve: Option<seq<byte>>, pool: Option<seq<byte>>)
    ensures AccountsOf(c, curve, pool) <==> ReadAccounts(curve, pool) == Ok(ReadOf(c))
  {
    if curve.Some? {
      CurveFeeIsRead(curve.value, c.CurveFee());
    }
  }

  method BuildCreatorFeeSweepIxs(curve: Option<seq<byte>>, pool: Option<seq<byte>>)
    returns (r: Result<seq<Ix>, PlanError>)
    ensures match ReadAccounts(curve, pool)
            case Err(error) => r == Err(error)
            case Ok(read) => r == Ok(Sweeps(read))
    ensures r.Ok? <==> (curve.Some? ==> IsBondingCurve(curve.value)) && (pool.Some? ==> |pool.value| >= 245)
    ensures r.Err? ==> r.error == if curve.Some? && !IsBondingCurve(curve.value) then NotABondingCurve else PoolTooShort
    ensures forall c, limits :: AccountsOf(c, curve, pool) ==>
              r == Ok(Sweeps(ReadOf(c))) && Safe(c, r.value, limits)
  {
    if curve.Some? {
      CurveFeeIsRead(curve.value, 0);
    }
    forall c
      ensures AccountsOf(c, curve, pool) <==> ReadAccounts(curve, pool) == Ok(ReadOf(c))
    {
      AccountsAreRead(c, curve, pool);
    }
    forall c, limits
      ensures Safe(c, Sweeps(ReadOf(c)), limits)
    {
      StaleReadIsSafe(c, limits);
    }
    var curveFee: nat := 0;
    if curve.Some? {
      var decoded := BondingCurveCreatorFee(curve.value);
      if decoded.Err? {
        return Err(decoded.error);
      }
      curveFee := decoded.value;
    }
    var instructions: seq<Ix> := [];
    if pool.None? || curveFee > 0 {
      instructions := instructions + [SweepCurve];
    }
    if pool.Some? {
      if |pool.value| < STRUCT_END {
        return Err(PoolTooShort);
      }
      instructions := instructions + [SweepPool];
    }
    assert instructions == Sweeps(ReadAccounts(curve, pool).value);
    r := Ok(instructions);
  }

  /** Shareholder addresses in stored order, of a config that exists and is active. */
  method ActiveShareholders(config: Option<SharingConfig>) returns (r: Result<seq<Pubkey>, PlanError>)
    ensures r.Ok? <==> config.Some? && config.value.status.Active?
    ensures r.Ok? ==> r.value == Addresses(config.value.shareholders)
    ensures r.Err? ==> r.error == if config.None? then NoSharingConfig else ConfigPaused
  {
    if config.None? {
      return Err(NoSharingConfig);
    }
    if config.value.status.Paused? {
      return Err(ConfigPaused);
    }
    var addresses: seq<Pubkey> := [];
    var holders := config.value.shareholders;
    for i := 0 to |holders|
      invariant addresses == Addresses(holders[..i])
    {
      assert holders[..i + 1][..i] == holders[..i];
      addresses := addresses + [holders[i].address];
    }
    assert holders[..|holders|] == holders;
    r := Ok(addresses);
  }

  method BuildCreatorFeeWithdrawIxs(
    config: Option<SharingConfig>, curve: Option<seq<byte>>, pool: Option<seq<byte>>)
    returns (r: Result<seq<Ix>, PlanError>)
    ensures r.Ok? <==> config.Some? && config.value.status.Active? && ReadAccounts(curve, pool).Ok?
    ensures r.Err? ==> r.error == if config.None? then NoSharingConfig
                                  else if config.value.status.Paused? then ConfigPaused
                                  else if curve.Some? && !IsBondingCurve(curve.value) then NotABondingCurve
                                  else PoolTooShort
    ensures r.Ok? ==>
              r.value == Sweeps(ReadAccounts(curve, pool).value) + Payout(Addresses(config.value.shareholders))
    ensures r.Ok? ==> forall c, events, limits :: AccountsOf(c, curve, pool) ==>
              Execute(Evolve(c, events, limits), r.value, limits) != Err(CreatorFeesNotSwept)
  {
    var shareholders := ActiveShareholders(config);
    if shareholders.Err? {
      return Err(shareholders.error);
    }
    var sweeps := BuildCreatorFeeSweepIxs(curve, pool);
    if sweeps.Err? {
      return Err(sweeps.error);
    }
    var instructions := sweeps.value;
    instructions := instructions + [TransferToPump];
    instructions := instructions + [Distribute(shareholders.value)];
    assert instructions == sweeps.value + Payout(shareholders.value);
    forall c, events, limits | AccountsOf(c, curve, pool)
      ensures Execute(Evolve(c, events, limits), instructions, limits) != Err(CreatorFeesNotSwept)
    {
      assert Safe(c, sweeps.value, limits);
    }
    r := Ok(instructions);
  }

  // ---------- Stability of a graduated curve ----------

  lemma ExecuteIxKeeps(c: Coin, ix: Ix, limits: Limits)
    requires ExecuteIx(c, ix, limits).Ok?
    ensures var c' := ExecuteIx(c, ix, limits).value;
            && c'.Total() == c.Total()
            && (c.pool.Some? <==> c'.pool.Some?)
            && (c.curve.Some? <==> c'.curve.Some?)
            && c'.CurveFee() <= c.CurveFee()
  {
  }

  lemma {:induction false} ExecuteKeeps(c: Coin, ixs: seq<Ix>, limits: Limits)
    requires Execute(c, ixs, limits).Ok?
    ensures var c' := Execute(c, ixs, limits).value;
            && c'.Total() == c.Total()
            && (c.pool.Some? <==> c'.pool.Some?)
            && (c.curve.Some? <==> c'.curve.Some?)
            && c'.CurveFee() <= c.CurveFee()
    decreases |ixs|
  {
    if ixs != [] {
      ExecuteIxKeeps(c, ixs[0], limits);
      ExecuteKeeps(ExecuteIx(c, ixs[0], limits).value, ixs[1..], limits);
    }
  }

  /** Accounts never disappear, and once graduated a coin's curve can only lose its fee. */
  lemma {:induction false} EvolveKeeps(c: Coin, events: seq<Event>, limits: Limits)
    ensures var c' := Evolve(c, events, limits);
            && (c.pool.Some? ==> c'.pool.Some?)
            && (c.curve.Some? ==> c'.curve.Some?)
            && (c.pool.Some? ==> c'.CurveFee() <= c.CurveFee())
  {
    if events != [] {
      var before := Evolve(c, events[..|events| - 1], limits);
      EvolveKeeps(c, events[..|events| - 1], limits);
      match events[|events| - 1]
      case OtherTransaction(ixs) =>
        if Execute(before, ixs, limits).Ok? {
          ExecuteKeeps(before, ixs, limits);
        }
      case _ =>
    }
  }

  /** The fees that the trades among these events add. */
  ghost function FeesTraded(c: Coin, events: seq<Event>, limits: Limits): nat {
    if events == [] then 0 else
    var before := Evolve(c, events[..|events| - 1], limits);
    FeesTraded(c, events[..|events| - 1], limits) +
    match events[|events| - 1]
    case CurveTrade(fee) => if before.curve.Some? && before.pool.None? then fee else 0
    case PoolTrade(fee) => if before.pool.Some? then fee else 0
    case _ => 0
  }

  /** Whatever happens, the creator fees of a coin are those it had and those of its trades. */
  lemma {:induction false} EvolveConserves(c: Coin, events: seq<Event>, limits: Limits)
    ensures Evolve(c, events, limits).Total() == c.Total() + FeesTraded(c, events, limits)
  {
    if events != [] {
      var before := Evolve(c, events[..|events| - 1], limits);
      EvolveConserves(c, events[..|events| - 1], limits);
      match events[|events| - 1]
      case OtherTransaction(ixs) =>
        if Execute(before, ixs, limits).Ok? {
          ExecuteKeeps(before, ixs, limits);
        }
      case _ =>
    }
  }

  // ---------- Safety of the plan ----------

  /** From here on, these instructions followed by a payout are never refused for an unswept fee. */
  ghost predicate Safe(c: Coin, ixs: seq<Ix>, limits: Limits) {
    forall events, holders ::
      Execute(Evolve(c, events, limits), ixs + Payout(holders), limits) != Err(CreatorFeesNotSwept)
  }

  /** The four plans that can precede a payout, step by step. */
  lemma ExecuteSweeps(c: Coin, curve: bool, pool: bool, holders: seq<Pubkey>, limits: Limits)
    ensures var ixs := (if curve then [SweepCurve] else []) + (if pool then [SweepPool] else []);
            && (curve && c.curve.None? ==> Execute(c, ixs + Payout(holders), limits) == Err(MissingAccount))
            && ((curve ==> c.curve.Some?) && pool && c.pool.None? ==>
                  Execute(c, ixs + Payout(holders), limits) == Err(MissingAccount))
            && ((curve ==> c.curve.Some?) && (pool ==> c.pool.Some?) ==>
                  var swept := Swept(c, curve, pool);
                  Execute(c, ixs, limits) == Ok(swept)
                  && Execute(c, ixs + Payout(holders), limits)
                     == ExecuteIx(Transferred(swept, limits), Distribute(holders), limits))
  {
    var ixs := (if curve then [SweepCurve] else []) + (if pool then [SweepPool] else []);
    var plan := ixs + Payout(holders);
    var c1 := Swept(c, curve, false);
    var c2 := Swept(c, curve, pool);
    PayoutIsTransferThenDistribute(c2, holders, limits);
    if curve && pool {
      assert ixs == [SweepCurve, SweepPool];
      assert ixs[1..] == [SweepPool] && [SweepPool][1..] == [];
      assert plan[1..] == [SweepPool] + Payout(holders);
      assert ([SweepPool] + Payout(holders))[1..] == Payout(holders);
      if c.curve.Some? {
        assert Execute(c, plan, limits) == Execute(c1, [SweepPool] + Payout(holders), limits);
        assert Execute(c, ixs, limits) == Execute(c1, [SweepPool], limits);
        assert c.pool.Some? ==> Execute(c1, [SweepPool], limits) == Execute(c2, [], limits);
      }
    } else if curve || pool {
      assert plan[1..] == Payout(holders);
      assert ixs[1..] == [];
    } else {
      assert plan == Payout(holders);
    }
  }

  function Swept(c: Coin, curve: bool, pool: bool): Coin {
    var c1 := if curve then c.(curve := Some(0), pumpVault := c.pumpVault + c.CurveFee()) else c;
    if pool then c1.(pool := Some(0), poolVault := c1.poolVault + c1.PoolFee()) else c1
  }

  function Transferred(c: Coin, limits: Limits): Coin {
    if c.poolVault < limits.rentMinimum then c else c.(poolVault := 0, pumpVault := c.pumpVault + c.poolVault)
  }

  lemma PayoutIsTransferThenDistribute(c: Coin, holders: seq<Pubkey>, limits: Limits)
    ensures Execute(c, Payout(holders), limits) == ExecuteIx(Transferred(c, limits), Distribute(holders), limits)
  {
    var c' := Transferred(c, limits);
    assert Payout(holders)[1..] == [Distribute(holders)];
    assert [Distribute(holders)][1..] == [];
    assert Execute(c', [Distribute(holders)], limits) == ExecuteIx(c', Distribute(holders), limits);
  }

  /**
  A plan built from any read is never refused with `CreatorFeesNotSwept`, however stale
  the read is when the plan executes.
  */
  lemma StaleReadIsSafe(c: Coin, limits: Limits)
    ensures Safe(c, Sweeps(ReadOf(c)), limits)
  {
    var curve, pool := c.pool.None? || c.CurveFee() > 0, c.pool.Some?;
    forall events, holders
      ensures Execute(Evolve(c, events, limits), Sweeps(ReadOf(c)) + Payout(holders), limits)
              != Err(CreatorFeesNotSwept)
    {
      EvolveKeeps(c, events, limits);
      ExecuteSweeps(Evolve(c, events, limits), curve, pool, holders, limits);
    }
  }

  /** A payout without a curve sweep is safe exactly from a graduated coin with nothing on its curve. */
  lemma SafeWithoutCurveSweepIff(c: Coin, sweepPool: bool, limits: Limits)
    requires sweepPool ==> c.pool.Some?
    ensures Safe(c, if sweepPool then [SweepPool] else [], limits) <==> c.pool.Some? && c.CurveFee() == 0
  {
    var ixs := if sweepPool then [SweepPool] else [];
    assert ixs == (if false then [SweepCurve] else []) + (if sweepPool then [SweepPool] else []);
    if c.pool.Some? && c.CurveFee() == 0 {
      forall events, holders
        ensures Execute(Evolve(c, events, limits), ixs + Payout(holders), limits) != Err(CreatorFeesNotSwept)
      {
        EvolveKeeps(c, events, limits);
        ExecuteSweeps(Evolve(c, events, limits), false, sweepPool, holders, limits);
      }
    } else {
      var events := TradeOntoCurve(c, limits);
      var later := Evolve(c, events, limits);
      ExecuteSweeps(later, false, sweepPool, [], limits);
      assert Execute(later, ixs + Payout([]), limits) == Err(CreatorFeesNotSwept);
    }
  }

  /** Events that put a fee on the curve, when one can get there. */
  lemma TradeOntoCurve(c: Coin, limits: Limits) returns (events: seq<Event>)
    requires c.pool.None? || c.CurveFee() > 0
    ensures var later := Evolve(c, events, limits);
            later.CurveFee() > 0 && later.curve.Some? && (c.pool.Some? ==> later.pool.Some?)
  {
    if c.CurveFee() > 0 {
      events := [];
    } else if c.curve.Some? {
      events := [CurveTrade(1)];
      assert events[..0] == [];
      assert Evolve(c, events[..0], limits) == c;
    } else {
      events := [CreateCurve, CurveTrade(1)];
      assert events[..1] == [CreateCurve];
      assert [CreateCurve][..0] == [];
      assert Evolve(c, [CreateCurve], limits) == Happen(c, CreateCurve, limits);
    }
  }

  /** The planner sweeps the curve exactly when leaving the sweep out would not be safe. */
  lemma CurveSweepIffNeeded(c: Coin, limits: Limits)
    ensures SweepCurve in Sweeps(ReadOf(c)) <==> !Safe(c, if c.pool.Some? then [SweepPool] else [], limits)
  {
    SafeWithoutCurveSweepIff(c, c.pool.Some?, limits);
  }

  /**
  Sending the sweeps in a transaction of their own leaves nothing on the curve, and the
  payout may then follow at any time exactly if the coin had graduated by then.
  */
  lemma SweepsInOwnTransaction(c: Coin, events: seq<Event>, limits: Limits)
    requires Execute(Evolve(c, events, limits), Sweeps(ReadOf(c)), limits).Ok?
    ensures var swept := Execute(Evolve(c, events, limits), Sweeps(ReadOf(c)), limits).value;
            swept.CurveFee() == 0 && (Safe(swept, [], limits) <==> swept.pool.Some?)
  {
    var now := Evolve(c, events, limits);
    var curve, pool := c.pool.None? || c.CurveFee() > 0, c.pool.Some?;
    EvolveKeeps(c, events, limits);
    ExecuteSweeps(now, curve, pool, [], limits);
    ExecuteKeeps(now, Sweeps(ReadOf(c)), limits);
    if curve && now.curve.None? {
      MissingCurveFails(now, Sweeps(ReadOf(c)), limits);
    }
    SafeWithoutCurveSweepIff(Execute(now, Sweeps(ReadOf(c)), limits).value, false, limits);
  }

  lemma MissingCurveFails(c: Coin, ixs: seq<Ix>, limits: Limits)
    requires c.curve.None? && |ixs| > 0 && ixs[0] == SweepCurve
    ensures Execute(c, ixs, limits) == Err(MissingAccount)
  {
  }

  // ---------- What a payout pays ----------

  /** Everything the plan can bring into pump.fun's vault from this state. */
  ghost function Distributable(c: Coin, sweepPool: bool, limits: Limits): nat {
    var vault := c.poolVault + if sweepPool then c.PoolFee() else 0;
    c.pumpVault + c.CurveFee() + if vault < limits.rentMinimum then 0 else vault
  }

  /** Sweeping and transferring bring together all that can be distributed, and lose nothing. */
  lemma SweptAndTransferred(now: Coin, curve: bool, pool: bool, limits: Limits)
    requires (curve ==> now.curve.Some?) && (pool ==> now.pool.Some?)
    requires !curve ==> now.CurveFee() == 0
    ensures var ready := Transferred(Swept(now, curve, pool), limits);
            && ready.pumpVault == Distributable(now, pool, limits)
            && ready.CurveFee() == 0
            && (pool ==> ready.PoolFee() == 0)
            && ready.Total() == now.Total()
            && ready.paid == now.paid && ready.config == now.config
            && (ready.curve.Some? <==> now.curve.Some?)
  {
  }

  /**
  A payout succeeds exactly when the curve exists, the split is the one given, is active,
  and enough has accrued; it then pays out all of it, leaves no creator fee waiting where
  the plan looked, and neither makes nor loses money.
  */
  ghost predicate Pays(
    now: Coin, r: Result<Coin, ChainError>, sweepPool: bool, holders: seq<Pubkey>, limits: Limits)
  {
    && (r.Ok? <==>
          && now.curve.Some?
          && now.config.Some? && now.config.value.status.Active?
          && holders == Addresses(now.config.value.shareholders)
          && limits.distributableMinimum <= Distributable(now, sweepPool, limits))
    && (r.Ok? ==>
          && r.value.paid == now.paid + Distributable(now, sweepPool, limits)
          && r.value.Total() == now.Total()
          && r.value.CurveFee() == 0
          && (sweepPool ==> r.value.PoolFee() == 0)
          && r.value.pumpVault == 0)
  }

  /** What a plan for these accounts pays. */
  lemma PlanPays(now: Coin, curve: bool, pool: bool, holders: seq<Pubkey>, limits: Limits)
    requires (pool ==> now.pool.Some?) && (!curve ==> now.CurveFee() == 0)
    ensures var ixs := (if curve then [SweepCurve] else []) + (if pool then [SweepPool] else []);
            Pays(now, Execute(now, ixs + Payout(holders), limits), pool, holders, limits)
  {
    ExecuteSweeps(now, curve, pool, holders, limits);
    if curve ==> now.curve.Some? {
      SweptAndTransferred(now, curve, pool, limits);
    }
  }

  /** However stale the read, the plan made from it pays in that sense. */
  lemma PayoutPaysEverything(c: Coin, events: seq<Event>, holders: seq<Pubkey>, limits: Limits)
    ensures var now := Evolve(c, events, limits);
            Pays(now, Execute(now, Sweeps(ReadOf(c)) + Payout(holders), limits), c.pool.Some?, holders, limits)
  {
    EvolveKeeps(c, events, limits);
    PlanPays(Evolve(c, events, limits), c.pool.None? || c.CurveFee() > 0, c.pool.Some?, holders, limits);
  }

  // ---------- What a stale plan misses ----------

  lemma EvolveOne(c: Coin, event: Event, limits: Limits)
    ensures Evolve(c, [event], limits) == Happen(c, event, limits)
  {
    assert [event][..0] == [];
  }

  /** A split edited to other shareholders between the read and the payout makes the payout fail. */
  lemma EditedSplitIsRefused(c: Coin, config: SharingConfig, holders: seq<Pubkey>, limits: Limits)
    requires holders != Addresses(config.shareholders)
    ensures Execute(Evolve(c, [EditSplit(config)], limits), Sweeps(ReadOf(c)) + Payout(holders), limits).Err?
  {
    EvolveOne(c, EditSplit(config), limits);
    PayoutPaysEverything(c, [EditSplit(config)], holders, limits);
  }

  /** A plan read before graduation still pays, and leaves behind what the pool earned since. */
  lemma PoolFeeSinceReadStays(c: Coin, fee: nat, holders: seq<Pubkey>, limits: Limits)
    requires c.pool.None? && c.curve.Some?
    ensures var now := Evolve(c, [Graduate, PoolTrade(fee)], limits);
            var r := Execute(now, Sweeps(ReadOf(c)) + Payout(holders), limits);
            && now.pool == Some(fee)
            && (r.Ok? <==>
                  && c.config.Some? && c.config.value.status.Active?
                  && holders == Addresses(c.config.value.shareholders)
                  && limits.distributableMinimum <= Distributable(c, false, limits))
            && (r.Ok? ==> r.value.pool == Some(fee))
  {
    var events := [Graduate, PoolTrade(fee)];
    assert events[..1] == [Graduate];
    EvolveOne(c, Graduate, limits);
    PayoutPaysEverything(c, events, holders, limits);
    ExecuteSweeps(Evolve(c, events, limits), true, false, holders, limits);
  }

  lemma NothingLeft(c: Coin, holders: seq<Pubkey>, limits: Limits)
    requires Execute(c, Sweeps(ReadOf(c)) + Payout(holders), limits).Ok?
    ensures var first := Execute(c, Sweeps(ReadOf(c)) + Payout(holders), limits).value;
            && Distributable(first, c.pool.Some?, limits) == 0
            && first.config == c.config && first.curve.Some?
            && first.config.Some? && first.config.value.status.Active?
            && holders == Addresses(first.config.value.shareholders)
  {
    ExecuteSweeps(c, c.pool.None? || c.CurveFee() > 0, c.pool.Some?, holders, limits);
  }

  /** Of two equal plans the second pays nothing: the first one took everything. */
  lemma PaidOnce(c: Coin, holders: seq<Pubkey>, limits: Limits)
    requires Execute(c, Sweeps(ReadOf(c)) + Payout(holders), limits).Ok?
    ensures var plan := Sweeps(ReadOf(c)) + Payout(holders);
            var first := Execute(c, plan, limits).value;
            var second := Execute(Evolve(c, [OtherTransaction(plan)], limits), plan, limits);
            && (second.Ok? <==> limits.distributableMinimum == 0)
            && (second.Ok? ==> second.value.paid == first.paid)
  {
    var plan := Sweeps(ReadOf(c)) + Payout(holders);
    EvolveOne(c, OtherTransaction(plan), limits);
    NothingLeft(c, holders, limits);
    PayoutPaysEverything(c, [OtherTransaction(plan)], holders, limits);
  }
}
