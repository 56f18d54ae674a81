/**
A pool account: its decoding from raw bytes at fixed offsets, tolerant of accounts
that end early, and the reserves it prices against (`src/state.rs`, `PoolInfo`).
*/
module Pool {
  import opened Bytes
  import opened MachineInts

  const WRAPPED_SOL_MINT: Pubkey := [
    0x06, 0x9b, 0x88, 0x57, 0xfe, 0xab, 0x81, 0x84, 0xfb, 0x68, 0x7f, 0x63, 0x46, 0x18, 0xc0, 0x35,
    0xda, 0xc4, 0x39, 0xdc, 0x1a, 0xeb, 0x3b, 0x55, 0x98, 0xa0, 0xf0, 0x00, 0x00, 0x00, 0x00, 0x01]

  /** Discriminator plus the packed `Pool` struct. */
  const STRUCT_END: nat := 8 + 237

  datatype PoolInfo = PoolInfo(
    pool: Pubkey,
    accountDataLen: nat,
    baseMint: Pubkey,
    quoteMint: Pubkey,
    lpMint: Pubkey,
    baseTokenAccount: Pubkey,
    quoteTokenAccount: Pubkey,
    creator: Pubkey,
    coinCreator: Pubkey,
    isMayhemMode: bool,
    isCashbackCoin: bool,
    virtualQuoteReserves: i128,
    creatorFeeBps: u64,
    isHolderReward: bool,
    protocolFees: u64,
    creatorFees: u64,
    baseTokenProgram: Pubkey,
    quoteTokenProgram: Pubkey)
  {
    predicate SolIsBase() {
      baseMint == WRAPPED_SOL_MINT
    }

    function TokenMint(): Pubkey {
      if SolIsBase() then quoteMint else baseMint
    }

    /** Token-account balances with the signed adjustment on the quote side, clamped. */
    function EffectiveReserves(baseReserve: u64, quoteReserve: u64): (u64, u64) {
      (baseReserve, Clamp(SaturatingAddI128(quoteReserve, virtualQuoteReserves), 0, U64_MAX))
    }
  }

  /** The saturating sum only matters far outside the clamp. */
  lemma EffectiveQuoteIsClampedSum(pool: PoolInfo, baseReserve: u64, quoteReserve: u64)
    ensures pool.EffectiveReserves(baseReserve, quoteReserve)
         == (baseReserve, Clamp(quoteReserve + pool.virtualQuoteReserves, 0, U64_MAX))
  {
  }

  datatype PoolError = TooShort(expected: nat, got: nat)

  /** `data.get(offset..offset + width)`. */
  function Get(data: seq<byte>, offset: nat, width: nat): Option<seq<byte>> {
    if offset + width <= |data| then Some(data[offset..offset + width]) else None
  }

  function U64At(data: seq<byte>, offset: nat): (v: u64) {
    match Get(data, offset, 8)
    case None => 0
    case Some(bytes) => Widths(); LeBytesOfFromLe(bytes); FromLe(bytes)
  }

  function I128At(data: seq<byte>, offset: nat): (v: i128) {
    match Get(data, offset, 16)
    case None => 0
    case Some(bytes) => Widths(); SignedOfBytes(bytes); FromLeSigned(bytes)
  }

  predicate FlagAt(data: seq<byte>, offset: nat) {
    offset < |data| && data[offset] != 0
  }

  function FromAccountData(pool: Pubkey, data: seq<byte>, baseTokenProgram: Pubkey, quoteTokenProgram: Pubkey)
    : Result<PoolInfo, PoolError>
  {
    if |data| < STRUCT_END then Err(TooShort(STRUCT_END, |data|)) else
    var reservesEnd := STRUCT_END + 16;
    Ok(PoolInfo(
         pool,
         |data|,
         data[43..75],
         data[75..107],
         data[107..139],
         data[139..171],
         data[171..203],
         data[11..43],
         data[211..243],
         data[243] != 0,
         data[244] != 0,
         I128At(data, STRUCT_END),
         U64At(data, reservesEnd),
         FlagAt(data, reservesEnd + 9),
         U64At(data, reservesEnd + 10),
         U64At(data, reservesEnd + 18),
         baseTokenProgram,
         quoteTokenProgram))
  }

  /** An account is refused exactly when it ends before byte 245, and any byte but zero is a set flag. */
  lemma DecodedExactly(pool: Pubkey, data: seq<byte>, base: Pubkey, quote: Pubkey)
    ensures |data| < 245 ==> FromAccountData(pool, data, base, quote) == Err(TooShort(245, |data|))
    ensures |data| >= 245 ==>
              match FromAccountData(pool, data, base, quote)
              case Err(_) => false
              case Ok(info) =>
                && (info.isMayhemMode <==> data[243] != 0)
                && (info.isCashbackCoin <==> data[244] != 0)
                && (info.isHolderReward <==> |data| > 270 && data[270] != 0)
                && info.accountDataLen == |data| && info.pool == pool
                && info.baseTokenProgram == base && info.quoteTokenProgram == quote
  {
  }

  // ---------- Accounts that end early ----------

  lemma SliceOfPrefix(data: seq<byte>, n: nat, i: nat, j: nat)
    requires i <= j <= n <= |data|
    ensures data[..n][i..j] == data[i..j]
  {
  }

  lemma GetOfPrefix(data: seq<byte>, n: nat, offset: nat, width: nat)
    requires n <= |data|
    ensures Get(data[..n], offset, width)
         == if offset + width <= n then Get(data, offset, width) else None
  {
    if offset + width <= n {
      SliceOfPrefix(data, n, offset, offset + width);
    }
  }

  lemma FieldsOfPrefix(data: seq<byte>, n: nat, offset: nat)
    requires n <= |data|
    ensures U64At(data[..n], offset) == if offset + 8 <= n then U64At(data, offset) else 0
    ensures I128At(data[..n], offset) == if offset + 16 <= n then I128At(data, offset) else 0
    ensures FlagAt(data[..n], offset) == (offset < n && FlagAt(data, offset))
  {
    GetOfPrefix(data, n, offset, 8);
    GetOfPrefix(data, n, offset, 16);
  }

  /**
  Cutting an account anywhere past the struct zeroes exactly the trailing fields that
  are no longer whole, and changes nothing else but the recorded length.
  */
  lemma Truncation(pool: Pubkey, data: seq<byte>, n: nat, base: Pubkey, quote: Pubkey)
    requires STRUCT_END <= n <= |data|
    ensures var whole := FromAccountData(pool, data, base, quote).value;
            FromAccountData(pool, data[..n], base, quote) == Ok(whole.(
              accountDataLen := n,
              virtualQuoteReserves := if n >= 261 then whole.virtualQuoteReserves else 0,
              creatorFeeBps := if n >= 269 then whole.creatorFeeBps else 0,
              isHolderReward := n >= 271 && whole.isHolderReward,
              protocolFees := if n >= 279 then whole.protocolFees else 0,
              creatorFees := if n >= 287 then whole.creatorFees else 0))
  {
    FieldsOfPrefix(data, n, 245);
    FieldsOfPrefix(data, n, 261);
    FieldsOfPrefix(data, n, 270);
    FieldsOfPrefix(data, n, 271);
    FieldsOfPrefix(data, n, 279);
    SliceOfPrefix(data, n, 43, 75);
    SliceOfPrefix(data, n, 75, 107);
    SliceOfPrefix(data, n, 107, 139);
    SliceOfPrefix(data, n, 139, 171);
    SliceOfPrefix(data, n, 171, 203);
    SliceOfPrefix(data, n, 11, 43);
    SliceOfPrefix(data, n, 211, 243);
  }

  // ---------- The layout, written out ----------

  /** What the account holds and `PoolInfo` does not. */
  datatype Unread = Unread(
    discriminator: seq<byte>, bump: byte, index: u16, lpSupply: u64, canEditCreatorFee: byte)

  function FlagByte(flag: bool): seq<byte> {
    [if flag then 1 else 0]
  }

  function EncodeStruct(info: PoolInfo, rest: Unread): seq<byte> {
    rest.discriminator + [rest.bump] + LeBytes(rest.index, 2) + info.creator + info.baseMint + info.quoteMint
    + info.lpMint + info.baseTokenAccount + info.quoteTokenAccount + LeBytes(rest.lpSupply, 8)
    + info.coinCreator + FlagByte(info.isMayhemMode) + FlagByte(info.isCashbackCoin)
  }

  function EncodeTrailing(info: PoolInfo, rest: Unread): seq<byte> {
    Widths();
    LeSigned(info.virtualQuoteReserves, 16) + LeBytes(info.creatorFeeBps, 8) + [rest.canEditCreatorFee]
    + FlagByte(info.isHolderReward) + LeBytes(info.protocolFees, 8) + LeBytes(info.creatorFees, 8)
  }

  lemma StructLayout(data: seq<byte>, info: PoolInfo, rest: Unread)
    requires |rest.discriminator| == 8
    requires At(data, 0, EncodeStruct(info, rest))
    ensures |data| >= STRUCT_END == |EncodeStruct(info, rest)|
    ensures data[11..43] == info.creator && data[43..75] == info.baseMint && data[75..107] == info.quoteMint
    ensures data[107..139] == info.lpMint && data[139..171] == info.baseTokenAccount
    ensures data[171..203] == info.quoteTokenAccount && data[211..243] == info.coinCreator
    ensures (data[243] != 0) == info.isMayhemMode && (data[244] != 0) == info.isCashbackCoin
  {
    var s1 := rest.discriminator + [rest.bump] + LeBytes(rest.index, 2);
    var s2 := s1 + info.creator;
    var s3 := s2 + info.baseMint;
    var s4 := s3 + info.quoteMint;
    var s5 := s4 + info.lpMint;
    var s6 := s5 + info.baseTokenAccount;
    var s7 := s6 + info.quoteTokenAccount;
    var s8 := s7 + LeBytes(rest.lpSupply, 8);
    var s9 := s8 + info.coinCreator;
    var s10 := s9 + FlagByte(info.isMayhemMode);
    AtConcat(data, 0, s10, FlagByte(info.isCashbackCoin));
    AtConcat(data, 0, s9, FlagByte(info.isMayhemMode));
    AtConcat(data, 0, s8, info.coinCreator);
    AtConcat(data, 0, s7, LeBytes(rest.lpSupply, 8));
    AtConcat(data, 0, s6, info.quoteTokenAccount);
    AtConcat(data, 0, s5, info.baseTokenAccount);
    AtConcat(data, 0, s4, info.lpMint);
    AtConcat(data, 0, s3, info.quoteMint);
    AtConcat(data, 0, s2, info.baseMint);
    AtConcat(data, 0, s1, info.creator);
    assert data[243..244] == FlagByte(info.isMayhemMode);
    assert data[244..245] == FlagByte(info.isCashbackCoin);
    assert data[243] == data[243..244][0] && data[244] == data[244..245][0];
  }

  /** The trailing fields of an encoded account, each at its offset. */
  lemma TrailingParts(data: seq<byte>, info: PoolInfo, rest: Unread)
    requires At(data, STRUCT_END, EncodeTrailing(info, rest))
    ensures |data| >= 287 == STRUCT_END + |EncodeTrailing(info, rest)|
    ensures data[245..261] == (Widths(); LeSigned(info.virtualQuoteReserves, 16))
    ensures At(data, 261, LeBytes(info.creatorFeeBps, 8))
    ensures At(data, 270, FlagByte(info.isHolderReward))
    ensures At(data, 271, LeBytes(info.protocolFees, 8)) && At(data, 279, LeBytes(info.creatorFees, 8))
  {
    Widths();
    var s1 := LeSigned(info.virtualQuoteReserves, 16);
    var s2 := s1 + LeBytes(info.creatorFeeBps, 8);
    var s3 := s2 + [rest.canEditCreatorFee];
    var s4 := s3 + FlagByte(info.isHolderReward);
    var s5 := s4 + LeBytes(info.protocolFees, 8);
    AtConcat(data, STRUCT_END, s5, LeBytes(info.creatorFees, 8));
    AtConcat(data, STRUCT_END, s4, LeBytes(info.protocolFees, 8));
    AtConcat(data, STRUCT_END, s3, FlagByte(info.isHolderReward));
    AtConcat(data, STRUCT_END, s2, [rest.canEditCreatorFee]);
    AtConcat(data, STRUCT_END, s1, LeBytes(info.creatorFeeBps, 8));
  }

  lemma TrailingLayout(data: seq<byte>, info: PoolInfo, rest: Unread)
    requires At(data, STRUCT_END, EncodeTrailing(info, rest))
    ensures |data| >= 287
    ensures I128At(data, 245) == info.virtualQuoteReserves && U64At(data, 261) == info.creatorFeeBps
    ensures FlagAt(data, 270) == info.isHolderReward
    ensures U64At(data, 271) == info.protocolFees && U64At(data, 279) == info.creatorFees
  {
    Widths();
    TrailingParts(data, info, rest);
    SignedRoundTrip(info.virtualQuoteReserves, 16);
    AtLe(data, 261, info.creatorFeeBps, 8);
    AtLe(data, 271, info.protocolFees, 8);
    AtLe(data, 279, info.creatorFees, 8);
    assert data[270] == data[270..271][0];
  }

  /** An encoded account, with any bytes allocated after it, decodes to what was encoded. */
  lemma RoundTrip(info: PoolInfo, rest: Unread, tail: seq<byte>)
    requires |rest.discriminator| == 8
    ensures var data := EncodeStruct(info, rest) + EncodeTrailing(info, rest) + tail;
            FromAccountData(info.pool, data, info.baseTokenProgram, info.quoteTokenProgram)
            == Ok(info.(accountDataLen := |data|))
  {
    var head, trailing := EncodeStruct(info, rest), EncodeTrailing(info, rest);
    var data := head + trailing + tail;
    AtConcat(data, 0, head + trailing, tail);
    AtConcat(data, 0, head, trailing);
    StructLayout(data, info, rest);
    TrailingLayout(data, info, rest);
  }
}
