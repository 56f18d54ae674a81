/**
The account decoders (`src/state.rs`), each the exact inverse of its encoder: on
encode(x) followed by anything it returns x, and it returns nothing on an input that
does not start with an encoding, every proper prefix of one included.
*/
module AccountDecoders {
  import opened AccountReader
  import opened Bytes
  import opened FeeLadder
  import opened MachineInts
  import opened VolumeDays

  const FEE_CONFIG_TAG: seq<byte> := [0x8f, 0x34, 0x92, 0xbb, 0xdb, 0x7b, 0x4c, 0x9b]
  const SHARING_CONFIG_TAG: seq<byte> := [0xd8, 0x4a, 0x09, 0x00, 0x38, 0x8c, 0x5d, 0x4b]
  const USER_VOLUME_TAG: seq<byte> := [0x56, 0xff, 0x70, 0x0e, 0x66, 0x35, 0x9a, 0xfa]
  const GLOBAL_VOLUME_TAG: seq<byte> := [0xca, 0x2a, 0xf6, 0x2b, 0x8e, 0xbe, 0x1e, 0xff]

  // ---------- What a decoder owes its encoder ----------

  /** No encoding is a prefix of another one. */
  ghost predicate PrefixFree<T(!new)>(encode: T -> seq<byte>) {
    forall a, b :: encode(a) <= encode(b) ==> a == b
  }

  /** A value whose encoding starts the input, or the fact that there is none. */
  ghost predicate Finds<T(!new)>(encode: T -> seq<byte>, data: seq<byte>, r: Result<T, DecodeError>) {
    match r
    case Ok(value) => encode(value) <= data
    case Err(_) => forall x :: !(encode(x) <= data)
  }

  /** The inverse of the encoder: the one value on its encoding and any tail, nothing on a cut encoding. */
  ghost predicate Inverts<T(!new)>(encode: T -> seq<byte>, data: seq<byte>, r: Result<T, DecodeError>) {
    && (r.Ok? ==> encode(r.value) <= data)
    && (forall x :: encode(x) <= data ==> r == Ok(x))
    && (forall x :: data < encode(x) ==> r.Err?)
  }

  /** On a prefix-free encoding finding a value is inverting the encoder. */
  lemma FindingInverts<T(!new)>(encode: T -> seq<byte>, data: seq<byte>, r: Result<T, DecodeError>)
    requires PrefixFree(encode) && Finds(encode, data, r)
    ensures Inverts(encode, data, r)
  {
  }

  // ---------- FeeConfig ----------

  function EncodeFeeConfig(c: FeeConfig): seq<byte> {
    FEE_CONFIG_TAG + [c.bump] + c.admin + EncodeFees(c.flatFees)
    + EncodeVec(c.feeTiers, EncodeTier) + EncodeVec(c.stableFeeTiers, EncodeTier)
  }

  /** The encoding, field by field at its offset. */
  ghost predicate FeeConfigAt(data: seq<byte>, c: FeeConfig) {
    && At(data, 0, FEE_CONFIG_TAG)
    && At(data, 8, [c.bump])
    && At(data, 9, c.admin)
    && At(data, 41, EncodeFees(c.flatFees))
    && At(data, 65, EncodeVec(c.feeTiers, EncodeTier))
    && At(data, 69 + |c.feeTiers| * TIER_LEN, EncodeVec(c.stableFeeTiers, EncodeTier))
  }

  lemma TiersWidth(tiers: Tiers)
    ensures |EncodeVec(tiers, EncodeTier)| == 4 + |tiers| * TIER_LEN
  {
    EncodeAllWidth(tiers, EncodeTier, TIER_LEN);
  }

  lemma FeeConfigLayout(data: seq<byte>, c: FeeConfig)
    ensures EncodeFeeConfig(c) <= data <==> FeeConfigAt(data, c)
  {
    TiersWidth(c.feeTiers);
    var s1 := FEE_CONFIG_TAG + [c.bump];
    var s2 := s1 + c.admin;
    var s3 := s2 + EncodeFees(c.flatFees);
    var s4 := s3 + EncodeVec(c.feeTiers, EncodeTier);
    AtConcat(data, 0, FEE_CONFIG_TAG, [c.bump]);
    AtConcat(data, 0, s1, c.admin);
    AtConcat(data, 0, s2, EncodeFees(c.flatFees));
    AtConcat(data, 0, s3, EncodeVec(c.feeTiers, EncodeTier));
    AtConcat(data, 0, s4, EncodeVec(c.stableFeeTiers, EncodeTier));
    AtStart(data, EncodeFeeConfig(c));
  }

  lemma FeeConfigUnique(data: seq<byte>, a: FeeConfig, b: FeeConfig)
    requires FeeConfigAt(data, a) && FeeConfigAt(data, b)
    ensures a == b
  {
    TierEncoding();
    assert a.bump == [a.bump][0] == data[8..9][0] == [b.bump][0] == b.bump;
    FeesInjective(a.flatFees, b.flatFees);
    VecUnique(data, 65, a.feeTiers, b.feeTiers, EncodeTier, TIER_LEN);
    VecUnique(data, 69 + |a.feeTiers| * TIER_LEN, a.stableFeeTiers, b.stableFeeTiers, EncodeTier, TIER_LEN);
  }

  /** The bytes decide: the tag, the fixed fields, and both vector guards. */
  ghost predicate HoldsFeeConfig(data: seq<byte>) {
    && At(data, 0, FEE_CONFIG_TAG)
    && GuardPasses(data, 65, TIER_LEN)
    && GuardPasses(data, 69 + Count(data, 65) * TIER_LEN, TIER_LEN)
  }

  lemma FeeConfigNeeds(data: seq<byte>, c: FeeConfig)
    requires FeeConfigAt(data, c)
    ensures HoldsFeeConfig(data)
  {
    TierEncoding();
    GuardIsNecessary(data, 65, c.feeTiers, EncodeTier, TIER_LEN);
    GuardIsNecessary(data, 69 + |c.feeTiers| * TIER_LEN, c.stableFeeTiers, EncodeTier, TIER_LEN);
  }

  method ReadFeeConfig(data: seq<byte>) returns (r: Result<FeeConfig, DecodeError>)
    ensures r.Ok? <==> HoldsFeeConfig(data)
    ensures r.Ok? ==> FeeConfigAt(data, r.value)
  {
    var opening := Reader.AfterDiscriminator(data, FEE_CONFIG_TAG);
    if opening.Err? { return Err(opening.error); }
    var reader := opening.value;
    var bump := reader.U8();
    if bump.Err? { return Err(bump.error); }
    var admin := reader.Key();
    if admin.Err? { return Err(admin.error); }
    var flatFees := reader.ReadFees();
    if flatFees.Err? { return Err(flatFees.error); }
    var feeTiers := reader.Tiers();
    if feeTiers.Err? { return Err(feeTiers.error); }
    var stableFeeTiers := reader.Tiers();
    if stableFeeTiers.Err? { return Err(stableFeeTiers.error); }
    r := Ok(FeeConfig(bump.value, admin.value, flatFees.value, feeTiers.value, stableFeeTiers.value));
  }

  lemma FeeConfigPrefixFree()
    ensures PrefixFree(EncodeFeeConfig)
  {
    forall a, b | EncodeFeeConfig(a) <= EncodeFeeConfig(b)
      ensures a == b
    {
      FeeConfigLayout(EncodeFeeConfig(b), a);
      FeeConfigLayout(EncodeFeeConfig(b), b);
      FeeConfigUnique(EncodeFeeConfig(b), a, b);
    }
  }

  /** `FeeConfig::from_account_data`. */
  method FeeConfigFromAccountData(data: seq<byte>) returns (r: Result<FeeConfig, DecodeError>)
    ensures Inverts(EncodeFeeConfig, data, r)
  {
    r := ReadFeeConfig(data);
    forall x: FeeConfig
      ensures EncodeFeeConfig(x) <= data <==> FeeConfigAt(data, x)
      ensures FeeConfigAt(data, x) ==> HoldsFeeConfig(data)
    {
      FeeConfigLayout(data, x);
      if FeeConfigAt(data, x) {
        FeeConfigNeeds(data, x);
      }
    }
    FeeConfigPrefixFree();
    FindingInverts(EncodeFeeConfig, data, r);
  }

  // ---------- SharingConfig ----------

  datatype ConfigStatus = Paused | Active

  datatype SharingConfig = SharingConfig(
    bump: byte, version: byte, status: ConfigStatus, mint: Pubkey, admin: Pubkey, adminRevoked: bool,
    shareholders: ShareholderList)

  function EncodeStatus(status: ConfigStatus): seq<byte> {
    [if status.Paused? then 0 else 1]
  }

  /** `ConfigStatus::read`: one byte holding the variant index. */
  method ReadStatus(reader: Reader) returns (r: Result<ConfigStatus, DecodeError>)
    requires reader.Valid()
    modifies reader
    ensures reader.Valid()
    ensures r.Ok? <==> old(reader.pos) + 1 <= |reader.data| && reader.data[old(reader.pos)] <= 1
    ensures r.Ok? ==> reader.pos == old(reader.pos) + 1 && At(reader.data, old(reader.pos), EncodeStatus(r.value))
    ensures r.Err? ==> r.error == if old(reader.pos) + 1 > |reader.data|
                                  then Truncated(old(reader.pos) + 1, |reader.data|)
                                  else InvalidStatus(reader.data[old(reader.pos)])
  {
    var tag := reader.U8();
    match tag {
      case Err(error) => r := Err(error);
      case Ok(value) =>
        r := if value == 0 then Ok(Paused) else if value == 1 then Ok(Active) else Err(InvalidStatus(value));
    }
  }

  function EncodeSharingConfig(c: SharingConfig): seq<byte> {
    SHARING_CONFIG_TAG + [c.bump] + [c.version] + EncodeStatus(c.status) + c.mint + c.admin
    + EncodeBool(c.adminRevoked) + EncodeVec(c.shareholders, EncodeShareholder)
  }

  ghost predicate SharingConfigAt(data: seq<byte>, c: SharingConfig) {
    && At(data, 0, SHARING_CONFIG_TAG)
    && At(data, 8, [c.bump])
    && At(data, 9, [c.version])
    && At(data, 10, EncodeStatus(c.status))
    && At(data, 11, c.mint)
    && At(data, 43, c.admin)
    && At(data, 75, EncodeBool(c.adminRevoked))
    && At(data, 76, EncodeVec(c.shareholders, EncodeShareholder))
  }

  lemma SharingConfigLayout(data: seq<byte>, c: SharingConfig)
    ensures EncodeSharingConfig(c) <= data <==> SharingConfigAt(data, c)
  {
    var s1 := SHARING_CONFIG_TAG + [c.bump];
    var s2 := s1 + [c.version];
    var s3 := s2 + EncodeStatus(c.status);
    var s4 := s3 + c.mint;
    var s5 := s4 + c.admin;
    var s6 := s5 + EncodeBool(c.adminRevoked);
    AtConcat(data, 0, SHARING_CONFIG_TAG, [c.bump]);
    AtConcat(data, 0, s1, [c.version]);
    AtConcat(data, 0, s2, EncodeStatus(c.status));
    AtConcat(data, 0, s3, c.mint);
    AtConcat(data, 0, s4, c.admin);
    AtConcat(data, 0, s5, EncodeBool(c.adminRevoked));
    AtConcat(data, 0, s6, EncodeVec(c.shareholders, EncodeShareholder));
    AtStart(data, EncodeSharingConfig(c));
  }

  lemma OneByteAt(data: seq<byte>, pos: nat, b: byte)
    ensures At(data, pos, [b]) <==> pos < |data| && data[pos] == b
  {
    if pos < |data| {
      assert data[pos..pos + 1] == [data[pos]];
      assert [data[pos]] == [b] ==> [data[pos]][0] == b;
    }
  }

  lemma FlagsAt(data: seq<byte>, pos: nat)
    ensures forall b :: At(data, pos, EncodeBool(b)) <==> pos < |data| && data[pos] == if b then 1 else 0
    ensures forall s: ConfigStatus ::
              At(data, pos, EncodeStatus(s)) <==> pos < |data| && data[pos] == if s.Paused? then 0 else 1
  {
    OneByteAt(data, pos, 0);
    OneByteAt(data, pos, 1);
  }

  lemma SharingConfigUnique(data: seq<byte>, a: SharingConfig, b: SharingConfig)
    requires SharingConfigAt(data, a) && SharingConfigAt(data, b)
    ensures a == b
  {
    OneByteAt(data, 8, a.bump);
    OneByteAt(data, 8, b.bump);
    OneByteAt(data, 9, a.version);
    OneByteAt(data, 9, b.version);
    FlagsAt(data, 10);
    FlagsAt(data, 75);
    ShareholderEncoding();
    VecUnique(data, 76, a.shareholders, b.shareholders, EncodeShareholder, SHAREHOLDER_LEN);
  }

  lemma SharingConfigNeeds(data: seq<byte>, c: SharingConfig)
    requires SharingConfigAt(data, c)
    ensures data[10] <= 1 && data[75] <= 1 && GuardPasses(data, 76, SHAREHOLDER_LEN)
  {
    FlagsAt(data, 10);
    FlagsAt(data, 75);
    ShareholderEncoding();
    GuardIsNecessary(data, 76, c.shareholders, EncodeShareholder, SHAREHOLDER_LEN);
  }

  method ReadSharingConfig(data: seq<byte>) returns (r: Result<SharingConfig, DecodeError>)
    ensures r.Ok? ==> SharingConfigAt(data, r.value)
    ensures r.Err? ==> forall c :: !SharingConfigAt(data, c)
  {
    forall c | SharingConfigAt(data, c)
      ensures data[10] <= 1 && data[75] <= 1 && GuardPasses(data, 76, SHAREHOLDER_LEN)
    {
      SharingConfigNeeds(data, c);
    }
    var opening := Reader.AfterDiscriminator(data, SHARING_CONFIG_TAG);
    if opening.Err? { return Err(opening.error); }
    var reader := opening.value;
    var bump := reader.U8();
    if bump.Err? { return Err(bump.error); }
    var version := reader.U8();
    if version.Err? { return Err(version.error); }
    var status := ReadStatus(reader);
    if status.Err? { return Err(status.error); }
    var mint := reader.Key();
    if mint.Err? { return Err(mint.error); }
    var admin := reader.Key();
    if admin.Err? { return Err(admin.error); }
    var adminRevoked := reader.Bool();
    if adminRevoked.Err? { return Err(adminRevoked.error); }
    var shareholders := reader.Shareholders();
    if shareholders.Err? { return Err(shareholders.error); }
    r := Ok(SharingConfig(bump.value, version.value, status.value, mint.value, admin.value, adminRevoked.value,
                          shareholders.value));
  }

  lemma SharingConfigPrefixFree()
    ensures PrefixFree(EncodeSharingConfig)
  {
    forall a, b | EncodeSharingConfig(a) <= EncodeSharingConfig(b)
      ensures a == b
    {
      SharingConfigLayout(EncodeSharingConfig(b), a);
      SharingConfigLayout(EncodeSharingConfig(b), b);
      SharingConfigUnique(EncodeSharingConfig(b), a, b);
    }
  }

  /** `SharingConfig::from_account_data`. */
  method SharingConfigFromAccountData(data: seq<byte>) returns (r: Result<SharingConfig, DecodeError>)
    ensures Inverts(EncodeSharingConfig, data, r)
  {
    r := ReadSharingConfig(data);
    forall x: SharingConfig
      ensures EncodeSharingConfig(x) <= data <==> SharingConfigAt(data, x)
    {
      SharingConfigLayout(data, x);
    }
    SharingConfigPrefixFree();
    FindingInverts(EncodeSharingConfig, data, r);
  }

  // ---------- UserVolumeAccumulator ----------

  datatype UserVolume = UserVolume(
    user: Pubkey, needsClaim: bool, totalUnclaimedTokens: u64, totalClaimedTokens: u64, currentSolVolume: u64,
    lastUpdateTimestamp: i64, hasTotalClaimedTokens: bool, cashbackEarned: u64, totalCashbackClaimed: u64)

  function EncodeUserVolume(u: UserVolume): seq<byte> {
    USER_VOLUME_TAG + u.user + EncodeBool(u.needsClaim) + EncodeU64(u.totalUnclaimedTokens)
    + EncodeU64(u.totalClaimedTokens) + EncodeU64(u.currentSolVolume) + EncodeI64(u.lastUpdateTimestamp)
    + EncodeBool(u.hasTotalClaimedTokens) + EncodeU64(u.cashbackEarned) + EncodeU64(u.totalCashbackClaimed)
  }

  ghost predicate UserVolumeAt(data: seq<byte>, u: UserVolume) {
    && At(data, 0, USER_VOLUME_TAG)
    && At(data, 8, u.user)
    && At(data, 40, EncodeBool(u.needsClaim))
    && At(data, 41, EncodeU64(u.totalUnclaimedTokens))
    && At(data, 49, EncodeU64(u.totalClaimedTokens))
    && At(data, 57, EncodeU64(u.currentSolVolume))
    && At(data, 65, EncodeI64(u.lastUpdateTimestamp))
    && At(data, 73, EncodeBool(u.hasTotalClaimedTokens))
    && At(data, 74, EncodeU64(u.cashbackEarned))
    && At(data, 82, EncodeU64(u.totalCashbackClaimed))
  }

  lemma UserVolumeLayout(data: seq<byte>, u: UserVolume)
    ensures EncodeUserVolume(u) <= data <==> UserVolumeAt(data, u)
  {
    var s1 := USER_VOLUME_TAG + u.user;
    var s2 := s1 + EncodeBool(u.needsClaim);
    var s3 := s2 + EncodeU64(u.totalUnclaimedTokens);
    var s4 := s3 + EncodeU64(u.totalClaimedTokens);
    var s5 := s4 + EncodeU64(u.currentSolVolume);
    var s6 := s5 + EncodeI64(u.lastUpdateTimestamp);
    var s7 := s6 + EncodeBool(u.hasTotalClaimedTokens);
    var s8 := s7 + EncodeU64(u.cashbackEarned);
    AtConcat(data, 0, USER_VOLUME_TAG, u.user);
    AtConcat(data, 0, s1, EncodeBool(u.needsClaim));
    AtConcat(data, 0, s2, EncodeU64(u.totalUnclaimedTokens));
    AtConcat(data, 0, s3, EncodeU64(u.totalClaimedTokens));
    AtConcat(data, 0, s4, EncodeU64(u.currentSolVolume));
    AtConcat(data, 0, s5, EncodeI64(u.lastUpdateTimestamp));
    AtConcat(data, 0, s6, EncodeBool(u.hasTotalClaimedTokens));
    AtConcat(data, 0, s7, EncodeU64(u.cashbackEarned));
    AtConcat(data, 0, s8, EncodeU64(u.totalCashbackClaimed));
    AtStart(data, EncodeUserVolume(u));
  }

  lemma U64Unique(data: seq<byte>, pos: nat, a: u64, b: u64)
    requires At(data, pos, EncodeU64(a)) && At(data, pos, EncodeU64(b))
    ensures a == b
  {
    Widths();
    LeInjective(a, b, 8);
  }

  lemma I64Unique(data: seq<byte>, pos: nat, a: i64, b: i64)
    requires At(data, pos, EncodeI64(a)) && At(data, pos, EncodeI64(b))
    ensures a == b
  {
    Widths();
    SignedRoundTrip(a, 8);
    SignedRoundTrip(b, 8);
  }

  lemma UserVolumeUnique(data: seq<byte>, a: UserVolume, b: UserVolume)
    requires UserVolumeAt(data, a) && UserVolumeAt(data, b)
    ensures a == b
  {
    FlagsAt(data, 40);
    FlagsAt(data, 73);
    U64Unique(data, 41, a.totalUnclaimedTokens, b.totalUnclaimedTokens);
    U64Unique(data, 49, a.totalClaimedTokens, b.totalClaimedTokens);
    U64Unique(data, 57, a.currentSolVolume, b.currentSolVolume);
    I64Unique(data, 65, a.lastUpdateTimestamp, b.lastUpdateTimestamp);
    U64Unique(data, 74, a.cashbackEarned, b.cashbackEarned);
    U64Unique(data, 82, a.totalCashbackClaimed, b.totalCashbackClaimed);
  }

  method ReadUserVolume(data: seq<byte>) returns (r: Result<UserVolume, DecodeError>)
    ensures r.Ok? ==> UserVolumeAt(data, r.value)
    ensures r.Err? ==> forall u :: !UserVolumeAt(data, u)
  {
    FlagsAt(data, 40);
    FlagsAt(data, 73);
    var opening := Reader.AfterDiscriminator(data, USER_VOLUME_TAG);
    if opening.Err? { return Err(opening.error); }
    var reader := opening.value;
    var user := reader.Key();
    if user.Err? { return Err(user.error); }
    var needsClaim := reader.Bool();
    if needsClaim.Err? { return Err(needsClaim.error); }
    var unclaimed := reader.U64();
    if unclaimed.Err? { return Err(unclaimed.error); }
    var claimed := reader.U64();
    if claimed.Err? { return Err(claimed.error); }
    var volume := reader.U64();
    if volume.Err? { return Err(volume.error); }
    var updated := reader.I64();
    if updated.Err? { return Err(updated.error); }
    var hasClaimed := reader.Bool();
    if hasClaimed.Err? { return Err(hasClaimed.error); }
    var earned := reader.U64();
    if earned.Err? { return Err(earned.error); }
    var cashback := reader.U64();
    if cashback.Err? { return Err(cashback.error); }
    r := Ok(UserVolume(user.value, needsClaim.value, unclaimed.value, claimed.value, volume.value, updated.value,
                       hasClaimed.value, earned.value, cashback.value));
  }

  lemma UserVolumePrefixFree()
    ensures PrefixFree(EncodeUserVolume)
  {
    forall a, b | EncodeUserVolume(a) <= EncodeUserVolume(b)
      ensures a == b
    {
      UserVolumeLayout(EncodeUserVolume(b), a);
      UserVolumeLayout(EncodeUserVolume(b), b);
      UserVolumeUnique(EncodeUserVolume(b), a, b);
    }
  }

  /** `UserVolumeAccumulator::from_account_data`. */
  method UserVolumeFromAccountData(data: seq<byte>) returns (r: Result<UserVolume, DecodeError>)
    ensures Inverts(EncodeUserVolume, data, r)
  {
    r := ReadUserVolume(data);
    forall x: UserVolume
      ensures EncodeUserVolume(x) <= data <==> UserVolumeAt(data, x)
    {
      UserVolumeLayout(data, x);
    }
    UserVolumePrefixFree();
    FindingInverts(EncodeUserVolume, data, r);
  }

  // ---------- GlobalVolumeAccumulator ----------

  function EncodeGlobalVolume(g: GlobalVolume): seq<byte> {
    GLOBAL_VOLUME_TAG + EncodeI64(g.startTime) + EncodeI64(g.endTime) + EncodeI64(g.secondsInADay) + g.mint
    + EncodeAll(g.totalTokenSupply, EncodeU64) + EncodeAll(g.solVolumes, EncodeU64)
  }

  ghost predicate GlobalVolumeAt(data: seq<byte>, g: GlobalVolume) {
    && At(data, 0, GLOBAL_VOLUME_TAG)
    && At(data, 8, EncodeI64(g.startTime))
    && At(data, 16, EncodeI64(g.endTime))
    && At(data, 24, EncodeI64(g.secondsInADay))
    && At(data, 32, g.mint)
    && At(data, 64, EncodeAll(g.totalTokenSupply, EncodeU64))
    && At(data, 304, EncodeAll(g.solVolumes, EncodeU64))
  }

  lemma GlobalVolumeLayout(data: seq<byte>, g: GlobalVolume)
    ensures EncodeGlobalVolume(g) <= data <==> GlobalVolumeAt(data, g)
    ensures |EncodeAll(g.totalTokenSupply, EncodeU64)| == |EncodeAll(g.solVolumes, EncodeU64)| == 240
  {
    EncodeAllWidth(g.totalTokenSupply, EncodeU64, 8);
    EncodeAllWidth(g.solVolumes, EncodeU64, 8);
    var s1 := GLOBAL_VOLUME_TAG + EncodeI64(g.startTime);
    var s2 := s1 + EncodeI64(g.endTime);
    var s3 := s2 + EncodeI64(g.secondsInADay);
    var s4 := s3 + g.mint;
    var s5 := s4 + EncodeAll(g.totalTokenSupply, EncodeU64);
    AtConcat(data, 0, GLOBAL_VOLUME_TAG, EncodeI64(g.startTime));
    AtConcat(data, 0, s1, EncodeI64(g.endTime));
    AtConcat(data, 0, s2, EncodeI64(g.secondsInADay));
    AtConcat(data, 0, s3, g.mint);
    AtConcat(data, 0, s4, EncodeAll(g.totalTokenSupply, EncodeU64));
    AtConcat(data, 0, s5, EncodeAll(g.solVolumes, EncodeU64));
    AtStart(data, EncodeGlobalVolume(g));
  }

  lemma U64EncodingInjective()
    ensures FixedWidth(EncodeU64, 8) && Injective(EncodeU64)
  {
    forall a: u64, b: u64 | EncodeU64(a) == EncodeU64(b)
      ensures a == b
    {
      Widths();
      LeInjective(a, b, 8);
    }
  }

  lemma GlobalVolumeUnique(data: seq<byte>, a: GlobalVolume, b: GlobalVolume)
    requires GlobalVolumeAt(data, a) && GlobalVolumeAt(data, b)
    ensures a == b
  {
    GlobalVolumeLayout(data, a);
    GlobalVolumeLayout(data, b);
    I64Unique(data, 8, a.startTime, b.startTime);
    I64Unique(data, 16, a.endTime, b.endTime);
    I64Unique(data, 24, a.secondsInADay, b.secondsInADay);
    U64EncodingInjective();
    EncodeAllInjective(a.totalTokenSupply, b.totalTokenSupply, EncodeU64, 8);
    EncodeAllInjective(a.solVolumes, b.solVolumes, EncodeU64, 8);
  }

  method ReadGlobalVolume(data: seq<byte>) returns (r: Result<GlobalVolume, DecodeError>)
    ensures r.Ok? ==> GlobalVolumeAt(data, r.value)
    ensures r.Err? ==> forall g :: !GlobalVolumeAt(data, g)
  {
    forall g | GlobalVolumeAt(data, g)
      ensures |data| >= 544
    {
      GlobalVolumeLayout(data, g);
    }
    var opening := Reader.AfterDiscriminator(data, GLOBAL_VOLUME_TAG);
    if opening.Err? { return Err(opening.error); }
    var reader := opening.value;
    var startTime := reader.I64();
    if startTime.Err? { return Err(startTime.error); }
    var endTime := reader.I64();
    if endTime.Err? { return Err(endTime.error); }
    var secondsInADay := reader.I64();
    if secondsInADay.Err? { return Err(secondsInADay.error); }
    var mint := reader.Key();
    if mint.Err? { return Err(mint.error); }
    var totalTokenSupply := reader.U64Array(VOLUME_ACCUMULATOR_DAYS);
    if totalTokenSupply.Err? { return Err(totalTokenSupply.error); }
    var solVolumes := reader.U64Array(VOLUME_ACCUMULATOR_DAYS);
    if solVolumes.Err? { return Err(solVolumes.error); }
    r := Ok(GlobalVolume(startTime.value, endTime.value, secondsInADay.value, mint.value, totalTokenSupply.value,
                         solVolumes.value));
  }

  lemma GlobalVolumePrefixFree()
    ensures PrefixFree(EncodeGlobalVolume)
  {
    forall a, b | EncodeGlobalVolume(a) <= EncodeGlobalVolume(b)
      ensures a == b
    {
      GlobalVolumeLayout(EncodeGlobalVolume(b), a);
      GlobalVolumeLayout(EncodeGlobalVolume(b), b);
      GlobalVolumeUnique(EncodeGlobalVolume(b), a, b);
    }
  }

  /** `GlobalVolumeAccumulator::from_account_data`. */
  method GlobalVolumeFromAccountData(data: seq<byte>) returns (r: Result<GlobalVolume, DecodeError>)
    ensures Inverts(EncodeGlobalVolume, data, r)
  {
    r := ReadGlobalVolume(data);
    forall x: GlobalVolume
      ensures EncodeGlobalVolume(x) <= data <==> GlobalVolumeAt(data, x)
    {
      GlobalVolumeLayout(data, x);
    }
    GlobalVolumePrefixFree();
    FindingInverts(EncodeGlobalVolume, data, r);
  }

  // ---------- Kinds of accounts ----------

  lemma FirstEightBytes(c: FeeConfig, s: SharingConfig, u: UserVolume, g: GlobalVolume)
    ensures EncodeFeeConfig(c)[..8] == [0x8f, 0x34, 0x92, 0xbb, 0xdb, 0x7b, 0x4c, 0x9b]
    ensures EncodeSharingConfig(s)[..8] == [0xd8, 0x4a, 0x09, 0x00, 0x38, 0x8c, 0x5d, 0x4b]
    ensures EncodeUserVolume(u)[..8] == [0x56, 0xff, 0x70, 0x0e, 0x66, 0x35, 0x9a, 0xfa]
    ensures EncodeGlobalVolume(g)[..8] == [0xca, 0x2a, 0xf6, 0x2b, 0x8e, 0xbe, 0x1e, 0xff]
  {
    FeeConfigLayout(EncodeFeeConfig(c), c);
    SharingConfigLayout(EncodeSharingConfig(s), s);
    UserVolumeLayout(EncodeUserVolume(u), u);
    GlobalVolumeLayout(EncodeGlobalVolume(g), g);
  }

  lemma StartOf(encoding: seq<byte>, data: seq<byte>)
    requires |encoding| >= 8
    ensures encoding <= data ==> |data| >= 8 && data[0] == encoding[..8][0]
  {
  }

  /** The encoding of one kind of account is never taken for another kind. */
  lemma KindsAreToldApart(data: seq<byte>, c: FeeConfig, s: SharingConfig, u: UserVolume, g: GlobalVolume)
    ensures EncodeFeeConfig(c) <= data ==>
              !(EncodeSharingConfig(s) <= data) && !(EncodeUserVolume(u) <= data) && !(EncodeGlobalVolume(g) <= data)
    ensures EncodeSharingConfig(s) <= data ==> !(EncodeUserVolume(u) <= data) && !(EncodeGlobalVolume(g) <= data)
    ensures EncodeUserVolume(u) <= data ==> !(EncodeGlobalVolume(g) <= data)
  {
    FirstEightBytes(c, s, u, g);
    StartOf(EncodeFeeConfig(c), data);
    StartOf(EncodeSharingConfig(s), data);
    StartOf(EncodeUserVolume(u), data);
    StartOf(EncodeGlobalVolume(g), data);
  }
}
