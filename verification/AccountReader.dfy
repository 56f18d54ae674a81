/**
The bounds-checked borsh cursor (`src/state.rs`): each of its readers is proved against
an encoder written here. It succeeds exactly when its bytes are there, and what it
returns is what was encoded at the cursor.
*/
module AccountReader {
  import opened Arith
  import opened Bytes
  import opened FeeLadder
  import opened FeeSchedule
  import opened MachineInts

  datatype DecodeError =
    | NoDiscriminator
    | WrongDiscriminator(prefix: seq<byte>)
    | Truncated(need: nat, got: nat)
    | InvalidBool(found: byte)
    | InvalidStatus(found: byte)
    | VectorTooLong(count: nat, remaining: nat)

  // ---------- Encodings ----------

  function EncodeBool(b: bool): seq<byte> {
    [if b then 1 else 0]
  }

  function EncodeU64(v: u64): (bytes: seq<byte>)
    ensures |bytes| == 8
  {
    LeBytes(v, 8)
  }

  function EncodeI64(v: i64): (bytes: seq<byte>)
    ensures |bytes| == 8
  {
    Widths();
    LeSigned(v, 8)
  }

  function EncodeFees(fees: Fees): (bytes: seq<byte>)
    ensures |bytes| == 24
  {
    LeBytes(fees.lp, 8) + LeBytes(fees.protocol, 8) + LeBytes(fees.creator, 8)
  }

  function EncodeTier(tier: FeeTier): (bytes: seq<byte>)
    ensures |bytes| == TIER_LEN
  {
    LeBytes(tier.threshold, 16) + EncodeFees(tier.fees)
  }

  datatype Shareholder = Shareholder(address: Pubkey, shareBps: u16)

  function EncodeShareholder(holder: Shareholder): (bytes: seq<byte>)
    ensures |bytes| == SHAREHOLDER_LEN
  {
    holder.address + LeBytes(holder.shareBps, 2)
  }

  type ShareholderList = holders: seq<Shareholder> | |holders| < 0x1_0000_0000

  const TIER_LEN: nat := 40
  const SHAREHOLDER_LEN: nat := 34

  function EncodeAll<T>(items: seq<T>, encode: T -> seq<byte>): seq<byte> {
    if items == [] then [] else EncodeAll(items[..|items| - 1], encode) + encode(items[|items| - 1])
  }

  /** A borsh `Vec`: 32-bit count, then the elements. */
  function EncodeVec<T>(items: seq<T>, encode: T -> seq<byte>): seq<byte> {
    LeBytes(|items|, 4) + EncodeAll(items, encode)
  }

  ghost predicate FixedWidth<T(!new)>(encode: T -> seq<byte>, width: nat) {
    forall item :: |encode(item)| == width
  }

  ghost predicate Injective<T(!new)>(encode: T -> seq<byte>) {
    forall a, b :: encode(a) == encode(b) ==> a == b
  }

  lemma {:induction false} EncodeAllWidth<T(!new)>(items: seq<T>, encode: T -> seq<byte>, width: nat)
    requires FixedWidth(encode, width)
    ensures |EncodeAll(items, encode)| == |items| * width
  {
    if items != [] {
      EncodeAllWidth(items[..|items| - 1], encode, width);
      Distribute(|items| - 1, 1, width);
    }
  }

  lemma {:induction false} EncodeAllInjective<T(!new)>(
    a: seq<T>, b: seq<T>, encode: T -> seq<byte>, width: nat)
    requires FixedWidth(encode, width) && Injective(encode) && |a| == |b|
    requires EncodeAll(a, encode) == EncodeAll(b, encode)
    ensures a == b
  {
    if a != [] {
      var n := |a| - 1;
      EncodeAllWidth(a[..n], encode, width);
      EncodeAllWidth(b[..n], encode, width);
      var whole := EncodeAll(a, encode);
      assert whole[..|EncodeAll(a[..n], encode)|] == EncodeAll(a[..n], encode);
      assert whole[|EncodeAll(a[..n], encode)|..] == encode(a[n]);
      assert whole[..|EncodeAll(b[..n], encode)|] == EncodeAll(b[..n], encode);
      assert whole[|EncodeAll(b[..n], encode)|..] == encode(b[n]);
      EncodeAllInjective(a[..n], b[..n], encode, width);
      assert a == a[..n] + [a[n]] && b == b[..n] + [b[n]];
    }
  }

  lemma LeInjective(a: nat, b: nat, n: nat)
    requires a < Pow256(n) && b < Pow256(n) && LeBytes(a, n) == LeBytes(b, n)
    ensures a == b
  {
    FromLeOfLeBytes(a, n);
    FromLeOfLeBytes(b, n);
  }

  lemma FeesInjective(a: Fees, b: Fees)
    requires EncodeFees(a) == EncodeFees(b)
    ensures a == b
  {
    Widths();
    var bytes := EncodeFees(a);
    assert bytes[..8] == LeBytes(a.lp, 8) == LeBytes(b.lp, 8);
    assert bytes[8..16] == LeBytes(a.protocol, 8) == LeBytes(b.protocol, 8);
    assert bytes[16..] == LeBytes(a.creator, 8) == LeBytes(b.creator, 8);
    LeInjective(a.lp, b.lp, 8);
    LeInjective(a.protocol, b.protocol, 8);
    LeInjective(a.creator, b.creator, 8);
  }

  lemma TierEncoding()
    ensures FixedWidth(EncodeTier, TIER_LEN) && Injective(EncodeTier)
  {
    forall a, b | EncodeTier(a) == EncodeTier(b)
      ensures a == b
    {
      Widths();
      var bytes := EncodeTier(a);
      assert bytes[..16] == LeBytes(a.threshold, 16) == LeBytes(b.threshold, 16);
      assert bytes[16..] == EncodeFees(a.fees) == EncodeFees(b.fees);
      LeInjective(a.threshold, b.threshold, 16);
      FeesInjective(a.fees, b.fees);
    }
  }

  lemma ShareholderEncoding()
    ensures FixedWidth(EncodeShareholder, SHAREHOLDER_LEN) && Injective(EncodeShareholder)
  {
    forall a, b | EncodeShareholder(a) == EncodeShareholder(b)
      ensures a == b
    {
      Widths();
      var bytes := EncodeShareholder(a);
      assert bytes[..32] == a.address == b.address;
      assert bytes[32..] == LeBytes(a.shareBps, 2) == LeBytes(b.shareBps, 2);
      LeInjective(a.shareBps, b.shareBps, 2);
    }
  }

  // ---------- The vector guard ----------

  /** The count prefix is there and announces no more elements than the rest can hold. */
  ghost predicate GuardPasses(data: seq<byte>, pos: nat, width: nat) {
    pos + 4 <= |data| && pos + 4 + Count(data, pos) * width <= |data|
  }

  ghost function Count(data: seq<byte>, pos: nat): nat
    requires pos + 4 <= |data|
  {
    FromLe(data[pos..pos + 4])
  }

  /** Whatever vector starts at `pos`, the guard lets it through with its own length. */
  lemma GuardIsNecessary<T(!new)>(data: seq<byte>, pos: nat, items: seq<T>, encode: T -> seq<byte>, width: nat)
    requires FixedWidth(encode, width) && |items| < 0x1_0000_0000
    requires At(data, pos, EncodeVec(items, encode))
    ensures GuardPasses(data, pos, width) && Count(data, pos) == |items|
    ensures |EncodeVec(items, encode)| == 4 + |items| * width
  {
    Widths();
    AtConcat(data, pos, LeBytes(|items|, 4), EncodeAll(items, encode));
    AtLe(data, pos, |items|, 4);
    EncodeAllWidth(items, encode, width);
  }

  /** Two vectors starting at the same place are the same vector. */
  lemma VecUnique<T(!new)>(
    data: seq<byte>, pos: nat, a: seq<T>, b: seq<T>, encode: T -> seq<byte>, width: nat)
    requires FixedWidth(encode, width) && Injective(encode)
    requires |a| < 0x1_0000_0000 && |b| < 0x1_0000_0000
    requires At(data, pos, EncodeVec(a, encode)) && At(data, pos, EncodeVec(b, encode))
    ensures a == b
  {
    GuardIsNecessary(data, pos, a, encode, width);
    GuardIsNecessary(data, pos, b, encode, width);
    AtConcat(data, pos, LeBytes(|a|, 4), EncodeAll(a, encode));
    AtConcat(data, pos, LeBytes(|b|, 4), EncodeAll(b, encode));
    EncodeAllInjective(a, b, encode, width);
  }

  /** One more element read behind the others. */
  lemma AtSnoc<T(!new)>(data: seq<byte>, pos: nat, items: seq<T>, item: T, encode: T -> seq<byte>)
    requires At(data, pos, EncodeAll(items, encode))
    requires At(data, pos + |EncodeAll(items, encode)|, encode(item))
    ensures At(data, pos, EncodeAll(items + [item], encode))
  {
    assert (items + [item])[..|items|] == items;
    AtConcat(data, pos, EncodeAll(items, encode), encode(item));
  }

  // ---------- The cursor ----------

  class Reader {
    const data: seq<byte>
    var pos: nat

    ghost predicate Valid()
      reads this
    {
      pos <= |data|
    }

    constructor (data: seq<byte>)
      requires |data| >= 8
      ensures Valid() && this.data == data && pos == 8
    {
      this.data := data;
      pos := 8;
    }

    static method AfterDiscriminator(data: seq<byte>, expected: seq<byte>) returns (r: Result<Reader, DecodeError>)
      requires |expected| == 8
      ensures r.Ok? <==> At(data, 0, expected)
      ensures r.Err? ==> r.error == if |data| < 8 then NoDiscriminator else WrongDiscriminator(data[..8])
      ensures r.Ok? ==> fresh(r.value) && r.value.Valid() && r.value.data == data && r.value.pos == 8
    {
      if |data| < 8 {
        return Err(NoDiscriminator);
      }
      if data[..8] != expected {
        return Err(WrongDiscriminator(data[..8]));
      }
      var reader := new Reader(data);
      r := Ok(reader);
    }

    /** The next `len` bytes; on a short account the cursor stays where it is. */
    method Take(len: nat) returns (r: Result<seq<byte>, DecodeError>)
      requires Valid()
      modifies this
      ensures Valid()
      ensures r == if old(pos) + len <= |data| then Ok(data[old(pos)..old(pos) + len])
                   else Err(Truncated(old(pos) + len, |data|))
      ensures pos == if r.Ok? then old(pos) + len else old(pos)
    {
      var end := pos + len;
      if end > |data| {
        return Err(Truncated(end, |data|));
      }
      r := Ok(data[pos..end]);
      pos := end;
    }

    method U8() returns (r: Result<byte, DecodeError>)
      requires Valid()
      modifies this
      ensures Valid()
      ensures r.Ok? <==> old(pos) + 1 <= |data|
      ensures r.Ok? ==> pos == old(pos) + 1 && At(data, old(pos), [r.value]) && r.value == data[old(pos)]
      ensures r.Err? ==> r.error == Truncated(old(pos) + 1, |data|)
    {
      var taken := Take(1);
      if taken.Err? {
        return Err(taken.error);
      }
      r := Ok(taken.value[0]);
    }

    /** A little-endian integer of n bytes: the u16, u32, u64 and u128 readers. */
    method Le(n: nat) returns (r: Result<nat, DecodeError>)
      requires Valid()
      modifies this
      ensures Valid()
      ensures r.Ok? <==> old(pos) + n <= |data|
      ensures r.Ok? ==> r.value < Pow256(n) && pos == old(pos) + n && At(data, old(pos), LeBytes(r.value, n))
      ensures r.Err? ==> r.error == Truncated(old(pos) + n, |data|)
    {
      var taken := Take(n);
      if taken.Err? {
        return Err(taken.error);
      }
      LeBytesOfFromLe(taken.value);
      r := Ok(FromLe(taken.value));
    }

    method U16() returns (r: Result<u16, DecodeError>)
      requires Valid()
      modifies this
      ensures Valid()
      ensures r.Ok? <==> old(pos) + 2 <= |data|
      ensures r.Ok? ==> pos == old(pos) + 2 && At(data, old(pos), LeBytes(r.value, 2))
    {
      Widths();
      var le := Le(2);
      r := if le.Ok? then Ok(le.value) else Err(le.error);
    }

    method U32() returns (r: Result<u32, DecodeError>)
      requires Valid()
      modifies this
      ensures Valid()
      ensures r.Ok? <==> old(pos) + 4 <= |data|
      ensures r.Ok? ==> pos == old(pos) + 4 && At(data, old(pos), LeBytes(r.value, 4))
      ensures r.Err? ==> r.error == Truncated(old(pos) + 4, |data|)
    {
      Widths();
      var le := Le(4);
      r := if le.Ok? then Ok(le.value) else Err(le.error);
    }

    method U64() returns (r: Result<u64, DecodeError>)
      requires Valid()
      modifies this
      ensures Valid()
      ensures r.Ok? <==> old(pos) + 8 <= |data|
      ensures r.Ok? ==> pos == old(pos) + 8 && At(data, old(pos), LeBytes(r.value, 8))
    {
      Widths();
      var le := Le(8);
      r := if le.Ok? then Ok(le.value) else Err(le.error);
    }

    method U128() returns (r: Result<u128, DecodeError>)
      requires Valid()
      modifies this
      ensures Valid()
      ensures r.Ok? <==> old(pos) + 16 <= |data|
      ensures r.Ok? ==> pos == old(pos) + 16 && At(data, old(pos), LeBytes(r.value, 16))
    {
      Widths();
      var le := Le(16);
      r := if le.Ok? then Ok(le.value) else Err(le.error);
    }

    method I64() returns (r: Result<i64, DecodeError>)
      requires Valid()
      modifies this
      ensures Valid()
      ensures r.Ok? <==> old(pos) + 8 <= |data|
      ensures r.Ok? ==> pos == old(pos) + 8 && At(data, old(pos), EncodeI64(r.value))
    {
      Widths();
      var taken := Take(8);
      if taken.Err? {
        return Err(taken.error);
      }
      SignedOfBytes(taken.value);
      r := Ok(FromLeSigned(taken.value));
    }

    /** One byte, 0 or 1 and nothing else. */
    method Bool() returns (r: Result<bool, DecodeError>)
      requires Valid()
      modifies this
      ensures Valid()
      ensures r.Ok? <==> old(pos) + 1 <= |data| && data[old(pos)] <= 1
      ensures r.Ok? ==> pos == old(pos) + 1 && At(data, old(pos), EncodeBool(r.value))
    {
      var tag := U8();
      match tag {
        case Err(error) => r := Err(error);
        case Ok(value) =>
          r := if value == 0 then Ok(false) else if value == 1 then Ok(true) else Err(InvalidBool(value));
      }
    }

    method Key() returns (r: Result<Pubkey, DecodeError>)
      requires Valid()
      modifies this
      ensures Valid()
      ensures r.Ok? <==> old(pos) + 32 <= |data|
      ensures r.Ok? ==> pos == old(pos) + 32 && At(data, old(pos), r.value)
    {
      var taken := Take(32);
      r := if taken.Ok? then Ok(taken.value) else Err(taken.error);
    }

    /** A fixed array of n 64-bit integers. */
    method U64Array(n: nat) returns (r: Result<seq<u64>, DecodeError>)
      requires Valid()
      modifies this
      ensures Valid()
      ensures r.Ok? <==> old(pos) + n * 8 <= |data|
      ensures r.Ok? ==> |r.value| == n && pos == old(pos) + n * 8
                        && At(data, old(pos), EncodeAll(r.value, EncodeU64))
    {
      var out: seq<u64> := [];
      ghost var start := pos;
      while |out| < n
        invariant Valid() && |out| <= n
        invariant pos == start + |out| * 8
        invariant At(data, start, EncodeAll(out, EncodeU64))
      {
        var slot := U64();
        if slot.Err? {
          return Err(slot.error);
        }
        EncodeAllWidth(out, EncodeU64, 8);
        AtSnoc(data, start, out, slot.value, EncodeU64);
        out := out + [slot.value];
      }
      r := Ok(out);
    }

    method ReadFees() returns (r: Result<Fees, DecodeError>)
      requires Valid()
      modifies this
      ensures Valid()
      ensures r.Ok? <==> old(pos) + 24 <= |data|
      ensures r.Ok? ==> pos == old(pos) + 24 && At(data, old(pos), EncodeFees(r.value))
    {
      ghost var start := pos;
      var lp := U64();
      if lp.Err? { return Err(lp.error); }
      var protocol := U64();
      if protocol.Err? { return Err(protocol.error); }
      var creator := U64();
      if creator.Err? { return Err(creator.error); }
      r := Ok(Fees(lp.value, protocol.value, creator.value));
      AtConcat(data, start, LeBytes(lp.value, 8), LeBytes(protocol.value, 8));
      AtConcat(data, start, LeBytes(lp.value, 8) + LeBytes(protocol.value, 8), LeBytes(creator.value, 8));
    }

    method ReadTier() returns (r: Result<FeeTier, DecodeError>)
      requires Valid()
      modifies this
      ensures Valid()
      ensures r.Ok? <==> old(pos) + TIER_LEN <= |data|
      ensures r.Ok? ==> pos == old(pos) + TIER_LEN && At(data, old(pos), EncodeTier(r.value))
    {
      ghost var start := pos;
      var threshold := U128();
      if threshold.Err? { return Err(threshold.error); }
      var fees := ReadFees();
      if fees.Err? { return Err(fees.error); }
      r := Ok(FeeTier(threshold.value, fees.value));
      AtConcat(data, start, LeBytes(threshold.value, 16), EncodeFees(fees.value));
    }

    method ReadShareholder() returns (r: Result<Shareholder, DecodeError>)
      requires Valid()
      modifies this
      ensures Valid()
      ensures r.Ok? <==> old(pos) + SHAREHOLDER_LEN <= |data|
      ensures r.Ok? ==> pos == old(pos) + SHAREHOLDER_LEN && At(data, old(pos), EncodeShareholder(r.value))
    {
      ghost var start := pos;
      var address := Key();
      if address.Err? { return Err(address.error); }
      var share := U16();
      if share.Err? { return Err(share.error); }
      r := Ok(Shareholder(address.value, share.value));
      AtConcat(data, start, address.value, LeBytes(share.value, 2));
    }

    /** The count of a vector, checked against the bytes that are left. */
    method VecCount(width: nat) returns (r: Result<u32, DecodeError>)
      requires Valid()
      modifies this
      ensures Valid()
      ensures r.Ok? <==> GuardPasses(data, old(pos), width)
      ensures r.Ok? ==> pos == old(pos) + 4 && r.value == Count(data, old(pos))
                        && At(data, old(pos), LeBytes(r.value, 4))
      ensures r.Err? ==> r.error == if old(pos) + 4 > |data| then Truncated(old(pos) + 4, |data|)
                                    else VectorTooLong(Count(data, old(pos)), |data| - old(pos) - 4)
    {
      Widths();
      ghost var start := pos;
      var count := U32();
      if count.Err? {
        return Err(count.error);
      }
      AtLe(data, start, count.value, 4);
      var remaining := |data| - pos;
      if count.value * width > remaining {
        return Err(VectorTooLong(count.value, remaining));
      }
      r := Ok(count.value);
    }

    /** The guard decides: once it passes, every element is there. */
    method Tiers() returns (r: Result<Tiers, DecodeError>)
      requires Valid()
      modifies this
      ensures Valid()
      ensures r.Ok? <==> GuardPasses(data, old(pos), TIER_LEN)
      ensures r.Ok? ==> |r.value| == Count(data, old(pos)) && pos == old(pos) + 4 + |r.value| * TIER_LEN
                        && At(data, old(pos), EncodeVec(r.value, EncodeTier))
    {
      ghost var start := pos;
      var count := VecCount(TIER_LEN);
      if count.Err? {
        return Err(count.error);
      }
      TierEncoding();
      var out: seq<FeeTier> := [];
      while |out| < count.value
        invariant Valid() && |out| <= count.value
        invariant pos == start + 4 + |out| * TIER_LEN
        invariant At(data, start + 4, EncodeAll(out, EncodeTier))
      {
        var tier := ReadTier();
        assert tier.Ok?;  // the guard has seen this element's bytes
        EncodeAllWidth(out, EncodeTier, TIER_LEN);
        AtSnoc(data, start + 4, out, tier.value, EncodeTier);
        out := out + [tier.value];
      }
      AtConcat(data, start, LeBytes(|out|, 4), EncodeAll(out, EncodeTier));
      r := Ok(out);
    }

    method Shareholders() returns (r: Result<ShareholderList, DecodeError>)
      requires Valid()
      modifies this
      ensures Valid()
      ensures r.Ok? <==> GuardPasses(data, old(pos), SHAREHOLDER_LEN)
      ensures r.Ok? ==> |r.value| == Count(data, old(pos)) && pos == old(pos) + 4 + |r.value| * SHAREHOLDER_LEN
                        && At(data, old(pos), EncodeVec(r.value, EncodeShareholder))
    {
      ghost var start := pos;
      var count := VecCount(SHAREHOLDER_LEN);
      if count.Err? {
        return Err(count.error);
      }
      ShareholderEncoding();
      var out: seq<Shareholder> := [];
      while |out| < count.value
        invariant Valid() && |out| <= count.value
        invariant pos == start + 4 + |out| * SHAREHOLDER_LEN
        invariant At(data, start + 4, EncodeAll(out, EncodeShareholder))
      {
        var holder := ReadShareholder();
        assert holder.Ok?;  // the guard has seen this element's bytes
        EncodeAllWidth(out, EncodeShareholder, SHAREHOLDER_LEN);
        AtSnoc(data, start + 4, out, holder.value, EncodeShareholder);
        out := out + [holder.value];
      }
      AtConcat(data, start, LeBytes(|out|, 4), EncodeAll(out, EncodeShareholder));
      r := Ok(out);
    }
  }

}
