/**
The fee a swap pays: three basis-point components, each rounded up on its own.
*/
module FeeSchedule {
  import opened Arith
  import opened MachineInts

  /** `ceil(amount * bps / 10_000)`, narrowed back to 64 bits. */
  function CeilDivBps(amount: u64, bps: u64): u64 {
    MulBound(amount, bps, U64_MAX);
    var numerator: u128 := amount * bps;
    NarrowU64(CeilDiv(numerator, 10_000))
  }

  datatype Fees = Fees(lp: u64, protocol: u64, creator: u64) {

    function TotalBps(): u64 {
      SaturatingAdd(SaturatingAdd(lp, protocol), creator)
    }

    function FeeOn(amount: u64): u64 {
      SaturatingAdd(
        SaturatingAdd(SaturatingAdd(0, CeilDivBps(amount, lp)), CeilDivBps(amount, protocol)),
        CeilDivBps(amount, creator))
    }

    /** The total rate before it saturates. */
    ghost function Rate(): nat {
      lp + protocol + creator
    }

    /** The fee in unbounded arithmetic. */
    ghost function ExactFee(amount: nat): nat {
      Share(amount, lp) + Share(amount, protocol) + Share(amount, creator)
    }
  }

  /** `bps` of the amount, rounded up. */
  ghost function Share(amount: nat, bps: nat): nat {
    CeilDiv(amount * bps, 10_000)
  }

  /** Saturating at every step is saturating once at the end. */
  lemma FeeOnIsCappedSum(fees: Fees, amount: u64)
    ensures fees.FeeOn(amount) == Min(fees.ExactFee(amount), U64_MAX)
  {
  }

  lemma SharesOfSum(amount: nat, a: nat, b: nat, c: nat)
    ensures Share(amount, a + b + c) <= Share(amount, a) + Share(amount, b) + Share(amount, c)
         <= Share(amount, a + b + c) + 2
  {
    Distribute(a, b, amount);
    Distribute(a + b, c, amount);
    CeilAddUpper(amount * a, amount * b, 10_000);
    CeilAddLower(amount * a, amount * b, 10_000);
    CeilAddUpper(amount * (a + b), amount * c, 10_000);
    CeilAddLower(amount * (a + b), amount * c, 10_000);
  }

  lemma ShareMonotoneInRate(amount: nat, a: nat, b: nat)
    requires a <= b
    ensures Share(amount, a) <= Share(amount, b)
  {
    MulMono(a, b, amount);
    CeilMono(amount * a, amount * b, 10_000);
  }

  /**
  The fee is never below the combined rate rounded up once, whatever saturates; when
  the rate itself does not saturate it is at most two units above.
  */
  lemma FeeOnBounds(fees: Fees, amount: u64)
    ensures Min(Share(amount, fees.TotalBps()), U64_MAX) <= fees.FeeOn(amount)
    ensures fees.Rate() <= U64_MAX ==> fees.FeeOn(amount) <= Share(amount, fees.TotalBps()) + 2
  {
    FeeOnIsCappedSum(fees, amount);
    SharesOfSum(amount, fees.lp, fees.protocol, fees.creator);
    ShareMonotoneInRate(amount, fees.TotalBps(), fees.Rate());
  }

  /** Both ends of the bound are reached. */
  lemma FeeOnBoundsAreSharp()
    ensures var fees := Fees(10, 10, 10); fees.FeeOn(1) == Share(1, fees.TotalBps()) + 2
    ensures var fees := Fees(30, 0, 0); fees.FeeOn(1) == Share(1, fees.TotalBps())
  {
  }

  lemma ShareMonotone(a: nat, b: nat, bps: nat)
    requires a <= b
    ensures Share(a, bps) <= Share(b, bps)
  {
    MulMono(a, b, bps);
    CeilMono(a * bps, b * bps, 10_000);
  }

  lemma ShareSubadditive(a: nat, b: nat, bps: nat)
    ensures Share(a + b, bps) <= Share(a, bps) + Share(b, bps)
  {
    Distribute(a, b, bps);
    CeilAddUpper(a * bps, b * bps, 10_000);
  }

  lemma FeeOnMonotone(fees: Fees, a: u64, b: u64)
    requires a <= b
    ensures fees.FeeOn(a) <= fees.FeeOn(b)
  {
    FeeOnIsCappedSum(fees, a);
    FeeOnIsCappedSum(fees, b);
    ShareMonotone(a, b, fees.lp);
    ShareMonotone(a, b, fees.protocol);
    ShareMonotone(a, b, fees.creator);
  }

  /** From 100% on the fee eats the whole amount. */
  lemma FeeCoversAmount(fees: Fees, amount: u64)
    requires fees.TotalBps() >= 10_000
    ensures fees.FeeOn(amount) >= amount
  {
    FeeOnBounds(fees, amount);
    MulMono(10_000, fees.TotalBps(), amount);
    CeilBounds(amount * fees.TotalBps(), 10_000);
  }

  lemma FeeOnSubadditive(fees: Fees, a: u64, b: u64)
    requires a + b <= U64_MAX
    ensures fees.FeeOn(a + b) <= fees.FeeOn(a) + fees.FeeOn(b)
  {
    FeeOnIsCappedSum(fees, a);
    FeeOnIsCappedSum(fees, b);
    FeeOnIsCappedSum(fees, a + b);
    ShareSubadditive(a, b, fees.lp);
    ShareSubadditive(a, b, fees.protocol);
    ShareSubadditive(a, b, fees.creator);
  }

  lemma ShareAtMostAmount(amount: nat, bps: nat)
    requires bps <= 10_000
    ensures Share(amount, bps) <= amount
  {
    MulMono(bps, 10_000, amount);
    CeilGalois(amount, amount * bps, 10_000);
  }

  /** A schedule of at most 100% takes at most the amount plus two units of rounding. */
  lemma FeeOnAtMostAmountPlusTwo(fees: Fees, amount: u64)
    requires fees.TotalBps() <= 10_000
    ensures fees.FeeOn(amount) <= amount + 2
  {
    FeeOnBounds(fees, amount);
    ShareAtMostAmount(amount, fees.TotalBps());
  }

  /** Under such a schedule the fee grows by at most the growth of the amount, and two. */
  lemma FeeOnGrowth(fees: Fees, a: u64, b: u64)
    requires a <= b && fees.TotalBps() <= 10_000
    ensures fees.FeeOn(b) <= fees.FeeOn(a) + (b - a) + 2
  {
    var growth: u64 := b - a;
    FeeOnSubadditive(fees, a, growth);
    FeeOnAtMostAmountPlusTwo(fees, growth);
  }
}
