/**
The slippage limits of `src/math.rs` in binary64 arithmetic, and exactly when they
accept the amount they were derived from.

A finite value is n / 2^e, and an operation is the exact result rounded. Every exact
result here is a multiple of the spacing of its operands, so rounding in the subnormal
range never occurs, and no product of a 64-bit amount with a factor of at most 2^32
overflows.
*/
module Slippage {
  import opened Arith
  import opened Float64
  import opened MachineInts

  datatype F64 =
    | NaN
    | Infinity(negative: bool)
    | Finite(negative: bool, n: nat, e: nat)

  /** `1.0 - s`. */
  function OneMinus(s: F64): F64 {
    match s
    case NaN => NaN
    case Infinity(negative) => Infinity(!negative)
    case Finite(true, n, e) => Finite(false, Round(Pow2(e) + n), e)
    case Finite(false, n, e) =>
      if n <= Pow2(e) then Finite(false, Round(Pow2(e) - n), e) else Finite(true, Round(n - Pow2(e)), e)
  }

  /** `f.clamp(0.0, 1.0)`, which lets a NaN through. */
  function ClampUnit(f: F64): F64 {
    match f
    case NaN => NaN
    case Infinity(negative) => Finite(false, if negative then 0 else 1, 0)
    case Finite(true, _, e) => Finite(false, 0, e)
    case Finite(false, n, e) => if n <= Pow2(e) then f else Finite(false, 1, 0)
  }

  /** `(1.0 + s.max(0.0)).min(u32::MAX as f64)`, 0xFFFF_FFFF being `u32::MAX`; `max` drops a NaN. */
  function OnePlusAtMostU32(s: F64): F64 {
    match s
    case NaN => Finite(false, 1, 0)
    case Infinity(negative) => Finite(false, if negative then 1 else 0xFFFF_FFFF, 0)
    case Finite(true, _, _) => Finite(false, 1, 0)
    case Finite(false, n, e) =>
      var sum := Round(Pow2(e) + n);
      if sum <= 0xFFFF_FFFF * Pow2(e) then Finite(false, sum, e) else Finite(false, 0xFFFF_FFFF, 0)
  }

  /** floor(x * (m / 2^e)), with the product rounded to binary64 first. */
  function TimesFloor(x: nat, m: nat, e: nat): nat {
    var product := Round(x * m);
    DivMod(product, Pow2(e));
    product / Pow2(e)
  }

  function TimesCeil(x: nat, m: nat, e: nat): nat {
    CeilDiv(Round(x * m), Pow2(e))
  }

  /** `apply_slippage`: scale by one minus the slippage, round down, saturate. */
  function ApplySlippage(amount: u64, slippage: F64): u64 {
    var factor := ClampUnit(OneMinus(slippage));
    if !factor.Finite? then 0 else
    NarrowU64(TimesFloor(Round(amount), factor.n, factor.e))
  }

  /** The spending cap: scale by one plus the slippage, round up, saturate. */
  function RaiseBySlippage(total: u64, slippage: F64): u64 {
    var factor := OnePlusAtMostU32(slippage);
    if !factor.Finite? then 0 else
    NarrowU64(TimesCeil(Round(total), factor.n, factor.e))
  }

  // ---------- Scaling by a factor ----------

  /** A product with a factor of at most one rounds to at most the other operand. */
  lemma ScaledDown(x: nat, m: nat, e: nat)
    requires Round(x) == x && m <= Pow2(e)
    ensures TimesFloor(x, m, e) <= x
    ensures m == Pow2(e) ==> TimesFloor(x, m, e) == x
  {
    MulMono(m, Pow2(e), x);
    RoundMonotone(x * m, x * Pow2(e));
    RoundScale(x, e);
    DivMono(Round(x * m), x * Pow2(e), Pow2(e));
    QuotientUnique(x * Pow2(e), Pow2(e), x, 0);
  }

  lemma ScaledUp(x: nat, m: nat, e: nat)
    requires Round(x) == x && Pow2(e) <= m
    ensures x <= TimesCeil(x, m, e)
    ensures m == Pow2(e) ==> x == TimesCeil(x, m, e)
  {
    MulMono(Pow2(e), m, x);
    RoundMonotone(x * Pow2(e), x * m);
    RoundScale(x, e);
    QuotientUnique(x * Pow2(e), Pow2(e), x, 0);
    CeilMono(x * Pow2(e), Round(x * m), Pow2(e));
  }

  lemma RoundPow2(e: nat)
    ensures Round(Pow2(e)) == Pow2(e)
  {
    RoundExact(1);
    RoundScale(1, e);
  }

  lemma MulOut(x: nat, f: nat, k: nat)
    ensures x * (f * k) == k * (x * f) && x * (k * f) == k * (x * f)
  {
  }

  lemma MulAssoc(a: nat, b: nat, c: nat)
    ensures a * b * c == a * (b * c)
  {
  }

  /** A 2^-53 part short of the upper neighbour of a spacing w is below the middle. */
  lemma ShortOfUpper(y: nat, q: nat, w: nat)
    requires 0x10_0000_0000_0000 <= q && w > 0
    requires 0x20_0000_0000_0000 * y <= 0x1f_ffff_ffff_ffff * ((q + 1) * w)
    ensures 2 * y < (2 * q + 1) * w
  {
    Neighbours(q, w);
    MulMono(0x10_0000_0000_0000, q, w);
  }

  /** A 2^-52 part above the lower neighbour of a spacing w is at least the upper one. */
  lemma PastLower(y: nat, q: nat, w: nat)
    requires 0x10_0000_0000_0000 <= q
    requires 0x10_0000_0000_0001 * (q * w) <= 0x10_0000_0000_0000 * y
    ensures (q + 1) * w <= y
  {
    Neighbours(q, w);
    MulMono(0x10_0000_0000_0000, q, w);
  }

  /** With u, p the spacings of an amount and a factor, and w that of their product: a factor
  a 2^-53 part short of one takes the upper neighbour below the middle. */
  lemma BelowMiddle(x: nat, q: nat, u: nat, f: nat, p: nat, w: nat)
    requires 0x10_0000_0000_0000 <= q && x == (q + 1) * u && w == u * p && w > 0
    requires f * 0x20_0000_0000_0000 <= 0x1f_ffff_ffff_ffff * p
    ensures 2 * (x * f) < (2 * q + 1) * w
  {
    MulMono(f * 0x20_0000_0000_0000, 0x1f_ffff_ffff_ffff * p, x);
    MulOut(x, f, 0x20_0000_0000_0000);
    MulOut(x, p, 0x1f_ffff_ffff_ffff);
    MulAssoc(q + 1, u, p);
    ShortOfUpper(x * f, q, w);
  }

  /** A factor a 2^-52 part above one takes the lower neighbour to the upper one. */
  lemma ReachesUpper(x: nat, q: nat, u: nat, f: nat, p: nat, w: nat)
    requires 0x10_0000_0000_0000 <= q && x == q * u && w == u * p
    requires 0x10_0000_0000_0001 * p <= f * 0x10_0000_0000_0000
    ensures (q + 1) * w <= x * f
  {
    MulMono(0x10_0000_0000_0001 * p, f * 0x10_0000_0000_0000, x);
    MulOut(x, f, 0x10_0000_0000_0000);
    MulOut(x, p, 0x10_0000_0000_0001);
    MulAssoc(q, u, p);
    PastLower(x * f, q, w);
  }

  lemma ProductBelowMiddle(x: nat, q: nat, j: nat, f: nat, e: nat)
    requires 0x10_0000_0000_0000 <= q && x == (q + 1) * Pow2(j) && Round(f) == f && f < Pow2(e)
    ensures 2 * (x * f) < (2 * q + 1) * Pow2(j + e)
  {
    Pow2Add(j, e);
    GapBelow(f, e);
    BelowMiddle(x, q, Pow2(j), f, Pow2(e), Pow2(j + e));
  }

  lemma ProductReachesUpper(x: nat, q: nat, j: nat, f: nat, e: nat)
    requires 0x10_0000_0000_0000 <= q && x == q * Pow2(j) && Round(f) == f && f > Pow2(e)
    ensures (q + 1) * Pow2(j + e) <= x * f
  {
    Pow2Add(j, e);
    GapAbove(f, e);
    ReachesUpper(x, q, Pow2(j), f, Pow2(e), Pow2(j + e));
  }

  /** Times a binary64 factor below one, a neighbour rounds to at most the one below it. */
  lemma ProductRoundsDown(x: nat, q: nat, j: nat, f: nat, e: nat)
    requires 0x10_0000_0000_0000 <= q < 0x20_0000_0000_0000 && x == (q + 1) * Pow2(j)
    requires Round(f) == f && f < Pow2(e)
    ensures Round(x * f) <= q * Pow2(j + e)
  {
    ProductBelowMiddle(x, q, j, f, e);
    RoundsDown(x * f, q, j + e);
  }

  /** Times a binary64 factor above one, a neighbour rounds to at least the one above it. */
  lemma ProductRoundsUp(x: nat, q: nat, j: nat, f: nat, e: nat)
    requires 0x10_0000_0000_0000 <= q < 0x20_0000_0000_0000 && x == q * Pow2(j)
    requires Round(f) == f && f > Pow2(e)
    ensures Round(x * f) >= (q + 1) * Pow2(j + e)
  {
    ProductReachesUpper(x, q, j, f, e);
    RoundMonotone((q + 1) * Pow2(j + e), x * f);
    RoundMultiple(q + 1, j + e);
  }

  /** Dividing a spacing out of a bound. */
  lemma QuotientOfBound(r: nat, q: nat, j: nat, e: nat)
    ensures r <= q * Pow2(j + e) ==> r / Pow2(e) <= q * Pow2(j)
    ensures q * Pow2(j + e) <= r ==> q * Pow2(j) <= CeilDiv(r, Pow2(e))
  {
    Pow2Add(j, e);
    DivideOut(r, q, Pow2(j), Pow2(e));
  }

  lemma DivideOut(r: nat, q: nat, u: nat, p: nat)
    requires p > 0
    ensures r <= q * (u * p) ==> r / p <= q * u
    ensures q * (u * p) <= r ==> q * u <= CeilDiv(r, p)
  {
    var b := q * u;
    assert q * (u * p) == b * p;
    Distribute(b, 1, p);
    FloorGalois(b + 1, r, p);
    CeilBounds(r, p);
    if b * p <= r {
      MulCancel(b, CeilDiv(r, p), p);
    }
  }

  /** A binary64 factor below one brings an amount that rounding raised down to it again. */
  lemma LoweredPastGrowth(amount: nat, f: nat, e: nat)
    requires Round(amount) > amount && Round(f) == f && f < Pow2(e)
    ensures TimesFloor(Round(amount), f, e) <= amount
  {
    MovedByRounding(amount);
    var q := amount / Unit(amount);
    ProductRoundsDown(Round(amount), q, Shift(amount), f, e);
    QuotientOfBound(Round(Round(amount) * f), q, Shift(amount), e);
  }

  /** A binary64 factor above one brings an amount that rounding lowered back up to it. */
  lemma RaisedPastLoss(total: nat, f: nat, e: nat)
    requires Round(total) < total && Round(f) == f && f > Pow2(e)
    ensures total <= TimesCeil(Round(total), f, e)
  {
    MovedByRounding(total);
    var q := total / Unit(total);
    ProductRoundsUp(Round(total), q, Shift(total), f, e);
    QuotientOfBound(Round(Round(total) * f), q + 1, Shift(total), e);
  }

  // ---------- Slippage too small to count ----------

  /** One minus the slippage is 1 in binary64: at most 2^-54, negative values included. */
  predicate TooSmallToLower(s: F64) {
    match s
    case NaN => false
    case Infinity(negative) => negative
    case Finite(negative, n, e) => negative || n * 0x40_0000_0000_0000 <= Pow2(e)
  }

  /** One plus the slippage is 1 in binary64: at most 2^-53, not a number, or negative. */
  predicate TooSmallToRaise(s: F64) {
    match s
    case NaN => true
    case Infinity(negative) => negative
    case Finite(negative, n, e) => negative || n * 0x20_0000_0000_0000 <= Pow2(e)
  }

  /** With p = 2^e: at 2^54 p, where the spacing is 2p, the difference n counts from its middle on. */
  lemma ScaledDifference(y: nat, n: nat, e: nat)
    requires y == 0x40_0000_0000_0000 * Pow2(e) - 0x40_0000_0000_0000 * n
    ensures if n * 0x40_0000_0000_0000 <= Pow2(e) then Round(y) >= 0x40_0000_0000_0000 * Pow2(e)
            else Round(y) < 0x40_0000_0000_0000 * Pow2(e)
  {
    var p := Pow2(e + 1);
    assert p == 2 * Pow2(e);
    if n * 0x40_0000_0000_0000 <= Pow2(e) {
      RoundsUp(y, 0x1f_ffff_ffff_ffff, e + 1);
    } else {
      RoundsDown(y, 0x1f_ffff_ffff_ffff, e + 1);
    }
  }

  /** At 2^53 p, where the spacing is 2p, the sum n counts only past its middle. */
  lemma ScaledSum(y: nat, n: nat, e: nat)
    requires y == 0x20_0000_0000_0000 * Pow2(e) + 0x20_0000_0000_0000 * n
    ensures if n * 0x20_0000_0000_0000 <= Pow2(e) then Round(y) <= 0x20_0000_0000_0000 * Pow2(e)
            else Round(y) > 0x20_0000_0000_0000 * Pow2(e)
  {
    var p := Pow2(e + 1);
    assert p == 2 * Pow2(e);
    if n * 0x20_0000_0000_0000 <= Pow2(e) {
      RoundsDown(y, 0x10_0000_0000_0000, e + 1);
    } else {
      RoundsUp(y, 0x10_0000_0000_0000, e + 1);
    }
  }

  /** `1 - n / 2^e` rounds up to 1 exactly for n / 2^e <= 2^-54. */
  lemma OneMinusIsOneIff(n: nat, e: nat)
    requires n <= Pow2(e)
    ensures Round(Pow2(e) - n) <= Pow2(e)
    ensures Round(Pow2(e) - n) == Pow2(e) <==> n * 0x40_0000_0000_0000 <= Pow2(e)
  {
    RoundPow2(e);
    RoundMonotone(Pow2(e) - n, Pow2(e));
    RoundScaleByConstants(Pow2(e) - n);
    ScaledDifference((Pow2(e) - n) * 0x40_0000_0000_0000, n, e);
  }

  /** `1 + n / 2^e` rounds down to 1 exactly for n / 2^e <= 2^-53. */
  lemma OnePlusIsOneIff(n: nat, e: nat)
    ensures Round(Pow2(e) + n) >= Pow2(e)
    ensures Round(Pow2(e) + n) == Pow2(e) <==> n * 0x20_0000_0000_0000 <= Pow2(e)
  {
    RoundPow2(e);
    RoundMonotone(Pow2(e), Pow2(e) + n);
    RoundScaleByConstants(Pow2(e) + n);
    ScaledSum((Pow2(e) + n) * 0x20_0000_0000_0000, n, e);
  }

  /** The factor of the floor is a binary64 value of at most one, and one exactly for slippage too small. */
  lemma FloorFactor(s: F64)
    ensures var f := ClampUnit(OneMinus(s));
            && (f.NaN? <==> s.NaN?)
            && (f.Finite? || f.NaN?)
            && (f.Finite? ==> f.n <= Pow2(f.e) && Round(f.n) == f.n && (f.n == Pow2(f.e) <==> TooSmallToLower(s)))
  {
    RoundExact(0);
    RoundExact(1);
    assert Pow2(0) == 1;
    match s
    case NaN =>
    case Infinity(_) =>
    case Finite(negative, n, e) =>
      if negative {
        RoundPow2(e);
        RoundMonotone(Pow2(e), Pow2(e) + n);
        RoundIdempotent(Pow2(e) + n);
      } else if n <= Pow2(e) {
        OneMinusIsOneIff(n, e);
        RoundIdempotent(Pow2(e) - n);
      }
  }

  /** The factor of the cap is a binary64 value of at least one, and one exactly for slippage too small. */
  lemma CapFactor(s: F64)
    ensures var f := OnePlusAtMostU32(s);
            f.Finite? && Pow2(f.e) <= f.n && Round(f.n) == f.n && (f.n == Pow2(f.e) <==> TooSmallToRaise(s))
  {
    RoundExact(1);
    RoundExact(0xFFFF_FFFF);
    assert Pow2(0) == 1;
    if s.Finite? && !s.negative {
      OnePlusIsOneIff(s.n, s.e);
      RoundIdempotent(Pow2(s.e) + s.n);
    }
  }

  // ---------- The limits ----------

  /** With slippage too small to count, the floor is the amount as a binary64 value; it is never above. */
  lemma FloorBelowRounded(amount: u64, slippage: F64)
    ensures ApplySlippage(amount, slippage) <= NarrowU64(Round(amount))
    ensures TooSmallToLower(slippage) ==> ApplySlippage(amount, slippage) == NarrowU64(Round(amount))
  {
    FloorFactor(slippage);
    var factor := ClampUnit(OneMinus(slippage));
    if factor.Finite? {
      RoundIdempotent(amount);
      ScaledDown(Round(amount), factor.n, factor.e);
    }
  }

  lemma CapAboveRounded(total: u64, slippage: F64)
    ensures RaiseBySlippage(total, slippage) >= NarrowU64(Round(total))
    ensures TooSmallToRaise(slippage) ==> RaiseBySlippage(total, slippage) == NarrowU64(Round(total))
  {
    CapFactor(slippage);
    var factor := OnePlusAtMostU32(slippage);
    RoundIdempotent(total);
    ScaledUp(Round(total), factor.n, factor.e);
  }

  /**
  A minimum above its own fill makes the swap revert. That happens exactly when the
  slippage is too small to count and the fill, as a binary64 value, has grown.
  */
  lemma FloorIsSafeIff(amount: u64, slippage: F64)
    ensures ApplySlippage(amount, slippage) <= amount
       <==> (TooSmallToLower(slippage) ==> NarrowU64(Round(amount)) <= amount)
  {
    FloorBelowRounded(amount, slippage);
    FloorFactor(slippage);
    var factor := ClampUnit(OneMinus(slippage));
    if factor.Finite? && !TooSmallToLower(slippage) && Round(amount) > amount {
      LoweredPastGrowth(amount, factor.n, factor.e);
    }
  }

  /** A cap below its own total: exactly for slippage too small to count and a total that shrank. */
  lemma CapIsSafeIff(total: u64, slippage: F64)
    ensures RaiseBySlippage(total, slippage) >= total
       <==> (TooSmallToRaise(slippage) ==> NarrowU64(Round(total)) >= total)
  {
    CapAboveRounded(total, slippage);
    CapFactor(slippage);
    var factor := OnePlusAtMostU32(slippage);
    if !TooSmallToRaise(slippage) && Round(total) < total {
      RaisedPastLoss(total, factor.n, factor.e);
    }
  }

  /** 2^63 + 3072 = (2^53 + 3) * 2^10 is a tie with an odd quotient, and gains the full 1024. */
  lemma FloorExceedsFillByFullError(slippage: F64)
    requires TooSmallToLower(slippage)
    ensures ApplySlippage(0x8000_0000_0000_0C00, slippage) == 0x8000_0000_0000_0C00 + 1024
  {
    TieRoundsUp();
    Pow2Ten();
    RoundScale(0x20_0000_0000_0000 + 3, 10);
    FloorBelowRounded(0x8000_0000_0000_0C00, slippage);
  }

  /** 2^63 + 1024 = (2^53 + 1) * 2^10 is a tie with an even quotient, and loses the full 1024. */
  lemma CapFallsShortByFullError(slippage: F64)
    requires TooSmallToRaise(slippage)
    ensures RaiseBySlippage(0x8000_0000_0000_0400, slippage) == 0x8000_0000_0000_0400 - 1024
  {
    TieRoundsDown();
    Pow2Ten();
    RoundScale(0x20_0000_0000_0000 + 1, 10);
    CapAboveRounded(0x8000_0000_0000_0400, slippage);
  }

  lemma TieRoundsDown()
    ensures Round(0x20_0000_0000_0000 + 1) == 0x20_0000_0000_0000
  {
    assert Shift((0x20_0000_0000_0000 + 1) / 2) == 0;
    assert Unit(0x20_0000_0000_0000 + 1) == 2 * Pow2(0);
  }

  lemma TieRoundsUp()
    ensures Round(0x20_0000_0000_0000 + 3) == 0x20_0000_0000_0000 + 4
  {
    assert Shift((0x20_0000_0000_0000 + 3) / 2) == 0;
    assert Unit(0x20_0000_0000_0000 + 3) == 2 * Pow2(0);
  }

  // ---------- How close the limits are to the exact products ----------

  /**
  With p = 2^e: `minimum` is `amount * (p - n) / p` rounded down, up to the rounding of
  the floating-point steps. There is none while `amount * p` is at most 2^53; up to 2^53
  the minimum is less than two below and at most one above; beyond, a 2^-51 part of the
  amount comes on top of the rounding down.
  */
  ghost predicate IsFloorOf(minimum: nat, amount: nat, n: nat, p: nat)
    requires n <= p
  {
    var exact := amount * (p - n);
    && (amount * p <= 0x20_0000_0000_0000 ==> minimum * p <= exact < minimum * p + p)
    && (amount <= 0x20_0000_0000_0000 ==> exact - 2 * p < minimum * p <= exact + p)
    && 0x8_0000_0000_0000 * (minimum * p - exact) <= amount * p
    && 0x8_0000_0000_0000 * (exact - minimum * p - p) < amount * p
  }

  lemma MulWithin(m: nat, d: int, b: nat)
    requires Within(d, b)
    ensures 0 <= m * b && Within(m * d, m * b)
  {
    assert 0 <= m * (b - d) && 0 <= m * (b + d);
  }

  lemma MulBoth(a: nat, b: nat, c: nat, d: nat)
    requires a <= b && c <= d
    ensures 0 <= a * c <= b * d
  {
    MulMono(a, b, c);
    MulMono(c, d, b);
  }

  /** Where the product of two rounded factors lies from that of the exact ones. */
  lemma ProductSplit(x: int, f: int, a: int, y: int)
    ensures x * f - a * y == x * (f - y) + y * (x - a)
  {
  }

  /** The same with multiples of the two errors, for literal multiples of the caller. */
  lemma ScaledErrors(x: nat, f: nat, a: nat, y: nat, df: int, da: int, k: nat, l: nat)
    requires df == k * (f - y) && da == l * (x - a)
    ensures x * df == k * (x * (f - y)) && y * da == l * (y * (x - a))
  {
  }

  /** The three roundings of a minimum past 2^53. */
  lemma FloorErrors(a: nat, x: nat, y: nat, f: nat, xf: nat, p: nat, product: nat)
    requires xf == x * f && y <= p && f <= p
    requires Within(0x20_0000_0000_0000 * (x - a), a)
    requires Within(0x40_0000_0000_0000 * (f - y), p)
    requires Within(0x20_0000_0000_0000 * (product - xf), xf)
    ensures Within(0x8_0000_0000_0000 * (product - a * y), a * p)
  {
    ProductSplit(x, f, a, y);
    MulWithin(x, 0x40_0000_0000_0000 * (f - y), p);
    MulWithin(y, 0x20_0000_0000_0000 * (x - a), a);
    ScaledErrors(x, f, a, y, 0x40_0000_0000_0000 * (f - y), 0x20_0000_0000_0000 * (x - a),
                 0x40_0000_0000_0000, 0x20_0000_0000_0000);
    MulMono(f, p, x);
    MulMono(y, p, a);
    MulMono(x, 2 * a, p);
    TwiceTimes(a, p);
  }

  /** The two roundings of a minimum up to 2^53. */
  lemma FloorErrorsSmall(a: nat, y: nat, f: nat, af: nat, p: nat, product: nat)
    requires a <= 0x20_0000_0000_0000 && af == a * f
    requires Within(0x40_0000_0000_0000 * (f - y), p)
    requires Within(2 * (product - af), p)
    ensures Within(product - a * y, p)
  {
    ProductSplit(a, f, a, y);
    MulWithin(a, 0x40_0000_0000_0000 * (f - y), p);
    ScaledErrors(a, f, a, y, 0x40_0000_0000_0000 * (f - y), 0, 0x40_0000_0000_0000, 0);
    MulMono(a, 0x20_0000_0000_0000, p);
  }

  lemma NoRoundingInProduct(a: nat, y: nat, p: nat)
    requires y <= p && a * p <= 0x20_0000_0000_0000 && p > 0
    ensures Round(Round(a) * Round(y)) == a * y
  {
    RoundExact(0);
    if a > 0 {
      MulMono(1, a, p);
      MulMono(1, p, a);
      MulMono(y, p, a);
      RoundExact(a);
      RoundExact(y);
      RoundExact(a * y);
    }
  }

  lemma FloorOf(a: u64, y: nat, p: nat, product: nat, t: nat)
    requires y <= p && p > 0 && t * p <= product < t * p + p
    requires Within(0x8_0000_0000_0000 * (product - a * y), a * p)
    requires a <= 0x20_0000_0000_0000 ==> Within(product - a * y, p)
    requires a * p <= 0x20_0000_0000_0000 ==> product == a * y
    ensures IsFloorOf(NarrowU64(t), a, p - y, p)
  {
    if U64_MAX < t {
      CutAbove(a, y, p, t);
    }
  }

  /** Cutting a quotient to 64 bits leaves it above what a 64-bit amount needs. */
  lemma CutAbove(a: u64, y: nat, p: nat, t: nat)
    requires U64_MAX < t && y <= p
    ensures a * y <= a * p <= U64_MAX * p && U64_MAX * p + p <= t * p
  {
    MulMono(a, U64_MAX, p);
    MulMono(y, p, a);
    MulMono(U64_MAX + 1, t, p);
    Distribute(U64_MAX, 1, p);
  }

  lemma FloorBracket(x: nat, m: nat, e: nat)
    ensures TimesFloor(x, m, e) * Pow2(e) <= Round(x * m) < TimesFloor(x, m, e) * Pow2(e) + Pow2(e)
  {
    DivMod(Round(x * m), Pow2(e));
  }

  lemma MinimumIsThatProduct(amount: u64, n: nat, e: nat)
    requires n <= Pow2(e)
    ensures ApplySlippage(amount, Finite(false, n, e))
         == NarrowU64(TimesFloor(Round(amount), Round(Pow2(e) - n), e))
    ensures Round(Pow2(e) - n) <= Pow2(e)
  {
    OneMinusIsOneIff(n, e);
    var factor := OneMinus(Finite(false, n, e));
    assert factor == Finite(false, Round(Pow2(e) - n), e);
    assert ClampUnit(factor) == factor;
  }

  lemma FloorProductSmall(a: nat, y: nat, f: nat, af: nat, e: nat)
    requires a <= 0x20_0000_0000_0000 && y <= Pow2(e) && f == Round(y) && f <= Pow2(e)
    ensures af == a * f ==> Within(Round(af) - a * y, Pow2(e))
  {
    if af == a * f {
      MulBoth(a, 0x20_0000_0000_0000, f, Pow2(e));
      RoundAbsolute(af, e);
      RoundUpToOne(y, e);
      FloorErrorsSmall(a, y, f, af, Pow2(e), Round(af));
    }
  }

  lemma FloorProductLarge(a: nat, x: nat, y: nat, f: nat, xf: nat, e: nat, bound: nat)
    requires x == Round(a) && y <= Pow2(e) && f == Round(y) && f <= Pow2(e) && xf == x * f && bound == a * Pow2(e)
    ensures Within(0x8_0000_0000_0000 * (Round(xf) - a * y), bound)
  {
    RoundRelative(a);
    RoundRelative(xf);
    RoundUpToOne(y, e);
    FloorErrors(a, x, y, f, xf, Pow2(e), Round(xf));
  }

  /** For a slippage below one the minimum is the exact product rounded down, up to those roundings. */
  lemma FloorTracksExact(amount: u64, n: nat, e: nat)
    requires n <= Pow2(e)
    ensures IsFloorOf(ApplySlippage(amount, Finite(false, n, e)), amount, n, Pow2(e))
  {
    var y: nat := Pow2(e) - n;
    var x, f := Round(amount), Round(y);
    MinimumIsThatProduct(amount, n, e);
    MulMono(0, x, f);
    MulMono(0, amount, Pow2(e));
    FloorProductLarge(amount, x, y, f, x * f, e, amount * Pow2(e));
    if amount <= 0x20_0000_0000_0000 {
      RoundExact(amount);
      FloorProductSmall(amount, y, f, x * f, e);
    }
    if amount * Pow2(e) <= 0x20_0000_0000_0000 {
      NoRoundingInProduct(amount, y, Pow2(e));
    }
    FloorBracket(x, f, e);
    FloorOf(amount, y, Pow2(e), Round(x * f), TimesFloor(x, f, e));
  }

  lemma MinimumGone(amount: u64, slippage: F64)
    ensures slippage.NaN? || (!slippage.negative && (slippage.Finite? ==> Pow2(slippage.e) <= slippage.n)) ==>
              ApplySlippage(amount, slippage) == 0
  {
    RoundExact(0);
    match slippage
    case Finite(false, n, e) =>
      if Pow2(e) <= n {
        var factor := ClampUnit(OneMinus(slippage));
        assert factor.n == 0;
        assert Round(amount) * 0 == 0;
        QuotientUnique(0, Pow2(factor.e), 0, 0);
      }
    case Infinity(false) =>
      assert Round(amount) * 0 == 0;
    case _ =>
  }

  /**
  The minimum of an amount at every slippage: that product below one, nothing from one on
  or when the slippage is not a number, and the amount as a binary64 value when it is
  negative.
  */
  ghost predicate IsMinimumOf(minimum: u64, amount: u64, slippage: F64) {
    match slippage
    case NaN => minimum == 0
    case Infinity(negative) => minimum == if negative then Min(Round(amount), U64_MAX) else 0
    case Finite(true, _, _) => minimum == Min(Round(amount), U64_MAX)
    case Finite(false, n, e) =>
      if n < Pow2(e) then IsFloorOf(minimum, amount, n, Pow2(e)) else minimum == 0
  }

  lemma MinimumAtEverySlippage(amount: u64, slippage: F64)
    ensures IsMinimumOf(ApplySlippage(amount, slippage), amount, slippage)
  {
    FloorBelowRounded(amount, slippage);
    MinimumGone(amount, slippage);
    match slippage
    case Finite(false, n, e) =>
      if n < Pow2(e) {
        FloorTracksExact(amount, n, e);
      }
    case _ =>
  }

  /**
  With p = 2^e: `cap` is `total * num / p` rounded up and cut to 64 bits, up to the rounding
  of the floating-point steps. There is none while the product is at most 2^53; for totals
  up to 2^53 and factors up to two the cap is at most two below and less than three above;
  beyond, a 2^-51 part of the product comes on top of the rounding up.
  */
  ghost predicate IsCeilOf(cap: nat, total: nat, num: nat, p: nat) {
    var exact := total * num;
    && (exact <= 0x20_0000_0000_0000 ==> cap * p - p < exact <= cap * p)
    && (total <= 0x20_0000_0000_0000 && num <= 2 * p ==> exact - 2 * p <= cap * p < exact + 3 * p)
    && (cap < U64_MAX ==> 0x8_0000_0000_0000 * (exact - cap * p) <= exact)
    && 0x8_0000_0000_0000 * (cap * p - p - exact) < exact
  }

  /** The three roundings of a cap. */
  lemma CapErrors(a: nat, x: nat, y: nat, f: nat, xf: nat, product: nat)
    requires xf == x * f
    requires Within(0x20_0000_0000_0000 * (x - a), a)
    requires Within(0x20_0000_0000_0000 * (f - y), y)
    requires Within(0x20_0000_0000_0000 * (product - xf), xf)
    ensures Within(0x8_0000_0000_0000 * (product - a * y), a * y)
  {
    ProductSplit(x, f, a, y);
    MulWithin(x, 0x20_0000_0000_0000 * (f - y), y);
    MulWithin(y, 0x20_0000_0000_0000 * (x - a), a);
    ScaledErrors(x, f, a, y, 0x20_0000_0000_0000 * (f - y), 0x20_0000_0000_0000 * (x - a),
                 0x20_0000_0000_0000, 0x20_0000_0000_0000);
    NineEighths(a, x, y, f);
  }

  lemma NineEighths(a: nat, x: nat, y: nat, f: nat)
    requires 8 * x <= 9 * a && 8 * f <= 9 * y
    ensures 8 * (x * y) <= 9 * (a * y) && 64 * (x * f) <= 81 * (a * y)
  {
    MulMono(8 * x, 9 * a, y);
    MulMono(8 * f, 9 * y, x);
    assert 8 * x * y == 8 * (x * y) && 9 * a * y == 9 * (a * y);
    assert x * (8 * f) == 8 * (x * f) && x * (9 * y) == 9 * (x * y);
  }

  /** The two roundings of a cap up to 2^53 at a factor up to two. */
  lemma CapErrorsSmall(a: nat, y: nat, f: nat, af: nat, p: nat, product: nat)
    requires a <= 0x20_0000_0000_0000 && af == a * f
    requires Within(0x20_0000_0000_0000 * (f - y), p)
    requires Within(2 * (product - af), 2 * p)
    ensures Within(product - a * y, 2 * p)
  {
    ProductSplit(a, f, a, y);
    MulWithin(a, 0x20_0000_0000_0000 * (f - y), p);
    ScaledErrors(a, f, a, y, 0x20_0000_0000_0000 * (f - y), 0, 0x20_0000_0000_0000, 0);
    MulMono(a, 0x20_0000_0000_0000, p);
  }

  lemma CeilOf(a: u64, y: nat, p: nat, product: nat, t: nat)
    requires p > 0 && t * p - p < product <= t * p
    requires Within(0x8_0000_0000_0000 * (product - a * y), a * y)
    requires a <= 0x20_0000_0000_0000 && y <= 2 * p ==> Within(product - a * y, 2 * p)
    requires a * y <= 0x20_0000_0000_0000 ==> product == a * y
    ensures IsCeilOf(NarrowU64(t), a, y, p)
  {
    if U64_MAX < t {
      MulMono(U64_MAX, t, p);
      SmallIsNotCut(a, y, p, product, t);
    }
  }

  /** What reaches past 64 bits is neither a short product nor that of a small total and factor. */
  lemma SmallIsNotCut(a: u64, y: nat, p: nat, product: nat, t: nat)
    requires p > 0 && t * p - p < product && U64_MAX < t
    ensures product > 0x20_0000_0000_0000
    ensures a <= 0x20_0000_0000_0000 && y <= 2 * p ==> product > a * y + 2 * p
  {
    MulMono(U64_MAX + 1, t, p);
    assert (U64_MAX + 1) * p == 0x1_0000_0000_0000_0000 * p;
    if a <= 0x20_0000_0000_0000 && y <= 2 * p {
      MulBoth(a, 0x20_0000_0000_0000, y, 2 * p);
    }
  }

  lemma CeilBracket(x: nat, m: nat, e: nat)
    ensures TimesCeil(x, m, e) * Pow2(e) - Pow2(e) < Round(x * m) <= TimesCeil(x, m, e) * Pow2(e)
  {
    var t := TimesCeil(x, m, e);
    CeilBounds(Round(x * m), Pow2(e));
    if t > 0 {
      Distribute(t - 1, 1, Pow2(e));
    }
  }

  /** The factor of the cap over 2^e, which is the exact one rounded. */
  ghost function CapNumerator(n: nat, e: nat): nat {
    if Round(Pow2(e) + n) <= 0xFFFF_FFFF * Pow2(e) then Round(Pow2(e) + n) else 0xFFFF_FFFF * Pow2(e)
  }

  /** A factor written with another exponent gives the same product. */
  lemma SameFactor(x: nat, m: nat, e: nat)
    ensures TimesCeil(x, m * Pow2(e), e) == TimesCeil(x, m, 0)
  {
    var r := Round(x * m);
    MulAssoc(x, m, Pow2(e));
    RoundScale(x * m, e);
    QuotientUnique(r * Pow2(e), Pow2(e), r, 0);
    assert Pow2(0) == 1;
    QuotientUnique(r, 1, r, 0);
  }

  lemma CapIsThatProduct(total: u64, n: nat, e: nat)
    ensures RaiseBySlippage(total, Finite(false, n, e))
         == NarrowU64(TimesCeil(Round(total), CapNumerator(n, e), e))
  {
    SameFactor(Round(total), 0xFFFF_FFFF, e);
  }

  /** The exact factor of the cap over 2^e, never above `u32::MAX`. */
  ghost function ExactNumerator(n: nat, e: nat): nat {
    Min(Pow2(e) + n, 0xFFFF_FFFF * Pow2(e))
  }

  lemma CapNumeratorIsRounded(n: nat, e: nat)
    ensures CapNumerator(n, e) == Round(ExactNumerator(n, e))
  {
    RoundMultiple(0xFFFF_FFFF, e);
    if Pow2(e) + n <= 0xFFFF_FFFF * Pow2(e) {
      RoundMonotone(Pow2(e) + n, 0xFFFF_FFFF * Pow2(e));
    } else {
      RoundMonotone(0xFFFF_FFFF * Pow2(e), Pow2(e) + n);
    }
  }

  lemma NoRoundingInCap(a: nat, y: nat)
    requires a * y <= 0x20_0000_0000_0000 && y > 0
    ensures Round(Round(a) * Round(y)) == a * y
  {
    RoundExact(0);
    if a > 0 {
      MulMono(1, a, y);
      MulMono(1, y, a);
      RoundExact(a);
      RoundExact(y);
      RoundExact(a * y);
    }
  }

  lemma CapProductSmall(a: nat, y: nat, f: nat, af: nat, e: nat)
    requires a <= 0x20_0000_0000_0000 && y <= 2 * Pow2(e) && f == Round(y) && af == a * f
    ensures Within(Round(af) - a * y, 2 * Pow2(e))
  {
    var p := Pow2(e);
    assert Pow2(e + 1) == 2 * p;
    RoundMultiple(2, e);
    RoundMonotone(y, 2 * p);
    MulBoth(a, 0x20_0000_0000_0000, f, 2 * p);
    RoundAbsolute(af, e + 1);
    RoundUpToTwo(y, e);
    CapErrorsSmall(a, y, f, af, p, Round(af));
  }

  lemma CapProductLarge(a: nat, x: nat, y: nat, f: nat, xf: nat, exact: nat)
    requires x == Round(a) && f == Round(y) && xf == x * f && exact == a * y
    ensures Within(0x8_0000_0000_0000 * (Round(xf) - exact), exact)
  {
    RoundRelative(a);
    RoundRelative(y);
    RoundRelative(xf);
    CapErrors(a, x, y, f, xf, Round(xf));
  }

  /** For a slippage of zero or more the cap is the exact product rounded up, up to those roundings. */
  lemma CapTracksExact(total: u64, n: nat, e: nat)
    ensures IsCeilOf(RaiseBySlippage(total, Finite(false, n, e)), total, ExactNumerator(n, e), Pow2(e))
  {
    var x, y, f := Round(total), ExactNumerator(n, e), CapNumerator(n, e);
    CapIsThatProduct(total, n, e);
    CapNumeratorIsRounded(n, e);
    MulMono(0, x, f);
    MulMono(0, total, y);
    CapProductLarge(total, x, y, f, x * f, total * y);
    if total <= 0x20_0000_0000_0000 && y <= 2 * Pow2(e) {
      RoundExact(total);
      CapProductSmall(total, y, f, x * f, e);
    }
    if total * y <= 0x20_0000_0000_0000 {
      NoRoundingInCap(total, y);
    }
    CeilBracket(x, f, e);
    CeilOf(total, y, Pow2(e), Round(x * f), TimesCeil(x, f, e));
  }

  /**
  The cap of a total at every slippage: that product from zero on, with `u32::MAX` as the
  largest factor, and the total as a binary64 value when the slippage is negative or not a
  number.
  */
  ghost predicate IsCapOf(cap: u64, total: u64, slippage: F64) {
    match slippage
    case NaN => cap == Min(Round(total), U64_MAX)
    case Infinity(negative) =>
      if negative then cap == Min(Round(total), U64_MAX) else IsCeilOf(cap, total, 0xFFFF_FFFF, 1)
    case Finite(true, _, _) => cap == Min(Round(total), U64_MAX)
    case Finite(false, n, e) =>
      IsCeilOf(cap, total, Min(Pow2(e) + n, 0xFFFF_FFFF * Pow2(e)), Pow2(e))
  }

  lemma CapAtEverySlippage(total: u64, slippage: F64)
    ensures IsCapOf(RaiseBySlippage(total, slippage), total, slippage)
  {
    CapAboveRounded(total, slippage);
    match slippage
    case Infinity(false) =>
      CapTracksExact(total, 0xFFFF_FFFF, 0);
      RoundExact(1 + 0xFFFF_FFFF);
      assert Pow2(0) == 1;
    case Finite(false, n, e) => CapTracksExact(total, n, e);
    case _ =>
  }

  /** The minimum is that of the amount; up to 2^53 it is never above it, and beyond by at most 1024. */
  lemma FloorError(amount: u64, slippage: F64)
    ensures IsMinimumOf(ApplySlippage(amount, slippage), amount, slippage)
    ensures ApplySlippage(amount, slippage) <= amount + (if amount <= 0x20_0000_0000_0000 then 0 else 1024)
    ensures amount <= 0x20_0000_0000_0000 && TooSmallToLower(slippage) ==> ApplySlippage(amount, slippage) == amount
  {
    MinimumAtEverySlippage(amount, slippage);
    FloorBelowRounded(amount, slippage);
    RoundErrorU64(amount);
    if amount <= 0x20_0000_0000_0000 {
      RoundExact(amount);
    }
  }

  /** The cap is that of the total; up to 2^53 it is never below it, and beyond by at most 1024. */
  lemma CapError(total: u64, slippage: F64)
    ensures IsCapOf(RaiseBySlippage(total, slippage), total, slippage)
    ensures RaiseBySlippage(total, slippage) >= total - (if total <= 0x20_0000_0000_0000 then 0 else 1024)
    ensures total <= 0x20_0000_0000_0000 && TooSmallToRaise(slippage) ==> RaiseBySlippage(total, slippage) == total
  {
    CapAtEverySlippage(total, slippage);
    CapAboveRounded(total, slippage);
    RoundErrorU64(total);
    if total <= 0x20_0000_0000_0000 {
      RoundExact(total);
    }
  }
}
