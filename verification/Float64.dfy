/**
Rounding to binary64 in integers: to 53 significant bits, to nearest, ties to even
(IEEE 754-2019, section 4.3.1). The exponent is left out: rounding commutes with
powers of two. 2^52 and 2^53 are written as the literals 0x10_0000_0000_0000 and
0x20_0000_0000_0000, because a product with a literal is linear for the verifier.
*/
module Float64 {
  import opened Arith
  import opened MachineInts

  function Pow2(k: nat): (p: nat)
    ensures p > 0
  {
    if k == 0 then 1 else 2 * Pow2(k - 1)
  }

  /** Number of low bits that do not fit in a 53-bit significand. */
  function Shift(n: nat): nat {
    if n < 0x20_0000_0000_0000 then 0 else 1 + Shift(n / 2)
  }

  /** Spacing of the binary64 values around n. */
  function Unit(n: nat): (u: nat)
    ensures u > 0
  {
    Pow2(Shift(n))
  }

  /** The multiple of the unit nearest to n, ties to even. */
  function RoundTo(n: nat, unit: nat): nat
    requires unit > 0
  {
    var q, r := n / unit, n % unit;
    if 2 * r < unit || (2 * r == unit && q % 2 == 0) then q * unit else (q + 1) * unit
  }

  function Round(n: nat): nat {
    RoundTo(n, Unit(n))
  }

  lemma {:induction false} ShiftBounds(n: nat)
    ensures n < 0x20_0000_0000_0000 * Unit(n)
    ensures n >= 0x20_0000_0000_0000 ==> 0x10_0000_0000_0000 * Unit(n) <= n
  {
    if n >= 0x20_0000_0000_0000 {
      ShiftBounds(n / 2);
      assert Unit(n) == 2 * Unit(n / 2);
    }
  }

  lemma {:induction false} ShiftMonotone(a: nat, b: nat)
    requires a <= b
    ensures Shift(a) <= Shift(b)
  {
    if a >= 0x20_0000_0000_0000 {
      ShiftMonotone(a / 2, b / 2);
    }
  }

  lemma Pow2Monotone(j: nat, k: nat)
    requires j <= k
    ensures Pow2(j) <= Pow2(k)
    ensures j < k ==> 2 * Pow2(j) <= Pow2(k)
    decreases k
  {
    if j < k {
      Pow2Monotone(j, k - 1);
    }
  }

  /** A value between two neighbouring multiples of its unit rounds to one of them. */
  lemma RoundBrackets(n: nat)
    ensures var unit := Unit(n); var q := n / unit;
            && q < 0x20_0000_0000_0000
            && q * unit <= n < (q + 1) * unit
            && (Round(n) == q * unit || Round(n) == (q + 1) * unit)
            && 2 * (Round(n) - n) <= unit && 2 * (n - Round(n)) <= unit
  {
    var unit := Unit(n);
    var q := n / unit;
    DivMod(n, unit);
    assert (q + 1) * unit == q * unit + unit;
    ShiftBounds(n);
    MulCancelStrict(q, 0x20_0000_0000_0000, unit);
  }

  lemma RoundExact(n: nat)
    requires n <= 0x20_0000_0000_0000
    ensures Round(n) == n
  {
    if n < 0x20_0000_0000_0000 {
      assert Unit(n) == 1;
    } else {
      assert Shift(n / 2) == 0;
      assert Unit(n) == 2 * Unit(n / 2) == 2;
    }
  }

  lemma RoundDouble(n: nat)
    ensures Round(2 * n) == 2 * Round(n)
  {
    if 2 * n < 0x20_0000_0000_0000 {
      RoundExact(n);
      RoundExact(2 * n);
    } else {
      var unit := Unit(n);
      assert Unit(2 * n) == 2 * unit;
      DivMod(n, unit);
      var q, r := n / unit, n % unit;
      assert 2 * n == q * (2 * unit) + 2 * r;
      QuotientUnique(2 * n, 2 * unit, q, 2 * r);
      assert (q + 1) * (2 * unit) == 2 * ((q + 1) * unit);
      assert q * (2 * unit) == 2 * (q * unit);
    }
  }

  lemma TimesTwice(a: nat, b: nat)
    ensures a * (2 * b) == 2 * (a * b)
  {
  }

  /** Rounding depends on the value only, not on the exponent it is written with. */
  lemma {:induction false} RoundScale(n: nat, k: nat)
    ensures Round(n * Pow2(k)) == Round(n) * Pow2(k)
  {
    if k > 0 {
      var p := Pow2(k - 1);
      RoundScale(n, k - 1);
      RoundDouble(n * p);
      TimesTwice(n, p);
      TimesTwice(Round(n), p);
    }
  }

  /** A significand of up to 2^53 at any exponent is a binary64 value already. */
  lemma RoundMultiple(m: nat, k: nat)
    requires m <= 0x20_0000_0000_0000
    ensures Round(m * Pow2(k)) == m * Pow2(k)
  {
    RoundExact(m);
    RoundScale(m, k);
  }

  lemma RoundToMonotone(a: nat, b: nat, unit: nat)
    requires a <= b && unit > 0
    ensures RoundTo(a, unit) <= RoundTo(b, unit)
  {
    var p, q := a / unit, b / unit;
    DivMod(a, unit);
    DivMod(b, unit);
    DivMono(a, b, unit);
    Distribute(p, 1, unit);
    Distribute(q, 1, unit);
    if p < q {
      MulMono(p + 1, q, unit);
    }
  }

  lemma RoundToAtMost(n: nat, unit: nat, bound: nat)
    requires unit > 0 && n < bound * unit
    ensures RoundTo(n, unit) <= bound * unit
  {
    var q := n / unit;
    FloorGalois(bound, n, unit);
    DivMod(n, unit);
    MulMono(q, bound, unit);
    MulMono(q + 1, bound, unit);
  }

  /** At a finer spacing everything rounds to at most 2^53 units of it. */
  lemma RoundBelow(n: nat)
    ensures Round(n) <= 0x20_0000_0000_0000 * Unit(n)
  {
    ShiftBounds(n);
    RoundToAtMost(n, Unit(n), 0x20_0000_0000_0000);
  }

  /** At a coarser spacing nothing rounds below 2^52 units of it. */
  lemma RoundAbove(n: nat)
    requires n >= 0x20_0000_0000_0000
    ensures 0x10_0000_0000_0000 * Unit(n) <= Round(n)
  {
    RoundBrackets(n);
    ShiftBounds(n);
    FloorGalois(0x10_0000_0000_0000, n, Unit(n));
    MulMono(0x10_0000_0000_0000, n / Unit(n), Unit(n));
  }

  lemma RoundMonotone(a: nat, b: nat)
    requires a <= b
    ensures Round(a) <= Round(b)
  {
    if Shift(a) == Shift(b) {
      RoundToMonotone(a, b, Unit(a));
    } else {
      ShiftMonotone(a, b);
      Pow2Monotone(Shift(a), Shift(b));
      RoundBelow(a);
      RoundAbove(b);
    }
  }

  lemma TwiceTimes(a: nat, b: nat)
    ensures (2 * a) * b == 2 * (a * b)
  {
  }

  lemma {:induction false} Pow2Add(j: nat, k: nat)
    ensures Pow2(j + k) == Pow2(j) * Pow2(k)
  {
    if j > 0 {
      Pow2Add(j - 1, k);
      TwiceTimes(Pow2(j - 1), Pow2(k));
      assert Pow2(j + k) == 2 * Pow2(j - 1 + k);
    }
  }

  lemma Pow2Ten()
    ensures Pow2(10) == 1024
  {
    assert Pow2(4) == 16;
    assert Pow2(8) == 256;
  }

  lemma Pow2OfPrecision()
    ensures Pow2(52) == 0x10_0000_0000_0000 && Pow2(53) == 0x20_0000_0000_0000
  {
    Pow2Ten();
    Pow2Add(10, 10);
    Pow2Add(20, 20);
    Pow2Add(40, 10);
    assert Pow2(52) == 2 * Pow2(51) == 4 * Pow2(50);
    assert Pow2(53) == 2 * Pow2(52);
  }

  /** The binade of a value fixes its spacing. */
  lemma ShiftIs(n: nat, k: nat)
    requires n < 0x20_0000_0000_0000 * Pow2(k)
    requires k > 0 ==> 0x10_0000_0000_0000 * Pow2(k) <= n
    ensures Shift(n) == k
  {
    ShiftBounds(n);
    if Shift(n) < k {
      Pow2Monotone(Shift(n), k);
    } else if k < Shift(n) {
      Pow2Monotone(k, Shift(n));
    }
  }

  /** How a value between two neighbours rounds. */
  lemma RoundBetween(y: nat, q: nat, k: nat)
    requires 0x10_0000_0000_0000 <= q < 0x20_0000_0000_0000
    requires q * Pow2(k) <= y < (q + 1) * Pow2(k)
    ensures Round(y) == var middle := (2 * q + 1) * Pow2(k);
                        if 2 * y < middle || (2 * y == middle && q % 2 == 0) then q * Pow2(k) else (q + 1) * Pow2(k)
  {
    var p := Pow2(k);
    MulMono(0x10_0000_0000_0000, q, p);
    MulMono(q + 1, 0x20_0000_0000_0000, p);
    ShiftIs(y, k);
    Distribute(q, 1, p);
    Distribute(2 * q, 1, p);
    TimesTwice(p, q);
    QuotientUnique(y, p, q, y - q * p);
  }

  /** Up to the middle of two neighbours, a tie at an even one included, nothing rounds above the lower. */
  lemma RoundsDown(y: nat, q: nat, k: nat)
    requires 0x10_0000_0000_0000 <= q < 0x20_0000_0000_0000
    requires 2 * y < (2 * q + 1) * Pow2(k) || (2 * y == (2 * q + 1) * Pow2(k) && q % 2 == 0)
    ensures Round(y) <= q * Pow2(k)
  {
    Neighbours(q, Pow2(k));
    if q * Pow2(k) <= y {
      RoundBetween(y, q, k);
    } else {
      RoundMonotone(y, q * Pow2(k));
      RoundMultiple(q, k);
    }
  }

  /** From the middle on, a tie at an odd neighbour included, nothing rounds below the upper. */
  lemma RoundsUp(y: nat, q: nat, k: nat)
    requires 0x10_0000_0000_0000 <= q < 0x20_0000_0000_0000
    requires 2 * y > (2 * q + 1) * Pow2(k) || (2 * y == (2 * q + 1) * Pow2(k) && q % 2 == 1)
    ensures Round(y) >= (q + 1) * Pow2(k)
  {
    Neighbours(q, Pow2(k));
    if y < (q + 1) * Pow2(k) {
      RoundBetween(y, q, k);
    } else {
      RoundMonotone((q + 1) * Pow2(k), y);
      RoundMultiple(q + 1, k);
    }
  }

  lemma Neighbours(q: nat, p: nat)
    ensures (q + 1) * p == q * p + p && (2 * q + 1) * p == 2 * (q * p) + p
  {
  }

  /** A binary64 value is a multiple of the spacing of its binade. */
  lemma IsMultiple(n: nat, k: nat) returns (q: nat)
    requires Round(n) == n
    requires 0x10_0000_0000_0000 * Pow2(k) <= n < 0x20_0000_0000_0000 * Pow2(k)
    ensures n == q * Pow2(k)
  {
    ShiftIs(n, k);
    RoundBrackets(n);
    q := n / Pow2(k);
  }

  /** No binary64 value lies strictly between the two neighbours of n. */
  lemma NoneBetween(n: nat, m: nat)
    requires Round(m) == m
    ensures m <= n / Unit(n) * Unit(n) || (n / Unit(n) + 1) * Unit(n) <= m
  {
    var u := Unit(n);
    var q := n / u;
    Distribute(q, 1, u);
    if n >= 0x20_0000_0000_0000 && q * u < m < (q + 1) * u {
      RoundBrackets(n);
      ShiftBounds(n);
      FloorGalois(0x10_0000_0000_0000, n, u);
      MulMono(0x10_0000_0000_0000, q, u);
      MulMono(q + 1, 0x20_0000_0000_0000, u);
      var j := IsMultiple(m, Shift(n));
      MulCancelStrict(q, j, u);
      MulCancelStrict(j, q + 1, u);
    }
  }

  function Distance(a: int, b: int): nat {
    if a <= b then b - a else a - b
  }

  /** No binary64 value m is nearer to n than its rounding. */
  lemma RoundIsNearest(n: nat, m: nat)
    requires Round(m) == m
    ensures Distance(Round(n), n) <= Distance(m, n)
  {
    NoneBetween(n, m);
    RoundBrackets(n);
    Distribute(n / Unit(n), 1, Unit(n));
  }

  /** A rounded value is a whole number of units of what it was rounded from. */
  lemma RoundedUnits(n: nat) returns (m: nat)
    ensures m <= 0x20_0000_0000_0000 && Round(n) == m * Pow2(Shift(n))
  {
    RoundBrackets(n);
    m := n / Unit(n);
    if Round(n) != m * Unit(n) {
      m := m + 1;
    }
  }

  lemma RoundIdempotent(n: nat)
    ensures Round(Round(n)) == Round(n)
  {
    var m := RoundedUnits(n);
    RoundMultiple(m, Shift(n));
  }

  /** Where a value that rounding moved lies: past 2^53, between neighbours of full precision. */
  lemma MovedByRounding(n: nat)
    requires Round(n) != n
    ensures var u := Unit(n); var q := n / u;
            && 0x10_0000_0000_0000 <= q < 0x20_0000_0000_0000
            && q * u <= n < (q + 1) * u
            && Round(n) == (if Round(n) < n then q * u else (q + 1) * u)
  {
    if n < 0x20_0000_0000_0000 {
      RoundExact(n);
    }
    RoundBrackets(n);
    ShiftBounds(n);
    FloorGalois(0x10_0000_0000_0000, n, Unit(n));
  }

  /** Below a power of two the next binary64 value is a 2^-53 part away. */
  lemma GapBelow(f: nat, e: nat)
    requires Round(f) == f && f < Pow2(e)
    ensures f * 0x20_0000_0000_0000 <= 0x1f_ffff_ffff_ffff * Pow2(e)
  {
    var scaled := f * 0x20_0000_0000_0000;
    if 0x10_0000_0000_0000 * Pow2(e) <= scaled {
      Pow2OfPrecision();
      RoundScale(f, 53);
      var q := IsMultiple(scaled, e);
      MulCancelStrict(q, 0x20_0000_0000_0000, Pow2(e));
      MulMono(q, 0x1f_ffff_ffff_ffff, Pow2(e));
    }
  }

  /** Above a power of two the next binary64 value is a 2^-52 part away. */
  lemma GapAbove(f: nat, e: nat)
    requires Round(f) == f && f > Pow2(e)
    ensures f * 0x10_0000_0000_0000 >= 0x10_0000_0000_0001 * Pow2(e)
  {
    var scaled := f * 0x10_0000_0000_0000;
    if scaled < 0x20_0000_0000_0000 * Pow2(e) {
      Pow2OfPrecision();
      RoundScale(f, 52);
      var q := IsMultiple(scaled, e);
      MulCancelStrict(0x10_0000_0000_0000, q, Pow2(e));
      MulMono(0x10_0000_0000_0001, q, Pow2(e));
    }
  }

  /** Between 2^11 and 2^12 there is no power of two. */
  lemma Pow2Gap(k: nat)
    ensures Pow2(k) < 4096 ==> Pow2(k) <= 2048
  {
    assert Pow2(11) == 2048 by {
      assert Pow2(4) == 16;
      assert Pow2(8) == 256;
    }
    if k <= 11 {
      Pow2Monotone(k, 11);
    } else {
      Pow2Monotone(12, k);
      assert Pow2(12) == 2 * Pow2(11);
    }
  }

  lemma RoundErrorU64(n: u64)
    ensures -1024 <= Round(n) - n <= 1024
  {
    RoundBrackets(n);
    ShiftBounds(n);
    if n < 0x20_0000_0000_0000 {
      RoundExact(n);
    } else {
      MulCancelStrict(Unit(n), 4096, 0x10_0000_0000_0000);
      Pow2Gap(Shift(n));
    }
  }

  /** Rounding moves a value by at most a 2^-53 part of it. */
  lemma RoundRelative(n: nat)
    ensures Within(0x20_0000_0000_0000 * (Round(n) - n), n)
  {
    if n < 0x20_0000_0000_0000 {
      RoundExact(n);
    } else {
      RoundBrackets(n);
      ShiftBounds(n);
    }
  }

  /** Up to 2^53 spacings rounding moves a value by at most half a spacing. */
  lemma RoundAbsolute(n: nat, k: nat)
    requires n <= 0x20_0000_0000_0000 * Pow2(k)
    ensures Within(2 * (Round(n) - n), Pow2(k))
  {
    if n == 0x20_0000_0000_0000 * Pow2(k) {
      RoundMultiple(0x20_0000_0000_0000, k);
    } else {
      RoundBrackets(n);
      ShiftBounds(n);
      if k < Shift(n) {
        Pow2Monotone(k, Shift(n));
      } else {
        Pow2Monotone(Shift(n), k);
      }
    }
  }

  lemma RoundScaleByConstants(x: nat)
    ensures Round(x * 0x10_0000_0000_0000) == Round(x) * 0x10_0000_0000_0000
    ensures Round(x * 0x20_0000_0000_0000) == Round(x) * 0x20_0000_0000_0000
    ensures Round(x * 0x40_0000_0000_0000) == Round(x) * 0x40_0000_0000_0000
  {
    Pow2OfPrecision();
    assert Pow2(54) == 2 * Pow2(53);
    RoundScale(x, 52);
    RoundScale(x, 53);
    RoundScale(x, 54);
  }

  /** At most a power of two, a value moves by at most a 2^-54 part of that power. */
  lemma RoundUpToOne(n: nat, e: nat)
    requires n <= Pow2(e)
    ensures Within(0x40_0000_0000_0000 * (Round(n) - n), Pow2(e))
  {
    RoundScaleByConstants(n);
    RoundAbsolute(n * 0x20_0000_0000_0000, e);
  }

  /** At most twice a power of two, by at most a 2^-53 part of it. */
  lemma RoundUpToTwo(n: nat, e: nat)
    requires n <= 2 * Pow2(e)
    ensures Within(0x20_0000_0000_0000 * (Round(n) - n), Pow2(e))
  {
    RoundScaleByConstants(n);
    RoundAbsolute(n * 0x10_0000_0000_0000, e);
  }
}
