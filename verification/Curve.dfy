/**
The constant-product curve in exact integers: `src/math.rs`, both directions.
*/
module Curve {
  import opened Arith
  import opened MachineInts

  /** Output for an exact input, rounded down. */
  function ConstantProductOut(amountIn: u64, reserveIn: u64, reserveOut: u64): u64 {
    MulBound(reserveOut, amountIn, U64_MAX);
    var numerator: u128 := reserveOut * amountIn;
    var denominator: u128 := reserveIn + amountIn;
    if denominator == 0 then 0 else NarrowU64(numerator / denominator)
  }

  /** Input for an exact output, rounded up; none when the output drains the reserve. */
  function ConstantProductIn(amountOut: u64, reserveIn: u64, reserveOut: u64): Option<u64> {
    if reserveOut < amountOut then None else
    var remaining: u64 := reserveOut - amountOut;
    if remaining == 0 then None else
    MulBound(reserveIn, amountOut, U64_MAX);
    var numerator: u128 := reserveIn * amountOut;
    Some(NarrowU64(CeilDiv(numerator, remaining)))
  }

  /** The input price before it is narrowed to 64 bits. */
  ghost function ExactIn(amountOut: nat, reserveIn: nat, reserveOut: nat): nat
    requires amountOut < reserveOut
  {
    CeilDiv(reserveIn * amountOut, reserveOut - amountOut)
  }

  /**
  The 64-bit fallback of the output direction is dead: the quotient is at most the
  output reserve, and below it as soon as the input reserve is not empty. So the
  output is the greatest amount that keeps the product from falling.
  */
  lemma OutIsGreatest(amountIn: u64, reserveIn: u64, reserveOut: u64, out: nat)
    requires reserveIn + amountIn > 0
    ensures out <= ConstantProductOut(amountIn, reserveIn, reserveOut)
       <==> out * (reserveIn + amountIn) <= reserveOut * amountIn
    ensures ConstantProductOut(amountIn, reserveIn, reserveOut) <= reserveOut
    ensures reserveIn > 0 && reserveOut > 0 ==>
              ConstantProductOut(amountIn, reserveIn, reserveOut) < reserveOut
  {
    var d := reserveIn + amountIn;
    var n := reserveOut * amountIn;
    DivMod(n, d);
    var q := n / d;
    FloorGalois(q, n, d);
    MulMono(amountIn, d, reserveOut);
    MulCancel(q, reserveOut, d);
    FloorGalois(out, n, d);
    if reserveIn > 0 && reserveOut > 0 {
      MulMono(amountIn + 1, d, reserveOut);
      assert reserveOut * (amountIn + 1) == n + reserveOut;
      MulCancelStrict(q, reserveOut, d);
    }
  }

  /** The test of `out` against an output that is the greatest keeping the product. */
  ghost predicate IsGreatestOutput(output: nat, amountIn: nat, reserveIn: nat, reserveOut: nat, out: nat) {
    if reserveIn + amountIn == 0 then output == 0
    else out <= output <==> out * (reserveIn + amountIn) <= reserveOut * amountIn
  }

  lemma OutIsGreatestOutput(amountIn: u64, reserveIn: u64, reserveOut: u64, out: nat)
    ensures IsGreatestOutput(ConstantProductOut(amountIn, reserveIn, reserveOut), amountIn, reserveIn, reserveOut, out)
  {
    if reserveIn + amountIn > 0 {
      OutIsGreatest(amountIn, reserveIn, reserveOut, out);
    }
  }

  lemma OutIs(amountIn: u64, reserveIn: u64, reserveOut: u64, out: nat)
    requires reserveIn > 0
    requires out * (reserveIn + amountIn) <= reserveOut * amountIn < (out + 1) * (reserveIn + amountIn)
    ensures ConstantProductOut(amountIn, reserveIn, reserveOut) == out
  {
    OutIsGreatest(amountIn, reserveIn, reserveOut, out);
    OutIsGreatest(amountIn, reserveIn, reserveOut, out + 1);
  }

  lemma OutMonotone(a: u64, b: u64, reserveIn: u64, reserveOut: u64)
    requires a <= b
    ensures ConstantProductOut(a, reserveIn, reserveOut) <= ConstantProductOut(b, reserveIn, reserveOut)
  {
    if reserveIn + a > 0 {
      var q := ConstantProductOut(a, reserveIn, reserveOut);
      OutIsGreatest(a, reserveIn, reserveOut, q);
      // q * (reserveIn + b) = q * (reserveIn + a) + q * (b - a), and q <= reserveOut.
      MulMono(q, reserveOut, b - a);
      assert q * (reserveIn + b) == q * (reserveIn + a) + q * (b - a);
      assert reserveOut * b == reserveOut * a + reserveOut * (b - a);
      OutIsGreatest(b, reserveIn, reserveOut, q);
    }
  }

  /** An input reaches an output exactly when it covers the exact price of it. */
  lemma OutReachesIffCovered(out: u64, amount: u64, reserveIn: u64, reserveOut: u64)
    requires reserveIn > 0 && out < reserveOut
    ensures ExactIn(out, reserveIn, reserveOut) <= amount
       <==> ConstantProductOut(amount, reserveIn, reserveOut) >= out
  {
    CeilGalois(amount, reserveIn * out, reserveOut - out);
    OutIsGreatest(amount, reserveIn, reserveOut, out);
    assert amount * (reserveOut - out) == reserveOut * amount - out * amount;
    assert out * (reserveIn + amount) == reserveIn * out + out * amount;
  }

  /** The exact price is reported as it is unless it does not fit in 64 bits. */
  lemma InIsCappedExact(out: u64, reserveIn: u64, reserveOut: u64)
    ensures ConstantProductIn(out, reserveIn, reserveOut).Some? <==> out < reserveOut
    ensures out < reserveOut ==>
              ConstantProductIn(out, reserveIn, reserveOut).value
              == Min(ExactIn(out, reserveIn, reserveOut), U64_MAX)
  {
  }

  /**
  The two directions are inverse to each other: the price of an output is the least
  input that yields it. The one exception is a price that was cut down to 64 bits,
  compared with the largest 64-bit input: that input does not buy the output.
  */
  lemma CurveInverse(out: u64, amount: u64, reserveIn: u64, reserveOut: u64)
    requires reserveIn > 0 && out < reserveOut
    ensures var price := ConstantProductIn(out, reserveIn, reserveOut).value;
            (price <= amount <==> ConstantProductOut(amount, reserveIn, reserveOut) >= out)
            <==> !(ExactIn(out, reserveIn, reserveOut) > U64_MAX && amount == U64_MAX)
  {
    InIsCappedExact(out, reserveIn, reserveOut);
    OutReachesIffCovered(out, amount, reserveIn, reserveOut);
  }

  /** The exception is reachable: one unit short of a large reserve against a full one. */
  lemma CurveInverseExceptionIsReal()
    ensures ExactIn(2, U64_MAX, 3) > U64_MAX
    ensures ConstantProductIn(2, U64_MAX, 3) == Some(U64_MAX)
    ensures ConstantProductOut(U64_MAX, U64_MAX, 3) < 2
  {
  }
}
