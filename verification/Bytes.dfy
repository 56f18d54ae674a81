/**
Byte strings: little-endian integers of a fixed width, keys, and the position of one
string inside another.
*/
module Bytes {
  import opened MachineInts

  type byte = b: int | 0 <= b < 256
  type Pubkey = key: seq<byte> | |key| == 32 witness seq(32, i => 0)

  /** `Pubkey::default()`. */
  const DEFAULT_KEY: Pubkey := [
    0, 0, 0, 0, 0, 0, 0, 0, 0, 0, 0, 0, 0, 0, 0, 0,
    0, 0, 0, 0, 0, 0, 0, 0, 0, 0, 0, 0, 0, 0, 0, 0]

  lemma DefaultKeyIsZero(key: Pubkey)
    ensures key == DEFAULT_KEY <==> forall i :: 0 <= i < 32 ==> key[i] == 0
  {
    if forall i :: 0 <= i < 32 ==> key[i] == 0 {
      assert forall i :: 0 <= i < 32 ==> key[i] == DEFAULT_KEY[i];
      assert key == DEFAULT_KEY;
    }
  }

  function Pow256(n: nat): (p: nat)
    ensures p > 0
  {
    if n == 0 then 1 else 256 * Pow256(n - 1)
  }

  /** The n low bytes of v, least significant first. */
  function LeBytes(v: nat, n: nat): (bytes: seq<byte>)
    ensures |bytes| == n
  {
    if n == 0 then [] else [v % 256] + LeBytes(v / 256, n - 1)
  }

  function FromLe(bytes: seq<byte>): nat {
    if bytes == [] then 0 else bytes[0] + 256 * FromLe(bytes[1..])
  }

  /** Two's complement: the representative of v in [0, p) and back in [-p/2, p/2). */
  function Wrap(v: int, p: nat): nat
    requires 0 <= v + p
  {
    if v < 0 then v + p else v
  }

  function Unwrap(v: nat, p: nat): int {
    if 2 * v < p then v else v - p
  }

  function LeSigned(v: int, n: nat): (bytes: seq<byte>)
    requires 0 <= v + Pow256(n)
    ensures |bytes| == n
  {
    LeBytes(Wrap(v, Pow256(n)), n)
  }

  function FromLeSigned(bytes: seq<byte>): int {
    Unwrap(FromLe(bytes), Pow256(|bytes|))
  }

  lemma Widths()
    ensures Pow256(2) == 0x1_0000
    ensures Pow256(4) == 0x1_0000_0000
    ensures Pow256(8) == 0x1_0000_0000_0000_0000
    ensures Pow256(16) == 0x1_0000_0000_0000_0000_0000_0000_0000_0000
  {
    assert Pow256(2) == 0x1_0000;
    assert Pow256(4) == 0x1_0000_0000;
    assert Pow256(6) == 0x1_0000_0000_0000;
    assert Pow256(8) == 0x1_0000_0000_0000_0000;
    assert Pow256(10) == 0x1_0000_0000_0000_0000_0000;
    assert Pow256(12) == 0x1_0000_0000_0000_0000_0000_0000;
    assert Pow256(14) == 0x1_0000_0000_0000_0000_0000_0000_0000;
  }

  lemma {:induction false} FromLeOfLeBytes(v: nat, n: nat)
    requires v < Pow256(n)
    ensures FromLe(LeBytes(v, n)) == v
  {
    if n > 0 {
      FromLeOfLeBytes(v / 256, n - 1);
      assert LeBytes(v, n)[1..] == LeBytes(v / 256, n - 1);
    }
  }

  lemma LowestDigit(b: byte, rest: nat)
    ensures (b + 256 * rest) % 256 == b && (b + 256 * rest) / 256 == rest
  {
  }

  lemma LeBytesStep(b: byte, rest: nat, n: nat)
    requires n > 0
    ensures LeBytes(b + 256 * rest, n) == [b] + LeBytes(rest, n - 1)
  {
    LowestDigit(b, rest);
  }

  lemma {:induction false} LeBytesOfFromLe(bytes: seq<byte>)
    ensures FromLe(bytes) < Pow256(|bytes|)
    ensures LeBytes(FromLe(bytes), |bytes|) == bytes
  {
    if bytes != [] {
      LeBytesOfFromLe(bytes[1..]);
      LeBytesStep(bytes[0], FromLe(bytes[1..]), |bytes|);
    }
  }

  lemma WrapInverse(v: nat, p: nat)
    requires v < p
    ensures 0 <= 2 * Unwrap(v, p) + p < 2 * p
    ensures Wrap(Unwrap(v, p), p) == v
  {
  }

  /** Signed values round-trip over the whole range, negatives included. */
  lemma SignedRoundTrip(v: int, n: nat)
    requires 0 <= 2 * v + Pow256(n) < 2 * Pow256(n)
    ensures FromLeSigned(LeSigned(v, n)) == v
  {
    FromLeOfLeBytes(Wrap(v, Pow256(n)), n);
  }

  lemma SignedOfBytes(bytes: seq<byte>)
    ensures 0 <= 2 * FromLeSigned(bytes) + Pow256(|bytes|) < 2 * Pow256(|bytes|)
    ensures LeSigned(FromLeSigned(bytes), |bytes|) == bytes
  {
    LeBytesOfFromLe(bytes);
    WrapInverse(FromLe(bytes), Pow256(|bytes|));
  }

  /** The bytes of `data` from `pos` on start with `part`. */
  ghost predicate At(data: seq<byte>, pos: nat, part: seq<byte>) {
    pos + |part| <= |data| && data[pos..pos + |part|] == part
  }

  lemma AtConcat(data: seq<byte>, pos: nat, a: seq<byte>, b: seq<byte>)
    ensures At(data, pos, a + b) <==> At(data, pos, a) && At(data, pos + |a|, b)
  {
    if pos + |a| + |b| <= |data| {
      assert data[pos..pos + |a + b|] == data[pos..pos + |a|] + data[pos + |a|..pos + |a| + |b|];
      assert (a + b)[..|a|] == a && (a + b)[|a|..] == b;
      assert data[pos..pos + |a + b|][..|a|] == data[pos..pos + |a|];
      assert data[pos..pos + |a + b|][|a|..] == data[pos + |a|..pos + |a| + |b|];
    }
  }

  lemma AtStart(data: seq<byte>, part: seq<byte>)
    ensures At(data, 0, part) <==> part <= data
  {
  }

  /** A value and a width are all that a little-endian field at a position depends on. */
  lemma AtLe(data: seq<byte>, pos: nat, v: nat, n: nat)
    requires v < Pow256(n)
    ensures At(data, pos, LeBytes(v, n)) <==> pos + n <= |data| && FromLe(data[pos..pos + n]) == v
  {
    FromLeOfLeBytes(v, n);
    if pos + n <= |data| {
      LeBytesOfFromLe(data[pos..pos + n]);
    }
  }
}
