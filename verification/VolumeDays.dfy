/**
The day buckets of the token-incentive schedule: `GlobalVolumeAccumulator::day_index`
in `src/state.rs`, with its 64-bit subtraction as a release build computes it.
*/
module VolumeDays {
  import opened Arith
  import opened Bytes
  import opened MachineInts

  const VOLUME_ACCUMULATOR_DAYS: nat := 30

  type DayArray = days: seq<u64> | |days| == 30 witness seq(30, i => 0)

  datatype GlobalVolume = GlobalVolume(
    startTime: i64, endTime: i64, secondsInADay: i64, mint: Pubkey, totalTokenSupply: DayArray, solVolumes: DayArray)
  {
    predicate IsActiveAt(t: i64) {
      startTime <= t < endTime
    }

    function DayIndex(t: i64): Option<nat> {
      if !IsActiveAt(t) || secondsInADay <= 0 then None else
      var day := TruncatedDiv(WrapI64(t - startTime), secondsInADay);
      if 0 <= day < VOLUME_ACCUMULATOR_DAYS then Some(day) else None
    }

    /** The bucket whose interval of the schedule contains t. */
    ghost predicate InBucket(t: i64, day: nat) {
      && day < VOLUME_ACCUMULATOR_DAYS
      && secondsInADay > 0
      && startTime <= t < endTime
      && startTime + day * secondsInADay <= t < startTime + (day + 1) * secondsInADay
    }
  }

  function WrapI64(n: int): i64
    requires -0x1_0000_0000_0000_0000 < n < 0x1_0000_0000_0000_0000
  {
    if n > I64_MAX then n - 0x1_0000_0000_0000_0000
    else if n < -I64_MAX - 1 then n + 0x1_0000_0000_0000_0000
    else n
  }

  /** Rust's `/`: towards zero. */
  function TruncatedDiv(n: int, d: int): int
    requires d > 0
  {
    if n >= 0 then n / d else -((-n) / d)
  }

  /** The program is active from its start until just before its end, and outside there is no day. */
  lemma NoDayOutsideWindow(g: GlobalVolume, t: i64)
    ensures g.IsActiveAt(t) <==> g.startTime <= t < g.endTime
    ensures !(g.startTime <= t < g.endTime) || g.secondsInADay <= 0 ==> g.DayIndex(t) == None
  {
  }

  /** While the subtraction does not overflow, the index names the bucket t is in, and none otherwise. */
  lemma DayIndexIsBucket(g: GlobalVolume, t: i64, day: nat)
    requires t - g.startTime <= I64_MAX
    ensures g.DayIndex(t) == Some(day) <==> g.InBucket(t, day)
  {
    if g.IsActiveAt(t) && g.secondsInADay > 0 {
      QuotientInterval(t - g.startTime, g.secondsInADay, day);
    }
  }

  /** Later times of the window never fall into earlier buckets. */
  lemma DayIndexMonotone(g: GlobalVolume, t: i64, t': i64)
    requires t <= t' && t' - g.startTime <= I64_MAX
    requires g.DayIndex(t).Some? && g.DayIndex(t').Some?
    ensures g.DayIndex(t).value <= g.DayIndex(t').value
  {
    DivMono(t - g.startTime, t' - g.startTime, g.secondsInADay);
  }

  /** Past 64 bits the elapsed time wraps to a negative number, which names day 0 or none. */
  lemma WrappedIndex(g: GlobalVolume, t: i64)
    requires g.startTime <= t < g.endTime && g.secondsInADay > 0 && t - g.startTime > I64_MAX
    ensures g.DayIndex(t) ==
            if 0x1_0000_0000_0000_0000 - (t - g.startTime) < g.secondsInADay then Some(0) else None
    ensures !g.InBucket(t, 0)
  {
    var back: nat := 0x1_0000_0000_0000_0000 - (t - g.startTime);
    FloorGalois(1, back, g.secondsInADay);
    DivMod(back, g.secondsInADay);
  }

  /**
  Exactly when the index is right for every bucket: the elapsed time fits in 64 signed
  bits, or it is past the last bucket and its wrapped value is at least a day negative.
  */
  lemma DayIndexIsRightIff(g: GlobalVolume, t: i64)
    requires g.startTime <= t < g.endTime && g.secondsInADay > 0
    ensures (forall day: nat :: g.DayIndex(t) == Some(day) <==> g.InBucket(t, day))
       <==> var elapsed := t - g.startTime;
            elapsed <= I64_MAX
            || VOLUME_ACCUMULATOR_DAYS * g.secondsInADay <= elapsed <= 0x1_0000_0000_0000_0000 - g.secondsInADay
  {
    var elapsed, len := t - g.startTime, g.secondsInADay;
    if elapsed <= I64_MAX {
      forall day: nat
        ensures g.DayIndex(t) == Some(day) <==> g.InBucket(t, day)
      {
        DayIndexIsBucket(g, t, day);
      }
    } else {
      WrappedIndex(g, t);
      var day := elapsed / len;
      QuotientInterval(elapsed, len, day);
      FloorGalois(30, elapsed, len);
      forall d: nat | g.InBucket(t, d)
        ensures d == day
      {
        QuotientInterval(elapsed, len, d);
      }
      assert day < 30 ==> g.InBucket(t, day);
    }
  }

  /** Elapsed time past 64 signed bits wraps: the last second of a long window, in day 2, is put in day 0. */
  lemma DayIndexCanBeWrong(mint: Pubkey, days: DayArray)
    ensures var g := GlobalVolume(-I64_MAX - 1, I64_MAX, I64_MAX, mint, days, days);
            var t := I64_MAX - 1;
            g.startTime <= t < g.endTime && g.DayIndex(t) == Some(0) && !g.InBucket(t, 0) && g.InBucket(t, 2)
  {
    var g := GlobalVolume(-I64_MAX - 1, I64_MAX, I64_MAX, mint, days, days);
    assert WrapI64(I64_MAX - 1 - g.startTime) == -2;
    assert g.startTime + 2 * g.secondsInADay == I64_MAX - 1;
  }
}
