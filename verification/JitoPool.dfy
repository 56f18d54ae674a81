/**
The round-robin client pool with a cooldown per region (`src/util.rs`): an atomic ticket
counter, a mutex-guarded table of earliest next uses, and callers that wait and try
again. The class is the code; the step machine below it interleaves any number of
callers at the points where they can interleave.
*/
module JitoPool {
  import opened Arith
  import opened MachineInts

  const COUNTER_RANGE: nat := 0x1_0000_0000_0000_0000

  /** The critical section: reserve region i at time `now`, or say how long to wait. */
  function Reserve(last: seq<nat>, i: nat, now: nat, interval: nat): (seq<nat>, Option<nat>)
    requires i < |last|
  {
    if now >= last[i] then (last[i := now + interval], None) else (last, Some(last[i] - now))
  }

  /** What is left at `now` of a cooldown that ends at `free`. */
  function Left(free: nat, now: nat): nat {
    if now < free then free - now else 0
  }

  datatype PoolError = NoEndpoints

  class Clock {
    var now: nat
    ghost var asked: nat  // total time callers have asked to sleep

    constructor (now: nat)
      ensures this.now == now && asked == 0
    {
      this.now := now;
      asked := 0;
    }

    /** At least the time asked for passes. */
    method Sleep(wait: nat)
      modifies this
      ensures now >= old(now) + wait
      ensures asked == old(asked) + wait
    {
      now := now + wait;
      asked := asked + wait;
    }
  }

  class JitoPool {
    const clients: seq<string>
    const interval: nat
    var last: seq<nat>
    var rr: u64

    ghost predicate Valid()
      reads this
    {
      0 < |clients| == |last|
    }

    constructor (endpoints: seq<string>, interval: nat, now: nat)
      requires endpoints != []
      ensures Valid() && clients == endpoints && this.interval == interval
      ensures rr == 0 && forall i :: 0 <= i < |last| ==> last[i] == now
    {
      clients := endpoints;
      this.interval := interval;
      last := seq(|endpoints|, i => now);
      rr := 0;
    }

    /** `JitoPool::new`: no endpoint is a configuration error. */
    static method New(endpoints: seq<string>, interval: nat, clock: Clock) returns (r: Result<JitoPool, PoolError>)
      ensures r.Err? <==> endpoints == []
      ensures r.Ok? ==> fresh(r.value) && r.value.Valid() && r.value.clients == endpoints
                        && r.value.interval == interval && r.value.rr == 0
                        && forall i :: 0 <= i < |endpoints| ==> r.value.last[i] == clock.now
    {
      if endpoints == [] {
        return Err(NoEndpoints);
      }
      var pool := new JitoPool(endpoints, interval, clock.now);
      r := Ok(pool);
    }

    /** `fetch_add(1) % len`: the counter wraps, the region is taken from the old value. */
    method TakeTicket() returns (i: nat)
      requires Valid()
      modifies this`rr
      ensures i == old(rr) % |clients|
      ensures rr == (old(rr) + 1) % COUNTER_RANGE
    {
      i := rr % |clients|;
      rr := (rr + 1) % COUNTER_RANGE;
    }

    /**
    Reserve a region whose time has come and put it on cooldown; a refusal changes
    nothing and its wait ends exactly when the region is free.
    */
    method TryReserve(i: nat, now: nat) returns (wait: Option<nat>)
      requires Valid() && i < |clients|
      modifies this`last
      ensures Valid()
      ensures wait.None? <==> old(last[i]) <= now
      ensures wait.None? ==> last[i] == now + interval
      ensures wait.Some? ==> last[i] == old(last[i]) == now + wait.value
      ensures forall j :: 0 <= j < |last| && j != i ==> last[j] == old(last[j])
      ensures (last, wait) == Reserve(old(last), i, now, interval)
    {
      if now >= last[i] {
        last := last[i := now + interval];
        wait := None;
      } else {
        wait := Some(last[i] - now);
      }
    }

    /**
    `next_client` with nobody interfering: the ticket's region, reserved no earlier than
    its cooldown allowed, and on cooldown from then on. A free region is reserved at
    once; otherwise the caller asks to sleep for what is left of the cooldown, once.
    */
    method NextClient(clock: Clock) returns (client: string)
      requires Valid()
      modifies this, clock
      ensures Valid() && clock.now >= old(clock.now)
      ensures rr == (old(rr) + 1) % COUNTER_RANGE
      ensures var i := old(rr) % |clients|;
              && client == clients[i]
              && clock.now >= old(last[i])
              && last == old(last)[i := clock.now + interval]
              && (old(clock.now) >= old(last[i]) ==> clock.now == old(clock.now))
              && clock.asked == old(clock.asked) + Left(old(last[i]), old(clock.now))
    {
      var i := TakeTicket();
      ghost var table := last;
      while true
        invariant Valid() && last == table && clock.now >= old(clock.now)
        invariant rr == (old(rr) + 1) % COUNTER_RANGE
        invariant if clock.now == old(clock.now) && clock.asked == old(clock.asked) then true
                  else old(clock.now) < last[i] <= clock.now
                       && clock.asked == old(clock.asked) + Left(last[i], old(clock.now))
        decreases last[i] - clock.now
      {
        var waitOpt := TryReserve(i, clock.now);
        if waitOpt.None? {
          break;
        }
        clock.Sleep(waitOpt.value);
      }
      client := clients[i];
    }
  }

  // ---------- Interleaved callers ----------

  datatype Caller = Trying(region: nat, wake: nat) | Served(region: nat) | Dropped(region: nat)

  datatype Grant = Grant(caller: nat, region: nat, time: nat)

  /** Callers in order of arrival, and every reservation made so far. */
  datatype State = State(
    clock: nat, last: seq<nat>, counter: u64, callers: seq<Caller>, grants: seq<Grant>)

  datatype Action =
    | Tick(elapsed: nat)
    | Arrive
    | Attempt(caller: nat)
    | Cancel(caller: nat)

  function Start(regions: nat, now: nat): State {
    State(now, seq(regions, i => now), 0, [], [])
  }

  predicate Enabled(s: State, action: Action) {
    match action
    case Tick(_) => true
    case Arrive => true
    case Attempt(c) => c < |s.callers| && s.callers[c].Trying? && s.callers[c].wake <= s.clock
    case Cancel(c) => c < |s.callers| && s.callers[c].Trying?
  }

  /** One atomic step; an attempt is the whole critical section, a refused caller sleeps. */
  function Act(s: State, action: Action, interval: nat): State
    requires Enabled(s, action) && Sane(s)
  {
    match action
    case Tick(elapsed) => s.(clock := s.clock + elapsed)
    case Arrive =>
      s.(counter := (s.counter + 1) % COUNTER_RANGE,
         callers := s.callers + [Trying(s.counter % |s.last|, s.clock)])
    case Cancel(c) => s.(callers := s.callers[c := Dropped(s.callers[c].region)])
    case Attempt(c) =>
      var region := s.callers[c].region;
      var (last, wait) := Reserve(s.last, region, s.clock, interval);
      match wait
      case None =>
        s.(last := last, callers := s.callers[c := Served(region)],
           grants := s.grants + [Grant(c, region, s.clock)])
      case Some(d) => s.(callers := s.callers[c := Trying(region, s.clock + d)])
  }

  predicate Sane(s: State) {
    && |s.last| > 0
    && forall c :: 0 <= c < |s.callers| && s.callers[c].Trying? ==> s.callers[c].region < |s.last|
  }

  /** A run is a list of states, each following from the one before by some enabled action. */
  ghost predicate IsRun(run: seq<State>, regions: nat, now: nat, interval: nat) {
    && |run| > 0
    && regions > 0
    && run[0] == Start(regions, now)
    && forall k :: 0 <= k < |run| - 1 ==> Follows(run[k], run[k + 1], interval)
  }

  ghost predicate Follows(s: State, s': State, interval: nat) {
    Sane(s) && exists action :: Enabled(s, action) && s' == Act(s, action, interval)
  }

  /** The last reservation of a region, or -1. */
  ghost function Latest(grants: seq<Grant>, region: nat): (j: int)
    ensures -1 <= j < |grants|
    ensures j >= 0 ==> grants[j].region == region
    ensures forall k :: j < k < |grants| ==> grants[k].region != region
  {
    if grants == [] then -1
    else if grants[|grants| - 1].region == region then |grants| - 1
    else Latest(grants[..|grants| - 1], region)
  }

  /** Reservations of one region are at least the interval apart. */
  ghost predicate Spaced(grants: seq<Grant>, interval: nat) {
    forall j, k :: 0 <= j < k < |grants| && grants[j].region == grants[k].region ==>
      grants[j].time + interval <= grants[k].time
  }

  /** The table says exactly when each region was last reserved. */
  ghost predicate TableTellsLatest(s: State, start: nat, interval: nat) {
    forall r :: 0 <= r < |s.last| ==>
      s.last[r] == if Latest(s.grants, r) < 0 then start else s.grants[Latest(s.grants, r)].time + interval
  }

  /** Caller number t drew the counter's t-th value, and keeps that region for good. */
  ghost predicate TicketsInOrder(s: State) {
    && |s.last| > 0
    && s.counter == |s.callers| % COUNTER_RANGE
    && forall t :: 0 <= t < |s.callers| ==>
         s.callers[t].region == (t % COUNTER_RANGE) % |s.last|
  }

  /** A caller is served once, in its own region. */
  ghost predicate ServedOnce(s: State) {
    && (forall k :: 0 <= k < |s.grants| ==>
          s.grants[k].caller < |s.callers| && s.callers[s.grants[k].caller] == Served(s.grants[k].region))
    && forall j, k :: 0 <= j < k < |s.grants| ==> s.grants[j].caller != s.grants[k].caller
  }

  ghost predicate Invariant(s: State, regions: nat, start: nat, interval: nat) {
    && Sane(s)
    && |s.last| == regions
    && (forall k :: 0 <= k < |s.grants| ==> s.grants[k].time <= s.clock)
    && Spaced(s.grants, interval)
    && TableTellsLatest(s, start, interval)
    && TicketsInOrder(s)
    && ServedOnce(s)
  }

  lemma LatestOfSnoc(grants: seq<Grant>, grant: Grant, region: nat)
    ensures Latest(grants + [grant], region) == if grant.region == region then |grants| else Latest(grants, region)
  {
    assert (grants + [grant])[..|grants|] == grants;
  }

  lemma GrantKeepsSpacing(s: State, c: nat, regions: nat, start: nat, interval: nat)
    requires Invariant(s, regions, start, interval) && Enabled(s, Attempt(c))
    requires s.clock >= s.last[s.callers[c].region]
    ensures Spaced(Act(s, Attempt(c), interval).grants, interval)
  {
    var region := s.callers[c].region;
    var latest := Latest(s.grants, region);
    var s' := Act(s, Attempt(c), interval);
    forall j, k | 0 <= j < k < |s'.grants| && s'.grants[j].region == s'.grants[k].region
      ensures s'.grants[j].time + interval <= s'.grants[k].time
    {
      if k == |s.grants| {
        assert j <= latest;
      }
    }
  }

  lemma GrantKeepsTable(s: State, c: nat, regions: nat, start: nat, interval: nat)
    requires Invariant(s, regions, start, interval) && Enabled(s, Attempt(c))
    requires s.clock >= s.last[s.callers[c].region]
    ensures TableTellsLatest(Act(s, Attempt(c), interval), start, interval)
  {
    var s' := Act(s, Attempt(c), interval);
    var grant := Grant(c, s.callers[c].region, s.clock);
    forall r | 0 <= r < |s'.last|
      ensures s'.last[r] == if Latest(s'.grants, r) < 0 then start
                            else s'.grants[Latest(s'.grants, r)].time + interval
    {
      LatestOfSnoc(s.grants, grant, r);
    }
  }

  lemma GrantKeepsOwners(s: State, c: nat, interval: nat)
    requires Sane(s) && Enabled(s, Attempt(c)) && TicketsInOrder(s) && ServedOnce(s)
    requires s.clock >= s.last[s.callers[c].region]
    ensures var s' := Act(s, Attempt(c), interval);
            Sane(s') && TicketsInOrder(s') && ServedOnce(s')
  {
    var s' := Act(s, Attempt(c), interval);
    forall k | 0 <= k < |s.grants|
      ensures s'.grants[k].caller != c
    {
      assert s.callers[s.grants[k].caller].Served?;
    }
  }

  /** An attempt that is refused, and a caller that gives up, change one waiting caller only. */
  lemma WaitingKeepsInvariant(s: State, action: Action, regions: nat, start: nat, interval: nat)
    requires Invariant(s, regions, start, interval) && Enabled(s, action)
    requires action.Cancel? || (action.Attempt? && s.clock < s.last[s.callers[action.caller].region])
    ensures Invariant(Act(s, action, interval), regions, start, interval)
  {
    var s' := Act(s, action, interval);
    assert s'.grants == s.grants && s'.last == s.last && s'.clock == s.clock;
    forall k | 0 <= k < |s.grants|
      ensures s.grants[k].caller != action.caller
    {
      assert s.callers[s.grants[k].caller].Served?;
    }
  }

  lemma GrantKeepsInvariant(s: State, c: nat, regions: nat, start: nat, interval: nat)
    requires Invariant(s, regions, start, interval) && Enabled(s, Attempt(c))
    requires s.clock >= s.last[s.callers[c].region]
    ensures Invariant(Act(s, Attempt(c), interval), regions, start, interval)
  {
    GrantKeepsSpacing(s, c, regions, start, interval);
    GrantKeepsTable(s, c, regions, start, interval);
    GrantKeepsOwners(s, c, interval);
  }

  lemma ActKeepsInvariant(s: State, action: Action, regions: nat, start: nat, interval: nat)
    requires Invariant(s, regions, start, interval) && Enabled(s, action)
    ensures Invariant(Act(s, action, interval), regions, start, interval)
  {
    match action
    case Tick(_) =>
    case Cancel(_) => WaitingKeepsInvariant(s, action, regions, start, interval);
    case Arrive =>
      ArriveKeepsTickets(s, interval);
      assert ServedOnce(Act(s, Arrive, interval));
    case Attempt(c) =>
      if s.clock >= s.last[s.callers[c].region] {
        GrantKeepsInvariant(s, c, regions, start, interval);
      } else {
        WaitingKeepsInvariant(s, action, regions, start, interval);
      }
  }

  lemma CounterStep(n: nat)
    ensures (n % COUNTER_RANGE + 1) % COUNTER_RANGE == (n + 1) % COUNTER_RANGE
  {
  }

  lemma ArriveKeepsTickets(s: State, interval: nat)
    requires Sane(s) && TicketsInOrder(s)
    ensures Sane(Act(s, Arrive, interval)) && TicketsInOrder(Act(s, Arrive, interval))
  {
    CounterStep(|s.callers|);
    DivMod(s.counter, |s.last|);
  }

  /** Every state of every run satisfies the invariant. */
  lemma {:induction false} RunKeepsInvariant(run: seq<State>, regions: nat, start: nat, interval: nat, k: nat)
    requires IsRun(run, regions, start, interval) && k < |run|
    ensures Invariant(run[k], regions, start, interval)
  {
    if k > 0 {
      RunKeepsInvariant(run, regions, start, interval, k - 1);
      assert Follows(run[k - 1], run[k - 1 + 1], interval);
      var action :| Enabled(run[k - 1], action) && run[k] == Act(run[k - 1], action, interval);
      ActKeepsInvariant(run[k - 1], action, regions, start, interval);
    }
  }

  // ---------- What callers can rely on ----------

  /**
  Under any interleaving: two reservations of a region are at least the interval apart,
  no caller is served twice, and a caller is served in the region its ticket names.
  */
  lemma Cooldown(run: seq<State>, regions: nat, start: nat, interval: nat, k: nat, i: nat, j: nat)
    requires IsRun(run, regions, start, interval) && k < |run|
    requires i < j < |run[k].grants|
    ensures var a, b := run[k].grants[i], run[k].grants[j];
            && (a.region == b.region ==> a.time + interval <= b.time)
            && a.caller != b.caller
            && a.region == (a.caller % COUNTER_RANGE) % regions
  {
    RunKeepsInvariant(run, regions, start, interval, k);
  }

  /** An attempt is refused only while the region's last reservation is less than the interval old. */
  lemma RefusedIffCoolingDown(run: seq<State>, regions: nat, start: nat, interval: nat, k: nat, c: nat)
    requires IsRun(run, regions, start, interval) && k < |run| && Enabled(run[k], Attempt(c))
    ensures Sane(run[k]) && (
              Act(run[k], Attempt(c), interval).callers[c].Served?
              <==> forall g :: g in run[k].grants && g.region == run[k].callers[c].region ==>
                     g.time + interval <= run[k].clock)
  {
    var s := run[k];
    RunKeepsInvariant(run, regions, start, interval, k);
    var region := s.callers[c].region;
    var latest := Latest(s.grants, region);
    if latest < 0 {
      ClockNeverBeforeStart(run, regions, start, interval, k);
    } else {
      assert s.grants[latest] in s.grants;
      forall g | g in s.grants && g.region == region
        ensures g.time <= s.grants[latest].time
      {
        var j :| 0 <= j < |s.grants| && s.grants[j] == g;
        assert j <= latest;
      }
    }
  }

  lemma {:induction false} ClockNeverBeforeStart(run: seq<State>, regions: nat, start: nat, interval: nat, k: nat)
    requires IsRun(run, regions, start, interval) && k < |run|
    ensures start <= run[k].clock
  {
    if k > 0 {
      ClockNeverBeforeStart(run, regions, start, interval, k - 1);
      assert Follows(run[k - 1], run[k - 1 + 1], interval);
    }
  }

  lemma StillTryingAfter(s: State, s': State, interval: nat, c: nat)
    requires Follows(s, s', interval) && c < |s.callers|
    ensures s.grants <= s'.grants && |s.callers| <= |s'.callers|
    ensures s'.callers[c].Trying? ==>
              && s.callers[c].Trying?
              && s.callers[c].region == s'.callers[c].region
              && s.callers[c].wake <= s'.callers[c].wake
  {
  }

  /** Two moments of a run: reservations accumulate, and a caller still trying only ever waited longer. */
  lemma {:induction false} StillTrying(
    run: seq<State>, regions: nat, start: nat, interval: nat, k: nat, k': nat, c: nat)
    requires IsRun(run, regions, start, interval) && k <= k' < |run|
    requires c < |run[k].callers|
    ensures run[k].grants <= run[k'].grants && |run[k].callers| <= |run[k'].callers|
    ensures run[k'].callers[c].Trying? ==>
              && run[k].callers[c].Trying?
              && run[k].callers[c].region == run[k'].callers[c].region
              && run[k].callers[c].wake <= run[k'].callers[c].wake
  {
    if k < k' {
      StillTrying(run, regions, start, interval, k, k' - 1, c);
      assert Follows(run[k' - 1], run[k' - 1 + 1], interval);
      StillTryingAfter(run[k' - 1], run[k'], interval, c);
    }
  }

  /** The caller may try now, and its region is still on cooldown. */
  ghost predicate Refused(s: State, c: nat) {
    Sane(s) && Enabled(s, Attempt(c)) && s.clock < s.last[s.callers[c].region]
  }

  /** A new caller may try at once. */
  lemma NewCallerMayTry(s: State, interval: nat)
    requires Sane(s)
    ensures Enabled(Act(s, Arrive, interval), Attempt(|s.callers|))
  {
  }

  /**
  A refused caller may try again exactly when its region has become free, and is served
  then if nobody was quicker.
  */
  lemma WaitsExactlyUntilFree(s: State, c: nat, elapsed: nat, interval: nat)
    requires Refused(s, c)
    ensures var told := Act(s, Attempt(c), interval);
            var later := Act(told, Tick(elapsed), interval);
            && Sane(later)
            && (Enabled(later, Attempt(c)) <==> s.clock + elapsed >= s.last[s.callers[c].region])
            && (Enabled(later, Attempt(c)) ==> Act(later, Attempt(c), interval).callers[c].Served?)
  {
  }

  lemma GoneForGoodAfter(s: State, s': State, interval: nat, c: nat)
    requires Follows(s, s', interval) && c < |s.callers| && !s.callers[c].Trying?
    ensures c < |s'.callers| && s'.callers[c] == s.callers[c]
  {
  }

  lemma {:induction false} GoneForGood(
    run: seq<State>, regions: nat, start: nat, interval: nat, k: nat, k': nat, c: nat)
    requires IsRun(run, regions, start, interval) && k <= k' < |run|
    requires c < |run[k].callers| && !run[k].callers[c].Trying?
    ensures c < |run[k'].callers| && run[k'].callers[c] == run[k].callers[c]
  {
    if k < k' {
      GoneForGood(run, regions, start, interval, k, k' - 1, c);
      assert Follows(run[k' - 1], run[k' - 1 + 1], interval);
      GoneForGoodAfter(run[k' - 1], run[k'], interval, c);
    }
  }

  /** A caller that gave up never holds a reservation, at any time of the run. */
  lemma CancelledIsNeverServed(
    run: seq<State>, regions: nat, start: nat, interval: nat, k: nat, k': nat, c: nat)
    requires IsRun(run, regions, start, interval) && k < k' < |run|
    requires Sane(run[k]) && Enabled(run[k], Cancel(c)) && run[k + 1] == Act(run[k], Cancel(c), interval)
    ensures forall j :: 0 <= j < |run[k'].grants| ==> run[k'].grants[j].caller != c
  {
    GoneForGood(run, regions, start, interval, k + 1, k', c);
    RunKeepsInvariant(run, regions, start, interval, k');
  }

  /**
  Progress under any interleaving: a caller that is refused again after waiting as told
  lost its region to some other caller in between.
  */
  lemma RefusedAgainMeansOvertaken(
    run: seq<State>, regions: nat, start: nat, interval: nat, k: nat, k': nat, c: nat)
    requires IsRun(run, regions, start, interval) && k < k' < |run|
    requires Refused(run[k], c) && run[k + 1] == Act(run[k], Attempt(c), interval)
    requires Refused(run[k'], c)
    ensures exists j :: |run[k].grants| <= j < |run[k'].grants|
                        && run[k'].grants[j].region == run[k'].callers[c].region
                        && run[k'].grants[j].caller != c
  {
    var s, s' := run[k], run[k'];
    RunKeepsInvariant(run, regions, start, interval, k);
    RunKeepsInvariant(run, regions, start, interval, k');
    StillTrying(run, regions, start, interval, k + 1, k', c);
    var region := s'.callers[c].region;
    assert s.last[region] <= s'.callers[c].wake < s'.last[region];
    var j := Latest(s'.grants, region);
    if j < |s.grants| {
      LatestOfPrefix(s.grants, s'.grants, region);
      assert false;
    }
    assert s'.callers[s'.grants[j].caller].Served?;
  }

  /** Without a later reservation of the region its latest one is the same. */
  lemma {:induction false} LatestOfPrefix(grants: seq<Grant>, more: seq<Grant>, region: nat)
    requires grants <= more && Latest(more, region) < |grants|
    ensures Latest(grants, region) == Latest(more, region)
  {
    if |grants| < |more| {
      LatestOfPrefix(grants, more[..|more| - 1], region);
    }
  }

  /** Reservations of a region inside the closed window [from, to]. */
  ghost function CountIn(grants: seq<Grant>, region: nat, from: nat, to: nat): nat {
    if grants == [] then 0 else
    CountIn(grants[..|grants| - 1], region, from, to)
    + if grants[|grants| - 1].region == region && from <= grants[|grants| - 1].time <= to then 1 else 0
  }

  lemma OneMoreInterval(from: nat, n: nat, interval: nat, time: nat, later: nat)
    requires n > 0 && from + (n - 1) * interval <= time && time + interval <= later
    ensures from + n * interval <= later
  {
    Distribute(n - 1, 1, interval);
  }

  /** The last of n spaced reservations inside a window is n - 1 intervals into it. */
  lemma {:induction false} LastInWindow(grants: seq<Grant>, region: nat, from: nat, to: nat, interval: nat)
    returns (j: nat)
    requires Spaced(grants, interval) && CountIn(grants, region, from, to) > 0
    ensures j < |grants| && grants[j].region == region && grants[j].time <= to
    ensures from + (CountIn(grants, region, from, to) - 1) * interval <= grants[j].time
  {
    var n := |grants| - 1;
    var prefix := grants[..n];
    var hit := grants[n].region == region && from <= grants[n].time <= to;
    var before := CountIn(prefix, region, from, to);
    if before > 0 {
      assert Spaced(prefix, interval);
      j := LastInWindow(prefix, region, from, to, interval);
      if hit {
        OneMoreInterval(from, before, interval, grants[j].time, grants[n].time);
        j := n;
      }
    } else {
      j := n;
    }
  }

  lemma FitsInWindow(from: nat, count: nat, interval: nat, time: nat, length: nat)
    requires count > 0 && interval > 0
    requires from + (count - 1) * interval <= time <= from + length
    ensures count <= length / interval + 1
  {
    FloorGalois(count - 1, length, interval);
  }

  /** Any window of length W sees at most W / interval + 1 reservations of a region. */
  lemma WindowBound(
    run: seq<State>, regions: nat, start: nat, interval: nat, k: nat, region: nat, from: nat, length: nat)
    requires IsRun(run, regions, start, interval) && k < |run| && interval > 0
    ensures CountIn(run[k].grants, region, from, from + length) <= length / interval + 1
  {
    RunKeepsInvariant(run, regions, start, interval, k);
    var count := CountIn(run[k].grants, region, from, from + length);
    if count > 0 {
      var j := LastInWindow(run[k].grants, region, from, from + length, interval);
      FitsInWindow(from, count, interval, run[k].grants[j].time, length);
    }
  }

  // ---------- How tickets spread over regions ----------

  /** Callers first <= t < first + m that drew region r. */
  ghost function DrawsOf(n: nat, r: nat, first: nat, m: nat): nat
    requires n > 0
  {
    if m == 0 then 0 else DrawsOf(n, r, first, m - 1) + if (first + m - 1) % n == r then 1 else 0
  }

  /** How many of the numbers below x are congruent to r. */
  ghost function Below(n: nat, r: nat, x: nat): nat
    requires r < n
  {
    (x + (n - 1 - r)) / n
  }

  lemma BelowStep(n: nat, r: nat, x: nat)
    requires r < n
    ensures Below(n, r, x + 1) == Below(n, r, x) + if x % n == r then 1 else 0
  {
    var y := x + (n - 1 - r);
    var q := x / n;
    DivMod(x, n);
    Distribute(q, 1, n);
    Distribute(q + 1, 1, n);
    if x % n > r {
      QuotientInterval(y, n, q + 1);
      QuotientInterval(y + 1, n, q + 1);
    } else {
      QuotientInterval(y, n, q);
      QuotientInterval(y + 1, n, if x % n == r then q + 1 else q);
    }
  }

  lemma {:induction false} DrawsAreDifference(n: nat, r: nat, first: nat, m: nat)
    requires r < n
    ensures DrawsOf(n, r, first, m) == Below(n, r, first + m) - Below(n, r, first)
  {
    if m > 0 {
      DrawsAreDifference(n, r, first, m - 1);
      BelowStep(n, r, first + m - 1);
    }
  }

  lemma FloorOfSumLower(a: nat, m: nat, n: nat)
    requires n > 0
    ensures a / n + m / n <= (a + m) / n
  {
    var p, q := a / n, m / n;
    DivMod(a, n);
    DivMod(m, n);
    Distribute(p, q, n);
    FloorGalois(p + q, a + m, n);
  }

  lemma FloorOfSumUpper(a: nat, m: nat, n: nat)
    requires n > 0
    ensures (a + m) / n <= a / n + CeilDiv(m, n)
  {
    var p, q := a / n, CeilDiv(m, n);
    DivMod(a, n);
    CeilBounds(m, n);
    Distribute(p, q, n);
    Distribute(p + q, 1, n);
    FloorGalois(p + q + 1, a + m, n);
  }

  lemma BelowGrowth(n: nat, r: nat, x: nat, m: nat)
    requires r < n
    ensures Below(n, r, x) + m / n <= Below(n, r, x + m) <= Below(n, r, x) + CeilDiv(m, n)
  {
    FloorOfSumLower(x + (n - 1 - r), m, n);
    FloorOfSumUpper(x + (n - 1 - r), m, n);
    assert x + m + (n - 1 - r) == x + (n - 1 - r) + m;
  }

  /** Among m consecutive tickets every region is drawn floor(m/n) or ceil(m/n) times. */
  lemma DrawsAreFair(n: nat, r: nat, first: nat, m: nat)
    requires r < n
    ensures m / n <= DrawsOf(n, r, first, m) <= CeilDiv(m, n)
  {
    DrawsAreDifference(n, r, first, m);
    BelowGrowth(n, r, first, m);
  }

  /** Callers numbered first <= t < first + m that were sent to a region. */
  ghost function SentTo(callers: seq<Caller>, region: nat, first: nat, m: nat): nat
    requires first + m <= |callers|
  {
    if m == 0 then 0
    else SentTo(callers, region, first, m - 1) + if callers[first + m - 1].region == region then 1 else 0
  }

  lemma TicketBelowRange(s: State, t: nat)
    requires TicketsInOrder(s) && t < |s.callers| && t < COUNTER_RANGE
    ensures s.callers[t].region == t % |s.last|
  {
    assert t % COUNTER_RANGE == t;
  }

  lemma {:induction false} SentToIsDraws(s: State, region: nat, first: nat, m: nat)
    requires TicketsInOrder(s) && first + m <= |s.callers| && first + m <= COUNTER_RANGE
    ensures SentTo(s.callers, region, first, m) == DrawsOf(|s.last|, region, first, m)
  {
    if m > 0 {
      SentToIsDraws(s, region, first, m - 1);
      TicketBelowRange(s, first + m - 1);
    }
  }

  /**
  In any run, m callers in a row, whatever became of them, were spread evenly: each
  region got floor(m/n) or ceil(m/n), as long as the counter had not wrapped.
  */
  lemma CallersSpreadEvenly(
    run: seq<State>, regions: nat, start: nat, interval: nat, k: nat, region: nat, first: nat, m: nat)
    requires IsRun(run, regions, start, interval) && k < |run| && region < regions
    requires first + m <= |run[k].callers| && first + m <= COUNTER_RANGE
    ensures m / regions <= SentTo(run[k].callers, region, first, m) <= CeilDiv(m, regions)
  {
    RunKeepsInvariant(run, regions, start, interval, k);
    SentToIsDraws(run[k], region, first, m);
    DrawsAreFair(regions, region, first, m);
  }
}
