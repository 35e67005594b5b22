/**
 The slow-request tracker and its watchdog (modules/factory.py, `setup_slow_request_logging`):
 hooks of many threads and the watchdog's scans, under one lock and in any order. Times are
 whole ticks of one clock that does not run backwards; an event stands where its thread has the lock.
 A hook's time is when it has it. A scan's is when it read the clock, before asking for the lock.
 */
module RequestWatchdog {
  import opened Wrappers

  datatype Thread = Thread(ident: int)

  /** What is kept about a request in progress; `request` is the request the hooks ran for. */
  datatype Meta = Meta(request: nat, startedAt: int, lastReportedAt: Option<int>)

  datatype Config = Config(slowAfter: int, repeatEvery: int)

  predicate Selected(c: Config, m: Meta, now: int) {
    && now - m.startedAt >= c.slowAfter
    && (m.lastReportedAt == None || now - m.lastReportedAt.value >= c.repeatEvery)
  }

  function Scanned(c: Config, active: map<Thread, Meta>, now: int): map<Thread, Meta> {
    map t | t in active ::
      if Selected(c, active[t], now) then active[t].(lastReportedAt := Some(now)) else active[t]
  }

  function Picked(c: Config, active: map<Thread, Meta>, now: int): set<nat> {
    set t | t in active && Selected(c, active[t], now) :: active[t].request
  }

  // ----------------------------------------------------------------- runs

  datatype Event =
    | Start(t: Thread, request: nat, now: int)
    | End(t: Thread, now: int)       // `after_request`
    | Teardown(t: Thread, now: int)
    | Turn(now: int)                 // a scan

  /** The tracker's table, and beside it what happened: the request each thread is in, when every
      request started, when it left the table, and when it was reported. */
  datatype World = World(
    active: map<Thread, Meta>,
    current: map<Thread, nat>, started: map<nat, int>, left: map<nat, int>,
    reports: map<nat, seq<int>>, clock: int)

  function Reports(w: World, r: nat): seq<int> {
    if r in w.reports then w.reports[r] else []
  }

  function TimeOf(e: Event): int { e.now }

  /** A request is started once, and the clock does not run backwards; a scan may have read it any
      time before. */
  predicate Possible(w: World, e: Event) {
    (e.Turn? || TimeOf(e) >= w.clock) && (e.Start? ==> e.request !in w.started)
  }

  /** What leaving the table records: from now on the request cannot be reported. */
  function Leave(w: World, t: Thread, now: int): World {
    if t !in w.active then w.(clock := now)
    else w.(active := w.active - {t}, left := w.left[w.active[t].request := now], clock := now)
  }

  function Next(c: Config, w: World, e: Event): World {
    match e
    case Start(t, r, now) =>
      var gone := Leave(w, t, now);
      gone.(active := w.active[t := Meta(r, now, None)], current := w.current[t := r], started := w.started[r := now])
    case End(t, now) => Leave(w, t, now)
    case Teardown(t, now) => Leave(w, t, now)
    case Turn(now) =>
      var picked := Picked(c, w.active, now);
      w.(active := Scanned(c, w.active, now),
         reports := map r | r in w.reports.Keys + picked ::
                      Reports(w, r) + (if r in picked then [now] else []),
         clock := if now > w.clock then now else w.clock)
  }

  const Empty := World(map[], map[], map[], map[], map[], 0)

  function Run(c: Config, events: seq<Event>): World {
    if events == [] then Empty else Next(c, Run(c, events[..|events| - 1]), events[|events| - 1])
  }

  /** A run is taken event by event. */
  lemma RunIs(c: Config, events: seq<Event>, e: Event)
    ensures Run(c, []) == Empty && Run(c, events + [e]) == Next(c, Run(c, events), e)
  {
    assert (events + [e])[..|events|] == events;
  }

  predicate Legal(c: Config, events: seq<Event>) {
    events == [] ||
    (Legal(c, events[..|events| - 1]) && Possible(Run(c, events[..|events| - 1]), events[|events| - 1]))
  }

  /** Reports of a request: none before the threshold, then at least the interval apart. */
  predicate Spaced(c: Config, start: int, times: seq<int>) {
    && (times != [] ==> times[0] >= start + c.slowAfter)
    && (forall i | 0 < i < |times| :: times[i] - times[i - 1] >= c.repeatEvery)
  }

  predicate Last(times: seq<int>, at: Option<int>) {
    at == if times == [] then None else Some(times[|times| - 1])
  }

  predicate Tracked(w: World, t: Thread)
    requires t in w.active
  {
    var m := w.active[t];
    && t in w.current && w.current[t] == m.request
    && m.request in w.started && w.started[m.request] == m.startedAt
    && m.request !in w.left
    && Last(Reports(w, m.request), m.lastReportedAt)
  }

  /** The reports of `r` are spaced, and none is later than the request's time in the table. */
  predicate ReportsFit(c: Config, w: World, r: nat)
    requires r in w.reports
  {
    && r in w.started && Spaced(c, w.started[r], w.reports[r])
    && forall i | 0 <= i < |w.reports[r]| :: w.reports[r][i] <= if r in w.left then w.left[r] else w.clock
  }

  predicate Distinct(active: map<Thread, Meta>) {
    forall t, u | t in active && u in active && t != u :: active[t].request != active[u].request
  }

  predicate Inv(c: Config, w: World) {
    && (forall t | t in w.active :: Tracked(w, t))
    && Distinct(w.active)
    && (forall r | r in w.reports :: ReportsFit(c, w, r))
    && (forall r | r in w.left :: r in w.started && w.left[r] <= w.clock)
  }

  lemma PickedIff(c: Config, active: map<Thread, Meta>, t: Thread, now: int)
    requires Distinct(active) && t in active
    ensures active[t].request in Picked(c, active, now) <==> Selected(c, active[t], now)
  {
  }

  lemma PickedThread(c: Config, active: map<Thread, Meta>, r: nat, now: int) returns (t: Thread)
    requires r in Picked(c, active, now)
    ensures t in active && active[t].request == r && Selected(c, active[t], now)
  {
    t :| t in active && Selected(c, active[t], now) && active[t].request == r;
  }

  lemma TurnTracks(c: Config, w: World, now: int, t: Thread)
    requires Inv(c, w) && t in w.active
    ensures Tracked(Next(c, w, Turn(now)), t)
  {
    assert Tracked(w, t);
    PickedIff(c, w.active, t, now);
  }

  lemma SpacedSnoc(c: Config, start: int, times: seq<int>, now: int)
    requires Spaced(c, start, times)
    requires if times == [] then now >= start + c.slowAfter else now - times[|times| - 1] >= c.repeatEvery
    ensures Spaced(c, start, times + [now])
  {
  }

  lemma TurnReports(c: Config, w: World, now: int, r: nat)
    requires r in Next(c, w, Turn(now)).reports
    ensures Next(c, w, Turn(now)).reports[r] ==
            if r in Picked(c, w.active, now) then Reports(w, r) + [now] else Reports(w, r)
  {
    assert Reports(w, r) + [] == Reports(w, r);
  }

  lemma PickedFits(c: Config, w: World, now: int, r: nat)
    requires Inv(c, w) && r in Picked(c, w.active, now)
    ensures r in w.started && r !in w.left && Spaced(c, w.started[r], Reports(w, r) + [now])
  {
    var t := PickedThread(c, w.active, r, now);
    assert Tracked(w, t);
    if r in w.reports { assert ReportsFit(c, w, r); }
    SpacedSnoc(c, w.started[r], Reports(w, r), now);
  }

  lemma TurnFits(c: Config, w: World, now: int, r: nat)
    requires Inv(c, w) && r in Next(c, w, Turn(now)).reports
    ensures ReportsFit(c, Next(c, w, Turn(now)), r)
  {
    TurnReports(c, w, now, r);
    if r in w.reports { assert ReportsFit(c, w, r); }
    if r in Picked(c, w.active, now) {
      PickedFits(c, w, now, r);
    }
  }

  lemma TurnKeepsInv(c: Config, w: World, now: int)
    requires Inv(c, w)
    ensures Inv(c, Next(c, w, Turn(now)))
  {
    var w' := Next(c, w, Turn(now));
    forall t | t in w'.active ensures Tracked(w', t) {
      TurnTracks(c, w, now, t);
    }
    forall r | r in w'.reports ensures ReportsFit(c, w', r) {
      TurnFits(c, w, now, r);
    }
  }

  lemma LeaveKeepsInv(c: Config, w: World, t: Thread, now: int)
    requires Inv(c, w) && now >= w.clock
    ensures Inv(c, Leave(w, t, now))
  {
    var w' := Leave(w, t, now);
    if t in w.active { assert Tracked(w, t); }
    forall u | u in w'.active ensures Tracked(w', u) {
      assert Tracked(w, u);
    }
    forall r | r in w'.reports ensures ReportsFit(c, w', r) {
      assert ReportsFit(c, w, r);
    }
  }

  /** A request new to a table that its thread has just left. */
  lemma EnterKeepsInv(c: Config, gone: World, t: Thread, r: nat, now: int)
    requires Inv(c, gone) && now == gone.clock && t !in gone.active && r !in gone.started
    ensures Inv(c, gone.(active := gone.active[t := Meta(r, now, None)], current := gone.current[t := r],
                         started := gone.started[r := now]))
  {
    var w' := gone.(active := gone.active[t := Meta(r, now, None)], current := gone.current[t := r],
                    started := gone.started[r := now]);
    forall q | q in w'.reports ensures q != r && ReportsFit(c, w', q) {
      assert ReportsFit(c, gone, q);
    }
    forall u | u in w'.active ensures Tracked(w', u) && (u != t ==> w'.active[u].request != r) {
      if u != t { assert Tracked(gone, u); }
    }
  }

  lemma StartKeepsInv(c: Config, w: World, t: Thread, r: nat, now: int)
    requires Inv(c, w) && now >= w.clock && r !in w.started
    ensures Inv(c, Next(c, w, Start(t, r, now)))
  {
    LeaveKeepsInv(c, w, t, now);
    var gone := Leave(w, t, now);
    EnterKeepsInv(c, gone, t, r, now);
    assert w.active[t := Meta(r, now, None)] == gone.active[t := Meta(r, now, None)];
  }

  lemma {:induction false} RunKeepsInv(c: Config, events: seq<Event>)
    requires Legal(c, events)
    ensures Inv(c, Run(c, events))
  {
    if events != [] {
      var n := |events| - 1;
      RunKeepsInv(c, events[..n]);
      var before := Run(c, events[..n]);
      match events[n] {
        case Start(t, r, now) => StartKeepsInv(c, before, t, r, now);
        case End(t, now) => LeaveKeepsInv(c, before, t, now);
        case Teardown(t, now) => LeaveKeepsInv(c, before, t, now);
        case Turn(now) => TurnKeepsInv(c, before, now);
      }
    }
  }

  /** The request is due a report: it is slow, and was never reported or long enough ago. */
  predicate DueReport(c: Config, w: World, r: nat, now: int)
    requires r in w.started
  {
    && now - w.started[r] >= c.slowAfter
    && (Reports(w, r) == [] || Reports(w, r)[|Reports(w, r)| - 1] <= now - c.repeatEvery)
  }

  /** A turn reports exactly the tracked requests that are due a report. */
  lemma PickedIsDue(c: Config, w: World, r: nat, now: int)
    requires Inv(c, w)
    ensures r in Picked(c, w.active, now) <==>
            exists t ::
              t in w.active && t in w.current && w.current[t] == r && r in w.started && DueReport(c, w, r, now)
    ensures Reports(Next(c, w, Turn(now)), r) == Reports(w, r) + (if r in Picked(c, w.active, now) then [now] else [])
  {
    if r in Picked(c, w.active, now) {
      var t := PickedThread(c, w.active, r, now);
      assert Tracked(w, t);
    }
    if t :| t in w.active && t in w.current && w.current[t] == r && r in w.started && DueReport(c, w, r, now) {
      assert Tracked(w, t);
      PickedIff(c, w.active, t, now);
    }
  }

  // ------------------------------------------------------------ the table

  /** The hooks and the watchdog's turns on the table they share. `world` is what an observer would
      have written down; every call is one event of it. */
  class RequestTracker {
    const config: Config
    var active: map<Thread, Meta>
    ghost var world: World

    ghost predicate Valid()
      reads this
    {
      active == world.active && Inv(config, world)
    }

    constructor (config: Config)
      ensures this.config == config && Valid() && world == Empty
    {
      this.config := config;
      active, world := map[], Empty;
    }

    /** `before_request`: from now on the thread's entry is about this request, and no other entry is. */
    method TrackStart(t: Thread, request: nat, now: int)
      requires Valid() && Possible(world, Start(t, request, now))
      modifies this
      ensures Valid() && world == Next(config, old(world), Start(t, request, now))
      ensures t in active && active[t].request == request == world.current[t]
      ensures forall u | u in active && u != t ::
                u in old(active) && active[u] == old(active)[u] && active[u].request != request
    {
      StartKeepsInv(config, world, t, request, now);
      active := active[t := Meta(request, now, None)];
      world := Next(config, world, Start(t, request, now));
    }

    /** `after_request`: whether the completed request was slow. The entry goes at `at`, under the lock;
        the clock is read after that, at `now`. */
    method LogSlow(t: Thread, at: int, now: int) returns (slow: bool)
      requires Valid() && world.clock <= at <= now
      modifies this
      ensures Valid() && world == Next(config, old(world), End(t, at))
      ensures slow <==> t in old(active) && now - old(world).started[old(world).current[t]] >= config.slowAfter
    {
      slow := false;
      if t in active {
        var meta := active[t];
        assert Tracked(world, t);
        slow := now - meta.startedAt >= config.slowAfter;
      }
      LeaveKeepsInv(config, world, t, at);
      active := active - {t};
      world := Next(config, world, End(t, at));
    }

    /** `teardown_request`: whatever ended the request, the thread has no entry, and a request that
        had one is never reported again. */
    method Clear(t: Thread, now: int)
      requires Valid() && now >= world.clock
      modifies this
      ensures Valid() && world == Next(config, old(world), Teardown(t, now))
      ensures t !in active && (t in old(active) ==> old(active)[t].request in world.left)
      ensures forall u | u in active :: active[u].request !in world.left
    {
      LeaveKeepsInv(config, world, t, now);
      active := active - {t};
      world := Next(config, world, Teardown(t, now));
      forall u | u in active ensures active[u].request !in world.left {
        assert Tracked(world, u);
      }
    }

    /** The loop of one turn, under the lock. */
    method Stamp(now: int) returns (reported: set<nat>)
      modifies this`active
      ensures active == Scanned(config, old(active), now)
      ensures reported == Picked(config, old(active), now)
    {
      ghost var before := active;
      var left := active.Keys;
      reported := {};
      while left != {}
        invariant left <= before.Keys && active.Keys == before.Keys
        invariant forall t | t in left :: active[t] == before[t]
        invariant forall t | t in before && t !in left :: active[t] == Scanned(config, before, now)[t]
        invariant reported == set t | t in before && t !in left && Selected(config, before[t], now) :: before[t].request
        decreases left
      {
        var t :| t in left;
        var meta := active[t];
        left := left - {t};
        if now - meta.startedAt < config.slowAfter { continue; }
        if meta.lastReportedAt.Some? && now - meta.lastReportedAt.value < config.repeatEvery { continue; }
        active := active[t := meta.(lastReportedAt := Some(now))];
        reported := reported + {meta.request};
      }
    }

    /** One turn of the watchdog: which requests it reports as still running. */
    method Scan(now: int) returns (reported: set<nat>)
      requires Valid()
      modifies this
      ensures Valid() && world == Next(config, old(world), Turn(now))
      ensures forall r :: r in reported <==>
                exists t :: t in old(active) && t in old(world).current && old(world).current[t] == r
                            && r in old(world).started && DueReport(config, old(world), r, now)
      ensures forall r :: Reports(world, r) == Reports(old(world), r) + (if r in reported then [now] else [])
    {
      TurnKeepsInv(config, world, now);
      forall r { PickedIsDue(config, world, r, now); }
      reported := Stamp(now);
      world := Next(config, world, Turn(now));
    }
  }

  // ------------------------------------------------------------- every run

  /** Whatever the interleaving, every entry of the table is about the request its thread is in
      now, started when the entry says, and no request has two entries. */
  lemma EntriesAreCurrent(c: Config, events: seq<Event>, t: Thread)
    requires Legal(c, events) && t in Run(c, events).active
    ensures var w := Run(c, events);
            && t in w.current && w.active[t].request == w.current[t]
            && w.active[t].request in w.started && w.active[t].startedAt == w.started[w.active[t].request]
            && forall u | u in w.active && u != t :: w.active[u].request != w.active[t].request
  {
    RunKeepsInv(c, events);
    assert Tracked(Run(c, events), t);
  }

  predicate ReportedWithin(c: Config, w: World, r: nat, now: int) {
    Reports(w, r) != [] && Reports(w, r)[|Reports(w, r)| - 1] > now - c.repeatEvery
  }

  lemma TurnReportsSlow(c: Config, w: World, now: int, t: Thread)
    requires Inv(c, w) && c.repeatEvery > 0 && t in w.active && now - w.active[t].startedAt >= c.slowAfter
    ensures t in w.current && ReportedWithin(c, Next(c, w, Turn(now)), w.current[t], now)
  {
    assert Tracked(w, t);
    PickedIsDue(c, w, w.current[t], now);
  }

  /** A slow request never goes unreported: after a turn every tracked request that is slow has a report
      less than the interval old. */
  lemma SlowIsReported(c: Config, events: seq<Event>, now: int, t: Thread)
    requires Legal(c, events) && c.repeatEvery > 0
    requires t in Run(c, events).active && now - Run(c, events).active[t].startedAt >= c.slowAfter
    ensures Legal(c, events + [Turn(now)])
    ensures var w := Run(c, events + [Turn(now)]);
            t in w.active && t in w.current && ReportedWithin(c, w, w.current[t], now)
  {
    var more := events + [Turn(now)];
    assert more[..|more| - 1] == events;
    RunKeepsInv(c, events);
    TurnReportsSlow(c, Run(c, events), now, t);
  }

  lemma {:induction false} SpacedBound(c: Config, start: int, times: seq<int>)
    requires Spaced(c, start, times) && times != [] && c.repeatEvery > 0
    ensures times[|times| - 1] >= start + c.slowAfter + (|times| - 1) * c.repeatEvery
  {
    var n := |times| - 1;
    if n > 0 {
      SpacedBound(c, start, times[..n]);
      assert times[n] - times[n - 1] >= c.repeatEvery;
      assert n * c.repeatEvery == (n - 1) * c.repeatEvery + c.repeatEvery;
    }
  }

  lemma AtMost(n: nat, step: int, room: int)
    requires step > 0 && n * step <= room
    ensures n <= room / step
  {
    var q := room / step;
    assert room < q * step + step;
    assert (q + 1 - n) * step > 0;
  }

  /** How many reports a request of duration `d` can see. */
  function MostReports(c: Config, d: int): int
    requires c.repeatEvery > 0
  {
    if d < c.slowAfter then 0 else 1 + (d - c.slowAfter) / c.repeatEvery
  }

  lemma SpacedFits(c: Config, start: int, times: seq<int>, end: int)
    requires Spaced(c, start, times) && c.repeatEvery > 0 && forall i | 0 <= i < |times| :: times[i] <= end
    ensures |times| <= MostReports(c, end - start)
  {
    if times != [] {
      var n := |times| - 1;
      SpacedBound(c, start, times);
      SpacedRising(c, start, times, n);
      AtMost(n, c.repeatEvery, end - start - c.slowAfter);
    } else if end - start >= c.slowAfter {
      AtMost(0, c.repeatEvery, end - start - c.slowAfter);
    }
  }

  lemma {:induction false} SpacedRising(c: Config, start: int, times: seq<int>, i: nat)
    requires Spaced(c, start, times) && c.repeatEvery > 0 && i < |times|
    ensures times[i] >= start + c.slowAfter
  {
    if i > 0 {
      SpacedRising(c, start, times, i - 1);
    }
  }

  predicate NoneEarly(c: Config, start: int, times: seq<int>) {
    forall i | 0 <= i < |times| :: times[i] >= start + c.slowAfter
  }

  /** Until when a request could be reported: it left the table then, or is in it still. */
  function LastMoment(w: World, r: nat): int {
    if r in w.left then w.left[r] else w.clock
  }

  lemma FitsBounded(c: Config, w: World, r: nat)
    requires c.repeatEvery > 0 && r in w.reports && ReportsFit(c, w, r)
    ensures NoneEarly(c, w.started[r], w.reports[r])
    ensures |w.reports[r]| <= MostReports(c, LastMoment(w, r) - w.started[r])
  {
    SpacedFits(c, w.started[r], w.reports[r], LastMoment(w, r));
    forall i | 0 <= i < |w.reports[r]| ensures w.reports[r][i] >= w.started[r] + c.slowAfter {
      SpacedRising(c, w.started[r], w.reports[r], i);
    }
  }

  lemma InvBounds(c: Config, w: World, r: nat)
    requires Inv(c, w) && c.repeatEvery > 0 && r in w.started
    ensures NoneEarly(c, w.started[r], Reports(w, r))
    ensures |Reports(w, r)| <= MostReports(c, LastMoment(w, r) - w.started[r])
  {
    if r in w.reports {
      assert ReportsFit(c, w, r);
      FitsBounded(c, w, r);
    } else {
      SpacedFits(c, w.started[r], [], LastMoment(w, r));
    }
  }

  /** A request that has lasted, or did last, `d` ticks was reported as still running never before
      the threshold and at most 1 + (d - slow_after) / repeat_every times. */
  lemma ReportsAreBounded(c: Config, events: seq<Event>, r: nat)
    requires Legal(c, events) && c.repeatEvery > 0 && r in Run(c, events).started
    ensures var w := Run(c, events);
            && NoneEarly(c, w.started[r], Reports(w, r))
            && |Reports(w, r)| <= MostReports(c, LastMoment(w, r) - w.started[r])
  {
    RunKeepsInv(c, events);
    InvBounds(c, Run(c, events), r);
  }
}
