/** ThrottlerGuard: a fixed-window limiter over an in-memory store, with periodic cleanup. */
module Throttler {
  /** One window of one key. resetTime is its last instant. */
  datatype Entry = Entry(count: int, resetTime: int)

  type Store = map<string, Entry>

  /** A request as canActivate sees it, in milliseconds; Cleanup is the timer's sweep. */
  datatype Event =
    | Request(key: string, limit: int, windowMs: int, now: int)
    | Cleanup(now: int)

  /** The values of the response headers: X-RateLimit-Remaining, which is 0 on a rejection,
      Retry-After and X-RateLimit-Reset. */
  datatype Decision = Admitted(remaining: int, reset: int) | Rejected(retryAfter: int, reset: int)

  /** Whole seconds, rounded up. */
  function CeilSeconds(ms: int): int {
    (ms + 999) / 1000
  }

  function Remaining(limit: int, count: int): int {
    if limit - count < 0 then 0 else limit - count
  }

  predicate NewWindow(store: Store, key: string, now: int) {
    key !in store || now > store[key].resetTime
  }

  function Decide(store: Store, key: string, limit: int, windowMs: int, now: int): Decision {
    if NewWindow(store, key, now) then Admitted(Remaining(limit, 1), CeilSeconds(now + windowMs))
    else if store[key].count >= limit then
      Rejected(CeilSeconds(store[key].resetTime - now), CeilSeconds(store[key].resetTime))
    else Admitted(Remaining(limit, store[key].count + 1), CeilSeconds(now + windowMs))
  }

  function Record(store: Store, key: string, limit: int, windowMs: int, now: int): Store {
    if NewWindow(store, key, now) then store[key := Entry(1, now + windowMs)]
    else if store[key].count >= limit then store
    else store[key := store[key].(count := store[key].count + 1)]
  }

  function Swept(store: Store, now: int): Store {
    map key | key in store && now <= store[key].resetTime :: store[key]
  }

  function Next(store: Store, e: Event): Store {
    match e
    case Request(key, limit, windowMs, now) => Record(store, key, limit, windowMs, now)
    case Cleanup(now) => Swept(store, now)
  }

  function Run(events: seq<Event>): Store {
    if events == [] then map[]
    else Next(Run(events[..|events| - 1]), events[|events| - 1])
  }

  class ThrottlerGuard {
    var store: Store

    constructor ()
      ensures store == map[]
    {
      store := map[];
    }

    /** The store logic of canActivate. */
    method CanActivate(key: string, limit: int, windowMs: int, now: int) returns (d: Decision)
      modifies this
      ensures d == Decide(old(store), key, limit, windowMs, now)
      ensures store == Next(old(store), Request(key, limit, windowMs, now))
    {
      if key !in store || now > store[key].resetTime {
        store := store[key := Entry(1, now + windowMs)];
        return Admitted(Remaining(limit, 1), CeilSeconds(now + windowMs));
      }
      var entry := store[key];
      if entry.count >= limit {
        return Rejected(CeilSeconds(entry.resetTime - now), CeilSeconds(entry.resetTime));
      }
      store := store[key := entry.(count := entry.count + 1)];
      return Admitted(Remaining(limit, entry.count + 1), CeilSeconds(now + windowMs));
    }

    /** Visits every entry and deletes the expired ones. */
    method SweepExpired(now: int)
      modifies this
      ensures store == Next(old(store), Cleanup(now))
    {
      var pending := store.Keys;
      while pending != {}
        invariant pending <= store.Keys
        invariant forall key :: key in store ==> key in old(store) && store[key] == old(store)[key]
        invariant forall key :: key in old(store) && now <= old(store)[key].resetTime ==> key in store
        invariant forall key :: key in store && key !in pending ==> now <= store[key].resetTime
        decreases |pending|
      {
        var key :| key in pending;
        if now > store[key].resetTime {
          store := store - {key};
        }
        pending := pending - {key};
      }
    }
  }

  // ---------- The Retry-After header ----------

  /** A rejected client is let in one millisecond after the seconds it was told to wait, and never
      a whole second sooner; at the very instant it is let in unless the wait was a whole number
      of seconds, because a window includes its last instant. */
  lemma RetryAfterIsTight(store: Store, key: string, limit: int, windowMs: int, now: int)
    requires Decide(store, key, limit, windowMs, now).Rejected?
    ensures
      var r := Decide(store, key, limit, windowMs, now).retryAfter;
      && Decide(store, key, limit, windowMs, now + 1000 * r + 1).Admitted?
      && (r > 0 ==> Decide(store, key, limit, windowMs, now + 1000 * (r - 1)).Rejected?)
      && (Decide(store, key, limit, windowMs, now + 1000 * r).Admitted? <==> (store[key].resetTime - now) % 1000 != 0)
  {
    var wait := store[key].resetTime - now;
    assert wait == 1000 * (wait / 1000) + wait % 1000;
  }

  // ---------- The X-RateLimit-Remaining header ----------

  /** The header counts down to zero: within the same window the next request is admitted exactly
      when some were left, and then one fewer is; a new window of a positive limit leaves
      limit - 1. */
  lemma RemainingCountsDown(store: Store, key: string, limit: int, windowMs: int, now: int, later: int)
    requires Decide(store, key, limit, windowMs, now).Admitted?
    ensures
      var d, after := Decide(store, key, limit, windowMs, now), Record(store, key, limit, windowMs, now);
      && key in after && d.remaining >= 0
      && (key !in store || now > store[key].resetTime ==> d.remaining == if limit >= 1 then limit - 1 else 0)
      && (later <= after[key].resetTime ==>
            var next := Decide(after, key, limit, windowMs, later);
            && (next.Admitted? <==> d.remaining > 0)
            && (next.Admitted? ==> next.remaining == d.remaining - 1))
  {
  }

  // ---------- The X-RateLimit-Reset header ----------

  lemma CeilSecondsExactly(ms: int, later: int)
    requires later >= 0
    ensures CeilSeconds(ms + later) == CeilSeconds(ms) <==> later <= (-ms) % 1000
    ensures later - 1000 < 1000 * (CeilSeconds(ms + later) - CeilSeconds(ms)) < later + 1000
  {
    var q, r := (-ms) / 1000, (-ms) % 1000;
    assert -ms == 1000 * q + r;
    assert CeilSeconds(ms) == -q;
  }

  /** X-RateLimit-Reset names the second in which the stored window ends if and only if the request
      opens the window, is rejected, or comes no later after the opening than the end lies before
      a whole second. Otherwise it is late by the age of the window, give or take the rounding,
      because it is computed as for a window that opens now. */
  lemma ResetHeaderIsLate(store: Store, key: string, limit: int, windowMs: int, now: int, openedAt: int)
    requires !NewWindow(store, key, now) ==> store[key].resetTime == openedAt + windowMs && openedAt <= now
    ensures
      var d, after := Decide(store, key, limit, windowMs, now), Record(store, key, limit, windowMs, now);
      && key in after
      && (d.reset == CeilSeconds(after[key].resetTime) <==>
            NewWindow(store, key, now) || d.Rejected? || now - openedAt <= (-(openedAt + windowMs)) % 1000)
      && (!NewWindow(store, key, now) && d.Admitted? ==>
            -1000 < 1000 * (d.reset - CeilSeconds(after[key].resetTime)) - (now - openedAt) < 1000)
  {
    if !NewWindow(store, key, now) {
      CeilSecondsExactly(openedAt + windowMs, now - openedAt);
      assert openedAt + windowMs + (now - openedAt) == now + windowMs;
    }
  }

  /** A second request half a minute into a window of one minute is told to wait a full minute
      more. */
  lemma ResetHeaderHalfAMinuteLate()
    ensures
      var store := Run([Request("k", 100, 60000, 0)]);
      var d := Decide(store, "k", 100, 60000, 30000);
      d.Admitted? && d.reset == 90 && CeilSeconds(Record(store, "k", 100, 60000, 30000)["k"].resetTime) == 60
  {
    assert [Request("k", 100, 60000, 0)][..0] == [];
  }

  // ---------- Cleanup never changes a decision ----------

  predicate ClockNeverGoesBack(events: seq<Event>) {
    forall i, j :: 0 <= i < j < |events| ==> events[i].now <= events[j].now
  }

  function WithoutCleanup(events: seq<Event>): seq<Event> {
    if events == [] then []
    else
      var last := events[|events| - 1];
      WithoutCleanup(events[..|events| - 1]) + if last.Request? then [last] else []
  }

  /** The pruned store has every live entry of the unpruned one, and no other. */
  ghost predicate Simulates(pruned: Store, full: Store, now: int) {
    && (forall key :: key in pruned ==> key in full && pruned[key] == full[key])
    && (forall key :: key in full && key !in pruned ==> full[key].resetTime < now)
  }

  lemma SimulationStep(pruned: Store, full: Store, before: int, e: Event)
    requires Simulates(pruned, full, before) && before <= e.now
    ensures e.Request? ==>
      && Decide(pruned, e.key, e.limit, e.windowMs, e.now) == Decide(full, e.key, e.limit, e.windowMs, e.now)
      && Simulates(Next(pruned, e), Next(full, e), e.now)
    ensures e.Cleanup? ==> Simulates(Next(pruned, e), full, e.now)
  {
  }

  lemma {:induction false} RunSimulates(events: seq<Event>, now: int)
    requires ClockNeverGoesBack(events)
    requires forall e :: e in events ==> e.now <= now
    ensures Simulates(Run(events), Run(WithoutCleanup(events)), now)
  {
    if events != [] {
      var before, e := events[..|events| - 1], events[|events| - 1];
      RunSimulates(before, e.now);
      SimulationStep(Run(before), Run(WithoutCleanup(before)), e.now, e);
      var kept := WithoutCleanup(events);
      if e.Request? {
        assert kept[..|kept| - 1] == WithoutCleanup(before);
      } else {
        assert kept == WithoutCleanup(before);
      }
    }
  }

  /** Whatever requests and sweeps came before, for whatever keys and limits: the next decision
      on any key is the one an unswept store would give. */
  lemma CleanupChangesNoDecision(events: seq<Event>, key: string, limit: int, windowMs: int, now: int)
    requires ClockNeverGoesBack(events)
    requires forall e :: e in events ==> e.now <= now
    ensures Decide(Run(events), key, limit, windowMs, now) == Decide(Run(WithoutCleanup(events)), key, limit, windowMs, now)
  {
    RunSimulates(events, now);
  }

  // ---------- How many requests an interval can admit ----------

  /** The times at which requests on a key were admitted. */
  function AdmittedTimes(events: seq<Event>, key: string): seq<int> {
    if events == [] then []
    else
      var before, e := events[..|events| - 1], events[|events| - 1];
      AdmittedTimes(before, key) +
        if e.Request? && e.key == key && Decide(Run(before), key, e.limit, e.windowMs, e.now).Admitted? then [e.now]
        else []
  }

  lemma Append(events: seq<Event>, e: Event, key: string)
    ensures Run(events + [e]) == Next(Run(events), e)
    ensures WithoutCleanup(events + [e]) == WithoutCleanup(events) + if e.Request? then [e] else []
    ensures AdmittedTimes(events + [e], key) == AdmittedTimes(events, key) +
      if e.Request? && e.key == key && Decide(Run(events), key, e.limit, e.windowMs, e.now).Admitted? then [e.now] else []
  {
    assert (events + [e])[..|events|] == events;
  }

  /** How many times lie in the closed interval from lo to hi. */
  function CountIn(times: seq<int>, lo: int, hi: int): nat {
    if times == [] then 0
    else
      var last := times[|times| - 1];
      CountIn(times[..|times| - 1], lo, hi) + if lo <= last <= hi then 1 else 0
  }

  lemma CountAppend(times: seq<int>, t: int, lo: int, hi: int)
    ensures CountIn(times + [t], lo, hi) == CountIn(times, lo, hi) + if lo <= t <= hi then 1 else 0
  {
    assert (times + [t])[..|times|] == times;
  }

  /** How many times lie at or after lo. */
  function CountFrom(times: seq<int>, lo: int): nat {
    if times == [] then 0
    else
      var last := times[|times| - 1];
      CountFrom(times[..|times| - 1], lo) + if lo <= last then 1 else 0
  }

  lemma CountFromAppend(times: seq<int>, t: int, lo: int)
    ensures CountFrom(times + [t], lo) == CountFrom(times, lo) + if lo <= t then 1 else 0
  {
    assert (times + [t])[..|times|] == times;
  }

  lemma {:induction false} CountBounds(times: seq<int>, lo: int, lo': int, hi: int)
    requires lo <= lo'
    ensures CountIn(times, lo', hi) <= CountFrom(times, lo') <= CountFrom(times, lo)
    ensures hi < lo' ==> CountIn(times, lo', hi) == 0
  {
    if times != [] {
      CountBounds(times[..|times| - 1], lo, lo', hi);
    }
  }

  lemma {:induction false} CountNone(times: seq<int>, lo: int)
    requires forall t :: t in times ==> t < lo
    ensures CountFrom(times, lo) == 0
  {
    if times != [] {
      var before := times[..|times| - 1];
      assert times[|times| - 1] in times;
      forall t | t in before
        ensures t < lo
      {
        assert t in times;
      }
      CountNone(before, lo);
    }
  }

  lemma {:induction false} CountAfter(times: seq<int>, t: int)
    requires t in times
    ensures CountFrom(times, t + 1) + 1 <= CountFrom(times, t)
  {
    var before := times[..|times| - 1];
    CountBounds(before, t, t + 1, t);
    if times[|times| - 1] != t {
      assert t in before;
      CountAfter(before, t);
    }
  }

  function AtLeastOne(limit: int): nat {
    if limit < 1 then 1 else limit
  }

  /** Every request on the key carries this limit and window. */
  predicate FixedQuota(events: seq<Event>, key: string, limit: int, windowMs: int) {
    forall e :: e in events && e.Request? && e.key == key ==> e.limit == limit && e.windowMs == windowMs
  }

  /** The current window began with an admission at start; its count is what was admitted since,
      and the windows before it have put less than one quota into the windowMs before start. */
  predicate WindowInv(store: Store, key: string, times: seq<int>, limit: int, windowMs: int) {
    if key !in store then times == []
    else
      var start := store[key].resetTime - windowMs;
      && start in times
      && (forall t :: t in times ==> t <= store[key].resetTime)
      && CountFrom(times, start) == store[key].count <= AtLeastOne(limit)
      && CountFrom(times, start - windowMs) <= store[key].count + AtLeastOne(limit) - 1
  }

  /** A window opens more than windowMs after the one before it opened, so the windowMs before
      it hold admissions of that one window only, and not its first. */
  lemma OpenWindow(store: Store, key: string, times: seq<int>, limit: int, windowMs: int, now: int)
    requires windowMs >= 0 && WindowInv(store, key, times, limit, windowMs) && NewWindow(store, key, now)
    ensures WindowInv(store[key := Entry(1, now + windowMs)], key, times + [now], limit, windowMs)
    ensures CountFrom(times + [now], now - windowMs) <= 2 * AtLeastOne(limit) - 1
  {
    CountNone(times, now);
    CountFromAppend(times, now, now);
    CountFromAppend(times, now, now - windowMs);
    if key in store {
      var start := store[key].resetTime - windowMs;
      CountAfter(times, start);
      CountBounds(times, start + 1, now - windowMs, now);
    } else {
      CountNone(times, now - windowMs);
    }
    assert (times + [now])[|times|] == now;
  }

  lemma StayInWindow(store: Store, key: string, times: seq<int>, limit: int, windowMs: int, now: int)
    requires windowMs >= 0 && WindowInv(store, key, times, limit, windowMs) && !NewWindow(store, key, now)
    requires store[key].count < limit && (forall t :: t in times ==> t <= now)
    ensures WindowInv(store[key := store[key].(count := store[key].count + 1)], key, times + [now], limit, windowMs)
    ensures CountFrom(times + [now], now - windowMs) <= 2 * AtLeastOne(limit) - 1
  {
    var start := store[key].resetTime - windowMs;
    CountFromAppend(times, now, start);
    CountFromAppend(times, now, start - windowMs);
    CountBounds(times + [now], start - windowMs, now - windowMs, now);
  }

  /** What holds after a run without sweeps whose last event was at now or before. */
  predicate Bounded(store: Store, key: string, times: seq<int>, limit: int, windowMs: int, now: int, a: int) {
    && (forall t :: t in times ==> t <= now)
    && WindowInv(store, key, times, limit, windowMs)
    && CountIn(times, a, a + windowMs) <= 2 * AtLeastOne(limit) - 1
  }

  lemma RequestStep(
    store: Store, key: string, times: seq<int>, limit: int, windowMs: int, now: int, a: int)
    requires windowMs >= 0 && Bounded(store, key, times, limit, windowMs, now, a)
    ensures
      var times' := times + if Decide(store, key, limit, windowMs, now).Admitted? then [now] else [];
      Bounded(Record(store, key, limit, windowMs, now), key, times', limit, windowMs, now, a)
  {
    if Decide(store, key, limit, windowMs, now).Admitted? {
      if NewWindow(store, key, now) {
        OpenWindow(store, key, times, limit, windowMs, now);
      } else {
        StayInWindow(store, key, times, limit, windowMs, now);
      }
      CountAppend(times, now, a, a + windowMs);
      if now <= a + windowMs {
        CountBounds(times + [now], now - windowMs, a, a + windowMs);
      }
    } else {
      assert times + [] == times;
    }
  }

  lemma OtherKeyStep(store: Store, e: Event, key: string, times: seq<int>, limit: int, windowMs: int, a: int)
    requires e.Request? && e.key != key && Bounded(store, key, times, limit, windowMs, e.now, a)
    ensures Bounded(Next(store, e), key, times, limit, windowMs, e.now, a)
  {
  }

  /** One event, seen from the store without sweeps. */
  lemma FullStoreStep(before: seq<Event>, e: Event, key: string)
    requires ClockNeverGoesBack(before) && (forall x :: x in before ==> x.now <= e.now)
    ensures
      var full := Run(WithoutCleanup(before));
      && Run(WithoutCleanup(before + [e])) == (if e.Request? then Next(full, e) else full)
      && AdmittedTimes(before + [e], key) == AdmittedTimes(before, key) +
           if e.Request? && e.key == key && Decide(full, key, e.limit, e.windowMs, e.now).Admitted? then [e.now] else []
  {
    Append(before, e, key);
    if e.Request? {
      Append(WithoutCleanup(before), e, key);
      CleanupChangesNoDecision(before, key, e.limit, e.windowMs, e.now);
    } else {
      assert WithoutCleanup(before) + [] == WithoutCleanup(before);
    }
  }

  lemma {:induction false} WindowsBoundIntervals(
    events: seq<Event>, key: string, limit: int, windowMs: int, now: int, a: int)
    requires windowMs >= 0 && ClockNeverGoesBack(events) && FixedQuota(events, key, limit, windowMs)
    requires forall e :: e in events ==> e.now <= now
    ensures Bounded(Run(WithoutCleanup(events)), key, AdmittedTimes(events, key), limit, windowMs, now, a)
  {
    if events != [] {
      var before, e := events[..|events| - 1], events[|events| - 1];
      assert e in events && events == before + [e];
      WindowsBoundIntervals(before, key, limit, windowMs, e.now, a);
      FullStoreStep(before, e, key);
      var full, times := Run(WithoutCleanup(before)), AdmittedTimes(before, key);
      assert times + [] == times;
      if e.Request? && e.key == key {
        RequestStep(full, key, times, limit, windowMs, e.now, a);
      } else if e.Request? {
        OtherKeyStep(full, e, key, times, limit, windowMs, a);
      }
    }
  }

  /** For a key with a fixed limit and window and a clock that never goes back, with sweeps at
      any time: every closed interval of length windowMs contains at most 2 * max(1, limit) - 1
      admitted requests. */
  lemma LessThanTwiceTheQuota(events: seq<Event>, key: string, limit: int, windowMs: int, a: int)
    requires ClockNeverGoesBack(events) && FixedQuota(events, key, limit, windowMs)
    ensures CountIn(AdmittedTimes(events, key), a, a + windowMs) <= 2 * AtLeastOne(limit) - 1
  {
    if windowMs < 0 {
      CountBounds(AdmittedTimes(events, key), a, a, a + windowMs);
    } else if events != [] {
      WindowsBoundIntervals(events, key, limit, windowMs, events[|events| - 1].now, a);
    }
  }

  // ---------- The bound is met ----------

  function Repeat<T>(x: T, n: nat): (r: seq<T>)
    ensures |r| == n && forall i :: 0 <= i < n ==> r[i] == x
  {
    if n == 0 then [] else Repeat(x, n - 1) + [x]
  }

  lemma RepeatLast<T>(s: seq<T>, x: T, n: nat)
    ensures s + Repeat(x, 0) == s
    ensures n > 0 ==> s + Repeat(x, n) == s + Repeat(x, n - 1) + [x]
  {
  }

  /** Where a run stands on one key: its window and what was admitted so far. */
  predicate Stands(events: seq<Event>, key: string, entry: Entry, times: seq<int>) {
    key in Run(events) && Run(events)[key] == entry && AdmittedTimes(events, key) == times
  }

  lemma OneMoreIsAdmitted(events: seq<Event>, e: Event, entry: Entry, times: seq<int>)
    requires e.Request? && Stands(events, e.key, entry, times)
    requires e.now <= entry.resetTime && entry.count < e.limit
    ensures Stands(events + [e], e.key, Entry(entry.count + 1, entry.resetTime), times + [e.now])
  {
  }

  /** n requests at one instant that still fit into the current window are all admitted. */
  lemma {:induction false} BurstIsAdmitted(events: seq<Event>, e: Event, n: nat, entry: Entry, times: seq<int>)
    requires e.Request? && Stands(events, e.key, entry, times)
    requires e.now <= entry.resetTime && entry.count + n <= e.limit
    ensures Stands(events + Repeat(e, n), e.key, Entry(entry.count + n, entry.resetTime), times + Repeat(e.now, n))
  {
    RepeatLast(events, e, n);
    RepeatLast(times, e.now, n);
    if n > 0 {
      BurstIsAdmitted(events, e, n - 1, entry, times);
      OneMoreIsAdmitted(events + Repeat(e, n - 1), e, Entry(entry.count + n - 1, entry.resetTime), times + Repeat(e.now, n - 1));
    }
  }

  lemma NewWindowIsAdmitted(events: seq<Event>, e: Event)
    requires e.Request? && NewWindow(Run(events), e.key, e.now)
    ensures Stands(events + [e], e.key, Entry(1, e.now + e.windowMs), AdmittedTimes(events, e.key) + [e.now])
  {
  }

  lemma {:induction false} CountBurst(times: seq<int>, t: int, n: nat, lo: int, hi: int)
    requires lo <= t <= hi
    ensures CountIn(times + Repeat(t, n), lo, hi) == CountIn(times, lo, hi) + n
  {
    RepeatLast(times, t, n);
    if n > 0 {
      CountBurst(times, t, n - 1, lo, hi);
      CountAppend(times + Repeat(t, n - 1), t, lo, hi);
    }
  }

  /** One window's burst: a request that opens the window at its time, and limit - 1 more at the
      later time last. */
  function WindowBurst(key: string, limit: int, windowMs: int, open: int, last: int): seq<Event>
    requires limit >= 1
  {
    [Request(key, limit, windowMs, open)] + Repeat(Request(key, limit, windowMs, last), limit - 1)
  }

  /** One request at 0, limit - 1 at the last instant of its window, and limit requests one
      millisecond later: the interval from 1 to windowMs + 1 admits 2 * limit - 1. */
  function WorstCase(key: string, limit: int, windowMs: int): seq<Event>
    requires limit >= 1
  {
    WindowBurst(key, limit, windowMs, 0, windowMs)
    + WindowBurst(key, limit, windowMs, windowMs + 1, windowMs + 1)
  }

  lemma WindowIsAdmitted(events: seq<Event>, key: string, limit: int, windowMs: int, open: int, last: int)
    requires limit >= 1 && open <= last <= open + windowMs && NewWindow(Run(events), key, open)
    ensures Stands(events + WindowBurst(key, limit, windowMs, open, last), key, Entry(limit, open + windowMs),
                   AdmittedTimes(events, key) + [open] + Repeat(last, limit - 1))
  {
    var first, later := Request(key, limit, windowMs, open), Request(key, limit, windowMs, last);
    var times := AdmittedTimes(events, key);
    assert events + WindowBurst(key, limit, windowMs, open, last) == events + [first] + Repeat(later, limit - 1) by {
      Regroup(events, [first], Repeat(later, limit - 1));
    }
    assert Stands(events + [first], key, Entry(1, open + windowMs), times + [open]) by {
      NewWindowIsAdmitted(events, first);
    }
    BurstIsAdmitted(events + [first], later, limit - 1, Entry(1, open + windowMs), times + [open]);
  }

  lemma Regroup<T>(a: seq<T>, b: seq<T>, c: seq<T>)
    ensures a + b + c == a + (b + c)
  {
  }

  lemma CountWindow(times: seq<int>, limit: int, open: int, last: int, lo: int, hi: int)
    requires limit >= 1 && lo <= last <= hi && open <= hi
    ensures CountIn(times + [open] + Repeat(last, limit - 1), lo, hi) ==
      CountIn(times, lo, hi) + limit - if open < lo then 1 else 0
  {
    CountAppend(times, open, lo, hi);
    CountBurst(times + [open], last, limit - 1, lo, hi);
  }

  lemma WorstCaseIsOrdered(key: string, limit: int, windowMs: int)
    requires limit >= 1 && windowMs >= 1
    ensures
      var events := WorstCase(key, limit, windowMs);
      ClockNeverGoesBack(events) && FixedQuota(events, key, limit, windowMs)
  {
    var events := WorstCase(key, limit, windowMs);
    forall i | 0 <= i < |events|
      ensures events[i] ==
        Request(key, limit, windowMs, if i == 0 then 0 else if i < limit then windowMs else windowMs + 1)
    {
    }
  }

  function WorstTimes(limit: int, windowMs: int): seq<int>
    requires limit >= 1
  {
    [] + [0] + Repeat(windowMs, limit - 1) + [windowMs + 1] + Repeat(windowMs + 1, limit - 1)
  }

  lemma WorstCaseTimes(key: string, limit: int, windowMs: int)
    requires limit >= 1 && windowMs >= 1
    ensures AdmittedTimes(WorstCase(key, limit, windowMs), key) == WorstTimes(limit, windowMs)
  {
    var window1 := WindowBurst(key, limit, windowMs, 0, windowMs);
    WindowIsAdmitted([], key, limit, windowMs, 0, windowMs);
    assert [] + window1 == window1;
    WindowIsAdmitted(window1, key, limit, windowMs, windowMs + 1, windowMs + 1);
  }

  lemma WorstTimesCount(limit: int, windowMs: int)
    requires limit >= 1 && windowMs >= 1
    ensures CountIn(WorstTimes(limit, windowMs), 1, 1 + windowMs) == 2 * limit - 1
  {
    CountWindow([], limit, 0, windowMs, 1, 1 + windowMs);
    CountWindow([] + [0] + Repeat(windowMs, limit - 1), limit, windowMs + 1, windowMs + 1, 1, 1 + windowMs);
  }

  /** For every limit and window there is a run that meets the bound. */
  lemma BoundIsMet(key: string, limit: int, windowMs: int)
    requires limit >= 1 && windowMs >= 1
    ensures exists events ::
      && ClockNeverGoesBack(events) && FixedQuota(events, key, limit, windowMs)
      && CountIn(AdmittedTimes(events, key), 1, 1 + windowMs) == 2 * limit - 1
  {
    WorstCaseIsOrdered(key, limit, windowMs);
    WorstCaseTimes(key, limit, windowMs);
    WorstTimesCount(limit, windowMs);
    var events := WorstCase(key, limit, windowMs);
    assert CountIn(AdmittedTimes(events, key), 1, 1 + windowMs) == 2 * limit - 1;
  }
}
