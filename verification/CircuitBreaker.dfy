/** The circuit breaker, with calls that overlap: a call's start and its completion are separate
    events, so a call begun in one state may complete in another. */
module CircuitBreaker {
  datatype CircuitState = Closed | Open | HalfOpen

  datatype Options = Options(failureThreshold: int, resetTimeoutMs: int, successThreshold: int)

  datatype Breaker = Breaker(
    state: CircuitState, failureCount: nat, successCount: nat, lastFailureTime: int, nextAttemptTime: int)

  /** Begin is the head of execute, Succeed and Fail the completion of a call begun at any time
      before, Inspect a reading of the state property. */
  datatype Event =
    | Begin(now: int)
    | Succeed
    | Fail(now: int)
    | Inspect(now: int)
    | Reset

  const INITIAL := Breaker(Closed, 0, 0, 0, 0)

  /** The state property: an open circuit whose timeout has passed becomes half-open. */
  function Refreshed(b: Breaker, now: int): Breaker {
    if b.state == Open && now >= b.nextAttemptTime then b.(state := HalfOpen) else b
  }

  function AfterSuccess(opts: Options, b: Breaker): Breaker {
    if b.state == HalfOpen then
      if b.successCount + 1 >= opts.successThreshold then
        b.(state := Closed, failureCount := 0, successCount := 0)
      else b.(successCount := b.successCount + 1)
    else b.(failureCount := 0)
  }

  function AfterFailure(opts: Options, b: Breaker, now: int): Breaker {
    var b1 := b.(failureCount := b.failureCount + 1, lastFailureTime := now);
    if b.state == HalfOpen then
      b1.(state := Open, nextAttemptTime := now + opts.resetTimeoutMs, successCount := 0)
    else if b1.failureCount >= opts.failureThreshold then
      b1.(state := Open, nextAttemptTime := now + opts.resetTimeoutMs)
    else b1
  }

  function Next(opts: Options, b: Breaker, e: Event): Breaker {
    match e
    case Begin(now) => Refreshed(b, now)
    case Inspect(now) => Refreshed(b, now)
    case Succeed => AfterSuccess(opts, b)
    case Fail(now) => AfterFailure(opts, b, now)
    case Reset => INITIAL
  }

  function Run(opts: Options, events: seq<Event>): Breaker {
    if events == [] then INITIAL
    else Next(opts, Run(opts, events[..|events| - 1]), events[|events| - 1])
  }

  /** Whether the call begun by the i-th event reaches the wrapped function. */
  predicate Starts(opts: Options, events: seq<Event>, i: nat)
    requires i < |events|
  {
    events[i].Begin? && Run(opts, events[..i + 1]).state != Open
  }

  class CircuitBreaker {
    const opts: Options
    var state: CircuitState
    var failureCount: nat
    var successCount: nat
    var lastFailureTime: int
    var nextAttemptTime: int

    function View(): Breaker
      reads this
    {
      Breaker(state, failureCount, successCount, lastFailureTime, nextAttemptTime)
    }

    constructor (opts: Options)
      ensures View() == INITIAL && this.opts == opts
    {
      this.opts := opts;
      state, failureCount, successCount, lastFailureTime, nextAttemptTime := Closed, 0, 0, 0, 0;
    }

    method ReadState(now: int) returns (current: CircuitState)
      modifies this
      ensures View() == Next(opts, old(View()), Inspect(now)) && current == state
    {
      if state == Open && now >= nextAttemptTime {
        state := HalfOpen;
      }
      return state;
    }

    /** The head of execute: false is the CircuitOpenError. */
    method TryBegin(now: int) returns (admitted: bool)
      modifies this
      ensures View() == Next(opts, old(View()), Begin(now)) && (admitted <==> state != Open)
    {
      var current := ReadState(now);
      return current != Open;
    }

    method OnSuccess()
      modifies this
      ensures View() == Next(opts, old(View()), Succeed)
    {
      if state == HalfOpen {
        successCount := successCount + 1;
        if successCount >= opts.successThreshold {
          state := Closed;
          failureCount := 0;
          successCount := 0;
        }
      } else {
        failureCount := 0;
      }
    }

    method OnFailure(now: int)
      modifies this
      ensures View() == Next(opts, old(View()), Fail(now))
    {
      failureCount := failureCount + 1;
      lastFailureTime := now;
      if state == HalfOpen {
        state := Open;
        nextAttemptTime := now + opts.resetTimeoutMs;
        successCount := 0;
      } else if failureCount >= opts.failureThreshold {
        state := Open;
        nextAttemptTime := now + opts.resetTimeoutMs;
      }
    }

    method ResetBreaker()
      modifies this
      ensures View() == Next(opts, old(View()), Reset)
    {
      state := Closed;
      failureCount := 0;
      successCount := 0;
      lastFailureTime := 0;
      nextAttemptTime := 0;
    }
  }

  // ---------- The history that the counters stand for ----------

  /** Where the present phase began: just after the last change of state or reset. */
  function PhaseStart(opts: Options, events: seq<Event>): (n: nat)
    ensures n <= |events|
  {
    if events == [] then 0
    else
      var before := events[..|events| - 1];
      if events[|events| - 1].Reset? || Run(opts, events).state != Run(opts, before).state then |events|
      else PhaseStart(opts, before)
  }

  /** The events of the present phase. */
  function Phase(opts: Options, events: seq<Event>): seq<Event> {
    events[PhaseStart(opts, events)..]
  }

  /** Failed completions since the last successful one. */
  function ConsecutiveFailures(events: seq<Event>): nat {
    if events == [] then 0
    else
      var rest := ConsecutiveFailures(events[..|events| - 1]);
      match events[|events| - 1]
      case Fail(_) => rest + 1
      case Succeed => 0
      case _ => rest
  }

  function Successes(events: seq<Event>): nat {
    if events == [] then 0
    else Successes(events[..|events| - 1]) + if events[|events| - 1].Succeed? then 1 else 0
  }

  predicate NoFailure(events: seq<Event>) {
    forall e :: e in events ==> !e.Fail?
  }

  /** A threshold of 0 or less acts like 1: the first completion already meets it. */
  function AtLeastOne(threshold: int): int {
    if threshold < 1 then 1 else threshold
  }

  /** What the counters mean: in the closed state the consecutive failures since it was entered,
      in the half-open state the successes since it was entered with no failure in between, both
      still short of their threshold; and no successes are counted outside half-open. */
  predicate CountersMean(opts: Options, b: Breaker, phase: seq<Event>) {
    && (b.state == Closed ==>
          b.failureCount == ConsecutiveFailures(phase) && b.failureCount < AtLeastOne(opts.failureThreshold))
    && (b.state == HalfOpen ==>
          && b.successCount == Successes(phase) && b.successCount < AtLeastOne(opts.successThreshold)
          && NoFailure(phase))
    && (b.state != HalfOpen ==> b.successCount == 0)
  }

  predicate CountersRefineHistory(opts: Options, events: seq<Event>) {
    CountersMean(opts, Run(opts, events), Phase(opts, events))
  }

  lemma PhaseExtends(opts: Options, events: seq<Event>, e: Event)
    ensures
      var longer := events + [e];
      Phase(opts, longer) ==
        if e.Reset? || Run(opts, longer).state != Run(opts, events).state then []
        else Phase(opts, events) + [e]
  {
  }

  lemma {:induction false} CountersMeanHistory(opts: Options, events: seq<Event>)
    ensures CountersRefineHistory(opts, events)
  {
    if events != [] {
      var before, e := events[..|events| - 1], events[|events| - 1];
      CountersMeanHistory(opts, before);
      CountersStep(opts, Run(opts, before), Phase(opts, before), e);
      PhaseExtends(opts, before, e);
      assert events == before + [e];
    }
  }

  lemma CountsAppend(phase: seq<Event>, e: Event)
    ensures ConsecutiveFailures(phase + [e]) ==
      if e.Fail? then ConsecutiveFailures(phase) + 1 else if e.Succeed? then 0 else ConsecutiveFailures(phase)
    ensures Successes(phase + [e]) == Successes(phase) + if e.Succeed? then 1 else 0
    ensures NoFailure(phase + [e]) <==> NoFailure(phase) && !e.Fail?
  {
  }

  lemma CountersStep(opts: Options, b: Breaker, phase: seq<Event>, e: Event)
    requires CountersMean(opts, b, phase)
    ensures
      var after := Next(opts, b, e);
      CountersMean(opts, after, if e.Reset? || after.state != b.state then [] else phase + [e])
  {
    CountsAppend(phase, e);
  }

  /** Every change of state, in terms of the history alone but for the deadline: the circuit
      opens exactly at the failureThreshold-th consecutive failure since it was closed or at any
      failure while half-open; it closes exactly at the successThreshold-th success since it
      became half-open, none of them a failure, or at a reset; and only an open circuit becomes
      half-open, at the first look at or after its deadline. */
  lemma TransitionsFollowHistory(opts: Options, events: seq<Event>, e: Event)
    ensures
      var from, to := Run(opts, events).state, Run(opts, events + [e]).state;
      var phase := Phase(opts, events);
      && (from == Closed ==>
            && to != HalfOpen
            && (to == Open <==>
                  e.Fail? && ConsecutiveFailures(phase) + 1 == AtLeastOne(opts.failureThreshold)))
      && (from == HalfOpen ==>
            && NoFailure(phase)
            && (to == Open <==> e.Fail?)
            && (to == Closed <==>
                  e.Reset? || (e.Succeed? && Successes(phase) + 1 == AtLeastOne(opts.successThreshold))))
      && (from == Open ==>
            && (to == Closed <==> e.Reset?)
            && (to == HalfOpen <==>
                  (e.Begin? || e.Inspect?) && e.now >= Run(opts, events).nextAttemptTime))
  {
    CountersMeanHistory(opts, events);
    assert (events + [e])[..|events|] == events;
  }

  // ---------- The failure count in every state ----------

  /** Event i ends a row of failures: a reset, or a success that closes the circuit or completes
      outside half-open. A half-open success short of the threshold does not. */
  predicate EndsRow(opts: Options, events: seq<Event>, i: nat)
    requires i < |events|
  {
    || events[i].Reset?
    || (events[i].Succeed?
        && (Run(opts, events[..i]).state != HalfOpen || Run(opts, events[..i + 1]).state == Closed))
  }

  /** Failed completions since the last row of failures ended, over all states. */
  function FailuresInRow(opts: Options, events: seq<Event>): nat {
    if events == [] then 0
    else
      var n := |events| - 1;
      if EndsRow(opts, events, n) then 0
      else FailuresInRow(opts, events[..n]) + if events[n].Fail? then 1 else 0
  }

  lemma {:induction false} FailureCountMeansRow(opts: Options, events: seq<Event>)
    ensures Run(opts, events).failureCount == FailuresInRow(opts, events)
  {
    if events != [] {
      var n := |events| - 1;
      FailureCountMeansRow(opts, events[..n]);
      assert events[..n + 1] == events;
    }
  }

  /** A failure that sets the deadline: any in half-open, and otherwise one that makes a row of
      at least failureThreshold. */
  predicate SetsDeadline(opts: Options, events: seq<Event>, i: nat)
    requires i < |events|
  {
    && events[i].Fail?
    && (Run(opts, events[..i]).state == HalfOpen
        || FailuresInRow(opts, events[..i + 1]) >= opts.failureThreshold)
  }

  /** In the open state the deadline is resetTimeoutMs after the last failure that sets one:
      failures of calls begun earlier put it off, as long as their row is long enough. */
  lemma {:induction false} DeadlineFollowsLastFailure(opts: Options, events: seq<Event>)
    requires Run(opts, events).state == Open
    ensures exists i: nat ::
      && i < |events| && SetsDeadline(opts, events, i)
      && Run(opts, events).nextAttemptTime == events[i].now + opts.resetTimeoutMs
      && forall j: nat :: i < j < |events| ==> !SetsDeadline(opts, events, j)
  {
    var n := |events| - 1;
    var before := events[..n];
    assert events[..n + 1] == events;
    FailureCountMeansRow(opts, events);
    if !SetsDeadline(opts, events, n) {
      DeadlineFollowsLastFailure(opts, before);
      var i: nat :| i < |before| && SetsDeadline(opts, before, i)
        && Run(opts, before).nextAttemptTime == before[i].now + opts.resetTimeoutMs
        && forall j: nat :: i < j < |before| ==> !SetsDeadline(opts, before, j);
      SetsDeadlineInPrefix(opts, events, n, i);
      forall j: nat | i < j < |events|
        ensures !SetsDeadline(opts, events, j)
      {
        if j < n {
          SetsDeadlineInPrefix(opts, events, n, j);
        }
      }
    }
  }

  lemma SetsDeadlineInPrefix(opts: Options, events: seq<Event>, n: nat, i: nat)
    requires i < n <= |events|
    ensures SetsDeadline(opts, events[..n], i) == SetsDeadline(opts, events, i)
  {
    assert events[..n][..i] == events[..i] && events[..n][..i + 1] == events[..i + 1];
  }

  // ---------- The open period ----------

  predicate Timed(e: Event) {
    e.Begin? || e.Fail? || e.Inspect?
  }

  predicate ClockNeverGoesBack(events: seq<Event>) {
    forall i, j :: 0 <= i < j < |events| && Timed(events[i]) && Timed(events[j]) ==>
      events[i].now <= events[j].now
  }

  /** The circuit opens at event i. */
  predicate TripsAt(opts: Options, events: seq<Event>, i: nat)
    requires i < |events|
  {
    Run(opts, events[..i]).state != Open && Run(opts, events[..i + 1]).state == Open
  }

  lemma OnlyFailuresTrip(opts: Options, events: seq<Event>, i: nat)
    requires i < |events| && TripsAt(opts, events, i)
    ensures events[i].Fail?
    ensures Run(opts, events[..i + 1]).nextAttemptTime == events[i].now + opts.resetTimeoutMs
  {
    assert events[..i + 1][..i] == events[..i];
  }

  lemma {:induction false} StaysOpen(opts: Options, events: seq<Event>, i: nat, k: nat, deadline: int)
    requires i < k <= |events| && TripsAt(opts, events, i) && ClockNeverGoesBack(events)
    requires events[i].Fail? && deadline == events[i].now + opts.resetTimeoutMs
    requires forall j :: i < j < k ==> !events[j].Reset? && (Timed(events[j]) ==> events[j].now < deadline)
    ensures
      var b := Run(opts, events[..k]);
      b.state == Open && b.nextAttemptTime >= deadline
  {
    OnlyFailuresTrip(opts, events, i);
    if k > i + 1 {
      StaysOpen(opts, events, i, k - 1, deadline);
      assert events[..k][..k - 1] == events[..k - 1];
    }
  }

  /** After a trip at time T, with a clock that never goes back and no reset, no call reaches the
      wrapped function before T + resetTimeoutMs, whatever calls complete in between. */
  lemma NoStartBeforeTheTimeout(opts: Options, events: seq<Event>, i: nat, j: nat)
    requires i < j < |events| && TripsAt(opts, events, i) && ClockNeverGoesBack(events)
    requires forall k :: i < k < j ==> !events[k].Reset?
    requires Starts(opts, events, j)
    ensures events[i].Fail? && events[j].now >= events[i].now + opts.resetTimeoutMs
  {
    OnlyFailuresTrip(opts, events, i);
    var deadline := events[i].now + opts.resetTimeoutMs;
    assert events[..j + 1][..j] == events[..j];
    if events[j].now < deadline {
      StaysOpen(opts, events, i, j, deadline);
    }
  }

  /** The time of the last failure is that of the latest one since the last reset, in any state and
      through every change of state; 0 when there was none. */
  lemma {:induction false} LastFailureIsRemembered(opts: Options, events: seq<Event>, i: nat)
    requires i < |events| && forall k :: i < k < |events| ==> !events[k].Fail? && !events[k].Reset?
    ensures events[i].Fail? ==> Run(opts, events).lastFailureTime == events[i].now
    ensures events[i].Reset? ==> Run(opts, events).lastFailureTime == 0
  {
    var n := |events| - 1;
    if i < n {
      assert forall k :: i < k < n ==> events[..n][k] == events[k];
      LastFailureIsRemembered(opts, events[..n], i);
    }
  }

  /** The half-open state passes every call through, however many: there is no limit on the
      number that test recovery. */
  lemma {:induction false} HalfOpenAdmitsAll(opts: Options, events: seq<Event>, begins: seq<Event>, i: nat)
    requires Run(opts, events).state == HalfOpen
    requires forall e :: e in begins ==> e.Begin?
    requires i < |begins|
    ensures Starts(opts, events + begins, |events| + i)
    ensures Run(opts, (events + begins)[..|events| + i + 1]).state == HalfOpen
  {
    var all := events + begins;
    var upTo := all[..|events| + i + 1];
    assert all[|events| + i] == begins[i];
    if i == 0 {
      assert upTo[..|events|] == events;
    } else {
      HalfOpenAdmitsAll(opts, events, begins, i - 1);
      assert upTo[..|events| + i] == all[..|events| + i];
    }
  }

  /** That many calls, one after the other, each of which begins and fails. */
  function FailingCalls(n: nat): (events: seq<Event>)
    ensures |events| == 2 * n
  {
    if n == 0 then [] else FailingCalls(n - 1) + [Begin(0), Fail(0)]
  }

  lemma CallFails(opts: Options, before: seq<Event>, all: seq<Event>)
    requires all == before + [Begin(0), Fail(0)]
    ensures Run(opts, all) == AfterFailure(opts, Refreshed(Run(opts, before), 0), 0)
    ensures Starts(opts, all, |before|) <==> Refreshed(Run(opts, before), 0).state != Open
  {
    var begun := before + [Begin(0)];
    assert begun[..|before|] == before && all[..|before| + 1] == begun;
    assert all[..|all| - 1] == begun;
  }

  lemma StartsInPrefix(opts: Options, before: seq<Event>, rest: seq<Event>, i: nat)
    requires i < |before|
    ensures Starts(opts, before + rest, i) <==> Starts(opts, before, i)
  {
    assert (before + rest)[..i + 1] == before[..i + 1];
  }

  lemma {:induction false} FailingCallsOpen(opts: Options, n: nat)
    requires n <= AtLeastOne(opts.failureThreshold)
    ensures
      var b := Run(opts, FailingCalls(n));
      && b.failureCount == n
      && (n < AtLeastOne(opts.failureThreshold) ==> b.state == Closed)
      && (n == AtLeastOne(opts.failureThreshold) ==> b.state == Open && b.nextAttemptTime == opts.resetTimeoutMs)
  {
    if n > 0 {
      FailingCallsOpen(opts, n - 1);
      CallFails(opts, FailingCalls(n - 1), FailingCalls(n));
    }
  }

  lemma {:induction false} FailingCallsStart(opts: Options, n: nat, i: nat)
    requires n <= AtLeastOne(opts.failureThreshold) && i < 2 * n && FailingCalls(n)[i].Begin?
    ensures Starts(opts, FailingCalls(n), i)
  {
    var before := FailingCalls(n - 1);
    if i < |before| {
      FailingCallsStart(opts, n - 1, i);
      StartsInPrefix(opts, before, [Begin(0), Fail(0)], i);
    } else {
      FailingCallsOpen(opts, n - 1);
      CallFails(opts, before, FailingCalls(n));
    }
  }

  /** And the state is reached under any options: after failureThreshold calls that began and
      failed, a call begun when the timeout has passed. */
  lemma HalfOpenIsReached(opts: Options)
    ensures
      var n := AtLeastOne(opts.failureThreshold);
      var events := FailingCalls(n) + [Begin(opts.resetTimeoutMs)];
      && Run(opts, events).state == HalfOpen
      && forall i :: 0 <= i < |events| && events[i].Begin? ==> Starts(opts, events, i)
  {
    var n := AtLeastOne(opts.failureThreshold);
    var failures := FailingCalls(n);
    var events := failures + [Begin(opts.resetTimeoutMs)];
    FailingCallsOpen(opts, n);
    assert events[..2 * n] == failures && events[..2 * n + 1] == events;
    forall i | 0 <= i < |events| && events[i].Begin?
      ensures Starts(opts, events, i)
    {
      if i < |failures| {
        FailingCallsStart(opts, n, i);
        StartsInPrefix(opts, failures, [Begin(opts.resetTimeoutMs)], i);
      }
    }
  }
}
