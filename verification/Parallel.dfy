/** parallel: a pool of workers that share one index and interleave at every await. */
module Parallel {
  import opened Wrappers

  /** How a task settles, once it does. */
  datatype Settlement<+T, +E> = Fulfils(value: T) | Rejects(error: E)

  /** Ready is a worker at its loop test, Busy one that awaits a task. */
  datatype Worker<+E> = Ready | Busy(index: nat) | Exited | Threw(error: E)

  /** The variables the workers share. started and failed record, in order, which tasks were
      started and which rejections were collected; the program has no such variables.
      firstError is the rejection that Promise.all passes on. */
  datatype Pool<T, E> = Pool(
    current: nat, results: seq<Option<T>>, errors: seq<E>, workers: seq<Worker<E>>,
    firstError: Option<E>, started: seq<nat>, failed: seq<nat>)

  /** The call as made: the tasks, with how each of them settles, and the options. */
  datatype Job<T, E> = Job(tasks: seq<Settlement<T, E>>, concurrency: int, failFast: bool)

  /** What the promise that parallel returns has settled to so far. */
  datatype Verdict<T, E> =
    | Pending
    | Resolved(results: seq<Option<T>>)
    | RejectedWith(error: E)
    | Aggregate(errors: seq<E>)

  datatype Event = Take(k: nat) | Settle(k: nat)

  function WorkerCount<T, E>(job: Job<T, E>): nat {
    var smaller := if job.concurrency < |job.tasks| then job.concurrency else |job.tasks|;
    if smaller < 0 then 0 else smaller
  }

  function Spawn<T, E>(job: Job<T, E>): Pool<T, E> {
    Pool(0, seq(|job.tasks|, _ => None), [], seq(WorkerCount(job), _ => Ready), None, [], [])
  }

  predicate Enabled<T, E>(job: Job<T, E>, p: Pool<T, E>, e: Event) {
    && e.k < |p.workers|
    && match e
       case Take(k) => p.workers[k].Ready?
       case Settle(k) => p.workers[k].Busy? && p.workers[k].index < |job.tasks| && p.workers[k].index < |p.results|
  }

  /** What one worker does between two awaits. */
  function Step<T, E>(job: Job<T, E>, p: Pool<T, E>, e: Event): Pool<T, E>
    requires Enabled(job, p, e)
  {
    match e
    case Take(k) =>
      if p.current < |job.tasks| then
        p.(current := p.current + 1, workers := p.workers[k := Busy(p.current)],
           started := p.started + [p.current])
      else
        p.(workers := p.workers[k := Exited])
    case Settle(k) =>
      var i := p.workers[k].index;
      match job.tasks[i]
      case Fulfils(v) =>
        p.(results := p.results[i := Some(v)], workers := p.workers[k := Ready])
      case Rejects(err) =>
        if job.failFast then
          p.(workers := p.workers[k := Threw(err)],
             firstError := if p.firstError.None? then Some(err) else p.firstError)
        else
          p.(errors := p.errors + [err], failed := p.failed + [i], workers := p.workers[k := Ready])
  }

  predicate Done<E>(w: Worker<E>) {
    w.Exited? || w.Threw?
  }

  predicate AllDone<E>(workers: seq<Worker<E>>) {
    forall k :: 0 <= k < |workers| ==> Done(workers[k])
  }

  function VerdictOf<T, E>(job: Job<T, E>, p: Pool<T, E>): Verdict<T, E> {
    if job.failFast then
      if p.firstError.Some? then RejectedWith(p.firstError.value)
      else if AllDone(p.workers) then Resolved(p.results)
      else Pending
    else if !AllDone(p.workers) then Pending
    else if |p.errors| > 0 then Aggregate(p.errors)
    else Resolved(p.results)
  }

  /** Any interleaving; an event that is not enabled does nothing. */
  function Run<T, E>(job: Job<T, E>, events: seq<Event>): Pool<T, E> {
    if events == [] then Spawn(job)
    else
      var p, e := Run(job, events[..|events| - 1]), events[|events| - 1];
      if Enabled(job, p, e) then Step(job, p, e) else p
  }

  // ---------- The invariant ----------

  ghost predicate InFlight<T, E>(p: Pool<T, E>, i: nat) {
    exists k :: 0 <= k < |p.workers| && p.workers[k] == Busy(i)
  }

  ghost predicate Inv<T(!new), E(!new)>(job: Job<T, E>, p: Pool<T, E>) {
    && |p.workers| == WorkerCount(job) && |p.results| == |job.tasks|
    && p.current <= |job.tasks| && p.started == seq(p.current, i => i)
    // distinct workers await distinct tasks
    && (forall k :: 0 <= k < |p.workers| && p.workers[k].Busy? ==> p.workers[k].index < p.current)
    && (forall j, k :: 0 <= j < k < |p.workers| && p.workers[j].Busy? && p.workers[k].Busy? ==>
          p.workers[j].index != p.workers[k].index)
    && (forall k :: 0 <= k < |p.workers| && p.workers[k].Exited? ==> p.current == |job.tasks|)
    && SlotsRight(job, p)
    && FailuresRight(job, p)
  }

  /** A result slot is filled exactly when its task was started, has settled and fulfilled, and
      then with that task's value. */
  ghost predicate SlotsRight<T(!new), E(!new)>(job: Job<T, E>, p: Pool<T, E>)
    requires |p.results| == |job.tasks|
  {
    forall i :: 0 <= i < |job.tasks| ==>
      p.results[i] ==
        if i < p.current && !InFlight(p, i) && job.tasks[i].Fulfils? then Some(job.tasks[i].value) else None
  }

  /** Collected errors are those of the settled rejecting tasks, each once; under failFast
      instead the first of them is kept and its worker stops. */
  ghost predicate FailuresRight<T(!new), E(!new)>(job: Job<T, E>, p: Pool<T, E>) {
    && |p.errors| == |p.failed|
    && (forall j, k :: 0 <= j < k < |p.failed| ==> p.failed[j] != p.failed[k])
    && (forall j :: 0 <= j < |p.failed| ==>
          p.failed[j] < |job.tasks| && job.tasks[p.failed[j]] == Rejects(p.errors[j]))
    && (forall i :: 0 <= i < |job.tasks| ==>
          (i in p.failed <==>
             !job.failFast && i < p.current && !InFlight(p, i) && job.tasks[i].Rejects?))
    && (forall k :: 0 <= k < |p.workers| && p.workers[k].Threw? ==> p.firstError.Some?)
    && (p.firstError.Some? ==>
          job.failFast && exists i :: 0 <= i < |job.tasks| && job.tasks[i] == Rejects(p.firstError.value))
    && (job.failFast && p.firstError.None? ==>
          forall i :: 0 <= i < |job.tasks| && i < p.current && !InFlight(p, i) ==> job.tasks[i].Fulfils?)
  }

  /** Which tasks are in flight after worker k has moved from one state to another. */
  lemma InFlightAfter<T, E>(p: Pool<T, E>, p': Pool<T, E>, k: nat, w: Worker<E>, i: nat)
    requires k < |p.workers| && p'.workers == p.workers[k := w]
    requires p.workers[k] == Busy(i) ==>
      forall j :: 0 <= j < |p.workers| && j != k ==> p.workers[j] != Busy(i)
    ensures InFlight(p', i) <==> w == Busy(i) || (InFlight(p, i) && p.workers[k] != Busy(i))
  {
    if InFlight(p, i) && p.workers[k] != Busy(i) {
      var j :| 0 <= j < |p.workers| && p.workers[j] == Busy(i);
      assert p'.workers[j] == Busy(i);
    }
    if w == Busy(i) {
      assert p'.workers[k] == Busy(i);
    }
  }

  lemma StepInFlight<T(!new), E(!new)>(job: Job<T, E>, p: Pool<T, E>, e: Event, i: nat)
    requires Inv(job, p) && Enabled(job, p, e)
    ensures InFlight(Step(job, p, e), i) <==>
      match e
      case Take(k) => InFlight(p, i) || (p.current < |job.tasks| && i == p.current)
      case Settle(k) => InFlight(p, i) && p.workers[k].index != i
  {
    var p' := Step(job, p, e);
    InFlightAfter(p, p', e.k, p'.workers[e.k], i);
  }

  lemma StepKeepsSlots<T(!new), E(!new)>(job: Job<T, E>, p: Pool<T, E>, e: Event)
    requires Inv(job, p) && Enabled(job, p, e)
    ensures |Step(job, p, e).results| == |job.tasks| && SlotsRight(job, Step(job, p, e))
  {
    forall i: nat {
      StepInFlight(job, p, e, i);
    }
    if e.Settle? {
      assert InFlight(p, p.workers[e.k].index);
    }
  }

  lemma StepKeepsFailures<T(!new), E(!new)>(job: Job<T, E>, p: Pool<T, E>, e: Event)
    requires Inv(job, p) && Enabled(job, p, e)
    ensures FailuresRight(job, Step(job, p, e))
  {
    forall i: nat {
      StepInFlight(job, p, e, i);
    }
    if e.Settle? {
      var i := p.workers[e.k].index;
      assert InFlight(p, i);
      assert i !in p.failed;
      var p' := Step(job, p, e);
      if job.tasks[i].Rejects? && !job.failFast {
        assert p'.failed == p.failed + [i];
      }
    }
  }

  lemma StepKeepsInv<T(!new), E(!new)>(job: Job<T, E>, p: Pool<T, E>, e: Event)
    requires Inv(job, p) && Enabled(job, p, e)
    ensures Inv(job, Step(job, p, e))
  {
    StepKeepsSlots(job, p, e);
    StepKeepsFailures(job, p, e);
    if e.Take? && p.current < |job.tasks| {
      assert Step(job, p, e).started == seq(p.current + 1, i => i);
    }
  }

  lemma {:induction false} RunKeepsInv<T(!new), E(!new)>(job: Job<T, E>, events: seq<Event>)
    ensures Inv(job, Run(job, events))
  {
    if events == [] {
      assert forall i: nat :: !InFlight(Spawn(job), i);
    } else {
      var n := |events| - 1;
      RunKeepsInv(job, events[..n]);
      if Enabled(job, Run(job, events[..n]), events[n]) {
        StepKeepsInv(job, Run(job, events[..n]), events[n]);
      }
    }
  }

  // ---------- Safety ----------

  function CountBusy<E>(workers: seq<Worker<E>>): nat {
    if workers == [] then 0 else CountBusy(workers[1..]) + if workers[0].Busy? then 1 else 0
  }

  lemma {:induction false} BusyAtMostAll<E>(workers: seq<Worker<E>>)
    ensures CountBusy(workers) <= |workers|
  {
    if workers != [] {
      BusyAtMostAll(workers[1..]);
    }
  }

  /** In every interleaving tasks are started in order and each at most once, and no more are
      in flight than min(concurrency, n). */
  lemma StartsOnceWithinLimit<T(!new), E(!new)>(job: Job<T, E>, events: seq<Event>)
    ensures
      var p := Run(job, events);
      && |p.started| <= |job.tasks|
      && (forall j :: 0 <= j < |p.started| ==> p.started[j] == j)
      && (CountBusy(p.workers) <= job.concurrency || CountBusy(p.workers) == 0)
      && CountBusy(p.workers) <= |job.tasks|
  {
    RunKeepsInv(job, events);
    BusyAtMostAll(Run(job, events).workers);
  }

  function Min(x: int, y: int): int {
    if x < y then x else y
  }

  function Max(x: int, y: int): int {
    if x < y then y else x
  }

  /** The events by which each of the first m workers starts a task, before any task settles. */
  function Takes(m: nat): (events: seq<Event>)
    ensures |events| == m
  {
    if m == 0 then [] else Takes(m - 1) + [Take(m - 1)]
  }

  lemma {:induction false} BusyUpdate<E>(workers: seq<Worker<E>>, k: nat, w: Worker<E>)
    requires k < |workers|
    ensures CountBusy(workers[k := w]) ==
      CountBusy(workers) - (if workers[k].Busy? then 1 else 0) + (if w.Busy? then 1 else 0)
  {
    if k == 0 {
      assert workers[k := w][1..] == workers[1..];
    } else {
      assert workers[k := w][1..] == workers[1..][k - 1 := w];
      BusyUpdate(workers[1..], k - 1, w);
    }
  }

  lemma {:induction false} NoneBusy<E>(workers: seq<Worker<E>>)
    requires forall k :: 0 <= k < |workers| ==> workers[k].Ready?
    ensures CountBusy(workers) == 0
  {
    if workers != [] {
      NoneBusy(workers[1..]);
    }
  }

  lemma {:induction false} TakesRun<T(!new), E(!new)>(job: Job<T, E>, m: nat)
    requires m <= job.concurrency && m <= |job.tasks|
    ensures
      var p := Run(job, Takes(m));
      && p.current == m && CountBusy(p.workers) == m
      && |p.workers| == Min(job.concurrency, |job.tasks|)
      && (forall k :: 0 <= k < |p.workers| ==> p.workers[k] == if k < m then Busy(k) else Ready)
  {
    if m == 0 {
      NoneBusy(Spawn(job).workers);
    } else {
      TakesRun(job, m - 1);
      var before := Run(job, Takes(m - 1));
      assert Takes(m)[..m - 1] == Takes(m - 1);
      BusyUpdate(before.workers, m - 1, Busy(m - 1));
    }
  }

  /** The limit is reached: for every job with concurrency 1 or more some run has exactly
      min(concurrency, n) tasks in flight, the first ones, each with a worker of its own. */
  lemma LimitIsReached<T(!new), E(!new)>(job: Job<T, E>)
    requires job.concurrency >= 1
    ensures
      var m := Min(job.concurrency, |job.tasks|);
      var p := Run(job, Takes(m));
      && CountBusy(p.workers) == m
      && (forall i :: 0 <= i < m ==> InFlight(p, i))
      && (forall j :: 0 <= j < |p.started| ==> p.started[j] == j) && |p.started| == m
  {
    var m := Min(job.concurrency, |job.tasks|);
    TakesRun(job, m);
    RunKeepsInv(job, Takes(m));
    var p := Run(job, Takes(m));
    forall i | 0 <= i < m
      ensures InFlight(p, i)
    {
      assert p.workers[i] == Busy(i);
    }
  }

  predicate Complete<T(==), E(==)>(job: Job<T, E>, results: seq<Option<T>>) {
    && |results| == |job.tasks|
    && forall i :: 0 <= i < |results| ==> job.tasks[i].Fulfils? && results[i] == Some(job.tasks[i].value)
  }

  lemma AllExitedMeansComplete<T(!new), E(!new)>(job: Job<T, E>, p: Pool<T, E>)
    requires Inv(job, p) && VerdictOf(job, p).Resolved? && WorkerCount(job) > 0
    ensures Complete(job, p.results)
  {
    assert forall i: nat :: !InFlight(p, i);
    assert Done(p.workers[0]);
    if job.failFast {
      assert p.workers[0].Exited?;
    } else {
      assert p.failed == [];
      assert p.workers[0].Exited? by {
        assert p.firstError.None?;
      }
    }
  }

  /** A normal return holds, for every i, task i's own value, if and only if a worker was
      spawned or there was nothing to do: with concurrency 0 or less and at least one task,
      parallel returns an array of holes. */
  lemma ResolvedIsComplete<T(!new), E(!new)>(job: Job<T, E>, events: seq<Event>)
    requires VerdictOf(job, Run(job, events)).Resolved?
    ensures Complete(job, VerdictOf(job, Run(job, events)).results) <==> job.concurrency >= 1 || job.tasks == []
  {
    RunKeepsInv(job, events);
    var p := Run(job, events);
    if WorkerCount(job) > 0 {
      AllExitedMeansComplete(job, p);
    } else if job.tasks != [] {
      NothingStarts(job, events);
      assert p.results[0].None?;
    }
  }

  /** Without workers every run returns an array of holes, whatever the tasks do. */
  lemma HolesWithoutWorkers<T(!new), E(!new)>(job: Job<T, E>, events: seq<Event>)
    requires job.concurrency <= 0
    ensures VerdictOf(job, Run(job, events)) == Resolved(seq(|job.tasks|, _ => None))
  {
    NothingStarts(job, events);
  }

  lemma {:induction false} NothingStarts<T(!new), E(!new)>(job: Job<T, E>, events: seq<Event>)
    requires WorkerCount(job) == 0
    ensures Run(job, events) == Spawn(job)
  {
    if events != [] {
      NothingStarts(job, events[..|events| - 1]);
    }
  }

  /** Without failFast the end is reached only after every task was started; an AggregateError
      then names exactly the rejecting tasks, one error each. */
  lemma AggregateIsExact<T(!new), E(!new)>(job: Job<T, E>, events: seq<Event>)
    requires !job.failFast && job.concurrency >= 1
    requires !VerdictOf(job, Run(job, events)).Pending?
    ensures
      var p := Run(job, events);
      var rejecting := set i | 0 <= i < |job.tasks| && job.tasks[i].Rejects?;
      && p.started == seq(|job.tasks|, i => i)
      && |p.errors| == |p.failed| == |rejecting|
      && (forall i :: 0 <= i < |job.tasks| ==> (job.tasks[i].Rejects? <==> i in p.failed))
      && (forall j :: 0 <= j < |p.failed| ==> p.failed[j] < |job.tasks| && job.tasks[p.failed[j]] == Rejects(p.errors[j]))
      && (VerdictOf(job, p) == Aggregate(p.errors) <==> rejecting != {})
      && (VerdictOf(job, p) == Resolved(p.results) <==> rejecting == {})
  {
    RunKeepsInv(job, events);
    var p := Run(job, events);
    var rejecting := set i | 0 <= i < |job.tasks| && job.tasks[i].Rejects?;
    assert forall i: nat :: !InFlight(p, i);
    if job.tasks != [] {
      assert Done(p.workers[0]);
      assert p.workers[0].Exited?;
    }
    assert p.current == |job.tasks|;
    DistinctCount(p.failed);
    assert rejecting == Elements(p.failed);
    if |p.errors| > 0 {
      assert p.failed[0] in rejecting;
    }
  }

  function Elements(s: seq<nat>): set<nat> {
    set x | x in s
  }

  lemma {:induction false} DistinctCount(s: seq<nat>)
    requires forall j, k :: 0 <= j < k < |s| ==> s[j] != s[k]
    ensures |Elements(s)| == |s|
  {
    if s != [] {
      DistinctCount(s[1..]);
      assert s == [s[0]] + s[1..] && s[0] !in s[1..];
      assert Elements(s) == Elements(s[1..]) + {s[0]};
    }
  }

  /** Event n settles a rejected task. */
  predicate RejectsAt<T, E>(job: Job<T, E>, events: seq<Event>, n: nat) {
    && n < |events| && events[n].Settle? && Enabled(job, Run(job, events[..n]), events[n])
    && job.tasks[Run(job, events[..n]).workers[events[n].k].index].Rejects?
  }

  function ErrorAt<T, E>(job: Job<T, E>, events: seq<Event>, n: nat): E
    requires RejectsAt(job, events, n)
  {
    job.tasks[Run(job, events[..n]).workers[events[n].k].index].error
  }

  /** Event n is the first to settle a rejected task. */
  ghost predicate FirstToReject<T, E>(job: Job<T, E>, events: seq<Event>, n: nat) {
    RejectsAt(job, events, n) && forall m :: 0 <= m < n ==> !RejectsAt(job, events, m)
  }

  lemma RejectsInPrefix<T, E>(job: Job<T, E>, events: seq<Event>, m: nat)
    requires m < |events| - 1
    ensures RejectsAt(job, events[..|events| - 1], m) == RejectsAt(job, events, m)
    ensures RejectsAt(job, events, m) ==> ErrorAt(job, events[..|events| - 1], m) == ErrorAt(job, events, m)
  {
    assert events[..|events| - 1][..m] == events[..m];
  }

  lemma StepKeepsFirstError<T, E>(job: Job<T, E>, events: seq<Event>)
    requires job.failFast && events != []
    ensures
      var n, before := |events| - 1, Run(job, events[..|events| - 1]).firstError;
      Run(job, events).firstError ==
        if before.None? && RejectsAt(job, events, n) then Some(ErrorAt(job, events, n)) else before
  {
  }

  lemma {:induction false} FirstErrorIsFirst<T, E>(job: Job<T, E>, events: seq<Event>)
    requires job.failFast
    ensures Run(job, events).firstError.None? <==> forall n :: 0 <= n < |events| ==> !RejectsAt(job, events, n)
    ensures forall n :: FirstToReject(job, events, n) ==> Run(job, events).firstError == Some(ErrorAt(job, events, n))
  {
    if events != [] {
      var last := |events| - 1;
      var before := events[..last];
      FirstErrorIsFirst(job, before);
      StepKeepsFirstError(job, events);
      forall m | 0 <= m < last
        ensures RejectsAt(job, before, m) == RejectsAt(job, events, m)
        ensures RejectsAt(job, events, m) ==> ErrorAt(job, before, m) == ErrorAt(job, events, m)
      {
        RejectsInPrefix(job, events, m);
      }
      forall n: nat | FirstToReject(job, events, n)
        ensures Run(job, events).firstError == Some(ErrorAt(job, events, n))
      {
        if n < last {
          assert FirstToReject(job, before, n);
        }
      }
    }
  }

  /** Under failFast the promise rejects as soon as some task has rejected, with the error of the
      task that the earliest such event settles, and otherwise never. */
  lemma FailFastRejectsWithTheFirst<T, E>(job: Job<T, E>, events: seq<Event>)
    requires job.failFast
    ensures
      var verdict := VerdictOf(job, Run(job, events));
      && (forall n :: FirstToReject(job, events, n) ==> verdict == RejectedWith(ErrorAt(job, events, n)))
      && ((forall n :: 0 <= n < |events| ==> !RejectsAt(job, events, n)) <==> verdict.Pending? || verdict.Resolved?)
  {
    FirstErrorIsFirst(job, events);
  }

  /** Once the promise has settled no later step of a worker changes what it settled to. */
  lemma VerdictIsFinal<T(!new), E(!new)>(job: Job<T, E>, p: Pool<T, E>, e: Event)
    requires Inv(job, p) && Enabled(job, p, e) && !VerdictOf(job, p).Pending?
    ensures VerdictOf(job, Step(job, p, e)) == VerdictOf(job, p)
  {
    assert !Done(p.workers[e.k]);
  }

  // ---------- What failing fast leaves unstarted ----------

  /** How many of the first n tasks reject. */
  function Rejecting<T, E>(tasks: seq<Settlement<T, E>>, n: nat): nat
    requires n <= |tasks|
  {
    if n == 0 then 0 else Rejecting(tasks, n - 1) + if tasks[n - 1].Rejects? then 1 else 0
  }

  lemma {:induction false} RejectingGrows<T, E>(tasks: seq<Settlement<T, E>>, m: nat, n: nat)
    requires m <= n <= |tasks|
    ensures Rejecting(tasks, m) <= Rejecting(tasks, n)
  {
    if m < n {
      RejectingGrows(tasks, m, n - 1);
    }
  }

  /** The worker has stopped for an error, or will when its task settles. */
  predicate Doomed<T, E>(tasks: seq<Settlement<T, E>>, w: Worker<E>) {
    w.Threw? || (w.Busy? && w.index < |tasks| && tasks[w.index].Rejects?)
  }

  function CountDoomed<T, E>(tasks: seq<Settlement<T, E>>, workers: seq<Worker<E>>): nat {
    if workers == [] then 0
    else CountDoomed(tasks, workers[1..]) + if Doomed(tasks, workers[0]) then 1 else 0
  }

  lemma {:induction false} DoomedUpdate<T, E>(
    tasks: seq<Settlement<T, E>>, workers: seq<Worker<E>>, k: nat, w: Worker<E>)
    requires k < |workers|
    ensures CountDoomed(tasks, workers[k := w]) == CountDoomed(tasks, workers)
      - (if Doomed(tasks, workers[k]) then 1 else 0) + (if Doomed(tasks, w) then 1 else 0)
  {
    if k == 0 {
      assert workers[k := w][1..] == workers[1..];
    } else {
      assert workers[k := w][1..] == workers[1..][k - 1 := w];
      DoomedUpdate(tasks, workers[1..], k - 1, w);
    }
  }

  lemma {:induction false} DoomedBounds<T, E>(tasks: seq<Settlement<T, E>>, workers: seq<Worker<E>>)
    ensures CountDoomed(tasks, workers) <= |workers|
    ensures (exists k :: 0 <= k < |workers| && !Doomed(tasks, workers[k])) ==> CountDoomed(tasks, workers) < |workers|
    ensures (forall k :: 0 <= k < |workers| ==> Doomed(tasks, workers[k])) ==> CountDoomed(tasks, workers) == |workers|
    ensures (forall k :: 0 <= k < |workers| ==> !Doomed(tasks, workers[k])) ==> CountDoomed(tasks, workers) == 0
  {
    if workers != [] {
      var rest := workers[1..];
      DoomedBounds(tasks, rest);
      assert forall k :: 0 <= k < |rest| ==> rest[k] == workers[k + 1];
      if exists k :: 0 <= k < |workers| && !Doomed(tasks, workers[k]) {
        var k :| 0 <= k < |workers| && !Doomed(tasks, workers[k]);
        assert k > 0 ==> !Doomed(tasks, rest[k - 1]);
      }
    }
  }

  /** Each rejecting task that was started dooms one worker, and no task is started once every
      worker is doomed. */
  predicate DoomInv<T, E>(job: Job<T, E>, p: Pool<T, E>) {
    && p.current <= |job.tasks| && |p.workers| == WorkerCount(job)
    && CountDoomed(job.tasks, p.workers) == Rejecting(job.tasks, p.current)
    && forall i :: 0 <= i < p.current ==> Rejecting(job.tasks, i) < WorkerCount(job)
  }

  lemma DoomStep<T(!new), E(!new)>(job: Job<T, E>, p: Pool<T, E>, e: Event)
    requires job.failFast && Inv(job, p) && DoomInv(job, p) && Enabled(job, p, e)
    ensures DoomInv(job, Step(job, p, e))
  {
    DoomedUpdate(job.tasks, p.workers, e.k, Step(job, p, e).workers[e.k]);
    DoomedBounds(job.tasks, p.workers);
    if e.Take? {
      assert !Doomed(job.tasks, p.workers[e.k]);
    }
  }

  lemma {:induction false} RunKeepsDoom<T(!new), E(!new)>(job: Job<T, E>, events: seq<Event>)
    requires job.failFast
    ensures DoomInv(job, Run(job, events))
  {
    if events == [] {
      DoomedBounds(job.tasks, Spawn(job).workers);
    } else {
      var n := |events| - 1;
      RunKeepsDoom(job, events[..n]);
      RunKeepsInv(job, events[..n]);
      if Enabled(job, Run(job, events[..n]), events[n]) {
        DoomStep(job, Run(job, events[..n]), events[n]);
      }
    }
  }

  lemma {:induction false} RejectingAtMost<T, E>(tasks: seq<Settlement<T, E>>, n: nat)
    requires n <= |tasks|
    ensures Rejecting(tasks, n) <= n
  {
    if n > 0 {
      RejectingAtMost(tasks, n - 1);
    }
  }

  /** Under failFast, in every interleaving, once no worker has a step left: a task was started if
      and only if fewer of the tasks before it reject than concurrency allows tasks at once. One
      rejection stops one worker and no other. */
  lemma FailFastStartsExactly<T(!new), E(!new)>(job: Job<T, E>, events: seq<Event>, i: nat)
    requires job.failFast && AllDone(Run(job, events).workers) && i < |job.tasks|
    ensures i in Run(job, events).started <==> Rejecting(job.tasks, i) < job.concurrency
  {
    RejectingAtMost(job.tasks, i);
    RunKeepsInv(job, events);
    RunKeepsDoom(job, events);
    var p := Run(job, events);
    if i < p.current {
      assert p.started[i] == i;
    } else {
      RejectingGrows(job.tasks, p.current, i);
      assert forall k :: 0 <= k < |p.workers| ==> Done(p.workers[k]) && !p.workers[k].Exited?;
      DoomedBounds(job.tasks, p.workers);
    }
  }

  /** Failing fast does not stop the other workers: after the rejection they go on to start
      tasks, here task 2 of three with two workers. */
  lemma FailFastKeepsStarting()
    ensures
      var job: Job<int, int> := Job([Rejects(1), Fulfils(2), Fulfils(3)], 2, true);
      var before := Run(job, [Take(0), Take(1), Settle(0)]);
      var after := Run(job, [Take(0), Take(1), Settle(0), Settle(1), Take(1)]);
      VerdictOf(job, before) == RejectedWith(1) && before.started == [0, 1] && after.started == [0, 1, 2]
  {
    var job: Job<int, int> := Job([Rejects(1), Fulfils(2), Fulfils(3)], 2, true);
    var e := [Take(0), Take(1), Settle(0), Settle(1), Take(1)];
    assert e[..4][..3] == [Take(0), Take(1), Settle(0)];
    assert e[..4][..3][..2] == [Take(0), Take(1)];
    assert e[..4][..3][..2][..1] == [Take(0)];
    var p0 := Spawn(job);
    assert Run(job, []) == p0;
    assert [Take(0)][..0] == [];
    var p1 := Step(job, p0, Take(0));
    assert Run(job, [Take(0)]) == p1;
    var p2 := Step(job, p1, Take(1));
    assert Run(job, e[..4][..3][..2]) == p2;
    var p3 := Step(job, p2, Settle(0));
    assert Run(job, e[..4][..3]) == p3;
    var p4 := Step(job, p3, Settle(1));
    assert Run(job, e[..4]) == p4;
    assert Run(job, e) == Step(job, p4, Take(1));
  }

  // ---------- Termination ----------

  function WorkerWeight<E>(w: Worker<E>): nat {
    if w.Busy? then 2 else if w.Ready? then 1 else 0
  }

  function Weight<E>(workers: seq<Worker<E>>): nat {
    if workers == [] then 0 else Weight(workers[1..]) + WorkerWeight(workers[0])
  }

  lemma {:induction false} WeightUpdate<E>(workers: seq<Worker<E>>, k: nat, w: Worker<E>)
    requires k < |workers|
    ensures Weight(workers[k := w]) == Weight(workers) - WorkerWeight(workers[k]) + WorkerWeight(w)
  {
    if k == 0 {
      assert workers[k := w][1..] == workers[1..];
    } else {
      assert workers[k := w][1..] == workers[1..][k - 1 := w];
      WeightUpdate(workers[1..], k - 1, w);
    }
  }

  /** What remains to be done: three for each task not yet started, and what each worker still
      has before it. */
  function Remaining<T, E>(job: Job<T, E>, p: Pool<T, E>): int {
    3 * (|job.tasks| - p.current) + Weight(p.workers)
  }

  /** Every step brings the end nearer, and while the promise is pending some worker has a step
      to make, if its task settles: no interleaving runs forever or gets stuck. */
  lemma StepsLeadToTheEnd<T(!new), E(!new)>(job: Job<T, E>, p: Pool<T, E>, e: Event)
    requires Inv(job, p)
    ensures Remaining(job, p) >= 0
    ensures Enabled(job, p, e) ==> Remaining(job, Step(job, p, e)) < Remaining(job, p)
    ensures VerdictOf(job, p).Pending? ==>
      exists k :: 0 <= k < |p.workers| && (Enabled(job, p, Take(k)) || Enabled(job, p, Settle(k)))
  {
    if Enabled(job, p, e) {
      WeightUpdate(p.workers, e.k, Step(job, p, e).workers[e.k]);
    }
    if VerdictOf(job, p).Pending? {
      var k :| 0 <= k < |p.workers| && !Done(p.workers[k]);
      assert Enabled(job, p, Take(k)) || Enabled(job, p, Settle(k));
    }
  }

  /** How many of the events found their worker able to make that step. */
  function Effective<T, E>(job: Job<T, E>, events: seq<Event>): nat {
    if events == [] then 0
    else
      var n := |events| - 1;
      Effective(job, events[..n]) + if Enabled(job, Run(job, events[..n]), events[n]) then 1 else 0
  }

  /** No interleaving has more than 3n + min(max(concurrency, 0), n) effective steps. */
  lemma {:induction false} RunsAreBounded<T(!new), E(!new)>(job: Job<T, E>, events: seq<Event>)
    ensures Effective(job, events) + Remaining(job, Run(job, events)) <= 3 * |job.tasks| + Min(Max(job.concurrency, 0), |job.tasks|)
  {
    if events == [] {
      AllReadyWeight(Spawn(job).workers);
    } else {
      var n := |events| - 1;
      RunsAreBounded(job, events[..n]);
      RunKeepsInv(job, events[..n]);
      StepsLeadToTheEnd(job, Run(job, events[..n]), events[n]);
    }
  }

  lemma {:induction false} AllReadyWeight<E>(workers: seq<Worker<E>>)
    requires forall k :: 0 <= k < |workers| ==> workers[k].Ready?
    ensures Weight(workers) == |workers|
  {
    if workers != [] {
      AllReadyWeight(workers[1..]);
    }
  }

  /** The pool's variables, updated in place by whichever worker runs next. */
  class WorkerPool<T(!new), E(!new)> {
    const job: Job<T, E>
    var currentIndex: nat
    const results: array<Option<T>>
    var errors: seq<E>
    var workers: seq<Worker<E>>
    var firstError: Option<E>
    ghost var started: seq<nat>
    ghost var failed: seq<nat>

    ghost function State(): Pool<T, E>
      reads this, results
    {
      Pool(currentIndex, results[..], errors, workers, firstError, started, failed)
    }

    constructor (job: Job<T, E>)
      ensures this.job == job && State() == Spawn(job) && Inv(job, State())
      ensures |workers| == Min(Max(job.concurrency, 0), |job.tasks|)
      ensures forall k :: 0 <= k < |workers| ==> workers[k].Ready?
      ensures fresh(results)
    {
      this.job := job;
      currentIndex := 0;
      results := new Option<T>[|job.tasks|](_ => None);
      errors, workers, firstError := [], seq(WorkerCount(job), _ => Ready), None;
      started, failed := [], [];
      new;
      assert State().results == Spawn(job).results;
      RunKeepsInv(job, []);
      assert State() == Run(job, []);
    }

    /** The loop test and the synchronous start of the next task. */
    method TakeNext(k: nat)
      requires Inv(job, State()) && Enabled(job, State(), Take(k))
      modifies this
      ensures State() == Step(job, old(State()), Take(k)) && Inv(job, State())
    {
      StepKeepsInv(job, State(), Take(k));
      if currentIndex < |job.tasks| {
        var index := currentIndex;
        currentIndex := currentIndex + 1;
        workers := workers[k := Busy(index)];
        started := started + [index];
      } else {
        workers := workers[k := Exited];
      }
    }

    /** The continuation of worker k once the task it awaits has settled. */
    method OnSettled(k: nat)
      requires Inv(job, State()) && Enabled(job, State(), Settle(k))
      modifies this, results
      ensures State() == Step(job, old(State()), Settle(k)) && Inv(job, State())
    {
      StepKeepsInv(job, State(), Settle(k));
      var index := workers[k].index;
      match job.tasks[index] {
        case Fulfils(v) =>
          results[index] := Some(v);
          workers := workers[k := Ready];
        case Rejects(err) =>
          if job.failFast {
            workers := workers[k := Threw(err)];
            if firstError.None? {
              firstError := Some(err);
            }
          } else {
            errors := errors + [err];
            failed := failed + [index];
            workers := workers[k := Ready];
          }
      }
    }

    /** All workers, scheduled in any order, until none has a step left. */
    method RunToEnd()
      requires Inv(job, State())
      modifies this, results
      ensures Inv(job, State()) && AllDone(workers) && !VerdictOf(job, State()).Pending?
    {
      while exists k :: 0 <= k < |workers| && !Done(workers[k])
        invariant Inv(job, State())
        decreases Remaining(job, State())
      {
        var k :| 0 <= k < |workers| && !Done(workers[k]);
        if workers[k].Ready? {
          StepsLeadToTheEnd(job, State(), Take(k));
          TakeNext(k);
        } else {
          StepsLeadToTheEnd(job, State(), Settle(k));
          OnSettled(k);
        }
      }
    }
  }
}
