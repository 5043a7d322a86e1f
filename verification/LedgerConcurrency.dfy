/** process_transaction as many sessions run it at once, one SQL statement a step. A statement
    reads committed rows and the session's own writes; FOR UPDATE and UPDATE take a row lock
    that is held to the end of the transaction; an INSERT waits for an unfinished INSERT of the
    same id or key; commit publishes all writes at once, and any session may be aborted at any
    step. Meanwhile accounts are opened and their status is changed, the latter under the row
    lock. Nothing else is assumed of the isolation level. */
module LedgerConcurrency {
  import opened Wrappers
  import opened Numeric
  import opened Ledger
  import opened LedgerRuns

  /** The statement a session executes next. */
  datatype Statement =
    | CheckLimit
    | CheckKey
    | CheckSource
    | CheckDest
    | LockSource
    | InsertTxn
    | UpdateSource
    | InsertDebit
    | UpdateDest
    | InsertCredit
    | WriteAudit
    | Commit
  {
    function Rank(): nat {
      match this
      case CheckLimit => 0
      case CheckKey => 1
      case CheckSource => 2
      case CheckDest => 3
      case LockSource => 4
      case InsertTxn => 5
      case UpdateSource => 6
      case InsertDebit => 7
      case UpdateDest => 8
      case InsertCredit => 9
      case WriteAudit => 10
      case Commit => 11
    }
  }

  /** The writes of a transaction that is still open. */
  datatype Writes = Writes(
    balances: map<Id, int>, txns: seq<Txn>, ledger: seq<Entry>, audit: seq<Audit>)

  const NO_WRITES := Writes(map[], [], [], [])

  /** returned holds the balance that the last UPDATE's RETURNING clause stored. */
  datatype Session =
    | Idle
    | Running(req: Request, env: Env, next: Statement, locks: set<Id>, writes: Writes, returned: int)

  /** A call that returned, with its outcome, or another committed change of the accounts. */
  datatype Committed = Committed(action: Action, outcome: Option<Outcome>)

  function Completed(req: Request, env: Env, outcome: Outcome): Committed {
    Committed(Call(req, env), Some(outcome))
  }

  /** The committed database, the sessions, and what was committed, in commit order. */
  datatype System = System(db: Database, sessions: seq<Session>, log: seq<Committed>)

  datatype Event =
    | Begin(i: nat, req: Request, env: Env)
    | Execute(i: nat)
    | Abort(i: nat)
    | OpenAccount(id: Id, org: Id, kind: AccountType, balance: int)
    | ChangeStatus(id: Id, status: AccountStatus)

  // ---------- One statement ----------

  predicate LockedByOther(sys: System, i: nat, id: Id) {
    exists j :: 0 <= j < |sys.sessions| && j != i && sys.sessions[j].Running? && id in sys.sessions[j].locks
  }

  predicate SameIndexEntry(t: Txn, u: Txn) {
    t.id == u.id || (t.key.Some? && t.key == u.key)
  }

  /** Another session has an uncommitted row that the new row's index entries collide with. */
  predicate InsertMustWait(sys: System, i: nat, t: Txn) {
    exists j :: 0 <= j < |sys.sessions| && j != i && sys.sessions[j].Running?
      && exists u :: u in sys.sessions[j].writes.txns && SameIndexEntry(t, u)
  }

  function Put(sys: System, i: nat, s: Session): System
    requires i < |sys.sessions|
  {
    sys.(sessions := sys.sessions[i := s])
  }

  /** The latest row that a session's UPDATE sees. */
  function Seen(db: Database, w: Writes, id: Id): Account
    requires id in db.accounts
  {
    if id in w.balances then db.accounts[id].(balance := w.balances[id]) else db.accounts[id]
  }

  /** UPDATE accounts SET balance = balance + change WHERE id = ... RETURNING balance. */
  function UpdateBalance(sys: System, i: nat, id: Option<Id>, change: real, next: Statement): System
    requires i < |sys.sessions| && sys.sessions[i].Running?
  {
    var s := sys.sessions[i];
    if id.None? || id.value !in sys.db.accounts then Put(sys, i, Idle)
    else if LockedByOther(sys, i, id.value) then sys
    else
      var row := Seen(sys.db, s.writes, id.value);
      var stored := Round(row.balance as real + change);
      if UpdateRefusal(row, stored).Some? then Put(sys, i, Idle)
      else
        var w := s.writes.(balances := s.writes.balances[id.value := stored],
                           audit := s.writes.audit + BalanceAudit(id.value, row.balance, stored));
        Put(sys, i, s.(next := next, locks := s.locks + {id.value}, writes := w, returned := stored))
  }

  function InsertEntry(sys: System, i: nat, id: Option<Id>, side: Side, amount: real, next: Statement): System
    requires i < |sys.sessions| && sys.sessions[i].Running?
  {
    var s := sys.sessions[i];
    if id.None? then Put(sys, i, Idle)
    else
      var e := Entry(s.env.txnId, id.value, side, Round(amount), s.returned);
      Put(sys, i, s.(next := next, writes := s.writes.(ledger := s.writes.ledger + [e])))
  }

  function Published(db: Database, w: Writes): Database {
    Database(
      map id | id in db.accounts :: Seen(db, w, id),
      db.txns + w.txns, db.ledger + w.ledger, db.audit + w.audit)
  }

  /** One statement of session i. A statement that must wait leaves the system as it is; one
      that raises ends the transaction and drops its writes and locks. */
  function ExecuteStatement(sys: System, i: nat): System
    requires i < |sys.sessions| && sys.sessions[i].Running?
  {
    var s, db := sys.sessions[i], sys.db;
    var req, env := s.req, s.env;
    if s.next.Rank() > 5 && req.amount.None? then Put(sys, i, Idle)
    else
      match s.next
      case CheckLimit => Put(sys, i, if env.admitted then s.(next := CheckKey) else Idle)
      case CheckKey =>
        var hit := EarlyReturn(db.txns, req);
        if hit.Some? then
          Put(sys, i, Idle).(log := sys.log + [Completed(req, env, Returned(hit.value))])
        else Put(sys, i, s.(next := CheckSource))
      case CheckSource =>
        Put(sys, i, if Usable(db.accounts, req.org, req.source) then s.(next := CheckDest) else Idle)
      case CheckDest =>
        Put(sys, i, if req.dest.None? || Usable(db.accounts, req.org, req.dest) then s.(next := LockSource) else Idle)
      case LockSource =>
        if req.source.None? || req.source.value !in db.accounts then Put(sys, i, s.(next := InsertTxn))
        else if LockedByOther(sys, i, req.source.value) then sys
        else if FundsShort(db.accounts[req.source.value], req.amount) then Put(sys, i, Idle)
        else Put(sys, i, s.(next := InsertTxn, locks := s.locks + {req.source.value}))
      case InsertTxn =>
        if req.amount.Some? && InsertMustWait(sys, i, NewTxn(req, env)) then sys
        else if InsertRefusal(db.txns, req, env).Some? then Put(sys, i, Idle)
        else Put(sys, i, s.(next := UpdateSource, writes := s.writes.(txns := s.writes.txns + [NewTxn(req, env)])))
      case UpdateSource => UpdateBalance(sys, i, req.source, -req.amount.value, InsertDebit)
      case InsertDebit =>
        InsertEntry(sys, i, req.source, Debit, req.amount.value, if req.dest.Some? then UpdateDest else WriteAudit)
      case UpdateDest => UpdateBalance(sys, i, req.dest, req.amount.value, InsertCredit)
      case InsertCredit => InsertEntry(sys, i, req.dest, Credit, req.amount.value, WriteAudit)
      case WriteAudit =>
        Put(sys, i, s.(next := Commit, writes := s.writes.(audit := s.writes.audit + [TxnCreated(env.txnId)])))
      case Commit =>
        System(Published(db, s.writes), sys.sessions[i := Idle],
               sys.log + [Completed(req, env, Returned(NewTxn(req, env)))])
  }

  predicate Locked(sys: System, id: Id) {
    exists j :: 0 <= j < |sys.sessions| && sys.sessions[j].Running? && id in sys.sessions[j].locks
  }

  /** A change of the accounts by a transaction of its own. */
  function CommitAction(sys: System, a: Action): System {
    sys.(db := Apply(sys.db, a), log := sys.log + [Committed(a, None)])
  }

  function Step(sys: System, e: Event): System {
    match e
    case Begin(i, req, env) =>
      if i < |sys.sessions| && sys.sessions[i].Idle? then
        Put(sys, i, Running(req, env, CheckLimit, {}, NO_WRITES, 0))
      else sys
    case Execute(i) => if i < |sys.sessions| && sys.sessions[i].Running? then ExecuteStatement(sys, i) else sys
    case Abort(i) => if i < |sys.sessions| then Put(sys, i, Idle) else sys
    case OpenAccount(id, org, kind, balance) => CommitAction(sys, Open(id, org, kind, balance))
    case ChangeStatus(id, status) =>
      if Locked(sys, id) then sys else CommitAction(sys, SetStatus(id, status))
  }

  /** Any number of sessions, all idle, over a committed database. */
  function Start(db: Database, sessions: nat): System {
    System(db, seq(sessions, _ => Idle), [])
  }

  function RunEvents(sys: System, events: seq<Event>): System {
    if events == [] then sys
    else Step(RunEvents(sys, events[..|events| - 1]), events[|events| - 1])
  }

  // ---------- What a session has done so far ----------

  /** The locks and writes a session must hold before its next statement, computed afresh from
      the committed database of this moment. */
  function LocksAt(req: Request, rank: nat): set<Id> {
    (if rank > 4 && req.source.Some? then {req.source.value} else {})
    + (if rank > 8 && req.dest.Some? then {req.dest.value} else {})
  }

  /** The status that was checked may have changed since; the rest of the checks still holds. */
  predicate ChecksPassed(db: Database, req: Request, env: Env, rank: nat) {
    && (rank > 0 ==> env.admitted)
    && (rank > 2 ==> Named(db.accounts, req.org, req.source))
    && (rank > 3 && req.dest.Some? ==> Named(db.accounts, req.org, req.dest))
    && (rank > 4 ==> !FundsShort(db.accounts[req.source.value], req.amount))
    && (rank > 5 ==> InsertRefusal(db.txns, req, env) == None)
    && (rank > 6 ==> UpdateRefusal(db.accounts[req.source.value], SourceAfter(db, req)) == None)
    && (rank > 8 && req.dest.Some? ==> UpdateRefusal(db.accounts[req.dest.value], DestAfter(db, req)) == None)
  }

  function WritesAt(db: Database, req: Request, env: Env, rank: nat): Writes
    requires ChecksPassed(db, req, env, rank)
  {
    if rank <= 5 then NO_WRITES
    else
      var w0 := NO_WRITES.(txns := [NewTxn(req, env)]);
      if rank <= 6 then w0
      else
        var s, sNew := req.source.value, SourceAfter(db, req);
        var w1 := w0.(balances := map[s := sNew], audit := BalanceAudit(s, db.accounts[s].balance, sNew));
        if rank <= 7 then w1
        else
          var w2 := w1.(ledger := [DebitEntry(db, req, env)]);
          if rank <= 8 then w2
          else
            var w4 := if req.dest.None? then w2 else
              var d, dNew := req.dest.value, DestAfter(db, req);
              var w3 := w2.(balances := w2.balances[d := dNew],
                            audit := w2.audit + BalanceAudit(d, db.accounts[d].balance, dNew));
              if rank <= 9 then w3 else w3.(ledger := w3.ledger + [CreditEntry(db, req, env)]);
            if rank <= 10 then w4 else w4.(audit := w4.audit + [TxnCreated(env.txnId)])
  }

  predicate OnTrack(db: Database, s: Session) {
    s.Running? ==>
      var rank := s.next.Rank();
      && ChecksPassed(db, s.req, s.env, rank)
      && s.locks == LocksAt(s.req, rank)
      && s.writes == WritesAt(db, s.req, s.env, rank)
      && (rank == 7 ==> s.returned == SourceAfter(db, s.req))
      && (rank == 9 && s.req.dest.Some? ==> s.returned == DestAfter(db, s.req))
      && (8 <= rank <= 9 ==> s.req.dest.Some?)
  }

  predicate Apart(s: Session, u: Session) {
    s.Running? && u.Running? ==>
      && s.locks !! u.locks
      && forall t, v :: t in s.writes.txns && v in u.writes.txns ==> !SameIndexEntry(t, v)
  }

  predicate Inv(sys: System) {
    && (forall i :: 0 <= i < |sys.sessions| ==> OnTrack(sys.db, sys.sessions[i]))
    && (forall i, j :: 0 <= i < |sys.sessions| && 0 <= j < |sys.sessions| && i != j ==>
          Apart(sys.sessions[i], sys.sessions[j]))
  }

  // ---------- Steps keep the invariant ----------

  lemma PutKeepsInv(sys: System, i: nat, s: Session)
    requires Inv(sys) && i < |sys.sessions| && OnTrack(sys.db, s)
    requires forall j :: 0 <= j < |sys.sessions| && j != i ==> Apart(s, sys.sessions[j])
    ensures Inv(Put(sys, i, s))
  {
    var after := Put(sys, i, s).sessions;
    forall j, k | 0 <= j < |after| && 0 <= k < |after| && j != k
      ensures Apart(after[j], after[k])
    {
      if j == i {
        assert Apart(s, sys.sessions[k]);
      } else if k == i {
        assert Apart(s, sys.sessions[j]);
        ApartBack(s, sys.sessions[j]);
      }
    }
  }

  lemma ApartBack(s: Session, u: Session)
    requires Apart(s, u)
    ensures Apart(u, s)
  {
  }

  /** A session that gains no lock and no row stays apart from the others. */
  lemma StaysApart(sys: System, i: nat, s: Session)
    requires Inv(sys) && i < |sys.sessions| && sys.sessions[i].Running? && s.Running?
    requires s.locks <= sys.sessions[i].locks && s.writes.txns == sys.sessions[i].writes.txns
    ensures forall j :: 0 <= j < |sys.sessions| && j != i ==> Apart(s, sys.sessions[j])
  {
  }

  /** A lock that no other session holds keeps its new holder apart. */
  lemma LockStaysApart(sys: System, i: nat, id: Id, s: Session)
    requires Inv(sys) && i < |sys.sessions| && sys.sessions[i].Running? && s.Running?
    requires !LockedByOther(sys, i, id)
    requires s.locks == sys.sessions[i].locks + {id} && s.writes.txns == sys.sessions[i].writes.txns
    ensures forall j :: 0 <= j < |sys.sessions| && j != i ==> Apart(s, sys.sessions[j])
  {
  }

  /** Exactly one of its three ends: it waits, it raises, or it takes the lock and stays on track. */
  lemma UpdateStaysOnTrack(sys: System, i: nat)
    requires i < |sys.sessions| && sys.sessions[i].Running? && OnTrack(sys.db, sys.sessions[i])
    requires sys.sessions[i].next.UpdateSource? || sys.sessions[i].next.UpdateDest?
    ensures
      var s, after := sys.sessions[i], ExecuteStatement(sys, i);
      var id := if s.next.UpdateSource? then s.req.source.value else s.req.dest.value;
      || after == sys
      || after == Put(sys, i, Idle)
      || (&& after.sessions[i].Running? && after == Put(sys, i, after.sessions[i])
          && OnTrack(sys.db, after.sessions[i]) && !LockedByOther(sys, i, id)
          && after.sessions[i].locks == s.locks + {id} && after.sessions[i].writes.txns == s.writes.txns)
  {
    var s := sys.sessions[i];
    var a := s.req.amount.value;
    if s.next.UpdateSource? {
      var balance := sys.db.accounts[s.req.source.value].balance;
      assert balance as real + -a == balance as real - a;
    } else {
      assert s.req.dest.value !in s.writes.balances;
    }
  }

  lemma UpdateKeepsInv(sys: System, i: nat)
    requires Inv(sys) && i < |sys.sessions| && sys.sessions[i].Running?
    requires sys.sessions[i].next.UpdateSource? || sys.sessions[i].next.UpdateDest?
    ensures Inv(ExecuteStatement(sys, i))
  {
    var s, after := sys.sessions[i], ExecuteStatement(sys, i);
    UpdateStaysOnTrack(sys, i);
    if after == Put(sys, i, Idle) {
      PutKeepsInv(sys, i, Idle);
    } else if after != sys {
      LockStaysApart(sys, i, if s.next.UpdateSource? then s.req.source.value else s.req.dest.value, after.sessions[i]);
      PutKeepsInv(sys, i, after.sessions[i]);
    }
  }

  lemma InsertKeepsInv(sys: System, i: nat)
    requires Inv(sys) && i < |sys.sessions| && sys.sessions[i].Running?
    requires sys.sessions[i].next.InsertTxn?
    ensures Inv(ExecuteStatement(sys, i))
  {
    var s, after := sys.sessions[i], ExecuteStatement(sys, i);
    if after != sys {
      var s' := after.sessions[i];
      assert OnTrack(sys.db, s);
      if s'.Running? {
        forall j | 0 <= j < |sys.sessions| && j != i
          ensures Apart(s', sys.sessions[j])
        {
          assert Apart(s, sys.sessions[j]);
        }
      }
      PutKeepsInv(sys, i, s');
      assert after == Put(sys, i, s');
    }
  }

  lemma LockKeepsInv(sys: System, i: nat)
    requires Inv(sys) && i < |sys.sessions| && sys.sessions[i].Running?
    requires sys.sessions[i].next.LockSource?
    ensures Inv(ExecuteStatement(sys, i))
  {
    var s, after := sys.sessions[i], ExecuteStatement(sys, i);
    if after != sys {
      var s' := after.sessions[i];
      assert OnTrack(sys.db, s);
      if s'.Running? {
        LockStaysApart(sys, i, s.req.source.value, s');
      }
      PutKeepsInv(sys, i, s');
      assert after == Put(sys, i, s');
    }
  }

  /** Statements that take no lock, insert no transaction and commit nothing. */
  lemma LocalStatementKeepsInv(sys: System, i: nat)
    requires Inv(sys) && i < |sys.sessions| && sys.sessions[i].Running?
    requires sys.sessions[i].next.Rank() in {0, 1, 2, 3, 7, 9, 10}
    ensures Inv(ExecuteStatement(sys, i))
  {
    var s, after := sys.sessions[i], ExecuteStatement(sys, i);
    var s' := after.sessions[i];
    assert OnTrack(sys.db, s);
    if s'.Running? {
      StaysApart(sys, i, s');
    }
    PutKeepsInv(sys, i, s');
    assert after.sessions == Put(sys, i, s').sessions;
  }

  // ---------- Commit ----------

  /** The named accounts are active at this moment. */
  predicate AccountsActive(db: Database, req: Request) {
    Usable(db.accounts, req.org, req.source) && (req.dest.Some? ==> Usable(db.accounts, req.org, req.dest))
  }

  /** At its commit a session publishes the effect of its statements on the database of that
      moment. That is what the atomic call would do there if and only if both named accounts
      are still active; otherwise the atomic call would raise. */
  lemma CommitIsAtomicExactlyWhen(db: Database, s: Session)
    requires s.Running? && s.next.Commit? && OnTrack(db, s)
    ensures Published(db, s.writes) == Effect(db, s.req, s.env)
    ensures Process(db, s.req, s.env) == (Returned(NewTxn(s.req, s.env)), Published(db, s.writes))
      <==> AccountsActive(db, s.req)
    ensures !AccountsActive(db, s.req) ==> Process(db, s.req, s.env).0.Raised?
  {
    var req, env := s.req, s.env;
    assert EarlyReturn(db.txns, req).None? by {
      if req.key.Some? {
        FindByKeySpec(db.txns, req.org, req.key.value);
      }
    }
    var after := Effect(db, req, env);
    assert after.accounts == Published(db, s.writes).accounts;
    assert after.txns == Published(db, s.writes).txns;
    assert after.ledger == Published(db, s.writes).ledger;
    assert after.audit == Published(db, s.writes).audit;
  }

  /** What a session relies on: the fixed columns of every row, the rows it has locked, and
      the absence of its key and id once its transaction row is inserted. */
  predicate SameFor(db: Database, db': Database, s: Session)
    requires s.Running?
  {
    && (forall id :: id in db.accounts ==>
          && id in db'.accounts
          && db'.accounts[id].org == db.accounts[id].org && db'.accounts[id].kind == db.accounts[id].kind)
    && (forall id :: id in db.accounts && id in s.locks ==> db'.accounts[id] == db.accounts[id])
    && (s.next.Rank() > 5 ==> InsertRefusal(db'.txns, s.req, s.env) == InsertRefusal(db.txns, s.req, s.env))
  }

  lemma OnTrackStable(db: Database, db': Database, s: Session)
    requires s.Running? && OnTrack(db, s) && SameFor(db, db', s)
    ensures OnTrack(db', s)
  {
    var rank := s.next.Rank();
    if rank > 4 {
      var id := s.req.source.value;
      assert id in s.locks && db'.accounts[id] == db.accounts[id];
    }
    if rank > 8 && s.req.dest.Some? {
      var id := s.req.dest.value;
      assert id in s.locks && db'.accounts[id] == db.accounts[id];
    }
    assert ChecksPassed(db', s.req, s.env, rank);
  }

  /** Another session's commit leaves everything that this session relies on as it was. */
  lemma CommitOfAnother(db: Database, u: Session, s: Session)
    requires u.Running? && u.next.Commit? && OnTrack(db, u)
    requires s.Running? && OnTrack(db, s) && Apart(u, s)
    ensures SameFor(db, Published(db, u.writes), s)
  {
    var t := NewTxn(u.req, u.env);
    assert u.writes.txns == [t];
    assert u.writes.balances.Keys <= u.locks;
    if s.next.Rank() > 5 {
      assert NewTxn(s.req, s.env) in s.writes.txns;
      assert t in u.writes.txns;
      assert !SameIndexEntry(t, NewTxn(s.req, s.env));
    }
  }

  lemma CommitKeepsInv(sys: System, i: nat)
    requires Inv(sys) && i < |sys.sessions| && sys.sessions[i].Running?
    requires sys.sessions[i].next.Commit?
    ensures Inv(ExecuteStatement(sys, i))
  {
    assert OnTrack(sys.db, sys.sessions[i]);
    forall j | 0 <= j < |sys.sessions| && j != i
      ensures OnTrack(ExecuteStatement(sys, i).db, sys.sessions[j])
    {
      assert Apart(sys.sessions[i], sys.sessions[j]);
      if sys.sessions[j].Running? {
        CommitOfAnother(sys.db, sys.sessions[i], sys.sessions[j]);
        OnTrackStable(sys.db, ExecuteStatement(sys, i).db, sys.sessions[j]);
      }
    }
  }

  /** Opening an account or changing the status of one that is not locked disturbs no session. */
  lemma ActionKeepsInv(sys: System, a: Action)
    requires Inv(sys) && !a.Call?
    requires a.SetStatus? ==> !Locked(sys, a.id)
    ensures Inv(CommitAction(sys, a))
  {
    var after := CommitAction(sys, a);
    forall j | 0 <= j < |sys.sessions|
      ensures OnTrack(after.db, after.sessions[j])
    {
      assert OnTrack(sys.db, sys.sessions[j]);
      if sys.sessions[j].Running? {
        assert SameFor(sys.db, after.db, sys.sessions[j]);
        OnTrackStable(sys.db, after.db, sys.sessions[j]);
      }
    }
  }

  lemma StepKeepsInv(sys: System, e: Event)
    requires Inv(sys)
    ensures Inv(Step(sys, e))
  {
    match e
    case Begin(i, req, env) =>
      if i < |sys.sessions| && sys.sessions[i].Idle? {
        PutKeepsInv(sys, i, Running(req, env, CheckLimit, {}, NO_WRITES, 0));
      }
    case Abort(i) =>
      if i < |sys.sessions| {
        PutKeepsInv(sys, i, Idle);
      }
    case OpenAccount(id, org, kind, balance) => ActionKeepsInv(sys, Open(id, org, kind, balance));
    case ChangeStatus(id, status) =>
      if !Locked(sys, id) {
        ActionKeepsInv(sys, SetStatus(id, status));
      }
    case Execute(i) =>
      if i < |sys.sessions| && sys.sessions[i].Running? {
        ExecuteKeepsInv(sys, i);
      }
  }

  lemma ExecuteKeepsInv(sys: System, i: nat)
    requires Inv(sys) && i < |sys.sessions| && sys.sessions[i].Running?
    ensures Inv(ExecuteStatement(sys, i))
  {
    match sys.sessions[i].next
    case LockSource => LockKeepsInv(sys, i);
    case InsertTxn => InsertKeepsInv(sys, i);
    case UpdateSource => UpdateKeepsInv(sys, i);
    case UpdateDest => UpdateKeepsInv(sys, i);
    case Commit => CommitKeepsInv(sys, i);
    case _ => LocalStatementKeepsInv(sys, i);
  }

  // ---------- Every interleaving is a serial run in commit order ----------

  function Actions(log: seq<Committed>): seq<Action> {
    seq(|log|, k requires 0 <= k < |log| => log[k].action)
  }

  /** Each logged call returned what it returns when the logged actions run one after another. */
  predicate OutcomesAgree(first: Database, log: seq<Committed>) {
    forall k :: 0 <= k < |log| && log[k].action.Call? ==>
      log[k].outcome == Some(Process(Run(first, Actions(log[..k])), log[k].action.req, log[k].action.env).0)
  }

  /** And the committed database is what the logged actions leave. */
  predicate Serial(first: Database, sys: System) {
    sys.db == Run(first, Actions(sys.log)) && OutcomesAgree(first, sys.log)
  }

  lemma SerialAppend(first: Database, sys: System, sys': System, c: Committed)
    requires Serial(first, sys) && sys'.log == sys.log + [c]
    requires sys'.db == Apply(sys.db, c.action)
    requires c.action.Call? ==> c.outcome == Some(Process(sys.db, c.action.req, c.action.env).0)
    ensures Serial(first, sys')
  {
    var actions, actions' := Actions(sys.log), Actions(sys'.log);
    assert actions'[..|actions'| - 1] == actions;
    assert actions'[|actions'| - 1] == c.action;
    forall k | 0 <= k < |sys'.log| && sys'.log[k].action.Call?
      ensures sys'.log[k].outcome
           == Some(Process(Run(first, Actions(sys'.log[..k])), sys'.log[k].action.req, sys'.log[k].action.env).0)
    {
      if k < |sys.log| {
        assert sys'.log[..k] == sys.log[..k];
      } else {
        assert sys'.log[..k] == sys.log;
      }
    }
  }

  /** If the step commits a posting call, its named accounts are active at that moment. */
  predicate SeesActive(sys: System, e: Event) {
    e.Execute? && e.i < |sys.sessions| && sys.sessions[e.i].Running? && sys.sessions[e.i].next.Commit? ==>
      AccountsActive(sys.db, sys.sessions[e.i].req)
  }

  predicate CommitsSeeActive(first: Database, sessions: nat, events: seq<Event>) {
    events == [] ||
      var before := events[..|events| - 1];
      && CommitsSeeActive(first, sessions, before)
      && SeesActive(RunEvents(Start(first, sessions), before), events[|events| - 1])
  }

  /** The step commits this action, a call with the outcome it has there, or nothing. */
  predicate CommitsLike(sys: System, after: System, c: Committed) {
    && after.log == sys.log + [c] && after.db == Apply(sys.db, c.action)
    && (c.action.Call? ==> c.outcome == Some(Process(sys.db, c.action.req, c.action.env).0))
  }

  /** Which statements of a session commit something, and what. */
  lemma StatementCommits(sys: System, i: nat)
    requires i < |sys.sessions| && sys.sessions[i].Running? && OnTrack(sys.db, sys.sessions[i])
    ensures
      var s, after := sys.sessions[i], ExecuteStatement(sys, i);
      if s.next.Commit? then
        && after.db == Published(sys.db, s.writes)
        && after.log == sys.log + [Completed(s.req, s.env, Returned(NewTxn(s.req, s.env)))]
      else
        && after.db == sys.db
        && after.log == sys.log + if s.next.CheckKey? && EarlyReturn(sys.db.txns, s.req).Some?
                                  then [Completed(s.req, s.env, Returned(EarlyReturn(sys.db.txns, s.req).value))] else []
  {
  }

  /** Only an early return, a commit, an opening and a change of status are committed; every
      other step leaves the committed database and the log alone. */
  lemma StepCommits(sys: System, e: Event)
    requires Inv(sys) && SeesActive(sys, e)
    ensures
      var after := Step(sys, e);
      || (after.db == sys.db && after.log == sys.log)
      || (after.log != [] && CommitsLike(sys, after, after.log[|after.log| - 1]))
  {
    if e.Execute? && e.i < |sys.sessions| && sys.sessions[e.i].Running? {
      var s := sys.sessions[e.i];
      assert OnTrack(sys.db, s);
      StatementCommits(sys, e.i);
      if s.next.Commit? {
        CommitIsAtomicExactlyWhen(sys.db, s);
      }
    }
  }

  /** A log keeps its disagreements. */
  lemma OutcomesOfPrefix(first: Database, log: seq<Committed>, more: seq<Committed>)
    requires OutcomesAgree(first, log + more)
    ensures OutcomesAgree(first, log)
  {
    forall k | 0 <= k < |log| && log[k].action.Call?
      ensures log[k].outcome == Some(Process(Run(first, Actions(log[..k])), log[k].action.req, log[k].action.env).0)
    {
      assert (log + more)[..k] == log[..k] && (log + more)[k] == log[k];
    }
  }

  lemma LogGrows(sys: System, e: Event)
    requires Inv(sys)
    ensures |Step(sys, e).log| >= |sys.log| && Step(sys, e).log[..|sys.log|] == sys.log
  {
    if e.Execute? && e.i < |sys.sessions| && sys.sessions[e.i].Running? {
      assert OnTrack(sys.db, sys.sessions[e.i]);
      StatementCommits(sys, e.i);
    }
  }

  /** A call that commits on an account no longer active returns where it raises in the serial run. */
  lemma UnseenDisagrees(first: Database, sys: System, e: Event)
    requires Inv(sys) && Serial(first, sys) && !SeesActive(sys, e)
    ensures !OutcomesAgree(first, Step(sys, e).log)
  {
    var s, log := sys.sessions[e.i], Step(sys, e).log;
    assert OnTrack(sys.db, s);
    StatementCommits(sys, e.i);
    CommitIsAtomicExactlyWhen(sys.db, s);
    assert log[|sys.log|] == Completed(s.req, s.env, Returned(NewTxn(s.req, s.env))) && log[..|sys.log|] == sys.log;
  }

  lemma SerialStep(first: Database, sys: System, e: Event)
    requires Inv(sys) && Serial(first, sys) && SeesActive(sys, e)
    ensures Serial(first, Step(sys, e))
  {
    var after := Step(sys, e);
    StepCommits(sys, e);
    if !(after.db == sys.db && after.log == sys.log) {
      SerialAppend(first, sys, after, after.log[|after.log| - 1]);
    }
  }

  /** For any number of sessions and any interleaving of their statements, with waits on row
      locks and on the unique indexes, aborts anywhere, and accounts opened and changing status
      in between: the committed database equals the committed actions run atomically in commit
      order, and each call returned the outcome it has there, if and only if every posting call
      found its accounts active when it committed. If one did not, the outcomes alone tell. */
  lemma {:induction false} SerialExactlyWhen(first: Database, sessions: nat, events: seq<Event>)
    ensures
      var sys := RunEvents(Start(first, sessions), events);
      && Inv(sys)
      && (Serial(first, sys) <==> CommitsSeeActive(first, sessions, events))
      && (OutcomesAgree(first, sys.log) <==> CommitsSeeActive(first, sessions, events))
  {
    if events == [] {
      assert Actions([]) == [];
    } else {
      var n := |events| - 1;
      var sys, e := RunEvents(Start(first, sessions), events[..n]), events[n];
      SerialExactlyWhen(first, sessions, events[..n]);
      StepKeepsInv(sys, e);
      LogGrows(sys, e);
      if CommitsSeeActive(first, sessions, events) {
        SerialStep(first, sys, e);
      } else if CommitsSeeActive(first, sessions, events[..n]) {
        UnseenDisagrees(first, sys, e);
      } else if OutcomesAgree(first, Step(sys, e).log) {
        var log := Step(sys, e).log;
        assert log == sys.log + log[|sys.log|..];
        OutcomesOfPrefix(first, sys.log, log[|sys.log|..]);
      }
    }
  }

  /** The accounts that a session has found active are active still. */
  predicate StillActive(db: Database, s: Session) {
    s.Running? ==>
      && (s.next.Rank() > 2 ==> Usable(db.accounts, s.req.org, s.req.source))
      && (s.next.Rank() > 3 && s.req.dest.Some? ==> Usable(db.accounts, s.req.org, s.req.dest))
  }

  predicate AllStillActive(sys: System) {
    forall i :: 0 <= i < |sys.sessions| ==> StillActive(sys.db, sys.sessions[i])
  }

  lemma ActiveStep(sys: System, e: Event)
    requires AllStillActive(sys) && !e.ChangeStatus?
    ensures AllStillActive(Step(sys, e))
  {
    var after := Step(sys, e);
    assert forall org, id :: Usable(sys.db.accounts, org, id) ==> Usable(after.db.accounts, org, id);
    if e.Execute? && e.i < |sys.sessions| && sys.sessions[e.i].Running? {
      assert StillActive(sys.db, sys.sessions[e.i]);
      assert StillActive(sys.db, after.sessions[e.i]);
    }
    forall i | 0 <= i < |after.sessions|
      ensures StillActive(after.db, after.sessions[i])
    {
      assert StillActive(sys.db, sys.sessions[i]);
    }
  }

  lemma ActiveIsSeen(sys: System, e: Event)
    requires AllStillActive(sys)
    ensures SeesActive(sys, e)
  {
    if e.Execute? && e.i < |sys.sessions| {
      assert StillActive(sys.db, sys.sessions[e.i]);
    }
  }

  /** Without changes of status every commit finds its accounts active, so every interleaving is
      serial. */
  lemma {:induction false} NoStatusChangeIsSerial(first: Database, sessions: nat, events: seq<Event>)
    requires forall i :: 0 <= i < |events| ==> !events[i].ChangeStatus?
    ensures AllStillActive(RunEvents(Start(first, sessions), events))
    ensures CommitsSeeActive(first, sessions, events)
  {
    if events != [] {
      var n := |events| - 1;
      NoStatusChangeIsSerial(first, sessions, events[..n]);
      var sys := RunEvents(Start(first, sessions), events[..n]);
      ActiveStep(sys, events[n]);
      ActiveIsSeen(sys, events[n]);
    }
  }

  // ---------- Whatever the status changes ----------

  /** The database as if every account were active. Balances, transactions, entries and audit
      records are as they are. */
  function Thaw(db: Database): Database {
    db.(accounts := map id | id in db.accounts :: db.accounts[id].(status := Active))
  }

  function ThawAction(a: Action): Action {
    if a.SetStatus? then SetStatus(a.id, Active) else a
  }

  function ThawLog(log: seq<Committed>): seq<Committed> {
    seq(|log|, k requires 0 <= k < |log| => log[k].(action := ThawAction(log[k].action)))
  }

  function ThawSystem(sys: System): System {
    System(Thaw(sys.db), sys.sessions, ThawLog(sys.log))
  }

  /** At its commit a session publishes what the atomic call does when the accounts are active. */
  lemma ThawedCommit(db: Database, s: Session)
    requires s.Running? && s.next.Commit? && OnTrack(db, s)
    ensures Process(Thaw(db), s.req, s.env) == (Returned(NewTxn(s.req, s.env)), Thaw(Published(db, s.writes)))
  {
    assert OnTrack(Thaw(db), s);
    CommitIsAtomicExactlyWhen(Thaw(db), s);
    assert Published(Thaw(db), s.writes).accounts == Thaw(Published(db, s.writes)).accounts;
  }

  lemma ThawedAction(db: Database, a: Action)
    requires !a.Call?
    ensures Thaw(Apply(db, a)) == Apply(Thaw(db), ThawAction(a))
  {
    assert Thaw(Apply(db, a)).accounts == Apply(Thaw(db), ThawAction(a)).accounts;
  }

  lemma ThawedAppend(log: seq<Committed>, c: Committed)
    ensures ThawLog(log + [c]) == ThawLog(log) + [c.(action := ThawAction(c.action))]
  {
  }

  lemma ThawedStatement(sys: System, i: nat)
    requires i < |sys.sessions| && sys.sessions[i].Running? && OnTrack(sys.db, sys.sessions[i])
    ensures
      var before, after := ThawSystem(sys), ThawSystem(ExecuteStatement(sys, i));
      || (after.db == before.db && after.log == before.log)
      || (after.log != [] && CommitsLike(before, after, after.log[|after.log| - 1]))
  {
    var s, hit := sys.sessions[i], EarlyReturn(sys.db.txns, sys.sessions[i].req);
    StatementCommits(sys, i);
    if s.next.Commit? {
      ThawedCommit(sys.db, s);
      ThawedAppend(sys.log, Completed(s.req, s.env, Returned(NewTxn(s.req, s.env))));
    } else if s.next.CheckKey? && hit.Some? {
      ThawedAppend(sys.log, Completed(s.req, s.env, Returned(hit.value)));
    }
  }

  lemma ThawedStep(sys: System, e: Event)
    requires Inv(sys)
    ensures
      var before, after := ThawSystem(sys), ThawSystem(Step(sys, e));
      || (after.db == before.db && after.log == before.log)
      || (after.log != [] && CommitsLike(before, after, after.log[|after.log| - 1]))
  {
    match e
    case Execute(i) =>
      if i < |sys.sessions| && sys.sessions[i].Running? {
        ThawedStatement(sys, i);
      }
    case OpenAccount(id, org, kind, balance) =>
      var a := Open(id, org, kind, balance);
      ThawedAction(sys.db, a);
      ThawedAppend(sys.log, Committed(a, None));
    case ChangeStatus(id, status) =>
      var a := SetStatus(id, status);
      ThawedAction(sys.db, a);
      ThawedAppend(sys.log, Committed(a, None));
    case _ =>
  }

  /** For any sessions, interleaving, aborts, openings and changes of status at any time, without
      exception: all but the accounts' status is what the committed actions leave when they run
      atomically in commit order on accounts that are all active, and each call returned what it
      returns there. */
  lemma {:induction false} SerialButForStatus(first: Database, sessions: nat, events: seq<Event>)
    ensures Inv(RunEvents(Start(first, sessions), events))
    ensures Serial(Thaw(first), ThawSystem(RunEvents(Start(first, sessions), events)))
  {
    if events == [] {
      assert ThawLog([]) == [] && Actions([]) == [];
    } else {
      var n := |events| - 1;
      SerialButForStatus(first, sessions, events[..n]);
      var sys, after := RunEvents(Start(first, sessions), events[..n]), RunEvents(Start(first, sessions), events);
      StepKeepsInv(sys, events[n]);
      ThawedStep(sys, events[n]);
      var before', after' := ThawSystem(sys), ThawSystem(after);
      if !(after'.db == before'.db && after'.log == before'.log) {
        SerialAppend(Thaw(first), before', after', after'.log[|after'.log| - 1]);
      }
    }
  }

  lemma {:induction false} ThawedTotal(db: Database)
    ensures Total(Thaw(db).accounts) == Total(db.accounts)
    decreases |db.accounts|
  {
    if db.accounts != map[] {
      var id :| id in db.accounts;
      var rest := db.(accounts := db.accounts - {id});
      ThawedTotal(rest);
      TotalRemove(db.accounts, id);
      TotalRemove(Thaw(db).accounts, id);
      assert Thaw(db).accounts - {id} == Thaw(rest).accounts;
    } else {
      assert Thaw(db).accounts == map[];
    }
  }

  // ---------- A session alone computes the whole call ----------

  predicate Alone(sys: System, i: nat) {
    forall j :: 0 <= j < |sys.sessions| && j != i ==> sys.sessions[j].Idle?
  }

  /** The system after the call of session i has ended one way or the other, with after as its
      database: logged when it returned, untouched when it raised. */
  predicate Ended(sys: System, after: System, i: nat, req: Request, env: Env)
    requires i < |sys.sessions|
  {
    var (outcome, db) := Process(sys.db, req, env);
    && after.sessions == sys.sessions[i := Idle]
    && after.db == db
    && after.log == sys.log + (if outcome.Returned? then [Completed(req, env, outcome)] else [])
  }

  /** The early return is behind the session, and its accounts have stayed active. */
  predicate Undisturbed(db: Database, s: Session)
    requires s.Running?
  {
    (s.next.Rank() > 1 ==> EarlyReturn(db.txns, s.req).None?) && StillActive(db, s)
  }

  lemma SoloRefusal(db: Database, req: Request, env: Env, rank: nat)
    requires ChecksPassed(db, req, env, rank) && 2 <= rank
    requires rank > 2 ==> Usable(db.accounts, req.org, req.source)
    requires rank > 3 && req.dest.Some? ==> Usable(db.accounts, req.org, req.dest)
    ensures rank == 2 && !Usable(db.accounts, req.org, req.source) ==> Refusal(db, req, env).Some?
    ensures rank == 3 && req.dest.Some? && !Usable(db.accounts, req.org, req.dest) ==> Refusal(db, req, env).Some?
    ensures rank == 4 && FundsShort(db.accounts[req.source.value], req.amount) ==> Refusal(db, req, env).Some?
    ensures rank == 5 && InsertRefusal(db.txns, req, env).Some? ==> Refusal(db, req, env).Some?
    ensures rank == 6 && UpdateRefusal(db.accounts[req.source.value], SourceAfter(db, req)).Some? ==>
              Refusal(db, req, env).Some?
    ensures rank == 8 && req.dest.Some?
            && UpdateRefusal(db.accounts[req.dest.value], DestAfter(db, req)).Some? ==>
              Refusal(db, req, env).Some?
  {
  }

  /** The session has passed on to a later statement, or its call has ended. */
  predicate MovedOn(sys: System, after: System, i: nat)
    requires i < |sys.sessions| && sys.sessions[i].Running?
  {
    var s := sys.sessions[i];
    && |after.sessions| == |sys.sessions|
    && (if after.sessions[i].Running? then
          var s' := after.sessions[i];
          && after == Put(sys, i, s') && s'.req == s.req && s'.env == s.env
          && s'.next.Rank() > s.next.Rank() && Undisturbed(sys.db, s')
        else
          Ended(sys, after, i, s.req, s.env))
  }

  lemma RaiseEnds(sys: System, i: nat)
    requires i < |sys.sessions| && sys.sessions[i].Running?
    requires Process(sys.db, sys.sessions[i].req, sys.sessions[i].env).0.Raised?
    ensures MovedOn(sys, Put(sys, i, Idle), i)
  {
  }

  lemma SoloCheck(sys: System, i: nat)
    requires Inv(sys) && i < |sys.sessions| && sys.sessions[i].Running? && Alone(sys, i)
    requires Undisturbed(sys.db, sys.sessions[i]) && sys.sessions[i].next.Rank() <= 5
    ensures MovedOn(sys, ExecuteStatement(sys, i), i)
  {
  }

  lemma SoloWrite(sys: System, i: nat)
    requires Inv(sys) && i < |sys.sessions| && sys.sessions[i].Running? && Alone(sys, i)
    requires Undisturbed(sys.db, sys.sessions[i]) && sys.sessions[i].next.Rank() > 5
    ensures MovedOn(sys, ExecuteStatement(sys, i), i)
  {
    var s := sys.sessions[i];
    assert OnTrack(sys.db, s);
    if s.next.Commit? {
      CommitIsAtomicExactlyWhen(sys.db, s);
    } else if s.next.UpdateSource? || s.next.UpdateDest? {
      SoloUpdate(sys, i);
      if Process(sys.db, s.req, s.env).0.Raised? {
        RaiseEnds(sys, i);
      }
    }
  }

  lemma SoloUpdate(sys: System, i: nat)
    requires Inv(sys) && i < |sys.sessions| && sys.sessions[i].Running? && Alone(sys, i)
    requires Undisturbed(sys.db, sys.sessions[i])
    requires sys.sessions[i].next.UpdateSource? || sys.sessions[i].next.UpdateDest?
    ensures
      var s, after := sys.sessions[i], ExecuteStatement(sys, i);
      && |after.sessions| == |sys.sessions| && after == Put(sys, i, after.sessions[i])
      && (after.sessions[i].Idle? ==> Process(sys.db, s.req, s.env).0.Raised?)
      && (after.sessions[i].Running? ==>
            var s' := after.sessions[i];
            s'.next.Rank() == s.next.Rank() + 1 && s'.req == s.req && s'.env == s.env)
  {
    var s := sys.sessions[i];
    assert OnTrack(sys.db, s);
    SoloRefusal(sys.db, s.req, s.env, s.next.Rank());
    var a := s.req.amount.value;
    var id := if s.next.UpdateSource? then s.req.source.value else s.req.dest.value;
    assert sys.db.accounts[id].balance as real + -a == sys.db.accounts[id].balance as real - a;
  }

  /** With no other session about, a statement is never kept waiting: it either passes on to a
      later one or ends the call as the atomic call ends. */
  lemma SoloStep(sys: System, i: nat)
    requires Inv(sys) && i < |sys.sessions| && sys.sessions[i].Running? && Alone(sys, i)
    requires Undisturbed(sys.db, sys.sessions[i])
    ensures
      var after := ExecuteStatement(sys, i);
      Inv(after) && MovedOn(sys, after, i) && Alone(after, i)
  {
    StepKeepsInv(sys, Execute(i));
    if sys.sessions[i].next.Rank() <= 5 {
      SoloCheck(sys, i);
    } else {
      SoloWrite(sys, i);
    }
  }

  ghost function RunAlone(sys: System, i: nat): System
    requires Inv(sys) && i < |sys.sessions| && Alone(sys, i)
    requires sys.sessions[i].Running? ==> Undisturbed(sys.db, sys.sessions[i])
    decreases if sys.sessions[i].Running? then 12 - sys.sessions[i].next.Rank() else 0
  {
    if sys.sessions[i].Idle? then sys
    else
      SoloStep(sys, i);
      RunAlone(ExecuteStatement(sys, i), i)
  }

  lemma {:induction false} RunAloneEnds(sys: System, i: nat)
    requires Inv(sys) && i < |sys.sessions| && Alone(sys, i)
    requires sys.sessions[i].Running? && Undisturbed(sys.db, sys.sessions[i])
    ensures Ended(sys, RunAlone(sys, i), i, sys.sessions[i].req, sys.sessions[i].env)
    decreases 12 - sys.sessions[i].next.Rank()
  {
    SoloStep(sys, i);
    var after := ExecuteStatement(sys, i);
    if after.sessions[i].Running? {
      RunAloneEnds(after, i);
      assert after.sessions[i := Idle] == sys.sessions[i := Idle];
    }
  }

  /** Run with no other session about, the twelve statements always come to an end, and with
      the outcome and the database of the atomic call, whether that returns or raises. */
  lemma StatementsComputeTheCall(sys: System, i: nat, req: Request, env: Env)
    requires Inv(sys) && i < |sys.sessions| && Alone(sys, i) && sys.sessions[i].Idle?
    ensures
      var begun := Step(sys, Begin(i, req, env));
      Inv(begun) && Alone(begun, i) && Ended(sys, RunAlone(begun, i), i, req, env)
  {
    StepKeepsInv(sys, Begin(i, req, env));
    RunAloneEnds(Step(sys, Begin(i, req, env)), i);
  }

  // ---------- Who waits for whom ----------

  /** Session j keeps session i waiting: it holds the row that i is about to lock or update, or has
      written a transaction with the id or the key of the one i is about to insert. */
  predicate Blocks(sys: System, j: nat, i: nat)
    requires i < |sys.sessions|
  {
    && j < |sys.sessions| && j != i && sys.sessions[j].Running? && sys.sessions[i].Running?
    && var s, holder := sys.sessions[i], sys.sessions[j];
       match s.next
       case LockSource => s.req.source.Some? && s.req.source.value in sys.db.accounts && s.req.source.value in holder.locks
       case UpdateSource =>
         s.req.amount.Some? && s.req.source.Some? && s.req.source.value in sys.db.accounts && s.req.source.value in holder.locks
       case UpdateDest =>
         s.req.amount.Some? && s.req.dest.Some? && s.req.dest.value in sys.db.accounts && s.req.dest.value in holder.locks
       case InsertTxn =>
         s.req.amount.Some?
         && exists u :: u in holder.writes.txns && (u.id == s.env.txnId || (s.req.key.Some? && u.key == s.req.key))
       case _ => false
  }

  /** A statement waits if and only if another session blocks it: one whose row and keys are free
      always takes its step. */
  lemma WaitsExactlyWhen(sys: System, i: nat)
    requires i < |sys.sessions| && sys.sessions[i].Running?
    ensures Step(sys, Execute(i)) == sys <==> exists j :: Blocks(sys, j, i)
  {
    var s := sys.sessions[i];
    if Step(sys, Execute(i)) == sys {
      assert Step(sys, Execute(i)).sessions[i] == s;
      if s.next.InsertTxn? {
        var j :| 0 <= j < |sys.sessions| && j != i && sys.sessions[j].Running?
                 && exists u :: u in sys.sessions[j].writes.txns && SameIndexEntry(NewTxn(s.req, s.env), u);
        assert Blocks(sys, j, i);
      } else {
        var id := if s.next.UpdateDest? then s.req.dest else s.req.source;
        var j :| 0 <= j < |sys.sessions| && j != i && sys.sessions[j].Running? && id.value in sys.sessions[j].locks;
        assert Blocks(sys, j, i);
      }
    }
    if j: nat :| Blocks(sys, j, i) {
      if s.next.InsertTxn? {
        var u :| u in sys.sessions[j].writes.txns && (u.id == s.env.txnId || (s.req.key.Some? && u.key == s.req.key));
        assert SameIndexEntry(NewTxn(s.req, s.env), u);
      }
    }
  }

  /** Every running session is kept waiting. */
  predicate Stuck(sys: System) {
    forall i :: 0 <= i < |sys.sessions| && sys.sessions[i].Running? ==> Step(sys, Execute(i)) == sys
  }

  /** Each session of the walk waits for the next. */
  predicate WaitsAlong(sys: System, walk: seq<nat>) {
    && (forall t :: 0 <= t < |walk| ==> walk[t] < |sys.sessions| && sys.sessions[walk[t]].Running?)
    && (forall t :: 0 <= t < |walk| - 1 ==> Blocks(sys, walk[t + 1], walk[t]))
  }

  predicate Distinct(walk: seq<nat>) {
    forall t, u :: 0 <= t < u < |walk| ==> walk[t] != walk[u]
  }

  ghost function Below(n: nat): (r: set<nat>)
    ensures |r| == n && forall x: nat :: x in r <==> x < n
  {
    if n == 0 then {} else Below(n - 1) + {n - 1}
  }

  ghost function Members(walk: seq<nat>): (r: set<nat>)
    ensures forall x :: x in r <==> x in walk
  {
    if walk == [] then {} else Members(walk[..|walk| - 1]) + {walk[|walk| - 1]}
  }

  lemma {:induction false} DistinctSize(walk: seq<nat>)
    requires Distinct(walk)
    ensures |Members(walk)| == |walk|
  {
    if walk != [] {
      DistinctSize(walk[..|walk| - 1]);
    }
  }

  lemma DistinctBelow(walk: seq<nat>, n: nat)
    requires Distinct(walk) && forall t :: 0 <= t < |walk| ==> walk[t] < n
    ensures |walk| <= n
  {
    DistinctSize(walk);
    assert Members(walk) <= Below(n) && Below(n) == Members(walk) + (Below(n) - Members(walk));
  }

  /** A walk that returns to where it began, and meets no session twice before that. */
  predicate Cycle(sys: System, walk: seq<nat>) {
    && |walk| >= 3 && walk[|walk| - 1] == walk[0]
    && Distinct(walk[..|walk| - 1]) && WaitsAlong(sys, walk)
  }

  lemma WalkExtends(sys: System, walk: seq<nat>, next: nat)
    requires walk != [] && WaitsAlong(sys, walk)
    requires walk[|walk| - 1] < |sys.sessions| && Blocks(sys, next, walk[|walk| - 1])
    ensures WaitsAlong(sys, walk + [next])
  {
    var longer := walk + [next];
    forall u | 0 <= u < |longer| - 1
      ensures Blocks(sys, longer[u + 1], longer[u])
    {
      if u < |walk| - 1 {
        assert longer[u + 1] == walk[u + 1];
      }
    }
  }

  lemma WalkCloses(sys: System, walk: seq<nat>, t: nat)
    requires t < |walk| && Distinct(walk) && WaitsAlong(sys, walk + [walk[t]])
    ensures Cycle(sys, walk[t..] + [walk[t]])
  {
    var longer, cycle := walk + [walk[t]], walk[t..] + [walk[t]];
    assert cycle == longer[t..] && cycle[..|cycle| - 1] == walk[t..];
    forall u | 0 <= u < |cycle| - 1
      ensures Blocks(sys, cycle[u + 1], cycle[u])
    {
      assert cycle[u] == longer[t + u] && cycle[u + 1] == longer[t + u + 1];
    }
    assert Blocks(sys, cycle[1], cycle[0]);
  }

  lemma {:induction false} WalkOn(sys: System, walk: seq<nat>) returns (cycle: seq<nat>)
    requires Stuck(sys) && walk != [] && Distinct(walk) && WaitsAlong(sys, walk)
    ensures Cycle(sys, cycle)
    decreases |sys.sessions| - |walk|
  {
    var last := walk[|walk| - 1];
    WaitsExactlyWhen(sys, last);
    var next: nat :| Blocks(sys, next, last);
    WalkExtends(sys, walk, next);
    if t: nat :| t < |walk| && walk[t] == next {
      cycle := walk[t..] + [next];
      WalkCloses(sys, walk, t);
    } else {
      DistinctBelow(walk + [next], |sys.sessions|);
      cycle := WalkOn(sys, walk + [next]);
    }
  }

  /** A session that blocks one and is blocked by another is past its lock: it inserts its
      transaction or updates its destination. */
  lemma BlockedBlocker(sys: System, k: nat, j: nat, i: nat)
    requires Inv(sys) && i < |sys.sessions| && Blocks(sys, j, i) && Blocks(sys, k, j)
    ensures sys.sessions[j].next == InsertTxn || sys.sessions[j].next == UpdateDest
  {
    assert OnTrack(sys.db, sys.sessions[j]) && Apart(sys.sessions[j], sys.sessions[k]);
  }

  /** In any state that a run can reach: if every running session is kept waiting, some wait for
      each other in a circle, each of them about to insert its transaction or to update its
      destination. Waiting never begins at the first lock. */
  lemma DeadlockIsACycle(sys: System, i: nat) returns (cycle: seq<nat>)
    requires Inv(sys) && Stuck(sys) && i < |sys.sessions| && sys.sessions[i].Running?
    ensures Cycle(sys, cycle)
    ensures forall t :: 0 <= t < |cycle| ==>
      sys.sessions[cycle[t]].next == InsertTxn || sys.sessions[cycle[t]].next == UpdateDest
  {
    cycle := WalkOn(sys, [i]);
    var n := |cycle| - 1;
    forall t | 0 <= t < |cycle|
      ensures sys.sessions[cycle[t]].next == InsertTxn || sys.sessions[cycle[t]].next == UpdateDest
    {
      if 0 < t < n {
        BlockedBlocker(sys, cycle[t + 1], cycle[t], cycle[t - 1]);
      } else {
        BlockedBlocker(sys, cycle[1], cycle[0], cycle[n - 1]);
      }
    }
  }

  // ---------- A change of status between the check and the lock ----------

  function Executes(i: nat, n: nat): seq<Event> {
    if n == 0 then [] else [Execute(i)] + Executes(i, n - 1)
  }

  lemma {:induction false} RunAppend(sys: System, a: seq<Event>, b: seq<Event>)
    ensures RunEvents(sys, a + b) == RunEvents(RunEvents(sys, a), b)
  {
    if b == [] {
      assert a + b == a;
    } else {
      var n := |b| - 1;
      assert (a + b)[..|a + b| - 1] == a + b[..n] && (a + b)[|a + b| - 1] == b[n];
      RunAppend(sys, a, b[..n]);
      assert RunEvents(sys, a + b) == Step(RunEvents(sys, a + b[..n]), b[n]);
    }
  }

  lemma {:induction false} RunKeepsInv(sys: System, events: seq<Event>)
    requires Inv(sys)
    ensures Inv(RunEvents(sys, events))
  {
    if events != [] {
      var n := |events| - 1;
      RunKeepsInv(sys, events[..n]);
      StepKeepsInv(RunEvents(sys, events[..n]), events[n]);
    }
  }

  lemma RunOne(sys: System, e: Event)
    ensures RunEvents(sys, [e]) == Step(sys, e)
  {
    assert [e][..0] == [];
  }

  lemma RunWithBetween(sys: System, a: seq<Event>, e: Event, b: seq<Event>)
    ensures RunEvents(sys, a + [e] + b) == RunEvents(Step(RunEvents(sys, a), e), b)
  {
    RunAppend(sys, a, [e]);
    RunOne(RunEvents(sys, a), e);
    RunAppend(sys, a + [e], b);
  }

  lemma ExecuteFirst(sys: System, i: nat, n: nat)
    requires n > 0
    ensures RunEvents(sys, Executes(i, n)) == RunEvents(Step(sys, Execute(i)), Executes(i, n - 1))
  {
    RunOne(sys, Execute(i));
    RunAppend(sys, [Execute(i)], Executes(i, n - 1));
  }

  /** How many statements a session that takes every one of them has left. */
  function Left(s: Session): int
    requires s.Running?
  {
    if s.req.dest.None? && s.next.Rank() <= 7 then 10 - s.next.Rank() else 12 - s.next.Rank()
  }

  /** Nothing but an account's status can make the call raise. */
  predicate PostsIfActive(db: Database, req: Request, env: Env) {
    Refusal(Thaw(db), req, env).None?
  }

  lemma FreeUpdate(sys: System, i: nat)
    requires i < |sys.sessions| && sys.sessions[i].Running? && OnTrack(sys.db, sys.sessions[i]) && (forall j :: !Blocks(sys, j, i))
    requires sys.sessions[i].next.UpdateSource? || sys.sessions[i].next.UpdateDest?
    requires PostsIfActive(sys.db, sys.sessions[i].req, sys.sessions[i].env)
    ensures
      var s, s' := sys.sessions[i], ExecuteStatement(sys, i).sessions[i];
      && ExecuteStatement(sys, i) == Put(sys, i, s')
      && s'.Running? && s'.req == s.req && s'.env == s.env && s'.next.Rank() == s.next.Rank() + 1
  {
    var s := sys.sessions[i];
    WaitsExactlyWhen(sys, i);
    var a := s.req.amount.value;
    var id := if s.next.UpdateSource? then s.req.source.value else s.req.dest.value;
    assert sys.db.accounts[id].balance as real + -a == sys.db.accounts[id].balance as real - a;
    assert Thaw(sys.db).accounts[id] == sys.db.accounts[id].(status := Active);
  }

  lemma FreeStaysOnTrack(sys: System, i: nat)
    requires i < |sys.sessions| && sys.sessions[i].Running? && OnTrack(sys.db, sys.sessions[i])
    requires sys.sessions[i].next.Rank() >= 4 && !sys.sessions[i].next.Commit?
    requires ExecuteStatement(sys, i) != sys && ExecuteStatement(sys, i).sessions[i].Running?
    ensures OnTrack(ExecuteStatement(sys, i).db, ExecuteStatement(sys, i).sessions[i])
  {
    if sys.sessions[i].next.UpdateSource? || sys.sessions[i].next.UpdateDest? {
      UpdateStaysOnTrack(sys, i);
    }
  }

  /** Behind its checks a session reads no status: each statement that is not blocked leads to the
      next, and the last one commits. */
  lemma FreeStatement(sys: System, i: nat)
    requires i < |sys.sessions| && sys.sessions[i].Running? && OnTrack(sys.db, sys.sessions[i]) && (forall j :: !Blocks(sys, j, i))
    requires sys.sessions[i].next.Rank() >= 4
    requires PostsIfActive(sys.db, sys.sessions[i].req, sys.sessions[i].env)
    ensures
      var s, after := sys.sessions[i], Step(sys, Execute(i));
      if s.next.Commit? then
        && after.log == sys.log + [Completed(s.req, s.env, Returned(NewTxn(s.req, s.env)))]
        && after.sessions == sys.sessions[i := Idle] && after.db == Published(sys.db, s.writes)
      else
        var s' := after.sessions[i];
        && after == Put(sys, i, s') && s'.Running? && s'.req == s.req && s'.env == s.env
        && s'.next.Rank() >= 4 && Left(s') == Left(s) - 1 && OnTrack(after.db, s')
        && (s.next.Rank() <= 6 || (s.next.Rank() == 7 && s.req.dest.Some?) ==> s'.next.Rank() == s.next.Rank() + 1)
  {
    var s := sys.sessions[i];
    WaitsExactlyWhen(sys, i);
    if s.next.UpdateSource? || s.next.UpdateDest? {
      FreeUpdate(sys, i);
    } else {
      var src := s.req.source.value;
      assert Thaw(sys.db).accounts[src] == sys.db.accounts[src].(status := Active);
    }
    if !s.next.Commit? {
      FreeStaysOnTrack(sys, i);
    }
  }

  /** No other session holds a row or a key that this one is to use. */
  predicate Clear(sys: System, i: nat)
    requires i < |sys.sessions| && sys.sessions[i].Running?
  {
    SourceClear(sys, i) &&
    forall j :: 0 <= j < |sys.sessions| && j != i && sys.sessions[j].Running? && sys.sessions[i].req.dest.Some? ==>
      sys.sessions[i].req.dest.value !in sys.sessions[j].locks
  }

  predicate SourceClear(sys: System, i: nat)
    requires i < |sys.sessions| && sys.sessions[i].Running?
  {
    var s := sys.sessions[i];
    forall j :: 0 <= j < |sys.sessions| && j != i && sys.sessions[j].Running? ==>
      && (s.req.source.Some? ==> s.req.source.value !in sys.sessions[j].locks)
      && forall u :: u in sys.sessions[j].writes.txns ==> u.id != s.env.txnId && (s.req.key.Some? ==> u.key != s.req.key)
  }

  lemma ClearOfBlocks(sys: System, i: nat)
    requires i < |sys.sessions| && sys.sessions[i].Running?
    ensures Clear(sys, i) ==> forall j :: !Blocks(sys, j, i)
    ensures SourceClear(sys, i) && sys.sessions[i].next.Rank() <= 7 ==> forall j :: !Blocks(sys, j, i)
  {
  }

  lemma FreeNext(sys: System, i: nat)
    requires i < |sys.sessions| && sys.sessions[i].Running? && OnTrack(sys.db, sys.sessions[i]) && Clear(sys, i)
    requires sys.sessions[i].next.Rank() >= 4 && !sys.sessions[i].next.Commit?
    requires PostsIfActive(sys.db, sys.sessions[i].req, sys.sessions[i].env)
    ensures
      var s, after := sys.sessions[i], Step(sys, Execute(i));
      && after == Put(sys, i, after.sessions[i]) && after.sessions[i].Running? && OnTrack(after.db, after.sessions[i])
      && after.sessions[i].req == s.req && after.sessions[i].env == s.env
      && after.sessions[i].next.Rank() >= 4 && Left(after.sessions[i]) == Left(s) - 1 && Clear(after, i)
  {
    ClearOfBlocks(sys, i);
    FreeStatement(sys, i);
  }

  lemma FreeCommit(sys: System, i: nat)
    requires i < |sys.sessions| && sys.sessions[i].Running? && OnTrack(sys.db, sys.sessions[i])
    requires sys.sessions[i].next.Commit?
    ensures
      var s, after := sys.sessions[i], Step(sys, Execute(i));
      && after.log == sys.log + [Completed(s.req, s.env, Returned(NewTxn(s.req, s.env)))]
      && after.sessions == sys.sessions[i := Idle] && after.db == Effect(sys.db, s.req, s.env)
  {
    CommitIsAtomicExactlyWhen(sys.db, sys.sessions[i]);
  }

  /** The call of session i has been committed, and nothing else has changed. */
  predicate HasPosted(sys: System, after: System, i: nat)
    requires i < |sys.sessions| && sys.sessions[i].Running? && sys.sessions[i].req.amount.Some?
    requires Named(sys.db.accounts, sys.sessions[i].req.org, sys.sessions[i].req.source)
    requires sys.sessions[i].req.dest.Some? ==> Named(sys.db.accounts, sys.sessions[i].req.org, sys.sessions[i].req.dest)
  {
    var s := sys.sessions[i];
    && after.log == sys.log + [Completed(s.req, s.env, Returned(NewTxn(s.req, s.env)))]
    && after.sessions == sys.sessions[i := Idle] && after.db == Effect(sys.db, s.req, s.env)
  }

  lemma PostsNames(db: Database, req: Request, env: Env)
    requires PostsIfActive(db, req, env)
    ensures req.amount.Some? && Named(db.accounts, req.org, req.source)
    ensures req.dest.Some? ==> Named(db.accounts, req.org, req.dest)
  {
  }

  /** A session whose rows and keys are clear runs to its commit, whatever the others hold. */
  lemma {:induction false} FreeSessionPosts(sys: System, i: nat)
    requires i < |sys.sessions| && sys.sessions[i].Running? && OnTrack(sys.db, sys.sessions[i]) && Clear(sys, i)
    requires sys.sessions[i].next.Rank() >= 4
    requires PostsIfActive(sys.db, sys.sessions[i].req, sys.sessions[i].env)
    ensures
      Left(sys.sessions[i]) > 0 && HasPosted(sys, RunEvents(sys, Executes(i, Left(sys.sessions[i]))), i)
    decreases Left(sys.sessions[i]), 0
  {
    var s := sys.sessions[i];
    PostsNames(sys.db, s.req, s.env);
    ExecuteFirst(sys, i, Left(s));
    if s.next.Commit? {
      FreeCommit(sys, i);
    } else {
      FreeNext(sys, i);
      RestPosts(sys, Step(sys, Execute(i)), i);
    }
  }

  lemma {:induction false} RestPosts(sys: System, mid: System, i: nat)
    requires i < |sys.sessions| && sys.sessions[i].Running? && i < |mid.sessions| && mid.sessions[i].Running?
    requires mid == Put(sys, i, mid.sessions[i]) && OnTrack(mid.db, mid.sessions[i]) && Clear(mid, i)
    requires mid.sessions[i].req == sys.sessions[i].req && mid.sessions[i].env == sys.sessions[i].env
    requires mid.sessions[i].next.Rank() >= 4
    requires PostsIfActive(sys.db, sys.sessions[i].req, sys.sessions[i].env)
    ensures
      HasPosted(sys, RunEvents(mid, Executes(i, Left(mid.sessions[i]))), i)
    decreases Left(mid.sessions[i]), 1
  {
    PostsNames(sys.db, sys.sessions[i].req, sys.sessions[i].env);
    FreeSessionPosts(mid, i);
    assert sys.sessions[i := mid.sessions[i]][i := Idle] == sys.sessions[i := Idle];
  }

  /** Session i alone has moved, by k statements, and its source and keys are clear still. */
  predicate Onward(sys: System, after: System, i: nat, k: nat)
    requires i < |sys.sessions| && sys.sessions[i].Running?
  {
    && |after.sessions| == |sys.sessions| && after == Put(sys, i, after.sessions[i])
    && after.sessions[i].Running? && OnTrack(after.db, after.sessions[i]) && SourceClear(after, i)
    && after.sessions[i].req == sys.sessions[i].req && after.sessions[i].env == sys.sessions[i].env
    && after.sessions[i].next.Rank() == sys.sessions[i].next.Rank() + k
  }

  lemma OnwardTwice(sys: System, mid: System, after: System, i: nat, j: nat, k: nat)
    requires i < |sys.sessions| && sys.sessions[i].Running? && Onward(sys, mid, i, j) && Onward(mid, after, i, k)
    ensures Onward(sys, after, i, j + k)
  {
    PutTwice(sys, i, mid.sessions[i], after.sessions[i]);
  }

  lemma OnwardZero(sys: System, i: nat)
    requires i < |sys.sessions| && sys.sessions[i].Running? && OnTrack(sys.db, sys.sessions[i]) && SourceClear(sys, i)
    ensures Onward(sys, sys, i, 0)
  {
    PutSame(sys, i);
  }

  lemma FreeOne(sys: System, i: nat)
    requires i < |sys.sessions| && sys.sessions[i].Running? && OnTrack(sys.db, sys.sessions[i]) && SourceClear(sys, i)
    requires 4 <= sys.sessions[i].next.Rank() <= 6 || (sys.sessions[i].next.Rank() == 7 && sys.sessions[i].req.dest.Some?)
    requires PostsIfActive(sys.db, sys.sessions[i].req, sys.sessions[i].env)
    ensures Onward(sys, Step(sys, Execute(i)), i, 1)
  {
    ClearOfBlocks(sys, i);
    FreeStatement(sys, i);
  }

  /** And one whose source and keys are clear gets as far as the update of its destination. */
  lemma {:induction false} FreeUpToDest(sys: System, i: nat, n: nat)
    requires i < |sys.sessions| && sys.sessions[i].Running? && OnTrack(sys.db, sys.sessions[i]) && SourceClear(sys, i)
    requires 4 <= sys.sessions[i].next.Rank() && sys.sessions[i].next.Rank() + n <= 8
    requires sys.sessions[i].next.Rank() + n == 8 ==> sys.sessions[i].req.dest.Some?
    requires PostsIfActive(sys.db, sys.sessions[i].req, sys.sessions[i].env)
    ensures Onward(sys, RunEvents(sys, Executes(i, n)), i, n)
    decreases n, 0
  {
    if n == 0 {
      OnwardZero(sys, i);
    } else {
      ExecuteFirst(sys, i, n);
      FreeOne(sys, i);
      FreeRest(sys, Step(sys, Execute(i)), i, n - 1);
    }
  }

  lemma {:induction false} FreeRest(sys: System, mid: System, i: nat, n: nat)
    requires i < |sys.sessions| && sys.sessions[i].Running? && Onward(sys, mid, i, 1)
    requires 4 <= mid.sessions[i].next.Rank() && mid.sessions[i].next.Rank() + n <= 8
    requires mid.sessions[i].next.Rank() + n == 8 ==> mid.sessions[i].req.dest.Some?
    requires PostsIfActive(sys.db, sys.sessions[i].req, sys.sessions[i].env)
    ensures Onward(sys, RunEvents(mid, Executes(i, n)), i, n + 1)
    decreases n, 1
  {
    FreeUpToDest(mid, i, n);
    OnwardTwice(sys, mid, RunEvents(mid, Executes(i, n)), i, 1, n);
  }

  lemma ThawedRefusal(db: Database, req: Request, env: Env)
    requires Refusal(db, req, env).None?
    ensures PostsIfActive(db, req, env)
  {
    assert Thaw(db).accounts[req.source.value] == db.accounts[req.source.value];
    if req.dest.Some? {
      assert Thaw(db).accounts[req.dest.value] == db.accounts[req.dest.value];
    }
  }

  lemma FreezingRaises(db: Database, req: Request, env: Env, id: Id, status: AccountStatus)
    requires InBounds(db) && Refusal(db, req, env).None? && status != Active
    requires req.source == Some(id) || req.dest == Some(id)
    ensures
      var frozen := Apply(db, SetStatus(id, status));
      && frozen == db.(accounts := db.accounts[id := db.accounts[id].(status := status)])
      && PostsIfActive(frozen, req, env) && Process(frozen, req, env).0.Raised?
  {
    var frozen := Apply(db, SetStatus(id, status));
    if req.key.Some? {
      FindByKeySpec(db.txns, req.org, req.key.value);
    }
    assert EarlyReturn(frozen.txns, req).None? && Refusal(frozen, req, env).Some?;
    assert Thaw(frozen).accounts == Thaw(db).accounts;
    ThawedRefusal(db, req, env);
  }

  /** The status check takes no lock, so a change of status can slip in behind it. From any state
      in which a lone session is about to lock the source of a call that would post: source or
      destination is frozen or closed, the session's remaining statements still commit and return,
      and the atomic call would have raised. */
  lemma FrozenAccountStillPosts(sys: System, i: nat, id: Id, status: AccountStatus)
    requires Inv(sys) && i < |sys.sessions| && Alone(sys, i) && InBounds(sys.db)
    requires sys.sessions[i].Running? && sys.sessions[i].next.LockSource?
    requires Refusal(sys.db, sys.sessions[i].req, sys.sessions[i].env).None? && status != Active
    requires sys.sessions[i].req.source == Some(id) || sys.sessions[i].req.dest == Some(id)
    ensures
      var req, env := sys.sessions[i].req, sys.sessions[i].env;
      var frozen := Step(sys, ChangeStatus(id, status));
      && frozen == CommitAction(sys, SetStatus(id, status))
      && RunEvents(frozen, Executes(i, if req.dest.None? then 6 else 8)).log
           == frozen.log + [Completed(req, env, Returned(NewTxn(req, env)))]
      && Process(frozen.db, req, env).0.Raised?
  {
    var s := sys.sessions[i];
    assert OnTrack(sys.db, s);
    var frozen := Step(sys, ChangeStatus(id, status));
    assert !Locked(sys, id);
    StepKeepsInv(sys, ChangeStatus(id, status));
    FreezingRaises(sys.db, s.req, s.env, id, status);
    assert OnTrack(frozen.db, frozen.sessions[i]);
    FreeSessionPosts(frozen, i);
  }

  /** The limiter admits the call, its key is new and its accounts are active. */
  predicate PassesChecks(db: Database, req: Request, env: Env) {
    env.admitted && EarlyReturn(db.txns, req).None? && AccountsActive(db, req)
  }

  /** The check or lock that follows a check. */
  function Following(st: Statement): Statement {
    match st
    case CheckLimit => CheckKey
    case CheckKey => CheckSource
    case CheckSource => CheckDest
    case _ => LockSource
  }

  lemma CheckPasses(sys: System, i: nat)
    requires i < |sys.sessions| && sys.sessions[i].Running? && sys.sessions[i].next.Rank() < 4
    requires PassesChecks(sys.db, sys.sessions[i].req, sys.sessions[i].env)
    ensures
      var s := sys.sessions[i];
      && Step(sys, Execute(i)) == Put(sys, i, s.(next := Following(s.next)))
      && Following(s.next).Rank() == s.next.Rank() + 1
  {
  }

  lemma PutSame(sys: System, i: nat)
    requires i < |sys.sessions|
    ensures Put(sys, i, sys.sessions[i]) == sys
  {
    assert sys.sessions[i := sys.sessions[i]] == sys.sessions;
  }

  lemma PutTwice(sys: System, i: nat, s: Session, s': Session)
    requires i < |sys.sessions|
    ensures Put(Put(sys, i, s), i, s') == Put(sys, i, s')
  {
    assert sys.sessions[i := s][i := s'] == sys.sessions[i := s'];
  }

  /** The checks of a call that would post lead to the lock of its source. */
  lemma {:induction false} ChecksPass(sys: System, i: nat, n: nat)
    requires i < |sys.sessions| && sys.sessions[i].Running? && sys.sessions[i].next.Rank() == 4 - n
    requires PassesChecks(sys.db, sys.sessions[i].req, sys.sessions[i].env)
    ensures RunEvents(sys, Executes(i, n)) == Put(sys, i, sys.sessions[i].(next := LockSource))
    decreases n
  {
    if n == 0 {
      PutSame(sys, i);
    } else {
      var s := sys.sessions[i];
      ExecuteFirst(sys, i, n);
      CheckPasses(sys, i);
      ChecksPass(Put(sys, i, s.(next := Following(s.next))), i, n - 1);
      PutTwice(sys, i, s.(next := Following(s.next)), s.(next := LockSource));
    }
  }

  lemma BeginAndCheck(first: Database, sessions: nat, req: Request, env: Env)
    requires sessions > 0 && env.admitted && EarlyReturn(first.txns, req).None? && Refusal(first, req, env).None?
    ensures
      var sys := RunEvents(Start(first, sessions), [Begin(0, req, env)] + Executes(0, 4));
      && sys == Put(Start(first, sessions), 0, Running(req, env, LockSource, {}, NO_WRITES, 0))
      && Alone(sys, 0)
  {
    var start := Start(first, sessions);
    var begun := Step(start, Begin(0, req, env));
    RunOne(start, Begin(0, req, env));
    RunAppend(start, [Begin(0, req, env)], Executes(0, 4));
    ChecksPass(begun, 0, 4);
    var locking := Running(req, env, LockSource, {}, NO_WRITES, 0);
    assert begun.sessions[0 := locking] == start.sessions[0 := locking];
  }

  lemma SecondDisagrees(first: Database, a: Action, req: Request, env: Env, outcome: Outcome)
    requires !a.Call? && Process(Apply(first, a), req, env).0 != outcome
    ensures !OutcomesAgree(first, [Committed(a, None), Completed(req, env, outcome)])
  {
    var log := [Committed(a, None), Completed(req, env, outcome)];
    assert [a][..0] == [] && Run(first, [a]) == Apply(first, a);
    assert Actions(log[..1]) == [a];
    assert log[1].outcome != Some(Process(Run(first, Actions(log[..1])), log[1].action.req, log[1].action.env).0);
  }

  /** The run from the start: any request that would post, in the only session that is busy, is
      begun and checked, one of its accounts is frozen, and it is executed to its end. It returns,
      and no serial run of what was committed does the same. */
  lemma FreezeBehindTheCheck(first: Database, sessions: nat, req: Request, env: Env, id: Id, status: AccountStatus)
    requires sessions > 0 && InBounds(first) && env.admitted && status != Active
    requires EarlyReturn(first.txns, req).None? && Refusal(first, req, env).None?
    requires req.source == Some(id) || req.dest == Some(id)
    ensures
      var events := [Begin(0, req, env)] + Executes(0, 4) + [ChangeStatus(id, status)]
        + Executes(0, if req.dest.None? then 6 else 8);
      var sys := RunEvents(Start(first, sessions), events);
      && sys.log == [Committed(SetStatus(id, status), None), Completed(req, env, Returned(NewTxn(req, env)))]
      && !OutcomesAgree(first, sys.log) && !CommitsSeeActive(first, sessions, events)
  {
    var checks := [Begin(0, req, env)] + Executes(0, 4);
    var start, checked := Start(first, sessions), RunEvents(Start(first, sessions), checks);
    BeginAndCheck(first, sessions, req, env);
    SerialExactlyWhen(first, sessions, checks);
    FreezeAndFinish(checked, id, status);
    RunWithBetween(start, checks, ChangeStatus(id, status), Executes(0, if req.dest.None? then 6 else 8));
    SecondDisagrees(first, SetStatus(id, status), req, env, Returned(NewTxn(req, env)));
    SerialExactlyWhen(first, sessions,
      checks + [ChangeStatus(id, status)] + Executes(0, if req.dest.None? then 6 else 8));
  }

  lemma FreezeAndFinish(checked: System, id: Id, status: AccountStatus)
    requires Inv(checked) && 0 < |checked.sessions| && Alone(checked, 0) && InBounds(checked.db) && checked.log == []
    requires checked.sessions[0].Running? && checked.sessions[0].next.LockSource?
    requires Refusal(checked.db, checked.sessions[0].req, checked.sessions[0].env).None? && status != Active
    requires checked.sessions[0].req.source == Some(id) || checked.sessions[0].req.dest == Some(id)
    ensures
      var req, env := checked.sessions[0].req, checked.sessions[0].env;
      && Process(Apply(checked.db, SetStatus(id, status)), req, env).0.Raised?
      && RunEvents(Step(checked, ChangeStatus(id, status)), Executes(0, if req.dest.None? then 6 else 8)).log
           == [Committed(SetStatus(id, status), None), Completed(req, env, Returned(NewTxn(req, env)))]
  {
    FrozenAccountStillPosts(checked, 0, id, status);
    assert [] + [Committed(SetStatus(id, status), None)] == [Committed(SetStatus(id, status), None)];
  }

  // ---------- Two sessions at once ----------

  predicate Posting(db: Database, req: Request, env: Env) {
    env.admitted && EarlyReturn(db.txns, req).None? && Refusal(db, req, env).None?
  }

  /** The requests have no account in common and their rows no index entry. */
  predicate Unrelated(req: Request, env: Env, req': Request, env': Env) {
    && req.source != req'.source && env.txnId != env'.txnId && (req.key.Some? ==> req.key != req'.key)
    && (req.dest.Some? ==> req.dest != req'.dest && req.dest != req'.source)
    && (req'.dest.Some? ==> req'.dest != req.source)
  }

  /** The schedule by which two sessions begin, check and lock in turn. */
  function BothLock(req: Request, env: Env, req': Request, env': Env): seq<Event> {
    [Begin(0, req, env)] + [Begin(1, req', env')] + Executes(0, 4) + Executes(1, 4) + Executes(0, 1) + Executes(1, 1)
  }

  lemma ThreeRuns(sys: System, a: seq<Event>, b: seq<Event>, c: seq<Event>)
    ensures RunEvents(sys, a + b + c) == RunEvents(RunEvents(RunEvents(sys, a), b), c)
  {
    RunAppend(sys, a, b);
    RunAppend(sys, a + b, c);
  }

  lemma BothCheck(first: Database, sessions: nat, req: Request, env: Env, req': Request, env': Env)
    requires sessions >= 2 && Posting(first, req, env) && Posting(first, req', env')
    ensures
      var sys := RunEvents(Start(first, sessions), [Begin(0, req, env)] + [Begin(1, req', env')] + Executes(0, 4) + Executes(1, 4));
      sys == Put(Put(Start(first, sessions), 0, Running(req, env, LockSource, {}, NO_WRITES, 0)),
                 1, Running(req', env', LockSource, {}, NO_WRITES, 0))
  {
    var start, s, s' := Start(first, sessions), Running(req, env, CheckLimit, {}, NO_WRITES, 0), Running(req', env', CheckLimit, {}, NO_WRITES, 0);
    var t, t' := s.(next := LockSource), s'.(next := LockSource);
    ThreeRuns(start, [Begin(0, req, env)] + [Begin(1, req', env')], Executes(0, 4), Executes(1, 4));
    RunAppend(start, [Begin(0, req, env)], [Begin(1, req', env')]);
    RunOne(start, Begin(0, req, env));
    var begun := Put(Put(start, 0, s), 1, s');
    RunOne(Put(start, 0, s), Begin(1, req', env'));
    ChecksPass(begun, 0, 4);
    assert Put(begun, 0, t) == Put(Put(start, 0, t), 1, s') by {
      assert start.sessions[0 := s][1 := s'][0 := t] == start.sessions[0 := t][1 := s'];
    }
    ChecksPass(Put(begun, 0, t), 1, 4);
    PutTwice(Put(start, 0, t), 1, s', t');
  }

  lemma TakesLock(sys: System, i: nat)
    requires i < |sys.sessions| && sys.sessions[i].Running? && OnTrack(sys.db, sys.sessions[i]) && SourceClear(sys, i)
    requires sys.sessions[i].next.LockSource? && PostsIfActive(sys.db, sys.sessions[i].req, sys.sessions[i].env)
    ensures
      var s := sys.sessions[i];
      && s.req.source.Some?
      && RunEvents(sys, Executes(i, 1)) == Put(sys, i, s.(next := InsertTxn, locks := {s.req.source.value}))
  {
    var s, after := sys.sessions[i], Step(sys, Execute(i));
    FreeOne(sys, i);
    ExecuteFirst(sys, i, 1);
    ClearOfBlocks(sys, i);
    WaitsExactlyWhen(sys, i);
    assert s.locks == {} && {} + {s.req.source.value} == {s.req.source.value};
    assert after.sessions[i] == s.(next := InsertTxn, locks := s.locks + {s.req.source.value});
    assert RunEvents(after, Executes(i, 0)) == after;
  }

  /** A session that has its lock and has written nothing. */
  function Locking(req: Request, env: Env): Session
    requires req.source.Some?
  {
    Running(req, env, InsertTxn, {req.source.value}, NO_WRITES, 0)
  }

  lemma BothHoldLocks(first: Database, sessions: nat, req: Request, env: Env, req': Request, env': Env)
    requires sessions >= 2 && Posting(first, req, env) && Posting(first, req', env') && req.source != req'.source
    ensures
      var sys := RunEvents(Start(first, sessions), BothLock(req, env, req', env'));
      && Inv(sys) && req.source.Some? && req'.source.Some?
      && sys == Put(Put(Start(first, sessions), 0, Locking(req, env)), 1, Locking(req', env'))
  {
    var start := Start(first, sessions);
    var checks := [Begin(0, req, env)] + [Begin(1, req', env')] + Executes(0, 4) + Executes(1, 4);
    var checked := RunEvents(start, checks);
    BothCheck(first, sessions, req, env, req', env');
    SerialExactlyWhen(first, sessions, checks);
    ThawedRefusal(first, req, env);
    ThawedRefusal(first, req', env');
    BothTakeLocks(checked);
    ThreeRuns(start, checks, Executes(0, 1), Executes(1, 1));
    var both := Put(Put(start, 0, Locking(req, env)), 1, Locking(req', env'));
    assert Put(Put(checked, 0, Locking(req, env)), 1, Locking(req', env')).sessions == both.sessions;
  }

  /** A session about to lock, among at most one other running one that holds no such lock and has
      written nothing, takes its lock. */
  lemma OneTakesLock(sys: System, i: nat, other: nat)
    requires Inv(sys) && i < |sys.sessions| && sys.sessions[i].Running? && sys.sessions[i].next.LockSource?
    requires sys.sessions[i].returned == 0 && PostsIfActive(sys.db, sys.sessions[i].req, sys.sessions[i].env)
    requires other < |sys.sessions| && sys.sessions[other].Running? && sys.sessions[other].writes == NO_WRITES
    requires sys.sessions[i].req.source.Some? ==> sys.sessions[i].req.source.value !in sys.sessions[other].locks
    requires forall j :: 0 <= j < |sys.sessions| && j != i && j != other ==> sys.sessions[j].Idle?
    ensures
      var s := sys.sessions[i];
      s.req.source.Some? && RunEvents(sys, Executes(i, 1)) == Put(sys, i, Locking(s.req, s.env))
    ensures Inv(RunEvents(sys, Executes(i, 1)))
  {
    TrackOf(sys, i);
    assert SourceClear(sys, i);
    TakesLock(sys, i);
    RunKeepsInv(sys, Executes(i, 1));
  }

  lemma BothTakeLocks(checked: System)
    requires Inv(checked) && |checked.sessions| >= 2 && checked.sessions[0].Running? && checked.sessions[1].Running?
    requires checked.sessions[0].next.LockSource? && checked.sessions[1].next.LockSource?
    requires checked.sessions[0].returned == 0 && checked.sessions[1].returned == 0
    requires checked.sessions[0].req.source != checked.sessions[1].req.source
    requires forall j :: 2 <= j < |checked.sessions| ==> checked.sessions[j].Idle?
    requires PostsIfActive(checked.db, checked.sessions[0].req, checked.sessions[0].env)
    requires PostsIfActive(checked.db, checked.sessions[1].req, checked.sessions[1].env)
    ensures
      var s, s' := checked.sessions[0], checked.sessions[1];
      var both := RunEvents(RunEvents(checked, Executes(0, 1)), Executes(1, 1));
      && s.req.source.Some? && s'.req.source.Some? && Inv(both)
      && both == Put(Put(checked, 0, Locking(s.req, s.env)), 1, Locking(s'.req, s'.env))
  {
    NothingYet(checked, 1);
    OneTakesLock(checked, 0, 1);
    OneTakesLock(Put(checked, 0, Locking(checked.sessions[0].req, checked.sessions[0].env)), 1, 0);
  }

  lemma NothingYet(sys: System, i: nat)
    requires Inv(sys) && i < |sys.sessions| && sys.sessions[i].Running? && sys.sessions[i].next.LockSource?
    ensures sys.sessions[i].locks == {} && sys.sessions[i].writes == NO_WRITES
  {
    TrackOf(sys, i);
  }

  lemma UnrelatedStaysPosting(db: Database, req: Request, env: Env, req': Request, env': Env)
    requires PostsIfActive(db, req, env) && PostsIfActive(db, req', env') && Unrelated(req, env, req', env')
    ensures PostsIfActive(Effect(db, req, env), req', env')
  {
    var after := Effect(db, req, env);
    assert Thaw(after).accounts[req'.source.value] == Thaw(db).accounts[req'.source.value];
    if req'.dest.Some? {
      assert Thaw(after).accounts[req'.dest.value] == Thaw(db).accounts[req'.dest.value];
    }
  }

  function AfterLock(req: Request): nat {
    if req.dest.None? then 5 else 7
  }

  /** From the start, any two requests that would post and are unrelated: both sessions hold their
      locks at the same time, and both then commit, the first having waited for nothing. */
  lemma UnrelatedCallsOverlap(first: Database, sessions: nat, req: Request, env: Env, req': Request, env': Env)
    requires sessions >= 2 && Posting(first, req, env) && Posting(first, req', env') && Unrelated(req, env, req', env')
    ensures
      var locked := RunEvents(Start(first, sessions), BothLock(req, env, req', env'));
      var done := RunEvents(locked, Executes(0, AfterLock(req)) + Executes(1, AfterLock(req')));
      && |locked.sessions| == sessions && locked.sessions[0].Running? && locked.sessions[1].Running?
      && req.source.Some? && locked.sessions[0].locks == {req.source.value}
      && req'.source.Some? && locked.sessions[1].locks == {req'.source.value}
      && done.log == [Completed(req, env, Returned(NewTxn(req, env))), Completed(req', env', Returned(NewTxn(req', env')))]
      && done.db == Effect(Effect(first, req, env), req', env')
  {
    var locked := RunEvents(Start(first, sessions), BothLock(req, env, req', env'));
    BothHoldLocks(first, sessions, req, env, req', env');
    ThawedRefusal(first, req, env);
    ThawedRefusal(first, req', env');
    UnrelatedStaysPosting(first, req, env, req', env');
    BothPost(locked, req, env, req', env');
  }

  lemma FirstIsClear(locked: System, req: Request, env: Env, req': Request, env': Env)
    requires |locked.sessions| >= 2 && Unrelated(req, env, req', env')
    requires req.source.Some? && locked.sessions[0] == Locking(req, env)
    requires req'.source.Some? && locked.sessions[1] == Locking(req', env')
    requires forall j :: 2 <= j < |locked.sessions| ==> locked.sessions[j].Idle?
    ensures Clear(locked, 0)
  {
  }

  lemma TrackOf(sys: System, i: nat)
    requires Inv(sys) && i < |sys.sessions|
    ensures OnTrack(sys.db, sys.sessions[i])
  {
  }

  lemma AloneIsClear(sys: System, i: nat)
    requires i < |sys.sessions| && sys.sessions[i].Running? && Alone(sys, i)
    ensures Clear(sys, i)
  {
  }

  lemma FirstPosts(locked: System, req: Request, env: Env, req': Request, env': Env)
    requires Inv(locked) && |locked.sessions| >= 2 && Unrelated(req, env, req', env')
    requires req.source.Some? && locked.sessions[0] == Locking(req, env)
    requires req'.source.Some? && locked.sessions[1] == Locking(req', env')
    requires forall j :: 2 <= j < |locked.sessions| ==> locked.sessions[j].Idle?
    requires PostsIfActive(locked.db, req, env)
    ensures
      var one := RunEvents(locked, Executes(0, AfterLock(req)));
      && Inv(one) && one.db == Effect(locked.db, req, env)
      && one.log == locked.log + [Completed(req, env, Returned(NewTxn(req, env)))]
      && one.sessions == locked.sessions[0 := Idle] && Alone(one, 1)
  {
    FirstIsClear(locked, req, env, req', env');
    TrackOf(locked, 0);
    FreeSessionPosts(locked, 0);
    RunKeepsInv(locked, Executes(0, AfterLock(req)));
  }

  lemma BothPost(locked: System, req: Request, env: Env, req': Request, env': Env)
    requires Inv(locked) && |locked.sessions| >= 2 && Unrelated(req, env, req', env')
    requires req.source.Some? && locked.sessions[0] == Locking(req, env)
    requires req'.source.Some? && locked.sessions[1] == Locking(req', env')
    requires forall j :: 2 <= j < |locked.sessions| ==> locked.sessions[j].Idle?
    requires PostsIfActive(locked.db, req, env) && PostsIfActive(locked.db, req', env')
    ensures
      var done := RunEvents(locked, Executes(0, AfterLock(req)) + Executes(1, AfterLock(req')));
      && done.log == locked.log + [Completed(req, env, Returned(NewTxn(req, env))), Completed(req', env', Returned(NewTxn(req', env')))]
      && done.db == Effect(Effect(locked.db, req, env), req', env')
  {
    var one := RunEvents(locked, Executes(0, AfterLock(req)));
    FirstPosts(locked, req, env, req', env');
    UnrelatedStaysPosting(locked.db, req, env, req', env');
    LonePosts(one, 1);
    RunAppend(locked, Executes(0, AfterLock(req)), Executes(1, AfterLock(req')));
  }

  lemma LonePosts(sys: System, i: nat)
    requires Inv(sys) && i < |sys.sessions| && sys.sessions[i].Running? && Alone(sys, i)
    requires sys.sessions[i].next.InsertTxn? && PostsIfActive(sys.db, sys.sessions[i].req, sys.sessions[i].env)
    ensures
      var s, after := sys.sessions[i], RunEvents(sys, Executes(i, AfterLock(sys.sessions[i].req)));
      && after.log == sys.log + [Completed(s.req, s.env, Returned(NewTxn(s.req, s.env)))]
      && after.db == Effect(sys.db, s.req, s.env)
  {
    AloneIsClear(sys, i);
    TrackOf(sys, i);
    FreeSessionPosts(sys, i);
  }

  /** From the start, two transfers in opposite directions: each comes to hold its source and then
      waits for the other, and no statement of either can go on. */
  lemma OppositeTransfersDeadlock(first: Database, sessions: nat, req: Request, env: Env, req': Request, env': Env)
    requires sessions >= 2 && Posting(first, req, env) && Posting(first, req', env')
    requires req.dest == req'.source && req'.dest == req.source
    requires env.txnId != env'.txnId && (req.key.Some? ==> req.key != req'.key)
    ensures
      var locked := RunEvents(Start(first, sessions), BothLock(req, env, req', env'));
      var sys := RunEvents(locked, Executes(0, 3) + Executes(1, 3));
      && Stuck(sys) && |sys.sessions| == sessions && sys.sessions[0].Running? && Cycle(sys, [0, 1, 0])
  {
    var locked := RunEvents(Start(first, sessions), BothLock(req, env, req', env'));
    BothHoldLocks(first, sessions, req, env, req', env');
    ThawedRefusal(first, req, env);
    ThawedRefusal(first, req', env');
    BothWait(locked, req, env, req', env');
  }

  lemma SecondIsClear(sys: System)
    requires |sys.sessions| >= 2 && sys.sessions[0].Running? && sys.sessions[1].Running?
    requires OnTrack(sys.db, sys.sessions[0]) && sys.sessions[0].next == UpdateDest
    requires sys.sessions[0].req.source != sys.sessions[1].req.source
    requires sys.sessions[0].env.txnId != sys.sessions[1].env.txnId
    requires sys.sessions[1].req.key.Some? ==> sys.sessions[0].req.key != sys.sessions[1].req.key
    requires forall j :: 2 <= j < |sys.sessions| ==> sys.sessions[j].Idle?
    ensures SourceClear(sys, 1)
  {
  }

  lemma BothWait(locked: System, req: Request, env: Env, req': Request, env': Env)
    requires Inv(locked) && |locked.sessions| >= 2
    requires req.source.Some? && locked.sessions[0] == Locking(req, env)
    requires req'.source.Some? && locked.sessions[1] == Locking(req', env')
    requires forall j :: 2 <= j < |locked.sessions| ==> locked.sessions[j].Idle?
    requires PostsIfActive(locked.db, req, env) && PostsIfActive(locked.db, req', env')
    requires req.dest == req'.source && req'.dest == req.source
    requires env.txnId != env'.txnId && (req.key.Some? ==> req.key != req'.key)
    ensures
      var sys := RunEvents(locked, Executes(0, 3) + Executes(1, 3));
      Stuck(sys) && |sys.sessions| == |locked.sessions| && sys.sessions[0].Running? && Cycle(sys, [0, 1, 0])
  {
    FirstWaits(locked, req, env, req', env');
    SecondWaits(RunEvents(locked, Executes(0, 3)));
    RunAppend(locked, Executes(0, 3), Executes(1, 3));
  }

  lemma SecondWaits(one: System)
    requires |one.sessions| >= 2 && one.sessions[0].Running? && one.sessions[1].Running?
    requires OnTrack(one.db, one.sessions[0]) && OnTrack(one.db, one.sessions[1])
    requires one.sessions[0].next == UpdateDest && one.sessions[1].next == InsertTxn
    requires one.sessions[0].req.dest == one.sessions[1].req.source && one.sessions[1].req.dest == one.sessions[0].req.source
    requires one.sessions[0].req.source != one.sessions[1].req.source
    requires one.sessions[0].env.txnId != one.sessions[1].env.txnId
    requires one.sessions[1].req.key.Some? ==> one.sessions[0].req.key != one.sessions[1].req.key
    requires forall j :: 2 <= j < |one.sessions| ==> one.sessions[j].Idle?
    requires PostsIfActive(one.db, one.sessions[1].req, one.sessions[1].env)
    ensures
      var sys := RunEvents(one, Executes(1, 3));
      Stuck(sys) && |sys.sessions| == |one.sessions| && sys.sessions[0].Running? && Cycle(sys, [0, 1, 0])
  {
    SecondIsClear(one);
    FreeUpToDest(one, 1, 3);
    TwoWait(RunEvents(one, Executes(1, 3)));
  }

  lemma FirstWaits(locked: System, req: Request, env: Env, req': Request, env': Env)
    requires Inv(locked) && |locked.sessions| >= 2
    requires req.source.Some? && locked.sessions[0] == Locking(req, env)
    requires req'.source.Some? && locked.sessions[1] == Locking(req', env') && req.source != req'.source
    requires forall j :: 2 <= j < |locked.sessions| ==> locked.sessions[j].Idle?
    requires PostsIfActive(locked.db, req, env) && req.dest.Some?
    ensures
      var one := RunEvents(locked, Executes(0, 3));
      && |one.sessions| == |locked.sessions| && one == Put(locked, 0, one.sessions[0])
      && OnTrack(one.db, one.sessions[0]) && OnTrack(one.db, one.sessions[1])
      && one.sessions[0].Running? && one.sessions[0].req == req && one.sessions[0].env == env
      && one.sessions[0].next == UpdateDest
  {
    TrackOf(locked, 0);
    TrackOf(locked, 1);
    assert SourceClear(locked, 0);
    FreeUpToDest(locked, 0, 3);
  }

  lemma TwoWait(sys: System)
    requires |sys.sessions| >= 2 && sys.sessions[0].Running? && sys.sessions[1].Running?
    requires sys.sessions[0].next == UpdateDest && sys.sessions[1].next == UpdateDest
    requires sys.sessions[0].req.dest == sys.sessions[1].req.source && sys.sessions[1].req.dest == sys.sessions[0].req.source
    requires forall j :: 2 <= j < |sys.sessions| ==> sys.sessions[j].Idle?
    requires OnTrack(sys.db, sys.sessions[0]) && OnTrack(sys.db, sys.sessions[1])
    ensures Stuck(sys) && Cycle(sys, [0, 1, 0])
  {
    assert Blocks(sys, 1, 0) && Blocks(sys, 0, 1);
    WaitsExactlyWhen(sys, 0);
    WaitsExactlyWhen(sys, 1);
    var walk := [0, 1, 0];
    assert walk[..2] == [0, 1];
    assert WaitsAlong(sys, walk);
  }

  /** An abort ends the session's transaction alone: its writes are gone, nothing is committed, and
      it blocks nobody any more. */
  lemma AbortReleases(sys: System, i: nat)
    requires i < |sys.sessions|
    ensures
      var after := Step(sys, Abort(i));
      && after.db == sys.db && after.log == sys.log && |after.sessions| == |sys.sessions|
      && after.sessions[i] == Idle
      && (forall j :: 0 <= j < |sys.sessions| && j != i ==> after.sessions[j] == sys.sessions[j])
      && (forall j: nat :: j < |sys.sessions| ==> !Blocks(after, i, j))
  {
  }

  /** Aborting one of two sessions that wait for each other lets the other run to its commit. */
  lemma AbortEndsTheDeadlock(sys: System)
    requires Inv(sys) && |sys.sessions| >= 2 && sys.sessions[0].Running? && sys.sessions[1].Running?
    requires sys.sessions[0].next == UpdateDest && sys.sessions[1].next == UpdateDest
    requires forall j :: 2 <= j < |sys.sessions| ==> sys.sessions[j].Idle?
    requires PostsIfActive(sys.db, sys.sessions[1].req, sys.sessions[1].env)
    ensures
      var s := sys.sessions[1];
      RunEvents(Step(sys, Abort(0)), Executes(1, 4)).log
        == sys.log + [Completed(s.req, s.env, Returned(NewTxn(s.req, s.env)))]
  {
    var after := Step(sys, Abort(0));
    TrackOf(sys, 1);
    AbortReleases(sys, 0);
    AloneIsClear(after, 1);
    FreeSessionPosts(after, 1);
  }

  // ---------- What carries over to concurrent calls ----------

  /** So concurrent calls keep what serial ones keep, among it at most one transaction and one
      set of entries for each idempotency key, and the sum of all entries, whatever happens to the
      accounts' status. */
  lemma ConcurrentSafety(first: Database, sessions: nat, events: seq<Event>)
    requires Fresh(first)
    ensures
      var sys := RunEvents(Start(first, sessions), events);
      var db, thawed, actions := sys.db, Thaw(first), Actions(ThawLog(sys.log));
      && DoubleEntry(db)
      && (InBounds(first) && OpensInBounds(actions) ==> InBounds(db))
      && Total(db.accounts) + OneSided(db.txns) == Total(first.accounts) + Opened(thawed, actions) + Drifts(thawed, actions)
      && -|db.txns| <= Drifts(thawed, actions) <= |db.txns|
      && SumAll(db.ledger) == -OneSided(db.txns)
      && (SumAll(db.ledger) == 0 <==> forall t :: t in db.txns ==> t.dest.Some?)
  {
    var sys := RunEvents(Start(first, sessions), events);
    var db, thawed, actions := sys.db, Thaw(first), Actions(ThawLog(sys.log));
    SerialButForStatus(first, sessions, events);
    assert Thaw(db) == Run(thawed, actions);
    OneEffectPerKey(thawed, actions);
    if InBounds(first) && OpensInBounds(actions) {
      BalancesStayInBounds(thawed, actions);
      assert forall id :: id in db.accounts ==> id in Thaw(db).accounts;
    }
    Conservation(thawed, actions);
    EntriesSumToZeroExactlyWhen(thawed, actions);
    ThawedTotal(first);
    ThawedTotal(db);
  }

  /** And no concurrent update of a balance is lost, ties and changes of status included: every
      balance is its opening balance plus the sum of its committed entries plus its committed
      calls' misses. */
  lemma NoUpdateIsLost(first: Database, sessions: nat, events: seq<Event>, id: Id)
    requires Fresh(first)
    requires id in RunEvents(Start(first, sessions), events).db.accounts
    ensures
      var sys := RunEvents(Start(first, sessions), events);
      var thawed, actions := Thaw(first), Actions(ThawLog(sys.log));
      sys.db.accounts[id].balance
        == Opening(thawed, actions, id) + Sum(sys.db.ledger, id) + Misses(thawed, actions, id)
  {
    var sys := RunEvents(Start(first, sessions), events);
    SerialButForStatus(first, sessions, events);
    BalanceEquation(Thaw(first), Actions(ThawLog(sys.log)), id);
    assert id in Thaw(sys.db).accounts;
  }

  /** Snapshots too: every committed balance_after is the opening balance plus the account's sum
      up to its entry plus the misses until then. */
  lemma ConcurrentSnapshots(first: Database, sessions: nat, events: seq<Event>)
    requires Fresh(first)
    ensures
      var sys := RunEvents(Start(first, sessions), events);
      var thawed, actions := Thaw(first), Actions(ThawLog(sys.log));
      SnapshotsMissBy(thawed, actions, sys.db.ledger, SnapshotMisses(thawed, actions)) && EntriesOwned(sys.db)
  {
    var sys := RunEvents(Start(first, sessions), events);
    SerialButForStatus(first, sessions, events);
    SnapshotEquation(Thaw(first), Actions(ThawLog(sys.log)));
    assert Thaw(sys.db).accounts.Keys == sys.db.accounts.Keys;
  }

  /** Session i is about to update a balance, and the update would meet the trigger's exception. */
  predicate TriggerRaises(sys: System, i: nat)
    requires i < |sys.sessions|
  {
    var s := sys.sessions[i];
    && s.Running? && s.req.amount.Some? && (s.next.UpdateSource? || s.next.UpdateDest?)
    && var (id, change) := if s.next.UpdateSource? then (s.req.source, -s.req.amount.value) else (s.req.dest, s.req.amount.value);
       && id.Some? && id.value in sys.db.accounts
       && var row := Seen(sys.db, s.writes, id.value);
          UpdateRefusal(row, Round(row.balance as real + change)) == Some(BalanceRejected)
  }

  lemma TriggerStaysQuiet(sys: System, i: nat)
    requires i < |sys.sessions| && OnTrack(sys.db, sys.sessions[i]) && InBounds(sys.db)
    ensures !TriggerRaises(sys, i)
  {
    var s := sys.sessions[i];
    if s.Running? && s.next.UpdateDest? {
      AmountIsPositive(s.req.amount.value);
    }
  }

  /** Under concurrency too the trigger's insufficient-funds exception cannot arise when accounts
      start in bounds: the row lock makes the funds check hold until the update. */
  lemma TriggerNeverRaises(first: Database, sessions: nat, events: seq<Event>, i: nat)
    requires Fresh(first) && InBounds(first) && i < |RunEvents(Start(first, sessions), events).sessions|
    requires OpensInBounds(Actions(ThawLog(RunEvents(Start(first, sessions), events).log)))
    ensures !TriggerRaises(RunEvents(Start(first, sessions), events), i)
  {
    var sys := RunEvents(Start(first, sessions), events);
    ConcurrentSafety(first, sessions, events);
    SerialButForStatus(first, sessions, events);
    assert OnTrack(sys.db, sys.sessions[i]);
    TriggerStaysQuiet(sys, i);
  }

  predicate NoTieRequests(events: seq<Event>) {
    forall e :: e in events && e.Begin? && e.req.amount.Some? ==> !IsTie(e.req.amount.value)
  }

  predicate NoTieInFlight(sys: System) {
    && (forall s :: s in sys.sessions && s.Running? && s.req.amount.Some? ==> !IsTie(s.req.amount.value))
    && NoTies(Actions(sys.log))
  }

  lemma NoTieStep(sys: System, e: Event)
    requires NoTieInFlight(sys) && NoTieRequests([e])
    ensures NoTieInFlight(Step(sys, e))
  {
    var after := Step(sys, e);
    assert e in [e];
    if (e.Execute? || e.Begin? || e.Abort?) && e.i < |sys.sessions| {
      assert sys.sessions[e.i] in sys.sessions;
    }
    if after.log != sys.log {
      var c := after.log[|sys.log|];
      assert Actions(after.log) == Actions(sys.log) + [c.action];
    }
  }

  lemma {:induction false} NoTieRuns(first: Database, sessions: nat, events: seq<Event>)
    requires NoTieRequests(events)
    ensures NoTieInFlight(RunEvents(Start(first, sessions), events))
  {
    if events != [] {
      var n := |events| - 1;
      assert events[n] in events;
      NoTieRuns(first, sessions, events[..n]);
      NoTieStep(RunEvents(Start(first, sessions), events[..n]), events[n]);
    } else {
      assert Actions([]) == [];
    }
  }

  /** When no request's amount is a tie, balances and committed entries agree exactly and money is
      conserved. */
  lemma ConcurrentWithoutTies(first: Database, sessions: nat, events: seq<Event>, id: Id)
    requires Fresh(first) && NoTieRequests(events)
    requires id in RunEvents(Start(first, sessions), events).db.accounts
    ensures
      var sys := RunEvents(Start(first, sessions), events);
      var thawed, actions := Thaw(first), Actions(ThawLog(sys.log));
      && sys.db.accounts[id].balance == Opening(thawed, actions, id) + Sum(sys.db.ledger, id)
      && Total(sys.db.accounts) + OneSided(sys.db.txns) == Total(first.accounts) + Opened(thawed, actions)
  {
    var sys := RunEvents(Start(first, sessions), events);
    var db, thawed, actions := sys.db, Thaw(first), Actions(ThawLog(sys.log));
    NoUpdateIsLost(first, sessions, events, id);
    NoTieRuns(first, sessions, events);
    assert NoTies(actions) by {
      forall a | a in actions && a.Call?
        ensures a in Actions(sys.log)
      {
        var k :| 0 <= k < |actions| && actions[k] == a;
        assert Actions(sys.log)[k] == a;
      }
    }
    NoTiesNoMisses(thawed, actions);
    SerialButForStatus(first, sessions, events);
    Conservation(thawed, actions);
    ThawedTotal(first);
    ThawedTotal(db);
  }
}
