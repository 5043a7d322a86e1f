/** What holds of the ledger over any run: calls of process_transaction one after another,
    with accounts opened and their status changed in between. */
module LedgerRuns {
  import opened Wrappers
  import opened Numeric
  import opened Ledger

  /** Open is an INSERT into accounts, whose balance only the column's range restricts. SetStatus
      stands for the service role's UPDATE of an account's status; like any UPDATE it passes the
      validate_balance trigger. */
  datatype Action =
    | Open(id: Id, org: Id, kind: AccountType, balance: int)
    | SetStatus(id: Id, status: AccountStatus)
    | Call(req: Request, env: Env)

  predicate Opens(db: Database, a: Action) {
    a.Open? && a.id !in db.accounts && Fits(a.balance)
  }

  function Apply(db: Database, a: Action): Database {
    match a
    case Open(id, org, kind, balance) =>
      if Opens(db, a) then db.(accounts := db.accounts[id := Account(org, kind, Active, balance)]) else db
    case SetStatus(id, status) =>
      if id !in db.accounts || UpdateRefusal(db.accounts[id], db.accounts[id].balance).Some? then db
      else db.(accounts := db.accounts[id := db.accounts[id].(status := status)])
    case Call(req, env) => Process(db, req, env).1
  }

  /** What the actions beside calls do: an opening adds one active account with the given balance
      and a change of status sets that one column, unless the id is taken or missing or the stored
      balance is out of bounds; nothing else changes. */
  lemma OtherActions(db: Database, id: Id, org: Id, kind: AccountType, balance: int, status: AccountStatus)
    ensures id !in db.accounts && Fits(balance) ==>
      Apply(db, Open(id, org, kind, balance)) == db.(accounts := db.accounts[id := Account(org, kind, Active, balance)])
    ensures id in db.accounts || !Fits(balance) ==> Apply(db, Open(id, org, kind, balance)) == db
    ensures id in db.accounts ==>
      var row := db.accounts[id];
      Apply(db, SetStatus(id, status)) ==
        if Fits(row.balance) && (row.kind == CreditLine || row.balance >= 0)
        then db.(accounts := db.accounts[id := Account(row.org, row.kind, status, row.balance)])
        else db
    ensures id !in db.accounts ==> Apply(db, SetStatus(id, status)) == db
  {
  }

  /** The action is a call that posts a transaction. */
  predicate Posts(db: Database, a: Action) {
    a.Call? && a.env.admitted && EarlyReturn(db.txns, a.req).None? && Refusal(db, a.req, a.env).None?
  }

  lemma PostsOrNothing(db: Database, a: Action)
    requires a.Call?
    ensures Apply(db, a) == if Posts(db, a) then Posted(db, a.req, a.env) else db
  {
  }

  function Run(db: Database, actions: seq<Action>): Database {
    if actions == [] then db
    else Apply(Run(db, actions[..|actions| - 1]), actions[|actions| - 1])
  }

  /** A database before its first transaction. */
  predicate Fresh(db: Database) {
    db.txns == [] && db.ledger == []
  }

  predicate NoTies(actions: seq<Action>) {
    forall a :: a in actions && a.Call? && a.req.amount.Some? ==> !IsTie(a.req.amount.value)
  }

  // ---------- Balances agree with the ledger ----------

  function Signed(e: Entry): int {
    if e.side == Debit then -e.amount else e.amount
  }

  /** Credits minus debits of one account. */
  function Sum(ledger: seq<Entry>, id: Id): int {
    if ledger == [] then 0
    else
      var last := ledger[|ledger| - 1];
      Sum(ledger[..|ledger| - 1], id) + if last.account == id then Signed(last) else 0
  }

  lemma SumAppend(ledger: seq<Entry>, e: Entry, id: Id)
    ensures Sum(ledger + [e], id) == Sum(ledger, id) + if e.account == id then Signed(e) else 0
  {
    assert (ledger + [e])[..|ledger|] == ledger;
  }

  /** An account's balance when it came into being; 0 before. */
  function Opening(first: Database, actions: seq<Action>, id: Id): int {
    if actions == [] then if id in first.accounts then first.accounts[id].balance else 0
    else
      var before, last := actions[..|actions| - 1], actions[|actions| - 1];
      if Opens(Run(first, before), last) && last.id == id then last.balance
      else Opening(first, before, id)
  }

  /** By how many units a posted call moves an account otherwise than its ledger entry says: one
      up when the source rounds back up to a tie, one down when the destination rounds down
      below zero. */
  function Miss(db: Database, req: Request, id: Id): int
    requires Named(db.accounts, req.org, req.source) && req.amount.Some?
    requires req.dest.Some? ==> Named(db.accounts, req.org, req.dest)
  {
    var a := req.amount.value;
    (if req.source == Some(id) && IsTie(a) && db.accounts[id].balance as real > a then 1 else 0)
    - (if req.dest == Some(id) && IsTie(a) && db.accounts[id].balance as real + a < 0.0 then 1 else 0)
  }

  /** All misses of a run on one account. */
  function Misses(first: Database, actions: seq<Action>, id: Id): int {
    if actions == [] then 0
    else
      var before, last := actions[..|actions| - 1], actions[|actions| - 1];
      var db := Run(first, before);
      Misses(first, before, id) + if Posts(db, last) then Miss(db, last.req, id) else 0
  }

  /** For each ledger entry of a run the misses of its account up to and including its call. */
  function SnapshotMisses(first: Database, actions: seq<Action>): seq<int> {
    if actions == [] then []
    else
      var before, last := actions[..|actions| - 1], actions[|actions| - 1];
      SnapshotMisses(first, before) +
        if !Posts(Run(first, before), last) then []
        else if last.req.dest.None? then [Misses(first, actions, last.req.source.value)]
        else [Misses(first, actions, last.req.source.value), Misses(first, actions, last.req.dest.value)]
  }

  /** An amount that the CHECK lets through is at least half a unit. */
  lemma AmountIsPositive(a: real)
    requires Round(a) > 0
    ensures a >= 0.5
  {
  }

  lemma SumOfEffect(db: Database, req: Request, env: Env, id: Id)
    requires Named(db.accounts, req.org, req.source) && req.amount.Some?
    requires req.dest.Some? ==> Named(db.accounts, req.org, req.dest)
    ensures Sum(Effect(db, req, env).ledger, id) == Sum(db.ledger, id)
      - (if req.source == Some(id) then Round(req.amount.value) else 0)
      + (if req.dest == Some(id) then Round(req.amount.value) else 0)
  {
    SumAppend(db.ledger, DebitEntry(db, req, env), id);
    if req.dest.Some? {
      SumAppend(db.ledger + [DebitEntry(db, req, env)], CreditEntry(db, req, env), id);
    }
  }

  lemma BalanceOfPosted(db: Database, req: Request, env: Env, id: Id)
    requires Refusal(db, req, env) == None
    ensures Posted(db, req, env).accounts.Keys == db.accounts.Keys && req.dest != req.source
    ensures Round(req.amount.value) > 0
    ensures id in db.accounts ==>
      Posted(db, req, env).accounts[id].balance ==
        (if req.source == Some(id) then SourceAfter(db, req)
         else if req.dest == Some(id) then DestAfter(db, req)
         else db.accounts[id].balance)
  {
  }

  /** How far one posted call moves any account's balance from its ledger sum: not at all, unless
      the amount is a tie and the account is a source that holds more than the amount or a
      destination that stays below zero, and then by exactly one unit. */
  lemma PostedAgreement(db: Database, req: Request, env: Env, id: Id)
    requires Refusal(db, req, env) == None && id in db.accounts
    ensures
      var after, a, held := Posted(db, req, env), req.amount.value, db.accounts[id].balance;
      && after.accounts[id].balance - Sum(after.ledger, id) == held - Sum(db.ledger, id) + Miss(db, req, id)
      && (Miss(db, req, id) == 0 <==>
            !(IsTie(a) && ((req.source == Some(id) && held as real > a)
                           || (req.dest == Some(id) && held as real + a < 0.0))))
      && -1 <= Miss(db, req, id) <= 1
  {
    var a := req.amount.value;
    BalanceOfPosted(db, req, env, id);
    SumOfEffect(db, req, env, id);
    AmountIsPositive(a);
    if req.source == Some(id) {
      RoundDebit(db.accounts[id].balance, a);
    } else if req.dest == Some(id) {
      RoundCredit(db.accounts[id].balance, a);
    }
  }

  /** A posted call writes no entry of an account that does not exist. */
  lemma PostedStranger(db: Database, req: Request, env: Env, id: Id)
    requires Refusal(db, req, env) == None && id !in db.accounts
    ensures Sum(Posted(db, req, env).ledger, id) == Sum(db.ledger, id)
    ensures Miss(db, req, id) == 0
  {
    SumOfEffect(db, req, env, id);
  }

  /** Over every run, ties included, a stored balance is the account's opening balance plus its
      credits minus its debits plus its misses. */
  lemma {:induction false} BalanceEquation(first: Database, actions: seq<Action>, id: Id)
    requires Fresh(first)
    ensures
      var db := Run(first, actions);
      if id in db.accounts then
        db.accounts[id].balance == Opening(first, actions, id) + Sum(db.ledger, id) + Misses(first, actions, id)
      else
        Opening(first, actions, id) == 0 && Sum(db.ledger, id) == 0 && Misses(first, actions, id) == 0
  {
    if actions != [] {
      var before, last := actions[..|actions| - 1], actions[|actions| - 1];
      BalanceEquation(first, before, id);
      var db := Run(first, before);
      if last.Call? {
        PostsOrNothing(db, last);
        if Posts(db, last) {
          if id in db.accounts {
            PostedAgreement(db, last.req, last.env, id);
          } else {
            PostedStranger(db, last.req, last.env, id);
          }
        }
      }
    }
  }

  /** Each entry's snapshot misses its account's running sum by the number recorded for it. */
  predicate SnapshotsMissBy(first: Database, actions: seq<Action>, ledger: seq<Entry>, misses: seq<int>) {
    && |misses| == |ledger|
    && forall i :: 0 <= i < |ledger| ==>
         ledger[i].balanceAfter ==
           Opening(first, actions, ledger[i].account) + Sum(ledger[..i + 1], ledger[i].account) + misses[i]
  }

  predicate EntriesOwned(db: Database) {
    forall i :: 0 <= i < |db.ledger| ==> db.ledger[i].account in db.accounts
  }

  lemma SnapshotAppend(first: Database, actions: seq<Action>, ledger: seq<Entry>, misses: seq<int>, e: Entry, miss: int)
    requires SnapshotsMissBy(first, actions, ledger, misses)
    requires e.balanceAfter == Opening(first, actions, e.account) + Sum(ledger + [e], e.account) + miss
    ensures SnapshotsMissBy(first, actions, ledger + [e], misses + [miss])
  {
    var longer := ledger + [e];
    forall i | 0 <= i < |longer|
      ensures longer[i].balanceAfter ==
        Opening(first, actions, longer[i].account) + Sum(longer[..i + 1], longer[i].account) + (misses + [miss])[i]
    {
      if i < |ledger| {
        assert longer[..i + 1] == ledger[..i + 1];
      } else {
        assert longer[..i + 1] == longer;
      }
    }
  }

  /** An account keeps its opening balance. */
  lemma OpeningStays(first: Database, actions: seq<Action>, a: Action, id: Id)
    requires id in Run(first, actions).accounts
    ensures Opening(first, actions + [a], id) == Opening(first, actions, id)
  {
    assert (actions + [a])[..|actions|] == actions;
  }

  /** A step on existing accounts moves no opening balance, so old snapshots miss as before. */
  lemma SnapshotsStay(first: Database, before: seq<Action>, last: Action, misses: seq<int>)
    requires EntriesOwned(Run(first, before))
    requires SnapshotsMissBy(first, before, Run(first, before).ledger, misses)
    ensures SnapshotsMissBy(first, before + [last], Run(first, before).ledger, misses)
  {
    var ledger := Run(first, before).ledger;
    forall i | 0 <= i < |ledger|
      ensures Opening(first, before + [last], ledger[i].account) == Opening(first, before, ledger[i].account)
    {
      OpeningStays(first, before, last, ledger[i].account);
    }
  }

  /** The entries of a posted call carry the balances that it leaves, and each is the last entry of
      its account. */
  lemma EntriesCarryBalances(db: Database, req: Request, env: Env)
    requires Refusal(db, req, env) == None
    ensures
      var after, s, debit := Posted(db, req, env), req.source.value, DebitEntry(db, req, env);
      && s in after.accounts && debit.account == s && debit.balanceAfter == after.accounts[s].balance
      && Sum(db.ledger + [debit], s) == Sum(after.ledger, s)
      && (req.dest.None? ==> after.ledger == db.ledger + [debit])
      && (req.dest.Some? ==>
            var d, credit := req.dest.value, CreditEntry(db, req, env);
            && after.ledger == db.ledger + [debit] + [credit]
            && d in after.accounts && credit.account == d && credit.balanceAfter == after.accounts[d].balance)
      && (EntriesOwned(db) ==> EntriesOwned(after))
  {
    BalanceOfPosted(db, req, env, req.source.value);
    SumOfEffect(db, req, env, req.source.value);
    SumAppend(db.ledger, DebitEntry(db, req, env), req.source.value);
    if req.dest.Some? {
      BalanceOfPosted(db, req, env, req.dest.value);
    }
  }

  lemma TwoSnapshots(
    first: Database, actions: seq<Action>, ledger: seq<Entry>, misses: seq<int>, debit: Entry, credit: Entry, miss: int, miss': int)
    requires SnapshotsMissBy(first, actions, ledger, misses)
    requires debit.balanceAfter == Opening(first, actions, debit.account) + Sum(ledger + [debit], debit.account) + miss
    requires credit.balanceAfter ==
      Opening(first, actions, credit.account) + Sum(ledger + [debit] + [credit], credit.account) + miss'
    ensures SnapshotsMissBy(first, actions, ledger + [debit] + [credit], misses + [miss, miss'])
  {
    SnapshotAppend(first, actions, ledger, misses, debit, miss);
    SnapshotAppend(first, actions, ledger + [debit], misses + [miss], credit, miss');
    assert misses + [miss] + [miss'] == misses + [miss, miss'];
  }

  lemma SnapshotsOfPosted(first: Database, before: seq<Action>, last: Action, misses: seq<int>)
    requires Fresh(first)
    requires var db := Run(first, before);
      Posts(db, last) && EntriesOwned(db) && SnapshotsMissBy(first, before, db.ledger, misses)
    ensures
      var actions, db := before + [last], Run(first, before);
      var s, d := last.req.source.value, last.req.dest;
      SnapshotsMissBy(first, actions, Posted(db, last.req, last.env).ledger,
        misses + if d.None? then [Misses(first, actions, s)]
                 else [Misses(first, actions, s), Misses(first, actions, d.value)])
  {
    var actions, db, req := before + [last], Run(first, before), last.req;
    assert actions[..|before|] == before;
    PostsOrNothing(db, last);
    SnapshotsStay(first, before, last, misses);
    EntriesCarryBalances(db, req, last.env);
    var s, debit := req.source.value, DebitEntry(db, req, last.env);
    BalanceEquation(first, actions, s);
    if req.dest.None? {
      SnapshotAppend(first, actions, db.ledger, misses, debit, Misses(first, actions, s));
    } else {
      var d := req.dest.value;
      BalanceEquation(first, actions, d);
      TwoSnapshots(first, actions, db.ledger, misses, debit, CreditEntry(db, req, last.env),
                   Misses(first, actions, s), Misses(first, actions, d));
    }
  }

  /** And over every run an entry's balance_after is the opening balance plus the account's sum
      up to and including the entry plus its misses until then. */
  lemma {:induction false} SnapshotEquation(first: Database, actions: seq<Action>)
    requires Fresh(first)
    ensures SnapshotsMissBy(first, actions, Run(first, actions).ledger, SnapshotMisses(first, actions))
    ensures EntriesOwned(Run(first, actions))
  {
    if actions != [] {
      var before, last := actions[..|actions| - 1], actions[|actions| - 1];
      SnapshotEquation(first, before);
      var db, misses := Run(first, before), SnapshotMisses(first, before);
      assert actions == before + [last];
      if Posts(db, last) {
        PostsOrNothing(db, last);
        SnapshotsOfPosted(first, before, last, misses);
        EntriesCarryBalances(db, last.req, last.env);
      } else {
        assert misses + [] == misses;
        SnapshotsStay(first, before, last, misses);
      }
    }
  }

  /** Over every run: a stored balance agrees with the ledger if and only if the account's misses
      cancel out, and a balance_after if and only if they had until then. */
  lemma LedgerIsTheSourceOfTruth(first: Database, actions: seq<Action>)
    requires Fresh(first)
    ensures
      var db := Run(first, actions);
      && (forall id :: id in db.accounts ==>
            (db.accounts[id].balance == Opening(first, actions, id) + Sum(db.ledger, id)
             <==> Misses(first, actions, id) == 0))
      && |SnapshotMisses(first, actions)| == |db.ledger|
      && (forall i :: 0 <= i < |db.ledger| ==>
            (db.ledger[i].balanceAfter ==
               Opening(first, actions, db.ledger[i].account) + Sum(db.ledger[..i + 1], db.ledger[i].account)
             <==> SnapshotMisses(first, actions)[i] == 0))
  {
    forall id {
      BalanceEquation(first, actions, id);
    }
    SnapshotEquation(first, actions);
  }

  lemma {:induction false} NoTiesNoMiss(first: Database, actions: seq<Action>, id: Id)
    requires NoTies(actions)
    ensures Misses(first, actions, id) == 0
  {
    if actions != [] {
      assert actions[|actions| - 1] in actions;
      NoTiesNoMiss(first, actions[..|actions| - 1], id);
    }
  }

  /** In particular they always agree when no amount is a tie, as whole units never are. */
  lemma {:induction false} NoTiesNoMisses(first: Database, actions: seq<Action>)
    requires NoTies(actions)
    ensures forall id :: Misses(first, actions, id) == 0
    ensures forall i :: 0 <= i < |SnapshotMisses(first, actions)| ==> SnapshotMisses(first, actions)[i] == 0
  {
    forall id {
      NoTiesNoMiss(first, actions, id);
    }
    if actions != [] {
      NoTiesNoMisses(first, actions[..|actions| - 1]);
    }
  }

  /** A tie that misses: half a unit debited from an account of ten leaves it at ten while the
      destination gains one, and the ledger says nine. */
  lemma TieMisses()
    ensures
      var first := Database(map[1 := Account(7, Checking, Active, 10), 2 := Account(7, Savings, Active, 0)], [], [], []);
      var call := Call(Request(7, Transfer, Some(0.5), Some(1), Some(2), None, None, true), Env(true, 100, 0, None));
      var db := Run(first, [call]);
      && 1 in db.accounts && 2 in db.accounts
      && db.accounts[1].balance == 10 && db.accounts[2].balance == 1
      && Sum(db.ledger, 1) == -1 && Misses(first, [call], 1) == 1
  {
    var first := Database(map[1 := Account(7, Checking, Active, 10), 2 := Account(7, Savings, Active, 0)], [], [], []);
    var req, env := Request(7, Transfer, Some(0.5), Some(1), Some(2), None, None, true), Env(true, 100, 0, None);
    assert (0.5 as real).Floor == 0;
    assert Refusal(first, req, env) == None;
    assert [Call(req, env)][..0] == [];
    assert Run(first, [Call(req, env)]) == Posted(first, req, env);
    PostedAgreement(first, req, env, 1);
    assert Posts(first, Call(req, env));
  }

  // ---------- The sum of all entries ----------

  function SumAll(ledger: seq<Entry>): int {
    if ledger == [] then 0 else SumAll(ledger[..|ledger| - 1]) + Signed(ledger[|ledger| - 1])
  }

  lemma SumAllAppend(ledger: seq<Entry>, e: Entry)
    ensures SumAll(ledger + [e]) == SumAll(ledger) + Signed(e)
  {
    assert (ledger + [e])[..|ledger|] == ledger;
  }

  lemma PostedSumAll(db: Database, req: Request, env: Env)
    requires Refusal(db, req, env) == None
    ensures
      var after := Posted(db, req, env);
      SumAll(after.ledger) + OneSided(after.txns) == SumAll(db.ledger) + OneSided(db.txns)
  {
    var debit := DebitEntry(db, req, env);
    SumAllAppend(db.ledger, debit);
    OneSidedAppend(db.txns, NewTxn(req, env));
    if req.dest.Some? {
      SumAllAppend(db.ledger + [debit], CreditEntry(db, req, env));
    }
  }

  lemma {:induction false} OneSidedIsZero(txns: seq<Txn>)
    requires forall i :: 0 <= i < |txns| ==> txns[i].amount > 0
    ensures OneSided(txns) >= 0
    ensures OneSided(txns) == 0 <==> forall i :: 0 <= i < |txns| ==> txns[i].dest.Some?
  {
    if txns != [] {
      OneSidedIsZero(txns[..|txns| - 1]);
    }
  }

  lemma {:induction false} EntriesMinusOneSided(first: Database, actions: seq<Action>)
    requires Fresh(first)
    ensures SumAll(Run(first, actions).ledger) == -OneSided(Run(first, actions).txns)
  {
    if actions != [] {
      var before, last := actions[..|actions| - 1], actions[|actions| - 1];
      EntriesMinusOneSided(first, before);
      if Posts(Run(first, before), last) {
        PostsOrNothing(Run(first, before), last);
        PostedSumAll(Run(first, before), last.req, last.env);
      }
    }
  }

  /** Over every run, ties included, all ledger entries together sum to minus the one-sided
      amounts; so to zero if and only if every transaction has a destination. */
  lemma EntriesSumToZeroExactlyWhen(first: Database, actions: seq<Action>)
    requires Fresh(first)
    ensures
      var db := Run(first, actions);
      && SumAll(db.ledger) == -OneSided(db.txns)
      && (SumAll(db.ledger) == 0 <==> forall t :: t in db.txns ==> t.dest.Some?)
  {
    EntriesMinusOneSided(first, actions);
    OneEffectPerKey(first, actions);
    var txns := Run(first, actions).txns;
    assert forall i :: 0 <= i < |txns| ==> txns[i] in txns;
    OneSidedIsZero(txns);
  }

  /** A concrete transaction without a destination, after which the entries sum to minus 20000. */
  lemma OneSidedDoesNotSumToZero()
    ensures
      var first := Database(map[1 := Account(7, Checking, Active, 50000)], [], [], []);
      var call := Call(Request(7, FeeTxn, Some(20000.0), Some(1), None, None, None, true), Env(true, 100, 0, None));
      SumAll(Run(first, [call]).ledger) == -20000
  {
    var first := Database(map[1 := Account(7, Checking, Active, 50000)], [], [], []);
    var req, env := Request(7, FeeTxn, Some(20000.0), Some(1), None, None, None, true), Env(true, 100, 0, None);
    assert Refusal(first, req, env) == None;
    assert [Call(req, env)][..0] == [];
    assert Run(first, [Call(req, env)]) == Posted(first, req, env);
    PostedSumAll(first, req, env);
    OneSidedAppend([], NewTxn(req, env));
  }

  // ---------- Conservation ----------

  ghost function Total(accounts: map<Id, Account>): int
    decreases |accounts|
  {
    if accounts == map[] then 0
    else
      var id :| id in accounts;
      accounts[id].balance + Total(accounts - {id})
  }

  lemma {:induction false} TotalRemove(accounts: map<Id, Account>, id: Id)
    requires id in accounts
    ensures Total(accounts) == accounts[id].balance + Total(accounts - {id})
    decreases |accounts|
  {
    var k :| k in accounts && Total(accounts) == accounts[k].balance + Total(accounts - {k});
    if k != id {
      TotalRemove(accounts - {k}, id);
      TotalRemove(accounts - {id}, k);
      assert accounts - {k} - {id} == accounts - {id} - {k};
    }
  }

  lemma TotalUpdate(accounts: map<Id, Account>, id: Id, row: Account)
    ensures Total(accounts[id := row]) ==
      Total(accounts) + row.balance - if id in accounts then accounts[id].balance else 0
  {
    TotalRemove(accounts[id := row], id);
    assert accounts[id := row] - {id} == accounts - {id};
    if id in accounts {
      TotalRemove(accounts, id);
    } else {
      assert accounts - {id} == accounts;
    }
  }

  /** The amount of all transactions that name no destination. */
  function OneSided(txns: seq<Txn>): int {
    if txns == [] then 0
    else
      var last := txns[|txns| - 1];
      OneSided(txns[..|txns| - 1]) + if last.dest.None? then last.amount else 0
  }

  lemma OneSidedAppend(txns: seq<Txn>, t: Txn)
    ensures OneSided(txns + [t]) == OneSided(txns) + if t.dest.None? then t.amount else 0
  {
    assert (txns + [t])[..|txns|] == txns;
  }

  /** By how many units one posted call misses conservation: the misses of its two accounts. */
  function Drift(db: Database, req: Request): int
    requires Named(db.accounts, req.org, req.source) && req.amount.Some?
    requires req.dest.Some? ==> Named(db.accounts, req.org, req.dest)
  {
    Miss(db, req, req.source.value)
    + if req.dest.Some? && req.dest != req.source then Miss(db, req, req.dest.value) else 0
  }

  function Drifts(first: Database, actions: seq<Action>): int {
    if actions == [] then 0
    else
      var before, last := actions[..|actions| - 1], actions[|actions| - 1];
      var db := Run(first, before);
      Drifts(first, before) + if Posts(db, last) then Drift(db, last.req) else 0
  }

  lemma PostedConservation(db: Database, req: Request, env: Env)
    requires Refusal(db, req, env) == None
    ensures
      var after := Posted(db, req, env);
      && Total(after.accounts) + OneSided(after.txns)
         == Total(db.accounts) + OneSided(db.txns) + Drift(db, req)
      && -1 <= Drift(db, req) <= 1
      && (!IsTie(req.amount.value) ==> Drift(db, req) == 0)
      && |after.txns| == |db.txns| + 1
  {
    var a, s := req.amount.value, req.source.value;
    AmountIsPositive(a);
    RoundDebit(db.accounts[s].balance, a);
    var row := db.accounts[s].(balance := SourceAfter(db, req));
    TotalUpdate(db.accounts, s, row);
    OneSidedAppend(db.txns, NewTxn(req, env));
    if req.dest.Some? {
      var d := req.dest.value;
      RoundCredit(db.accounts[d].balance, a);
      TotalUpdate(db.accounts[s := row], d, db.accounts[d].(balance := DestAfter(db, req)));
    }
  }

  /** The balances that accounts were opened with during a run. */
  function Opened(first: Database, actions: seq<Action>): int {
    if actions == [] then 0
    else
      var before, last := actions[..|actions| - 1], actions[|actions| - 1];
      Opened(first, before) + if Opens(Run(first, before), last) then last.balance else 0
  }

  lemma ConservationStep(db: Database, a: Action)
    ensures
      var after := Apply(db, a);
      var gap := Total(after.accounts) + OneSided(after.txns) - Total(db.accounts) - OneSided(db.txns)
                 - if Opens(db, a) then a.balance else 0;
      && gap == (if Posts(db, a) then Drift(db, a.req) else 0)
      && |after.txns| == |db.txns| + (if Posts(db, a) then 1 else 0)
      && -1 <= gap <= 1 && (NoTies([a]) ==> gap == 0)
  {
    match a
    case Open(id, org, kind, balance) =>
      TotalUpdate(db.accounts, id, Account(org, kind, Active, balance));
    case SetStatus(id, status) =>
      if id in db.accounts {
        TotalUpdate(db.accounts, id, db.accounts[id].(status := status));
      }
    case Call(req, env) =>
      PostsOrNothing(db, a);
      if Posts(db, a) {
        assert a in [a];
        PostedConservation(db, req, env);
      }
  }

  /** Over any run the sum of all balances plus the total of one-sided transactions moves, but for
      the balances of newly opened accounts, by exactly the drifts of the posted calls: at most
      one unit a transaction, and nothing without tie amounts. */
  lemma {:induction false} Conservation(first: Database, actions: seq<Action>)
    ensures
      var db := Run(first, actions);
      var gap := Total(db.accounts) + OneSided(db.txns) - Total(first.accounts) - OneSided(first.txns)
                 - Opened(first, actions);
      && gap == Drifts(first, actions)
      && |first.txns| <= |db.txns|
      && -(|db.txns| - |first.txns|) <= gap <= |db.txns| - |first.txns|
      && (NoTies(actions) ==> gap == 0)
  {
    if actions != [] {
      var n := |actions| - 1;
      assert actions[n] in actions;
      Conservation(first, actions[..n]);
      ConservationStep(Run(first, actions[..n]), actions[n]);
    }
  }

  // ---------- Balances stay within bounds ----------

  predicate InBounds(db: Database) {
    forall id :: id in db.accounts ==>
      && Fits(db.accounts[id].balance)
      && (db.accounts[id].kind != CreditLine ==> db.accounts[id].balance >= 0)
  }

  /** The trigger's own insufficient-funds exception can only come from crediting a non-credit
      account that is below zero already. So from balances in bounds a call never meets it, and
      leaves balances in bounds. */
  lemma TriggerUnreachable(db: Database, req: Request, env: Env)
    ensures Process(db, req, env).0 == Raised(BalanceRejected) ==>
      && req.dest.Some? && req.dest.value in db.accounts
      && db.accounts[req.dest.value].kind != CreditLine && db.accounts[req.dest.value].balance < 0
    ensures InBounds(db) ==>
      Process(db, req, env).0 != Raised(BalanceRejected) && InBounds(Process(db, req, env).1)
  {
  }

  /** No non-credit account is opened below zero. The INSERT policy does not forbid it. */
  predicate OpensInBounds(actions: seq<Action>) {
    forall a :: a in actions && a.Open? && a.kind != CreditLine ==> a.balance >= 0
  }

  lemma {:induction false} BalancesStayInBounds(first: Database, actions: seq<Action>)
    requires InBounds(first) && OpensInBounds(actions)
    ensures InBounds(Run(first, actions))
  {
    if actions != [] {
      var n := |actions| - 1;
      assert actions[n] in actions;
      BalancesStayInBounds(first, actions[..n]);
      if actions[n].Call? {
        TriggerUnreachable(Run(first, actions[..n]), actions[n].req, actions[n].env);
      }
    }
  }

  // ---------- One effect a key, one debit and one credit a transaction ----------

  predicate Unique(txns: seq<Txn>) {
    forall i, j :: 0 <= i < j < |txns| ==>
      txns[i].id != txns[j].id && (txns[i].key.Some? ==> txns[i].key != txns[j].key)
  }

  function EntriesOf(ledger: seq<Entry>, txn: Id): seq<Entry> {
    if ledger == [] then []
    else
      var last := ledger[|ledger| - 1];
      EntriesOf(ledger[..|ledger| - 1], txn) + if last.txn == txn then [last] else []
  }

  lemma EntriesAppend(ledger: seq<Entry>, e: Entry, txn: Id)
    ensures EntriesOf(ledger + [e], txn) == EntriesOf(ledger, txn) + if e.txn == txn then [e] else []
  {
    assert (ledger + [e])[..|ledger|] == ledger;
  }

  lemma {:induction false} NoEntriesYet(ledger: seq<Entry>, txn: Id)
    requires forall e :: e in ledger ==> e.txn != txn
    ensures EntriesOf(ledger, txn) == []
  {
    if ledger != [] {
      NoEntriesYet(ledger[..|ledger| - 1], txn);
    }
  }

  /** One debit of the source, and for a two-sided transaction one credit of the same amount
      to another account, and no other entry. */
  predicate Balanced(t: Txn, entries: seq<Entry>) {
    && t.amount > 0 && t.source.Some?
    && |entries| == (if t.dest.Some? then 2 else 1)
    && entries[0] == Entry(t.id, t.source.value, Debit, t.amount, entries[0].balanceAfter)
    && (t.dest.Some? ==>
          && t.dest != t.source
          && entries[1] == Entry(t.id, t.dest.value, Credit, t.amount, entries[1].balanceAfter))
  }

  predicate DoubleEntry(db: Database) {
    && Unique(db.txns)
    && EntriesNamed(db)
    && (forall t :: t in db.txns ==> Balanced(t, EntriesOf(db.ledger, t.id)))
  }

  /** A posted call adds its own entries under its own id and touches no other's. */
  lemma EntriesOfPosted(db: Database, req: Request, env: Env, txn: Id)
    requires Refusal(db, req, env) == None
    ensures EntriesOf(Posted(db, req, env).ledger, txn) == EntriesOf(db.ledger, txn) +
      if txn != env.txnId then []
      else if req.dest.None? then [DebitEntry(db, req, env)]
      else [DebitEntry(db, req, env), CreditEntry(db, req, env)]
  {
    var debit := DebitEntry(db, req, env);
    if req.dest.None? {
      EntriesAppend(db.ledger, debit, txn);
    } else {
      TwoEntriesAppend(db.ledger, debit, CreditEntry(db, req, env), txn);
    }
  }

  lemma TwoEntriesAppend(ledger: seq<Entry>, a: Entry, b: Entry, txn: Id)
    requires a.txn == b.txn
    ensures EntriesOf(ledger + [a] + [b], txn) == EntriesOf(ledger, txn) + if a.txn == txn then [a, b] else []
  {
    EntriesAppend(ledger, a, txn);
    EntriesAppend(ledger + [a], b, txn);
  }

  predicate EntriesNamed(db: Database) {
    forall e :: e in db.ledger ==> exists t :: t in db.txns && t.id == e.txn
  }

  lemma PostedEntriesNamed(db: Database, req: Request, env: Env)
    requires EntriesNamed(db) && Refusal(db, req, env) == None
    ensures EntriesNamed(Posted(db, req, env))
  {
  }

  lemma PostedUnique(txns: seq<Txn>, t: Txn, req: Request, env: Env)
    requires Unique(txns) && InsertRefusal(txns, req, env) == None && t == NewTxn(req, env)
    ensures Unique(txns + [t])
  {
  }

  lemma PostedBalanced(db: Database, req: Request, env: Env, u: Txn)
    requires EntriesNamed(db) && Refusal(db, req, env) == None
    requires u == NewTxn(req, env) || (u in db.txns && Balanced(u, EntriesOf(db.ledger, u.id)))
    ensures Balanced(u, EntriesOf(Posted(db, req, env).ledger, u.id))
  {
    EntriesOfPosted(db, req, env, u.id);
    if u == NewTxn(req, env) {
      NoEntriesYet(db.ledger, u.id);
    } else {
      assert u.id != env.txnId;
      assert EntriesOf(db.ledger, u.id) + [] == EntriesOf(db.ledger, u.id);
    }
  }

  lemma PostedDoubleEntry(db: Database, req: Request, env: Env)
    requires DoubleEntry(db) && Refusal(db, req, env) == None
    ensures DoubleEntry(Posted(db, req, env))
  {
    var after := Posted(db, req, env);
    PostedEntriesNamed(db, req, env);
    PostedUnique(db.txns, NewTxn(req, env), req, env);
    forall u | u in after.txns
      ensures Balanced(u, EntriesOf(after.ledger, u.id))
    {
      PostedBalanced(db, req, env, u);
    }
  }

  /** Over any run: at most one transaction a key and a row id, and every transaction has
      exactly its debit and, when two-sided, its credit of equal amount on another account. */
  lemma {:induction false} OneEffectPerKey(first: Database, actions: seq<Action>)
    requires Fresh(first)
    ensures DoubleEntry(Run(first, actions))
  {
    if actions != [] {
      var n := |actions| - 1;
      OneEffectPerKey(first, actions[..n]);
      var db := Run(first, actions[..n]);
      if actions[n].Call? && Apply(db, actions[n]) != db {
        PostedDoubleEntry(db, actions[n].req, actions[n].env);
      }
    }
  }

  // ---------- The audit trail ----------

  /** The balance that an account's audit records lead to, step by step from its opening
      balance; nothing when a record does not start where the one before it ended. */
  function Trail(audit: seq<Audit>, id: Id, opening: int): Option<int> {
    if audit == [] then Some(opening)
    else
      var last, reached := audit[|audit| - 1], Trail(audit[..|audit| - 1], id, opening);
      if !last.BalanceChange? || last.account != id then reached
      else if reached == Some(last.before) && last.before != last.after then Some(last.after)
      else None
  }

  lemma TrailAppend(audit: seq<Audit>, a: Audit, id: Id, opening: int)
    ensures Trail(audit + [a], id, opening) ==
      if !a.BalanceChange? || a.account != id then Trail(audit, id, opening)
      else if Trail(audit, id, opening) == Some(a.before) && a.before != a.after then Some(a.after)
      else None
  {
    assert (audit + [a])[..|audit|] == audit;
  }

  lemma TrailOfUpdate(audit: seq<Audit>, id: Id, before: int, after: int, other: Id, opening: int)
    requires id == other ==> Trail(audit, id, opening) == Some(before)
    ensures Trail(audit + BalanceAudit(id, before, after), other, opening) ==
      if id == other then Some(after) else Trail(audit, other, opening)
  {
    if before == after {
      assert audit + [] == audit;
    } else {
      TrailAppend(audit, BalanceChange(id, before, after), other, opening);
    }
  }

  lemma TrailOfPosted(db: Database, req: Request, env: Env, id: Id, opening: int)
    requires Refusal(db, req, env) == None
    requires id in db.accounts ==> Trail(db.audit, id, opening) == Some(db.accounts[id].balance)
    ensures var after := Posted(db, req, env);
      Trail(after.audit, id, opening) ==
        if id in db.accounts then Some(after.accounts[id].balance) else Trail(db.audit, id, opening)
  {
    var after, s := Posted(db, req, env), req.source.value;
    var audit1 := db.audit + BalanceAudit(s, db.accounts[s].balance, SourceAfter(db, req));
    TrailOfUpdate(db.audit, s, db.accounts[s].balance, SourceAfter(db, req), id, opening);
    if req.dest.None? {
      TrailAppend(audit1, TxnCreated(env.txnId), id, opening);
    } else {
      var d := req.dest.value;
      var audit2 := audit1 + BalanceAudit(d, db.accounts[d].balance, DestAfter(db, req));
      TrailOfUpdate(audit1, d, db.accounts[d].balance, DestAfter(db, req), id, opening);
      TrailAppend(audit2, TxnCreated(env.txnId), id, opening);
    }
  }

  /** Over any run, ties included, an account's audit records chain from its opening balance
      to its stored balance, and none records a change that is none. */
  lemma {:induction false} AuditTrailIsComplete(first: Database, actions: seq<Action>, id: Id)
    requires first.audit == []
    ensures
      var db := Run(first, actions);
      if id in db.accounts then Trail(db.audit, id, Opening(first, actions, id)) == Some(db.accounts[id].balance)
      else forall balance :: Trail(db.audit, id, balance) == Some(balance)
  {
    if actions != [] {
      var before, last := actions[..|actions| - 1], actions[|actions| - 1];
      AuditTrailIsComplete(first, before, id);
      var db := Run(first, before);
      if Posts(db, last) {
        PostsOrNothing(db, last);
        if id in db.accounts {
          TrailOfPosted(db, last.req, last.env, id, Opening(first, before, id));
        } else {
          forall balance {
            TrailOfPosted(db, last.req, last.env, id, balance);
          }
        }
      }
    }
  }

  // ---------- Who may be touched ----------

  /** A call changes no account but its source and its destination, of those only the balance,
      and only when they are active accounts of the caller's organization. */
  lemma OnlyNamedAccountsMove(db: Database, req: Request, env: Env, id: Id)
    requires id in db.accounts
    ensures
      var before, accounts := db.accounts[id], Process(db, req, env).1.accounts;
      && accounts.Keys == db.accounts.Keys
      && accounts[id] == before.(balance := accounts[id].balance)
      && (accounts[id] != before ==>
            (req.source == Some(id) || req.dest == Some(id)) && before.org == req.org && before.status == Active)
  {
  }

  /** Source and destination of every transaction belong to its organization. */
  predicate Isolated(db: Database) {
    forall t :: t in db.txns ==>
      && t.source.Some? && t.source.value in db.accounts && db.accounts[t.source.value].org == t.org
      && (t.dest.Some? ==> t.dest.value in db.accounts && db.accounts[t.dest.value].org == t.org)
  }

  lemma IsolationStep(db: Database, a: Action)
    requires Isolated(db)
    ensures Isolated(Apply(db, a))
  {
    if a.Call? && Apply(db, a) != db {
      forall t | t in Apply(db, a).txns
        ensures t == NewTxn(a.req, a.env) || t in db.txns
      {
      }
    }
  }

  lemma {:induction false} TransactionsStayInOneOrg(first: Database, actions: seq<Action>)
    requires Fresh(first)
    ensures Isolated(Run(first, actions))
  {
    if actions != [] {
      var n := |actions| - 1;
      TransactionsStayInOneOrg(first, actions[..n]);
      IsolationStep(Run(first, actions[..n]), actions[n]);
    }
  }

  /** A whole-unit transfer that is admitted and does not return early: exactly when it posts,
      and what it then leaves, without any rounding. */
  lemma WholeUnitTransfer(db: Database, req: Request, env: Env, n: int, s: Id, d: Id)
    requires InBounds(db) && env.admitted && EarlyReturn(db.txns, req).None?
    requires req.amount == Some(n as real) && req.source == Some(s) && req.dest == Some(d)
    ensures
      var (outcome, after) := Process(db, req, env);
      && (outcome.Returned? <==>
            && s != d && s in db.accounts && d in db.accounts
            && db.accounts[s].org == db.accounts[d].org == req.org
            && db.accounts[s].status == db.accounts[d].status == Active
            && req.columnsOk && 0 < n <= MAX_UNITS
            && (db.accounts[s].kind != CreditLine ==> n <= db.accounts[s].balance)
            && -MAX_UNITS <= db.accounts[s].balance - n && db.accounts[d].balance + n <= MAX_UNITS
            && (forall t :: t in db.txns ==> t.id != env.txnId && (req.key.Some? ==> t.key != req.key)))
      && (outcome.Returned? ==>
            var sNew, dNew := db.accounts[s].balance - n, db.accounts[d].balance + n;
            && after.accounts == db.accounts[s := db.accounts[s].(balance := sNew)][d := db.accounts[d].(balance := dNew)]
            && after.ledger == db.ledger + [Entry(env.txnId, s, Debit, n, sNew), Entry(env.txnId, d, Credit, n, dNew)]
            && after.txns == db.txns + [outcome.txn]
            && outcome.txn.amount == n && outcome.txn.source == Some(s) && outcome.txn.dest == Some(d)
            && outcome.txn.key == req.key && outcome.txn.org == req.org && outcome.txn.id == env.txnId)
  {
  }

  // ---------- Which error a call raises ----------

  /** The account exists, belongs to the organization and is active. */
  predicate OpenFor(db: Database, org: Id, id: Id) {
    id in db.accounts && db.accounts[id].org == org && db.accounts[id].status == Active
  }

  predicate SourceOpen(db: Database, req: Request) {
    req.source.Some? && OpenFor(db, req.org, req.source.value)
  }

  predicate DestOpen(db: Database, req: Request) {
    req.dest.None? || OpenFor(db, req.org, req.dest.value)
  }

  /** A credit line, or a balance that the amount does not exceed; a null amount exceeds nothing. */
  predicate Covered(db: Database, req: Request)
    requires SourceOpen(db, req)
  {
    var source := db.accounts[req.source.value];
    source.kind == CreditLine || req.amount.None? || source.balance as real >= req.amount.value
  }

  /** NUMERIC(19,4): nineteen digits in all. */
  predicate NineteenDigits(units: int) {
    -10_000_000_000_000_000_000 < units < 10_000_000_000_000_000_000
  }

  /** The row passes NOT NULL and CHECK: an amount above zero, two different accounts. */
  predicate RowOk(req: Request) {
    req.amount.Some? && Round(req.amount.value) > 0 && req.columnsOk && req.source != req.dest
  }

  predicate Taken(db: Database, req: Request, env: Env) {
    exists t :: t in db.txns && (t.id == env.txnId || (req.key.Some? && t.key == req.key))
  }

  /** The call gets as far as updating balances. */
  predicate ReachesUpdates(db: Database, req: Request, env: Env) {
    && SourceOpen(db, req) && DestOpen(db, req) && Covered(db, req)
    && RowOk(req) && NineteenDigits(Round(req.amount.value)) && !Taken(db, req, env)
  }

  predicate SourceFits(db: Database, req: Request)
    requires SourceOpen(db, req) && req.amount.Some?
  {
    NineteenDigits(Round(db.accounts[req.source.value].balance as real - req.amount.value))
  }

  function Credited(db: Database, req: Request): int
    requires req.dest.Some? && DestOpen(db, req) && req.amount.Some?
  {
    Round(db.accounts[req.dest.value].balance as real + req.amount.value)
  }

  /** For every call that is admitted and does not return early, each error if and only if: the
      first thing that fails in the order of the statements decides. */
  lemma RaisesExactlyWhen(db: Database, req: Request, env: Env)
    requires env.admitted && EarlyReturn(db.txns, req).None?
    ensures
      var outcome, open := Process(db, req, env).0, SourceOpen(db, req) && DestOpen(db, req);
      && (outcome == Raised(SourceNotFound) <==> !SourceOpen(db, req))
      && (outcome == Raised(DestNotFound) <==> SourceOpen(db, req) && !DestOpen(db, req))
      && (outcome == Raised(InsufficientFunds) <==>
            open && req.amount.Some? && db.accounts[req.source.value].kind != CreditLine
            && (db.accounts[req.source.value].balance as real) < req.amount.value)
      && (outcome == Raised(ConstraintViolation) <==>
            open && Covered(db, req) && !RowOk(req)
            && (req.amount.Some? ==> NineteenDigits(Round(req.amount.value))))
      && (outcome == Raised(UniqueViolation) <==>
            open && Covered(db, req) && RowOk(req) && NineteenDigits(Round(req.amount.value)) && Taken(db, req, env))
      && (outcome == Raised(NumericOverflow) <==>
            || (open && Covered(db, req) && req.amount.Some? && !NineteenDigits(Round(req.amount.value)))
            || (ReachesUpdates(db, req, env)
                && (!SourceFits(db, req) || (req.dest.Some? && !NineteenDigits(Credited(db, req))))))
      && (outcome == Raised(BalanceRejected) <==>
            ReachesUpdates(db, req, env) && SourceFits(db, req) && req.dest.Some?
            && db.accounts[req.dest.value].kind != CreditLine
            && NineteenDigits(Credited(db, req)) && Credited(db, req) < 0)
      && outcome != Raised(RateLimited)
  {
    if SourceOpen(db, req) && Covered(db, req) && req.amount.Some? && db.accounts[req.source.value].kind != CreditLine {
      NeverOverdrawn(db.accounts[req.source.value].balance, req.amount.value);
    }
  }

  lemma NeverOverdrawn(balance: int, a: real)
    requires balance as real >= a
    ensures Round(balance as real - a) >= 0
  {
  }

  /** The rate limiter's verdict comes first, then the early return of the idempotency check: the
      committed row with the key in the caller's organization, when it has no null column. */
  lemma LimitThenEarlyReturn(db: Database, req: Request, env: Env)
    ensures Process(db, req, env).0 == Raised(RateLimited) <==> !env.admitted
    ensures Process(db, req, env).0.Raised? ==> Process(db, req, env).1 == db
    ensures EarlyReturn(db.txns, req).Some? ==>
      var t := EarlyReturn(db.txns, req).value;
      && t in db.txns && req.key.Some? && t.key == req.key && t.org == req.org
      && t.source.Some? && t.dest.Some? && t.description.Some? && t.createdBy.Some?
      && t.processedAt.Some? && t.failedAt.Some? && t.failureReason.Some? && t.reversedAt.Some?
      && (env.admitted ==> Process(db, req, env) == (Returned(t), db))
  {
    if req.key.Some? {
      FindByKeySpec(db.txns, req.org, req.key.value);
    }
  }

  /** What a call that posts returns and commits, column by column. */
  lemma PostedRow(db: Database, req: Request, env: Env)
    requires env.admitted && EarlyReturn(db.txns, req).None? && Process(db, req, env).0.Returned?
    ensures
      var (outcome, after) := Process(db, req, env);
      var t := outcome.txn;
      && after.txns == db.txns + [t]
      && t.id == env.txnId && t.org == req.org && t.kind == req.kind && req.amount.Some?
      && t.amount == Round(req.amount.value) && t.source == req.source && t.dest == req.dest
      && t.key == req.key && t.description == req.description
      && t.processedAt == Some(env.now) && t.failedAt.None? && t.failureReason.None? && t.reversedAt.None?
      && t.createdBy == env.user
      && after.audit != [] && after.audit[|after.audit| - 1] == TxnCreated(env.txnId)
  {
  }

  // ---------- A repeated key ----------

  lemma FindByKeySpec(txns: seq<Txn>, org: Id, key: string)
    ensures var found := FindByKey(txns, org, key);
      if found.Some? then found.value in txns && found.value.key == Some(key) && found.value.org == org
      else forall t :: t in txns ==> t.key != Some(key) || t.org != org
  {
  }

  /** A call whose key is already committed changes nothing. It returns the committed row if
      and only if the limiter admits it, the row is in the caller's organization, and no
      column of the row is null. */
  lemma RepeatedKey(db: Database, t: Txn, req: Request, env: Env)
    requires Unique(db.txns) && t in db.txns && t.key.Some? && req.key == t.key
    ensures Process(db, req, env).1 == db
    ensures Process(db, req, env).0 == Returned(t)
      <==> env.admitted && t.org == req.org && AllColumnsNonNull(t)
    ensures Process(db, req, env).0 == Returned(t) || Process(db, req, env).0.Raised?
  {
    FindByKeySpec(db.txns, req.org, t.key.value);
    assert Refusal(db, req, env).Some?;
  }

  /** Which columns those are: of the row with the key, in the caller's organization, every one
      that a transaction may leave null. */
  lemma ReturnsEarlyExactlyWhen(db: Database, t: Txn, req: Request, env: Env)
    requires Unique(db.txns) && t in db.txns && t.key.Some? && req.key == t.key && env.admitted
    ensures Process(db, req, env) == (Returned(t), db) <==>
      && t.org == req.org && t.source.Some? && t.dest.Some? && t.description.Some? && t.createdBy.Some?
      && t.processedAt.Some? && t.failedAt.Some? && t.failureReason.Some? && t.reversedAt.Some?
  {
    RepeatedKey(db, t, req, env);
  }

  predicate NeverCompletedBy(txns: seq<Txn>) {
    forall t :: t in txns ==> t.failedAt.None? && t.failureReason.None? && t.reversedAt.None?
  }

  lemma {:induction false} RowsKeepNulls(first: Database, actions: seq<Action>)
    requires Fresh(first)
    ensures NeverCompletedBy(Run(first, actions).txns)
  {
    if actions != [] {
      RowsKeepNulls(first, actions[..|actions| - 1]);
    }
  }

  /** No row that process_transaction writes is free of nulls, so in every reachable state the
      early return of the idempotency check never happens: a repeated key raises. */
  lemma RepeatAlwaysRaises(first: Database, actions: seq<Action>, t: Txn, req: Request, env: Env)
    requires Fresh(first) && t in Run(first, actions).txns
    requires t.key.Some? && req.key == t.key
    ensures Process(Run(first, actions), req, env).0.Raised?
    ensures Process(Run(first, actions), req, env).1 == Run(first, actions)
  {
    OneEffectPerKey(first, actions);
    RowsKeepNulls(first, actions);
    RepeatedKey(Run(first, actions), t, req, env);
  }

  /** A concrete repeat: the very same admitted request, sent twice, posts once and then
      raises a unique violation instead of returning the first transaction. */
  lemma ReplayDoesNotReturnTheFirst()
    ensures
      var first := Database(map[1 := Account(7, Checking, Active, 50000), 2 := Account(7, Savings, Active, 0)], [], [], []);
      var req := Request(7, Transfer, Some(20000.0), Some(1), Some(2), Some("rent"), Some("k"), true);
      var (o1, db1) := Process(first, req, Env(true, 100, 0, Some(9)));
      var (o2, db2) := Process(db1, req, Env(true, 101, 1, Some(9)));
      o1.Returned? && o2 == Raised(UniqueViolation) && db2 == db1
      && db2.accounts[1].balance == 30000 && db2.accounts[2].balance == 20000
  {
    var first := Database(map[1 := Account(7, Checking, Active, 50000), 2 := Account(7, Savings, Active, 0)], [], [], []);
    var req := Request(7, Transfer, Some(20000.0), Some(1), Some(2), Some("rent"), Some("k"), true);
    var env1, env2 := Env(true, 100, 0, Some(9)), Env(true, 101, 1, Some(9));
    RoundIsNearest(20000.0, 20000);
    RoundIsNearest(30000.0, 30000);
    assert Refusal(first, req, env1) == None;
    var db1 := Posted(first, req, env1);
    assert db1.txns == [NewTxn(req, env1)];
    assert FindByKey(db1.txns, 7, "k") == Some(NewTxn(req, env1));
    assert EarlyReturn(db1.txns, req).None?;
    assert NewTxn(req, env1) in db1.txns;
    assert Refusal(db1, req, env2) == Some(UniqueViolation);
  }
}
