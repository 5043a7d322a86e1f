/** The double-entry ledger: the tables accounts, transactions and ledger_entries, and
    process_transaction as one atomic call. */
module Ledger {
  import opened Wrappers
  import opened Numeric

  type Id = nat

  datatype AccountType = Checking | Savings | CreditLine | Escrow | Fee

  datatype AccountStatus = Active | Frozen | Closed | PendingVerification

  datatype TxnType = DebitTxn | CreditTxn | Transfer | FeeTxn | Refund | Adjustment

  datatype Account = Account(org: Id, kind: AccountType, status: AccountStatus, balance: int)

  /** A transactions row with every nullable column; the NOT NULL columns that this function
      fills with constants (status, currency, timestamps) are left out. */
  datatype Txn = Txn(
    id: Id, org: Id, kind: TxnType, amount: int,
    source: Option<Id>, dest: Option<Id>, key: Option<string>, description: Option<string>,
    processedAt: Option<int>, failedAt: Option<int>, failureReason: Option<string>,
    reversedAt: Option<int>, createdBy: Option<Id>)

  datatype Side = Debit | Credit

  datatype Entry = Entry(txn: Id, account: Id, side: Side, amount: int, balanceAfter: int)

  datatype Audit = BalanceChange(account: Id, before: int, after: int) | TxnCreated(txn: Id)

  datatype Database = Database(
    accounts: map<Id, Account>, txns: seq<Txn>, ledger: seq<Entry>, audit: seq<Audit>)

  /** The arguments of process_transaction. columnsOk says that p_type is not null and that
      p_metadata is not null and passes its CHECK. The amount is in units of 0.0001. */
  datatype Request = Request(
    org: Id, kind: TxnType, amount: Option<real>, source: Option<Id>, dest: Option<Id>,
    description: Option<string>, key: Option<string>, columnsOk: bool)

  /** What the call takes from its surroundings: the rate limiter's verdict, the generated
      row id, now() and auth_uid(). */
  datatype Env = Env(admitted: bool, txnId: Id, now: int, user: Option<Id>)

  datatype Error =
    | RateLimited
    | SourceNotFound
    | DestNotFound
    | InsufficientFunds
    | NumericOverflow
    | ConstraintViolation
    | UniqueViolation
    | BalanceRejected

  datatype Outcome = Returned(txn: Txn) | Raised(error: Error)

  // ---------- Statements ----------

  /** The row the idempotency SELECT finds: the key within the caller's organization. */
  function FindByKey(txns: seq<Txn>, org: Id, key: string): Option<Txn> {
    if txns == [] then None
    else if txns[0].key == Some(key) && txns[0].org == org then Some(txns[0])
    else FindByKey(txns[1..], org, key)
  }

  /** SQL's IS NOT NULL on a composite value: true only when every column is non-null. */
  predicate AllColumnsNonNull(t: Txn) {
    && t.source.Some? && t.dest.Some? && t.key.Some? && t.description.Some?
    && t.processedAt.Some? && t.failedAt.Some? && t.failureReason.Some?
    && t.reversedAt.Some? && t.createdBy.Some?
  }

  /** The row that the idempotency check returns early with, if it does. */
  function EarlyReturn(txns: seq<Txn>, req: Request): Option<Txn> {
    if req.key.None? then None
    else
      var found := FindByKey(txns, req.org, req.key.value);
      if found.Some? && AllColumnsNonNull(found.value) then found else None
  }

  predicate Usable(accounts: map<Id, Account>, org: Id, id: Option<Id>) {
    && id.Some? && id.value in accounts
    && accounts[id.value].org == org && accounts[id.value].status == Active
  }

  /** The part of Usable that nothing ever changes. */
  predicate Named(accounts: map<Id, Account>, org: Id, id: Option<Id>) {
    id.Some? && id.value in accounts && accounts[id.value].org == org
  }

  /** The test after the row lock. A null amount makes the comparison null, hence not true. */
  predicate FundsShort(account: Account, amount: Option<real>) {
    account.kind != CreditLine && amount.Some? && account.balance as real < amount.value
  }

  /** Why the INSERT into transactions fails, if it does: NUMERIC coercion comes first, then
      NOT NULL and CHECK constraints, then the unique indexes. */
  function InsertRefusal(txns: seq<Txn>, req: Request, env: Env): Option<Error> {
    if req.amount.None? then Some(ConstraintViolation)
    else if !Fits(Round(req.amount.value)) then Some(NumericOverflow)
    else if !req.columnsOk || Round(req.amount.value) <= 0 || (req.source.Some? && req.source == req.dest) then
      Some(ConstraintViolation)
    else if exists t :: t in txns && (t.id == env.txnId || (req.key.Some? && t.key == req.key)) then
      Some(UniqueViolation)
    else None
  }

  function NewTxn(req: Request, env: Env): Txn
    requires req.amount.Some?
  {
    Txn(env.txnId, req.org, req.kind, Round(req.amount.value), req.source, req.dest, req.key,
        req.description, Some(env.now), None, None, None, env.user)
  }

  /** Why an UPDATE of a balance fails, if it does: the column's precision, then the
      validate_balance trigger. The column's CHECK has the same bounds as its precision. */
  function UpdateRefusal(account: Account, balance: int): Option<Error> {
    if !Fits(balance) then Some(NumericOverflow)
    else if account.kind != CreditLine && balance < 0 then Some(BalanceRejected)
    else None
  }

  /** What the trigger writes to the audit log for an UPDATE. */
  function BalanceAudit(id: Id, before: int, after: int): seq<Audit> {
    if before == after then [] else [BalanceChange(id, before, after)]
  }

  // ---------- The call as a whole ----------

  /** Why a call that does not return early raises, if it does. */
  function Refusal(db: Database, req: Request, env: Env): Option<Error> {
    if !Usable(db.accounts, req.org, req.source) then Some(SourceNotFound)
    else if req.dest.Some? && !Usable(db.accounts, req.org, req.dest) then Some(DestNotFound)
    else
      var source := db.accounts[req.source.value];
      if FundsShort(source, req.amount) then Some(InsufficientFunds)
      else if InsertRefusal(db.txns, req, env).Some? then InsertRefusal(db.txns, req, env)
      else if UpdateRefusal(source, SourceAfter(db, req)).Some? then
        UpdateRefusal(source, SourceAfter(db, req))
      else if req.dest.Some? then
        UpdateRefusal(db.accounts[req.dest.value], DestAfter(db, req))
      else None
  }

  function SourceAfter(db: Database, req: Request): int
    requires Named(db.accounts, req.org, req.source) && req.amount.Some?
  {
    Round(db.accounts[req.source.value].balance as real - req.amount.value)
  }

  function DestAfter(db: Database, req: Request): int
    requires Named(db.accounts, req.org, req.dest) && req.amount.Some?
  {
    Round(db.accounts[req.dest.value].balance as real + req.amount.value)
  }

  function DebitEntry(db: Database, req: Request, env: Env): Entry
    requires Named(db.accounts, req.org, req.source) && req.amount.Some?
  {
    Entry(env.txnId, req.source.value, Debit, Round(req.amount.value), SourceAfter(db, req))
  }

  function CreditEntry(db: Database, req: Request, env: Env): Entry
    requires Named(db.accounts, req.org, req.dest) && req.amount.Some?
  {
    Entry(env.txnId, req.dest.value, Credit, Round(req.amount.value), DestAfter(db, req))
  }

  /** The rows a call writes when all its statements succeed, in the order it writes them. */
  function Effect(db: Database, req: Request, env: Env): Database
    requires Named(db.accounts, req.org, req.source) && req.amount.Some?
    requires req.dest.Some? ==> Named(db.accounts, req.org, req.dest)
  {
    var s, sOld, sNew := req.source.value, db.accounts[req.source.value], SourceAfter(db, req);
    var accounts := db.accounts[s := sOld.(balance := sNew)];
    var txns := db.txns + [NewTxn(req, env)];
    var ledger := db.ledger + [DebitEntry(db, req, env)];
    var audit := db.audit + BalanceAudit(s, sOld.balance, sNew);
    if req.dest.None? then
      Database(accounts, txns, ledger, audit + [TxnCreated(env.txnId)])
    else
      var d, dOld, dNew := req.dest.value, db.accounts[req.dest.value], DestAfter(db, req);
      Database(accounts[d := dOld.(balance := dNew)], txns, ledger + [CreditEntry(db, req, env)],
               audit + BalanceAudit(d, dOld.balance, dNew) + [TxnCreated(env.txnId)])
  }

  function Posted(db: Database, req: Request, env: Env): Database
    requires Refusal(db, req, env) == None
  {
    Effect(db, req, env)
  }

  /** process_transaction as one atomic step: its outcome and the database it leaves. */
  function Process(db: Database, req: Request, env: Env): (Outcome, Database) {
    if !env.admitted then (Raised(RateLimited), db)
    else if EarlyReturn(db.txns, req).Some? then (Returned(EarlyReturn(db.txns, req).value), db)
    else
      match Refusal(db, req, env)
      case Some(e) => (Raised(e), db)
      case None => (Returned(NewTxn(req, env)), Posted(db, req, env))
  }

  // ---------- The tables, updated in place ----------

  /** The four tables as the function's statements change them. */
  class Store {
    var accounts: map<Id, Account>
    var txns: seq<Txn>
    var ledger: seq<Entry>
    var audit: seq<Audit>

    function Contents(): Database
      reads this
    {
      Database(accounts, txns, ledger, audit)
    }

    constructor (db: Database)
      ensures Contents() == db
    {
      accounts, txns, ledger, audit := db.accounts, db.txns, db.ledger, db.audit;
    }

    /** UPDATE accounts SET balance = ..., with the validate_balance trigger. */
    method UpdateBalance(id: Id, balance: real) returns (error: Option<Error>)
      requires id in accounts
      modifies this`accounts, this`audit
      ensures error == UpdateRefusal(old(accounts[id]), Round(balance))
      ensures error.Some? ==> Contents() == old(Contents())
      ensures error.None? ==>
        && accounts == old(accounts)[id := old(accounts[id]).(balance := Round(balance))]
        && audit == old(audit) + BalanceAudit(id, old(accounts[id].balance), Round(balance))
    {
      var row := accounts[id];
      var stored := Round(balance);
      if !Fits(stored) {
        return Some(NumericOverflow);
      }
      if row.kind != CreditLine && stored < 0 {
        return Some(BalanceRejected);
      }
      if row.balance != stored {
        audit := audit + [BalanceChange(id, row.balance, stored)];
      }
      accounts := accounts[id := row.(balance := stored)];
      return None;
    }

    /** The statements of the function body, in order. A raise stops them where they are. */
    method RunStatements(req: Request, env: Env) returns (outcome: Outcome)
      modifies this
      ensures outcome == Process(old(Contents()), req, env).0
      ensures outcome.Returned? ==> Contents() == Process(old(Contents()), req, env).1
    {
      if !env.admitted {
        return Raised(RateLimited);
      }
      if req.key.Some? {
        var found := FindByKey(txns, req.org, req.key.value);
        if found.Some? && AllColumnsNonNull(found.value) {
          return Returned(found.value);
        }
      }
      if !Usable(accounts, req.org, req.source) {
        return Raised(SourceNotFound);
      }
      if req.dest.Some? && !Usable(accounts, req.org, req.dest) {
        return Raised(DestNotFound);
      }
      var s := req.source.value;
      if FundsShort(accounts[s], req.amount) {
        return Raised(InsufficientFunds);
      }
      var refused := InsertRefusal(txns, req, env);
      if refused.Some? {
        return Raised(refused.value);
      }
      var amount := req.amount.value;
      var txn := NewTxn(req, env);
      txns := txns + [txn];
      var error := UpdateBalance(s, accounts[s].balance as real - amount);
      if error.Some? {
        return Raised(error.value);
      }
      ledger := ledger + [Entry(txn.id, s, Debit, txn.amount, accounts[s].balance)];
      if req.dest.Some? {
        var d := req.dest.value;
        error := UpdateBalance(d, accounts[d].balance as real + amount);
        if error.Some? {
          return Raised(error.value);
        }
        ledger := ledger + [Entry(txn.id, d, Credit, txn.amount, accounts[d].balance)];
      }
      audit := audit + [TxnCreated(txn.id)];
      return Returned(txn);
    }

    /** One call in a database transaction of its own: a raise rolls every row back. */
    method ProcessTransaction(req: Request, env: Env) returns (outcome: Outcome)
      modifies this
      ensures (outcome, Contents()) == Process(old(Contents()), req, env)
      ensures outcome.Raised? ==> Contents() == old(Contents())
    {
      var saved := Contents();
      outcome := RunStatements(req, env);
      if outcome.Raised? {
        accounts, txns, ledger, audit := saved.accounts, saved.txns, saved.ledger, saved.audit;
      }
    }
  }
}
