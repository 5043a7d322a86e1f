/** UserRepositoryImpl.save under optimistic concurrency: any number of clients interleave
    load, mutate and the two database statements of save on one user's row, which is never
    deleted. */
module UserRepository {
  import opened Wrappers
  import opened User

  datatype Row = Row(
    email: string, passwordHash: string, firstName: string, lastName: string,
    status: Status, emailVerified: bool, lastLoginAt: Option<int>, version: int)

  /** EmailTaken is the unique index on email, which other users' rows decide. Unreadable is a
      save that commits but then throws, because a row without a hash cannot be reconstituted. */
  datatype SaveOutcome = Saved(user: Profile) | ConcurrencyConflict | AlreadyExists | EmailTaken | Unreadable

  datatype FindOutcome = Loaded(user: Profile) | NotFound | RowUnreadable

  predicate Readable(row: Row) {
    row.passwordHash != ""
  }

  function ToDomain(row: Row): Profile {
    Profile(row.email, Some(row.passwordHash), row.firstName, row.lastName,
            row.status, row.emailVerified, row.lastLoginAt, row.version)
  }

  /** The UPDATE's data: an unhashed password leaves the stored hash alone. */
  function Updated(row: Row, u: Profile): Row {
    Row(u.email, if u.passwordHash.Some? then u.passwordHash.value else row.passwordHash,
        u.firstName, u.lastName, u.status, u.emailVerified, u.lastLoginAt, u.version)
  }

  function Created(u: Profile): Row {
    Row(u.email, if u.passwordHash.Some? then u.passwordHash.value else "",
        u.firstName, u.lastName, u.status, u.emailVerified, u.lastLoginAt, u.version)
  }

  function ExpectedVersion(u: Profile): int {
    u.version - 1
  }

  function Reconstituted(row: Row): SaveOutcome {
    if Readable(row) then Saved(ToDomain(row)) else Unreadable
  }

  /** The write half of save, once the first query has said whether the row existed. */
  function Write(row: Option<Row>, existed: bool, u: Profile, emailTaken: bool): (SaveOutcome, Option<Row>) {
    if existed then
      if row.None? || row.value.version != ExpectedVersion(u) then (ConcurrencyConflict, row)
      else if emailTaken then (EmailTaken, row)
      else (Reconstituted(Updated(row.value, u)), Some(Updated(row.value, u)))
    else
      if row.Some? then (AlreadyExists, row)
      else if emailTaken then (EmailTaken, row)
      else (Reconstituted(Created(u)), Some(Created(u)))
  }

  /** The entity as a later load should return it: all it was saved with, and the hash that the
      row had before when it carries none. */
  function Stored(u: Profile, held: string): Profile {
    if u.passwordHash.Some? then u else u.(passwordHash := Some(held))
  }

  /** Every outcome of a save, from the row and the entity's version. */
  lemma SaveOutcomes(row: Option<Row>, existed: bool, u: Profile, emailTaken: bool)
    ensures
      var (outcome, after) := Write(row, existed, u, emailTaken);
      var current := row.Some? && row.value.version + 1 == u.version;
      && (outcome.ConcurrencyConflict? <==> existed && !current)
      && (outcome.AlreadyExists? <==> !existed && row.Some?)
      && (outcome.EmailTaken? <==> emailTaken && (if existed then current else row.None?))
      && (outcome.Saved? || outcome.Unreadable? <==> !emailTaken && (if existed then current else row.None?))
      && (!(outcome.Saved? || outcome.Unreadable?) ==> after == row)
  {
  }

  /** A committed save is what the next load reads: column by column the entity's own values, and
      so the entity itself, with the old hash when it carries none. */
  lemma SavedIsReloaded(row: Option<Row>, existed: bool, u: Profile, emailTaken: bool)
    ensures
      var (outcome, after) := Write(row, existed, u, emailTaken);
      outcome.Saved? || outcome.Unreadable? ==>
        var held := if existed && row.Some? then row.value.passwordHash else "";
        && after.Some? && ToDomain(after.value) == Stored(u, held)
        && (outcome.Saved? ==> outcome.user == Stored(u, held))
        && (outcome.Unreadable? <==> Stored(u, held).passwordHash == Some(""))
        && after.value.email == u.email && after.value.status == u.status
        && after.value.firstName == u.firstName && after.value.lastName == u.lastName
        && after.value.emailVerified == u.emailVerified && after.value.lastLoginAt == u.lastLoginAt
        && after.value.version == u.version
        && Some(after.value.passwordHash) == Stored(u, held).passwordHash
  {
  }

  /** One user's row in the users table. */
  class UserTable {
    var row: Option<Row>

    constructor ()
      ensures row == None
    {
      row := None;
    }

    /** findById: the not-found exception when there is no row, a database error when its row
        cannot be reconstituted. */
    method FindById() returns (found: FindOutcome)
      ensures found.NotFound? <==> row.None?
      ensures found.RowUnreadable? <==> row.Some? && !Readable(row.value)
      ensures found.Loaded? ==> found.user == ToDomain(row.value)
    {
      if row.None? {
        return NotFound;
      }
      if row.value.passwordHash == "" {
        return RowUnreadable;
      }
      return Loaded(ToDomain(row.value));
    }

    /** UPDATE ... WHERE id AND version; false when no row matched. */
    method UpdateWhere(version: int, u: Profile) returns (matched: bool)
      modifies this
      ensures matched <==> old(row).Some? && old(row).value.version == version
      ensures row == if matched then Some(Updated(old(row).value, u)) else old(row)
      ensures matched ==> ToDomain(row.value) == Stored(u, old(row).value.passwordHash)
    {
      if row.None? || row.value.version != version {
        return false;
      }
      row := Some(Updated(row.value, u));
      return true;
    }

    /** save with no other client in between. */
    method Save(u: Profile, emailTaken: bool) returns (outcome: SaveOutcome)
      modifies this
      ensures (outcome, row) == Write(old(row), old(row).Some?, u, emailTaken)
      ensures outcome.Saved? ==>
        row.Some? && outcome.user == ToDomain(row.value)
        && outcome.user == Stored(u, if old(row).Some? then old(row).value.passwordHash else "")
    {
      if row.Some? {
        if emailTaken && row.value.version == ExpectedVersion(u) {
          return EmailTaken;
        }
        var matched := UpdateWhere(ExpectedVersion(u), u);
        if !matched {
          return ConcurrencyConflict;
        }
      } else {
        if emailTaken {
          return EmailTaken;
        }
        row := Some(Created(u));
      }
      return if row.value.passwordHash == "" then Unreadable else Saved(ToDomain(row.value));
    }
  }

  // ---------- Clients ----------

  /** A client holds an entity that it loaded from, or created before, row number base of the
      history, and has changed by ops since. In a save it has already asked whether the row
      exists. */
  datatype Client =
    | Empty
    | Holding(user: Profile, base: Option<nat>, ops: seq<Op>)
    | Saving(user: Profile, base: Option<nat>, ops: seq<Op>, existed: bool)

  /** The rows committed so far, oldest first; the last is the row in the table. */
  datatype System = System(history: seq<Row>, clients: seq<Client>)

  /** keep says whether the client goes on with its own object after a save or with the entity
      that save returned. */
  datatype Event =
    | Load(c: nat)
    | New(c: nat, user: Profile)
    | Mutate(c: nat, op: Op)
    | BeginSave(c: nat)
    | FinishSave(c: nat, emailTaken: bool, keep: bool)

  function Current(history: seq<Row>): Option<Row> {
    if history == [] then None else Some(history[|history| - 1])
  }

  function Committed(sys: System, c: nat, emailTaken: bool): Option<Row>
    requires c < |sys.clients| && sys.clients[c].Saving?
  {
    var s := sys.clients[c];
    var (outcome, row) := Write(Current(sys.history), s.existed, s.user, emailTaken);
    if outcome.Saved? || outcome.Unreadable? then row else None
  }

  function Next(sys: System, e: Event): System {
    if e.c >= |sys.clients| then sys
    else
      var s := sys.clients[e.c];
      match e
      case Load(c) =>
        var row := Current(sys.history);
        if row.Some? && Readable(row.value) then
          sys.(clients := sys.clients[c := Holding(ToDomain(row.value), Some(|sys.history| - 1), [])])
        else sys
      case New(c, user) => sys.(clients := sys.clients[c := Holding(user, None, [])])
      case Mutate(c, op) =>
        if !s.Holding? then sys
        else
          var r := Apply(s.user, op);
          if r.Threw? || r.user == s.user then sys
          else sys.(clients := sys.clients[c := Holding(r.user, s.base, s.ops + [op])])
      case BeginSave(c) =>
        if !s.Holding? then sys
        else sys.(clients := sys.clients[c := Saving(s.user, s.base, s.ops, sys.history != [])])
      case FinishSave(c, emailTaken, keep) =>
        if !s.Saving? then sys
        else
          var row := Committed(sys, c, emailTaken);
          if row.None? then sys.(clients := sys.clients[c := Holding(s.user, s.base, s.ops)])
          else
            System(sys.history + [row.value],
                   sys.clients[c := if keep || !Readable(row.value)
                                    then Holding(s.user, if s.existed then s.base else Some(0),
                                                 if s.existed then s.ops else [])
                                    else Holding(ToDomain(row.value), Some(|sys.history|), [])])
  }

  function Run(clients: nat, events: seq<Event>): System {
    if events == [] then System([], seq(clients, _ => Empty))
    else Next(Run(clients, events[..|events| - 1]), events[|events| - 1])
  }

  // ---------- Versions number the committed rows ----------

  /** The entity is its base row changed by ops, each of which raised the version by one. */
  predicate Derived(history: seq<Row>, user: Profile, base: Option<nat>, ops: seq<Op>) {
    base.Some? ==>
      && base.value < |history|
      && user.version == history[base.value].version + |ops|
      && (Readable(history[base.value]) ==> user == After(ToDomain(history[base.value]), ops))
  }

  predicate ClientInv(history: seq<Row>, c: Client) {
    && (c.Holding? ==> Derived(history, c.user, c.base, c.ops))
    && (c.Saving? ==> Derived(history, c.user, c.base, c.ops) && (c.existed ==> history != []))
  }

  predicate Inv(sys: System) {
    && (forall k :: 0 <= k < |sys.history| ==> sys.history[k].version == sys.history[0].version + k)
    && (forall c :: 0 <= c < |sys.clients| ==> ClientInv(sys.history, sys.clients[c]))
  }

  lemma AfterAppend(u: Profile, ops: seq<Op>, op: Op)
    ensures After(u, ops + [op]) ==
      var r := Apply(After(u, ops), op);
      if r.Done? then r.user else After(u, ops)
  {
  }

  lemma StepKeepsInv(sys: System, e: Event)
    requires Inv(sys)
    ensures Inv(Next(sys, e))
  {
    if e.c < |sys.clients| {
      var s := sys.clients[e.c];
      assert ClientInv(sys.history, s);
      if e.Mutate? && s.Holding? {
        VersionTracksChange(s.user, e.op);
        if s.base.Some? {
          AfterAppend(ToDomain(sys.history[s.base.value]), s.ops, e.op);
        }
      } else if e.FinishSave? && s.Saving? && Committed(sys, e.c, e.emailTaken).Some? {
        CommitKeepsInv(sys, e);
      }
    }
  }

  lemma CommitKeepsInv(sys: System, e: Event)
    requires Inv(sys) && e.c < |sys.clients| && sys.clients[e.c].Saving? && e.FinishSave?
    requires Committed(sys, e.c, e.emailTaken).Some?
    ensures Inv(Next(sys, e))
  {
    var s, row := sys.clients[e.c], Committed(sys, e.c, e.emailTaken).value;
    var after := Next(sys, e);
    assert ClientInv(sys.history, s);
    assert after.history == sys.history + [row];
    forall c | 0 <= c < |after.clients|
      ensures ClientInv(after.history, after.clients[c])
    {
      assert ClientInv(sys.history, sys.clients[c]);
    }
  }

  lemma {:induction false} RunKeepsInv(clients: nat, events: seq<Event>)
    ensures Inv(Run(clients, events))
  {
    if events != [] {
      RunKeepsInv(clients, events[..|events| - 1]);
      StepKeepsInv(Run(clients, events[..|events| - 1]), events[|events| - 1]);
    }
  }

  // ---------- What an update overwrites ----------

  /** In any interleaving: an update commits if and only if the number of rows committed since
      the client's base is one less than the number of its mutations. It then raises the
      version by one and writes the base changed by those mutations. So it is computed from the
      row it overwrites exactly when there was one mutation; with more it overwrites as many
      commits of others as there were mutations beyond the first, and with none it never
      commits. */
  lemma UpdateCommitsExactlyWhen(clients: nat, events: seq<Event>, c: nat)
    requires var sys := Run(clients, events);
      c < |sys.clients| && sys.clients[c].Saving? && sys.clients[c].existed && sys.clients[c].base.Some?
    ensures
      var sys := Run(clients, events);
      var s, rows := sys.clients[c], |sys.history|;
      var base, row := s.base.value, Committed(sys, c, false);
      && base < rows
      && (row.Some? <==> rows - 1 - base == |s.ops| - 1)
      && (row.Some? ==>
            && row.value.version == sys.history[rows - 1].version + 1
            && (base == rows - 1 <==> |s.ops| == 1)
            && (Readable(sys.history[base]) ==>
                  && row.value == Updated(sys.history[rows - 1], After(ToDomain(sys.history[base]), s.ops))
                  && ToDomain(row.value)
                       == Stored(After(ToDomain(sys.history[base]), s.ops), sys.history[rows - 1].passwordHash)))
  {
    RunKeepsInv(clients, events);
    var sys := Run(clients, events);
    assert ClientInv(sys.history, sys.clients[c]);
  }

  /** With the one mutation that the version guard is made for, no committed row is lost: the new
      row is the one it overwrites, changed by that mutation. */
  lemma OneMutationLosesNothing(clients: nat, events: seq<Event>, c: nat)
    requires var sys := Run(clients, events);
      c < |sys.clients| && sys.clients[c].Saving? && sys.clients[c].existed && sys.clients[c].base.Some?
      && |sys.clients[c].ops| == 1
    ensures
      var sys := Run(clients, events);
      sys.history != [] &&
      var s, last := sys.clients[c], sys.history[|sys.history| - 1];
      var row := Committed(sys, c, false);
      row.Some? && Readable(last) ==>
        && Apply(ToDomain(last), s.ops[0]).Done?
        && row.value == Updated(last, Apply(ToDomain(last), s.ops[0]).user)
        && ToDomain(row.value) == Stored(Apply(ToDomain(last), s.ops[0]).user, last.passwordHash)
        && row.value.version == last.version + 1
  {
    UpdateCommitsExactlyWhen(clients, events, c);
    RunKeepsInv(clients, events);
    var sys := Run(clients, events);
    var s := sys.clients[c];
    assert ClientInv(sys.history, s);
    var base := sys.history[s.base.value];
    assert s.ops == [s.ops[0]] && s.ops[..0] == [];
    assert After(ToDomain(base), []) == ToDomain(base);
    assert s.user.version == base.version + 1;
  }

  /** In any state: when a client's save commits a readable row, another client's load that follows
      holds the saved entity, based on the new row. */
  lemma ReloadReturnsTheSaved(sys: System, c: nat, d: nat, emailTaken: bool, keep: bool)
    requires c < |sys.clients| && d < |sys.clients| && sys.clients[c].Saving?
    requires Committed(sys, c, emailTaken).Some? && Readable(Committed(sys, c, emailTaken).value)
    ensures
      var s := sys.clients[c];
      var held := if s.existed && sys.history != [] then sys.history[|sys.history| - 1].passwordHash else "";
      Next(Next(sys, FinishSave(c, emailTaken, keep)), Load(d)).clients[d]
        == Holding(Stored(s.user, held), Some(|sys.history|), [])
  {
    var s := sys.clients[c];
    SavedIsReloaded(Current(sys.history), s.existed, s.user, emailTaken);
  }

  /** What the client goes on with after a save that commits: the entity the save returned, or, when
      it keeps its own object or the returned row was unreadable, that object with the base and
      the mutations it had; and after one that does not, its own object as it was. */
  lemma GoesOnWith(sys: System, c: nat, emailTaken: bool, keep: bool)
    requires c < |sys.clients| && sys.clients[c].Saving?
    ensures
      var s, after := sys.clients[c], Next(sys, FinishSave(c, emailTaken, keep));
      var (outcome, row) := Write(Current(sys.history), s.existed, s.user, emailTaken);
      && after.clients[c].Holding?
      && after.clients[c].user == (if outcome.Saved? && !keep then outcome.user else s.user)
      && after.history == (if outcome.Saved? || outcome.Unreadable? then sys.history + [row.value] else sys.history)
      && (!(outcome.Saved? || outcome.Unreadable?) || (s.existed && (keep || outcome.Unreadable?)) ==>
            after.clients[c].base == s.base && after.clients[c].ops == s.ops)
      && (!s.existed && (outcome.Unreadable? || (outcome.Saved? && keep)) ==>
            after.clients[c].base == Some(0) && after.clients[c].ops == [])
      && (outcome.Saved? && !keep ==> after.clients[c].base == Some(|sys.history|) && after.clients[c].ops == [])
  {
  }

  /** A pending user who verifies the email can log in once the entity is saved and loaded by
      anyone. */
  lemma VerifiedUserCanLogIn(sys: System, c: nat, d: nat)
    requires c < |sys.clients| && d < |sys.clients| && sys.history != []
    requires var last := sys.history[|sys.history| - 1];
      && Readable(last) && last.status == PendingVerification && !last.emailVerified
      && sys.clients[c] == Holding(ToDomain(last), Some(|sys.history| - 1), [])
    ensures
      var saved := SaveNow(Next(sys, Mutate(c, VerifyEmail)), c);
      var after := Next(saved, Load(d));
      && |saved.history| == |sys.history| + 1
      && after.clients[d].Holding? && CanLogin(after.clients[d].user)
      && after.clients[d].user.email == sys.history[|sys.history| - 1].email
  {
    var last, verified := sys.history[|sys.history| - 1], Next(sys, Mutate(c, VerifyEmail));
    assert verified.clients[c] == Holding(Apply(ToDomain(last), VerifyEmail).user, Some(|sys.history| - 1), [VerifyEmail]);
    var saving := Next(verified, BeginSave(c));
    assert saving.clients[c].Saving? && saving.clients[c].existed && saving.history == sys.history;
    ReloadReturnsTheSaved(saving, c, d, false, false);
  }

  function SaveNow(sys: System, c: nat): System {
    Next(Next(sys, BeginSave(c)), FinishSave(c, false, false))
  }

  lemma SaveNowCommits(sys: System, c: nat)
    requires c < |sys.clients| && sys.clients[c].Holding? && sys.history != []
    requires sys.history[|sys.history| - 1].version == ExpectedVersion(sys.clients[c].user)
    ensures var after := SaveNow(sys, c);
      && after.history == sys.history + [Updated(sys.history[|sys.history| - 1], sys.clients[c].user)]
      && |after.clients| == |sys.clients|
      && (forall d :: 0 <= d < |sys.clients| && d != c ==> after.clients[d] == sys.clients[d])
  {
  }

  /** Two mutations are enough to lose another client's committed save. From any state in which
      two clients hold the entity loaded from the current row of an active user: b deactivates
      and saves, then a saves after recording two logins; both saves commit, and the user is
      active again though a never saw the deactivation. */
  lemma TwoMutationsLoseAnUpdate(sys: System, a: nat, b: nat)
    requires a < |sys.clients| && b < |sys.clients| && a != b && sys.history != []
    requires var last := sys.history[|sys.history| - 1];
      && last.status == Active
      && sys.clients[a] == sys.clients[b] == Holding(ToDomain(last), Some(|sys.history| - 1), [])
    ensures
      var n := |sys.history|;
      var mutated := Next(Next(Next(sys, Mutate(a, RecordLogin(5))), Mutate(a, RecordLogin(6))), Mutate(b, Deactivate));
      var savedB := SaveNow(mutated, b);
      var savedA := SaveNow(savedB, a);
      && |savedB.history| == n + 1 && savedB.history[n].status == Inactive
      && |savedA.history| == n + 2 && savedA.history[n + 1].status == Active
      && savedA.history[n + 1].version == savedB.history[n].version + 1
  {
    var u := sys.clients[a].user;
    var s1 := Next(sys, Mutate(a, RecordLogin(5)));
    assert s1.clients[a].Holding? && s1.clients[a].user == Apply(u, RecordLogin(5)).user && s1.clients[b] == sys.clients[b];
    var s2 := Next(s1, Mutate(a, RecordLogin(6)));
    assert s2.clients[a].Holding? && s2.clients[a].user.version == u.version + 2
        && s2.clients[a].user.status == Active && s2.clients[b] == sys.clients[b];
    var mutated := Next(s2, Mutate(b, Deactivate));
    assert mutated.clients[a] == s2.clients[a] && mutated.history == sys.history;
    assert mutated.clients[b].Holding? && mutated.clients[b].user == Apply(u, Deactivate).user;
    SaveNowCommits(mutated, b);
    SaveNowCommits(SaveNow(mutated, b), a);
  }

  /** Such a state is reached when a saves a new active user and both load it. */
  lemma LoadedTwiceIsReached(clients: nat, a: nat, b: nat, u: Profile)
    requires a < clients && b < clients && a != b
    requires u.status == Active && u.passwordHash.Some? && u.passwordHash.value != ""
    ensures
      var sys := Run(clients, [New(a, u), BeginSave(a), FinishSave(a, false, false), Load(a), Load(b)]);
      && sys.history == [Created(u)] && |sys.clients| == clients
      && sys.clients[a] == sys.clients[b] == Holding(ToDomain(Created(u)), Some(0), [])
  {
    var events := [New(a, u), BeginSave(a), FinishSave(a, false, false), Load(a), Load(b)];
    assert events[..4][..3] == [New(a, u), BeginSave(a), FinishSave(a, false, false)];
    assert events[..4][..3][..2] == [New(a, u), BeginSave(a)] && events[..4][..3][..2][..1] == [New(a, u)];
    assert [New(a, u)][..0] == [];
    var s0 := Run(clients, []);
    var s1 := Next(s0, New(a, u));
    assert Run(clients, [New(a, u)]) == s1;
    var s2 := Next(s1, BeginSave(a));
    assert Run(clients, events[..4][..3][..2]) == s2 && s2.clients[a] == Saving(u, None, [], false);
    var s3 := Next(s2, FinishSave(a, false, false));
    assert Run(clients, events[..4][..3]) == s3 && s3.history == [Created(u)];
    var s4 := Next(s3, Load(a));
    assert Run(clients, events[..4]) == s4;
  }
}
