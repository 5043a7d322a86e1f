/** The User entity: its mutating methods, the version they raise and the events they emit.
    Email addresses stand for their normalized value. */
module User {
  import opened Wrappers

  datatype Status = Active | Inactive | Suspended | PendingVerification

  datatype Profile = Profile(
    email: string, passwordHash: Option<string>, firstName: string, lastName: string,
    status: Status, emailVerified: bool, lastLoginAt: Option<int>, version: int)

  datatype StatusChanged = StatusChanged(before: Status, after: Status)

  datatype Op =
    | Activate
    | Suspend
    | Deactivate
    | VerifyEmail
    | RecordLogin(now: int)
    | ChangeEmail(email: string)
    | ChangePassword(passwordHash: Option<string>)
    | UpdateProfile(firstName: string, lastName: string)

  datatype Error = IsSuspended | AlreadySuspended | AlreadyVerified | NotActive | InvalidName

  datatype Result = Threw(error: Error) | Done(user: Profile, emitted: seq<StatusChanged>)

  // White space and line terminators, as String.prototype.trim removes them
  predicate IsSpace(c: char) {
    || c in "\t\n\r \U{000b}\U{000c}\U{00a0}\U{1680}\U{2028}\U{2029}\U{202f}\U{205f}\U{3000}\U{feff}"
    || '\U{2000}' <= c <= '\U{200a}'
  }

  function TrimStart(s: string): string {
    if s != "" && IsSpace(s[0]) then TrimStart(s[1..]) else s
  }

  function TrimEnd(s: string): string {
    if s != "" && IsSpace(s[|s| - 1]) then TrimEnd(s[..|s| - 1]) else s
  }

  function Trim(s: string): string {
    TrimEnd(TrimStart(s))
  }

  predicate ValidName(name: string) {
    1 <= |Trim(name)| <= 100
  }

  function WithStatus(u: Profile, status: Status): Result {
    Done(u.(status := status, version := u.version + 1), [StatusChanged(u.status, status)])
  }

  function Apply(u: Profile, op: Op): Result {
    match op
    case Activate =>
      if u.status == Status.Suspended then Threw(IsSuspended)
      else if u.status == Active then Done(u, [])
      else WithStatus(u, Active)
    case Suspend =>
      if u.status == Suspended then Threw(AlreadySuspended) else WithStatus(u, Suspended)
    case Deactivate =>
      if u.status == Inactive then Done(u, []) else WithStatus(u, Inactive)
    case VerifyEmail =>
      if u.emailVerified then Threw(AlreadyVerified)
      else
        var verified := u.(emailVerified := true);
        if u.status == PendingVerification then WithStatus(verified, Active)
        else Done(verified.(version := u.version + 1), [])
    case RecordLogin(now) =>
      if u.status != Active then Threw(NotActive)
      else Done(u.(lastLoginAt := Some(now), version := u.version + 1), [])
    case ChangeEmail(email) =>
      if u.email == email then Done(u, [])
      else
        Done(u.(email := email, emailVerified := false, status := PendingVerification, version := u.version + 1), [])
    case ChangePassword(hash) => Done(u.(passwordHash := hash, version := u.version + 1), [])
    case UpdateProfile(first, last) =>
      if !ValidName(first) || !ValidName(last) then Threw(InvalidName)
      else Done(u.(firstName := Trim(first), lastName := Trim(last), version := u.version + 1), [])
  }

  predicate CanLogin(u: Profile) {
    u.status == Active && u.emailVerified
  }

  /** The entity, with its pending domain events. */
  class UserEntity {
    var email: string
    var passwordHash: Option<string>
    var firstName: string
    var lastName: string
    var status: Status
    var emailVerified: bool
    var lastLoginAt: Option<int>
    var version: int
    var domainEvents: seq<StatusChanged>

    function View(): Profile
      reads this
    {
      Profile(email, passwordHash, firstName, lastName, status, emailVerified, lastLoginAt, version)
    }

    /** What a call leaves behind: on a throw the entity as it was. */
    twostate predicate Performed(op: Op, new error: Option<Error>)
      reads this
    {
      match Apply(old(View()), op)
      case Threw(e) => error == Some(e) && View() == old(View()) && domainEvents == old(domainEvents)
      case Done(u, emitted) => error.None? && View() == u && domainEvents == old(domainEvents) + emitted
    }

    constructor Reconstitute(u: Profile)
      ensures View() == u && domainEvents == []
    {
      email, passwordHash, firstName, lastName := u.email, u.passwordHash, u.firstName, u.lastName;
      status, emailVerified, lastLoginAt, version := u.status, u.emailVerified, u.lastLoginAt, u.version;
      domainEvents := [];
    }

    method ChangeStatus(to: Status)
      modifies this`status, this`version, this`domainEvents
      ensures status == to && version == old(version) + 1
      ensures domainEvents == old(domainEvents) + [StatusChanged(old(status), to)]
    {
      var previousStatus := status;
      status := to;
      version := version + 1;
      domainEvents := domainEvents + [StatusChanged(previousStatus, to)];
    }

    method Activate() returns (error: Option<Error>)
      modifies this
      ensures Performed(Op.Activate, error)
    {
      if status == Suspended {
        return Some(IsSuspended);
      }
      if status == Active {
        return None;
      }
      ChangeStatus(Active);
      return None;
    }

    method Suspend() returns (error: Option<Error>)
      modifies this
      ensures Performed(Op.Suspend, error)
    {
      if status == Suspended {
        return Some(AlreadySuspended);
      }
      ChangeStatus(Suspended);
      return None;
    }

    method Deactivate() returns (error: Option<Error>)
      modifies this
      ensures Performed(Op.Deactivate, error)
    {
      if status == Inactive {
        return None;
      }
      ChangeStatus(Inactive);
      return None;
    }

    method VerifyEmail() returns (error: Option<Error>)
      modifies this
      ensures Performed(Op.VerifyEmail, error)
    {
      if emailVerified {
        return Some(AlreadyVerified);
      }
      emailVerified := true;
      version := version + 1;
      if status == PendingVerification {
        var previousStatus := status;
        status := Active;
        domainEvents := domainEvents + [StatusChanged(previousStatus, Active)];
      }
      return None;
    }

    method RecordLogin(now: int) returns (error: Option<Error>)
      modifies this
      ensures Performed(Op.RecordLogin(now), error)
    {
      if status != Active {
        return Some(NotActive);
      }
      lastLoginAt := Some(now);
      version := version + 1;
      return None;
    }

    method ChangeEmail(newEmail: string) returns (error: Option<Error>)
      modifies this
      ensures Performed(Op.ChangeEmail(newEmail), error)
    {
      if email == newEmail {
        return None;
      }
      email := newEmail;
      emailVerified := false;
      status := PendingVerification;
      version := version + 1;
      return None;
    }

    method ChangePassword(newHash: Option<string>) returns (error: Option<Error>)
      modifies this
      ensures Performed(Op.ChangePassword(newHash), error)
    {
      passwordHash := newHash;
      version := version + 1;
      return None;
    }

    method UpdateProfile(first: string, last: string) returns (error: Option<Error>)
      modifies this
      ensures Performed(Op.UpdateProfile(first, last), error)
    {
      if !ValidName(first) || !ValidName(last) {
        return Some(InvalidName);
      }
      firstName := Trim(first);
      lastName := Trim(last);
      version := version + 1;
      return None;
    }
  }

  // ---------- Data ----------

  /** White space, by code point: tab to carriage return, space, no-break space, the Unicode space
      separators, the two line separators and the byte order mark. */
  lemma SpacesByCodePoint(c: char)
    ensures IsSpace(c) <==>
      var n := c as int;
      || 9 <= n <= 13 || n == 32 || n == 160 || n == 5760 || 8192 <= n <= 8202
      || n == 8232 || n == 8233 || n == 8239 || n == 8287 || n == 12288 || n == 65279
  {
  }

  lemma {:induction false} TrimStartTakes(s: string) returns (n: nat)
    ensures n <= |s| && TrimStart(s) == s[n..] && forall i :: 0 <= i < n ==> IsSpace(s[i])
    ensures n < |s| ==> !IsSpace(s[n])
  {
    if s != "" && IsSpace(s[0]) {
      var m := TrimStartTakes(s[1..]);
      n := m + 1;
      assert s[1..][m..] == s[n..];
      assert forall i :: 1 <= i < |s| ==> s[i] == s[1..][i - 1];
    } else {
      n := 0;
    }
  }

  lemma {:induction false} TrimEndTakes(s: string) returns (n: nat)
    ensures n <= |s| && TrimEnd(s) == s[..n] && forall i :: n <= i < |s| ==> IsSpace(s[i])
    ensures n > 0 ==> !IsSpace(s[n - 1])
  {
    if s != "" && IsSpace(s[|s| - 1]) {
      n := TrimEndTakes(s[..|s| - 1]);
      assert s[..|s| - 1][..n] == s[..n];
      assert forall i :: n <= i < |s| - 1 ==> s[i] == s[..|s| - 1][i];
    } else {
      n := |s|;
    }
  }

  /** Trimming takes white space off both ends, all of it, and nothing else. */
  lemma TrimTakesOnlySpaces(s: string) returns (m: nat, n: nat)
    ensures m <= n <= |s| && Trim(s) == s[m..n]
    ensures forall i :: (0 <= i < m || n <= i < |s|) ==> IsSpace(s[i])
    ensures m < n ==> !IsSpace(s[m]) && !IsSpace(s[n - 1])
  {
    m := TrimStartTakes(s);
    var t := TrimStart(s);
    var k := TrimEndTakes(t);
    n := m + k;
    assert forall i :: m <= i < |s| ==> s[i] == t[i - m];
    assert t[..k] == s[m..n];
  }

  lemma DataStep(v: Profile, op: Op)
    ensures
      var w := Effect(v, op);
      && w.email == (if op.ChangeEmail? then op.email else v.email)
      && w.passwordHash == (if op.ChangePassword? then op.passwordHash else v.passwordHash)
      && (w.firstName, w.lastName) ==
           (if op.UpdateProfile? && Apply(v, op).Done? then (Trim(op.firstName), Trim(op.lastName))
            else (v.firstName, v.lastName))
      && w.lastLoginAt == (if op.RecordLogin? && Apply(v, op).Done? then Some(op.now) else v.lastLoginAt)
  {
  }

  /** In any run each datum is what the last call that set it gave, whatever other calls came
      between and whether they threw: the address, the password hash, the names, the last login. */
  lemma {:induction false} LastWriteWins(vs: seq<Profile>, ops: seq<Op>, i: nat, n: nat)
    requires IsRun(vs, ops) && i < n <= |ops| && Apply(vs[i], ops[i]).Done?
    ensures ops[i].ChangeEmail? && (forall k :: i < k < n ==> !ops[k].ChangeEmail?) ==> vs[n].email == ops[i].email
    ensures ops[i].ChangePassword? && (forall k :: i < k < n ==> !ops[k].ChangePassword?) ==>
      vs[n].passwordHash == ops[i].passwordHash
    ensures ops[i].UpdateProfile? && (forall k :: i < k < n ==> !ops[k].UpdateProfile?) ==>
      vs[n].firstName == Trim(ops[i].firstName) && vs[n].lastName == Trim(ops[i].lastName)
    ensures ops[i].RecordLogin? && (forall k :: i < k < n ==> !ops[k].RecordLogin?) ==>
      vs[n].lastLoginAt == Some(ops[i].now)
  {
    assert vs[n - 1 + 1] == Effect(vs[n - 1], ops[n - 1]);
    DataStep(vs[n - 1], ops[n - 1]);
    if i < n - 1 {
      LastWriteWins(vs, ops, i, n - 1);
    }
  }

  /** And a datum that no call sets stays as it was. */
  lemma {:induction false} UnsetStays(vs: seq<Profile>, ops: seq<Op>, n: nat)
    requires IsRun(vs, ops) && n <= |ops|
    ensures (forall k :: 0 <= k < n ==> !ops[k].ChangeEmail?) ==> vs[n].email == vs[0].email
    ensures (forall k :: 0 <= k < n ==> !ops[k].ChangePassword?) ==> vs[n].passwordHash == vs[0].passwordHash
    ensures (forall k :: 0 <= k < n ==> !ops[k].UpdateProfile?) ==>
      vs[n].firstName == vs[0].firstName && vs[n].lastName == vs[0].lastName
    ensures (forall k :: 0 <= k < n ==> !ops[k].RecordLogin?) ==> vs[n].lastLoginAt == vs[0].lastLoginAt
  {
    if n > 0 {
      UnsetStays(vs, ops, n - 1);
      assert vs[n - 1 + 1] == Effect(vs[n - 1], ops[n - 1]);
      DataStep(vs[n - 1], ops[n - 1]);
    }
  }

  /** None of the calls from i to n - 1 changed the address. */
  predicate Unmoved(vs: seq<Profile>, i: nat, n: nat)
    requires n < |vs|
  {
    forall k :: i <= k < n ==> vs[k + 1].email == vs[k].email
  }

  predicate VerifiedBetween(vs: seq<Profile>, ops: seq<Op>, n: nat)
    requires n <= |ops| < |vs|
  {
    exists i :: 0 <= i < n && ops[i].VerifyEmail? && Unmoved(vs, i + 1, n)
  }

  /** In any run the email counts as verified exactly when it was verified at first and never
      changed, or verified by a call with no change after it. */
  lemma {:induction false} VerifiedSinceTheLastChange(vs: seq<Profile>, ops: seq<Op>, n: nat)
    requires IsRun(vs, ops) && n <= |ops|
    ensures vs[n].emailVerified <==> (vs[0].emailVerified && Unmoved(vs, 0, n)) || VerifiedBetween(vs, ops, n)
  {
    if n > 0 {
      VerifiedSinceTheLastChange(vs, ops, n - 1);
      assert vs[n - 1 + 1] == Effect(vs[n - 1], ops[n - 1]);
      VerifiedStep(vs[n - 1], ops[n - 1]);
      VerifiedGrows(vs, ops, n - 1);
    }
  }

  lemma VerifiedGrows(vs: seq<Profile>, ops: seq<Op>, n: nat)
    requires n < |ops| < |vs|
    ensures Unmoved(vs, 0, n + 1) <==> Unmoved(vs, 0, n) && vs[n + 1].email == vs[n].email
    ensures VerifiedBetween(vs, ops, n + 1) <==>
      ops[n].VerifyEmail? || (VerifiedBetween(vs, ops, n) && vs[n + 1].email == vs[n].email)
  {
    if ops[n].VerifyEmail? {
      assert Unmoved(vs, n + 1, n + 1);
    }
    if VerifiedBetween(vs, ops, n) && vs[n + 1].email == vs[n].email {
      var i :| 0 <= i < n && ops[i].VerifyEmail? && Unmoved(vs, i + 1, n);
      assert Unmoved(vs, i + 1, n + 1);
    }
    if VerifiedBetween(vs, ops, n + 1) && !ops[n].VerifyEmail? {
      var i :| 0 <= i < n + 1 && ops[i].VerifyEmail? && Unmoved(vs, i + 1, n + 1);
      assert Unmoved(vs, i + 1, n);
    }
  }

  lemma VerifiedStep(v: Profile, op: Op)
    ensures Effect(v, op).emailVerified <==> op.VerifyEmail? || (v.emailVerified && Effect(v, op).email == v.email)
    ensures op.VerifyEmail? ==> Effect(v, op).email == v.email
  {
  }

  /** When a call throws, and with what. */
  lemma ThrowsExactlyWhen(u: Profile, op: Op)
    ensures Apply(u, op) == Threw(IsSuspended) <==> op == Activate && u.status == Suspended
    ensures Apply(u, op) == Threw(AlreadySuspended) <==> op == Suspend && u.status == Suspended
    ensures Apply(u, op) == Threw(AlreadyVerified) <==> op == VerifyEmail && u.emailVerified
    ensures Apply(u, op) == Threw(NotActive) <==> op.RecordLogin? && u.status != Active
    ensures Apply(u, op) == Threw(InvalidName) <==>
      op.UpdateProfile? && !(1 <= |Trim(op.firstName)| <= 100 && 1 <= |Trim(op.lastName)| <= 100)
  {
  }

  // ---------- Versions ----------

  /** A method that returns raises the version by exactly one, or changes nothing at all. */
  lemma VersionTracksChange(u: Profile, op: Op)
    ensures var r := Apply(u, op);
      r.Done? ==>
        && (r.user.version == u.version || r.user.version == u.version + 1)
        && (r.user == u <==> r.user.version == u.version)
  {
  }

  // ---------- Events ----------

  /** A change of address that resets the status of v, silently. */
  predicate Moves(v: Profile, op: Op) {
    op.ChangeEmail? && op.email != v.email && v.status != PendingVerification
  }

  /** The source promises an event at every change of status. That holds except for ChangeEmail
      to another address by a user who is not already pending verification. */
  lemma StatusChangeIsAnnounced(u: Profile, op: Op)
    requires Apply(u, op).Done?
    ensures var r := Apply(u, op);
      (r.emitted == if r.user.status == u.status then [] else [StatusChanged(u.status, r.user.status)])
      <==> !Moves(u, op)
  {
  }

  /** What a call leaves behind; a call that throws leaves the entity as it was. */
  function Effect(v: Profile, op: Op): Profile {
    var r := Apply(v, op);
    if r.Done? then r.user else v
  }

  function After(u: Profile, ops: seq<Op>): Profile {
    if ops == [] then u else Effect(After(u, ops[..|ops| - 1]), ops[|ops| - 1])
  }

  function EventsOf(u: Profile, ops: seq<Op>): seq<StatusChanged> {
    if ops == [] then []
    else
      var before, r := ops[..|ops| - 1], Apply(After(u, ops[..|ops| - 1]), ops[|ops| - 1]);
      EventsOf(u, before) + if r.Done? then r.emitted else []
  }

  /** Where a chain of status events leads; nothing when one does not start where the one before
      it ended. */
  function Trail(events: seq<StatusChanged>, from: Status): Option<Status> {
    if events == [] then Some(from)
    else
      var last := events[|events| - 1];
      if Trail(events[..|events| - 1], from) == Some(last.before) && last.before != last.after then
        Some(last.after)
      else None
  }

  /** Some call was such a change of address. */
  predicate MovesEmail(u: Profile, ops: seq<Op>) {
    ops != [] &&
    var before := ops[..|ops| - 1];
    MovesEmail(u, before) || Moves(After(u, before), ops[|ops| - 1])
  }

  /** The chain cannot mend: it is broken, or ends in another status than a user whose email moved
      silently now has. */
  predicate OffTrail(status: Status, trail: Option<Status>) {
    trail.None? || (status == PendingVerification && trail != Some(PendingVerification))
  }

  lemma TrailGrows(events: seq<StatusChanged>, e: StatusChanged, from: Status)
    ensures Trail(events + [], from) == Trail(events, from)
    ensures Trail(events + [e], from) ==
      if Trail(events, from) == Some(e.before) && e.before != e.after then Some(e.after) else None
  {
    assert events + [] == events && (events + [e])[..|events|] == events;
  }

  lemma StepTrail(v: Profile, op: Op, events: seq<StatusChanged>, from: Status)
    ensures
      var r := Apply(v, op);
      var w, trail := if r.Done? then r.user else v,
                      Trail(events + if r.Done? then r.emitted else [], from);
      && (Trail(events, from) == Some(v.status) && !Moves(v, op) ==> trail == Some(w.status))
      && (Trail(events, from) == Some(v.status) && Moves(v, op) ==> OffTrail(w.status, trail))
      && (OffTrail(v.status, Trail(events, from)) ==> OffTrail(w.status, trail))
  {
    var r := Apply(v, op);
    TrailGrows(events, if r.Done? && r.emitted != [] then r.emitted[0] else StatusChanged(Active, Active), from);
  }

  lemma {:induction false} TrailFollows(u: Profile, ops: seq<Op>)
    ensures
      var trail, status := Trail(EventsOf(u, ops), u.status), After(u, ops).status;
      if MovesEmail(u, ops) then OffTrail(status, trail) else trail == Some(status)
  {
    if ops != [] {
      var n := |ops| - 1;
      TrailFollows(u, ops[..n]);
      StepTrail(After(u, ops[..n]), ops[n], EventsOf(u, ops[..n]), u.status);
    }
  }

  /** Over any sequence of calls, throwing ones included, the emitted events chain from the first
      status to the last if and only if no call moved the email silently: one such call, and no
      later event can make the chain right again. */
  lemma EventsReplayTheStatus(u: Profile, ops: seq<Op>)
    ensures Trail(EventsOf(u, ops), u.status) == Some(After(u, ops).status) <==> !MovesEmail(u, ops)
  {
    TrailFollows(u, ops);
  }

  // ---------- Rules over sequences of calls ----------

  /** After a change of address no sequence of calls lets the user log in again until the email
      is verified. */
  lemma {:induction false} NewEmailNeedsVerification(u: Profile, email: string, ops: seq<Op>)
    requires email != u.email
    requires forall i :: 0 <= i < |ops| ==> ops[i] != VerifyEmail
    ensures !After(Apply(u, ChangeEmail(email)).user, ops).emailVerified
    ensures !CanLogin(After(Apply(u, ChangeEmail(email)).user, ops))
  {
    if ops != [] {
      NewEmailNeedsVerification(u, email, ops[..|ops| - 1]);
    }
  }

  /** The call takes a suspended user out of suspension. */
  predicate Leaves(v: Profile, op: Op) {
    v.status == Suspended && (op.Deactivate? || (op.ChangeEmail? && op.email != v.email))
  }

  /** The call makes a user active who is inactive or pending verification. */
  predicate Readmits(v: Profile, op: Op) {
    || (op.Activate? && v.status in {Inactive, PendingVerification})
    || (op.VerifyEmail? && v.status == PendingVerification && !v.emailVerified)
  }

  /** The call takes an active user out of that status. */
  predicate Departs(v: Profile, op: Op) {
    op.Suspend? || op.Deactivate? || (op.ChangeEmail? && op.email != v.email)
  }

  /** The entity before each call and after the last. */
  predicate IsRun(vs: seq<Profile>, ops: seq<Op>) {
    |vs| == |ops| + 1 && forall i :: 0 <= i < |ops| ==> vs[i + 1] == Effect(vs[i], ops[i])
  }

  predicate EverLeft(vs: seq<Profile>, ops: seq<Op>, n: nat)
    requires n <= |ops| < |vs|
  {
    exists i :: 0 <= i < n && Leaves(vs[i], ops[i])
  }

  /** One of the first n calls left suspension, and no later one of them was a suspension. */
  predicate Left(vs: seq<Profile>, ops: seq<Op>, n: nat)
    requires n <= |ops| < |vs|
  {
    exists i :: 0 <= i < n && Leaves(vs[i], ops[i]) && forall k :: i < k < n ==> !ops[k].Suspend?
  }

  /** One of the first n calls left suspension, a later one readmitted the user, and none after
      that undid it. */
  predicate Readmitted(vs: seq<Profile>, ops: seq<Op>, n: nat)
    requires n <= |ops| < |vs|
  {
    exists i, j :: 0 <= i < j < n && Leaves(vs[i], ops[i]) && Readmits(vs[j], ops[j])
      && forall k :: j < k < n ==> !Departs(vs[k], ops[k])
  }

  lemma LeftGrows(vs: seq<Profile>, ops: seq<Op>, n: nat)
    requires n < |ops| < |vs|
    ensures Left(vs, ops, n + 1) <==> Leaves(vs[n], ops[n]) || (Left(vs, ops, n) && !ops[n].Suspend?)
  {
    if Left(vs, ops, n) && !ops[n].Suspend? {
      var i :| 0 <= i < n && Leaves(vs[i], ops[i]) && forall k :: i < k < n ==> !ops[k].Suspend?;
      assert forall k :: i < k < n + 1 ==> !ops[k].Suspend?;
    }
  }

  lemma ReadmittedGrows(vs: seq<Profile>, ops: seq<Op>, n: nat)
    requires n < |ops| < |vs|
    ensures Readmitted(vs, ops, n + 1) <==>
      || (EverLeft(vs, ops, n) && Readmits(vs[n], ops[n]))
      || (Readmitted(vs, ops, n) && !Departs(vs[n], ops[n]))
  {
    if Readmitted(vs, ops, n) && !Departs(vs[n], ops[n]) {
      var i, j :| 0 <= i < j < n && Leaves(vs[i], ops[i]) && Readmits(vs[j], ops[j])
                  && forall k :: j < k < n ==> !Departs(vs[k], ops[k]);
      assert forall k :: j < k < n + 1 ==> !Departs(vs[k], ops[k]);
    }
  }

  lemma StatusSteps(v: Profile, op: Op)
    ensures Effect(v, op).status != Suspended <==> Leaves(v, op) || (v.status != Suspended && !op.Suspend?)
    ensures Effect(v, op).status == Active <==> Readmits(v, op) || (v.status == Active && !Departs(v, op))
    ensures Readmits(v, op) ==> v.status != Suspended
  {
  }

  /** In any run of a user who is suspended at first, the user is not suspended after n calls if
      and only if one of them was a deactivation or a change of address while suspended, with no
      suspension after it. */
  lemma {:induction false} LeavingSuspension(vs: seq<Profile>, ops: seq<Op>, n: nat)
    requires IsRun(vs, ops) && n <= |ops| && vs[0].status == Suspended
    ensures vs[n].status != Suspended <==> Left(vs, ops, n)
  {
    if n > 0 {
      LeavingSuspension(vs, ops, n - 1);
      LeftGrows(vs, ops, n - 1);
      StatusSteps(vs[n - 1], ops[n - 1]);
      assert vs[n - 1 + 1] == Effect(vs[n - 1], ops[n - 1]);
    }
  }

  lemma OnceLeft(vs: seq<Profile>, ops: seq<Op>, n: nat)
    requires IsRun(vs, ops) && n <= |ops| && vs[0].status == Suspended && vs[n].status != Suspended
    ensures EverLeft(vs, ops, n)
  {
    LeavingSuspension(vs, ops, n);
  }

  lemma ReadmissionStep(vs: seq<Profile>, ops: seq<Op>, n: nat)
    requires n < |ops| < |vs| && vs[n + 1] == Effect(vs[n], ops[n])
    requires vs[n].status == Active <==> Readmitted(vs, ops, n)
    requires vs[n].status != Suspended ==> EverLeft(vs, ops, n)
    ensures vs[n + 1].status == Active <==> Readmitted(vs, ops, n + 1)
  {
    ReadmittedGrows(vs, ops, n);
    StatusSteps(vs[n], ops[n]);
  }

  /** And is active if and only if one call left suspension, a later one was an activation, or a
      verification while pending, and none after that ended the active status: two steps, and no
      other way. */
  lemma {:induction false} ReadmissionTakesTwoSteps(vs: seq<Profile>, ops: seq<Op>, n: nat)
    requires IsRun(vs, ops) && n <= |ops| && vs[0].status == Suspended
    ensures vs[n].status == Active <==> Readmitted(vs, ops, n)
  {
    if n > 0 {
      ReadmissionTakesTwoSteps(vs, ops, n - 1);
      if vs[n - 1].status != Suspended {
        OnceLeft(vs, ops, n - 1);
      }
      assert vs[n - 1 + 1] == Effect(vs[n - 1], ops[n - 1]);
      ReadmissionStep(vs, ops, n - 1);
    }
  }

  /** Two calls on the entity undo a suspension, one after the other: deactivate, then activate. */
  lemma DeactivateThenActivate(u: Profile)
    requires u.status == Suspended
    ensures After(u, [Deactivate, Activate]).status == Active
    ensures u.emailVerified ==> CanLogin(After(u, [Deactivate, Activate]))
  {
    assert [Deactivate, Activate][..1] == [Deactivate] && [Deactivate][..0] == [];
    assert After(u, [Deactivate]) == Apply(u, Deactivate).user;
  }
}
