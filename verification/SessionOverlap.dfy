/** refreshTokens in its own steps (look the token up, revoke, load the user, create the new
    session), of any number of requests at once, among whole calls of every other operation. */
module SessionOverlap {
  import opened Wrappers
  import opened Sessions
  import opened SessionRotation

  /** RowGone: the update finds its row deleted, and throws. */
  datatype Ending = Answer(outcome: Outcome) | RowGone

  /** What a request does next: revoke the row it found, revoke all of the user's, load the user,
      create the session. */
  datatype Call =
    | Found(userId: string, value: string)
    | Missed(userId: string)
    | Rotated(userId: string)
    | Loaded(userId: string)
    | Ended(ending: Ending)

  datatype System = System(store: Store, calls: map<nat, Call>)

  /** RevokeRow is the update of a logout, which may come any time after its lookup. */
  datatype Event =
    | Lookup(call: nat, presented: string, now: int)
    | Revoke(call: nat, now: int)
    | Load(call: nat)
    | Create(call: nat, minted: string, now: int, ttl: int)
    | RevokeRow(token: Stored, now: int)
    | Other(op: Op)

  function Looked(store: Store, token: string, now: int): Call {
    var parsed := Parse(token);
    if parsed.None? then Ended(Answer(TokenInvalid))
    else
      var (userId, value) := parsed.value;
      if AnyMatch(store.sessions, Query(userId, Hashed(value), Some(now))) then Found(userId, value)
      else Missed(userId)
  }

  /** A request's own step; nothing when the step is not its next one. */
  function Advance(store: Store, call: Call, e: Event): (Store, Call) {
    match (call, e)
    case (Found(userId, value), Revoke(_, now)) =>
      if FindByToken(store.sessions, Hashed(value)).None? then (store, Ended(RowGone))
      else (store.(sessions := RevokeToken(store.sessions, Hashed(value), now)), Rotated(userId))
    case (Missed(userId), Revoke(_, now)) =>
      (store.(sessions := RevokeUser(store.sessions, userId, now)), Ended(Answer(TokenRevoked)))
    case (Rotated(userId), Load(_)) =>
      (store, if IsActive(store, userId) then Loaded(userId) else Ended(Answer(UserInactive)))
    case (Loaded(userId), Create(_, minted, now, ttl)) =>
      (Insert(store, userId, Hashed(minted), now + ttl), Ended(Answer(Issued(Composite(userId, minted)))))
    case _ => (store, call)
  }

  function Step(sys: System, e: Event): System {
    match e
    case Other(op) => sys.(store := Next(sys.store, op))
    case RevokeRow(token, now) => sys.(store := sys.store.(sessions := RevokeToken(sys.store.sessions, token, now)))
    case Lookup(c, token, now) =>
      if c in sys.calls then sys else sys.(calls := sys.calls[c := Looked(sys.store, token, now)])
    case _ =>
      if e.call !in sys.calls then sys
      else
        var (store, call) := Advance(sys.store, sys.calls[e.call], e);
        System(store, sys.calls[e.call := call])
  }

  function RunFrom(sys: System, events: seq<Event>): System {
    if events == [] then sys
    else Step(RunFrom(sys, events[..|events| - 1]), events[|events| - 1])
  }

  function Reach(events: seq<Event>): System {
    RunFrom(System(Sessions.Run([]), map[]), events)
  }

  // ---------- Rows ----------

  /** The whole operation whose effect on the rows a step resembles. */
  function OpOf(e: Event): Op {
    match e
    case Other(op) => op
    case Create(_, minted, now, ttl) => RefreshOp("", minted, now, ttl)
    case _ => SetActive("", true)
  }

  /** Random token values never repeat. */
  predicate FreshValues(events: seq<Event>) {
    forall i :: 0 <= i < |events| ==> FreshFor(Reach(events[..i]).store, OpOf(events[i]))
  }

  lemma StoreEvolves(sys: System, e: Event)
    ensures RowsEvolve(sys.store, Step(sys, e).store, OpOf(e))
  {
    match e
    case Other(op) => StepEvolves(sys.store, op);
    case RevokeRow(token, now) => RevokeTokenRevokes(sys.store.sessions, token, now);
    case Revoke(c, now) =>
      if c in sys.calls && sys.calls[c].Found? {
        RevokeTokenRevokes(sys.store.sessions, Hashed(sys.calls[c].value), now);
      } else if c in sys.calls && sys.calls[c].Missed? {
        RevokeUserAt(sys.store.sessions, sys.calls[c].userId, now);
      }
    case Create(c, minted, now, ttl) =>
      if c in sys.calls && sys.calls[c].Loaded? {
        InsertEvolves(sys.store, sys.store.sessions, sys.calls[c].userId, Hashed(minted), now + ttl, OpOf(e));
      }
    case _ =>
  }

  predicate HasLive(store: Store, token: Stored) {
    exists i :: 0 <= i < |store.sessions| && store.sessions[i].token == token && store.sessions[i].revokedAt.None?
  }

  /** The step that takes the token's row from unrevoked to revoked. */
  predicate RevokesNow(sys: System, e: Event, token: Stored) {
    HasLive(sys.store, token) && !HasLive(Step(sys, e).store, token)
  }

  predicate EverRevoked(events: seq<Event>, token: Stored) {
    events != [] &&
    var before := events[..|events| - 1];
    EverRevoked(before, token) || RevokesNow(Reach(before), events[|events| - 1], token)
  }

  /** A row is unrevoked or its token is spent. */
  lemma LiveOrSpent(store: Store, token: Stored)
    requires TokensUnique(store) && token in store.issued
    ensures HasLive(store, token) <==> !Spent(store, token)
  {
  }

  lemma NewRowIsLive(store: Store, after: Store, op: Op, token: Stored)
    requires TokensUnique(store) && RowsEvolve(store, after, op)
    requires token !in store.issued && token in after.issued
    ensures HasLive(after, token)
  {
    assert after.sessions[|store.sessions|].token == token;
  }

  lemma Prefixes(events: seq<Event>)
    requires events != []
    ensures var before := events[..|events| - 1];
      forall i :: 0 <= i <= |before| ==> before[..i] == events[..i]
  {
  }

  /** Over any run, the row of a token that was ever stored is unrevoked, and in the table, exactly
      until the first step that revokes it. */
  lemma {:induction false} LiveUntilRevoked(events: seq<Event>, token: Stored)
    requires FreshValues(events)
    ensures TokensUnique(Reach(events).store)
    ensures EverRevoked(events, token) ==> token in Reach(events).store.issued
    ensures HasLive(Reach(events).store, token) <==>
      token in Reach(events).store.issued && !EverRevoked(events, token)
  {
    if events != [] {
      Prefixes(events);
      var before, e := events[..|events| - 1], events[|events| - 1];
      LiveUntilRevoked(before, token);
      var sys, after := Reach(before), Reach(events);
      StoreEvolves(sys, e);
      EvolvingKeepsUnique(sys.store, after.store, OpOf(e));
      if token in sys.store.issued {
        LiveOrSpent(sys.store, token);
        LiveOrSpent(after.store, token);
        if Spent(sys.store, token) {
          EvolvingKeepsSpent(sys.store, after.store, OpOf(e), token);
        }
      } else if token in after.store.issued {
        NewRowIsLive(sys.store, after.store, OpOf(e), token);
      }
    }
  }

  // ---------- One request ----------

  /** Event i is the request's lookup, with a composite of this user and value. */
  predicate Opens(events: seq<Event>, i: nat, c: nat, userId: string, value: string, now: int) {
    && i < |events| && events[i] == Lookup(c, Composite(userId, value), now)
    && c !in Reach(events[..i]).calls
  }

  predicate IsRevoke(e: Event, c: nat) {
    e.Revoke? && e.call == c
  }

  predicate IsLoad(e: Event, c: nat) {
    e.Load? && e.call == c
  }

  /** The first revocation step of the request after event i. */
  function FirstRevoke(events: seq<Event>, i: nat, c: nat): (r: Option<nat>)
    ensures r.Some? ==>
      && i < r.value < |events| && IsRevoke(events[r.value], c)
      && forall k :: i < k < r.value ==> !IsRevoke(events[k], c)
    ensures r.None? ==> forall k :: i < k < |events| ==> !IsRevoke(events[k], c)
  {
    if |events| <= i + 1 then None
    else
      var n := |events| - 1;
      var earlier := FirstRevoke(events[..n], i, c);
      if earlier.Some? then earlier
      else if IsRevoke(events[n], c) then Some(n)
      else None
  }

  /** The first load of the request's user after event i. */
  function FirstLoad(events: seq<Event>, i: nat, c: nat): (r: Option<nat>)
    ensures r.Some? ==>
      && i < r.value < |events| && IsLoad(events[r.value], c)
      && forall k :: i < k < r.value ==> !IsLoad(events[k], c)
    ensures r.None? ==> forall k :: i < k < |events| ==> !IsLoad(events[k], c)
  {
    if |events| <= i + 1 then None
    else
      var n := |events| - 1;
      var earlier := FirstLoad(events[..n], i, c);
      if earlier.Some? then earlier
      else if IsLoad(events[n], c) then Some(n)
      else None
  }

  predicate HasRow(store: Store, value: string) {
    FindByToken(store.sessions, Hashed(value)).Some?
  }

  /** Whether the row is in the table when the request first comes to revoke; None before that. */
  function RowMet(events: seq<Event>, i: nat, c: nat, value: string): Option<bool> {
    var r := FirstRevoke(events, i, c);
    if r.None? then None else Some(HasRow(Reach(events[..r.value]).store, value))
  }

  /** Whether the user is active when the request, after that, first loads it; None before that. */
  function UserMet(events: seq<Event>, i: nat, c: nat, userId: string): Option<bool> {
    var r := FirstRevoke(events, i, c);
    if r.None? then None
    else
      var l := FirstLoad(events, r.value, c);
      if l.None? then None else Some(IsActive(Reach(events[..l.value]).store, userId))
  }

  lemma MetGrows(events: seq<Event>, i: nat, c: nat, userId: string, value: string)
    requires i + 1 < |events|
    ensures
      var n := |events| - 1;
      var before, row, user := events[..n], RowMet(events[..n], i, c, value), UserMet(events[..n], i, c, userId);
      && RowMet(events, i, c, value) ==
           (if row.None? && IsRevoke(events[n], c) then Some(HasRow(Reach(before).store, value)) else row)
      && UserMet(events, i, c, userId) ==
           (if row.Some? && user.None? && IsLoad(events[n], c) then Some(IsActive(Reach(before).store, userId)) else user)
  {
    var n := |events| - 1;
    assert forall m :: 0 <= m <= n ==> events[..n][..m] == events[..m];
  }

  /** Where a request stands, by what its lookup, its revocation and its load have met. */
  predicate Stands(call: Call, userId: string, value: string, found: bool, row: Option<bool>, user: Option<bool>) {
    match call
    case Found(u, v) => u == userId && v == value && found && row.None?
    case Missed(u) => u == userId && !found && row.None?
    case Rotated(u) => u == userId && found && row == Some(true) && user.None?
    case Loaded(u) => u == userId && found && row == Some(true) && user == Some(true)
    case Ended(Answer(Issued(_))) => found && row == Some(true) && user == Some(true)
    case Ended(Answer(UserInactive)) => found && row == Some(true) && user == Some(false)
    case Ended(Answer(TokenRevoked)) => !found && row.Some?
    case Ended(RowGone) => found && row == Some(false)
    case _ => false
  }

  lemma StepStands(
    sys: System, e: Event, c: nat, userId: string, value: string, found: bool, row: Option<bool>, user: Option<bool>)
    requires c in sys.calls && Stands(sys.calls[c], userId, value, found, row, user)
    requires row.None? ==> user.None?
    ensures c in Step(sys, e).calls
    ensures Stands(Step(sys, e).calls[c], userId, value, found,
                   if row.None? && IsRevoke(e, c) then Some(HasRow(sys.store, value)) else row,
                   if row.Some? && user.None? && IsLoad(e, c) then Some(IsActive(sys.store, userId)) else user)
  {
  }

  /** The presented token has a live row of that user at this moment. */
  predicate Redeemable(store: Store, userId: string, value: string, now: int) {
    AnyMatch(store.sessions, Query(userId, Hashed(value), Some(now)))
  }

  lemma {:induction false} StandsAfter(events: seq<Event>, i: nat, c: nat, userId: string, value: string, now: int)
    requires Opens(events, i, c, userId, value, now)
    requires DotFree(userId) && DotFree(value) && userId != "" && value != ""
    ensures c in Reach(events).calls
    ensures Stands(Reach(events).calls[c], userId, value, Redeemable(Reach(events[..i]).store, userId, value, now),
                   RowMet(events, i, c, value), UserMet(events, i, c, userId))
  {
    var n := |events| - 1;
    var before := events[..n];
    if i == n {
      ParseComposite(userId, value);
    } else {
      assert before[..i] == events[..i];
      StandsAfter(before, i, c, userId, value, now);
      MetGrows(events, i, c, userId, value);
      StepStands(Reach(before), events[n], c, userId, value, Redeemable(Reach(events[..i]).store, userId, value, now),
                 RowMet(before, i, c, value), UserMet(before, i, c, userId));
    }
  }

  /** The token's row is there, is the user's and expires later. */
  predicate Unexpired(store: Store, userId: string, value: string, now: int) {
    var row := FindByToken(store.sessions, Hashed(value));
    row.Some? && row.value.userId == userId && row.value.expiresAt > now
  }

  /** A token can be redeemed exactly while its row is its user's, unexpired and never revoked. */
  lemma RedeemableUntilRevoked(events: seq<Event>, userId: string, value: string, now: int)
    requires FreshValues(events)
    ensures Redeemable(Reach(events).store, userId, value, now) <==>
      Unexpired(Reach(events).store, userId, value, now) && !EverRevoked(events, Hashed(value))
  {
    LiveUntilRevoked(events, Hashed(value));
    RedeemableIsLive(Reach(events).store, userId, value, now);
  }

  lemma RedeemableIsLive(store: Store, userId: string, value: string, now: int)
    requires TokensUnique(store)
    ensures Redeemable(store, userId, value, now) <==>
      Unexpired(store, userId, value, now) && HasLive(store, Hashed(value))
    ensures Unexpired(store, userId, value, now) ==> Hashed(value) in store.issued
  {
    var rows, q := store.sessions, Query(userId, Hashed(value), Some(now));
    var k := TokenAt(rows, Hashed(value), now);
    var m := FirstMatch(rows, q, now);
    FoundAnywhere(rows, Hashed(value));
    if FindByToken(rows, Hashed(value)).Some? && Matches(rows[k], q) {
      MatchAnywhere(rows, q, k);
    }
  }

  lemma {:induction false} MatchAnywhere(sessions: seq<Session>, q: Query, i: nat)
    requires i < |sessions| && Matches(sessions[i], q)
    ensures AnyMatch(sessions, q)
  {
    if i > 0 {
      MatchAnywhere(sessions[1..], q, i - 1);
    }
  }

  lemma {:induction false} FoundAnywhere(sessions: seq<Session>, token: Stored)
    ensures FindByToken(sessions, token).None? ==> forall i :: 0 <= i < |sessions| ==> sessions[i].token != token
  {
    if sessions != [] {
      FoundAnywhere(sessions[1..], token);
      assert sessions == [sessions[0]] + sessions[1..];
    }
  }

  predicate IssuedBy(sys: System, c: nat) {
    c in sys.calls && sys.calls[c].Ended? && sys.calls[c].ending.Answer? && sys.calls[c].ending.outcome.Issued?
  }

  lemma Prefix(events: seq<Event>, m: nat, n: nat)
    requires m <= n <= |events|
    ensures events[..n][..m] == events[..m]
  {
  }

  lemma FreshPrefix(events: seq<Event>, n: nat)
    requires FreshValues(events) && n <= |events|
    ensures FreshValues(events[..n])
  {
    forall i | 0 <= i < n
      ensures FreshFor(Reach(events[..n][..i]).store, OpOf(events[..n][i]))
    {
      Prefix(events, i, n);
    }
  }

  /** In every interleaving a request that has ended issued a new pair if and only if the table and
      the users were right at three moments: at its lookup the token's row was the user's,
      unexpired and not yet revoked by any step; at its first revocation step after that the row
      was in the table; and at its first load after that the user was active. Revocations between
      the lookup and the request's own do not stop it. */
  lemma IssuesExactlyWhen(events: seq<Event>, i: nat, c: nat, userId: string, value: string, now: int)
    requires FreshValues(events) && Opens(events, i, c, userId, value, now)
    requires DotFree(userId) && DotFree(value) && userId != "" && value != ""
    ensures c in Reach(events).calls
    ensures Reach(events).calls[c].Ended? ==>
      (IssuedBy(Reach(events), c) <==>
         && Unexpired(Reach(events[..i]).store, userId, value, now) && !EverRevoked(events[..i], Hashed(value))
         && RowMet(events, i, c, value) == Some(true) && UserMet(events, i, c, userId) == Some(true))
  {
    StandsAfter(events, i, c, userId, value, now);
    FreshPrefix(events, i);
    RedeemableUntilRevoked(events[..i], userId, value, now);
  }

  // ---------- Two requests with one token ----------

  predicate OnlyTheseRevoke(events: seq<Event>, token: Stored, c: nat, d: nat) {
    forall n :: 0 <= n < |events| && RevokesNow(Reach(events[..n]), events[n], token) ==>
      IsRevoke(events[n], c) || IsRevoke(events[n], d)
  }

  /** From this point on the row is not deleted and the user is active. */
  predicate Served(events: seq<Event>, from: nat, userId: string, value: string) {
    forall n :: from <= n <= |events| ==>
      HasRow(Reach(events[..n]).store, value) && IsActive(Reach(events[..n]).store, userId)
  }

  /** The request takes its revocation step between these two events. */
  predicate RevokesBetween(events: seq<Event>, j: nat, i: nat, d: nat) {
    exists k :: j < k < i <= |events| && IsRevoke(events[k], d)
  }

  lemma {:induction false} RevokedStays(events: seq<Event>, i: nat, token: Stored)
    requires i <= |events|
    ensures EverRevoked(events[..i], token) ==> EverRevoked(events, token)
  {
    if i == |events| {
      assert events[..i] == events;
    } else {
      assert events[..|events| - 1][..i] == events[..i];
      RevokedStays(events[..|events| - 1], i, token);
    }
  }

  lemma {:induction false} StartedStays(events: seq<Event>, i: nat, c: nat)
    requires i <= |events|
    ensures c in Reach(events[..i]).calls ==> c in Reach(events).calls
  {
    if i == |events| {
      assert events[..i] == events;
    } else {
      assert events[..|events| - 1][..i] == events[..i];
      StartedStays(events[..|events| - 1], i, c);
    }
  }

  lemma {:induction false} IssuedStays(events: seq<Event>, i: nat, token: Stored)
    requires i <= |events|
    ensures token in Reach(events[..i]).store.issued ==> token in Reach(events).store.issued
  {
    if i == |events| {
      assert events[..i] == events;
    } else {
      var n := |events| - 1;
      assert events[..n][..i] == events[..i];
      IssuedStays(events[..n], i, token);
      StoreEvolves(Reach(events[..n]), events[n]);
    }
  }

  lemma RevokeTokenKills(store: Store, token: Stored, now: int)
    requires TokensUnique(store)
    ensures !HasLive(store.(sessions := RevokeToken(store.sessions, token, now)), token)
  {
    var k := TokenAt(store.sessions, token, now);
    FoundAnywhere(store.sessions, token);
  }

  /** The late update of a logout revokes its row whenever that is live. */
  lemma LateLogoutRevokes(sys: System, token: Stored, now: int)
    requires TokensUnique(sys.store)
    ensures RevokesNow(sys, RevokeRow(token, now), token) <==> HasLive(sys.store, token)
    ensures Step(sys, RevokeRow(token, now)).calls == sys.calls
  {
    RevokeTokenKills(sys.store, token, now);
  }

  lemma RowWasIssued(events: seq<Event>, i: nat, value: string)
    requires FreshValues(events) && i <= |events| && HasRow(Reach(events[..i]).store, value)
    ensures Hashed(value) in Reach(events).store.issued
  {
    FreshPrefix(events, i);
    LiveUntilRevoked(events[..i], Hashed(value));
    var k := TokenAt(Reach(events[..i]).store.sessions, Hashed(value), 0);
    IssuedStays(events, i, Hashed(value));
  }

  lemma FoundThenRevokes(sys: System, e: Event, c: nat, userId: string, value: string)
    requires TokensUnique(sys.store) && HasLive(sys.store, Hashed(value))
    requires c in sys.calls && sys.calls[c] == Found(userId, value) && IsRevoke(e, c)
    ensures RevokesNow(sys, e, Hashed(value))
  {
    FoundAnywhere(sys.store.sessions, Hashed(value));
    RevokeTokenKills(sys.store, Hashed(value), e.now);
  }

  /** A request that has seen the unexpired row and not yet come to its revocation step has found
      it, and it is live, unless some step has revoked it. */
  lemma FoundBeforeOwnStep(events: seq<Event>, i: nat, c: nat, userId: string, value: string, now: int)
    requires FreshValues(events) && Opens(events, i, c, userId, value, now)
    requires DotFree(userId) && DotFree(value) && userId != "" && value != ""
    requires Unexpired(Reach(events[..i]).store, userId, value, now)
    requires FirstRevoke(events, i, c).None? && !EverRevoked(events, Hashed(value))
    ensures c in Reach(events).calls && Reach(events).calls[c] == Found(userId, value)
    ensures TokensUnique(Reach(events).store) && HasLive(Reach(events).store, Hashed(value))
  {
    FreshPrefix(events, i);
    RevokedStays(events, i, Hashed(value));
    RedeemableUntilRevoked(events[..i], userId, value, now);
    StandsAfter(events, i, c, userId, value, now);
    RowWasIssued(events, i, value);
    LiveUntilRevoked(events, Hashed(value));
  }

  lemma OpensInPrefix(events: seq<Event>, i: nat, c: nat, userId: string, value: string, now: int, n: nat)
    requires Opens(events, i, c, userId, value, now) && i < n <= |events|
    ensures Opens(events[..n], i, c, userId, value, now) && events[..n][..i] == events[..i]
    ensures FirstRevoke(events, i, c) == Some(n) ==> FirstRevoke(events[..n], i, c).None?
    ensures RevokesBetween(events, i, n, c) ==> FirstRevoke(events[..n], i, c).Some?
  {
    Prefix(events, i, n);
    if RevokesBetween(events, i, n, c) {
      var k :| i < k < n && IsRevoke(events[k], c);
      assert IsRevoke(events[..n][k], c);
    }
  }

  /** A request whose lookup saw the unexpired row and that has come to its revocation step leaves
      the row revoked, whether it found the row live or not. */
  lemma OwnRevocationRevokes(events: seq<Event>, i: nat, c: nat, userId: string, value: string, now: int)
    requires FreshValues(events) && Opens(events, i, c, userId, value, now)
    requires DotFree(userId) && DotFree(value) && userId != "" && value != ""
    requires Unexpired(Reach(events[..i]).store, userId, value, now)
    requires FirstRevoke(events, i, c).Some?
    ensures EverRevoked(events, Hashed(value))
  {
    var r := FirstRevoke(events, i, c).value;
    FreshPrefix(events, r);
    OpensInPrefix(events, i, c, userId, value, now, r);
    if !EverRevoked(events[..r], Hashed(value)) {
      FoundBeforeOwnStep(events[..r], i, c, userId, value, now);
      FoundThenRevokes(Reach(events[..r]), events[r], c, userId, value);
    }
    RevokedByStep(events, r, Hashed(value));
  }

  lemma RevokedByStep(events: seq<Event>, r: nat, token: Stored)
    requires r < |events|
    requires EverRevoked(events[..r], token) || RevokesNow(Reach(events[..r]), events[r], token)
    ensures EverRevoked(events, token)
  {
    assert events[..r + 1][..r] == events[..r];
    RevokedStays(events, r + 1, token);
  }

  lemma RevocationNeedsARequest(sys: System, e: Event, token: Stored)
    requires e.Revoke? && RevokesNow(sys, e, token)
    ensures e.call in sys.calls
  {
  }

  /** Before the request c begins, and when no one else revokes the row, a revoked row means that
      the request d has come to its revocation step. */
  lemma {:induction false} RevokedByTheOther(events: seq<Event>, c: nat, j: nat, d: nat, token: Stored)
    requires OnlyTheseRevoke(events, token, c, d) && c !in Reach(events).calls
    requires d in Reach(events).calls ==> j < |events| && d !in Reach(events[..j]).calls
    ensures EverRevoked(events, token) ==> d in Reach(events).calls && FirstRevoke(events, j, d).Some?
  {
    if events != [] {
      var n := |events| - 1;
      var before := events[..n];
      assert forall m :: 0 <= m <= n ==> before[..m] == events[..m];
      StartedStays(events, n, c);
      StartedStays(events, n, d);
      RevokedByTheOther(before, c, j, d, token);
      if RevokesNow(Reach(before), events[n], token) {
        RevocationNeedsARequest(Reach(before), events[n], token);
        assert IsRevoke(events[n], d) && d in Reach(before).calls;
      }
    }
  }

  lemma RevokedBehind(events: seq<Event>, i: nat, j: nat, d: nat, nowD: int, userId: string, value: string)
    requires FreshValues(events) && i <= |events|
    requires Opens(events, j, d, userId, value, nowD) && RevokesBetween(events, j, i, d)
    requires DotFree(userId) && DotFree(value) && userId != "" && value != ""
    requires Unexpired(Reach(events[..j]).store, userId, value, nowD)
    ensures EverRevoked(events[..i], Hashed(value))
  {
    FreshPrefix(events, i);
    OpensInPrefix(events, j, d, userId, value, nowD, i);
    OwnRevocationRevokes(events[..i], j, d, userId, value, nowD);
  }

  /** The row was revoked before c's lookup exactly when d had come to its revocation by then. */
  lemma RevokedBefore(
    events: seq<Event>, i: nat, c: nat, nowC: int, j: nat, d: nat, nowD: int, userId: string, value: string)
    requires FreshValues(events) && OnlyTheseRevoke(events, Hashed(value), c, d)
    requires Opens(events, i, c, userId, value, nowC) && Opens(events, j, d, userId, value, nowD)
    requires DotFree(userId) && DotFree(value) && userId != "" && value != ""
    requires Unexpired(Reach(events[..j]).store, userId, value, nowD)
    ensures EverRevoked(events[..i], Hashed(value)) <==> RevokesBetween(events, j, i, d)
  {
    var before := events[..i];
    assert forall m :: 0 <= m <= i ==> before[..m] == events[..m];
    if i <= j {
      assert events[..j][..i] == before;
      StartedStays(events[..j], i, d);
    } else if RevokesBetween(events, j, i, d) {
      RevokedBehind(events, i, j, d, nowD, userId, value);
    }
    RevokedByTheOther(before, c, j, d, Hashed(value));
  }

  lemma IssuesUnlessOtherCameFirst(
    events: seq<Event>, i: nat, c: nat, nowC: int, j: nat, d: nat, nowD: int, userId: string, value: string)
    requires FreshValues(events) && OnlyTheseRevoke(events, Hashed(value), c, d)
    requires Opens(events, i, c, userId, value, nowC) && Opens(events, j, d, userId, value, nowD)
    requires DotFree(userId) && DotFree(value) && userId != "" && value != ""
    requires Served(events, i, userId, value)
    requires Unexpired(Reach(events[..i]).store, userId, value, nowC)
    requires Unexpired(Reach(events[..j]).store, userId, value, nowD)
    ensures c in Reach(events).calls
    ensures Reach(events).calls[c].Ended? ==> (IssuedBy(Reach(events), c) <==> !RevokesBetween(events, j, i, d))
  {
    StandsAfter(events, i, c, userId, value, nowC);
    assert RowMet(events, i, c, value) != Some(false) && UserMet(events, i, c, userId) != Some(false);
    FreshPrefix(events, i);
    RedeemableUntilRevoked(events[..i], userId, value, nowC);
    RevokedBefore(events, i, c, nowC, j, d, nowD, userId, value);
  }

  /** Two requests present one unexpired token of an active user, and nothing else revokes or
      deletes its row. In every interleaving at least one issues a new pair, and exactly one does
      if and only if one looks the token up after the other has come to its revocation. */
  lemma ExactlyOneIssues(
    events: seq<Event>, i: nat, c: nat, nowC: int, j: nat, d: nat, nowD: int, userId: string, value: string)
    requires FreshValues(events) && OnlyTheseRevoke(events, Hashed(value), c, d)
    requires Opens(events, i, c, userId, value, nowC) && Opens(events, j, d, userId, value, nowD)
    requires DotFree(userId) && DotFree(value) && userId != "" && value != ""
    requires Served(events, if i < j then i else j, userId, value)
    requires Unexpired(Reach(events[..i]).store, userId, value, nowC)
    requires Unexpired(Reach(events[..j]).store, userId, value, nowD)
    ensures c in Reach(events).calls && d in Reach(events).calls
    ensures Reach(events).calls[c].Ended? && Reach(events).calls[d].Ended? ==>
      && (IssuedBy(Reach(events), c) || IssuedBy(Reach(events), d))
      && (IssuedBy(Reach(events), c) != IssuedBy(Reach(events), d) <==>
            RevokesBetween(events, j, i, d) || RevokesBetween(events, i, j, c))
  {
    assert OnlyTheseRevoke(events, Hashed(value), d, c);
    IssuesUnlessOtherCameFirst(events, i, c, nowC, j, d, nowD, userId, value);
    IssuesUnlessOtherCameFirst(events, j, d, nowD, i, c, nowC, userId, value);
  }

  /** One-time use, step by step and whatever else happens: when two requests with one token both
      issue, each looked the token up before the other came to its revocation. */
  lemma OnlyOverlappingRequestsBothIssue(
    events: seq<Event>, i: nat, c: nat, nowC: int, j: nat, d: nat, nowD: int, userId: string, value: string)
    requires FreshValues(events)
    requires Opens(events, i, c, userId, value, nowC) && Opens(events, j, d, userId, value, nowD)
    requires DotFree(userId) && DotFree(value) && userId != "" && value != ""
    requires IssuedBy(Reach(events), c) && IssuedBy(Reach(events), d)
    ensures !RevokesBetween(events, j, i, d) && !RevokesBetween(events, i, j, c)
  {
    IssuedNotBehind(events, i, c, nowC, j, d, nowD, userId, value);
    IssuedNotBehind(events, j, d, nowD, i, c, nowC, userId, value);
  }

  lemma IssuedNotBehind(
    events: seq<Event>, i: nat, c: nat, nowC: int, j: nat, d: nat, nowD: int, userId: string, value: string)
    requires FreshValues(events)
    requires Opens(events, i, c, userId, value, nowC) && Opens(events, j, d, userId, value, nowD)
    requires DotFree(userId) && DotFree(value) && userId != "" && value != ""
    requires IssuedBy(Reach(events), c) && IssuedBy(Reach(events), d)
    ensures !RevokesBetween(events, j, i, d)
  {
    IssuesExactlyWhen(events, i, c, userId, value, nowC);
    IssuesExactlyWhen(events, j, d, userId, value, nowD);
    if RevokesBetween(events, j, i, d) {
      RevokedBehind(events, i, j, d, nowD, userId, value);
    }
  }

  // ---------- Steps that run undisturbed ----------

  lemma RowOfTheMatch(store: Store, q: Query, now: int)
    requires TokensUnique(store) && AnyMatch(store.sessions, q)
    ensures FindByToken(store.sessions, q.token).Some?
    ensures RevokeToken(store.sessions, q.token, now) == RevokeFirst(store.sessions, q, now)
  {
    var k := FirstMatch(store.sessions, q, now);
    var m := TokenAt(store.sessions, q.token, now);
    FoundAnywhere(store.sessions, q.token);
  }

  function Steps(c: nat, token: string, minted: string, now: int, ttl: int): seq<Event> {
    [Lookup(c, token, now), Revoke(c, now), Load(c), Create(c, minted, now, ttl)]
  }

  lemma RunOne(sys: System, events: seq<Event>, e: Event)
    ensures RunFrom(sys, events + [e]) == Step(RunFrom(sys, events), e)
  {
    assert (events + [e])[..|events|] == events;
  }

  lemma RunThree(sys: System, a: Event, b: Event, c: Event)
    ensures RunFrom(sys, [a, b, c]) == Step(Step(Step(sys, a), b), c)
    ensures RunFrom(sys, [a, b]) == Step(Step(sys, a), b)
  {
    RunOne(sys, [], a);
    RunOne(sys, [a], b);
    RunOne(sys, [a, b], c);
    assert [] + [a] == [a] && [a] + [b] == [a, b] && [a, b] + [c] == [a, b, c];
  }

  lemma RunFour(sys: System, a: Event, b: Event, c: Event, d: Event)
    ensures RunFrom(sys, [a, b, c, d]) == Step(Step(Step(Step(sys, a), b), c), d)
  {
    RunThree(sys, a, b, c);
    RunOne(sys, [a, b, c], d);
    assert [a, b, c] + [d] == [a, b, c, d];
  }

  lemma AdvanceIsRefresh(store: Store, c: nat, token: string, minted: string, now: int, ttl: int)
    requires TokensUnique(store)
    ensures
      var (rotated, call) := Advance(store, Looked(store, token, now), Revoke(c, now));
      var (loaded, call') := Advance(rotated, call, Load(c));
      var (last, call'') := Advance(loaded, call', Create(c, minted, now, ttl));
      var (outcome, after) := Refresh(store, token, minted, now, ttl);
      last == after && call'' == Ended(Answer(outcome))
  {
    if Parse(token).Some? {
      var (userId, value) := Parse(token).value;
      var q := Query(userId, Hashed(value), Some(now));
      if AnyMatch(store.sessions, q) {
        RowOfTheMatch(store, q, now);
      }
    }
  }

  /** A request whose four steps run without another between them is the whole operation. */
  lemma UndisturbedIsRefresh(sys: System, c: nat, token: string, minted: string, now: int, ttl: int)
    requires TokensUnique(sys.store) && c !in sys.calls
    ensures
      var (outcome, store) := Refresh(sys.store, token, minted, now, ttl);
      RunFrom(sys, Steps(c, token, minted, now, ttl)) == System(store, sys.calls[c := Ended(Answer(outcome))])
  {
    RunFour(sys, Lookup(c, token, now), Revoke(c, now), Load(c), Create(c, minted, now, ttl));
    AdvanceIsRefresh(sys.store, c, token, minted, now, ttl);
  }

  // ---------- A schedule in which both issue ----------

  lemma {:induction false} RunAppend(sys: System, a: seq<Event>, b: seq<Event>)
    ensures RunFrom(sys, a + b) == RunFrom(RunFrom(sys, a), b)
  {
    if b == [] {
      assert a + b == a;
    } else {
      var n := |b| - 1;
      assert a + b == (a + b[..n]) + [b[n]];
      RunAppend(sys, a, b[..n]);
      RunOne(sys, a + b[..n], b[n]);
    }
  }

  /** What is left of a request after its lookup. */
  function Rest(c: nat, minted: string, now: int, ttl: int): seq<Event> {
    [Revoke(c, now), Load(c), Create(c, minted, now, ttl)]
  }

  lemma {:induction false} FoundAfterRevoke(sessions: seq<Session>, token: Stored, now: int, added: Session)
    requires FindByToken(sessions, token).Some?
    ensures FindByToken(RevokeToken(sessions, token, now) + [added], token)
      == Some(FindByToken(sessions, token).value.(revokedAt := Some(now)))
  {
    if sessions[0].token != token {
      FoundAfterRevoke(sessions[1..], token, now, added);
      var rest := RevokeToken(sessions[1..], token, now);
      assert ([sessions[0]] + rest + [added])[1..] == rest + [added];
    }
  }

  lemma RestRuns(sys: System, c: nat, userId: string, value: string, minted: string, now: int, ttl: int)
    requires c in sys.calls && sys.calls[c] == Found(userId, value) && IsActive(sys.store, userId)
    requires FindByToken(sys.store.sessions, Hashed(value)).Some?
    ensures
      var rotated := sys.store.(sessions := RevokeToken(sys.store.sessions, Hashed(value), now));
      RunFrom(sys, Rest(c, minted, now, ttl)) ==
        System(Insert(rotated, userId, Hashed(minted), now + ttl),
               sys.calls[c := Ended(Answer(Issued(Composite(userId, minted))))])
  {
    RunThree(sys, Revoke(c, now), Load(c), Create(c, minted, now, ttl));
  }

  /** Once it has found its row, a request that runs on alone issues, whether or not the row has
      been revoked since; the user's live sessions lose the presented one only if it was live. */
  lemma FinishIssues(sys: System, c: nat, userId: string, value: string, minted: string, now: int, ttl: int)
    requires c in sys.calls && sys.calls[c] == Found(userId, value) && IsActive(sys.store, userId) && ttl >= 0
    requires FindByToken(sys.store.sessions, Hashed(value)).Some?
    ensures
      var after, row := RunFrom(sys, Rest(c, minted, now, ttl)), FindByToken(sys.store.sessions, Hashed(value)).value;
      && after.calls == sys.calls[c := Ended(Answer(Issued(Composite(userId, minted))))]
      && after.store.active == sys.store.active
      && FindByToken(after.store.sessions, Hashed(value)) == Some(row.(revokedAt := Some(now)))
      && LiveCount(after.store.sessions, userId, now) ==
           LiveCount(sys.store.sessions, userId, now) + 1 - if Live(row, userId, now) then 1 else 0
  {
    RestRuns(sys, c, userId, value, minted, now, ttl);
    var rows, added := sys.store.sessions, Session(userId, Hashed(minted), None, now + ttl);
    FoundAfterRevoke(rows, Hashed(value), now, added);
    LiveAfterRevokeToken(rows, Hashed(value), userId, now);
    LiveAppend(RevokeToken(rows, Hashed(value), now), added, userId, now);
  }

  lemma BothFind(sys: System, c: nat, d: nat, userId: string, value: string, now: int)
    requires TokensUnique(sys.store) && c !in sys.calls && d !in sys.calls && c != d
    requires DotFree(userId) && DotFree(value) && userId != "" && value != ""
    requires Redeemable(sys.store, userId, value, now)
    ensures
      var token := Composite(userId, value);
      RunFrom(sys, [Lookup(c, token, now), Lookup(d, token, now)]) ==
        sys.(calls := sys.calls[c := Found(userId, value)][d := Found(userId, value)])
    ensures
      var row := FindByToken(sys.store.sessions, Hashed(value));
      row.Some? && Live(row.value, userId, now)
  {
    var token, q := Composite(userId, value), Query(userId, Hashed(value), Some(now));
    ParseComposite(userId, value);
    RunThree(sys, Lookup(c, token, now), Lookup(d, token, now), Load(c));
    RowOfTheMatch(sys.store, q, now);
    var k := FirstMatch(sys.store.sessions, q, now);
    var m := TokenAt(sys.store.sessions, Hashed(value), now);
  }

  /** One after the other, the second request is refused, and takes the session that the first
      one made with it. */
  lemma OneAfterTheOther(
    store: Store, userId: string, value: string, mintedC: string, mintedD: string, now: int, ttl: int)
    requires TokensUnique(store) && DotFree(userId) && DotFree(value) && userId != "" && value != ""
    requires Redeemable(store, userId, value, now) && IsActive(store, userId) && mintedC != value
    ensures
      var (first, between) := Refresh(store, Composite(userId, value), mintedC, now, ttl);
      var (second, last) := Refresh(between, Composite(userId, value), mintedD, now, ttl);
      first.Issued? && second == TokenRevoked && LiveCount(last.sessions, userId, now) == 0
  {
    ParseComposite(userId, value);
    var q := Query(userId, Hashed(value), Some(now));
    var k := FirstMatch(store.sessions, q, now);
    var between := Refresh(store, Composite(userId, value), mintedC, now, ttl).1;
    assert between.sessions == RevokeFirst(store.sessions, q, now) + [Session(userId, Hashed(mintedC), None, now + ttl)];
    assert Spent(between, Hashed(value));
    SpentTokenIsRefused(between, userId, value, mintedD, now, ttl);
    LiveAfterRevokeUser(between.sessions, userId, userId, now);
  }

  /** When both requests look the token up before either revokes it, both issue, and the user ends
      with one live session more. */
  lemma OverlappingRefreshesBothIssue(
    sys: System, c: nat, d: nat, userId: string, value: string, mintedC: string, mintedD: string, now: int, ttl: int)
    requires TokensUnique(sys.store) && c !in sys.calls && d !in sys.calls && c != d && ttl >= 0
    requires DotFree(userId) && DotFree(value) && userId != "" && value != ""
    requires Redeemable(sys.store, userId, value, now) && IsActive(sys.store, userId)
    ensures
      var token := Composite(userId, value);
      var after := RunFrom(sys,
        [Lookup(c, token, now), Lookup(d, token, now)] + Rest(c, mintedC, now, ttl) + Rest(d, mintedD, now, ttl));
      && IssuedBy(after, c) && IssuedBy(after, d)
      && LiveCount(after.store.sessions, userId, now) == LiveCount(sys.store.sessions, userId, now) + 1
  {
    var token := Composite(userId, value);
    var looked, restC, restD :=
      [Lookup(c, token, now), Lookup(d, token, now)], Rest(c, mintedC, now, ttl), Rest(d, mintedD, now, ttl);
    BothFind(sys, c, d, userId, value, now);
    var s0 := RunFrom(sys, looked);
    FinishIssues(s0, c, userId, value, mintedC, now, ttl);
    var s1 := RunFrom(s0, restC);
    FinishIssues(s1, d, userId, value, mintedD, now, ttl);
    RunAppend(sys, looked, restC);
    RunAppend(sys, looked + restC, restD);
  }

  function LoginOf(userId: string, value: string, expiresAt: int): seq<Event> {
    [Other(Login(userId, Hashed(value), expiresAt)), Other(SetActive(userId, true))]
  }

  lemma AfterLogin(userId: string, value: string, expiresAt: int)
    ensures
      var row := Session(userId, Hashed(value), None, expiresAt);
      Reach(LoginOf(userId, value, expiresAt)) == System(Store([row], map[userId := true], {Hashed(value)}), map[])
  {
    var start := System(Sessions.Run([]), map[]);
    var login, activate := Other(Login(userId, Hashed(value), expiresAt)), Other(SetActive(userId, true));
    RunThree(start, login, activate, Load(0));
    var row := Session(userId, Hashed(value), None, expiresAt);
    assert [] + [row] == [row] && {} + {Hashed(value)} == {Hashed(value)};
    assert Step(start, login).store == Store([row], map[], {Hashed(value)});
  }

  lemma LoginIsRedeemable(userId: string, value: string, expiresAt: int, now: int)
    requires expiresAt > now
    ensures
      var sys := Reach(LoginOf(userId, value, expiresAt));
      && TokensUnique(sys.store) && sys.calls == map[]
      && Redeemable(sys.store, userId, value, now) && IsActive(sys.store, userId)
  {
    AfterLogin(userId, value, expiresAt);
    MatchAnywhere([Session(userId, Hashed(value), None, expiresAt)], Query(userId, Hashed(value), Some(now)), 0);
  }

  /** A run from the empty tables in which that happens: one user logs in, and two requests with
      the new token overlap. */
  lemma OverlapIsReached()
    ensures
      var events := LoginOf("u", "t", 1000)
        + ([Lookup(0, Composite("u", "t"), 0), Lookup(1, Composite("u", "t"), 0)] + Rest(0, "c", 0, 1000) + Rest(1, "d", 0, 1000));
      IssuedBy(Reach(events), 0) && IssuedBy(Reach(events), 1)
  {
    var login := LoginOf("u", "t", 1000);
    var both := [Lookup(0, Composite("u", "t"), 0), Lookup(1, Composite("u", "t"), 0)] + Rest(0, "c", 0, 1000) + Rest(1, "d", 0, 1000);
    LoginIsRedeemable("u", "t", 1000, 0);
    OverlappingRefreshesBothIssue(Reach(login), 0, 1, "u", "t", "c", "d", 0, 1000);
    RunAppend(System(Sessions.Run([]), map[]), login, both);
  }
}
