/** What rotation promises over any run of logins, refreshes by either protocol, logouts and
    clean-ups. */
module SessionRotation {
  import opened Wrappers
  import opened Sessions

  /** The token an operation would store, if it gets that far. */
  function Mints(op: Op): Option<Stored> {
    match op
    case Login(_, stored, _) => Some(stored)
    case RefreshOp(_, minted, _, _) => Some(Hashed(minted))
    case RefreshCaseOp(_, minted, _, _) => Some(Plain(minted))
    case _ => None
  }

  predicate FreshFor(store: Store, op: Op) {
    Mints(op).Some? ==> Mints(op).value !in store.issued
  }

  /** Random token values never repeat. */
  predicate FreshTokens(ops: seq<Op>) {
    forall i :: 0 <= i < |ops| ==> FreshFor(Run(ops[..i]), ops[i])
  }

  /** The stored token that an operation redeems: it was live, and its session is rotated out. */
  function Redeems(store: Store, op: Op): Option<Stored> {
    match op
    case RefreshOp(token, minted, now, ttl) =>
      var outcome := Refresh(store, token, minted, now, ttl).0;
      if outcome.Issued? || outcome.UserInactive? then Some(Hashed(Parse(token).value.1)) else None
    case RefreshCaseOp(token, minted, now, ttl) =>
      if RefreshCase(store, token, minted, now, ttl).0.Issued? then Some(Plain(token)) else None
    case _ => None
  }

  function Redemptions(ops: seq<Op>, token: Stored): nat {
    if ops == [] then 0
    else
      var before, op := ops[..|ops| - 1], ops[|ops| - 1];
      Redemptions(before, token) + if Redeems(Run(before), op) == Some(token) then 1 else 0
  }

  // ---------- Tokens are unique, and a redeemed one is spent ----------

  predicate TokensUnique(store: Store) {
    && (forall i, j :: 0 <= i < j < |store.sessions| ==> store.sessions[i].token != store.sessions[j].token)
    && (forall i :: 0 <= i < |store.sessions| ==> store.sessions[i].token in store.issued)
  }

  /** No unrevoked session has this token, and none will: it was issued before. */
  predicate Spent(store: Store, token: Stored) {
    && token in store.issued
    && forall i :: 0 <= i < |store.sessions| && store.sessions[i].token == token ==>
         store.sessions[i].revokedAt.Some?
  }

  /** The second list is the first with some sessions revoked. */
  predicate OnlyRevokes(before: seq<Session>, after: seq<Session>) {
    && |after| == |before|
    && forall i :: 0 <= i < |before| ==>
         && after[i].userId == before[i].userId && after[i].token == before[i].token
         && after[i].expiresAt == before[i].expiresAt
         && (after[i].revokedAt.None? ==> before[i].revokedAt.None?)
  }

  lemma {:induction false} FirstMatch(sessions: seq<Session>, q: Query, now: int) returns (k: nat)
    ensures AnyMatch(sessions, q) ==>
      && k < |sessions| && Matches(sessions[k], q)
      && RevokeFirst(sessions, q, now) == sessions[k := sessions[k].(revokedAt := Some(now))]
    ensures !AnyMatch(sessions, q) ==> RevokeFirst(sessions, q, now) == sessions
  {
    k := 0;
    if sessions != [] && !Matches(sessions[0], q) {
      var rest := sessions[1..];
      var i := FirstMatch(rest, q, now);
      k := i + 1;
      assert sessions == [sessions[0]] + rest;
    }
  }

  lemma RevokeFirstRevokes(sessions: seq<Session>, q: Query, now: int)
    ensures OnlyRevokes(sessions, RevokeFirst(sessions, q, now))
    ensures AnyMatch(sessions, q) ==>
      exists k :: 0 <= k < |sessions| && Matches(sessions[k], q)
        && RevokeFirst(sessions, q, now)[k].revokedAt.Some?
  {
    var k := FirstMatch(sessions, q, now);
    if AnyMatch(sessions, q) {
      assert RevokeFirst(sessions, q, now)[k].revokedAt.Some?;
    }
  }

  lemma {:induction false} TokenAt(sessions: seq<Session>, token: Stored, now: int) returns (k: nat)
    ensures FindByToken(sessions, token).Some? ==>
      && k < |sessions| && sessions[k].token == token && sessions[k] == FindByToken(sessions, token).value
      && RevokeToken(sessions, token, now) == sessions[k := sessions[k].(revokedAt := Some(now))]
    ensures FindByToken(sessions, token).None? ==> RevokeToken(sessions, token, now) == sessions
  {
    k := 0;
    if sessions != [] && sessions[0].token != token {
      var rest := sessions[1..];
      var i := TokenAt(rest, token, now);
      k := i + 1;
      assert sessions == [sessions[0]] + rest;
    }
  }

  lemma RevokeTokenRevokes(sessions: seq<Session>, token: Stored, now: int)
    ensures OnlyRevokes(sessions, RevokeToken(sessions, token, now))
    ensures FindByToken(sessions, token).Some? ==>
      exists k :: 0 <= k < |sessions| && sessions[k].token == token && sessions[k] == FindByToken(sessions, token).value
        && RevokeToken(sessions, token, now)[k].revokedAt.Some?
  {
    var k := TokenAt(sessions, token, now);
    if FindByToken(sessions, token).Some? {
      assert RevokeToken(sessions, token, now)[k].revokedAt.Some?;
    }
  }

  lemma {:induction false} RevokeUserAt(sessions: seq<Session>, userId: string, now: int)
    ensures forall i :: 0 <= i < |sessions| ==>
      RevokeUser(sessions, userId, now)[i] == RevokedFor(sessions[i], userId, now)
  {
    if sessions != [] {
      RevokeUserAt(sessions[1..], userId, now);
    }
  }

  lemma {:induction false} CleanedIsPart(sessions: seq<Session>, now: int)
    ensures forall i :: 0 <= i < |Cleaned(sessions, now)| ==> Cleaned(sessions, now)[i] in sessions
    ensures forall s :: s in sessions && !Deletable(s, now) ==> s in Cleaned(sessions, now)
  {
    if sessions != [] {
      CleanedIsPart(sessions[1..], now);
    }
  }

  lemma {:induction false} CleanedStaysUnique(sessions: seq<Session>, now: int)
    requires forall i, j :: 0 <= i < j < |sessions| ==> sessions[i].token != sessions[j].token
    ensures forall i, j :: 0 <= i < j < |Cleaned(sessions, now)| ==>
      Cleaned(sessions, now)[i].token != Cleaned(sessions, now)[j].token
  {
    if sessions != [] {
      var rest := Cleaned(sessions[1..], now);
      CleanedStaysUnique(sessions[1..], now);
      CleanedIsPart(sessions[1..], now);
      forall j | 0 <= j < |rest|
        ensures rest[j].token != sessions[0].token
      {
        assert rest[j] in sessions[1..];
        var k :| 0 <= k < |sessions[1..]| && sessions[1..][k] == rest[j];
        assert sessions[k + 1] == rest[j];
      }
    }
  }

  /** How an operation changes the rows: it revokes some or deletes revoked ones, then perhaps
      adds a session with a token it minted. */
  predicate RowsEvolve(store: Store, after: Store, op: Op) {
    && store.issued <= after.issued
    && ((op.Cleanup? && after.sessions == Cleaned(store.sessions, op.now) && after.issued == store.issued)
        || (OnlyRevokes(store.sessions, after.sessions) && after.issued == store.issued)
        || (&& |after.sessions| == |store.sessions| + 1
            && OnlyRevokes(store.sessions, after.sessions[..|store.sessions|])
            && Mints(op) == Some(after.sessions[|store.sessions|].token)
            && after.sessions[|store.sessions|].revokedAt.None?
            && after.issued == store.issued + {Mints(op).value}))
  }

  lemma InsertEvolves(store: Store, rows: seq<Session>, userId: string, token: Stored, expiresAt: int, op: Op)
    requires OnlyRevokes(store.sessions, rows) && Mints(op) == Some(token)
    ensures RowsEvolve(store, Insert(store.(sessions := rows), userId, token, expiresAt), op)
  {
  }

  lemma RefreshEvolves(store: Store, op: Op)
    requires op.RefreshOp?
    ensures RowsEvolve(store, Next(store, op), op)
  {
    if Parse(op.token).Some? {
      var (userId, value) := Parse(op.token).value;
      var q := Query(userId, Hashed(value), Some(op.now));
      RevokeUserAt(store.sessions, userId, op.now);
      RevokeFirstRevokes(store.sessions, q, op.now);
      var rows := RevokeFirst(store.sessions, q, op.now);
      InsertEvolves(store, rows, userId, Hashed(op.minted), op.now + op.ttl, op);
    }
  }

  lemma RefreshCaseEvolves(store: Store, op: Op)
    requires op.RefreshCaseOp?
    ensures RowsEvolve(store, Next(store, op), op)
  {
    var token := Plain(op.token);
    var found, outcome := FindByToken(store.sessions, token), RefreshCase(store, op.token, op.minted, op.now, op.ttl).0;
    if found.Some? && outcome.TokenRevoked? {
      RevokeUserAt(store.sessions, found.value.userId, op.now);
    } else if found.Some? && outcome.Issued? {
      RevokeTokenRevokes(store.sessions, token, op.now);
      var rows := RevokeToken(store.sessions, token, op.now);
      InsertEvolves(store, rows, found.value.userId, Plain(op.minted), op.now + op.ttl, op);
    } else {
      assert Next(store, op) == store;
    }
  }

  lemma StepEvolves(store: Store, op: Op)
    ensures RowsEvolve(store, Next(store, op), op)
  {
    match op
    case RefreshOp(_, _, _, _) => RefreshEvolves(store, op);
    case RefreshCaseOp(_, _, _, _) => RefreshCaseEvolves(store, op);
    case LogoutOp(userId, presented, now) =>
      RevokeUserAt(store.sessions, userId, now);
      var value := if presented.Some? then Before(AfterDot(presented.value)) else "";
      RevokeFirstRevokes(store.sessions, Query(userId, Hashed(value), None), now);
    case RevokeAllOp(userId, now) => RevokeUserAt(store.sessions, userId, now);
    case Login(userId, stored, expiresAt) => InsertEvolves(store, store.sessions, userId, stored, expiresAt, op);
    case _ =>
  }

  lemma EvolvingKeepsUnique(store: Store, after: Store, op: Op)
    requires TokensUnique(store) && FreshFor(store, op) && RowsEvolve(store, after, op)
    ensures TokensUnique(after)
  {
    if op.Cleanup? {
      CleanedStaysUnique(store.sessions, op.now);
      CleanedIsPart(store.sessions, op.now);
    }
  }

  lemma EvolvingKeepsSpent(store: Store, after: Store, op: Op, token: Stored)
    requires FreshFor(store, op) && Spent(store, token) && RowsEvolve(store, after, op)
    ensures Spent(after, token)
  {
    if op.Cleanup? {
      CleanedIsPart(store.sessions, op.now);
    }
  }

  lemma RedemptionSpends(store: Store, op: Op, token: Stored)
    requires TokensUnique(store) && FreshFor(store, op)
    requires Redeems(store, op) == Some(token)
    ensures Spent(Next(store, op), token) && !Spent(store, token)
  {
    match op
    case RefreshOp(t, minted, now, ttl) =>
      var (userId, value) := Parse(t).value;
      var q := Query(userId, Hashed(value), Some(now));
      RevokeFirstRevokes(store.sessions, q, now);
      var k :| 0 <= k < |store.sessions| && Matches(store.sessions[k], q)
        && RevokeFirst(store.sessions, q, now)[k].revokedAt.Some?;
    case RefreshCaseOp(t, minted, now, ttl) =>
      RevokeTokenRevokes(store.sessions, Plain(t), now);
  }

  lemma {:induction false} RunRedeemsOnce(ops: seq<Op>, token: Stored)
    requires FreshTokens(ops)
    ensures TokensUnique(Run(ops))
    ensures Redemptions(ops, token) <= 1
    ensures Redemptions(ops, token) == 1 ==> Spent(Run(ops), token)
  {
    if ops != [] {
      var before, op := ops[..|ops| - 1], ops[|ops| - 1];
      assert forall i :: 0 <= i < |before| ==> before[..i] == ops[..i];
      RunRedeemsOnce(before, token);
      StepEvolves(Run(before), op);
      EvolvingKeepsUnique(Run(before), Run(ops), op);
      if Redeems(Run(before), op) == Some(token) {
        RedemptionSpends(Run(before), op, token);
      } else if Redemptions(before, token) == 1 {
        EvolvingKeepsSpent(Run(before), Run(ops), op, token);
      }
    }
  }

  /** Over any run with fresh token values, whatever is presented and whichever protocol serves
      it, each refresh token is redeemed at most once. */
  lemma EachTokenIsRedeemedOnce(ops: seq<Op>, token: Stored)
    requires FreshTokens(ops)
    ensures Redemptions(ops, token) <= 1
  {
    RunRedeemsOnce(ops, token);
  }

  // ---------- Reuse ends every session ----------

  /** A presented token that matches no live session of its user, or in the use case one that
      was revoked before, leaves that user without an unrevoked session. */
  lemma ReuseRevokesAll(store: Store, token: string, minted: string, now: int, ttl: int)
    ensures Refresh(store, token, minted, now, ttl).0.TokenRevoked? ==>
      forall s :: s in Refresh(store, token, minted, now, ttl).1.sessions && s.userId == Before(token) ==>
        s.revokedAt.Some?
    ensures RefreshCase(store, token, minted, now, ttl).0.TokenRevoked? ==>
      forall s :: s in RefreshCase(store, token, minted, now, ttl).1.sessions ==>
        (s.userId == FindByToken(store.sessions, Plain(token)).value.userId ==> s.revokedAt.Some?)
  {
    RevokeUserAt(store.sessions, Before(token), now);
    if FindByToken(store.sessions, Plain(token)).Some? {
      RevokeUserAt(store.sessions, FindByToken(store.sessions, Plain(token)).value.userId, now);
    }
  }

  /** And in AuthService a second presentation of a redeemed token is such a case: it never
      issues anything. */
  lemma SpentTokenIsRefused(store: Store, userId: string, value: string, minted: string, now: int, ttl: int)
    requires DotFree(userId) && DotFree(value) && userId != "" && value != ""
    requires Spent(store, Hashed(value))
    ensures Refresh(store, Composite(userId, value), minted, now, ttl).0 == TokenRevoked
  {
    ParseComposite(userId, value);
    var q := Query(userId, Hashed(value), Some(now));
    if AnyMatch(store.sessions, q) {
      RevokeFirstRevokes(store.sessions, q, now);
    }
  }

  /** In the use case it is one as long as its row is there, whether or not it has expired. */
  lemma SpentTokenEndsTheUseCase(store: Store, token: string, minted: string, now: int, ttl: int)
    requires Spent(store, Plain(token))
    ensures RefreshCase(store, token, minted, now, ttl).0 ==
      if FindByToken(store.sessions, Plain(token)).Some? then TokenRevoked else TokenInvalid
  {
    var _ := TokenAt(store.sessions, Plain(token), now);
  }

  /** Logging out with one of the user's own tokens spends it, and touches no other user. */
  lemma LogoutSpendsTheToken(store: Store, userId: string, value: string, now: int)
    requires TokensUnique(store) && Hashed(value) in store.issued
    requires DotFree(userId) && DotFree(value) && userId != "" && value != ""
    requires forall s :: s in store.sessions && s.token == Hashed(value) ==> s.userId == userId
    ensures
      var after := Logout(store, userId, Some(Composite(userId, value)), now);
      && Spent(after, Hashed(value))
      && |after.sessions| == |store.sessions|
      && forall i :: 0 <= i < |store.sessions| && store.sessions[i].userId != userId ==>
           after.sessions[i] == store.sessions[i]
  {
    ParseComposite(userId, value);
    var q := Query(userId, Hashed(value), None);
    var k := FirstMatch(store.sessions, q, now);
    RevokeUserAt(store.sessions, userId, now);
  }

  // ---------- When a refresh issues ----------

  lemma {:induction false} NotFoundByToken(sessions: seq<Session>, token: Stored)
    ensures FindByToken(sessions, token).None? <==> forall s :: s in sessions ==> s.token != token
  {
    if sessions != [] {
      NotFoundByToken(sessions[1..], token);
      assert sessions == [sessions[0]] + sessions[1..];
    }
  }

  lemma RowOfToken(store: Store, k: nat, token: Stored, now: int)
    requires TokensUnique(store) && k < |store.sessions| && store.sessions[k].token == token
    ensures FindByToken(store.sessions, token) == Some(store.sessions[k])
    ensures RevokeToken(store.sessions, token, now) == store.sessions[k := store.sessions[k].(revokedAt := Some(now))]
  {
    NotFoundByToken(store.sessions, token);
    var m := TokenAt(store.sessions, token, now);
  }

  /** The sessions after all unrevoked ones of the user have been revoked. */
  predicate UserRevoked(before: seq<Session>, after: seq<Session>, userId: string, now: int) {
    && |after| == |before|
    && forall i :: 0 <= i < |before| ==>
         after[i] == if before[i].userId == userId && before[i].revokedAt.None?
                     then before[i].(revokedAt := Some(now)) else before[i]
  }

  /** Every outcome of the use case, from the row that the token names and the users, with the
      table it leaves: it issues exactly for an unrevoked, unexpired row of an active user. */
  lemma UseCaseOutcomes(store: Store, k: nat, token: string, minted: string, now: int, ttl: int)
    requires TokensUnique(store) && k < |store.sessions| && store.sessions[k].token == Plain(token)
    ensures
      var row, (outcome, after) := store.sessions[k], RefreshCase(store, token, minted, now, ttl);
      var known, active := row.userId in store.active, row.userId in store.active && store.active[row.userId];
      && (outcome == TokenRevoked <==> row.revokedAt.Some?)
      && (outcome == TokenExpired <==> row.revokedAt.None? && row.expiresAt < now)
      && (outcome == UserNotFound <==> row.revokedAt.None? && row.expiresAt >= now && !known)
      && (outcome == UserInactive <==> row.revokedAt.None? && row.expiresAt >= now && known && !active)
      && (outcome == Issued(minted) <==> row.revokedAt.None? && row.expiresAt >= now && active)
      && (outcome.Issued? ==>
            after.sessions == store.sessions[k := row.(revokedAt := Some(now))]
                              + [Session(row.userId, Plain(minted), None, now + ttl)])
      && (outcome == TokenRevoked ==> UserRevoked(store.sessions, after.sessions, row.userId, now))
      && (!outcome.Issued? && outcome != TokenRevoked ==> after.sessions == store.sessions)
      && after.active == store.active
  {
    RowOfToken(store, k, Plain(token), now);
    RevokeUserAt(store.sessions, store.sessions[k].userId, now);
  }

  /** A token that no row has is invalid, and only such a token. */
  lemma UnknownTokenIsInvalid(store: Store, token: string, minted: string, now: int, ttl: int)
    ensures RefreshCase(store, token, minted, now, ttl).0 == TokenInvalid <==>
      forall s :: s in store.sessions ==> s.token != Plain(token)
    ensures RefreshCase(store, token, minted, now, ttl).0 == TokenInvalid ==>
      RefreshCase(store, token, minted, now, ttl).1 == store
  {
    NotFoundByToken(store.sessions, Plain(token));
  }

  /** The token that the use case hands out is accepted by the next call within its lifetime. */
  lemma HandedOutTokenIsAccepted(
    store: Store, token: string, minted: string, now: int, ttl: int, next: string, later: int, ttl': int)
    requires TokensUnique(store) && Plain(minted) !in store.issued
    requires RefreshCase(store, token, minted, now, ttl).0 == Issued(minted) && later <= now + ttl
    ensures RefreshCase(RefreshCase(store, token, minted, now, ttl).1, minted, next, later, ttl').0 == Issued(next)
  {
    NotFoundByToken(store.sessions, Plain(token));
    var k :| 0 <= k < |store.sessions| && store.sessions[k].token == Plain(token);
    UseCaseOutcomes(store, k, token, minted, now, ttl);
    var op := RefreshCaseOp(token, minted, now, ttl);
    StepEvolves(store, op);
    EvolvingKeepsUnique(store, Next(store, op), op);
    UseCaseOutcomes(Next(store, op), |store.sessions|, minted, next, later, ttl');
  }

  /** Every outcome of AuthService for a token in its format, from the row with that value and the
      users, with the table it leaves. */
  lemma RefreshOutcomes(store: Store, k: nat, userId: string, value: string, minted: string, now: int, ttl: int)
    requires TokensUnique(store) && k < |store.sessions| && store.sessions[k].token == Hashed(value)
    requires DotFree(userId) && DotFree(value) && userId != "" && value != ""
    ensures
      var row, (outcome, after) := store.sessions[k], Refresh(store, userId + "." + value, minted, now, ttl);
      var live := row.userId == userId && row.revokedAt.None? && row.expiresAt > now;
      var active := userId in store.active && store.active[userId];
      && (outcome == TokenRevoked <==> !live)
      && (outcome == UserInactive <==> live && !active)
      && (outcome == Issued(userId + "." + minted) <==> live && active)
      && (outcome.Issued? ==>
            after.sessions == store.sessions[k := row.(revokedAt := Some(now))]
                              + [Session(userId, Hashed(minted), None, now + ttl)])
      && (outcome == UserInactive ==> after.sessions == store.sessions[k := row.(revokedAt := Some(now))])
      && (outcome == TokenRevoked ==> UserRevoked(store.sessions, after.sessions, userId, now))
      && after.active == store.active
  {
    ParseComposite(userId, value);
    var q := Query(userId, Hashed(value), Some(now));
    var m := FirstMatch(store.sessions, q, now);
    if forall j :: 0 <= j < |store.sessions| ==> !Matches(store.sessions[j], q) {
      NoMatchAnywhere(store.sessions, q);
    } else if !AnyMatch(store.sessions, q) {
      MatchFound(store.sessions, q, k);
    }
    RevokeUserAt(store.sessions, userId, now);
  }

  lemma {:induction false} MatchFound(sessions: seq<Session>, q: Query, k: nat)
    requires k < |sessions| && Matches(sessions[k], q)
    ensures AnyMatch(sessions, q)
  {
    if k > 0 {
      MatchFound(sessions[1..], q, k - 1);
    }
  }

  /** The token that AuthService hands out is accepted by the next call within its lifetime. */
  lemma HandedOutPairIsAccepted(
    store: Store, userId: string, value: string, minted: string, now: int, ttl: int, next: string, later: int, ttl': int)
    requires TokensUnique(store) && Hashed(minted) !in store.issued && DotFree(userId) && userId != ""
    requires DotFree(value) && value != "" && DotFree(minted) && minted != ""
    requires Refresh(store, userId + "." + value, minted, now, ttl).0.Issued? && later < now + ttl
    ensures
      var (outcome, after) := Refresh(store, userId + "." + value, minted, now, ttl);
      Refresh(after, outcome.refreshToken, next, later, ttl').0 == Issued(userId + "." + next)
  {
    ParseComposite(userId, value);
    var m := FirstMatch(store.sessions, Query(userId, Hashed(value), Some(now)), now);
    RefreshOutcomes(store, m, userId, value, minted, now, ttl);
    var op := RefreshOp(userId + "." + value, minted, now, ttl);
    StepEvolves(store, op);
    EvolvingKeepsUnique(store, Next(store, op), op);
    RefreshOutcomes(Next(store, op), |store.sessions|, userId, minted, next, later, ttl');
  }

  // ---------- Logout and clean-up, row by row ----------

  predicate IsTheUsers(s: Session, userId: string, value: string) {
    s.userId == userId && s.token == Hashed(value) && s.revokedAt.None?
  }

  /** A logout that names no token, or none that is the user's and live, revokes all of the user's
      sessions; one that names a live session of the user revokes that one alone. */
  lemma LogoutRevokes(store: Store, userId: string, value: string, now: int)
    requires TokensUnique(store) && DotFree(userId) && DotFree(value) && userId != "" && value != ""
    ensures UserRevoked(store.sessions, Logout(store, userId, None, now).sessions, userId, now)
    ensures
      var after := Logout(store, userId, Some(userId + "." + value), now).sessions;
      && (forall k :: 0 <= k < |store.sessions| && IsTheUsers(store.sessions[k], userId, value) ==>
            after == store.sessions[k := store.sessions[k].(revokedAt := Some(now))])
      && ((forall k :: 0 <= k < |store.sessions| ==> !IsTheUsers(store.sessions[k], userId, value)) ==>
            UserRevoked(store.sessions, after, userId, now))
    ensures forall token :: Logout(store, userId, token, now).active == store.active
  {
    ParseComposite(userId, value);
    RevokeUserAt(store.sessions, userId, now);
    var q := Query(userId, Hashed(value), None);
    var m := FirstMatch(store.sessions, q, now);
    forall k | 0 <= k < |store.sessions| && Matches(store.sessions[k], q)
      ensures AnyMatch(store.sessions, q)
    {
      MatchFound(store.sessions, q, k);
    }
  }

  /** The number that revoking all of a user's sessions reports counts each row that it changes
      once: none of none, and part by part. */
  lemma {:induction false} CountsEachRevokedRow(a: seq<Session>, b: seq<Session>, userId: string, now: int)
    ensures CountUnrevoked(a + b, userId) == CountUnrevoked(a, userId) + CountUnrevoked(b, userId)
    ensures |a| == 1 ==> CountUnrevoked(a, userId) == if RevokeUser(a, userId, now) != a then 1 else 0
    ensures a == [] ==> CountUnrevoked(a, userId) == 0
  {
    if a == [] {
      assert a + b == b;
    } else {
      CountsEachRevokedRow(a[1..], b, userId, now);
      assert (a + b)[0] == a[0] && (a + b)[1..] == a[1..] + b;
      RevokeUserAt(a, userId, now);
      if |a| == 1 {
        assert a[1..] == [];
      }
    }
  }

  /** Clean-up deletes exactly the rows that are revoked and whose expiry lies in the past. */
  lemma {:induction false} CleanupDeletes(sessions: seq<Session>, now: int, s: Session)
    ensures multiset(Cleaned(sessions, now))[s] ==
      if s.revokedAt.Some? && s.expiresAt < now then 0 else multiset(sessions)[s]
  {
    if sessions != [] {
      CleanupDeletes(sessions[1..], now, s);
      assert sessions == [sessions[0]] + sessions[1..];
    }
  }

  // ---------- Refreshing never adds a live session ----------

  predicate Live(s: Session, userId: string, now: int) {
    s.userId == userId && s.revokedAt.None? && s.expiresAt >= now
  }

  function LiveCount(sessions: seq<Session>, userId: string, now: int): nat {
    if sessions == [] then 0
    else LiveCount(sessions[1..], userId, now) + if Live(sessions[0], userId, now) then 1 else 0
  }

  lemma {:induction false} LiveAppend(sessions: seq<Session>, s: Session, userId: string, now: int)
    ensures LiveCount(sessions + [s], userId, now) ==
      LiveCount(sessions, userId, now) + if Live(s, userId, now) then 1 else 0
  {
    if sessions == [] {
      assert sessions + [s] == [s];
    } else {
      LiveAppend(sessions[1..], s, userId, now);
      assert (sessions + [s])[1..] == sessions[1..] + [s];
    }
  }

  lemma {:induction false} LiveAfterRevokeFirst(sessions: seq<Session>, q: Query, userId: string, now: int)
    requires q.liveAt == Some(now)
    ensures LiveCount(RevokeFirst(sessions, q, now), userId, now) ==
      LiveCount(sessions, userId, now) - if AnyMatch(sessions, q) && q.userId == userId then 1 else 0
  {
    if sessions != [] && !Matches(sessions[0], q) {
      LiveAfterRevokeFirst(sessions[1..], q, userId, now);
    }
  }

  lemma {:induction false} LiveAfterRevokeToken(sessions: seq<Session>, token: Stored, userId: string, now: int)
    ensures LiveCount(RevokeToken(sessions, token, now), userId, now) ==
      LiveCount(sessions, userId, now) -
        if FindByToken(sessions, token).Some? && Live(FindByToken(sessions, token).value, userId, now) then 1 else 0
  {
    if sessions != [] && sessions[0].token != token {
      LiveAfterRevokeToken(sessions[1..], token, userId, now);
    }
  }

  lemma {:induction false} LiveAfterRevokeUser(sessions: seq<Session>, revoked: string, userId: string, now: int)
    ensures LiveCount(RevokeUser(sessions, revoked, now), userId, now) ==
      if revoked == userId then 0 else LiveCount(sessions, userId, now)
  {
    if sessions != [] {
      LiveAfterRevokeUser(sessions[1..], revoked, userId, now);
    }
  }

  /** Neither protocol's refresh leaves any user more live sessions than before; one that issues a
      token leaves every user exactly as many, provided new sessions do not start expired. */
  lemma RefreshAddsNoSession(store: Store, token: string, minted: string, now: int, ttl: int, userId: string)
    ensures
      var (outcome, after) := Refresh(store, token, minted, now, ttl);
      && LiveCount(after.sessions, userId, now) <= LiveCount(store.sessions, userId, now)
      && (outcome.Issued? && ttl >= 0 ==>
            LiveCount(after.sessions, userId, now) == LiveCount(store.sessions, userId, now))
    ensures
      var (outcome, after) := RefreshCase(store, token, minted, now, ttl);
      && LiveCount(after.sessions, userId, now) <= LiveCount(store.sessions, userId, now)
      && (outcome.Issued? && ttl >= 0 ==>
            LiveCount(after.sessions, userId, now) == LiveCount(store.sessions, userId, now))
  {
    if Parse(token).Some? {
      var (owner, value) := Parse(token).value;
      var q := Query(owner, Hashed(value), Some(now));
      LiveAfterRevokeUser(store.sessions, owner, userId, now);
      LiveAfterRevokeFirst(store.sessions, q, userId, now);
      LiveAppend(RevokeFirst(store.sessions, q, now), Session(owner, Hashed(minted), None, now + ttl), userId, now);
    }
    var found := FindByToken(store.sessions, Plain(token));
    if found.Some? {
      var owner := found.value.userId;
      LiveAfterRevokeUser(store.sessions, owner, userId, now);
      LiveAfterRevokeToken(store.sessions, Plain(token), userId, now);
      LiveAppend(RevokeToken(store.sessions, Plain(token), now), Session(owner, Plain(minted), None, now + ttl), userId, now);
    }
  }

  // ---------- Clean-up is invisible to AuthService ----------

  function Unrevoked(sessions: seq<Session>): seq<Session> {
    if sessions == [] then []
    else (if sessions[0].revokedAt.None? then [sessions[0]] else []) + Unrevoked(sessions[1..])
  }

  /** All that AuthService looks at. */
  predicate Alike(a: Store, b: Store) {
    Unrevoked(a.sessions) == Unrevoked(b.sessions) && a.active == b.active
  }

  lemma {:induction false} UnrevokedCleaned(sessions: seq<Session>, now: int)
    ensures Unrevoked(Cleaned(sessions, now)) == Unrevoked(sessions)
  {
    if sessions != [] {
      UnrevokedCleaned(sessions[1..], now);
      var rest := Cleaned(sessions[1..], now);
      assert ([sessions[0]] + rest)[1..] == rest;
      assert [] + rest == rest;
    }
  }

  lemma {:induction false} UnrevokedAppend(sessions: seq<Session>, s: Session)
    requires s.revokedAt.None?
    ensures Unrevoked(sessions + [s]) == Unrevoked(sessions) + [s]
  {
    if sessions == [] {
      assert sessions + [s] == [s] && [s][1..] == [];
    } else {
      var rest := sessions[1..];
      UnrevokedAppend(rest, s);
      assert (sessions + [s])[1..] == rest + [s] && (sessions + [s])[0] == sessions[0];
      var head := if sessions[0].revokedAt.None? then [sessions[0]] else [];
      assert head + (Unrevoked(rest) + [s]) == head + Unrevoked(rest) + [s];
    }
  }

  lemma {:induction false} MatchInUnrevoked(sessions: seq<Session>, q: Query, now: int)
    ensures AnyMatch(sessions, q) == AnyMatch(Unrevoked(sessions), q)
    ensures Unrevoked(RevokeFirst(sessions, q, now)) == Unrevoked(RevokeFirst(Unrevoked(sessions), q, now))
  {
    if sessions != [] {
      MatchInUnrevoked(sessions[1..], q, now);
      var head, rest := sessions[0], sessions[1..];
      var live := Unrevoked(sessions);
      if head.revokedAt.None? {
        assert live[0] == head && live[1..] == Unrevoked(rest);
        UnrevokedTwice(rest);
        assert RevokeFirst(sessions, q, now)[1..] == if Matches(head, q) then rest else RevokeFirst(rest, q, now);
        assert RevokeFirst(live, q, now)[1..] == if Matches(head, q) then live[1..] else RevokeFirst(live[1..], q, now);
      } else {
        assert live == Unrevoked(rest);
        assert RevokeFirst(sessions, q, now)[1..] == RevokeFirst(rest, q, now);
      }
    }
  }

  lemma {:induction false} UnrevokedTwice(sessions: seq<Session>)
    ensures Unrevoked(Unrevoked(sessions)) == Unrevoked(sessions)
  {
    if sessions != [] {
      var rest := Unrevoked(sessions[1..]);
      UnrevokedTwice(sessions[1..]);
      assert ([sessions[0]] + rest)[1..] == rest && [] + rest == rest;
    }
  }

  lemma {:induction false} RevokeUserInUnrevoked(sessions: seq<Session>, userId: string, now: int)
    ensures Unrevoked(RevokeUser(sessions, userId, now)) == Unrevoked(RevokeUser(Unrevoked(sessions), userId, now))
    ensures CountUnrevoked(sessions, userId) == CountUnrevoked(Unrevoked(sessions), userId)
  {
    if sessions != [] {
      RevokeUserInUnrevoked(sessions[1..], userId, now);
      var live := Unrevoked(sessions);
      if sessions[0].revokedAt.None? {
        assert live[0] == sessions[0] && live[1..] == Unrevoked(sessions[1..]);
      } else {
        assert live == Unrevoked(sessions[1..]);
      }
    }
  }

  lemma AlikeRefresh(a: Store, b: Store, token: string, minted: string, now: int, ttl: int)
    requires Alike(a, b)
    ensures Refresh(a, token, minted, now, ttl).0 == Refresh(b, token, minted, now, ttl).0
    ensures Alike(Refresh(a, token, minted, now, ttl).1, Refresh(b, token, minted, now, ttl).1)
  {
    if Parse(token).Some? {
      var (userId, value) := Parse(token).value;
      var q, s := Query(userId, Hashed(value), Some(now)), Session(userId, Hashed(minted), None, now + ttl);
      AlikeRevoke(a, b, q, now);
      UnrevokedAppend(RevokeFirst(a.sessions, q, now), s);
      UnrevokedAppend(RevokeFirst(b.sessions, q, now), s);
    }
  }

  lemma AlikeRevoke(a: Store, b: Store, q: Query, now: int)
    requires Alike(a, b)
    ensures AnyMatch(a.sessions, q) == AnyMatch(b.sessions, q)
    ensures Unrevoked(RevokeFirst(a.sessions, q, now)) == Unrevoked(RevokeFirst(b.sessions, q, now))
    ensures Unrevoked(RevokeUser(a.sessions, q.userId, now)) == Unrevoked(RevokeUser(b.sessions, q.userId, now))
    ensures CountUnrevoked(a.sessions, q.userId) == CountUnrevoked(b.sessions, q.userId)
  {
    MatchInUnrevoked(a.sessions, q, now);
    MatchInUnrevoked(b.sessions, q, now);
    RevokeUserInUnrevoked(a.sessions, q.userId, now);
    RevokeUserInUnrevoked(b.sessions, q.userId, now);
  }

  /** An operation of AuthService, on two stores that agree on unrevoked sessions, leaves them in
      agreement, and revokeAllTokens reports the same number. */
  lemma AlikeStep(a: Store, b: Store, op: Op)
    requires Alike(a, b) && !op.RefreshCaseOp? && !op.Cleanup?
    ensures Alike(Next(a, op), Next(b, op))
    ensures op.RevokeAllOp? ==> CountUnrevoked(a.sessions, op.userId) == CountUnrevoked(b.sessions, op.userId)
  {
    match op
    case Login(userId, stored, expiresAt) =>
      UnrevokedAppend(a.sessions, Session(userId, stored, None, expiresAt));
      UnrevokedAppend(b.sessions, Session(userId, stored, None, expiresAt));
    case RefreshOp(token, minted, now, ttl) => AlikeRefresh(a, b, token, minted, now, ttl);
    case LogoutOp(userId, presented, now) =>
      var value := if presented.Some? then Before(AfterDot(presented.value)) else "";
      AlikeRevoke(a, b, Query(userId, Hashed(value), None), now);
    case RevokeAllOp(userId, now) => AlikeRevoke(a, b, Query(userId, Hashed(""), None), now);
    case _ =>
  }

  function WithoutCleanup(ops: seq<Op>): seq<Op> {
    if ops == [] then []
    else
      var last := ops[|ops| - 1];
      WithoutCleanup(ops[..|ops| - 1]) + if last.Cleanup? then [] else [last]
  }

  lemma {:induction false} CleanupRunsAlike(ops: seq<Op>)
    requires forall i :: 0 <= i < |ops| ==> !ops[i].RefreshCaseOp?
    ensures Alike(Run(ops), Run(WithoutCleanup(ops)))
  {
    if ops != [] {
      var before, op := ops[..|ops| - 1], ops[|ops| - 1];
      CleanupRunsAlike(before);
      var kept := WithoutCleanup(ops);
      if op.Cleanup? {
        UnrevokedCleaned(Run(before).sessions, op.now);
        assert kept == WithoutCleanup(before);
      } else {
        AlikeStep(Run(before), Run(WithoutCleanup(before)), op);
        assert kept[..|kept| - 1] == WithoutCleanup(before);
      }
    }
  }

  /** In any run of AuthService operations, clean-ups at any time change no later refresh: its
      outcome is what it would be had nothing ever been deleted. */
  lemma CleanupChangesNoRefresh(ops: seq<Op>, token: string, minted: string, now: int, ttl: int)
    requires forall i :: 0 <= i < |ops| ==> !ops[i].RefreshCaseOp?
    ensures Refresh(Run(ops), token, minted, now, ttl).0 == Refresh(Run(WithoutCleanup(ops)), token, minted, now, ttl).0
  {
    CleanupRunsAlike(ops);
    AlikeRefresh(Run(ops), Run(WithoutCleanup(ops)), token, minted, now, ttl);
  }

  /** The use case does notice: a clean-up changes its answer for a token exactly when it deletes
      that token's row. The reuse of a deleted token is then merely invalid, and the user's
      other sessions stay. */
  lemma CleanupBlindsTheUseCase(store: Store, token: string, minted: string, now: int, ttl: int, swept: int)
    requires TokensUnique(store)
    ensures
      var cleaned := store.(sessions := Cleaned(store.sessions, swept));
      var found := FindByToken(store.sessions, Plain(token));
      RefreshCase(cleaned, token, minted, now, ttl).0 == RefreshCase(store, token, minted, now, ttl).0
      <==> !(found.Some? && Deletable(found.value, swept))
  {
    FindInCleaned(store.sessions, Plain(token), swept);
  }

  lemma {:induction false} FindInCleaned(sessions: seq<Session>, token: Stored, swept: int)
    requires forall i, j :: 0 <= i < j < |sessions| ==> sessions[i].token != sessions[j].token
    ensures
      var found := FindByToken(sessions, token);
      FindByToken(Cleaned(sessions, swept), token) ==
        if found.Some? && Deletable(found.value, swept) then None else found
  {
    if sessions != [] {
      FindInCleaned(sessions[1..], token, swept);
      var rest := Cleaned(sessions[1..], swept);
      assert ([sessions[0]] + rest)[1..] == rest && [] + rest == rest;
      if sessions[0].token == token {
        var _ := TokenAt(sessions[1..], token, 0);
      }
    }
  }
}
