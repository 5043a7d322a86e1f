/** Refresh-token rotation over the session table, by AuthService and by RefreshTokenUseCase,
    each call atomic. */
module Sessions {
  import opened Wrappers

  /** The refresh-token column: AuthService stores a bcrypt hash, which matches exactly the value
      it was made from; the use case stores the token itself. */
  datatype Stored = Hashed(value: string) | Plain(token: string)

  datatype Session = Session(userId: string, token: Stored, revokedAt: Option<int>, expiresAt: int)

  /** The session table and, of the users table, who exists and is active. issued collects every
      token ever stored; the program keeps no such set. */
  datatype Store = Store(sessions: seq<Session>, active: map<string, bool>, issued: set<Stored>)

  /** Issued carries the new refresh token as the client receives it. UserNotFound is the use
      case's alone: AuthService refuses a missing user as an inactive one. */
  datatype Outcome =
    | Issued(refreshToken: string)
    | TokenInvalid
    | TokenRevoked
    | TokenExpired
    | UserNotFound
    | UserInactive

  // ---------- Composite tokens ----------

  predicate DotFree(s: string) {
    '.' !in s
  }

  function Before(s: string): string {
    if s == "" || s[0] == '.' then "" else [s[0]] + Before(s[1..])
  }

  function AfterDot(s: string): string {
    if s == "" then "" else if s[0] == '.' then s[1..] else AfterDot(s[1..])
  }

  /** The first two parts of the token split at its dots, when neither is empty. */
  function Parse(token: string): Option<(string, string)> {
    var userId, value := Before(token), Before(AfterDot(token));
    if userId == "" || value == "" then None else Some((userId, value))
  }

  function Composite(userId: string, value: string): string {
    userId + "." + value
  }

  lemma {:induction false} BeforeDot(s: string, rest: string)
    requires DotFree(s)
    ensures Before(s + "." + rest) == s && AfterDot(s + "." + rest) == rest
  {
    if s == "" {
      assert s + "." + rest == "." + rest;
    } else {
      BeforeDot(s[1..], rest);
      assert (s + "." + rest)[1..] == s[1..] + "." + rest;
    }
  }

  lemma {:induction false} BeforeWhole(s: string)
    requires DotFree(s)
    ensures Before(s) == s
  {
    if s != "" {
      BeforeWhole(s[1..]);
    }
  }

  /** A token that was handed out is read back as the user and value it was made of. */
  lemma ParseComposite(userId: string, value: string)
    requires DotFree(userId) && DotFree(value) && userId != "" && value != ""
    ensures Parse(Composite(userId, value)) == Some((userId, value))
  {
    BeforeDot(userId, value);
    BeforeWhole(value);
  }

  lemma {:induction false} BeforeAndAfter(s: string)
    ensures DotFree(Before(s))
    ensures s == Before(s) || s == Before(s) + "." + AfterDot(s)
    ensures DotFree(s) ==> AfterDot(s) == ""
  {
    if s != "" && s[0] != '.' {
      BeforeAndAfter(s[1..]);
      assert s == [s[0]] + s[1..];
    } else if s != "" {
      assert s == "" + "." + s[1..];
    }
  }

  lemma {:induction false} BeforeIsFirst(u: string, rest: string)
    requires DotFree(u)
    ensures Before(u + "." + rest) == u && AfterDot(u + "." + rest) == rest
    ensures Before(u) == u
  {
    BeforeDot(u, rest);
    BeforeWhole(u);
  }

  /** A token is read as a user and a value exactly when these are its first two parts between
      dots, both non-empty; what follows a second dot does not matter. */
  lemma ParsesExactlyWhen(token: string, userId: string, value: string)
    ensures Parse(token) == Some((userId, value)) <==>
      && DotFree(userId) && DotFree(value) && userId != "" && value != ""
      && (token == userId + "." + value || exists rest: string :: token == userId + "." + (value + "." + rest))
  {
    if Parse(token) == Some((userId, value)) {
      BeforeAndAfter(token);
      BeforeAndAfter(AfterDot(token));
      if token == userId {
        assert AfterDot(token) == "";
      }
      if AfterDot(token) != value {
        assert token == userId + "." + (value + "." + AfterDot(AfterDot(token)));
      }
    }
    if DotFree(userId) && DotFree(value) && userId != "" && value != "" {
      BeforeIsFirst(userId, value);
      BeforeWhole(value);
      if rest: string :| token == userId + "." + (value + "." + rest) {
        BeforeIsFirst(userId, value + "." + rest);
        BeforeIsFirst(value, rest);
      }
    }
  }

  // ---------- Queries and updates ----------

  /** The where-clause of a lookup with the hash comparison; liveAt asks for sessions that
      expire later than that time. */
  datatype Query = Query(userId: string, token: Stored, liveAt: Option<int>)

  predicate Matches(s: Session, q: Query) {
    && s.userId == q.userId && s.revokedAt.None? && s.token == q.token
    && (q.liveAt.Some? ==> s.expiresAt > q.liveAt.value)
  }

  predicate AnyMatch(sessions: seq<Session>, q: Query) {
    sessions != [] && (Matches(sessions[0], q) || AnyMatch(sessions[1..], q))
  }

  function RevokeFirst(sessions: seq<Session>, q: Query, now: int): (r: seq<Session>)
    ensures |r| == |sessions|
  {
    if sessions == [] then []
    else if Matches(sessions[0], q) then [sessions[0].(revokedAt := Some(now))] + sessions[1..]
    else [sessions[0]] + RevokeFirst(sessions[1..], q, now)
  }

  function RevokedFor(s: Session, userId: string, now: int): Session {
    if s.userId == userId && s.revokedAt.None? then s.(revokedAt := Some(now)) else s
  }

  function RevokeUser(sessions: seq<Session>, userId: string, now: int): (r: seq<Session>)
    ensures |r| == |sessions|
  {
    if sessions == [] then []
    else [RevokedFor(sessions[0], userId, now)] + RevokeUser(sessions[1..], userId, now)
  }

  function CountUnrevoked(sessions: seq<Session>, userId: string): nat {
    if sessions == [] then 0
    else CountUnrevoked(sessions[1..], userId)
         + if sessions[0].userId == userId && sessions[0].revokedAt.None? then 1 else 0
  }

  predicate Deletable(s: Session, now: int) {
    s.expiresAt < now && s.revokedAt.Some?
  }

  function Cleaned(sessions: seq<Session>, now: int): seq<Session> {
    if sessions == [] then []
    else (if Deletable(sessions[0], now) then [] else [sessions[0]]) + Cleaned(sessions[1..], now)
  }

  function FindByToken(sessions: seq<Session>, token: Stored): Option<Session> {
    if sessions == [] then None
    else if sessions[0].token == token then Some(sessions[0])
    else FindByToken(sessions[1..], token)
  }

  /** UPDATE of the row with this token, which the unique index makes one row at most. */
  function RevokeToken(sessions: seq<Session>, token: Stored, now: int): (r: seq<Session>)
    ensures |r| == |sessions|
  {
    if sessions == [] then []
    else if sessions[0].token == token then [sessions[0].(revokedAt := Some(now))] + sessions[1..]
    else [sessions[0]] + RevokeToken(sessions[1..], token, now)
  }

  predicate IsActive(store: Store, userId: string) {
    userId in store.active && store.active[userId]
  }

  function Insert(store: Store, userId: string, token: Stored, expiresAt: int): Store {
    store.(sessions := store.sessions + [Session(userId, token, None, expiresAt)], issued := store.issued + {token})
  }

  // ---------- The operations ----------

  /** AuthService.refreshTokens. minted is the new random value, ttl the lifetime of a session. */
  function Refresh(store: Store, token: string, minted: string, now: int, ttl: int): (Outcome, Store) {
    var parsed := Parse(token);
    if parsed.None? then (TokenInvalid, store)
    else
      var (userId, value) := parsed.value;
      var q := Query(userId, Hashed(value), Some(now));
      if !AnyMatch(store.sessions, q) then
        (TokenRevoked, store.(sessions := RevokeUser(store.sessions, userId, now)))
      else
        var rotated := store.(sessions := RevokeFirst(store.sessions, q, now));
        if !IsActive(store, userId) then (UserInactive, rotated)
        else (Issued(Composite(userId, minted)), Insert(rotated, userId, Hashed(minted), now + ttl))
  }

  /** RefreshTokenUseCase.execute. */
  function RefreshCase(store: Store, token: string, minted: string, now: int, ttl: int): (Outcome, Store) {
    var found := FindByToken(store.sessions, Plain(token));
    if found.None? then (TokenInvalid, store)
    else
      var s := found.value;
      if s.revokedAt.Some? then
        (TokenRevoked, store.(sessions := RevokeUser(store.sessions, s.userId, now)))
      else if s.expiresAt < now then (TokenExpired, store)
      else if s.userId !in store.active then (UserNotFound, store)
      else if !store.active[s.userId] then (UserInactive, store)
      else
        var rotated := store.(sessions := RevokeToken(store.sessions, Plain(token), now));
        (Issued(minted), Insert(rotated, s.userId, Plain(minted), now + ttl))
  }

  /** AuthService.revokeToken: one session when the token names one of the user's, all of the
      user's sessions otherwise. */
  function Logout(store: Store, userId: string, token: Option<string>, now: int): Store {
    var value := if token.Some? then Before(AfterDot(token.value)) else "";
    var q := Query(userId, Hashed(value), None);
    if value != "" && AnyMatch(store.sessions, q) then
      store.(sessions := RevokeFirst(store.sessions, q, now))
    else
      store.(sessions := RevokeUser(store.sessions, userId, now))
  }

  datatype Op =
    | Login(userId: string, stored: Stored, expiresAt: int)
    | RefreshOp(token: string, minted: string, now: int, ttl: int)
    | RefreshCaseOp(token: string, minted: string, now: int, ttl: int)
    | LogoutOp(userId: string, presented: Option<string>, now: int)
    | RevokeAllOp(userId: string, now: int)
    | Cleanup(now: int)
    | SetActive(userId: string, active: bool)

  function Next(store: Store, op: Op): Store {
    match op
    case Login(userId, minted, expiresAt) => Insert(store, userId, minted, expiresAt)
    case RefreshOp(token, minted, now, ttl) => Refresh(store, token, minted, now, ttl).1
    case RefreshCaseOp(token, minted, now, ttl) => RefreshCase(store, token, minted, now, ttl).1
    case LogoutOp(userId, token, now) => Logout(store, userId, token, now)
    case RevokeAllOp(userId, now) => store.(sessions := RevokeUser(store.sessions, userId, now))
    case Cleanup(now) => store.(sessions := Cleaned(store.sessions, now))
    case SetActive(userId, active) => store.(active := store.active[userId := active])
  }

  function Run(ops: seq<Op>): Store {
    if ops == [] then Store([], map[], {})
    else Next(Run(ops[..|ops| - 1]), ops[|ops| - 1])
  }

  lemma {:induction false} FirstMatchAt(sessions: seq<Session>, q: Query, now: int, i: nat)
    requires i < |sessions| && Matches(sessions[i], q)
    requires forall j :: 0 <= j < i ==> !Matches(sessions[j], q)
    ensures AnyMatch(sessions, q)
    ensures RevokeFirst(sessions, q, now) == sessions[i := sessions[i].(revokedAt := Some(now))]
  {
    if i > 0 {
      var rest := sessions[1..];
      assert rest[i - 1] == sessions[i] && forall j :: 0 <= j < i - 1 ==> rest[j] == sessions[j + 1];
      FirstMatchAt(rest, q, now, i - 1);
    }
  }

  lemma {:induction false} NoMatchAnywhere(sessions: seq<Session>, q: Query)
    requires forall j :: 0 <= j < |sessions| ==> !Matches(sessions[j], q)
    ensures !AnyMatch(sessions, q)
  {
    if sessions != [] {
      NoMatchAnywhere(sessions[1..], q);
    }
  }

  // ---------- The table, updated in place ----------

  class SessionTable {
    var sessions: seq<Session>
    var active: map<string, bool>
    ghost var issued: set<Stored>

    ghost function View(): Store
      reads this
    {
      Store(sessions, active, issued)
    }

    constructor ()
      ensures View() == Run([])
    {
      sessions, active, issued := [], map[], {};
    }

    method Create(userId: string, token: Stored, expiresAt: int)
      modifies this
      ensures View() == Next(old(View()), Login(userId, token, expiresAt))
    {
      sessions := sessions + [Session(userId, token, None, expiresAt)];
      issued := issued + {token};
    }

    /** Compares the presented value with one session after the other. */
    method RevokeMatching(q: Query, now: int) returns (matched: bool)
      modifies this`sessions
      ensures matched == AnyMatch(old(sessions), q)
      ensures sessions == if matched then RevokeFirst(old(sessions), q, now) else old(sessions)
    {
      var i := 0;
      while i < |sessions|
        invariant i <= |sessions| && sessions == old(sessions)
        invariant forall j :: 0 <= j < i ==> !Matches(sessions[j], q)
      {
        if Matches(sessions[i], q) {
          FirstMatchAt(sessions, q, now, i);
          sessions := sessions[i := sessions[i].(revokedAt := Some(now))];
          return true;
        }
        i := i + 1;
      }
      NoMatchAnywhere(sessions, q);
      return false;
    }

    /** revokeAllTokens, and the same UPDATE within the other operations. */
    method RevokeAll(userId: string, now: int) returns (count: nat)
      modifies this`sessions
      ensures View() == Next(old(View()), RevokeAllOp(userId, now))
      ensures count == CountUnrevoked(old(sessions), userId)
    {
      count := 0;
      var i := |sessions|;
      while i > 0
        invariant 0 <= i <= |sessions| == |old(sessions)|
        invariant sessions == old(sessions)[..i] + RevokeUser(old(sessions)[i..], userId, now)
        invariant count == CountUnrevoked(old(sessions)[i..], userId)
      {
        i := i - 1;
        assert old(sessions)[i..] == [old(sessions)[i]] + old(sessions)[i + 1..];
        if sessions[i].userId == userId && sessions[i].revokedAt.None? {
          sessions := sessions[i := sessions[i].(revokedAt := Some(now))];
          count := count + 1;
        }
      }
    }

    method RefreshTokens(token: string, minted: string, now: int, ttl: int) returns (outcome: Outcome)
      modifies this
      ensures (outcome, View()) == Refresh(old(View()), token, minted, now, ttl)
    {
      var userId, value := Before(token), Before(AfterDot(token));
      if userId == "" || value == "" {
        return TokenInvalid;
      }
      var matched := RevokeMatching(Query(userId, Hashed(value), Some(now)), now);
      if !matched {
        var _ := RevokeAll(userId, now);
        return TokenRevoked;
      }
      if userId !in active || !active[userId] {
        return UserInactive;
      }
      Create(userId, Hashed(minted), now + ttl);
      return Issued(Composite(userId, minted));
    }

    method ExecuteRefresh(token: string, minted: string, now: int, ttl: int) returns (outcome: Outcome)
      modifies this
      ensures (outcome, View()) == RefreshCase(old(View()), token, minted, now, ttl)
    {
      var found := FindByToken(sessions, Plain(token));
      if found.None? {
        return TokenInvalid;
      }
      var session := found.value;
      if session.revokedAt.Some? {
        var _ := RevokeAll(session.userId, now);
        return TokenRevoked;
      }
      if session.expiresAt < now {
        return TokenExpired;
      }
      if session.userId !in active {
        return UserNotFound;
      }
      if !active[session.userId] {
        return UserInactive;
      }
      sessions := RevokeToken(sessions, Plain(token), now);
      Create(session.userId, Plain(minted), now + ttl);
      return Issued(minted);
    }

    method RevokeSession(userId: string, token: Option<string>, now: int)
      modifies this
      ensures View() == Next(old(View()), LogoutOp(userId, token, now))
    {
      if token.Some? {
        var value := Before(AfterDot(token.value));
        if value != "" {
          var matched := RevokeMatching(Query(userId, Hashed(value), None), now);
          if matched {
            return;
          }
        }
      }
      var _ := RevokeAll(userId, now);
    }

    method CleanupExpiredSessions(now: int) returns (count: nat)
      modifies this`sessions
      ensures View() == Next(old(View()), Cleanup(now))
      ensures count == |old(sessions)| - |sessions|
    {
      count := 0;
      var kept: seq<Session> := [];
      var i := |sessions|;
      while i > 0
        invariant 0 <= i <= |sessions| && sessions == old(sessions)
        invariant kept == Cleaned(sessions[i..], now)
        invariant count == |sessions| - i - |kept|
      {
        i := i - 1;
        assert sessions[i..] == [sessions[i]] + sessions[i + 1..];
        if sessions[i].expiresAt < now && sessions[i].revokedAt.Some? {
          count := count + 1;
        } else {
          kept := [sessions[i]] + kept;
        }
      }
      sessions := kept;
    }
  }
}
