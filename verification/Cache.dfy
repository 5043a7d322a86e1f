/** CacheService over a Redis that may drop any entry at any time, and the Cached decorator.
    Values are what JSON can carry: None stands for null, and writing then reading a value gives
    it back. */
module Cache {
  import opened Wrappers

  datatype Item<V> = Item(value: Option<V>, expiresAt: int)

  type Redis<V> = map<string, Item<V>>

  datatype Stats = Stats(hits: nat, misses: nat, sets: nat, deletes: nat, errors: nat)

  /** A failed Redis command, or an invalid expiry, surfaces as a CacheError. */
  datatype Reply<V> = Value(value: Option<V>) | CacheError

  const DEFAULT_TTL: int := 300

  function BuildKey(key: string, namespace: string): string {
    if namespace != "" then namespace + ":" + key else key
  }

  predicate Present<V>(store: Redis<V>, key: string, now: int) {
    key in store && now < store[key].expiresAt
  }

  /** get: null when there is no entry, and also when the entry is null. */
  function Lookup<V>(store: Redis<V>, key: string, now: int): Option<V> {
    if Present(store, key, now) then store[key].value else None
  }

  function Stored<V>(store: Redis<V>, key: string, value: Option<V>, ttl: int, now: int): Redis<V> {
    store[key := Item(value, now + 1000 * ttl)]
  }

  /** An entry is read for ttl seconds from its write and not a millisecond longer; a write to one
      key changes no other. */
  lemma EntryLivesForItsTtl<V>(
    store: Redis<V>, key: string, value: Option<V>, ttl: int, now: int, other: string, later: int)
    ensures
      var after := Stored(store, key, value, ttl, now);
      && Lookup(after, key, later) == (if later < now + 1000 * ttl then value else None)
      && (other != key ==> Lookup(after, other, later) == Lookup(store, other, later))
  {
  }

  // ---------- Cache keys ----------

  /** args.join(':') */
  function Join(args: seq<string>): string {
    if args == [] then ""
    else if |args| == 1 then args[0]
    else args[0] + ":" + Join(args[1..])
  }

  function CacheKey(key: string, args: seq<string>): string {
    key + ":" + Join(args)
  }

  predicate ColonFree(s: string) {
    ':' !in s
  }

  predicate AllColonFree(args: seq<string>) {
    forall i :: 0 <= i < |args| ==> ColonFree(args[i])
  }

  function UpToColon(s: string): string {
    if s == "" || s[0] == ':' then "" else [s[0]] + UpToColon(s[1..])
  }

  lemma {:induction false} UpToFirstColon(a: string, rest: string)
    requires ColonFree(a)
    ensures UpToColon(a + ":" + rest) == a
  {
    if a == "" {
      assert a + ":" + rest == ":" + rest;
    } else {
      UpToFirstColon(a[1..], rest);
      assert (a + ":" + rest)[1..] == a[1..] + ":" + rest;
    }
  }

  lemma FirstColon(a: string, b: string, rest: string, rest': string)
    requires ColonFree(a) && ColonFree(b)
    requires a + ":" + rest == b + ":" + rest'
    ensures a == b && rest == rest'
  {
    UpToFirstColon(a, rest);
    UpToFirstColon(b, rest');
    assert rest == (a + ":" + rest)[|a| + 1..] && rest' == (b + ":" + rest')[|b| + 1..];
  }

  /** Colon-free argument lists share a joined string only when they are equal, or when one is
      empty and the other a single empty string. */
  lemma {:induction false} JoinIsInjective(a: seq<string>, b: seq<string>)
    requires AllColonFree(a) && AllColonFree(b)
    ensures Join(a) == Join(b) <==> a == b || (a in {[], [""]} && b in {[], [""]})
  {
    if |a| >= 2 && |b| >= 2 {
      JoinIsInjective(a[1..], b[1..]);
      assert a == [a[0]] + a[1..] && b == [b[0]] + b[1..];
      if Join(a) == Join(b) {
        FirstColon(a[0], b[0], Join(a[1..]), Join(b[1..]));
      }
    } else if |a| >= 2 {
      assert Join(a)[|a[0]|] == ':';
      assert ColonFree(Join(b));
    } else if |b| >= 2 {
      assert Join(b)[|b[0]|] == ':';
      assert ColonFree(Join(a));
    } else {
      assert a == [] || a == [Join(a)];
      assert b == [] || b == [Join(b)];
    }
  }

  // ---------- Cached methods ----------

  /** A pure method under its decorator: its key, arity, ttl and what it returns. */
  datatype Method<!V> = Method(arity: nat, ttl: int, body: seq<string> -> Option<V>)

  /** The decorated methods of one namespace, by decorator key. */
  type Family<!V> = map<string, Method<V>>

  predicate Valid<V>(family: Family<V>, key: string, args: seq<string>) {
    key in family && ColonFree(key) && AllColonFree(args) && |args| == family[key].arity
  }

  function FullKey(namespace: string, key: string, args: seq<string>): string {
    BuildKey(CacheKey(key, args), namespace)
  }

  /** No two calls of methods in one namespace share an entry. */
  lemma KeysDoNotCollide<V>(
    family: Family<V>, namespace: string, key: string, args: seq<string>, key': string, args': seq<string>)
    requires Valid(family, key, args) && Valid(family, key', args')
    requires FullKey(namespace, key, args) == FullKey(namespace, key', args')
    ensures key == key' && args == args'
  {
    var k, k' := CacheKey(key, args), CacheKey(key', args');
    assert k == k' by {
      if namespace != "" {
        assert (namespace + ":" + k)[|namespace| + 1..] == k;
        assert (namespace + ":" + k')[|namespace| + 1..] == k';
      }
    }
    FirstColon(key, key', Join(args), Join(args'));
    JoinIsInjective(args, args');
  }

  /** A decorated call: the key of its method, and its arguments. */
  datatype Call = Call(key: string, args: seq<string>)

  /** The decorated calls that a program makes. */
  type Calls = iset<Call>

  ghost predicate Known<V>(family: Family<V>, calls: Calls) {
    forall c :: c in calls ==> c.key in family
  }

  function KeyOf(namespace: string, c: Call): string {
    FullKey(namespace, c.key, c.args)
  }

  function BodyOf<V>(family: Family<V>, c: Call): Option<V>
    requires c.key in family
  {
    family[c.key].body(c.args)
  }

  /** The read and the write half of a decorated call are separate commands, so calls overlap in
      any order; a write carries what the method returned. Other code may write keys that no
      decorated call uses and delete any key, and Redis may evict anything. */
  datatype Event<V> =
    | ReadCall(call: Call, now: int)
    | WriteCall(call: Call, now: int)
    | OtherWrite(fullKey: string, item: Item<V>)
    | Drop(fullKeys: set<string>)

  ghost predicate Permitted<V>(namespace: string, calls: Calls, e: Event<V>) {
    match e
    case ReadCall(c, _) => c in calls
    case WriteCall(c, _) => c in calls
    case OtherWrite(fullKey, _) => forall c :: c in calls ==> KeyOf(namespace, c) != fullKey
    case Drop(_) => true
  }

  ghost predicate AllPermitted<V>(namespace: string, calls: Calls, events: seq<Event<V>>) {
    forall i :: 0 <= i < |events| ==> Permitted(namespace, calls, events[i])
  }

  function Next<V>(family: Family<V>, namespace: string, store: Redis<V>, e: Event<V>): Redis<V> {
    match e
    case ReadCall(_, _) => store
    case WriteCall(c, now) =>
      if c.key !in family || family[c.key].ttl <= 0 then store
      else Stored(store, KeyOf(namespace, c), BodyOf(family, c), family[c.key].ttl, now)
    case OtherWrite(fullKey, item) => store[fullKey := item]
    case Drop(fullKeys) => store - fullKeys
  }

  function Run<V>(family: Family<V>, namespace: string, events: seq<Event<V>>): Redis<V> {
    if events == [] then map[]
    else Next(family, namespace, Run(family, namespace, events[..|events| - 1]), events[|events| - 1])
  }

  /** What a decorated call returns, from the store it reads. */
  function CallResult<V>(
    family: Family<V>, namespace: string, store: Redis<V>, c: Call, now: int): Option<V>
    requires c.key in family
  {
    var cached := Lookup(store, KeyOf(namespace, c), now);
    if cached.Some? then cached else BodyOf(family, c)
  }

  /** value is what some call with that full key writes. */
  ghost predicate Written<V(!new)>(
    family: Family<V>, namespace: string, calls: Calls, fullKey: string, value: Option<V>)
    requires Known(family, calls)
  {
    exists w :: w in calls && KeyOf(namespace, w) == fullKey && family[w.key].ttl > 0 && value == BodyOf(family, w)
  }

  /** Every entry under a call's key holds what the method returns for some call with that key. */
  ghost predicate Honest<V(!new)>(family: Family<V>, namespace: string, calls: Calls, store: Redis<V>)
    requires Known(family, calls)
  {
    forall c :: c in calls && KeyOf(namespace, c) in store ==>
      Written(family, namespace, calls, KeyOf(namespace, c), store[KeyOf(namespace, c)].value)
  }

  lemma StepStaysHonest<V(!new)>(family: Family<V>, namespace: string, calls: Calls, store: Redis<V>, e: Event<V>)
    requires Known(family, calls) && Honest(family, namespace, calls, store) && Permitted(namespace, calls, e)
    ensures Honest(family, namespace, calls, Next(family, namespace, store, e))
  {
    var after := Next(family, namespace, store, e);
    forall c | c in calls && KeyOf(namespace, c) in after
      ensures Written(family, namespace, calls, KeyOf(namespace, c), after[KeyOf(namespace, c)].value)
    {
      if e.WriteCall? && KeyOf(namespace, c) == KeyOf(namespace, e.call) && family[e.call.key].ttl > 0 {
        assert after[KeyOf(namespace, c)].value == BodyOf(family, e.call);
      } else {
        assert KeyOf(namespace, c) in store && after[KeyOf(namespace, c)] == store[KeyOf(namespace, c)];
      }
    }
  }

  lemma {:induction false} RunStaysHonest<V(!new)>(
    family: Family<V>, namespace: string, calls: Calls, events: seq<Event<V>>)
    requires Known(family, calls) && AllPermitted(namespace, calls, events)
    ensures Honest(family, namespace, calls, Run(family, namespace, events))
  {
    if events != [] {
      var n := |events| - 1;
      RunStaysHonest(family, namespace, calls, events[..n]);
      StepStaysHonest(family, namespace, calls, Run(family, namespace, events[..n]), events[n]);
    }
  }

  /** The calls share a full key, and the first leaves a value there. */
  predicate Clashing<V>(family: Family<V>, namespace: string, c: Call, d: Call)
    requires c.key in family
  {
    KeyOf(namespace, c) == KeyOf(namespace, d) && family[c.key].ttl > 0 && BodyOf(family, c).Some?
  }

  /** No call leaves a value that a call with the same full key would not return. */
  ghost predicate NoClash<V(!new)>(family: Family<V>, namespace: string, calls: Calls)
    requires Known(family, calls)
  {
    forall c, d :: c in calls && d in calls && Clashing(family, namespace, c, d) ==>
      BodyOf(family, d) == BodyOf(family, c)
  }

  /** In every run every call returns what its method returns. */
  ghost predicate AlwaysAgrees<V(!new)>(family: Family<V>, namespace: string, calls: Calls)
    requires Known(family, calls)
  {
    forall events: seq<Event<V>>, c, now: int ::
      AllPermitted(namespace, calls, events) && c in calls ==>
        CallResult(family, namespace, Run(family, namespace, events), c, now) == BodyOf(family, c)
  }

  lemma HonestAgrees<V(!new)>(
    family: Family<V>, namespace: string, calls: Calls, store: Redis<V>, c: Call, now: int)
    requires Known(family, calls) && NoClash(family, namespace, calls) && Honest(family, namespace, calls, store)
    requires c in calls
    ensures CallResult(family, namespace, store, c, now) == BodyOf(family, c)
  {
    if Lookup(store, KeyOf(namespace, c), now).Some? {
      var fullKey := KeyOf(namespace, c);
      assert Written(family, namespace, calls, fullKey, store[fullKey].value);
      var w :| w in calls && KeyOf(namespace, w) == fullKey && family[w.key].ttl > 0
               && store[fullKey].value == BodyOf(family, w);
      assert Clashing(family, namespace, w, c);
    }
  }

  /** For any keys and arguments, with colons or without: over every interleaving of decorated
      calls, deletions, expiries and evictions each call of a pure method returns what the method
      returns, if and only if no two of the calls clash. */
  lemma CachedAgreesExactlyWhen<V(!new)>(family: Family<V>, namespace: string, calls: Calls)
    requires Known(family, calls)
    ensures AlwaysAgrees(family, namespace, calls) <==> NoClash(family, namespace, calls)
  {
    if NoClash(family, namespace, calls) {
      forall events: seq<Event<V>>, c, now: int | AllPermitted(namespace, calls, events) && c in calls
        ensures CallResult(family, namespace, Run(family, namespace, events), c, now) == BodyOf(family, c)
      {
        RunStaysHonest(family, namespace, calls, events);
        HonestAgrees(family, namespace, calls, Run(family, namespace, events), c, now);
      }
    }
    if AlwaysAgrees(family, namespace, calls) {
      forall c, d | c in calls && d in calls && Clashing(family, namespace, c, d)
        ensures BodyOf(family, d) == BodyOf(family, c)
      {
        ClashShows(family, namespace, calls, c, d);
      }
    }
  }

  /** One write is enough to show a clash: a call d that follows within the ttl of c returns c's
      value. */
  lemma ClashShows<V(!new)>(
    family: Family<V>, namespace: string, calls: Calls, c: Call, d: Call)
    requires Known(family, calls) && c in calls && d in calls && Clashing(family, namespace, c, d)
    ensures
      var events := [WriteCall(c, 0)];
      && AllPermitted<V>(namespace, calls, events)
      && CallResult(family, namespace, Run(family, namespace, events), d, 0) == BodyOf(family, c)
  {
    var events: seq<Event<V>> := [WriteCall(c, 0)];
    assert events[..0] == [];
    assert Run(family, namespace, events) == Next(family, namespace, map[], events[0]);
  }

  ghost function ColonFreeCalls<V>(family: Family<V>): Calls {
    iset c: Call | Valid(family, c.key, c.args)
  }

  /** Calls with colon-free arguments of their method's arity never clash, so they always agree. */
  lemma CachedAgreesWithMethod<V(!new)>(family: Family<V>, namespace: string)
    ensures Known(family, ColonFreeCalls(family)) && NoClash(family, namespace, ColonFreeCalls(family))
    ensures AlwaysAgrees(family, namespace, ColonFreeCalls(family))
  {
    var calls := ColonFreeCalls(family);
    forall c, d | c in calls && d in calls && KeyOf(namespace, c) == KeyOf(namespace, d)
      ensures c == d
    {
      KeysDoNotCollide(family, namespace, c.key, c.args, d.key, d.args);
    }
    CachedAgreesExactlyWhen(family, namespace, calls);
  }

  /** Argument lists with colons can clash: two that join alike share a key under any method. */
  lemma ColonsCollide()
    ensures ["a:b", "c"] != ["a", "b:c"] && Join(["a:b", "c"]) == Join(["a", "b:c"])
    ensures forall namespace, key :: KeyOf(namespace, Call(key, ["a:b", "c"])) == KeyOf(namespace, Call(key, ["a", "b:c"]))
  {
  }

  // ---------- Namespaces ----------

  /** What a namespace puts before every key. */
  function Qualifier(namespace: string): string {
    if namespace != "" then namespace + ":" else ""
  }

  lemma QualifiedKey(key: string, namespace: string)
    ensures BuildKey(key, namespace) == Qualifier(namespace) + key
  {
    assert "" + key == key;
  }

  lemma EqualPrefixes(a: string, x: string, b: string, y: string)
    requires a + x == b + y && |a| <= |b|
    ensures a <= b && x == b[|a|..] + y
  {
    assert forall i :: 0 <= i < |a| ==> a[i] == (a + x)[i] && b[i] == (b + y)[i];
    assert x == (a + x)[|a|..];
    assert (b + y)[|a|..] == b[|a|..] + y;
  }

  /** The second namespace starts with the first, followed by a colon; a nameless namespace starts
      every other. Such a pair shares keys. */
  lemma NestedNamespacesCollide(outer: string, inner: string) returns (c: Call, d: Call)
    requires Qualifier(outer) <= Qualifier(inner)
    ensures KeyOf(outer, c) == KeyOf(inner, d)
  {
    c, d := Call(Qualifier(inner)[|Qualifier(outer)|..], []), Call("", []);
    QualifiedKey(CacheKey(c.key, []), outer);
    QualifiedKey(CacheKey("", []), inner);
    assert Qualifier(outer) + (c.key + ":" + "") == Qualifier(inner) + ("" + ":" + "");
  }

  /** Two namespaces keep apart unless, with their colons, one begins with the other. In
      particular different non-empty namespaces without colons do. */
  lemma NamespacesCollideExactlyWhen(a: string, b: string)
    ensures (exists c, d :: KeyOf(a, c) == KeyOf(b, d)) <==>
      Qualifier(a) <= Qualifier(b) || Qualifier(b) <= Qualifier(a)
    ensures a != "" && b != "" && ColonFree(a) && ColonFree(b) ==>
      ((exists c, d :: KeyOf(a, c) == KeyOf(b, d)) <==> a == b)
  {
    if c, d :| KeyOf(a, c) == KeyOf(b, d) {
      var x, y := CacheKey(c.key, c.args), CacheKey(d.key, d.args);
      QualifiedKey(x, a);
      QualifiedKey(y, b);
      if |Qualifier(a)| <= |Qualifier(b)| {
        EqualPrefixes(Qualifier(a), x, Qualifier(b), y);
      } else {
        EqualPrefixes(Qualifier(b), y, Qualifier(a), x);
      }
    }
    if Qualifier(a) <= Qualifier(b) {
      var c, d := NestedNamespacesCollide(a, b);
    } else if Qualifier(b) <= Qualifier(a) {
      var d, c := NestedNamespacesCollide(b, a);
    }
    if a != "" && b != "" && ColonFree(a) && ColonFree(b) {
      ColonFreeQualifiers(a, b);
      ColonFreeQualifiers(b, a);
    }
  }

  lemma ColonFreeQualifiers(a: string, b: string)
    requires a != "" && b != "" && ColonFree(b)
    ensures Qualifier(a) <= Qualifier(b) ==> a == b
  {
    if Qualifier(a) <= Qualifier(b) {
      assert Qualifier(b)[|a|] == Qualifier(a)[|a|] == ':';
      assert |a| == |b|;
      assert a == Qualifier(a)[..|a|] == Qualifier(b)[..|b|] == b;
    }
  }

  /** With colon-free keys and arguments, too, a namespace with a colon meets another. */
  lemma NamespacesCollide()
    ensures KeyOf("a", Call("b", ["c", "x"])) == KeyOf("a:b", Call("c", ["x"])) == "a:b:c:x"
  {
    assert Join(["x"]) == "x";
    assert ["c", "x"][1..] == ["x"];
    assert Join(["c", "x"]) == "c:x";
  }

  // ---------- The service ----------

  class CacheService<V(!new)> {
    var store: Redis<V>
    var stats: Stats

    constructor ()
      ensures store == map[] && stats == Stats(0, 0, 0, 0, 0)
    {
      store, stats := map[], Stats(0, 0, 0, 0, 0);
    }

    /** fault says that the Redis command fails. */
    method Get(key: string, namespace: string, now: int, fault: bool) returns (reply: Reply<V>)
      modifies this`stats
      ensures reply == if fault then CacheError else Value(Lookup(store, BuildKey(key, namespace), now))
      ensures stats ==
        if fault then old(stats).(errors := old(stats).errors + 1)
        else if Present(store, BuildKey(key, namespace), now) then old(stats).(hits := old(stats).hits + 1)
        else old(stats).(misses := old(stats).misses + 1)
    {
      var fullKey := BuildKey(key, namespace);
      if fault {
        stats := stats.(errors := stats.errors + 1);
        return CacheError;
      }
      if fullKey !in store || now >= store[fullKey].expiresAt {
        stats := stats.(misses := stats.misses + 1);
        return Value(None);
      }
      stats := stats.(hits := stats.hits + 1);
      return Value(store[fullKey].value);
    }

    method Set(key: string, value: Option<V>, ttl: Option<int>, namespace: string, now: int, fault: bool)
      returns (ok: bool)
      modifies this
      ensures
        var seconds := if ttl.Some? then ttl.value else DEFAULT_TTL;
        && (ok <==> !fault && seconds > 0)
        && store == (if ok then Stored(old(store), BuildKey(key, namespace), value, seconds, now) else old(store))
        && stats == (if ok then old(stats).(sets := old(stats).sets + 1)
                     else old(stats).(errors := old(stats).errors + 1))
      ensures ok && ttl.None? ==>
        Present(store, BuildKey(key, namespace), now + 299_999) && !Present(store, BuildKey(key, namespace), now + 300_000)
    {
      var seconds := if ttl.Some? then ttl.value else DEFAULT_TTL;
      if fault || seconds <= 0 {
        stats := stats.(errors := stats.errors + 1);
        return false;
      }
      store := store[BuildKey(key, namespace) := Item(value, now + 1000 * seconds)];
      stats := stats.(sets := stats.sets + 1);
      return true;
    }

    method Delete(keys: seq<string>, namespace: string, fault: bool) returns (ok: bool)
      modifies this
      ensures ok <==> keys == [] || !fault
      ensures store == if ok then old(store) - (set key | key in keys :: BuildKey(key, namespace)) else old(store)
      ensures stats == if ok then old(stats).(deletes := old(stats).deletes + |keys|)
                       else old(stats).(errors := old(stats).errors + 1)
    {
      if keys == [] {
        assert store - {} == store;
        return true;
      }
      if fault {
        stats := stats.(errors := stats.errors + 1);
        return false;
      }
      store := store - (set key | key in keys :: BuildKey(key, namespace));
      stats := stats.(deletes := stats.deletes + |keys|);
      return true;
    }

    /** made is what the factory returns, if it is called. A value from the cache was there; a
        value from the factory is in the cache afterwards. */
    method GetOrSet(key: string, made: Option<V>, ttl: Option<int>, namespace: string, now: int, later: int,
                    getFault: bool, setFault: bool)
      returns (reply: Reply<V>)
      modifies this
      ensures
        var fullKey, found := BuildKey(key, namespace), Lookup(old(store), BuildKey(key, namespace), now);
        var seconds := if ttl.Some? then ttl.value else DEFAULT_TTL;
        && (getFault ==> reply == CacheError && store == old(store))
        && (!getFault && found.Some? ==> reply == Value(found) && store == old(store))
        && (!getFault && found.None? ==>
              (setFault || seconds <= 0 ==> reply == CacheError && store == old(store))
              && (!setFault && seconds > 0 ==>
                    && reply == Value(made) && Lookup(store, fullKey, later) == made
                    && store == Stored(old(store), fullKey, made, seconds, later)))
    {
      var cached := Get(key, namespace, now, getFault);
      if cached.CacheError? || cached.value.Some? {
        return cached;
      }
      var ok := Set(key, made, ttl, namespace, later, setFault);
      return if ok then Value(made) else CacheError;
    }

    /** A decorated call from its lookup to its write, among calls that do not clash: a reply that
        is not an error is the method's own value, and the cache stays honest. */
    method CachedCall(
      family: Family<V>, namespace: string, ghost calls: Calls, key: string, args: seq<string>, now: int, later: int,
      getFault: bool, setFault: bool)
      returns (reply: Reply<V>)
      requires Known(family, calls) && NoClash(family, namespace, calls) && Call(key, args) in calls
      requires Honest(family, namespace, calls, store)
      modifies this
      ensures reply.Value? ==> reply.value == family[key].body(args)
      ensures reply.CacheError? <==>
        || getFault
        || (Lookup(old(store), FullKey(namespace, key, args), now).None? && (setFault || family[key].ttl <= 0))
      ensures Honest(family, namespace, calls, store)
    {
      var cacheKey := CacheKey(key, args);
      ghost var call := Call(key, args);
      assert KeyOf(namespace, call) == BuildKey(cacheKey, namespace);
      HonestAgrees(family, namespace, calls, store, call, now);
      var cached := Get(cacheKey, namespace, now, getFault);
      if cached.CacheError? || cached.value.Some? {
        return cached;
      }
      var result := family[key].body(args);
      StepStaysHonest(family, namespace, calls, store, WriteCall(call, later));
      var ok := Set(cacheKey, result, Some(family[key].ttl), namespace, later, setFault);
      return if ok then Value(result) else CacheError;
    }
  }
}
