/** LoggerService.redact on JSON trees. */
module Redact {
  const SENSITIVE_FIELDS: set<string> := {
    "password", "passwordHash", "password_hash", "token", "accessToken", "access_token",
    "refreshToken", "refresh_token", "secret", "apiKey", "api_key", "authorization",
    "creditCard", "credit_card", "ssn", "cvv", "pin"
  }

  const MARK: Json := Text("[REDACTED]")

  /** An object is its fields in enumeration order. */
  datatype Json =
    | Null
    | Bool(b: bool)
    | Num(n: real)
    | Text(s: string)
    | Arr(items: seq<Json>)
    | Obj(fields: seq<Field>)

  datatype Field = Field(key: string, value: Json)

  predicate Sensitive(key: string) {
    key in SENSITIVE_FIELDS
  }

  function Redact(t: Json): Json
    decreases t, 1
  {
    match t
    case Arr(items) => Arr(RedactItems(items))
    case Obj(fields) => Obj(RedactFields(fields))
    case _ => t
  }

  function RedactItems(items: seq<Json>): (r: seq<Json>)
    ensures |r| == |items|
    decreases items, 0
  {
    if items == [] then [] else [Redact(items[0])] + RedactItems(items[1..])
  }

  function RedactFields(fields: seq<Field>): (r: seq<Field>)
    ensures |r| == |fields|
    decreases fields, 0
  {
    if fields == [] then []
    else
      var f := fields[0];
      [Field(f.key, if Sensitive(f.key) then MARK else Redact(f.value))] + RedactFields(fields[1..])
  }

  /** Equal trees but for what stands under sensitive keys. */
  predicate AgreeOutside(a: Json, b: Json)
    decreases a, 1
  {
    match (a, b)
    case (Arr(xs), Arr(ys)) => ItemsAgree(xs, ys)
    case (Obj(xs), Obj(ys)) => FieldsAgree(xs, ys)
    case _ => a == b
  }

  predicate ItemsAgree(xs: seq<Json>, ys: seq<Json>)
    decreases xs, 0
  {
    if xs == [] || ys == [] then xs == ys
    else AgreeOutside(xs[0], ys[0]) && ItemsAgree(xs[1..], ys[1..])
  }

  predicate FieldsAgree(xs: seq<Field>, ys: seq<Field>)
    decreases xs, 0
  {
    if xs == [] || ys == [] then xs == ys
    else
      && xs[0].key == ys[0].key
      && (Sensitive(xs[0].key) || AgreeOutside(xs[0].value, ys[0].value))
      && FieldsAgree(xs[1..], ys[1..])
  }

  /** Everywhere in the tree, sensitive keys hold the mark. */
  predicate Clean(t: Json) {
    match t
    case Arr(items) => forall i :: 0 <= i < |items| ==> Clean(items[i])
    case Obj(fields) =>
      forall i :: 0 <= i < |fields| ==>
        if Sensitive(fields[i].key) then fields[i].value == MARK else Clean(fields[i].value)
    case _ => true
  }

  lemma {:induction false} ItemAt(items: seq<Json>, i: nat)
    requires i < |items|
    ensures RedactItems(items)[i] == Redact(items[i])
  {
    if i > 0 {
      ItemAt(items[1..], i - 1);
    }
  }

  lemma {:induction false} FieldAt(fields: seq<Field>, i: nat)
    requires i < |fields|
    ensures RedactFields(fields)[i] ==
      Field(fields[i].key, if Sensitive(fields[i].key) then MARK else Redact(fields[i].value))
  {
    if i > 0 {
      FieldAt(fields[1..], i - 1);
    }
  }

  /** The shape is kept: arrays keep their length, objects their keys in order, and what is
      neither is unchanged. */
  lemma ShapeIsKept(t: Json)
    ensures match (t, Redact(t))
      case (Arr(xs), Arr(ys)) => |xs| == |ys|
      case (Obj(xs), Obj(ys)) => |xs| == |ys| && forall i :: 0 <= i < |xs| ==> xs[i].key == ys[i].key
      case (a, b) => a == b
  {
    if t.Obj? {
      forall i | 0 <= i < |t.fields|
        ensures t.fields[i].key == Redact(t).fields[i].key
      {
        FieldAt(t.fields, i);
      }
    }
  }

  /** No sensitive value is left at any depth. */
  lemma {:induction false} RedactedIsClean(t: Json)
    ensures Clean(Redact(t))
    decreases t
  {
    match t
    case Arr(items) =>
      forall i | 0 <= i < |items|
        ensures Clean(RedactItems(items)[i])
      {
        ItemAt(items, i);
        RedactedIsClean(items[i]);
      }
    case Obj(fields) =>
      forall i | 0 <= i < |fields|
        ensures var f := RedactFields(fields)[i]; if Sensitive(f.key) then f.value == MARK else Clean(f.value)
      {
        FieldAt(fields, i);
        RedactedIsClean(fields[i].value);
      }
    case _ =>
  }

  /** The fields whose values never reach the log, by name; the names are case-sensitive. */
  lemma NamedFieldsAreMarked(fields: seq<Field>, i: nat)
    requires i < |fields|
    ensures
      var key := fields[i].key;
      var r := Redact(Obj(fields));
      r.Obj? && |r.fields| == |fields| && r.fields[i].key == key
      && r.fields[i].value ==
           if || key == "password" || key == "passwordHash" || key == "password_hash"
              || key == "token" || key == "accessToken" || key == "access_token"
              || key == "refreshToken" || key == "refresh_token"
              || key == "secret" || key == "apiKey" || key == "api_key" || key == "authorization"
              || key == "creditCard" || key == "credit_card" || key == "ssn" || key == "cvv" || key == "pin"
           then Text("[REDACTED]") else Redact(fields[i].value)
  {
    FieldAt(fields, i);
  }

  /** A record with a secret beside, below and inside a list. */
  lemma ALoginRecord()
    ensures
      var record := Obj([
        Field("email", Text("a@b")), Field("password", Text("p")),
        Field("session", Obj([Field("token", Obj([])), Field("Password", Text("q"))])),
        Field("pins", Arr([Obj([Field("pin", Num(1.0))]), Null]))]);
      Redact(record) == Obj([
        Field("email", Text("a@b")), Field("password", Text("[REDACTED]")),
        Field("session", Obj([Field("token", Text("[REDACTED]")), Field("Password", Text("q"))])),
        Field("pins", Arr([Obj([Field("pin", Text("[REDACTED]"))]), Null]))])
  {
    var inner := [Field("token", Obj([])), Field("Password", Text("q"))];
    var pins := [Obj([Field("pin", Num(1.0))]), Null];
    var fields := [Field("email", Text("a@b")), Field("password", Text("p")),
                   Field("session", Obj(inner)), Field("pins", Arr(pins))];
    assert Redact(Obj(inner)) == Obj([Field("token", Text("[REDACTED]")), Field("Password", Text("q"))]) by {
      NamedFieldsAreMarked(inner, 0);
      NamedFieldsAreMarked(inner, 1);
    }
    assert Redact(pins[0]) == Obj([Field("pin", Text("[REDACTED]"))]) by {
      NamedFieldsAreMarked([Field("pin", Num(1.0))], 0);
    }
    ItemAt(pins, 0);
    ItemAt(pins, 1);
    assert RedactItems(pins) == [Obj([Field("pin", Text("[REDACTED]"))]), Null];
    NamedFieldsAreMarked(fields, 0);
    NamedFieldsAreMarked(fields, 1);
    NamedFieldsAreMarked(fields, 2);
    NamedFieldsAreMarked(fields, 3);
  }

  /** Redaction changes nothing exactly on trees that are clean already. */
  lemma {:induction false} CleanIffUnchanged(t: Json)
    ensures Redact(t) == t <==> Clean(t)
    decreases t
  {
    match t
    case Arr(items) =>
      forall i | 0 <= i < |items|
        ensures RedactItems(items)[i] == items[i] <==> Clean(items[i])
      {
        ItemAt(items, i);
        CleanIffUnchanged(items[i]);
      }
      assert Redact(t) == t <==> forall i :: 0 <= i < |items| ==> RedactItems(items)[i] == items[i];
    case Obj(fields) =>
      var r := RedactFields(fields);
      forall i | 0 <= i < |fields|
        ensures r[i] == fields[i] <==>
          if Sensitive(fields[i].key) then fields[i].value == MARK else Clean(fields[i].value)
      {
        FieldAt(fields, i);
        CleanIffUnchanged(fields[i].value);
      }
      assert Redact(t) == t <==> forall i :: 0 <= i < |fields| ==> r[i] == fields[i];
    case _ =>
  }

  lemma RedactIsIdempotent(t: Json)
    ensures Redact(Redact(t)) == Redact(t)
  {
    RedactedIsClean(t);
    CleanIffUnchanged(Redact(t));
  }

  /** The output tells two trees apart exactly when they differ outside sensitive keys: nothing
      under such a key reaches the log, and nothing else is lost. */
  lemma {:induction false} RevealsOnlyTheRest(a: Json, b: Json)
    ensures Redact(a) == Redact(b) <==> AgreeOutside(a, b)
    decreases a, 1
  {
    match (a, b)
    case (Arr(xs), Arr(ys)) => ItemsReveal(xs, ys);
    case (Obj(xs), Obj(ys)) => FieldsReveal(xs, ys);
    case _ =>
  }

  lemma {:induction false} ItemsReveal(xs: seq<Json>, ys: seq<Json>)
    ensures RedactItems(xs) == RedactItems(ys) <==> ItemsAgree(xs, ys)
    decreases xs, 0
  {
    if xs != [] && ys != [] {
      RevealsOnlyTheRest(xs[0], ys[0]);
      ItemsReveal(xs[1..], ys[1..]);
      var rx, ry := RedactItems(xs), RedactItems(ys);
      assert rx[1..] == RedactItems(xs[1..]) && ry[1..] == RedactItems(ys[1..]);
      assert rx == [rx[0]] + rx[1..] && ry == [ry[0]] + ry[1..];
    }
  }

  lemma {:induction false} FieldsReveal(xs: seq<Field>, ys: seq<Field>)
    ensures RedactFields(xs) == RedactFields(ys) <==> FieldsAgree(xs, ys)
    decreases xs, 0
  {
    if xs != [] && ys != [] {
      RevealsOnlyTheRest(xs[0].value, ys[0].value);
      FieldsReveal(xs[1..], ys[1..]);
      var rx, ry := RedactFields(xs), RedactFields(ys);
      assert rx[1..] == RedactFields(xs[1..]) && ry[1..] == RedactFields(ys[1..]);
      assert rx == [rx[0]] + rx[1..] && ry == [ry[0]] + ry[1..];
    }
  }

  /** redact as written: a new object filled field by field. */
  method RedactTree(t: Json) returns (r: Json)
    ensures r == Redact(t)
    decreases t
  {
    match t {
      case Arr(items) =>
        var mapped: seq<Json> := [];
        for i := 0 to |items|
          invariant |mapped| == i
          invariant forall j :: 0 <= j < i ==> mapped[j] == RedactItems(items)[j]
        {
          var item := RedactTree(items[i]);
          ItemAt(items, i);
          mapped := mapped + [item];
        }
        assert mapped == RedactItems(items);
        return Arr(mapped);
      case Obj(fields) =>
        var redacted: seq<Field> := [];
        for i := 0 to |fields|
          invariant |redacted| == i
          invariant forall j :: 0 <= j < i ==> redacted[j] == RedactFields(fields)[j]
        {
          var Field(key, value) := fields[i];
          FieldAt(fields, i);
          if Sensitive(key) {
            redacted := redacted + [Field(key, MARK)];
          } else if value.Arr? || value.Obj? {
            var inner := RedactTree(value);
            redacted := redacted + [Field(key, inner)];
          } else {
            redacted := redacted + [Field(key, value)];
          }
        }
        assert redacted == RedactFields(fields);
        return Obj(redacted);
      case _ => return t;
    }
  }
}
