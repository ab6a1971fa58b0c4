/** What the body of a delivery observation says: its text by the grammar of JSON, its fields by their keys. */
module DeliveryBodies {
  import Decimal
  import Json
  import opened DeliveryEvents
  import opened Order
  import opened Results
  import opened Text

  // ----- the text of a value -----

  ghost predicate IsNumeral(text: string, n: nat)
  {
    text != "" && Decimal.AllDigits(text) && Decimal.Value(text) == n && (|text| > 1 ==> text[0] != '0')
  }

  /** `text` is a member of an object: a literal that reads as the key, a colon, and a value. */
  ghost predicate IsMember(text: string, field: Json.Field)
    decreases field, 1
  {
    exists literal, value ::
      text == literal + ":" + value && Json.ParseLiteral(literal) == Some(field.key) && Denotes(value, field.value)
  }

  ghost predicate AreItems(parts: seq<string>, items: seq<Json.Value>)
    decreases items, 0
  {
    |parts| == |items| && forall i :: 0 <= i < |items| ==> Denotes(parts[i], items[i])
  }

  ghost predicate AreMembers(parts: seq<string>, fields: seq<Json.Field>)
    decreases fields, 0
  {
    |parts| == |fields| && forall i :: 0 <= i < |fields| ==> IsMember(parts[i], fields[i])
  }

  /** `text` is JSON for `v` without white space (sections 3 to 7 of RFC 8259). */
  ghost predicate Denotes(text: string, v: Json.Value)
    decreases v, 1
  {
    match v
    case Null => text == "null"
    case Bool(b) => text == if b then "true" else "false"
    case Number(n) => IsNumeral(text, n)
    case Str(s) => Json.ParseLiteral(text) == Some(s)
    case Array(items) => exists parts :: text == "[" + Join(parts, ",") + "]" && AreItems(parts, items)
    case Object(fields) => exists parts :: text == "{" + Join(parts, ",") + "}" && AreMembers(parts, fields)
  }

  lemma {:induction false} NumeralReads(n: nat)
    ensures IsNumeral(Decimal.Numeral(n), n)
    ensures n > 0 ==> Decimal.Numeral(n)[0] != '0'
  {
    var s := Decimal.Numeral(n);
    if n < 10 {
      assert s[..|s| - 1] == "";
    } else {
      NumeralReads(n / 10);
      assert s[..|s| - 1] == Decimal.Numeral(n / 10);
    }
  }

  lemma JoinOne(part: string, parts: seq<string>)
    ensures Join([part] + parts, ",") == part + (if parts == [] then "" else ",") + Join(parts, ",")
  {
    if parts == [] {
      assert [part] + parts == [part];
      assert part + "" + "" == part;
    } else {
      JoinCons(part, parts, ",");
    }
  }

  lemma {:induction false} ItemsJoined(items: seq<Json.Value>) returns (parts: seq<string>)
    ensures Json.ItemsText(items) == Join(parts, ",") && AreItems(parts, items)
    decreases items, 0
  {
    if items == [] {
      parts := [];
    } else {
      var rest := ItemsJoined(items[1..]);
      TextDenotes(items[0]);
      JoinOne(Json.Text(items[0]), rest);
      parts := [Json.Text(items[0])] + rest;
      assert rest == [] <==> |items| == 1;
      assert items == [items[0]] + items[1..];
    }
  }

  lemma MemberText(field: Json.Field)
    requires Denotes(Json.Text(field.value), field.value)
    ensures IsMember(Json.Literal(field.key) + ":" + Json.Text(field.value), field)
  {
    Json.LiteralRoundTrip(field.key);
  }

  lemma {:induction false} FieldsJoined(fields: seq<Json.Field>) returns (parts: seq<string>)
    ensures Json.FieldsText(fields) == Join(parts, ",") && AreMembers(parts, fields)
    decreases fields, 0
  {
    if fields == [] {
      parts := [];
    } else {
      var rest := FieldsJoined(fields[1..]);
      TextDenotes(fields[0].value);
      MemberText(fields[0]);
      var first := Json.Literal(fields[0].key) + ":" + Json.Text(fields[0].value);
      JoinOne(first, rest);
      parts := [first] + rest;
      assert rest == [] <==> |fields| == 1;
      assert fields == [fields[0]] + fields[1..];
    }
  }

  /** What is written for a value is JSON for that very value. */
  lemma {:induction false} TextDenotes(v: Json.Value)
    ensures Denotes(Json.Text(v), v)
    decreases v, 1
  {
    match v
    case Number(n) => NumeralReads(n);
    case Str(s) => Json.LiteralRoundTrip(s);
    case Array(items) =>
      var parts := ItemsJoined(items);
    case Object(fields) =>
      var parts := FieldsJoined(fields);
    case _ =>
  }

  // ----- bytes -----

  function Power(n: nat): nat
  {
    if n == 0 then 1 else 2 * Power(n - 1)
  }

  /** A character takes the fewest bytes that hold its code point: 7 bits in one, and 5n + 1 in n of them. */
  lemma FewestBytes(c: char)
    ensures var n := Json.Utf8Len(c);
      && (n == 1 <==> c as int < Power(7))
      && (n > 1 ==> c as int < Power(5 * n + 1))
      && (n == 3 ==> c as int >= Power(11))
      && (n == 4 ==> c as int >= Power(16))
  {
    assert Power(7) == 0x80 && Power(11) == 0x800;
    assert Power(16) == 32 * Power(11);
    assert Power(21) == 32 * Power(16);
  }

  // ----- the fields of a body -----

  /** The value a list of fields gives a key: the last counts. */
  ghost function Lookup(fields: seq<Json.Field>, key: string): Option<Json.Value>
  {
    if fields == [] then None
    else if fields[|fields| - 1].key == key then Some(fields[|fields| - 1].value)
    else Lookup(fields[..|fields| - 1], key)
  }

  lemma {:induction false} LookupBehind(x: Json.Field, rest: seq<Json.Field>, key: string)
    ensures Lookup([x] + rest, key) ==
      if Lookup(rest, key).Some? then Lookup(rest, key) else if x.key == key then Some(x.value) else None
  {
    var all := [x] + rest;
    if rest == [] {
      assert all[..0] == [];
    } else {
      assert all[..|all| - 1] == [x] + rest[..|rest| - 1];
      LookupBehind(x, rest[..|rest| - 1], key);
    }
  }

  ghost predicate KeysAscend(fields: seq<Json.Field>)
  {
    forall i, j :: 0 <= i < j < |fields| ==> Before(fields[i].key, fields[j].key)
  }

  lemma {:induction false} NotBelow(fields: seq<Json.Field>, key: string)
    requires forall i :: 0 <= i < |fields| ==> Before(key, fields[i].key)
    ensures Lookup(fields, key).None?
  {
    if fields != [] {
      Irreflexive(key);
      NotBelow(fields[..|fields| - 1], key);
    }
  }

  lemma AllBelow(fields: seq<Json.Field>, key: string)
    requires KeysAscend(fields) && fields != [] && Before(key, fields[0].key)
    ensures forall i :: 0 <= i < |fields| ==> Before(key, fields[i].key)
  {
    forall i | 0 <= i < |fields| ensures Before(key, fields[i].key) {
      if i > 0 {
        Transitive(key, fields[0].key, fields[i].key);
      }
    }
  }

  lemma SetFirst(fields: seq<Json.Field>, key: string, value: Json.Value, other: string)
    requires KeysAscend(fields) && (fields == [] || Before(key, fields[0].key))
    ensures var now := [Json.Field(key, value)] + fields;
      KeysAscend(now) && Lookup(now, other) == if other == key then Some(value) else Lookup(fields, other)
  {
    if fields != [] {
      AllBelow(fields, key);
    }
    NotBelow(fields, key);
    LookupBehind(Json.Field(key, value), fields, other);
  }

  lemma StaysBelow(x: Json.Field, rest: seq<Json.Field>, now: seq<Json.Field>, key: string)
    requires KeysAscend([x] + rest) && KeysAscend(now) && Before(x.key, key)
    requires forall f :: f in now ==> f.key == key || f in rest
    ensures KeysAscend([x] + now)
  {
    forall i | 0 <= i < |now| ensures Before(x.key, now[i].key) {
      assert now[i] in now;
      if now[i].key != key {
        BelowMember(x, rest, now[i]);
      }
    }
  }

  lemma BelowMember(x: Json.Field, rest: seq<Json.Field>, f: Json.Field)
    requires KeysAscend([x] + rest) && f in rest
    ensures Before(x.key, f.key)
  {
    var all := [x] + rest;
    var j :| 0 <= j < |rest| && rest[j] == f;
    assert all[0] == x && all[j + 1] == f;
    assert Before(all[0].key, all[j + 1].key);
  }

  lemma LookupLater(x: Json.Field, rest: seq<Json.Field>, now: seq<Json.Field>, key: string, value: Json.Value,
                    other: string)
    requires x.key != key && Lookup(now, other) == if other == key then Some(value) else Lookup(rest, other)
    ensures Lookup([x] + now, other) == if other == key then Some(value) else Lookup([x] + rest, other)
  {
    LookupBehind(x, rest, other);
    LookupBehind(x, now, other);
  }

  /** Setting a key keeps the keys in order, sets that key, and no other. */
  lemma {:induction false} SetSets(fields: seq<Json.Field>, key: string, value: Json.Value, other: string)
    requires KeysAscend(fields)
    ensures KeysAscend(Set(fields, key, value))
    ensures Lookup(Set(fields, key, value), other) == if other == key then Some(value) else Lookup(fields, other)
    ensures forall f :: f in Set(fields, key, value) ==> f.key == key || f in fields
  {
    if fields == [] || Before(key, fields[0].key) {
      SetFirst(fields, key, value, other);
    } else {
      var x, rest := fields[0], fields[1..];
      assert fields == [x] + rest;
      if x.key == key {
        NotBelow(rest, key);
        LookupBehind(x, rest, other);
        LookupBehind(Json.Field(key, value), rest, other);
      } else {
        Total(key, x.key);
        SetSets(rest, key, value, other);
        Irreflexive(key);
        StaysBelow(x, rest, Set(rest, key, value), key);
        LookupLater(x, rest, Set(rest, key, value), key, value, other);
      }
    }
  }

  /** Extending sets each key to what the added fields say last, and leaves the others. */
  lemma {:induction false} ExtendSets(fields: seq<Json.Field>, more: seq<Json.Field>, key: string)
    requires KeysAscend(fields)
    ensures KeysAscend(Extend(fields, more))
    ensures Lookup(Extend(fields, more), key) ==
      if Lookup(more, key).Some? then Lookup(more, key) else Lookup(fields, key)
    decreases |more|
  {
    if more != [] {
      var x := more[0];
      SetSets(fields, x.key, x.value, key);
      ExtendSets(Set(fields, x.key, x.value), more[1..], key);
      assert more == [x] + more[1..];
      LookupBehind(x, more[1..], key);
    }
  }

  ghost function EachBounded(fields: seq<Json.Field>, chars: nat, items: nat): seq<Json.Field>
  {
    seq(|fields|, i requires 0 <= i < |fields| => Json.Field(fields[i].key, Json.Bounded(fields[i].value, chars, items)))
  }

  lemma {:induction false} LookupBounded(fields: seq<Json.Field>, chars: nat, items: nat, key: string)
    ensures Lookup(EachBounded(fields, chars, items), key) ==
      match Lookup(fields, key)
      case Some(value) => Some(Json.Bounded(value, chars, items))
      case None => None
  {
    if fields != [] {
      var front := fields[..|fields| - 1];
      assert EachBounded(fields, chars, items)[..|fields| - 1] == EachBounded(front, chars, items);
      LookupBounded(front, chars, items, key);
    }
  }

  /** A body holds each of the event's fields, its texts cut to 200 characters and its lists to 10 items; the
      branch and the head where the event does not set them; nothing else; and its keys in order. */
  lemma BodyHolds(e: Event, scope: Scope, key: string)
    ensures Body(e, scope).Object? && KeysAscend(Body(e, scope).fields)
    ensures Lookup(Body(e, scope).fields, key) ==
      match Lookup(Listed(e), key)
      case Some(value) => Some(Json.Bounded(value, 200, 10))
      case None => if key == "branch" then Some(Json.Str(scope.branch))
                   else if key == "head_sha" then Some(Json.Str(scope.headSha)) else None
  {
    var own := Extend([], Listed(e));
    var first := [Json.Field("branch", Json.Str(scope.branch)), Json.Field("head_sha", Json.Str(scope.headSha))];
    ExtendSets([], Listed(e), key);
    LookupBounded(own, 200, 10, key);
    assert Json.Bounded(Fields(e), 200, 10).fields == EachBounded(own, 200, 10);
    ExtendSets([], first, key);
    ExtendSets(Extend([], first), EachBounded(own, 200, 10), key);
    ScopeLookup(first, key);
  }

  lemma ScopeLookup(first: seq<Json.Field>, key: string)
    requires |first| == 2 && first[0].key == "branch" && first[1].key == "head_sha"
    ensures Lookup(first, key) ==
      if key == "branch" then Some(first[0].value) else if key == "head_sha" then Some(first[1].value) else None
  {
    assert first == [first[0]] + [first[1]];
    LookupBehind(first[0], [first[1]], key);
    assert [first[1]][..0] == [];
    assert |"branch"| != |"head_sha"|;
  }
}
