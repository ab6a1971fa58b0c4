/** The bodies of delivery observations, kept within a byte bound. */
module DeliveryEvents {
  import opened Decimal
  import opened Json
  import opened Order
  import opened Results

  const MAX_LISTED: nat := 10
  const MAX_TEXT_CHARS: nat := 200
  const MAX_BODY_BYTES: nat := 4000

  type U64 = n: nat | n < 0x1_0000_0000_0000_0000

  datatype ObservedBy = Cleanup | Integrate

  datatype Scope = Scope(branch: string, headSha: string)

  datatype Event =
    | Refused(code: string, blockers: seq<string>, fingerprint: string)
    | Pushed(ok: bool, detail: Option<string>, base: string)
    | Pr(action: string, number: U64, url: string, draft: bool)
    | Landed(merged: bool, pushed: bool, detail: Option<string>)
    | Checks(passed: bool, failed: seq<string>)
    | Rebased(conflicted: bool, onto: Option<string>, baseSource: Option<string>,
              shaBefore: Option<string>, shaAfter: Option<string>)
    | Integrated(ok: bool, via: string, sourceSha: string, mergeCommit: Option<string>)
    | Merged(number: U64, url: string, mergeCommit: Option<string>, mergedAt: Option<string>, observedBy: ObservedBy)
    | Cleaned(recordPath: string, docs: string)
    | Closed(outcome: string)
    | Deleted(repos: seq<string>)

  // ----- objects as sorted maps -----

  /** Sets a key of an object, whose fields stand in key order. */
  function Set(fields: seq<Field>, key: string, value: Value): seq<Field>
  {
    if fields == [] || Before(key, fields[0].key) then [Field(key, value)] + fields
    else if fields[0].key == key then [Field(key, value)] + fields[1..]
    else [fields[0]] + Set(fields[1..], key, value)
  }

  /** Sets the fields of `more`, in order. */
  function Extend(fields: seq<Field>, more: seq<Field>): seq<Field>
    decreases |more|
  {
    if more == [] then fields else Extend(Set(fields, more[0].key, more[0].value), more[1..])
  }

  function OrNull(o: Option<string>): Value
  {
    if o.Some? then Str(o.value) else Null
  }

  function Texts(ss: seq<string>): Value
  {
    Array(seq(|ss|, i requires 0 <= i < |ss| => Str(ss[i])))
  }

  /** The fields of an event, as they are listed in the source. */
  function Listed(e: Event): seq<Field>
  {
    match e
    case Refused(code, blockers, fingerprint) =>
      [Field("code", Str(code)), Field("blockers", Texts(blockers)), Field("fingerprint", Str(fingerprint))]
    case Pushed(ok, detail, base) =>
      [Field("ok", Bool(ok)), Field("detail", OrNull(detail)), Field("base", Str(base))]
    case Pr(action, number, url, draft) =>
      [Field("action", Str(action)), Field("number", Number(number)), Field("url", Str(url)), Field("draft", Bool(draft))]
    case Landed(merged, pushed, detail) =>
      [Field("merged", Bool(merged)), Field("pushed", Bool(pushed)), Field("detail", OrNull(detail))]
    case Checks(passed, failed) => [Field("passed", Bool(passed)), Field("failed", Texts(failed))]
    case Rebased(conflicted, onto, baseSource, shaBefore, shaAfter) =>
      [Field("conflicted", Bool(conflicted)), Field("onto", OrNull(onto)), Field("base_source", OrNull(baseSource)),
       Field("sha_before", OrNull(shaBefore)), Field("sha_after", OrNull(shaAfter))]
    case Integrated(ok, via, sourceSha, mergeCommit) =>
      [Field("ok", Bool(ok)), Field("via", Str(via)), Field("source_sha", Str(sourceSha)),
       Field("merge_commit", OrNull(mergeCommit))]
    case Merged(number, url, mergeCommit, mergedAt, observedBy) =>
      [Field("number", Number(number)), Field("url", Str(url)), Field("merge_commit", OrNull(mergeCommit)),
       Field("merged_at", OrNull(mergedAt)),
       Field("observed_by", Str(if observedBy == Cleanup then "cleanup" else "integrate"))]
    case Cleaned(recordPath, docs) => [Field("record_path", Str(recordPath)), Field("docs", Str(docs))]
    case Closed(outcome) => [Field("outcome", Str(outcome))]
    case Deleted(repos) => [Field("repos", Texts(repos))]
  }

  function Fields(e: Event): Value
  {
    Object(Extend([], Listed(e)))
  }

  /** The object a body starts from: branch and head, then the event's fields, bounded once. */
  function Body(e: Event, scope: Scope): Value
  {
    var start := Extend([], [Field("branch", Str(scope.branch)), Field("head_sha", Str(scope.headSha))]);
    Object(Extend(start, Bounded(Fields(e), MAX_TEXT_CHARS, MAX_LISTED).fields))
  }

  // ----- the byte bound -----

  /** The limits tried after the body itself, in order. */
  const HALVINGS: seq<(nat, nat)> :=
    [(100, 10), (50, 10), (25, 10), (12, 10), (6, 10), (3, 10), (1, 10), (0, 10), (0, 5), (0, 2), (0, 1), (0, 0)]

  /** The limits in force after `k` halvings. */
  function Limits(k: nat): (nat, nat)
    requires k <= |HALVINGS|
  {
    if k == 0 then (MAX_TEXT_CHARS, MAX_LISTED) else HALVINGS[k - 1]
  }

  lemma Halve(k: nat)
    requires k < |HALVINGS|
    ensures var (c, n) := Limits(k);
      Limits(k + 1) == (if k < 8 then (c / 2, n) else (c, n / 2))
      && (c > 0 <==> k < 8) && n > 0
    ensures Limits(|HALVINGS|) == (0, 0)
  {
  }

  /** The `k`-th form of a body: itself, then each halving. */
  function Form(body: Value, k: nat): string
    requires k <= |HALVINGS|
  {
    if k == 0 then Text(body) else Text(Bounded(body, Limits(k).0, Limits(k).1))
  }

  predicate Fits(text: string)
  {
    Bytes(text) <= MAX_BODY_BYTES
  }

  ghost predicate NoneBefore(body: Value, k: nat)
    requires k <= |HALVINGS|
  {
    forall j: nat :: j < k ==> Bytes(Form(body, j)) > MAX_BODY_BYTES
  }

  /** `k` is the first form that fits, or the last when none does. */
  ghost predicate FirstFit(body: Value, k: nat)
  {
    k <= |HALVINGS| && NoneBefore(body, k) && (k < |HALVINGS| ==> Bytes(Form(body, k)) <= MAX_BODY_BYTES)
  }

  // After `k` halvings, none of the forms before having fitted.
  ghost predicate Halved(body: Value, k: nat, text: string, maxChars: nat, maxItems: nat)
  {
    k <= |HALVINGS| && text == Form(body, k) && (maxChars, maxItems) == Limits(k) && NoneBefore(body, k)
  }

  lemma HalvedAgain(body: Value, k: nat, text: string, maxChars: nat, maxItems: nat)
    requires Halved(body, k, text, maxChars, maxItems) && k < |HALVINGS| && !Fits(text)
    ensures var (c, n) := Limits(k + 1); Halved(body, k + 1, Text(Bounded(body, c, n)), c, n)
  {
  }

  method WithinByteBound(body: Value) returns (text: string)
    ensures exists k :: FirstFit(body, k) && text == Form(body, k)
  {
    text := Text(body);
    var maxChars, maxItems := MAX_TEXT_CHARS, MAX_LISTED;
    ghost var k: nat := 0;
    while !Fits(text) && maxChars > 0
      invariant k <= 8 && Halved(body, k, text, maxChars, maxItems)
      decreases maxChars
    {
      Halve(k);
      HalvedAgain(body, k, text, maxChars, maxItems);
      maxChars := maxChars / 2;
      text := Text(Bounded(body, maxChars, maxItems));
      k := k + 1;
    }
    Halve(k);
    while !Fits(text) && maxItems > 0
      invariant Halved(body, k, text, maxChars, maxItems)
      invariant !Fits(text) ==> k >= 8
      decreases maxItems
    {
      if k < |HALVINGS| {
        Halve(k);
        HalvedAgain(body, k, text, maxChars, maxItems);
      }
      maxItems := maxItems / 2;
      text := Text(Bounded(body, maxChars, maxItems));
      k := k + 1;
    }
    if k < |HALVINGS| {
      Halve(k);
    }
    assert FirstFit(body, k);
  }

  // ----- how long a body is once its texts are empty -----

  /** A key that is written as it is. */
  ghost predicate PlainKey(key: string)
  {
    |key| <= 14 && forall i :: 0 <= i < |key| ==> 'a' <= key[i] <= 'z' || key[i] == '_'
  }

  /** A value that is short once its texts are cut to nothing. */
  ghost predicate Shallow(v: Value)
  {
    match v
    case Number(n) => n < 0x1_0000_0000_0000_0000
    case Array(items) => |items| <= MAX_LISTED && forall i :: 0 <= i < |items| ==> items[i].Str?
    case Object(_) => false
    case _ => true
  }

  ghost predicate ShallowFields(fields: seq<Field>)
  {
    forall i :: 0 <= i < |fields| ==> PlainKey(fields[i].key) && Shallow(fields[i].value)
  }

  lemma {:induction false} PlainBytes(s: string)
    requires forall i :: 0 <= i < |s| ==> ' ' <= s[i] <= '~' && s[i] != '"' && s[i] != '\\'
    ensures EscapeAll(s) == s && Bytes(s) == |s|
  {
    if s != "" {
      PlainBytes(s[1..]);
      assert s == [s[0]] + s[1..];
    }
  }

  lemma LiteralBytes(key: string)
    requires PlainKey(key)
    ensures Bytes(Literal(key)) <= 16
  {
    PlainBytes(key);
    PlainTextBytes("\"" + key + "\"");
  }

  lemma {:induction false} PlainTextBytes(s: string)
    requires forall i :: 0 <= i < |s| ==> s[i] <= '~'
    ensures Bytes(s) == |s|
  {
    if s != "" {
      PlainTextBytes(s[1..]);
    }
  }

  lemma {:induction false} EmptyItems(n: nat)
    ensures var items := seq(n, _ => Str("")); |ItemsText(items)| <= 3 * n && forall i :: 0 <= i < |ItemsText(items)| ==> ItemsText(items)[i] <= '~'
  {
    var items := seq(n, _ => Str(""));
    assert Literal("") == "\"\"";
    if n > 0 {
      assert items[1..] == seq(n - 1, _ => Str(""));
      EmptyItems(n - 1);
    }
  }

  lemma ShortNumber(n: nat)
    requires n < 0x1_0000_0000_0000_0000
    ensures |Numeral(n)| <= 20
  {
    assert Pow10(5) == 100_000 by { PowTable(); assert Pow10(4) == 10_000; }
    assert Pow10(10) == 10_000_000_000 by { PowTable(); }
    assert Pow10(12) == 1_000_000_000_000 && Pow10(14) == 100_000_000_000_000;
    assert Pow10(16) == 10_000_000_000_000_000 && Pow10(18) == 1_000_000_000_000_000_000;
    assert Pow10(20) == 100_000_000_000_000_000_000;
    NumeralFits(n, 20);
  }

  lemma EmptiedText(v: Value, n: nat)
    requires v.Str?
    ensures Bounded(v, 0, n) == Str("")
  {
  }

  lemma EmptiedArray(items: seq<Value>, n: nat)
    requires Shallow(Array(items))
    ensures Bytes(Text(Bounded(Array(items), 0, n))) <= 34
  {
    var m := Min(n, |items|);
    var emptied := Bounded(Array(items), 0, n).items;
    forall i | 0 <= i < m ensures emptied[i] == Str("") {
      EmptiedText(items[i], n);
      assert emptied[i] == Bounded(items[i], 0, n);
    }
    assert emptied == seq(m, _ => Str(""));
    EmptyItems(m);
    PlainTextBytes("[" + ItemsText(emptied) + "]");
  }

  /** A shallow value without texts takes at most 34 bytes, whatever the item limit. */
  lemma EmptiedValue(v: Value, n: nat)
    requires Shallow(v)
    ensures Bytes(Text(Bounded(v, 0, n))) <= 34
  {
    match v
    case Number(m) =>
      ShortNumber(m);
      PlainTextBytes(Numeral(m));
    case Str(s) =>
      assert Literal("") == "\"\"";
      PlainTextBytes("\"\"");
    case Array(items) =>
      EmptiedArray(items, n);
    case Null => PlainTextBytes("null");
    case Bool(b) => PlainTextBytes(Text(v));
  }

  lemma FieldBytes(f: Field, n: nat, tail: string)
    requires PlainKey(f.key) && Shallow(f.value) && |tail| <= 1 && (tail == "" || tail == ",")
    ensures Bytes(Literal(f.key) + ":" + Text(Bounded(f.value, 0, n)) + tail) <= 52
  {
    var key, value := Literal(f.key), Text(Bounded(f.value, 0, n));
    LiteralBytes(f.key);
    EmptiedValue(f.value, n);
    BytesConcat(key + ":" + value, tail);
    BytesConcat(key + ":", value);
    BytesConcat(key, ":");
    PlainTextBytes(":");
    PlainTextBytes(tail);
  }

  ghost function Emptied(fields: seq<Field>, n: nat): seq<Field>
  {
    Bounded(Object(fields), 0, n).fields
  }

  lemma {:induction false} EmptiedFields(fields: seq<Field>, n: nat)
    requires ShallowFields(fields)
    ensures Bytes(FieldsText(Emptied(fields, n))) <= 52 * |fields|
  {
    if fields != [] {
      var now, tail := Emptied(fields, n), if |fields| > 1 then "," else "";
      assert now[1..] == Emptied(fields[1..], n);
      EmptiedFields(fields[1..], n);
      FieldBytes(fields[0], n, tail);
      BytesConcat(Literal(fields[0].key) + ":" + Text(Bounded(fields[0].value, 0, n)) + tail, FieldsText(now[1..]));
    }
  }

  lemma EmptiedObject(fields: seq<Field>, n: nat)
    requires ShallowFields(fields) && |fields| <= 7
    ensures Bytes(Text(Bounded(Object(fields), 0, n))) <= 366
  {
    EmptiedFields(fields, n);
    var inner := FieldsText(Emptied(fields, n));
    BytesConcat("{" + inner, "}");
    BytesConcat("{", inner);
    PlainTextBytes("{");
    PlainTextBytes("}");
  }

  // ----- the bodies of events -----

  /** A text, a list of texts, or a scalar: what event fields hold. */
  ghost predicate Simple(v: Value)
  {
    match v
    case Number(n) => n < 0x1_0000_0000_0000_0000
    case Array(items) => forall i :: 0 <= i < |items| ==> items[i].Str?
    case Object(_) => false
    case _ => true
  }

  ghost predicate SimpleFields(fields: seq<Field>)
  {
    forall i :: 0 <= i < |fields| ==> PlainKey(fields[i].key) && Simple(fields[i].value)
  }

  lemma BoundedIsShallow(v: Value)
    requires Simple(v)
    ensures Shallow(Bounded(v, MAX_TEXT_CHARS, MAX_LISTED))
  {
  }

  lemma {:induction false} SetFacts(fields: seq<Field>, key: string, value: Value)
    ensures |Set(fields, key, value)| <= |fields| + 1
    ensures forall f :: f in Set(fields, key, value) ==> f in fields || f == Field(key, value)
  {
    if fields != [] && !Before(key, fields[0].key) && fields[0].key != key {
      SetFacts(fields[1..], key, value);
      assert fields == [fields[0]] + fields[1..];
    }
  }

  lemma {:induction false} ExtendFacts(fields: seq<Field>, more: seq<Field>)
    ensures |Extend(fields, more)| <= |fields| + |more|
    ensures forall f :: f in Extend(fields, more) ==> f in fields || f in more
    decreases |more|
  {
    if more != [] {
      var now := Set(fields, more[0].key, more[0].value);
      SetFacts(fields, more[0].key, more[0].value);
      ExtendFacts(now, more[1..]);
      assert more == [more[0]] + more[1..];
      assert Field(more[0].key, more[0].value) == more[0];
    }
  }

  lemma EventKeysArePlain()
    ensures PlainKey("branch") && PlainKey("head_sha") && PlainKey("code") && PlainKey("blockers")
    ensures PlainKey("fingerprint") && PlainKey("ok") && PlainKey("detail") && PlainKey("base")
  {
  }

  lemma RequestKeysArePlain()
    ensures PlainKey("action") && PlainKey("number") && PlainKey("url") && PlainKey("draft") && PlainKey("merged")
    ensures PlainKey("pushed") && PlainKey("passed") && PlainKey("failed") && PlainKey("conflicted")
  {
  }

  lemma MergeKeysArePlain()
    ensures PlainKey("onto") && PlainKey("base_source") && PlainKey("sha_before") && PlainKey("sha_after")
    ensures PlainKey("via") && PlainKey("source_sha") && PlainKey("merge_commit") && PlainKey("merged_at")
  {
  }

  lemma RecordKeysArePlain()
    ensures PlainKey("observed_by") && PlainKey("record_path") && PlainKey("docs") && PlainKey("outcome")
    ensures PlainKey("repos")
  {
  }

  lemma ListedAreSimple(e: Event)
    ensures SimpleFields(Listed(e)) && |Listed(e)| <= 5
  {
    RequestKeysArePlain();
    if e.Refused? || e.Pushed? || e.Landed? || e.Pr? || e.Integrated? {
      EventKeysArePlain();
      MergeKeysArePlain();
    } else {
      MergeKeysArePlain();
      RecordKeysArePlain();
    }
  }

  lemma BodyIsShallow(e: Event, scope: Scope)
    ensures Body(e, scope).Object? && ShallowFields(Body(e, scope).fields) && |Body(e, scope).fields| <= 7
  {
    var own := Extend([], Listed(e));
    ListedAreSimple(e);
    ExtendFacts([], Listed(e));
    var bounded := Bounded(Fields(e), MAX_TEXT_CHARS, MAX_LISTED).fields;
    forall i | 0 <= i < |bounded| ensures PlainKey(bounded[i].key) && Shallow(bounded[i].value) {
      assert own[i] in Listed(e);
      BoundedIsShallow(own[i].value);
    }
    var first := [Field("branch", Str(scope.branch)), Field("head_sha", Str(scope.headSha))];
    EventKeysArePlain();
    ExtendFacts([], first);
    ExtendFacts(Extend([], first), bounded);
    forall f | f in Body(e, scope).fields ensures PlainKey(f.key) && Shallow(f.value) {
      assert f in first || f in bounded;
    }
  }

  /** The body written for any event and scope, however long its texts and lists, is at most 4000 bytes;
      cutting texts always suffices, so the loop that cuts lists is never entered. */
  lemma EveryBodyFits(e: Event, scope: Scope, k: nat)
    requires FirstFit(Body(e, scope), k)
    ensures k <= 8 && Bytes(Form(Body(e, scope), k)) <= MAX_BODY_BYTES
  {
    BodyIsShallow(e, scope);
    Halve(7);
    EmptiedObject(Body(e, scope).fields, MAX_LISTED);
    assert Fits(Form(Body(e, scope), 8));
  }

  /** `DeliveryEvent::body`. */
  method BodyText(e: Event, scope: Scope) returns (text: string)
    ensures Bytes(text) <= MAX_BODY_BYTES
    ensures exists k :: k <= 8 && FirstFit(Body(e, scope), k) && text == Form(Body(e, scope), k)
  {
    text := WithinByteBound(Body(e, scope));
    ghost var k :| FirstFit(Body(e, scope), k) && text == Form(Body(e, scope), k);
    EveryBodyFits(e, scope, k);
  }
}
