/** JSON values, their compact text as `serde_json` writes it, and the reading of a string literal. */
module Json {
  import opened Decimal
  import opened Order
  import opened Results

  datatype Value =
    | Null
    | Bool(b: bool)
    | Number(n: nat)
    | Str(s: string)
    | Array(items: seq<Value>)
    | Object(fields: seq<Field>)

  datatype Field = Field(key: string, value: Value)

  // ----- UTF-8 lengths -----

  function Utf8Len(c: char): (n: nat)
    ensures 1 <= n <= 4
  {
    if c as int < 0x80 then 1 else if c as int < 0x800 then 2 else if c as int < 0x1_0000 then 3 else 4
  }

  /** The bytes a text takes in UTF-8: what `len` counts. */
  function Bytes(s: string): nat
  {
    if s == "" then 0 else Utf8Len(s[0]) + Bytes(s[1..])
  }

  lemma {:induction false} BytesConcat(a: string, b: string)
    ensures Bytes(a + b) == Bytes(a) + Bytes(b)
  {
    if a == "" {
      assert a + b == b;
    } else {
      assert (a + b)[1..] == a[1..] + b;
      BytesConcat(a[1..], b);
    }
  }

  // ----- strings -----

  const HEX := "0123456789abcdef"

  function HexDigit(d: nat): char
    requires d < 16
  {
    HEX[d]
  }

  /** How one character is written inside a string literal (section 7 of RFC 8259). */
  function Escape(c: char): string
  {
    if c == '"' then "\\\"" else if c == '\\' then "\\\\"
    else if c == '\U{8}' then "\\b" else if c == '\U{c}' then "\\f"
    else if c == '\n' then "\\n" else if c == '\r' then "\\r" else if c == '\t' then "\\t"
    else if c as int < 0x20 then "\\u00" + [HexDigit(c as int / 16), HexDigit(c as int % 16)]
    else [c]
  }

  function EscapeAll(s: string): string
  {
    if s == "" then "" else Escape(s[0]) + EscapeAll(s[1..])
  }

  function Literal(s: string): string
  {
    "\"" + EscapeAll(s) + "\""
  }

  // ----- values -----

  /** `Value::to_string`. */
  function Text(v: Value): string
    decreases v, 1
  {
    match v
    case Null => "null"
    case Bool(b) => if b then "true" else "false"
    case Number(n) => Numeral(n)
    case Str(s) => Literal(s)
    case Array(items) => "[" + ItemsText(items) + "]"
    case Object(fields) => "{" + FieldsText(fields) + "}"
  }

  function ItemsText(items: seq<Value>): string
    decreases items, 0
  {
    if items == [] then ""
    else Text(items[0]) + (if |items| > 1 then "," else "") + ItemsText(items[1..])
  }

  function FieldsText(fields: seq<Field>): string
    decreases fields, 0
  {
    if fields == [] then ""
    else
      Literal(fields[0].key) + ":" + Text(fields[0].value) + (if |fields| > 1 then "," else "") + FieldsText(fields[1..])
  }

  // ----- bounding -----

  function Take<T>(s: seq<T>, n: nat): seq<T>
  {
    if n < |s| then s[..n] else s
  }

  /** Texts cut to `c` characters and lists to `n` items, at every depth. */
  function Bounded(v: Value, c: nat, n: nat): Value
    decreases v
  {
    match v
    case Str(s) => Str(Take(s, c))
    case Array(items) =>
      Array(seq(Min(n, |items|), i requires 0 <= i < Min(n, |items|) => Bounded(items[i], c, n)))
    case Object(fields) =>
      Object(seq(|fields|, i requires 0 <= i < |fields| => Field(fields[i].key, Bounded(fields[i].value, c, n))))
    case _ => v
  }

  /** Bounding twice bounds by the smaller of each pair of limits. */
  lemma {:induction false} BoundedCompose(v: Value, c1: nat, n1: nat, c2: nat, n2: nat)
    ensures Bounded(Bounded(v, c1, n1), c2, n2) == Bounded(v, Min(c1, c2), Min(n1, n2))
    decreases v
  {
    match v
    case Array(items) =>
      forall i | 0 <= i < |items|
        ensures Bounded(Bounded(items[i], c1, n1), c2, n2) == Bounded(items[i], Min(c1, c2), Min(n1, n2))
      {
        BoundedCompose(items[i], c1, n1, c2, n2);
      }
    case Object(fields) =>
      forall i | 0 <= i < |fields|
        ensures Bounded(Bounded(fields[i].value, c1, n1), c2, n2) == Bounded(fields[i].value, Min(c1, c2), Min(n1, n2))
      {
        BoundedCompose(fields[i].value, c1, n1, c2, n2);
      }
    case _ =>
  }

  // ----- reading a string literal -----

  function HexValue(c: char): Option<nat>
  {
    if '0' <= c <= '9' then Some(c as int - '0' as int)
    else if 'a' <= c <= 'f' then Some(c as int - 'a' as int + 10)
    else if 'A' <= c <= 'F' then Some(c as int - 'A' as int + 10)
    else None
  }

  /** The value of the four hexadecimal digits `s` begins with. */
  function Hex4(s: string): (v: Option<nat>)
    ensures v.Some? ==> |s| >= 4 && v.value < 0x1_0000
  {
    if |s| < 4 then None
    else
      var a, b, c, d := HexValue(s[0]), HexValue(s[1]), HexValue(s[2]), HexValue(s[3]);
      if a.None? || b.None? || c.None? || d.None? then None
      else if a.value > 15 || b.value > 15 || c.value > 15 || d.value > 15 then None
      else Some(a.value * 4096 + b.value * 256 + c.value * 16 + d.value)
  }

  /** The character an escape stands for, and how many characters the escape takes. */
  function ReadEscape(t: string): (r: Option<(char, nat)>)
    requires t != "" && t[0] == '\\'
    ensures r.Some? ==> 2 <= r.value.1 <= |t|
  {
    if |t| < 2 then None
    else match t[1]
      case '"' => Some(('"', 2))
      case '\\' => Some(('\\', 2))
      case '/' => Some(('/', 2))
      case 'b' => Some(('\U{8}', 2))
      case 'f' => Some(('\U{c}', 2))
      case 'n' => Some(('\n', 2))
      case 'r' => Some(('\r', 2))
      case 't' => Some(('\t', 2))
      case 'u' =>
        var v := Hex4(t[2..]);
        if v.None? || 0xDC00 <= v.value < 0xE000 then None
        else if 0xD800 <= v.value < 0xDC00 then
          var w := if |t| >= 8 && t[6] == '\\' && t[7] == 'u' then Hex4(t[8..]) else None;
          if w.None? || !(0xDC00 <= w.value < 0xE000) then None
          else Some(((0x1_0000 + (v.value - 0xD800) * 0x400 + (w.value - 0xDC00)) as char, 12))
        else Some((v.value as char, 6))
      case _ => None
  }

  /** What follows the opening quote of a literal that must end with the text. */
  function Unescape(t: string): Option<string>
    decreases |t|
  {
    if t == "" then None
    else if t[0] == '"' then (if |t| == 1 then Some("") else None)
    else if t[0] == '\\' then
      var e := ReadEscape(t);
      if e.None? then None
      else
        var rest := Unescape(t[e.value.1..]);
        if rest.None? then None else Some([e.value.0] + rest.value)
    else if t[0] as int < 0x20 then None
    else
      var rest := Unescape(t[1..]);
      if rest.None? then None else Some([t[0]] + rest.value)
  }

  /** `serde_json::from_str::<String>` of a text without white space around it. */
  function ParseLiteral(s: string): Option<string>
  {
    if s == "" || s[0] != '"' then None else Unescape(s[1..])
  }

  lemma HexRoundTrip(d: nat)
    requires d < 16
    ensures HexValue(HexDigit(d)) == Some(d)
  {
  }

  lemma ReadControl(c: char, rest: string)
    requires c as int < 0x20
    ensures var e := "\\u00" + [HexDigit(c as int / 16), HexDigit(c as int % 16)];
      ReadEscape(e + rest) == Some((c, 6)) && (e + rest)[6..] == rest
  {
    var e := "\\u00" + [HexDigit(c as int / 16), HexDigit(c as int % 16)];
    HexRoundTrip(c as int / 16);
    HexRoundTrip(c as int % 16);
    HexRoundTrip(0);
    var t := (e + rest)[2..];
    assert t[0] == '0' && t[1] == '0' && t[2] == HexDigit(c as int / 16) && t[3] == HexDigit(c as int % 16);
    assert Hex4(t) == Some(c as int);
  }

  lemma ReadShort(c: char, rest: string)
    requires |Escape(c)| == 2
    ensures Escape(c)[0] == '\\'
    ensures ReadEscape(Escape(c) + rest) == Some((c, 2)) && (Escape(c) + rest)[2..] == rest
  {
    var t := Escape(c) + rest;
    assert t[0] == Escape(c)[0] && t[1] == Escape(c)[1];
  }

  ghost function Cons(c: char, rest: Option<string>): Option<string>
  {
    if rest.Some? then Some([c] + rest.value) else None
  }

  lemma UnescapeStep(t: string, c: char, n: nat)
    requires t != "" && t[0] == '\\' && ReadEscape(t) == Some((c, n))
    ensures Unescape(t) == Cons(c, Unescape(t[n..]))
  {
  }

  lemma EscapeLengths(c: char)
    ensures |Escape(c)| == 6 ==>
      c as int < 0x20 && Escape(c) == "\\u00" + [HexDigit(c as int / 16), HexDigit(c as int % 16)]
    ensures |Escape(c)| == 6 || |Escape(c)| == 2 || (Escape(c) == [c] && c as int >= 0x20 && c != '"' && c != '\\')
  {
  }

  lemma UnescapeOne(c: char, rest: string)
    ensures Unescape(Escape(c) + rest) == Cons(c, Unescape(rest))
  {
    var t := Escape(c) + rest;
    EscapeLengths(c);
    if |Escape(c)| == 6 {
      ReadControl(c, rest);
      UnescapeStep(t, c, 6);
    } else if |Escape(c)| == 2 {
      ReadShort(c, rest);
      UnescapeStep(t, c, 2);
    } else {
      assert t[0] == c && t[1..] == rest;
    }
  }

  lemma {:induction false} UnescapeEscaped(s: string)
    ensures Unescape(EscapeAll(s) + "\"") == Some(s)
  {
    if s != "" {
      UnescapeEscaped(s[1..]);
      UnescapeOne(s[0], EscapeAll(s[1..]) + "\"");
      assert EscapeAll(s) + "\"" == Escape(s[0]) + (EscapeAll(s[1..]) + "\"");
      assert s == [s[0]] + s[1..];
    }
  }

  /** Reading a written literal gives back the string, whatever it holds. */
  lemma LiteralRoundTrip(s: string)
    ensures ParseLiteral(Literal(s)) == Some(s)
  {
    UnescapeEscaped(s);
    assert Literal(s)[1..] == EscapeAll(s) + "\"";
  }

  lemma {:induction false} EscapedIsOneLine(s: string)
    ensures forall i :: 0 <= i < |EscapeAll(s)| ==> EscapeAll(s)[i] as int >= 0x20
  {
    if s != "" {
      EscapedIsOneLine(s[1..]);
    }
  }

  /** A literal is one line, begins and ends with a quote, and has no control character. */
  lemma LiteralShape(s: string)
    ensures var l := Literal(s);
      |l| >= 2 && l[0] == '"' && l[|l| - 1] == '"' && forall i :: 0 <= i < |l| ==> l[i] as int >= 0x20
  {
    EscapedIsOneLine(s);
  }
}
