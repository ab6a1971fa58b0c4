/**
 * Percent coding and query strings, in both directions. A string stands for its UTF-8 encoding, one char per byte;
 * `lossy` is the decoding of bytes to a string, which leaves valid UTF-8 as it is.
 */
module Urls {
  import Json
  import opened Results
  import opened Text

  type Lossy = string -> string

  predicate IsBytes(s: string)
  {
    forall i :: 0 <= i < |s| ==> s[i] as int < 0x100
  }

  /** The bytes of a string: decoding them gives them back. */
  ghost predicate IsUtf8(lossy: Lossy, s: string)
  {
    IsBytes(s) && lossy(s) == s
  }

  // ----- encoding -----

  /** The unreserved characters (section 2.3 of RFC 3986). */
  predicate Unreserved(c: char)
  {
    'A' <= c <= 'Z' || 'a' <= c <= 'z' || '0' <= c <= '9' || c == '-' || c == '_' || c == '.' || c == '~'
  }

  function HexDigit(d: nat): char
    requires d < 16
  {
    if d < 10 then '0' + d as char else 'A' + (d - 10) as char
  }

  /** `%XX`, `+` for a space in a form, or the byte itself. */
  function EncodedByte(c: char, plus: bool): string
    requires c as int < 0x100
  {
    if Unreserved(c) then [c]
    else if c == ' ' && plus then "+"
    else ['%', HexDigit(c as int / 16), HexDigit(c as int % 16)]
  }

  function Encoded(s: string, plus: bool): string
    requires IsBytes(s)
  {
    if s == "" then "" else EncodedByte(s[0], plus) + Encoded(s[1..], plus)
  }

  lemma Onward(a: string, b: string, c: string)
    ensures (a + b) + c == a + (b + c)
  {
  }

  /** What is written, and the encoding of what is left, are the whole encoding. */
  ghost predicate EncodedTo(s: string, i: nat, out: string, plus: bool)
  {
    IsBytes(s) && i <= |s| && out + Encoded(s[i..], plus) == Encoded(s, plus)
  }

  lemma EncodedOn(s: string, i: nat, out: string, plus: bool)
    requires EncodedTo(s, i, out, plus) && i < |s|
    ensures EncodedTo(s, i + 1, out + EncodedByte(s[i], plus), plus)
  {
    assert s[i..][1..] == s[i + 1..];
    Onward(out, EncodedByte(s[i], plus), Encoded(s[i + 1..], plus));
  }

  lemma EncodedWhole(s: string, out: string, plus: bool)
    requires IsBytes(s)
    ensures EncodedTo(s, 0, "", plus)
    ensures EncodedTo(s, |s|, out, plus) ==> out == Encoded(s, plus)
  {
    assert s[0..] == s && s[|s|..] == "";
    assert out + "" == out;
  }

  method EncodeComponent(s: string, spaceAsPlus: bool) returns (out: string)
    requires IsBytes(s)
    ensures out == Encoded(s, spaceAsPlus)
  {
    out := "";
    EncodedWhole(s, out, spaceAsPlus);
    for i := 0 to |s|
      invariant EncodedTo(s, i, out, spaceAsPlus)
    {
      EncodedOn(s, i, out, spaceAsPlus);
      var byte := EncodeByte(s[i], spaceAsPlus);
      out := out + byte;
    }
    EncodedWhole(s, out, spaceAsPlus);
  }

  /** What the loop appends for one byte. */
  method EncodeByte(byte: char, spaceAsPlus: bool) returns (out: string)
    requires byte as int < 0x100
    ensures out == EncodedByte(byte, spaceAsPlus)
  {
    if Unreserved(byte) {
      out := [byte];
    } else if byte == ' ' && spaceAsPlus {
      out := "+";
    } else if byte == ' ' {
      out := "%20";
    } else {
      out := ['%', HexDigit(byte as int / 16), HexDigit(byte as int % 16)];
    }
  }

  // ----- decoding -----

  /** A `%` with two hex digits after it. */
  predicate IsEscape(s: string)
  {
    |s| > 2 && s[0] == '%' && Json.HexValue(s[1]).Some? && Json.HexValue(s[2]).Some?
  }

  function EscapedByte(s: string): char
    requires IsEscape(s)
  {
    (Json.HexValue(s[1]).value * 16 + Json.HexValue(s[2]).value) as char
  }

  /** The bytes a component stands for. */
  function DecodedBytes(s: string): string
    decreases |s|
  {
    if s == "" then ""
    else if s[0] == '+' then [' '] + DecodedBytes(s[1..])
    else if IsEscape(s) then [EscapedByte(s)] + DecodedBytes(s[3..])
    else [s[0]] + DecodedBytes(s[1..])
  }

  method UrlDecode(lossy: Lossy, input: string) returns (r: string)
    ensures r == lossy(DecodedBytes(input))
  {
    var out := "";
    var i := 0;
    assert input[0..] == input;
    while i < |input|
      invariant 0 <= i <= |input|
      invariant out + DecodedBytes(input[i..]) == DecodedBytes(input)
    {
      var rest := input[i..];
      assert rest[1..] == input[i + 1..];
      if input[i] == '+' {
        Onward(out, [' '], DecodedBytes(rest[1..]));
        out := out + [' '];
        i := i + 1;
      } else if input[i] == '%' && i + 2 < |input| {
        var hi, lo := Json.HexValue(input[i + 1]), Json.HexValue(input[i + 2]);
        if hi.Some? && lo.Some? {
          assert rest[3..] == input[i + 3..];
          Onward(out, [EscapedByte(rest)], DecodedBytes(rest[3..]));
          out := out + [(hi.value * 16 + lo.value) as char];
          i := i + 3;
        } else {
          Onward(out, [input[i]], DecodedBytes(rest[1..]));
          out := out + [input[i]];
          i := i + 1;
        }
      } else {
        Onward(out, [input[i]], DecodedBytes(rest[1..]));
        out := out + [input[i]];
        i := i + 1;
      }
    }
    assert input[|input|..] == "";
    assert out + "" == out;
    r := lossy(out);
  }

  // ----- the round trip -----

  lemma EncodedByteDecodes(c: char, plus: bool, rest: string)
    requires c as int < 0x100
    ensures DecodedBytes(EncodedByte(c, plus) + rest) == [c] + DecodedBytes(rest)
  {
    var e := EncodedByte(c, plus);
    var s := e + rest;
    assert s[|e|..] == rest;
    if !Unreserved(c) && !(c == ' ' && plus) {
      var hi, lo := c as int / 16, c as int % 16;
      assert Json.HexValue(HexDigit(hi)) == Some(hi) && Json.HexValue(HexDigit(lo)) == Some(lo);
      assert s[1] == HexDigit(hi) && s[2] == HexDigit(lo);
      assert hi * 16 + lo == c as int;
      assert EscapedByte(s) == c;
    }
  }

  /** Decoding an encoded component gives it back, whichever way a space was written. */
  lemma {:induction false} EncodedDecodes(s: string, plus: bool)
    requires IsBytes(s)
    ensures DecodedBytes(Encoded(s, plus)) == s
  {
    if s != "" {
      EncodedDecodes(s[1..], plus);
      EncodedByteDecodes(s[0], plus, Encoded(s[1..], plus));
      assert s == [s[0]] + s[1..];
    }
  }

  /** An encoded component holds no separator and no byte outside ASCII. */
  lemma {:induction false} EncodedIsPlain(s: string, plus: bool)
    requires IsBytes(s)
    ensures forall i :: 0 <= i < |Encoded(s, plus)| ==>
      (var c := Encoded(s, plus)[i]; Unreserved(c) || c == '%' || (plus && c == '+'))
  {
    if s != "" {
      EncodedIsPlain(s[1..], plus);
    }
  }

  // ----- queries -----

  type Param = (string, string)

  type Params = seq<Param>

  function EncodedPair(p: Param, plus: bool): string
    requires IsBytes(p.0) && IsBytes(p.1)
  {
    Encoded(p.0, plus) + "=" + Encoded(p.1, plus)
  }

  ghost predicate ParamsAreBytes(params: Params)
  {
    forall i :: 0 <= i < |params| ==> IsBytes(params[i].0) && IsBytes(params[i].1)
  }

  ghost predicate ParamsAreUtf8(lossy: Lossy, params: Params)
  {
    forall i :: 0 <= i < |params| ==> IsUtf8(lossy, params[i].0) && IsUtf8(lossy, params[i].1)
  }

  /** The query for a list of parameters. */
  function Query(params: Params, plus: bool): string
    requires ParamsAreBytes(params)
  {
    Join(seq(|params|, i requires 0 <= i < |params| => EncodedPair(params[i], plus)), "&")
  }

  /** The parameters after one more part of a query; a part without `=` is skipped. */
  function AddPart(lossy: Lossy, params: map<string, string>, part: string): map<string, string>
  {
    var pair := SplitOnce(part, '=');
    if pair.None? then params
    else params[lossy(DecodedBytes(pair.value.0)) := lossy(DecodedBytes(pair.value.1))]
  }

  function AddParts(lossy: Lossy, params: map<string, string>, parts: seq<string>): map<string, string>
    decreases |parts|
  {
    if parts == [] then params else AddParts(lossy, AddPart(lossy, params, parts[0]), parts[1..])
  }

  function ParsedQuery(lossy: Lossy, query: string): map<string, string>
  {
    if query == "" then map[] else AddParts(lossy, map[], Split(query, '&'))
  }

  method ParseQuery(lossy: Lossy, query: string) returns (params: map<string, string>)
    ensures params == ParsedQuery(lossy, query)
  {
    params := map[];
    if query == "" {
      return;
    }
    var parts := Split(query, '&');
    assert parts[0..] == parts;
    for i := 0 to |parts|
      invariant AddParts(lossy, params, parts[i..]) == AddParts(lossy, map[], parts)
    {
      assert parts[i..][1..] == parts[i + 1..];
      var pair := SplitOnce(parts[i], '=');
      if pair.Some? {
        var key := UrlDecode(lossy, pair.value.0);
        var value := UrlDecode(lossy, pair.value.1);
        params := params[key := value];
      }
    }
  }

  /** The parameters as a map; a later one wins. */
  ghost function AsMap(start: map<string, string>, params: Params): map<string, string>
    decreases |params|
  {
    if params == [] then start else AsMap(start[params[0].0 := params[0].1], params[1..])
  }

  lemma EncodedPairShape(p: Param, plus: bool)
    requires IsBytes(p.0) && IsBytes(p.1)
    ensures var part := EncodedPair(p, plus);
      '&' !in part && part != "" && SplitOnce(part, '=') == Some((Encoded(p.0, plus), Encoded(p.1, plus)))
  {
    var key, value := Encoded(p.0, plus), Encoded(p.1, plus);
    EncodedIsPlain(p.0, plus);
    EncodedIsPlain(p.1, plus);
    SplitOnceAt(key, '=', value);
    assert key + "=" + value == key + ['='] + value;
  }

  lemma EncodedPairReads(lossy: Lossy, sofar: map<string, string>, p: Param, plus: bool)
    requires IsUtf8(lossy, p.0) && IsUtf8(lossy, p.1)
    ensures AddPart(lossy, sofar, EncodedPair(p, plus)) == sofar[p.0 := p.1]
  {
    EncodedPairShape(p, plus);
    EncodedDecodes(p.0, plus);
    EncodedDecodes(p.1, plus);
  }

  lemma {:induction false} EncodedPartsRead(lossy: Lossy, sofar: map<string, string>, params: Params, plus: bool,
                                            parts: seq<string>)
    requires ParamsAreUtf8(lossy, params) && |parts| == |params|
    requires forall i :: 0 <= i < |params| ==> parts[i] == EncodedPair(params[i], plus)
    ensures AddParts(lossy, sofar, parts) == AsMap(sofar, params)
    decreases |params|
  {
    if params != [] {
      EncodedPairReads(lossy, sofar, params[0], plus);
      EncodedPartsRead(lossy, sofar[params[0].0 := params[0].1], params[1..], plus, parts[1..]);
    }
  }

  /** Reading a query gives back the parameters it was written from, whatever characters they hold. */
  lemma QueryRoundTrip(lossy: Lossy, params: Params, plus: bool)
    requires ParamsAreUtf8(lossy, params)
    ensures ParsedQuery(lossy, Query(params, plus)) == AsMap(map[], params)
  {
    var parts := seq(|params|, i requires 0 <= i < |params| => EncodedPair(params[i], plus));
    assert Query(params, plus) == Join(parts, "&");
    if params != [] {
      forall i | 0 <= i < |parts| ensures '&' !in parts[i] && parts[i] != "" {
        EncodedPairShape(params[i], plus);
      }
      SplitJoin(parts, '&');
      assert Join(parts, "&") != "" by {
        assert parts[0] != "";
      }
      EncodedPartsRead(lossy, map[], params, plus, parts);
    }
  }

  lemma {:induction false} AsMapDistinct(start: map<string, string>, params: Params)
    requires forall i, j :: 0 <= i < j < |params| ==> params[i].0 != params[j].0
    ensures forall i :: 0 <= i < |params| ==> params[i].0 in AsMap(start, params)
    ensures forall i :: 0 <= i < |params| ==> AsMap(start, params)[params[i].0] == params[i].1
    ensures forall k :: k in AsMap(start, params) <==>
      k in start || exists i :: 0 <= i < |params| && params[i].0 == k
    ensures forall k :: k in start && (forall i :: 0 <= i < |params| ==> params[i].0 != k) ==>
      k in AsMap(start, params) && AsMap(start, params)[k] == start[k]
    decreases |params|
  {
    if params != [] {
      var next, rest := start[params[0].0 := params[0].1], params[1..];
      AsMapDistinct(next, rest);
      assert forall i :: 1 <= i < |params| ==> params[i] == rest[i - 1];
      forall k ensures k in AsMap(start, params) <==>
          k in start || exists i :: 0 <= i < |params| && params[i].0 == k {
        if i :| 0 <= i < |params| && params[i].0 == k {
          assert i == 0 || rest[i - 1].0 == k;
        }
        if i :| 0 <= i < |rest| && rest[i].0 == k {
          assert params[i + 1].0 == k;
        }
      }
    }
  }

  // ----- the authorization request and its answer -----

  datatype Authorization = Authorization(clientId: string, redirectUri: string, state: string, challenge: string,
                                         resource: Option<string>, scope: Option<string>)

  function RequestParams(a: Authorization): Params
  {
    [("response_type", "code"), ("client_id", a.clientId), ("redirect_uri", a.redirectUri), ("state", a.state),
     ("code_challenge", a.challenge), ("code_challenge_method", "S256")]
    + (if a.resource.Some? then [("resource", a.resource.value)] else [])
    + (if a.scope.Some? then [("scope", a.scope.value)] else [])
  }

  function RequestUrl(endpoint: string, a: Authorization): string
    requires ParamsAreBytes(RequestParams(a))
  {
    endpoint + "?" + Query(RequestParams(a), false)
  }

  ghost predicate HasKey(params: Params, key: string)
  {
    exists i :: 0 <= i < |params| && params[i].0 == key
  }

  /** A query with distinct keys is read as exactly its parameters: each with its value, and no other. */
  lemma ReadsExactly(lossy: Lossy, params: Params, plus: bool, key: string)
    requires ParamsAreUtf8(lossy, params)
    requires forall i, j :: 0 <= i < j < |params| ==> params[i].0 != params[j].0
    ensures var read := ParsedQuery(lossy, Query(params, plus));
      && (forall i :: 0 <= i < |params| ==> params[i].0 in read && read[params[i].0] == params[i].1)
      && (key in read <==> HasKey(params, key))
  {
    QueryRoundTrip(lossy, params, plus);
    AsMapDistinct(map[], params);
  }

  /** The server reads from the authorization request exactly what was asked. */
  lemma RequestReadsBack(lossy: Lossy, a: Authorization, key: string)
    requires ParamsAreUtf8(lossy, RequestParams(a))
    ensures var read, params := ParsedQuery(lossy, Query(RequestParams(a), false)), RequestParams(a);
      && (forall i :: 0 <= i < |params| ==> params[i].0 in read && read[params[i].0] == params[i].1)
      && (key in read <==> HasKey(params, key))
  {
    DistinctKeys(a);
    ReadsExactly(lossy, RequestParams(a), false, key);
  }

  lemma DistinctKeys(a: Authorization)
    ensures var params := RequestParams(a);
      forall i, j :: 0 <= i < j < |params| ==> params[i].0 != params[j].0
  {
  }

  /** A reader that splits at the first `?` finds the query exactly when the endpoint has none of its own. */
  lemma QueryFoundIff(endpoint: string, a: Authorization)
    requires ParamsAreBytes(RequestParams(a))
    ensures SplitOnce(RequestUrl(endpoint, a), '?') == Some((endpoint, Query(RequestParams(a), false)))
      <==> '?' !in endpoint
  {
    if '?' !in endpoint {
      SplitOnceAt(endpoint, '?', Query(RequestParams(a), false));
    } else {
      var url := RequestUrl(endpoint, a);
      var i := Find(url, '?');
      assert '?' !in url[..i];
    }
  }

  /** Builds the request URL. When the endpoint has no query of its own, a reader that splits at the first `?` and
      parses what follows gets exactly the parameters, whatever characters they hold. */
  method AuthorizeUrl(endpoint: string, a: Authorization) returns (url: string)
    requires ParamsAreBytes(RequestParams(a))
    ensures url == RequestUrl(endpoint, a)
    ensures '?' !in endpoint ==> SplitOnce(url, '?').Some? && SplitOnce(url, '?').value.0 == endpoint
    ensures '?' !in endpoint ==> forall lossy: Lossy :: ParamsAreUtf8(lossy, RequestParams(a)) ==>
      ParsedQuery(lossy, SplitOnce(url, '?').value.1) == AsMap(map[], RequestParams(a))
  {
    var params := [("response_type", "code"), ("client_id", a.clientId), ("redirect_uri", a.redirectUri),
                   ("state", a.state), ("code_challenge", a.challenge), ("code_challenge_method", "S256")];
    if a.resource.Some? {
      params := params + [("resource", a.resource.value)];
    }
    if a.scope.Some? {
      params := params + [("scope", a.scope.value)];
    }
    assert params == RequestParams(a);
    url := endpoint + "?" + Query(params, false);
    QueryFoundIff(endpoint, a);
    forall lossy: Lossy | ParamsAreUtf8(lossy, params)
      ensures ParsedQuery(lossy, Query(params, false)) == AsMap(map[], params)
    {
      QueryRoundTrip(lossy, params, false);
    }
  }

  datatype Answer = OAuthError | StateMismatch | MissingCode | Code(code: string)

  function EvaluateCallback(params: map<string, string>, expected: string): Answer
  {
    var state := if "state" in params then params["state"] else "";
    if "error" in params then OAuthError
    else if state != expected then StateMismatch
    else if "code" in params && params["code"] != "" then Code(params["code"])
    else MissingCode
  }

  /** A redirect with a code and a state is answered by that code exactly when the state is the one sent. */
  lemma RedirectGivesCode(lossy: Lossy, code: string, state: string, expected: string, plus: bool)
    requires IsUtf8(lossy, code) && IsUtf8(lossy, state) && code != ""
    requires IsUtf8(lossy, "code") && IsUtf8(lossy, "state")
    ensures EvaluateCallback(ParsedQuery(lossy, Query([("code", code), ("state", state)], plus)), expected)
      == if state == expected then Code(code) else StateMismatch
  {
    var params := [("code", code), ("state", state)];
    assert ParamsAreUtf8(lossy, params);
    QueryRoundTrip(lossy, params, plus);
    AsMapDistinct(map[], params);
    assert params[0].0 == "code" && params[1].0 == "state";
    assert "error" !in AsMap(map[], params) by {
      assert "error"[0] == 'e';
    }
  }
}
