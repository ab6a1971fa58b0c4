/** How a component of a URL is read, byte by byte. */
module UrlReading {
  import Json
  import opened Results
  import opened Text
  import opened Urls

  /** `c` is a hex digit of value `d`, in either case. */
  predicate HexOf(c: char, d: nat)
  {
    d < 16 && (c == "0123456789abcdef"[d] || c == "0123456789ABCDEF"[d])
  }

  ghost predicate IsHex(c: char)
  {
    exists d :: HexOf(c, d)
  }

  lemma HexValueIs(c: char, d: nat)
    ensures Json.HexValue(c) == Some(d) <==> HexOf(c, d)
  {
  }

  /** A plus is a space, two hex digits behind a `%` are the byte of that value, and every other byte is
      itself: so is the `%` of a malformed escape. */
  lemma ReadByteByByte(rest: string)
    ensures DecodedBytes("+" + rest) == " " + DecodedBytes(rest)
    ensures forall c :: c != '+' && c != '%' ==> DecodedBytes([c] + rest) == [c] + DecodedBytes(rest)
    ensures |rest| < 2 || !IsHex(rest[0]) || !IsHex(rest[1]) ==> DecodedBytes("%" + rest) == "%" + DecodedBytes(rest)
  {
    PlainReads('+', rest);
    forall c | c != '+' && c != '%' ensures DecodedBytes([c] + rest) == [c] + DecodedBytes(rest) {
      PlainReads(c, rest);
    }
    if |rest| < 2 || !IsHex(rest[0]) || !IsHex(rest[1]) {
      MalformedStays(rest);
    }
  }

  lemma PlainReads(c: char, rest: string)
    requires c != '%'
    ensures DecodedBytes([c] + rest) == [if c == '+' then ' ' else c] + DecodedBytes(rest)
  {
    assert ([c] + rest)[1..] == rest;
  }

  lemma MalformedStays(rest: string)
    requires |rest| < 2 || !IsHex(rest[0]) || !IsHex(rest[1])
    ensures DecodedBytes("%" + rest) == "%" + DecodedBytes(rest)
  {
    var s := "%" + rest;
    assert s[1..] == rest;
    if IsEscape(s) {
      assert s[1] == rest[0] && s[2] == rest[1];
      HexValueIs(rest[0], Json.HexValue(rest[0]).value);
      HexValueIs(rest[1], Json.HexValue(rest[1]).value);
    }
  }

  lemma EscapeReads(a: char, b: char, hi: nat, lo: nat, rest: string)
    requires HexOf(a, hi) && HexOf(b, lo)
    ensures DecodedBytes(['%', a, b] + rest) == [(16 * hi + lo) as char] + DecodedBytes(rest)
  {
    var s := ['%', a, b] + rest;
    assert s[3..] == rest && s[1] == a && s[2] == b;
    HexValueIs(a, hi);
    HexValueIs(b, lo);
  }

  // ----- what is written as it is -----

  /** Letters, digits, `-`, `.`, `_` and `~` are written as they are, and nothing else is (section 2.3 of
      RFC 3986); a space is a plus in a form and `%20` elsewhere. */
  lemma WrittenAsItIs(c: char, plus: bool)
    requires c as int < 0x100
    ensures EncodedByte(c, plus) == [c] <==>
      'A' <= c <= 'Z' || 'a' <= c <= 'z' || '0' <= c <= '9' || c in "-._~"
    ensures EncodedByte(' ', plus) == if plus then "+" else "%20"
  {
    var marks := "-._~";
    assert marks[0] == '-' && marks[1] == '.' && marks[2] == '_' && marks[3] == '~';
    assert ' ' as int == 32;
    assert [c] != "+" || c == '+';
  }
}
