/** Decimal numerals: printing with padding, and Rust's `parse::<i64>`. */
module Decimal {
  import opened Order
  import opened Results

  const DIGITS := "0123456789"

  function Digit(d: nat): (c: char)
    requires d < 10
    ensures '0' <= c <= '9' && c as int - '0' as int == d
  {
    ('0' as int + d) as char
  }

  predicate IsDigit(c: char)
  {
    '0' <= c <= '9'
  }

  predicate AllDigits(s: string)
  {
    forall i :: 0 <= i < |s| ==> IsDigit(s[i])
  }

  /** The last `w` digits of `n`. */
  function Fixed(n: nat, w: nat): (s: string)
    ensures |s| == w && AllDigits(s)
  {
    if w == 0 then "" else Fixed(n / 10, w - 1) + [Digit(n % 10)]
  }

  function Pow10(w: nat): (p: nat)
    ensures p > 0
  {
    if w == 0 then 1 else 10 * Pow10(w - 1)
  }

  /** The shortest numeral of `n`. */
  function Numeral(n: nat): (s: string)
    ensures s != "" && AllDigits(s)
  {
    if n < 10 then [Digit(n)] else Numeral(n / 10) + [Digit(n % 10)]
  }

  /** Rust's `{:0w}`: at least `w` characters, zero padded behind the sign. */
  function Padded(n: int, w: nat): string
  {
    var s := Numeral(if n < 0 then -n else n);
    var sign := if n < 0 then "-" else "";
    var fill := w - |s| - |sign|;
    sign + (if fill > 0 then seq(fill, _ => '0') else "") + s
  }

  lemma {:induction false} NumeralFits(n: nat, w: nat)
    requires w > 0
    ensures n < Pow10(w) ==> |Numeral(n)| <= w
    ensures n >= Pow10(w) ==> |Numeral(n)| > w
    decreases w
  {
    if n < 10 {
      PowPositive(w);
    } else if w == 1 {
      assert Pow10(1) == 10 * Pow10(0);
      assert |Numeral(n / 10)| >= 1;
    } else {
      NumeralFits(n / 10, w - 1);
    }
  }

  lemma {:induction false} PowPositive(w: nat)
    requires w > 0
    ensures Pow10(w) >= 10
  {
    assert Pow10(w - 1) >= 1;
  }

  lemma {:induction false} FixedZeros(w: nat)
    ensures Fixed(0, w) == seq(w, _ => '0')
  {
    if w > 0 {
      FixedZeros(w - 1);
      assert seq(w, _ => '0') == seq(w - 1, _ => '0') + ['0'];
    }
  }

  /** A number that fits is padded to exactly its last `w` digits. */
  lemma {:induction false} PaddedIsFixed(n: nat, w: nat)
    requires w > 0 && n < Pow10(w)
    ensures Padded(n, w) == Fixed(n, w)
    decreases w
  {
    NumeralFits(n, w);
    if n < 10 {
      FixedZeros(w - 1);
      assert n / 10 == 0 && n % 10 == n;
      assert Padded(n, w) == seq(w - 1, _ => '0') + [Digit(n)];
    } else {
      PowPositive(w);
      NumeralFits(n / 10, w - 1);
      PaddedIsFixed(n / 10, w - 1);
      assert Padded(n, w) == Padded(n / 10, w - 1) + [Digit(n % 10)];
    }
  }

  lemma PowTable()
    ensures Pow10(2) == 100 && Pow10(4) == 10_000 && Pow10(9) == 1_000_000_000
  {
    assert Pow10(1) == 10;
    assert Pow10(3) == 1000;
    assert Pow10(5) == 100_000;
    assert Pow10(7) == 10_000_000;
  }

  // ----- order -----

  /** Strings of one length compare by their first difference, so appending keeps the order. */
  lemma {:induction false} BeforeConcat(a: string, b: string, x: string, y: string)
    requires |a| == |b|
    ensures Before(a + x, b + y) <==> Before(a, b) || (a == b && Before(x, y))
  {
    if a == [] {
      assert a + x == x && b + y == y;
    } else {
      assert (a + x)[1..] == a[1..] + x && (b + y)[1..] == b[1..] + y;
      BeforeConcat(a[1..], b[1..], x, y);
      assert a == [a[0]] + a[1..] && b == [b[0]] + b[1..];
    }
  }

  /** Numerals of one width compare as their numbers do. */
  lemma {:induction false} FixedOrder(m: nat, n: nat, w: nat)
    requires m < Pow10(w) && n < Pow10(w)
    ensures Before(Fixed(m, w), Fixed(n, w)) <==> m < n
    ensures Fixed(m, w) == Fixed(n, w) <==> m == n
  {
    if w > 0 {
      FixedOrder(m / 10, n / 10, w - 1);
      var a, b := Fixed(m / 10, w - 1), Fixed(n / 10, w - 1);
      BeforeConcat(a, b, [Digit(m % 10)], [Digit(n % 10)]);
      assert (a + [Digit(m % 10)])[..w - 1] == a && (b + [Digit(n % 10)])[..w - 1] == b;
      assert (a + [Digit(m % 10)])[w - 1] == Digit(m % 10) && (b + [Digit(n % 10)])[w - 1] == Digit(n % 10);
    }
  }

  // ----- parsing -----

  const MIN_I64 := -0x8000_0000_0000_0000
  const MAX_I64 := 0x7fff_ffff_ffff_ffff

  function Value(s: string): (n: nat)
    requires AllDigits(s)
  {
    if s == "" then 0 else 10 * Value(s[..|s| - 1]) + (s[|s| - 1] as int - '0' as int)
  }

  /** `parse::<i64>`: an optional sign, at least one digit, and a value in range. */
  function ParseI64(s: string): Option<int>
  {
    var signed := s != "" && (s[0] == '-' || s[0] == '+');
    var digits := if signed then s[1..] else s;
    if digits == "" || !AllDigits(digits) then None
    else
      var n: int := Value(digits);
      var v := if signed && s[0] == '-' then -n else n;
      if MIN_I64 <= v <= MAX_I64 then Some(v) else None
  }

  lemma {:induction false} ValueFixed(n: nat, w: nat)
    requires n < Pow10(w)
    ensures Value(Fixed(n, w)) == n
  {
    if w > 0 {
      ValueFixed(n / 10, w - 1);
      assert Fixed(n, w)[..w - 1] == Fixed(n / 10, w - 1);
    }
  }

  lemma ParseFixed(n: nat, w: nat)
    requires w > 0 && n < Pow10(w) && n <= MAX_I64
    ensures ParseI64(Fixed(n, w)) == Some(n)
  {
    ValueFixed(n, w);
    assert IsDigit(Fixed(n, w)[0]);
  }
}
