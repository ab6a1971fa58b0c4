/** The order Rust gives `String`: lexicographic, which for UTF-8 is the order of the code points. */
module Order {

  function Min(a: nat, b: nat): nat
  {
    if a < b then a else b
  }

  predicate Before(a: string, b: string)
  {
    b != [] && (a == [] || a[0] < b[0] || (a[0] == b[0] && Before(a[1..], b[1..])))
  }

  predicate AtMost(a: string, b: string)
  {
    a == b || Before(a, b)
  }

  lemma {:induction false} Irreflexive(a: string)
    ensures !Before(a, a)
  {
    if a != [] {
      Irreflexive(a[1..]);
    }
  }

  lemma {:induction false} Transitive(a: string, b: string, c: string)
    requires Before(a, b) && Before(b, c)
    ensures Before(a, c)
  {
    if a != [] && a[0] == b[0] == c[0] {
      Transitive(a[1..], b[1..], c[1..]);
    }
  }

  lemma {:induction false} Total(a: string, b: string)
    ensures a == b || Before(a, b) || Before(b, a)
  {
    if a != [] && b != [] && a[0] == b[0] {
      Total(a[1..], b[1..]);
      assert a == [a[0]] + a[1..] && b == [b[0]] + b[1..];
    }
  }

  lemma Asymmetric(a: string, b: string)
    requires Before(a, b)
    ensures !Before(b, a)
  {
    if Before(b, a) {
      Transitive(a, b, a);
      Irreflexive(a);
    }
  }

  predicate IsLeast(x: string, s: set<string>)
  {
    x in s && forall y :: y in s ==> AtMost(x, y)
  }

  lemma AtMostTransitive(a: string, b: string, c: string)
    requires AtMost(a, b) && AtMost(b, c)
    ensures AtMost(a, c)
  {
    if a != b && b != c {
      Transitive(a, b, c);
    }
  }

  /** Every non-empty finite set of strings has a least member. */
  lemma {:induction false} LeastExists(s: set<string>)
    requires s != {}
    ensures exists x :: IsLeast(x, s)
    decreases |s|
  {
    var a :| a in s;
    var rest := s - {a};
    if rest == {} {
      assert s == {a} + rest;
      assert IsLeast(a, s);
    } else {
      LeastExists(rest);
      var x :| IsLeast(x, rest);
      Total(a, x);
      var m := if Before(a, x) then a else x;
      forall y | y in s ensures AtMost(m, y) {
        if y != a {
          AtMostTransitive(m, x, y);
        }
      }
      assert IsLeast(m, s);
    }
  }

  lemma LeastUnique(s: set<string>, x: string, y: string)
    requires IsLeast(x, s) && IsLeast(y, s)
    ensures x == y
  {
    if x != y {
      Asymmetric(x, y);
    }
  }

  /** The least member of a set: the first key of a `BTreeMap`. */
  function Least(s: set<string>): (x: string)
    requires s != {}
    ensures IsLeast(x, s)
  {
    LeastExists(s);
    assert forall x, y :: IsLeast(x, s) && IsLeast(y, s) ==> x == y by {
      forall x, y | IsLeast(x, s) && IsLeast(y, s) ensures x == y {
        LeastUnique(s, x, y);
      }
    }
    var x :| x in s && IsLeast(x, s);
    x
  }

  ghost predicate Ascending(xs: seq<string>)
  {
    forall i, j :: 0 <= i < j < |xs| ==> Before(xs[i], xs[j])
  }

  /** The keys of a `BTreeMap`, in iteration order: each member of `s` once, ascending. */
  function Sorted(s: set<string>): (xs: seq<string>)
    ensures Ascending(xs)
    ensures forall i :: 0 <= i < |xs| ==> xs[i] in s
    ensures forall x :: x in s ==> x in xs
    ensures |xs| == |s|
    decreases |s|
  {
    if s == {} then []
    else
      var x := Least(s);
      var rest := Sorted(s - {x});
      assert forall i :: 0 <= i < |rest| ==> rest[i] in s - {x} && Before(x, rest[i]);
      [x] + rest
  }
}
