/** Disjoint sets over 0..n, where every parent link points downwards. */
module UnionFinds {

  ghost predicate Forest(p: seq<nat>)
  {
    forall i :: 0 <= i < |p| ==> p[i] <= i
  }

  /** The representative of `i`; an index past the end stands for itself. */
  ghost function Root(p: seq<nat>, i: nat): (r: nat)
    requires Forest(p)
    ensures r <= i
    decreases i
  {
    if i < |p| && p[i] != i then Root(p, p[i]) else i
  }

  lemma {:induction false} RootIsFixed(p: seq<nat>, i: nat)
    requires Forest(p)
    ensures Root(p, Root(p, i)) == Root(p, i)
    ensures i < |p| ==> p[Root(p, i)] == Root(p, i)
    decreases i
  {
    if i < |p| && p[i] != i {
      RootIsFixed(p, p[i]);
    }
  }

  /** The representative of a class is its least member. */
  lemma RootIsLeast(p: seq<nat>, i: nat)
    requires Forest(p)
    ensures Root(p, Root(p, i)) == Root(p, i)
    ensures forall j: nat :: Root(p, j) == Root(p, i) ==> Root(p, i) <= j
  {
    RootIsFixed(p, i);
  }

  /** Path halving: linking `at` to its grandparent moves no element to another root. */
  lemma {:induction false} HalvingKeepsRoots(p: seq<nat>, at: nat, i: nat)
    requires Forest(p) && at < |p|
    ensures Forest(p[at := p[p[at]]])
    ensures Root(p[at := p[p[at]]], i) == Root(p, i)
    decreases i
  {
    var q := p[at := p[p[at]]];
    assert p[p[at]] <= p[at] <= at;
    if i < |p| && p[i] != i {
      HalvingKeepsRoots(p, at, p[i]);
      if i == at {
        HalvingKeepsRoots(p, at, p[p[at]]);
      }
    }
  }

  /** Linking root `hi` under root `lo` merges exactly their two classes. */
  lemma {:induction false} LinkingMerges(p: seq<nat>, hi: nat, lo: nat, i: nat)
    requires Forest(p) && lo < hi < |p| && p[hi] == hi && p[lo] == lo
    ensures Forest(p[hi := lo])
    ensures Root(p[hi := lo], i) == if Root(p, i) == hi then lo else Root(p, i)
    decreases i
  {
    if i < |p| && p[i] != i {
      LinkingMerges(p, hi, lo, p[i]);
    }
  }

  /** `q` is `p` with the classes of `a` and `b` made one, the lesser representative standing for both,
      and every other class as it was. */
  ghost predicate Merged(p: seq<nat>, q: seq<nat>, a: nat, b: nat)
  {
    |p| == |q| && Forest(p) && Forest(q)
    && var ra, rb := Root(p, a), Root(p, b);
    var lo, hi := if ra < rb then ra else rb, if ra < rb then rb else ra;
    forall i: nat :: Root(q, i) == if Root(p, i) == hi then lo else Root(p, i)
  }

  /** Merging is the least coarsening that puts `a` and `b` together. */
  lemma MergedClasses(p: seq<nat>, q: seq<nat>, a: nat, b: nat, i: nat, j: nat)
    requires Merged(p, q, a, b)
    ensures Root(q, i) == Root(q, j) <==>
      (Root(p, i) == Root(p, j)
       || (Root(p, i) == Root(p, a) && Root(p, j) == Root(p, b))
       || (Root(p, i) == Root(p, b) && Root(p, j) == Root(p, a)))
  {
    var ra, rb, ri, rj := Root(p, a), Root(p, b), Root(p, i), Root(p, j);
    var lo, hi := if ra < rb then ra else rb, if ra < rb then rb else ra;
    assert Root(q, i) == if ri == hi then lo else ri;
    assert Root(q, j) == if rj == hi then lo else rj;
  }

  class UnionFind {
    var parent: seq<nat>

    ghost predicate Valid()
      reads this
    {
      Forest(parent)
    }

    constructor (len: nat)
      ensures Valid() && |parent| == len
      ensures forall i: nat :: Root(parent, i) == i
    {
      parent := seq(len, i => i);
    }

    /** Returns the representative of `at` and halves the path to it; no element changes class. */
    method Find(at: nat) returns (r: nat)
      requires Valid()
      modifies this
      ensures Valid() && |parent| == |old(parent)|
      ensures r == Root(old(parent), at)
      ensures forall i: nat :: Root(parent, i) == Root(old(parent), i)
    {
      r := at;
      while r < |parent| && parent[r] != r
        invariant Valid() && |parent| == |old(parent)|
        invariant Root(parent, r) == Root(old(parent), at)
        invariant forall i: nat :: Root(parent, i) == Root(old(parent), i)
        decreases r
      {
        var grand := parent[parent[r]];
        forall i: nat
          ensures Forest(parent[r := grand]) && Root(parent[r := grand], i) == Root(parent, i)
        {
          HalvingKeepsRoots(parent, r, i);
        }
        RootIsFixed(parent, r);
        parent := parent[r := grand];
        r := grand;
      }
    }

    /** Joins the classes of `a` and `b`; the lesser representative stands for both. */
    method Union(a: nat, b: nat)
      requires Valid()
      modifies this
      ensures Valid() && |parent| == |old(parent)|
      ensures a < |parent| && b < |parent| ==> Merged(old(parent), parent, a, b)
      ensures a >= |parent| || b >= |parent| ==> forall i: nat :: Root(parent, i) == Root(old(parent), i)
    {
      var ra := Find(a);
      var rb := Find(b);
      var lo, hi := if ra < rb then ra else rb, if ra < rb then rb else ra;
      if ra != rb && hi < |parent| {
        RootIsFixed(parent, a);
        RootIsFixed(parent, b);
        forall i: nat
          ensures Forest(parent[hi := lo])
          ensures Root(parent[hi := lo], i) == if Root(parent, i) == hi then lo else Root(parent, i)
        {
          LinkingMerges(parent, hi, lo, i);
        }
        parent := parent[hi := lo];
      }
    }
  }
}
