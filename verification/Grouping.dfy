/** What a grouping guarantees: the all-pairs components, nothing lost, and one answer for any input order. */
module Grouping {
  import opened Order
  import opened Results
  import opened Repetition

  // ----- the lister -----

  lemma {:induction false} PathRefines(
    weak: Edges, strong: Edges, nodes: set<string>, p: seq<string>, a: string, b: string)
    requires forall x, y :: x in nodes && y in nodes && weak(x, y) ==> Connected(strong, nodes, x, y)
    requires IsPath(weak, nodes, p, a, b)
    ensures Connected(strong, nodes, a, b)
    decreases |p|
  {
    if |p| == 1 {
      ConnectedSelf(strong, nodes, a);
    } else {
      var q, c := p[..|p| - 1], p[|p| - 2];
      assert IsPath(weak, nodes, q, a, c);
      PathRefines(weak, strong, nodes, q, a, c);
      assert weak(p[|p| - 2], p[|p| - 1]) || weak(p[|p| - 1], p[|p| - 2]);
      if !weak(c, b) {
        ConnectedSymmetric(strong, nodes, b, c);
      }
      ConnectedTransitive(strong, nodes, a, c, b);
    }
  }

  /** Every similar pair is joined by the pairs that were judged. */
  ghost predicate JoinsSimilar(alnum: char -> bool, judged: Edges, nodes: set<string>)
  {
    forall a, b :: a in nodes && b in nodes && AllPairs(alnum)(a, b) ==> Connected(judged, nodes, a, b)
  }

  lemma JudgedAreSimilar<E>(alnum: char -> bool, similar: Lister<E>, texts: seq<string>, nodes: set<string>)
    requires forall t :: t in nodes <==> t in texts
    ensures forall a, b :: a in nodes && b in nodes && JudgedEdges(alnum, similar, texts)(a, b) ==>
      Connected(AllPairs(alnum), nodes, a, b)
  {
    forall a, b | a in nodes && b in nodes && JudgedEdges(alnum, similar, texts)(a, b)
      ensures Connected(AllPairs(alnum), nodes, a, b)
    {
      ConnectedEdge(AllPairs(alnum), nodes, a, b);
    }
  }

  /** Both graphs have the same components exactly when the judged pairs join every similar pair. */
  lemma SameComponents<E>(alnum: char -> bool, similar: Lister<E>, texts: seq<string>, nodes: set<string>)
    requires forall t :: t in nodes <==> t in texts
    ensures var judged := JudgedEdges(alnum, similar, texts);
      JoinsSimilar(alnum, judged, nodes) <==>
      forall a, b :: Connected(AllPairs(alnum), nodes, a, b) <==> Connected(judged, nodes, a, b)
  {
    var judged, all := JudgedEdges(alnum, similar, texts), AllPairs(alnum);
    JudgedAreSimilar(alnum, similar, texts, nodes);
    forall a, b | Connected(judged, nodes, a, b) ensures Connected(all, nodes, a, b) {
      var p :| IsPath(judged, nodes, p, a, b);
      PathRefines(judged, all, nodes, p, a, b);
    }
    if JoinsSimilar(alnum, judged, nodes) {
      forall a, b | Connected(all, nodes, a, b) ensures Connected(judged, nodes, a, b) {
        var p :| IsPath(all, nodes, p, a, b);
        PathRefines(all, judged, nodes, p, a, b);
      }
    }
    forall a, b | a in nodes && b in nodes && all(a, b) ensures Connected(all, nodes, a, b) {
      ConnectedEdge(all, nodes, a, b);
    }
  }

  /** A complete lister joins every similar pair, whatever else it offers. */
  lemma CompleteJoinsSimilar<E>(alnum: char -> bool, similar: Lister<E>, texts: seq<string>, nodes: set<string>)
    requires forall t :: t in nodes <==> t in texts
    requires AllAnswered(alnum, similar, texts, |texts|) && Complete(alnum, similar, texts)
    ensures JoinsSimilar(alnum, JudgedEdges(alnum, similar, texts), nodes)
  {
    var judged := JudgedEdges(alnum, similar, texts);
    forall a, b | a in nodes && b in nodes && AllPairs(alnum)(a, b) ensures Connected(judged, nodes, a, b) {
      var i: nat :| i < |texts| && texts[i] == a;
      var j: nat :| j < |texts| && texts[j] == b;
      AlikeSymmetric(Toks(alnum, a), Toks(alnum, b));
      if i == j {
        ConnectedSelf(judged, nodes, a);
      } else if i < j {
        assert Judged(alnum, similar, texts, i, j);
        ConnectedEdge(judged, nodes, a, b);
      } else {
        assert Judged(alnum, similar, texts, j, i);
        ConnectedEdge(judged, nodes, b, a);
        ConnectedSymmetric(judged, nodes, b, a);
      }
    }
  }

  lemma GroupingTransfers(e: Edges, f: Edges, fs: seq<Fingerprint>, groups: seq<Group>)
    requires forall a, b :: Connected(e, Nodes(fs), a, b) <==> Connected(f, Nodes(fs), a, b)
    requires IsGrouping(e, fs, groups)
    ensures IsGrouping(f, fs, groups)
  {
    assert Separated(f, fs, groups);
  }

  lemma SameGroupsSameComponents(e: Edges, f: Edges, fs: seq<Fingerprint>, groups: seq<Group>, a: string, b: string)
    requires IsGrouping(e, fs, groups) && IsGrouping(f, fs, groups)
    requires a in Nodes(fs) && b in Nodes(fs) && Connected(e, Nodes(fs), a, b)
    ensures Connected(f, Nodes(fs), a, b)
  {
    var k := GroupHolding(fs, groups, a);
    var l := GroupHolding(fs, groups, b);
    assert Separated(e, fs, groups) && Separated(f, fs, groups);
  }

  /** What `group` returns is the set of components of the all-pairs similarity graph exactly when the
      judged pairs join every similar pair. */
  lemma GroupsAreSimilarityComponents<E>(
      alnum: char -> bool, similar: Lister<E>, fs: seq<Fingerprint>, groups: seq<Group>)
    requires IsGrouping(JudgedEdges(alnum, similar, Sorted(Nodes(fs))), fs, groups)
    ensures IsGrouping(AllPairs(alnum), fs, groups) <==>
      JoinsSimilar(alnum, JudgedEdges(alnum, similar, Sorted(Nodes(fs))), Nodes(fs))
  {
    var texts, nodes := Sorted(Nodes(fs)), Nodes(fs);
    var judged, all := JudgedEdges(alnum, similar, texts), AllPairs(alnum);
    SameComponents(alnum, similar, texts, nodes);
    if JoinsSimilar(alnum, judged, nodes) {
      GroupingTransfers(judged, all, fs, groups);
    }
    if IsGrouping(all, fs, groups) {
      forall a, b | a in nodes && b in nodes && all(a, b) ensures Connected(judged, nodes, a, b) {
        ConnectedEdge(all, nodes, a, b);
        SameGroupsSameComponents(all, judged, fs, groups, a, b);
      }
    }
  }

  lemma GroupHolding(fs: seq<Fingerprint>, groups: seq<Group>, t: string) returns (k: nat)
    requires Covers(fs, groups) && t in Nodes(fs)
    ensures k < |groups| && t in TextsOf(groups[k].members)
  {
    var f :| f in fs && f.normalized == t;
    k :| k < |groups| && f in groups[k].members;
  }

  /** Groups have pairwise disjoint texts. */
  lemma DisjointTexts(edge: Edges, fs: seq<Fingerprint>, groups: seq<Group>, k: nat, l: nat)
    requires IsGrouping(edge, fs, groups) && k < |groups| && l < |groups| && k != l
    ensures TextsOf(groups[k].members) !! TextsOf(groups[l].members)
  {
    forall t | t in TextsOf(groups[k].members) ensures t !in TextsOf(groups[l].members) {
      ConnectedSelf(edge, Nodes(fs), t);
      assert Separated(edge, fs, groups);
    }
  }

  // ----- nothing lost, nothing twice -----

  ghost function Flattened(groups: seq<Group>): seq<Fingerprint>
  {
    if groups == [] then [] else Flattened(groups[..|groups| - 1]) + groups[|groups| - 1].members
  }

  ghost function AllTexts(groups: seq<Group>): set<string>
  {
    set k, t | 0 <= k < |groups| && t in TextsOf(groups[k].members) :: t
  }

  lemma AllTextsGrow(groups: seq<Group>, n: nat)
    requires n < |groups|
    ensures AllTexts(groups[..n + 1]) == AllTexts(groups[..n]) + TextsOf(groups[n].members)
    ensures Flattened(groups[..n + 1]) == Flattened(groups[..n]) + groups[n].members
  {
    var now := groups[..n + 1];
    assert now[..n] == groups[..n] && now[n] == groups[n];
    forall t | t in AllTexts(now) ensures t in AllTexts(groups[..n]) + TextsOf(groups[n].members) {
      var k :| 0 <= k < |now| && t in TextsOf(now[k].members);
      if k < n {
        assert groups[..n][k] == now[k];
      }
    }
    forall t | t in AllTexts(groups[..n]) + TextsOf(groups[n].members) ensures t in AllTexts(now) {
      if t in AllTexts(groups[..n]) {
        var k :| 0 <= k < n && t in TextsOf(groups[..n][k].members);
        assert now[k] == groups[k];
      }
    }
  }

  lemma {:induction false} FlattenedHolds(edge: Edges, fs: seq<Fingerprint>, groups: seq<Group>, n: nat)
    requires IsGrouping(edge, fs, groups) && n <= |groups|
    ensures multiset(Flattened(groups[..n])) == multiset(Holding(fs, AllTexts(groups[..n])))
  {
    if n == 0 {
      HoldingNothing(fs, AllTexts(groups[..0]));
    } else {
      var before, last := AllTexts(groups[..n - 1]), TextsOf(groups[n - 1].members);
      FlattenedHolds(edge, fs, groups, n - 1);
      AllTextsGrow(groups, n - 1);
      assert before !! last by {
        forall t | t in before ensures t !in last {
          var k :| 0 <= k < n - 1 && t in TextsOf(groups[..n - 1][k].members);
          DisjointTexts(edge, fs, groups, k, n - 1);
        }
      }
      HoldingUnion(fs, before, last);
      assert IsComponent(fs, groups[n - 1]);
    }
  }

  /** Together the groups hold exactly the fingerprints that have a text, each as often as it was given. */
  lemma NothingLostOrDuplicated(edge: Edges, fs: seq<Fingerprint>, groups: seq<Group>)
    requires IsGrouping(edge, fs, groups)
    ensures multiset(Flattened(groups)) == multiset(Holding(fs, Nodes(fs)))
  {
    FlattenedHolds(edge, fs, groups, |groups|);
    assert groups[..|groups|] == groups;
    forall t | t in Nodes(fs) ensures t in AllTexts(groups) {
      var k := GroupHolding(fs, groups, t);
    }
    forall t | t in AllTexts(groups) ensures t in Nodes(fs) {
      var k :| 0 <= k < |groups| && t in TextsOf(groups[k].members);
      assert IsComponent(fs, groups[k]);
    }
    assert AllTexts(groups) == Nodes(fs);
  }

  // ----- order independence -----

  ghost predicate DistinctIds(fs: seq<Fingerprint>)
  {
    forall i, j :: 0 <= i < j < |fs| ==> fs[i].id != fs[j].id
  }

  lemma {:induction false} HoldingPermuted(fs: seq<Fingerprint>, gs: seq<Fingerprint>, texts: set<string>)
    requires multiset(fs) == multiset(gs)
    ensures multiset(Holding(fs, texts)) == multiset(Holding(gs, texts))
  {
    forall f ensures multiset(Holding(fs, texts))[f] == multiset(Holding(gs, texts))[f] {
      HoldingCount(fs, texts, f);
      HoldingCount(gs, texts, f);
    }
  }

  lemma {:induction false} HoldingCount(fs: seq<Fingerprint>, texts: set<string>, f: Fingerprint)
    ensures multiset(Holding(fs, texts))[f] == if f.normalized in texts then multiset(fs)[f] else 0
  {
    if fs != [] {
      HoldingCount(fs[..|fs| - 1], texts, f);
      assert fs == fs[..|fs| - 1] + [fs[|fs| - 1]];
    }
  }

  lemma NodesPermuted(fs: seq<Fingerprint>, gs: seq<Fingerprint>)
    requires multiset(fs) == multiset(gs)
    ensures Nodes(fs) == Nodes(gs)
  {
    SameMembers(fs, gs);
  }

  lemma TailFacts(a: seq<Fingerprint>)
    requires a != [] && RecentFirst(a)
    ensures RecentFirst(a[1..]) && multiset(a[1..]) == multiset(a) - multiset{a[0]}
    ensures forall f :: f in a[1..] ==> f in a
  {
    assert a == [a[0]] + a[1..];
  }

  lemma SameFirst(a: seq<Fingerprint>, b: seq<Fingerprint>)
    requires RecentFirst(a) && RecentFirst(b) && a != [] && b != []
    requires forall f :: f in a <==> f in b
    ensures a[0].id == b[0].id
  {
    FirstIsMostRecent(a, b[0]);
    FirstIsMostRecent(b, a[0]);
    NeitherMoreRecent(a[0], b[0]);
  }

  /** A list of fingerprints with distinct ids has one arrangement that is most recent first. */
  lemma {:induction false} RecentFirstUnique(a: seq<Fingerprint>, b: seq<Fingerprint>)
    requires RecentFirst(a) && RecentFirst(b) && multiset(a) == multiset(b)
    requires forall f, g :: f in a && g in a && f.id == g.id ==> f == g
    ensures a == b
    decreases |a|
  {
    SameMembers(a, b);
    if a != [] {
      SameFirst(a, b);
      TailFacts(a);
      TailFacts(b);
      RecentFirstUnique(a[1..], b[1..]);
      assert a == [a[0]] + a[1..] && b == [b[0]] + b[1..];
    }
  }

  lemma FirstIsMostRecent(a: seq<Fingerprint>, f: Fingerprint)
    requires RecentFirst(a) && f in a
    ensures f == a[0] || !MoreRecent(f, a[0])
  {
    var i :| 0 <= i < |a| && a[i] == f;
  }

  lemma NeitherMoreRecent(a: Fingerprint, b: Fingerprint)
    requires a == b || (!MoreRecent(a, b) && !MoreRecent(b, a))
    ensures a.id == b.id
  {
    Total(a.day, b.day);
  }

  lemma IdsDistinguish(fs: seq<Fingerprint>, f: Fingerprint, g: Fingerprint)
    requires DistinctIds(fs) && f in fs && g in fs && f.id == g.id
    ensures f == g
  {
  }

  /** The text sets of the first `n` groups agree. */
  ghost predicate SamePrefix(a: seq<Group>, b: seq<Group>, n: nat)
  {
    n <= |a| && n <= |b| && forall k :: 0 <= k < n ==> a[k] == b[k]
  }

  /** The group after an agreed prefix cannot start later in one grouping than in another. */
  lemma NextLeast(edge: Edges, fs: seq<Fingerprint>, gs: seq<Fingerprint>, a: seq<Group>, b: seq<Group>, n: nat)
    requires IsGrouping(edge, fs, a) && IsGrouping(edge, gs, b) && multiset(fs) == multiset(gs)
    requires SamePrefix(a, b, n) && n < |a|
    ensures n < |b| && AtMost(LeastText(b[n]), LeastText(a[n]))
  {
    NodesPermuted(fs, gs);
    assert IsComponent(fs, a[n]);
    assert a[n].members[0].normalized in TextsOf(a[n].members);
    var t := LeastText(a[n]);
    assert t in TextsOf(a[n].members);
    var k := GroupHolding(gs, b, t);
    if k < n {
      DisjointTexts(edge, fs, a, k, n);
      assert false;
    }
    assert IsComponent(gs, b[k]);
    assert AtMost(LeastText(b[k]), t);
    if n < k {
      assert Before(LeastText(b[n]), LeastText(b[k]));
      AtMostTransitive(LeastText(b[n]), LeastText(b[k]), t);
    }
  }

  lemma SameNext(edge: Edges, fs: seq<Fingerprint>, gs: seq<Fingerprint>, a: seq<Group>, b: seq<Group>, n: nat)
    requires IsGrouping(edge, fs, a) && IsGrouping(edge, gs, b) && multiset(fs) == multiset(gs)
    requires DistinctIds(fs) && SamePrefix(a, b, n) && n < |a| && n < |b|
    ensures a[n] == b[n]
  {
    NodesPermuted(fs, gs);
    NextLeast(edge, fs, gs, a, b, n);
    NextLeast(edge, gs, fs, b, a, n);
    var t := LeastText(a[n]);
    if LeastText(b[n]) != t {
      Asymmetric(LeastText(b[n]), t);
    }
    SameTexts(edge, fs, gs, a, b, n, t);
    var texts := TextsOf(a[n].members);
    HoldingPermuted(fs, gs, texts);
    assert IsComponent(fs, a[n]) && IsComponent(gs, b[n]);
    SameMembers(a[n].members, Holding(fs, texts));
    forall f, g | f in a[n].members && g in a[n].members && f.id == g.id ensures f == g {
      IdsDistinguish(fs, f, g);
    }
    RecentFirstUnique(a[n].members, b[n].members);
  }

  lemma SameTextsOneWay(edge: Edges, fs: seq<Fingerprint>, gs: seq<Fingerprint>, a: seq<Group>, b: seq<Group>,
                        n: nat, t: string, u: string)
    requires IsGrouping(edge, fs, a) && IsGrouping(edge, gs, b) && Nodes(fs) == Nodes(gs)
    requires n < |a| && n < |b| && t in TextsOf(a[n].members) && t in TextsOf(b[n].members)
    ensures u in TextsOf(a[n].members) ==> u in TextsOf(b[n].members)
  {
    if u in TextsOf(a[n].members) {
      assert IsComponent(fs, a[n]);
      assert Connected(edge, Nodes(fs), t, u);
      var k := GroupHolding(gs, b, u);
      assert Separated(edge, gs, b);
    }
  }

  lemma TextsWithin(edge: Edges, fs: seq<Fingerprint>, gs: seq<Fingerprint>, a: seq<Group>, b: seq<Group>,
                    n: nat, t: string)
    requires IsGrouping(edge, fs, a) && IsGrouping(edge, gs, b) && Nodes(fs) == Nodes(gs)
    requires n < |a| && n < |b| && t in TextsOf(a[n].members) && t in TextsOf(b[n].members)
    ensures TextsOf(a[n].members) <= TextsOf(b[n].members)
  {
    forall u | u in TextsOf(a[n].members) ensures u in TextsOf(b[n].members) {
      SameTextsOneWay(edge, fs, gs, a, b, n, t, u);
    }
  }

  lemma SameTexts(edge: Edges, fs: seq<Fingerprint>, gs: seq<Fingerprint>, a: seq<Group>, b: seq<Group>,
                  n: nat, t: string)
    requires IsGrouping(edge, fs, a) && IsGrouping(edge, gs, b) && Nodes(fs) == Nodes(gs)
    requires n < |a| && n < |b| && t in TextsOf(a[n].members) && t in TextsOf(b[n].members)
    ensures TextsOf(a[n].members) == TextsOf(b[n].members)
  {
    TextsWithin(edge, fs, gs, a, b, n, t);
    TextsWithin(edge, gs, fs, b, a, n, t);
  }

  lemma PrefixGrows(a: seq<Group>, b: seq<Group>, n: nat)
    requires SamePrefix(a, b, n) && n < |a| && n < |b| && a[n] == b[n]
    ensures SamePrefix(a, b, n + 1)
  {
  }

  lemma {:induction false} PrefixesAgree(
      edge: Edges, fs: seq<Fingerprint>, gs: seq<Fingerprint>, a: seq<Group>, b: seq<Group>, n: nat)
    requires IsGrouping(edge, fs, a) && IsGrouping(edge, gs, b) && multiset(fs) == multiset(gs)
    requires DistinctIds(fs) && n <= |a|
    ensures SamePrefix(a, b, n)
  {
    if n > 0 {
      var m := n - 1;
      PrefixesAgree(edge, fs, gs, a, b, m);
      NextLeast(edge, fs, gs, a, b, m);
      SameNext(edge, fs, gs, a, b, m);
      PrefixGrows(a, b, m);
    }
  }

  /** With distinct ids, the grouping of a graph does not depend on the order the fingerprints come in. */
  lemma OrderIndependent(edge: Edges, fs: seq<Fingerprint>, gs: seq<Fingerprint>, a: seq<Group>, b: seq<Group>)
    requires IsGrouping(edge, fs, a) && IsGrouping(edge, gs, b) && multiset(fs) == multiset(gs)
    requires DistinctIds(fs)
    ensures a == b
  {
    PrefixesAgree(edge, fs, gs, a, b, |a|);
    if |a| < |b| {
      NextLeast(edge, gs, fs, b, a, |a|);
    }
  }

  /** The same answer for any two orders and any two complete listers. */
  lemma GroupsDependOnlyOnPrints<E, F>(
      alnum: char -> bool, s1: Lister<E>, s2: Lister<F>, fs: seq<Fingerprint>, gs: seq<Fingerprint>,
      a: seq<Group>, b: seq<Group>)
    requires multiset(fs) == multiset(gs) && DistinctIds(fs)
    requires var texts := Sorted(Nodes(fs));
      AllAnswered(alnum, s1, texts, |texts|) && Complete(alnum, s1, texts)
      && AllAnswered(alnum, s2, texts, |texts|) && Complete(alnum, s2, texts)
    requires IsGrouping(JudgedEdges(alnum, s1, Sorted(Nodes(fs))), fs, a)
    requires IsGrouping(JudgedEdges(alnum, s2, Sorted(Nodes(gs))), gs, b)
    ensures a == b
  {
    NodesPermuted(fs, gs);
    CompleteJoinsSimilar(alnum, s1, Sorted(Nodes(fs)), Nodes(fs));
    CompleteJoinsSimilar(alnum, s2, Sorted(Nodes(gs)), Nodes(gs));
    GroupsAreSimilarityComponents(alnum, s1, fs, a);
    GroupsAreSimilarityComponents(alnum, s2, gs, b);
    OrderIndependent(AllPairs(alnum), fs, gs, a, b);
  }
}
