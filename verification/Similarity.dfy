/** Which texts `group` joins, stated on their tokens. */
module Similarity {
  import opened Order
  import opened Results
  import opened Repetition
  import opened Grouping

  /** The tokens only one of the sets has. */
  function Unshared(a: set<string>, b: set<string>): set<string>
  {
    (a - b) + (b - a)
  }

  /** They share a token, and for every three that are not shared there are two that are. */
  predicate SharesEnough(a: set<string>, b: set<string>)
  {
    a * b != {} && 3 * |Unshared(a, b)| <= 2 * |a * b|
  }

  /** A Jaccard similarity of 0.6, without the quotient. */
  lemma AlikeIff(a: set<string>, b: set<string>)
    ensures Alike(a, b) <==> SharesEnough(a, b)
  {
    assert a + b == (a * b) + Unshared(a, b);
    assert (a * b) !! Unshared(a, b);
    assert |a + b| == |a * b| + |Unshared(a, b)|;
  }

  /** With three shared tokens, two others leave the texts similar and three do not. */
  lemma Boundary(a: set<string>, b: set<string>)
    requires |a * b| == 3
    ensures Alike(a, b) <==> |Unshared(a, b)| <= 2
  {
    AlikeIff(a, b);
  }

  // ----- two fingerprints of one grouping -----

  ghost predicate Together(groups: seq<Group>, f: Fingerprint, g: Fingerprint)
  {
    exists k :: 0 <= k < |groups| && f in groups[k].members && g in groups[k].members
  }

  lemma SameGroup(edge: Edges, fs: seq<Fingerprint>, groups: seq<Group>, k: nat, l: nat, f: Fingerprint, g: Fingerprint)
    requires IsGrouping(edge, fs, groups) && k < |groups| && l < |groups|
    requires f in groups[k].members && g in groups[l].members
    ensures k == l <==> Connected(edge, Nodes(fs), f.normalized, g.normalized)
  {
    assert f.normalized in TextsOf(groups[k].members) && g.normalized in TextsOf(groups[l].members);
    assert Separated(edge, fs, groups);
  }

  lemma TogetherIff(edge: Edges, fs: seq<Fingerprint>, groups: seq<Group>, f: Fingerprint, g: Fingerprint)
    requires IsGrouping(edge, fs, groups) && f in fs && g in fs && f.normalized != "" && g.normalized != ""
    ensures Together(groups, f, g) <==> Connected(edge, Nodes(fs), f.normalized, g.normalized)
  {
    assert Covers(fs, groups);
    var k: nat :| k < |groups| && f in groups[k].members;
    var l: nat :| l < |groups| && g in groups[l].members;
    SameGroup(edge, fs, groups, k, l, f, g);
    if m: nat :| m < |groups| && f in groups[m].members && g in groups[m].members {
      SameGroup(edge, fs, groups, m, m, f, g);
    }
  }

  /** Texts of the input from `a` to `b`, each sharing enough tokens with the next. */
  ghost predicate IsChain(alnum: char -> bool, texts: set<string>, p: seq<string>, a: string, b: string)
  {
    |p| > 0 && p[0] == a && p[|p| - 1] == b
    && (forall i :: 0 <= i < |p| ==> p[i] in texts)
    && (forall i :: 0 < i < |p| ==> SharesEnough(Toks(alnum, p[i - 1]), Toks(alnum, p[i])))
  }

  lemma ChainsArePaths(alnum: char -> bool, texts: set<string>, p: seq<string>, a: string, b: string)
    ensures IsChain(alnum, texts, p, a, b) <==> IsPath(AllPairs(alnum), texts, p, a, b)
  {
    forall i | 0 < i < |p|
      ensures SharesEnough(Toks(alnum, p[i - 1]), Toks(alnum, p[i])) <==>
        AllPairs(alnum)(p[i - 1], p[i]) || AllPairs(alnum)(p[i], p[i - 1])
    {
      AlikeIff(Toks(alnum, p[i - 1]), Toks(alnum, p[i]));
      AlikeSymmetric(Toks(alnum, p[i - 1]), Toks(alnum, p[i]));
    }
  }

  lemma ConnectedIffChained(alnum: char -> bool, texts: set<string>, a: string, b: string)
    ensures Connected(AllPairs(alnum), texts, a, b) <==> exists p :: IsChain(alnum, texts, p, a, b)
  {
    if p :| IsPath(AllPairs(alnum), texts, p, a, b) {
      ChainsArePaths(alnum, texts, p, a, b);
    }
    if p :| IsChain(alnum, texts, p, a, b) {
      ChainsArePaths(alnum, texts, p, a, b);
    }
  }

  /** With a lister that misses no similar text, what `group` returns is the grouping by similarity. */
  lemma IsSimilarityGrouping<E>(
      alnum: char -> bool, similar: Lister<E>, fs: seq<Fingerprint>, groups: seq<Group>)
    requires var texts := Sorted(Nodes(fs));
      && AllAnswered(alnum, similar, texts, |texts|) && Complete(alnum, similar, texts)
      && IsGrouping(JudgedEdges(alnum, similar, texts), fs, groups)
    ensures IsGrouping(AllPairs(alnum), fs, groups)
  {
    CompleteJoinsSimilar(alnum, similar, Sorted(Nodes(fs)), Nodes(fs));
    GroupsAreSimilarityComponents(alnum, similar, fs, groups);
  }

  /** Two fingerprints are in one group exactly when a chain of texts joins theirs, each text sharing
      with the next two tokens for every three that they do not share. */
  lemma TogetherIffChained<E>(alnum: char -> bool, similar: Lister<E>, fs: seq<Fingerprint>, groups: seq<Group>,
                              f: Fingerprint, g: Fingerprint)
    requires var texts := Sorted(Nodes(fs));
      && AllAnswered(alnum, similar, texts, |texts|) && Complete(alnum, similar, texts)
      && IsGrouping(JudgedEdges(alnum, similar, texts), fs, groups)
    requires f in fs && g in fs && f.normalized != "" && g.normalized != ""
    ensures Together(groups, f, g) <==> exists p :: IsChain(alnum, Nodes(fs), p, f.normalized, g.normalized)
  {
    IsSimilarityGrouping(alnum, similar, fs, groups);
    TogetherIff(AllPairs(alnum), fs, groups, f, g);
    ConnectedIffChained(alnum, Nodes(fs), f.normalized, g.normalized);
  }

  // ----- two texts -----

  /** Between two texts there is no way round. */
  lemma TwoTextsConnected(alnum: char -> bool, x: string, y: string)
    requires x != y
    ensures Connected(AllPairs(alnum), {x, y}, x, y) <==> SharesEnough(Toks(alnum, x), Toks(alnum, y))
  {
    var edge := AllPairs(alnum);
    AlikeIff(Toks(alnum, x), Toks(alnum, y));
    AlikeSymmetric(Toks(alnum, x), Toks(alnum, y));
    if edge(x, y) {
      ConnectedEdge(edge, {x, y}, x, y);
    } else if p :| IsPath(edge, {x, y}, p, x, y) {
      PathKeepsColour(edge, {x, y}, t => if t == x then 0 else 1, p, x, y);
    }
  }

  lemma HasATextOf(f: Fingerprint, g: Fingerprint, group: Group)
    requires IsComponent([f, g], group)
    ensures f.normalized in TextsOf(group.members) || g.normalized in TextsOf(group.members)
  {
    assert group.members[0].normalized in TextsOf(group.members);
  }

  lemma OneGroupIff(edge: Edges, f: Fingerprint, g: Fingerprint, groups: seq<Group>)
    requires IsGrouping(edge, [f, g], groups) && f.normalized != "" && g.normalized != ""
    ensures |groups| == 1 <==> Together(groups, f, g)
  {
    var fs := [f, g];
    assert f in fs && g in fs;
    var k :| 0 <= k < |groups| && f in groups[k].members;
    var l :| 0 <= l < |groups| && g in groups[l].members;
    if m :| 0 <= m < |groups| && f in groups[m].members && g in groups[m].members {
      OnlyGroup(edge, f, g, groups, m);
    }
  }

  lemma OnlyGroup(edge: Edges, f: Fingerprint, g: Fingerprint, groups: seq<Group>, m: nat)
    requires IsGrouping(edge, [f, g], groups) && m < |groups|
    requires f in groups[m].members && g in groups[m].members
    ensures |groups| == 1
  {
    if |groups| > 1 {
      var other := if m == 0 then 1 else 0;
      HasATextOf(f, g, groups[other]);
      DisjointTexts(edge, [f, g], groups, m, other);
    }
  }

  lemma TwoTextsGrouped(alnum: char -> bool, f: Fingerprint, g: Fingerprint, groups: seq<Group>)
    requires f.normalized != "" && g.normalized != "" && f.normalized != g.normalized
    requires IsGrouping(AllPairs(alnum), [f, g], groups)
    ensures |groups| == 1 <==> SharesEnough(Toks(alnum, f.normalized), Toks(alnum, g.normalized))
  {
    OneGroupIff(AllPairs(alnum), f, g, groups);
    TogetherIff(AllPairs(alnum), [f, g], groups, f, g);
    TwoNodes(f, g);
    TwoTextsConnected(alnum, f.normalized, g.normalized);
  }

  lemma TwoNodes(f: Fingerprint, g: Fingerprint)
    requires f.normalized != "" && g.normalized != ""
    ensures Nodes([f, g]) == {f.normalized, g.normalized}
  {
    assert f in [f, g] && g in [f, g];
  }

  /** Two fingerprints with different texts form one group exactly when their tokens share enough. */
  lemma TwoTextsOneGroupIff<E>(
      alnum: char -> bool, similar: Lister<E>, f: Fingerprint, g: Fingerprint, groups: seq<Group>)
    requires f.normalized != "" && g.normalized != "" && f.normalized != g.normalized
    requires var texts := Sorted(Nodes([f, g]));
      && AllAnswered(alnum, similar, texts, |texts|) && Complete(alnum, similar, texts)
      && IsGrouping(JudgedEdges(alnum, similar, texts), [f, g], groups)
    ensures |groups| == 1 <==>
      var a, b := Toks(alnum, f.normalized), Toks(alnum, g.normalized);
      a * b != {} && 3 * |(a - b) + (b - a)| <= 2 * |a * b|
  {
    IsSimilarityGrouping(alnum, similar, [f, g], groups);
    TwoTextsGrouped(alnum, f, g, groups);
  }

  // ----- the order within a group -----

  /** A group begins with its latest day, and on one day with the highest id. */
  lemma NewestFirst(edge: Edges, fs: seq<Fingerprint>, groups: seq<Group>, k: nat, i: nat, j: nat)
    requires IsGrouping(edge, fs, groups) && k < |groups| && i < j < |groups[k].members|
    ensures var earlier, later := groups[k].members[i], groups[k].members[j];
      AtMost(later.day, earlier.day) && (later.day == earlier.day ==> later.id <= earlier.id)
  {
    assert IsComponent(fs, groups[k]);
    Total(groups[k].members[i].day, groups[k].members[j].day);
    Irreflexive(groups[k].members[i].day);
  }
}
