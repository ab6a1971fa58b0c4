/** Grouping request fingerprints: same text or a chain of similar texts is one recurring request. */
module Repetition {
  import opened Order
  import opened Results
  import opened Tokens
  import opened UnionFinds

  datatype Fingerprint = Fingerprint(
    id: int, observationId: int, sessionId: string, feature: string, day: string, normalized: string)

  // ----- similarity -----

  /** Jaccard similarity at or above 0.6, as 5|a * b| >= 3|a + b| over a non-empty union. */
  predicate Alike(a: set<string>, b: set<string>)
  {
    |a + b| != 0 && 5 * |a * b| >= 3 * |a + b|
  }

  lemma AlikeSymmetric(a: set<string>, b: set<string>)
    ensures Alike(a, b) == Alike(b, a)
  {
    assert a + b == b + a && a * b == b * a;
  }

  /** Similar sets share a token, so a lister that offers every text sharing one is complete. */
  lemma AlikeShareToken(a: set<string>, b: set<string>)
    requires Alike(a, b)
    ensures a * b != {}
  {
  }

  // ----- recency order -----

  predicate MoreRecent(a: Fingerprint, b: Fingerprint)
  {
    Before(b.day, a.day) || (a.day == b.day && b.id < a.id)
  }

  lemma MoreRecentTransitive(a: Fingerprint, b: Fingerprint, c: Fingerprint)
    requires !MoreRecent(b, a) && !MoreRecent(c, b)
    ensures !MoreRecent(c, a)
  {
    Total(a.day, b.day);
    Total(b.day, c.day);
    if Before(b.day, a.day) && Before(c.day, b.day) {
      Transitive(c.day, b.day, a.day);
    }
    if Before(c.day, a.day) {
      Asymmetric(c.day, a.day);
    }
    Irreflexive(a.day);
  }

  ghost predicate RecentFirst(fs: seq<Fingerprint>)
  {
    forall i, j :: 0 <= i < j < |fs| ==> !MoreRecent(fs[j], fs[i])
  }

  lemma AsymmetricRecent(a: Fingerprint, b: Fingerprint)
    requires MoreRecent(a, b)
    ensures !MoreRecent(b, a)
  {
    if Before(b.day, a.day) {
      Asymmetric(b.day, a.day);
      Irreflexive(a.day);
    } else {
      Irreflexive(a.day);
    }
  }

  /** A stable insertion: ahead of the first member that is not more recent. */
  function InsertRecent(f: Fingerprint, fs: seq<Fingerprint>): (r: seq<Fingerprint>)
    ensures multiset(r) == multiset(fs) + multiset{f}
  {
    if fs == [] || !MoreRecent(fs[0], f) then [f] + fs
    else
      assert fs == [fs[0]] + fs[1..];
      [fs[0]] + InsertRecent(f, fs[1..])
  }

  lemma FrontRecent(f: Fingerprint, fs: seq<Fingerprint>)
    requires RecentFirst(fs) && (fs != [] ==> !MoreRecent(fs[0], f))
    ensures RecentFirst([f] + fs)
  {
    forall j | 0 <= j < |fs| ensures !MoreRecent(fs[j], f) {
      if j > 0 {
        MoreRecentTransitive(f, fs[0], fs[j]);
      }
    }
  }

  lemma {:induction false} InsertKeepsOrder(f: Fingerprint, fs: seq<Fingerprint>)
    requires RecentFirst(fs)
    ensures RecentFirst(InsertRecent(f, fs))
  {
    if fs == [] || !MoreRecent(fs[0], f) {
      FrontRecent(f, fs);
    } else {
      InsertKeepsOrder(f, fs[1..]);
      AsymmetricRecent(fs[0], f);
      var rest := InsertRecent(f, fs[1..]);
      assert rest[0] in multiset(rest);
      assert forall g :: g in multiset(fs[1..]) ==> g in fs[1..];
      assert rest[0] == f || rest[0] in fs[1..];
      FrontRecent(fs[0], rest);
    }
  }

  /** The stable sort `Group::new` applies. */
  function SortRecent(fs: seq<Fingerprint>): (r: seq<Fingerprint>)
    ensures multiset(r) == multiset(fs)
    ensures RecentFirst(r)
  {
    if fs == [] then []
    else
      assert fs == [fs[0]] + fs[1..];
      var rest := SortRecent(fs[1..]);
      InsertKeepsOrder(fs[0], rest);
      InsertRecent(fs[0], rest)
  }

  // ----- the similarity graph -----

  type Edges = (string, string) -> bool

  ghost predicate IsPath(edge: Edges, texts: set<string>, p: seq<string>, a: string, b: string)
  {
    |p| > 0 && p[0] == a && p[|p| - 1] == b
    && (forall i :: 0 <= i < |p| ==> p[i] in texts)
    && (forall i :: 0 < i < |p| ==> edge(p[i - 1], p[i]) || edge(p[i], p[i - 1]))
  }

  /** `a` and `b` lie in one connected component of the undirected graph on `texts`. */
  ghost predicate Connected(edge: Edges, texts: set<string>, a: string, b: string)
  {
    exists p :: IsPath(edge, texts, p, a, b)
  }

  lemma ConnectedSelf(edge: Edges, texts: set<string>, a: string)
    requires a in texts
    ensures Connected(edge, texts, a, a)
  {
    assert IsPath(edge, texts, [a], a, a);
  }

  lemma ConnectedEdge(edge: Edges, texts: set<string>, a: string, b: string)
    requires a in texts && b in texts && edge(a, b)
    ensures Connected(edge, texts, a, b)
  {
    assert IsPath(edge, texts, [a, b], a, b);
  }

  lemma ConnectedSymmetric(edge: Edges, texts: set<string>, a: string, b: string)
    requires Connected(edge, texts, a, b)
    ensures Connected(edge, texts, b, a)
  {
    var p :| IsPath(edge, texts, p, a, b);
    var q := seq(|p|, i requires 0 <= i < |p| => p[|p| - 1 - i]);
    assert forall i :: 0 < i < |q| ==> edge(q[i - 1], q[i]) || edge(q[i], q[i - 1]) by {
      assert forall i :: 0 < i < |p| ==> edge(p[i - 1], p[i]) || edge(p[i], p[i - 1]);
    }
    assert IsPath(edge, texts, q, b, a);
  }

  lemma ConnectedTransitive(edge: Edges, texts: set<string>, a: string, b: string, c: string)
    requires Connected(edge, texts, a, b) && Connected(edge, texts, b, c)
    ensures Connected(edge, texts, a, c)
  {
    var p :| IsPath(edge, texts, p, a, b);
    var q :| IsPath(edge, texts, q, b, c);
    var r := p + q[1..];
    assert forall i :: |p| <= i < |r| ==> r[i] == q[i - |p| + 1];
    assert IsPath(edge, texts, r, a, c);
  }

  /** A colouring that agrees across every edge agrees across every component. */
  lemma {:induction false} PathKeepsColour(
    edge: Edges, texts: set<string>, colour: string -> nat, p: seq<string>, a: string, b: string)
    requires IsPath(edge, texts, p, a, b)
    requires forall x, y :: x in texts && y in texts && edge(x, y) ==> colour(x) == colour(y)
    ensures colour(a) == colour(b)
    decreases |p|
  {
    if |p| > 1 {
      var q := p[..|p| - 1];
      assert IsPath(edge, texts, q, a, q[|q| - 1]);
      PathKeepsColour(edge, texts, colour, q, a, q[|q| - 1]);
      assert edge(p[|p| - 2], p[|p| - 1]) || edge(p[|p| - 1], p[|p| - 2]);
    }
  }

  // ----- what a grouping is -----

  datatype Group = Group(members: seq<Fingerprint>)

  ghost function TextsOf(fs: seq<Fingerprint>): set<string>
  {
    set f | f in fs :: f.normalized
  }

  /** The texts that can be grouped: a text normalized to nothing is left out. */
  ghost function Nodes(fs: seq<Fingerprint>): set<string>
  {
    TextsOf(fs) - {""}
  }

  /** The fingerprints of `fs` that carry one of `texts`, in order. */
  ghost function Holding(fs: seq<Fingerprint>, texts: set<string>): (r: seq<Fingerprint>)
    ensures forall f :: f in r <==> f in fs && f.normalized in texts
  {
    if fs == [] then []
    else
      var last := fs[|fs| - 1];
      assert fs == fs[..|fs| - 1] + [last];
      Holding(fs[..|fs| - 1], texts) + if last.normalized in texts then [last] else []
  }

  ghost function LeastText(group: Group): string
  {
    if group.members == [] then ""
    else
      assert group.members[0].normalized in TextsOf(group.members);
      Least(TextsOf(group.members))
  }

  /** The groups are the connected components of the graph, each holding all fingerprints of its
      texts and nothing else, most recent first, the components ordered by their least text. */
  ghost predicate IsGrouping(edge: Edges, fs: seq<Fingerprint>, groups: seq<Group>)
  {
    && (forall k :: 0 <= k < |groups| ==> IsComponent(fs, groups[k]))
    && Covers(fs, groups)
    && Separated(edge, fs, groups)
    && (forall k, l :: 0 <= k < l < |groups| ==> Before(LeastText(groups[k]), LeastText(groups[l])))
  }

  /** No fingerprint with a text is lost. */
  ghost predicate Covers(fs: seq<Fingerprint>, groups: seq<Group>)
  {
    forall f :: f in fs && f.normalized != "" ==> exists k :: 0 <= k < |groups| && f in groups[k].members
  }

  /** Two texts are in the same group exactly when a chain of edges joins them. */
  ghost predicate Separated(edge: Edges, fs: seq<Fingerprint>, groups: seq<Group>)
  {
    forall k, l, a, b :: 0 <= k < |groups| && 0 <= l < |groups|
      && a in TextsOf(groups[k].members) && b in TextsOf(groups[l].members)
      ==> (k == l <==> Connected(edge, Nodes(fs), a, b))
  }

  ghost predicate IsComponent(fs: seq<Fingerprint>, group: Group)
  {
    && group.members != []
    && RecentFirst(group.members)
    && TextsOf(group.members) <= Nodes(fs)
    && multiset(group.members) == multiset(Holding(fs, TextsOf(group.members)))
  }

  // ----- grouping -----

  function Toks(alnum: char -> bool, text: string): set<string>
  {
    TokenSet(PLACEHOLDERS, alnum, text)
  }

  /** The `at`-th call of the lister, given the token set of a seed. */
  type Lister<!E> = (nat, set<string>) -> Result<seq<string>, E>

  /** The pair is one that `group` judges and links: the lister offered the later text for the earlier. */
  ghost predicate Judged<E>(
    alnum: char -> bool, similar: Lister<E>, texts: seq<string>, at: nat, other: nat)
  {
    at < other < |texts|
    && var answer := similar(at, Toks(alnum, texts[at]));
    answer.Ok? && texts[other] in answer.value && Alike(Toks(alnum, texts[at]), Toks(alnum, texts[other]))
  }

  ghost function JudgedEdges<E>(alnum: char -> bool, similar: Lister<E>, texts: seq<string>): Edges
  {
    (a: string, b: string) =>
      exists at: nat, other: nat :: Judged(alnum, similar, texts, at, other) && texts[at] == a && texts[other] == b
  }

  /** The graph of every similar pair, whatever the lister offers. */
  ghost function AllPairs(alnum: char -> bool): Edges
  {
    (a: string, b: string) => Alike(Toks(alnum, a), Toks(alnum, b))
  }

  /** The lister misses no later text that is similar to a seed; it may offer anything else. */
  ghost predicate Complete<E>(alnum: char -> bool, similar: Lister<E>, texts: seq<string>)
  {
    forall at: nat, other: nat :: at < other < |texts| && Alike(Toks(alnum, texts[at]), Toks(alnum, texts[other])) ==>
      var answer := similar(at, Toks(alnum, texts[at]));
      answer.Ok? ==> texts[other] in answer.value
  }

  ghost predicate SeedsOf(fs: seq<Fingerprint>, seeds: map<string, seq<Fingerprint>>)
  {
    seeds.Keys == Nodes(fs) && forall t :: t in seeds ==> seeds[t] == Holding(fs, {t})
  }

  lemma HoldingGrows(fs: seq<Fingerprint>, k: nat, texts: set<string>)
    requires k < |fs|
    ensures Holding(fs[..k + 1], texts) == Holding(fs[..k], texts) + if fs[k].normalized in texts then [fs[k]] else []
    ensures Nodes(fs[..k + 1]) == Nodes(fs[..k]) + ({fs[k].normalized} - {""})
  {
    assert fs[..k + 1][..k] == fs[..k];
    assert fs[..k + 1] == fs[..k] + [fs[k]];
  }

  lemma {:induction false} HoldingNothing(fs: seq<Fingerprint>, texts: set<string>)
    requires TextsOf(fs) !! texts
    ensures Holding(fs, texts) == []
  {
    if fs != [] {
      assert fs[|fs| - 1].normalized in TextsOf(fs);
      assert TextsOf(fs[..|fs| - 1]) <= TextsOf(fs);
      HoldingNothing(fs[..|fs| - 1], texts);
    }
  }

  lemma {:induction false} HoldingUnion(fs: seq<Fingerprint>, a: set<string>, b: set<string>)
    requires a !! b
    ensures multiset(Holding(fs, a + b)) == multiset(Holding(fs, a)) + multiset(Holding(fs, b))
  {
    if fs != [] {
      HoldingUnion(fs[..|fs| - 1], a, b);
    }
  }

  // Every element of the forest is connected to its representative.
  ghost predicate Sound(edge: Edges, texts: seq<string>, nodes: set<string>, p: seq<nat>)
  {
    |p| == |texts| && Forest(p)
    && forall i: nat :: i < |texts| ==> Connected(edge, nodes, texts[i], texts[Root(p, i)])
  }

  lemma MergeSound(edge: Edges, texts: seq<string>, nodes: set<string>, p: seq<nat>, q: seq<nat>, a: nat, b: nat)
    requires Sound(edge, texts, nodes, p) && Merged(p, q, a, b) && a < |p| && b < |p|
    requires forall i :: 0 <= i < |texts| ==> texts[i] in nodes
    requires edge(texts[a], texts[b])
    ensures Sound(edge, texts, nodes, q)
    ensures Root(q, a) == Root(q, b)
    ensures forall i: nat, j: nat :: Root(p, i) == Root(p, j) ==> Root(q, i) == Root(q, j)
  {
    var ra, rb := Root(p, a), Root(p, b);
    ConnectedEdge(edge, nodes, texts[a], texts[b]);
    ConnectedSymmetric(edge, nodes, texts[a], texts[ra]);
    ConnectedTransitive(edge, nodes, texts[ra], texts[a], texts[b]);
    ConnectedTransitive(edge, nodes, texts[ra], texts[b], texts[rb]);
    ConnectedSymmetric(edge, nodes, texts[ra], texts[rb]);
    forall i: nat | i < |texts| ensures Connected(edge, nodes, texts[i], texts[Root(q, i)]) {
      if Root(q, i) != Root(p, i) {
        ConnectedTransitive(edge, nodes, texts[i], texts[Root(p, i)], texts[Root(q, i)]);
      }
    }
  }

  /** The entry a fingerprint is pushed onto. */
  function Entry<K, V>(m: map<K, seq<V>>, key: K): seq<V>
  {
    if key in m then m[key] else []
  }

  lemma SeedsStep(fs: seq<Fingerprint>, k: nat, seeds: map<string, seq<Fingerprint>>)
    requires k < |fs| && SeedsOf(fs[..k], seeds)
    ensures var text := fs[k].normalized;
      SeedsOf(fs[..k + 1], if text == "" then seeds else seeds[text := Entry(seeds, text) + [fs[k]]])
  {
    var text := fs[k].normalized;
    var next := if text == "" then seeds else seeds[text := Entry(seeds, text) + [fs[k]]];
    HoldingGrows(fs, k, {});
    assert next.Keys == Nodes(fs[..k + 1]);
    forall t | t in next ensures next[t] == Holding(fs[..k + 1], {t}) {
      HoldingGrows(fs, k, {t});
      if t !in seeds {
        HoldingNothing(fs[..k], {t});
      }
    }
  }

  method Seeds(fs: seq<Fingerprint>) returns (seeds: map<string, seq<Fingerprint>>)
    ensures SeedsOf(fs, seeds)
  {
    seeds := map[];
    for k := 0 to |fs|
      invariant SeedsOf(fs[..k], seeds)
    {
      var text := fs[k].normalized;
      SeedsStep(fs, k, seeds);
      if text != "" {
        seeds := seeds[text := Entry(seeds, text) + [fs[k]]];
      }
    }
    assert fs[..|fs|] == fs;
  }

  // Every pair judged so far has been merged.
  ghost predicate Joined<E>(alnum: char -> bool, similar: Lister<E>, texts: seq<string>, p: seq<nat>, upTo: nat)
    requires Forest(p)
  {
    forall i: nat, j: nat :: i < upTo && Judged(alnum, similar, texts, i, j) ==> Root(p, i) == Root(p, j)
  }

  /** Links the seed at `at` to the later similar texts that the lister answered. */
  method LinkSeed<E>(
      alnum: char -> bool, ghost similar: Lister<E>, texts: seq<string>, ghost nodes: set<string>,
      position: map<string, nat>, at: nat, answer: seq<string>, uf: UnionFind)
    requires forall i: nat :: i < |texts| ==> texts[i] in nodes && texts[i] in position && position[texts[i]] == i
    requires forall t :: t in position ==> position[t] < |texts| && texts[position[t]] == t
    requires at < |texts| && similar(at, Toks(alnum, texts[at])) == Ok(answer)
    requires uf.Valid() && Sound(JudgedEdges(alnum, similar, texts), texts, nodes, uf.parent)
    requires Joined(alnum, similar, texts, uf.parent, at)
    modifies uf
    ensures uf.Valid() && Sound(JudgedEdges(alnum, similar, texts), texts, nodes, uf.parent)
    ensures Joined(alnum, similar, texts, uf.parent, at + 1)
  {
    var tokens := Toks(alnum, texts[at]);
    for k := 0 to |answer|
      invariant uf.Valid() && Linking(alnum, similar, texts, nodes, uf.parent, at, answer[..k])
    {
      var text := answer[k];
      assert answer[..k + 1] == answer[..k] + [text];
      if text in position && position[text] > at && Alike(tokens, Toks(alnum, texts[position[text]])) {
        ghost var before := uf.parent;
        uf.Union(at, position[text]);
        LinkStep(alnum, similar, texts, nodes, before, uf.parent, at, position[text], answer[..k]);
      }
    }
    assert answer[..|answer|] == answer;
  }

  // The forest while the answers for the seed at `at` are judged.
  ghost predicate Linking<E>(alnum: char -> bool, similar: Lister<E>, texts: seq<string>, nodes: set<string>,
                             p: seq<nat>, at: nat, offered: seq<string>)
  {
    Sound(JudgedEdges(alnum, similar, texts), texts, nodes, p)
    && Joined(alnum, similar, texts, p, at) && JoinedSome(alnum, similar, texts, p, at, offered)
  }

  lemma LinkStep<E>(alnum: char -> bool, similar: Lister<E>, texts: seq<string>, nodes: set<string>,
                    p: seq<nat>, q: seq<nat>, at: nat, other: nat, offered: seq<string>)
    requires forall i: nat :: i < |texts| ==> texts[i] in nodes
    requires Judged(alnum, similar, texts, at, other)
    requires forall i: nat :: i < |texts| && texts[i] == texts[other] ==> i == other
    requires Linking(alnum, similar, texts, nodes, p, at, offered) && Merged(p, q, at, other)
    ensures Linking(alnum, similar, texts, nodes, q, at, offered + [texts[other]])
  {
    var edge := JudgedEdges(alnum, similar, texts);
    assert edge(texts[at], texts[other]);
    MergeSound(edge, texts, nodes, p, q, at, other);
  }

  ghost predicate JoinedSome<E>(
    alnum: char -> bool, similar: Lister<E>, texts: seq<string>, p: seq<nat>, at: nat, offered: seq<string>)
    requires Forest(p)
  {
    forall j: nat ::
      Judged(alnum, similar, texts, at, j) && texts[j] in offered ==> Root(p, at) == Root(p, j)
  }

  method Positions(texts: seq<string>) returns (position: map<string, nat>)
    requires Ascending(texts)
    ensures forall i: nat :: i < |texts| ==> texts[i] in position && position[texts[i]] == i
    ensures forall t :: t in position ==> position[t] < |texts| && texts[position[t]] == t
  {
    AscendingDistinct(texts);
    position := map[];
    for at := 0 to |texts|
      invariant forall i: nat :: i < at ==> texts[i] in position && position[texts[i]] == i
      invariant forall t :: t in position ==> position[t] < at && texts[position[t]] == t
    {
      position := position[texts[at] := at];
    }
  }

  /** Offers each seed to the lister and links what it answers; the first error ends the grouping. */
  method Link<E>(alnum: char -> bool, similar: Lister<E>, texts: seq<string>, ghost nodes: set<string>)
    returns (result: Result<UnionFind, E>)
    requires Ascending(texts) && forall i :: 0 <= i < |texts| ==> texts[i] in nodes
    ensures result.Ok? <==> AllAnswered(alnum, similar, texts, |texts|)
    ensures result.Err? ==> exists at: nat ::
      at < |texts| && similar(at, Toks(alnum, texts[at])) == Err(result.error)
      && AllAnswered(alnum, similar, texts, at)
    ensures result.Ok? ==> fresh(result.value) && result.value.Valid()
    ensures result.Ok? ==> Sound(JudgedEdges(alnum, similar, texts), texts, nodes, result.value.parent)
    ensures result.Ok? ==> Joined(alnum, similar, texts, result.value.parent, |texts|)
  {
    ghost var edge := JudgedEdges(alnum, similar, texts);
    var position := Positions(texts);
    var uf := new UnionFind(|texts|);
    forall i: nat | i < |texts| ensures Connected(edge, nodes, texts[i], texts[Root(uf.parent, i)]) {
      ConnectedSelf(edge, nodes, texts[i]);
    }
    for at := 0 to |texts|
      invariant fresh(uf) && uf.Valid() && Sound(edge, texts, nodes, uf.parent)
      invariant Joined(alnum, similar, texts, uf.parent, at)
      invariant AllAnswered(alnum, similar, texts, at)
    {
      var answer := similar(at, Toks(alnum, texts[at]));
      if answer.Err? {
        return Err(answer.error);
      }
      LinkSeed(alnum, similar, texts, nodes, position, at, answer.value, uf);
    }
    result := Ok(uf);
  }

  ghost predicate AllAnswered<E>(alnum: char -> bool, similar: Lister<E>, texts: seq<string>, upTo: nat)
    requires upTo <= |texts|
  {
    forall at: nat :: at < upTo ==> similar(at, Toks(alnum, texts[at])).Ok?
  }

  lemma AscendingDistinct(texts: seq<string>)
    requires Ascending(texts)
    ensures forall i, j :: 0 <= i < j < |texts| ==> texts[i] != texts[j]
  {
    forall i, j | 0 <= i < j < |texts| ensures texts[i] != texts[j] {
      Irreflexive(texts[i]);
    }
  }

  // The texts below `upTo` whose representative is `r`.
  ghost function Class(p: seq<nat>, texts: seq<string>, upTo: nat, r: nat): set<string>
    requires Forest(p) && upTo <= |texts|
  {
    set i: nat | i < upTo && Root(p, i) == r :: texts[i]
  }

  ghost predicate Represents(p: seq<nat>, upTo: nat, r: nat)
    requires Forest(p)
  {
    exists i: nat :: i < upTo && Root(p, i) == r
  }

  lemma RepresentsGrows(p: seq<nat>, at: nat, r: nat)
    requires Forest(p)
    ensures Represents(p, at + 1, r) <==> Represents(p, at, r) || r == Root(p, at)
  {
    if Represents(p, at, r) {
      var i: nat :| i < at && Root(p, i) == r;
      assert i < at + 1;
    }
  }

  ghost predicate Collected(
    fs: seq<Fingerprint>, p: seq<nat>, texts: seq<string>, upTo: nat, byRoot: map<nat, seq<Fingerprint>>)
    requires Forest(p) && upTo <= |texts|
  {
    (forall r: nat :: r in byRoot <==> Represents(p, upTo, r))
    && forall r: nat :: r in byRoot ==> multiset(byRoot[r]) == multiset(Holding(fs, Class(p, texts, upTo, r)))
  }

  lemma ClassGrows(p: seq<nat>, texts: seq<string>, at: nat, q: nat)
    requires Forest(p) && at < |texts| && Ascending(texts)
    ensures Class(p, texts, at + 1, q) == Class(p, texts, at, q) + if q == Root(p, at) then {texts[at]} else {}
    ensures texts[at] !in Class(p, texts, at, q)
  {
    AscendingDistinct(texts);
  }

  lemma CollectStep(fs: seq<Fingerprint>, p: seq<nat>, texts: seq<string>, at: nat,
                    byRoot: map<nat, seq<Fingerprint>>, seed: seq<Fingerprint>)
    requires Forest(p) && at < |texts| && Ascending(texts)
    requires Collected(fs, p, texts, at, byRoot) && seed == Holding(fs, {texts[at]})
    ensures var r := Root(p, at);
      Collected(fs, p, texts, at + 1, byRoot[r := Entry(byRoot, r) + seed])
  {
    var r := Root(p, at);
    var now := byRoot[r := Entry(byRoot, r) + seed];
    forall q: nat ensures q in now <==> Represents(p, at + 1, q) {
      RepresentsGrows(p, at, q);
    }
    forall q: nat | q in now ensures multiset(now[q]) == multiset(Holding(fs, Class(p, texts, at + 1, q))) {
      ClassGrows(p, texts, at, q);
      if q == r {
        HoldingUnion(fs, Class(p, texts, at, r), {texts[at]});
        if r !in byRoot {
          assert !Represents(p, at, r);
          assert Class(p, texts, at, r) == {};
          HoldingNothing(fs, {});
        }
      } else {
        assert Class(p, texts, at + 1, q) == Class(p, texts, at, q);
      }
    }
  }

  /** A group holds the fingerprints of one class, most recent first. */
  ghost predicate ClassGroup(fs: seq<Fingerprint>, p: seq<nat>, texts: seq<string>, root: nat, group: Group)
    requires Forest(p)
  {
    && Represents(p, |texts|, root)
    && RecentFirst(group.members)
    && multiset(group.members) == multiset(Holding(fs, Class(p, texts, |texts|, root)))
  }

  ghost predicate InRootOrder(
    fs: seq<Fingerprint>, p: seq<nat>, texts: seq<string>, roots: seq<nat>, groups: seq<Group>)
    requires Forest(p)
  {
    |roots| == |groups|
    && (forall k, l :: 0 <= k < l < |roots| ==> roots[k] < roots[l])
    && forall k :: 0 <= k < |roots| ==> ClassGroup(fs, p, texts, roots[k], groups[k])
  }

  lemma SameMembers(a: seq<Fingerprint>, b: seq<Fingerprint>)
    requires multiset(a) == multiset(b)
    ensures |a| == |b| && forall f :: f in a <==> f in b
  {
    assert |a| == |multiset(a)| && |b| == |multiset(b)|;
    forall f ensures f in a <==> f in b {
      assert f in a <==> f in multiset(a);
      assert f in b <==> f in multiset(b);
    }
  }

  /** The members of a class carry exactly its texts. */
  lemma ClassTexts(fs: seq<Fingerprint>, p: seq<nat>, texts: seq<string>, r: nat, members: seq<Fingerprint>)
    requires Forest(p) && forall t :: t in texts ==> t in Nodes(fs)
    requires multiset(members) == multiset(Holding(fs, Class(p, texts, |texts|, r)))
    ensures TextsOf(members) == Class(p, texts, |texts|, r)
  {
    var own := Class(p, texts, |texts|, r);
    SameMembers(members, Holding(fs, own));
    forall t | t in own ensures t in TextsOf(members) {
      assert t in Nodes(fs);
      var f :| f in fs && f.normalized == t;
      assert f in Holding(fs, own);
      assert f in members;
    }
  }

  /** The least text of a class is its representative's. */
  lemma ClassLeast(p: seq<nat>, texts: seq<string>, r: nat)
    requires Forest(p) && |p| == |texts| && Ascending(texts) && Represents(p, |texts|, r)
    ensures r < |texts| && texts[r] in Class(p, texts, |texts|, r)
    ensures Least(Class(p, texts, |texts|, r)) == texts[r]
  {
    var own := Class(p, texts, |texts|, r);
    var i: nat :| i < |texts| && Root(p, i) == r;
    RootIsFixed(p, i);
    assert texts[r] in own;
    forall t | t in own ensures AtMost(texts[r], t) {
      var j: nat :| j < |texts| && Root(p, j) == r && texts[j] == t;
      assert r <= j;
    }
    LeastUnique(own, texts[r], Least(own));
  }

  lemma ClassComponent(fs: seq<Fingerprint>, p: seq<nat>, texts: seq<string>, r: nat, group: Group)
    requires Forest(p) && |p| == |texts| && texts == Sorted(Nodes(fs)) && Represents(p, |texts|, r)
    requires RecentFirst(group.members)
    requires multiset(group.members) == multiset(Holding(fs, Class(p, texts, |texts|, r)))
    ensures TextsOf(group.members) == Class(p, texts, |texts|, r)
    ensures IsComponent(fs, group) && r < |texts| && LeastText(group) == texts[r]
  {
    ClassTexts(fs, p, texts, r, group.members);
    ClassLeast(p, texts, r);
    assert texts[r] in TextsOf(group.members);
    assert Class(p, texts, |texts|, r) <= Nodes(fs);
  }

  ghost function At(texts: seq<string>, t: string): (i: nat)
    requires t in texts
    ensures i < |texts| && texts[i] == t
  {
    var i: nat :| i < |texts| && texts[i] == t;
    i
  }

  /** In a joined forest, connected texts have the same representative. */
  lemma ConnectedSameRoot<E>(
      alnum: char -> bool, similar: Lister<E>, texts: seq<string>, nodes: set<string>, p: seq<nat>, i: nat, j: nat)
    requires Ascending(texts) && forall t :: t in nodes <==> t in texts
    requires Forest(p) && Joined(alnum, similar, texts, p, |texts|)
    requires i < |texts| && j < |texts|
    requires Connected(JudgedEdges(alnum, similar, texts), nodes, texts[i], texts[j])
    ensures Root(p, i) == Root(p, j)
  {
    AscendingDistinct(texts);
    var edge := JudgedEdges(alnum, similar, texts);
    var colour := t => if t in texts then Root(p, At(texts, t)) else 0;
    forall x, y | x in nodes && y in nodes && edge(x, y) ensures colour(x) == colour(y) {
      var at: nat, other: nat :| Judged(alnum, similar, texts, at, other) && texts[at] == x && texts[other] == y;
      assert At(texts, x) == at && At(texts, y) == other;
    }
    var path :| IsPath(edge, nodes, path, texts[i], texts[j]);
    PathKeepsColour(edge, nodes, colour, path, texts[i], texts[j]);
    assert At(texts, texts[i]) == i && At(texts, texts[j]) == j;
  }

  lemma SameRootConnected(edge: Edges, texts: seq<string>, nodes: set<string>, p: seq<nat>, i: nat, j: nat)
    requires Sound(edge, texts, nodes, p) && i < |texts| && j < |texts| && Root(p, i) == Root(p, j)
    ensures Connected(edge, nodes, texts[i], texts[j])
  {
    ConnectedSymmetric(edge, nodes, texts[j], texts[Root(p, j)]);
    ConnectedTransitive(edge, nodes, texts[i], texts[Root(p, i)], texts[j]);
  }

  /** A sound and joined forest, read out class by class, is the grouping. */
  lemma ForestIsGrouping<E>(alnum: char -> bool, similar: Lister<E>, fs: seq<Fingerprint>, texts: seq<string>,
                            p: seq<nat>, roots: seq<nat>, groups: seq<Group>)
    requires texts == Sorted(Nodes(fs))
    requires Sound(JudgedEdges(alnum, similar, texts), texts, Nodes(fs), p)
    requires Joined(alnum, similar, texts, p, |texts|)
    requires InRootOrder(fs, p, texts, roots, groups)
    requires forall r: nat :: Represents(p, |texts|, r) ==> r in roots
    ensures IsGrouping(JudgedEdges(alnum, similar, texts), fs, groups)
  {
    forall k | 0 <= k < |groups|
      ensures IsComponent(fs, groups[k]) && roots[k] < |texts| && LeastText(groups[k]) == texts[roots[k]]
    {
      ClassComponent(fs, p, texts, roots[k], groups[k]);
    }
    ForestCovers(fs, texts, p, roots, groups);
    ForestSeparates(alnum, similar, fs, texts, p, roots, groups);
  }

  lemma ForestCovers(
      fs: seq<Fingerprint>, texts: seq<string>, p: seq<nat>, roots: seq<nat>, groups: seq<Group>)
    requires Forest(p) && |p| == |texts| && texts == Sorted(Nodes(fs)) && InRootOrder(fs, p, texts, roots, groups)
    requires forall r: nat :: Represents(p, |texts|, r) ==> r in roots
    ensures Covers(fs, groups)
  {
    forall f | f in fs && f.normalized != "" ensures exists k :: 0 <= k < |groups| && f in groups[k].members {
      var i := At(texts, f.normalized);
      assert Represents(p, |texts|, Root(p, i));
      var k: nat :| k < |roots| && roots[k] == Root(p, i);
      assert f.normalized in Class(p, texts, |texts|, roots[k]);
      SameMembers(groups[k].members, Holding(fs, Class(p, texts, |texts|, roots[k])));
    }
  }

  lemma SameGroupIff<E>(alnum: char -> bool, similar: Lister<E>, fs: seq<Fingerprint>, texts: seq<string>,
                        p: seq<nat>, i: nat, j: nat)
    requires texts == Sorted(Nodes(fs)) && i < |texts| && j < |texts|
    requires Sound(JudgedEdges(alnum, similar, texts), texts, Nodes(fs), p)
    requires Joined(alnum, similar, texts, p, |texts|)
    ensures Root(p, i) == Root(p, j) <==>
      Connected(JudgedEdges(alnum, similar, texts), Nodes(fs), texts[i], texts[j])
  {
    if Root(p, i) == Root(p, j) {
      SameRootConnected(JudgedEdges(alnum, similar, texts), texts, Nodes(fs), p, i, j);
    } else if Connected(JudgedEdges(alnum, similar, texts), Nodes(fs), texts[i], texts[j]) {
      ConnectedSameRoot(alnum, similar, texts, Nodes(fs), p, i, j);
    }
  }

  lemma TextOfClass(fs: seq<Fingerprint>, p: seq<nat>, texts: seq<string>, root: nat, group: Group, t: string)
    returns (i: nat)
    requires Forest(p) && texts == Sorted(Nodes(fs)) && ClassGroup(fs, p, texts, root, group)
    requires t in TextsOf(group.members)
    ensures i < |texts| && Root(p, i) == root && texts[i] == t
  {
    ClassTexts(fs, p, texts, root, group.members);
    i :| i < |texts| && Root(p, i) == root && texts[i] == t;
  }

  lemma ForestSeparates<E>(alnum: char -> bool, similar: Lister<E>, fs: seq<Fingerprint>, texts: seq<string>,
                           p: seq<nat>, roots: seq<nat>, groups: seq<Group>)
    requires texts == Sorted(Nodes(fs))
    requires Sound(JudgedEdges(alnum, similar, texts), texts, Nodes(fs), p)
    requires Joined(alnum, similar, texts, p, |texts|)
    requires InRootOrder(fs, p, texts, roots, groups)
    ensures Separated(JudgedEdges(alnum, similar, texts), fs, groups)
  {
    forall k, l, a, b | 0 <= k < |groups| && 0 <= l < |groups|
        && a in TextsOf(groups[k].members) && b in TextsOf(groups[l].members)
      ensures k == l <==> Connected(JudgedEdges(alnum, similar, texts), Nodes(fs), a, b)
    {
      var i := TextOfClass(fs, p, texts, roots[k], groups[k], a);
      var j := TextOfClass(fs, p, texts, roots[l], groups[l], b);
      SameGroupIff(alnum, similar, fs, texts, p, i, j);
    }
  }

  /** Gathers the seeds of each class under its representative. */
  method Gather(
      ghost fs: seq<Fingerprint>, seeds: map<string, seq<Fingerprint>>, texts: seq<string>, uf: UnionFind)
    returns (byRoot: map<nat, seq<Fingerprint>>)
    requires SeedsOf(fs, seeds) && texts == Sorted(Nodes(fs)) && uf.Valid() && |uf.parent| == |texts|
    modifies uf
    ensures Collected(fs, old(uf.parent), texts, |texts|, byRoot)
  {
    ghost var p := uf.parent;
    byRoot := map[];
    for at := 0 to |texts|
      invariant uf.Valid() && forall i: nat :: Root(uf.parent, i) == Root(p, i)
      invariant Collected(fs, p, texts, at, byRoot)
    {
      var root := uf.Find(at);
      CollectStep(fs, p, texts, at, byRoot, seeds[texts[at]]);
      byRoot := byRoot[root := Entry(byRoot, root) + seeds[texts[at]]];
    }
  }

  lemma RootOrderGrows(fs: seq<Fingerprint>, p: seq<nat>, texts: seq<string>,
                       roots: seq<nat>, groups: seq<Group>, root: nat, group: Group)
    requires Forest(p) && InRootOrder(fs, p, texts, roots, groups) && ClassGroup(fs, p, texts, root, group)
    requires forall k :: 0 <= k < |roots| ==> roots[k] < root
    ensures InRootOrder(fs, p, texts, roots + [root], groups + [group])
  {
    var rs, gs := roots + [root], groups + [group];
    forall k | 0 <= k < |rs| ensures ClassGroup(fs, p, texts, rs[k], gs[k]) {
      assert k < |roots| ==> rs[k] == roots[k] && gs[k] == groups[k];
    }
  }

  ghost predicate Emitted(byRoot: map<nat, seq<Fingerprint>>, roots: seq<nat>, upTo: nat)
  {
    forall r: nat :: r < upTo && r in byRoot ==> r in roots
  }

  // The representatives below `upTo` have been emitted, in order.
  ghost predicate EmittedBelow(fs: seq<Fingerprint>, p: seq<nat>, texts: seq<string>, upTo: nat,
                               byRoot: map<nat, seq<Fingerprint>>, roots: seq<nat>, groups: seq<Group>)
    requires Forest(p)
  {
    InRootOrder(fs, p, texts, roots, groups)
    && (forall k :: 0 <= k < |roots| ==> roots[k] < upTo)
    && Emitted(byRoot, roots, upTo)
  }

  lemma EmitStep(fs: seq<Fingerprint>, p: seq<nat>, texts: seq<string>, root: nat,
                 byRoot: map<nat, seq<Fingerprint>>, roots: seq<nat>, groups: seq<Group>, members: seq<Fingerprint>)
    requires Forest(p) && Collected(fs, p, texts, |texts|, byRoot)
    requires EmittedBelow(fs, p, texts, root, byRoot, roots, groups)
    requires root in byRoot && RecentFirst(members) && multiset(members) == multiset(byRoot[root])
    ensures EmittedBelow(fs, p, texts, root + 1, byRoot, roots + [root], groups + [Group(members)])
  {
    assert ClassGroup(fs, p, texts, root, Group(members));
    RootOrderGrows(fs, p, texts, roots, groups, root, Group(members));
  }

  /** The gathered classes as groups, in order of their representatives. */
  method Emit(ghost fs: seq<Fingerprint>, ghost p: seq<nat>, texts: seq<string>, byRoot: map<nat, seq<Fingerprint>>)
    returns (groups: seq<Group>, ghost roots: seq<nat>)
    requires Forest(p) && Collected(fs, p, texts, |texts|, byRoot)
    ensures InRootOrder(fs, p, texts, roots, groups)
    ensures forall r: nat :: Represents(p, |texts|, r) ==> r in roots
  {
    groups, roots := [], [];
    for root := 0 to |texts|
      invariant EmittedBelow(fs, p, texts, root, byRoot, roots, groups)
    {
      if root in byRoot {
        var members := SortRecent(byRoot[root]);
        EmitStep(fs, p, texts, root, byRoot, roots, groups, members);
        groups := groups + [Group(members)];
        roots := roots + [root];
      }
    }
    AllEmitted(fs, p, texts, byRoot, roots);
  }

  lemma AllEmitted(fs: seq<Fingerprint>, p: seq<nat>, texts: seq<string>, byRoot: map<nat, seq<Fingerprint>>, roots: seq<nat>)
    requires Forest(p) && Collected(fs, p, texts, |texts|, byRoot) && Emitted(byRoot, roots, |texts|)
    ensures forall r: nat :: Represents(p, |texts|, r) ==> r in roots
  {
    forall r: nat | Represents(p, |texts|, r) ensures r in roots {
      RootBelow(p, |texts|, r);
      assert r in byRoot;
    }
  }

  lemma RootBelow(p: seq<nat>, upTo: nat, r: nat)
    requires Forest(p) && Represents(p, upTo, r)
    ensures r < upTo
  {
  }

  /** Groups the fingerprints: whatever the lister offers, exactly by the pairs it leaves to judge. */
  method GroupPrints<E>(alnum: char -> bool, fingerprints: seq<Fingerprint>, similar: Lister<E>)
    returns (result: Result<seq<Group>, E>)
    ensures var texts := Sorted(Nodes(fingerprints));
      && (result.Ok? <==> AllAnswered(alnum, similar, texts, |texts|))
      && (result.Ok? ==> IsGrouping(JudgedEdges(alnum, similar, texts), fingerprints, result.value))
      && (result.Err? ==> exists at: nat ::
            at < |texts| && similar(at, Toks(alnum, texts[at])) == Err(result.error)
            && AllAnswered(alnum, similar, texts, at))
  {
    var seeds := Seeds(fingerprints);
    var texts := Sorted(seeds.Keys);
    var linked := Link(alnum, similar, texts, Nodes(fingerprints));
    if linked.Err? {
      return Err(linked.error);
    }
    ghost var p := linked.value.parent;
    var byRoot := Gather(fingerprints, seeds, texts, linked.value);
    var groups, roots := Emit(fingerprints, p, texts, byRoot);
    ForestIsGrouping(alnum, similar, fingerprints, texts, p, roots, groups);
    result := Ok(groups);
  }
}
