/** The text whose digest stands for a directory tree. */
module TreeHash {
  import opened Order
  import opened Results
  import opened Text

  datatype Kind = File | Directory | Symlink

  /** One entry of a walk, its path relative to the root. */
  datatype Entry = Entry(path: string, kind: Kind)

  /** The regular files of a tree and the digests of their contents. */
  type Files = map<string, string>

  // ----- the order of paths -----

  /** Paths compare by component, not by character. */
  predicate ComponentsBefore(a: seq<string>, b: seq<string>)
  {
    b != [] && (a == [] || Before(a[0], b[0]) || (a[0] == b[0] && ComponentsBefore(a[1..], b[1..])))
  }

  predicate PathBefore(a: string, b: string)
  {
    ComponentsBefore(Split(a, '/'), Split(b, '/'))
  }

  lemma {:induction false} ComponentsTransitive(a: seq<string>, b: seq<string>, c: seq<string>)
    requires ComponentsBefore(a, b) && ComponentsBefore(b, c)
    ensures ComponentsBefore(a, c)
  {
    if a != [] {
      Irreflexive(a[0]);
      if a[0] == b[0] == c[0] {
        ComponentsTransitive(a[1..], b[1..], c[1..]);
      } else if a[0] != b[0] && b[0] != c[0] {
        Transitive(a[0], b[0], c[0]);
      }
    }
  }

  lemma {:induction false} ComponentsIrreflexive(a: seq<string>)
    ensures !ComponentsBefore(a, a)
  {
    if a != [] {
      Irreflexive(a[0]);
      ComponentsIrreflexive(a[1..]);
    }
  }

  lemma {:induction false} ComponentsTotal(a: seq<string>, b: seq<string>)
    ensures a == b || ComponentsBefore(a, b) || ComponentsBefore(b, a)
  {
    if a != [] && b != [] {
      Total(a[0], b[0]);
      ComponentsTotal(a[1..], b[1..]);
      assert a == [a[0]] + a[1..] && b == [b[0]] + b[1..];
    }
  }

  lemma PathTotal(a: string, b: string)
    ensures a == b || PathBefore(a, b) || PathBefore(b, a)
  {
    ComponentsTotal(Split(a, '/'), Split(b, '/'));
    JoinSplit(a, '/');
    JoinSplit(b, '/');
  }

  ghost predicate InOrder(paths: seq<string>)
  {
    forall i, j :: 0 <= i < j < |paths| ==> PathBefore(paths[i], paths[j])
  }

  /** A path put where it belongs among sorted paths. */
  function Insert(x: string, paths: seq<string>): seq<string>
  {
    if paths != [] && PathBefore(paths[0], x) then [paths[0]] + Insert(x, paths[1..]) else [x] + paths
  }

  function SortPaths(paths: seq<string>): seq<string>
  {
    if paths == [] then [] else Insert(paths[0], SortPaths(paths[1..]))
  }

  lemma {:induction false} InsertKeepsOrder(x: string, paths: seq<string>)
    requires InOrder(paths) && x !in paths
    ensures InOrder(Insert(x, paths)) && forall p :: p in Insert(x, paths) <==> p == x || p in paths
  {
    if paths != [] {
      if PathBefore(paths[0], x) {
        InsertKeepsOrder(x, paths[1..]);
        var rest := Insert(x, paths[1..]);
        assert forall j :: 0 <= j < |rest| ==> rest[j] in rest;
        assert paths == [paths[0]] + paths[1..];
      } else {
        PathTotal(paths[0], x);
        forall j | 0 <= j < |paths| ensures PathBefore(x, paths[j]) {
          if j > 0 {
            ComponentsTransitive(Split(x, '/'), Split(paths[0], '/'), Split(paths[j], '/'));
          }
        }
      }
    }
  }

  ghost predicate Distinct(paths: seq<string>)
  {
    forall i, j :: 0 <= i < j < |paths| ==> paths[i] != paths[j]
  }

  lemma {:induction false} SortedPaths(paths: seq<string>)
    requires Distinct(paths)
    ensures InOrder(SortPaths(paths)) && forall p :: p in SortPaths(paths) <==> p in paths
  {
    if paths != [] {
      SortedPaths(paths[1..]);
      InsertKeepsOrder(paths[0], SortPaths(paths[1..]));
      assert paths == [paths[0]] + paths[1..];
    }
  }

  /** A set of paths has one sorted listing. */
  lemma {:induction false} OneListing(a: seq<string>, b: seq<string>)
    requires InOrder(a) && InOrder(b) && forall p :: p in a <==> p in b
    ensures a == b
    decreases |a|
  {
    assert b != [] ==> b[0] in b;
    if a != [] {
      assert a[0] in b && b != [];
      FirstIsFirst(a, b);
      RestOfListing(a);
      RestOfListing(b);
      OneListing(a[1..], b[1..]);
    }
  }

  lemma RestOfListing(a: seq<string>)
    requires a != [] && InOrder(a)
    ensures forall p :: p in a[1..] <==> p in a && p != a[0]
  {
    assert a == [a[0]] + a[1..];
    ComponentsIrreflexive(Split(a[0], '/'));
    assert forall j :: 1 <= j < |a| ==> PathBefore(a[0], a[j]);
  }

  lemma FirstIsFirst(a: seq<string>, b: seq<string>)
    requires a != [] && b != [] && InOrder(a) && InOrder(b) && a[0] in b && b[0] in a
    ensures a[0] == b[0]
  {
    if a[0] != b[0] {
      assert PathBefore(a[0], b[0]) && PathBefore(b[0], a[0]);
      ComponentsTransitive(Split(a[0], '/'), Split(b[0], '/'), Split(a[0], '/'));
      ComponentsIrreflexive(Split(a[0], '/'));
    }
  }

  // ----- the text -----

  function LineFor(path: string, digest: string): string
  {
    path + ":" + digest
  }

  function LinesFor(files: Files, paths: seq<string>): seq<string>
    requires forall p :: p in paths ==> p in files
  {
    seq(|paths|, i requires 0 <= i < |paths| => LineFor(paths[i], files[paths[i]]))
  }

  /** A sorted listing of the files. */
  ghost predicate Lists(paths: seq<string>, files: Files)
  {
    InOrder(paths) && forall p :: p in paths <==> p in files
  }

  /** The text hashed for a tree. */
  ghost predicate IsFraming(text: string, files: Files)
  {
    exists paths :: Lists(paths, files) && text == Join(LinesFor(files, paths), "\n")
  }

  function FilePaths(walk: seq<Entry>): seq<string>
    decreases |walk|
  {
    if walk == [] then []
    else
      var front, last := walk[..|walk| - 1], walk[|walk| - 1];
      FilePaths(front) + if last.kind == File then [last.path] else []
  }

  /** The walk meets every regular file of the tree once, in any order, among other entries. */
  ghost predicate Walks(walk: seq<Entry>, files: Files)
  {
    Distinct(FilePaths(walk)) && forall p :: p in FilePaths(walk) <==> p in files
  }

  method Tree(walk: seq<Entry>, files: Files) returns (joined: string)
    requires Walks(walk, files)
    ensures IsFraming(joined, files)
  {
    var paths := [];
    for i := 0 to |walk|
      invariant paths == FilePaths(walk[..i])
    {
      assert walk[..i + 1][..i] == walk[..i];
      if walk[i].kind != File {
        continue;
      }
      paths := paths + [walk[i].path];
    }
    assert walk[..|walk|] == walk;
    SortedPaths(paths);
    paths := SortPaths(paths);
    var lines := [];
    for i := 0 to |paths|
      invariant lines == LinesFor(files, paths)[..i]
    {
      lines := lines + [LineFor(paths[i], files[paths[i]])];
    }
    assert lines == LinesFor(files, paths);
    assert Lists(paths, files);
    joined := Join(lines, "\n");
  }

  /** The text does not depend on the order of the walk. */
  lemma FramingIsUnique(files: Files, a: string, b: string)
    requires IsFraming(a, files) && IsFraming(b, files)
    ensures a == b
  {
    var p :| Lists(p, files) && a == Join(LinesFor(files, p), "\n");
    var q :| Lists(q, files) && b == Join(LinesFor(files, q), "\n");
    OneListing(p, q);
  }
}
