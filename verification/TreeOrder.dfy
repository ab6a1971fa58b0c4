/** The order of a tree's lines in the hashed text, and the documented one. */
module TreeOrder {
  import opened Order
  import opened Text
  import opened TreeFraming
  import opened TreeHash

  /** Two paths that part where one goes into a directory and the other goes on with a character before `/`. */
  ghost predicate Parts(p: string, q: string)
  {
    exists x, y, c, z :: PartsAt(p, q, x, y, c, z)
  }

  ghost predicate PartsAt(p: string, q: string, x: string, y: string, c: char, z: string)
  {
    p == x + "/" + y && q == x + [c] + z && c < '/'
  }

  lemma SameStart(a: char, p: string, q: string)
    ensures PathBefore([a] + p, [a] + q) <==> PathBefore(p, q)
    ensures Before([a] + p, [a] + q) <==> Before(p, q)
  {
    SplitHead(a, p, '/');
    SplitHead(a, q, '/');
    assert ([a] + p)[1..] == p && ([a] + q)[1..] == q;
    Irreflexive("");
    if a != '/' {
      var u, v := Split(p, '/')[0], Split(q, '/')[0];
      assert ([a] + u)[1..] == u && ([a] + v)[1..] == v;
      assert Before([a] + u, [a] + v) <==> Before(u, v);
      assert [a] + u == [a] + v <==> u == v;
    }
  }

  lemma EmptyStart(q: string)
    requires q != ""
    ensures PathBefore("", q) && Before("", q)
  {
    SplitNone("", '/');
    assert q == [q[0]] + q[1..];
    SplitHead(q[0], q[1..], '/');
  }

  /** Paths that part at once. */
  lemma OtherStart(a: char, p: string, b: char, q: string)
    requires a != b && b != '/'
    ensures a != '/' ==> (PathBefore([a] + p, [b] + q) <==> a < b)
    ensures a == '/' ==> PathBefore([a] + p, [b] + q)
  {
    SplitHead(a, p, '/');
    SplitHead(b, q, '/');
  }

  lemma PathAsymmetric(p: string, q: string)
    requires PathBefore(p, q)
    ensures !PathBefore(q, p)
  {
    if PathBefore(q, p) {
      ComponentsTransitive(Split(p, '/'), Split(q, '/'), Split(p, '/'));
      ComponentsIrreflexive(Split(p, '/'));
    }
  }

  lemma {:induction false} PartsIsMixed(x: string, y: string, c: char, z: string)
    requires c < '/'
    ensures PathBefore(x + "/" + y, x + [c] + z) && Before(x + [c] + z, x + "/" + y)
    decreases |x|
  {
    if x == "" {
      OtherStart('/', y, c, z);
      assert "" + "/" + y == ['/'] + y && "" + [c] + z == [c] + z;
    } else {
      PartsIsMixed(x[1..], y, c, z);
      SameStart(x[0], x[1..] + "/" + y, x[1..] + [c] + z);
      SameStart(x[0], x[1..] + [c] + z, x[1..] + "/" + y);
      assert x + "/" + y == [x[0]] + (x[1..] + "/" + y) && x + [c] + z == [x[0]] + (x[1..] + [c] + z);
    }
  }

  lemma PartsLater(a: char, p: string, q: string)
    requires Parts(p, q)
    ensures Parts([a] + p, [a] + q)
  {
    var x, y, c, z :| PartsAt(p, q, x, y, c, z);
    assert [a] + p == ([a] + x) + "/" + y && [a] + q == ([a] + x) + [c] + z;
    assert PartsAt([a] + p, [a] + q, [a] + x, y, c, z);
  }

  lemma PartsNow(p: string, b: char, q: string)
    requires b < '/'
    ensures Parts(['/'] + p, [b] + q)
  {
    assert ['/'] + p == "" + "/" + p && [b] + q == "" + [b] + q;
    assert PartsAt(['/'] + p, [b] + q, "", p, b, q);
  }

  /** The two orders agree on a pair of paths unless the paths part in that way. */
  lemma {:induction false} OrdersAgree(p: string, q: string)
    requires PathBefore(p, q) && p != q && !Parts(p, q)
    ensures Before(p, q)
    decreases |p|
  {
    if p == "" {
      EmptyStart(q);
    } else if q == "" {
      EmptyStart(p);
      PathAsymmetric("", p);
    } else {
      var a, b, p', q' := p[0], q[0], p[1..], q[1..];
      assert p == [a] + p' && q == [b] + q';
      if a == b {
        SameStart(a, p', q');
        if Parts(p', q') {
          PartsLater(a, p', q');
        }
        OrdersAgree(p', q');
      } else if a == '/' {
        if b < '/' {
          PartsNow(p', b, q');
        }
      } else if b == '/' {
        OtherStart(b, q', a, p');
        PathAsymmetric(q, p);
      } else {
        OtherStart(a, p', b, q');
      }
    }
  }

  /** The text with its lines sorted by the path as a string. */
  ghost predicate IsStringFraming(text: string, files: Files)
  {
    exists paths :: Ascending(paths) && (forall p :: p in paths <==> p in files)
                    && text == Join(LinesFor(files, paths), "\n")
  }

  ghost predicate NoneParts(files: Files)
  {
    forall p, q :: p in files && q in files ==> !Parts(p, q)
  }

  lemma InOrderIsAscending(paths: seq<string>, files: Files)
    requires InOrder(paths) && NoneParts(files) && forall p :: p in paths ==> p in files
    ensures Ascending(paths)
  {
    forall i, j | 0 <= i < j < |paths| ensures Before(paths[i], paths[j]) {
      ComponentsIrreflexive(Split(paths[i], '/'));
      assert paths[i] in files && paths[j] in files;
      OrdersAgree(paths[i], paths[j]);
    }
  }

  lemma PartingIsNotBoth(paths: seq<string>, p: string, q: string)
    requires Parts(p, q) && p in paths && q in paths && InOrder(paths)
    ensures !Ascending(paths)
  {
    var x, y, c, z :| PartsAt(p, q, x, y, c, z);
    PartsIsMixed(x, y, c, z);
    PathAsymmetric(p, q);
    ComponentsIrreflexive(Split(p, '/'));
    Asymmetric(q, p);
    var i :| 0 <= i < |paths| && paths[i] == p;
    var j :| 0 <= j < |paths| && paths[j] == q;
    assert forall k :: 0 <= k < i ==> PathBefore(paths[k], paths[i]);
    assert i < j;
  }

  /** The text of a tree is the one sorted by whole path, as the framing is documented, exactly when no two of its
      paths part at a directory and a character before `/`. */
  lemma DocumentedOrderIff(files: Files, width: nat, text: string)
    requires Digested(files, width) && NoneEmbeds(files, width) && IsFraming(text, files)
    ensures IsStringFraming(text, files) <==> NoneParts(files)
  {
    var paths :| Lists(paths, files) && text == Join(LinesFor(files, paths), "\n");
    if NoneParts(files) {
      InOrderIsAscending(paths, files);
    }
    if IsStringFraming(text, files) {
      var named :| Ascending(named) && (forall p :: p in named <==> p in files)
        && text == Join(LinesFor(files, named), "\n");
      SameListing(files, files, width, paths, named);
      forall p, q | p in files && q in files ensures !Parts(p, q) {
        if Parts(p, q) {
          PartingIsNotBoth(paths, p, q);
        }
      }
    }
  }

  /** A file in a directory and one named like it with a dash: the orders differ. */
  lemma DashComesLater()
    ensures PathBefore("a/c", "a-b") && Before("a-b", "a/c")
  {
    PartsIsMixed("a", "c", '-', "b");
    assert "a" + "/" + "c" == "a/c" && "a" + ['-'] + "b" == "a-b";
  }
}
