/** Reading the hashed text of a tree back: when it determines the tree. */
module TreeFraming {
  import opened Order
  import opened Text
  import opened TreeHash

  // ----- reading the text back -----

  predicate IsHex(c: char)
  {
    '0' <= c <= '9' || 'a' <= c <= 'f'
  }

  /** A hexadecimal digest of `width` digits. */
  predicate IsDigest(h: string, width: nat)
  {
    |h| == width && forall i :: 0 <= i < |h| ==> IsHex(h[i])
  }

  ghost predicate Digested(files: Files, width: nat)
  {
    forall p :: p in files ==> IsDigest(files[p], width)
  }

  /** A `:`, a digest and a newline at `i`: what ends a line of the text that is not the last. */
  predicate MarkAt(s: string, i: nat, width: nat)
  {
    i + width + 2 <= |s| && s[i] == ':' && IsDigest(s[i + 1..i + 1 + width], width) && s[i + 1 + width] == '\n'
  }

  /** The path holds what would end a line of the text. */
  ghost predicate Embeds(path: string, width: nat)
  {
    exists i: nat :: MarkAt(path, i, width)
  }

  ghost predicate NoneEmbeds(files: Files, width: nat)
  {
    forall p :: p in files ==> !Embeds(p, width)
  }

  type Line = (string, string)

  ghost predicate LineFits(l: Line, width: nat)
  {
    IsDigest(l.1, width) && !Embeds(l.0, width)
  }

  ghost function Framed(lines: seq<Line>): string
  {
    Join(seq(|lines|, i requires 0 <= i < |lines| => LineFor(lines[i].0, lines[i].1)), "\n")
  }

  /** The text after the first line. */
  ghost function AfterFirst(lines: seq<Line>): string
    requires lines != []
  {
    if |lines| == 1 then "" else "\n" + Framed(lines[1..])
  }

  lemma FramedCons(lines: seq<Line>)
    requires lines != []
    ensures Framed(lines) == lines[0].0 + ":" + lines[0].1 + AfterFirst(lines)
  {
    var texts := seq(|lines|, i requires 0 <= i < |lines| => LineFor(lines[i].0, lines[i].1));
    if |lines| > 1 {
      var rest := lines[1..];
      assert texts[1..] == seq(|rest|, i requires 0 <= i < |rest| => LineFor(rest[i].0, rest[i].1));
      assert LineFor(lines[0].0, lines[0].1) + "\n" + Framed(rest)
        == lines[0].0 + ":" + lines[0].1 + ("\n" + Framed(rest));
    }
  }

  /** A `:` and a digest, up to a newline or the end. */
  predicate EndsLine(s: string, i: nat, width: nat)
  {
    i + width + 1 <= |s| && s[i] == ':' && IsDigest(s[i + 1..i + 1 + width], width)
    && (i + width + 1 == |s| || s[i + 1 + width] == '\n')
  }

  /** A line that ends before its path does is embedded in the path. */
  lemma EarlierEndIsEmbedded(path: string, digest: string, after: string, i: nat, width: nat)
    requires IsDigest(digest, width) && i < |path|
    requires EndsLine(path + ":" + digest + after, i, width)
    ensures Embeds(path, width)
  {
    var s := path + ":" + digest + after;
    assert s[|path|] == ':';
    assert forall k :: i < k <= i + width ==> IsHex(s[k]) by {
      assert forall k :: i < k <= i + width ==> s[k] == s[i + 1..i + 1 + width][k - i - 1];
    }
    assert i + 1 + width < |path|;
    assert path[i + 1..i + 1 + width] == s[i + 1..i + 1 + width];
    assert MarkAt(path, i, width);
  }

  /** The first place that ends a line is the end of the first path. */
  lemma NoEarlierEnd(path: string, digest: string, after: string, i: nat, width: nat)
    requires IsDigest(digest, width) && !Embeds(path, width) && i < |path|
    ensures !EndsLine(path + ":" + digest + after, i, width)
  {
    if EndsLine(path + ":" + digest + after, i, width) {
      EarlierEndIsEmbedded(path, digest, after, i, width);
    }
  }

  lemma EndsAtPath(path: string, digest: string, after: string, width: nat)
    requires IsDigest(digest, width) && (after == "" || after[0] == '\n')
    ensures EndsLine(path + ":" + digest + after, |path|, width)
  {
    var s := path + ":" + digest + after;
    assert s[|path| + 1..|path| + 1 + width] == digest;
  }

  lemma SameFirstLine(p: Line, restP: string, q: Line, restQ: string, width: nat)
    requires LineFits(p, width) && LineFits(q, width)
    requires (restP == "" || restP[0] == '\n') && (restQ == "" || restQ[0] == '\n')
    requires p.0 + ":" + p.1 + restP == q.0 + ":" + q.1 + restQ
    ensures p == q && restP == restQ
  {
    EndsAtPath(p.0, p.1, restP, width);
    EndsAtPath(q.0, q.1, restQ, width);
    if |p.0| < |q.0| {
      NoEarlierEnd(q.0, q.1, restQ, |p.0|, width);
    } else if |q.0| < |p.0| {
      NoEarlierEnd(p.0, p.1, restP, |q.0|, width);
    } else {
      SameParts(p.0, p.1, restP, q.0, q.1, restQ);
    }
  }

  lemma SameParts(p: string, d: string, x: string, q: string, e: string, y: string)
    requires |p| == |q| && |d| == |e| && p + ":" + d + x == q + ":" + e + y
    ensures p == q && d == e && x == y
  {
    var s := p + ":" + d + x;
    assert s[..|p|] == p && s[..|q|] == q;
    assert s[|p| + 1..|p| + 1 + |d|] == d && s[|q| + 1..|q| + 1 + |e|] == e;
    assert s[|p| + 1 + |d|..] == x && s[|q| + 1 + |e|..] == y;
  }

  lemma SameRest(a: seq<Line>, b: seq<Line>)
    requires a != [] && b != [] && AfterFirst(a) == AfterFirst(b)
    ensures (|a| == 1 <==> |b| == 1) && Framed(a[1..]) == Framed(b[1..])
  {
    if |a| == 1 || |b| == 1 {
      assert a[1..] == b[1..];
    } else {
      assert AfterFirst(a)[1..] == Framed(a[1..]) && AfterFirst(b)[1..] == Framed(b[1..]);
    }
  }

  /** The text determines its lines, newlines in paths and all, as long as no path embeds the end of a line. */
  lemma {:induction false} FramedIsInjective(a: seq<Line>, b: seq<Line>, width: nat)
    requires forall i :: 0 <= i < |a| ==> LineFits(a[i], width)
    requires forall i :: 0 <= i < |b| ==> LineFits(b[i], width)
    requires Framed(a) == Framed(b)
    ensures a == b
    decreases |a|
  {
    if a != [] { FramedCons(a); }
    if b != [] { FramedCons(b); }
    if a != [] && b != [] {
      SameFirstLine(a[0], AfterFirst(a), b[0], AfterFirst(b), width);
      SameRest(a, b);
      assert a == [a[0]] + a[1..] && b == [b[0]] + b[1..];
      if |a| > 1 {
        FramedIsInjective(a[1..], b[1..], width);
      }
    }
  }

  /** The files of a listing, each with its digest. */
  ghost function Entries(files: Files, paths: seq<string>): seq<Line>
    requires forall p :: p in paths ==> p in files
  {
    seq(|paths|, i requires 0 <= i < |paths| => (paths[i], files[paths[i]]))
  }

  lemma FramedEntries(files: Files, paths: seq<string>)
    requires forall p :: p in paths ==> p in files
    ensures Framed(Entries(files, paths)) == Join(LinesFor(files, paths), "\n")
  {
    var entries := Entries(files, paths);
    assert seq(|entries|, i requires 0 <= i < |entries| => LineFor(entries[i].0, entries[i].1))
      == LinesFor(files, paths);
  }

  lemma EntriesFit(files: Files, width: nat, paths: seq<string>)
    requires Digested(files, width) && NoneEmbeds(files, width) && forall p :: p in paths ==> p in files
    ensures forall i :: 0 <= i < |paths| ==> LineFits(Entries(files, paths)[i], width)
  {
    forall i | 0 <= i < |paths| ensures LineFits(Entries(files, paths)[i], width) {
      assert paths[i] in files;
    }
  }

  lemma SameListing(f: Files, g: Files, width: nat, p: seq<string>, q: seq<string>)
    requires Digested(f, width) && NoneEmbeds(f, width) && Digested(g, width) && NoneEmbeds(g, width)
    requires (forall x :: x in p ==> x in f) && (forall x :: x in q ==> x in g)
    requires Join(LinesFor(f, p), "\n") == Join(LinesFor(g, q), "\n")
    ensures p == q && forall x :: x in p ==> f[x] == g[x]
  {
    FramedEntries(f, p);
    FramedEntries(g, q);
    EntriesFit(f, width, p);
    EntriesFit(g, width, q);
    FramedIsInjective(Entries(f, p), Entries(g, q), width);
    assert forall i :: 0 <= i < |p| ==> Entries(f, p)[i] == (p[i], f[p[i]]);
    assert forall i :: 0 <= i < |q| ==> Entries(g, q)[i] == (q[i], g[q[i]]);
    assert |p| == |Entries(f, p)| == |Entries(g, q)| == |q|;
  }

  /** Different trees give different texts: a rename, an addition, a removal or a new digest always shows. Paths
      may hold newlines, as long as none embeds the end of a line. */
  lemma FramingIsInjective(f: Files, g: Files, width: nat, text: string)
    requires Digested(f, width) && NoneEmbeds(f, width) && Digested(g, width) && NoneEmbeds(g, width)
    requires IsFraming(text, f) && IsFraming(text, g)
    ensures f == g
  {
    var p :| Lists(p, f) && text == Join(LinesFor(f, p), "\n");
    var q :| Lists(q, g) && text == Join(LinesFor(g, q), "\n");
    SameListing(f, g, width, p, q);
    assert forall x :: x in f <==> x in g;
  }

  // ----- one file, and another tree with its text -----

  lemma {:induction false} BeforeLonger(a: string, b: string, s: string)
    requires Before(a, b)
    ensures Before(a, b + s)
  {
    if a != "" && a[0] == b[0] {
      BeforeLonger(a[1..], b[1..], s);
      assert (b + s)[1..] == b[1..] + s;
    }
  }

  /** The parts with the last one grown and more after it. */
  function Grown(parts: seq<string>, x: string, more: seq<string>): (r: seq<string>)
    requires parts != []
    ensures r != []
  {
    parts[..|parts| - 1] + [parts[|parts| - 1] + x] + more
  }

  lemma GrownCons(part: string, parts: seq<string>, x: string, more: seq<string>)
    requires parts != []
    ensures Grown([part] + parts, x, more) == [part] + Grown(parts, x, more)
  {
    assert ([part] + parts)[..|parts|] == [part] + parts[..|parts| - 1];
  }

  lemma GrownHead(a: char, parts: seq<string>, x: string, more: seq<string>)
    requires parts != []
    ensures Grown([[a] + parts[0]] + parts[1..], x, more)
      == [[a] + Grown(parts, x, more)[0]] + Grown(parts, x, more)[1..]
  {
    if |parts| == 1 {
      assert ([a] + parts[0]) + x == [a] + (parts[0] + x);
      assert Grown(parts, x, more) == [parts[0] + x] + more;
      assert Grown([[a] + parts[0]], x, more) == [([a] + parts[0]) + x] + more;
    } else {
      assert parts == [parts[0]] + parts[1..];
      GrownCons(parts[0], parts[1..], x, more);
      GrownCons([a] + parts[0], parts[1..], x, more);
    }
  }

  lemma GrownFromNothing(parts: seq<string>)
    requires parts != []
    ensures Grown([""], parts[0], parts[1..]) == parts
  {
    assert [""][..0] == [] && "" + parts[0] == parts[0];
    assert [parts[0]] + parts[1..] == parts;
  }

  lemma SplitLongerBy(a: char, rest: string, s: string, c: char)
    requires Split(rest + s, c) == Grown(Split(rest, c), Split(s, c)[0], Split(s, c)[1..])
    ensures Split([a] + (rest + s), c) == Grown(Split([a] + rest, c), Split(s, c)[0], Split(s, c)[1..])
  {
    SplitHead(a, rest, c);
    SplitHead(a, rest + s, c);
    if a == c {
      GrownCons("", Split(rest, c), Split(s, c)[0], Split(s, c)[1..]);
    } else {
      GrownHead(a, Split(rest, c), Split(s, c)[0], Split(s, c)[1..]);
    }
  }

  /** Splitting a longer text: only the last part grows, and parts follow it. */
  lemma {:induction false} SplitLonger(b: string, s: string, c: char)
    ensures Split(b + s, c) == Grown(Split(b, c), Split(s, c)[0], Split(s, c)[1..])
    decreases |b|
  {
    if b == "" {
      assert b + s == s;
      SplitNone("", c);
      GrownFromNothing(Split(s, c));
    } else {
      assert b == [b[0]] + b[1..] && b + s == [b[0]] + (b[1..] + s);
      SplitLonger(b[1..], s, c);
      SplitLongerBy(b[0], b[1..], s, c);
    }
  }

  lemma {:induction false} ComponentsLonger(a: seq<string>, b: seq<string>, x: string, more: seq<string>)
    requires b != [] && ComponentsBefore(a, b)
    ensures ComponentsBefore(a, Grown(b, x, more))
  {
    if a != [] {
      if |b| == 1 {
        assert Grown(b, x, more)[0] == b[0] + x;
        if Before(a[0], b[0]) {
          BeforeLonger(a[0], b[0], x);
        }
      } else {
        assert b == [b[0]] + b[1..];
        GrownCons(b[0], b[1..], x, more);
        if !Before(a[0], b[0]) {
          ComponentsLonger(a[1..], b[1..], x, more);
        }
      }
    }
  }

  /** A path before another is before anything that starts with the other. */
  lemma PathBeforeLonger(a: string, b: string, s: string)
    requires PathBefore(a, b)
    ensures PathBefore(a, b + s)
  {
    SplitLonger(b, s, '/');
    ComponentsLonger(Split(a, '/'), Split(b, '/'), Split(s, '/')[0], Split(s, '/')[1..]);
  }

  /** The path reads as a file's line, a newline, and the path of a later file. */
  ghost predicate ReadsAsTwo(path: string, a: string, h: string, b: string, width: nat)
  {
    path == a + ":" + h + "\n" + b && IsDigest(h, width) && PathBefore(a, b)
  }

  lemma TwoFraming(a: string, h: string, b: string, e: string)
    requires PathBefore(a, b)
    ensures IsFraming(a + ":" + h + "\n" + b + ":" + e, map[a := h, b := e])
  {
    ComponentsIrreflexive(Split(a, '/'));
    var g: Files := map[a := h, b := e];
    assert Lists([a, b], g);
    var lines := LinesFor(g, [a, b]);
    assert lines == [LineFor(a, h), LineFor(b, e)];
    assert lines[1..] == [LineFor(b, e)];
    assert Join(lines, "\n") == lines[0] + "\n" + Join(lines[1..], "\n");
    assert a + ":" + h + "\n" + b + ":" + e == LineFor(a, h) + "\n" + LineFor(b, e);
  }

  lemma OneFraming(p: string, e: string, text: string)
    ensures IsFraming(text, map[p := e]) <==> text == LineFor(p, e)
  {
    var f: Files := map[p := e];
    assert Lists([p], f);
    assert LinesFor(f, [p]) == [LineFor(p, e)];
    if IsFraming(text, f) {
      FramingIsUnique(f, text, LineFor(p, e));
    }
  }

  lemma FramedOne(l: Line)
    ensures Framed([l]) == l.0 + ":" + l.1
  {
    FramedCons([l]);
    assert l.0 + ":" + l.1 + "" == l.0 + ":" + l.1;
  }

  lemma Regrouped(start: string, front: string, digest: string)
    ensures start + ("\n" + (front + ":" + digest)) == (start + "\n" + front) + ":" + digest
  {
  }

  lemma FramedMore(lines: seq<Line>, front: string, digest: string)
    requires |lines| > 1 && Framed(lines[1..]) == front + ":" + digest
    ensures Framed(lines) == (lines[0].0 + ":" + lines[0].1 + "\n" + front) + ":" + digest
  {
    FramedCons(lines);
    Regrouped(lines[0].0 + ":" + lines[0].1, front, digest);
  }

  /** The text of a tree up to the last digest. */
  lemma {:induction false} LastOfFramed(lines: seq<Line>) returns (front: string, tail: string)
    requires lines != []
    ensures Framed(lines) == front + ":" + lines[|lines| - 1].1
    ensures front == lines[0].0 + tail
    ensures |lines| == 1 ==> tail == ""
    decreases |lines|
  {
    if |lines| == 1 {
      FramedOne(lines[0]);
      assert lines == [lines[0]];
      front, tail := lines[0].0, "";
    } else {
      var rest, after := LastOfFramed(lines[1..]);
      FramedMore(lines, rest, lines[|lines| - 1].1);
      tail := ":" + lines[0].1 + "\n" + rest;
      front := lines[0].0 + ":" + lines[0].1 + "\n" + rest;
      assert front == lines[0].0 + tail;
    }
  }

  lemma SameEnding(front: string, d: string, p: string, e: string)
    requires front + ":" + d == p + ":" + e && |d| == |e|
    ensures front == p && d == e
  {
    assert |front + ":" + d| == |p + ":" + e|;
    assert front + ":" + d + "" == front + ":" + d && p + ":" + e + "" == p + ":" + e;
    SameParts(front, d, "", p, e, "");
  }

  lemma OneEntryTree(p: string, e: string, g: Files, q: string, width: nat)
    requires IsDigest(e, width) && Digested(g, width) && Lists([q], g)
    requires LineFor(p, e) == Join(LinesFor(g, [q]), "\n")
    ensures g == map[p := e]
  {
    assert q in [q] && q in g;
    assert LinesFor(g, [q]) == [LineFor(q, g[q])];
    SameEnding(q, g[q], p, e);
    assert forall x :: x in g <==> x == q;
  }

  /** A tree of two files or more with the text of one file shows in that file's path. */
  lemma OtherTreeReadsAsTwo(p: string, e: string, g: Files, width: nat) returns (a: string, h: string, b: string)
    requires IsDigest(e, width) && Digested(g, width) && g != map[p := e] && IsFraming(LineFor(p, e), g)
    ensures ReadsAsTwo(p, a, h, b, width)
  {
    var paths :| Lists(paths, g) && LineFor(p, e) == Join(LinesFor(g, paths), "\n");
    var lines := Entries(g, paths);
    FramedEntries(g, paths);
    assert paths != [];
    assert forall i :: 0 <= i < |paths| ==> paths[i] in g;
    if |lines| == 1 {
      assert paths == [paths[0]];
      OneEntryTree(p, e, g, paths[0], width);
    }
    var rest, tail := LastOfFramed(lines[1..]);
    a, h, b := paths[0], g[paths[0]], rest;
    FramedMore(lines, rest, lines[|lines| - 1].1);
    SameEnding(a + ":" + h + "\n" + b, lines[|lines| - 1].1, p, e);
    assert lines[1] == (paths[1], g[paths[1]]);
    PathBeforeLonger(a, paths[1], tail);
  }

  /** Another tree has the text of a one-file tree exactly when the file's path reads as a line and a later path. */
  lemma OneFileCollidesIff(p: string, e: string, width: nat)
    requires IsDigest(e, width)
    ensures (exists g: Files, text :: g != map[p := e] && Digested(g, width)
                                      && IsFraming(text, map[p := e]) && IsFraming(text, g))
       <==> exists a, h, b :: ReadsAsTwo(p, a, h, b, width)
  {
    if g: Files, text :| g != map[p := e] && Digested(g, width) && IsFraming(text, map[p := e]) && IsFraming(text, g) {
      OneFraming(p, e, text);
      var a, h, b := OtherTreeReadsAsTwo(p, e, g, width);
    }
    if a, h, b :| ReadsAsTwo(p, a, h, b, width) {
      var g: Files, text := map[a := h, b := e], LineFor(p, e);
      TwoFraming(a, h, b, e);
      OneFraming(p, e, text);
      assert |p| > |a|;
      assert a in g && a !in map[p := e];
      assert g != map[p := e] && Digested(g, width);
      assert text == a + ":" + h + "\n" + b + ":" + e;
    }
  }
}
