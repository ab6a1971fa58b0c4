/** The words, targets and segments of a plan's command line, stated on its text. */
module PlanWords {
  import opened Results
  import opened Text
  import opened PlanCommands

  // ----- words -----

  ghost predicate IsWord(w: string)
  {
    w != "" && forall i :: 0 <= i < |w| ==> !IsWhitespace(w[i])
  }

  /** `s` is white space, the word `w`, and a rest that does not go on with it. */
  ghost predicate BeginsWith(s: string, p: string, w: string, rest: string)
  {
    s == p + w + rest && Blank(p) && IsWord(w) && (rest != "" ==> IsWhitespace(rest[0]))
  }

  /** `s` is `words`, with white space between them and perhaps around. */
  ghost predicate Reads(s: string, words: seq<string>)
    decreases |words|
  {
    if words == [] then Blank(s)
    else exists p, rest :: BeginsWith(s, p, words[0], rest) && Reads(rest, words[1..])
  }

  lemma {:induction false} WordsBehind(p: string, s: string)
    requires Blank(p)
    ensures Words(p + s) == Words(s)
  {
    if p == "" {
      assert p + s == s;
    } else {
      assert (p + s)[1..] == p[1..] + s;
      WordsBehind(p[1..], s);
    }
  }

  lemma {:induction false} WordEnds(w: string, rest: string)
    requires (forall i :: 0 <= i < |w| ==> !IsWhitespace(w[i])) && (rest != "" ==> IsWhitespace(rest[0]))
    ensures WordLength(w + rest) == |w|
  {
    if w != "" {
      assert (w + rest)[1..] == w[1..] + rest;
      WordEnds(w[1..], rest);
    } else {
      assert w + rest == rest;
    }
  }

  lemma FirstWord(s: string, p: string, w: string, rest: string)
    requires BeginsWith(s, p, w, rest)
    ensures Words(s) == [w] + Words(rest)
  {
    var x := w + rest;
    assert s == p + x;
    WordsBehind(p, x);
    WordEnds(w, rest);
    assert x[..|w|] == w && x[|w|..] == rest;
  }

  lemma {:induction false} BlankHasNone(s: string)
    requires Blank(s)
    ensures Words(s) == []
  {
    assert s == s + "";
    WordsBehind(s, "");
  }

  lemma WordLengthIs(s: string)
    ensures forall i :: 0 <= i < WordLength(s) ==> !IsWhitespace(s[i])
    ensures WordLength(s) < |s| ==> IsWhitespace(s[WordLength(s)])
  {
  }

  lemma {:induction false} ReadsItsWords(s: string)
    ensures Reads(s, Words(s))
    decreases |s|
  {
    if s == "" {
    } else if IsWhitespace(s[0]) {
      ReadsItsWords(s[1..]);
      ReadsBehind(s, Words(s));
    } else {
      ReadsItsWords(s[WordLength(s)..]);
      ReadsFirst(s, WordLength(s));
    }
  }

  lemma ReadsFirst(s: string, n: nat)
    requires s != "" && !IsWhitespace(s[0]) && n == WordLength(s) && Reads(s[n..], Words(s[n..]))
    ensures Reads(s, Words(s))
  {
    WordLengthIs(s);
    assert s == "" + s[..n] + s[n..];
    ReadsCons(s, "", s[..n], s[n..], Words(s[n..]));
  }

  lemma ReadsCons(s: string, p: string, w: string, rest: string, words: seq<string>)
    requires BeginsWith(s, p, w, rest) && Reads(rest, words)
    ensures Reads(s, [w] + words)
  {
    var all := [w] + words;
    assert all[1..] == words;
    assert BeginsWith(s, p, all[0], rest) && Reads(rest, all[1..]);
  }

  lemma ReadsBehind(s: string, words: seq<string>)
    requires s != "" && IsWhitespace(s[0]) && Reads(s[1..], words)
    ensures Reads(s, words)
  {
    if words != [] {
      var p, rest :| BeginsWith(s[1..], p, words[0], rest) && Reads(rest, words[1..]);
      assert s == [s[0]] + s[1..];
      assert s == ([s[0]] + p) + words[0] + rest;
      assert BeginsWith(s, [s[0]] + p, words[0], rest);
    }
  }

  /** A segment has these words exactly when it is written with them. */
  lemma {:induction false} WordsIff(s: string, words: seq<string>)
    ensures Words(s) == words <==> Reads(s, words)
    decreases |words|
  {
    ReadsItsWords(s);
    if Reads(s, words) {
      if words == [] {
        BlankHasNone(s);
      } else {
        var p, rest :| BeginsWith(s, p, words[0], rest) && Reads(rest, words[1..]);
        FirstWord(s, p, words[0], rest);
        WordsIff(rest, words[1..]);
        assert words == [words[0]] + words[1..];
      }
    }
  }

  // ----- targets -----

  ghost function Dots(n: nat): string
  {
    if n == 0 then "" else "./" + Dots(n - 1)
  }

  lemma {:induction false} DotsTrimmed(n: nat, path: string)
    requires !StartsWith(path, "./")
    ensures TrimDotSlash(Dots(n) + path) == path
  {
    if n == 0 {
      assert Dots(0) + path == path;
    } else {
      var s := Dots(n) + path;
      assert s == "./" + (Dots(n - 1) + path);
      assert s[..2] == "./" && s[2..] == Dots(n - 1) + path;
      DotsTrimmed(n - 1, path);
    }
  }

  lemma {:induction false} TrimmedDots(s: string) returns (n: nat)
    ensures s == Dots(n) + TrimDotSlash(s) && !StartsWith(TrimDotSlash(s), "./")
    decreases |s|
  {
    n := 0;
    if StartsWith(s, "./") {
      var m := TrimmedDots(s[2..]);
      n := m + 1;
      assert s == "./" + s[2..];
    }
  }

  ghost predicate StandsIn(path: string, before: string, part: string, after: string)
  {
    path == before + part + after
    && (before == "" || before[|before| - 1] == '/') && (after == "" || after[0] == '/')
  }

  /** `part` is one of the components of `path`. */
  ghost predicate HasPart(path: string, part: string)
  {
    exists before, after :: StandsIn(path, before, part, after)
  }

  lemma FirstPart(part: string, more: string)
    ensures HasPart(part + ['/'] + more, part) && HasPart(part, part)
  {
    var path := part + ['/'] + more;
    assert path == "" + part + (['/'] + more) && part == "" + part + "";
    assert StandsIn(path, "", part, ['/'] + more) && StandsIn(part, "", part, "");
  }

  lemma LaterPart(head: string, more: string, part: string)
    requires HasPart(more, part)
    ensures HasPart(head + ['/'] + more, part)
  {
    var before, after :| StandsIn(more, before, part, after);
    var path, front := head + ['/'] + more, head + ['/'] + before;
    assert path == front + part + after;
    assert StandsIn(path, front, part, after);
  }

  lemma {:induction false} SplitHasPart(path: string, part: string)
    requires part in Split(path, '/')
    ensures HasPart(path, part)
    decreases |path|
  {
    if '/' in path {
      var head, more := CutFirst(path, '/');
      SplitCons(head, '/', more);
      if part == head {
        FirstPart(head, more);
      } else {
        SplitHasPart(more, part);
        LaterPart(head, more, part);
      }
    } else {
      SplitNone(path, '/');
      FirstPart(path, "");
    }
  }

  lemma PartBegins(part: string, after: string)
    requires '/' !in part && (after == "" || after[0] == '/')
    ensures Split(part + after, '/')[0] == part
  {
    if after == "" {
      assert part + after == part;
      SplitNone(part, '/');
    } else {
      assert part + after == part + ['/'] + after[1..];
      SplitCons(part, '/', after[1..]);
    }
  }

  lemma PartBehind(front: string, rest: string, part: string)
    requires part in Split(rest, '/')
    ensures part in Split(front + ['/'] + rest, '/')
  {
    SplitConcat(front, '/', rest);
  }

  lemma PartIsSplit(path: string, before: string, part: string, after: string)
    requires '/' !in part && StandsIn(path, before, part, after)
    ensures part in Split(path, '/')
  {
    var rest := part + after;
    PartBegins(part, after);
    assert part == Split(rest, '/')[0];
    if before == "" {
      assert path == rest;
    } else {
      var front := before[..|before| - 1];
      assert path == front + ['/'] + rest;
      PartBehind(front, rest, part);
    }
  }

  lemma PartsIff(path: string, part: string)
    requires '/' !in part
    ensures part in Split(path, '/') <==> HasPart(path, part)
  {
    if part in Split(path, '/') {
      SplitHasPart(path, part);
    }
    if before, after :| StandsIn(path, before, part, after) {
      PartIsSplit(path, before, part, after);
    }
  }

  /** `name` is the first component of `path`. */
  ghost predicate LeadsInto(path: string, name: string)
  {
    '/' !in name && (path == name || StartsWith(path, name + "/"))
  }

  lemma LeadsOn(path: string, name: string)
    requires '/' !in name && StartsWith(path, name + "/")
    ensures Split(path, '/')[0] == name
  {
    var more := path[|name| + 1..];
    assert path == name + ['/'] + more;
    SplitCons(name, '/', more);
  }

  lemma FirstLeads(path: string)
    ensures LeadsInto(path, Split(path, '/')[0])
  {
    if '/' in path {
      var head, more := CutFirst(path, '/');
      SplitCons(head, '/', more);
      assert path[..|head| + 1] == head + "/";
    } else {
      SplitNone(path, '/');
    }
  }

  lemma LeadsIntoIff(path: string, name: string)
    ensures Split(path, '/')[0] == name <==> LeadsInto(path, name)
  {
    FirstLeads(path);
    if LeadsInto(path, name) {
      if path == name {
        SplitNone(path, '/');
      } else {
        LeadsOn(path, name);
      }
    }
  }

  /** A literal path below the repository's root: no shell character, not absolute, no leading dash, not under
      `.ivar`, no `..` among its components, and not into a declared repository. */
  ghost predicate InRepository(path: string, repos: seq<string>)
  {
    && path != "" && path[0] != '/' && path[0] != '-'
    && (forall i :: 0 <= i < |path| ==> path[i] !in {'$', '*', '?', '~', '<', '>', '`', '\'', '"', '\\'})
    && !StartsWith(path, ".ivar") && !HasPart(path, "..")
    && forall r :: r in repos ==> !LeadsInto(path, r)
  }

  /** The target names `path`, perhaps behind some `./`. */
  ghost predicate Names(target: string, path: string, repos: seq<string>)
  {
    InRepository(path, repos) && !StartsWith(path, "./") && exists n :: target == Dots(n) + path
  }

  lemma ShellCharacters(path: string)
    ensures (forall i :: 0 <= i < |path| ==> path[i] !in NOT_LITERAL) <==>
      forall i :: 0 <= i < |path| ==> path[i] !in {'$', '*', '?', '~', '<', '>', '`', '\'', '"', '\\'}
  {
    forall c: char ensures c in NOT_LITERAL <==> c in {'$', '*', '?', '~', '<', '>', '`', '\'', '"', '\\'} {
      var s := NOT_LITERAL;
      assert s == [s[0], s[1], s[2], s[3], s[4], s[5], s[6], s[7], s[8], s[9]];
    }
  }

  lemma IsLiteralIff(path: string, repos: seq<string>)
    requires !StartsWith(path, "./")
    ensures IsLiteralRepoPath(path, repos) <==> InRepository(path, repos)
  {
    assert TrimDotSlash(path) == path;
    ShellCharacters(path);
    PartsIff(path, "..");
    LeadsIntoIff(path, Split(path, '/')[0]);
    forall r | r in repos ensures Split(path, '/')[0] == r <==> LeadsInto(path, r) {
      LeadsIntoIff(path, r);
    }
  }

  lemma SameWhenTrimmed(target: string, repos: seq<string>)
    ensures IsLiteralRepoPath(target, repos) <==> IsLiteralRepoPath(TrimDotSlash(target), repos)
  {
    var n := TrimmedDots(target);
    assert TrimDotSlash(TrimDotSlash(target)) == TrimDotSlash(target);
  }

  /** The code takes a target exactly when it names such a path, and reads that path from it. */
  lemma NamesIff(target: string, path: string, repos: seq<string>)
    ensures Names(target, path, repos) <==> IsLiteralRepoPath(target, repos) && TrimDotSlash(target) == path
  {
    var n := TrimmedDots(target);
    SameWhenTrimmed(target, repos);
    IsLiteralIff(TrimDotSlash(target), repos);
    if Names(target, path, repos) {
      var m :| target == Dots(m) + path;
      DotsTrimmed(m, path);
    }
  }

  // ----- flags -----

  lemma FlagWord(word: string, flag: string)
    requires '=' !in flag
    ensures (if SplitOnce(word, '=').Some? then SplitOnce(word, '=').value.0 else word) == flag <==>
      word == flag || StartsWith(word, flag + "=")
  {
    if word == flag {
      FindIs(word, '=', |word|);
    } else if StartsWith(word, flag + "=") {
      assert word == flag + ['='] + word[|flag| + 1..];
      SplitOnceAt(flag, '=', word[|flag| + 1..]);
    } else if SplitOnce(word, '=').Some? {
      var i := Find(word, '=');
      assert word[..i + 1] == word[..i] + "=";
    }
  }

  /** A word picks a workspace when it is one of these flags, alone or with a value behind `=`. */
  lemma IsScopeFlagIff(word: string)
    ensures IsScopeFlag(word) <==>
      exists flag :: flag in ["-w", "--workspace", "--filter", "-C", "--prefix", "-r", "--recursive"]
                     && (word == flag || StartsWith(word, flag + "="))
  {
    forall flag | flag in SCOPE_FLAGS
      ensures (if SplitOnce(word, '=').Some? then SplitOnce(word, '=').value.0 else word) == flag <==>
        word == flag || StartsWith(word, flag + "=")
    {
      FlagWord(word, flag);
    }
  }

  // ----- segments -----

  ghost predicate NoOperator(text: string)
  {
    '&' !in text && ';' !in text
  }

  lemma {:induction false} AndBehind(a: string, rest: string)
    requires '&' !in a
    ensures FindAnd(a + rest) == |a| + FindAnd(rest)
  {
    if a == "" {
      assert a + rest == rest;
    } else {
      assert (a + rest)[1..] == a[1..] + rest;
      AndBehind(a[1..], rest);
    }
  }

  lemma SplitAndNone(a: string)
    requires '&' !in a
    ensures SplitAnd(a) == [a]
  {
    AndBehind(a, "");
    assert a + "" == a;
  }

  lemma SplitAndAt(a: string, rest: string)
    requires '&' !in a
    ensures SplitAnd(a + "&&" + rest) == [a] + SplitAnd(rest)
  {
    var s := a + "&&" + rest;
    assert s == a + ("&&" + rest);
    AndBehind(a, "&&" + rest);
    assert s[..|a|] == a && s[|a| + 2..] == rest;
  }

  lemma SplitAndBehind(a: string, rest: string)
    requires '&' !in a
    ensures SplitAnd(a + rest) == [a + SplitAnd(rest)[0]] + SplitAnd(rest)[1..]
  {
    var s, i := a + rest, FindAnd(rest);
    AndBehind(a, rest);
    if i + 2 <= |rest| {
      assert s[..|a| + i] == a + rest[..i] && s[|a| + i + 2..] == rest[i + 2..];
    }
  }

  ghost function SegmentsIn(text: string): seq<string>
  {
    SplitEach(SplitAnd(text))
  }

  lemma SplitEachCons(part: string, parts: seq<string>)
    ensures SplitEach([part] + parts) == Split(part, ';') + SplitEach(parts)
  {
    assert ([part] + parts)[1..] == parts;
  }

  /** A text without operators is one segment; `&&` and `;` each end one. */
  lemma OneSegment(a: string)
    requires NoOperator(a)
    ensures SegmentsIn(a) == [a]
  {
    SplitAndNone(a);
    SplitNone(a, ';');
    SplitEachCons(a, []);
    assert [a] + [] == [a];
  }

  lemma SegmentEndsAtAnd(a: string, rest: string)
    requires NoOperator(a)
    ensures SegmentsIn(a + "&&" + rest) == [a] + SegmentsIn(rest)
  {
    SplitAndAt(a, rest);
    SplitNone(a, ';');
    SplitEachCons(a, SplitAnd(rest));
  }

  lemma FirstPartGrows(a: string, parts: seq<string>)
    requires NoOperator(a) && parts != []
    ensures SplitEach([a + ";" + parts[0]] + parts[1..]) == [a] + SplitEach(parts)
  {
    SplitCons(a, ';', parts[0]);
    assert a + ";" + parts[0] == a + [';'] + parts[0];
    SplitEachCons(a + ";" + parts[0], parts[1..]);
    SplitEachCons(parts[0], parts[1..]);
    assert parts == [parts[0]] + parts[1..];
    PartsRegrouped(a, Split(parts[0], ';'), SplitEach(parts[1..]));
  }

  lemma NoAnd(a: string)
    requires NoOperator(a)
    ensures '&' !in a + ";"
  {
    var x := a + ";";
    assert forall i :: 0 <= i < |x| ==> x[i] == if i < |a| then a[i] else ';';
  }

  lemma SegmentEndsAtSemicolon(a: string, rest: string)
    requires NoOperator(a)
    ensures SegmentsIn(a + ";" + rest) == [a] + SegmentsIn(rest)
  {
    NoAnd(a);
    SplitAndBehind(a + ";", rest);
    FirstPartGrows(a, SplitAnd(rest));
  }

  /** A prompt is not part of the line's first segment. */
  lemma PromptIsDropped(text: string)
    ensures SegmentsOf("$ " + text) == SegmentsIn(text)
    ensures !StartsWith(text, "$ ") ==> SegmentsOf(text) == SegmentsIn(text)
  {
    assert ("$ " + text)[..2] == "$ " && ("$ " + text)[2..] == text;
  }

  // ----- entering a directory -----

  /** The components of a path, the empty ones left out. */
  ghost function Components(parts: seq<string>): seq<string>
  {
    if parts == [] then []
    else (if parts[0] == "" then [] else [parts[0]]) + Components(parts[1..])
  }

  lemma {:induction false} ComponentsConcat(a: seq<string>, b: seq<string>)
    ensures Components(a + b) == Components(a) + Components(b)
  {
    if a == [] {
      assert a + b == b;
    } else {
      assert (a + b)[1..] == a[1..] + b;
      ComponentsConcat(a[1..], b);
    }
  }

  lemma SplitEmpty()
    ensures Split("", '/') == [""] && Components([""]) == []
  {
    SplitNone("", '/');
  }

  lemma ComponentsBehind(front: string, path: string)
    ensures Components(Split(front + ['/'] + path, '/')) == Components(Split(front, '/')) + Components(Split(path, '/'))
  {
    SplitConcat(front, '/', path);
    ComponentsConcat(Split(front, '/'), Split(path, '/'));
  }

  lemma SlashAtEnd(front: string)
    ensures Components(Split(front + ['/'] + "", '/')) == Components(Split(front, '/'))
  {
    ComponentsBehind(front, "");
    SplitEmpty();
  }

  lemma PushBehindSlash(dir: string, path: string)
    requires dir != "" && dir[|dir| - 1] == '/'
    ensures Components(Split(dir + path, '/')) == Components(Split(dir, '/')) + Components(Split(path, '/'))
  {
    var front := dir[..|dir| - 1];
    CutSlash(dir, front, path);
    SlashAtEnd(front);
    ComponentsBehind(front, path);
  }

  lemma CutSlash(dir: string, front: string, path: string)
    requires dir != "" && dir[|dir| - 1] == '/' && front == dir[..|dir| - 1]
    ensures dir == front + ['/'] + "" && dir + path == front + ['/'] + path
  {
  }

  lemma PushIs(dir: string, path: string)
    requires path != "" && path[0] != '/'
    ensures dir == "" ==> Push(dir, path) == path
    ensures dir != "" && dir[|dir| - 1] == '/' ==> Push(dir, path) == dir + path
    ensures dir != "" && dir[|dir| - 1] != '/' ==> Push(dir, path) == dir + ['/'] + path
  {
    assert "" + path == path;
  }

  /** Entering a relative path puts its components behind those of the directory. */
  lemma PushAppends(dir: string, path: string)
    requires path != "" && path[0] != '/'
    ensures Components(Split(Push(dir, path), '/')) == Components(Split(dir, '/')) + Components(Split(path, '/'))
    ensures dir == "" ==> Push(dir, path) == path
    ensures dir != "" && dir[|dir| - 1] != '/' ==> Push(dir, path) == dir + "/" + path
  {
    PushIs(dir, path);
    if dir == "" {
      SplitEmpty();
    } else if dir[|dir| - 1] == '/' {
      PushBehindSlash(dir, path);
    } else {
      ComponentsBehind(dir, path);
    }
  }
}
