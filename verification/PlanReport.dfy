/** What a plan's scan reports of each segment, stated on its words, and where it falls silent. */
module PlanReport {
  import opened Results
  import opened Text
  import opened PlanCommands
  import opened PlanWords
  import opened PlanFences

  // ----- what a segment says -----

  ghost predicate IsScriptName(word: string)
  {
    && word != "" && word[0] != '-'
    && forall i :: 0 <= i < |word| ==> word[i] !in {'$', '*', '?', '~', '<', '>', '`', '\'', '"', '\\'}
  }

  ghost predicate PicksWorkspace(word: string)
  {
    exists flag :: flag in ["-w", "--workspace", "--filter", "-C", "--prefix", "-r", "--recursive"]
                   && (word == flag || StartsWith(word, flag + "="))
  }

  /** `cd` and a target that names `path`. */
  ghost predicate EntersPath(words: seq<string>, path: string, repos: seq<string>)
  {
    |words| == 2 && words[0] == "cd" && Names(words[1], path, repos)
  }

  /** `mkdir`, perhaps with `-p`, and a target that names `path`. */
  ghost predicate MakesPath(words: seq<string>, path: string, repos: seq<string>)
  {
    && words != [] && words[0] == "mkdir"
    && ((|words| == 2 && Names(words[1], path, repos))
        || (|words| == 3 && words[1] == "-p" && Names(words[2], path, repos)))
  }

  /** A runner told to run `script` in the current directory. */
  ghost predicate RunsScript(words: seq<string>, script: string)
  {
    && |words| >= 3 && (words[0] == "npm" || words[0] == "pnpm") && words[1] == "run" && words[2] == script
    && IsScriptName(script) && forall i :: 0 <= i < |words| ==> !PicksWorkspace(words[i])
  }

  /** In directory `dir`, a segment of these words is to be reported as `kind`. */
  ghost predicate Reports(words: seq<string>, dir: string, repos: seq<string>, kind: Kind)
  {
    match kind
    case ChangeDir(now) => exists path :: EntersPath(words, path, repos) && now == Push(dir, path)
    case MakeDir(made) => exists path :: MakesPath(words, path, repos) && made == Push(dir, path)
    case RunScript(at, script) => at == dir && RunsScript(words, script)
  }

  /** A `cd` other than into one literal path of the repository. */
  ghost predicate LosesDirectory(words: seq<string>, repos: seq<string>)
  {
    words != [] && words[0] == "cd" && forall path :: !EntersPath(words, path, repos)
  }

  /** The effect of a segment, on its words. */
  ghost predicate HasEffect(words: seq<string>, dir: string, repos: seq<string>, e: Effect)
  {
    match e
    case Enter(now) => Reports(words, dir, repos, ChangeDir(now))
    case Emit(kind) => !kind.ChangeDir? && Reports(words, dir, repos, kind)
    case Lost => LosesDirectory(words, repos)
    case Nothing => !LosesDirectory(words, repos) && forall kind :: !Reports(words, dir, repos, kind)
  }

  lemma IsScriptNameIff(word: string)
    ensures IsScriptName(word) <==> IsLiteral(word) && word[0] != '-'
  {
    ShellCharacters(word);
  }

  lemma RunsScriptIff(words: seq<string>)
    requires |words| >= 3
    ensures RunsScript(words, words[2]) <==>
      words[0] in RUNNERS && words[1] == "run" && IsLiteral(words[2]) && words[2][0] != '-'
      && forall i :: 0 <= i < |words| ==> !IsScopeFlag(words[i])
  {
    IsScriptNameIff(words[2]);
    forall i | 0 <= i < |words| ensures IsScopeFlag(words[i]) <==> PicksWorkspace(words[i]) {
      IsScopeFlagIff(words[i]);
    }
  }

  lemma NamesSome(target: string, repos: seq<string>)
    ensures IsLiteralRepoPath(target, repos) <==> Names(target, TrimDotSlash(target), repos)
    ensures forall path :: Names(target, path, repos) ==> path == TrimDotSlash(target)
  {
    NamesIff(target, TrimDotSlash(target), repos);
    forall path | Names(target, path, repos) ensures path == TrimDotSlash(target) {
      NamesIff(target, path, repos);
    }
  }

  lemma CdHasEffect(segment: string, words: seq<string>, dir: string, repos: seq<string>)
    requires words == Words(segment) && words != [] && words[0] == "cd"
    ensures HasEffect(words, dir, repos, EffectOf(segment, dir, repos))
  {
    if |words| == 2 {
      NamesSome(words[1], repos);
      if IsLiteralRepoPath(words[1], repos) {
        assert EntersPath(words, TrimDotSlash(words[1]), repos);
      }
    }
  }

  lemma MkdirHasEffect(segment: string, words: seq<string>, dir: string, repos: seq<string>)
    requires words == Words(segment) && words != [] && words[0] == "mkdir"
    ensures HasEffect(words, dir, repos, EffectOf(segment, dir, repos))
  {
    if |words| == 2 {
      NamesSome(words[1], repos);
      if IsLiteralRepoPath(words[1], repos) {
        assert MakesPath(words, TrimDotSlash(words[1]), repos);
      }
    } else if |words| == 3 {
      NamesSome(words[2], repos);
      if words[1] == "-p" && IsLiteralRepoPath(words[2], repos) {
        assert MakesPath(words, TrimDotSlash(words[2]), repos);
      }
    }
  }

  lemma OtherHasEffect(segment: string, words: seq<string>, dir: string, repos: seq<string>)
    requires words == Words(segment) && (words != [] ==> words[0] != "cd" && words[0] != "mkdir")
    ensures HasEffect(words, dir, repos, EffectOf(segment, dir, repos))
  {
    if |words| >= 3 {
      RunsScriptIff(words);
    }
  }

  lemma EffectIs(segment: string, words: seq<string>, dir: string, repos: seq<string>)
    requires Reads(segment, words)
    ensures HasEffect(words, dir, repos, EffectOf(segment, dir, repos))
  {
    WordsIff(segment, words);
    if words != [] && words[0] == "cd" {
      CdHasEffect(segment, words, dir, repos);
    } else if words != [] && words[0] == "mkdir" {
      MkdirHasEffect(segment, words, dir, repos);
    } else {
      OtherHasEffect(segment, words, dir, repos);
    }
  }

  // ----- one segment after another -----

  lemma {:induction false} AfterOneMore(cwd: Option<string>, segments: seq<string>, n: nat, line: nat, block: nat,
                                        repos: seq<string>)
    requires n < |segments|
    ensures var before := AfterSegments(cwd, segments[..n], line, block, repos);
      AfterSegments(cwd, segments[..n + 1], line, block, repos) ==
      if before.0.None? then before
      else
        var added := Applied(EffectOf(segments[n], before.0.value, repos), before.0.value, Trim(segments[n]), line, block);
        (added.0, before.1 + added.1)
    decreases n
  {
    if cwd.Some? {
      var now := segments[..n + 1];
      var e := AfterFirst(cwd.value, now, line, block, repos);
      var (next, commands) := Applied(e, cwd.value, Trim(segments[0]), line, block);
      if n > 0 {
        var e' := AfterFirst(cwd.value, segments[..n], line, block, repos);
        assert segments[..n][1..] == segments[1..][..n - 1] && now[1..] == segments[1..][..n];
        AfterOneMore(next, segments[1..], n - 1, line, block, repos);
        Regroup(commands, AfterSegments(next, segments[1..][..n - 1], line, block, repos).1,
                AfterSegments(next, segments[1..][..n], line, block, repos).1);
      } else {
        assert now[1..] == [];
        assert segments[..0] == [];
        assert commands + [] == [] + commands;
      }
    }
  }

  lemma Regroup<T>(a: seq<T>, b: seq<T>, c: seq<T>)
    ensures b <= c ==> a + c == (a + b) + c[|b|..]
  {
  }

  ghost function SegmentsAt(lines: seq<string>, l: nat): seq<string>
    requires l < |lines|
  {
    SegmentsOf(Trim(lines[l]))
  }

  /** The scan before segment `n` of line `l`. */
  ghost function Before(lines: seq<string>, l: nat, n: nat, repos: seq<string>): Scan
    requires l < |lines| && n <= |SegmentsAt(lines, l)| && IsCommandLine(AfterLines(lines[..l], repos), lines[l])
  {
    Midway(AfterLines(lines[..l], repos), lines[l], n, l + 1, repos)
  }

  lemma InShell(lines: seq<string>, o: nat, l: nat, repos: seq<string>)
    requires l < |lines| && HoldsCommands(lines, o, l)
    ensures IsCommandLine(AfterLines(lines[..l], repos), lines[l])
    ensures AfterLines(lines[..l], repos).block == ShellBlocks(lines, o)
  {
    CommandLinesAre(lines, l, repos);
    BlockOfLine(lines, o, l, repos);
  }

  /** What the next scan holds beyond this one, for a segment of these words. */
  ghost predicate Follows(now: Scan, next: Scan, dir: string, segment: string, words: seq<string>, line: nat,
                          repos: seq<string>)
  {
    && next.fence.Shell?
    && (forall kind :: Reports(words, dir, repos, kind) ==>
          next.commands == now.commands + [ShellCommand(line, now.block, Trim(segment), kind)]
          && next.fence.cwd == Some(if kind.ChangeDir? then kind.dir else dir))
    && ((forall kind :: !Reports(words, dir, repos, kind)) ==>
          next.commands == now.commands && next.fence.cwd == if LosesDirectory(words, repos) then None else Some(dir))
  }

  lemma OneReport(words: seq<string>, dir: string, repos: seq<string>, j: Kind, k: Kind)
    requires Reports(words, dir, repos, j) && Reports(words, dir, repos, k)
    ensures j == k
  {
    if |words| >= 2 {
      NamesSome(words[1], repos);
    }
    if |words| >= 3 {
      NamesSome(words[2], repos);
    }
  }

  lemma EffectFollows(now: Scan, next: Scan, dir: string, segment: string, words: seq<string>, line: nat,
                      repos: seq<string>)
    requires Reads(segment, words) && next.fence.Shell?
    requires var (cwd, added) := Applied(EffectOf(segment, dir, repos), dir, Trim(segment), line, now.block);
      next.fence.cwd == cwd && next.commands == now.commands + added
    ensures Follows(now, next, dir, segment, words, line, repos)
  {
    EffectIs(segment, words, dir, repos);
    var e := EffectOf(segment, dir, repos);
    forall kind | Reports(words, dir, repos, kind)
      ensures next.commands == now.commands + [ShellCommand(line, now.block, Trim(segment), kind)]
      ensures next.fence.cwd == Some(if kind.ChangeDir? then kind.dir else dir)
    {
      if e.Enter? {
        OneReport(words, dir, repos, kind, ChangeDir(e.dir));
      } else if e.Emit? {
        OneReport(words, dir, repos, kind, e.kind);
      }
    }
  }

  lemma MidwayFollows(s: Scan, raw: string, n: nat, number: nat, dir: string, words: seq<string>, repos: seq<string>)
    requires s.fence.Shell? && n < |SegmentsOf(Trim(raw))| && Reads(SegmentsOf(Trim(raw))[n], words)
    requires Midway(s, raw, n, number, repos).fence.cwd == Some(dir)
    ensures Follows(Midway(s, raw, n, number, repos), Midway(s, raw, n + 1, number, repos), dir,
                    SegmentsOf(Trim(raw))[n], words, number, repos)
  {
    var segments := SegmentsOf(Trim(raw));
    AfterOneMore(s.fence.cwd, segments, n, number, s.block, repos);
    var now, next := Midway(s, raw, n, number, repos), Midway(s, raw, n + 1, number, repos);
    var (cwd, added) := Applied(EffectOf(segments[n], dir, repos), dir, Trim(segments[n]), number, s.block);
    Added(s.commands, AfterSegments(s.fence.cwd, segments[..n], number, s.block, repos).1, added);
    assert next.commands == now.commands + added;
    EffectFollows(now, next, dir, segments[n], words, number, repos);
  }

  lemma Added<T>(a: seq<T>, b: seq<T>, c: seq<T>)
    ensures a + (b + c) == (a + b) + c
  {
  }

  lemma MidwayEnds(s: Scan, raw: string, number: nat, repos: seq<string>)
    requires IsCommandLine(s, raw)
    ensures Midway(s, raw, 0, number, repos) == s
    ensures Midway(s, raw, |SegmentsOf(Trim(raw))|, number, repos) == AfterLine(s, raw, number, repos)
  {
    var segments := SegmentsOf(Trim(raw));
    assert segments[..0] == [] && segments[..|segments|] == segments;
    assert s.commands + [] == s.commands;
  }

  /** In a shell block whose directory is known, a segment adds the report its words call for and moves the
      directory where they say, or loses it. */
  lemma SegmentFollows(lines: seq<string>, l: nat, n: nat, dir: string, words: seq<string>, repos: seq<string>)
    requires l < |lines| && n < |SegmentsAt(lines, l)| && Reads(SegmentsAt(lines, l)[n], words)
    requires IsCommandLine(AfterLines(lines[..l], repos), lines[l]) && Before(lines, l, n, repos).fence.cwd == Some(dir)
    ensures Follows(Before(lines, l, n, repos), Before(lines, l, n + 1, repos), dir, SegmentsAt(lines, l)[n], words, l + 1, repos)
  {
    MidwayFollows(AfterLines(lines[..l], repos), lines[l], n, l + 1, dir, words, repos);
  }

  lemma OpenedAtRoot(s: Scan, raw: string, number: nat, repos: seq<string>)
    requires s.fence.Outside? && OpensShell(raw)
    ensures var t := AfterLine(s, raw, number, repos);
      t.commands == s.commands && t.fence.Shell? && t.fence.cwd == Some("")
  {
    OpensIff(raw);
  }

  /** A shell block begins in the repository's root. */
  lemma BeginsAtRoot(lines: seq<string>, o: nat, repos: seq<string>)
    requires o < |lines| && BeginsShell(lines, o)
    ensures var t := AfterLines(lines[..o + 1], repos);
      t.commands == AfterLines(lines[..o], repos).commands && t.fence.Shell? && t.fence.cwd == Some("")
  {
    FenceIs(lines, o, repos);
    assert lines[..o + 1][..o] == lines[..o];
    OpenedAtRoot(AfterLines(lines[..o], repos), lines[o], o + 1, repos);
  }

  lemma OneLineMore(lines: seq<string>, l: nat, repos: seq<string>)
    requires l < |lines|
    ensures AfterLines(lines[..l + 1], repos) == AfterLine(AfterLines(lines[..l], repos), lines[l], l + 1, repos)
  {
    assert lines[..l + 1][..l] == lines[..l];
  }

  /** Each line goes on where the line before it ended. */
  lemma LinesFollow(lines: seq<string>, l: nat, repos: seq<string>)
    requires l < |lines| && IsCommandLine(AfterLines(lines[..l], repos), lines[l])
    ensures Before(lines, l, 0, repos) == AfterLines(lines[..l], repos)
    ensures Before(lines, l, |SegmentsAt(lines, l)|, repos) == AfterLines(lines[..l + 1], repos)
  {
    MidwayEnds(AfterLines(lines[..l], repos), lines[l], l + 1, repos);
    OneLineMore(lines, l, repos);
  }

  // ----- lines of one segment -----

  /** The line is one segment of these words. */
  ghost predicate Says(raw: string, words: seq<string>)
  {
    var segments := SegmentsOf(Trim(raw));
    |segments| == 1 && Reads(segments[0], words)
  }

  /** A line without prompt and operators says its words. */
  lemma SaysItsWords(raw: string, words: seq<string>)
    requires NoOperator(Trim(raw)) && !StartsWith(Trim(raw), "$ ") && Reads(Trim(raw), words)
    ensures Says(raw, words)
  {
    PromptIsDropped(Trim(raw));
    OneSegment(Trim(raw));
  }

  lemma FollowsReport(now: Scan, next: Scan, dir: string, segment: string, words: seq<string>, line: nat,
                      repos: seq<string>, kind: Kind)
    requires Follows(now, next, dir, segment, words, line, repos) && Reports(words, dir, repos, kind)
    ensures next.fence.Shell? && next.fence.cwd == Some(if kind.ChangeDir? then kind.dir else dir)
    ensures next.commands == now.commands + [ShellCommand(line, now.block, Trim(segment), kind)]
  {
  }

  lemma TextReports(s: Scan, raw: string, number: nat, dir: string, words: seq<string>, kind: Kind, repos: seq<string>)
    requires IsCommandLine(s, raw) && s.fence.cwd == Some(dir) && Says(raw, words) && Reports(words, dir, repos, kind)
    ensures var t := AfterLine(s, raw, number, repos);
      && t.fence.Shell? && t.fence.cwd == Some(if kind.ChangeDir? then kind.dir else dir)
      && t.commands == s.commands + [ShellCommand(number, s.block, Trim(SegmentsOf(Trim(raw))[0]), kind)]
  {
    MidwayEnds(s, raw, number, repos);
    MidwayFollows(s, raw, 0, number, dir, words, repos);
    var now, next := Midway(s, raw, 0, number, repos), Midway(s, raw, 1, number, repos);
    FollowsReport(now, next, dir, SegmentsOf(Trim(raw))[0], words, number, repos, kind);
  }

  lemma LineKeepsReports(lines: seq<string>, l: nat, repos: seq<string>)
    requires l < |lines|
    ensures AfterLines(lines[..l], repos).commands <= AfterLines(lines[..l + 1], repos).commands
  {
    TextStandsRight(lines, l, repos);
  }

  lemma PrefixTransitive<T>(a: seq<T>, b: seq<T>, c: seq<T>)
    requires a <= b && b <= c
    ensures a <= c
  {
  }

  /** What is reported of a line stays reported, however the plan goes on. */
  lemma {:induction false} ReportsStay(lines: seq<string>, l: nat, m: nat, repos: seq<string>)
    requires l <= m <= |lines|
    ensures AfterLines(lines[..l], repos).commands <= AfterLines(lines[..m], repos).commands
  {
    if l < m {
      ReportsStay(lines, l, m - 1, repos);
      LineKeepsReports(lines, m - 1, repos);
      PrefixTransitive(AfterLines(lines[..l], repos).commands, AfterLines(lines[..m - 1], repos).commands,
                       AfterLines(lines[..m], repos).commands);
    }
  }

  /** The final report says this of line `l`, under block number `b`. */
  ghost predicate ReportedAt(lines: seq<string>, l: nat, b: nat, kind: Kind, repos: seq<string>)
  {
    exists x :: x in AfterLines(lines, repos).commands && x.line == l + 1 && x.block == b && x.kind == kind
  }

  lemma StaysReported(lines: seq<string>, b: nat, l: nat, x: ShellCommand, repos: seq<string>)
    requires l < |lines| && x in AfterLines(lines[..l + 1], repos).commands
    requires x.line == l + 1 && x.block == b
    ensures ReportedAt(lines, l, b, x.kind, repos)
  {
    ReportsStay(lines, l + 1, |lines|, repos);
    assert lines[..|lines|] == lines;
  }

  lemma LastAdded<T>(a: seq<T>, x: T)
    ensures x in a + [x]
  {
    assert (a + [x])[|a|] == x;
  }

  lemma LineReports(s: Scan, t: Scan, raw: string, number: nat, dir: string, words: seq<string>, kind: Kind,
                    repos: seq<string>)
    returns (x: ShellCommand)
    requires IsCommandLine(s, raw) && s.fence.cwd == Some(dir) && Says(raw, words) && Reports(words, dir, repos, kind)
    requires t == AfterLine(s, raw, number, repos)
    ensures t.fence.Shell? && t.fence.cwd == Some(if kind.ChangeDir? then kind.dir else dir)
    ensures x in t.commands && x.line == number && x.block == s.block && x.kind == kind
  {
    TextReports(s, raw, number, dir, words, kind, repos);
    x := ShellCommand(number, s.block, Trim(SegmentsOf(Trim(raw))[0]), kind);
    LastAdded(s.commands, x);
  }

  lemma TurnReported(lines: seq<string>, b: nat, l: nat, dir: string, words: seq<string>, kind: Kind, repos: seq<string>)
    requires l < |lines| && Says(lines[l], words) && Reports(words, dir, repos, kind)
    requires var s := AfterLines(lines[..l], repos);
      IsCommandLine(s, lines[l]) && s.fence.cwd == Some(dir) && s.block == b
    ensures ReportedAt(lines, l, b, kind, repos)
    ensures var t := AfterLines(lines[..l + 1], repos);
      t.fence.Shell? && t.fence.cwd == Some(if kind.ChangeDir? then kind.dir else dir)
  {
    var s, t := AfterLines(lines[..l], repos), AfterLines(lines[..l + 1], repos);
    OneLineMore(lines, l, repos);
    var x := LineReports(s, t, lines[l], l + 1, dir, words, kind, repos);
    StaysReported(lines, b, l, x, repos);
  }

  /** A line of one segment, read in `dir`, is reported as its words call for. */
  lemma LineReported(lines: seq<string>, o: nat, l: nat, dir: string, words: seq<string>, kind: Kind, repos: seq<string>)
    requires l < |lines| && HoldsCommands(lines, o, l) && Says(lines[l], words) && Reports(words, dir, repos, kind)
    requires AfterLines(lines[..l], repos).fence.Shell? && AfterLines(lines[..l], repos).fence.cwd == Some(dir)
    ensures ReportedAt(lines, l, ShellBlocks(lines, o), kind, repos)
    ensures var t := AfterLines(lines[..l + 1], repos);
      t.fence.Shell? && t.fence.cwd == Some(if kind.ChangeDir? then kind.dir else dir)
  {
    InShell(lines, o, l, repos);
    TurnReported(lines, ShellBlocks(lines, o), l, dir, words, kind, repos);
  }

  lemma EnterReports(a: string, repos: seq<string>)
    requires Names(a, a, repos)
    ensures Reports(["cd", a], "", repos, ChangeDir(a))
  {
    assert EntersPath(["cd", a], a, repos);
    PushAppends("", a);
  }

  lemma MakeReports(a: string, b: string, repos: seq<string>)
    requires a != "" && a[|a| - 1] != '/' && Names(b, b, repos)
    ensures Reports(["mkdir", b], a, repos, MakeDir(a + "/" + b))
  {
    assert MakesPath(["mkdir", b], b, repos);
    PushAppends(a, b);
  }

  lemma NoFlags(script: string)
    requires IsScriptName(script)
    ensures forall w :: w in ["npm", "run", script] ==> !PicksWorkspace(w)
  {
    forall w, flag | w in ["npm", "run", script]
        && flag in ["-w", "--workspace", "--filter", "-C", "--prefix", "-r", "--recursive"]
      ensures w != flag && !StartsWith(w, flag + "=")
    {
      assert flag[0] == '-' && (flag + "=")[0] == '-' && w[0] != '-';
    }
  }

  lemma RunReports(a: string, script: string, repos: seq<string>)
    requires IsScriptName(script)
    ensures Reports(["npm", "run", script], a, repos, RunScript(a, script))
  {
    NoFlags(script);
  }

  lemma NextThree(lines: seq<string>, o: nat)
    requires o + 3 < |lines| && BeginsShell(lines, o)
    requires forall l :: o < l <= o + 3 ==> !Ends(lines[o], lines[l])
    ensures HoldsCommands(lines, o, o + 1) && HoldsCommands(lines, o, o + 2) && HoldsCommands(lines, o, o + 3)
  {
    OpensIff(lines[o]);
    assert InBlock(lines, o, o + 1) && InBlock(lines, o, o + 2) && InBlock(lines, o, o + 3);
  }

  /** A block that says `cd a`, `mkdir b` and `npm run s` is reported as entering `a`, making `a/b` and
      running `s` in `a`. */
  lemma EnteredThenReported(lines: seq<string>, o: nat, a: string, b: string, script: string, repos: seq<string>)
    requires o + 3 < |lines| && BeginsShell(lines, o)
    requires forall l :: o < l <= o + 3 ==> !Ends(lines[o], lines[l])
    requires Names(a, a, repos) && a[|a| - 1] != '/' && Names(b, b, repos) && IsScriptName(script)
    requires Says(lines[o + 1], ["cd", a]) && Says(lines[o + 2], ["mkdir", b]) && Says(lines[o + 3], ["npm", "run", script])
    ensures ReportedAt(lines, o + 1, ShellBlocks(lines, o), ChangeDir(a), repos)
    ensures ReportedAt(lines, o + 2, ShellBlocks(lines, o), MakeDir(a + "/" + b), repos)
    ensures ReportedAt(lines, o + 3, ShellBlocks(lines, o), RunScript(a, script), repos)
  {
    NextThree(lines, o);
    BeginsAtRoot(lines, o, repos);
    EnterReports(a, repos);
    LineReported(lines, o, o + 1, "", ["cd", a], ChangeDir(a), repos);
    MakeReports(a, b, repos);
    LineReported(lines, o, o + 2, a, ["mkdir", b], MakeDir(a + "/" + b), repos);
    RunReports(a, script, repos);
    LineReported(lines, o, o + 3, a, ["npm", "run", script], RunScript(a, script), repos);
  }

  // ----- silence -----

  lemma LostFrom(lines: seq<string>, l: nat, n: nat, words: seq<string>, repos: seq<string>)
    requires l < |lines| && n < |SegmentsAt(lines, l)| && Reads(SegmentsAt(lines, l)[n], words)
    requires IsCommandLine(AfterLines(lines[..l], repos), lines[l]) && LosesDirectory(words, repos)
    ensures var here := Before(lines, l, n, repos); AddsNothingTo(here.block, here, AfterLines(lines, repos))
  {
    var here := Before(lines, l, n, repos);
    if here.fence.cwd.None? {
      NothingAfterLost(lines, l, n, repos);
    } else {
      SegmentFollows(lines, l, n, here.fence.cwd.value, words, repos);
      NoReport(words, here.fence.cwd.value, repos);
      NothingAfterLost(lines, l, n + 1, repos);
    }
  }

  lemma NoReport(words: seq<string>, dir: string, repos: seq<string>)
    requires LosesDirectory(words, repos)
    ensures forall kind :: !Reports(words, dir, repos, kind)
  {
  }

  /** From a segment on that is a `cd`, and not into one literal path of the repository, its block reports
      nothing more, however the plan goes on. */
  lemma NothingAfterCd(lines: seq<string>, o: nat, l: nat, n: nat, words: seq<string>, repos: seq<string>)
    requires l < |lines| && HoldsCommands(lines, o, l) && n < |SegmentsAt(lines, l)|
    requires Reads(SegmentsAt(lines, l)[n], words)
    requires words != [] && words[0] == "cd" && !(|words| == 2 && exists path :: Names(words[1], path, repos))
    ensures IsCommandLine(AfterLines(lines[..l], repos), lines[l])
    ensures var before, all := Before(lines, l, n, repos).commands, AfterLines(lines, repos).commands;
      && |before| <= |all| && all[..|before|] == before
      && forall x :: x in all[|before|..] ==> 0 < x.line <= |lines| && !HoldsCommands(lines, o, x.line - 1)
  {
    InShell(lines, o, l, repos);
    LostFrom(lines, l, n, words, repos);
    SilentBlock(lines, o, Before(lines, l, n, repos), repos);
  }

  lemma SilentBlock(lines: seq<string>, o: nat, here: Scan, repos: seq<string>)
    requires o < |lines| && AddsNothingTo(ShellBlocks(lines, o), here, AfterLines(lines, repos))
    ensures var before, all := here.commands, AfterLines(lines, repos).commands;
      && |before| <= |all| && all[..|before|] == before
      && forall x :: x in all[|before|..] ==> 0 < x.line <= |lines| && !HoldsCommands(lines, o, x.line - 1)
  {
    var all := AfterLines(lines, repos).commands;
    assert lines[..|lines|] == lines;
    CommandsStandRight(lines, |lines|, repos);
    forall x | x in all[|here.commands|..]
      ensures 0 < x.line <= |lines| && !HoldsCommands(lines, o, x.line - 1)
    {
      assert StandsRight(lines, x);
      OtherBlock(lines, o, x);
    }
  }

  lemma OtherBlock(lines: seq<string>, o: nat, x: ShellCommand)
    requires StandsRight(lines, x) && o < |lines| && x.block > ShellBlocks(lines, o)
    ensures !HoldsCommands(lines, o, x.line - 1)
  {
    var p: nat :| HoldsCommands(lines, p, x.line - 1) && x.block == ShellBlocks(lines, p);
    if HoldsCommands(lines, o, x.line - 1) {
      OneBlock(lines, o, p, x.line - 1);
    }
  }
}
