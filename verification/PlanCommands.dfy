/** Shell commands in a plan's fenced blocks, with the directory each runs in. */
module PlanCommands {
  import opened Results
  import opened Text

  datatype Kind = ChangeDir(dir: string) | MakeDir(dir: string) | RunScript(dir: string, script: string)

  datatype ShellCommand = ShellCommand(line: nat, block: nat, command: string, kind: Kind)

  datatype Marker = Marker(mark: char, len: nat)

  /** `cwd` is none once a command made the directory in effect unknowable. */
  datatype Fence = Outside | Other(opener: Marker) | Shell(opener: Marker, cwd: Option<string>)

  const SHELL_FENCES := ["sh", "bash", "shell", "console"]
  const RUNNERS := ["npm", "pnpm"]
  const SCOPE_FLAGS := ["-w", "--workspace", "--filter", "-C", "--prefix", "-r", "--recursive"]
  const NOT_LITERAL := "$*?~<>`'\"\\"

  // ----- words and paths -----

  /** `str::split_whitespace`. */
  function Words(s: string): seq<string>
    decreases |s|
  {
    if s == "" then []
    else if IsWhitespace(s[0]) then Words(s[1..])
    else
      var n := WordLength(s);
      [s[..n]] + Words(s[n..])
  }

  function WordLength(s: string): (n: nat)
    ensures n <= |s| && (s != "" && !IsWhitespace(s[0]) ==> n > 0)
  {
    if s == "" || IsWhitespace(s[0]) then 0 else 1 + WordLength(s[1..])
  }

  /** The parts of a line between `&&`. */
  function SplitAnd(s: string): seq<string>
    decreases |s|
  {
    var i := FindAnd(s);
    if i + 2 <= |s| then [s[..i]] + SplitAnd(s[i + 2..]) else [s]
  }

  function FindAnd(s: string): (i: nat)
    ensures i <= |s|
  {
    if |s| < 2 then |s| else if s[0] == '&' && s[1] == '&' then 0 else 1 + FindAnd(s[1..])
  }

  function SplitEach(parts: seq<string>): seq<string>
  {
    if parts == [] then [] else Split(parts[0], ';') + SplitEach(parts[1..])
  }

  /** `trim_start_matches("./")`. */
  function TrimDotSlash(s: string): string
    decreases |s|
  {
    if StartsWith(s, "./") then TrimDotSlash(s[2..]) else s
  }

  predicate IsLiteral(word: string)
  {
    word != "" && forall i :: 0 <= i < |word| ==> word[i] !in NOT_LITERAL
  }

  predicate IsLiteralRepoPath(path: string, repos: seq<string>)
  {
    var path := TrimDotSlash(path);
    && IsLiteral(path)
    && path[0] != '/' && path[0] != '-'
    && !StartsWith(path, ".ivar")
    && Split(path, '/')[0] !in repos
    && ".." !in Split(path, '/')
  }

  predicate IsScopeFlag(word: string)
  {
    (if SplitOnce(word, '=').Some? then SplitOnce(word, '=').value.0 else word) in SCOPE_FLAGS
  }

  /** `Utf8PathBuf::push`. */
  function Push(dir: string, path: string): string
  {
    if path != "" && path[0] == '/' then path
    else if dir == "" || dir[|dir| - 1] == '/' then dir + path
    else dir + "/" + path
  }

  // ----- one segment -----

  datatype Effect = Enter(dir: string) | Lost | Emit(kind: Kind) | Nothing

  /** What one segment does when the directory in effect is `dir`. */
  function EffectOf(segment: string, dir: string, repos: seq<string>): Effect
  {
    var words := Words(segment);
    if |words| == 2 && words[0] == "cd" && IsLiteralRepoPath(words[1], repos) then
      Enter(Push(dir, TrimDotSlash(words[1])))
    else if |words| >= 1 && words[0] == "cd" then Lost
    else if |words| == 2 && words[0] == "mkdir" && IsLiteralRepoPath(words[1], repos) then
      Emit(MakeDir(Push(dir, TrimDotSlash(words[1]))))
    else if |words| == 3 && words[0] == "mkdir" && words[1] == "-p" && IsLiteralRepoPath(words[2], repos) then
      Emit(MakeDir(Push(dir, TrimDotSlash(words[2]))))
    else if |words| >= 3 && words[0] in RUNNERS && words[1] == "run" && IsLiteral(words[2]) && words[2][0] != '-'
            && forall i :: 0 <= i < |words| ==> !IsScopeFlag(words[i]) then
      Emit(RunScript(dir, words[2]))
    else Nothing
  }

  /** The directory in effect after a segment with this effect, and what it reports. */
  function Applied(e: Effect, dir: string, command: string, line: nat, block: nat)
    : (Option<string>, seq<ShellCommand>)
  {
    match e
    case Enter(d) => (Some(d), [ShellCommand(line, block, command, ChangeDir(d))])
    case Lost => (None, [])
    case Emit(kind) => (Some(dir), [ShellCommand(line, block, command, kind)])
    case Nothing => (Some(dir), [])
  }

  function AfterSegments(cwd: Option<string>, segments: seq<string>, line: nat, block: nat, repos: seq<string>)
    : (Option<string>, seq<ShellCommand>)
    decreases |segments|
  {
    if segments == [] || cwd.None? then (cwd, [])
    else
      var (next, commands) :=
        Applied(EffectOf(segments[0], cwd.value, repos), cwd.value, Trim(segments[0]), line, block);
      var (last, more) := AfterSegments(next, segments[1..], line, block, repos);
      (last, commands + more)
  }

  lemma AfterFirst(dir: string, segments: seq<string>, line: nat, block: nat, repos: seq<string>) returns (e: Effect)
    requires segments != []
    ensures e == EffectOf(segments[0], dir, repos)
    ensures var (next, commands) := Applied(e, dir, Trim(segments[0]), line, block);
      var (last, more) := AfterSegments(next, segments[1..], line, block, repos);
      AfterSegments(Some(dir), segments, line, block, repos) == (last, commands + more)
  {
    e := EffectOf(segments[0], dir, repos);
  }

  // ----- one line -----

  function MarkerLength(line: string, c: char): (n: nat)
    ensures n <= |line|
  {
    if line == "" || line[0] != c then 0 else 1 + MarkerLength(line[1..], c)
  }

  /** The fence marker a line starts with, and what follows it. */
  function ParseMarker(line: string): Option<(Marker, string)>
  {
    if line == "" || (line[0] != '`' && line[0] != '~') then None
    else
      var len := MarkerLength(line, line[0]);
      if len >= 3 then Some((Marker(line[0], len), line[len..])) else None
  }

  predicate Closes(m: Marker, opener: Marker)
  {
    m.mark == opener.mark && m.len >= opener.len
  }

  datatype Scan = Scan(fence: Fence, block: nat, started: bool, commands: seq<ShellCommand>)

  /** The fence a marker line turns to; none when the marker neither opens nor closes. */
  function NextFence(fence: Fence, marker: Marker, info: string): Option<Fence>
  {
    match fence
    case Outside =>
      Some(if Trim(info) in SHELL_FENCES then Shell(marker, Some("")) else Other(marker))
    case _ => if Closes(marker, fence.opener) then Some(Outside) else None
  }

  function SegmentsOf(line: string): seq<string>
  {
    SplitEach(SplitAnd(if StartsWith(line, "$ ") then line[2..] else line))
  }

  function AfterText(s: Scan, line: string, number: nat, repos: seq<string>): Scan
  {
    if !s.fence.Shell? then s
    else
      var (cwd, commands) := AfterSegments(s.fence.cwd, SegmentsOf(line), number, s.block, repos);
      Scan(Shell(s.fence.opener, cwd), s.block, s.started, s.commands + commands)
  }

  function AfterLine(s: Scan, raw: string, number: nat, repos: seq<string>): Scan
  {
    var line := Trim(raw);
    var marker := ParseMarker(line);
    var next := if marker.None? then None else NextFence(s.fence, marker.value.0, marker.value.1);
    if next.None? then AfterText(s, line, number, repos)
    else if next.value.Shell? then Scan(next.value, if s.started then s.block + 1 else s.block, true, s.commands)
    else s.(fence := next.value)
  }

  function AfterLines(lines: seq<string>, repos: seq<string>): Scan
    decreases |lines|
  {
    if lines == [] then Scan(Outside, 0, false, [])
    else AfterLine(AfterLines(lines[..|lines| - 1], repos), lines[|lines| - 1], |lines|, repos)
  }

  // ----- the loops -----

  method ScanShellCommands(source: string, repos: seq<string>) returns (commands: seq<ShellCommand>)
    ensures commands == AfterLines(Lines(source), repos).commands
  {
    commands := [];
    var fence, block, started := Outside, 0, false;
    var lines := Lines(source);
    for index := 0 to |lines|
      invariant Scan(fence, block, started, commands) == AfterLines(lines[..index], repos)
    {
      assert lines[..index + 1][..index] == lines[..index];
      var line := Trim(lines[index]);
      var marker := ParseMarker(line);
      if marker.Some? {
        var next := NextFence(fence, marker.value.0, marker.value.1);
        if next.Some? {
          if next.value.Shell? {
            if started {
              block := block + 1;
            }
            started := true;
          }
          fence := next.value;
          continue;
        }
      }
      if !fence.Shell? {
        continue;
      }
      var cwd, more := ScanSegments(fence.cwd, SegmentsOf(line), index + 1, block, repos);
      commands := commands + more;
      fence := Shell(fence.opener, cwd);
    }
    assert lines[..|lines|] == lines;
  }

  /** What was reported before segment `i`, and what the rest will, are the whole report. */
  ghost predicate ScannedTo(start: Option<string>, segments: seq<string>, i: nat, cwd: Option<string>,
                            commands: seq<ShellCommand>, line: nat, block: nat, repos: seq<string>)
  {
    && i <= |segments|
    && var rest := AfterSegments(cwd, segments[i..], line, block, repos);
       AfterSegments(start, segments, line, block, repos) == (rest.0, commands + rest.1)
  }

  lemma ScannedOn(start: Option<string>, segments: seq<string>, i: nat, dir: string, commands: seq<ShellCommand>,
                  next: Option<string>, added: seq<ShellCommand>, line: nat, block: nat, repos: seq<string>)
    requires i < |segments| && ScannedTo(start, segments, i, Some(dir), commands, line, block, repos)
    requires (next, added) == Applied(EffectOf(segments[i], dir, repos), dir, Trim(segments[i]), line, block)
    ensures ScannedTo(start, segments, i + 1, next, commands + added, line, block, repos)
  {
    var e := AfterFirst(dir, segments[i..], line, block, repos);
    assert segments[i..][1..] == segments[i + 1..];
    var rest := AfterSegments(next, segments[i + 1..], line, block, repos);
    assert (commands + added) + rest.1 == commands + (added + rest.1);
  }

  method ScanSegments(start: Option<string>, segments: seq<string>, line: nat, block: nat, repos: seq<string>)
    returns (cwd: Option<string>, commands: seq<ShellCommand>)
    ensures (cwd, commands) == AfterSegments(start, segments, line, block, repos)
  {
    cwd, commands := start, [];
    ghost var all := AfterSegments(start, segments, line, block, repos);
    assert segments[0..] == segments && [] + all.1 == all.1;
    for i := 0 to |segments|
      invariant ScannedTo(start, segments, i, cwd, commands, line, block, repos)
    {
      if cwd.None? {
        break;
      }
      var next, added := ScanSegment(cwd.value, segments[i], line, block, repos);
      ScannedOn(start, segments, i, cwd.value, commands, next, added, line, block, repos);
      cwd, commands := next, commands + added;
    }
    assert commands + [] == commands;
  }

  method ScanSegment(dir: string, segment: string, line: nat, block: nat, repos: seq<string>)
    returns (cwd: Option<string>, added: seq<ShellCommand>)
    ensures (cwd, added) == Applied(EffectOf(segment, dir, repos), dir, Trim(segment), line, block)
  {
    cwd, added := Some(dir), [];
    match EffectOf(segment, dir, repos) {
      case Enter(d) =>
        cwd := Some(d);
        added := [ShellCommand(line, block, Trim(segment), ChangeDir(d))];
      case Lost =>
        cwd := None;
      case Emit(kind) =>
        added := [ShellCommand(line, block, Trim(segment), kind)];
      case Nothing =>
    }
  }

  // ----- every directory stays inside the repository -----

  /** A path that is relative and never climbs. */
  predicate StaysInside(dir: string)
  {
    dir == "" || (dir[0] != '/' && ".." !in Split(dir, '/'))
  }

  lemma Regrouped(head: string, c: string, more: string, tail: string)
    ensures head + c + more + c + tail == head + c + (more + c + tail)
  {
  }

  lemma PartsRegrouped(head: string, a: seq<string>, b: seq<string>)
    ensures [head] + (a + b) == ([head] + a) + b
  {
  }

  lemma {:induction false} SplitConcat(a: string, c: char, b: string)
    ensures Split(a + [c] + b, c) == Split(a, c) + Split(b, c)
    decreases |a|
  {
    if c in a {
      var head, more := CutFirst(a, c);
      SplitConcat(more, c, b);
      SplitCons(head, c, more);
      SplitCons(head, c, more + [c] + b);
      Regrouped(head, [c], more, b);
      PartsRegrouped(head, Split(more, c), Split(b, c));
    } else {
      SplitCons(a, c, b);
    }
  }

  lemma PushedParts(dir: string, path: string)
    requires dir != "" && path != "" && path[0] != '/'
    ensures Push(dir, path) != "" && Push(dir, path)[0] == dir[0]
    ensures forall x :: x in Split(Push(dir, path), '/') ==> x in Split(dir, '/') || x in Split(path, '/')
  {
    if dir[|dir| - 1] == '/' {
      var front := dir[..|dir| - 1];
      assert dir == front + ['/'] + "" && dir + path == front + ['/'] + path;
      SplitConcat(front, '/', "");
      SplitConcat(front, '/', path);
    } else {
      assert dir + "/" + path == dir + ['/'] + path;
      SplitConcat(dir, '/', path);
    }
  }

  lemma PushStaysInside(dir: string, path: string)
    requires StaysInside(dir) && path != "" && path[0] != '/' && ".." !in Split(path, '/')
    ensures StaysInside(Push(dir, path))
  {
    if dir == "" {
      assert dir + path == path;
    } else {
      PushedParts(dir, path);
    }
  }

  lemma EffectStaysInside(segment: string, dir: string, repos: seq<string>)
    requires StaysInside(dir)
    ensures var e := EffectOf(segment, dir, repos);
      (e.Enter? ==> StaysInside(e.dir)) && (e.Emit? ==> StaysInside(e.kind.dir))
  {
    var words := Words(segment);
    if |words| >= 2 && IsLiteralRepoPath(words[1], repos) {
      PushStaysInside(dir, TrimDotSlash(words[1]));
    }
    if |words| >= 3 && IsLiteralRepoPath(words[2], repos) {
      PushStaysInside(dir, TrimDotSlash(words[2]));
    }
  }

  ghost predicate AllInside(commands: seq<ShellCommand>)
  {
    forall i :: 0 <= i < |commands| ==> StaysInside(commands[i].kind.dir)
  }

  ghost predicate SegmentsInside(after: (Option<string>, seq<ShellCommand>))
  {
    (after.0.Some? ==> StaysInside(after.0.value)) && AllInside(after.1)
  }

  lemma {:induction false} SegmentsStayInside(cwd: Option<string>, segments: seq<string>, line: nat, block: nat,
                                              repos: seq<string>)
    requires cwd.Some? ==> StaysInside(cwd.value)
    ensures SegmentsInside(AfterSegments(cwd, segments, line, block, repos))
    decreases |segments|
  {
    if segments != [] && cwd.Some? {
      EffectStaysInside(segments[0], cwd.value, repos);
      var e := AfterFirst(cwd.value, segments, line, block, repos);
      SegmentsStayInside(Applied(e, cwd.value, Trim(segments[0]), line, block).0, segments[1..], line, block, repos);
    }
  }

  lemma {:induction false} ScanStaysInside(lines: seq<string>, repos: seq<string>)
    ensures var s := AfterLines(lines, repos);
      AllInside(s.commands) && (s.fence.Shell? && s.fence.cwd.Some? ==> StaysInside(s.fence.cwd.value))
    decreases |lines|
  {
    if lines != [] {
      var front, raw := lines[..|lines| - 1], lines[|lines| - 1];
      ScanStaysInside(front, repos);
      var s := AfterLines(front, repos);
      if s.fence.Shell? {
        SegmentsStayInside(s.fence.cwd, SegmentsOf(Trim(raw)), |lines|, s.block, repos);
      }
    }
  }

  /** Whatever a plan says, every directory reported is relative and free of `..`. */
  lemma EveryDirStaysInside(source: string, repos: seq<string>)
    ensures forall i :: 0 <= i < |AfterLines(Lines(source), repos).commands| ==>
      StaysInside(AfterLines(Lines(source), repos).commands[i].kind.dir)
  {
    ScanStaysInside(Lines(source), repos);
  }

  // ----- nothing after the directory is lost -----

  /** Once block `b` of scan `s` has lost its directory, a later scan has only other blocks' commands to add. */
  ghost predicate AddsNothingTo(b: nat, s: Scan, later: Scan)
  {
    && later.started && later.block >= b
    && (later.block == b ==> !later.fence.Shell? || later.fence.cwd.None?)
    && |s.commands| <= |later.commands| && later.commands[..|s.commands|] == s.commands
    && forall i :: |s.commands| <= i < |later.commands| ==> later.commands[i].block > b
  }

  ghost predicate AllOf(commands: seq<ShellCommand>, line: nat, block: nat)
  {
    forall i :: 0 <= i < |commands| ==> commands[i].block == block && commands[i].line == line
  }

  lemma {:induction false} SegmentsInBlock(cwd: Option<string>, segments: seq<string>, line: nat, block: nat,
                                           repos: seq<string>)
    ensures AllOf(AfterSegments(cwd, segments, line, block, repos).1, line, block)
    decreases |segments|
  {
    if segments != [] && cwd.Some? {
      var e := AfterFirst(cwd.value, segments, line, block, repos);
      SegmentsInBlock(Applied(e, cwd.value, Trim(segments[0]), line, block).0, segments[1..], line, block, repos);
    }
  }

  lemma {:induction false} OpenedInShell(lines: seq<string>, repos: seq<string>)
    ensures AfterLines(lines, repos).fence.Shell? ==> AfterLines(lines, repos).started
    decreases |lines|
  {
    if lines != [] {
      OpenedInShell(lines[..|lines| - 1], repos);
    }
  }

  lemma TextAddsNothing(b: nat, s: Scan, later: Scan, line: string, number: nat, repos: seq<string>)
    requires AddsNothingTo(b, s, later)
    ensures AddsNothingTo(b, s, AfterText(later, line, number, repos))
  {
    if later.fence.Shell? {
      var (cwd, more) := AfterSegments(later.fence.cwd, SegmentsOf(line), number, later.block, repos);
      SegmentsInBlock(later.fence.cwd, SegmentsOf(line), number, later.block, repos);
      var all := later.commands + more;
      assert all[..|s.commands|] == later.commands[..|s.commands|];
      forall i | |s.commands| <= i < |all| ensures all[i].block > b {
        if i >= |later.commands| {
          assert all[i] == more[i - |later.commands|];
        }
      }
    }
  }

  lemma LineAddsNothing(b: nat, s: Scan, later: Scan, raw: string, number: nat, repos: seq<string>)
    requires AddsNothingTo(b, s, later)
    ensures AddsNothingTo(b, s, AfterLine(later, raw, number, repos))
  {
    TextAddsNothing(b, s, later, Trim(raw), number, repos);
  }

  lemma {:induction false} SegmentsEndAtLost(cwd: Option<string>, segments: seq<string>, n: nat, line: nat, block: nat,
                                             repos: seq<string>)
    requires n <= |segments| && AfterSegments(cwd, segments[..n], line, block, repos).0.None?
    ensures AfterSegments(cwd, segments, line, block, repos) == AfterSegments(cwd, segments[..n], line, block, repos)
    decreases |segments|
  {
    if segments != [] && cwd.Some? {
      if n > 0 {
        var e := AfterFirst(cwd.value, segments, line, block, repos);
        assert segments[..n][0] == segments[0] && segments[..n][1..] == segments[1..][..n - 1];
        var e' := AfterFirst(cwd.value, segments[..n], line, block, repos);
        SegmentsEndAtLost(Applied(e, cwd.value, Trim(segments[0]), line, block).0, segments[1..], n - 1, line, block,
                          repos);
      }
    }
  }

  /** The line is read as commands of the block that is open before it. */
  ghost predicate IsCommandLine(s: Scan, raw: string)
  {
    var marker := ParseMarker(Trim(raw));
    s.fence.Shell? && (marker.None? || !Closes(marker.value.0, s.fence.opener))
  }

  /** The scan stopped after the first `n` segments of a line. */
  ghost function Midway(s: Scan, raw: string, n: nat, number: nat, repos: seq<string>): Scan
    requires s.fence.Shell? && n <= |SegmentsOf(Trim(raw))|
  {
    var (cwd, more) := AfterSegments(s.fence.cwd, SegmentsOf(Trim(raw))[..n], number, s.block, repos);
    Scan(Shell(s.fence.opener, cwd), s.block, s.started, s.commands + more)
  }

  /** The rest of a line adds nothing once a segment has lost the directory. */
  lemma LineEndsAtLost(s: Scan, raw: string, n: nat, number: nat, repos: seq<string>)
    requires IsCommandLine(s, raw) && n <= |SegmentsOf(Trim(raw))|
    requires Midway(s, raw, n, number, repos).fence.cwd.None?
    ensures AfterLine(s, raw, number, repos) == Midway(s, raw, n, number, repos)
  {
    SegmentsEndAtLost(s.fence.cwd, SegmentsOf(Trim(raw)), n, number, s.block, repos);
  }

  lemma {:induction false} NothingAfterLostLine(lines: seq<string>, n: nat, repos: seq<string>)
    requires n <= |lines|
    requires var s := AfterLines(lines[..n], repos); s.fence.Shell? && s.fence.cwd.None?
    ensures AddsNothingTo(AfterLines(lines[..n], repos).block, AfterLines(lines[..n], repos), AfterLines(lines, repos))
    decreases |lines|
  {
    var s := AfterLines(lines[..n], repos);
    if n == |lines| {
      assert lines[..n] == lines;
      OpenedInShell(lines, repos);
    } else {
      var front := lines[..|lines| - 1];
      assert front[..n] == lines[..n];
      NothingAfterLostLine(front, n, repos);
      LineAddsNothing(s.block, s, AfterLines(front, repos), lines[|lines| - 1], |lines|, repos);
    }
  }

  /** From the segment on that is a `cd` that cannot be resolved, its block adds no more commands: neither the rest
      of its line does, nor any later line, however the plan goes on. */
  lemma NothingAfterLost(lines: seq<string>, l: nat, n: nat, repos: seq<string>)
    requires l < |lines| && IsCommandLine(AfterLines(lines[..l], repos), lines[l])
    requires n <= |SegmentsOf(Trim(lines[l]))|
    requires Midway(AfterLines(lines[..l], repos), lines[l], n, l + 1, repos).fence.cwd.None?
    ensures var lost := Midway(AfterLines(lines[..l], repos), lines[l], n, l + 1, repos);
      AddsNothingTo(lost.block, lost, AfterLines(lines, repos))
  {
    LineEndsAtLost(AfterLines(lines[..l], repos), lines[l], n, l + 1, repos);
    assert lines[..l + 1][..l] == lines[..l];
    NothingAfterLostLine(lines, l + 1, repos);
  }
}
