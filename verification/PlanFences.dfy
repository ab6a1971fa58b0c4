/** Which lines of a plan stand in which fenced block, stated on the lines themselves. */
module PlanFences {
  import opened Results
  import opened Text
  import opened PlanCommands

  // ----- markers -----

  /** `line` is `n` times the mark `c` and a rest that does not go on with it. */
  ghost predicate IsMarker(line: string, c: char, n: nat, rest: string)
  {
    n >= 3 && (c == '`' || c == '~') && line == seq(n, _ => c) + rest && (rest == "" || rest[0] != c)
  }

  lemma {:induction false} MarkerLengthIs(line: string, c: char, n: nat, rest: string)
    requires line == seq(n, _ => c) + rest && (rest == "" || rest[0] != c)
    ensures MarkerLength(line, c) == n
  {
    if n > 0 {
      assert line[1..] == seq(n - 1, _ => c) + rest;
      MarkerLengthIs(line[1..], c, n - 1, rest);
    }
  }

  lemma {:induction false} MarkerSplits(line: string, c: char)
    ensures var n := MarkerLength(line, c);
      line == seq(n, _ => c) + line[n..] && (line[n..] == "" || line[n..][0] != c)
  {
    if line != "" && line[0] == c {
      MarkerSplits(line[1..], c);
    }
  }

  lemma ParseMarkerIff(line: string, c: char, n: nat, rest: string)
    ensures ParseMarker(line) == Some((Marker(c, n), rest)) <==> IsMarker(line, c, n, rest)
  {
    if IsMarker(line, c, n, rest) {
      assert line[0] == c && line[n..] == rest;
      MarkerLengthIs(line, c, n, rest);
    }
    if ParseMarker(line) == Some((Marker(c, n), rest)) {
      MarkerSplits(line, c);
    }
  }

  // ----- blocks -----

  ghost predicate Opens(raw: string)
  {
    exists c, n, rest :: IsMarker(Trim(raw), c, n, rest)
  }

  ghost predicate OpensShell(raw: string)
  {
    exists c, n, rest :: IsMarker(Trim(raw), c, n, rest) && Trim(rest) in {"sh", "bash", "shell", "console"}
  }

  /** `raw` closes what `opener` opened: the same mark, at least as often, whatever follows it. */
  ghost predicate Ends(opener: string, raw: string)
  {
    exists c, n, rest, m, more :: IsMarker(Trim(opener), c, n, rest) && IsMarker(Trim(raw), c, m, more) && m >= n
  }

  /** Line `l` stands in the block that line `o` opens, or closes it: `o` is in no block itself, and no
      line between them closes its block. */
  ghost predicate InBlock(lines: seq<string>, o: nat, l: nat)
    requires l <= |lines|
    decreases l
  {
    && o < l && Opens(lines[o])
    && (forall p: nat :: p < o ==> !InBlock(lines, p, o))
    && forall k: nat :: o < k < l ==> !Ends(lines[o], lines[k])
  }

  ghost predicate Free(lines: seq<string>, l: nat)
    requires l <= |lines|
  {
    forall o: nat :: o < l ==> !InBlock(lines, o, l)
  }

  lemma InBlockBefore(lines: seq<string>, o: nat, k: nat, l: nat)
    requires k <= l <= |lines| && InBlock(lines, o, l)
    ensures o < k ==> InBlock(lines, o, k)
  {
  }

  lemma OneBlock(lines: seq<string>, o: nat, p: nat, l: nat)
    requires l <= |lines| && InBlock(lines, o, l) && InBlock(lines, p, l)
    ensures o == p
  {
    InBlockBefore(lines, o, p, l);
    InBlockBefore(lines, p, o, l);
  }

  lemma OpensIff(raw: string)
    ensures Opens(raw) <==> ParseMarker(Trim(raw)).Some?
    ensures OpensShell(raw) <==> ParseMarker(Trim(raw)).Some? && Trim(ParseMarker(Trim(raw)).value.1) in SHELL_FENCES
  {
    var line := Trim(raw);
    if c, n, rest :| IsMarker(line, c, n, rest) {
      ParseMarkerIff(line, c, n, rest);
    }
    if c, n, rest :| IsMarker(line, c, n, rest) && Trim(rest) in {"sh", "bash", "shell", "console"} {
      ParseMarkerIff(line, c, n, rest);
    }
    if ParseMarker(line).Some? {
      var (m, rest) := ParseMarker(line).value;
      ParseMarkerIff(line, m.mark, m.len, rest);
    }
  }

  lemma EndsIff(opener: string, raw: string)
    requires ParseMarker(Trim(opener)).Some?
    ensures Ends(opener, raw) <==>
      ParseMarker(Trim(raw)).Some? && Closes(ParseMarker(Trim(raw)).value.0, ParseMarker(Trim(opener)).value.0)
  {
    var a, b := Trim(opener), Trim(raw);
    var (x, rest) := ParseMarker(a).value;
    ParseMarkerIff(a, x.mark, x.len, rest);
    if c, n, more, m, most :| IsMarker(a, c, n, more) && IsMarker(b, c, m, most) && m >= n {
      ParseMarkerIff(a, c, n, more);
      ParseMarkerIff(b, c, m, most);
    }
    if ParseMarker(b).Some? {
      var (y, most) := ParseMarker(b).value;
      ParseMarkerIff(b, y.mark, y.len, most);
    }
  }

  /** The fence is that of the block `l` stands in. */
  ghost predicate FenceOf(lines: seq<string>, l: nat, fence: Fence)
    requires l <= |lines|
  {
    && (fence.Outside? ==> Free(lines, l))
    && (!fence.Outside? ==> exists o: nat :: InBlock(lines, o, l) && OpenedBy(lines[o], fence))
  }

  ghost predicate OpenedBy(raw: string, fence: Fence)
  {
    && !fence.Outside? && ParseMarker(Trim(raw)).Some? && fence.opener == ParseMarker(Trim(raw)).value.0
    && (fence.Shell? <==> OpensShell(raw))
  }

  lemma StaysInBlock(lines: seq<string>, o: nat, l: nat)
    requires l < |lines| && InBlock(lines, o, l) && !Ends(lines[o], lines[l])
    ensures InBlock(lines, o, l + 1)
  {
  }

  lemma LeavesBlock(lines: seq<string>, o: nat, l: nat)
    requires l < |lines| && InBlock(lines, o, l) && Ends(lines[o], lines[l])
    ensures Free(lines, l + 1)
  {
    var next := l + 1;
    forall p: nat | p < next ensures !InBlock(lines, p, next) {
      if InBlock(lines, p, next) && p < l {
        InBlockBefore(lines, p, l, next);
        OneBlock(lines, o, p, l);
      }
    }
  }

  lemma EntersBlock(lines: seq<string>, l: nat)
    requires l < |lines| && Free(lines, l)
    ensures Opens(lines[l]) ==> InBlock(lines, l, l + 1)
    ensures !Opens(lines[l]) ==> Free(lines, l + 1)
  {
    var next := l + 1;
    if !Opens(lines[l]) {
      forall p: nat | p < next ensures !InBlock(lines, p, next) {
        if InBlock(lines, p, next) {
          InBlockBefore(lines, p, l, next);
        }
      }
    }
  }

  lemma LineInBlock(lines: seq<string>, o: nat, l: nat, s: Scan, repos: seq<string>)
    requires l < |lines| && InBlock(lines, o, l) && OpenedBy(lines[o], s.fence)
    ensures FenceOf(lines, l + 1, AfterLine(s, lines[l], l + 1, repos).fence)
  {
    EndsIff(lines[o], lines[l]);
    if Ends(lines[o], lines[l]) {
      LeavesBlock(lines, o, l);
    } else {
      StaysInBlock(lines, o, l);
      FenceKept(s, lines[l], l + 1, repos);
    }
  }

  lemma FenceKept(s: Scan, raw: string, number: nat, repos: seq<string>)
    requires !s.fence.Outside?
    requires var marker := ParseMarker(Trim(raw)); marker.None? || !Closes(marker.value.0, s.fence.opener)
    ensures var t := AfterLine(s, raw, number, repos);
      && t.block == s.block && t.started == s.started
      && !t.fence.Outside? && t.fence.opener == s.fence.opener && (t.fence.Shell? <==> s.fence.Shell?)
  {
  }

  lemma LineOutside(lines: seq<string>, l: nat, s: Scan, repos: seq<string>)
    requires l < |lines| && Free(lines, l) && s.fence.Outside?
    ensures FenceOf(lines, l + 1, AfterLine(s, lines[l], l + 1, repos).fence)
  {
    OpensIff(lines[l]);
    EntersBlock(lines, l);
  }

  lemma {:induction false} FenceIs(lines: seq<string>, l: nat, repos: seq<string>)
    requires l <= |lines|
    ensures FenceOf(lines, l, AfterLines(lines[..l], repos).fence)
  {
    if l > 0 {
      FenceIs(lines, l - 1, repos);
      assert lines[..l][..l - 1] == lines[..l - 1];
      var s := AfterLines(lines[..l - 1], repos);
      if s.fence.Outside? {
        LineOutside(lines, l - 1, s, repos);
      } else {
        var o: nat :| InBlock(lines, o, l - 1) && OpenedBy(lines[o], s.fence);
        LineInBlock(lines, o, l - 1, s, repos);
      }
    }
  }

  /** Line `l` holds commands of the shell block that line `o` opens. */
  ghost predicate HoldsCommands(lines: seq<string>, o: nat, l: nat)
    requires l < |lines|
  {
    InBlock(lines, o, l) && OpensShell(lines[o]) && !Ends(lines[o], lines[l])
  }

  /** The scan reads as commands exactly the lines of shell blocks. */
  lemma CommandLinesAre(lines: seq<string>, l: nat, repos: seq<string>)
    requires l < |lines|
    ensures IsCommandLine(AfterLines(lines[..l], repos), lines[l]) <==> exists o :: HoldsCommands(lines, o, l)
  {
    var fence := AfterLines(lines[..l], repos).fence;
    FenceIs(lines, l, repos);
    if !fence.Outside? {
      var o: nat :| InBlock(lines, o, l) && OpenedBy(lines[o], fence);
      EndsIff(lines[o], lines[l]);
      if p: nat :| HoldsCommands(lines, p, l) {
        OneBlock(lines, o, p, l);
      }
      assert IsCommandLine(AfterLines(lines[..l], repos), lines[l]) ==> HoldsCommands(lines, o, l);
    }
  }

  // ----- their numbers -----

  ghost predicate BeginsShell(lines: seq<string>, o: nat)
    requires o < |lines|
  {
    OpensShell(lines[o]) && Free(lines, o)
  }

  /** How many shell blocks begin on the first `l` lines. */
  ghost function ShellBlocks(lines: seq<string>, l: nat): nat
    requires l <= |lines|
  {
    if l == 0 then 0 else ShellBlocks(lines, l - 1) + if BeginsShell(lines, l - 1) then 1 else 0
  }

  ghost predicate Numbered(lines: seq<string>, l: nat, s: Scan)
    requires l <= |lines|
  {
    ShellBlocks(lines, l) == if s.started then s.block + 1 else 0
  }

  lemma OutsideNumbered(s: Scan, raw: string, number: nat, repos: seq<string>)
    requires s.fence.Outside?
    ensures var t := AfterLine(s, raw, number, repos);
      if OpensShell(raw) then t.started && t.block == (if s.started then s.block + 1 else s.block)
      else t.started == s.started && t.block == s.block
  {
    OpensIff(raw);
  }

  lemma InsideNumbered(s: Scan, raw: string, number: nat, repos: seq<string>)
    requires !s.fence.Outside?
    ensures var t := AfterLine(s, raw, number, repos);
      t.started == s.started && t.block == s.block
  {
  }

  lemma LineNumbered(lines: seq<string>, l: nat, s: Scan, repos: seq<string>)
    requires l < |lines| && FenceOf(lines, l, s.fence) && Numbered(lines, l, s) && (!s.started ==> s.block == 0)
    ensures var t := AfterLine(s, lines[l], l + 1, repos);
      Numbered(lines, l + 1, t) && (!t.started ==> t.block == 0)
  {
    if s.fence.Outside? {
      OutsideNumbered(s, lines[l], l + 1, repos);
    } else {
      InsideNumbered(s, lines[l], l + 1, repos);
      assert !Free(lines, l);
    }
  }

  lemma {:induction false} BlocksNumbered(lines: seq<string>, l: nat, repos: seq<string>)
    requires l <= |lines|
    ensures var s := AfterLines(lines[..l], repos);
      Numbered(lines, l, s) && (!s.started ==> s.block == 0)
  {
    if l > 0 {
      BlocksNumbered(lines, l - 1, repos);
      FenceIs(lines, l - 1, repos);
      assert lines[..l][..l - 1] == lines[..l - 1];
      LineNumbered(lines, l - 1, AfterLines(lines[..l - 1], repos), repos);
    }
  }

  /** In a block no other begins. */
  lemma {:induction false} SameNumber(lines: seq<string>, o: nat, l: nat)
    requires l <= |lines| && InBlock(lines, o, l) && OpensShell(lines[o])
    ensures ShellBlocks(lines, l) == ShellBlocks(lines, o) + 1
  {
    if l == o + 1 {
      assert Free(lines, o);
    } else {
      assert InBlock(lines, o, l - 1);
      SameNumber(lines, o, l - 1);
      assert !Free(lines, l - 1);
    }
  }

  /** A command's block number is that of the block its line stands in, counted from zero. */
  ghost predicate StandsRight(lines: seq<string>, x: ShellCommand)
  {
    && 0 < x.line <= |lines|
    && exists o: nat :: HoldsCommands(lines, o, x.line - 1) && x.block == ShellBlocks(lines, o)
  }

  lemma OtherLinesSilent(s: Scan, raw: string, number: nat, repos: seq<string>)
    requires !IsCommandLine(s, raw)
    ensures AfterLine(s, raw, number, repos).commands == s.commands
  {
  }

  lemma CommandLineAdds(s: Scan, raw: string, number: nat, repos: seq<string>)
    requires IsCommandLine(s, raw)
    ensures var t := AfterLine(s, raw, number, repos);
      && t.commands == s.commands + t.commands[|s.commands|..]
      && AllOf(t.commands[|s.commands|..], number, s.block)
  {
    var (cwd, more) := AfterSegments(s.fence.cwd, SegmentsOf(Trim(raw)), number, s.block, repos);
    SegmentsInBlock(s.fence.cwd, SegmentsOf(Trim(raw)), number, s.block, repos);
    assert (s.commands + more)[|s.commands|..] == more;
  }

  lemma BlockOfLine(lines: seq<string>, o: nat, l: nat, repos: seq<string>)
    requires l < |lines| && HoldsCommands(lines, o, l)
    ensures AfterLines(lines[..l], repos).block == ShellBlocks(lines, o)
  {
    BlocksNumbered(lines, l, repos);
    SameNumber(lines, o, l);
  }

  lemma TextStandsRight(lines: seq<string>, l: nat, repos: seq<string>)
    requires l < |lines|
    ensures var s, t := AfterLines(lines[..l], repos).commands, AfterLines(lines[..l + 1], repos).commands;
      |s| <= |t| && t[..|s|] == s && forall x :: x in t[|s|..] ==> StandsRight(lines, x)
  {
    assert lines[..l + 1][..l] == lines[..l];
    var s := AfterLines(lines[..l], repos);
    if IsCommandLine(s, lines[l]) {
      CommandLinesAre(lines, l, repos);
      var o: nat :| HoldsCommands(lines, o, l);
      BlockOfLine(lines, o, l, repos);
      CommandLineAdds(s, lines[l], l + 1, repos);
    } else {
      OtherLinesSilent(s, lines[l], l + 1, repos);
    }
  }

  /** Every command reported stands on a line of a shell block and carries that block's number. */
  lemma {:induction false} CommandsStandRight(lines: seq<string>, l: nat, repos: seq<string>)
    requires l <= |lines|
    ensures forall x :: x in AfterLines(lines[..l], repos).commands ==> StandsRight(lines, x)
  {
    if l > 0 {
      CommandsStandRight(lines, l - 1, repos);
      TextStandsRight(lines, l - 1, repos);
      var s, t := AfterLines(lines[..l - 1], repos).commands, AfterLines(lines[..l], repos).commands;
      assert t == t[..|s|] + t[|s|..];
    }
  }
}
