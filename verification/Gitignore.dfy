/** Keeping the hall's lines in a `.gitignore` that the user also writes in. */
module Gitignore {
  import opened Results
  import opened Text

  datatype Changed = Created | Yes | No

  /** The file after making sure of one line. */
  function WithLine(content: string, line: string): string
  {
    if line in Lines(content) then content
    else content + (if content != "" && !EndsWith(content, "\n") then "\n" else "") + line + "\n"
  }

  function WithLines(content: string, lines: seq<string>): string
    decreases |lines|
  {
    if lines == [] then content else WithLines(WithLine(content, lines[0]), lines[1..])
  }

  /** The lines that are not among those present, each once, in order. */
  function Missing(present: seq<string>, lines: seq<string>): seq<string>
    decreases |lines|
  {
    if lines == [] then []
    else if lines[0] in present then Missing(present, lines[1..])
    else [lines[0]] + Missing(present + [lines[0]], lines[1..])
  }

  /** What the loop does with a line that is missing. */
  method Append(was: string, line: string) returns (content: string)
    requires line !in Lines(was)
    ensures content == WithLine(was, line)
  {
    content := was;
    if content != "" && !EndsWith(content, "\n") {
      content := content + "\n";
    }
    content := content + line;
    content := content + "\n";
  }

  class IgnoreFile {
    var file: Option<string>

    constructor (file: Option<string>)
      ensures this.file == file
    {
      this.file := file;
    }

    method Ensure(lines: seq<string>) returns (r: Changed)
      modifies this
      ensures var was := if old(file).Some? then old(file).value else "";
        && file == Some(WithLines(was, lines))
        && r == if old(file).None? then Created else if file == old(file) then No else Yes
    {
      var original := file;
      var content := if original.Some? then original.value else "";
      ghost var was := content;
      assert lines[0..] == lines;
      for i := 0 to |lines|
        invariant file == original
        invariant WithLines(content, lines[i..]) == WithLines(was, lines)
      {
        assert lines[i..][1..] == lines[i + 1..];
        if lines[i] in Lines(content) {
          continue;
        }
        content := Append(content, lines[i]);
      }
      assert lines[|lines|..] == [];
      if original == Some(content) {
        return No;
      }
      file := Some(content);
      r := if original.None? then Created else Yes;
    }
  }

  // ----- lines of a text that grows at its end -----

  /** The same text with its last line ended. */
  function Closed(content: string): string
  {
    if content != "" && !EndsWith(content, "\n") then content + "\n" else content
  }

  lemma ClosedIsEnded(content: string)
    ensures Ended(Closed(content)) && content <= Closed(content)
    ensures Ended(content) ==> Closed(content) == content
  {
    if content != "" {
      assert EndsWith(content, "\n") <==> content[|content| - 1] == '\n' by {
        assert content[|content| - 1..] == [content[|content| - 1]];
      }
    }
  }

  lemma LinesOfOne(line: string)
    requires '\n' !in line
    ensures Lines(line + "\n") == [StripCr(line)]
  {
    LinesCons(line, "\n", "");
    assert line + "\n" + "" == line + "\n";
  }

  /** The lines with the last one stripped of a carriage return, as when a newline comes to stand after it. */
  function LastStripped(lines: seq<string>): seq<string>
  {
    if lines == [] then [] else lines[..|lines| - 1] + [StripCr(lines[|lines| - 1])]
  }

  lemma LinesOfUnended(content: string)
    requires '\n' !in content && content != ""
    ensures Lines(content) == [content]
  {
    assert content[..|content|] == content;
    FindIs(content, '\n', |content|);
  }

  lemma {:induction false} LinesOfClosed(content: string)
    requires !Ended(content)
    ensures Lines(content) != [] && Lines(content + "\n") == LastStripped(Lines(content))
    ensures var last := Lines(content)[|Lines(content)| - 1];
      last != "" && last[|last| - 1] == content[|content| - 1]
    decreases |content|
  {
    if '\n' in content {
      var head, more := EndsAtNewline(content);
      LinesOfClosed(more);
      Regrouped(head, more, "\n");
      LinesCons(head, "\n", more + "\n");
      StrippedCons(StripCr(head), Lines(more));
    } else {
      LinesOfUnended(content);
      LinesOfOne(content);
    }
  }

  lemma StrippedCons(line: string, lines: seq<string>)
    requires lines != []
    ensures LastStripped([line] + lines) == [line] + LastStripped(lines)
  {
  }

  // ----- what the lines become -----

  /** No carriage return stands bare at the end of the file. */
  predicate NoBareReturn(content: string)
  {
    content == "" || content[|content| - 1] != '\r'
  }

  ghost predicate Plain(lines: seq<string>)
  {
    forall i :: 0 <= i < |lines| ==> PlainLine(lines[i])
  }

  /** The lines that stand once the last one is ended. */
  function LinesKept(content: string): seq<string>
  {
    if Ended(content) then Lines(content) else LastStripped(Lines(content))
  }

  lemma ClosedLines(content: string)
    ensures Lines(Closed(content)) == LinesKept(content)
  {
    ClosedIsEnded(content);
    if !Ended(content) {
      LinesOfClosed(content);
      assert Closed(content) == content + "\n" by {
        assert content[|content| - 1..] == [content[|content| - 1]];
      }
    }
  }

  lemma WithLineIs(content: string, line: string)
    requires line !in Lines(content)
    ensures WithLine(content, line) == Closed(content) + (line + "\n")
  {
  }

  /** Adding one absent line: the lines there were, and the new one. */
  lemma WithLineLines(content: string, line: string)
    requires PlainLine(line) && line !in Lines(content)
    ensures content <= WithLine(content, line) && |content| < |WithLine(content, line)|
    ensures Ended(WithLine(content, line))
    ensures Lines(WithLine(content, line)) == LinesKept(content) + [line]
  {
    ClosedIsEnded(content);
    WithLineIs(content, line);
    LinesOfEnded(Closed(content), line + "\n");
    ClosedLines(content);
    LinesOfOne(line);
  }

  lemma NothingStripped(content: string)
    requires Ended(content) || NoBareReturn(content)
    ensures LinesKept(content) == Lines(content)
  {
    if !Ended(content) {
      LinesOfClosed(content);
    }
  }

  lemma WithLinesStep(content: string, lines: seq<string>)
    requires lines != []
    ensures WithLines(content, lines) == WithLines(WithLine(content, lines[0]), lines[1..])
  {
  }

  lemma MissingStep(present: seq<string>, lines: seq<string>)
    requires lines != [] && lines[0] !in present
    ensures present + Missing(present, lines) == (present + [lines[0]]) + Missing(present + [lines[0]], lines[1..])
  {
  }

  lemma {:induction false} EndedGrows(content: string, lines: seq<string>)
    requires (Ended(content) || NoBareReturn(content)) && Plain(lines)
    ensures content <= WithLines(content, lines)
    ensures Lines(WithLines(content, lines)) == Lines(content) + Missing(Lines(content), lines)
    decreases |lines|
  {
    if lines != [] {
      WithLinesStep(content, lines);
      if lines[0] in Lines(content) {
        EndedGrows(content, lines[1..]);
      } else {
        WithLineLines(content, lines[0]);
        NothingStripped(content);
        MissingStep(Lines(content), lines);
        EndedGrows(WithLine(content, lines[0]), lines[1..]);
      }
    } else {
      assert Lines(content) + [] == Lines(content);
    }
  }

  lemma {:induction false} NothingMissing(present: seq<string>, lines: seq<string>)
    ensures Missing(present, lines) == [] <==> forall i :: 0 <= i < |lines| ==> lines[i] in present
    decreases |lines|
  {
    if lines != [] {
      NothingMissing(present, lines[1..]);
      assert lines == [lines[0]] + lines[1..];
    }
  }

  /** The text grows at its end, and the lines it had stand first, the last one ended. */
  lemma {:induction false} WithLinesPrefix(content: string, lines: seq<string>)
    requires Plain(lines)
    ensures content <= WithLines(content, lines)
    ensures WithLines(content, lines) == content || LinesKept(content) <= Lines(WithLines(content, lines))
    decreases |lines|
  {
    if lines != [] {
      WithLinesStep(content, lines);
      if lines[0] in Lines(content) {
        WithLinesPrefix(content, lines[1..]);
      } else {
        WithLineLines(content, lines[0]);
        EndedGrows(WithLine(content, lines[0]), lines[1..]);
      }
    }
  }

  /** The user's text stays as it is, byte for byte, at the start of the file. */
  lemma OriginalIsPrefix(content: string, lines: seq<string>)
    requires Plain(lines)
    ensures content <= WithLines(content, lines)
  {
    WithLinesPrefix(content, lines);
  }

  lemma {:induction false} UnchangedWhenPresent(content: string, lines: seq<string>)
    requires forall i :: 0 <= i < |lines| ==> lines[i] in Lines(content)
    ensures WithLines(content, lines) == content
    decreases |lines|
  {
    if lines != [] {
      UnchangedWhenPresent(content, lines[1..]);
    }
  }

  lemma GrowsWhenAbsent(content: string, lines: seq<string>)
    requires Plain(lines) && lines != [] && lines[0] !in Lines(content)
    ensures |content| < |WithLines(content, lines)|
  {
    WithLinesStep(content, lines);
    WithLineLines(content, lines[0]);
    WithLinesPrefix(WithLine(content, lines[0]), lines[1..]);
  }

  lemma {:induction false} ChangedWhenAbsent(content: string, lines: seq<string>)
    requires Plain(lines) && WithLines(content, lines) == content
    ensures forall i :: 0 <= i < |lines| ==> lines[i] in Lines(content)
    decreases |lines|
  {
    if lines != [] {
      if lines[0] !in Lines(content) {
        GrowsWhenAbsent(content, lines);
      }
      ChangedWhenAbsent(content, lines[1..]);
      assert lines == [lines[0]] + lines[1..];
    }
  }

  /**
   * The file's lines are the old ones and then just the missing ones, exactly when nothing is missing or no bare
   * carriage return stands at the end.
   */
  lemma OnlyMissingAdded(content: string, lines: seq<string>)
    requires Plain(lines)
    ensures Lines(WithLines(content, lines)) == Lines(content) + Missing(Lines(content), lines)
      <==> Missing(Lines(content), lines) == [] || NoBareReturn(content)
  {
    var missing := Missing(Lines(content), lines);
    NothingMissing(Lines(content), lines);
    if missing == [] {
      UnchangedWhenPresent(content, lines);
    } else if Ended(content) || NoBareReturn(content) {
      EndedGrows(content, lines);
    } else {
      WithLinesPrefix(content, lines);
      LinesOfClosed(content);
      if WithLines(content, lines) == content {
        ChangedWhenAbsent(content, lines);
      } else {
        var n := |Lines(content)|;
        var was, now := Lines(content), Lines(WithLines(content, lines));
        assert now[n - 1] == LastStripped(was)[n - 1] == StripCr(was[n - 1]) != was[n - 1];
        assert (was + missing)[n - 1] == was[n - 1];
      }
    }
  }

  lemma LineStaysOnce(content: string, line: string, added: string)
    requires PlainLine(line) && PlainLine(added) && line in Lines(content)
    ensures line in Lines(WithLine(content, added))
  {
    if added !in Lines(content) {
      WithLineLines(content, added);
      KeptIn(Lines(content), line);
      assert line in LinesKept(content) ==> line in LinesKept(content) + [added];
    }
  }

  lemma KeptIn(lines: seq<string>, line: string)
    requires PlainLine(line) && line in lines
    ensures line in LastStripped(lines)
  {
    var i :| 0 <= i < |lines| && lines[i] == line;
    assert StripCr(line) == line;
    assert LastStripped(lines)[i] == line;
  }

  lemma {:induction false} LineStays(content: string, line: string, lines: seq<string>)
    requires PlainLine(line) && Plain(lines) && line in Lines(content)
    ensures line in Lines(WithLines(content, lines))
    decreases |lines|
  {
    if lines != [] {
      WithLinesStep(content, lines);
      LineStaysOnce(content, line, lines[0]);
      LineStays(WithLine(content, lines[0]), line, lines[1..]);
    }
  }

  lemma LinePresent(content: string, line: string)
    requires PlainLine(line)
    ensures line in Lines(WithLine(content, line))
  {
    if line !in Lines(content) {
      WithLineLines(content, line);
      assert line in LinesKept(content) + [line];
    }
  }

  /** Every required line ends up as a line of its own. */
  lemma {:induction false} AllPresent(content: string, lines: seq<string>)
    requires Plain(lines)
    ensures forall i :: 0 <= i < |lines| ==> lines[i] in Lines(WithLines(content, lines))
    decreases |lines|
  {
    if lines != [] {
      WithLinesStep(content, lines);
      LinePresent(content, lines[0]);
      LineStays(WithLine(content, lines[0]), lines[0], lines[1..]);
      AllPresent(WithLine(content, lines[0]), lines[1..]);
      assert lines == [lines[0]] + lines[1..];
    }
  }

  /** A second call changes nothing. */
  lemma SecondCallIsIdle(content: string, lines: seq<string>)
    requires Plain(lines)
    ensures WithLines(WithLines(content, lines), lines) == WithLines(content, lines)
  {
    AllPresent(content, lines);
    UnchangedWhenPresent(WithLines(content, lines), lines);
  }
}
