/** Setting `notify` in an agent's front matter. */
module AgentNotify {
  import opened Frontmatter
  import opened Results
  import opened Text

  const NOTIFY := "notify:"

  function NotifyAt(lines: seq<string>): (k: nat)
    ensures k <= |lines|
    ensures forall i :: 0 <= i < k ==> !StartsWith(lines[i], NOTIFY)
    ensures k < |lines| ==> StartsWith(lines[k], NOTIFY)
  {
    if lines == [] || StartsWith(lines[0], NOTIFY) then 0
    else
      assert forall i :: 1 <= i < |lines| ==> lines[i] == lines[1..][i - 1];
      NotifyAt(lines[1..]) + 1
  }

  function NotifyLine(value: string): string
  {
    NOTIFY + " " + value
  }

  function EditedLines(lines: seq<string>, value: string): seq<string>
  {
    var k := NotifyAt(lines);
    if k < |lines| then lines[k := NotifyLine(value)] else lines + [NotifyLine(value)]
  }

  function NewlineOf(source: string): string
  {
    if StartsWith(source, "---\r\n") then "\r\n" else "\n"
  }

  function Notified(source: string, value: string): Result<string, Failure>
  {
    var split := Splitted(source);
    if split.Err? then Err(split.error)
    else if split.value.block.None? then Err(NoFrontmatter)
    else
      var end := NewlineOf(source);
      var lines := EditedLines(Lines(split.value.block.value), value);
      Ok(FENCE + end + (Terminated(lines, end) + FENCE + end + split.value.body))
  }

  lemma Reassociated(end: string, block: string, body: string)
    ensures "---" + end + block + end + "---" + end + body == FENCE + end + ((block + end) + FENCE + end + body)
  {
  }

  method WithNotify(source: string, value: string) returns (r: Result<string, Failure>)
    ensures r == Notified(source, value)
  {
    var split := Frontmatter.Split(source);
    if split.Err? {
      return Err(split.error);
    }
    if split.value.block.None? {
      return Err(NoFrontmatter);
    }
    var newline := if StartsWith(source, "---\r\n") then "\r\n" else "\n";
    var line := "notify: " + value;
    assert line == NotifyLine(value);
    var lines := Lines(split.value.block.value);
    var k := NotifyAt(lines);
    if k < |lines| {
      lines := lines[k := line];
    } else {
      lines := lines + [line];
    }
    var block := Join(lines, newline);
    JoinTerminates(lines, newline);
    Reassociated(newline, block, split.value.body);
    r := Ok("---" + newline + block + newline + "---" + newline + split.value.body);
  }

  /** The line ends chosen for the file give every line back as it was written. */
  predicate Survive(lines: seq<string>, end: string)
  {
    forall i :: 0 <= i < |lines| ==>
      '\n' !in lines[i] && (end == "\n" ==> StripCr(lines[i]) == lines[i])
  }

  lemma {:induction false} SurvivorsRead(lines: seq<string>, end: string)
    requires LineEnd(end) && Survive(lines, end)
    ensures Lines(Terminated(lines, end)) == lines
  {
    if lines != [] {
      var tail := Terminated(lines[1..], end);
      assert Survive(lines[1..], end) by {
        assert forall i :: 0 <= i < |lines| - 1 ==> lines[1..][i] == lines[i + 1];
      }
      SurvivorsRead(lines[1..], end);
      LinesCons(lines[0], end, tail);
      assert [lines[0]] + lines[1..] == lines;
    }
  }

  lemma {:induction false} TerminatedEnds(lines: seq<string>, end: string)
    requires LineEnd(end) && lines != []
    ensures var text := Terminated(lines, end); text != "" && text[|text| - 1] == '\n'
  {
    if |lines| > 1 {
      TerminatedEnds(lines[1..], end);
    } else {
      assert Terminated(lines[1..], end) == "";
    }
  }

  lemma EditedHasNoFence(lines: seq<string>, value: string)
    requires FENCE !in lines
    ensures FENCE !in EditedLines(lines, value)
  {
    assert NotifyLine(value)[0] == 'n';
  }

  lemma BlockLines(source: string)
    requires Splitted(source).Ok? && Splitted(source).value.block.Some?
    ensures FENCE !in Lines(Splitted(source).value.block.value)
  {
    var first, second := SplitIsLossless(source);
  }

  /** What a reader of the edited file should see: the edited lines above the same body. */
  ghost predicate Shows(out: string, lines: seq<string>, body: string)
  {
    && Splitted(out).Ok? && Splitted(out).value.block.Some?
    && Lines(Splitted(out).value.block.value) == lines && Splitted(out).value.body == body
  }

  /** The edited file is a document with the edited lines and the old body. */
  lemma NotifiedIsDocument(source: string, value: string)
    requires Notified(source, value).Ok?
    requires Survive(EditedLines(Lines(Splitted(source).value.block.value), value), NewlineOf(source))
    ensures var lines, end := EditedLines(Lines(Splitted(source).value.block.value), value), NewlineOf(source);
      && IsDocument(Notified(source, value).value, end, Terminated(lines, end), end, Splitted(source).value.body)
      && Lines(Terminated(lines, end)) == lines
  {
    var lines, end := EditedLines(Lines(Splitted(source).value.block.value), value), NewlineOf(source);
    BlockLines(source);
    EditedHasNoFence(Lines(Splitted(source).value.block.value), value);
    SurvivorsRead(lines, end);
    TerminatedEnds(lines, end);
  }

  /** What is taken of written lines: all of them stripped, or fewer when one reads as a fence. */
  ghost predicate TakenOf(block: string, lines: seq<string>)
  {
    Lines(block) == StripEach(lines) || |Lines(block)| < |lines|
  }

  lemma TakenLinesCons(line: string, lines: seq<string>, block: string)
    requires '\n' !in line && TakenOf(block, lines)
    ensures TakenOf(line + "\n" + block, [line] + lines)
  {
    LinesCons(line, "\n", block);
    StripEachCons(line, lines);
  }

  /** Written lines are taken up to the first that reads as a fence, or all of them. */
  lemma {:induction false} TakenFromLines(lines: seq<string>, rest: string, body: string)
    returns (block: string, after: string)
    requires forall i :: 0 <= i < |lines| ==> '\n' !in lines[i]
    requires TakeBlock(rest) == Some(("", body))
    ensures TakeBlock(Terminated(lines, "\n") + rest) == Some((block, after)) && TakenOf(block, lines)
  {
    if lines == [] {
      assert Terminated(lines, "\n") + rest == rest;
      block, after := "", body;
    } else {
      var line, tail := lines[0], Terminated(lines[1..], "\n") + rest;
      TerminatedCons(lines, "\n", rest);
      TakeCons(line, tail);
      if StripCr(line) == FENCE {
        block, after := "", tail;
      } else {
        var later;
        later, after := TakenFromLines(lines[1..], rest, body);
        block := line + "\n" + later;
        TakenLinesCons(line, lines[1..], later);
        assert [line] + lines[1..] == lines;
      }
    }
  }

  lemma FencedSplits(text: string, block: string, body: string)
    requires TakeBlock(text) == Some((block, body))
    ensures Splitted(FENCE + "\n" + text) == Ok(Parts(Some(block), body))
  {
    FirstFence("\n", text);
  }

  lemma StrayReturnLost(lines: seq<string>, body: string, after: string)
    requires forall i :: 0 <= i < |lines| ==> '\n' !in lines[i]
    requires after == Terminated(lines, "\n") + (FENCE + "\n" + body)
    ensures Shows(FENCE + "\n" + after, lines, body) ==> StripEach(lines) == lines
  {
    FenceTaken("\n", body);
    var block, left := TakenFromLines(lines, FENCE + "\n" + body, body);
    FencedSplits(after, block, left);
  }

  lemma StrippedWhenEqual(lines: seq<string>)
    requires StripEach(lines) == lines
    ensures forall i :: 0 <= i < |lines| ==> StripCr(lines[i]) == lines[i]
  {
    assert forall i :: 0 <= i < |lines| ==> StripEach(lines)[i] == StripCr(lines[i]);
  }

  lemma SurvivorsShow(source: string, value: string, lines: seq<string>)
    requires Notified(source, value).Ok?
    requires lines == EditedLines(Lines(Splitted(source).value.block.value), value)
    requires Survive(lines, NewlineOf(source))
    ensures Shows(Notified(source, value).value, lines, Splitted(source).value.body)
  {
    var end := NewlineOf(source);
    NotifiedIsDocument(source, value);
    DocumentSplits(Notified(source, value).value, end, Terminated(lines, end), end, Splitted(source).value.body);
  }

  lemma TailRegrouped(text: string, fence: string, end: string, body: string)
    ensures text + fence + end + body == text + (fence + end + body)
  {
  }

  lemma ShownSurvive(out: string, lines: seq<string>, body: string, end: string)
    requires LineEnd(end) && out == FENCE + end + (Terminated(lines, end) + FENCE + end + body)
    requires Shows(out, lines, body)
    ensures Survive(lines, end)
  {
    LinesHaveNoNewline(Splitted(out).value.block.value);
    if end == "\n" {
      TailRegrouped(Terminated(lines, end), FENCE, end, body);
      StrayReturnLost(lines, body, Terminated(lines, "\n") + (FENCE + "\n" + body));
      StrippedWhenEqual(lines);
    }
  }

  /** Setting `notify` keeps every other line and the body exactly when the lines survive the chosen line end. */
  lemma NotifyKeepsTheRest(source: string, value: string)
    requires Notified(source, value).Ok?
    ensures var lines := EditedLines(Lines(Splitted(source).value.block.value), value);
      Shows(Notified(source, value).value, lines, Splitted(source).value.body) <==> Survive(lines, NewlineOf(source))
  {
    var out, body := Notified(source, value).value, Splitted(source).value.body;
    var lines := EditedLines(Lines(Splitted(source).value.block.value), value);
    if Survive(lines, NewlineOf(source)) {
      SurvivorsShow(source, value, lines);
    } else if Shows(out, lines, body) {
      ShownSurvive(out, lines, body, NewlineOf(source));
    }
  }

  lemma NewlineKept(end: string, rest: string)
    requires LineEnd(end)
    ensures NewlineOf(FENCE + end + rest) == end
  {
    var s := FENCE + end + rest;
    assert |s| >= 5 ==> s[..5][3] == s[3];
    if end == "\n" {
      assert s[3] == '\n';
    } else {
      assert s[..5] == "---\r\n";
    }
  }

  // ----- setting the same value again -----

  lemma NotifyLineFacts(value: string)
    ensures StartsWith(NotifyLine(value), NOTIFY) && StartsWith(StripCr(NotifyLine(value)), NOTIFY)
    ensures StripCr(NotifyLine(value)) != FENCE && ('\n' in NotifyLine(value) <==> '\n' in value)
  {
    var line := NotifyLine(value);
    assert line[..7] == NOTIFY && StripCr(line)[..7] == NOTIFY;
    assert StripCr(line)[0] == 'n';
  }

  lemma NotifyIsAt(lines: seq<string>, k: nat)
    requires k < |lines| && StartsWith(lines[k], NOTIFY) && forall i :: 0 <= i < k ==> !StartsWith(lines[i], NOTIFY)
    ensures NotifyAt(lines) == k
  {
  }

  lemma StrippedStarts(line: string)
    ensures StartsWith(StripCr(line), NOTIFY) ==> StartsWith(line, NOTIFY)
  {
    if StartsWith(StripCr(line), NOTIFY) {
      assert StripCr(line)[..7] == line[..7];
    }
  }

  /** The first `notify` line is the same whether or not stray carriage returns are stripped. */
  lemma StrippedNotifyAt(lines: seq<string>, k: nat)
    requires k < |lines| && StartsWith(StripCr(lines[k]), NOTIFY)
    requires forall i :: 0 <= i < k ==> !StartsWith(lines[i], NOTIFY)
    ensures NotifyAt(StripEach(lines)) == k
  {
    forall i | 0 <= i < k ensures !StartsWith(StripEach(lines)[i], NOTIFY) {
      StrippedStarts(lines[i]);
    }
    NotifyIsAt(StripEach(lines), k);
  }

  lemma EditedAt(lines: seq<string>, value: string)
    ensures var edited, k := EditedLines(lines, value), NotifyAt(lines);
      && k < |edited| && edited[k] == NotifyLine(value)
      && (forall i :: 0 <= i < |edited| && i != k ==> i < |lines| && edited[i] == lines[i])
      && (forall i :: 0 <= i < k ==> !StartsWith(edited[i], NOTIFY))
  {
  }

  /** No line breaks, and with plain line ends no line but the set one has a stray carriage return. */
  ghost predicate Settles(lines: seq<string>, value: string, end: string)
  {
    && '\n' !in value
    && (end == "\n" ==> forall i :: 0 <= i < |lines| && i != NotifyAt(lines) ==> StripCr(lines[i]) == lines[i])
  }

  /** The lines that a reader sees of lines that were written. */
  ghost function ReadBack(lines: seq<string>, end: string): seq<string>
  {
    if end == "\n" then StripEach(lines) else lines
  }

  lemma LinesReadBack(lines: seq<string>, end: string)
    requires LineEnd(end) && forall i :: 0 <= i < |lines| ==> '\n' !in lines[i]
    ensures Lines(Terminated(lines, end)) == ReadBack(lines, end)
  {
    if end == "\n" {
      LinesStripped(lines);
    } else {
      SurvivorsRead(lines, end);
    }
  }

  /** Editing what is read of the edited lines gives the edited lines. */
  lemma SettledAgain(lines: seq<string>, value: string, end: string)
    requires LineEnd(end) && Settles(lines, value, end) && FENCE !in lines
    ensures var edited := EditedLines(lines, value);
      EditedLines(ReadBack(edited, end), value) == edited && FENCE !in ReadBack(edited, end)
  {
    var edited, k := EditedLines(lines, value), NotifyAt(lines);
    EditedAt(lines, value);
    NotifyLineFacts(value);
    EditedHasNoFence(lines, value);
    if end == "\n" {
      StrippedNotifyAt(edited, k);
      assert forall i :: 0 <= i < |edited| && i != k ==> StripEach(edited)[i] == edited[i];
      assert StripEach(edited)[k := NotifyLine(value)] == edited;
    } else {
      assert edited[k := NotifyLine(value)] == edited;
      assert NotifyAt(edited) == k;
    }
  }

  lemma EditedHasNoBreak(lines: seq<string>, value: string)
    requires '\n' !in value && forall i :: 0 <= i < |lines| ==> '\n' !in lines[i]
    ensures forall i :: 0 <= i < |EditedLines(lines, value)| ==> '\n' !in EditedLines(lines, value)[i]
  {
    NotifyLineFacts(value);
  }

  lemma SettledIsIdempotent(source: string, value: string, lines: seq<string>)
    requires Notified(source, value).Ok? && lines == Lines(Splitted(source).value.block.value)
    requires Settles(lines, value, NewlineOf(source))
    ensures Notified(Notified(source, value).value, value) == Notified(source, value)
  {
    var out, body, end := Notified(source, value).value, Splitted(source).value.body, NewlineOf(source);
    var edited := EditedLines(lines, value);
    BlockLines(source);
    LinesHaveNoNewline(Splitted(source).value.block.value);
    EditedHasNoBreak(lines, value);
    LinesReadBack(edited, end);
    SettledAgain(lines, value, end);
    EditedAt(lines, value);
    TerminatedEnds(edited, end);
    DocumentSplits(out, end, Terminated(edited, end), end, body);
    NewlineKept(end, Terminated(edited, end) + FENCE + end + body);
  }

  // ----- what setting it again takes -----

  /** How many newlines a text has. */
  function Newlines(s: string): nat
  {
    if s == "" then 0 else (if s[0] == '\n' then 1 else 0) + Newlines(s[1..])
  }

  lemma {:induction false} NewlinesConcat(a: string, b: string)
    ensures Newlines(a + b) == Newlines(a) + Newlines(b)
  {
    if a == "" {
      assert a + b == b;
    } else {
      assert (a + b)[1..] == a[1..] + b;
      NewlinesConcat(a[1..], b);
    }
  }

  lemma {:induction false} NewlinesIff(s: string)
    ensures Newlines(s) > 0 <==> '\n' in s
  {
    if s != "" {
      NewlinesIff(s[1..]);
    }
  }

  lemma FewNewlines()
    ensures Newlines("\n") == 1 && Newlines("\r\n") == 1 && Newlines("") == 0 && Newlines(FENCE) == 0
  {
    assert "\n"[1..] == "" && "\r\n"[1..] == "\n";
    NewlinesIff(FENCE);
  }

  lemma EndNewlines(end: string)
    requires LineEnd(end)
    ensures Newlines(end) == 1
  {
    FewNewlines();
  }

  lemma {:induction false} BlockNewlines(block: string)
    requires Ended(block)
    ensures Newlines(block) == |Lines(block)|
    decreases |block|
  {
    if block != "" {
      assert block[|block| - 1] in block;
      var head, more := CutLine(block);
      BlockNewlines(more);
      LinesCons(head, "\n", more);
      NewlinesConcat(head + "\n", more);
      NewlinesConcat(head, "\n");
      NewlinesIff(head);
      FewNewlines();
    }
  }

  lemma {:induction false} TerminatedNewlines(lines: seq<string>, end: string, k: nat)
    requires LineEnd(end) && k <= |lines|
    ensures Newlines(Terminated(lines, end)) >= |lines| + if k < |lines| then Newlines(lines[k]) else 0
  {
    if lines != [] {
      TerminatedNewlines(lines[1..], end, if k == 0 then |lines| - 1 else k - 1);
      NewlinesConcat(lines[0] + end, Terminated(lines[1..], end));
      NewlinesConcat(lines[0], end);
      EndNewlines(end);
    }
  }

  /** A part of the written text that takes as many lines as its edited form. */
  lemma AsManyLines(block: string, second: string, body: string, lines: seq<string>, value: string, end: string)
    requires IsBlock(block) && LineEnd(end) && (LineEnd(second) || second == "")
    requires lines == Lines(block)
    requires block + FENCE + second + body == Terminated(EditedLines(lines, value), end) + FENCE + end + body
    ensures '\n' !in value && NotifyAt(lines) < |lines| && LineEnd(second)
    ensures block + FENCE + second == Terminated(EditedLines(lines, value), end) + FENCE + end
  {
    var edited, k := EditedLines(lines, value), NotifyAt(lines);
    var text := Terminated(edited, end);
    SamePrefix(block + FENCE + second, text + FENCE + end, body);
    EditedAt(lines, value);
    BlockNewlines(block);
    TerminatedNewlines(edited, end, k);
    NewlinesConcat(block + FENCE, second);
    NewlinesConcat(block, FENCE);
    NewlinesConcat(text + FENCE, end);
    NewlinesConcat(text, FENCE);
    FewNewlines();
    EndNewlines(end);
    NewlinesIff(NotifyLine(value));
    NotifyLineFacts(value);
  }

  lemma SamePrefix(a: string, b: string, body: string)
    requires a + body == b + body
    ensures a == b
  {
    assert |a| == |b|;
    assert (a + body)[..|a|] == a && (b + body)[..|b|] == b;
  }

  /** Written lines that hold no newline and no fence are the same as soon as the texts after them are. */
  lemma {:induction false} SameWrittenLines(a: seq<string>, b: seq<string>, x: string, y: string)
    requires (forall i :: 0 <= i < |a| ==> '\n' !in a[i]) && (forall i :: 0 <= i < |b| ==> '\n' !in b[i])
    requires FENCE !in a && FENCE !in b
    requires Terminated(a, "\n") + (FENCE + "\n" + x) == Terminated(b, "\n") + (FENCE + "\n" + y)
    ensures a == b
    decreases |a| + |b|
  {
    var restA, restB := FENCE + "\n" + x, FENCE + "\n" + y;
    if a != [] { TerminatedCons(a, "\n", restA); }
    if b != [] { TerminatedCons(b, "\n", restB); }
    var tailA := if a == [] then x else Terminated(a[1..], "\n") + restA;
    var tailB := if b == [] then y else Terminated(b[1..], "\n") + restB;
    var headA := if a == [] then FENCE else a[0];
    var headB := if b == [] then FENCE else b[0];
    assert "" + restA == restA && "" + restB == restB;
    SameHead(headA, tailA, headB, tailB);
    if a != [] && b != [] {
      SameWrittenLines(a[1..], b[1..], x, y);
      assert a == [a[0]] + a[1..] && b == [b[0]] + b[1..];
    }
  }

  lemma SameHead(a: string, x: string, b: string, y: string)
    requires '\n' !in a && '\n' !in b && a + "\n" + x == b + "\n" + y
    ensures a == b && x == y
  {
    var s := a + "\n" + x;
    assert s[..|a|] == a && s[..|b|] == b;
    FindIs(s, '\n', |a|);
    FindIs(s, '\n', |b|);
    assert s[|a| + 1..] == x && s[|b| + 1..] == y;
  }

  lemma SameFront(a: seq<string>, b: seq<string>, x: string)
    requires a + [x] == b + [x]
    ensures a == b
  {
    assert |a + [x]| == |b + [x]|;
    assert (a + [x])[..|a|] == a && (b + [x])[..|b|] == b;
  }

  lemma OtherLinesArePlain(edited: seq<string>, again: seq<string>, k: nat)
    requires k < |edited| && |again| == |edited| && again == StripEach(edited)
    requires forall i :: 0 <= i < |edited| && i != k ==> edited[i] == again[i]
    ensures forall i :: 0 <= i < |edited| && i != k ==> StripCr(edited[i]) == edited[i]
  {
  }

  lemma FenceLines(second: string)
    requires LineEnd(second)
    ensures Lines(FENCE + second) == [FENCE]
  {
    LinesCons(FENCE, second, "");
    assert FENCE + second == FENCE + second + "";
  }

  lemma FencedLines(text: string, second: string)
    requires Ended(text) && LineEnd(second)
    ensures Lines(text + FENCE + second) == Lines(text) + [FENCE]
  {
    LinesOfEnded(text, FENCE + second);
    FenceLines(second);
    assert text + FENCE + second == text + (FENCE + second);
  }

  /** With plain line ends, a file that is written again the same has no stray carriage return elsewhere. */
  lemma PlainWhenRewritten(lines: seq<string>, again: seq<string>, value: string, block: string, second: string,
                           x: string, y: string)
    requires FENCE !in lines && (forall i :: 0 <= i < |lines| ==> '\n' !in lines[i]) && '\n' !in value
    requires IsBlock(block) && again == Lines(block) && LineEnd(second) && NotifyAt(again) < |again|
    requires block + FENCE + second == Terminated(EditedLines(again, value), "\n") + FENCE + "\n"
    requires Terminated(EditedLines(lines, value), "\n") + (FENCE + "\n" + x)
      == Terminated(EditedLines(again, value), "\n") + (FENCE + "\n" + y)
    ensures forall i :: 0 <= i < |lines| && i != NotifyAt(lines) ==> StripCr(lines[i]) == lines[i]
  {
    var edited, k := EditedLines(lines, value), NotifyAt(lines);
    LinesHaveNoNewline(block);
    EditedHasNoBreak(lines, value);
    EditedHasNoBreak(again, value);
    EditedHasNoFence(lines, value);
    EditedHasNoFence(again, value);
    SameWrittenLines(edited, EditedLines(again, value), x, y);
    TerminatedEnds(edited, "\n");
    FencedLines(Terminated(edited, "\n"), "\n");
    LinesStripped(edited);
    FencedLines(block, second);
    SameFront(again, StripEach(edited), FENCE);
    EditedAt(lines, value);
    EditedAt(again, value);
    NotifyLineFacts(value);
    StrippedNotifyAt(edited, k);
    OtherLinesArePlain(edited, again, k);
    assert forall i :: 0 <= i < |lines| && i != k ==> edited[i] == lines[i];
  }

  lemma RewrittenSettles(source: string, value: string, lines: seq<string>)
    requires Notified(source, value).Ok? && lines == Lines(Splitted(source).value.block.value)
    requires Notified(Notified(source, value).value, value) == Notified(source, value)
    ensures Settles(lines, value, NewlineOf(source))
  {
    var out, body, end := Notified(source, value).value, Splitted(source).value.body, NewlineOf(source);
    var text := Terminated(EditedLines(lines, value), end);
    NewlineKept(end, text + FENCE + end + body);
    var first, second := SplitIsLossless(out);
    var block, rest := Splitted(out).value.block.value, Splitted(out).value.body;
    var again := Lines(block);
    var textAgain := Terminated(EditedLines(again, value), end);
    FirstFence(first, block + FENCE + second + rest);
    FirstFence(end, text + FENCE + end + body);
    FirstFence(end, textAgain + FENCE + end + rest);
    assert block + FENCE + second + rest == textAgain + FENCE + end + rest;
    AsManyLines(block, second, rest, again, value, end);
    if end == "\n" {
      BlockLines(source);
      LinesHaveNoNewline(Splitted(source).value.block.value);
      TailRegrouped(text, FENCE, end, body);
      TailRegrouped(textAgain, FENCE, end, rest);
      PlainWhenRewritten(lines, again, value, block, second, body, rest);
    }
  }

  /** Setting the same value again changes nothing, exactly when the value holds no newline and, in a file with plain
      line ends, no other line ends in a carriage return. */
  lemma NotifyIsIdempotentIff(source: string, value: string)
    requires Notified(source, value).Ok?
    ensures Notified(Notified(source, value).value, value) == Notified(source, value)
      <==> Settles(Lines(Splitted(source).value.block.value), value, NewlineOf(source))
  {
    var lines := Lines(Splitted(source).value.block.value);
    if Settles(lines, value, NewlineOf(source)) {
      SettledIsIdempotent(source, value, lines);
    }
    if Notified(Notified(source, value).value, value) == Notified(source, value) {
      RewrittenSettles(source, value, lines);
    }
  }
}
