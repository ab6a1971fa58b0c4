/** Markdown front matter: a fenced block above a body that is never touched. */
module Frontmatter {
  import opened Results
  import opened Text

  const FENCE := "---"

  datatype Failure = UnterminatedFence(line: nat) | NoFrontmatter

  datatype Parts = Parts(block: Option<string>, body: string)

  /** The line that starts at `from` without its end, and where the next one starts. */
  function NextLine(source: string, from: nat): Option<(string, nat)>
  {
    if from >= |source| then None
    else
      var rest := source[from..];
      var i := Find(rest, '\n');
      if i < |rest| then Some((StripCr(rest[..i]), from + i + 1)) else Some((rest, |source|))
  }

  /** What stands before the first fence line of `rest`, and what follows that line. */
  function TakeBlock(rest: string): Option<(string, string)>
    decreases |rest|
  {
    if rest == "" then None
    else
      var i := Find(rest, '\n');
      if i == |rest| then if rest == FENCE then Some(("", "")) else None
      else if StripCr(rest[..i]) == FENCE then Some(("", rest[i + 1..]))
      else
        Prefixed(rest[..i + 1], TakeBlock(rest[i + 1..]))
  }

  /** What was taken, with the lines read before it. */
  function Prefixed(before: string, later: Option<(string, string)>): Option<(string, string)>
  {
    if later.None? then None else Some((before + later.value.0, later.value.1))
  }

  lemma PrefixedTwice(a: string, b: string, later: Option<(string, string)>)
    ensures Prefixed(a, Prefixed(b, later)) == Prefixed(a + b, later)
  {
    if later.Some? {
      assert a + (b + later.value.0) == a + b + later.value.0;
    }
  }

  lemma PrefixedByNothing(later: Option<(string, string)>)
    ensures Prefixed("", later) == later
  {
    if later.Some? {
      assert "" + later.value.0 == later.value.0;
    }
  }

  lemma TakeLast(rest: string)
    requires '\n' !in rest
    ensures TakeBlock(rest) == if rest == FENCE then Some(("", "")) else None
  {
    assert rest[..|rest|] == rest;
    FindIs(rest, '\n', |rest|);
  }

  lemma TakeCons(head: string, rest: string)
    requires '\n' !in head
    ensures TakeBlock(head + "\n" + rest) ==
      if StripCr(head) == FENCE then Some(("", rest)) else Prefixed(head + "\n", TakeBlock(rest))
  {
    var s := head + "\n" + rest;
    assert s[..|head|] == head && s[|head| + 1..] == rest && s[..|head| + 1] == head + "\n";
    FindIs(s, '\n', |head|);
  }

  function Splitted(source: string): Result<Parts, Failure>
  {
    var first := NextLine(source, 0);
    if first.None? || first.value.0 != FENCE then Ok(Parts(None, source))
    else
      var taken := TakeBlock(source[first.value.1..]);
      if taken.None? then Err(UnterminatedFence(1)) else Ok(Parts(Some(taken.value.0), taken.value.1))
  }

  lemma NextIs(source: string, from: nat, head: string, more: string)
    requires from <= |source| && source[from..] == head + "\n" + more && '\n' !in head
    ensures NextLine(source, from) == Some((StripCr(head), from + |head| + 1))
    ensures from + |head| + 1 <= |source|
    ensures source[from + |head| + 1..] == more && source[from..from + |head| + 1] == head + "\n"
  {
    var rest := source[from..];
    assert rest[..|head|] == head;
    FindIs(rest, '\n', |head|);
    assert source[from + |head| + 1..] == rest[|head| + 1..];
    assert source[from..from + |head| + 1] == rest[..|head| + 1];
  }

  lemma NextIsLast(source: string, from: nat)
    requires from < |source| && '\n' !in source[from..]
    ensures NextLine(source, from) == Some((source[from..], |source|))
  {
    var rest := source[from..];
    assert rest[..|rest|] == rest;
    FindIs(rest, '\n', |rest|);
  }

  /** Reading `line` up to `after` is one step of taking the block from `cursor`. */
  ghost predicate Reads(source: string, cursor: nat, line: string, after: nat)
    requires cursor <= |source|
  {
    && cursor < after <= |source|
    && TakeBlock(source[cursor..]) ==
       if line == FENCE then Some(("", source[after..]))
       else Prefixed(source[cursor..after], TakeBlock(source[after..]))
  }

  lemma ReadsEnded(source: string, cursor: nat, head: string, more: string, after: nat)
    requires cursor < after <= |source| && '\n' !in head
    requires source[cursor..] == head + "\n" + more
    requires source[after..] == more && source[cursor..after] == head + "\n"
    ensures Reads(source, cursor, StripCr(head), after)
  {
    TakeCons(head, more);
  }

  lemma ReadsLast(source: string, cursor: nat)
    requires cursor < |source| && '\n' !in source[cursor..]
    ensures Reads(source, cursor, source[cursor..], |source|)
  {
    TakeLast(source[cursor..]);
    assert source[|source|..] == "";
  }

  /** `line` is read next from `cursor`, up to `after`, and that is one step of taking the block. */
  ghost predicate Turn(source: string, cursor: nat, line: string, after: nat)
    requires cursor <= |source|
  {
    NextLine(source, cursor) == Some((line, after)) && Reads(source, cursor, line, after)
  }

  lemma TakeEnded(source: string, cursor: nat, head: string, more: string)
    requires cursor < |source| && source[cursor..] == head + "\n" + more && '\n' !in head
    ensures Turn(source, cursor, StripCr(head), cursor + |head| + 1)
  {
    NextIs(source, cursor, head, more);
    ReadsEnded(source, cursor, head, more, cursor + |head| + 1);
  }

  lemma TakeUnended(source: string, cursor: nat)
    requires cursor < |source| && '\n' !in source[cursor..]
    ensures Turn(source, cursor, source[cursor..], |source|)
  {
    NextIsLast(source, cursor);
    ReadsLast(source, cursor);
  }

  /** One turn of the loop reads one line of what is left. */
  lemma TakeFromCursor(source: string, cursor: nat)
    requires cursor < |source|
    ensures exists line, after :: Turn(source, cursor, line, after)
  {
    if '\n' in source[cursor..] {
      var head, more := CutLine(source[cursor..]);
      TakeEnded(source, cursor, head, more);
    } else {
      TakeUnended(source, cursor);
    }
  }

  /** The block is what was read since `start`, and then what is taken from `cursor`. */
  ghost predicate Scanning(source: string, start: nat, cursor: nat)
  {
    && start <= cursor <= |source|
    && TakeBlock(source[start..]) == Prefixed(source[start..cursor], TakeBlock(source[cursor..]))
  }

  lemma ScanFence(source: string, start: nat, cursor: nat, after: nat)
    requires Scanning(source, start, cursor) && Reads(source, cursor, FENCE, after)
    ensures TakeBlock(source[start..]) == Some((source[start..cursor], source[after..]))
  {
    assert source[start..cursor] + "" == source[start..cursor];
  }

  lemma ScanOn(source: string, start: nat, cursor: nat, line: string, after: nat)
    requires Scanning(source, start, cursor) && Reads(source, cursor, line, after) && line != FENCE
    ensures Scanning(source, start, after)
  {
    assert source[start..after] == source[start..cursor] + source[cursor..after];
    PrefixedTwice(source[start..cursor], source[cursor..after], TakeBlock(source[after..]));
  }

  lemma ScanStarts(source: string, start: nat)
    requires start <= |source|
    ensures Scanning(source, start, start)
  {
    assert source[start..start] == "";
    PrefixedByNothing(TakeBlock(source[start..]));
  }

  /** The loop that looks for the closing fence. */
  method Split(source: string) returns (r: Result<Parts, Failure>)
    ensures r == Splitted(source)
  {
    var first := NextLine(source, 0);
    if first.None? {
      return Ok(Parts(None, source));
    }
    if first.value.0 != FENCE {
      return Ok(Parts(None, source));
    }
    var start := first.value.1;
    r := ClosingFence(source, start);
  }

  method ClosingFence(source: string, start: nat) returns (r: Result<Parts, Failure>)
    requires start <= |source|
    ensures r == var taken := TakeBlock(source[start..]);
      if taken.None? then Err(UnterminatedFence(1)) else Ok(Parts(Some(taken.value.0), taken.value.1))
  {
    var cursor := start;
    ScanStarts(source, start);
    while true
      invariant Scanning(source, start, cursor)
      decreases |source| - cursor
    {
      var next := NextLine(source, cursor);
      if next.None? {
        return Err(UnterminatedFence(1));
      }
      TakeFromCursor(source, cursor);
      ghost var line, after :| Turn(source, cursor, line, after);
      if next.value.0 == FENCE {
        ScanFence(source, start, cursor, after);
        return Ok(Parts(Some(source[start..cursor]), source[next.value.1..]));
      }
      ScanOn(source, start, cursor, line, after);
      cursor := next.value.1;
    }
  }

  // ----- what splitting means -----

  predicate LineEnd(end: string)
  {
    end == "\n" || end == "\r\n"
  }

  /** Whole lines, none of them a fence. */
  predicate IsBlock(block: string)
  {
    Ended(block) && FENCE !in Lines(block)
  }

  /** A document with a block: two fence lines around it, and the body after them. */
  predicate IsDocument(source: string, first: string, block: string, second: string, body: string)
  {
    && source == FENCE + first + (block + FENCE + second + body)
    && LineEnd(first) && (LineEnd(second) || (second == "" && body == "")) && IsBlock(block)
  }

  lemma LinesUncons(text: string, i: nat)
    requires i == Find(text, '\n') < |text|
    ensures Lines(text) == [StripCr(text[..i])] + Lines(text[i + 1..])
  {
  }

  lemma BlockCons(head: string, rest: string)
    requires '\n' !in head && StripCr(head) != FENCE
    ensures IsBlock(head + "\n" + rest) <==> IsBlock(rest)
  {
    LinesCons(head, "\n", rest);
  }

  lemma FenceLine(head: string) returns (end: string)
    requires StripCr(head) == FENCE
    ensures LineEnd(end) && head + "\n" == FENCE + end
  {
    end := if head == FENCE then "\n" else "\r\n";
    if head != FENCE {
      assert head == StripCr(head) + "\r";
    }
  }

  lemma LineAndRest(line: string, block: string, fence: string, second: string, body: string)
    ensures line + (block + fence + second + body) == (line + block) + fence + second + body
  {
  }

  /** What is taken, the fence line and what follows make up the text again. */
  lemma {:induction false} TakenReassembles(rest: string, block: string, body: string) returns (second: string)
    requires TakeBlock(rest) == Some((block, body))
    ensures rest == block + FENCE + second + body && IsBlock(block)
    ensures LineEnd(second) || (second == "" && body == "")
    decreases |rest|
  {
    if '\n' !in rest {
      TakeLast(rest);
      second := "";
    } else {
      var head, more := CutLine(rest);
      TakeCons(head, more);
      if StripCr(head) == FENCE {
        second := FenceLine(head);
      } else {
        var later := TakeBlock(more).value.0;
        second := TakenReassembles(more, later, body);
        BlockCons(head, later);
        LineAndRest(head + "\n", later, FENCE, second, body);
      }
    }
  }

  lemma FenceTaken(second: string, body: string)
    requires LineEnd(second) || (second == "" && body == "")
    ensures TakeBlock(FENCE + second + body) == Some(("", body))
  {
    var s := FENCE + second + body;
    if second == "" {
      assert s == FENCE;
      FindIs(s, '\n', 3);
    } else {
      var n := 2 + |second|;
      assert s[..n] == if second == "\n" then FENCE else FENCE + "\r";
      assert s[n + 1..] == body;
      FindIs(s, '\n', n);
      assert StripCr(FENCE + "\r") == FENCE;
    }
  }

  lemma BlockCut(block: string) returns (head: string, more: string)
    requires IsBlock(block) && block != ""
    ensures block == head + "\n" + more && '\n' !in head && StripCr(head) != FENCE && IsBlock(more)
  {
    assert block[|block| - 1] in block;
    head, more := CutLine(block);
    LinesCons(head, "\n", more);
    BlockCons(head, more);
  }

  lemma {:induction false} BlockTaken(block: string, second: string, body: string)
    requires IsBlock(block) && (LineEnd(second) || (second == "" && body == ""))
    ensures TakeBlock(block + FENCE + second + body) == Some((block, body))
    decreases |block|
  {
    if block == "" {
      assert block + FENCE + second + body == FENCE + second + body;
      FenceTaken(second, body);
    } else {
      var head, more := BlockCut(block);
      BlockTaken(more, second, body);
      TakeCons(head, more + FENCE + second + body);
      LineAndRest(head + "\n", more, FENCE, second, body);
    }
  }

  lemma FirstFence(first: string, rest: string)
    requires LineEnd(first)
    ensures NextLine(FENCE + first + rest, 0) == Some((FENCE, 3 + |first|))
    ensures (FENCE + first + rest)[3 + |first|..] == rest
  {
    var s := FENCE + first + rest;
    assert s[0..] == s;
    var n := 2 + |first|;
    assert s[..n] == if first == "\n" then FENCE else FENCE + "\r";
    FindIs(s, '\n', n);
    assert StripCr(FENCE + "\r") == FENCE;
  }

  /** A document splits into exactly its block and its body. */
  lemma DocumentSplits(source: string, first: string, block: string, second: string, body: string)
    requires IsDocument(source, first, block, second, body)
    ensures Splitted(source) == Ok(Parts(Some(block), body))
  {
    FirstFence(first, block + FENCE + second + body);
    BlockTaken(block, second, body);
  }

  /** Splitting loses nothing: fence line, block, fence line and body are the source. */
  lemma SplitIsLossless(source: string) returns (first: string, second: string)
    requires Splitted(source).Ok?
    ensures Splitted(source).value.block.None? ==> Splitted(source).value.body == source
    ensures Splitted(source).value.block.Some? ==>
      IsDocument(source, first, Splitted(source).value.block.value, second, Splitted(source).value.body)
  {
    first, second := "", "";
    if Splitted(source).value.block.Some? {
      assert source[0..] == source && source[|source|..] == "";
      assert '\n' in source;
      var head, more := CutLine(source);
      assert source[..|head|] == head && source[|head| + 1..] == more;
      first := FenceLine(head);
      second := TakenReassembles(more, Splitted(source).value.block.value, Splitted(source).value.body);
    }
  }

  lemma TakenIffLater(head: string, more: string)
    requires '\n' !in head && (TakeBlock(more).Some? <==> FENCE in Lines(more))
    ensures TakeBlock(head + "\n" + more).Some? <==> FENCE in Lines(head + "\n" + more)
  {
    TakeCons(head, more);
    LinesCons(head, "\n", more);
  }

  lemma {:induction false} TakenIff(rest: string)
    ensures TakeBlock(rest).Some? <==> FENCE in Lines(rest)
    decreases |rest|
  {
    if '\n' in rest {
      var head, more := CutLine(rest);
      TakenIff(more);
      TakenIffLater(head, more);
    } else {
      TakeLast(rest);
      assert Find(rest, '\n') == |rest|;
    }
  }

  /** When each outcome happens: no opening fence, an opening one alone, or two. */
  lemma SplitOutcomes(source: string)
    ensures var lines, r := Lines(source), Splitted(source);
      && (lines == [] || lines[0] != FENCE <==> r == Ok(Parts(None, source)))
      && (lines != [] && lines[0] == FENCE && FENCE !in lines[1..] <==> r == Err(UnterminatedFence(1)))
      && (lines != [] && lines[0] == FENCE && FENCE in lines[1..] <==> r.Ok? && r.value.block.Some?)
  {
    assert source[0..] == source;
    if source != "" {
      var i := Find(source, '\n');
      if i < |source| {
        LinesUncons(source, i);
        assert Lines(source)[1..] == Lines(source[i + 1..]);
        TakenIff(source[i + 1..]);
      } else {
        assert source[|source|..] == "";
      }
    }
  }

  // ----- replacing the block -----

  /** The rendered block with the newline it must end with. */
  function Closed(yaml: string): string
  {
    if EndsWith(yaml, "\n") then yaml else yaml + "\n"
  }

  /** The new block between plain fences, above the old body. */
  function Replaced(source: string, yaml: string): Result<string, Failure>
  {
    var split := Splitted(source);
    if split.Err? then Err(split.error)
    else Ok(FENCE + "\n" + (Closed(yaml) + FENCE + "\n" + split.value.body))
  }

  method Replace(source: string, yaml: string) returns (r: Result<string, Failure>)
    ensures r == Replaced(source, yaml)
  {
    var split := Split(source);
    if split.Err? {
      return Err(split.error);
    }
    var out := FENCE;
    out := out + "\n";
    out := out + yaml;
    if !EndsWith(yaml, "\n") {
      out := out + "\n";
    }
    out := out + FENCE;
    out := out + "\n";
    out := out + split.value.body;
    assert out == FENCE + "\n" + (Closed(yaml) + FENCE + "\n" + split.value.body);
    r := Ok(out);
  }

  /** Splitting the result gives the new block and the old body exactly when no line of the block is a fence. */
  lemma ReplacedSplits(source: string, yaml: string)
    requires Replaced(source, yaml).Ok?
    ensures Splitted(Replaced(source, yaml).value) == Ok(Parts(Some(Closed(yaml)), Splitted(source).value.body))
      <==> FENCE !in Lines(Closed(yaml))
  {
    var out, body := Replaced(source, yaml).value, Splitted(source).value.body;
    var closed := Closed(yaml);
    assert closed != "" && closed[|closed| - 1] == '\n';
    if FENCE !in Lines(closed) {
      DocumentSplits(out, "\n", closed, "\n", body);
    } else if Splitted(out) == Ok(Parts(Some(closed), body)) {
      var first, second := SplitIsLossless(out);
      assert false;
    }
  }

  /** A later replacement overrides an earlier one completely. */
  lemma LaterReplaceWins(source: string, earlier: string, later: string)
    requires Replaced(source, earlier).Ok? && FENCE !in Lines(Closed(earlier))
    ensures Replaced(Replaced(source, earlier).value, later) == Replaced(source, later)
  {
    ReplacedSplits(source, earlier);
  }
}
