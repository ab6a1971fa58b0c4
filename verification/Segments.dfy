/** Splitting a shell command line into commands, in the two modes of `segments`. */
module Segments {
  import opened Results
  import opened Text

  /** A slice of the command line: its first position and the one after its last. */
  type Slice = (nat, nat)

  datatype Scan = Scan(
    i: nat, start: nat, pipeCut: Option<nat>, quote: Option<char>, escaped: bool, heredoc: bool,
    out: seq<Slice>, done: bool)

  const START := Scan(0, 0, None, None, false, false, [], false)

  predicate AsciiWhitespace(c: char)
  {
    c == ' ' || c == '\t' || c == '\n' || c == '\U{c}' || c == '\r'
  }

  predicate AsciiAlphabetic(c: char)
  {
    'a' <= c <= 'z' || 'A' <= c <= 'Z'
  }

  function TrimDashes(s: string): string
  {
    if s != "" && s[0] == '-' then TrimDashes(s[1..]) else s
  }

  predicate OpensHeredoc(after: string)
  {
    var s := TrimStart(TrimDashes(after));
    s != "" && (AsciiAlphabetic(s[0]) || s[0] == '_' || s[0] == '\'' || s[0] == '"' || s[0] == '\\')
  }

  predicate At(cmd: string, i: int, c: char)
  {
    0 <= i < |cmd| && cmd[i] == c
  }

  /** A `#` that begins a comment: first of all, or after white space. */
  predicate OpensComment(cmd: string, i: nat)
  {
    At(cmd, i, '#') && (i == 0 || AsciiWhitespace(cmd[i - 1]))
  }

  /** A `&` that belongs to a redirection such as `>&` or `&>`. */
  predicate Redirects(cmd: string, i: nat)
  {
    At(cmd, i, '&') && (At(cmd, i - 1, '>') || At(cmd, i + 1, '>'))
  }

  function GetOr(o: Option<nat>, default: nat): nat
  {
    if o.Some? then o.value else default
  }

  /** The slice that ends here, or at the first pipe since its start. */
  function Cut(s: Scan, end: nat): Slice
  {
    (s.start, GetOr(s.pipeCut, end))
  }

  /** One turn of the loop at a character that no quote, escape or `<<` claims. */
  function Operate(cmd: string, splitPipes: bool, s: Scan): (t: Scan)
    requires !s.done && s.i < |cmd|
    ensures t.done || s.i < t.i
  {
    var i, b := s.i, cmd[s.i];
    if OpensComment(cmd, i) then
      var out, newline := s.out + [Cut(s, i)], i + Find(cmd[i..], '\n');
      if newline == |cmd| then s.(out := out, done := true)
      else s.(out := out, i := newline, start := newline, pipeCut := None)
    else if Redirects(cmd, i) then s.(i := i + 1)
    else if b == '|' && At(cmd, i + 1, '|') then
      s.(out := s.out + [Cut(s, i)], i := i + 2, start := i + 2, pipeCut := None)
    else if b == '|' && splitPipes then s.(out := s.out + [(s.start, i)], i := i + 1, start := i + 1)
    else if b == '|' then s.(pipeCut := Some(GetOr(s.pipeCut, i)), i := i + 1)
    else if b == '&' || b == ';' || b == '\n' then
      var out := s.out + [Cut(s, i)];
      if b == '\n' && s.heredoc then s.(out := out, done := true)
      else
        var next := if b == '&' && At(cmd, i + 1, '&') then i + 2 else i + 1;
        s.(out := out, i := next, start := next, pipeCut := None)
    else s.(i := i + 1)
  }

  /** One turn of the loop. */
  function Step(cmd: string, splitPipes: bool, s: Scan): (t: Scan)
    requires !s.done && s.i < |cmd|
    ensures t.done || s.i < t.i
  {
    var i, b := s.i, cmd[s.i];
    if s.escaped then s.(escaped := false, i := i + 1)
    else if s.quote.Some? then
      if b == s.quote.value then s.(quote := None, i := i + 1)
      else if s.quote.value == '"' && b == '\\' then s.(escaped := true, i := i + 1)
      else s.(i := i + 1)
    else if b == '\\' then s.(escaped := true, i := i + 1)
    else if b == '\'' || b == '"' then s.(quote := Some(b), i := i + 1)
    else if StartsWith(cmd[i..], "<<<") then s.(i := i + 3)
    else if StartsWith(cmd[i..], "<<") then
      s.(heredoc := s.heredoc || OpensHeredoc(cmd[i + 2..]), i := i + 2)
    else Operate(cmd, splitPipes, s)
  }

  /** The slices found from a state of the loop on. */
  function Rest(cmd: string, splitPipes: bool, s: Scan): seq<Slice>
    decreases !s.done, |cmd| - s.i
  {
    if s.done then s.out
    else if s.i >= |cmd| then s.out + [Cut(s, |cmd|)]
    else Rest(cmd, splitPipes, Step(cmd, splitPipes, s))
  }

  function Slices(cmd: string, splitPipes: bool): seq<Slice>
  {
    Rest(cmd, splitPipes, START)
  }

  method Segments(cmd: string, splitPipes: bool) returns (out: seq<Slice>)
    ensures out == Slices(cmd, splitPipes)
  {
    out := [];
    var start: nat, pipeCut: Option<nat> := 0, None;
    var quote: Option<char>, escaped, heredoc, i: nat := None, false, false, 0;
    while i < |cmd|
      invariant Rest(cmd, splitPipes, Scan(i, start, pipeCut, quote, escaped, heredoc, out, false)) == Slices(cmd, splitPipes)
      decreases |cmd| - i
    {
      ghost var s := Scan(i, start, pipeCut, quote, escaped, heredoc, out, false);
      ghost var t := Step(cmd, splitPipes, s);
      assert Rest(cmd, splitPipes, t) == Slices(cmd, splitPipes);
      var b := cmd[i];
      if escaped {
        escaped := false;
        i := i + 1;
        assert t == Scan(i, start, pipeCut, quote, escaped, heredoc, out, false);
        continue;
      }
      if quote.Some? {
        if b == quote.value {
          quote := None;
        } else if quote.value == '"' && b == '\\' {
          escaped := true;
        }
      } else if b == '\\' {
        escaped := true;
      } else if b == '\'' || b == '"' {
        quote := Some(b);
      } else if StartsWith(cmd[i..], "<<<") {
        i := i + 2;
      } else if StartsWith(cmd[i..], "<<") {
        heredoc := heredoc || OpensHeredoc(cmd[i + 2..]);
        i := i + 1;
      } else if OpensComment(cmd, i) {
        out := out + [(start, GetOr(pipeCut, i))];
        var newline := Find(cmd[i..], '\n');
        if i + newline == |cmd| {
          return;
        }
        i := i + newline;
        start := i;
        pipeCut := None;
        assert t == Scan(i, start, pipeCut, quote, escaped, heredoc, out, false);
        continue;
      } else if Redirects(cmd, i) {
      } else if b == '|' && At(cmd, i + 1, '|') {
        out := out + [(start, GetOr(pipeCut, i))];
        i := i + 1;
        start := i + 1;
        pipeCut := None;
      } else if b == '|' && splitPipes {
        out := out + [(start, i)];
        start := i + 1;
      } else if b == '|' {
        pipeCut := Some(GetOr(pipeCut, i));
      } else if b == '&' || b == ';' || b == '\n' {
        out := out + [(start, GetOr(pipeCut, i))];
        if b == '\n' && heredoc {
          return;
        }
        if b == '&' && At(cmd, i + 1, '&') {
          i := i + 1;
        }
        start := i + 1;
        pipeCut := None;
      }
      i := i + 1;
      assert t == Scan(i, start, pipeCut, quote, escaped, heredoc, out, false);
    }
    out := out + [(start, GetOr(pipeCut, |cmd|))];
  }

  // ----- the quoting of a command line, character by character -----

  datatype Mode = Plain | Escaped | Quoted(q: char) | QuotedEscaped | Comment

  /** The mode after character `i` when `m` was the mode before it. */
  function After(cmd: string, i: nat, m: Mode): Mode
    requires i < |cmd|
  {
    var c := cmd[i];
    match m
    case Plain =>
      if c == '\\' then Escaped else if c == '\'' || c == '"' then Quoted(c)
      else if OpensComment(cmd, i) then Comment else Plain
    case Escaped => Plain
    case Quoted(q) => if c == q then Plain else if q == '"' && c == '\\' then QuotedEscaped else m
    case QuotedEscaped => Quoted('"')
    case Comment => Comment
  }

  /** The mode in which character `i` is read; the newline that ends a comment is not part of it. */
  ghost function ModeAt(cmd: string, i: nat): Mode
    requires i <= |cmd|
  {
    if i == 0 then Plain
    else
      var m := After(cmd, i - 1, ModeAt(cmd, i - 1));
      if m == Comment && At(cmd, i, '\n') then Plain else m
  }

  function ModeOf(s: Scan): Mode
  {
    match s.quote
    case None => if s.escaped then Escaped else Plain
    case Some(q) => if s.escaped then QuotedEscaped else Quoted(q)
  }

  // ----- what a slice is -----

  /** A character that separates commands where it is neither quoted nor escaped. */
  ghost predicate Separator(cmd: string, i: nat)
    requires i <= |cmd|
  {
    i < |cmd| && ModeAt(cmd, i) == Plain
    && (cmd[i] == '|' || cmd[i] == ';' || cmd[i] == '\n' || OpensComment(cmd, i)
        || (cmd[i] == '&' && !Redirects(cmd, i)))
  }

  ghost predicate NoneWithin(cmd: string, a: nat, b: nat)
    requires b <= |cmd|
  {
    forall j: nat :: a <= j < b ==> !Separator(cmd, j)
  }

  /** In bounds, starting outside quotes, ended by a separator or the end of the line, and holding none. */
  ghost predicate GoodSlice(cmd: string, x: Slice)
  {
    x.0 <= x.1 <= |cmd| && ModeAt(cmd, x.0) == Plain
    && (x.1 == |cmd| || Separator(cmd, x.1)) && NoneWithin(cmd, x.0, x.1)
  }

  /** Each slice is good and begins only after the one before it has ended. */
  ghost predicate GoodSlices(cmd: string, out: seq<Slice>)
  {
    (forall k :: 0 <= k < |out| ==> GoodSlice(cmd, out[k]))
    && forall j, k :: 0 <= j < k < |out| ==> out[j].1 <= out[k].0
  }

  ghost predicate Inv(cmd: string, splitPipes: bool, s: Scan)
  {
    && s.start <= s.i <= |cmd|
    && (s.escaped && s.quote.Some? ==> s.quote.value == '"')
    && GoodSlices(cmd, s.out)
    && (forall k :: 0 <= k < |s.out| ==> s.out[k].1 <= s.start)
    && ModeAt(cmd, s.start) == Plain && ModeAt(cmd, s.i) == ModeOf(s)
    && (s.pipeCut.None? ==> NoneWithin(cmd, s.start, s.i))
    && (s.pipeCut.Some? ==> !splitPipes && s.start <= s.pipeCut.value < s.i && GoodSlice(cmd, (s.start, s.pipeCut.value)))
  }

  /** The slice cut at a separator, or at the end of the line. */
  lemma CutIsGood(cmd: string, splitPipes: bool, s: Scan)
    requires Inv(cmd, splitPipes, s) && (s.i == |cmd| || Separator(cmd, s.i))
    ensures GoodSlice(cmd, Cut(s, s.i)) && GoodSlices(cmd, s.out + [Cut(s, s.i)])
  {
  }

  /** The mode inside and after a comment. */
  lemma {:induction false} CommentMode(cmd: string, i: nat, j: nat)
    requires i < j <= |cmd| && ModeAt(cmd, i) == Plain && OpensComment(cmd, i)
    requires forall k :: i <= k < j ==> cmd[k] != '\n'
    ensures ModeAt(cmd, j) == if At(cmd, j, '\n') then Plain else Comment
    decreases j
  {
    if j > i + 1 {
      CommentMode(cmd, i, j - 1);
    }
  }

  lemma SkippedPlain(cmd: string, i: nat, n: nat)
    requires i + n <= |cmd| && ModeAt(cmd, i) == Plain
    requires forall k :: i <= k < i + n ==> cmd[k] == '<' || cmd[k] == '&' || cmd[k] == '|'
    ensures ModeAt(cmd, i + n) == Plain
    ensures (forall k :: i <= k < i + n ==> cmd[k] == '<') ==> NoneWithin(cmd, i, i + n)
    decreases n
  {
    if n > 0 {
      SkippedPlain(cmd, i, n - 1);
    }
  }

  // The loop either goes on in a good state or has ended with good slices.
  ghost predicate Kept(cmd: string, splitPipes: bool, t: Scan)
  {
    if t.done then GoodSlices(cmd, t.out) else Inv(cmd, splitPipes, t)
  }

  /** A character that is escaped. */
  lemma EscapedStep(cmd: string, splitPipes: bool, s: Scan)
    requires Inv(cmd, splitPipes, s) && !s.done && s.i < |cmd| && s.escaped
    ensures Kept(cmd, splitPipes, Step(cmd, splitPipes, s))
  {
    assert !Separator(cmd, s.i);
  }

  /** A character inside quotes. */
  lemma QuotedStep(cmd: string, splitPipes: bool, s: Scan)
    requires Inv(cmd, splitPipes, s) && !s.done && s.i < |cmd| && !s.escaped && s.quote.Some?
    ensures Kept(cmd, splitPipes, Step(cmd, splitPipes, s))
  {
    assert !Separator(cmd, s.i);
  }

  /** A character that begins a quote or an escape. */
  lemma OpeningStep(cmd: string, splitPipes: bool, s: Scan)
    requires Inv(cmd, splitPipes, s) && !s.done && s.i < |cmd| && !s.escaped && s.quote.None?
    requires cmd[s.i] in {'\\', '\'', '"'}
    ensures Kept(cmd, splitPipes, Step(cmd, splitPipes, s))
  {
    assert !Separator(cmd, s.i);
  }

  lemma QuoteStep(cmd: string, splitPipes: bool, s: Scan)
    requires Inv(cmd, splitPipes, s) && !s.done && s.i < |cmd|
    requires s.escaped || s.quote.Some? || cmd[s.i] in {'\\', '\'', '"'}
    ensures Kept(cmd, splitPipes, Step(cmd, splitPipes, s))
  {
    if s.escaped {
      EscapedStep(cmd, splitPipes, s);
    } else if s.quote.Some? {
      QuotedStep(cmd, splitPipes, s);
    } else {
      OpeningStep(cmd, splitPipes, s);
    }
  }

  lemma AnglesStep(cmd: string, splitPipes: bool, s: Scan, n: nat)
    requires Inv(cmd, splitPipes, s) && ModeOf(s) == Plain && s.i + n <= |cmd|
    requires forall k :: s.i <= k < s.i + n ==> cmd[k] == '<'
    ensures Inv(cmd, splitPipes, s.(i := s.i + n))
  {
    SkippedPlain(cmd, s.i, n);
  }

  lemma CommentStep(cmd: string, splitPipes: bool, s: Scan)
    requires Inv(cmd, splitPipes, s) && ModeOf(s) == Plain && s.i < |cmd| && OpensComment(cmd, s.i)
    ensures var out, newline := s.out + [Cut(s, s.i)], s.i + Find(cmd[s.i..], '\n');
      && GoodSlices(cmd, out)
      && (newline < |cmd| ==> Inv(cmd, splitPipes, s.(out := out, i := newline, start := newline, pipeCut := None)))
  {
    var i, n := s.i, Find(cmd[s.i..], '\n');
    CutIsGood(cmd, splitPipes, s);
    assert forall k :: i <= k < i + n ==> cmd[k] == cmd[i..][..n][k - i];
    CommentMode(cmd, i, i + n);
  }

  /** An operator of `n` characters ends the slice and starts the next one. */
  lemma OperatorStep(cmd: string, splitPipes: bool, s: Scan, n: nat)
    requires Inv(cmd, splitPipes, s) && ModeOf(s) == Plain && Separator(cmd, s.i) && !OpensComment(cmd, s.i)
    requires 1 <= n <= 2 && s.i + n <= |cmd| && (n == 2 ==> cmd[s.i] == cmd[s.i + 1] && cmd[s.i] in {'&', '|'})
    ensures GoodSlices(cmd, s.out + [Cut(s, s.i)])
    ensures Inv(cmd, splitPipes, s.(out := s.out + [Cut(s, s.i)], i := s.i + n, start := s.i + n, pipeCut := None))
  {
    CutIsGood(cmd, splitPipes, s);
    if n == 2 {
      SkippedPlain(cmd, s.i, 2);
    }
  }

  lemma PipeStep(cmd: string, s: Scan)
    requires Inv(cmd, false, s) && ModeOf(s) == Plain && At(cmd, s.i, '|')
    ensures Inv(cmd, false, s.(pipeCut := Some(GetOr(s.pipeCut, s.i)), i := s.i + 1))
  {
    CutIsGood(cmd, false, s);
  }

  lemma PlainStep(cmd: string, splitPipes: bool, s: Scan)
    requires Inv(cmd, splitPipes, s) && ModeOf(s) == Plain && s.i < |cmd|
    requires cmd[s.i] !in {'\\', '\'', '"'} && !OpensComment(cmd, s.i) && !Separator(cmd, s.i)
    ensures Inv(cmd, splitPipes, s.(i := s.i + 1))
  {
  }

  lemma StepInv(cmd: string, splitPipes: bool, s: Scan)
    requires Inv(cmd, splitPipes, s) && !s.done && s.i < |cmd|
    ensures Kept(cmd, splitPipes, Step(cmd, splitPipes, s))
  {
    if s.escaped || s.quote.Some? || cmd[s.i] in {'\\', '\'', '"'} {
      QuoteStep(cmd, splitPipes, s);
    } else if StartsWith(cmd[s.i..], "<<") {
      AnglesInv(cmd, splitPipes, s);
    } else if cmd[s.i] == '<' {
      PlainStep(cmd, splitPipes, s);
      OneAngle(cmd, s.i);
    } else {
      NoAngle(cmd, s.i);
      OtherInv(cmd, splitPipes, s);
    }
  }

  lemma NoAngle(cmd: string, i: nat)
    requires i < |cmd| && cmd[i] != '<'
    ensures !StartsWith(cmd[i..], "<<") && !StartsWith(cmd[i..], "<<<")
  {
    assert |cmd| - i >= 2 ==> cmd[i..][..2][0] == cmd[i];
    assert |cmd| - i >= 3 ==> cmd[i..][..3][0] == cmd[i];
  }

  lemma OneAngle(cmd: string, i: nat)
    requires i < |cmd| && !StartsWith(cmd[i..], "<<")
    ensures !StartsWith(cmd[i..], "<<<")
  {
  }

  lemma OtherInv(cmd: string, splitPipes: bool, s: Scan)
    requires Inv(cmd, splitPipes, s) && !s.done && ModeOf(s) == Plain && s.i < |cmd|
    requires cmd[s.i] != '\\' && cmd[s.i] != '\'' && cmd[s.i] != '"'
    ensures Kept(cmd, splitPipes, Operate(cmd, splitPipes, s))
  {
    if OpensComment(cmd, s.i) {
      CommentStep(cmd, splitPipes, s);
    } else if Separator(cmd, s.i) {
      SeparatorInv(cmd, splitPipes, s);
    } else {
      PlainStep(cmd, splitPipes, s);
    }
  }

  lemma SinglePipeInv(cmd: string, s: Scan)
    requires Inv(cmd, false, s) && !s.done && ModeOf(s) == Plain
    requires Separator(cmd, s.i) && !OpensComment(cmd, s.i) && cmd[s.i] == '|' && !At(cmd, s.i + 1, '|')
    ensures Kept(cmd, false, Operate(cmd, false, s))
  {
    PipeStep(cmd, s);
  }

  lemma DoubledInv(cmd: string, splitPipes: bool, s: Scan)
    requires Inv(cmd, splitPipes, s) && !s.done && ModeOf(s) == Plain
    requires Separator(cmd, s.i) && !OpensComment(cmd, s.i)
    requires (cmd[s.i] == '|' || cmd[s.i] == '&') && At(cmd, s.i + 1, cmd[s.i])
    ensures Kept(cmd, splitPipes, Operate(cmd, splitPipes, s))
  {
    OperatorStep(cmd, splitPipes, s, 2);
  }

  lemma LoneInv(cmd: string, splitPipes: bool, s: Scan)
    requires Inv(cmd, splitPipes, s) && !s.done && ModeOf(s) == Plain
    requires Separator(cmd, s.i) && !OpensComment(cmd, s.i)
    requires !((cmd[s.i] == '|' || cmd[s.i] == '&') && At(cmd, s.i + 1, cmd[s.i]))
    requires cmd[s.i] == '|' ==> splitPipes
    ensures Kept(cmd, splitPipes, Operate(cmd, splitPipes, s))
  {
    OperatorStep(cmd, splitPipes, s, 1);
  }

  lemma SeparatorInv(cmd: string, splitPipes: bool, s: Scan)
    requires Inv(cmd, splitPipes, s) && !s.done && ModeOf(s) == Plain
    requires Separator(cmd, s.i) && !OpensComment(cmd, s.i)
    ensures Kept(cmd, splitPipes, Operate(cmd, splitPipes, s))
  {
    var i, b := s.i, cmd[s.i];
    if b == '|' && !splitPipes && !At(cmd, i + 1, '|') {
      SinglePipeInv(cmd, s);
    } else if (b == '|' || b == '&') && At(cmd, i + 1, b) {
      DoubledInv(cmd, splitPipes, s);
    } else {
      LoneInv(cmd, splitPipes, s);
    }
  }

  lemma AnglesInv(cmd: string, splitPipes: bool, s: Scan)
    requires Inv(cmd, splitPipes, s) && !s.done && ModeOf(s) == Plain && s.i < |cmd| && StartsWith(cmd[s.i..], "<<")
    ensures Kept(cmd, splitPipes, Step(cmd, splitPipes, s))
  {
    var i := s.i;
    assert cmd[i..][..2][0] == cmd[i] && cmd[i..][..2][1] == cmd[i + 1];
    if StartsWith(cmd[i..], "<<<") {
      assert cmd[i..][..3][2] == cmd[i + 2];
      AnglesStep(cmd, splitPipes, s, 3);
    } else {
      AnglesStep(cmd, splitPipes, s, 2);
    }
  }

  lemma {:induction false} RestIsGood(cmd: string, splitPipes: bool, s: Scan)
    requires Kept(cmd, splitPipes, s)
    ensures GoodSlices(cmd, Rest(cmd, splitPipes, s))
    decreases !s.done, |cmd| - s.i
  {
    if !s.done {
      if s.i >= |cmd| {
        CutIsGood(cmd, splitPipes, s);
      } else {
        StepInv(cmd, splitPipes, s);
        RestIsGood(cmd, splitPipes, Step(cmd, splitPipes, s));
      }
    }
  }

  /** In both modes the slices are in bounds and in order, do not overlap, begin and end outside quotes
      and escapes, end only at a separator or the end of the line, and hold no separator. */
  lemma SlicesAreGood(cmd: string, splitPipes: bool)
    ensures GoodSlices(cmd, Slices(cmd, splitPipes))
  {
    RestIsGood(cmd, splitPipes, START);
  }

  // ----- nothing is dropped -----

  /** `j` is in a slice, or is one of the characters that separate slices or belong to a comment. */
  ghost predicate Covered(cmd: string, out: seq<Slice>, j: nat)
    requires j < |cmd|
  {
    (exists k :: 0 <= k < |out| && out[k].0 <= j < out[k].1)
    || Separator(cmd, j) || ModeAt(cmd, j) == Comment
    || (j > 0 && Separator(cmd, j - 1) && cmd[j] == cmd[j - 1] && (cmd[j] == '&' || cmd[j] == '|'))
  }

  ghost predicate HeredocAt(cmd: string, h: nat)
  {
    h + 2 <= |cmd| && ModeAt(cmd, h) == Plain && StartsWith(cmd[h..], "<<") && OpensHeredoc(cmd[h + 2..])
  }

  /** `j` lies behind the line that opened a here-document, where the scan stopped. */
  ghost predicate BehindHeredoc(cmd: string, out: seq<Slice>, j: nat)
  {
    out != [] && var end := out[|out| - 1].1;
    end < j < |cmd| && cmd[end] == '\n' && exists h: nat :: h < end && HeredocAt(cmd, h)
  }

  ghost predicate CoverInv(cmd: string, s: Scan)
  {
    s.i <= |cmd| && s.pipeCut.None?
    && (forall j: nat :: j < s.start && j < |cmd| ==> Covered(cmd, s.out, j))
    && (s.heredoc ==> exists h: nat :: h < s.i && HeredocAt(cmd, h))
  }

  ghost predicate AllCovered(cmd: string, out: seq<Slice>)
  {
    forall j: nat :: j < |cmd| ==> Covered(cmd, out, j) || BehindHeredoc(cmd, out, j)
  }

  lemma CoverMore(cmd: string, out: seq<Slice>, x: Slice, j: nat)
    requires j < |cmd| && (Covered(cmd, out, j) || x.0 <= j < x.1)
    ensures Covered(cmd, out + [x], j)
  {
    var now := out + [x];
    if k :| 0 <= k < |out| && out[k].0 <= j < out[k].1 {
      assert now[k] == out[k];
    } else if x.0 <= j < x.1 {
      assert now[|out|] == x;
    }
  }

  /** Pushing the slice that ends at `i` covers everything below `next`. */
  lemma PushCovers(cmd: string, s: Scan, next: nat)
    requires Inv(cmd, true, s) && CoverInv(cmd, s) && s.i <= next <= |cmd|
    requires forall j: nat :: s.i <= j < next ==> Covered(cmd, [], j)
    ensures forall j: nat :: j < next ==> Covered(cmd, s.out + [(s.start, s.i)], j)
  {
    forall j: nat | j < next ensures Covered(cmd, s.out + [(s.start, s.i)], j) {
      if j < s.i {
        CoverMore(cmd, s.out, (s.start, s.i), j);
      } else {
        assert Covered(cmd, [], j);
      }
    }
  }

  lemma CommentCovers(cmd: string, s: Scan)
    requires Inv(cmd, true, s) && CoverInv(cmd, s) && ModeOf(s) == Plain && s.i < |cmd| && OpensComment(cmd, s.i)
    ensures forall j: nat :: j < s.i + Find(cmd[s.i..], '\n') ==> Covered(cmd, s.out + [(s.start, s.i)], j)
  {
    var i, n := s.i, Find(cmd[s.i..], '\n');
    assert forall k :: i <= k < i + n ==> cmd[k] == cmd[i..][..n][k - i];
    forall j: nat | i <= j < i + n ensures Covered(cmd, [], j) {
      if j > i {
        CommentMode(cmd, i, j);
      }
    }
    PushCovers(cmd, s, i + n);
  }

  ghost predicate CoverKept(cmd: string, t: Scan)
  {
    if t.done then AllCovered(cmd, t.out) else CoverInv(cmd, t)
  }

  lemma SeparatorCovers(cmd: string, s: Scan)
    requires Inv(cmd, true, s) && CoverInv(cmd, s) && !s.done && ModeOf(s) == Plain
    requires Separator(cmd, s.i) && !OpensComment(cmd, s.i)
    ensures CoverKept(cmd, Operate(cmd, true, s))
  {
    var i, b := s.i, cmd[s.i];
    var two := (b == '|' || b == '&') && At(cmd, i + 1, b);
    PushCovers(cmd, s, if two then i + 2 else i + 1);
    if b == '\n' && s.heredoc {
      var out := s.out + [(s.start, i)];
      forall j: nat | j < |cmd| ensures Covered(cmd, out, j) || BehindHeredoc(cmd, out, j) {
        if j > i {
          assert out[|out| - 1].1 == i;
        }
      }
    }
  }

  lemma OperateCovers(cmd: string, s: Scan)
    requires Inv(cmd, true, s) && CoverInv(cmd, s) && !s.done && ModeOf(s) == Plain && s.i < |cmd|
    ensures CoverKept(cmd, Operate(cmd, true, s))
  {
    if OpensComment(cmd, s.i) {
      CommentCovers(cmd, s);
    } else if Separator(cmd, s.i) {
      SeparatorCovers(cmd, s);
    }
  }

  lemma StepCovers(cmd: string, s: Scan)
    requires Inv(cmd, true, s) && CoverInv(cmd, s) && !s.done && s.i < |cmd|
    ensures CoverKept(cmd, Step(cmd, true, s))
  {
    if ModeOf(s) == Plain && !StartsWith(cmd[s.i..], "<<") && cmd[s.i] != '\\' && cmd[s.i] != '\'' && cmd[s.i] != '"' {
      OneAngle(cmd, s.i);
      OperateCovers(cmd, s);
    } else if ModeOf(s) == Plain && StartsWith(cmd[s.i..], "<<") {
      assert OpensHeredoc(cmd[s.i + 2..]) ==> HeredocAt(cmd, s.i);
    }
  }

  lemma {:induction false} RestCovers(cmd: string, s: Scan)
    requires Kept(cmd, true, s) && CoverKept(cmd, s)
    ensures AllCovered(cmd, Rest(cmd, true, s))
    decreases !s.done, |cmd| - s.i
  {
    if !s.done {
      if s.i >= |cmd| {
        PushCovers(cmd, s, |cmd|);
      } else {
        StepInv(cmd, true, s);
        StepCovers(cmd, s);
        RestCovers(cmd, Step(cmd, true, s));
      }
    }
  }

  /** `command_segments` drops only separators, comments, and what follows a here-document's line. */
  lemma NothingDropped(cmd: string)
    ensures AllCovered(cmd, Slices(cmd, true))
  {
    RestCovers(cmd, START);
  }

  // ----- the two modes in lockstep -----

  /** `y` follows `x` after a single `|`; an `||` would leave two characters between them. */
  predicate Piped(cmd: string, x: Slice, y: Slice)
  {
    x.1 + 1 == y.0 && At(cmd, x.1, '|')
  }

  /** The slices that do not follow another one through a pipe. */
  function Heads(cmd: string, out: seq<Slice>): seq<Slice>
  {
    if out == [] then []
    else
      var n := |out| - 1;
      Heads(cmd, out[..n]) + if n > 0 && Piped(cmd, out[n - 1], out[n]) then [] else [out[n]]
  }

  lemma HeadsPush(cmd: string, out: seq<Slice>, x: Slice)
    ensures Heads(cmd, out + [x])
         == Heads(cmd, out) + if out != [] && Piped(cmd, out[|out| - 1], x) then [] else [x]
  {
    assert (out + [x])[..|out|] == out;
  }

  /** The slice now open was reached through a pipe. */
  ghost predicate OpenPiped(cmd: string, s: Scan)
  {
    s.out != [] && s.out[|s.out| - 1].1 + 1 == s.start && At(cmd, s.out[|s.out| - 1].1, '|')
  }

  /** The open slice and the slices found, compared between the modes. */
  ghost predicate SameFound(cmd: string, f: Scan, s: Scan)
  {
    if f.done then Heads(cmd, s.out) == f.out
    else
      s.pipeCut.None?
      && match f.pipeCut
         case None => f.start == s.start && Heads(cmd, s.out) == f.out && !OpenPiped(cmd, s)
         case Some(cut) => Heads(cmd, s.out) == f.out + [(f.start, cut)] && OpenPiped(cmd, s)
  }

  /** `f` scans with `first_commands` and `s` with `command_segments`, in step. */
  ghost predicate Lockstep(cmd: string, f: Scan, s: Scan)
  {
    f.i == s.i && f.quote == s.quote && f.escaped == s.escaped && f.heredoc == s.heredoc && f.done == s.done
    && SameFound(cmd, f, s)
  }

  lemma LockstepPush(cmd: string, f: Scan, s: Scan)
    requires Lockstep(cmd, f, s) && !f.done
    ensures Heads(cmd, s.out + [Cut(s, s.i)]) == f.out + [Cut(f, f.i)]
  {
    HeadsPush(cmd, s.out, (s.start, s.i));
  }

  /** Both modes cut here and go on at `next`. */
  lemma LockstepCut(cmd: string, f: Scan, s: Scan, next: nat)
    requires Lockstep(cmd, f, s) && !f.done
    requires !(s.i + 1 == next && At(cmd, s.i, '|'))
    ensures Lockstep(cmd, f.(out := f.out + [Cut(f, f.i)], i := next, start := next, pipeCut := None),
                          s.(out := s.out + [Cut(s, s.i)], i := next, start := next, pipeCut := None))
    ensures Lockstep(cmd, f.(out := f.out + [Cut(f, f.i)], done := true), s.(out := s.out + [Cut(s, s.i)], done := true))
  {
    LockstepPush(cmd, f, s);
  }

  /** A single pipe: one mode remembers the first of a pipeline, the other cuts at each. */
  lemma LockstepPipe(cmd: string, f: Scan, s: Scan)
    requires Lockstep(cmd, f, s) && !f.done && At(cmd, s.i, '|')
    ensures Lockstep(cmd, f.(pipeCut := Some(GetOr(f.pipeCut, f.i)), i := f.i + 1),
                          s.(out := s.out + [(s.start, s.i)], i := s.i + 1, start := s.i + 1))
  {
    HeadsPush(cmd, s.out, (s.start, s.i));
  }

  lemma LockstepAdvance(cmd: string, f: Scan, s: Scan, i: nat, quote: Option<char>, escaped: bool, heredoc: bool)
    requires Lockstep(cmd, f, s)
    ensures Lockstep(cmd, f.(i := i, quote := quote, escaped := escaped, heredoc := heredoc),
                          s.(i := i, quote := quote, escaped := escaped, heredoc := heredoc))
  {
  }

  lemma LockstepComment(cmd: string, f: Scan, s: Scan)
    requires Lockstep(cmd, f, s) && !f.done && f.i < |cmd| && OpensComment(cmd, s.i)
    ensures Lockstep(cmd, Operate(cmd, false, f), Operate(cmd, true, s))
  {
    LockstepCut(cmd, f, s, s.i + Find(cmd[s.i..], '\n'));
  }

  /** A character that neither mode cuts at. */
  lemma LockstepPlain(cmd: string, f: Scan, s: Scan)
    requires Lockstep(cmd, f, s) && !f.done && f.i < |cmd| && !OpensComment(cmd, s.i)
    requires Redirects(cmd, s.i) || (cmd[s.i] != '|' && cmd[s.i] != '&' && cmd[s.i] != ';' && cmd[s.i] != '\n')
    ensures Lockstep(cmd, Operate(cmd, false, f), Operate(cmd, true, s))
  {
    LockstepAdvance(cmd, f, s, s.i + 1, s.quote, s.escaped, s.heredoc);
  }

  /** An operator that both modes cut at. */
  lemma LockstepOperator(cmd: string, f: Scan, s: Scan)
    requires Lockstep(cmd, f, s) && !f.done && f.i < |cmd| && !OpensComment(cmd, s.i) && !Redirects(cmd, s.i)
    requires cmd[s.i] == '&' || cmd[s.i] == ';' || cmd[s.i] == '\n' || (cmd[s.i] == '|' && At(cmd, s.i + 1, '|'))
    ensures Lockstep(cmd, Operate(cmd, false, f), Operate(cmd, true, s))
  {
    var i, b := s.i, cmd[s.i];
    LockstepCut(cmd, f, s, if (b == '|' || b == '&') && At(cmd, i + 1, b) then i + 2 else i + 1);
  }

  lemma LockstepOperate(cmd: string, f: Scan, s: Scan)
    requires Lockstep(cmd, f, s) && !f.done && f.i < |cmd|
    ensures Lockstep(cmd, Operate(cmd, false, f), Operate(cmd, true, s))
  {
    var i, b := s.i, cmd[s.i];
    if OpensComment(cmd, i) {
      LockstepComment(cmd, f, s);
    } else if b == '|' && !At(cmd, i + 1, '|') {
      LockstepPipe(cmd, f, s);
    } else if !Redirects(cmd, i) && (b == '|' || b == '&' || b == ';' || b == '\n') {
      LockstepOperator(cmd, f, s);
    } else {
      LockstepPlain(cmd, f, s);
    }
  }

  lemma LockstepStep(cmd: string, f: Scan, s: Scan)
    requires Lockstep(cmd, f, s) && !f.done && f.i < |cmd|
    ensures Lockstep(cmd, Step(cmd, false, f), Step(cmd, true, s))
  {
    var i, b := s.i, cmd[s.i];
    if s.escaped || s.quote.Some? || b == '\\' || b == '\'' || b == '"' {
      LockstepQuote(cmd, f, s);
    } else if StartsWith(cmd[i..], "<<<") {
      LockstepAdvance(cmd, f, s, i + 3, s.quote, s.escaped, s.heredoc);
    } else if StartsWith(cmd[i..], "<<") {
      LockstepAdvance(cmd, f, s, i + 2, s.quote, s.escaped, s.heredoc || OpensHeredoc(cmd[i + 2..]));
    } else {
      LockstepOperate(cmd, f, s);
    }
  }

  lemma LockstepQuote(cmd: string, f: Scan, s: Scan)
    requires Lockstep(cmd, f, s) && !f.done && f.i < |cmd|
    requires s.escaped || s.quote.Some? || cmd[s.i] == '\\' || cmd[s.i] == '\'' || cmd[s.i] == '"'
    ensures Lockstep(cmd, Step(cmd, false, f), Step(cmd, true, s))
  {
    var t := Step(cmd, true, s);
    LockstepAdvance(cmd, f, s, t.i, t.quote, t.escaped, t.heredoc);
  }

  lemma {:induction false} LockstepRest(cmd: string, f: Scan, s: Scan)
    requires Lockstep(cmd, f, s) && Kept(cmd, true, s)
    ensures Rest(cmd, false, f) == Heads(cmd, Rest(cmd, true, s))
    decreases !f.done, |cmd| - f.i
  {
    if !f.done {
      if f.i >= |cmd| {
        LockstepPush(cmd, f, s);
      } else {
        StepInv(cmd, true, s);
        LockstepStep(cmd, f, s);
        LockstepRest(cmd, Step(cmd, false, f), Step(cmd, true, s));
      }
    }
  }

  /** `first_commands` yields exactly the slices of `command_segments` that no pipe leads into. */
  lemma FirstCommandsAreHeads(cmd: string)
    ensures Slices(cmd, false) == Heads(cmd, Slices(cmd, true))
  {
    LockstepRest(cmd, START, START);
  }

  /** Every slice of `first_commands` is one of `command_segments`, in the same order. */
  lemma {:induction false} HeadsSubsequence(cmd: string, out: seq<Slice>) returns (at: seq<nat>)
    ensures |at| == |Heads(cmd, out)|
    ensures forall k :: 0 <= k < |at| ==> at[k] < |out| && out[at[k]] == Heads(cmd, out)[k]
    ensures forall j, k :: 0 <= j < k < |at| ==> at[j] < at[k]
  {
    if out == [] {
      at := [];
    } else {
      var n := |out| - 1;
      at := HeadsSubsequence(cmd, out[..n]);
      if !(n > 0 && Piped(cmd, out[n - 1], out[n])) {
        at := at + [n];
      }
    }
  }

  lemma FirstCommandsSubsequence(cmd: string) returns (at: seq<nat>)
    ensures var first, all := Slices(cmd, false), Slices(cmd, true);
      && |at| == |first|
      && (forall k :: 0 <= k < |at| ==> at[k] < |all| && all[at[k]] == first[k])
      && (forall j, k :: 0 <= j < k < |at| ==> at[j] < at[k])
  {
    FirstCommandsAreHeads(cmd);
    at := HeadsSubsequence(cmd, Slices(cmd, true));
  }
}
