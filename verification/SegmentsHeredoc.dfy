/** Where `segments` stops: at the end of the first line that opens a here-document, and nowhere else. */
module SegmentsHeredoc {
  import opened Results
  import opened Text
  import opened Segments

  // ----- the operators -----

  /** Outside quotes, commands are separated by pipes, semicolons, newlines and comments behind white space,
      and by an ampersand that no `>` touches. */
  lemma SeparatorIff(cmd: string, i: nat)
    requires i < |cmd|
    ensures OpensComment(cmd, i) <==> cmd[i] == '#' && (i == 0 || cmd[i - 1] in " \t\n\r\U{c}")
    ensures Separator(cmd, i) <==>
      ModeAt(cmd, i) == Plain
      && (cmd[i] in "|;\n" || (cmd[i] == '#' && (i == 0 || cmd[i - 1] in " \t\n\r\U{c}"))
          || (cmd[i] == '&' && !(i > 0 && cmd[i - 1] == '>') && !(i + 1 < |cmd| && cmd[i + 1] == '>')))
  {
    forall c: char ensures AsciiWhitespace(c) <==> c in " \t\n\r\U{c}" {
      var white := " \t\n\r\U{c}";
      assert white[0] == ' ' && white[1] == '\t' && white[2] == '\n' && white[3] == '\r' && white[4] == '\U{c}';
    }
    var marks := "|;\n";
    assert marks[0] == '|' && marks[1] == ';' && marks[2] == '\n';
  }

  // ----- a here-document in the text -----

  /** A `<` that is neither quoted, escaped nor in a comment. */
  ghost predicate Angle(cmd: string, i: nat)
  {
    i < |cmd| && cmd[i] == '<' && ModeAt(cmd, i) == Plain
  }

  /** How many such `<` stand directly before `i`. */
  ghost function AnglesBefore(cmd: string, i: nat): nat
  {
    if i > 0 && Angle(cmd, i - 1) then 1 + AnglesBefore(cmd, i - 1) else 0
  }

  /** A `<<` that no `<<<` has a part in, before what may name the end of a document: before it
      stand only whole `<<<`, and behind it no further `<`. */
  ghost predicate HereDocument(cmd: string, h: nat)
  {
    && Angle(cmd, h) && Angle(cmd, h + 1) && !Angle(cmd, h + 2) && AnglesBefore(cmd, h) % 3 == 0
    && OpensHeredoc(cmd[h + 2..])
  }

  ghost predicate OpenedBefore(cmd: string, i: nat)
  {
    exists h: nat :: h < i && HereDocument(cmd, h)
  }

  predicate BeginsName(c: char)
  {
    'a' <= c <= 'z' || 'A' <= c <= 'Z' || c == '_' || c == '\'' || c == '"' || c == '\\'
  }

  /** Behind `i` dashes and then white space up to `j`, a name begins, perhaps quoted. */
  ghost predicate NameBehind(after: string, i: nat, j: nat)
  {
    i <= j < |after| && BeginsName(after[j])
    && (forall k :: 0 <= k < i ==> after[k] == '-') && (forall k :: i <= k < j ==> IsWhitespace(after[k]))
  }

  lemma NameIsBehind(after: string, d: nat, w: nat, i: nat, j: nat)
    requires d + w <= |after| && NameBehind(after, i, j)
    requires (forall k :: 0 <= k < d ==> after[k] == '-') && (d < |after| ==> after[d] != '-')
    requires (forall k :: d <= k < d + w ==> IsWhitespace(after[k]))
    requires d + w < |after| ==> !IsWhitespace(after[d + w])
    ensures i == d && j == d + w
  {
    assert i <= d;
    assert !IsWhitespace('-') && !BeginsName('-');
    assert i < j ==> IsWhitespace(after[i]);
  }

  lemma OpensHeredocIff(after: string)
    ensures OpensHeredoc(after) <==> exists i, j :: NameBehind(after, i, j)
  {
    var d := DashesOf(after);
    var w := SpaceOf(after[d..]);
    assert after[d..][w..] == after[d + w..];
    assert forall k :: d <= k < |after| ==> after[k] == after[d..][k - d];
    if i, j :| NameBehind(after, i, j) {
      NameIsBehind(after, d, w, i, j);
    }
    if OpensHeredoc(after) {
      assert NameBehind(after, d, d + w);
    }
  }

  lemma {:induction false} DashesOf(s: string) returns (n: nat)
    ensures n <= |s| && TrimDashes(s) == s[n..] && (forall k :: 0 <= k < n ==> s[k] == '-')
    ensures n < |s| ==> s[n] != '-'
  {
    n := 0;
    if s != "" && s[0] == '-' {
      n := DashesOf(s[1..]);
      n := n + 1;
      assert s[1..][n - 1..] == s[n..];
      assert forall k :: 0 < k < n ==> s[k] == s[1..][k - 1];
    }
  }

  lemma {:induction false} SpaceOf(s: string) returns (n: nat)
    ensures n <= |s| && TrimStart(s) == s[n..] && (forall k :: 0 <= k < n ==> IsWhitespace(s[k]))
    ensures n < |s| ==> !IsWhitespace(s[n])
  {
    n := 0;
    if s != "" && IsWhitespace(s[0]) {
      n := SpaceOf(s[1..]);
      n := n + 1;
      assert s[1..][n - 1..] == s[n..];
      assert forall k :: 0 < k < n ==> s[k] == s[1..][k - 1];
    }
  }

  // ----- what the loop knows of it -----

  ghost predicate Aligned(cmd: string, i: nat)
  {
    Angle(cmd, i) ==> AnglesBefore(cmd, i) % 3 == 0
  }

  /** The scan stands at the first `<` of an operator, and has noticed the here-documents behind it. */
  ghost predicate Noticed(cmd: string, s: Scan)
  {
    Aligned(cmd, s.i) && (s.heredoc <==> OpenedBefore(cmd, s.i))
  }

  lemma OpenedOn(cmd: string, i: nat, j: nat)
    requires i <= j && forall k: nat :: i <= k < j ==> !HereDocument(cmd, k)
    ensures OpenedBefore(cmd, i) <==> OpenedBefore(cmd, j)
  {
  }

  /** Characters other than a plain `<` are passed over. */
  lemma PassedOver(cmd: string, s: Scan, t: Scan)
    requires Noticed(cmd, s) && s.i < t.i && t.heredoc == s.heredoc
    requires forall k: nat :: s.i <= k < t.i ==> !Angle(cmd, k)
    ensures Noticed(cmd, t)
  {
    OpenedOn(cmd, s.i, t.i);
    assert !Angle(cmd, t.i - 1);
  }

  lemma QuotedNotices(cmd: string, splitPipes: bool, s: Scan)
    requires Inv(cmd, splitPipes, s) && Noticed(cmd, s) && !s.done && s.i < |cmd|
    requires s.escaped || s.quote.Some? || cmd[s.i] in {'\\', '\'', '"'}
    ensures !Step(cmd, splitPipes, s).done && Noticed(cmd, Step(cmd, splitPipes, s))
  {
    assert !Angle(cmd, s.i);
    PassedOver(cmd, s, Step(cmd, splitPipes, s));
  }

  lemma HereStringNotices(cmd: string, s: Scan)
    requires Noticed(cmd, s) && Angle(cmd, s.i) && At(cmd, s.i + 1, '<') && At(cmd, s.i + 2, '<')
    ensures Noticed(cmd, s.(i := s.i + 3))
  {
    var i := s.i;
    assert Angle(cmd, i + 1);
    assert Angle(cmd, i + 2);
    assert AnglesBefore(cmd, i + 1) == AnglesBefore(cmd, i) + 1;
    assert AnglesBefore(cmd, i + 2) == AnglesBefore(cmd, i) + 2;
    assert AnglesBefore(cmd, i + 3) == AnglesBefore(cmd, i) + 3;
    assert !HereDocument(cmd, i) && !HereDocument(cmd, i + 1) && !HereDocument(cmd, i + 2);
    OpenedOn(cmd, i, i + 3);
  }

  lemma TwoAnglesNotice(cmd: string, s: Scan)
    requires Noticed(cmd, s) && Angle(cmd, s.i) && At(cmd, s.i + 1, '<') && !At(cmd, s.i + 2, '<')
    ensures Noticed(cmd, s.(heredoc := s.heredoc || OpensHeredoc(cmd[s.i + 2..]), i := s.i + 2))
  {
    var i := s.i;
    assert Angle(cmd, i + 1);
    assert AnglesBefore(cmd, i + 1) == AnglesBefore(cmd, i) + 1;
    assert HereDocument(cmd, i) <==> OpensHeredoc(cmd[i + 2..]);
    assert !HereDocument(cmd, i + 1);
    if HereDocument(cmd, i) {
      assert OpenedBefore(cmd, i + 2);
    } else {
      OpenedOn(cmd, i, i + 2);
    }
  }

  lemma OneAngleNotices(cmd: string, s: Scan)
    requires Noticed(cmd, s) && Angle(cmd, s.i) && !At(cmd, s.i + 1, '<')
    ensures Noticed(cmd, s.(i := s.i + 1))
  {
    assert !HereDocument(cmd, s.i);
    OpenedOn(cmd, s.i, s.i + 1);
  }

  lemma WhichAngles(cmd: string, i: nat)
    requires At(cmd, i, '<')
    ensures StartsWith(cmd[i..], "<<") <==> At(cmd, i + 1, '<')
    ensures StartsWith(cmd[i..], "<<<") <==> At(cmd, i + 1, '<') && At(cmd, i + 2, '<')
  {
    var rest := cmd[i..];
    assert |rest| >= 2 ==> rest[..2] == [rest[0], rest[1]];
    assert |rest| >= 3 ==> rest[..3] == [rest[0], rest[1], rest[2]];
  }

  lemma AngleNotices(cmd: string, splitPipes: bool, s: Scan)
    requires Inv(cmd, splitPipes, s) && Noticed(cmd, s) && !s.done && Angle(cmd, s.i)
    ensures !Step(cmd, splitPipes, s).done && Noticed(cmd, Step(cmd, splitPipes, s))
  {
    WhichAngles(cmd, s.i);
    if !At(cmd, s.i + 1, '<') {
      OneAngleNotices(cmd, s);
    } else if At(cmd, s.i + 2, '<') {
      HereStringNotices(cmd, s);
    } else {
      TwoAnglesNotice(cmd, s);
    }
  }

  /** The text of a comment holds no plain `<` and no plain newline. */
  lemma CommentSkips(cmd: string, i: nat)
    requires i < |cmd| && OpensComment(cmd, i) && ModeAt(cmd, i) == Plain
    ensures var newline := i + Find(cmd[i..], '\n');
      && (forall k: nat :: i <= k < newline ==> !Angle(cmd, k))
      && (forall k: nat :: i <= k < newline ==> cmd[k] != '\n')
      && (newline < |cmd| ==> cmd[newline] == '\n')
  {
    var n := Find(cmd[i..], '\n');
    assert forall k :: i <= k < i + n ==> cmd[k] == cmd[i..][..n][k - i];
    forall k: nat | i <= k < i + n ensures !Angle(cmd, k) {
      if k > i {
        CommentMode(cmd, i, k);
      }
    }
  }

  lemma OperateNotices(cmd: string, splitPipes: bool, s: Scan)
    requires Inv(cmd, splitPipes, s) && Noticed(cmd, s) && !s.done && ModeOf(s) == Plain && s.i < |cmd|
    requires cmd[s.i] != '<'
    ensures var t := Operate(cmd, splitPipes, s); !t.done ==> Noticed(cmd, t)
  {
    var t := Operate(cmd, splitPipes, s);
    if OpensComment(cmd, s.i) {
      CommentSkips(cmd, s.i);
    }
    if !t.done {
      assert forall k: nat :: s.i <= k < t.i ==> !Angle(cmd, k);
      PassedOver(cmd, s, t);
    }
  }

  lemma StepNotices(cmd: string, splitPipes: bool, s: Scan)
    requires Inv(cmd, splitPipes, s) && Noticed(cmd, s) && !s.done && s.i < |cmd|
    ensures var t := Step(cmd, splitPipes, s); !t.done ==> Noticed(cmd, t)
  {
    if s.escaped || s.quote.Some? || cmd[s.i] in {'\\', '\'', '"'} {
      QuotedNotices(cmd, splitPipes, s);
    } else if cmd[s.i] == '<' {
      AngleNotices(cmd, splitPipes, s);
    } else {
      NoAngle(cmd, s.i);
      OperateNotices(cmd, splitPipes, s);
    }
  }

  // ----- stopping -----

  ghost predicate PlainNewline(cmd: string, e: nat)
  {
    e < |cmd| && cmd[e] == '\n' && ModeAt(cmd, e) == Plain
  }

  /** The scan comes by every plain newline; it ends before one only at another, behind a here-document. */
  lemma StepReaches(cmd: string, splitPipes: bool, s: Scan, e: nat)
    requires Inv(cmd, splitPipes, s) && !s.done && s.i < e && PlainNewline(cmd, e)
    ensures var t := Step(cmd, splitPipes, s);
      if t.done then s.heredoc && t.out == s.out + [Cut(s, s.i)] else t.i <= e
  {
    if s.escaped || s.quote.Some? || cmd[s.i] in {'\\', '\'', '"'} {
    } else if cmd[s.i] == '<' {
      WhichAngles(cmd, s.i);
    } else {
      NoAngle(cmd, s.i);
      OperateReaches(cmd, splitPipes, s, e);
    }
  }

  lemma OperateReaches(cmd: string, splitPipes: bool, s: Scan, e: nat)
    requires Inv(cmd, splitPipes, s) && !s.done && ModeOf(s) == Plain && s.i < e && PlainNewline(cmd, e)
    ensures var t := Operate(cmd, splitPipes, s);
      if t.done then s.heredoc && t.out == s.out + [Cut(s, s.i)] else t.i <= e
  {
    if OpensComment(cmd, s.i) {
      CommentSkips(cmd, s.i);
    }
  }

  lemma NewlineStep(cmd: string, splitPipes: bool, s: Scan)
    requires Inv(cmd, splitPipes, s) && !s.done && PlainNewline(cmd, s.i)
    ensures var t := Step(cmd, splitPipes, s);
      && t.out == s.out + [Cut(s, s.i)]
      && (if s.heredoc then t.done else !t.done && t.start == s.i + 1)
  {
    assert ModeOf(s) == Plain;
    NoAngle(cmd, s.i);
  }

  ghost predicate EndsBy(out: seq<Slice>, e: nat)
  {
    forall k :: 0 <= k < |out| ==> out[k].0 <= e && out[k].1 <= e
  }

  lemma PushEndsBy(cmd: string, splitPipes: bool, s: Scan, e: nat)
    requires Inv(cmd, splitPipes, s) && s.i <= e
    ensures EndsBy(s.out + [Cut(s, s.i)], e)
  {
    assert forall k :: 0 <= k < |s.out| ==> GoodSlice(cmd, s.out[k]);
  }

  lemma {:induction false} RestStops(cmd: string, splitPipes: bool, s: Scan, e: nat)
    requires Inv(cmd, splitPipes, s) && Noticed(cmd, s) && !s.done && s.i <= e
    requires PlainNewline(cmd, e) && OpenedBefore(cmd, e)
    ensures EndsBy(Rest(cmd, splitPipes, s), e)
    decreases |cmd| - s.i
  {
    PushEndsBy(cmd, splitPipes, s, e);
    var t := Step(cmd, splitPipes, s);
    if s.i == e {
      NewlineStep(cmd, splitPipes, s);
    } else {
      StepReaches(cmd, splitPipes, s, e);
      if !t.done {
        StepInv(cmd, splitPipes, s);
        StepNotices(cmd, splitPipes, s);
        RestStops(cmd, splitPipes, t, e);
      }
    }
  }

  // ----- going on -----

  ghost predicate BeginsAt(out: seq<Slice>, i: nat)
  {
    exists k :: 0 <= k < |out| && out[k].0 == i
  }

  lemma StepPushes(cmd: string, splitPipes: bool, s: Scan)
    requires !s.done && s.i < |cmd|
    ensures var t := Step(cmd, splitPipes, s);
      || (t.out == s.out && t.start == s.start && !t.done)
      || (|t.out| == |s.out| + 1 && t.out[..|s.out|] == s.out && t.out[|s.out|].0 == s.start)
  {
  }

  lemma {:induction false} FoundStays(cmd: string, splitPipes: bool, s: Scan, i: nat)
    requires BeginsAt(s.out, i)
    ensures BeginsAt(Rest(cmd, splitPipes, s), i)
    decreases !s.done, |cmd| - s.i
  {
    var k :| 0 <= k < |s.out| && s.out[k].0 == i;
    if !s.done {
      if s.i >= |cmd| {
        assert (s.out + [Cut(s, |cmd|)])[k] == s.out[k];
      } else {
        var t := Step(cmd, splitPipes, s);
        StepPushes(cmd, splitPipes, s);
        assert t.out[k] == s.out[k];
        FoundStays(cmd, splitPipes, t, i);
      }
    }
  }

  /** The open slice is found in the end. */
  lemma {:induction false} OpenIsFound(cmd: string, splitPipes: bool, s: Scan)
    requires !s.done
    ensures BeginsAt(Rest(cmd, splitPipes, s), s.start)
    decreases |cmd| - s.i
  {
    if s.i >= |cmd| {
      assert (s.out + [Cut(s, |cmd|)])[|s.out|].0 == s.start;
    } else {
      var t := Step(cmd, splitPipes, s);
      StepPushes(cmd, splitPipes, s);
      if t.out == s.out {
        OpenIsFound(cmd, splitPipes, t);
      } else {
        FoundStays(cmd, splitPipes, t, s.start);
      }
    }
  }

  lemma {:induction false} RestGoesOn(cmd: string, splitPipes: bool, s: Scan, e: nat)
    requires Inv(cmd, splitPipes, s) && Noticed(cmd, s) && !s.done && s.i <= e
    requires PlainNewline(cmd, e) && !OpenedBefore(cmd, e)
    ensures BeginsAt(Rest(cmd, splitPipes, s), e + 1)
    decreases |cmd| - s.i
  {
    var t := Step(cmd, splitPipes, s);
    assert !s.heredoc;
    if s.i == e {
      NewlineStep(cmd, splitPipes, s);
      OpenIsFound(cmd, splitPipes, t);
    } else {
      StepReaches(cmd, splitPipes, s, e);
      StepInv(cmd, splitPipes, s);
      StepNotices(cmd, splitPipes, s);
      RestGoesOn(cmd, splitPipes, t, e);
    }
  }

  // ----- both modes -----

  /** Behind a newline outside quotes, escapes and comments there is a slice, which begins right there,
      exactly when no here-document was opened before it; otherwise no slice begins or ends behind it. */
  lemma StopsAtHeredoc(cmd: string, splitPipes: bool, e: nat)
    requires e < |cmd| && cmd[e] == '\n' && ModeAt(cmd, e) == Plain
    ensures (exists h: nat :: h < e && HereDocument(cmd, h)) ==>
      forall k :: 0 <= k < |Slices(cmd, splitPipes)| ==>
        Slices(cmd, splitPipes)[k].0 <= e && Slices(cmd, splitPipes)[k].1 <= e
    ensures !(exists h: nat :: h < e && HereDocument(cmd, h)) ==>
      exists k :: 0 <= k < |Slices(cmd, splitPipes)| && Slices(cmd, splitPipes)[k].0 == e + 1
  {
    if OpenedBefore(cmd, e) {
      RestStops(cmd, splitPipes, START, e);
    } else {
      RestGoesOn(cmd, splitPipes, START, e);
      assert BeginsAt(Slices(cmd, splitPipes), e + 1);
    }
  }
}
