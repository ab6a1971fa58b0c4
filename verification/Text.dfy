/** The string operations of Rust's standard library that the models call. */
module Text {
  import opened Results

  // ----- searching -----

  /** The position of the first `c`, or the length of `s`. */
  function Find(s: string, c: char): (i: nat)
    ensures i <= |s|
    ensures forall j :: 0 <= j < i ==> s[j] != c
    ensures i < |s| ==> s[i] == c
  {
    if s == "" || s[0] == c then 0
    else
      assert forall j :: 1 <= j < |s| ==> s[j] == s[1..][j - 1];
      Find(s[1..], c) + 1
  }

  lemma FindIs(s: string, c: char, i: nat)
    requires i <= |s| && c !in s[..i] && (i < |s| ==> s[i] == c)
    ensures Find(s, c) == i
  {
    var k := Find(s, c);
    assert forall x :: 0 <= x < i ==> s[..i][x] == s[x];
    assert forall x :: 0 <= x < k ==> s[..k][x] == s[x];
  }

  predicate StartsWith(s: string, prefix: string)
  {
    |prefix| <= |s| && s[..|prefix|] == prefix
  }

  predicate EndsWith(s: string, suffix: string)
  {
    |suffix| <= |s| && s[|s| - |suffix|..] == suffix
  }

  // ----- splitting -----

  function SplitOnce(s: string, c: char): Option<(string, string)>
  {
    var i := Find(s, c);
    if i < |s| then Some((s[..i], s[i + 1..])) else None
  }

  lemma SplitOnceAt(before: string, c: char, after: string)
    requires c !in before
    ensures SplitOnce(before + [c] + after, c) == Some((before, after))
  {
    var s := before + [c] + after;
    assert s[..|before|] == before && s[|before| + 1..] == after;
    FindIs(s, c, |before|);
  }

  function Split(s: string, c: char): (parts: seq<string>)
    ensures parts != []
    decreases |s|
  {
    var i := Find(s, c);
    if i < |s| then [s[..i]] + Split(s[i + 1..], c) else [s]
  }

  function Join(parts: seq<string>, sep: string): string
  {
    if parts == [] then ""
    else if |parts| == 1 then parts[0]
    else parts[0] + sep + Join(parts[1..], sep)
  }

  lemma SplitCons(part: string, c: char, rest: string)
    requires c !in part
    ensures Split(part + [c] + rest, c) == [part] + Split(rest, c)
    ensures Split(part, c) == [part]
  {
    var s := part + [c] + rest;
    assert s[..|part|] == part && s[|part| + 1..] == rest;
    FindIs(s, c, |part|);
    assert part[..|part|] == part;
    FindIs(part, c, |part|);
  }

  /** A text that holds `c` is what stands before the first, that one, and the rest. */
  lemma CutFirst(s: string, c: char) returns (head: string, more: string)
    requires c in s
    ensures s == head + [c] + more && c !in head
  {
    var i := Find(s, c);
    head, more := s[..i], s[i + 1..];
  }

  lemma SplitNone(s: string, c: char)
    requires c !in s
    ensures Split(s, c) == [s]
  {
    assert s[..|s|] == s;
    FindIs(s, c, |s|);
  }

  lemma JoinCons(part: string, parts: seq<string>, sep: string)
    requires parts != []
    ensures Join([part] + parts, sep) == part + sep + Join(parts, sep)
  {
    assert ([part] + parts)[1..] == parts;
  }

  /** Joining with a character undoes splitting at it. */
  lemma {:induction false} JoinSplit(s: string, c: char)
    ensures Join(Split(s, c), [c]) == s
    decreases |s|
  {
    if c in s {
      var head, more := CutFirst(s, c);
      JoinSplit(more, c);
      SplitCons(head, c, more);
      JoinCons(head, Split(more, c), [c]);
    } else {
      SplitNone(s, c);
    }
  }

  /** Splitting, one character at a time. */
  lemma SplitHead(a: char, s: string, c: char)
    ensures Split([a] + s, c) ==
      if a == c then [""] + Split(s, c) else [[a] + Split(s, c)[0]] + Split(s, c)[1..]
  {
    if a == c {
      SplitCons("", c, s);
      assert "" + [c] + s == [a] + s;
    } else if c in s {
      var head, more := CutFirst(s, c);
      SplitCons(head, c, more);
      SplitCons([a] + head, c, more);
      assert [a] + s == ([a] + head) + [c] + more;
    } else {
      SplitNone(s, c);
      SplitNone([a] + s, c);
    }
  }

  /** Splitting at a character undoes joining with it, for parts that do not hold it. */
  lemma {:induction false} SplitJoin(parts: seq<string>, c: char)
    requires parts != [] && forall i :: 0 <= i < |parts| ==> c !in parts[i]
    ensures Split(Join(parts, [c]), c) == parts
    decreases |parts|
  {
    assert parts == [parts[0]] + parts[1..];
    if |parts| > 1 {
      SplitJoin(parts[1..], c);
    }
    SplitCons(parts[0], c, Join(parts[1..], [c]));
  }

  // ----- lines -----

  function StripCr(line: string): string
  {
    if line != "" && line[|line| - 1] == '\r' then line[..|line| - 1] else line
  }

  /** `str::lines`: `\n` or `\r\n` ends a line; a last line without an end is kept as it is. */
  function Lines(s: string): seq<string>
    decreases |s|
  {
    if s == "" then []
    else
      var i := Find(s, '\n');
      if i < |s| then [StripCr(s[..i])] + Lines(s[i + 1..]) else [s]
  }

  /** A line that `lines` gives back unchanged when it ends with `\n`. */
  predicate PlainLine(line: string)
  {
    '\n' !in line && (line == "" || line[|line| - 1] != '\r')
  }

  lemma LinesCons(line: string, end: string, rest: string)
    requires '\n' !in line && (end == "\n" || end == "\r\n")
    ensures Lines(line + end + rest) == [if end == "\n" then StripCr(line) else line] + Lines(rest)
  {
    var s := line + end + rest;
    var raw := if end == "\n" then line else line + "\r";
    assert s[..|raw|] == raw && s[|raw| + 1..] == rest;
    FindIs(s, '\n', |raw|);
    assert StripCr(line + "\r") == line;
  }

  /** A text with a newline is its first line, the newline, and the rest. */
  lemma CutLine(text: string) returns (head: string, more: string)
    requires '\n' in text
    ensures text == head + "\n" + more && '\n' !in head && |head| == Find(text, '\n')
  {
    var i := Find(text, '\n');
    assert text[..|text|] == text;
    head, more := text[..i], text[i + 1..];
  }

  /** A text whose last line is ended. */
  predicate Ended(content: string)
  {
    content == "" || content[|content| - 1] == '\n'
  }

  lemma EndsAtNewline(content: string) returns (head: string, more: string)
    requires '\n' in content
    ensures content == head + "\n" + more && '\n' !in head
    ensures Ended(more) <==> Ended(content)
    ensures !Ended(content) ==> more != "" && more[|more| - 1] == content[|content| - 1]
    ensures Lines(content) == [StripCr(head)] + Lines(more)
  {
    head, more := CutLine(content);
    LinesCons(head, "\n", more);
  }

  lemma Regrouped(a: string, more: string, rest: string)
    ensures a + "\n" + more + rest == a + "\n" + (more + rest)
  {
  }

  lemma ListRegrouped(line: string, b: seq<string>, c: seq<string>)
    ensures [line] + (b + c) == ([line] + b) + c
  {
  }

  /** The lines of whole lines and what follows them. */
  lemma {:induction false} LinesOfEnded(content: string, rest: string)
    requires Ended(content)
    ensures Lines(content + rest) == Lines(content) + Lines(rest)
    decreases |content|
  {
    if content == "" {
      assert content + rest == rest;
    } else {
      assert content[|content| - 1] in content;
      var head, more := EndsAtNewline(content);
      LinesOfEnded(more, rest);
      Regrouped(head, more, rest);
      LinesCons(head, "\n", more + rest);
      ListRegrouped(StripCr(head), Lines(more), Lines(rest));
    }
  }

  /** Lines written one after another, each with its end. */
  function Terminated(lines: seq<string>, end: string): string
  {
    if lines == [] then "" else lines[0] + end + Terminated(lines[1..], end)
  }

  /** Reading back written lines gives the lines, whichever line end they were written with. */
  lemma {:induction false} LinesTerminated(lines: seq<string>, end: string, rest: string)
    requires end == "\n" || end == "\r\n"
    requires forall i :: 0 <= i < |lines| ==> PlainLine(lines[i])
    ensures Lines(Terminated(lines, end) + rest) == lines + Lines(rest)
  {
    if lines == [] {
      assert "" + rest == rest;
    } else {
      var tail := Terminated(lines[1..], end) + rest;
      LinesTerminated(lines[1..], end, rest);
      LinesCons(lines[0], end, tail);
      assert StripCr(lines[0]) == lines[0];
      TerminatedCons(lines, end, rest);
      ConsAppend(lines, Lines(rest));
    }
  }

  lemma TerminatedCons(lines: seq<string>, end: string, rest: string)
    requires lines != []
    ensures Terminated(lines, end) + rest == lines[0] + end + (Terminated(lines[1..], end) + rest)
  {
  }

  lemma ConsAppend(a: seq<string>, b: seq<string>)
    requires a != []
    ensures [a[0]] + (a[1..] + b) == a + b
  {
  }

  lemma {:induction false} TerminatedAppend(a: seq<string>, b: seq<string>, end: string)
    ensures Terminated(a + b, end) == Terminated(a, end) + Terminated(b, end)
  {
    if a == [] {
      assert a + b == b;
    } else {
      assert (a + b)[1..] == a[1..] + b;
      TerminatedAppend(a[1..], b, end);
    }
  }

  lemma TerminatedGrows(lines: seq<string>, k: nat, end: string)
    requires k < |lines|
    ensures Terminated(lines[..k + 1], end) == Terminated(lines[..k], end) + lines[k] + end
  {
    TerminatedAppend(lines[..k], [lines[k]], end);
    assert lines[..k + 1] == lines[..k] + [lines[k]];
    assert Terminated([lines[k]], end) == lines[k] + end + Terminated([], end);
  }

  lemma {:induction false} JoinTerminates(lines: seq<string>, end: string)
    requires lines != []
    ensures Join(lines, end) + end == Terminated(lines, end)
  {
    if |lines| > 1 {
      JoinTerminates(lines[1..], end);
      assert Join(lines, end) + end == lines[0] + end + (Join(lines[1..], end) + end);
    } else {
      assert Terminated(lines[1..], end) == "";
      assert lines[0] + end + "" == lines[0] + end;
    }
  }

  // ----- trimming -----

  /** `char::is_whitespace`, the Unicode property White_Space. */
  predicate IsWhitespace(c: char)
  {
    '\U{9}' <= c <= '\U{d}' || c == ' ' || c == '\U{85}' || c == '\U{a0}' || c == '\U{1680}'
    || '\U{2000}' <= c <= '\U{200a}' || c == '\U{2028}' || c == '\U{2029}' || c == '\U{202f}'
    || c == '\U{205f}' || c == '\U{3000}'
  }

  function TrimStart(s: string): (r: string)
    ensures r == "" || !IsWhitespace(r[0])
  {
    if s != "" && IsWhitespace(s[0]) then TrimStart(s[1..]) else s
  }

  function TrimEnd(s: string): (r: string)
    ensures r == "" || !IsWhitespace(r[|r| - 1])
    ensures r <= s
  {
    if s != "" && IsWhitespace(s[|s| - 1]) then TrimEnd(s[..|s| - 1]) else s
  }

  function Trim(s: string): string
  {
    TrimEnd(TrimStart(s))
  }

  lemma TrimTight(s: string)
    requires s != "" ==> !IsWhitespace(s[0]) && !IsWhitespace(s[|s| - 1])
    ensures Trim(s) == s
  {
  }

  ghost predicate Blank(s: string)
  {
    forall i :: 0 <= i < |s| ==> IsWhitespace(s[i])
  }

  lemma {:induction false} TrimStartSplits(s: string) returns (p: string)
    ensures Blank(p) && s == p + TrimStart(s)
  {
    if s != "" && IsWhitespace(s[0]) {
      var q := TrimStartSplits(s[1..]);
      p := [s[0]] + q;
      assert s == [s[0]] + s[1..];
    } else {
      p := "";
    }
  }

  lemma {:induction false} TrimEndSplits(s: string) returns (q: string)
    ensures Blank(q) && s == TrimEnd(s) + q
  {
    if s != "" && IsWhitespace(s[|s| - 1]) {
      var p := TrimEndSplits(s[..|s| - 1]);
      q := p + [s[|s| - 1]];
      assert s == s[..|s| - 1] + [s[|s| - 1]];
    } else {
      q := "";
    }
  }

  lemma TrimSplits(s: string) returns (p: string, q: string)
    ensures Blank(p) && Blank(q) && s == p + Trim(s) + q
    ensures Trim(s) != "" ==> !IsWhitespace(Trim(s)[0])
  {
    p := TrimStartSplits(s);
    q := TrimEndSplits(TrimStart(s));
  }

  lemma {:induction false} TrimBlankPrefix(p: string, s: string)
    requires Blank(p)
    ensures Trim(p + s) == Trim(s)
  {
    if p == "" {
      assert p + s == s;
    } else {
      assert (p + s)[1..] == p[1..] + s;
      TrimBlankPrefix(p[1..], s);
    }
  }

  lemma {:induction false} TrimStartSuffix(s: string, c: char)
    requires IsWhitespace(c)
    ensures TrimStart(s + [c]) == if TrimStart(s) == "" then "" else TrimStart(s) + [c]
  {
    if s == "" {
      assert (s + [c])[1..] == "";
    } else if IsWhitespace(s[0]) {
      assert (s + [c])[1..] == s[1..] + [c];
      TrimStartSuffix(s[1..], c);
    }
  }

  lemma TrimSuffix(s: string, c: char)
    requires IsWhitespace(c)
    ensures Trim(s + [c]) == Trim(s)
  {
    TrimStartSuffix(s, c);
    var x := TrimStart(s);
    assert (x + [c])[..|x|] == x;
  }

  lemma {:induction false} LinesHaveNoNewline(s: string)
    ensures forall i :: 0 <= i < |Lines(s)| ==> '\n' !in Lines(s)[i]
    decreases |s|
  {
    if s != "" {
      var i := Find(s, '\n');
      if i < |s| {
        LinesHaveNoNewline(s[i + 1..]);
        assert forall x :: x in StripCr(s[..i]) ==> x in s[..i];
      }
    }
  }

  ghost function StripEach(lines: seq<string>): seq<string>
  {
    seq(|lines|, i requires 0 <= i < |lines| => StripCr(lines[i]))
  }

  lemma StripEachCons(line: string, lines: seq<string>)
    ensures StripEach([line] + lines) == [StripCr(line)] + StripEach(lines)
  {
  }

  /** Lines written back lose at most a stray carriage return each. */
  lemma {:induction false} LinesStripped(lines: seq<string>)
    requires forall i :: 0 <= i < |lines| ==> '\n' !in lines[i]
    ensures Lines(Terminated(lines, "\n")) == StripEach(lines)
  {
    if lines != [] {
      var line, rest := lines[0], lines[1..];
      LinesStripped(rest);
      LinesCons(line, "\n", Terminated(rest, "\n"));
      StripEachCons(line, rest);
      assert lines == [line] + rest;
    }
  }
}
