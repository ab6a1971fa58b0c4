/** `.ivar/secrets/agents.env`: setting a key while keeping every other line. */
module AgentSecrets {
  import opened Json
  import opened Results
  import opened Secrets
  import opened Text

  /** The key before the first `=` of a raw line. */
  function KeyOf(line: string): Option<string>
  {
    var parts := SplitOnce(line, '=');
    if parts.None? then None else Some(Trim(parts.value.0))
  }

  /** The first line that sets `name`, or the number of lines. */
  function LineOf(lines: seq<string>, name: string): (k: nat)
    ensures k <= |lines|
    ensures forall i :: 0 <= i < k ==> KeyOf(lines[i]) != Some(name)
    ensures k < |lines| ==> KeyOf(lines[k]) == Some(name)
  {
    if lines == [] || KeyOf(lines[0]) == Some(name) then 0
    else
      assert forall i :: 1 <= i < |lines| ==> lines[i] == lines[1..][i - 1];
      LineOf(lines[1..], name) + 1
  }

  /** The lines with the one that sets `name` replaced, or the setting added at the end. */
  function Edited(lines: seq<string>, name: string, value: string): seq<string>
  {
    var k := LineOf(lines, name);
    if k < |lines| then lines[k := EntryLine(name, value)] else lines + [EntryLine(name, value)]
  }

  // ----- the raw key of a line is the key it is read under -----

  lemma SplitThroughBlank(p: string, t: string, q: string)
    requires Blank(p) && Blank(q)
    ensures SplitOnce(t, '=').Some? ==>
      SplitOnce(p + t + q, '=') == Some((p + SplitOnce(t, '=').value.0, SplitOnce(t, '=').value.1 + q))
    ensures SplitOnce(t, '=').None? ==> SplitOnce(p + t + q, '=').None?
  {
    var i := Find(t, '=');
    if i < |t| {
      var a, b := t[..i], t[i + 1..];
      assert t == a + ['='] + b;
      assert p + t + q == (p + a) + ['='] + (b + q);
      SplitOnceAt(p + a, '=', b + q);
    } else {
      assert t[..i] == t;
      var s := p + t + q;
      assert s[..|s|] == s;
      FindIs(s, '=', |s|);
    }
  }

  lemma ReadKeyIsRawKey(line: string)
    ensures ReadLine(line).Entry? ==> KeyOf(line) == Some(ReadLine(line).key)
  {
    var p, q := TrimSplits(line);
    SplitThroughBlank(p, Trim(line), q);
    if ReadLine(line).Entry? {
      TrimBlankPrefix(p, SplitOnce(Trim(line), '=').value.0);
    }
  }

  lemma RawKeyIsRead(line: string, name: string)
    requires IsValidKey(name) && KeyOf(line) == Some(name)
    ensures ReadLine(line).Entry? && ReadLine(line).key == name
  {
    var p, q := TrimSplits(line);
    var t := Trim(line);
    SplitThroughBlank(p, t, q);
    var a := SplitOnce(t, '=').value.0;
    TrimBlankPrefix(p, a);
    assert a != "" by {
      assert Trim("") == "";
    }
    assert t[0] == a[0];
    assert TrimStart(a) == a && Trim(a) <= a;
    assert t[0] == name[0];
  }

  // ----- folding over lines -----

  lemma {:induction false} AddLinesConcat(entries: Entries, a: seq<string>, b: seq<string>, n: nat)
    ensures AddLines(entries, a + b, n) ==
      (var mid := AddLines(entries, a, n); if mid.Err? then mid else AddLines(mid.value, b, n + |a|))
    decreases |a|
  {
    if a == [] {
      assert a + b == b;
    } else {
      assert (a + b)[1..] == a[1..] + b;
      var next := AddLine(entries, a[0], n);
      if next.Ok? {
        AddLinesConcat(next.value, a[1..], b, n + 1);
      }
    }
  }

  lemma {:induction false} KeyNotAdded(entries: Entries, lines: seq<string>, name: string, n: nat)
    requires forall i :: 0 <= i < |lines| ==> KeyOf(lines[i]) != Some(name)
    requires name !in entries && AddLines(entries, lines, n).Ok?
    ensures name !in AddLines(entries, lines, n).value
    decreases |lines|
  {
    if lines != [] {
      ReadKeyIsRawKey(lines[0]);
      KeyNotAdded(AddLine(entries, lines[0], n).value, lines[1..], name, n + 1);
    }
  }

  /** A different value under a key already read changes nothing else about the reading. */
  lemma {:induction false} OtherValue(entries: Entries, lines: seq<string>, name: string, value: string, n: nat)
    requires name in entries && AddLines(entries, lines, n).Ok?
    ensures AddLines(entries[name := value], lines, n) == Ok(AddLines(entries, lines, n).value[name := value])
    decreases |lines|
  {
    if lines != [] {
      var next := AddLine(entries, lines[0], n).value;
      assert AddLine(entries[name := value], lines[0], n) == Ok(next[name := value]) by {
        match ReadLine(lines[0])
        case Entry(key, raw) =>
          assert entries[name := value][key := next[key]] == next[name := value];
        case _ =>
      }
      OtherValue(next, lines[1..], name, value, n + 1);
    }
  }

  lemma AddedUnder(entries: Entries, line: string, n: nat)
    requires ReadLine(line).Entry? && AddLine(entries, line, n).Ok?
    ensures var key, with := ReadLine(line).key, AddLine(entries, line, n).value;
      key in with && with == entries[key := with[key]]
  {
  }

  lemma FirstOfLines(entries: Entries, lines: seq<string>, n: nat)
    requires lines != [] && AddLines(entries, lines, n).Ok?
    ensures AddLine(entries, lines[0], n).Ok?
    ensures AddLines(AddLine(entries, lines[0], n).value, lines[1..], n + 1) == AddLines(entries, lines, n)
  {
  }

  lemma AddLinesThrough(start: Entries, a: seq<string>, b: seq<string>, n: nat) returns (mid: Entries)
    requires AddLines(start, a + b, n).Ok?
    ensures AddLines(start, a, n) == Ok(mid) && AddLines(start, a + b, n) == AddLines(mid, b, n + |a|)
  {
    AddLinesConcat(start, a, b, n);
    mid := AddLines(start, a, n).value;
  }

  lemma AddLinesAfter(start: Entries, a: seq<string>, b: seq<string>, n: nat, mid: Entries)
    requires AddLines(start, a, n) == Ok(mid)
    ensures AddLines(start, a + b, n) == AddLines(mid, b, n + |a|)
  {
    AddLinesConcat(start, a, b, n);
  }

  /** Replacing the first line that sets `name` replaces its value in what is read, and nothing else. */
  lemma ReplacedBetween(start: Entries, a: seq<string>, l: string, b: seq<string>, name: string, value: string, n: nat)
    requires IsValidKey(name) && KeyOf(l) == Some(name) && name !in start
    requires forall i :: 0 <= i < |a| ==> KeyOf(a[i]) != Some(name)
    requires AddLines(start, a + ([l] + b), n).Ok?
    ensures AddLines(start, a + ([EntryLine(name, value)] + b), n)
      == Ok(AddLines(start, a + ([l] + b), n).value[name := value])
  {
    var mid := AddLinesThrough(start, a, [l] + b, n);
    KeyNotAdded(start, a, name, n);
    AddLinesAfter(start, a, [EntryLine(name, value)] + b, n, mid);
    ReplacedFirst(mid, l, b, name, value, n + |a|);
  }

  lemma ReplacedFirst(before: Entries, l: string, b: seq<string>, name: string, value: string, n: nat)
    requires IsValidKey(name) && KeyOf(l) == Some(name) && name !in before
    requires AddLines(before, [l] + b, n).Ok?
    ensures AddLines(before, [EntryLine(name, value)] + b, n) == Ok(AddLines(before, [l] + b, n).value[name := value])
  {
    RawKeyIsRead(l, name);
    FirstOfLines(before, [l] + b, n);
    AddedUnder(before, l, n);
    var with := AddLine(before, l, n).value;
    OtherValue(with, b, name, value, n + 1);
    Overwritten(before, with, name, value);
    AddEntryLine(before, name, value, n);
    AddLinesCons(before, [EntryLine(name, value)] + b, n, before[name := value]);
    assert ([l] + b)[1..] == b && ([EntryLine(name, value)] + b)[1..] == b;
  }

  lemma Overwritten(before: Entries, with: Entries, name: string, value: string)
    requires name in with && with == before[name := with[name]]
    ensures with[name := value] == before[name := value]
  {
  }

  lemma CutAt<T>(xs: seq<T>, k: nat, x: T)
    requires k < |xs|
    ensures xs == xs[..k] + ([xs[k]] + xs[k + 1..]) && xs[k := x] == xs[..k] + ([x] + xs[k + 1..])
  {
  }

  lemma ReplacedReads(lines: seq<string>, name: string, value: string, k: nat)
    requires IsValidKey(name) && k == LineOf(lines, name) < |lines| && AddLines(map[], lines, 1).Ok?
    ensures AddLines(map[], lines[k := EntryLine(name, value)], 1) == Ok(AddLines(map[], lines, 1).value[name := value])
  {
    CutAt(lines, k, EntryLine(name, value));
    ReplacedBetween(map[], lines[..k], lines[k], lines[k + 1..], name, value, 1);
  }

  lemma AppendedReads(lines: seq<string>, name: string, value: string)
    requires IsValidKey(name) && LineOf(lines, name) == |lines| && AddLines(map[], lines, 1).Ok?
    ensures AddLines(map[], lines + [EntryLine(name, value)], 1) == Ok(AddLines(map[], lines, 1).value[name := value])
  {
    var was := AddLines(map[], lines, 1).value;
    KeyNotAdded(map[], lines, name, 1);
    AddEntryLine(was, name, value, 1 + |lines|);
    AddLinesConcat(map[], lines, [EntryLine(name, value)], 1);
    AddLinesCons(was, [EntryLine(name, value)], 1 + |lines|, was[name := value]);
  }

  // ----- the file after the edit -----

  /** The text written: the edited lines, each ended by a newline. */
  function Rewritten(text: string, name: string, value: string): string
  {
    Terminated(Edited(Lines(text), name, value), "\n")
  }

  lemma StripCrReads(line: string)
    ensures ReadLine(StripCr(line)) == ReadLine(line)
  {
    if StripCr(line) != line {
      assert line == StripCr(line) + ['\r'];
      TrimSuffix(StripCr(line), '\r');
    }
  }

  lemma AddStripped(entries: Entries, line: string, n: nat)
    ensures AddLine(entries, StripCr(line), n) == AddLine(entries, line, n)
  {
    StripCrReads(line);
  }

  lemma AddLinesStep(entries: Entries, line: string, rest: seq<string>, n: nat)
    ensures AddLines(entries, [line] + rest, n) ==
      var next := AddLine(entries, line, n); if next.Err? then next else AddLines(next.value, rest, n + 1)
  {
    assert ([line] + rest)[1..] == rest;
  }

  lemma {:induction false} StrippedReads(entries: Entries, lines: seq<string>, n: nat)
    ensures AddLines(entries, StripEach(lines), n) == AddLines(entries, lines, n)
    decreases |lines|
  {
    if lines == [] {
      assert StripEach(lines) == lines;
    } else {
      var line, rest := lines[0], lines[1..];
      StripEachCons(line, rest);
      assert lines == [line] + rest;
      AddStripped(entries, line, n);
      AddLinesStep(entries, line, rest, n);
      AddLinesStep(entries, StripCr(line), StripEach(rest), n);
      var next := AddLine(entries, line, n);
      if next.Ok? {
        StrippedReads(next.value, rest, n + 1);
      }
    }
  }

  lemma EditedHasNoNewline(text: string, name: string, value: string)
    requires IsValidKey(name)
    ensures forall i :: 0 <= i < |Edited(Lines(text), name, value)| ==> '\n' !in Edited(Lines(text), name, value)[i]
  {
    LinesHaveNoNewline(text);
    EntryLineShape(name, value);
  }

  /** Every other line stays, in order, comments and blank lines included; the setting's line is the new one. */
  lemma OtherLinesKept(text: string, name: string, value: string)
    requires IsValidKey(name)
    ensures var was, now, k := Lines(text), Lines(Rewritten(text, name, value)), LineOf(Lines(text), name);
      && |now| == (if k < |was| then |was| else |was| + 1)
      && now[k] == EntryLine(name, value)
      && forall i :: 0 <= i < |was| && i != k ==> now[i] == StripCr(was[i])
  {
    EditedHasNoNewline(text, name, value);
    EntryLineShape(name, value);
    LinesStripped(Edited(Lines(text), name, value));
  }

  /** Reading the edited text gives the old entries with the one key set. */
  lemma RewrittenReads(text: string, name: string, value: string)
    requires IsValidKey(name) && Parsed(text).Ok?
    ensures Parsed(Rewritten(text, name, value)) == Ok(Parsed(text).value[name := value])
  {
    var lines := Lines(text);
    EditedHasNoNewline(text, name, value);
    LinesStripped(Edited(lines, name, value));
    StrippedReads(map[], Edited(lines, name, value), 1);
    if LineOf(lines, name) < |lines| {
      ReplacedReads(lines, name, value, LineOf(lines, name));
    } else {
      AppendedReads(lines, name, value);
    }
  }

  function TextOf(file: Option<string>): string
  {
    if file.None? then "" else file.value
  }

  /** `.ivar/secrets/agents.env`. */
  class AgentFile {
    var file: Option<string>

    constructor (file: Option<string>)
      ensures this.file == file
    {
      this.file := file;
    }

    method Read(ownerOnly: bool) returns (r: Result<Entries, Failure>)
      ensures r == if file.Some? && !ownerOnly then Err(NotOwnerOnly) else Stored(file)
    {
      if file.Some? && !ownerOnly {
        return Err(NotOwnerOnly);
      }
      if file.None? {
        return Ok(map[]);
      }
      r := Parse(file.value);
    }

    /** `ownerOnly` says whether the file, when there is one, grants nothing to group or others. */
    method SetAndWrite(ownerOnly: bool, name: string, value: string) returns (r: Result<Change, Failure>)
      modifies this
      ensures old(file).Some? && !ownerOnly ==> r == Err(NotOwnerOnly)
      ensures r.Err? || r == Ok(Unchanged) ==> file == old(file)
      ensures r.Ok? ==> Stored(old(file)).Ok? && r.value == ChangeOf(Stored(old(file)).value, name, value)
      ensures r.Ok? && r.value != Unchanged ==>
        file == Some(Rewritten(TextOf(old(file)), name, value)) && Stored(file).Ok?
      ensures IsValidKey(name) && (ownerOnly || old(file).None?) && Stored(old(file)).Ok? ==>
        r.Ok? && Stored(file) == Ok(Stored(old(file)).value[name := value])
      ensures (ownerOnly || old(file).None?) && Stored(old(file)).Ok? ==>
        Stored(file).Ok? && (IsValidKey(name) <==> name in Stored(file).value && Stored(file).value[name] == value)
    {
      var read := Read(ownerOnly);
      if read.Err? {
        return Err(read.error);
      }
      var text := TextOf(file);
      ParsedKeysValid(text);
      var change := ChangeOf(read.value, name, value);
      if change == Unchanged {
        assert read.value[name := value] == read.value;
        return Ok(Unchanged);
      }
      var lines := Lines(text);
      var line := EntryLine(name, value);
      var k := LineOf(lines, name);
      if k < |lines| {
        lines := lines[k := line];
      } else {
        lines := lines + [line];
      }
      var updated := Join(lines, "\n");
      updated := updated + "\n";
      JoinTerminates(lines, "\n");
      if IsValidKey(name) {
        RewrittenReads(text, name, value);
      }
      var again := Parse(updated);
      if again.Err? {
        return Err(again.error);
      }
      ParsedKeysValid(updated);
      file := Some(updated);
      r := Ok(change);
    }
  }

  /** A name that is not a key can be written and reported as created, yet never read back. */
  lemma CommentNameIsLost()
    ensures ChangeOf(map[], "#A", "v") == Created
    ensures Parsed(Rewritten("", "#A", "v")) == Ok(map[])
  {
    var line := EntryLine("#A", "v");
    assert Edited([], "#A", "v") == [line];
    LiteralShape("v");
    assert line[0] == '#' && '\n' !in line;
    TrimTight(line);
    LinesStripped([line]);
    LiteralReads("v");
    assert StripCr(line) == line;
    assert StripEach([line]) == [line];
    assert ReadLine(line) == Skip;
    assert AddLines(map[], [line], 1) == AddLines(map[], [], 2);
  }
}
