/** The `KEY="value"` files that hold secrets: the reader, the writer, and the two ways to set a key. */
module Secrets {
  import opened Json
  import opened Order
  import opened Results
  import opened Text

  type Entries = map<string, string>

  datatype Change = Created | Updated | Unchanged

  /** Why a file or a call was refused; a line number counts from one. */
  datatype Failure =
    | Malformed(line: nat)
    | InvalidKey(line: nat)
    | DuplicateKey(line: nat)
    | InvalidValue(line: nat)
    | InvalidName
    | NotOwnerOnly

  // ----- keys -----

  predicate Alpha(c: char)
  {
    'a' <= c <= 'z' || 'A' <= c <= 'Z'
  }

  predicate KeyChar(c: char)
  {
    Alpha(c) || c == '_' || '0' <= c <= '9'
  }

  predicate IsValidKey(name: string)
  {
    name != "" && (Alpha(name[0]) || name[0] == '_') && forall i :: 1 <= i < |name| ==> KeyChar(name[i])
  }

  // ----- reading -----

  /** What a line says before its value is read. */
  datatype Line = Skip | NoEquals | Entry(key: string, raw: string)

  function ReadLine(line: string): Line
  {
    var trimmed := Trim(line);
    if trimmed == "" || trimmed[0] == '#' then Skip
    else
      var parts := SplitOnce(trimmed, '=');
      if parts.None? then NoEquals else Entry(Trim(parts.value.0), Trim(parts.value.1))
  }

  function ReadValue(raw: string): Option<string>
  {
    if StartsWith(raw, "\"") then
      if !EndsWith(raw, "\"") || |raw| < 2 then None else ParseLiteral(raw)
    else Some(raw)
  }

  /** The entries after one more line, the `n`-th. */
  function AddLine(entries: Entries, line: string, n: nat): Result<Entries, Failure>
  {
    match ReadLine(line)
    case Skip => Ok(entries)
    case NoEquals => Err(Malformed(n))
    case Entry(key, raw) =>
      if !IsValidKey(key) then Err(InvalidKey(n))
      else if key in entries then Err(DuplicateKey(n))
      else
        var value := ReadValue(raw);
        if value.None? then Err(InvalidValue(n)) else Ok(entries[key := value.value])
  }

  function AddLines(entries: Entries, lines: seq<string>, n: nat): Result<Entries, Failure>
    decreases |lines|
  {
    if lines == [] then Ok(entries)
    else
      var next := AddLine(entries, lines[0], n);
      if next.Err? then next else AddLines(next.value, lines[1..], n + 1)
  }

  function Parsed(text: string): Result<Entries, Failure>
  {
    AddLines(map[], Lines(text), 1)
  }

  method Parse(text: string) returns (r: Result<Entries, Failure>)
    ensures r == Parsed(text)
  {
    var entries: Entries := map[];
    var lines := Lines(text);
    for idx := 0 to |lines|
      invariant AddLines(entries, lines[idx..], idx + 1) == Parsed(text)
    {
      assert lines[idx..][0] == lines[idx] && lines[idx..][1..] == lines[idx + 1..];
      var trimmed := Trim(lines[idx]);
      if trimmed == "" || trimmed[0] == '#' {
        continue;
      }
      var parts := SplitOnce(trimmed, '=');
      if parts.None? {
        return Err(Malformed(idx + 1));
      }
      var key := Trim(parts.value.0);
      if !IsValidKey(key) {
        return Err(InvalidKey(idx + 1));
      }
      if key in entries {
        return Err(DuplicateKey(idx + 1));
      }
      var value := ReadValue(Trim(parts.value.1));
      if value.None? {
        return Err(InvalidValue(idx + 1));
      }
      entries := entries[key := value.value];
    }
    r := Ok(entries);
  }

  // ----- writing -----

  function EntryLine(key: string, value: string): string
  {
    key + "=" + Literal(value)
  }

  function EntryLines(entries: Entries, keys: seq<string>): seq<string>
    requires forall k :: k in keys ==> k in entries
  {
    seq(|keys|, i requires 0 <= i < |keys| => EntryLine(keys[i], entries[keys[i]]))
  }

  /** The entries in key order, a line each. */
  function Rendered(entries: Entries): string
  {
    Terminated(EntryLines(entries, Sorted(entries.Keys)), "\n")
  }

  method Render(entries: Entries) returns (rendered: string)
    ensures rendered == Rendered(entries)
  {
    rendered := "";
    var keys := Sorted(entries.Keys);
    ghost var lines := EntryLines(entries, keys);
    for i := 0 to |keys|
      invariant rendered == Terminated(lines[..i], "\n")
    {
      ghost var before := rendered;
      TerminatedGrows(lines, i, "\n");
      rendered := rendered + keys[i];
      rendered := rendered + "=";
      rendered := rendered + Literal(entries[keys[i]]);
      rendered := rendered + "\n";
      EntryAppended(before, keys[i], Literal(entries[keys[i]]));
    }
    assert lines[..|keys|] == lines;
  }

  lemma EntryAppended(before: string, key: string, literal: string)
    ensures before + key + "=" + literal + "\n" == before + (key + "=" + literal) + "\n"
  {
  }

  // ----- reading back what was written -----

  ghost predicate ValidKeys(entries: Entries)
  {
    forall k :: k in entries ==> IsValidKey(k)
  }

  lemma KeyShape(key: string)
    requires IsValidKey(key)
    ensures forall i :: 0 <= i < |key| ==> key[i] != '=' && key[i] != '\n' && !IsWhitespace(key[i]) && key[i] != '#'
    ensures Trim(key) == key
  {
    TrimTight(key);
  }

  lemma EntryLineShape(key: string, value: string)
    requires IsValidKey(key)
    ensures var line := EntryLine(key, value);
      && PlainLine(line) && Trim(line) == line && line[0] != '#'
      && SplitOnce(line, '=') == Some((key, Literal(value)))
  {
    KeyShape(key);
    LiteralShape(value);
    var line := EntryLine(key, value);
    TrimTight(line);
    assert line == key + ['='] + Literal(value);
    SplitOnceAt(key, '=', Literal(value));
  }

  lemma LiteralReads(value: string)
    ensures Trim(Literal(value)) == Literal(value) && ReadValue(Literal(value)) == Some(value)
  {
    LiteralShape(value);
    var l := Literal(value);
    TrimTight(l);
    LiteralRoundTrip(value);
    assert l[..1] == "\"" && l[|l| - 1..] == "\"";
  }

  lemma EntryLineReads(key: string, value: string)
    requires IsValidKey(key)
    ensures ReadLine(EntryLine(key, value)) == Entry(key, Literal(value))
  {
    EntryLineShape(key, value);
    KeyShape(key);
    LiteralReads(value);
  }

  /** An entry line for a new key adds the entry. */
  lemma AddEntryLine(entries: Entries, key: string, value: string, n: nat)
    requires IsValidKey(key) && key !in entries
    ensures AddLine(entries, EntryLine(key, value), n) == Ok(entries[key := value])
  {
    EntryLineReads(key, value);
    LiteralReads(value);
  }

  ghost function Only(entries: Entries, keys: seq<string>): Entries
    requires forall k :: k in keys ==> k in entries
  {
    map k | k in keys :: entries[k]
  }

  lemma AddLinesCons(entries: Entries, lines: seq<string>, n: nat, next: Entries)
    requires lines != [] && AddLine(entries, lines[0], n) == Ok(next)
    ensures AddLines(entries, lines, n) == AddLines(next, lines[1..], n + 1)
  {
  }

  lemma EntryLinesCons(entries: Entries, keys: seq<string>)
    requires keys != [] && forall k :: k in keys ==> k in entries
    ensures forall k :: k in keys[1..] ==> k in entries
    ensures var lines := EntryLines(entries, keys);
      lines != [] && lines[0] == EntryLine(keys[0], entries[keys[0]]) && lines[1..] == EntryLines(entries, keys[1..])
  {
  }

  lemma OnlyCons(start: Entries, entries: Entries, keys: seq<string>)
    requires keys != [] && keys[0] !in keys[1..] && forall k :: k in keys ==> k in entries
    ensures forall k :: k in keys[1..] ==> k in entries
    ensures start[keys[0] := entries[keys[0]]] + Only(entries, keys[1..]) == start + Only(entries, keys)
  {
    assert forall k :: k in keys <==> k == keys[0] || k in keys[1..];
  }

  lemma {:induction false} AddEntryLines(start: Entries, entries: Entries, keys: seq<string>, n: nat)
    requires ValidKeys(entries) && forall k :: k in keys ==> k in entries && k !in start
    requires forall i, j :: 0 <= i < j < |keys| ==> keys[i] != keys[j]
    ensures AddLines(start, EntryLines(entries, keys), n) == Ok(start + Only(entries, keys))
    decreases |keys|
  {
    if keys == [] {
      assert start + Only(entries, keys) == start;
    } else {
      var key, rest := keys[0], keys[1..];
      var next := start[key := entries[key]];
      EntryLinesCons(entries, keys);
      AddEntryLine(start, key, entries[key], n);
      AddLinesCons(start, EntryLines(entries, keys), n, next);
      AddEntryLines(next, entries, rest, n + 1);
      OnlyCons(start, entries, keys);
    }
  }

  lemma RenderedLines(entries: Entries)
    requires ValidKeys(entries)
    ensures Lines(Rendered(entries)) == EntryLines(entries, Sorted(entries.Keys))
  {
    var keys := Sorted(entries.Keys);
    var lines := EntryLines(entries, keys);
    forall i | 0 <= i < |lines| ensures PlainLine(lines[i]) {
      EntryLineShape(keys[i], entries[keys[i]]);
    }
    LinesTerminated(lines, "\n", "");
    assert Terminated(lines, "\n") + "" == Rendered(entries);
    assert lines + Lines("") == lines;
  }

  /** Reading the rendered file gives back the entries, for any values under valid keys. */
  lemma RenderedRoundTrip(entries: Entries)
    requires ValidKeys(entries)
    ensures Parsed(Rendered(entries)) == Ok(entries)
  {
    var keys := Sorted(entries.Keys);
    RenderedLines(entries);
    forall i, j | 0 <= i < j < |keys| ensures keys[i] != keys[j] {
      Irreflexive(keys[i]);
    }
    AddEntryLines(map[], entries, keys, 1);
    OnlyAll(entries, keys);
  }

  lemma OnlyAll(entries: Entries, keys: seq<string>)
    requires forall k :: k in keys <==> k in entries
    ensures map[] + Only(entries, keys) == entries
  {
  }

  // ----- every file that is read -----

  lemma {:induction false} AddedKeysValid(entries: Entries, lines: seq<string>, n: nat)
    requires ValidKeys(entries)
    ensures AddLines(entries, lines, n).Ok? ==> ValidKeys(AddLines(entries, lines, n).value)
    decreases |lines|
  {
    if lines != [] {
      var next := AddLine(entries, lines[0], n);
      if next.Ok? {
        AddedKeysValid(next.value, lines[1..], n + 1);
      }
    }
  }

  /** Whatever the file says, every key read from it is valid. */
  lemma ParsedKeysValid(text: string)
    ensures Parsed(text).Ok? ==> ValidKeys(Parsed(text).value)
  {
    AddedKeysValid(map[], Lines(text), 1);
  }

  /** The entries of a file that may be absent. */
  function Stored(file: Option<string>): Result<Entries, Failure>
  {
    if file.None? then Ok(map[]) else Parsed(file.value)
  }

  function ChangeOf(entries: Entries, name: string, value: string): Change
  {
    if name !in entries then Created else if entries[name] == value then Unchanged else Updated
  }

  /** `.ivar/secrets/mcp.env`. */
  class McpFile {
    var file: Option<string>

    constructor (file: Option<string>)
      ensures this.file == file
    {
      this.file := file;
    }

    /** Sets one key and no other; a refused name or an unreadable file leaves the file alone. */
    method SetAndWrite(name: string, value: string) returns (r: Result<Change, Failure>)
      modifies this
      ensures !IsValidKey(name) ==> r == Err(InvalidName) && file == old(file)
      ensures IsValidKey(name) && Stored(old(file)).Err? ==> r == Err(Stored(old(file)).error) && file == old(file)
      ensures IsValidKey(name) && Stored(old(file)).Ok? ==>
        var was := Stored(old(file)).value;
        r == Ok(ChangeOf(was, name, value)) && Stored(file) == Ok(was[name := value])
        && (r == Ok(Unchanged) ==> file == old(file))
    {
      if !IsValidKey(name) {
        return Err(InvalidName);
      }
      var read := Read();
      if read.Err? {
        return Err(read.error);
      }
      var entries := read.value;
      ParsedKeysValid(if file.Some? then file.value else "");
      var change := ChangeOf(entries, name, value);
      if change != Unchanged {
        entries := entries[name := value];
        var rendered := Render(entries);
        RenderedRoundTrip(entries);
        file := Some(rendered);
      } else {
        assert entries[name := value] == entries;
      }
      r := Ok(change);
    }

    method Read() returns (r: Result<Entries, Failure>)
      ensures r == Stored(file)
    {
      if file.None? {
        return Ok(map[]);
      }
      r := Parse(file.value);
    }

    /** Takes one key out of entries read before and writes the rest; the file goes with the last one. */
    method RemoveAndWrite(entries: Entries, name: string) returns (change: Change)
      requires ValidKeys(entries)
      modifies this
      ensures name !in entries ==> change == Unchanged && file == old(file)
      ensures name in entries ==>
        change == Updated && Stored(file) == Ok(entries - {name}) && (file.None? <==> entries.Keys == {name})
    {
      if name !in entries {
        return Unchanged;
      }
      var left := entries - {name};
      assert left.Keys == entries.Keys - {name};
      if left == map[] {
        file := None;
        assert entries.Keys == left.Keys + {name};
      } else {
        var rendered := Render(left);
        RenderedRoundTrip(left);
        file := Some(rendered);
      }
      change := Updated;
    }
  }
}
