/** What one line of a secrets file says. */
module SecretLines {
  import opened Results
  import opened Json
  import opened Text
  import opened Secrets

  /** No white space at either end. */
  ghost predicate Tight(s: string)
  {
    s != "" ==> !IsWhitespace(s[0]) && !IsWhitespace(s[|s| - 1])
  }

  lemma PairReads(key: string, value: string)
    requires Tight(key) && key != "" && key[0] != '#' && '=' !in key && Tight(value)
    ensures ReadLine(key + "=" + value) == Entry(key, value)
  {
    var line := key + "=" + value;
    assert Trim(line) == line by {
      assert line[|line| - 1] == if value == "" then '=' else value[|value| - 1];
      TrimTight(line);
    }
    assert line == key + ['='] + value;
    SplitOnceAt(key, '=', value);
    TrimTight(key);
    TrimTight(value);
  }

  lemma ValueSays(value: string)
    ensures value == "" || value[0] != '"' ==> ReadValue(value) == Some(value)
    ensures value != "" && value[0] == '"' && (|value| < 2 || value[|value| - 1] != '"') ==> ReadValue(value).None?
  {
    assert value != "" ==> value[..1][0] == value[0];
    assert EndsWith(value, "\"") ==> value[|value| - 1..][0] == '"';
    assert value != "" && value[0] == '"' ==> value[..1] == "\"";
  }

  lemma EntrySays(entries: Entries, line: string, key: string, raw: string, n: nat)
    requires ReadLine(line) == Entry(key, raw)
    ensures AddLine(entries, line, n) ==
      if !IsValidKey(key) then Err(InvalidKey(n))
      else if key in entries then Err(DuplicateKey(n))
      else if ReadValue(raw).None? then Err(InvalidValue(n))
      else Ok(entries[key := ReadValue(raw).value])
  {
  }

  /** `KEY=plain` gives the key that very text; a bad name, a second line for a name and an unclosed quote are
      refused with the line's number. */
  lemma PairSays(entries: Entries, key: string, value: string, n: nat)
    requires Tight(key) && key != "" && key[0] != '#' && '=' !in key && Tight(value)
    ensures var said := AddLine(entries, key + "=" + value, n);
      if !IsValidKey(key) then said == Err(InvalidKey(n))
      else if key in entries then said == Err(DuplicateKey(n))
      else if value == "" || value[0] != '"' then said == Ok(entries[key := value])
      else |value| < 2 || value[|value| - 1] != '"' ==> said == Err(InvalidValue(n))
  {
    PairReads(key, value);
    ValueSays(value);
    EntrySays(entries, key + "=" + value, key, value, n);
  }

  /** A line with neither text nor entry, or with no `=`. */
  lemma OtherLineSays(entries: Entries, line: string, n: nat)
    requires Tight(line) && (line == "" || line[0] == '#' || '=' !in line)
    ensures AddLine(entries, line, n) == if line == "" || line[0] == '#' then Ok(entries) else Err(Malformed(n))
  {
    TrimTight(line);
    if '=' !in line {
      FindIs(line, '=', |line|);
    }
  }

  // ----- keys and changes -----

  /** A key is letters, digits and underscores of ASCII, and no digit first. */
  lemma ValidKeys(name: string)
    ensures IsValidKey(name) <==>
      name != "" && !('0' <= name[0] <= '9') && forall c :: c in name ==>
        'a' <= c <= 'z' || 'A' <= c <= 'Z' || '0' <= c <= '9' || c == '_'
  {
    if IsValidKey(name) {
      forall c | c in name ensures KeyChar(c) {
        var i :| 0 <= i < |name| && name[i] == c;
        assert i == 0 || KeyChar(name[i]);
      }
    }
    assert forall i :: 0 <= i < |name| ==> name[i] in name;
  }

  /** Setting a key is reported as what it does to the entries. */
  lemma ChangeSays(entries: Entries, name: string, value: string)
    ensures var change, now := ChangeOf(entries, name, value), entries[name := value];
      && (change == Unchanged <==> now == entries)
      && (change == Created <==> now.Keys != entries.Keys)
  {
    assert entries[name := value][name] == value;
    assert name in entries && entries[name] == value ==> entries[name := value] == entries;
  }
}
