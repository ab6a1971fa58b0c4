/** Reconciling a provider's command directory with the shipped catalog. */
module Commands {
  import opened Order
  import opened Results
  import opened Text

  /** File contents are strings of bytes. */
  type Bytes = string

  datatype Shipped = Shipped(id: string, content: Bytes, legacySha: Option<string>)

  datatype Change = Created | Updated | Removed | Unchanged

  datatype CommandChange = CommandChange(id: string, fileName: string, change: Change)

  datatype Integrity = Current | Missing | Modified | LegacyModified | Stale

  datatype Inspection = Inspection(id: string, fileName: string, integrity: Integrity)

  // ----- names -----

  function FileName(id: string): string
  {
    "ivar-" + id + ".md"
  }

  function LegacyName(id: string): string
  {
    id + ".md"
  }

  /** The id of a name in the reserved `ivar-*.md` namespace. */
  function IvarId(name: string): Option<string>
  {
    if !StartsWith(name, "ivar-") then None
    else
      var rest := name[5..];
      if EndsWith(rest, ".md") then Some(rest[..|rest| - 3]) else None
  }

  lemma IvarIdInverse(name: string, id: string)
    ensures IvarId(name) == Some(id) <==> name == FileName(id)
    ensures IvarId(name) == Some(id) ==> EndsWith(name, ".md")
  {
    var made := FileName(id);
    assert made[..5] == "ivar-" && made[5..] == id + ".md";
    assert made[5..][|id|..] == ".md" && made[5..][..|id|] == id;
    if IvarId(name) == Some(id) {
      var rest := name[5..];
      assert name == name[..5] + rest;
      assert rest == rest[..|rest| - 3] + rest[|rest| - 3..];
      assert name[|name| - 3..] == rest[|rest| - 3..];
    }
  }

  lemma LegacyNameInjective(a: string, b: string)
    ensures LegacyName(a) == LegacyName(b) ==> a == b
    ensures EndsWith(LegacyName(a), ".md")
  {
    assert LegacyName(a)[..|a|] == a && LegacyName(b)[..|b|] == b;
    assert LegacyName(a)[|a|..] == ".md";
  }

  // ----- the catalog -----

  /** Ids are distinct and none is in the reserved namespace itself. */
  ghost predicate CatalogOk(catalog: seq<Shipped>)
  {
    (forall i, j :: 0 <= i < j < |catalog| ==> catalog[i].id != catalog[j].id)
    && forall i :: 0 <= i < |catalog| ==> !StartsWith(catalog[i].id, "ivar-")
  }

  predicate InCatalog(catalog: seq<Shipped>, id: string)
  {
    exists i :: 0 <= i < |catalog| && catalog[i].id == id
  }

  /** The first command whose legacy name this is. */
  function LegacyCommand(catalog: seq<Shipped>, name: string): Option<Shipped>
  {
    if catalog == [] then None
    else if LegacyName(catalog[0].id) == name then Some(catalog[0])
    else LegacyCommand(catalog[1..], name)
  }

  lemma {:induction false} LegacyCommandIs(catalog: seq<Shipped>, name: string)
    ensures var c := LegacyCommand(catalog, name);
      && (c.Some? ==> c.value in catalog && name == LegacyName(c.value.id))
      && (c.None? ==> forall d :: d in catalog ==> name != LegacyName(d.id))
  {
    if catalog != [] {
      assert catalog == [catalog[0]] + catalog[1..];
      LegacyCommandIs(catalog[1..], name);
    }
  }

  /** A legacy name of a well-formed catalog is never reserved. */
  lemma LegacyNotReserved(catalog: seq<Shipped>, c: Shipped)
    requires CatalogOk(catalog) && c in catalog
    ensures IvarId(LegacyName(c.id)).None?
  {
    var name := LegacyName(c.id);
    assert name[|c.id|] == '.';
    assert |c.id| >= 5 ==> c.id[..5] == name[..5];
    assert "ivar-"[0] == 'i' && "ivar-"[1] == 'v' && "ivar-"[2] == 'a' && "ivar-"[3] == 'r' && "ivar-"[4] == '-';
    assert |name| >= 5 ==> forall i :: 0 <= i < 5 ==> name[..5][i] == name[i];
  }

  // ----- what a pass leaves -----

  type Files = map<string, Bytes>

  /** The directory with the commands of `catalog` written into it. */
  ghost function WithShipped(files: Files, catalog: seq<Shipped>): Files
  {
    if catalog == [] then files
    else
      var c := catalog[|catalog| - 1];
      WithShipped(files, catalog[..|catalog| - 1])[FileName(c.id) := c.content]
  }

  /** The id under which a file is removed, if it is: a reserved name outside the catalog, or a
      legacy name whose digest is the official one. */
  function Doomed(catalog: seq<Shipped>, digest: Bytes -> string, name: string, bytes: Bytes): Option<string>
  {
    var id := IvarId(name);
    if id.Some? then (if InCatalog(catalog, id.value) then None else id)
    else
      var c := LegacyCommand(catalog, name);
      if c.Some? && c.value.legacySha == Some(digest(bytes)) then Some(c.value.id) else None
  }

  /** Decides whether a file is removed, and under which id the removal is reported. */
  type Verdict = (string, Bytes) -> Option<string>

  function Sweeping(catalog: seq<Shipped>, digest: Bytes -> string): Verdict
  {
    (name: string, bytes: Bytes) => Doomed(catalog, digest, name, bytes)
  }

  function Stripping(): Verdict
  {
    (name: string, bytes: Bytes) => IvarId(name)
  }

  ghost function Kept(verdict: Verdict, files: Files): Files
  {
    map name | name in files && verdict(name, files[name]).None? :: files[name]
  }

  /** The directory after `materialise`. */
  ghost function Reconciled(catalog: seq<Shipped>, digest: Bytes -> string, files: Files): Files
  {
    Kept(Sweeping(catalog, digest), WithShipped(files, catalog))
  }

  function WriteChange(files: Files, c: Shipped): CommandChange
  {
    var name := FileName(c.id);
    CommandChange(c.id, name,
                  if name !in files then Created else if files[name] == c.content then Unchanged else Updated)
  }

  ghost function WriteChanges(files: Files, catalog: seq<Shipped>): seq<CommandChange>
  {
    seq(|catalog|, i requires 0 <= i < |catalog| => WriteChange(files, catalog[i]))
  }

  /** The removals among `names`, in their order. */
  ghost function Removals(verdict: Verdict, files: Files, names: seq<string>): seq<CommandChange>
    requires forall n :: n in names ==> n in files
  {
    if names == [] then []
    else
      var name := names[|names| - 1];
      assert forall n :: n in names[..|names| - 1] ==> n in names;
      var id := verdict(name, files[name]);
      Removals(verdict, files, names[..|names| - 1])
      + if id.Some? then [CommandChange(id.value, name, Removed)] else []
  }

  /** The `.md` names of a directory, sorted. */
  function Markdown(names: seq<string>): seq<string>
  {
    if names == [] then []
    else
      var rest := Markdown(names[..|names| - 1]);
      if EndsWith(names[|names| - 1], ".md") then rest + [names[|names| - 1]] else rest
  }

  lemma {:induction false} MarkdownIs(names: seq<string>, n: string)
    ensures n in Markdown(names) <==> n in names && EndsWith(n, ".md")
  {
    if names != [] {
      MarkdownIs(names[..|names| - 1], n);
      assert names == names[..|names| - 1] + [names[|names| - 1]];
    }
  }

  lemma {:induction false} MarkdownAscending(names: seq<string>)
    requires Ascending(names)
    ensures Ascending(Markdown(names))
  {
    if names != [] {
      var front := names[..|names| - 1];
      MarkdownAscending(front);
      forall i | 0 <= i < |Markdown(front)| ensures Before(Markdown(front)[i], names[|names| - 1]) {
        MarkdownIs(front, Markdown(front)[i]);
      }
    }
  }

  lemma DoomedIsMarkdown(catalog: seq<Shipped>, digest: Bytes -> string, name: string, bytes: Bytes)
    ensures Doomed(catalog, digest, name, bytes).Some? ==> EndsWith(name, ".md")
  {
    if IvarId(name).Some? {
      IvarIdInverse(name, IvarId(name).value);
    } else {
      LegacyCommandIs(catalog, name);
      if LegacyCommand(catalog, name).Some? {
        LegacyNameInjective(LegacyCommand(catalog, name).value.id, "");
      }
    }
  }

  lemma {:induction false} WithShippedAt(files: Files, catalog: seq<Shipped>, n: nat)
    requires CatalogOk(catalog) && n <= |catalog|
    ensures forall i :: n <= i < |catalog| ==> var name := FileName(catalog[i].id);
      (name in WithShipped(files, catalog[..n]) <==> name in files)
      && (name in files ==> WithShipped(files, catalog[..n])[name] == files[name])
  {
    if n > 0 {
      assert catalog[..n][..n - 1] == catalog[..n - 1];
      WithShippedAt(files, catalog, n - 1);
      forall i | n <= i < |catalog| ensures FileName(catalog[i].id) != FileName(catalog[n - 1].id) {
        IvarIdInverse(FileName(catalog[i].id), catalog[i].id);
        IvarIdInverse(FileName(catalog[i].id), catalog[n - 1].id);
      }
    }
  }

  // A verdict that only ever removes `.md` files.
  ghost predicate OnlyMarkdown(verdict: Verdict)
  {
    forall name, bytes :: verdict(name, bytes).Some? ==> EndsWith(name, ".md")
  }

  lemma VerdictsOnlyMarkdown(catalog: seq<Shipped>, digest: Bytes -> string)
    ensures OnlyMarkdown(Sweeping(catalog, digest)) && OnlyMarkdown(Stripping())
  {
    forall name, bytes | Sweeping(catalog, digest)(name, bytes).Some? ensures EndsWith(name, ".md") {
      DoomedIsMarkdown(catalog, digest, name, bytes);
    }
    forall name, bytes: Bytes | Stripping()(name, bytes).Some? ensures EndsWith(name, ".md") {
      IvarIdInverse(name, IvarId(name).value);
    }
  }

  ghost function KeptAmong(verdict: Verdict, files: Files, names: seq<string>): Files
  {
    map n | n in files && (n in names ==> verdict(n, files[n]).None?) :: files[n]
  }

  lemma PruneStep(verdict: Verdict, files: Files, names: seq<string>, k: nat)
    requires Ascending(names) && k < |names| && forall n :: n in names ==> n in files
    ensures forall n :: n in names[..k + 1] ==> n in files
    ensures var before, name := KeptAmong(verdict, files, names[..k]), names[k];
      var id := verdict(name, files[name]);
      && name in before && before[name] == files[name]
      && KeptAmong(verdict, files, names[..k + 1]) == (if id.Some? then before - {name} else before)
      && Removals(verdict, files, names[..k + 1])
         == Removals(verdict, files, names[..k]) + (if id.Some? then [CommandChange(id.value, name, Removed)] else [])
  {
    var name, now := names[k], names[..k + 1];
    assert now == names[..k] + [name] && now[..k] == names[..k];
    forall i | 0 <= i < k ensures names[i] != name {
      Irreflexive(name);
    }
    assert name !in names[..k];
  }

  /** The `.md` files of a directory, in name order. */
  ghost function Entries(files: Files): (names: seq<string>)
    ensures forall n :: n in names <==> n in files && EndsWith(n, ".md")
    ensures Ascending(names)
  {
    var names := Sorted(files.Keys);
    assert forall n :: n in Markdown(names) <==> n in files && EndsWith(n, ".md") by {
      forall n ensures n in Markdown(names) <==> n in files && EndsWith(n, ".md") {
        MarkdownIs(names, n);
      }
    }
    MarkdownAscending(names);
    Markdown(names)
  }

  // ----- inspection -----

  /** How a shipped command's file stands, if it is reported at all. */
  function ShippedIntegrity(files: Files, c: Shipped, enabled: bool): Option<Integrity>
  {
    var name := FileName(c.id);
    if name in files then
      Some(if !enabled then Stale else if files[name] == c.content then Current else Modified)
    else if enabled then Some(Missing)
    else None
  }

  /** How any other `.md` file stands, if it is reported at all. */
  function OtherIntegrity(
    catalog: seq<Shipped>, digest: Bytes -> string, name: string, bytes: Bytes, enabled: bool): Option<Inspection>
  {
    var id, legacy := IvarId(name), LegacyCommand(catalog, name);
    if id.Some? && !InCatalog(catalog, id.value) then Some(Inspection(id.value, name, Stale))
    else if enabled && legacy.Some? && legacy.value.legacySha.Some? && digest(bytes) != legacy.value.legacySha.value
      then Some(Inspection(legacy.value.id, name, LegacyModified))
    else None
  }

  ghost function ShippedPart(files: Files, catalog: seq<Shipped>, enabled: bool): seq<Inspection>
  {
    if catalog == [] then []
    else
      var c := catalog[|catalog| - 1];
      var integrity := ShippedIntegrity(files, c, enabled);
      ShippedPart(files, catalog[..|catalog| - 1], enabled)
      + if integrity.Some? then [Inspection(c.id, FileName(c.id), integrity.value)] else []
  }

  ghost function OtherPart(
    catalog: seq<Shipped>, digest: Bytes -> string, files: Files, names: seq<string>, enabled: bool): seq<Inspection>
    requires forall n :: n in names ==> n in files
  {
    if names == [] then []
    else
      var name := names[|names| - 1];
      assert forall n :: n in names[..|names| - 1] ==> n in names;
      var other := OtherIntegrity(catalog, digest, name, files[name], enabled);
      OtherPart(catalog, digest, files, names[..|names| - 1], enabled)
      + if other.Some? then [other.value] else []
  }

  lemma OtherPartGrows(catalog: seq<Shipped>, digest: Bytes -> string, files: Files, names: seq<string>, k: nat,
                       enabled: bool)
    requires k < |names| && (forall n :: n in names[..k] ==> n in files) && names[k] in files
    ensures forall n :: n in names[..k + 1] ==> n in files
    ensures OtherPart(catalog, digest, files, names[..k + 1], enabled) ==
      var other := OtherIntegrity(catalog, digest, names[k], files[names[k]], enabled);
      OtherPart(catalog, digest, files, names[..k], enabled) + if other.Some? then [other.value] else []
  {
    assert names[..k + 1] == names[..k] + [names[k]];
    assert names[..k + 1][..k] == names[..k];
  }

  class Directory {
    var exists_: bool
    var files: Files

    ghost predicate Valid()
      reads this
    {
      !exists_ ==> files == map[]
    }

    /** Writes the shipped commands that are missing or differ, then removes what is not wanted. */
    method Materialise(catalog: seq<Shipped>, digest: Bytes -> string) returns (changes: seq<CommandChange>)
      requires Valid() && CatalogOk(catalog)
      modifies this
      ensures Valid() && exists_
      ensures files == Reconciled(catalog, digest, old(files))
      ensures var written := WithShipped(old(files), catalog);
        changes == WriteChanges(old(files), catalog) + Removals(Sweeping(catalog, digest), written, Entries(written))
    {
      exists_ := true;
      changes := WriteShipped(catalog);
      VerdictsOnlyMarkdown(catalog, digest);
      ghost var entries := Entries(files);
      var removed := Prune(Sweeping(catalog, digest), Markdown(Sorted(files.Keys)));
      changes := changes + removed;
    }

    method WriteShipped(catalog: seq<Shipped>) returns (changes: seq<CommandChange>)
      requires CatalogOk(catalog)
      modifies this`files
      ensures files == WithShipped(old(files), catalog)
      ensures changes == WriteChanges(old(files), catalog)
    {
      changes := [];
      for k := 0 to |catalog|
        invariant files == WithShipped(old(files), catalog[..k])
        invariant changes == WriteChanges(old(files), catalog[..k])
      {
        var c := catalog[k];
        WithShippedAt(old(files), catalog, k);
        assert catalog[..k + 1][..k] == catalog[..k] && catalog[..k + 1][k] == c;
        changes := changes + [WriteChange(files, c)];
        if FileName(c.id) !in files || files[FileName(c.id)] != c.content {
          files := files[FileName(c.id) := c.content];
        }
        assert files == WithShipped(old(files), catalog[..k])[FileName(c.id) := c.content];
      }
      assert catalog[..|catalog|] == catalog;
    }

    /** Removes the unwanted files among `names`, in order. */
    method Prune(verdict: Verdict, names: seq<string>) returns (changes: seq<CommandChange>)
      requires OnlyMarkdown(verdict) && names == Entries(files)
      modifies this`files
      ensures files == Kept(verdict, old(files))
      ensures changes == Removals(verdict, old(files), names)
    {
      changes := [];
      for k := 0 to |names|
        invariant files == KeptAmong(verdict, old(files), names[..k])
        invariant changes == Removals(verdict, old(files), names[..k])
      {
        var name := names[k];
        PruneStep(verdict, old(files), names, k);
        var id := verdict(name, files[name]);
        if id.Some? {
          files := files - {name};
          changes := changes + [CommandChange(id.value, name, Removed)];
        }
      }
      assert names[..|names|] == names;
    }

    /** Takes every reserved file out, and the directory with them when nothing else is in it. */
    method Remove() returns (changes: seq<CommandChange>)
      requires Valid()
      modifies this
      ensures Valid()
      ensures files == Kept(Stripping(), old(files))
      ensures changes == Removals(Stripping(), old(files), Entries(old(files)))
      ensures exists_ <==> old(exists_) && files != map[]
    {
      VerdictsOnlyMarkdown([], _ => "");
      ghost var entries := Entries(files);
      if !exists_ {
        return [];
      }
      changes := Prune(Stripping(), Markdown(Sorted(files.Keys)));
      if files == map[] {
        exists_ := false;
      }
    }

    method Inspect(catalog: seq<Shipped>, digest: Bytes -> string, enabled: bool) returns (found: seq<Inspection>)
      requires Valid()
      ensures found == Inspected(catalog, digest, files, enabled)
    {
      found := InspectShipped(catalog, enabled);
      if exists_ {
        var others := InspectOthers(catalog, digest, enabled);
        found := found + others;
      } else {
        NoEntries(catalog, digest, files, enabled);
      }
    }

    method InspectShipped(catalog: seq<Shipped>, enabled: bool) returns (found: seq<Inspection>)
      ensures found == ShippedPart(files, catalog, enabled)
    {
      found := [];
      for k := 0 to |catalog|
        invariant found == ShippedPart(files, catalog[..k], enabled)
      {
        assert catalog[..k + 1][..k] == catalog[..k];
        var integrity := ShippedIntegrity(files, catalog[k], enabled);
        if integrity.Some? {
          found := found + [Inspection(catalog[k].id, FileName(catalog[k].id), integrity.value)];
        }
      }
      assert catalog[..|catalog|] == catalog;
    }

    method InspectOthers(catalog: seq<Shipped>, digest: Bytes -> string, enabled: bool) returns (found: seq<Inspection>)
      ensures found == OtherPart(catalog, digest, files, Entries(files), enabled)
    {
      found := [];
      ghost var entries := Entries(files);
      var names := Markdown(Sorted(files.Keys));
      for k := 0 to |names|
        invariant forall n :: n in names[..k] ==> n in files
        invariant found == OtherPart(catalog, digest, files, names[..k], enabled)
      {
        assert names[k] in entries;
        OtherPartGrows(catalog, digest, files, names, k, enabled);
        var other := OtherIntegrity(catalog, digest, names[k], files[names[k]], enabled);
        if other.Some? {
          found := found + [other.value];
        }
      }
      assert names[..|names|] == names;
    }
  }

  ghost function Inspected(catalog: seq<Shipped>, digest: Bytes -> string, files: Files, enabled: bool): seq<Inspection>
  {
    ShippedPart(files, catalog, enabled) + OtherPart(catalog, digest, files, Entries(files), enabled)
  }

  lemma NoEntries(catalog: seq<Shipped>, digest: Bytes -> string, files: Files, enabled: bool)
    requires files == map[]
    ensures OtherPart(catalog, digest, files, Entries(files), enabled) == []
  {
    var names := Entries(files);
    assert forall i :: 0 <= i < |names| ==> names[i] in names;
  }

  // ----- what one pass does to each file -----

  ghost predicate IsShipped(catalog: seq<Shipped>, name: string)
  {
    exists c :: c in catalog && name == FileName(c.id)
  }

  /** The file is a legacy command whose digest is the official one. */
  ghost predicate IsOfficialLegacy(catalog: seq<Shipped>, digest: Bytes -> string, name: string, bytes: Bytes)
  {
    exists c :: c in catalog && name == LegacyName(c.id) && c.legacySha == Some(digest(bytes))
  }

  lemma {:induction false} WithShippedFacts(files: Files, catalog: seq<Shipped>, name: string)
    requires CatalogOk(catalog)
    ensures name in WithShipped(files, catalog) <==> name in files || IsShipped(catalog, name)
    ensures !IsShipped(catalog, name) && name in files ==> WithShipped(files, catalog)[name] == files[name]
    ensures forall c :: c in catalog && name == FileName(c.id) ==>
      name in WithShipped(files, catalog) && WithShipped(files, catalog)[name] == c.content
  {
    if catalog != [] {
      var front, last := catalog[..|catalog| - 1], catalog[|catalog| - 1];
      assert catalog == front + [last];
      WithShippedFacts(files, front, name);
      forall c | c in front ensures FileName(c.id) != FileName(last.id) {
        IvarIdInverse(FileName(c.id), c.id);
        IvarIdInverse(FileName(c.id), last.id);
      }
    }
  }

  lemma DoomedFacts(catalog: seq<Shipped>, digest: Bytes -> string, name: string, bytes: Bytes)
    requires CatalogOk(catalog)
    ensures Doomed(catalog, digest, name, bytes).Some? <==>
      (IvarId(name).Some? && !IsShipped(catalog, name)) || IsOfficialLegacy(catalog, digest, name, bytes)
    ensures IsShipped(catalog, name) ==> IvarId(name).Some?
    ensures IsOfficialLegacy(catalog, digest, name, bytes) ==> IvarId(name).None?
  {
    var id := IvarId(name);
    if c :| c in catalog && name == FileName(c.id) {
      IvarIdInverse(name, c.id);
    }
    if c :| c in catalog && name == LegacyName(c.id) && c.legacySha == Some(digest(bytes)) {
      LegacyNotReserved(catalog, c);
    }
    if id.Some? {
      IvarIdInverse(name, id.value);
      assert InCatalog(catalog, id.value) <==> IsShipped(catalog, name) by {
        if i :| 0 <= i < |catalog| && catalog[i].id == id.value {
          assert catalog[i] in catalog;
        }
      }
    } else {
      LegacyCommandIs(catalog, name);
      LegacyUnique(catalog, digest, name, bytes);
    }
  }

  lemma LegacyUnique(catalog: seq<Shipped>, digest: Bytes -> string, name: string, bytes: Bytes)
    requires CatalogOk(catalog)
    ensures var c := LegacyCommand(catalog, name);
      IsOfficialLegacy(catalog, digest, name, bytes) <==> c.Some? && c.value.legacySha == Some(digest(bytes))
  {
    LegacyCommandIs(catalog, name);
    if d :| d in catalog && name == LegacyName(d.id) && d.legacySha == Some(digest(bytes)) {
      LegacyNameInjective(d.id, LegacyCommand(catalog, name).value.id);
    }
  }

  /** What `materialise` leaves of each file: shipped commands as shipped, no other reserved file, no
      official legacy file, and everything else byte for byte as it was. */
  lemma ReconciledFile(catalog: seq<Shipped>, digest: Bytes -> string, files: Files, name: string)
    requires CatalogOk(catalog)
    ensures var now := Reconciled(catalog, digest, files);
      if IsShipped(catalog, name) then forall c :: c in catalog && name == FileName(c.id) ==> name in now && now[name] == c.content
      else if IvarId(name).Some? || name !in files || IsOfficialLegacy(catalog, digest, name, files[name]) then name !in now
      else name in now && now[name] == files[name]
  {
    var written := WithShipped(files, catalog);
    WithShippedFacts(files, catalog, name);
    if name in written {
      DoomedFacts(catalog, digest, name, written[name]);
    }
  }

  lemma SettledFile(catalog: seq<Shipped>, digest: Bytes -> string, files: Files, name: string)
    requires CatalogOk(catalog)
    ensures var once := Reconciled(catalog, digest, files);
      && (IsShipped(catalog, name) ==> name in once)
      && (forall c :: c in catalog && name == FileName(c.id) ==> once[name] == c.content)
      && (name in once ==> Doomed(catalog, digest, name, once[name]).None?)
  {
    ReconciledFile(catalog, digest, files, name);
  }

  lemma WrittenAgain(catalog: seq<Shipped>, digest: Bytes -> string, files: Files)
    requires CatalogOk(catalog)
    ensures var once := Reconciled(catalog, digest, files); WithShipped(once, catalog) == once
  {
    var once := Reconciled(catalog, digest, files);
    forall name ensures name in WithShipped(once, catalog) <==> name in once
      ensures name in once ==> WithShipped(once, catalog)[name] == once[name]
    {
      SettledFile(catalog, digest, files, name);
      WithShippedFacts(once, catalog, name);
    }
  }

  lemma NothingToWrite(catalog: seq<Shipped>, digest: Bytes -> string, files: Files)
    requires CatalogOk(catalog)
    ensures var once := Reconciled(catalog, digest, files);
      forall i :: 0 <= i < |catalog| ==> WriteChanges(once, catalog)[i].change == Unchanged
  {
    var once := Reconciled(catalog, digest, files);
    forall i | 0 <= i < |catalog| ensures WriteChange(once, catalog[i]).change == Unchanged {
      assert catalog[i] in catalog;
      SettledFile(catalog, digest, files, FileName(catalog[i].id));
    }
  }

  lemma NothingToRemove(catalog: seq<Shipped>, digest: Bytes -> string, files: Files)
    requires CatalogOk(catalog)
    ensures var once := Reconciled(catalog, digest, files);
      Removals(Sweeping(catalog, digest), once, Entries(once)) == []
  {
    var once := Reconciled(catalog, digest, files);
    forall name | name in once ensures Sweeping(catalog, digest)(name, once[name]).None? {
      SettledFile(catalog, digest, files, name);
    }
    NoRemovals(Sweeping(catalog, digest), once, Entries(once));
  }

  lemma NothingPruned(catalog: seq<Shipped>, digest: Bytes -> string, files: Files)
    requires CatalogOk(catalog)
    ensures var once := Reconciled(catalog, digest, files); Reconciled(catalog, digest, once) == once
  {
    var once := Reconciled(catalog, digest, files);
    WrittenAgain(catalog, digest, files);
    forall name | name in once ensures Sweeping(catalog, digest)(name, once[name]).None? {
      SettledFile(catalog, digest, files, name);
    }
  }

  /** A second pass finds nothing to do. */
  lemma SecondPassIsIdle(catalog: seq<Shipped>, digest: Bytes -> string, files: Files)
    requires CatalogOk(catalog)
    ensures var once := Reconciled(catalog, digest, files);
      && Reconciled(catalog, digest, once) == once
      && WithShipped(once, catalog) == once
      && (forall i :: 0 <= i < |catalog| ==> WriteChanges(once, catalog)[i].change == Unchanged)
      && Removals(Sweeping(catalog, digest), once, Entries(once)) == []
  {
    NothingPruned(catalog, digest, files);
    WrittenAgain(catalog, digest, files);
    NothingToWrite(catalog, digest, files);
    NothingToRemove(catalog, digest, files);
  }

  lemma {:induction false} NoRemovals(verdict: Verdict, files: Files, names: seq<string>)
    requires forall n :: n in names ==> n in files && verdict(n, files[n]).None?
    ensures Removals(verdict, files, names) == []
  {
    if names != [] {
      NoRemovals(verdict, files, names[..|names| - 1]);
    }
  }

  // ----- the report is the difference -----

  ghost function Reported(catalog: seq<Shipped>, digest: Bytes -> string, files: Files): seq<CommandChange>
  {
    var written := WithShipped(files, catalog);
    WriteChanges(files, catalog) + Removals(Sweeping(catalog, digest), written, Entries(written))
  }

  lemma {:induction false} RemovalsAre(verdict: Verdict, files: Files, names: seq<string>, x: CommandChange)
    requires forall n :: n in names ==> n in files
    ensures x in Removals(verdict, files, names) <==>
      x.change == Removed && x.fileName in names && verdict(x.fileName, files[x.fileName]) == Some(x.id)
  {
    if names != [] {
      var front, last := names[..|names| - 1], names[|names| - 1];
      assert names == front + [last];
      RemovalsAre(verdict, files, front, x);
      assert verdict(last, files[last]).Some? ==>
        CommandChange(verdict(last, files[last]).value, last, Removed) in Removals(verdict, files, names);
    }
  }

  lemma WritesAre(files: Files, catalog: seq<Shipped>, x: CommandChange)
    ensures x in WriteChanges(files, catalog) <==> exists c :: c in catalog && x == WriteChange(files, c)
  {
    if c :| c in catalog && x == WriteChange(files, c) {
      var i :| 0 <= i < |catalog| && catalog[i] == c;
      assert WriteChanges(files, catalog)[i] == x;
    }
  }

  ghost predicate ReportedAs(changes: seq<CommandChange>, name: string, change: Change)
  {
    exists x :: x in changes && x.fileName == name && x.change == change
  }

  lemma ReportedRemoved(catalog: seq<Shipped>, digest: Bytes -> string, files: Files, name: string)
    ensures var written := WithShipped(files, catalog);
      ReportedAs(Reported(catalog, digest, files), name, Removed) <==>
      name in written && Doomed(catalog, digest, name, written[name]).Some?
  {
    var changes, written := Reported(catalog, digest, files), WithShipped(files, catalog);
    var verdict := Sweeping(catalog, digest);
    if x :| x in changes && x.fileName == name && x.change == Removed {
      WritesAre(files, catalog, x);
      RemovalsAre(verdict, written, Entries(written), x);
    }
    if name in written && Doomed(catalog, digest, name, written[name]).Some? {
      DoomedIsMarkdown(catalog, digest, name, written[name]);
      var x := CommandChange(Doomed(catalog, digest, name, written[name]).value, name, Removed);
      RemovalsAre(verdict, written, Entries(written), x);
      assert x in changes;
    }
  }

  lemma ReportedWritten(catalog: seq<Shipped>, digest: Bytes -> string, files: Files, name: string, change: Change)
    requires change != Removed
    ensures ReportedAs(Reported(catalog, digest, files), name, change) <==>
      exists c :: c in catalog && FileName(c.id) == name && WriteChange(files, c).change == change
  {
    var changes, written := Reported(catalog, digest, files), WithShipped(files, catalog);
    if x :| x in changes && x.fileName == name && x.change == change {
      WritesAre(files, catalog, x);
      RemovalsAre(Sweeping(catalog, digest), written, Entries(written), x);
    }
    if c :| c in catalog && FileName(c.id) == name && WriteChange(files, c).change == change {
      WritesAre(files, catalog, WriteChange(files, c));
      assert WriteChange(files, c) in changes;
    }
  }

  lemma OneCommandPerName(catalog: seq<Shipped>, c: Shipped, d: Shipped)
    requires CatalogOk(catalog) && c in catalog && d in catalog && FileName(c.id) == FileName(d.id)
    ensures c == d
  {
    IvarIdInverse(FileName(c.id), c.id);
    IvarIdInverse(FileName(c.id), d.id);
  }

  lemma ReportOfShipped(catalog: seq<Shipped>, digest: Bytes -> string, files: Files, c: Shipped, change: Change)
    requires CatalogOk(catalog) && c in catalog
    ensures ReportedAs(Reported(catalog, digest, files), FileName(c.id), change) <==>
      WriteChange(files, c).change == change
  {
    var name := FileName(c.id);
    assert IsShipped(catalog, name);
    if change == Removed {
      ReportedRemoved(catalog, digest, files, name);
      WithShippedFacts(files, catalog, name);
      IvarIdInverse(name, c.id);
      DoomedFacts(catalog, digest, name, WithShipped(files, catalog)[name]);
    } else {
      ReportedWritten(catalog, digest, files, name, change);
      if d :| d in catalog && FileName(d.id) == name && WriteChange(files, d).change == change {
        OneCommandPerName(catalog, c, d);
      }
    }
  }

  lemma ReportOfOther(catalog: seq<Shipped>, digest: Bytes -> string, files: Files, name: string, change: Change)
    requires CatalogOk(catalog) && !IsShipped(catalog, name)
    ensures ReportedAs(Reported(catalog, digest, files), name, change) <==>
      change == Removed && name in files && Doomed(catalog, digest, name, files[name]).Some?
  {
    WithShippedFacts(files, catalog, name);
    if change == Removed {
      ReportedRemoved(catalog, digest, files, name);
    } else {
      ReportedWritten(catalog, digest, files, name, change);
    }
  }

  /** What the report should say of a file, from the directory before and after. */
  ghost predicate Differs(files: Files, now: Files, shipped: bool, name: string, change: Change)
  {
    match change
    case Created => name !in files && name in now
    case Updated => name in files && name in now && files[name] != now[name]
    case Removed => name in files && name !in now
    case Unchanged => shipped && name in files && name in now && files[name] == now[name]
  }

  lemma ShippedDifference(catalog: seq<Shipped>, digest: Bytes -> string, files: Files, c: Shipped, change: Change)
    requires CatalogOk(catalog) && c in catalog
    ensures ReportedAs(Reported(catalog, digest, files), FileName(c.id), change) <==>
      Differs(files, Reconciled(catalog, digest, files), true, FileName(c.id), change)
  {
    assert IsShipped(catalog, FileName(c.id));
    ReconciledFile(catalog, digest, files, FileName(c.id));
    ReportOfShipped(catalog, digest, files, c, change);
  }

  lemma OtherDifference(
      catalog: seq<Shipped>, digest: Bytes -> string, files: Files, name: string, change: Change)
    requires CatalogOk(catalog) && !IsShipped(catalog, name)
    ensures ReportedAs(Reported(catalog, digest, files), name, change) <==>
      Differs(files, Reconciled(catalog, digest, files), false, name, change)
  {
    ReconciledFile(catalog, digest, files, name);
    ReportOfOther(catalog, digest, files, name, change);
    if name in files {
      DoomedFacts(catalog, digest, name, files[name]);
    }
  }

  /** The changes `materialise` returns are exactly the difference between the directory before and
      after, plus `Unchanged` for the shipped files that were already right. */
  lemma ReportIsTheDifference(
      catalog: seq<Shipped>, digest: Bytes -> string, files: Files, name: string, change: Change)
    requires CatalogOk(catalog)
    ensures ReportedAs(Reported(catalog, digest, files), name, change) <==>
      Differs(files, Reconciled(catalog, digest, files), IsShipped(catalog, name), name, change)
  {
    if c :| c in catalog && name == FileName(c.id) {
      ShippedDifference(catalog, digest, files, c, change);
    } else {
      OtherDifference(catalog, digest, files, name, change);
    }
  }

  // ----- what inspection finds -----

  lemma {:induction false} ShippedPartIs(files: Files, catalog: seq<Shipped>, enabled: bool, x: Inspection)
    ensures x in ShippedPart(files, catalog, enabled) <==>
      exists c :: c in catalog && x.id == c.id && x.fileName == FileName(c.id)
                  && ShippedIntegrity(files, c, enabled) == Some(x.integrity)
  {
    if catalog != [] {
      var front, last := catalog[..|catalog| - 1], catalog[|catalog| - 1];
      assert catalog == front + [last];
      ShippedPartIs(files, front, enabled, x);
    }
  }

  lemma {:induction false} OtherPartIs(
      catalog: seq<Shipped>, digest: Bytes -> string, files: Files, names: seq<string>, enabled: bool, x: Inspection)
    requires forall n :: n in names ==> n in files
    ensures x in OtherPart(catalog, digest, files, names, enabled) <==>
      exists n :: n in names && OtherIntegrity(catalog, digest, n, files[n], enabled) == Some(x)
  {
    if names != [] {
      var front, last := names[..|names| - 1], names[|names| - 1];
      assert names == front + [last];
      OtherPartIs(catalog, digest, files, front, enabled, x);
    }
  }

  /** A legacy file that sync keeps, because its digest is not the official one. */
  ghost predicate IsKeptLegacy(catalog: seq<Shipped>, digest: Bytes -> string, files: Files, x: Inspection)
  {
    exists c :: c in catalog && x == Inspection(c.id, LegacyName(c.id), LegacyModified)
      && x.fileName in files && c.legacySha.Some? && c.legacySha.value != digest(files[x.fileName])
  }

  lemma OtherAfterwards(catalog: seq<Shipped>, digest: Bytes -> string, files: Files, x: Inspection)
    requires CatalogOk(catalog)
    ensures var now := Reconciled(catalog, digest, files);
      x in OtherPart(catalog, digest, now, Entries(now), true) <==> IsKeptLegacy(catalog, digest, files, x)
  {
    var now := Reconciled(catalog, digest, files);
    OtherPartIs(catalog, digest, now, Entries(now), true, x);
    if n :| n in Entries(now) && OtherIntegrity(catalog, digest, n, now[n], true) == Some(x) {
      OtherIsLegacy(catalog, digest, files, n, x);
    }
    if IsKeptLegacy(catalog, digest, files, x) {
      var c :| c in catalog && x == Inspection(c.id, LegacyName(c.id), LegacyModified)
               && x.fileName in files && c.legacySha.Some? && c.legacySha.value != digest(files[x.fileName]);
      LegacyIsOther(catalog, digest, files, c);
      assert x.fileName in Entries(now);
    }
  }

  lemma OtherIsLegacy(catalog: seq<Shipped>, digest: Bytes -> string, files: Files, n: string, x: Inspection)
    requires CatalogOk(catalog)
    requires var now := Reconciled(catalog, digest, files);
      n in now && OtherIntegrity(catalog, digest, n, now[n], true) == Some(x)
    ensures IsKeptLegacy(catalog, digest, files, x)
  {
    var now := Reconciled(catalog, digest, files);
    SettledFile(catalog, digest, files, n);
    LegacyCommandIs(catalog, n);
    var c := LegacyCommand(catalog, n).value;
    LegacyNotReserved(catalog, c);
    DoomedFacts(catalog, digest, n, now[n]);
    ReconciledFile(catalog, digest, files, n);
  }

  lemma LegacyIsOther(catalog: seq<Shipped>, digest: Bytes -> string, files: Files, c: Shipped)
    requires CatalogOk(catalog) && c in catalog && LegacyName(c.id) in files
    requires c.legacySha.Some? && c.legacySha.value != digest(files[LegacyName(c.id)])
    ensures var now, n := Reconciled(catalog, digest, files), LegacyName(c.id);
      n in now && EndsWith(n, ".md")
      && OtherIntegrity(catalog, digest, n, now[n], true) == Some(Inspection(c.id, n, LegacyModified))
  {
    var now, n := Reconciled(catalog, digest, files), LegacyName(c.id);
    LegacyNotReserved(catalog, c);
    LegacyNameInjective(c.id, c.id);
    LegacyCommandIs(catalog, n);
    LegacyNameInjective(LegacyCommand(catalog, n).value.id, c.id);
    DoomedFacts(catalog, digest, n, files[n]);
    ReconciledFile(catalog, digest, files, n);
  }

  /** After `materialise`, inspecting an enabled provider reports every shipped command `Current`, each
      kept legacy file whose digest is not the official one `LegacyModified`, and nothing else. */
  lemma InspectionAfterMaterialise(catalog: seq<Shipped>, digest: Bytes -> string, files: Files, x: Inspection)
    requires CatalogOk(catalog)
    ensures x in Inspected(catalog, digest, Reconciled(catalog, digest, files), true) <==>
      (exists c :: c in catalog && x == Inspection(c.id, FileName(c.id), Current))
      || IsKeptLegacy(catalog, digest, files, x)
  {
    var now := Reconciled(catalog, digest, files);
    ShippedPartIs(now, catalog, true, x);
    OtherAfterwards(catalog, digest, files, x);
    forall c | c in catalog ensures ShippedIntegrity(now, c, true) == Some(Current) {
      SettledFile(catalog, digest, files, FileName(c.id));
    }
  }

  /** Inspecting a disabled provider lists exactly the files that `remove` deletes, all as `Stale`. */
  lemma DisabledListsWhatRemoveDeletes(catalog: seq<Shipped>, digest: Bytes -> string, files: Files, name: string)
    ensures forall x :: x in Inspected(catalog, digest, files, false) ==> x.integrity == Stale
    ensures (exists x :: x in Inspected(catalog, digest, files, false) && x.fileName == name) <==>
      name in files && name !in Kept(Stripping(), files)
    ensures (exists x :: x in Inspected(catalog, digest, files, false) && x.fileName == name) <==>
      ReportedAs(Removals(Stripping(), files, Entries(files)), name, Removed)
  {
    forall x | x in Inspected(catalog, digest, files, false) ensures x.integrity == Stale {
      ShippedPartIs(files, catalog, false, x);
      OtherPartIs(catalog, digest, files, Entries(files), false, x);
    }
    StaleNames(catalog, digest, files, name);
    RemovedNames(files, name);
  }

  lemma StaleNames(catalog: seq<Shipped>, digest: Bytes -> string, files: Files, name: string)
    ensures (exists x :: x in Inspected(catalog, digest, files, false) && x.fileName == name) <==>
      name in files && IvarId(name).Some?
  {
    if x :| x in Inspected(catalog, digest, files, false) && x.fileName == name {
      ShippedPartIs(files, catalog, false, x);
      OtherPartIs(catalog, digest, files, Entries(files), false, x);
      IvarIdInverse(x.fileName, x.id);
    }
    if name in files && IvarId(name).Some? {
      var id := IvarId(name).value;
      var x := Inspection(id, name, Stale);
      IvarIdInverse(name, id);
      ShippedPartIs(files, catalog, false, x);
      OtherPartIs(catalog, digest, files, Entries(files), false, x);
      if InCatalog(catalog, id) {
        var i :| 0 <= i < |catalog| && catalog[i].id == id;
        assert catalog[i] in catalog;
      }
      assert x in Inspected(catalog, digest, files, false);
    }
  }

  lemma RemovedNames(files: Files, name: string)
    ensures ReportedAs(Removals(Stripping(), files, Entries(files)), name, Removed) <==>
      name in files && IvarId(name).Some?
  {
    var removals := Removals(Stripping(), files, Entries(files));
    if x :| x in removals && x.fileName == name && x.change == Removed {
      RemovalsAre(Stripping(), files, Entries(files), x);
    }
    if name in files && IvarId(name).Some? {
      IvarIdInverse(name, IvarId(name).value);
      RemovalsAre(Stripping(), files, Entries(files), CommandChange(IvarId(name).value, name, Removed));
    }
  }
}
