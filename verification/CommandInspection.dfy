/** What inspecting an enabled provider says of any directory: what the next pass would report. */
module CommandInspection {
  import opened Order
  import opened Results
  import opened Text
  import opened Commands

  // ----- shipped commands -----

  lemma ListedAmongShipped(files: Files, catalog: seq<Shipped>, c: Shipped, integrity: Integrity)
    requires CatalogOk(catalog) && c in catalog
    ensures Inspection(c.id, FileName(c.id), integrity) in ShippedPart(files, catalog, true) <==>
      ShippedIntegrity(files, c, true) == Some(integrity)
  {
    var x := Inspection(c.id, FileName(c.id), integrity);
    ShippedPartIs(files, catalog, true, x);
    forall d | d in catalog && FileName(d.id) == FileName(c.id) ensures d == c {
      OneCommandPerName(catalog, c, d);
    }
  }

  lemma OthersAreNot(catalog: seq<Shipped>, digest: Bytes -> string, files: Files, x: Inspection)
    requires x in OtherPart(catalog, digest, files, Entries(files), true)
    ensures x.integrity == Stale || x.integrity == LegacyModified
  {
    OtherPartIs(catalog, digest, files, Entries(files), true, x);
  }

  lemma ShippedListed(
      catalog: seq<Shipped>, digest: Bytes -> string, files: Files, c: Shipped, integrity: Integrity)
    requires CatalogOk(catalog) && c in catalog && integrity != Stale && integrity != LegacyModified
    ensures Inspection(c.id, FileName(c.id), integrity) in Inspected(catalog, digest, files, true) <==>
      ShippedIntegrity(files, c, true) == Some(integrity)
  {
    var x := Inspection(c.id, FileName(c.id), integrity);
    ListedAmongShipped(files, catalog, c, integrity);
    if x in OtherPart(catalog, digest, files, Entries(files), true) {
      OthersAreNot(catalog, digest, files, x);
    }
  }

  /** In any directory, a shipped command of an enabled provider is listed as missing, modified or current
      exactly when a pass over that directory reports it as created, updated or unchanged. */
  lemma InspectionForeseesThePass(catalog: seq<Shipped>, digest: Bytes -> string, files: Files, c: Shipped)
    requires CatalogOk(catalog) && c in catalog
    ensures var name, found, report := FileName(c.id), Inspected(catalog, digest, files, true), Reported(catalog, digest, files);
      && (Inspection(c.id, name, Missing) in found <==> ReportedAs(report, name, Created))
      && (Inspection(c.id, name, Modified) in found <==> ReportedAs(report, name, Updated))
      && (Inspection(c.id, name, Current) in found <==> ReportedAs(report, name, Unchanged))
  {
    ShippedListed(catalog, digest, files, c, Missing);
    ShippedListed(catalog, digest, files, c, Modified);
    ShippedListed(catalog, digest, files, c, Current);
    ReportOfShipped(catalog, digest, files, c, Created);
    ReportOfShipped(catalog, digest, files, c, Updated);
    ReportOfShipped(catalog, digest, files, c, Unchanged);
  }

  /** The same on the files: absent, there with other content, and there as shipped. */
  lemma ShippedStandsAs(catalog: seq<Shipped>, digest: Bytes -> string, files: Files, c: Shipped)
    requires CatalogOk(catalog) && c in catalog
    ensures var name, found := FileName(c.id), Inspected(catalog, digest, files, true);
      && (Inspection(c.id, name, Missing) in found <==> name !in files)
      && (Inspection(c.id, name, Modified) in found <==> name in files && files[name] != c.content)
      && (Inspection(c.id, name, Current) in found <==> name in files && files[name] == c.content)
  {
    ShippedListed(catalog, digest, files, c, Missing);
    ShippedListed(catalog, digest, files, c, Modified);
    ShippedListed(catalog, digest, files, c, Current);
  }

  // ----- every other file -----

  lemma OtherListed(catalog: seq<Shipped>, digest: Bytes -> string, files: Files, x: Inspection)
    requires x.integrity == Stale || x.integrity == LegacyModified
    ensures x in Inspected(catalog, digest, files, true) <==>
      x.fileName in files && EndsWith(x.fileName, ".md")
      && OtherIntegrity(catalog, digest, x.fileName, files[x.fileName], true) == Some(x)
  {
    ShippedPartIs(files, catalog, true, x);
    OtherPartIs(catalog, digest, files, Entries(files), true, x);
  }

  /** A command's legacy file whose digest is not the official one. */
  lemma LegacyListed(catalog: seq<Shipped>, digest: Bytes -> string, files: Files, x: Inspection)
    requires CatalogOk(catalog) && x.integrity == LegacyModified
    ensures x in Inspected(catalog, digest, files, true) <==> IsKeptLegacy(catalog, digest, files, x)
  {
    OtherListed(catalog, digest, files, x);
    LegacyCommandIs(catalog, x.fileName);
    if c :| c in catalog && x == Inspection(c.id, LegacyName(c.id), LegacyModified)
            && x.fileName in files && c.legacySha.Some? && c.legacySha.value != digest(files[x.fileName]) {
      ListsLegacy(catalog, digest, files, c);
    }
  }

  lemma ListsLegacy(catalog: seq<Shipped>, digest: Bytes -> string, files: Files, c: Shipped)
    requires CatalogOk(catalog) && c in catalog && LegacyName(c.id) in files
    requires c.legacySha.Some? && c.legacySha.value != digest(files[LegacyName(c.id)])
    ensures var n := LegacyName(c.id);
      n in Entries(files)
      && OtherIntegrity(catalog, digest, n, files[n], true) == Some(Inspection(c.id, n, LegacyModified))
  {
    var n := LegacyName(c.id);
    LegacyNotReserved(catalog, c);
    LegacyNameInjective(c.id, c.id);
    LegacyCommandIs(catalog, n);
    LegacyNameInjective(LegacyCommand(catalog, n).value.id, c.id);
    ById(catalog, LegacyCommand(catalog, n).value, c);
  }

  lemma ById(catalog: seq<Shipped>, c: Shipped, d: Shipped)
    requires CatalogOk(catalog) && c in catalog && d in catalog && c.id == d.id
    ensures c == d
  {
  }

  lemma StaleIs(catalog: seq<Shipped>, digest: Bytes -> string, name: string, bytes: Bytes, x: Inspection)
    requires x.integrity == Stale && x.fileName == name
    ensures OtherIntegrity(catalog, digest, name, bytes, true) == Some(x) <==>
      name == FileName(x.id) && !IsShipped(catalog, name)
    ensures name == FileName(x.id) ==> EndsWith(name, ".md")
  {
    IvarIdInverse(name, x.id);
    CatalogNames(catalog, x.id);
  }

  lemma RemovedReserved(catalog: seq<Shipped>, digest: Bytes -> string, files: Files, id: string)
    requires CatalogOk(catalog)
    ensures ReportedAs(Reported(catalog, digest, files), FileName(id), Removed) <==>
      FileName(id) in files && !IsShipped(catalog, FileName(id))
  {
    var name := FileName(id);
    IvarIdInverse(name, id);
    if c :| c in catalog && name == FileName(c.id) {
      ReportOfShipped(catalog, digest, files, c, Removed);
    } else {
      ReportOfOther(catalog, digest, files, name, Removed);
      if name in files {
        DoomedFacts(catalog, digest, name, files[name]);
      }
    }
  }

  /** A file is listed as stale exactly when its name is reserved and a pass removes it. */
  lemma StaleListed(catalog: seq<Shipped>, digest: Bytes -> string, files: Files, x: Inspection)
    requires CatalogOk(catalog) && x.integrity == Stale
    ensures x in Inspected(catalog, digest, files, true) <==>
      x.fileName == FileName(x.id) && ReportedAs(Reported(catalog, digest, files), x.fileName, Removed)
  {
    OtherListed(catalog, digest, files, x);
    RemovedReserved(catalog, digest, files, x.id);
    if x.fileName in files {
      StaleIs(catalog, digest, x.fileName, files[x.fileName], x);
    }
  }

  lemma CatalogNames(catalog: seq<Shipped>, id: string)
    ensures InCatalog(catalog, id) <==> IsShipped(catalog, FileName(id))
  {
    if i :| 0 <= i < |catalog| && catalog[i].id == id {
      assert catalog[i] in catalog;
    }
    if c :| c in catalog && FileName(id) == FileName(c.id) {
      IvarIdInverse(FileName(id), id);
      IvarIdInverse(FileName(id), c.id);
    }
  }

  /** An entry that is neither of these is a shipped command's. */
  lemma OthersAreShipped(catalog: seq<Shipped>, digest: Bytes -> string, files: Files, x: Inspection)
    requires x in Inspected(catalog, digest, files, true) && x.integrity !in {LegacyModified, Stale}
    ensures exists c :: c in catalog && x == Inspection(c.id, FileName(c.id), x.integrity)
  {
    ShippedPartIs(files, catalog, true, x);
    OtherPartIs(catalog, digest, files, Entries(files), true, x);
  }

  /** Where there is no directory, every command is missing and nothing else is listed. */
  lemma AbsentIsMissing(catalog: seq<Shipped>, digest: Bytes -> string, x: Inspection)
    requires CatalogOk(catalog)
    ensures x in Inspected(catalog, digest, map[], true) <==>
      exists c :: c in catalog && x == Inspection(c.id, FileName(c.id), Missing)
  {
    NoEntries(catalog, digest, map[], true);
    ShippedPartIs(map[], catalog, true, x);
    assert forall c :: ShippedIntegrity(map[], c, true) == Some(Missing);
  }

  // ----- once each, in order -----

  /** The commands are listed first, each once, in the order of the catalog. */
  lemma {:induction false} ShippedInOrder(files: Files, catalog: seq<Shipped>, i: nat)
    requires i < |catalog|
    ensures |ShippedPart(files, catalog, true)| == |catalog|
    ensures ShippedPart(files, catalog, true)[i].id == catalog[i].id
  {
    if |catalog| > 1 {
      ShippedInOrder(files, catalog[..|catalog| - 1], if i < |catalog| - 1 then i else 0);
    }
  }

  ghost predicate NamesAscend(found: seq<Inspection>)
  {
    forall i, j :: 0 <= i < j < |found| ==> Before(found[i].fileName, found[j].fileName)
  }

  /** The other files follow, each once, in name order. */
  lemma {:induction false} OthersInOrder(
      catalog: seq<Shipped>, digest: Bytes -> string, files: Files, names: seq<string>, enabled: bool)
    requires Ascending(names) && forall n :: n in names ==> n in files
    ensures NamesAscend(OtherPart(catalog, digest, files, names, enabled))
  {
    if names != [] {
      var front := names[..|names| - 1];
      OthersInOrder(catalog, digest, files, front, enabled);
      forall x | x in OtherPart(catalog, digest, files, front, enabled)
        ensures Before(x.fileName, names[|names| - 1])
      {
        OtherPartIs(catalog, digest, files, front, enabled, x);
      }
    }
  }

  // ----- the report names the command -----

  /** An entry of the report carries the id of its file's command. */
  lemma ReportNamesItsCommand(catalog: seq<Shipped>, digest: Bytes -> string, files: Files, x: CommandChange)
    requires x in Reported(catalog, digest, files)
    ensures x.fileName == FileName(x.id) || (x.change == Removed && x.fileName == LegacyName(x.id))
  {
    var written := WithShipped(files, catalog);
    WritesAre(files, catalog, x);
    RemovalsAre(Sweeping(catalog, digest), written, Entries(written), x);
    IvarIdInverse(x.fileName, x.id);
    LegacyCommandIs(catalog, x.fileName);
  }
}
