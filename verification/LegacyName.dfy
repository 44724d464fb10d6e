/** Who gets the legacy name `pg_table` (src/datafusion_engine.rs, lines 100-101 and 162-197). */
module LegacyName {
  import opened Options
  import opened Catalog
  import opened Aliases
  import opened Registration

  // ---- In the order the aliases are assigned ----

  /** The first entry of a table named `my_pg_table`. */
  function FirstNamed(entries: seq<Entry>): Option<Entry> {
    if entries == [] then None
    else if FirstNamed(entries[..|entries| - 1]).Some? then FirstNamed(entries[..|entries| - 1])
    else if entries[|entries| - 1].table.name == LEGACY_SOURCE_TABLE then Some(entries[|entries| - 1])
    else None
  }

  /** A schema-qualified candidate has two underscores in a row, `my_pg_table` has not. */
  lemma QualifiedIsNotLegacy(s: string, t: string)
    ensures s + "__" + t != LEGACY_SOURCE_TABLE
  {
    var name := s + "__" + t;
    assert name[|s|] == '_' && name[|s| + 1] == '_';
    assert forall k | 0 <= k < 10 :: !(LEGACY_SOURCE_TABLE[k] == '_' && LEGACY_SOURCE_TABLE[k + 1] == '_');
  }

  lemma OnlyItsOwnTableIsCalledLegacy(e: Entry, taken: set<string>)
    ensures FirstFree(Candidates(e), taken) == Some(LEGACY_SOURCE_TABLE) <==>
            e.table.name == LEGACY_SOURCE_TABLE && LEGACY_SOURCE_TABLE !in taken
  {
    FirstFreeOfThree(e, taken);
    QualifiedIsNotLegacy(e.table.schema, e.table.name);
    assert Candidates(e)[2] == (e.source + "__" + e.table.schema) + "__" + e.table.name;
    QualifiedIsNotLegacy(e.source + "__" + e.table.schema, e.table.name);
  }

  /** The bare name stays free for the first table of that name, which takes it. */
  lemma {:induction false} FirstNamedTakesTheBareName(entries: seq<Entry>, reserved: set<string>)
    requires LEGACY_SOURCE_TABLE !in reserved
    ensures LEGACY_SOURCE_TABLE in Taken(Assigned(entries, reserved), reserved) <==> FirstNamed(entries).Some?
    ensures FirstLegacy(AliasesOf(entries, Assigned(entries, reserved)))
         == match FirstNamed(entries)
            case None => None
            case Some(e) => Some(Alias(LEGACY_SOURCE_TABLE, e.source, e.table))
  {
    hide Candidates, FirstFree;
    if entries != [] {
      var init, e := entries[..|entries| - 1], entries[|entries| - 1];
      FirstNamedTakesTheBareName(init, reserved);
      hide Taken, FirstLegacy, AliasesOf, Assigned;
      OneMoreEntry(init, e, reserved);
      assert entries == init + [e];
      var before := Assigned(init, reserved);
      var a := FirstFree(Candidates(e), Taken(before, reserved));
      TakenGrows(before, a, reserved);
      OnlyItsOwnTableIsCalledLegacy(e, Taken(before, reserved));
      if a.Some? {
        FirstLegacyGrows(AliasesOf(init, before), Alias(a.value, e.source, e.table));
      } else {
        assert AliasesOf(init, before) + [] == AliasesOf(init, before);
      }
    }
  }

  // ---- In terms of sources and tables ----

  ghost predicate HasLegacyTable(s: SourceTables) {
    exists k | 0 <= k < |s.tables| :: s.tables[k].name == "my_pg_table"
  }

  /** Table `k` of source `i` is the first named `my_pg_table`, by source and then by table. */
  ghost predicate IsFirstLegacyTable(sources: seq<SourceTables>, i: nat, k: nat) {
    && i < |sources| && k < |sources[i].tables| && sources[i].tables[k].name == "my_pg_table"
    && (forall j | 0 <= j < k :: sources[i].tables[j].name != "my_pg_table")
    && (forall j | 0 <= j < i :: !HasLegacyTable(sources[j]))
  }

  lemma {:induction false} FirstNamedAppend(a: seq<Entry>, b: seq<Entry>)
    ensures FirstNamed(a + b) == if FirstNamed(a).Some? then FirstNamed(a) else FirstNamed(b)
  {
    if b == [] {
      assert a + b == a;
    } else {
      FirstNamedAppend(a, b[..|b| - 1]);
      assert (a + b)[..|a + b| - 1] == a + b[..|b| - 1];
    }
  }

  lemma {:induction false} FirstNamedIsFirst(entries: seq<Entry>)
    ensures FirstNamed(entries).None? ==> forall n | 0 <= n < |entries| :: entries[n].table.name != LEGACY_SOURCE_TABLE
    ensures FirstNamed(entries).Some? ==> exists n ::
      && 0 <= n < |entries| && entries[n] == FirstNamed(entries).value && entries[n].table.name == LEGACY_SOURCE_TABLE
      && forall m | 0 <= m < n :: entries[m].table.name != LEGACY_SOURCE_TABLE
  {
    if entries != [] {
      var init := entries[..|entries| - 1];
      FirstNamedIsFirst(init);
      if FirstNamed(init).Some? {
        var n :| 0 <= n < |init| && init[n] == FirstNamed(init).value && init[n].table.name == LEGACY_SOURCE_TABLE
                 && forall m | 0 <= m < n :: init[m].table.name != LEGACY_SOURCE_TABLE;
        assert entries[n] == init[n] && forall m | 0 <= m < n :: entries[m] == init[m];
      } else {
        assert forall n | 0 <= n < |init| :: init[n] == entries[n];
      }
    }
  }

  /** Within one source: none, or its first table of that name. */
  lemma FirstNamedOfSource(s: SourceTables)
    ensures FirstNamed(EntriesOf(s)).Some? <==> HasLegacyTable(s)
    ensures forall k: nat | k < |s.tables| && s.tables[k].name == LEGACY_SOURCE_TABLE
                            && (forall j | 0 <= j < k :: s.tables[j].name != LEGACY_SOURCE_TABLE) ::
              FirstNamed(EntriesOf(s)) == Some(Entry(s.source, s.tables[k]))
  {
    var es := EntriesOf(s);
    FirstNamedIsFirst(es);
    assert forall n | 0 <= n < |es| :: es[n].table == s.tables[n];
    if FirstNamed(es).Some? {
      var n :| 0 <= n < |es| && es[n] == FirstNamed(es).value && es[n].table.name == LEGACY_SOURCE_TABLE
               && forall m | 0 <= m < n :: es[m].table.name != LEGACY_SOURCE_TABLE;
      assert s.tables[n].name == LEGACY_SOURCE_TABLE;
    }
  }

  lemma {:induction false} FirstNamedOfSources(sources: seq<SourceTables>)
    ensures FirstNamed(Entries(sources)).Some? <==> exists i | 0 <= i < |sources| :: HasLegacyTable(sources[i])
    ensures forall i: nat, k: nat | IsFirstLegacyTable(sources, i, k) ::
      FirstNamed(Entries(sources)) == Some(Entry(sources[i].source, sources[i].tables[k]))
  {
    hide FirstNamed, EntriesOf, HasLegacyTable;
    if sources == [] {
      FirstNamedIsFirst([]);
    } else {
      var n := |sources| - 1;
      var init, s := sources[..n], sources[n];
      FirstNamedOfSources(init);
      FirstNamedAppend(Entries(init), EntriesOf(s));
      FirstNamedOfSource(s);
      forall i: nat, k: nat | IsFirstLegacyTable(sources, i, k)
        ensures FirstNamed(Entries(sources)) == Some(Entry(sources[i].source, sources[i].tables[k]))
      {
        if i < n {
          assert IsFirstLegacyTable(init, i, k);
        }
      }
    }
  }

  /** The table registered under a name of the default schema. */
  function InDefaultSchema(catalogs: Catalogs, name: string): Option<Provider> {
    Lookup(if "datafusion" in catalogs then catalogs["datafusion"] else map[], "public", name)
  }

  /** Both names reach the first entry of that table name, on its own source's connection, or neither is there. */
  lemma BothNamesAreTheFirsts(catalogs: Catalogs, sources: seq<SourceTables>, filterPushdown: bool)
    requires FreshSession(catalogs) && Registrable(sources)
    ensures RegisterAll(catalogs, sources, filterPushdown).Some?
    ensures var after := RegisterAll(catalogs, sources, filterPushdown).value;
      match FirstNamed(Entries(sources))
      case None => InDefaultSchema(after, LEGACY_ALIAS) == None == InDefaultSchema(after, LEGACY_SOURCE_TABLE)
      case Some(e) => exists i | 0 <= i < |sources| ::
        && sources[i].source == e.source && e.table in sources[i].tables && e.table.name == LEGACY_SOURCE_TABLE
        && InDefaultSchema(after, LEGACY_ALIAS) == Some(PostgresTable(i, e.table, filterPushdown))
        && InDefaultSchema(after, LEGACY_SOURCE_TABLE) == Some(PostgresTable(i, e.table, filterPushdown))
  {
    hide RegisterAll, CanonicalNames, Registrable, FirstLegacy, AliasNames, FirstNamed, Entries, AliasesOf, Assigned;
    RegistrationIsTotalAndClashFree(catalogs, sources, filterPushdown);
    RegistrableIsDistinct(sources);
    FirstNamedTakesTheBareName(Entries(sources), RESERVED);
    FirstNamedIsFirst(Entries(sources));
    var aliases := Resolve(sources, RESERVED);
    var d := DefaultTables(RegisterAll(catalogs, sources, filterPushdown).value).value;
    ResolvedAvoidReserved(sources);
    FirstLegacyIsMember(aliases);
    if FirstNamed(Entries(sources)).None? {
      NoAliasIsUntaken(sources);
      assert LEGACY_ALIAS !in d && LEGACY_SOURCE_TABLE !in d;
    } else {
      var a := FirstLegacy(aliases).value;
      assert ReachesOwnTable(d, a, LEGACY_ALIAS, sources, filterPushdown) && ReachesOwnTable(d, a, a.alias, sources, filterPushdown);
    }
  }

  lemma NoAliasIsUntaken(sources: seq<SourceTables>)
    requires LEGACY_SOURCE_TABLE !in Taken(Assigned(Entries(sources), RESERVED), RESERVED)
    ensures LEGACY_SOURCE_TABLE !in AliasNames(Resolve(sources, RESERVED))
  {
    AliasesNeverClash(Entries(sources), RESERVED);
  }

  lemma RegistrableIsDistinct(sources: seq<SourceTables>)
    requires Registrable(sources)
    ensures DistinctSources(sources)
  {
  }

  lemma ResolvedAvoidReserved(sources: seq<SourceTables>)
    ensures LEGACY_ALIAS !in AliasNames(Resolve(sources, RESERVED))
  {
    AliasesNeverClash(Entries(sources), RESERVED);
  }

  lemma {:induction false} FirstLegacyIsMember(aliases: seq<Alias>)
    ensures FirstLegacy(aliases).Some? ==> FirstLegacy(aliases).value in aliases
  {
    if aliases != [] {
      FirstLegacyIsMember(aliases[..|aliases| - 1]);
    }
  }

  /**
   The legacy name is registered exactly if some discovered table is named
   `my_pg_table`. It is then the first such table, by source and then by table, on
   its own source's connection, and the table the bare name reaches. So it is the
   primary source's exactly if the primary source has one.
   */
  lemma LegacyNameGoesToTheFirst(catalogs: Catalogs, sources: seq<SourceTables>, filterPushdown: bool)
    requires FreshSession(catalogs) && Registrable(sources)
    ensures RegisterAll(catalogs, sources, filterPushdown).Some?
    ensures var after := RegisterAll(catalogs, sources, filterPushdown).value;
      && (InDefaultSchema(after, "pg_table").Some? <==> exists i | 0 <= i < |sources| :: HasLegacyTable(sources[i]))
      && InDefaultSchema(after, "pg_table") == InDefaultSchema(after, "my_pg_table")
      && (forall i: nat, k: nat | IsFirstLegacyTable(sources, i, k) ::
            InDefaultSchema(after, "pg_table") == Some(PostgresTable(i, sources[i].tables[k], filterPushdown)))
      && (sources != [] ==>
            ((InDefaultSchema(after, "pg_table").Some? && InDefaultSchema(after, "pg_table").value.PostgresTable?
              && InDefaultSchema(after, "pg_table").value.client == 0) <==> HasLegacyTable(sources[0])))
  {
    hide RegisterAll, Registrable, InDefaultSchema, FreshSession, FirstNamed, Entries, HasLegacyTable;
    BothNamesAreTheFirsts(catalogs, sources, filterPushdown);
    FirstNamedOfSources(sources);
    RegistrableIsDistinct(sources);
    if sources != [] {
      if HasLegacyTable(sources[0]) {
        var k := FirstTableNamed(sources[0]);
        assert IsFirstLegacyTable(sources, 0, k);
      } else if FirstNamed(Entries(sources)).Some? {
        var e := FirstNamed(Entries(sources)).value;
        TableIsLegacy(sources[0], e.table);
      }
    }
  }

  lemma FirstTableNamed(s: SourceTables) returns (k: nat)
    requires HasLegacyTable(s)
    ensures IsFirstLegacyTable([s], 0, k)
  {
    FirstNamedOfSource(s);
    FirstNamedIsFirst(EntriesOf(s));
    var es := EntriesOf(s);
    k :| 0 <= k < |es| && es[k].table.name == LEGACY_SOURCE_TABLE && forall m | 0 <= m < k :: es[m].table.name != LEGACY_SOURCE_TABLE;
    assert forall m | 0 <= m < |es| :: es[m].table == s.tables[m];
  }

  lemma TableIsLegacy(s: SourceTables, t: TableSchema)
    requires t.name == LEGACY_SOURCE_TABLE && !HasLegacyTable(s)
    ensures t !in s.tables
  {
  }

  /** Two sources of which only the later has the table: it gets the name, although it is not the primary one. */
  lemma LaterSourceCanHaveTheLegacyName(catalogs: Catalogs, first: SourceTables, second: SourceTables, filterPushdown: bool)
    requires FreshSession(catalogs) && Registrable([first, second])
    requires !HasLegacyTable(first) && HasLegacyTable(second)
    ensures RegisterAll(catalogs, [first, second], filterPushdown).Some?
    ensures var p := InDefaultSchema(RegisterAll(catalogs, [first, second], filterPushdown).value, "pg_table");
      p.Some? && p.value.PostgresTable? && p.value.client == 1
  {
    hide RegisterAll, InDefaultSchema, Registrable, FreshSession;
    var sources := [first, second];
    LegacyNameGoesToTheFirst(catalogs, sources, filterPushdown);
    var k := FirstTableNamed(second);
    assert IsFirstLegacyTable(sources, 1, k);
  }

  lemma SuchSourcesExist() returns (first: SourceTables, second: SourceTables)
    ensures Registrable([first, second]) && !HasLegacyTable(first) && HasLegacyTable(second)
  {
    first := SourceTables("orders", []);
    second := SourceTables("stock", [TableSchema("public", LEGACY_SOURCE_TABLE, [ArrowField("id", Int32, false, None)])]);
    assert second.tables[0].name == LEGACY_SOURCE_TABLE;
  }
}
