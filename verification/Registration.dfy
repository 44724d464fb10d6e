/** Registration of every discovered table with the query engine (src/datafusion_engine.rs, lines 104-243). */
module Registration {
  import opened Options
  import opened Catalog
  import opened Aliases
  import Config

  /** A registered table: the Parquet files, or a PostgreSQL table read over one source's connection. */
  datatype Provider = ParquetTable | PostgresTable(client: nat, table: TableSchema, filterPushdown: bool)

  type SchemaTables = map<string, Provider>
  type CatalogTables = map<string, SchemaTables>
  type Catalogs = map<string, CatalogTables>

  const DEFAULT_CATALOG := "datafusion"
  const DEFAULT_SCHEMA := "public"
  const ICEBERG_TABLE := "iceberg"
  const LEGACY_ALIAS := "pg_table"
  const LEGACY_SOURCE_TABLE := "my_pg_table"

  // ---- One source's catalog ----

  function Lookup(catalog: CatalogTables, schema: string, name: string): Option<Provider> {
    if schema in catalog && name in catalog[schema] then Some(catalog[schema][name]) else None
  }

  /** The schema's tables, created on first use. */
  function SchemaProvider(catalog: CatalogTables, schema: string): SchemaTables {
    if schema in catalog then catalog[schema] else map[]
  }

  /** Registering a table fails if its schema already has one of that name. */
  function AddTable(catalog: CatalogTables, t: TableSchema, p: Provider): Option<CatalogTables> {
    var tables := SchemaProvider(catalog, t.schema);
    if t.name in tables then None else Some(catalog[t.schema := tables[t.name := p]])
  }

  function CatalogOf(tables: seq<TableSchema>, client: nat, filterPushdown: bool): Option<CatalogTables> {
    if tables == [] then Some(map[])
    else
      var t := tables[|tables| - 1];
      var catalog :- CatalogOf(tables[..|tables| - 1], client, filterPushdown);
      AddTable(catalog, t, PostgresTable(client, t, filterPushdown))
  }

  lemma AddTableLookup(catalog: CatalogTables, t: TableSchema, p: Provider, schema: string, name: string)
    ensures AddTable(catalog, t, p).Some? <==> Lookup(catalog, t.schema, t.name).None?
    ensures AddTable(catalog, t, p).Some? ==>
      Lookup(AddTable(catalog, t, p).value, schema, name)
      == if (schema, name) == TableKeyOf(t) then Some(p) else Lookup(catalog, schema, name)
  {
  }

  /** It holds exactly the tables given, each under its own name; it fails exactly on a repeated name. */
  lemma {:induction false} CatalogHoldsItsTables(tables: seq<TableSchema>, client: nat, filterPushdown: bool)
    ensures DistinctTables(tables) ==> CatalogOf(tables, client, filterPushdown).Some?
    ensures CatalogOf(tables, client, filterPushdown).Some? ==> DistinctTables(tables)
    ensures CatalogOf(tables, client, filterPushdown).Some? ==>
      var catalog := CatalogOf(tables, client, filterPushdown).value;
      && (forall i | 0 <= i < |tables| ::
            Lookup(catalog, tables[i].schema, tables[i].name) == Some(PostgresTable(client, tables[i], filterPushdown)))
      && (forall schema, name :: Lookup(catalog, schema, name).Some? ==> HasTable(tables, (schema, name)))
  {
    hide Lookup, AddTable;
    if tables == [] {
      EmptyCatalog();
    } else {
      var init, t := tables[..|tables| - 1], tables[|tables| - 1];
      CatalogHoldsItsTables(init, client, filterPushdown);
      assert DistinctTables(tables) ==> DistinctTables(init);
      var before := CatalogOf(init, client, filterPushdown);
      if before.Some? {
        var p := PostgresTable(client, t, filterPushdown);
        AddTableLookup(before.value, t, p, t.schema, t.name);
        forall i | 0 <= i < |init| ensures Lookup(before.value, tables[i].schema, tables[i].name) == Some(PostgresTable(client, tables[i], filterPushdown)) {
          assert init[i] == tables[i];
        }
        if Lookup(before.value, t.schema, t.name).Some? {
          var i :| 0 <= i < |init| && TableKeyOf(init[i]) == TableKeyOf(t);
          assert TableKeyOf(tables[i]) == TableKeyOf(tables[|tables| - 1]);
        } else {
          var after := CatalogOf(tables, client, filterPushdown).value;
          forall i | 0 <= i < |tables|
            ensures Lookup(after, tables[i].schema, tables[i].name) == Some(PostgresTable(client, tables[i], filterPushdown))
            ensures i < |init| ==> TableKeyOf(tables[i]) != TableKeyOf(t)
          {
            AddTableLookup(before.value, t, p, tables[i].schema, tables[i].name);
          }
          forall schema, name | Lookup(after, schema, name).Some? ensures HasTable(tables, (schema, name)) {
            AddTableLookup(before.value, t, p, schema, name);
            if (schema, name) == TableKeyOf(t) {
              assert TableKeyOf(tables[|tables| - 1]) == (schema, name);
            } else {
              var i :| 0 <= i < |init| && TableKeyOf(init[i]) == (schema, name);
              assert TableKeyOf(tables[i]) == (schema, name);
            }
          }
        }
      }
    }
  }

  lemma EmptyCatalog()
    ensures forall schema, name :: Lookup(map[], schema, name).None?
  {
  }

  // ---- All sources' catalogs ----

  /** The connection of each source, by name; a later source of the same name replaces an earlier one. */
  function ClientsOf(sources: seq<SourceTables>): (clients: map<string, nat>)
    ensures forall i | 0 <= i < |sources| :: sources[i].source in clients
  {
    if sources == [] then map[]
    else
      var n := |sources| - 1;
      var clients := ClientsOf(sources[..n]);
      assert forall i | 0 <= i < n :: sources[..n][i] == sources[i];
      clients[sources[n].source := n]
  }

  ghost predicate DistinctSources(sources: seq<SourceTables>) {
    forall i, j | 0 <= i < j < |sources| :: sources[i].source != sources[j].source
  }

  lemma {:induction false} OwnClient(sources: seq<SourceTables>, i: nat)
    requires DistinctSources(sources) && i < |sources|
    ensures ClientsOf(sources)[sources[i].source] == i
  {
    var n := |sources| - 1;
    if i < n {
      OwnClient(sources[..n], i);
    }
  }

  /** Canonical registration; registering a catalog replaces one of the same name. */
  function CatalogsAfter(catalogs: Catalogs, sources: seq<SourceTables>, clients: map<string, nat>, filterPushdown: bool): Option<Catalogs>
    requires forall i | 0 <= i < |sources| :: sources[i].source in clients
  {
    if sources == [] then Some(catalogs)
    else
      var s := sources[|sources| - 1];
      var before :- CatalogsAfter(catalogs, sources[..|sources| - 1], clients, filterPushdown);
      var catalog :- CatalogOf(s.tables, clients[s.source], filterPushdown);
      Some(before[s.source := catalog])
  }

  lemma {:induction false} CatalogsAreOwn(catalogs: Catalogs, sources: seq<SourceTables>, clients: map<string, nat>, filterPushdown: bool)
    requires DistinctSources(sources) && forall i | 0 <= i < |sources| :: sources[i].source in clients
    requires forall i | 0 <= i < |sources| :: DistinctTables(sources[i].tables)
    ensures CatalogsAfter(catalogs, sources, clients, filterPushdown).Some?
    ensures var after := CatalogsAfter(catalogs, sources, clients, filterPushdown).value;
      && (forall i | 0 <= i < |sources| :: sources[i].source in after
            && Some(after[sources[i].source]) == CatalogOf(sources[i].tables, clients[sources[i].source], filterPushdown))
      && (forall c | forall i | 0 <= i < |sources| :: sources[i].source != c ::
            (c in after <==> c in catalogs) && (c in catalogs ==> after[c] == catalogs[c]))
  {
    hide CatalogOf;
    if sources != [] {
      var init, s := sources[..|sources| - 1], sources[|sources| - 1];
      CatalogsAreOwn(catalogs, init, clients, filterPushdown);
      CatalogHoldsItsTables(s.tables, clients[s.source], filterPushdown);
      assert forall i | 0 <= i < |init| :: init[i] == sources[i] && sources[i].source != s.source;
    }
  }

  // ---- The providers an alias can reach ----

  type ProviderKey = (string, string, string)

  function KeyOfEntry(e: Entry): ProviderKey {
    (e.source, e.table.schema, e.table.name)
  }

  function ProvidersOf(entries: seq<Entry>, clients: map<string, nat>, filterPushdown: bool): (r: map<ProviderKey, Provider>)
    requires forall e | e in entries :: e.source in clients
    ensures forall e | e in entries :: KeyOfEntry(e) in r
  {
    if entries == [] then map[]
    else
      var e := entries[|entries| - 1];
      assert entries == entries[..|entries| - 1] + [e];
      ProvidersOf(entries[..|entries| - 1], clients, filterPushdown)[KeyOfEntry(e) := PostgresTable(clients[e.source], e.table, filterPushdown)]
  }

  ghost predicate DistinctEntries(entries: seq<Entry>) {
    forall i, j | 0 <= i < j < |entries| :: KeyOfEntry(entries[i]) != KeyOfEntry(entries[j])
  }

  lemma {:induction false} EntriesAreOfSources(sources: seq<SourceTables>)
    ensures forall e | e in Entries(sources) :: exists i | 0 <= i < |sources| :: sources[i].source == e.source && e.table in sources[i].tables
    ensures forall e | e in Entries(sources) :: e.source in ClientsOf(sources)
  {
    if sources != [] {
      var init, s := sources[..|sources| - 1], sources[|sources| - 1];
      EntriesAreOfSources(init);
      forall e | e in Entries(sources)
        ensures exists i | 0 <= i < |sources| :: sources[i].source == e.source && e.table in sources[i].tables
      {
        if e in Entries(init) {
          var i :| 0 <= i < |init| && init[i].source == e.source && e.table in init[i].tables;
          assert sources[i].source == e.source && e.table in sources[i].tables;
        } else {
          assert e in EntriesOf(s);
          assert sources[|sources| - 1].source == e.source && e.table in sources[|sources| - 1].tables;
        }
      }
    }
  }

  lemma {:induction false} EntriesAreDistinct(sources: seq<SourceTables>)
    requires DistinctSources(sources) && forall i | 0 <= i < |sources| :: DistinctTables(sources[i].tables)
    ensures DistinctEntries(Entries(sources))
  {
    if sources != [] {
      var init, s := sources[..|sources| - 1], sources[|sources| - 1];
      EntriesAreDistinct(init);
      EntriesAreOfSources(init);
      var before, added := Entries(init), EntriesOf(s);
      forall i | 0 <= i < |before| ensures before[i].source != s.source {
        assert before[i] in before;
        var k :| 0 <= k < |init| && init[k].source == before[i].source && before[i].table in init[k].tables;
        assert sources[k].source != s.source;
      }
      forall i, j | 0 <= i < j < |added| ensures KeyOfEntry(added[i]) != KeyOfEntry(added[j]) {
        assert TableKeyOf(s.tables[i]) != TableKeyOf(s.tables[j]);
      }
    }
  }

  lemma {:induction false} OwnProvider(entries: seq<Entry>, clients: map<string, nat>, filterPushdown: bool, i: nat)
    requires DistinctEntries(entries) && i < |entries| && forall e | e in entries :: e.source in clients
    ensures ProvidersOf(entries, clients, filterPushdown)[KeyOfEntry(entries[i])]
         == PostgresTable(clients[entries[i].source], entries[i].table, filterPushdown)
  {
    var n := |entries| - 1;
    if i < n {
      assert entries == entries[..n] + [entries[n]];
      assert entries[i] in entries[..n];
      OwnProvider(entries[..n], clients, filterPushdown, i);
    }
  }

  // ---- Aliases in the default schema ----

  function KeyOfAlias(a: Alias): ProviderKey {
    (a.source, a.table.schema, a.table.name)
  }

  /** The default schema and whether the legacy alias is registered; nothing if a name is already taken. */
  function AddAlias(d: SchemaTables, legacy: bool, a: Alias, p: Provider): Option<(SchemaTables, bool)> {
    if a.alias in d then None
    else
      var added := d[a.alias := p];
      if !legacy && a.table.name == LEGACY_SOURCE_TABLE then
        if LEGACY_ALIAS in added then None else Some((added[LEGACY_ALIAS := p], true))
      else Some((added, legacy))
  }

  function AddAliases(d: SchemaTables, aliases: seq<Alias>, providers: map<ProviderKey, Provider>): Option<(SchemaTables, bool)>
    requires forall a | a in aliases :: KeyOfAlias(a) in providers
  {
    if aliases == [] then Some((d, false))
    else
      var a := aliases[|aliases| - 1];
      assert aliases == aliases[..|aliases| - 1] + [a];
      var (before, legacy) :- AddAliases(d, aliases[..|aliases| - 1], providers);
      AddAlias(before, legacy, a, providers[KeyOfAlias(a)])
  }

  /** The first alias of a table named `my_pg_table`. */
  function FirstLegacy(aliases: seq<Alias>): Option<Alias> {
    if aliases == [] then None
    else if FirstLegacy(aliases[..|aliases| - 1]).Some? then FirstLegacy(aliases[..|aliases| - 1])
    else if aliases[|aliases| - 1].table.name == LEGACY_SOURCE_TABLE then Some(aliases[|aliases| - 1])
    else None
  }

  function AliasNames(aliases: seq<Alias>): set<string> {
    set i | 0 <= i < |aliases| :: aliases[i].alias
  }

  /** The default schema after registration: what was there, each alias on its own table, and the legacy name on the table of `legacy`. */
  ghost predicate DefaultHolds(d0: SchemaTables, d: SchemaTables, aliases: seq<Alias>, legacy: Option<Alias>, providers: map<ProviderKey, Provider>)
    requires forall a | a in aliases :: KeyOfAlias(a) in providers
  {
    && d.Keys == d0.Keys + AliasNames(aliases) + (if legacy.Some? then {LEGACY_ALIAS} else {})
    && (forall n | n in d0 :: n in d && d[n] == d0[n])
    && (forall a | a in aliases :: a.alias in d && d[a.alias] == providers[KeyOfAlias(a)])
    && (legacy.Some? ==> legacy.value in aliases && LEGACY_ALIAS in d && d[LEGACY_ALIAS] == providers[KeyOfAlias(legacy.value)])
  }

  lemma AliasNamesGrow(aliases: seq<Alias>)
    requires aliases != []
    ensures AliasNames(aliases) == AliasNames(aliases[..|aliases| - 1]) + {aliases[|aliases| - 1].alias}
  {
  }

  /** The names an alias list may not use: those already there, and the legacy one. */
  ghost predicate AvoidsNames(d0: SchemaTables, aliases: seq<Alias>) {
    DistinctAliases(aliases) && LEGACY_ALIAS !in d0 && forall a | a in aliases :: a.alias !in d0 && a.alias != LEGACY_ALIAS
  }

  lemma AliasAdded(d0: SchemaTables, before: SchemaTables, init: seq<Alias>, a: Alias, legacy: Option<Alias>, providers: map<ProviderKey, Provider>)
    requires forall b | b in init + [a] :: KeyOfAlias(b) in providers
    requires AvoidsNames(d0, init + [a]) && (forall b | b in init :: b in init + [a])
    requires DefaultHolds(d0, before, init, legacy, providers)
    ensures a.alias !in before
    ensures DefaultHolds(d0, before[a.alias := providers[KeyOfAlias(a)]], init + [a], legacy, providers)
  {
    hide DistinctAliases;
    var aliases := init + [a];
    assert aliases[..|aliases| - 1] == init;
    AliasNamesGrow(aliases);
    LastAliasIsNew(aliases);
    hide AliasNames;
    assert a in aliases;
    forall b | b in init ensures b.alias != a.alias {
      MemberName(init, b);
    }
  }

  lemma LegacyAdded(d0: SchemaTables, d: SchemaTables, aliases: seq<Alias>, a: Alias, providers: map<ProviderKey, Provider>)
    requires (forall b | b in aliases :: KeyOfAlias(b) in providers) && a in aliases
    requires AvoidsNames(d0, aliases) && DefaultHolds(d0, d, aliases, None, providers)
    ensures LEGACY_ALIAS !in d
    ensures DefaultHolds(d0, d[LEGACY_ALIAS := providers[KeyOfAlias(a)]], aliases, Some(a), providers)
  {
    hide DistinctAliases;
    LegacyIsNoAlias(d0, aliases);
    hide AliasNames;
  }

  lemma OneMoreAlias(d0: SchemaTables, before: SchemaTables, init: seq<Alias>, a: Alias, providers: map<ProviderKey, Provider>)
    requires (forall b | b in init + [a] :: KeyOfAlias(b) in providers) && forall b | b in init :: b in init + [a]
    requires AvoidsNames(d0, init + [a])
    requires DefaultHolds(d0, before, init, FirstLegacy(init), providers)
    ensures var r := AddAlias(before, FirstLegacy(init).Some?, a, providers[KeyOfAlias(a)]);
      && r.Some? && r.value.1 == FirstLegacy(init + [a]).Some?
      && DefaultHolds(d0, r.value.0, init + [a], FirstLegacy(init + [a]), providers)
  {
    hide DefaultHolds, AvoidsNames;
    FirstLegacyGrows(init, a);
    AliasAdded(d0, before, init, a, FirstLegacy(init), providers);
    if FirstLegacy(init).None? && a.table.name == LEGACY_SOURCE_TABLE {
      LegacyAdded(d0, before[a.alias := providers[KeyOfAlias(a)]], init + [a], a, providers);
    }
  }

  lemma MemberName(aliases: seq<Alias>, a: Alias)
    requires a in aliases
    ensures a.alias in AliasNames(aliases)
  {
  }

  lemma LastAliasIsNew(aliases: seq<Alias>)
    requires aliases != [] && DistinctAliases(aliases)
    ensures aliases[|aliases| - 1].alias !in AliasNames(aliases[..|aliases| - 1])
  {
  }

  lemma LegacyIsNoAlias(d0: SchemaTables, aliases: seq<Alias>)
    requires forall a | a in aliases :: a.alias !in d0 && a.alias != LEGACY_ALIAS
    ensures LEGACY_ALIAS !in AliasNames(aliases)
  {
  }

  lemma FirstLegacyGrows(init: seq<Alias>, a: Alias)
    ensures FirstLegacy(init + [a]) == if FirstLegacy(init).Some? then FirstLegacy(init)
                                      else if a.table.name == LEGACY_SOURCE_TABLE then Some(a) else None
  {
    assert (init + [a])[..|init + [a]| - 1] == init;
  }

  lemma {:induction false} AliasesRegister(d0: SchemaTables, aliases: seq<Alias>, providers: map<ProviderKey, Provider>)
    requires AvoidsNames(d0, aliases) && forall a | a in aliases :: KeyOfAlias(a) in providers
    ensures AddAliases(d0, aliases, providers).Some?
    ensures AddAliases(d0, aliases, providers).value.1 == FirstLegacy(aliases).Some?
    ensures DefaultHolds(d0, AddAliases(d0, aliases, providers).value.0, aliases, FirstLegacy(aliases), providers)
  {
    if aliases != [] {
      var init, a := aliases[..|aliases| - 1], aliases[|aliases| - 1];
      assert aliases == init + [a];
      AliasesRegister(d0, init, providers);
      hide DefaultHolds, AddAlias, FirstLegacy;
      OneMoreAlias(d0, AddAliases(d0, init, providers).value.0, init, a, providers);
    }
  }

  // ---- The whole registration ----

  const RESERVED := {ICEBERG_TABLE, LEGACY_ALIAS}

  function DefaultTables(catalogs: Catalogs): Option<SchemaTables> {
    if DEFAULT_CATALOG in catalogs && DEFAULT_SCHEMA in catalogs[DEFAULT_CATALOG] then Some(catalogs[DEFAULT_CATALOG][DEFAULT_SCHEMA])
    else None
  }

  function WithDefault(catalogs: Catalogs, d: SchemaTables): Catalogs
    requires DEFAULT_CATALOG in catalogs
  {
    catalogs[DEFAULT_CATALOG := catalogs[DEFAULT_CATALOG][DEFAULT_SCHEMA := d]]
  }

  /** The lookup of an alias's provider never fails, whatever was discovered. */
  lemma EveryAliasHasItsProvider(sources: seq<SourceTables>, filterPushdown: bool)
    ensures forall e | e in Entries(sources) :: e.source in ClientsOf(sources)
    ensures forall a | a in Resolve(sources, RESERVED) :: KeyOfAlias(a) in ProvidersOf(Entries(sources), ClientsOf(sources), filterPushdown)
  {
    EntriesAreOfSources(sources);
    AliasesNeverClash(Entries(sources), RESERVED);
    forall a | a in Resolve(sources, RESERVED) ensures KeyOfAlias(a) in ProvidersOf(Entries(sources), ClientsOf(sources), filterPushdown) {
      assert KeyOfAlias(a) == KeyOfEntry(Entry(a.source, a.table));
    }
  }

  function RegisterAll(catalogs: Catalogs, sources: seq<SourceTables>, filterPushdown: bool): Option<Catalogs> {
    var clients := ClientsOf(sources);
    var after :- CatalogsAfter(catalogs, sources, clients, filterPushdown);
    var aliases := Resolve(sources, RESERVED);
    if aliases == [] then Some(after)
    else
      var d0 :- DefaultTables(after);
      EveryAliasHasItsProvider(sources, filterPushdown);
      var (d, _) :- AddAliases(d0, aliases, ProvidersOf(Entries(sources), clients, filterPushdown));
      Some(WithDefault(after, d))
  }

  /** The default schema holds the Parquet table and nothing else, as the session is set up. */
  ghost predicate FreshSession(catalogs: Catalogs) {
    DefaultTables(catalogs) == Some(map[ICEBERG_TABLE := ParquetTable])
  }

  ghost predicate Registrable(sources: seq<SourceTables>) {
    && DistinctSources(sources)
    && (forall i | 0 <= i < |sources| :: sources[i].source != DEFAULT_CATALOG)
    && (forall i | 0 <= i < |sources| :: DistinctTables(sources[i].tables))
  }

  /** Each table under its canonical name on its own source's connection, and no other table in that catalog. */
  ghost predicate CanonicalNames(after: Catalogs, sources: seq<SourceTables>, filterPushdown: bool) {
    forall i | 0 <= i < |sources| ::
      && sources[i].source in after
      && (forall k | 0 <= k < |sources[i].tables| ::
            Lookup(after[sources[i].source], sources[i].tables[k].schema, sources[i].tables[k].name)
            == Some(PostgresTable(i, sources[i].tables[k], filterPushdown)))
      && (forall schema, name :: Lookup(after[sources[i].source], schema, name).Some? ==> HasTable(sources[i].tables, (schema, name)))
  }

  /** An alias is of a discovered table, and names that table on its own source's connection. */
  ghost predicate ReachesOwnTable(d: SchemaTables, a: Alias, name: string, sources: seq<SourceTables>, filterPushdown: bool) {
    exists i | 0 <= i < |sources| ::
      sources[i].source == a.source && a.table in sources[i].tables && name in d && d[name] == PostgresTable(i, a.table, filterPushdown)
  }

  lemma CanonicalNamesHold(catalogs: Catalogs, sources: seq<SourceTables>, filterPushdown: bool)
    requires Registrable(sources)
    ensures var r := CatalogsAfter(catalogs, sources, ClientsOf(sources), filterPushdown);
      r.Some? && CanonicalNames(r.value, sources, filterPushdown)
      && (forall c | forall i | 0 <= i < |sources| :: sources[i].source != c ::
            (c in r.value <==> c in catalogs) && (c in catalogs ==> r.value[c] == catalogs[c]))
  {
    hide CatalogOf, Lookup;
    var clients := ClientsOf(sources);
    CatalogsAreOwn(catalogs, sources, clients, filterPushdown);
    forall i | 0 <= i < |sources| ensures clients[sources[i].source] == i {
      OwnClient(sources, i);
    }
    forall i | 0 <= i < |sources| ensures DistinctTables(sources[i].tables) {
      CatalogHoldsItsTables(sources[i].tables, i, filterPushdown);
    }
    var after := CatalogsAfter(catalogs, sources, clients, filterPushdown).value;
    forall i | 0 <= i < |sources|
      ensures (forall k | 0 <= k < |sources[i].tables| ::
                 Lookup(after[sources[i].source], sources[i].tables[k].schema, sources[i].tables[k].name)
                 == Some(PostgresTable(i, sources[i].tables[k], filterPushdown)))
           && (forall schema, name :: Lookup(after[sources[i].source], schema, name).Some? ==> HasTable(sources[i].tables, (schema, name)))
    {
      CatalogHoldsItsTables(sources[i].tables, i, filterPushdown);
    }
  }

  lemma AliasProviderIsOwn(sources: seq<SourceTables>, filterPushdown: bool, a: Alias)
    requires Registrable(sources) && a in Resolve(sources, RESERVED)
    ensures (forall e | e in Entries(sources) :: e.source in ClientsOf(sources))
    ensures KeyOfAlias(a) in ProvidersOf(Entries(sources), ClientsOf(sources), filterPushdown)
    ensures exists i | 0 <= i < |sources| ::
      && sources[i].source == a.source && a.table in sources[i].tables
      && ProvidersOf(Entries(sources), ClientsOf(sources), filterPushdown)[KeyOfAlias(a)] == PostgresTable(i, a.table, filterPushdown)
  {
    hide Entries, Candidates;
    EveryAliasHasItsProvider(sources, filterPushdown);
    AliasesNeverClash(Entries(sources), RESERVED);
    EntriesAreDistinct(sources);
    EntriesAreOfSources(sources);
    var e := Entry(a.source, a.table);
    assert e in Entries(sources);
    var n :| 0 <= n < |Entries(sources)| && Entries(sources)[n] == e;
    OwnProvider(Entries(sources), ClientsOf(sources), filterPushdown, n);
    var i :| 0 <= i < |sources| && sources[i].source == e.source && e.table in sources[i].tables;
    OwnClient(sources, i);
  }

  /**
   Registration is total and clash-free: with distinct, unreserved source names
   and distinct tables in each, nothing fails; every table keeps its canonical
   name on its own connection; every alias, and the legacy name if a
   `my_pg_table` has an alias, reaches its own table; the default schema holds
   the Parquet table and those names only; every other catalog is untouched.
   */
  lemma RegistrationIsTotalAndClashFree(catalogs: Catalogs, sources: seq<SourceTables>, filterPushdown: bool)
    requires FreshSession(catalogs) && Registrable(sources)
    ensures var r, aliases := RegisterAll(catalogs, sources, filterPushdown), Resolve(sources, RESERVED);
      && r.Some? && CanonicalNames(r.value, sources, filterPushdown)
      && DefaultTables(r.value).Some?
      && var d := DefaultTables(r.value).value;
         && d.Keys == {"iceberg"} + AliasNames(aliases) + (if FirstLegacy(aliases).Some? then {"pg_table"} else {})
         && d["iceberg"] == ParquetTable
         && (forall a | a in aliases :: ReachesOwnTable(d, a, a.alias, sources, filterPushdown))
         && (FirstLegacy(aliases).Some? ==> ReachesOwnTable(d, FirstLegacy(aliases).value, "pg_table", sources, filterPushdown))
         && (forall c | c != "datafusion" && (forall i | 0 <= i < |sources| :: sources[i].source != c) ::
               (c in r.value <==> c in catalogs) && (c in catalogs ==> r.value[c] == catalogs[c]))
  {
    hide Entries, Candidates, CanonicalNames, CatalogsAfter, AddAliases, AliasNames, FirstLegacy, ProvidersOf, ClientsOf, ReachesOwnTable;
    var aliases := Resolve(sources, RESERVED);
    CanonicalNamesHold(catalogs, sources, filterPushdown);
    EveryAliasHasItsProvider(sources, filterPushdown);
    AliasesNeverClash(Entries(sources), RESERVED);
    var after := CatalogsAfter(catalogs, sources, ClientsOf(sources), filterPushdown).value;
    var d0 := DefaultTables(catalogs).value;
    assert DefaultTables(after) == Some(d0);
    var providers := ProvidersOf(Entries(sources), ClientsOf(sources), filterPushdown);
    AliasesRegister(d0, aliases, providers);
    NoAliases(d0, providers);
    var (d, _) := AddAliases(d0, aliases, providers).value;
    assert after[DEFAULT_CATALOG][DEFAULT_SCHEMA := d0] == after[DEFAULT_CATALOG];
    assert after == WithDefault(after, d0);
    assert RegisterAll(catalogs, sources, filterPushdown) == Some(WithDefault(after, d));
    CanonicalNamesUnderDefault(after, sources, filterPushdown, d);
    forall a | a in aliases ensures ReachesOwnTable(d, a, a.alias, sources, filterPushdown) {
      ReachesThroughProvider(sources, filterPushdown, a, d, a.alias);
    }
    if FirstLegacy(aliases).Some? {
      ReachesThroughProvider(sources, filterPushdown, FirstLegacy(aliases).value, d, LEGACY_ALIAS);
    }
  }

  lemma NoAliases(d0: SchemaTables, providers: map<ProviderKey, Provider>)
    ensures AddAliases(d0, [], providers) == Some((d0, false))
  {
  }

  lemma ReachesThroughProvider(sources: seq<SourceTables>, filterPushdown: bool, a: Alias, d: SchemaTables, name: string)
    requires Registrable(sources) && a in Resolve(sources, RESERVED)
    requires forall e | e in Entries(sources) :: e.source in ClientsOf(sources)
    requires KeyOfAlias(a) in ProvidersOf(Entries(sources), ClientsOf(sources), filterPushdown)
    requires name in d && d[name] == ProvidersOf(Entries(sources), ClientsOf(sources), filterPushdown)[KeyOfAlias(a)]
    ensures ReachesOwnTable(d, a, name, sources, filterPushdown)
  {
    AliasProviderIsOwn(sources, filterPushdown, a);
  }

  /** Filling the default schema touches no source's catalog. */
  lemma CanonicalNamesUnderDefault(after: Catalogs, sources: seq<SourceTables>, filterPushdown: bool, d: SchemaTables)
    requires CanonicalNames(after, sources, filterPushdown) && DEFAULT_CATALOG in after
    requires forall i | 0 <= i < |sources| :: sources[i].source != DEFAULT_CATALOG
    ensures CanonicalNames(WithDefault(after, d), sources, filterPushdown)
  {
    hide Lookup;
    var filled := WithDefault(after, d);
    assert forall i | 0 <= i < |sources| :: sources[i].source in after && filled[sources[i].source] == after[sources[i].source];
  }

  // ---- From validated configuration and introspected columns ----

  /** What the database reports for each source, grouped and ordered. */
  function Discovered(sources: seq<Config.PostgresSource>, columns: seq<seq<ColumnInfo>>): seq<SourceTables>
    requires |columns| == |sources|
  {
    seq(|sources|, i requires 0 <= i < |sources| =>
      SourceTables(sources[i].name, OrderBySchemaPriority(WithFields(Gathered(columns[i])), sources[i].schemas)))
  }

  lemma {:induction false} InsertKeepsDistinct(schemas: seq<string>, x: TableSchema, tables: seq<TableSchema>)
    requires DistinctTables(tables) && !HasTable(tables, TableKeyOf(x))
    ensures DistinctTables(Insert(schemas, x, tables))
  {
    hide AtMost;
    if tables != [] && !AtMost(schemas, x, tables[0]) {
      var rest := tables[1..];
      forall i | 0 <= i < |rest| ensures TableKeyOf(rest[i]) != TableKeyOf(x) && TableKeyOf(rest[i]) != TableKeyOf(tables[0]) {
        assert rest[i] == tables[i + 1];
      }
      InsertKeepsDistinct(schemas, x, rest);
      var inserted := Insert(schemas, x, rest);
      forall i | 0 <= i < |inserted| ensures TableKeyOf(inserted[i]) != TableKeyOf(tables[0]) {
        InsertedMembers(schemas, x, rest, i);
        assert TableKeyOf(tables[0]) != TableKeyOf(x);
      }
    }
  }

  lemma {:induction false} OrderingKeepsDistinct(tables: seq<TableSchema>, schemas: seq<string>)
    requires DistinctTables(tables)
    ensures DistinctTables(OrderBySchemaPriority(tables, schemas))
  {
    if tables != [] {
      var rest := tables[1..];
      assert forall i | 0 <= i < |rest| :: rest[i] == tables[i + 1];
      OrderingKeepsDistinct(rest, schemas);
      OrderingSorts(rest, schemas, tables[0]);
      var ordered := OrderBySchemaPriority(rest, schemas);
      forall i | 0 <= i < |ordered| ensures TableKeyOf(ordered[i]) != TableKeyOf(tables[0]) {
        assert ordered[i] in multiset(ordered);
        assert ordered[i] in rest;
      }
      InsertKeepsDistinct(schemas, tables[0], ordered);
    }
  }

  /**
   Configuration that passes validation, over databases that list columns in
   table order, always gives a registrable discovery: no source takes the
   engine's own catalog and no catalog has a name twice.
   */
  lemma ValidatedSourcesAreRegistrable(sources: seq<Config.PostgresSource>, columns: seq<seq<ColumnInfo>>)
    requires |columns| == |sources| && Config.ValidSources(sources)
    requires forall i | 0 <= i < |columns| :: TableOrdered(columns[i])
    ensures Registrable(Discovered(sources, columns))
    ensures forall i, key | 0 <= i < |sources| ::
      HasTable(Discovered(sources, columns)[i].tables, key) <==> FieldsOf(columns[i], key) != []
  {
    hide Gathered, WithFields, OrderBySchemaPriority;
    var d := Discovered(sources, columns);
    forall i | 0 <= i < |sources|
      ensures DistinctTables(d[i].tables)
      ensures d[i].source != DEFAULT_CATALOG
      ensures forall key :: HasTable(d[i].tables, key) <==> FieldsOf(columns[i], key) != []
    {
      GroupingConservesColumns(columns[i]);
      var grouped := WithFields(Gathered(columns[i]));
      OrderingKeepsDistinct(grouped, sources[i].schemas);
      forall key ensures HasTable(d[i].tables, key) <==> HasTable(grouped, key) {
        OrderingKeepsTables(grouped, sources[i].schemas, key);
      }
      assert Config.ValidName(sources[i].name) && DEFAULT_CATALOG in Config.RESERVED_SOURCE_NAMES;
    }
  }

  lemma OrderingKeepsTables(tables: seq<TableSchema>, schemas: seq<string>, key: TableKey)
    ensures HasTable(OrderBySchemaPriority(tables, schemas), key) <==> HasTable(tables, key)
  {
    if tables != [] {
      OrderingSorts(tables, schemas, tables[0]);
    }
    var ordered := OrderBySchemaPriority(tables, schemas);
    if i :| 0 <= i < |ordered| && TableKeyOf(ordered[i]) == key {
      assert ordered[i] in multiset(ordered);
      assert ordered[i] in tables;
    }
    if i :| 0 <= i < |tables| && TableKeyOf(tables[i]) == key {
      assert tables[i] in multiset(tables);
      assert tables[i] in ordered;
    }
  }

  /** A catalog resolves exactly the tables with a column of a supported type. */
  ghost predicate ListsExactly(catalog: CatalogTables, columns: seq<ColumnInfo>) {
    forall schema, table :: Lookup(catalog, schema, table).Some? <==> FieldsOf(columns, (schema, table)) != []
  }

  /**
   From validated configuration to registered names: registration succeeds, and
   `<source>.<schema>.<table>` resolves exactly for the tables that have a column
   of a supported type.
   */
  lemma ValidatedConfigurationAlwaysRegisters(
      catalogs: Catalogs, sources: seq<Config.PostgresSource>, columns: seq<seq<ColumnInfo>>, filterPushdown: bool)
    requires FreshSession(catalogs) && |columns| == |sources| && Config.ValidSources(sources)
    requires forall i | 0 <= i < |columns| :: TableOrdered(columns[i])
    ensures var r := RegisterAll(catalogs, Discovered(sources, columns), filterPushdown);
      && r.Some?
      && forall i | 0 <= i < |sources| :: sources[i].name in r.value && ListsExactly(r.value[sources[i].name], columns[i])
  {
    hide Lookup, RegisterAll, Registrable, Resolve, OrderBySchemaPriority, Gathered, WithFields;
    var d := Discovered(sources, columns);
    ValidatedSourcesAreRegistrable(sources, columns);
    RegistrationIsTotalAndClashFree(catalogs, d, filterPushdown);
    var after := RegisterAll(catalogs, d, filterPushdown).value;
    forall i | 0 <= i < |sources| ensures d[i].source == sources[i].name && sources[i].name in after {
    }
    forall i, schema, table | 0 <= i < |sources|
      ensures Lookup(after[sources[i].name], schema, table).Some? <==> FieldsOf(columns[i], (schema, table)) != []
    {
      assert HasTable(d[i].tables, (schema, table)) <==> FieldsOf(columns[i], (schema, table)) != [];
      if HasTable(d[i].tables, (schema, table)) {
        var k :| 0 <= k < |d[i].tables| && TableKeyOf(d[i].tables[k]) == (schema, table);
        assert Lookup(after[d[i].source], d[i].tables[k].schema, d[i].tables[k].name) == Some(PostgresTable(i, d[i].tables[k], filterPushdown));
      }
    }
  }

  // ---- The imperative registration ----

  lemma {:induction false} CatalogFailureStays(tables: seq<TableSchema>, i: nat, client: nat, filterPushdown: bool)
    requires i <= |tables| && CatalogOf(tables[..i], client, filterPushdown).None?
    ensures CatalogOf(tables, client, filterPushdown).None?
    decreases |tables|
  {
    if i < |tables| {
      assert tables[..|tables| - 1][..i] == tables[..i];
      CatalogFailureStays(tables[..|tables| - 1], i, client, filterPushdown);
    } else {
      assert tables[..i] == tables;
    }
  }

  lemma {:induction false} CatalogsFailureStays(catalogs: Catalogs, sources: seq<SourceTables>, i: nat, clients: map<string, nat>, filterPushdown: bool)
    requires i <= |sources| && forall k | 0 <= k < |sources| :: sources[k].source in clients
    requires CatalogsAfter(catalogs, sources[..i], clients, filterPushdown).None?
    ensures CatalogsAfter(catalogs, sources, clients, filterPushdown).None?
    decreases |sources|
  {
    if i < |sources| {
      assert sources[..|sources| - 1][..i] == sources[..i];
      CatalogsFailureStays(catalogs, sources[..|sources| - 1], i, clients, filterPushdown);
    } else {
      assert sources[..i] == sources;
    }
  }

  lemma {:induction false} AliasFailureStays(d: SchemaTables, aliases: seq<Alias>, i: nat, providers: map<ProviderKey, Provider>)
    requires i <= |aliases| && forall a | a in aliases :: KeyOfAlias(a) in providers
    requires (forall a | a in aliases[..i] :: a in aliases) && AddAliases(d, aliases[..i], providers).None?
    ensures AddAliases(d, aliases, providers).None?
    decreases |aliases|
  {
    if i < |aliases| {
      assert aliases[..|aliases| - 1][..i] == aliases[..i];
      AliasFailureStays(d, aliases[..|aliases| - 1], i, providers);
    } else {
      assert aliases[..i] == aliases;
    }
  }

  class SessionContext {
    var catalogs: Catalogs

    /** A session with its default catalog and the Parquet table in it. */
    constructor ()
      ensures FreshSession(catalogs) && catalogs == map["datafusion" := map["public" := map["iceberg" := ParquetTable]]]
    {
      catalogs := map[DEFAULT_CATALOG := map[DEFAULT_SCHEMA := map[ICEBERG_TABLE := ParquetTable]]];
    }

    /** Registers a name in the default schema; fails if it is taken or the schema is gone. */
    method RegisterTable(name: string, p: Provider) returns (ok: bool)
      modifies this
      ensures ok <==> DefaultTables(old(catalogs)).Some? && name !in DefaultTables(old(catalogs)).value
      ensures catalogs == if ok then WithDefault(old(catalogs), DefaultTables(old(catalogs)).value[name := p]) else old(catalogs)
    {
      var d := DefaultTables(catalogs);
      ok := d.Some? && name !in d.value;
      if ok {
        catalogs := WithDefault(catalogs, d.value[name := p]);
      }
    }

    /** One source's catalog, built table by table. */
    method BuildCatalog(s: SourceTables, client: nat, filterPushdown: bool) returns (catalog: Option<CatalogTables>)
      ensures catalog == CatalogOf(s.tables, client, filterPushdown)
    {
      var built: CatalogTables := map[];
      for i := 0 to |s.tables|
        invariant CatalogOf(s.tables[..i], client, filterPushdown) == Some(built)
      {
        var t := s.tables[i];
        assert s.tables[..i + 1][..i] == s.tables[..i];
        var tables := SchemaProvider(built, t.schema);
        if t.name in tables {
          CatalogFailureStays(s.tables, i + 1, client, filterPushdown);
          return None;
        }
        built := built[t.schema := tables[t.name := PostgresTable(client, t, filterPushdown)]];
      }
      assert s.tables[..|s.tables|] == s.tables;
      return Some(built);
    }

    method RegisterCanonical(sources: seq<SourceTables>, clients: map<string, nat>, filterPushdown: bool) returns (ok: bool)
      requires forall i | 0 <= i < |sources| :: sources[i].source in clients
      modifies this
      ensures ok <==> CatalogsAfter(old(catalogs), sources, clients, filterPushdown).Some?
      ensures ok ==> catalogs == CatalogsAfter(old(catalogs), sources, clients, filterPushdown).value
    {
      for i := 0 to |sources|
        invariant CatalogsAfter(old(catalogs), sources[..i], clients, filterPushdown) == Some(catalogs)
      {
        assert sources[..i + 1][..i] == sources[..i];
        var catalog := BuildCatalog(sources[i], clients[sources[i].source], filterPushdown);
        if catalog.None? {
          CatalogsFailureStays(old(catalogs), sources, i + 1, clients, filterPushdown);
          return false;
        }
        catalogs := catalogs[sources[i].source := catalog.value];
      }
      assert sources[..|sources|] == sources;
      return true;
    }

    method RegisterAliases(aliases: seq<Alias>, providers: map<ProviderKey, Provider>) returns (ok: bool)
      requires forall a | a in aliases :: KeyOfAlias(a) in providers
      modifies this
      ensures aliases == [] ==> ok && catalogs == old(catalogs)
      ensures aliases != [] ==> (ok <==> DefaultTables(old(catalogs)).Some? && AddAliases(DefaultTables(old(catalogs)).value, aliases, providers).Some?)
      ensures aliases != [] && ok ==>
        catalogs == WithDefault(old(catalogs), AddAliases(DefaultTables(old(catalogs)).value, aliases, providers).value.0)
    {
      if aliases == [] {
        return true;
      }
      var legacyRegistered := false;
      var start := DefaultTables(catalogs);
      if start.None? {
        return false;
      }
      ghost var d := start.value;
      RestoresDefault(catalogs, d);
      for i := 0 to |aliases|
        invariant forall a | a in aliases[..i] :: a in aliases
        invariant AddAliases(start.value, aliases[..i], providers) == Some((d, legacyRegistered))
        invariant catalogs == WithDefault(old(catalogs), d) && DefaultTables(catalogs) == Some(d)
      {
        var a := aliases[i];
        assert aliases[..i + 1][..i] == aliases[..i];
        var p := providers[KeyOfAlias(a)];
        var added := RegisterTable(a.alias, p);
        if !added {
          AliasFailureStays(start.value, aliases, i + 1, providers);
          return false;
        }
        DefaultTwice(old(catalogs), d, d[a.alias := p]);
        d := d[a.alias := p];
        if !legacyRegistered && a.table.name == LEGACY_SOURCE_TABLE {
          var addedLegacy := RegisterTable(LEGACY_ALIAS, p);
          if !addedLegacy {
            AliasFailureStays(start.value, aliases, i + 1, providers);
            return false;
          }
          DefaultTwice(old(catalogs), d, d[LEGACY_ALIAS := p]);
          d := d[LEGACY_ALIAS := p];
          legacyRegistered := true;
        }
      }
      assert aliases[..|aliases|] == aliases;
      return true;
    }

    /** Canonical catalogs first, then the aliases of the default schema. */
    method RegisterPostgresSources(sources: seq<SourceTables>, filterPushdown: bool) returns (ok: bool)
      modifies this
      ensures ok <==> RegisterAll(old(catalogs), sources, filterPushdown).Some?
      ensures ok ==> catalogs == RegisterAll(old(catalogs), sources, filterPushdown).value
    {
      var clients: map<string, nat> := map[];
      for i := 0 to |sources|
        invariant clients == ClientsOf(sources[..i])
      {
        assert sources[..i + 1][..i] == sources[..i];
        clients := clients[sources[i].source := i];
      }
      assert sources[..|sources|] == sources;
      EveryAliasHasItsProvider(sources, filterPushdown);
      ok := RegisterCanonical(sources, clients, filterPushdown);
      if ok {
        var aliases := ResolveAliases(sources, [ICEBERG_TABLE, LEGACY_ALIAS]);
        assert (set r | r in [ICEBERG_TABLE, LEGACY_ALIAS]) == RESERVED;
        ok := RegisterAliases(aliases, ProvidersOf(Entries(sources), clients, filterPushdown));
      }
    }
  }

  lemma DefaultTwice(catalogs: Catalogs, d: SchemaTables, d': SchemaTables)
    requires DEFAULT_CATALOG in catalogs
    ensures WithDefault(WithDefault(catalogs, d), d') == WithDefault(catalogs, d')
  {
    assert catalogs[DEFAULT_CATALOG][DEFAULT_SCHEMA := d][DEFAULT_SCHEMA := d'] == catalogs[DEFAULT_CATALOG][DEFAULT_SCHEMA := d'];
  }

  lemma RestoresDefault(catalogs: Catalogs, d: SchemaTables)
    requires DefaultTables(catalogs) == Some(d)
    ensures WithDefault(catalogs, d) == catalogs
  {
    assert catalogs[DEFAULT_CATALOG][DEFAULT_SCHEMA := d] == catalogs[DEFAULT_CATALOG];
  }
}
