/** What the order of configured schemas decides: the order of tables, and who gets a bare alias (src/catalog.rs, lines 276-381). */
module SchemaPriority {
  import opened Options
  import opened Values
  import opened Catalog
  import opened Aliases
  import opened Registration

  // ---- The order of tables ----

  lemma {:induction false} RankBoundsPrefixes(schemas: seq<string>, schema: string, k: nat)
    requires k <= |schemas|
    ensures schema !in schemas[..k] <==> k <= Rank(schemas, schema)
  {
    if k > 0 {
      assert schemas[..k] == [schemas[0]] + schemas[1..][..k - 1];
      RankBoundsPrefixes(schemas[1..], schema, k - 1);
    }
  }

  lemma {:induction false} RankIsAPosition(schemas: seq<string>, schema: string)
    ensures Rank(schemas, schema) <= |schemas|
    ensures Rank(schemas, schema) < |schemas| ==> schemas[Rank(schemas, schema)] == schema
  {
    if schemas != [] {
      RankIsAPosition(schemas[1..], schema);
    }
  }

  /** Schema `a` is listed, and before any mention of schema `b`. */
  ghost predicate ListedBefore(schemas: seq<string>, a: string, b: string) {
    exists p :: 0 <= p < |schemas| && a == schemas[p] && b !in schemas[..p + 1]
  }

  lemma ListedBeforeRanksLower(schemas: seq<string>, a: string, b: string)
    ensures ListedBefore(schemas, a, b) <==> Rank(schemas, a) < Rank(schemas, b)
  {
    hide Rank;
    RankIsAPosition(schemas, a);
    RankIsAPosition(schemas, b);
    var ra, rb := Rank(schemas, a), Rank(schemas, b);
    if ListedBefore(schemas, a, b) {
      var p :| 0 <= p < |schemas| && a == schemas[p] && b !in schemas[..p + 1];
      assert schemas[..p + 1][p] == a;
      RankBoundsPrefixes(schemas, a, p + 1);
      RankBoundsPrefixes(schemas, b, p + 1);
    }
    if ra < rb {
      assert a == schemas[ra];
      RankBoundsPrefixes(schemas, b, ra + 1);
    }
  }

  /**
   Of two tables in the resulting order, the later one's schema is never listed
   before the earlier one's, so tables of unlisted schemas come last; within one
   schema, names never fall in byte order.
   */
  lemma OrderFollowsTheSchemaList(tables: seq<TableSchema>, schemas: seq<string>, i: nat, j: nat)
    requires i < j < |OrderBySchemaPriority(tables, schemas)|
    ensures var a, b := OrderBySchemaPriority(tables, schemas)[i], OrderBySchemaPriority(tables, schemas)[j];
      && !ListedBefore(schemas, b.schema, a.schema)
      && (a.schema == b.schema ==> !BytesLess(b.name, a.name))
  {
    var ordered := OrderBySchemaPriority(tables, schemas);
    OrderingSorts(tables, schemas, ordered[i]);
    ListedBeforeRanksLower(schemas, ordered[j].schema, ordered[i].schema);
    assert AtMost(schemas, ordered[i], ordered[j]);
  }

  /** Hence a table comes before every table whose schema is listed later or not at all. */
  lemma ListedBeforeComesFirst(tables: seq<TableSchema>, schemas: seq<string>, x: nat, y: nat)
    requires var ordered := OrderBySchemaPriority(tables, schemas);
      x < |ordered| && y < |ordered| && ListedBefore(schemas, ordered[x].schema, ordered[y].schema)
    ensures x < y
  {
    hide OrderBySchemaPriority;
    var ordered := OrderBySchemaPriority(tables, schemas);
    ListedBeforeRanksLower(schemas, ordered[x].schema, ordered[y].schema);
    if y < x {
      OrderFollowsTheSchemaList(tables, schemas, y, x);
    }
  }

  // ---- Who gets the bare alias ----

  /** No two underscores in a row: a name no schema-qualified alias can be. */
  predicate PlainName(name: string) {
    forall k | 0 <= k < |name| - 1 :: !(name[k] == '_' && name[k + 1] == '_')
  }

  lemma QualifiedIsNotPlain(s: string, t: string)
    ensures !PlainName(s + "__" + t)
  {
    var name := s + "__" + t;
    assert name[|s|] == '_' && name[|s| + 1] == '_';
  }

  lemma TakenOfPrefix(given: seq<Option<string>>, i: nat, j: nat, reserved: set<string>)
    requires i <= j <= |given|
    ensures Taken(given[..i], reserved) <= Taken(given[..j], reserved)
    ensures forall k | 0 <= k < j && given[k].Some? :: given[k].value in Taken(given[..j], reserved)
  {
    forall k | 0 <= k < j && given[k].Some? ensures given[k].value in Taken(given[..j], reserved) {
      assert given[..j][k] == given[k];
    }
    forall k | 0 <= k < i && given[..i][k].Some? ensures given[..i][k].value in Taken(given[..j], reserved) {
      assert given[..i][k] == given[k];
    }
  }

  /** Of tables with one name, only the first processed can get it as its alias. */
  lemma OnlyTheFirstOfANameIsBare(entries: seq<Entry>, reserved: set<string>, i: nat, j: nat)
    requires i < j < |entries| && entries[i].table.name == entries[j].table.name
    ensures Assigned(entries, reserved)[j] != Some(entries[j].table.name)
  {
    hide Taken, Assigned;
    var given := Assigned(entries, reserved);
    AssignedIsTheGreedyOne(entries, reserved, given);
    assert IsGreedyAt(entries, given, reserved, i) && IsGreedyAt(entries, given, reserved, j);
    TakenOfPrefix(given, i, j, reserved);
  }

  lemma GreedyAliasIsOwnOrQualified(entries: seq<Entry>, given: seq<Option<string>>, reserved: set<string>, k: nat)
    requires |given| == |entries| && k < |entries| && IsGreedyAt(entries, given, reserved, k)
    ensures given[k].Some? ==> given[k].value == entries[k].table.name || !PlainName(given[k].value)
  {
    hide PlainName, Taken;
    var e := entries[k];
    QualifiedIsNotPlain(e.table.schema, e.table.name);
    QualifiedIsNotPlain(e.source + "__" + e.table.schema, e.table.name);
  }

  /** And it does get it, unless the name is reserved or looks schema-qualified. */
  lemma FirstOfAPlainNameIsBare(entries: seq<Entry>, reserved: set<string>, i: nat)
    requires i < |entries| && PlainName(entries[i].table.name) && entries[i].table.name !in reserved
    requires forall k | 0 <= k < i :: entries[k].table.name != entries[i].table.name
    ensures Assigned(entries, reserved)[i] == Some(entries[i].table.name)
  {
    hide PlainName, Assigned;
    var given, name := Assigned(entries, reserved), entries[i].table.name;
    AssignedIsTheGreedyOne(entries, reserved, given);
    forall k | 0 <= k < i && given[k].Some? ensures given[k].value != name {
      assert IsGreedyAt(entries, given, reserved, k);
      GreedyAliasIsOwnOrQualified(entries, given, reserved, k);
    }
    assert name !in Taken(given[..i], reserved) by {
      assert forall k | 0 <= k < i :: given[..i][k] == given[k];
    }
    assert IsGreedyAt(entries, given, reserved, i);
  }

  ghost predicate OfEarlierSource(sources: seq<SourceTables>, n: nat, e: Entry)
    requires n <= |sources|
  {
    exists m | 0 <= m < n :: sources[m].source == e.source && e.table in sources[m].tables
  }

  /** Where the tables of source `n` stand among all entries: after those of earlier sources. */
  lemma {:induction false} EntriesOfSource(sources: seq<SourceTables>, n: nat) returns (offset: nat)
    requires n < |sources|
    ensures offset + |sources[n].tables| <= |Entries(sources)|
    ensures forall x | 0 <= x < |sources[n].tables| :: Entries(sources)[offset + x] == Entry(sources[n].source, sources[n].tables[x])
    ensures forall k | 0 <= k < offset :: OfEarlierSource(sources, n, Entries(sources)[k])
    decreases |sources|
  {
    hide EntriesOf;
    var init := sources[..|sources| - 1];
    var last := EntriesOf(sources[|sources| - 1]);
    assert Entries(sources) == Entries(init) + last;
    hide Entries;
    if n < |init| {
      offset := EntriesOfSource(init, n);
      forall k | 0 <= k < offset ensures OfEarlierSource(sources, n, Entries(sources)[k]) {
        var e := Entries(init)[k];
        assert OfEarlierSource(init, n, e);
        var m :| 0 <= m < n && init[m].source == e.source && e.table in init[m].tables;
        assert sources[m] == init[m];
      }
    } else {
      offset := |Entries(init)|;
      EntriesOfOne(sources[n]);
      EntriesAreOfSources(init);
      forall k | 0 <= k < offset ensures OfEarlierSource(sources, n, Entries(sources)[k]) {
        var e := Entries(init)[k];
        assert e in Entries(init);
        var m :| 0 <= m < |init| && init[m].source == e.source && e.table in init[m].tables;
        assert sources[m] == init[m];
      }
    }
  }

  lemma EntriesOfOne(s: SourceTables)
    ensures |EntriesOf(s)| == |s.tables| && forall x | 0 <= x < |s.tables| :: EntriesOf(s)[x] == Entry(s.source, s.tables[x])
  {
  }

  lemma {:induction false} AliasesAreTheAssigned(entries: seq<Entry>, given: seq<Option<string>>)
    requires |given| == |entries|
    ensures forall a | a in AliasesOf(entries, given) ::
      exists k | 0 <= k < |entries| :: entries[k] == Entry(a.source, a.table) && given[k] == Some(a.alias)
    ensures forall k | 0 <= k < |entries| && given[k].Some? ::
      Alias(given[k].value, entries[k].source, entries[k].table) in AliasesOf(entries, given)
  {
    if entries != [] {
      var n := |entries| - 1;
      AliasesAreTheAssigned(entries[..n], given[..n]);
      forall a | a in AliasesOf(entries, given)
        ensures exists k | 0 <= k < |entries| :: entries[k] == Entry(a.source, a.table) && given[k] == Some(a.alias)
      {
        if a in AliasesOf(entries[..n], given[..n]) {
          var k :| 0 <= k < n && entries[..n][k] == Entry(a.source, a.table) && given[..n][k] == Some(a.alias);
          assert entries[k] == entries[..n][k];
        } else {
          assert entries[n] == Entry(a.source, a.table);
        }
      }
      forall k | 0 <= k < |entries| && given[k].Some?
        ensures Alias(given[k].value, entries[k].source, entries[k].table) in AliasesOf(entries, given)
      {
        if k < n {
          assert entries[..n][k] == entries[k] && given[..n][k] == given[k];
        }
      }
    }
  }

  /**
   Of two same-named tables of one source, the one whose schema is listed later, or
   not at all, never gets the bare name as its alias.
   */
  lemma LaterSchemaNeverGetsTheBareName(sources: seq<SourceTables>, n: nat, tables: seq<TableSchema>, schemas: seq<string>, x: nat, y: nat)
    requires DistinctSources(sources) && forall i | 0 <= i < |sources| :: DistinctTables(sources[i].tables)
    requires n < |sources| && sources[n].tables == OrderBySchemaPriority(tables, schemas)
    requires x < |sources[n].tables| && y < |sources[n].tables| && sources[n].tables[x].name == sources[n].tables[y].name
    requires ListedBefore(schemas, sources[n].tables[x].schema, sources[n].tables[y].schema)
    ensures Alias(sources[n].tables[y].name, sources[n].source, sources[n].tables[y]) !in Resolve(sources, RESERVED)
  {
    hide Entries, Assigned, AliasesOf, OrderBySchemaPriority, ListedBefore, DistinctTables;
    ListedBeforeComesFirst(tables, schemas, x, y);
    var offset := EntriesOfSource(sources, n);
    var entries := Entries(sources);
    OnlyTheFirstOfANameIsBare(entries, RESERVED, offset + x, offset + y);
    EntriesAreDistinct(sources);
    var given := Assigned(entries, RESERVED);
    AliasesAreTheAssigned(entries, given);
    var t := sources[n].tables[y];
    forall k | 0 <= k < |entries| && entries[k] == Entry(sources[n].source, t) ensures given[k] != Some(t.name) {
      assert entries[offset + y] == Entry(sources[n].source, t);
      assert KeyOfEntry(entries[k]) == KeyOfEntry(entries[offset + y]);
    }
  }

  /**
   The first source to have a table of a plain, unreserved name gives the bare name
   to the table of that name in the schema it lists first.
   */
  lemma FirstSchemaGetsTheBareName(sources: seq<SourceTables>, n: nat, tables: seq<TableSchema>, schemas: seq<string>, x: nat)
    requires n < |sources| && sources[n].tables == OrderBySchemaPriority(tables, schemas) && x < |sources[n].tables|
    requires PlainName(sources[n].tables[x].name) && sources[n].tables[x].name !in RESERVED
    requires forall m | 0 <= m < n :: forall t | t in sources[m].tables :: t.name != sources[n].tables[x].name
    requires forall y | 0 <= y < |sources[n].tables| && y != x && sources[n].tables[y].name == sources[n].tables[x].name ::
      ListedBefore(schemas, sources[n].tables[x].schema, sources[n].tables[y].schema)
    ensures Alias(sources[n].tables[x].name, sources[n].source, sources[n].tables[x]) in Resolve(sources, RESERVED)
  {
    hide Entries, Assigned, AliasesOf, OrderBySchemaPriority, ListedBefore, PlainName;
    var offset := EntriesOfSource(sources, n);
    var entries := Entries(sources);
    var name := sources[n].tables[x].name;
    forall k | 0 <= k < offset + x ensures entries[k].table.name != name {
      if k >= offset {
        var y := k - offset;
        assert entries[offset + y] == Entry(sources[n].source, sources[n].tables[y]);
        if sources[n].tables[y].name == name {
          ListedBeforeComesFirst(tables, schemas, x, y);
        }
      }
    }
    FirstOfAPlainNameIsBare(entries, RESERVED, offset + x);
    AliasesAreTheAssigned(entries, Assigned(entries, RESERVED));
  }
}
