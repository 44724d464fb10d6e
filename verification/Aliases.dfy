/** The unqualified name each discovered table gets in the default catalog (src/catalog.rs, lines 293-381). */
module Aliases {
  import opened Options
  import opened Catalog

  datatype SourceTables = SourceTables(source: string, tables: seq<TableSchema>)

  datatype Alias = Alias(alias: string, source: string, table: TableSchema)

  /** One discovered table, in the order sources and tables are processed. */
  datatype Entry = Entry(source: string, table: TableSchema)

  function EntriesOf(s: SourceTables): seq<Entry> {
    seq(|s.tables|, i requires 0 <= i < |s.tables| => Entry(s.source, s.tables[i]))
  }

  function Entries(sources: seq<SourceTables>): seq<Entry> {
    if sources == [] then [] else Entries(sources[..|sources| - 1]) + EntriesOf(sources[|sources| - 1])
  }

  function Candidates(e: Entry): seq<string> {
    [e.table.name, e.table.schema + "__" + e.table.name, e.source + "__" + e.table.schema + "__" + e.table.name]
  }

  function FirstFree(candidates: seq<string>, used: set<string>): Option<string> {
    if candidates == [] then None
    else if candidates[0] !in used then Some(candidates[0])
    else FirstFree(candidates[1..], used)
  }

  /** The names taken after these assignments. */
  function Taken(given: seq<Option<string>>, reserved: set<string>): set<string> {
    reserved + (set i | 0 <= i < |given| && given[i].Some? :: given[i].value)
  }

  /** What each entry is assigned, if anything. */
  function Assigned(entries: seq<Entry>, reserved: set<string>): (r: seq<Option<string>>)
    ensures |r| == |entries|
  {
    if entries == [] then []
    else
      var before := Assigned(entries[..|entries| - 1], reserved);
      before + [FirstFree(Candidates(entries[|entries| - 1]), Taken(before, reserved))]
  }

  /** The aliases of the entries that were assigned one. */
  function AliasesOf(entries: seq<Entry>, given: seq<Option<string>>): seq<Alias>
    requires |given| == |entries|
  {
    if entries == [] then []
    else
      var n := |entries| - 1;
      AliasesOf(entries[..n], given[..n])
      + if given[n].Some? then [Alias(given[n].value, entries[n].source, entries[n].table)] else []
  }

  function Resolve(sources: seq<SourceTables>, reserved: set<string>): seq<Alias> {
    AliasesOf(Entries(sources), Assigned(Entries(sources), reserved))
  }

  lemma TakenGrows(given: seq<Option<string>>, a: Option<string>, reserved: set<string>)
    ensures Taken(given + [a], reserved) == Taken(given, reserved) + if a.Some? then {a.value} else {}
  {
    var longer := given + [a];
    assert longer[|given|] == a;
    forall i | 0 <= i < |given| && given[i].Some? ensures given[i].value in Taken(longer, reserved) {
      assert longer[i] == given[i];
    }
  }

  lemma OneMoreEntry(entries: seq<Entry>, e: Entry, reserved: set<string>)
    ensures var before := Assigned(entries, reserved);
      var a := FirstFree(Candidates(e), Taken(before, reserved));
      && Assigned(entries + [e], reserved) == before + [a]
      && AliasesOf(entries + [e], before + [a])
         == AliasesOf(entries, before) + if a.Some? then [Alias(a.value, e.source, e.table)] else []
  {
    var longer := entries + [e];
    assert longer[..|longer| - 1] == entries;
    var before := Assigned(entries, reserved);
    var a := FirstFree(Candidates(e), Taken(before, reserved));
    assert (before + [a])[..|entries|] == before;
  }

  /** What the loop has built once it has seen `entries`. */
  ghost predicate ResolvedSoFar(entries: seq<Entry>, reserved: set<string>, used: set<string>, out: seq<Alias>) {
    out == AliasesOf(entries, Assigned(entries, reserved)) && used == Taken(Assigned(entries, reserved), reserved)
  }

  lemma ResolveOneMore(entries: seq<Entry>, e: Entry, reserved: set<string>, used: set<string>, out: seq<Alias>)
    requires ResolvedSoFar(entries, reserved, used, out)
    ensures match FirstFree(Candidates(e), used)
      case Some(a) => ResolvedSoFar(entries + [e], reserved, used + {a}, out + [Alias(a, e.source, e.table)])
      case None => ResolvedSoFar(entries + [e], reserved, used, out)
  {
    hide Candidates, FirstFree, Taken;
    OneMoreEntry(entries, e, reserved);
    TakenGrows(Assigned(entries, reserved), FirstFree(Candidates(e), used), reserved);
  }

  lemma NextEntry(s: SourceTables, j: nat)
    requires j < |s.tables|
    ensures EntriesOf(s)[..j + 1] == EntriesOf(s)[..j] + [Entry(s.source, s.tables[j])]
  {
  }

  method ResolveAliases(sources: seq<SourceTables>, reserved: seq<string>) returns (out: seq<Alias>)
    ensures out == Resolve(sources, set r | r in reserved)
  {
    hide Candidates, FirstFree, Taken, AliasesOf, Assigned, ResolvedSoFar, EntriesOf;
    ghost var taken := set r | r in reserved;
    var used := set r | r in reserved;
    out := [];
    ghost var entries: seq<Entry> := [];
    NothingResolved(taken);
    for i := 0 to |sources|
      invariant entries == Entries(sources[..i]) && ResolvedSoFar(entries, taken, used, out)
    {
      var source := sources[i];
      assert |EntriesOf(source)| == |source.tables| && entries + [] == entries by {
        EntriesLength(source);
      }
      for j := 0 to |source.tables|
        invariant entries == Entries(sources[..i]) + EntriesOf(source)[..j] && ResolvedSoFar(entries, taken, used, out)
      {
        var e := Entry(source.source, source.tables[j]);
        ResolveOneMore(entries, e, taken, used, out);
        NextEntry(source, j);
        entries := entries + [e];
        match FirstFree(Candidates(e), used)
        case Some(alias) =>
          used := used + {alias};
          out := out + [Alias(alias, e.source, e.table)];
        case None =>
      }
      assert sources[..i + 1][..i] == sources[..i];
      assert EntriesOf(source)[..|source.tables|] == EntriesOf(source);
    }
    assert sources[..|sources|] == sources;
    ResolvedIsAliases(entries, taken, used, out);
  }

  lemma EntriesLength(s: SourceTables)
    ensures |EntriesOf(s)| == |s.tables|
  {
  }

  lemma ResolvedIsAliases(entries: seq<Entry>, reserved: set<string>, used: set<string>, out: seq<Alias>)
    requires ResolvedSoFar(entries, reserved, used, out)
    ensures out == AliasesOf(entries, Assigned(entries, reserved))
  {
  }

  lemma NothingResolved(reserved: set<string>)
    ensures ResolvedSoFar([], reserved, reserved, [])
  {
  }

  // ---- It is exactly the greedy assignment ----

  /** Entry `i`, seen against the names reserved or assigned before it, gets its first free candidate, or none if all three are taken. */
  ghost predicate IsGreedyAt(entries: seq<Entry>, given: seq<Option<string>>, reserved: set<string>, i: nat)
    requires |given| == |entries| && i < |entries|
  {
    var source, schema, name, taken := entries[i].source, entries[i].table.schema, entries[i].table.name, Taken(given[..i], reserved);
    var inSchema, inSource := schema + "__" + name, source + "__" + schema + "__" + name;
    match given[i]
    case None => name in taken && inSchema in taken && inSource in taken
    case Some(a) =>
      || (a == name && name !in taken)
      || (a == inSchema && name in taken && inSchema !in taken)
      || (a == inSource && name in taken && inSchema in taken && inSource !in taken)
  }

  ghost predicate IsGreedy(entries: seq<Entry>, given: seq<Option<string>>, reserved: set<string>) {
    |given| == |entries| && forall i | 0 <= i < |entries| :: IsGreedyAt(entries, given, reserved, i)
  }

  lemma FirstFreeOfThree(e: Entry, taken: set<string>)
    ensures var c := Candidates(e);
      FirstFree(c, taken)
      == if c[0] !in taken then Some(c[0]) else if c[1] !in taken then Some(c[1]) else if c[2] !in taken then Some(c[2]) else None
  {
    var c := Candidates(e);
    assert c == [c[0]] + ([c[1]] + [c[2]]) && c[1..] == [c[1]] + [c[2]] && ([c[1]] + [c[2]])[1..] == [c[2]];
    assert FirstFree([c[2]], taken) == if c[2] !in taken then Some(c[2]) else None;
    assert FirstFree([c[1]] + [c[2]], taken) == if c[1] !in taken then Some(c[1]) else FirstFree([c[2]], taken);
  }

  /** The assignment is the greedy one, and no other assignment is. */
  lemma {:induction false} AssignedIsTheGreedyOne(entries: seq<Entry>, reserved: set<string>, given: seq<Option<string>>)
    ensures IsGreedy(entries, given, reserved) <==> given == Assigned(entries, reserved)
    decreases |entries|
  {
    hide Candidates, FirstFree, Taken;
    if entries != [] && |given| == |entries| {
      var n := |entries| - 1;
      var init, before := entries[..n], given[..n];
      AssignedIsTheGreedyOne(init, reserved, before);
      FirstFreeOfThree(entries[n], Taken(before, reserved));
      assert given == before + [given[n]];
      forall i | 0 <= i < n ensures IsGreedyAt(entries, given, reserved, i) <==> IsGreedyAt(init, before, reserved, i) {
        assert given[..i] == before[..i];
      }
      LastIsGreedy(entries, given, reserved);
      if IsGreedy(entries, given, reserved) {
        assert IsGreedyAt(entries, given, reserved, n);
        assert forall i | 0 <= i < n :: IsGreedyAt(entries, given, reserved, i);
      }
    }
  }

  lemma LastIsGreedy(entries: seq<Entry>, given: seq<Option<string>>, reserved: set<string>)
    requires entries != [] && |given| == |entries|
    ensures var n := |entries| - 1;
      IsGreedyAt(entries, given, reserved, n) <==> given[n] == FirstFree(Candidates(entries[n]), Taken(given[..n], reserved))
  {
    hide FirstFree, Taken;
    FirstFreeOfThree(entries[|entries| - 1], Taken(given[..|entries| - 1], reserved));
  }

  // ---- No clash, own table, stability ----

  /** The name of the table, bare, behind its schema, or behind its source and schema. */
  predicate IsNameOf(alias: string, source: string, t: TableSchema) {
    || alias == t.name
    || alias == t.schema + "__" + t.name
    || alias == source + "__" + t.schema + "__" + t.name
  }

  ghost predicate DistinctAliases(out: seq<Alias>) {
    forall i, j | 0 <= i < j < |out| :: out[i].alias != out[j].alias
  }

  /** Every alias is of an entry; aliases are pairwise distinct and none is reserved. */
  lemma {:induction false} AliasesNeverClash(entries: seq<Entry>, reserved: set<string>)
    ensures var out := AliasesOf(entries, Assigned(entries, reserved));
      && DistinctAliases(out)
      && (forall a | a in out :: a.alias !in reserved && a.alias in Taken(Assigned(entries, reserved), reserved))
      && (forall a | a in out :: Entry(a.source, a.table) in entries && IsNameOf(a.alias, a.source, a.table))
  {
    hide FirstFree, Taken;
    if entries != [] {
      var init, e := entries[..|entries| - 1], entries[|entries| - 1];
      AliasesNeverClash(init, reserved);
      OneMoreEntry(init, e, reserved);
      assert entries == init + [e];
      var before := Assigned(init, reserved);
      var a := FirstFree(Candidates(e), Taken(before, reserved));
      TakenGrows(before, a, reserved);
      FirstFreeIsFree(Candidates(e), Taken(before, reserved));
      ReservedIsTaken(before, reserved);
    }
  }

  lemma {:induction false} FirstFreeIsFree(candidates: seq<string>, used: set<string>)
    ensures FirstFree(candidates, used).Some? ==> FirstFree(candidates, used).value in candidates && FirstFree(candidates, used).value !in used
  {
    if candidates != [] {
      FirstFreeIsFree(candidates[1..], used);
    }
  }

  lemma ReservedIsTaken(given: seq<Option<string>>, reserved: set<string>)
    ensures reserved <= Taken(given, reserved)
  {
  }

  lemma {:induction false} EntriesAppend(sources: seq<SourceTables>, more: seq<SourceTables>)
    ensures Entries(sources + more) == Entries(sources) + Entries(more)
  {
    hide EntriesOf;
    if more == [] {
      assert sources + more == sources;
    } else {
      EntriesAppend(sources, more[..|more| - 1]);
      assert (sources + more)[..|sources + more| - 1] == sources + more[..|more| - 1];
    }
  }

  lemma {:induction false} AliasesOfMoreEntries(entries: seq<Entry>, tail: seq<Entry>, reserved: set<string>)
    ensures AliasesOf(entries, Assigned(entries, reserved)) <= AliasesOf(entries + tail, Assigned(entries + tail, reserved))
  {
    if tail == [] {
      assert entries + tail == entries;
    } else {
      var init, e := tail[..|tail| - 1], tail[|tail| - 1];
      AliasesOfMoreEntries(entries, init, reserved);
      assert entries + tail == (entries + init) + [e];
      OneMoreEntry(entries + init, e, reserved);
    }
  }

  /** Adding sources at the end leaves every earlier alias as it was. */
  lemma AppendingSourcesKeepsAliases(sources: seq<SourceTables>, more: seq<SourceTables>, reserved: set<string>)
    ensures Resolve(sources, reserved) <= Resolve(sources + more, reserved)
  {
    EntriesAppend(sources, more);
    AliasesOfMoreEntries(Entries(sources), Entries(more), reserved);
  }
}
