/** The per-query catalog: Query.tables, a dictionary from alias to table, kept in FROM order. */
module Catalogs {
  import opened Outcomes
  import opened Values
  import opened Seqs
  import opened Tables

  /** The tables in dictionary (insertion) order. */
  type Catalog = seq<TableState>

  predicate AliasesDistinct(cat: Catalog)
  {
    forall i, j :: 0 <= i < j < |cat| ==> cat[i].alias != cat[j].alias
  }

  /** The catalog invariant: keys are unique and every table is well formed. */
  predicate CatalogWellFormed(cat: Catalog)
  {
    AliasesDistinct(cat) && forall i :: 0 <= i < |cat| ==> WellFormed(cat[i])
  }

  /** Dictionary lookup `tables[alias]`: the position of the table with that alias. */
  function AliasIndex(cat: Catalog, alias: string): (r: Option<nat>)
    ensures r.Some? ==> r.value < |cat| && cat[r.value].alias == alias
    ensures r.Some? ==> forall j :: 0 <= j < r.value ==> cat[j].alias != alias
    ensures r.None? ==> forall i :: 0 <= i < |cat| ==> cat[i].alias != alias
  {
    if cat == [] then None
    else if cat[0].alias == alias then Some(0)
    else match AliasIndex(cat[1..], alias)
      case None => None
      case Some(i) => Some(i + 1)
  }

  /** The aliases of the tables whose type map has `name`, in catalog order (`foundInTable`). */
  function Owners(cat: Catalog, name: string): (r: seq<string>)
    ensures |r| <= |cat|
  {
    if cat == [] then []
    else (if name in cat[0].dataTypes then [cat[0].alias] else []) + Owners(cat[1..], name)
  }

  /** No owner exactly when no table declares the name. */
  lemma {:induction false} OwnersEmpty(cat: Catalog, name: string)
    ensures Owners(cat, name) == [] <==> forall i :: 0 <= i < |cat| ==> name !in cat[i].dataTypes
  {
    if cat != [] {
      OwnersEmpty(cat[1..], name);
      assert forall i :: 1 <= i < |cat| ==> cat[i] == cat[1..][i - 1];
    }
  }

  /** Owners before position `k` where no table declares the name are skipped. */
  lemma {:induction false} OwnersSkip(cat: Catalog, name: string, k: nat)
    requires k <= |cat|
    requires forall i :: 0 <= i < k ==> name !in cat[i].dataTypes
    ensures Owners(cat, name) == Owners(cat[k..], name)
  {
    if k > 0 {
      OwnersSkip(cat[1..], name, k - 1);
      assert cat[1..][k - 1..] == cat[k..];
    }
  }

  /** Exactly one owner when exactly one table declares the name. */
  lemma OwnersSingle(cat: Catalog, name: string)
    ensures |Owners(cat, name)| == 1 <==>
      exists i :: 0 <= i < |cat| && name in cat[i].dataTypes
        && forall k :: 0 <= k < |cat| && k != i ==> name !in cat[k].dataTypes
  {
    if |Owners(cat, name)| == 1 {
      var i := FirstDeclarer(cat, name);
      OwnersSkip(cat, name, i);
      assert cat[i..][1..] == cat[i + 1..];
      OwnersEmpty(cat[i + 1..], name);
      forall k | 0 <= k < |cat| && k != i
        ensures name !in cat[k].dataTypes
      {
        if k > i {
          assert cat[k] == cat[i + 1..][k - i - 1];
        }
      }
    }
    if exists i :: 0 <= i < |cat| && name in cat[i].dataTypes
         && forall k :: 0 <= k < |cat| && k != i ==> name !in cat[k].dataTypes {
      var i :| 0 <= i < |cat| && name in cat[i].dataTypes
         && forall k :: 0 <= k < |cat| && k != i ==> name !in cat[k].dataTypes;
      OwnersSkip(cat, name, i);
      assert cat[i..][1..] == cat[i + 1..];
      OwnersEmpty(cat[i + 1..], name);
    }
  }

  /** With two owners or more, the first two are the first two declaring tables in catalog order. */
  lemma OwnersFirstTwo(cat: Catalog, name: string)
    requires |Owners(cat, name)| >= 2
    ensures exists i, j :: (0 <= i < j < |cat| && name in cat[i].dataTypes && name in cat[j].dataTypes
      && (forall k :: 0 <= k < j && k != i ==> name !in cat[k].dataTypes)
      && Owners(cat, name)[0] == cat[i].alias && Owners(cat, name)[1] == cat[j].alias)
  {
    var i := FirstDeclarer(cat, name);
    OwnersSkip(cat, name, i);
    var rest := cat[i + 1..];
    var j' := FirstDeclarer(rest, name);
    var j := i + 1 + j';
    assert rest[j'] == cat[j];
    forall k | 0 <= k < j && k != i
      ensures name !in cat[k].dataTypes
    {
      if k > i {
        assert cat[k] == rest[k - i - 1];
      }
    }
    OwnersFirstTwoFrom(cat, name, i, j);
  }

  /** The two lowest positions declaring the name determine the first two owners. */
  lemma OwnersFirstTwoFrom(cat: Catalog, name: string, i: nat, j: nat)
    requires 0 <= i < j < |cat| && name in cat[i].dataTypes && name in cat[j].dataTypes
    requires forall k :: 0 <= k < j && k != i ==> name !in cat[k].dataTypes
    ensures |Owners(cat, name)| >= 2
    ensures Owners(cat, name)[0] == cat[i].alias && Owners(cat, name)[1] == cat[j].alias
  {
    OwnersSkip(cat, name, i);
    var rest := cat[i + 1..];
    assert cat[i..][1..] == rest;
    forall k | 0 <= k < j - i - 1
      ensures name !in rest[k].dataTypes
    {
      assert rest[k] == cat[k + i + 1];
    }
    OwnersSkip(rest, name, j - i - 1);
    assert rest[j - i - 1..][1..] == rest[j - i..];
  }

  /** The first position declaring `name` (the loop of `__getDType` over `tables.values()`). */
  function FirstDeclaring(cat: Catalog, name: string): (r: Option<nat>)
    ensures r.Some? ==> r.value < |cat| && name in cat[r.value].dataTypes
    ensures r.Some? ==> forall j :: 0 <= j < r.value ==> name !in cat[j].dataTypes
    ensures r.None? ==> forall j :: 0 <= j < |cat| ==> name !in cat[j].dataTypes
  {
    if cat == [] then None
    else if name in cat[0].dataTypes then Some(0)
    else match FirstDeclaring(cat[1..], name)
      case None => None
      case Some(k) => Some(k + 1)
  }

  /** The first declaring position of a name some owner declares. */
  lemma FirstDeclarer(cat: Catalog, name: string) returns (i: nat)
    requires Owners(cat, name) != []
    ensures i < |cat| && name in cat[i].dataTypes
    ensures forall k :: 0 <= k < i ==> name !in cat[k].dataTypes
    ensures Owners(cat[i..], name) == [cat[i].alias] + Owners(cat[i + 1..], name)
  {
    OwnersEmpty(cat, name);
    i := FirstDeclaring(cat, name).value;
    assert cat[i..][1..] == cat[i + 1..];
  }

  /** One entry of the FROM clause, with the table file the loader returned for its source. */
  datatype Source = Source(alias: string, header: Header, rows: seq<Row>)

  /** What the loader guarantees: distinct column names, and one cell per column in every row. */
  predicate SourceWellFormed(s: Source)
  {
    NamesDistinct(s.header) && forall j :: 0 <= j < |s.rows| ==> |s.rows[j]| == |s.header|
  }

  function TableOf(s: Source): TableState
  {
    FromHeader(s.alias, s.header, s.rows)
  }

  /** Dictionary assignment `tables[t.alias] = t`: an existing key keeps its position. */
  function Assign(cat: Catalog, t: TableState): Catalog
  {
    match AliasIndex(cat, t.alias)
    case Some(i) => cat[i := t]
    case None => cat + [t]
  }

  /** `__constructTables` without the file reading: the catalog built from the FROM entries in order. */
  function BuildCatalog(sources: seq<Source>): Catalog
  {
    if sources == [] then []
    else Assign(BuildCatalog(sources[..|sources| - 1]), TableOf(sources[|sources| - 1]))
  }

  /** Dictionary assignment keeps the keys unique and adds at most one entry. */
  lemma AssignWellFormed(cat: Catalog, t: TableState)
    requires CatalogWellFormed(cat) && WellFormed(t)
    ensures CatalogWellFormed(Assign(cat, t)) && |Assign(cat, t)| <= |cat| + 1
  {
    AssignDistinct(cat, t);
  }

  /** After the assignment the keys are the old keys and the new one. */
  lemma AssignKeys(cat: Catalog, t: TableState, a: string)
    ensures AliasIndex(Assign(cat, t), a).Some? <==> (AliasIndex(cat, a).Some? || a == t.alias)
  {
    var r := Assign(cat, t);
    assert forall i :: 0 <= i < |r| ==> r[i] == t || (i < |cat| && r[i] == cat[i]);
    if AliasIndex(cat, a).Some? {
      var j := AliasIndex(cat, a).value;
      assert r[j].alias == a;
    }
    if a == t.alias {
      if AliasIndex(cat, t.alias).None? {
        assert r[|cat|].alias == t.alias;
      } else {
        assert r[AliasIndex(cat, t.alias).value].alias == t.alias;
      }
    }
    if AliasIndex(r, a).Some? && a != t.alias {
      var m := AliasIndex(r, a).value;
      assert cat[m].alias == a;
    }
  }

  /** Each entry after the assignment is the new table or an untouched entry with another key. */
  lemma AssignEntry(cat: Catalog, t: TableState, i: nat)
    requires AliasesDistinct(cat) && i < |Assign(cat, t)|
    ensures var r := Assign(cat, t);
      r[i] == t || (i < |cat| && r[i] == cat[i] && cat[i].alias != t.alias)
  {
  }

  /** Dictionary assignment keeps the keys unique. */
  lemma AssignDistinct(cat: Catalog, t: TableState)
    requires AliasesDistinct(cat)
    ensures AliasesDistinct(Assign(cat, t))
  {
    var r := Assign(cat, t);
    if AliasIndex(cat, t.alias).Some? {
      forall a, b | 0 <= a < b < |r|
        ensures r[a].alias != r[b].alias
      {
        assert r[a].alias == cat[a].alias && r[b].alias == cat[b].alias;
      }
    }
  }

  /** The catalog never holds two tables under one alias. */
  lemma {:induction false} BuildCatalogAliasesDistinct(sources: seq<Source>)
    ensures AliasesDistinct(BuildCatalog(sources))
  {
    if sources != [] {
      BuildCatalogAliasesDistinct(sources[..|sources| - 1]);
      AssignDistinct(BuildCatalog(sources[..|sources| - 1]), TableOf(sources[|sources| - 1]));
    }
  }

  /** Building the catalog from well-formed table files gives a well-formed catalog. */
  lemma {:induction false} BuildCatalogWellFormed(sources: seq<Source>)
    requires forall k :: 0 <= k < |sources| ==> SourceWellFormed(sources[k])
    ensures CatalogWellFormed(BuildCatalog(sources)) && |BuildCatalog(sources)| <= |sources|
  {
    if sources != [] {
      var s := sources[|sources| - 1];
      BuildCatalogWellFormed(sources[..|sources| - 1]);
      FromHeaderShape(s.alias, s.header, s.rows);
      AssignWellFormed(BuildCatalog(sources[..|sources| - 1]), TableOf(s));
    }
  }

  /** The catalog's keys are exactly the FROM aliases. */
  lemma {:induction false} BuildCatalogAliases(sources: seq<Source>, a: string)
    ensures (exists k :: 0 <= k < |sources| && sources[k].alias == a) <==> AliasIndex(BuildCatalog(sources), a).Some?
  {
    if sources != [] {
      var front := sources[..|sources| - 1];
      var s := sources[|sources| - 1];
      BuildCatalogAliases(front, a);
      AssignKeys(BuildCatalog(front), TableOf(s), a);
      AliasAmongSnoc(sources, a);
    }
  }

  /** An alias occurs among the FROM entries exactly when it occurs among all but the last or is the
      last one's. */
  lemma AliasAmongSnoc(sources: seq<Source>, a: string)
    requires sources != []
    ensures var front := sources[..|sources| - 1];
      (exists k :: 0 <= k < |sources| && sources[k].alias == a)
      <==> (exists k :: 0 <= k < |front| && front[k].alias == a) || sources[|sources| - 1].alias == a
  {
    var front := sources[..|sources| - 1];
    if exists k :: 0 <= k < |front| && front[k].alias == a {
      var k :| 0 <= k < |front| && front[k].alias == a;
      assert sources[k].alias == a;
    }
    if exists k :: 0 <= k < |sources| && sources[k].alias == a {
      var k :| 0 <= k < |sources| && sources[k].alias == a;
      if k < |front| {
        assert front[k].alias == a;
      }
    }
  }

  /** The FROM entry at position `k` is the last one with its alias. */
  predicate LastWithAlias(sources: seq<Source>, k: nat)
  {
    k < |sources| && forall k' :: k < k' < |sources| ==> sources[k'].alias != sources[k].alias
  }

  /** Every catalog entry is the table of the last FROM entry with its alias. */
  lemma BuildCatalogBinding(sources: seq<Source>, i: nat)
    requires i < |BuildCatalog(sources)|
    ensures exists k: nat :: LastWithAlias(sources, k) && BuildCatalog(sources)[i] == TableOf(sources[k])
  {
    var k := BindingSource(sources, i);
  }

  /** The position of the FROM entry whose table is catalog entry `i`. */
  lemma {:induction false} BindingSource(sources: seq<Source>, i: nat) returns (k: nat)
    requires i < |BuildCatalog(sources)|
    ensures LastWithAlias(sources, k) && BuildCatalog(sources)[i] == TableOf(sources[k])
  {
    assert sources != [];
    var front := sources[..|sources| - 1];
    var s := sources[|sources| - 1];
    var c := BuildCatalog(front);
    BuildCatalogAliasesDistinct(front);
    AssignEntry(c, TableOf(s), i);
    if BuildCatalog(sources)[i] == TableOf(s) {
      k := |sources| - 1;
    } else {
      k := BindingSource(front, i);
      BindingExtends(sources, front, k);
    }
  }

  /** The last entry with its alias among the first entries stays the last when an entry with
      another alias follows. */
  lemma BindingExtends(sources: seq<Source>, front: seq<Source>, k: nat)
    requires sources != [] && front == sources[..|sources| - 1]
    requires LastWithAlias(front, k) && sources[|sources| - 1].alias != front[k].alias
    ensures LastWithAlias(sources, k) && sources[k] == front[k]
  {
    forall k' | k < k' < |sources|
      ensures sources[k'].alias != sources[k].alias
    {
      if k' < |front| {
        assert sources[k'] == front[k'];
      }
    }
  }

  /** The tables of the FROM entries, one per entry, in FROM order. */
  function TablesOf(sources: seq<Source>): (r: Catalog)
    ensures |r| == |sources| && forall k :: 0 <= k < |sources| ==> r[k] == TableOf(sources[k])
  {
    if sources == [] then [] else TablesOf(sources[..|sources| - 1]) + [TableOf(sources[|sources| - 1])]
  }

  /** With distinct FROM aliases (the normal case) the catalog is the FROM tables in FROM order. */
  lemma {:induction false} BuildCatalogDistinct(sources: seq<Source>)
    requires forall i, j :: 0 <= i < j < |sources| ==> sources[i].alias != sources[j].alias
    ensures BuildCatalog(sources) == TablesOf(sources)
  {
    if sources != [] {
      var front := sources[..|sources| - 1];
      var s := sources[|sources| - 1];
      BuildCatalogDistinct(front);
      var c := BuildCatalog(front);
      forall i | 0 <= i < |c|
        ensures c[i].alias != s.alias
      {
        assert c[i].alias == sources[i].alias;
      }
      assert AliasIndex(c, s.alias).None?;
    }
  }
}
