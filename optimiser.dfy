/** `Query.__optimiseQuery`: dead-column elimination, then pushdown of literal-vs-column clauses into
    per-table row filters, then removal of the pushed clauses from the WHERE list. */
module Optimiser {
  import opened Outcomes
  import opened Values
  import opened Seqs
  import opened Tables
  import opened Syntax
  import opened Catalogs
  import opened Validation

  /** `requiredCols`: the bare names of all SELECT columns and of all WHERE column operands. */
  function RequiredNames(select: seq<SelectItem>, where: seq<Clause>): set<string>
  {
    (set k | 0 <= k < |select| :: select[k].column.name)
    + (set k | 0 <= k < |where| && where[k].left.Column? :: where[k].left.column.name)
    + (set k | 0 <= k < |where| && where[k].right.Column? :: where[k].right.column.name)
  }

  /** Every table with its columns outside `keep` deleted. */
  function PruneCatalog(cat: Catalog, keep: set<string>): (r: Catalog)
    requires CatalogWellFormed(cat)
    ensures CatalogWellFormed(r) && |r| == |cat|
    ensures forall i :: 0 <= i < |cat| ==> r[i] == Prune(cat[i], keep) && r[i].alias == cat[i].alias
  {
    var r := seq(|cat|, i requires 0 <= i < |cat| => Prune(cat[i], keep));
    assert forall i :: 0 <= i < |cat| ==> r[i].alias == cat[i].alias;
    r
  }

  /** After dead-column elimination every remaining column of every table is required, no required
      column is lost, and every table keeps all its rows. */
  lemma PruneCatalogSpec(cat: Catalog, keep: set<string>)
    requires CatalogWellFormed(cat)
    ensures var r := PruneCatalog(cat, keep);
      forall i :: 0 <= i < |cat| ==>
        && (forall l :: 0 <= l < |r[i].labels| ==> QualifiedBy(cat[i].alias, r[i].labels[l]) && Bare(cat[i].alias, r[i].labels[l]) in keep)
        && (forall l :: 0 <= l < |cat[i].labels| && Bare(cat[i].alias, cat[i].labels[l]) in keep ==> cat[i].labels[l] in r[i].labels)
        && r[i].dataTypes.Keys == cat[i].dataTypes.Keys * keep
        && |r[i].rows| == |cat[i].rows|
  {
    forall i | 0 <= i < |cat| {
      PruneKeepsExactly(cat[i], keep);
    }
  }

  /** Dead-column elimination raises when some table has a frame without columns and a column to
      delete. */
  predicate PruneCatalogRaises(cat: Catalog, keep: set<string>)
  {
    exists i :: 0 <= i < |cat| && PruneRaises(cat[i], keep)
  }

  /** Two catalogs with the same tables, in the same order, up to their rows. */
  predicate SameSchema(a: Catalog, b: Catalog)
  {
    |a| == |b| && forall i :: 0 <= i < |a| ==>
      a[i].alias == b[i].alias && a[i].labels == b[i].labels && a[i].dataTypes == b[i].dataTypes
      && a[i].columnless == b[i].columnless
  }

  lemma {:induction false} SameSchemaAliasIndex(a: Catalog, b: Catalog, alias: string)
    requires SameSchema(a, b)
    ensures AliasIndex(a, alias) == AliasIndex(b, alias)
  {
    if a != [] {
      SameSchemaAliasIndex(a[1..], b[1..], alias);
    }
  }

  /** One table after the unaliased pushdown: filtered on the column if it declares it. */
  function FilterDeclared(t: TableState, name: string, test: Test): (r: TableState)
    ensures r.alias == t.alias && r.labels == t.labels && r.dataTypes == t.dataTypes && r.columnless == t.columnless
    ensures Aligned(t) ==> Aligned(r)
    ensures WellFormed(t) ==> WellFormed(r)
  {
    if name in t.dataTypes && Qualify(t.alias, name) in t.labels then
      FilterTableAt(t, IndexOf(t.labels, Qualify(t.alias, name)), test)
    else t
  }

  /** The unaliased pushdown: every table that declares the name is filtered on that column. */
  function FilterDeclaring(cat: Catalog, name: string, test: Test): (r: Catalog)
    requires CatalogWellFormed(cat)
    ensures CatalogWellFormed(r) && SameSchema(cat, r)
    ensures forall i :: 0 <= i < |cat| ==> r[i] == FilterDeclared(cat[i], name, test)
  {
    seq(|cat|, i requires 0 <= i < |cat| => FilterDeclared(cat[i], name, test))
  }

  /** The unaliased pushdown reaches a table that declares the name but has a frame without columns. */
  predicate DeclaringColumnless(cat: Catalog, name: string)
  {
    exists i :: 0 <= i < |cat| && name in cat[i].dataTypes && cat[i].columnless
  }

  /** Replacing a table by one of the same schema keeps the catalog well formed. */
  lemma ReplaceTable(cat: Catalog, i: nat, t: TableState)
    requires CatalogWellFormed(cat) && i < |cat| && WellFormed(t)
    requires t.alias == cat[i].alias && t.labels == cat[i].labels && t.dataTypes == cat[i].dataTypes
    requires t.columnless == cat[i].columnless
    ensures CatalogWellFormed(cat[i := t]) && SameSchema(cat, cat[i := t])
  {
    var r := cat[i := t];
    forall a, b | 0 <= a < b < |r|
      ensures r[a].alias != r[b].alias
    {
      assert r[a].alias == cat[a].alias && r[b].alias == cat[b].alias;
    }
  }

  /** Pushdown of one test on a column reference: an aliased column filters that table (KeyError for
      an unknown alias, ValueError when the label is missing); an unaliased one filters every table
      declaring it. Reading the column of a frame without columns raises KeyError. */
  function PushColumn(cat: Catalog, c: ColumnRef, test: Test): (r: Result<Catalog>)
    requires CatalogWellFormed(cat)
    ensures r.Ok? ==> CatalogWellFormed(r.value) && SameSchema(cat, r.value)
  {
    if Aliased(c) then
      match AliasIndex(cat, c.table)
      case None => Err(KeyError(c.table))
      case Some(i) =>
        var lbl := Qualify(cat[i].alias, c.name);
        if lbl !in cat[i].labels then Err(ValueError)
        else if cat[i].columnless then Err(FrameKeyError)
        else
          var t := FilterTableAt(cat[i], IndexOf(cat[i].labels, lbl), test);
          ReplaceTable(cat, i, t);
          Ok(cat[i := t])
    else if DeclaringColumnless(cat, c.name) then Err(FrameKeyError)
    else Ok(FilterDeclaring(cat, c.name, test))
  }

  /** Whether the clause compares two literals. */
  predicate LiteralPair(clause: Clause)
  {
    clause.left.Literal? && clause.right.Literal?
  }

  /** Whether the clause has a literal side (and is therefore pushed down and removed). */
  predicate HasLiteral(clause: Clause)
  {
    clause.left.Literal? || clause.right.Literal?
  }

  /** One iteration of the pushdown loop. A literal on the left is tested first; when the right side
      is a literal too, reading its column raises KeyError('column'). */
  function PushClause(cat: Catalog, clause: Clause): (r: Result<Catalog>)
    requires CatalogWellFormed(cat)
    ensures r.Ok? ==> CatalogWellFormed(r.value) && SameSchema(cat, r.value)
    ensures !HasLiteral(clause) ==> r == Ok(cat)
  {
    if clause.left.Literal? then
      if clause.right.Literal? then Err(KeyError("column"))
      else PushColumn(cat, clause.right.column, Test(clause.op, clause.left.literal, true))
    else if clause.right.Literal? then PushColumn(cat, clause.left.column, Test(clause.op, clause.right.literal, false))
    else Ok(cat)
  }

  /** Whether a table is a target of the column reference: the table of its alias, or, without an
      alias, every table that declares the name. */
  predicate Targets(t: TableState, c: ColumnRef)
  {
    if Aliased(c) then t.alias == c.table else c.name in t.dataTypes
  }

  /** The tested column and the test of a pushed clause. */
  function PushedColumn(clause: Clause): ColumnRef
    requires HasLiteral(clause) && !(clause.left.Literal? && clause.right.Literal?)
  {
    if clause.left.Literal? then clause.right.column else clause.left.column
  }

  function PushedTest(clause: Clause): (t: Test)
    requires HasLiteral(clause) && !(clause.left.Literal? && clause.right.Literal?)
    ensures t.op == clause.op
    ensures t.literalOnLeft <==> clause.left.Literal?
  {
    if clause.left.Literal? then Test(clause.op, clause.left.literal, true)
    else Test(clause.op, clause.right.literal, false)
  }

  /** The pushed clause reaches a table whose frame has no columns. */
  predicate ReachesColumnless(cat: Catalog, clause: Clause)
  {
    HasLiteral(clause) && !LiteralPair(clause)
    && exists i :: 0 <= i < |cat| && Targets(cat[i], PushedColumn(clause)) && cat[i].columnless
  }

  /** Pushing the clause raises (when its column is declared): two literals, or a target without columns. */
  predicate Blocked(cat: Catalog, clause: Clause)
  {
    LiteralPair(clause) || ReachesColumnless(cat, clause)
  }

  /** The exception a blocked clause raises. */
  function BlockedError(clause: Clause): Exception
  {
    if LiteralPair(clause) then KeyError("column") else FrameKeyError
  }

  /** A pushed clause replaces the rows of each target table by those whose cell in the tested column
      satisfies the test (`opMap(op, literal, v)` or `opMap(op, v, literal)`), and keeps every other table. */
  lemma PushClauseEffect(cat: Catalog, clause: Clause)
    requires CatalogWellFormed(cat)
    requires HasLiteral(clause) && !(clause.left.Literal? && clause.right.Literal?)
    requires PushClause(cat, clause).Ok?
    ensures var r, c, test := PushClause(cat, clause).value, PushedColumn(clause), PushedTest(clause);
      forall i :: 0 <= i < |cat| ==>
        if Targets(cat[i], c) then
          Qualify(cat[i].alias, c.name) in cat[i].labels
          && r[i].rows == FilterRows(cat[i].rows, IndexOf(cat[i].labels, Qualify(cat[i].alias, c.name)), test)
        else r[i] == cat[i]
  {
    var c, test := PushedColumn(clause), PushedTest(clause);
    assert PushClause(cat, clause) == PushColumn(cat, c, test);
    if Aliased(c) {
      var i := AliasIndex(cat, c.table).value;
      forall j | 0 <= j < |cat| && cat[j].alias == c.table
        ensures j == i
      {
      }
    } else {
      forall i | 0 <= i < |cat| && Targets(cat[i], c)
        ensures Qualify(cat[i].alias, c.name) in cat[i].labels
      {
      }
    }
  }

  /** The pushdown loop over the WHERE list, clause by clause in order. */
  function PushAll(cat: Catalog, where: seq<Clause>): (r: Result<Catalog>)
    requires CatalogWellFormed(cat)
    ensures r.Ok? ==> CatalogWellFormed(r.value) && SameSchema(cat, r.value)
  {
    if where == [] then Ok(cat)
    else match PushAll(cat, where[..|where| - 1])
      case Err(e) => Err(e)
      case Ok(c) =>
        var r := PushClause(c, where[|where| - 1]);
        if r.Ok? then
          assert SameSchema(cat, r.value) by {
            assert forall i :: 0 <= i < |cat| ==> r.value[i].alias == c[i].alias == cat[i].alias;
          }
          r
        else r
  }

  /** A column that some table declares (the table of its alias, if it has one) can be pushed into,
      unless the clause compares two literals or a target table has a frame without columns. */
  lemma PushClauseSucceeds(cat: Catalog, clause: Clause)
    requires CatalogWellFormed(cat)
    requires clause.left.Literal? && clause.right.Column? ==> DeclaredSomewhere(cat, clause.right.column)
    requires clause.right.Literal? && clause.left.Column? ==> DeclaredSomewhere(cat, clause.left.column)
    ensures PushClause(cat, clause).Ok? <==> !Blocked(cat, clause)
    ensures PushClause(cat, clause).Err? ==> PushClause(cat, clause).error == BlockedError(clause)
  {
    if clause.left.Literal? && clause.right.Column? {
      PushColumnSucceeds(cat, clause.right.column, Test(clause.op, clause.left.literal, true));
    } else if clause.right.Literal? && clause.left.Column? {
      PushColumnSucceeds(cat, clause.left.column, Test(clause.op, clause.right.literal, false));
    }
  }

  /** Pushing a test on a declared column raises exactly when a target table has no columns. */
  lemma PushColumnSucceeds(cat: Catalog, c: ColumnRef, test: Test)
    requires CatalogWellFormed(cat) && DeclaredSomewhere(cat, c)
    ensures PushColumn(cat, c, test).Ok? <==> !exists k :: 0 <= k < |cat| && Targets(cat[k], c) && cat[k].columnless
    ensures PushColumn(cat, c, test).Err? ==> PushColumn(cat, c, test).error == FrameKeyError
  {
    if Aliased(c) {
      var i :| 0 <= i < |cat| && cat[i].alias == c.table && c.name in cat[i].dataTypes;
      var j := AliasIndex(cat, c.table).value;
      assert i == j;
      forall k | 0 <= k < |cat| && Targets(cat[k], c)
        ensures k == i
      {
      }
    }
  }

  /** A schema-preserving step keeps every declared column declared. */
  lemma SameSchemaDeclared(a: Catalog, b: Catalog, c: ColumnRef)
    requires SameSchema(a, b) && DeclaredSomewhere(a, c)
    ensures DeclaredSomewhere(b, c)
  {
  }

  /** The column of a literal-vs-column clause is declared. */
  predicate PushableClause(cat: Catalog, clause: Clause)
  {
    && (clause.left.Literal? && clause.right.Column? ==> DeclaredSomewhere(cat, clause.right.column))
    && (clause.right.Literal? && clause.left.Column? ==> DeclaredSomewhere(cat, clause.left.column))
  }

  /** Whether a clause blocks depends on the schema only. */
  lemma SameSchemaBlocked(a: Catalog, b: Catalog, clause: Clause)
    requires SameSchema(a, b)
    ensures Blocked(a, clause) <==> Blocked(b, clause)
  {
    if ReachesColumnless(a, clause) {
      var i :| 0 <= i < |a| && Targets(a[i], PushedColumn(clause)) && a[i].columnless;
      assert Targets(b[i], PushedColumn(clause)) && b[i].columnless;
    }
    if ReachesColumnless(b, clause) {
      var i :| 0 <= i < |b| && Targets(b[i], PushedColumn(clause)) && b[i].columnless;
      assert Targets(a[i], PushedColumn(clause)) && a[i].columnless;
    }
  }

  /** Clause `k` is the first of the list that blocks. */
  predicate FirstBlocked(cat: Catalog, where: seq<Clause>, k: int)
  {
    0 <= k < |where| && Blocked(cat, where[k]) && forall j :: 0 <= j < k ==> !Blocked(cat, where[j])
  }

  lemma NoBlockedSnoc(cat: Catalog, where: seq<Clause>, front: seq<Clause>)
    requires where != [] && front == where[..|where| - 1]
    ensures (forall k :: 0 <= k < |where| ==> !Blocked(cat, where[k])) <==>
      (forall k :: 0 <= k < |front| ==> !Blocked(cat, front[k])) && !Blocked(cat, where[|where| - 1])
  {
    assert forall k :: 0 <= k < |front| ==> front[k] == where[k];
  }

  /** The pushdown loop fails exactly when it reaches a clause that blocks, provided every pushed
      column is declared, and it raises what the first such clause raises. */
  lemma {:induction false} PushAllSucceeds(cat: Catalog, where: seq<Clause>)
    requires CatalogWellFormed(cat)
    requires forall k :: 0 <= k < |where| ==> PushableClause(cat, where[k])
    ensures PushAll(cat, where).Ok? <==> forall k :: 0 <= k < |where| ==> !Blocked(cat, where[k])
    ensures PushAll(cat, where).Err? ==>
      exists k :: FirstBlocked(cat, where, k) && PushAll(cat, where).error == BlockedError(where[k])
  {
    if where != [] {
      var front := where[..|where| - 1];
      var last := where[|where| - 1];
      assert forall k :: 0 <= k < |front| ==> front[k] == where[k];
      PushAllSucceeds(cat, front);
      NoBlockedSnoc(cat, where, front);
      match PushAll(cat, front)
      case Err(e) =>
        assert PushAll(cat, where) == Err(e);
        var k :| FirstBlocked(cat, front, k) && e == BlockedError(front[k]);
        FirstBlockedSnoc(cat, where, front, k);
      case Ok(c) =>
        assert PushAll(cat, where) == PushClause(c, last);
        PushAfterFront(cat, c, last);
        if PushClause(c, last).Err? {
          FirstBlockedSnoc(cat, where, front, |where| - 1);
        }
    }
  }

  /** A clause pushed into a catalog of the same schema as `cat` fails exactly when it blocks in `cat`. */
  lemma PushAfterFront(cat: Catalog, c: Catalog, clause: Clause)
    requires CatalogWellFormed(c) && SameSchema(cat, c) && PushableClause(cat, clause)
    ensures PushClause(c, clause).Ok? <==> !Blocked(cat, clause)
    ensures PushClause(c, clause).Err? ==> PushClause(c, clause).error == BlockedError(clause)
  {
    if clause.left.Literal? && clause.right.Column? {
      SameSchemaDeclared(cat, c, clause.right.column);
    }
    if clause.right.Literal? && clause.left.Column? {
      SameSchemaDeclared(cat, c, clause.left.column);
    }
    PushClauseSucceeds(c, clause);
    SameSchemaBlocked(cat, c, clause);
  }

  /** A clause that blocks first in the front of the list, or after a front that does not block,
      blocks first in the whole list. */
  lemma FirstBlockedSnoc(cat: Catalog, where: seq<Clause>, front: seq<Clause>, k: int)
    requires where != [] && front == where[..|where| - 1]
    requires FirstBlocked(cat, front, k) ||
      (k == |front| && Blocked(cat, where[k]) && forall j :: 0 <= j < |front| ==> !Blocked(cat, front[j]))
    ensures FirstBlocked(cat, where, k) && where[k] == (front + [where[|where| - 1]])[k]
  {
    assert forall j :: 0 <= j < |front| ==> front[j] == where[j];
  }

  /** Dead-column elimination keeps every declared column the query names. */
  lemma PruneKeepsDeclared(cat: Catalog, keep: set<string>, c: ColumnRef)
    requires CatalogWellFormed(cat) && DeclaredSomewhere(cat, c) && c.name in keep
    ensures DeclaredSomewhere(PruneCatalog(cat, keep), c)
  {
    PruneCatalogSpec(cat, keep);
    var r := PruneCatalog(cat, keep);
    var i :| 0 <= i < |cat| && (Aliased(c) ==> cat[i].alias == c.table) && c.name in cat[i].dataTypes;
    assert c.name in r[i].dataTypes.Keys;
  }

  /** Pruning keeps the targets of every pushed column the query names, and every frame's columns. */
  lemma PruneBlocked(cat: Catalog, keep: set<string>, clause: Clause)
    requires CatalogWellFormed(cat)
    requires clause.left.Column? ==> clause.left.column.name in keep
    requires clause.right.Column? ==> clause.right.column.name in keep
    ensures Blocked(PruneCatalog(cat, keep), clause) <==> Blocked(cat, clause)
  {
    var r := PruneCatalog(cat, keep);
    if HasLiteral(clause) && !LiteralPair(clause) {
      var c := PushedColumn(clause);
      forall i | 0 <= i < |cat|
        ensures Targets(r[i], c) == Targets(cat[i], c) && r[i].columnless == cat[i].columnless
      {
      }
      if ReachesColumnless(cat, clause) {
        var i :| 0 <= i < |cat| && Targets(cat[i], c) && cat[i].columnless;
        assert Targets(r[i], c) && r[i].columnless;
      }
    }
  }

  /** A query that passed `noErrors` is optimised without an exception unless dead-column elimination
      meets a frame without columns (KeyError), or a WHERE clause blocks: it compares two literals
      (KeyError('column')), or its column lives in a frame without columns (KeyError). */
  lemma OptimiseAfterCheck(cat: Catalog, select: seq<SelectItem>, where: seq<Clause>)
    requires CatalogWellFormed(cat) && Validate(cat, select, where) == Pass
    ensures var keep, r := RequiredNames(select, where), Optimise(cat, select, where);
      && (r.Ok? <==> !PruneCatalogRaises(cat, keep) && forall k :: 0 <= k < |where| ==> !Blocked(cat, where[k]))
      && (PruneCatalogRaises(cat, keep) ==> r == Err(FrameKeyError))
      && (!PruneCatalogRaises(cat, keep) && r.Err? ==>
            exists k :: FirstBlocked(cat, where, k) && r.error == BlockedError(where[k]))
  {
    var keep := RequiredNames(select, where);
    var pruned := PruneCatalog(cat, keep);
    ValidateOrder(cat, select, where, where);
    forall k | 0 <= k < |where|
      ensures PushableClause(pruned, where[k])
      ensures Blocked(pruned, where[k]) <==> Blocked(cat, where[k])
    {
      PassedOperand(cat, where[k]);
      if where[k].left.Literal? && where[k].right.Column? {
        assert where[k].right.column.name in keep;
        PruneKeepsDeclared(cat, keep, where[k].right.column);
      }
      if where[k].right.Literal? && where[k].left.Column? {
        assert where[k].left.column.name in keep;
        PruneKeepsDeclared(cat, keep, where[k].left.column);
      }
      PruneBlocked(cat, keep, where[k]);
    }
    PushAllSucceeds(pruned, where);
    if !PruneCatalogRaises(cat, keep) && PushAll(pruned, where).Err? {
      var k :| FirstBlocked(pruned, where, k) && PushAll(pruned, where).error == BlockedError(where[k]);
      assert FirstBlocked(cat, where, k);
    }
  }

  /** The residual WHERE list by its meaning: the clauses with no literal side, in their order. */
  function Residual(where: seq<Clause>): seq<Clause>
  {
    FilterBy(where, seq(|where|, k requires 0 <= k < |where| => !HasLiteral(where[k])))
  }

  /** The residual list holds exactly the clauses without a literal side. */
  lemma ResidualMembership(where: seq<Clause>, c: Clause)
    ensures c in Residual(where) <==> c in where && !HasLiteral(c)
  {
    FilterByMembership(where, seq(|where|, k requires 0 <= k < |where| => !HasLiteral(where[k])), c);
  }

  /** `redundant`: the positions of the pushed clauses. */
  function PushedIndices(where: seq<Clause>): set<int>
  {
    set k | 0 <= k < |where| && HasLiteral(where[k])
  }

  /** The comprehension as written: a clause is kept when the position `list.index` gives for it (its
      first equal occurrence) is not marked. */
  function RemoveMarked(where: seq<Clause>, redundant: set<int>): seq<Clause>
  {
    FilterBy(where, seq(|where|, k requires 0 <= k < |where| => IndexOf(where, where[k]) !in redundant))
  }

  /** Although the comprehension keys on the first equal clause, not the clause's own position, it
      removes exactly the pushed clauses: equal clauses are pushed alike. */
  lemma RemoveMarkedIsResidual(where: seq<Clause>)
    ensures RemoveMarked(where, PushedIndices(where)) == Residual(where)
  {
    var m := seq(|where|, k requires 0 <= k < |where| => IndexOf(where, where[k]) !in PushedIndices(where));
    var m' := seq(|where|, k requires 0 <= k < |where| => !HasLiteral(where[k]));
    forall k | 0 <= k < |where|
      ensures m[k] == m'[k]
    {
      var j := IndexOf(where, where[k]);
      assert where[j] == where[k];
    }
    assert m == m';
  }

  /** The whole optimiser: the optimised catalog and the rewritten WHERE list. */
  function Optimise(cat: Catalog, select: seq<SelectItem>, where: seq<Clause>): (r: Result<(Catalog, seq<Clause>)>)
    requires CatalogWellFormed(cat)
    ensures r.Ok? ==> CatalogWellFormed(r.value.0)
  {
    var keep := RequiredNames(select, where);
    if PruneCatalogRaises(cat, keep) then Err(FrameKeyError)
    else
      match PushAll(PruneCatalog(cat, keep), where)
      case Err(e) => Err(e)
      case Ok(c) => Ok((c, RemoveMarked(where, PushedIndices(where))))
  }

  /** The table `a(x int, y int)` of a file with no rows. */
  lemma EmptyFileTable() returns (t: TableState)
    ensures t == FromHeader("a", [("x", "int"), ("y", "int")], [])
    ensures CatalogWellFormed([t]) && t.columnless
    ensures "x" in t.dataTypes && "y" in t.dataTypes
    ensures forall k :: k in t.dataTypes ==> k == "x" || k == "y"
  {
    var header := [("x", "int"), ("y", "int")];
    t := FromHeader("a", header, []);
    FromHeaderShape("a", header, []);
    assert header[0].0 == "x" && header[1].0 == "y";
  }

  /** A table whose file has no rows is a data frame without columns: with `SELECT x`, deleting the
      unrequired `y` raises KeyError. */
  lemma EmptyFilePrune()
    ensures var t := FromHeader("a", [("x", "int"), ("y", "int")], []);
      && CatalogWellFormed([t])
      && Optimise([t], [SelectItem(ColumnRef("", "x"), "x")], []) == Err(FrameKeyError)
  {
    var t := EmptyFileTable();
    var select := [SelectItem(ColumnRef("", "x"), "x")];
    var keep := RequiredNames(select, []);
    assert "y" !in keep by {
      assert forall k :: 0 <= k < |select| ==> select[k].column.name == "x";
    }
    assert "y" in t.dataTypes.Keys - keep;
    assert PruneRaises([t][0], keep);
  }

  /** With `SELECT x, y WHERE x = 1` on the same table nothing is deleted, and filtering the column
      `x` raises KeyError. */
  lemma EmptyFilePush()
    ensures var t := FromHeader("a", [("x", "int"), ("y", "int")], []);
      && CatalogWellFormed([t])
      && Optimise([t], [SelectItem(ColumnRef("", "x"), "x"), SelectItem(ColumnRef("", "y"), "y")],
                  [Clause(Eq, Column(ColumnRef("", "x")), Literal(Int(1)))]) == Err(FrameKeyError)
  {
    var t := EmptyFileTable();
    var select := [SelectItem(ColumnRef("", "x"), "x"), SelectItem(ColumnRef("", "y"), "y")];
    var where := [Clause(Eq, Column(ColumnRef("", "x")), Literal(Int(1)))];
    var keep := RequiredNames(select, where);
    assert "x" in keep && "y" in keep by {
      assert select[0].column.name == "x" && select[1].column.name == "y";
    }
    assert [t][0] == t;
    assert keep * t.dataTypes.Keys == t.dataTypes.Keys;
    assert !PruneCatalogRaises([t], keep) by {
      assert t.dataTypes.Keys - keep == {};
    }
    assert Prune(t, keep) == t by {
      PruneNothing(t);
      PruneDeclaredOnly(t, keep);
    }
    var pruned := PruneCatalog([t], keep);
    assert pruned == [t] by {
      assert |pruned| == 1 && pruned[0] == t;
    }
    assert PushAll([t], where) == PushClause([t], where[0]) by {
      assert where[..0] == [];
    }
    assert DeclaringColumnless([t], "x") by {
      assert "x" in [t][0].dataTypes && [t][0].columnless;
    }
  }

  /** An optimised query keeps every table under its alias with only the required columns of its
      schema, and its WHERE list holds exactly the clauses that were not pushed. */
  lemma OptimiseShape(cat: Catalog, select: seq<SelectItem>, where: seq<Clause>)
    requires CatalogWellFormed(cat) && Optimise(cat, select, where).Ok?
    ensures var r := Optimise(cat, select, where).value;
      && |r.0| == |cat|
      && (forall i :: 0 <= i < |cat| ==>
            r.0[i].alias == cat[i].alias && r.0[i].dataTypes.Keys == cat[i].dataTypes.Keys * RequiredNames(select, where))
      && r.1 == Residual(where)
  {
    var pruned := PruneCatalog(cat, RequiredNames(select, where));
    PruneCatalogSpec(cat, RequiredNames(select, where));
    RemoveMarkedIsResidual(where);
  }
}
