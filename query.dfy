/** The `Query` object: the state `__init__` sets up (the table dictionary, the check's verdict, the
    rewritten WHERE list) and the methods that run the query over it step by step. Every method is
    proved against the functional definition of the same step. The steps that only read the tables
    work on their current contents, `States(tables)`, through the value-level methods below. */
module Queries {
  import opened Outcomes
  import opened Values
  import opened Seqs
  import opened Tables
  import opened Syntax
  import opened Catalogs
  import opened Validation
  import opened Optimiser
  import opened Products
  import opened Evaluation

  /** The values of `self.tables`, in dictionary order, as table states. */
  function States(ts: seq<Table>): (r: Catalog)
    reads ts
    ensures |r| == |ts| && forall i {:trigger r[i]} :: 0 <= i < |ts| ==> r[i] == ts[i].State()
  {
    if ts == [] then [] else States(ts[..|ts| - 1]) + [ts[|ts| - 1].State()]
  }

  /** Different dictionary entries hold different `Table` objects. */
  predicate Separate(ts: seq<Table>)
  {
    forall i, j :: 0 <= i < j < |ts| ==> ts[i] != ts[j]
  }

  /** Once a prefix of the pushdown loop has raised, the whole loop raises the same exception. */
  lemma PushAllErrExtends(cat: Catalog, where: seq<Clause>, i: nat)
    requires CatalogWellFormed(cat) && i <= |where| && PushAll(cat, where[..i]).Err?
    ensures PushAll(cat, where) == PushAll(cat, where[..i])
    decreases |where| - i
  {
    if i < |where| {
      assert where[..i + 1][..i] == where[..i];
      PushAllErrExtends(cat, where, i + 1);
    } else {
      assert where[..i] == where;
    }
  }

  /** Once an item of the SELECT loop fails to resolve, the whole loop fails with the same error. */
  lemma SelectTargetsErrExtends(inference: Inference, cat: Catalog, labels: seq<string>, select: seq<SelectItem>, i: nat)
    requires i <= |select| && SelectTargets(inference, cat, labels, select[..i]).Err?
    ensures SelectTargets(inference, cat, labels, select) == SelectTargets(inference, cat, labels, select[..i])
    decreases |select| - i
  {
    if i < |select| {
      assert select[..i + 1][..i] == select[..i];
      SelectTargetsErrExtends(inference, cat, labels, select, i + 1);
    } else {
      assert select[..i] == select;
    }
  }

  /** One pass of the SELECT loop: the item's label joins the targets, its `as` name the selected
      columns, and the labels are renamed once more. */
  lemma SelectLoopStep(cat: Catalog, labels: seq<string>, select: seq<SelectItem>, i: nat, targets: seq<string>,
                       names: seq<string>, l: string)
    requires i < |select| && SelectTargets(LikeFilter, cat, labels, select[..i]) == Ok(targets)
    requires names == AsNames(select[..i])
    requires GenColName(LikeFilter, cat, RenameAll(labels, targets, names), Column(select[i].column)) == Ok(l)
    ensures SelectTargets(LikeFilter, cat, labels, select[..i + 1]) == Ok(targets + [l])
    ensures names + [select[i].asName] == AsNames(select[..i + 1])
    ensures RenameAll(labels, targets + [l], names + [select[i].asName]) == Rename(RenameAll(labels, targets, names), l, select[i].asName)
  {
    SelectTargetsSnoc(LikeFilter, cat, labels, select, i, targets, l);
    AsNamesSnoc(select, i);
    AppendPrefix(targets, [l], i);
    AppendPrefix(names, [select[i].asName], i);
    WholePrefix(targets);
    WholePrefix(names);
  }

  /** The positions before `i` of the clauses with a literal side. */
  ghost function PushedBefore(where: seq<Clause>, i: nat): set<int>
  {
    set k | 0 <= k < i && k < |where| && HasLiteral(where[k])
  }

  lemma PushedBeforeNext(where: seq<Clause>, i: nat)
    requires i < |where|
    ensures PushedBefore(where, i + 1) == PushedBefore(where, i) + (if HasLiteral(where[i]) then {i} else {})
  {
  }

  /** A well-formed catalog has one cell per label in every row of every table. */
  lemma CatalogAligned(cat: Catalog)
    requires CatalogWellFormed(cat)
    ensures AllAligned(cat)
  {
    forall k | 0 <= k < |cat|
      ensures Aligned(cat[k])
    {
      assert WellFormed(cat[k]);
    }
  }

  lemma StatesAppend(ts: seq<Table>, t: Table)
    ensures States(ts + [t]) == States(ts) + [t.State()]
  {
    assert (ts + [t])[..|ts|] == ts;
  }

  lemma StatesUpdate(ts: seq<Table>, j: nat, t: Table)
    requires j < |ts|
    ensures States(ts[j := t]) == States(ts)[j := t.State()]
  {
    var a, b := States(ts[j := t]), States(ts)[j := t.State()];
    forall i | 0 <= i < |a|
      ensures a[i] == b[i]
    {
      assert ts[j := t][i] == if i == j then t else ts[i];
    }
  }

  lemma SeparateUpdate(ts: seq<Table>, j: nat, t: Table)
    requires Separate(ts) && j < |ts| && t !in ts
    ensures Separate(ts[j := t])
  {
  }

  lemma SeparateAppend(ts: seq<Table>, t: Table)
    requires Separate(ts) && t !in ts
    ensures Separate(ts + [t])
  {
  }

  /** `__constructTables` without the file reading: one new `Table` per FROM entry, stored under
      its alias; a repeated alias replaces the earlier table in its place. */
  method ConstructTables(sources: seq<Source>) returns (ts: seq<Table>)
    requires forall k :: 0 <= k < |sources| ==> SourceWellFormed(sources[k])
    ensures Separate(ts) && States(ts) == BuildCatalog(sources)
    ensures forall k :: 0 <= k < |ts| ==> fresh(ts[k])
  {
    ts := [];
    var i := 0;
    while i < |sources|
      invariant 0 <= i <= |sources|
      invariant Separate(ts) && States(ts) == BuildCatalog(sources[..i])
      invariant forall k :: 0 <= k < |ts| ==> fresh(ts[k])
    {
      ts := StoreTable(ts, sources[i]);
      assert sources[..i + 1][..i] == sources[..i];
      i := i + 1;
    }
    assert sources[..i] == sources;
  }

  /** One iteration of `__constructTables`: a new `Table` for the entry, stored under its alias. */
  method StoreTable(ts: seq<Table>, src: Source) returns (ts': seq<Table>)
    requires Separate(ts) && SourceWellFormed(src)
    ensures Separate(ts') && States(ts') == Assign(States(ts), TableOf(src))
    ensures forall k :: 0 <= k < |ts'| ==> ts'[k] in ts || fresh(ts'[k])
  {
    var cat := States(ts);
    var table := NewTable(src);
    assert table !in ts && States(ts) == cat;
    assert TableOf(src).alias == src.alias;
    match AliasIndex(cat, src.alias) {
      case Some(j) =>
        StatesUpdate(ts, j, table);
        SeparateUpdate(ts, j, table);
        ts' := ts[j := table];
        assert States(ts') == cat[j := TableOf(src)] == Assign(cat, TableOf(src));
      case None =>
        StatesAppend(ts, table);
        SeparateAppend(ts, table);
        ts' := ts + [table];
        assert States(ts') == cat + [TableOf(src)] == Assign(cat, TableOf(src));
    }
  }

  lemma StatesAre(ts: seq<Table>, cat: Catalog)
    requires |ts| == |cat| && forall k :: 0 <= k < |ts| ==> ts[k].State() == cat[k]
    ensures States(ts) == cat
  {
  }

  /** The optimiser on the table dictionary: dead-column elimination, pushdown, and the WHERE
      list without the pushed clauses. */
  method OptimiseTables(ts: seq<Table>, select: seq<SelectItem>, where: seq<Clause>) returns (error: Option<Exception>, rest: seq<Clause>)
    requires Separate(ts) && CatalogWellFormed(States(ts))
    modifies ts
    ensures CatalogWellFormed(States(ts))
    ensures match Optimise(old(States(ts)), select, where)
      case Err(e) => error == Some(e)
      case Ok(opt) => error.None? && States(ts) == opt.0 && rest == opt.1
  {
    var required := RequiredCols(select, where);
    rest := where;
    error := PruneTables(ts, required);
    if error.Some? {
      return;
    }
    var redundant;
    error, redundant := PushAllInto(ts, where);
    rest := RemoveMarked(where, redundant);
  }

  /** The loop of dead-column elimination over the table dictionary; a deletion that raises ends it. */
  method PruneTables(ts: seq<Table>, required: set<string>) returns (error: Option<Exception>)
    requires Separate(ts) && CatalogWellFormed(States(ts))
    modifies ts
    ensures CatalogWellFormed(States(ts))
    ensures error == if PruneCatalogRaises(old(States(ts)), required) then Some(FrameKeyError) else None
    ensures error.None? ==> States(ts) == PruneCatalog(old(States(ts)), required)
  {
    ghost var cat := States(ts);
    ghost var target := PruneCatalog(cat, required);
    for i := 0 to |ts|
      invariant PrunedBefore(ts, cat, target, required, i)
    {
      assert target[i] == Prune(cat[i], required);
      error := PruneStep(ts, cat, target, i, required);
      if error.Some? {
        PruneRaisesAt(cat, required, i);
        return;
      }
    }
    StatesAre(ts, target);
    PruneRaisesNowhere(cat, required);
    error := None;
  }

  lemma PruneRaisesAt(cat: Catalog, keep: set<string>, i: nat)
    requires i < |cat| && PruneRaises(cat[i], keep)
    ensures PruneCatalogRaises(cat, keep)
  {
  }

  lemma PruneRaisesNowhere(cat: Catalog, keep: set<string>)
    requires forall k :: 0 <= k < |cat| ==> !PruneRaises(cat[k], keep)
    ensures !PruneCatalogRaises(cat, keep)
  {
  }

  /** The tables before `i` are pruned to `target` and raised nothing; the others are as in `cat`. */
  ghost predicate PrunedBefore(ts: seq<Table>, cat: Catalog, target: Catalog, required: set<string>, i: nat)
    reads ts
  {
    && i <= |ts| == |cat| == |target|
    && (forall k :: 0 <= k < |ts| ==> ts[k].State() == if k < i then target[k] else cat[k])
    && forall k :: 0 <= k < i ==> !PruneRaises(cat[k], required)
  }

  /** One iteration of that loop: table `i` loses the columns that are not required, or raises on a
      frame without columns. */
  method PruneStep(ts: seq<Table>, ghost cat: Catalog, ghost target: Catalog, i: nat, required: set<string>)
    returns (error: Option<Exception>)
    requires Separate(ts) && i < |ts| == |cat| == |target|
    requires CatalogWellFormed(cat) && CatalogWellFormed(target)
    requires forall k :: 0 <= k < |cat| ==> target[k].alias == cat[k].alias
    requires PrunedBefore(ts, cat, target, required, i)
    requires target[i] == Prune(cat[i], required)
    modifies ts[i]
    ensures error == if PruneRaises(cat[i], required) then Some(FrameKeyError) else None
    ensures error.None? ==> PrunedBefore(ts, cat, target, required, i + 1)
    ensures error.Some? ==> CatalogWellFormed(States(ts))
  {
    error := ts[i].DeleteUnrequired(required);
    if error.Some? {
      PartlyPrunedWellFormed(ts, cat, target, i);
    }
  }

  /** Where dead-column elimination stopped at table `i`, the tables are still well formed under
      their aliases. */
  lemma PartlyPrunedWellFormed(ts: seq<Table>, cat: Catalog, target: Catalog, i: nat)
    requires i < |ts| == |cat| && CatalogWellFormed(cat) && CatalogWellFormed(target) && |target| == |cat|
    requires forall k :: 0 <= k < |cat| ==> target[k].alias == cat[k].alias
    requires forall k :: 0 <= k < |ts| && k != i ==> ts[k].State() == if k < i then target[k] else cat[k]
    requires ts[i].Valid() && ts[i].alias == cat[i].alias
    ensures CatalogWellFormed(States(ts))
  {
    var r := States(ts);
    assert forall k :: 0 <= k < |r| ==> r[k].alias == cat[k].alias && WellFormed(r[k]);
  }

  /** The pushdown loop over the table dictionary: each clause with a literal side filters the
      tables its column names, and its position is recorded in `redundant`. */
  method PushAllInto(ts: seq<Table>, where: seq<Clause>) returns (error: Option<Exception>, redundant: set<int>)
    requires Separate(ts) && CatalogWellFormed(States(ts))
    modifies ts
    ensures CatalogWellFormed(States(ts))
    ensures match PushAll(old(States(ts)), where)
      case Err(e) => error == Some(e)
      case Ok(c) => error.None? && States(ts) == c && redundant == PushedIndices(where)
  {
    ghost var cat := States(ts);
    redundant := {};
    for i := 0 to |where|
      invariant PushAll(cat, where[..i]) == Ok(States(ts))
      invariant redundant == PushedBefore(where, i)
    {
      error := PushStep(ts, cat, where, i);
      if error.Some? {
        return;
      }
      PushedBeforeNext(where, i);
      if HasLiteral(where[i]) {
        redundant := redundant + {i};
      }
    }
    assert where[..|where|] == where;
    assert PushedBefore(where, |where|) == PushedIndices(where);
    error := None;
  }

  /** One iteration of that loop, stated against the pushdown of the clauses so far. */
  method PushStep(ts: seq<Table>, ghost cat: Catalog, where: seq<Clause>, i: nat) returns (error: Option<Exception>)
    requires Separate(ts) && CatalogWellFormed(cat) && i < |where|
    requires PushAll(cat, where[..i]) == Ok(States(ts))
    modifies ts
    ensures CatalogWellFormed(States(ts))
    ensures error.None? ==> PushAll(cat, where[..i + 1]) == Ok(States(ts))
    ensures error.Some? ==> PushAll(cat, where).Err? && error == Some(PushAll(cat, where).error)
  {
    assert where[..i + 1][..i] == where[..i];
    error := PushClauseInto(ts, where[i]);
    if error.Some? {
      PushAllErrExtends(cat, where, i + 1);
    }
  }

  /** One iteration of the pushdown loop: a literal on the left tests the right column, else a
      literal on the right tests the left column; a clause comparing two literals raises
      KeyError('column'), and a clause of two columns changes nothing. */
  method PushClauseInto(ts: seq<Table>, clause: Clause) returns (error: Option<Exception>)
    requires Separate(ts) && CatalogWellFormed(States(ts))
    modifies ts
    ensures CatalogWellFormed(States(ts))
    ensures match PushClause(old(States(ts)), clause)
      case Err(e) => error == Some(e) && (e != FrameKeyError ==> States(ts) == old(States(ts)))
      case Ok(c) => error.None? && States(ts) == c
  {
    if clause.left.Literal? {
      if clause.right.Literal? {
        return Some(KeyError("column"));
      }
      error := PushTestInto(ts, clause.right.column, Test(clause.op, clause.left.literal, true));
    } else if clause.right.Literal? {
      error := PushTestInto(ts, clause.left.column, Test(clause.op, clause.right.literal, false));
    } else {
      error := None;
    }
  }

  /** One pushed test: an aliased column filters the table of its alias (KeyError for an unknown
      alias, ValueError when the table has no such label); an unaliased column filters every table
      that declares it. A frame without columns raises KeyError; the tables the unaliased loop
      filtered before it stay filtered. */
  method PushTestInto(ts: seq<Table>, c: ColumnRef, test: Test) returns (error: Option<Exception>)
    requires Separate(ts) && CatalogWellFormed(States(ts))
    modifies ts
    ensures CatalogWellFormed(States(ts))
    ensures match PushColumn(old(States(ts)), c, test)
      case Err(e) => error == Some(e) && (Aliased(c) ==> States(ts) == old(States(ts)))
      case Ok(r) => error.None? && States(ts) == r
  {
    var cat := States(ts);
    if c.table == "" {
      error := FilterTables(ts, c.name, test);
      return;
    }
    match AliasIndex(cat, c.table) {
      case None => return Some(KeyError(c.table));
      case Some(k) =>
        var table := ts[k];
        var colLabel := table.alias + "." + c.name;
        if colLabel !in table.labels {
          return Some(ValueError);
        }
        var colIndex := IndexOf(table.labels, colLabel);
        error := table.KeepPassing(colIndex, test);
        if error.Some? {
          StatesAre(ts, cat);
          return;
        }
        StatesAre(ts, cat[k := FilterTableAt(cat[k], colIndex, test)]);
    }
  }

  /** The loop of a pushed test on an unaliased column over the table dictionary; the first
      declaring table whose frame has no columns raises. */
  method FilterTables(ts: seq<Table>, name: string, test: Test) returns (error: Option<Exception>)
    requires Separate(ts) && CatalogWellFormed(States(ts))
    modifies ts
    ensures CatalogWellFormed(States(ts))
    ensures error == if DeclaringColumnless(old(States(ts)), name) then Some(FrameKeyError) else None
    ensures error.None? ==> States(ts) == FilterDeclaring(old(States(ts)), name, test)
  {
    ghost var cat := States(ts);
    for k := 0 to |ts|
      invariant forall m :: 0 <= m < |ts| ==>
        ts[m].State() == if m < k then FilterDeclared(cat[m], name, test) else cat[m]
      invariant forall m :: 0 <= m < k ==> !(name in cat[m].dataTypes && cat[m].columnless)
    {
      error := FilterStep(ts, cat, name, test, k);
      if error.Some? {
        return;
      }
    }
    StatesAre(ts, FilterDeclaring(cat, name, test));
    error := None;
  }

  /** One iteration of that loop, on table `k`. */
  method FilterStep(ts: seq<Table>, ghost cat: Catalog, name: string, test: Test, k: nat) returns (error: Option<Exception>)
    requires Separate(ts) && k < |ts| == |cat| && CatalogWellFormed(cat)
    requires forall m :: 0 <= m < |ts| ==> ts[m].State() == if m < k then FilterDeclared(cat[m], name, test) else cat[m]
    modifies ts[k]
    ensures error == if name in cat[k].dataTypes && cat[k].columnless then Some(FrameKeyError) else None
    ensures error.None? ==>
      forall m :: 0 <= m < |ts| ==> ts[m].State() == if m < k + 1 then FilterDeclared(cat[m], name, test) else cat[m]
    ensures error.Some? ==> CatalogWellFormed(States(ts))
  {
    error := FilterIfDeclared(ts[k], name, test);
    PartlyFilteredWellFormed(ts, cat, name, test, if error.None? then k + 1 else k);
  }

  /** Where the unaliased pushdown stopped at table `k`, the tables are still well formed under
      their aliases. */
  lemma PartlyFilteredWellFormed(ts: seq<Table>, cat: Catalog, name: string, test: Test, k: nat)
    requires k <= |ts| == |cat| && CatalogWellFormed(cat)
    requires forall m :: 0 <= m < |ts| ==> ts[m].State() == if m < k then FilterDeclared(cat[m], name, test) else cat[m]
    ensures CatalogWellFormed(States(ts))
  {
    var r := States(ts);
    forall m | 0 <= m < |r|
      ensures r[m].alias == cat[m].alias && WellFormed(r[m])
    {
      assert r[m] == ts[m].State();
      assert WellFormed(cat[m]);
    }
  }

  /** One iteration of that loop: a table declaring the name keeps the rows that pass the test, or
      raises, unchanged, when its frame has no columns. */
  method FilterIfDeclared(table: Table, name: string, test: Test) returns (error: Option<Exception>)
    requires table.Valid()
    modifies table
    ensures table.Valid()
    ensures error == if name in old(table.dataTypes) && table.columnless then Some(FrameKeyError) else None
    ensures table.State() == if error.None? then FilterDeclared(old(table.State()), name, test) else old(table.State())
  {
    error := None;
    if name in table.dataTypes {
      error := table.KeepPassing(IndexOf(table.labels, table.alias + "." + name), test);
    }
  }

  /** Given the check's verdict and the optimiser's outcome: the verdict, its message or the
      exception it raised, and for a query that passed, the optimised tables and WHERE list or the
      exception the optimiser raised. */
  predicate InitialState(check: Check, optimised: Result<(Catalog, seq<Clause>)>, passed: bool,
                         message: string, raised: Option<Exception>, tables: Catalog, where: seq<Clause>)
  {
    && (passed <==> check == Pass)
    && (check.Crash? ==> raised == Some(check.exception))
    && (check.Fail? ==> raised.None? && message == Message(check.error))
    && (check == Pass ==>
          match optimised
          case Err(e) => raised == Some(e)
          case Ok(opt) => raised.None? && tables == opt.0 && where == opt.1)
  }

  /** `Table(...)` for one FROM entry. */
  method NewTable(src: Source) returns (table: Table)
    requires SourceWellFormed(src)
    ensures fresh(table) && table.State() == TableOf(src)
  {
    table := new Table(src.header, src.rows, src.alias);
  }

  /** The SELECT loop of `noErrors`: an aliased item needs a known table holding the label, an
      unaliased one exactly one table declaring the name; the first failing item is reported. */
  method CheckSelect(cat: Catalog, select: seq<SelectItem>) returns (error: Option<QueryError>)
    ensures error == FirstSelectError(cat, select)
  {
    var i := 0;
    while i < |select|
      invariant 0 <= i <= |select|
      invariant FirstSelectError(cat, select) == FirstSelectError(cat, select[i..])
    {
      assert select[i..][0] == select[i] && select[i..][1..] == select[i + 1..];
      var selectedTable, selectedCol := select[i].column.table, select[i].column.name;
      if selectedTable != "" {
        match AliasIndex(cat, selectedTable) {
          case None => return Some(UnknownTable(selectedTable));
          case Some(k) =>
            if selectedTable + "." + selectedCol !in cat[k].labels {
              return Some(UnknownColumnInTable(selectedCol, selectedTable));
            }
        }
      } else {
        var foundInTable := TablesDeclaring(cat, selectedCol);
        if |foundInTable| < 1 {
          return Some(UnknownColumn(selectedCol));
        } else if |foundInTable| > 1 {
          return Some(AmbiguousColumn(selectedCol, foundInTable[0], foundInTable[1]));
        }
      }
      i := i + 1;
    }
    return None;
  }

  /** `foundInTable`: the aliases of the tables declaring the name, in dictionary order. */
  method TablesDeclaring(cat: Catalog, name: string) returns (found: seq<string>)
    ensures found == Owners(cat, name)
  {
    found := [];
    var k := 0;
    while k < |cat|
      invariant 0 <= k <= |cat|
      invariant found + Owners(cat[k..], name) == Owners(cat, name)
    {
      assert cat[k..][1..] == cat[k + 1..];
      if name in cat[k].dataTypes {
        found := found + [cat[k].alias];
      }
      k := k + 1;
    }
  }

  /** The WHERE loop of `noErrors`: the types of both operands of each clause must agree; an
      exception raised while typing an operand escapes. */
  method CheckWhere(cat: Catalog, where: seq<Clause>) returns (check: Check)
    ensures check == FirstClauseCheck(cat, where)
  {
    var j := 0;
    while j < |where|
      invariant 0 <= j <= |where|
      invariant FirstClauseCheck(cat, where) == FirstClauseCheck(cat, where[j..])
    {
      assert where[j..][0] == where[j] && where[j..][1..] == where[j + 1..];
      var leftType := GetDType(cat, where[j].left);
      if leftType.Err? {
        return Crash(leftType.error);
      }
      var rightType := GetDType(cat, where[j].right);
      if rightType.Err? {
        return Crash(rightType.error);
      }
      if leftType.value != rightType.value {
        return Fail(IncompatibleTypes(where[j].op, TypeLabel(leftType.value), TypeLabel(rightType.value)));
      }
      j := j + 1;
    }
    return Pass;
  }

  /** `__getDType`: a literal's own type; an aliased column's declared type, raising KeyError for an
      unknown alias or column; an unaliased column's type in the first table declaring it, or None
      when no table does. */
  method GetDType(cat: Catalog, operand: Operand) returns (r: Result<Option<string>>)
    ensures r == DType(cat, operand)
  {
    if operand.Literal? {
      return Ok(Some(TypeName(operand.literal)));
    }
    var table, colName := operand.column.table, operand.column.name;
    if table != "" {
      match AliasIndex(cat, table) {
        case None => return Err(KeyError(table));
        case Some(k) =>
          if colName !in cat[k].dataTypes {
            return Err(KeyError(colName));
          }
          return Ok(Some(cat[k].dataTypes[colName]));
      }
    }
    var k := 0;
    while k < |cat|
      invariant 0 <= k <= |cat|
      invariant forall m :: 0 <= m < k ==> colName !in cat[m].dataTypes
    {
      if colName in cat[k].dataTypes {
        return Ok(Some(cat[k].dataTypes[colName]));
      }
      k := k + 1;
    }
    return Ok(None);
  }

  /** `requiredCols`: the SELECT names, then the names of the WHERE column operands. */
  method RequiredCols(select: seq<SelectItem>, where: seq<Clause>) returns (required: set<string>)
    ensures required == RequiredNames(select, where)
  {
    required := {};
    for i := 0 to |select|
      invariant required == set k | 0 <= k < i :: select[k].column.name
    {
      required := required + {select[i].column.name};
    }
    ghost var selected := required;
    for j := 0 to |where|
      invariant required == selected
        + (set k | 0 <= k < j && where[k].left.Column? :: where[k].left.column.name)
        + (set k | 0 <= k < j && where[k].right.Column? :: where[k].right.column.name)
    {
      if where[j].left.Column? {
        required := required + {where[j].left.column.name};
      }
      if where[j].right.Column? {
        required := required + {where[j].right.column.name};
      }
    }
  }

  /** The loops of `__constructCrossPoduct` over the tables in dictionary order: one table is used as
      it is; several are folded pairwise with the product and labelled with all their labels, table
      after table; `reduce` over no tables raises TypeError. */
  method CrossProductOf(cat: Catalog) returns (r: Result<Relation>)
    ensures r == CrossProduct(cat)
  {
    if |cat| == 1 {
      var columns := if cat[0].columnless then 0 else |cat[0].labels|;
      if columns != |cat[0].labels| {
        return Err(ValueError);
      }
      assert !RelabelFails(cat);
      return Ok(Relation(cat[0].labels, cat[0].rows));
    }
    if |cat| == 0 {
      return Err(TypeError);
    }
    var result := cat[0].rows;
    for i := 1 to |cat|
      invariant result == Reduce(cat[..i])
    {
      assert cat[..i + 1][..i] == cat[..i];
      result := Product(result, cat[i].rows);
    }
    var labels: seq<string> := [];
    var columns := 0;
    for i := 0 to |cat|
      invariant labels == AllLabels(cat[..i]) && columns == FrameWidth(cat[..i])
    {
      assert cat[..i + 1][..i] == cat[..i];
      labels := labels + cat[i].labels;
      columns := columns + if cat[i].columnless then 0 else |cat[i].labels|;
    }
    assert cat[..|cat|] == cat;
    FrameWidthFits(cat);
    if columns != |labels| {
      return Err(ValueError);
    }
    return Ok(Relation(labels, result));
  }

  /** The loop of `__where`: each clause in turn keeps the rows of the current data that pass it; an
      unaliased operand is found by the substring filter over the cross product's labels. */
  method WhereLoop(cat: Catalog, product: Relation, where: seq<Clause>) returns (r: Result<Relation>)
    ensures r == ApplyWhere(LikeFilter, cat, product, where)
  {
    var data := product;
    for i := 0 to |where|
      invariant data.labels == product.labels
      invariant ApplyWhere(LikeFilter, cat, product, where) == ApplyWhere(LikeFilter, cat, data, where[i..])
    {
      var clause := where[i];
      assert where[i..][0] == clause && where[i..][1..] == where[i + 1..];
      var leftColumnName := GenColName(LikeFilter, cat, product.labels, clause.left);
      if leftColumnName.Err? {
        return Err(leftColumnName.error);
      }
      var rightColumnName := GenColName(LikeFilter, cat, product.labels, clause.right);
      if rightColumnName.Err? {
        return Err(rightColumnName.error);
      }
      var left := Lookup(data.labels, leftColumnName.value);
      if left.Err? {
        return Err(left.error);
      }
      var right := Lookup(data.labels, rightColumnName.value);
      if right.Err? {
        return Err(right.error);
      }
      data := Relation(data.labels, KeepIf(data.rows, Condition(clause.op, left.value, right.value)));
    }
    assert where[|where|..] == [];
    return Ok(data);
  }

  /** The loop of `__select`: rename each selected column to its `as` name, collecting the names,
      then keep the named columns; an unaliased item is found by the substring filter over the labels
      as renamed so far. */
  method SelectLoop(cat: Catalog, data: Relation, select: seq<SelectItem>) returns (r: Result<Relation>)
    requires RelationWellFormed(data)
    ensures r == Project(LikeFilter, cat, data, select)
  {
    var labels := data.labels;
    var selectedColumns: seq<string> := [];
    ghost var targets: seq<string> := [];
    for i := 0 to |select|
      invariant SelectTargets(LikeFilter, cat, data.labels, select[..i]) == Ok(targets)
      invariant selectedColumns == AsNames(select[..i])
      invariant labels == RenameAll(data.labels, targets, selectedColumns)
    {
      var colLabel := GenColName(LikeFilter, cat, labels, Column(select[i].column));
      if colLabel.Err? {
        PrefixPrefix(select, i, i + 1);
        SelectTargetsErrExtends(LikeFilter, cat, data.labels, select, i + 1);
        return Err(colLabel.error);
      }
      SelectLoopStep(cat, data.labels, select, i, targets, selectedColumns, colLabel.value);
      labels := Rename(labels, colLabel.value, select[i].asName);
      targets := targets + [colLabel.value];
      selectedColumns := selectedColumns + [select[i].asName];
    }
    assert select[..|select|] == select;
    var picks := Picks(labels, selectedColumns);
    if picks.Err? {
      return Err(picks.error);
    }
    var ps := picks.value;
    return Ok(Relation(Gather(labels, ps), seq(|data.rows|, j requires 0 <= j < |data.rows| => Gather(data.rows[j], ps))));
  }

  /** The response `run` assembles: the header built cell by cell from the first row's types; an
      empty result raises IndexError at `data[0]`. */
  method Respond(result: Relation) returns (response: Response)
    requires RelationWellFormed(result)
    ensures response == Assemble(result)
  {
    var labels, data := result.labels, result.rows;
    if |data| == 0 {
      return Raised(IndexError);
    }
    var newLabels: seq<(string, string)> := [];
    for i := 0 to |data[0]|
      invariant |newLabels| == i
      invariant forall k :: 0 <= k < i ==> newLabels[k] == (labels[k], TypeName(data[0][k]))
    {
      newLabels := newLabels + [(labels[i], TypeName(data[0][i]))];
    }
    return Success(newLabels, data);
  }

  class Query {
    const select: seq<SelectItem>
    var where: seq<Clause>
    var tables: seq<Table>
    var passedErrorCheck: bool
    var errorMessage: string
    /** The exception `__init__` raised, if any; a query that raised is never run. */
    var raised: Option<Exception>
    var crossProduct: Relation

    function TableStates(): Catalog
      reads this`tables, tables
    {
      States(tables)
    }

    ghost predicate Valid()
      reads this`tables, tables
    {
      Separate(tables) && CatalogWellFormed(States(tables))
    }

    /** The state `__init__` leaves behind, given the catalog the tables were built as and the WHERE
        list as loaded. */
    ghost predicate Initialised(cat: Catalog, loaded: seq<Clause>)
      requires CatalogWellFormed(cat)
      reads this, tables
    {
      InitialState(Validate(cat, select, loaded), Optimise(cat, select, loaded),
                   passedErrorCheck, errorMessage, raised, TableStates(), where)
    }

    /** `Query.__init__` over the loaded FROM entries: build the table dictionary, then check and
        optimise. */
    constructor (sources: seq<Source>, select: seq<SelectItem>, where: seq<Clause>)
      requires forall k :: 0 <= k < |sources| ==> SourceWellFormed(sources[k])
      ensures Valid() && this.select == select
      ensures CatalogWellFormed(BuildCatalog(sources)) && Initialised(BuildCatalog(sources), where)
    {
      var ts := ConstructTables(sources);
      BuildCatalogWellFormed(sources);
      this.select := select;
      this.where := where;
      this.tables := ts;
      this.passedErrorCheck := false;
      this.errorMessage := "";
      this.raised := None;
      this.crossProduct := Relation([], []);
      new;
      assert TableStates() == BuildCatalog(sources) && Valid();
      CheckAndOptimise();
    }

    /** The rest of `__init__`: run the check, record its verdict and message, and optimise a query
        that passed it. */
    method CheckAndOptimise()
      requires Valid() && !passedErrorCheck && raised.None?
      modifies this`passedErrorCheck, this`errorMessage, this`raised, this`where, tables
      ensures Valid() && Initialised(old(TableStates()), old(where))
    {
      var check := NoErrors();
      ghost var cat, loaded := TableStates(), where;
      ghost var optimised := Optimise(cat, select, loaded);
      match check {
        case Crash(e) =>
          raised := Some(e);
        case Fail(e) =>
          errorMessage := Message(e);
        case Pass =>
          OptimisePassed();
      }
      assert InitialState(check, optimised, passedErrorCheck, errorMessage, raised, TableStates(), where);
    }

    /** A query that passed the check: the verdict is recorded and the optimiser runs; an exception
        it raises is kept. */
    method OptimisePassed()
      requires Valid()
      modifies this`passedErrorCheck, this`raised, this`where, tables
      ensures Valid() && passedErrorCheck
      ensures match Optimise(old(TableStates()), select, old(where))
        case Err(e) => raised == Some(e)
        case Ok(opt) => raised.None? && TableStates() == opt.0 && where == opt.1
    {
      raised := OptimiseQuery();
      passedErrorCheck := true;
    }

    /** `noErrors`: every SELECT item, then every WHERE clause; the first error is returned, and an
        exception raised by `__getDType` escapes. */
    method NoErrors() returns (check: Check)
      requires Valid()
      ensures check == Validate(TableStates(), select, where)
    {
      var cat := States(tables);
      var selectError := CheckSelect(cat, select);
      if selectError.Some? {
        return Fail(selectError.value);
      }
      check := CheckWhere(cat, where);
    }

    /** `__optimiseQuery`: dead-column elimination (in every table, delete each column whose name
        is not required), pushdown, then the WHERE list without the pushed clauses. An exception
        raised by the deletion or the pushdown escapes and leaves the WHERE list as it was. */
    method OptimiseQuery() returns (error: Option<Exception>)
      requires Valid()
      modifies this`where, tables
      ensures Valid()
      ensures match Optimise(old(TableStates()), select, old(where))
        case Err(e) => error == Some(e)
        case Ok(opt) => error.None? && TableStates() == opt.0 && where == opt.1
    {
      var rest;
      error, rest := OptimiseTables(tables, select, where);
      if error.None? {
        where := rest;
      }
    }

    /** `__constructCrossPoduct`: the cross product of the tables' current contents, kept as the
        query's `crossProduct`. */
    method ConstructCrossProduct() returns (r: Result<Relation>)
      modifies this`crossProduct
      ensures r == CrossProduct(TableStates())
      ensures r.Ok? ==> crossProduct == r.value
    {
      r := CrossProductOf(States(tables));
      if r.Ok? {
        crossProduct := r.value;
      }
    }

    /** `__where`: the remaining WHERE clauses applied to the cross product. */
    method Where() returns (r: Result<Relation>)
      ensures r == ApplyWhere(LikeFilter, TableStates(), crossProduct, where)
    {
      r := WhereLoop(States(tables), crossProduct, where);
    }

    /** `__select`: the projection of the filtered data onto the SELECT list. */
    method Select(data: Relation) returns (r: Result<Relation>)
      requires RelationWellFormed(data)
      ensures r == Project(LikeFilter, TableStates(), data, select)
    {
      r := SelectLoop(States(tables), data, select);
    }

    /** `run`: for a query that passed the check, the cross product, the WHERE clauses, the
        projection and the response built from it; otherwise the error message. */
    method Run() returns (response: Response)
      requires Valid()
      modifies this`crossProduct
      ensures passedErrorCheck ==> AllAligned(TableStates()) && response == Evaluate(LikeFilter, TableStates(), select, where)
      ensures !passedErrorCheck ==> response == Failure(errorMessage)
    {
      if !passedErrorCheck {
        return Failure(errorMessage);
      }
      CatalogAligned(TableStates());
      var product := ConstructCrossProduct();
      if product.Err? {
        return Raised(product.error);
      }
      response := Finish();
    }

    /** The rest of `run` once the cross product is built: the WHERE clauses, the projection and
        the response. */
    method Finish() returns (response: Response)
      requires AllAligned(TableStates()) && CrossProduct(TableStates()) == Ok(crossProduct)
      ensures response == Evaluate(LikeFilter, TableStates(), select, where)
    {
      ghost var cat := TableStates();
      CrossProductSpec(cat);
      var filtered := Where();
      if filtered.Err? {
        return Raised(filtered.error);
      }
      ApplyWhereAligned(LikeFilter, cat, crossProduct, where);
      var queryResult := Select(filtered.value);
      if queryResult.Err? {
        return Raised(queryResult.error);
      }
      response := Respond(queryResult.value);
    }
  }

  /** `Query(json, folder).run()` on the loaded FROM entries gives the response of the functional
      model of the whole query. */
  method RunQuery(sources: seq<Source>, select: seq<SelectItem>, where: seq<Clause>) returns (response: Response)
    requires forall k :: 0 <= k < |sources| ==> SourceWellFormed(sources[k])
    ensures response == Pipeline(LikeFilter, sources, select, where)
  {
    var query := new Query(sources, select, where);
    ghost var passed, message, tables, rest := query.passedErrorCheck, query.errorMessage, query.TableStates(), query.where;
    PipelineFromState(LikeFilter, sources, select, where, passed, message, query.raised, tables, rest);
    if query.raised.Some? {
      return Raised(query.raised.value);
    }
    response := query.Run();
    assert query.passedErrorCheck == passed && query.errorMessage == message;
    assert query.TableStates() == tables && query.where == rest;
  }

  /** The state `__init__` leaves behind determines the outcome of the whole query: the exception
      it recorded, the check's message, or the evaluation of the optimised tables and WHERE list. */
  lemma PipelineFromState(inference: Inference, sources: seq<Source>, select: seq<SelectItem>, where: seq<Clause>, passed: bool,
                          message: string, raised: Option<Exception>, tables: Catalog, rest: seq<Clause>)
    requires forall k :: 0 <= k < |sources| ==> SourceWellFormed(sources[k])
    requires CatalogWellFormed(BuildCatalog(sources))
    requires InitialState(Validate(BuildCatalog(sources), select, where), Optimise(BuildCatalog(sources), select, where),
                          passed, message, raised, tables, rest)
    ensures raised.Some? ==> Pipeline(inference, sources, select, where) == Raised(raised.value)
    ensures raised.None? && !passed ==> Pipeline(inference, sources, select, where) == Failure(message)
    ensures raised.None? && passed ==>
      AllAligned(tables) && Pipeline(inference, sources, select, where) == Evaluate(inference, tables, select, rest)
  {
    var cat := BuildCatalog(sources);
    if Validate(cat, select, where) == Pass && Optimise(cat, select, where).Ok? {
      CatalogAligned(Optimise(cat, select, where).value.0);
    }
  }
}
