/** The static check `Query.noErrors` and the type lookup `Query.__getDType` it uses. */
module Validation {
  import opened Outcomes
  import opened Values
  import opened Tables
  import opened Syntax
  import opened Catalogs

  /** The errors the check reports. */
  datatype QueryError =
    | UnknownTable(table: string)
    | UnknownColumnInTable(column: string, table: string)
    | UnknownColumn(column: string)
    | AmbiguousColumn(column: string, first: string, second: string)
    | IncompatibleTypes(op: Op, left: string, right: string)

  /** The error message returned beside `False`. */
  function Message(e: QueryError): (m: string)
    ensures |m| > 7 && m[..7] == "ERROR: "
  {
    match e
    case UnknownTable(t) => "ERROR: Unknown table name \"" + t + "\"."
    case UnknownColumnInTable(c, t) => "ERROR: Unknown column \"" + c + "\" in table \"" + t + "\"."
    case UnknownColumn(c) => "ERROR: Unknown column \"" + c + "\"."
    case AmbiguousColumn(c, a, b) =>
      "ERROR: Column reference \"" + c + "\" is ambiguous; present in multiple tables: \"" + a + "\", \"" + b + "\"."
    case IncompatibleTypes(op, l, r) => "ERROR: Incompatible types to \"" + OpSymbol(op) + "\": " + l + " and " + r + "."
  }

  /** Outcome of the check: valid, the first error, or a Python exception escaping from the check. */
  datatype Check = Pass | Fail(error: QueryError) | Crash(exception: Exception)

  /** The check of one SELECT item. */
  function CheckSelectItem(cat: Catalog, item: SelectItem): Option<QueryError>
  {
    var c := item.column;
    if Aliased(c) then
      match AliasIndex(cat, c.table)
      case None => Some(UnknownTable(c.table))
      case Some(i) => if Qualify(c.table, c.name) in cat[i].labels then None else Some(UnknownColumnInTable(c.name, c.table))
    else
      var owners := Owners(cat, c.name);
      if |owners| < 1 then Some(UnknownColumn(c.name))
      else if |owners| > 1 then Some(AmbiguousColumn(c.name, owners[0], owners[1]))
      else None
  }

  /** A column reference that names exactly one column of the catalog: the given table declares it,
      or, without a table, exactly one table declares it. */
  predicate Resolvable(cat: Catalog, c: ColumnRef)
  {
    if Aliased(c) then exists i :: 0 <= i < |cat| && cat[i].alias == c.table && c.name in cat[i].dataTypes
    else exists i :: 0 <= i < |cat| && c.name in cat[i].dataTypes
           && forall k :: 0 <= k < |cat| && k != i ==> c.name !in cat[k].dataTypes
  }

  /** In a well-formed table the label `alias.name` is present exactly when `name` is declared. */
  lemma LabelPresentIffDeclared(t: TableState, name: string)
    requires WellFormed(t)
    ensures Qualify(t.alias, name) in t.labels <==> name in t.dataTypes
  {
    if Qualify(t.alias, name) in t.labels {
      var i :| 0 <= i < |t.labels| && t.labels[i] == Qualify(t.alias, name);
      QualifyThenBare(t.alias, name);
    }
  }

  /** A SELECT item passes exactly when its column is resolvable. */
  lemma SelectItemAccepted(cat: Catalog, item: SelectItem)
    requires CatalogWellFormed(cat)
    ensures CheckSelectItem(cat, item).None? <==> Resolvable(cat, item.column)
  {
    var c := item.column;
    if Aliased(c) {
      match AliasIndex(cat, c.table)
      case None =>
      case Some(i) =>
        LabelPresentIffDeclared(cat[i], c.name);
    } else {
      OwnersSingle(cat, c.name);
    }
  }

  /** Which error a SELECT item gets: an unknown alias before an unknown column of that table; for an
      unaliased name, no owner or the first two owners in catalog order. */
  lemma SelectItemErrors(cat: Catalog, item: SelectItem)
    requires CatalogWellFormed(cat)
    ensures var c, r := item.column, CheckSelectItem(cat, item);
      && (Aliased(c) ==> (r == Some(UnknownTable(c.table)) <==> forall i :: 0 <= i < |cat| ==> cat[i].alias != c.table))
      && (Aliased(c) ==> (r == Some(UnknownColumnInTable(c.name, c.table)) <==>
            exists i :: 0 <= i < |cat| && cat[i].alias == c.table && c.name !in cat[i].dataTypes))
      && (!Aliased(c) ==> (r == Some(UnknownColumn(c.name)) <==> forall i :: 0 <= i < |cat| ==> c.name !in cat[i].dataTypes))
      && (!Aliased(c) && r.Some? && r.value.AmbiguousColumn? ==>
            r.value.column == c.name &&
            exists i, j :: (0 <= i < j < |cat| && c.name in cat[i].dataTypes && c.name in cat[j].dataTypes
              && (forall k :: 0 <= k < j && k != i ==> c.name !in cat[k].dataTypes)
              && r.value.first == cat[i].alias && r.value.second == cat[j].alias))
      && (r.Some? && Aliased(c) ==> r.value.UnknownTable? || r.value.UnknownColumnInTable?)
      && (r.Some? && !Aliased(c) ==> r.value.UnknownColumn? || r.value.AmbiguousColumn?)
  {
    var c := item.column;
    if Aliased(c) {
      match AliasIndex(cat, c.table)
      case None =>
      case Some(i) =>
        LabelPresentIffDeclared(cat[i], c.name);
        forall j | 0 <= j < |cat| && cat[j].alias == c.table
          ensures j == i
        {
        }
    } else {
      OwnersEmpty(cat, c.name);
      if |Owners(cat, c.name)| > 1 {
        OwnersFirstTwo(cat, c.name);
      }
    }
  }

  /** The SELECT scan: the error of the first failing item. */
  function FirstSelectError(cat: Catalog, select: seq<SelectItem>): Option<QueryError>
  {
    if select == [] then None
    else match CheckSelectItem(cat, select[0])
      case Some(e) => Some(e)
      case None => FirstSelectError(cat, select[1..])
  }

  /** The SELECT scan reports the error of the first failing item, and nothing when all items pass. */
  lemma {:induction false} FirstSelectErrorSpec(cat: Catalog, select: seq<SelectItem>)
    ensures FirstSelectError(cat, select).None? <==> forall k :: 0 <= k < |select| ==> CheckSelectItem(cat, select[k]).None?
    ensures FirstSelectError(cat, select).Some? ==> exists k :: (0 <= k < |select|
      && CheckSelectItem(cat, select[k]) == FirstSelectError(cat, select)
      && forall j :: 0 <= j < k ==> CheckSelectItem(cat, select[j]).None?)
  {
    if select != [] {
      FirstSelectErrorSpec(cat, select[1..]);
      assert forall k :: 1 <= k < |select| ==> select[k] == select[1..][k - 1];
      if CheckSelectItem(cat, select[0]).None? && FirstSelectError(cat, select).Some? {
        var k :| 0 <= k < |select[1..]|
          && CheckSelectItem(cat, select[1..][k]) == FirstSelectError(cat, select[1..])
          && forall j :: 0 <= j < k ==> CheckSelectItem(cat, select[1..][j]).None?;
        assert CheckSelectItem(cat, select[k + 1]) == FirstSelectError(cat, select);
      }
    }
  }

  /** `__getDType`: a literal's own type; an aliased column's declared type (KeyError for an unknown
      alias or column); an unaliased column's type in the first declaring table, or None. */
  function DType(cat: Catalog, operand: Operand): Result<Option<string>>
  {
    match operand
    case Literal(v) => Ok(Some(TypeName(v)))
    case Column(c) =>
      if Aliased(c) then
        match AliasIndex(cat, c.table)
        case None => Err(KeyError(c.table))
        case Some(i) => if c.name in cat[i].dataTypes then Ok(Some(cat[i].dataTypes[c.name])) else Err(KeyError(c.name))
      else
        match FirstDeclaring(cat, c.name)
        case None => Ok(None)
        case Some(i) => Ok(Some(cat[i].dataTypes[c.name]))
  }

  /** How `__getDType` resolves a column reference, stated against the catalog. */
  lemma DTypeResolution(cat: Catalog, c: ColumnRef, ty: string)
    requires AliasesDistinct(cat)
    ensures Aliased(c) ==> (DType(cat, Column(c)) == Ok(Some(ty)) <==>
      exists i :: 0 <= i < |cat| && cat[i].alias == c.table && c.name in cat[i].dataTypes && cat[i].dataTypes[c.name] == ty)
    ensures Aliased(c) && (forall i :: 0 <= i < |cat| ==> cat[i].alias != c.table) ==> DType(cat, Column(c)) == Err(KeyError(c.table))
    ensures Aliased(c) && (exists i :: 0 <= i < |cat| && cat[i].alias == c.table && c.name !in cat[i].dataTypes) ==>
      DType(cat, Column(c)) == Err(KeyError(c.name))
    ensures Aliased(c) ==> DType(cat, Column(c)) != Ok(None)
    ensures !Aliased(c) ==> (DType(cat, Column(c)) == Ok(Some(ty)) <==>
      exists i :: 0 <= i < |cat| && c.name in cat[i].dataTypes && cat[i].dataTypes[c.name] == ty
        && forall j :: 0 <= j < i ==> c.name !in cat[j].dataTypes)
    ensures !Aliased(c) ==> (DType(cat, Column(c)) == Ok(None) <==> forall i :: 0 <= i < |cat| ==> c.name !in cat[i].dataTypes)
    ensures !Aliased(c) ==> DType(cat, Column(c)).Ok?
  {
    if Aliased(c) {
      match AliasIndex(cat, c.table)
      case None =>
      case Some(i) =>
        forall j | 0 <= j < |cat| && cat[j].alias == c.table
          ensures j == i
        {
        }
    } else {
      match FirstDeclaring(cat, c.name)
      case None =>
      case Some(i) =>
        forall j | 0 <= j < |cat| && c.name in cat[j].dataTypes && forall k :: 0 <= k < j ==> c.name !in cat[k].dataTypes
          ensures j == i
        {
        }
    }
  }

  /** A type as `str.format` prints it: Python's None prints as "None". */
  function TypeLabel(t: Option<string>): string
  {
    match t
    case None => "None"
    case Some(s) => s
  }

  /** The check of one WHERE clause: left operand typed first, then right. */
  function CheckClause(cat: Catalog, clause: Clause): Check
  {
    match DType(cat, clause.left)
    case Err(e) => Crash(e)
    case Ok(l) =>
      match DType(cat, clause.right)
      case Err(e) => Crash(e)
      case Ok(r) => if l != r then Fail(IncompatibleTypes(clause.op, TypeLabel(l), TypeLabel(r))) else Pass
  }

  /** The WHERE scan: the outcome of the first clause that does not pass. */
  function FirstClauseCheck(cat: Catalog, where: seq<Clause>): Check
  {
    if where == [] then Pass
    else match CheckClause(cat, where[0])
      case Pass => FirstClauseCheck(cat, where[1..])
      case other => other
  }

  /** The WHERE scan passes exactly when every clause does, and otherwise reports the first clause that does not. */
  lemma {:induction false} FirstClauseCheckSpec(cat: Catalog, where: seq<Clause>)
    ensures FirstClauseCheck(cat, where) == Pass <==> forall k :: 0 <= k < |where| ==> CheckClause(cat, where[k]) == Pass
    ensures FirstClauseCheck(cat, where) != Pass ==> exists k :: (0 <= k < |where|
      && CheckClause(cat, where[k]) == FirstClauseCheck(cat, where)
      && forall j :: 0 <= j < k ==> CheckClause(cat, where[j]) == Pass)
  {
    if where != [] {
      FirstClauseCheckSpec(cat, where[1..]);
      assert forall k :: 1 <= k < |where| ==> where[k] == where[1..][k - 1];
      if CheckClause(cat, where[0]) == Pass && FirstClauseCheck(cat, where) != Pass {
        var k :| 0 <= k < |where[1..]|
          && CheckClause(cat, where[1..][k]) == FirstClauseCheck(cat, where[1..])
          && forall j :: 0 <= j < k ==> CheckClause(cat, where[1..][j]) == Pass;
        assert CheckClause(cat, where[k + 1]) == FirstClauseCheck(cat, where);
      }
    }
  }

  /** A clause passes exactly when both operands are typed without an exception and the types agree. */
  lemma ClauseAccepted(cat: Catalog, clause: Clause)
    ensures CheckClause(cat, clause) == Pass <==>
      DType(cat, clause.left).Ok? && DType(cat, clause.right).Ok? && DType(cat, clause.left) == DType(cat, clause.right)
    ensures CheckClause(cat, clause).Fail? ==>
      && DType(cat, clause.left).Ok? && DType(cat, clause.right).Ok?
      && DType(cat, clause.left).value != DType(cat, clause.right).value
      && CheckClause(cat, clause).error == IncompatibleTypes(clause.op, TypeLabel(DType(cat, clause.left).value),
                                                             TypeLabel(DType(cat, clause.right).value))
    ensures CheckClause(cat, clause).Crash? ==>
      (DType(cat, clause.left).Err? && CheckClause(cat, clause).exception == DType(cat, clause.left).error)
      || (DType(cat, clause.left).Ok? && DType(cat, clause.right).Err?
          && CheckClause(cat, clause).exception == DType(cat, clause.right).error)
  {
  }

  /** `noErrors`: every SELECT item first, then every WHERE clause. */
  function Validate(cat: Catalog, select: seq<SelectItem>, where: seq<Clause>): Check
  {
    match FirstSelectError(cat, select)
    case Some(e) => Fail(e)
    case None => FirstClauseCheck(cat, where)
  }

  /** The check passes exactly when every SELECT item and every WHERE clause passes; a failing SELECT
      item is reported whatever the WHERE clauses are; WHERE is reached only after all of SELECT passed. */
  lemma ValidateOrder(cat: Catalog, select: seq<SelectItem>, where: seq<Clause>, where': seq<Clause>)
    ensures Validate(cat, select, where) == Pass <==>
      (forall k :: 0 <= k < |select| ==> CheckSelectItem(cat, select[k]).None?)
      && (forall k :: 0 <= k < |where| ==> CheckClause(cat, where[k]) == Pass)
    ensures Validate(cat, select, where).Crash? ==> forall k :: 0 <= k < |select| ==> CheckSelectItem(cat, select[k]).None?
    ensures (exists k :: 0 <= k < |select| && CheckSelectItem(cat, select[k]).Some?) ==>
      Validate(cat, select, where) == Validate(cat, select, where') && Validate(cat, select, where).Fail?
  {
    FirstSelectErrorSpec(cat, select);
    FirstClauseCheckSpec(cat, where);
  }

  /** After a passing check, every literal-vs-column clause names a column some table declares, and an
      aliased column is declared by the table of that alias. */
  lemma PassedOperand(cat: Catalog, clause: Clause)
    requires AliasesDistinct(cat)
    requires CheckClause(cat, clause) == Pass
    ensures clause.left.Literal? && clause.right.Column? ==> DeclaredSomewhere(cat, clause.right.column)
    ensures clause.right.Literal? && clause.left.Column? ==> DeclaredSomewhere(cat, clause.left.column)
  {
    if clause.left.Literal? && clause.right.Column? {
      DTypeResolution(cat, clause.right.column, TypeName(clause.left.literal));
    }
    if clause.right.Literal? && clause.left.Column? {
      DTypeResolution(cat, clause.left.column, TypeName(clause.right.literal));
    }
  }

  /** The table the reference names (if aliased) or some table (if not) declares the column. */
  predicate DeclaredSomewhere(cat: Catalog, c: ColumnRef)
  {
    if Aliased(c) then exists i :: 0 <= i < |cat| && cat[i].alias == c.table && c.name in cat[i].dataTypes
    else exists i :: 0 <= i < |cat| && c.name in cat[i].dataTypes
  }

  // ---------------------------------------------------------------------------------------------
  // The clause check as intended

  /** An unaliased column operand that no table declares; its type lookup gives None. */
  predicate Undeclared(cat: Catalog, operand: Operand)
  {
    operand.Column? && !Aliased(operand.column) && FirstDeclaring(cat, operand.column.name).None?
  }

  /** The clause check with unknown columns rejected the way the SELECT check rejects them, before
      the types are compared; otherwise it is the check as written. */
  function CheckClauseIntended(cat: Catalog, clause: Clause): (r: Check)
    ensures Undeclared(cat, clause.left) ==> r == Fail(UnknownColumn(clause.left.column.name))
    ensures !Undeclared(cat, clause.left) && Undeclared(cat, clause.right) ==> r == Fail(UnknownColumn(clause.right.column.name))
    ensures r == Pass <==> !Undeclared(cat, clause.left) && !Undeclared(cat, clause.right) && CheckClause(cat, clause) == Pass
  {
    if Undeclared(cat, clause.left) then Fail(UnknownColumn(clause.left.column.name))
    else if Undeclared(cat, clause.right) then Fail(UnknownColumn(clause.right.column.name))
    else CheckClause(cat, clause)
  }

  /** A column operand whose type lookup succeeds, and is not an undeclared unaliased name, is
      declared where it points. */
  lemma TypedOperandDeclared(cat: Catalog, operand: Operand)
    requires operand.Column? && DType(cat, operand).Ok? && !Undeclared(cat, operand)
    ensures DeclaredSomewhere(cat, operand.column)
  {
    var c := operand.column;
    if Aliased(c) {
      var i := AliasIndex(cat, c.table).value;
      assert cat[i].alias == c.table && c.name in cat[i].dataTypes;
    } else {
      var i := FirstDeclaring(cat, c.name).value;
      assert c.name in cat[i].dataTypes;
    }
  }

  /** Under the intended check a passed clause has every column operand declared where it points. */
  lemma IntendedCheckDeclares(cat: Catalog, clause: Clause)
    requires CheckClauseIntended(cat, clause) == Pass
    ensures clause.left.Column? ==> DeclaredSomewhere(cat, clause.left.column)
    ensures clause.right.Column? ==> DeclaredSomewhere(cat, clause.right.column)
  {
    if clause.left.Column? {
      TypedOperandDeclared(cat, clause.left);
    }
    if clause.right.Column? {
      TypedOperandDeclared(cat, clause.right);
    }
  }
}
