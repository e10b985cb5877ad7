/** `Query.__genColName`, `Query.__where`, `Query.__select` and the result assembly of `Query.run`:
    what the optimised query computes from the catalog. */
module Evaluation {
  import opened Outcomes
  import opened Values
  import opened Seqs
  import opened Tables
  import opened Syntax
  import opened Catalogs
  import opened Validation
  import opened Optimiser
  import opened Products

  // ---------------------------------------------------------------------------------------------
  // Resolving a column reference to a label of the cross product

  /** How an unaliased column reference is given its label. As written, `__genColName` and `__select`
      take `data.filter(like=name).columns[0]` over the labels at hand; as intended ("infer the
      table"), the label is the column of the table that declares the name. */
  datatype Inference = LikeFilter | DeclaringTable

  /** The unaliased lookup as written: the first label that contains the name as a substring;
      IndexError (`columns[0]` of an empty selection) when there is none. */
  function ResolveByLikeFilter(labels: seq<string>, name: string): (r: Result<string>)
    ensures r.Ok? <==> exists j :: 0 <= j < |labels| && Contains(labels[j], name)
    ensures r.Ok? ==> exists k :: (0 <= k < |labels| && labels[k] == r.value && Contains(labels[k], name)
      && forall j :: 0 <= j < k ==> !Contains(labels[j], name))
    ensures r.Err? ==> r.error == IndexError
  {
    match FirstContaining(labels, name)
    case None => Err(IndexError)
    case Some(k) => Ok(labels[k])
  }

  /** The unaliased lookup as intended: the label of the column in the first table that declares
      the name; IndexError, as with the filter, when no table does. */
  function ResolveUnaliased(cat: Catalog, name: string): Result<string>
  {
    match FirstDeclaring(cat, name)
    case None => Err(IndexError)
    case Some(i) => Ok(Qualify(cat[i].alias, name))
  }

  /** The intended lookup finds a label exactly when some table declares the name; otherwise it
      raises IndexError. */
  lemma ResolveUnaliasedFound(cat: Catalog, name: string)
    ensures ResolveUnaliased(cat, name).Ok? <==> exists i :: 0 <= i < |cat| && name in cat[i].dataTypes
    ensures ResolveUnaliased(cat, name).Err? ==> ResolveUnaliased(cat, name).error == IndexError
  {
    if FirstDeclaring(cat, name).Some? {
      var i := FirstDeclaring(cat, name).value;
      assert name in cat[i].dataTypes;
    }
  }

  /** The label found is the column of the first declaring table, at the position the cross product
      gives it. */
  lemma ResolveUnaliasedAt(cat: Catalog, name: string)
    requires CatalogWellFormed(cat) && ResolveUnaliased(cat, name).Ok?
    ensures var i := FirstDeclaring(cat, name).value;
      && ResolveUnaliased(cat, name).value == Qualify(cat[i].alias, name)
      && LabelAt(cat, i, Qualify(cat[i].alias, name))
  {
    var i := FirstDeclaring(cat, name).value;
    DeclaredLabel(cat, i, name);
    LabelAtIndex(cat, i, Qualify(cat[i].alias, name));
  }

  lemma LabelAtIndex(cat: Catalog, i: nat, l: string)
    requires i < |cat| && l in cat[i].labels
    ensures LabelAt(cat, i, l)
  {
    AllLabelsAt(cat, i, IndexOf(cat[i].labels, l));
  }

  /** Table `i` has the label `l`, and the cross product's labels carry it at that table's offset. */
  predicate LabelAt(cat: Catalog, i: nat, l: string)
  {
    && i < |cat| && l in cat[i].labels
    && Offset(cat, i) + IndexOf(cat[i].labels, l) < |AllLabels(cat)|
    && AllLabels(cat)[Offset(cat, i) + IndexOf(cat[i].labels, l)] == l
  }

  /** In a well-formed catalog every declared name has its qualified label. */
  lemma DeclaredLabel(cat: Catalog, i: nat, name: string)
    requires CatalogWellFormed(cat) && i < |cat| && name in cat[i].dataTypes
    ensures Qualify(cat[i].alias, name) in cat[i].labels
  {
    assert WellFormed(cat[i]);
  }

  /** A validated unaliased reference names one table only, and the intended lookup gives its column. */
  lemma ResolveUnaliasedOwner(cat: Catalog, name: string, i: nat)
    requires CatalogWellFormed(cat) && i < |cat| && name in cat[i].dataTypes
    requires forall k :: 0 <= k < |cat| && k != i ==> name !in cat[k].dataTypes
    ensures ResolveUnaliased(cat, name) == Ok(Qualify(cat[i].alias, name))
  {
  }

  /** The substring filter can pick another column than the one the name declares: in a table
      `a` with columns `paid` and `id`, the unaliased name `id` resolves to `a.paid`. */
  lemma LikeFilterPicksOtherColumn()
    ensures ResolveByLikeFilter(["a.paid", "a.id"], "id") == Ok("a.paid")
    ensures ResolveUnaliased([TableState("a", ["a.paid", "a.id"], map["paid" := "int", "id" := "int"], [], false)], "id") == Ok("a.id")
  {
    var t := TableState("a", ["a.paid", "a.id"], map["paid" := "int", "id" := "int"], [], false);
    assert "id" in t.dataTypes;
    assert FirstDeclaring([t], "id") == Some(0);
    assert Qualify("a", "id") == "a.id";
    assert Contains("a.paid", "id") by {
      ContainsSuffix("a.pa", "id");
      assert "a.pa" + "id" == "a.paid";
    }
  }

  /** A qualified label contains its bare name, so the filter always sees the declared column. */
  lemma QualifiedContains(alias: string, name: string)
    ensures Contains(Qualify(alias, name), name)
  {
    ContainsSuffix(alias + ".", name);
  }

  /** Among `labels` the filter cannot miss the intended column: either the declared column is a
      label and no other label contains the name, or no table declares the name and no label
      contains it. */
  predicate FilterFindsDeclared(cat: Catalog, labels: seq<string>, name: string)
  {
    match ResolveUnaliased(cat, name)
    case Err(_) => forall j :: 0 <= j < |labels| ==> !Contains(labels[j], name)
    case Ok(l) => l in labels && forall j :: 0 <= j < |labels| && Contains(labels[j], name) ==> labels[j] == l
  }

  /** Where the filter cannot pick another label, the lookup as written and as intended agree. */
  lemma LikeFilterAgrees(cat: Catalog, labels: seq<string>, name: string)
    requires FilterFindsDeclared(cat, labels, name)
    ensures ResolveByLikeFilter(labels, name) == ResolveUnaliased(cat, name)
  {
    if ResolveUnaliased(cat, name).Ok? {
      var l := ResolveUnaliased(cat, name).value;
      QualifiedContains(cat[FirstDeclaring(cat, name).value].alias, name);
      assert labels[IndexOf(labels, l)] == l;
    }
  }

  /** `__genColName` over the labels at hand: an aliased reference gives `table.name`, an unaliased
      one the label `inference` finds; an operand that is a literal has no `column` entry (KeyError). */
  function GenColName(inference: Inference, cat: Catalog, labels: seq<string>, operand: Operand): (r: Result<string>)
    ensures operand.Literal? ==> r == Err(KeyError("column"))
    ensures operand.Column? && Aliased(operand.column) ==> r == Ok(Qualify(operand.column.table, operand.column.name))
    ensures r.Err? && operand.Column? ==> !Aliased(operand.column) && r.error == IndexError
    ensures r.Ok? && inference == LikeFilter ==> Contains(r.value, operand.column.name)
  {
    match operand
    case Literal(_) => Err(KeyError("column"))
    case Column(c) =>
      if Aliased(c) then QualifiedContains(c.table, c.name); Ok(Qualify(c.table, c.name))
      else if inference == LikeFilter then ResolveByLikeFilter(labels, c.name)
      else ResolveUnaliased(cat, c.name)
  }

  /** An operand whose label the filter finds as intended. */
  predicate Unambiguous(cat: Catalog, labels: seq<string>, operand: Operand)
  {
    operand.Column? && !Aliased(operand.column) ==> FilterFindsDeclared(cat, labels, operand.column.name)
  }

  /** For such an operand `__genColName` as written gives the intended label. */
  lemma GenColNameAgrees(cat: Catalog, labels: seq<string>, operand: Operand)
    requires Unambiguous(cat, labels, operand)
    ensures GenColName(LikeFilter, cat, labels, operand) == GenColName(DeclaringTable, cat, labels, operand)
  {
    if operand.Column? && !Aliased(operand.column) {
      LikeFilterAgrees(cat, labels, operand.column.name);
    }
  }

  // ---------------------------------------------------------------------------------------------
  // The WHERE clauses left after the pushdown

  /** A resolved clause: keep the rows whose cells at `left` and `right` pass `op`. */
  datatype Condition = Condition(op: Op, left: nat, right: nat)

  predicate Holds(x: Row, c: Condition)
  {
    c.left < |x| && c.right < |x| && OpMap(c.op, x[c.left], x[c.right])
  }

  /** Column selection `data[label]`: the position of the label, KeyError when it is missing. */
  function Lookup(labels: seq<string>, l: string): (r: Result<nat>)
    ensures r.Ok? ==> r.value < |labels| && labels[r.value] == l
    ensures r.Err? <==> l !in labels
    ensures r.Err? ==> r.error == KeyError(l)
  {
    if l in labels then Ok(IndexOf(labels, l)) else Err(KeyError(l))
  }

  /** One clause against the current labels, in the order the source evaluates it: both names, then
      the left column, then the right one. */
  function ResolveClause(inference: Inference, cat: Catalog, labels: seq<string>, clause: Clause): Result<Condition>
  {
    match GenColName(inference, cat, labels, clause.left)
    case Err(e) => Err(e)
    case Ok(l) =>
      match GenColName(inference, cat, labels, clause.right)
      case Err(e) => Err(e)
      case Ok(r) =>
        match Lookup(labels, l)
        case Err(e) => Err(e)
        case Ok(pl) =>
          match Lookup(labels, r)
          case Err(e) => Err(e)
          case Ok(pr) => Ok(Condition(clause.op, pl, pr))
  }

  /** The rows that satisfy one condition, in order (`data[opMap(op, data[l], data[r])]`). */
  function KeepIf(rows: seq<Row>, c: Condition): (r: seq<Row>)
    ensures |r| <= |rows|
  {
    if rows == [] then [] else (if Holds(rows[0], c) then [rows[0]] else []) + KeepIf(rows[1..], c)
  }

  /** `__where`: the clauses applied one after the other to the cross product, each resolved against
      its labels, which filtering leaves unchanged. */
  function ApplyWhere(inference: Inference, cat: Catalog, rel: Relation, where: seq<Clause>): Result<Relation>
    decreases |where|
  {
    if where == [] then Ok(rel)
    else match ResolveClause(inference, cat, rel.labels, where[0])
      case Err(e) => Err(e)
      case Ok(c) => ApplyWhere(inference, cat, Relation(rel.labels, KeepIf(rel.rows, c)), where[1..])
  }

  /** All clauses resolved up front; the first that fails decides the error. */
  function ResolveAll(inference: Inference, cat: Catalog, labels: seq<string>, where: seq<Clause>): (r: Result<seq<Condition>>)
    ensures r.Ok? ==> |r.value| == |where|
  {
    if where == [] then Ok([])
    else match ResolveClause(inference, cat, labels, where[0])
      case Err(e) => Err(e)
      case Ok(c) =>
        match ResolveAll(inference, cat, labels, where[1..])
        case Err(e) => Err(e)
        case Ok(cs) => Ok([c] + cs)
  }

  predicate HoldsAll(x: Row, cs: seq<Condition>)
  {
    forall k :: 0 <= k < |cs| ==> Holds(x, cs[k])
  }

  /** The reference filter: the rows that satisfy every condition, in one pass. */
  function KeepAll(rows: seq<Row>, cs: seq<Condition>): (r: seq<Row>)
    ensures |r| <= |rows|
  {
    if rows == [] then [] else (if HoldsAll(rows[0], cs) then [rows[0]] else []) + KeepAll(rows[1..], cs)
  }

  /** The reference filter keeps exactly the rows that satisfy every condition. */
  lemma {:induction false} KeepAllMembership(rows: seq<Row>, cs: seq<Condition>, x: Row)
    ensures x in KeepAll(rows, cs) <==> x in rows && HoldsAll(x, cs)
  {
    if rows != [] {
      KeepAllMembership(rows[1..], cs, x);
      assert rows == [rows[0]] + rows[1..];
    }
  }

  /** Filtering on one condition and then on the rest is filtering on all of them. */
  lemma {:induction false} KeepIfThenAll(rows: seq<Row>, c: Condition, cs: seq<Condition>)
    ensures KeepAll(KeepIf(rows, c), cs) == KeepAll(rows, [c] + cs)
  {
    if rows != [] {
      KeepIfThenAll(rows[1..], c, cs);
      HoldsAllCons(rows[0], c, cs);
      var head := if Holds(rows[0], c) then [rows[0]] else [];
      KeepAllConcat(head, KeepIf(rows[1..], c), cs);
      if Holds(rows[0], c) {
        assert head[1..] == [];
      }
    }
  }

  lemma HoldsAllCons(x: Row, c: Condition, cs: seq<Condition>)
    ensures HoldsAll(x, [c] + cs) <==> Holds(x, c) && HoldsAll(x, cs)
  {
    if Holds(x, c) && HoldsAll(x, cs) {
      forall k | 0 <= k < |[c] + cs|
        ensures Holds(x, ([c] + cs)[k])
      {
        if k > 0 {
          assert ([c] + cs)[k] == cs[k - 1];
        }
      }
    }
    if HoldsAll(x, [c] + cs) {
      assert Holds(x, ([c] + cs)[0]);
      forall k | 0 <= k < |cs|
        ensures Holds(x, cs[k])
      {
        assert ([c] + cs)[k + 1] == cs[k];
      }
    }
  }

  lemma {:induction false} KeepAllConcat(a: seq<Row>, b: seq<Row>, cs: seq<Condition>)
    ensures KeepAll(a + b, cs) == KeepAll(a, cs) + KeepAll(b, cs)
  {
    if a == [] {
      assert a + b == b;
    } else {
      var head := if HoldsAll(a[0], cs) then [a[0]] else [];
      assert (a + b)[0] == a[0] && (a + b)[1..] == a[1..] + b;
      assert KeepAll(a + b, cs) == head + KeepAll(a[1..] + b, cs);
      assert KeepAll(a, cs) == head + KeepAll(a[1..], cs);
      KeepAllConcat(a[1..], b, cs);
      assert head + (KeepAll(a[1..], cs) + KeepAll(b, cs)) == (head + KeepAll(a[1..], cs)) + KeepAll(b, cs);
    }
  }

  /** A relation with no conditions to satisfy keeps all its rows. */
  lemma {:induction false} KeepAllNone(rows: seq<Row>)
    ensures KeepAll(rows, []) == rows
  {
    if rows != [] {
      KeepAllNone(rows[1..]);
    }
  }

  /** `__where` applies the clauses one by one; it equals resolving all of them first and keeping,
      in their original order, the rows that satisfy every one. The labels never change. */
  lemma {:induction false} ApplyWhereSpec(inference: Inference, cat: Catalog, rel: Relation, where: seq<Clause>)
    ensures ApplyWhere(inference, cat, rel, where) ==
      match ResolveAll(inference, cat, rel.labels, where)
      case Err(e) => Err(e)
      case Ok(cs) => Ok(Relation(rel.labels, KeepAll(rel.rows, cs)))
    decreases |where|
  {
    if where == [] {
      KeepAllNone(rel.rows);
    } else {
      match ResolveClause(inference, cat, rel.labels, where[0])
      case Err(e) =>
      case Ok(c) =>
        var next := Relation(rel.labels, KeepIf(rel.rows, c));
        ApplyWhereSpec(inference, cat, next, where[1..]);
        match ResolveAll(inference, cat, rel.labels, where[1..])
        case Err(e) =>
        case Ok(cs) =>
          KeepIfThenAll(rel.rows, c, cs);
    }
  }

  /** The rows that survive the WHERE clauses are the input rows that satisfy every clause. */
  lemma ApplyWhereMembership(inference: Inference, cat: Catalog, rel: Relation, where: seq<Clause>, x: Row)
    requires ResolveAll(inference, cat, rel.labels, where).Ok?
    ensures ApplyWhere(inference, cat, rel, where).Ok?
    ensures x in ApplyWhere(inference, cat, rel, where).value.rows <==>
      x in rel.rows && HoldsAll(x, ResolveAll(inference, cat, rel.labels, where).value)
  {
    ApplyWhereSpec(inference, cat, rel, where);
    KeepAllMembership(rel.rows, ResolveAll(inference, cat, rel.labels, where).value, x);
  }

  /** Filtering keeps the rows aligned with the labels. */
  lemma ApplyWhereAligned(inference: Inference, cat: Catalog, rel: Relation, where: seq<Clause>)
    requires RelationWellFormed(rel) && ApplyWhere(inference, cat, rel, where).Ok?
    ensures ApplyWhere(inference, cat, rel, where).value.labels == rel.labels
    ensures RelationWellFormed(ApplyWhere(inference, cat, rel, where).value)
  {
    ApplyWhereSpec(inference, cat, rel, where);
    var out := ApplyWhere(inference, cat, rel, where).value;
    forall j | 0 <= j < |out.rows|
      ensures |out.rows[j]| == |out.labels|
    {
      KeepAllMembership(rel.rows, ResolveAll(inference, cat, rel.labels, where).value, out.rows[j]);
    }
  }

  /** Every column operand of the clauses is one whose label the filter finds as intended. */
  predicate WhereUnambiguous(cat: Catalog, labels: seq<string>, where: seq<Clause>)
  {
    forall k :: 0 <= k < |where| ==> Unambiguous(cat, labels, where[k].left) && Unambiguous(cat, labels, where[k].right)
  }

  /** Such clauses resolve to the same conditions, or the same error, as written and as intended. */
  lemma {:induction false} ResolveAllAgrees(cat: Catalog, labels: seq<string>, where: seq<Clause>)
    requires WhereUnambiguous(cat, labels, where)
    ensures ResolveAll(LikeFilter, cat, labels, where) == ResolveAll(DeclaringTable, cat, labels, where)
    decreases |where|
  {
    if where != [] {
      GenColNameAgrees(cat, labels, where[0].left);
      GenColNameAgrees(cat, labels, where[0].right);
      assert WhereUnambiguous(cat, labels, where[1..]) by {
        forall k | 0 <= k < |where[1..]|
          ensures Unambiguous(cat, labels, where[1..][k].left) && Unambiguous(cat, labels, where[1..][k].right)
        {
          assert where[1..][k] == where[k + 1];
        }
      }
      ResolveAllAgrees(cat, labels, where[1..]);
    }
  }

  /** Under the same condition `__where` as written keeps the rows the intended lookup keeps. */
  lemma ApplyWhereAgrees(cat: Catalog, rel: Relation, where: seq<Clause>)
    requires WhereUnambiguous(cat, rel.labels, where)
    ensures ApplyWhere(LikeFilter, cat, rel, where) == ApplyWhere(DeclaringTable, cat, rel, where)
  {
    ApplyWhereSpec(LikeFilter, cat, rel, where);
    ApplyWhereSpec(DeclaringTable, cat, rel, where);
    ResolveAllAgrees(cat, rel.labels, where);
  }

  /** The substring filter can resolve a name no table declares: in a table `a` with the one
      column `food`, the clause `foo = foo` passes the type check (neither side has a type) and the
      filter matches `a.food`, where the declaring-table lookup raises IndexError. */
  lemma LikeFilterResolvesUndeclared()
    ensures var cat := [TableState("a", ["a.food"], map["food" := "int"], [], false)];
      var clause := Clause(Eq, Column(ColumnRef("", "foo")), Column(ColumnRef("", "foo")));
      && CheckClause(cat, clause) == Pass
      && ResolveAll(LikeFilter, cat, ["a.food"], [clause]) == Ok([Condition(Eq, 0, 0)])
      && ResolveAll(DeclaringTable, cat, ["a.food"], [clause]) == Err(IndexError)
  {
    var cat := [TableState("a", ["a.food"], map["food" := "int"], [], false)];
    var labels := ["a.food"];
    var foo := Column(ColumnRef("", "foo"));
    assert "foo" !in cat[0].dataTypes;
    assert FirstDeclaring(cat, "foo") == None;
    assert DType(cat, foo) == Ok(None);
    assert Contains("a.food", "foo") by {
      assert "a.food"[1..][1..] == "a.food"[2..];
      assert IsPrefix("foo", "a.food"[2..]);
    }
    assert FirstContaining(labels, "foo") == Some(0);
    assert GenColName(LikeFilter, cat, labels, foo) == Ok("a.food");
    assert Lookup(labels, "a.food") == Ok(0);
    assert GenColName(DeclaringTable, cat, labels, foo) == Err(IndexError);
    var clause := Clause(Eq, foo, foo);
    assert [clause][1..] == [];
    assert ResolveClause(LikeFilter, cat, labels, clause) == Ok(Condition(Eq, 0, 0));
    assert CheckClause(cat, clause) == Pass;
    assert ResolveAll(LikeFilter, cat, labels, []) == Ok([]);
    assert [Condition(Eq, 0, 0)] + [] == [Condition(Eq, 0, 0)];
    assert ResolveClause(DeclaringTable, cat, labels, clause) == Err(IndexError);
    assert ResolveAll(DeclaringTable, cat, labels, [clause]) == Err(IndexError);
  }

  /** The type check lets two operands through when neither names a declared column, since both
      types are missing and so equal; resolving them then raises IndexError, whichever lookup is
      used. */
  lemma UnknownOperandsPassCheck()
    ensures var cat := [TableState("a", ["a.x"], map["x" := "int"], [], false)];
      var clause := Clause(Eq, Column(ColumnRef("", "foo")), Column(ColumnRef("", "bar")));
      && CheckClause(cat, clause) == Pass
      && ResolveAll(LikeFilter, cat, ["a.x"], [clause]) == Err(IndexError)
      && ResolveAll(DeclaringTable, cat, ["a.x"], [clause]) == Err(IndexError)
  {
    var cat := [TableState("a", ["a.x"], map["x" := "int"], [], false)];
    var foo, bar := Column(ColumnRef("", "foo")), Column(ColumnRef("", "bar"));
    assert "foo" !in cat[0].dataTypes && "bar" !in cat[0].dataTypes;
    assert FirstDeclaring(cat, "foo") == None && FirstDeclaring(cat, "bar") == None;
    assert DType(cat, foo) == Ok(None) && DType(cat, bar) == Ok(None);
    assert !Contains("a.x", "foo") by {
      assert "a.x"[..3][0] != "foo"[0];
      ContainsLength("a.x"[1..], "foo");
    }
    assert FirstContaining(["a.x"], "foo") == None;
  }

  /** Under the intended clause check, every column-versus-column clause that passed resolves
      against the cross product's labels: no IndexError is left for `__where` to raise. */
  lemma IntendedCheckResolves(inference: Inference, cat: Catalog, where: seq<Clause>)
    requires CatalogWellFormed(cat)
    requires forall k :: 0 <= k < |where| ==> where[k].left.Column? && where[k].right.Column?
    requires forall k :: 0 <= k < |where| ==> CheckClauseIntended(cat, where[k]) == Pass
    ensures ResolveAll(inference, cat, AllLabels(cat), where).Ok?
  {
    forall k | 0 <= k < |where|
      ensures DeclaredSomewhere(cat, where[k].left.column) && DeclaredSomewhere(cat, where[k].right.column)
    {
      IntendedCheckDeclares(cat, where[k]);
    }
    WhereResolves(inference, cat, where);
  }

  /** There is nothing left to raise in `__where` once every column operand of the remaining clauses
      is declared where it points: each reference resolves to a label of the cross product. */
  lemma {:induction false} WhereResolves(inference: Inference, cat: Catalog, where: seq<Clause>)
    requires CatalogWellFormed(cat)
    requires forall k :: 0 <= k < |where| ==> where[k].left.Column? && where[k].right.Column?
    requires forall k :: 0 <= k < |where| ==>
      DeclaredSomewhere(cat, where[k].left.column) && DeclaredSomewhere(cat, where[k].right.column)
    ensures ResolveAll(inference, cat, AllLabels(cat), where).Ok?
    decreases |where|
  {
    if where != [] {
      OperandResolves(inference, cat, where[0].left.column);
      OperandResolves(inference, cat, where[0].right.column);
      WhereResolves(inference, cat, where[1..]);
    }
  }

  /** A column reference declared where it points names a label of the cross product. */
  lemma OperandResolves(inference: Inference, cat: Catalog, c: ColumnRef)
    requires CatalogWellFormed(cat) && DeclaredSomewhere(cat, c)
    ensures var r := GenColName(inference, cat, AllLabels(cat), Column(c)); r.Ok? && r.value in AllLabels(cat)
  {
    if Aliased(c) {
      var i :| 0 <= i < |cat| && cat[i].alias == c.table && c.name in cat[i].dataTypes;
      DeclaredLabel(cat, i, c.name);
      AllLabelsAt(cat, i, IndexOf(cat[i].labels, Qualify(c.table, c.name)));
    } else if inference == LikeFilter {
      var i :| 0 <= i < |cat| && c.name in cat[i].dataTypes;
      DeclaredLabel(cat, i, c.name);
      var p := Offset(cat, i) + IndexOf(cat[i].labels, Qualify(cat[i].alias, c.name));
      AllLabelsAt(cat, i, IndexOf(cat[i].labels, Qualify(cat[i].alias, c.name)));
      QualifiedContains(cat[i].alias, c.name);
      assert Contains(AllLabels(cat)[p], c.name);
    } else {
      ResolveUnaliasedFound(cat, c.name);
      ResolveUnaliasedAt(cat, c.name);
    }
  }

  // ---------------------------------------------------------------------------------------------
  // The SELECT projection

  /** `data.rename(columns={from: to})`: every label equal to `from` becomes `to`; renaming a label
      that is not there changes nothing. */
  function Rename(labels: seq<string>, from: string, to: string): (r: seq<string>)
    ensures |r| == |labels|
  {
    seq(|labels|, j requires 0 <= j < |labels| => if labels[j] == from then to else labels[j])
  }

  /** The renames of the SELECT loop, one after the other. */
  function RenameAll(labels: seq<string>, targets: seq<string>, names: seq<string>): (r: seq<string>)
    requires |targets| == |names|
    ensures |r| == |labels|
  {
    if targets == [] then labels
    else
      var n := |targets| - 1;
      Rename(RenameAll(labels, targets[..n], names[..n]), targets[n], names[n])
  }

  /** A label that no rename targets keeps its place; every other place holds one of the new names. */
  lemma {:induction false} RenameAllKeeps(labels: seq<string>, targets: seq<string>, names: seq<string>, j: nat)
    requires |targets| == |names| && j < |labels|
    ensures var r := RenameAll(labels, targets, names);
      && (labels[j] !in targets ==> r[j] == labels[j])
      && (r[j] == labels[j] || r[j] in names)
  {
    if targets != [] {
      var n := |targets| - 1;
      RenameAllKeeps(labels, targets[..n], names[..n], j);
      var prev := RenameAll(labels, targets[..n], names[..n]);
      if prev[j] != labels[j] {
        var k :| 0 <= k < n && names[..n][k] == prev[j];
        assert names[k] == prev[j];
      }
    }
  }

  /** The label each SELECT item renames: `table.name` for an aliased item, otherwise the label
      `inference` finds among the labels as the earlier items have renamed them; the first item that
      cannot be resolved decides the error. */
  function SelectTargets(inference: Inference, cat: Catalog, labels: seq<string>, select: seq<SelectItem>): (r: Result<seq<string>>)
    ensures r.Ok? ==> |r.value| == |select|
  {
    if select == [] then Ok([])
    else
      var n := |select| - 1;
      match SelectTargets(inference, cat, labels, select[..n])
      case Err(e) => Err(e)
      case Ok(ts) =>
        match GenColName(inference, cat, RenameAll(labels, ts, AsNames(select[..n])), Column(select[n].column))
        case Err(e) => Err(e)
        case Ok(l) => Ok(ts + [l])
  }

  /** The targets of a prefix of the SELECT list are the prefix of its targets. */
  lemma {:induction false} SelectTargetsPrefix(inference: Inference, cat: Catalog, labels: seq<string>, select: seq<SelectItem>, n: nat)
    requires n <= |select| && SelectTargets(inference, cat, labels, select).Ok?
    ensures SelectTargets(inference, cat, labels, select[..n]) == Ok(SelectTargets(inference, cat, labels, select).value[..n])
    decreases |select|
  {
    var ts := SelectTargets(inference, cat, labels, select).value;
    if n == |select| {
      WholePrefix(select);
      WholePrefix(ts);
    } else {
      var m := |select| - 1;
      var front := SelectTargets(inference, cat, labels, select[..m]).value;
      var l := GenColName(inference, cat, RenameAll(labels, front, AsNames(select[..m])), Column(select[m].column)).value;
      SelectTargetsPrefix(inference, cat, labels, select[..m], n);
      PrefixPrefix(select, n, m);
      AppendPrefix(front, [l], n);
    }
  }

  /** Item `k` renames the label its lookup finds among the labels the first `k` items left. */
  lemma SelectTargetAt(inference: Inference, cat: Catalog, labels: seq<string>, select: seq<SelectItem>, k: nat)
    requires k < |select| && SelectTargets(inference, cat, labels, select).Ok?
    ensures var ts := SelectTargets(inference, cat, labels, select).value;
      GenColName(inference, cat, RenameAll(labels, ts[..k], AsNames(select[..k])), Column(select[k].column)) == Ok(ts[k])
  {
    var ts := SelectTargets(inference, cat, labels, select).value;
    SelectTargetsPrefix(inference, cat, labels, select, k + 1);
    SelectTargetsPrefix(inference, cat, labels, select, k);
    PrefixPrefix(select, k, k + 1);
    assert select[..k + 1][k] == select[k];
    PrefixSnoc(ts, k);
  }

  /** Every position holding `key`, in increasing order: what `data[key]` selects when labels repeat. */
  function Positions(labels: seq<string>, key: string): (r: seq<nat>)
    ensures forall k :: 0 <= k < |r| ==> r[k] < |labels| && labels[r[k]] == key
    ensures forall j :: 0 <= j < |labels| && labels[j] == key ==> j in r
    ensures forall a, b :: 0 <= a < b < |r| ==> r[a] < r[b]
  {
    if labels == [] then []
    else
      var n := |labels| - 1;
      Positions(labels[..n], key) + (if labels[n] == key then [n] else [])
  }

  /** `data[selectedColumns]`: the positions of the selected labels, key by key; KeyError for a key
      that is not a label. */
  function Picks(labels: seq<string>, keys: seq<string>): (r: Result<seq<nat>>)
    ensures r.Ok? <==> forall k :: 0 <= k < |keys| ==> keys[k] in labels
    ensures r.Ok? ==> forall k :: 0 <= k < |r.value| ==> r.value[k] < |labels| && labels[r.value[k]] in keys
  {
    if keys == [] then Ok([])
    else if keys[0] !in labels then Err(KeyError(keys[0]))
    else match Picks(labels, keys[1..])
      case Err(e) => Err(e)
      case Ok(ps) => Ok(Positions(labels, keys[0]) + ps)
  }

  /** The cells of `row` at the positions `ps`, in that order. */
  function Gather<T>(row: seq<T>, ps: seq<nat>): (r: seq<T>)
    requires forall k :: 0 <= k < |ps| ==> ps[k] < |row|
    ensures |r| == |ps|
  {
    seq(|ps|, k requires 0 <= k < |ps| => row[ps[k]])
  }

  /** `__select`: rename each selected column to its `as` name, then keep the renamed columns in
      SELECT order. */
  function Project(inference: Inference, cat: Catalog, rel: Relation, select: seq<SelectItem>): (r: Result<Relation>)
    requires RelationWellFormed(rel)
    ensures r.Ok? ==> RelationWellFormed(r.value) && |r.value.rows| == |rel.rows|
    ensures r.Ok? ==> forall k :: 0 <= k < |r.value.labels| ==> r.value.labels[k] in AsNames(select)
  {
    match SelectTargets(inference, cat, rel.labels, select)
    case Err(e) => Err(e)
    case Ok(ts) =>
      var ls := RenameAll(rel.labels, ts, AsNames(select));
      match Picks(ls, AsNames(select))
      case Err(e) => Err(e)
      case Ok(ps) => Ok(Relation(Gather(ls, ps), seq(|rel.rows|, j requires 0 <= j < |rel.rows| => Gather(rel.rows[j], ps))))
  }

  /** Without repeated labels a present key is selected at its one position. */
  lemma {:induction false} PositionsDistinct(labels: seq<string>, key: string)
    requires Distinct(labels) && key in labels
    ensures Positions(labels, key) == [IndexOf(labels, key)]
  {
    var n := |labels| - 1;
    var front := labels[..n];
    if labels[n] == key {
      assert key !in front;
      PositionsAbsent(front, key);
      IndexOfDistinct(labels, n);
    } else {
      assert key in front by {
        var p := IndexOf(labels, key);
        assert p != n && front[p] == key;
      }
      PositionsDistinct(front, key);
      PrefixIndexOf(labels, n, key);
    }
  }

  /** A name that is not a label selects nothing. */
  lemma {:induction false} PositionsAbsent(labels: seq<string>, key: string)
    requires key !in labels
    ensures Positions(labels, key) == []
  {
    if labels != [] {
      var n := |labels| - 1;
      assert labels[..n] + [labels[n]] == labels;
      PositionsAbsent(labels[..n], key);
    }
  }

  /** A value found in a prefix is found at the same position in the whole sequence. */
  lemma PrefixIndexOf(s: seq<string>, n: nat, x: string)
    requires n <= |s| && x in s[..n]
    ensures IndexOf(s, x) == IndexOf(s[..n], x)
  {
    var p := IndexOf(s[..n], x);
    var q := IndexOf(s, x);
    assert s[p] == x;
    assert q <= p;
    assert s[..n][q] == x;
  }

  /** A failing selection reports the first selected name that is not a label. */
  lemma {:induction false} PicksMissing(labels: seq<string>, keys: seq<string>) returns (k: nat)
    requires Picks(labels, keys).Err?
    ensures k < |keys| && keys[k] !in labels && Picks(labels, keys).error == KeyError(keys[k])
    ensures forall m :: 0 <= m < k ==> keys[m] in labels
  {
    if keys[0] !in labels {
      k := 0;
    } else {
      var k' := PicksMissing(labels, keys[1..]);
      k := k' + 1;
      forall m | 0 <= m < k
        ensures keys[m] in labels
      {
        if m > 0 {
          assert keys[m] == keys[1..][m - 1];
        }
      }
    }
  }

  /** Without repeated labels every selected name gives exactly one column: its own. */
  lemma {:induction false} PicksDistinct(labels: seq<string>, keys: seq<string>)
    requires Distinct(labels) && forall k :: 0 <= k < |keys| ==> keys[k] in labels
    ensures Picks(labels, keys).Ok? && |Picks(labels, keys).value| == |keys|
    ensures forall k :: 0 <= k < |keys| ==> Picks(labels, keys).value[k] == IndexOf(labels, keys[k])
  {
    if keys != [] {
      var tail := keys[1..];
      assert forall k :: 0 <= k < |tail| ==> tail[k] == keys[k + 1];
      PicksDistinct(labels, tail);
      PositionsDistinct(labels, keys[0]);
      var ps := Picks(labels, tail).value;
      var r := Picks(labels, keys).value;
      assert r == [IndexOf(labels, keys[0])] + ps;
      forall k | 0 <= k < |keys|
        ensures r[k] == IndexOf(labels, keys[k])
      {
        if k > 0 {
          assert r[k] == ps[k - 1] && tail[k - 1] == keys[k];
        }
      }
    }
  }

  /** The renames of a SELECT list are plain when every selected column is a distinct existing
      label and every output name is distinct and not already a label. */
  predicate PlainRenames(labels: seq<string>, targets: seq<string>, names: seq<string>)
  {
    && |targets| == |names|
    && Distinct(labels) && Distinct(targets) && Distinct(names)
    && (forall k :: 0 <= k < |targets| ==> targets[k] in labels)
    && (forall k :: 0 <= k < |names| ==> names[k] !in labels)
  }

  /** Plain renames give each selected column its output name, leave every other label as it was,
      and create no repeated label. */
  lemma {:induction false} RenameAllPlain(labels: seq<string>, targets: seq<string>, names: seq<string>)
    requires PlainRenames(labels, targets, names)
    ensures var r := RenameAll(labels, targets, names);
      && Distinct(r)
      && (forall k :: 0 <= k < |targets| ==> r[IndexOf(labels, targets[k])] == names[k])
      && (forall j :: 0 <= j < |labels| && labels[j] !in targets ==> r[j] == labels[j])
  {
    if targets != [] {
      var n := |targets| - 1;
      assert PlainRenames(labels, targets[..n], names[..n]);
      RenameAllPlain(labels, targets[..n], names[..n]);
      RenameLast(labels, targets, names, RenameAll(labels, targets[..n], names[..n]));
    }
  }

  /** The last plain rename, given what the earlier ones did. */
  lemma RenameLast(labels: seq<string>, targets: seq<string>, names: seq<string>, prev: seq<string>)
    requires PlainRenames(labels, targets, names) && targets != []
    requires var n := |targets| - 1;
      && |prev| == |labels| && Distinct(prev)
      && (forall k :: 0 <= k < n ==> prev[IndexOf(labels, targets[k])] == names[k])
      && (forall j :: 0 <= j < |labels| && labels[j] !in targets[..n] ==> prev[j] == labels[j])
    ensures var n := |targets| - 1;
      var r := Rename(prev, targets[n], names[n]);
      && Distinct(r)
      && (forall k :: 0 <= k < |targets| ==> r[IndexOf(labels, targets[k])] == names[k])
      && (forall j :: 0 <= j < |labels| && labels[j] !in targets ==> r[j] == labels[j])
  {
    var n := |targets| - 1;
    var r := Rename(prev, targets[n], names[n]);
    var p := IndexOf(labels, targets[n]);
    assert labels[p] !in targets[..n];
    forall j | 0 <= j < |labels|
      ensures j != p ==> prev[j] != targets[n] && prev[j] != names[n]
      ensures j != p ==> r[j] == prev[j]
    {
      if labels[j] in targets[..n] {
        var k :| 0 <= k < n && targets[..n][k] == labels[j];
        IndexOfDistinct(labels, j);
        assert prev[j] == names[k];
      }
    }
    assert r[p] == names[n];
    forall k | 0 <= k < n
      ensures r[IndexOf(labels, targets[k])] == names[k]
    {
      assert targets[k] != targets[n];
    }
    forall j | 0 <= j < |labels| && labels[j] !in targets
      ensures r[j] == labels[j]
    {
      assert labels[j] !in targets[..n];
    }
  }

  /** With plain renames the projection has exactly the `as` names, in SELECT order, and column `k`
      of every row is the cell of the column the `k`-th item selects. */
  lemma ProjectPlain(inference: Inference, cat: Catalog, rel: Relation, select: seq<SelectItem>)
    requires RelationWellFormed(rel) && SelectTargets(inference, cat, rel.labels, select).Ok?
    requires PlainRenames(rel.labels, SelectTargets(inference, cat, rel.labels, select).value, AsNames(select))
    ensures Project(inference, cat, rel, select).Ok?
    ensures var out := Project(inference, cat, rel, select).value;
      var ts := SelectTargets(inference, cat, rel.labels, select).value;
      && out.labels == AsNames(select)
      && |out.rows| == |rel.rows|
      && forall j, k :: 0 <= j < |rel.rows| && 0 <= k < |select| ==>
           out.rows[j][k] == rel.rows[j][IndexOf(rel.labels, ts[k])]
  {
    var ts := SelectTargets(inference, cat, rel.labels, select).value;
    var names := AsNames(select);
    var ls := RenameAll(rel.labels, ts, names);
    PlainPicks(rel.labels, ts, names);
    var ps := Picks(ls, names).value;
    ProjectPicked(inference, cat, rel, select);
    assert Gather(ls, ps) == names;
  }

  /** A projection whose names are all found keeps, in every row, the cells at the picked positions. */
  lemma ProjectPicked(inference: Inference, cat: Catalog, rel: Relation, select: seq<SelectItem>)
    requires RelationWellFormed(rel) && SelectTargets(inference, cat, rel.labels, select).Ok?
    requires Picks(RenameAll(rel.labels, SelectTargets(inference, cat, rel.labels, select).value, AsNames(select)), AsNames(select)).Ok?
    ensures var ls := RenameAll(rel.labels, SelectTargets(inference, cat, rel.labels, select).value, AsNames(select));
      var ps := Picks(ls, AsNames(select)).value;
      var out := Project(inference, cat, rel, select);
      && out.Ok?
      && out.value.labels == Gather(ls, ps)
      && |out.value.rows| == |rel.rows|
      && forall j, k :: 0 <= j < |rel.rows| && 0 <= k < |ps| ==> out.value.rows[j][k] == rel.rows[j][ps[k]]
  {
  }

  /** After plain renames, selecting the output names picks the selected columns, in order. */
  lemma PlainPicks(labels: seq<string>, targets: seq<string>, names: seq<string>)
    requires PlainRenames(labels, targets, names)
    ensures var ls := RenameAll(labels, targets, names);
      && Picks(ls, names).Ok? && |Picks(ls, names).value| == |names|
      && forall k :: 0 <= k < |names| ==>
           Picks(ls, names).value[k] == IndexOf(labels, targets[k]) && ls[IndexOf(labels, targets[k])] == names[k]
  {
    var ls := RenameAll(labels, targets, names);
    RenameAllPlain(labels, targets, names);
    forall k | 0 <= k < |names|
      ensures names[k] in ls && IndexOf(ls, names[k]) == IndexOf(labels, targets[k])
    {
      IndexOfDistinct(ls, IndexOf(labels, targets[k]));
    }
    PicksDistinct(ls, names);
  }

  /** The filter over the labels renamed so far finds each unaliased item's intended column: the SELECT
      list as intended resolves without selecting a column twice, and for every unaliased item only
      the declared column among the labels contains its name, and no `as` name does. */
  predicate SelectUnambiguous(cat: Catalog, labels: seq<string>, select: seq<SelectItem>)
  {
    && SelectTargets(DeclaringTable, cat, labels, select).Ok?
    && Distinct(SelectTargets(DeclaringTable, cat, labels, select).value)
    && forall k :: 0 <= k < |select| && !Aliased(select[k].column) ==>
         && FilterFindsDeclared(cat, labels, select[k].column.name)
         && forall m :: 0 <= m < |select| ==> !Contains(select[m].asName, select[k].column.name)
  }

  /** Renaming other labels to names that do not contain `name` keeps `l` the only label containing it. */
  lemma RenameKeepsOnlyMatch(labels: seq<string>, targets: seq<string>, names: seq<string>, name: string, l: string)
    requires |targets| == |names| && l in labels && l !in targets
    requires forall j :: 0 <= j < |labels| && Contains(labels[j], name) ==> labels[j] == l
    requires forall k :: 0 <= k < |names| ==> !Contains(names[k], name)
    ensures var r := RenameAll(labels, targets, names);
      l in r && forall j :: 0 <= j < |r| && Contains(r[j], name) ==> r[j] == l
  {
    var r := RenameAll(labels, targets, names);
    RenameAllKeeps(labels, targets, names, IndexOf(labels, l));
    forall j | 0 <= j < |r| && Contains(r[j], name)
      ensures r[j] == l
    {
      RenameAllKeeps(labels, targets, names, j);
    }
  }

  /** Each of the first `n` SELECT items, looked up among the labels the items before it left, finds
      its own entry of `ts`. */
  predicate ItemsFound(inference: Inference, cat: Catalog, labels: seq<string>, select: seq<SelectItem>, ts: seq<string>, n: nat)
    requires |ts| == |select| && n <= |select|
    decreases n
  {
    n == 0 || (
      && ItemsFound(inference, cat, labels, select, ts, n - 1)
      && GenColName(inference, cat, RenameAll(labels, ts[..n - 1], AsNames(select[..n - 1])), Column(select[n - 1].column)) == Ok(ts[n - 1]))
  }

  /** The SELECT list resolves to `ts` when each item finds its own entry of `ts`. */
  lemma {:induction false} SelectTargetsFromItems(inference: Inference, cat: Catalog, labels: seq<string>,
                                                  select: seq<SelectItem>, ts: seq<string>, n: nat)
    requires |ts| == |select| && n <= |select| && ItemsFound(inference, cat, labels, select, ts, n)
    ensures SelectTargets(inference, cat, labels, select[..n]) == Ok(ts[..n])
    decreases n
  {
    if n == 0 {
      assert select[..n] == [];
    } else {
      var m := n - 1;
      SelectTargetsFromItems(inference, cat, labels, select, ts, m);
      SelectTargetsSnoc(inference, cat, labels, select, m, ts[..m], ts[m]);
      PrefixSnoc(ts, m);
    }
  }

  /** Under that condition every SELECT item, as written, finds the label it finds as intended. */
  lemma {:induction false} ItemsAgree(cat: Catalog, labels: seq<string>, select: seq<SelectItem>, n: nat)
    requires n <= |select| && SelectUnambiguous(cat, labels, select)
    ensures ItemsFound(LikeFilter, cat, labels, select, SelectTargets(DeclaringTable, cat, labels, select).value, n)
    decreases n
  {
    if n > 0 {
      ItemsAgree(cat, labels, select, n - 1);
      SelectItemAgrees(cat, labels, select, n - 1);
    }
  }

  /** Under that condition the SELECT items find, as written, the labels they find as intended. */
  lemma SelectTargetsAgree(cat: Catalog, labels: seq<string>, select: seq<SelectItem>)
    requires SelectUnambiguous(cat, labels, select)
    ensures SelectTargets(LikeFilter, cat, labels, select) == SelectTargets(DeclaringTable, cat, labels, select)
  {
    var ts := SelectTargets(DeclaringTable, cat, labels, select).value;
    ItemsAgree(cat, labels, select, |select|);
    SelectTargetsFromItems(LikeFilter, cat, labels, select, ts, |select|);
    assert select[..|select|] == select && ts[..|select|] == ts;
  }

  /** One more SELECT item: the targets so far, then the label it finds. */
  lemma SelectTargetsSnoc(inference: Inference, cat: Catalog, labels: seq<string>, select: seq<SelectItem>, m: nat,
                          ts: seq<string>, t: string)
    requires m < |select| && SelectTargets(inference, cat, labels, select[..m]) == Ok(ts)
    requires GenColName(inference, cat, RenameAll(labels, ts, AsNames(select[..m])), Column(select[m].column)) == Ok(t)
    ensures SelectTargets(inference, cat, labels, select[..m + 1]) == Ok(ts + [t])
  {
    PrefixPrefix(select, m, m + 1);
    assert select[..m + 1][m] == select[m];
  }

  /** Under that condition item `m`, looked up by the filter among the labels the intended lookup
      left after the first `m` items, finds its intended label. */
  lemma SelectItemAgrees(cat: Catalog, labels: seq<string>, select: seq<SelectItem>, m: nat)
    requires m < |select| && SelectUnambiguous(cat, labels, select)
    ensures var ts := SelectTargets(DeclaringTable, cat, labels, select).value;
      GenColName(LikeFilter, cat, RenameAll(labels, ts[..m], AsNames(select[..m])), Column(select[m].column)) == Ok(ts[m])
  {
    var ts := SelectTargets(DeclaringTable, cat, labels, select).value;
    SelectTargetAt(DeclaringTable, cat, labels, select, m);
    var c := select[m].column;
    if !Aliased(c) {
      var names := AsNames(select[..m]);
      assert ts[m] !in ts[..m] by {
        forall k | 0 <= k < m
          ensures ts[..m][k] != ts[m]
        {
          assert ts[..m][k] == ts[k];
        }
      }
      assert forall k :: 0 <= k < |names| ==> !Contains(names[k], c.name) by {
        forall k | 0 <= k < |names|
          ensures !Contains(names[k], c.name)
        {
          assert names[k] == select[k].asName;
        }
      }
      RenameKeepsOnlyMatch(labels, ts[..m], names, c.name, ts[m]);
      LikeFilterAgrees(cat, RenameAll(labels, ts[..m], names), c.name);
    }
  }

  /** Under that condition the projection as written equals the projection as intended. */
  lemma ProjectAgrees(cat: Catalog, rel: Relation, select: seq<SelectItem>)
    requires RelationWellFormed(rel) && SelectUnambiguous(cat, rel.labels, select)
    ensures Project(LikeFilter, cat, rel, select) == Project(DeclaringTable, cat, rel, select)
  {
    SelectTargetsAgree(cat, rel.labels, select);
  }

  /** The SELECT loop as written can rename a column away before the projection reads it: in a
      table `a` with columns `x` and `y`, `SELECT x AS y, y AS z` renames `a.x` to `y`, the filter
      then finds that renamed `y` and renames it to `z`, so `data[['y', 'z']]` raises KeyError('y'). */
  lemma SelectRenamesAway()
    ensures Project(LikeFilter, [TableState("a", ["a.x", "a.y"], map["x" := "int", "y" := "int"], [], false)],
                    Relation(["a.x", "a.y"], []),
                    [SelectItem(ColumnRef("", "x"), "y"), SelectItem(ColumnRef("", "y"), "z")])
         == Err(KeyError("y"))
  {
    var cat := [TableState("a", ["a.x", "a.y"], map["x" := "int", "y" := "int"], [], false)];
    var select := [SelectItem(ColumnRef("", "x"), "y"), SelectItem(ColumnRef("", "y"), "z")];
    var labels := ["a.x", "a.y"];
    var renamed := RenameFirstItem(labels, select);
    assert Contains("a.x", "x") by {
      ContainsSuffix("a.", "x");
    }
    assert Contains("y", "y") by {
      assert IsPrefix("y", "y");
    }
    assert GenColName(LikeFilter, cat, labels, Column(select[0].column)) == Ok("a.x") by {
      assert FirstContaining(labels, "x") == Some(0);
    }
    SelectTargetsSnoc(LikeFilter, cat, labels, select, 0, [], "a.x");
    assert [] + ["a.x"] == ["a.x"];
    assert GenColName(LikeFilter, cat, renamed, Column(select[1].column)) == Ok("y") by {
      assert FirstContaining(renamed, "y") == Some(0);
    }
    SelectTargetsSnoc(LikeFilter, cat, labels, select, 1, ["a.x"], "y");
    WholePrefix(select);
    RenameSecondItem(labels, select, renamed, ["a.x"], "y");
    assert Rename(renamed, "y", "z") == ["z", "a.y"];
  }

  /** On the same query the declaring-table lookup renames `a.y`, and both columns are read. */
  lemma SelectRenamesIntended()
    ensures Project(DeclaringTable, [TableState("a", ["a.x", "a.y"], map["x" := "int", "y" := "int"], [], false)],
                    Relation(["a.x", "a.y"], []),
                    [SelectItem(ColumnRef("", "x"), "y"), SelectItem(ColumnRef("", "y"), "z")])
         == Ok(Relation(["y", "z"], []))
  {
    var cat := [TableState("a", ["a.x", "a.y"], map["x" := "int", "y" := "int"], [], false)];
    var select := [SelectItem(ColumnRef("", "x"), "y"), SelectItem(ColumnRef("", "y"), "z")];
    var labels := ["a.x", "a.y"];
    var renamed := IntendedTargets(cat, labels, select);
    RenameSecondItem(labels, select, renamed, ["a.x"], "a.y");
    assert Rename(renamed, "a.y", "z") == ["y", "z"];
    PicksPair("y", "z");
  }

  /** The labels the declaring-table lookup finds for that query: `a.x`, then `a.y`. */
  lemma IntendedTargets(cat: Catalog, labels: seq<string>, select: seq<SelectItem>) returns (renamed: seq<string>)
    requires cat == [TableState("a", ["a.x", "a.y"], map["x" := "int", "y" := "int"], [], false)]
    requires labels == ["a.x", "a.y"]
    requires select == [SelectItem(ColumnRef("", "x"), "y"), SelectItem(ColumnRef("", "y"), "z")]
    ensures renamed == ["y", "a.y"] && RenameAll(labels, ["a.x"], AsNames(select[..1])) == renamed
    ensures SelectTargets(DeclaringTable, cat, labels, select) == Ok(["a.x", "a.y"])
  {
    renamed := RenameFirstItem(labels, select);
    assert FirstDeclaring(cat, "x") == Some(0) && FirstDeclaring(cat, "y") == Some(0);
    assert Qualify("a", "x") == "a.x" && Qualify("a", "y") == "a.y";
    assert GenColName(DeclaringTable, cat, labels, Column(select[0].column)) == Ok("a.x");
    SelectTargetsSnoc(DeclaringTable, cat, labels, select, 0, [], "a.x");
    assert [] + ["a.x"] == ["a.x"];
    assert GenColName(DeclaringTable, cat, renamed, Column(select[1].column)) == Ok("a.y");
    SelectTargetsSnoc(DeclaringTable, cat, labels, select, 1, ["a.x"], "a.y");
    WholePrefix(select);
    assert ["a.x"] + ["a.y"] == ["a.x", "a.y"];
  }

  /** Selecting two distinct labels in their own order reads them in place. */
  lemma PicksPair(a: string, b: string)
    requires a != b
    ensures Picks([a, b], [a, b]) == Ok([0, 1]) && Gather([a, b], [0, 1]) == [a, b]
  {
    var ls := [a, b];
    assert Distinct(ls);
    PicksDistinct(ls, ls);
    var ps := Picks(ls, ls).value;
    assert IndexOf(ls, a) == 0 && IndexOf(ls, b) == 1;
    assert ps == [0, 1] by {
      assert ps[0] == 0 && ps[1] == 1;
    }
    var g := Gather(ls, [0, 1]);
    assert g[0] == a && g[1] == b;
  }

  /** The first rename of that query, shared by both lookups: `a.x` becomes `y`. */
  lemma RenameFirstItem(labels: seq<string>, select: seq<SelectItem>) returns (renamed: seq<string>)
    requires labels == ["a.x", "a.y"]
    requires select == [SelectItem(ColumnRef("", "x"), "y"), SelectItem(ColumnRef("", "y"), "z")]
    ensures renamed == ["y", "a.y"]
    ensures select[..0] == [] && RenameAll(labels, [], AsNames(select[..0])) == labels
    ensures RenameAll(labels, ["a.x"], AsNames(select[..1])) == renamed
  {
    renamed := ["y", "a.y"];
    assert select[..0] == [];
    assert select[..1] == [select[0]];
    assert ["a.x"][..0] == [] && ["y"][..0] == [];
  }

  /** The second rename of that query, of whichever label the lookup found for `y`. */
  lemma RenameSecondItem(labels: seq<string>, select: seq<SelectItem>, renamed: seq<string>, ts: seq<string>, t: string)
    requires select == [SelectItem(ColumnRef("", "x"), "y"), SelectItem(ColumnRef("", "y"), "z")]
    requires ts == ["a.x"] && RenameAll(labels, ts, AsNames(select[..1])) == renamed
    ensures AsNames(select) == ["y", "z"]
    ensures RenameAll(labels, ts + [t], AsNames(select)) == Rename(renamed, t, "z")
  {
    assert select[..1] == [select[0]];
    assert (ts + [t])[..1] == ts;
    assert AsNames(select)[..1] == AsNames(select[..1]);
  }

  // ---------------------------------------------------------------------------------------------
  // The response of `run`

  /** What `run` returns: the header of (label, type name) pairs with the rows; the error message
      of a rejected query; or a Python exception that escapes instead. */
  datatype Response =
    | Success(header: seq<(string, string)>, rows: seq<Row>)
    | Failure(message: string)
    | Raised(exception: Exception)

  /** The result assembly of `run`: one header entry per cell of the first row, typed by that cell,
      then the rows; `data[0]` of an empty result raises IndexError. */
  function Assemble(rel: Relation): (r: Response)
    requires RelationWellFormed(rel)
    ensures r.Success? <==> |rel.rows| > 0
    ensures r.Success? ==> |r.header| == |rel.labels| && r.rows == rel.rows
    ensures r.Raised? ==> r.exception == IndexError
  {
    if |rel.rows| == 0 then Raised(IndexError)
    else Success(seq(|rel.rows[0]|, i requires 0 <= i < |rel.rows[0]| => (rel.labels[i], TypeName(rel.rows[0][i]))), rel.rows)
  }

  /** Every column holds cells of one type. */
  predicate ColumnsTyped(rel: Relation)
  {
    forall j, i :: 0 <= j < |rel.rows| && 0 <= i < |rel.rows[j]| && 0 < |rel.rows| && i < |rel.rows[0]| ==>
      TypeName(rel.rows[j][i]) == TypeName(rel.rows[0][i])
  }

  /** The header names the columns in order, and when every column holds one type, the type it
      gives each column is the type of every cell of that column. */
  lemma AssembleHeader(rel: Relation)
    requires RelationWellFormed(rel) && |rel.rows| > 0
    ensures var r := Assemble(rel);
      && (forall i :: 0 <= i < |r.header| ==> r.header[i].0 == rel.labels[i])
      && (ColumnsTyped(rel) ==> forall j, i :: 0 <= j < |r.rows| && 0 <= i < |r.header| ==>
            TypeName(r.rows[j][i]) == r.header[i].1)
  {
  }

  /** Evaluation of the optimised query: cross product, the remaining WHERE clauses, the projection,
      the assembly. An exception at any stage escapes. */
  function Evaluate(inference: Inference, cat: Catalog, select: seq<SelectItem>, where: seq<Clause>): Response
    requires AllAligned(cat)
  {
    CrossProductSpec(cat);
    match CrossProduct(cat)
    case Err(e) => Raised(e)
    case Ok(rel) =>
      match ApplyWhere(inference, cat, rel, where)
      case Err(e) => Raised(e)
      case Ok(filtered) =>
        ApplyWhereAligned(inference, cat, rel, where);
        match Project(inference, cat, filtered, select)
        case Err(e) => Raised(e)
        case Ok(out) => Assemble(out)
  }

  /** A query with plain renames: the header carries the `as` names in SELECT order, there is one
      output row per cross-product row satisfying every WHERE condition, in order, and its `k`-th
      cell is that row's cell in the column the `k`-th item selects. */
  lemma EvaluatePlain(inference: Inference, cat: Catalog, select: seq<SelectItem>, where: seq<Clause>)
    requires AllAligned(cat) && |cat| >= 1 && !RelabelFails(cat)
    requires ResolveAll(inference, cat, AllLabels(cat), where).Ok? && SelectTargets(inference, cat, AllLabels(cat), select).Ok?
    requires PlainRenames(AllLabels(cat), SelectTargets(inference, cat, AllLabels(cat), select).value, AsNames(select))
    requires |KeepAll(ProductAll(cat), ResolveAll(inference, cat, AllLabels(cat), where).value)| > 0
    ensures var r := Evaluate(inference, cat, select, where);
      var kept := KeepAll(ProductAll(cat), ResolveAll(inference, cat, AllLabels(cat), where).value);
      var ts := SelectTargets(inference, cat, AllLabels(cat), select).value;
      && r.Success?
      && |r.header| == |select| && (forall k :: 0 <= k < |select| ==> r.header[k].0 == select[k].asName)
      && |r.rows| == |kept|
      && (forall j :: 0 <= j < |kept| ==> |kept[j]| == |AllLabels(cat)|)
      && forall j, k :: 0 <= j < |kept| && 0 <= k < |select| ==>
           r.rows[j][k] == kept[j][IndexOf(AllLabels(cat), ts[k])]
  {
    CrossProductSpec(cat);
    var rel := CrossProduct(cat).value;
    ApplyWhereSpec(inference, cat, rel, where);
    ApplyWhereAligned(inference, cat, rel, where);
    var filtered := ApplyWhere(inference, cat, rel, where).value;
    var kept := KeepAll(ProductAll(cat), ResolveAll(inference, cat, AllLabels(cat), where).value);
    forall j | 0 <= j < |kept|
      ensures |kept[j]| == |AllLabels(cat)|
    {
      assert kept[j] in filtered.rows;
    }
    ProjectPlain(inference, cat, filtered, select);
    AssembleHeader(Project(inference, cat, filtered, select).value);
  }

  /** Where the filter cannot pick another column, neither in WHERE over the cross product's labels
      nor in SELECT over the labels renamed so far, the query as written answers as intended. */
  lemma EvaluateAgrees(cat: Catalog, select: seq<SelectItem>, where: seq<Clause>)
    requires AllAligned(cat)
    requires WhereUnambiguous(cat, AllLabels(cat), where) && SelectUnambiguous(cat, AllLabels(cat), select)
    ensures Evaluate(LikeFilter, cat, select, where) == Evaluate(DeclaringTable, cat, select, where)
  {
    CrossProductSpec(cat);
    if CrossProduct(cat).Ok? {
      var rel := CrossProduct(cat).value;
      ApplyWhereAgrees(cat, rel, where);
      if ApplyWhere(DeclaringTable, cat, rel, where).Ok? {
        ApplyWhereAligned(DeclaringTable, cat, rel, where);
        ProjectAgrees(cat, ApplyWhere(DeclaringTable, cat, rel, where).value, select);
      }
    }
  }

  // ---------------------------------------------------------------------------------------------
  // The whole query

  /** `Query(json, folder).run()` over the loaded FROM entries: build the catalog, check the query
      (an exception in the check escapes from the constructor), optimise a valid query, evaluate it. */
  function Pipeline(inference: Inference, sources: seq<Source>, select: seq<SelectItem>, where: seq<Clause>): Response
    requires forall k :: 0 <= k < |sources| ==> SourceWellFormed(sources[k])
  {
    var cat := BuildCatalog(sources);
    BuildCatalogWellFormed(sources);
    match Validate(cat, select, where)
    case Crash(e) => Raised(e)
    case Fail(e) => Failure(Message(e))
    case Pass =>
      match Optimise(cat, select, where)
      case Err(e) => Raised(e)
      case Ok(opt) =>
        assert AllAligned(opt.0) by {
          forall k | 0 <= k < |opt.0| ensures Aligned(opt.0[k]) {
            assert WellFormed(opt.0[k]);
          }
        }
        Evaluate(inference, opt.0, select, opt.1)
  }

  /** `run` reports `success = False` exactly when the check found an error, and then with the
      check's message; a successful run has at least one row, one cell per header entry in every
      row, and only `as` names in its header. */
  lemma PipelineOutcome(inference: Inference, sources: seq<Source>, select: seq<SelectItem>, where: seq<Clause>)
    requires forall k :: 0 <= k < |sources| ==> SourceWellFormed(sources[k])
    ensures var r := Pipeline(inference, sources, select, where);
      var check := Validate(BuildCatalog(sources), select, where);
      && (r.Failure? <==> check.Fail?)
      && (r.Failure? ==> r.message == Message(check.error) && r.message[..7] == "ERROR: ")
      && (r.Success? ==>
            && check == Pass && |r.rows| > 0
            && (forall j :: 0 <= j < |r.rows| ==> |r.rows[j]| == |r.header|)
            && (forall i :: 0 <= i < |r.header| ==> r.header[i].0 in AsNames(select)))
  {
    var r := Pipeline(inference, sources, select, where);
    var cat := BuildCatalog(sources);
    BuildCatalogWellFormed(sources);
    if r.Success? {
      var opt := Optimise(cat, select, where).value;
      assert AllAligned(opt.0) by {
        forall k | 0 <= k < |opt.0| ensures Aligned(opt.0[k]) {
          assert WellFormed(opt.0[k]);
        }
      }
      EvaluateSuccess(inference, opt.0, select, opt.1);
    }
  }

  /** A successful evaluation: rows present, aligned with the header, header names from SELECT. */
  lemma EvaluateSuccess(inference: Inference, cat: Catalog, select: seq<SelectItem>, where: seq<Clause>)
    requires AllAligned(cat) && Evaluate(inference, cat, select, where).Success?
    ensures var r := Evaluate(inference, cat, select, where);
      && |r.rows| > 0
      && (forall j :: 0 <= j < |r.rows| ==> |r.rows[j]| == |r.header|)
      && (forall i :: 0 <= i < |r.header| ==> r.header[i].0 in AsNames(select))
  {
    CrossProductSpec(cat);
    var rel := CrossProduct(cat).value;
    ApplyWhereAligned(inference, cat, rel, where);
    var filtered := ApplyWhere(inference, cat, rel, where).value;
    var out := Project(inference, cat, filtered, select).value;
    AssembleHeader(out);
  }
}
