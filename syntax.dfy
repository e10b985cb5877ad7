/** The already-parsed query description: SELECT items, FROM entries and WHERE clauses. */
module Syntax {
  import opened Values

  /** A column reference. An empty `table` stands for a missing (null) table name: the source tests
      the table name with Python truthiness, so null and "" both mean "no table given". */
  datatype ColumnRef = ColumnRef(table: string, name: string)

  predicate Aliased(c: ColumnRef)
  {
    c.table != ""
  }

  /** A comparison operand: `{"column": ...}` or `{"literal": ...}`. */
  datatype Operand = Column(column: ColumnRef) | Literal(literal: Value)

  /** A WHERE clause `left op right`. */
  datatype Clause = Clause(op: Op, left: Operand, right: Operand)

  /** A SELECT item `column AS asName`. */
  datatype SelectItem = SelectItem(column: ColumnRef, asName: string)

  /** The output names of a SELECT list, in order. */
  function AsNames(select: seq<SelectItem>): (r: seq<string>)
    ensures |r| == |select| && forall k :: 0 <= k < |select| ==> r[k] == select[k].asName
  {
    seq(|select|, k requires 0 <= k < |select| => select[k].asName)
  }

  /** One more SELECT item adds its output name at the end. */
  lemma AsNamesSnoc(select: seq<SelectItem>, i: nat)
    requires i < |select|
    ensures AsNames(select[..i + 1]) == AsNames(select[..i]) + [select[i].asName]
  {
  }
}
