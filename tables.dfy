/** One relation of a query: the `Table` class of queryObjects.py and its value-level specification. */
module Tables {
  import opened Outcomes
  import opened Values
  import opened Seqs

  /** A row: one cell per column, aligned with the table's labels. */
  type Row = seq<Value>

  /** The header row of a table file: (column name, declared type name) pairs. */
  type Header = seq<(string, string)>

  /** The qualified label `alias.name` of a column. */
  function Qualify(alias: string, name: string): string
  {
    alias + "." + name
  }

  /** `label` has the form `alias.<something>`. */
  predicate QualifiedBy(alias: string, lbl: string)
  {
    |lbl| > |alias| && lbl[..|alias| + 1] == alias + "."
  }

  /** The bare column name of a label qualified by `alias`. */
  function Bare(alias: string, lbl: string): string
    requires QualifiedBy(alias, lbl)
  {
    lbl[|alias| + 1..]
  }

  lemma QualifyThenBare(alias: string, name: string)
    ensures QualifiedBy(alias, Qualify(alias, name))
    ensures Bare(alias, Qualify(alias, name)) == name
  {
    var l := Qualify(alias, name);
    assert l[..|alias| + 1] == alias + ".";
    assert l[|alias| + 1..] == name;
  }

  lemma BareThenQualify(alias: string, lbl: string)
    requires QualifiedBy(alias, lbl)
    ensures Qualify(alias, Bare(alias, lbl)) == lbl
  {
    assert lbl == lbl[..|alias| + 1] + lbl[|alias| + 1..];
  }

  /** The state of a `Table` object: its alias, its qualified labels in column order, the map from
      bare column name to declared type, its rows, and whether its data frame has no columns at all.
      `pd.DataFrame(tableJSON[1:])` of a file with a header and no rows is such a frame: it has no
      integer column labels, whatever the header declares, and it never gains any. */
  datatype TableState = TableState(alias: string, labels: seq<string>, dataTypes: map<string, string>, rows: seq<Row>,
                                   columnless: bool)

  /** The invariant every table keeps: labels are distinct and qualified by the alias, label and type
      entries correspond one to one through the bare name, every row has one cell per label, and a
      frame without columns has no rows. */
  predicate WellFormed(t: TableState)
  {
    && Distinct(t.labels)
    && (forall i :: 0 <= i < |t.labels| ==> QualifiedBy(t.alias, t.labels[i]) && Bare(t.alias, t.labels[i]) in t.dataTypes)
    && (forall k {:trigger t.dataTypes[k]} :: k in t.dataTypes ==> Qualify(t.alias, k) in t.labels)
    && (forall j :: 0 <= j < |t.rows| ==> |t.rows[j]| == |t.labels|)
    && (t.columnless ==> t.rows == [])
  }

  /** Every row has one cell per label (the part of the invariant the evaluator relies on). */
  predicate Aligned(t: TableState)
  {
    forall j :: 0 <= j < |t.rows| ==> |t.rows[j]| == |t.labels|
  }

  predicate NamesDistinct(header: Header)
  {
    forall i, j :: 0 <= i < j < |header| ==> header[i].0 != header[j].0
  }

  /** The `dataTypes` dictionary the constructor builds: later header entries overwrite earlier ones. */
  function HeaderTypes(header: Header): map<string, string>
  {
    if header == [] then map[]
    else
      var last := header[|header| - 1];
      HeaderTypes(header[..|header| - 1])[last.0 := last.1]
  }

  /** Every header name gets an entry, no other key does, and a name's type is the one of its last
      occurrence in the header. */
  lemma {:induction false} HeaderTypesEntries(header: Header)
    ensures forall k :: k in HeaderTypes(header) <==> exists i :: 0 <= i < |header| && header[i].0 == k
    ensures forall i :: 0 <= i < |header| && (forall j :: i < j < |header| ==> header[j].0 != header[i].0)
                        ==> HeaderTypes(header)[header[i].0] == header[i].1
  {
    if header != [] {
      var front := header[..|header| - 1];
      HeaderTypesEntries(front);
      forall k | k in HeaderTypes(header)
        ensures exists i :: 0 <= i < |header| && header[i].0 == k
      {
        if k != header[|header| - 1].0 {
          assert k in HeaderTypes(front);
          var i :| 0 <= i < |front| && front[i].0 == k;
          assert header[i].0 == k;
        }
      }
      forall k | exists i :: 0 <= i < |header| && header[i].0 == k
        ensures k in HeaderTypes(header)
      {
        var i :| 0 <= i < |header| && header[i].0 == k;
        if i < |front| {
          assert front[i].0 == k;
        }
      }
      forall i | 0 <= i < |header| && (forall j :: i < j < |header| ==> header[j].0 != header[i].0)
        ensures HeaderTypes(header)[header[i].0] == header[i].1
      {
        if i < |front| {
          assert front[i] == header[i];
          forall j | i < j < |front| ensures front[j].0 != front[i].0 {
            assert front[j] == header[j];
          }
        }
      }
    }
  }

  function QualifiedLabels(alias: string, header: Header): (ls: seq<string>)
    ensures |ls| == |header|
  {
    seq(|header|, i requires 0 <= i < |header| => Qualify(alias, header[i].0))
  }

  /** The table `Table(tableJSON, alias)` builds from a header and its data rows; without rows the
      data frame has no columns. */
  function FromHeader(alias: string, header: Header, rows: seq<Row>): TableState
  {
    TableState(alias, QualifiedLabels(alias, header), HeaderTypes(header), rows, rows == [])
  }

  /** Table construction: one label `alias.name` per header column in header order, and a type entry
      mapping each header name to its declared type; the result satisfies the table invariant. */
  lemma FromHeaderShape(alias: string, header: Header, rows: seq<Row>)
    requires NamesDistinct(header)
    requires forall j :: 0 <= j < |rows| ==> |rows[j]| == |header|
    ensures var t := FromHeader(alias, header, rows);
      && |t.labels| == |header|
      && (forall i :: 0 <= i < |header| ==> t.labels[i] == alias + "." + header[i].0)
      && (forall i :: 0 <= i < |header| ==> header[i].0 in t.dataTypes && t.dataTypes[header[i].0] == header[i].1)
      && (forall k :: k in t.dataTypes ==> exists i :: 0 <= i < |header| && header[i].0 == k)
      && t.rows == rows
      && (t.columnless <==> rows == [])
      && WellFormed(t)
  {
    var t := FromHeader(alias, header, rows);
    HeaderTypesEntries(header);
    forall i, j | 0 <= i < j < |t.labels|
      ensures t.labels[i] != t.labels[j]
    {
      QualifyThenBare(alias, header[i].0);
      QualifyThenBare(alias, header[j].0);
    }
    forall i | 0 <= i < |t.labels|
      ensures QualifiedBy(alias, t.labels[i]) && Bare(alias, t.labels[i]) in t.dataTypes
    {
      QualifyThenBare(alias, header[i].0);
    }
    forall k | k in t.dataTypes
      ensures Qualify(alias, k) in t.labels
    {
      var i :| 0 <= i < |header| && header[i].0 == k;
      assert t.labels[i] == Qualify(alias, k);
    }
  }

  /** Every row without its cell at position `i` (`data.drop(i, axis=1)`). */
  function DropCells(rows: seq<Row>, i: nat): (r: seq<Row>)
    requires forall j :: 0 <= j < |rows| ==> i < |rows[j]|
    ensures |r| == |rows| && forall j :: 0 <= j < |rows| ==> r[j] == RemoveAt(rows[j], i)
  {
    seq(|rows|, j requires 0 <= j < |rows| => RemoveAt(rows[j], i))
  }

  /** `deleteCol(column)` on the state: when `column` has a type entry, drop its label, its entry and
      the cell at that label's position in every row; otherwise change nothing. */
  function DeleteColumn(t: TableState, column: string): (r: TableState)
    requires WellFormed(t)
    ensures WellFormed(r) && r.alias == t.alias && r.columnless == t.columnless
    ensures r.dataTypes == t.dataTypes - {column}
    ensures Qualify(t.alias, column) !in r.labels
    ensures column !in t.dataTypes ==> r == t
  {
    if column !in t.dataTypes then
      QualifyThenBare(t.alias, column);
      assert Qualify(t.alias, column) !in t.labels by {
        forall i | 0 <= i < |t.labels| ensures t.labels[i] != Qualify(t.alias, column) {
        }
      }
      t
    else
      var i := IndexOf(t.labels, Qualify(t.alias, column));
      var r := TableState(t.alias, RemoveAt(t.labels, i), t.dataTypes - {column}, DropCells(t.rows, i), t.columnless);
      DeleteColumnKeeps(t, column, i, r);
      r
  }

  /** `deleteCol(column)` raises when `column` is declared but the frame has no columns: `drop(index,
      axis=1)` finds no column labelled `index`. */
  predicate DeleteRaises(t: TableState, column: string)
  {
    column in t.dataTypes && t.columnless
  }

  /** When `column` is declared, `deleteCol` removes its label at the one position holding it, and the
      cell at that same position from every row; all other labels and cells keep their order. */
  lemma DeleteColumnRemoves(t: TableState, column: string)
    requires WellFormed(t) && column in t.dataTypes
    ensures var r := DeleteColumn(t, column);
      exists i :: 0 <= i < |t.labels| && t.labels[i] == Qualify(t.alias, column)
        && r.labels == t.labels[..i] + t.labels[i + 1..]
        && |r.rows| == |t.rows|
        && forall j :: 0 <= j < |t.rows| ==> r.rows[j] == t.rows[j][..i] + t.rows[j][i + 1..]
  {
    var i := IndexOf(t.labels, Qualify(t.alias, column));
    assert DeleteColumn(t, column).labels == RemoveAt(t.labels, i);
  }

  lemma DeleteColumnKeeps(t: TableState, column: string, i: nat, r: TableState)
    requires WellFormed(t) && column in t.dataTypes
    requires i < |t.labels| && t.labels[i] == Qualify(t.alias, column)
    requires r == TableState(t.alias, RemoveAt(t.labels, i), t.dataTypes - {column}, DropCells(t.rows, i), t.columnless)
    ensures WellFormed(r) && Qualify(t.alias, column) !in r.labels
  {
    QualifyThenBare(t.alias, column);
    DeleteLabelsDeclared(t, column, i, r.labels);
    DeleteTypesLabelled(t, column, i, r.labels);
  }

  /** Every label left by the deletion is qualified and still has its type entry. */
  lemma DeleteLabelsDeclared(t: TableState, column: string, i: nat, labels: seq<string>)
    requires WellFormed(t) && column in t.dataTypes
    requires i < |t.labels| && t.labels[i] == Qualify(t.alias, column)
    requires labels == RemoveAt(t.labels, i)
    ensures forall k :: 0 <= k < |labels| ==>
      QualifiedBy(t.alias, labels[k]) && Bare(t.alias, labels[k]) in t.dataTypes - {column}
  {
    forall k | 0 <= k < |labels|
      ensures QualifiedBy(t.alias, labels[k]) && Bare(t.alias, labels[k]) in t.dataTypes - {column}
    {
      var k0 := if k < i then k else k + 1;
      assert labels[k] == t.labels[k0] && k0 != i;
      if Bare(t.alias, t.labels[k0]) == column {
        BareThenQualify(t.alias, t.labels[k0]);
      }
    }
  }

  /** Every type entry left by the deletion still has its label. */
  lemma DeleteTypesLabelled(t: TableState, column: string, i: nat, labels: seq<string>)
    requires WellFormed(t) && column in t.dataTypes
    requires i < |t.labels| && t.labels[i] == Qualify(t.alias, column)
    requires labels == RemoveAt(t.labels, i)
    ensures forall k :: k in t.dataTypes - {column} ==> Qualify(t.alias, k) in labels
  {
    forall k | k in t.dataTypes - {column}
      ensures Qualify(t.alias, k) in labels
    {
      var k0 := IndexOf(t.labels, Qualify(t.alias, k));
      QualifyThenBare(t.alias, k);
      QualifyThenBare(t.alias, column);
      assert k0 != i;
      assert labels[if k0 < i then k0 else k0 - 1] == t.labels[k0];
    }
  }

  /** Deleting a column twice is deleting it once. */
  lemma DeleteColumnIdempotent(t: TableState, column: string)
    requires WellFormed(t)
    ensures DeleteColumn(DeleteColumn(t, column), column) == DeleteColumn(t, column)
  {
  }

  /** The mask of the columns whose bare name is in `keep`. */
  function KeepMask(t: TableState, keep: set<string>): (m: seq<bool>)
    requires WellFormed(t)
    ensures |m| == |t.labels|
  {
    seq(|t.labels|, i requires 0 <= i < |t.labels| && WellFormed(t) => Bare(t.alias, t.labels[i]) in keep)
  }

  /** The table with exactly the columns whose bare name is in `keep`, in their original order. */
  function Prune(t: TableState, keep: set<string>): (r: TableState)
    requires WellFormed(t)
    ensures WellFormed(r) && r.alias == t.alias && r.columnless == t.columnless
  {
    var m := KeepMask(t, keep);
    var r := TableState(t.alias, FilterBy(t.labels, m), map k | k in t.dataTypes && k in keep :: t.dataTypes[k],
                        seq(|t.rows|, j requires 0 <= j < |t.rows| => FilterBy(t.rows[j], m)), t.columnless);
    PruneWellFormed(t, keep, r);
    r
  }

  lemma PruneWellFormed(t: TableState, keep: set<string>, r: TableState)
    requires WellFormed(t)
    requires r == TableState(t.alias, FilterBy(t.labels, KeepMask(t, keep)),
                             map k | k in t.dataTypes && k in keep :: t.dataTypes[k],
                             seq(|t.rows|, j requires 0 <= j < |t.rows| => FilterBy(t.rows[j], KeepMask(t, keep))),
                             t.columnless)
    ensures WellFormed(r)
  {
    FilterByDistinct(t.labels, KeepMask(t, keep));
    PruneLabelsDeclared(t, keep, r.labels, r.dataTypes);
    PruneTypesLabelled(t, keep, r.labels, r.dataTypes);
  }

  /** Every label kept by the pruning is qualified and has its type entry kept too. */
  lemma PruneLabelsDeclared(t: TableState, keep: set<string>, labels: seq<string>, types: map<string, string>)
    requires WellFormed(t)
    requires labels == FilterBy(t.labels, KeepMask(t, keep))
    requires types == map k | k in t.dataTypes && k in keep :: t.dataTypes[k]
    ensures forall k :: 0 <= k < |labels| ==> QualifiedBy(t.alias, labels[k]) && Bare(t.alias, labels[k]) in types
  {
    forall k | 0 <= k < |labels|
      ensures QualifiedBy(t.alias, labels[k]) && Bare(t.alias, labels[k]) in types
    {
      FilterByMembership(t.labels, KeepMask(t, keep), labels[k]);
    }
  }

  /** Every type entry kept by the pruning has its label kept too. */
  lemma PruneTypesLabelled(t: TableState, keep: set<string>, labels: seq<string>, types: map<string, string>)
    requires WellFormed(t)
    requires labels == FilterBy(t.labels, KeepMask(t, keep))
    requires types == map k | k in t.dataTypes && k in keep :: t.dataTypes[k]
    ensures forall k :: k in types ==> Qualify(t.alias, k) in labels
  {
    forall k | k in types
      ensures Qualify(t.alias, k) in labels
    {
      var p := IndexOf(t.labels, Qualify(t.alias, k));
      QualifyThenBare(t.alias, k);
      FilterByMembership(t.labels, KeepMask(t, keep), Qualify(t.alias, k));
    }
  }

  /** Dead-column elimination keeps exactly the columns named in `keep`: every remaining label has a
      bare name in `keep`, and no column whose name is in `keep` is lost. */
  lemma PruneKeepsExactly(t: TableState, keep: set<string>)
    requires WellFormed(t)
    ensures var r := Prune(t, keep);
      && (forall i :: 0 <= i < |r.labels| ==> QualifiedBy(t.alias, r.labels[i]) && Bare(t.alias, r.labels[i]) in keep)
      && (forall i :: 0 <= i < |t.labels| && Bare(t.alias, t.labels[i]) in keep ==> t.labels[i] in r.labels)
      && r.dataTypes.Keys == t.dataTypes.Keys * keep
      && |r.rows| == |t.rows|
  {
    var r := Prune(t, keep);
    var m := KeepMask(t, keep);
    forall i | 0 <= i < |r.labels|
      ensures QualifiedBy(t.alias, r.labels[i]) && Bare(t.alias, r.labels[i]) in keep
    {
      FilterByMembership(t.labels, m, r.labels[i]);
    }
    forall i | 0 <= i < |t.labels| && Bare(t.alias, t.labels[i]) in keep
      ensures t.labels[i] in r.labels
    {
      FilterByMembership(t.labels, m, t.labels[i]);
    }
  }

  /** Dead-column elimination on a frame without columns raises at the first column it deletes. */
  predicate PruneRaises(t: TableState, keep: set<string>)
  {
    t.columnless && t.dataTypes.Keys - keep != {}
  }

  /** Keeping every declared column changes nothing. */
  lemma PruneNothing(t: TableState)
    requires WellFormed(t)
    ensures Prune(t, t.dataTypes.Keys) == t
  {
    var r := Prune(t, t.dataTypes.Keys);
    PruneNothingLabels(t);
    PruneNothingRows(t);
    assert r.dataTypes == t.dataTypes;
    SameParts(r, t);
  }

  lemma PruneNothingLabels(t: TableState)
    requires WellFormed(t)
    ensures Prune(t, t.dataTypes.Keys).labels == t.labels
  {
    FilterByAllMarked(t.labels, KeepMask(t, t.dataTypes.Keys));
  }

  lemma PruneNothingRows(t: TableState)
    requires WellFormed(t)
    ensures Prune(t, t.dataTypes.Keys).rows == t.rows
  {
    var r := Prune(t, t.dataTypes.Keys);
    var m := KeepMask(t, t.dataTypes.Keys);
    forall j | 0 <= j < |t.rows|
      ensures r.rows[j] == t.rows[j]
    {
      FilterByAllMarked(t.rows[j], m);
    }
    RowsEqual(r.rows, t.rows);
  }

  /** Names that no column carries make no difference to pruning. */
  lemma PruneDeclaredOnly(t: TableState, keep: set<string>)
    requires WellFormed(t)
    ensures Prune(t, keep * t.dataTypes.Keys) == Prune(t, keep)
  {
    var m := KeepMask(t, keep);
    assert KeepMask(t, keep * t.dataTypes.Keys) == m by {
      var m' := KeepMask(t, keep * t.dataTypes.Keys);
      forall i | 0 <= i < |t.labels|
        ensures m'[i] == m[i]
      {
        assert Bare(t.alias, t.labels[i]) in t.dataTypes;
      }
      MasksEqual(m', m);
    }
    var a, b := Prune(t, keep * t.dataTypes.Keys), Prune(t, keep);
    assert a.dataTypes == b.dataTypes;
    assert a.rows == b.rows by {
      forall j | 0 <= j < |t.rows|
        ensures a.rows[j] == b.rows[j]
      {
      }
      RowsEqual(a.rows, b.rows);
    }
    SameParts(a, b);
  }

  /** Two masks that agree at every position are equal. */
  lemma MasksEqual(a: seq<bool>, b: seq<bool>)
    requires |a| == |b| && forall i :: 0 <= i < |a| ==> a[i] == b[i]
    ensures a == b
  {
  }

  /** Deleting one more column from a pruned table prunes by the smaller set: the order in which
      columns are deleted does not matter. */
  lemma PruneThenDelete(t: TableState, keep: set<string>, column: string)
    requires WellFormed(t)
    ensures DeleteColumn(Prune(t, keep), column) == Prune(t, keep - {column})
  {
    if column in Prune(t, keep).dataTypes {
      PruneThenDeleteDeclared(t, keep, column);
    } else {
      PruneThenDeleteUndeclared(t, keep, column);
    }
  }

  lemma PruneThenDeleteUndeclared(t: TableState, keep: set<string>, column: string)
    requires WellFormed(t) && column !in Prune(t, keep).dataTypes
    ensures DeleteColumn(Prune(t, keep), column) == Prune(t, keep - {column})
  {
    var m := KeepMask(t, keep);
    var m' := KeepMask(t, keep - {column});
    forall q | 0 <= q < |t.labels|
      ensures m[q] == m'[q]
    {
    }
    assert m == m';
    assert Prune(t, keep).dataTypes == Prune(t, keep - {column}).dataTypes;
  }

  lemma PruneThenDeleteDeclared(t: TableState, keep: set<string>, column: string)
    requires WellFormed(t) && column in Prune(t, keep).dataTypes
    ensures DeleteColumn(Prune(t, keep), column) == Prune(t, keep - {column})
  {
    PruneDeleteLabels(t, keep, column);
    PruneDeleteRows(t, keep, column);
    PruneDeleteTypes(t, keep, column);
    SameParts(DeleteColumn(Prune(t, keep), column), Prune(t, keep - {column}));
  }

  lemma PruneDeleteTypes(t: TableState, keep: set<string>, column: string)
    requires WellFormed(t)
    ensures DeleteColumn(Prune(t, keep), column).dataTypes == Prune(t, keep - {column}).dataTypes
  {
  }

  /** Two table states with the same five parts are equal. */
  lemma SameParts(a: TableState, b: TableState)
    requires a.alias == b.alias && a.labels == b.labels && a.dataTypes == b.dataTypes && a.rows == b.rows
    requires a.columnless == b.columnless
    ensures a == b
  {
  }

  /** The position of the deleted label in the pruned table, and the facts that locate it. */
  lemma PruneDeletePosition(t: TableState, keep: set<string>, column: string) returns (p: nat)
    requires WellFormed(t) && column in Prune(t, keep).dataTypes
    ensures p < |t.labels| && t.labels[p] == Qualify(t.alias, column)
    ensures KeepMask(t, keep)[p]
    ensures KeepMask(t, keep)[p := false] == KeepMask(t, keep - {column})
    ensures IndexOf(Prune(t, keep).labels, Qualify(t.alias, column)) == CountTrue(KeepMask(t, keep)[..p])
  {
    var pr := Prune(t, keep);
    var m := KeepMask(t, keep);
    QualifyThenBare(t.alias, column);
    p := IndexOf(t.labels, Qualify(t.alias, column));
    UnmarkIsSmallerKeep(t, keep, column, p);
    FilterByAt(t.labels, m, p);
    IndexOfDistinct(pr.labels, CountTrue(m[..p]));
  }

  lemma PruneDeleteLabels(t: TableState, keep: set<string>, column: string)
    requires WellFormed(t) && column in Prune(t, keep).dataTypes
    ensures DeleteColumn(Prune(t, keep), column).labels == Prune(t, keep - {column}).labels
  {
    var p := PruneDeletePosition(t, keep, column);
    FilterByUnmark(t.labels, KeepMask(t, keep), p);
  }

  lemma PruneDeleteRows(t: TableState, keep: set<string>, column: string)
    requires WellFormed(t) && column in Prune(t, keep).dataTypes
    ensures DeleteColumn(Prune(t, keep), column).rows == Prune(t, keep - {column}).rows
  {
    var d := DeleteColumn(Prune(t, keep), column);
    var e := Prune(t, keep - {column});
    assert |d.rows| == |t.rows| == |e.rows| by {
      PruneRows(t, keep);
      PruneRows(t, keep - {column});
      DeleteColumnRows(Prune(t, keep), column);
    }
    assert forall j :: 0 <= j < |t.rows| ==> d.rows[j] == e.rows[j] by {
      forall j | 0 <= j < |t.rows|
        ensures d.rows[j] == e.rows[j]
      {
        PruneDeleteRow(t, keep, column, j);
      }
    }
    RowsEqual(d.rows, e.rows);
  }

  /** Two row lists that agree at every position are equal. */
  lemma RowsEqual(a: seq<Row>, b: seq<Row>)
    requires |a| == |b| && forall j :: 0 <= j < |a| ==> a[j] == b[j]
    ensures a == b
  {
  }

  /** The same for row `j`. */
  lemma PruneDeleteRow(t: TableState, keep: set<string>, column: string, j: nat)
    requires WellFormed(t) && column in Prune(t, keep).dataTypes && j < |t.rows|
    ensures j < |DeleteColumn(Prune(t, keep), column).rows| && j < |Prune(t, keep - {column}).rows|
    ensures DeleteColumn(Prune(t, keep), column).rows[j] == Prune(t, keep - {column}).rows[j]
  {
    PruneRows(t, keep);
    PruneRows(t, keep - {column});
    DeleteColumnRows(Prune(t, keep), column);
    var p := PruneDeletePosition(t, keep, column);
    FilterByUnmark(t.rows[j], KeepMask(t, keep), p);
  }

  /** Pruning filters every row by the mask of kept columns. */
  lemma PruneRows(t: TableState, keep: set<string>)
    requires WellFormed(t)
    ensures |Prune(t, keep).rows| == |t.rows|
    ensures forall j :: 0 <= j < |t.rows| ==> Prune(t, keep).rows[j] == FilterBy(t.rows[j], KeepMask(t, keep))
  {
  }

  /** Deleting a declared column removes, from every row, the cell at its label's position. */
  lemma DeleteColumnRows(t: TableState, column: string)
    requires WellFormed(t) && column in t.dataTypes
    ensures |DeleteColumn(t, column).rows| == |t.rows|
    ensures forall j :: 0 <= j < |t.rows| ==>
      DeleteColumn(t, column).rows[j] == RemoveAt(t.rows[j], IndexOf(t.labels, Qualify(t.alias, column)))
  {
  }

  /** In the mask, the position of `column`'s label is the only one that the smaller keep set unmarks. */
  lemma UnmarkIsSmallerKeep(t: TableState, keep: set<string>, column: string, p: nat)
    requires WellFormed(t) && column in keep && column in t.dataTypes
    requires p < |t.labels| && t.labels[p] == Qualify(t.alias, column)
    ensures KeepMask(t, keep)[p]
    ensures KeepMask(t, keep)[p := false] == KeepMask(t, keep - {column})
  {
    QualifyThenBare(t.alias, column);
    var m := KeepMask(t, keep);
    forall q | 0 <= q < |t.labels|
      ensures m[p := false][q] == KeepMask(t, keep - {column})[q]
    {
      if q != p && Bare(t.alias, t.labels[q]) == column {
        BareThenQualify(t.alias, t.labels[q]);
      }
    }
  }

  /** Pruning twice by the same names is pruning once. */
  lemma PruneIdempotent(t: TableState, keep: set<string>)
    requires WellFormed(t)
    ensures Prune(Prune(t, keep), keep) == Prune(t, keep)
  {
    var r := Prune(t, keep);
    PruneKeepsExactly(t, keep);
    PruneDeclaredOnly(r, keep);
    assert keep * r.dataTypes.Keys == r.dataTypes.Keys;
    PruneNothing(r);
  }

  /** The rows whose cell at position `p` passes the test, in their original order
      (`table.data[table.data[colIndex].map(...)]`). */
  function FilterRows(rows: seq<Row>, p: nat, test: Test): (r: seq<Row>)
    ensures |r| <= |rows|
  {
    if rows == [] then []
    else (if p < |rows[0]| && Passes(test, rows[0][p]) then [rows[0]] else []) + FilterRows(rows[1..], p, test)
  }

  /** The filtered rows are exactly the rows whose cell at `p` passes the test. */
  lemma {:induction false} FilterRowsMembership(rows: seq<Row>, p: nat, test: Test, x: Row)
    ensures x in FilterRows(rows, p, test) <==> x in rows && p < |x| && Passes(test, x[p])
  {
    if rows != [] {
      FilterRowsMembership(rows[1..], p, test, x);
      assert rows == [rows[0]] + rows[1..];
    }
  }

  /** Filtering distributes over concatenation, so it keeps the relative order of the rows it keeps. */
  lemma {:induction false} FilterRowsConcat(a: seq<Row>, b: seq<Row>, p: nat, test: Test)
    ensures FilterRows(a + b, p, test) == FilterRows(a, p, test) + FilterRows(b, p, test)
  {
    if a == [] {
      assert a + b == b;
    } else {
      var ab := a + b;
      assert ab[0] == a[0] && ab[1..] == a[1..] + b;
      FilterRowsConcat(a[1..], b, p, test);
    }
  }

  /** The table whose rows are filtered on the column at position `p`. */
  function FilterTableAt(t: TableState, p: nat, test: Test): (r: TableState)
    ensures r.alias == t.alias && r.labels == t.labels && r.dataTypes == t.dataTypes && r.columnless == t.columnless
    ensures Aligned(t) ==> Aligned(r)
    ensures WellFormed(t) ==> WellFormed(r)
  {
    var r := t.(rows := FilterRows(t.rows, p, test));
    FilterRowsAligned(t.rows, p, test, |t.labels|);
    r
  }

  /** Filtering keeps only rows it was given, so it keeps their arity. */
  lemma FilterRowsAligned(rows: seq<Row>, p: nat, test: Test, w: nat)
    ensures (forall j :: 0 <= j < |rows| ==> |rows[j]| == w) ==>
      forall j :: 0 <= j < |FilterRows(rows, p, test)| ==> |FilterRows(rows, p, test)[j]| == w
  {
    var r := FilterRows(rows, p, test);
    forall j | 0 <= j < |r| && (forall j :: 0 <= j < |rows| ==> |rows[j]| == w)
      ensures |r[j]| == w
    {
      FilterRowsMembership(rows, p, test, r[j]);
    }
  }

  lemma RemoveFromBoth<T>(kept: set<T>, toDelete: set<T>, target: set<T>, x: T)
    requires toDelete <= kept && kept - toDelete == target && x in toDelete
    ensures toDelete - {x} <= kept - {x} && (kept - {x}) - (toDelete - {x}) == target
  {
  }

  /** A `Table` object. The alias never changes, nor does a frame without columns gain any; the
      optimiser deletes columns and filters rows. */
  class Table {
    const alias: string
    var labels: seq<string>
    var dataTypes: map<string, string>
    var rows: seq<Row>
    const columnless: bool

    function State(): TableState
      reads this
    {
      TableState(alias, labels, dataTypes, rows, columnless)
    }

    ghost predicate Valid()
      reads this
    {
      WellFormed(State())
    }

    /** `Table.__init__`: the header gives the labels and types, the remaining rows the data. */
    constructor (header: Header, data: seq<Row>, alias: string)
      requires NamesDistinct(header)
      requires forall j :: 0 <= j < |data| ==> |data[j]| == |header|
      ensures State() == FromHeader(alias, header, data)
      ensures Valid()
      ensures |labels| == |header| && forall i :: 0 <= i < |header| ==> labels[i] == alias + "." + header[i].0
      ensures forall i :: 0 <= i < |header| ==> header[i].0 in dataTypes && dataTypes[header[i].0] == header[i].1
    {
      var types: map<string, string> := map[];
      var ls: seq<string> := [];
      var i := 0;
      while i < |header|
        invariant 0 <= i <= |header|
        invariant types == HeaderTypes(header[..i])
        invariant ls == QualifiedLabels(alias, header[..i])
      {
        var (lbl, dataType) := header[i];
        types := types[lbl := dataType];
        ls := ls + [alias + "." + lbl];
        assert header[..i + 1][..i] == header[..i];
        i := i + 1;
      }
      assert header[..i] == header;
      this.labels := ls;
      this.dataTypes := types;
      this.rows := data;
      this.columnless := data == [];
      this.alias := alias;
      new;
      FromHeaderShape(alias, header, data);
    }

    /** `deleteCol(column)`: remove the column's label, its type entry and its cell in every row. The
        label and the entry go first, so on a frame without columns they are gone when `drop` raises. */
    method DeleteCol(column: string) returns (error: Option<Exception>)
      requires Valid()
      modifies this
      ensures Valid()
      ensures State() == DeleteColumn(old(State()), column)
      ensures error == if DeleteRaises(old(State()), column) then Some(FrameKeyError) else None
    {
      ghost var expected := DeleteColumn(State(), column);
      error := None;
      if column in dataTypes {
        var colLabel := alias + "." + column;
        var index := IndexOf(labels, colLabel);
        labels := RemoveAt(labels, index);
        dataTypes := dataTypes - {column};
        if columnless {
          assert State() == expected;
          return Some(FrameKeyError);
        }
        rows := DropCells(rows, index);
        assert State() == expected;
      }
    }

    /** `table.data = table.data[table.data[colIndex].map(...)]`: keep the rows whose cell at the
        position passes the test; labels and types stay as they are. A frame without columns has no
        column `colIndex`, so reading it raises and nothing changes. */
    method KeepPassing(p: nat, test: Test) returns (error: Option<Exception>)
      requires Valid()
      modifies this
      ensures Valid()
      ensures if columnless then error == Some(FrameKeyError) && State() == old(State())
              else error.None? && State() == FilterTableAt(old(State()), p, test)
    {
      if columnless {
        return Some(FrameKeyError);
      }
      FilterRowsAligned(rows, p, test, |labels|);
      rows := FilterRows(rows, p, test);
      error := None;
    }

    /** The declared names that are not required: the columns dead-column elimination deletes. */
    method UnrequiredColumns(required: set<string>) returns (toDelete: set<string>)
      ensures toDelete == dataTypes.Keys - required
    {
      toDelete := {};
      var keys := dataTypes.Keys;
      while keys != {}
        invariant keys <= dataTypes.Keys
        invariant toDelete == dataTypes.Keys - keys - required
      {
        var colLabel :| colLabel in keys;
        if colLabel !in required {
          toDelete := toDelete + {colLabel};
        }
        keys := keys - {colLabel};
      }
    }

    /** One table's part of dead-column elimination: collect the declared names that are not
        required, then delete those columns one by one, in whatever order the set yields them. On a
        frame without columns the first deletion raises and the loop stops there. */
    method DeleteUnrequired(required: set<string>) returns (error: Option<Exception>)
      requires Valid()
      modifies this
      ensures Valid()
      ensures error == if PruneRaises(old(State()), required) then Some(FrameKeyError) else None
      ensures error.None? ==> State() == Prune(old(State()), required)
    {
      ghost var t0 := State();
      var toDelete := UnrequiredColumns(required);
      ghost var kept, target := t0.dataTypes.Keys, t0.dataTypes.Keys * required;
      PruneNothing(t0);
      while toDelete != {}
        invariant toDelete <= kept && kept - toDelete == target
        invariant toDelete <= t0.dataTypes.Keys - required
        invariant columnless ==> kept == t0.dataTypes.Keys
        invariant State() == Prune(t0, kept)
      {
        var colLabel :| colLabel in toDelete;
        RemoveFromBoth(kept, toDelete, target, colLabel);
        PruneThenDelete(t0, kept, colLabel);
        assert colLabel in State().dataTypes;
        error := DeleteCol(colLabel);
        if error.Some? {
          assert colLabel in t0.dataTypes.Keys - required;
          return;
        }
        kept := kept - {colLabel};
        toDelete := toDelete - {colLabel};
      }
      assert kept == required * t0.dataTypes.Keys by {
        assert kept == kept - toDelete;
      }
      PruneDeclaredOnly(t0, required);
      error := None;
    }
  }
}
