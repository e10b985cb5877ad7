/** `Query.__constructCrossPoduct`: the Cartesian product of the catalog's tables, and why pushing a
    row filter into one table before the product equals filtering the product afterwards. */
module Products {
  import opened Outcomes
  import opened Values
  import opened Seqs
  import opened Tables
  import opened Syntax
  import opened Catalogs
  import opened Optimiser

  /** A materialised relation: column labels and rows aligned with them. */
  datatype Relation = Relation(labels: seq<string>, rows: seq<Row>)

  predicate RelationWellFormed(r: Relation)
  {
    forall j :: 0 <= j < |r.rows| ==> |r.rows[j]| == |r.labels|
  }

  /** Every table of the catalog has one cell per label in every row. */
  predicate AllAligned(cat: Catalog)
  {
    forall k :: 0 <= k < |cat| ==> Aligned(cat[k])
  }

  /** The row `r` extended by each row of `b`. */
  function Prefixed(r: Row, b: seq<Row>): (s: seq<Row>)
    ensures |s| == |b| && forall j :: 0 <= j < |b| ==> s[j] == r + b[j]
  {
    seq(|b|, j requires 0 <= j < |b| => r + b[j])
  }

  /** The product of two row lists, left-major: each left row combined with every right row in
      order, as a merge on a constant key produces it. */
  function Product(a: seq<Row>, b: seq<Row>): seq<Row>
  {
    if a == [] then [] else Prefixed(a[0], b) + Product(a[1..], b)
  }

  /** The product has one row per pair of rows. */
  lemma {:induction false} ProductLength(a: seq<Row>, b: seq<Row>)
    ensures |Product(a, b)| == |a| * |b|
  {
    if a != [] {
      ProductLength(a[1..], b);
      assert |a| * |b| == |b| + (|a| - 1) * |b|;
    }
  }

  /** The product holds exactly the combinations of one left row and one right row. */
  lemma {:induction false} ProductMembership(a: seq<Row>, b: seq<Row>, x: Row)
    ensures x in Product(a, b) <==> exists i, j :: 0 <= i < |a| && 0 <= j < |b| && x == a[i] + b[j]
  {
    if a != [] {
      ProductMembership(a[1..], b, x);
      if exists i, j :: 0 <= i < |a[1..]| && 0 <= j < |b| && x == a[1..][i] + b[j] {
        var i, j :| 0 <= i < |a[1..]| && 0 <= j < |b| && x == a[1..][i] + b[j];
        assert x == a[i + 1] + b[j];
      }
      if exists i, j :: 0 <= i < |a| && 0 <= j < |b| && x == a[i] + b[j] {
        var i, j :| 0 <= i < |a| && 0 <= j < |b| && x == a[i] + b[j];
        if i == 0 {
          assert x == Prefixed(a[0], b)[j];
        } else {
          assert x == a[1..][i - 1] + b[j];
        }
      }
    }
  }

  /** Rows of a given width combined with rows of a given width have the sum of both widths. */
  lemma {:induction false} ProductArity(a: seq<Row>, b: seq<Row>, wa: nat, wb: nat)
    requires forall i :: 0 <= i < |a| ==> |a[i]| == wa
    requires forall j :: 0 <= j < |b| ==> |b[j]| == wb
    ensures forall x :: x in Product(a, b) ==> |x| == wa + wb
  {
    forall x | x in Product(a, b)
      ensures |x| == wa + wb
    {
      ProductMembership(a, b, x);
    }
  }

  /** Filtering on a cell of the right part of `r + b[j]` filters `b`. */
  lemma {:induction false} FilterPrefixedRight(r: Row, b: seq<Row>, p: nat, test: Test)
    ensures FilterRows(Prefixed(r, b), |r| + p, test) == Prefixed(r, FilterRows(b, p, test))
  {
    if b != [] {
      FilterPrefixedRight(r, b[1..], p, test);
      var s := Prefixed(r, b);
      assert s[1..] == Prefixed(r, b[1..]);
      assert s[0] == r + b[0];
      if p < |b[0]| {
        assert (r + b[0])[|r| + p] == b[0][p];
      }
      var f := FilterRows(b, p, test);
      if p < |b[0]| && Passes(test, b[0][p]) {
        assert f == [b[0]] + FilterRows(b[1..], p, test);
        assert Prefixed(r, f) == [r + b[0]] + Prefixed(r, FilterRows(b[1..], p, test));
      } else {
        assert f == FilterRows(b[1..], p, test);
      }
    }
  }

  /** Filtering on a cell of the left part of `r + b[j]` keeps all of them or none. */
  lemma {:induction false} FilterPrefixedLeft(r: Row, b: seq<Row>, p: nat, test: Test)
    requires p < |r|
    ensures FilterRows(Prefixed(r, b), p, test) == if Passes(test, r[p]) then Prefixed(r, b) else []
  {
    if b != [] {
      FilterPrefixedLeft(r, b[1..], p, test);
      var s := Prefixed(r, b);
      assert s[1..] == Prefixed(r, b[1..]);
      assert s[0][p] == r[p];
      if Passes(test, r[p]) {
        assert s == [s[0]] + s[1..];
      }
    }
  }

  /** Filtering the product on a column of the left operand equals filtering the left operand first. */
  lemma {:induction false} FilterProductLeft(a: seq<Row>, b: seq<Row>, p: nat, test: Test)
    requires forall i :: 0 <= i < |a| ==> p < |a[i]|
    ensures FilterRows(Product(a, b), p, test) == Product(FilterRows(a, p, test), b)
  {
    if a != [] {
      FilterProductLeft(a[1..], b, p, test);
      FilterRowsConcat(Prefixed(a[0], b), Product(a[1..], b), p, test);
      FilterPrefixedLeft(a[0], b, p, test);
      var f := FilterRows(a, p, test);
      if Passes(test, a[0][p]) {
        assert f == [a[0]] + FilterRows(a[1..], p, test);
        assert f[0] == a[0] && f[1..] == FilterRows(a[1..], p, test);
      } else {
        assert f == FilterRows(a[1..], p, test);
      }
    }
  }

  /** Filtering the product on a column of the right operand equals filtering the right operand first. */
  lemma {:induction false} FilterProductRight(a: seq<Row>, b: seq<Row>, w: nat, p: nat, test: Test)
    requires forall i :: 0 <= i < |a| ==> |a[i]| == w
    ensures FilterRows(Product(a, b), w + p, test) == Product(a, FilterRows(b, p, test))
  {
    if a != [] {
      FilterProductRight(a[1..], b, w, p, test);
      FilterRowsConcat(Prefixed(a[0], b), Product(a[1..], b), w + p, test);
      FilterPrefixedRight(a[0], b, p, test);
    }
  }

  /** The empty row is the unit of the product. */
  lemma ProductUnit(b: seq<Row>)
    ensures Product([[]], b) == b
  {
    var s := Prefixed([], b);
    assert forall j :: 0 <= j < |b| ==> s[j] == b[j];
    assert Product([[]], b) == s + Product([], b);
  }

  /** The product over all tables in catalog order, starting from the one empty row. */
  function ProductAll(cat: Catalog): seq<Row>
  {
    if cat == [] then [[]]
    else Product(ProductAll(cat[..|cat| - 1]), cat[|cat| - 1].rows)
  }

  /** The total number of columns. */
  function Width(cat: Catalog): nat
  {
    if cat == [] then 0 else Width(cat[..|cat| - 1]) + |cat[|cat| - 1].labels|
  }

  /** The number of columns of the tables before position `i`: where table `i` starts in the product. */
  function Offset(cat: Catalog, i: nat): nat
    requires i <= |cat|
  {
    if i == 0 then 0 else Offset(cat, i - 1) + |cat[i - 1].labels|
  }

  lemma {:induction false} OffsetPrefix(cat: Catalog, front: Catalog, i: nat)
    requires |front| <= |cat| && i <= |front| && forall k :: 0 <= k < |front| ==> front[k].labels == cat[k].labels
    ensures Offset(front, i) == Offset(cat, i)
  {
    if i > 0 {
      OffsetPrefix(cat, front, i - 1);
    }
  }

  lemma {:induction false} OffsetWidth(cat: Catalog)
    ensures Offset(cat, |cat|) == Width(cat)
  {
    if cat != [] {
      var front := cat[..|cat| - 1];
      OffsetWidth(front);
      OffsetPrefix(cat, front, |front|);
    }
  }

  /** The product's labels: each table's labels in catalog order. */
  function AllLabels(cat: Catalog): (r: seq<string>)
    ensures |r| == Width(cat)
  {
    if cat == [] then [] else AllLabels(cat[..|cat| - 1]) + cat[|cat| - 1].labels
  }

  /** The product of the tables' row counts. */
  function RowCountProduct(cat: Catalog): nat
  {
    if cat == [] then 1 else RowCountProduct(cat[..|cat| - 1]) * |cat[|cat| - 1].rows|
  }

  /** The product has one row per combination, and is empty exactly when some table is. */
  lemma {:induction false} ProductAllCount(cat: Catalog)
    ensures |ProductAll(cat)| == RowCountProduct(cat)
    ensures RowCountProduct(cat) == 0 <==> exists k :: 0 <= k < |cat| && |cat[k].rows| == 0
  {
    if cat != [] {
      var front := cat[..|cat| - 1];
      ProductAllCount(front);
      ProductLength(ProductAll(front), cat[|cat| - 1].rows);
      assert forall k :: 0 <= k < |front| ==> front[k] == cat[k];
      if exists k :: 0 <= k < |cat| && |cat[k].rows| == 0 {
        var k :| 0 <= k < |cat| && |cat[k].rows| == 0;
        if k < |front| {
          assert |front[k].rows| == 0;
        }
      }
    }
  }

  /** Every product row has one cell per label of the catalog. */
  lemma {:induction false} ProductAllArity(cat: Catalog)
    requires AllAligned(cat)
    ensures forall x :: x in ProductAll(cat) ==> |x| == Width(cat)
  {
    if cat != [] {
      var front := cat[..|cat| - 1];
      var last := cat[|cat| - 1];
      assert AllAligned(front) by {
        assert forall k :: 0 <= k < |front| ==> front[k] == cat[k];
      }
      ProductAllArity(front);
      ProductArity(ProductAll(front), last.rows, Width(front), |last.labels|);
    }
  }

  /** The columns of table `i` start at `Offset(cat, i)` in the product. */
  lemma {:induction false} AllLabelsAt(cat: Catalog, i: nat, p: nat)
    requires i < |cat| && p < |cat[i].labels|
    ensures Offset(cat, i) + p < Width(cat)
    ensures AllLabels(cat)[Offset(cat, i) + p] == cat[i].labels[p]
  {
    var front := cat[..|cat| - 1];
    if i < |cat| - 1 {
      AllLabelsAt(front, i, p);
      OffsetPrefix(cat, front, i);
    } else {
      OffsetPrefix(cat, front, i);
      OffsetWidth(front);
    }
  }

  /** Pushdown soundness: filtering table `i` on its column `p` before the product gives the product
      filtered on the same column, found at offset `Offset(cat, i) + p`. */
  lemma {:induction false} PushdownSound(cat: Catalog, i: nat, p: nat, test: Test)
    requires AllAligned(cat) && i < |cat| && p < |cat[i].labels|
    ensures ProductAll(cat[i := FilterTableAt(cat[i], p, test)]) == FilterRows(ProductAll(cat), Offset(cat, i) + p, test)
  {
    var n := |cat|;
    var front := cat[..n - 1];
    AllAlignedFront(cat);
    if i == n - 1 {
      PushdownSoundAtLast(cat, front, p, test);
    } else {
      PushdownSound(front, i, p, test);
      PushdownSoundEarlier(cat, front, i, p, test);
    }
  }

  lemma PushdownSoundAtLast(cat: Catalog, front: Catalog, p: nat, test: Test)
    requires cat != [] && front == cat[..|cat| - 1] && AllAligned(front)
    ensures ProductAll(cat[|cat| - 1 := FilterTableAt(cat[|cat| - 1], p, test)])
         == FilterRows(ProductAll(cat), Offset(cat, |cat| - 1) + p, test)
  {
    var i := |cat| - 1;
    assert cat == front + [cat[i]];
    assert cat[i := FilterTableAt(cat[i], p, test)] == front + [FilterTableAt(cat[i], p, test)];
    OffsetPrefix(cat, front, i);
    OffsetWidth(front);
    PushdownSoundLast(front, cat[i], p, test);
  }

  lemma AllAlignedFront(cat: Catalog)
    requires cat != [] && AllAligned(cat)
    ensures AllAligned(cat[..|cat| - 1])
  {
    var front := cat[..|cat| - 1];
    assert forall k :: 0 <= k < |front| ==> front[k] == cat[k];
  }

  /** Pushdown on the last table: filtering it equals filtering the product on its column, which
      sits after all the columns of the tables before it. */
  lemma PushdownSoundLast(front: Catalog, last: TableState, p: nat, test: Test)
    requires AllAligned(front)
    ensures ProductAll(front + [FilterTableAt(last, p, test)]) == FilterRows(ProductAll(front + [last]), Width(front) + p, test)
  {
    var filtered := FilterTableAt(last, p, test);
    var a := ProductAll(front);
    assert ProductAll(front + [last]) == Product(a, last.rows) by {
      ProductAllSnoc(front + [last], front, last);
    }
    assert ProductAll(front + [filtered]) == Product(a, FilterRows(last.rows, p, test)) by {
      assert filtered.rows == FilterRows(last.rows, p, test);
      ProductAllSnoc(front + [filtered], front, filtered);
    }
    assert FilterRows(Product(a, last.rows), Width(front) + p, test) == Product(a, FilterRows(last.rows, p, test)) by {
      ProductAllRowWidth(front);
      FilterProductRight(a, last.rows, Width(front), p, test);
    }
  }

  /** Every row of the product, by position, has one cell per label of the catalog. */
  lemma ProductAllRowWidth(cat: Catalog)
    requires AllAligned(cat)
    ensures forall j :: 0 <= j < |ProductAll(cat)| ==> |ProductAll(cat)[j]| == Width(cat)
  {
    var a := ProductAll(cat);
    ProductAllArity(cat);
    forall j | 0 <= j < |a|
      ensures |a[j]| == Width(cat)
    {
      assert a[j] in a;
    }
  }

  /** The product with one more table is the product of the previous ones combined with it. */
  lemma ProductAllSnoc(cat: Catalog, front: Catalog, last: TableState)
    requires cat == front + [last]
    ensures ProductAll(cat) == Product(ProductAll(front), last.rows)
  {
    assert cat[..|cat| - 1] == front;
  }

  lemma {:induction false} PushdownSoundEarlier(cat: Catalog, front: Catalog, i: nat, p: nat, test: Test)
    requires cat != [] && front == cat[..|cat| - 1] && AllAligned(front)
    requires i < |front| && p < |front[i].labels|
    requires ProductAll(front[i := FilterTableAt(front[i], p, test)]) == FilterRows(ProductAll(front), Offset(front, i) + p, test)
    ensures ProductAll(cat[i := FilterTableAt(cat[i], p, test)]) == FilterRows(ProductAll(cat), Offset(cat, i) + p, test)
  {
    var off := Offset(cat, i) + p;
    assert off == Offset(front, i) + p by {
      OffsetPrefix(cat, front, i);
    }
    assert ProductAll(cat[i := FilterTableAt(cat[i], p, test)]) == FilterRows(ProductAll(cat), off, test) by {
      FilteredFront(cat, front, i, p, test, off);
      FrontArity(cat, front, i, p);
      ProductAllStepAt(cat, i, p, test, off);
    }
  }

  lemma {:induction false} FilteredFront(cat: Catalog, front: Catalog, i: nat, p: nat, test: Test, off: nat)
    requires cat != [] && front == cat[..|cat| - 1] && i < |front|
    requires ProductAll(front[i := FilterTableAt(front[i], p, test)]) == FilterRows(ProductAll(front), off, test)
    ensures ProductAll(cat[i := FilterTableAt(cat[i], p, test)][..|cat| - 1]) == FilterRows(ProductAll(cat[..|cat| - 1]), off, test)
  {
    assert cat[i := FilterTableAt(cat[i], p, test)][..|cat| - 1] == front[i := FilterTableAt(front[i], p, test)];
  }

  lemma {:induction false} FrontArity(cat: Catalog, front: Catalog, i: nat, p: nat)
    requires cat != [] && front == cat[..|cat| - 1] && AllAligned(front)
    requires i < |front| && p < |front[i].labels|
    ensures forall x :: x in ProductAll(cat[..|cat| - 1]) ==> Offset(front, i) + p < |x|
  {
    AllLabelsAt(front, i, p);
    ProductAllArity(front);
  }

  lemma {:induction false} ProductAllStepAt(cat: Catalog, i: nat, p: nat, test: Test, off: nat)
    requires i < |cat| - 1
    requires ProductAll(cat[i := FilterTableAt(cat[i], p, test)][..|cat| - 1]) == FilterRows(ProductAll(cat[..|cat| - 1]), off, test)
    requires forall x :: x in ProductAll(cat[..|cat| - 1]) ==> off < |x|
    ensures ProductAll(cat[i := FilterTableAt(cat[i], p, test)]) == FilterRows(ProductAll(cat), off, test)
  {
    ProductAllStepLeft(cat, cat[i := FilterTableAt(cat[i], p, test)], off, test);
  }

  /** One unfolding of the product: filtering the product of the first tables carries over to the
      product with the last table. */
  lemma {:induction false} ProductAllStepLeft(cat: Catalog, cat': Catalog, off: nat, test: Test)
    requires |cat| == |cat'| >= 1 && cat'[|cat'| - 1] == cat[|cat| - 1]
    requires ProductAll(cat'[..|cat'| - 1]) == FilterRows(ProductAll(cat[..|cat| - 1]), off, test)
    requires forall x :: x in ProductAll(cat[..|cat| - 1]) ==> off < |x|
    ensures ProductAll(cat') == FilterRows(ProductAll(cat), off, test)
  {
    var a := ProductAll(cat[..|cat| - 1]);
    forall i | 0 <= i < |a|
      ensures off < |a[i]|
    {
      assert a[i] in a;
    }
    FilterProductLeft(a, cat[|cat| - 1].rows, off, test);
  }

  /** The unaliased pushdown seen on the product: the product filtered, table by table in catalog
      order, on the column of every table that declares the name. */
  function DeclaredFilters(rows: seq<Row>, cat: Catalog, name: string, test: Test, n: nat): seq<Row>
    requires n <= |cat|
  {
    if n == 0 then rows
    else
      var r := DeclaredFilters(rows, cat, name, test, n - 1);
      var t := cat[n - 1];
      if name in t.dataTypes && Qualify(t.alias, name) in t.labels then
        FilterRows(r, Offset(cat, n - 1) + IndexOf(t.labels, Qualify(t.alias, name)), test)
      else r
  }

  /** The first `n` tables filtered as by the unaliased pushdown, one table at a time. */
  function FilterFirst(cat: Catalog, name: string, test: Test, n: nat): (r: Catalog)
    requires n <= |cat|
    ensures |r| == |cat|
  {
    if n == 0 then cat else FilterFirst(cat, name, test, n - 1)[n - 1 := FilterDeclared(cat[n - 1], name, test)]
  }

  /** Exactly the first `n` tables are filtered. */
  lemma {:induction false} FilterFirstAt(cat: Catalog, name: string, test: Test, n: nat)
    requires n <= |cat|
    ensures forall k :: 0 <= k < |cat| ==>
      FilterFirst(cat, name, test, n)[k] == if k < n then FilterDeclared(cat[k], name, test) else cat[k]
  {
    if n > 0 {
      FilterFirstAt(cat, name, test, n - 1);
    }
  }

  /** Filtering keeps every table's labels, hence every offset, and keeps every table aligned. */
  lemma {:induction false} FilterFirstShape(cat: Catalog, name: string, test: Test, n: nat)
    requires n <= |cat|
    ensures forall k :: 0 <= k < |cat| ==> FilterFirst(cat, name, test, n)[k].labels == cat[k].labels
    ensures AllAligned(cat) ==> AllAligned(FilterFirst(cat, name, test, n))
  {
    if n > 0 {
      FilterFirstShape(cat, name, test, n - 1);
    }
  }

  /** The tables from position `n` on are untouched. */
  lemma {:induction false} FilterFirstUntouched(cat: Catalog, name: string, test: Test, n: nat, k: nat)
    requires n <= k < |cat|
    ensures FilterFirst(cat, name, test, n)[k] == cat[k]
  {
    if n > 0 {
      FilterFirstUntouched(cat, name, test, n - 1, k);
    }
  }

  lemma {:induction false} FilterFirstSound(cat: Catalog, name: string, test: Test, n: nat, rows: seq<Row>)
    requires n <= |cat| && AllAligned(cat) && rows == ProductAll(cat)
    ensures ProductAll(FilterFirst(cat, name, test, n)) == DeclaredFilters(rows, cat, name, test, n)
  {
    if n > 0 {
      FilterFirstSound(cat, name, test, n - 1, rows);
      FilterFirstStep(cat, name, test, n, rows);
    }
  }

  /** One more table filtered: the product gains the filter of that table's column, if it declares the name. */
  lemma {:induction false} FilterFirstStep(cat: Catalog, name: string, test: Test, n: nat, rows: seq<Row>)
    requires 0 < n <= |cat| && AllAligned(cat)
    requires ProductAll(FilterFirst(cat, name, test, n - 1)) == DeclaredFilters(rows, cat, name, test, n - 1)
    ensures ProductAll(FilterFirst(cat, name, test, n)) == DeclaredFilters(rows, cat, name, test, n)
  {
    var t := cat[n - 1];
    if name in t.dataTypes && Qualify(t.alias, name) in t.labels {
      FilterFirstDeclared(cat, name, test, n, rows);
    } else {
      FilterFirstSkips(cat, name, test, n);
    }
  }

  /** A table that does not declare the name is not filtered. */
  lemma FilterFirstSkips(cat: Catalog, name: string, test: Test, n: nat)
    requires 0 < n <= |cat| && AllAligned(cat)
    requires !(name in cat[n - 1].dataTypes && Qualify(cat[n - 1].alias, name) in cat[n - 1].labels)
    ensures FilterFirst(cat, name, test, n) == FilterFirst(cat, name, test, n - 1)
  {
    FilterFirstUntouched(cat, name, test, n - 1, n - 1);
    var c := FilterFirst(cat, name, test, n - 1);
    assert c[n - 1 := cat[n - 1]] == c;
  }

  lemma {:induction false} FilterFirstDeclared(cat: Catalog, name: string, test: Test, n: nat, rows: seq<Row>)
    requires 0 < n <= |cat| && AllAligned(cat)
    requires name in cat[n - 1].dataTypes && Qualify(cat[n - 1].alias, name) in cat[n - 1].labels
    requires ProductAll(FilterFirst(cat, name, test, n - 1)) == DeclaredFilters(rows, cat, name, test, n - 1)
    ensures ProductAll(FilterFirst(cat, name, test, n)) == DeclaredFilters(rows, cat, name, test, n)
  {
    var p := IndexOf(cat[n - 1].labels, Qualify(cat[n - 1].alias, name));
    FilterFirstUnfold(cat, name, test, n, p);
    DeclaredFiltersAt(rows, cat, name, test, n, p);
    PushdownStep(FilterFirst(cat, name, test, n - 1), FilterFirst(cat, name, test, n), n - 1, p, test,
      DeclaredFilters(rows, cat, name, test, n - 1), DeclaredFilters(rows, cat, name, test, n), Offset(cat, n - 1));
  }

  /** The step of [FilterFirst] at a declaring table is the positional filter of [PushdownSound]. */
  lemma {:induction false} FilterFirstUnfold(cat: Catalog, name: string, test: Test, n: nat, p: nat)
    requires 0 < n <= |cat| && AllAligned(cat)
    requires name in cat[n - 1].dataTypes && Qualify(cat[n - 1].alias, name) in cat[n - 1].labels
    requires p == IndexOf(cat[n - 1].labels, Qualify(cat[n - 1].alias, name))
    ensures var c := FilterFirst(cat, name, test, n - 1);
      && AllAligned(c) && p < |c[n - 1].labels| && Offset(c, n - 1) == Offset(cat, n - 1)
      && FilterFirst(cat, name, test, n) == c[n - 1 := FilterTableAt(c[n - 1], p, test)]
  {
    FilterFirstUntouched(cat, name, test, n - 1, n - 1);
    FilterFirstShape(cat, name, test, n - 1);
    OffsetPrefix(cat, FilterFirst(cat, name, test, n - 1), n - 1);
  }

  lemma DeclaredFiltersAt(rows: seq<Row>, cat: Catalog, name: string, test: Test, n: nat, p: nat)
    requires 0 < n <= |cat|
    requires name in cat[n - 1].dataTypes && Qualify(cat[n - 1].alias, name) in cat[n - 1].labels
    requires p == IndexOf(cat[n - 1].labels, Qualify(cat[n - 1].alias, name))
    ensures DeclaredFilters(rows, cat, name, test, n) == FilterRows(DeclaredFilters(rows, cat, name, test, n - 1), Offset(cat, n - 1) + p, test)
  {
  }

  /** [PushdownSound] with its two sides named. */
  lemma PushdownStep(c: Catalog, d: Catalog, i: nat, p: nat, test: Test, prev: seq<Row>, next: seq<Row>, off: nat)
    requires AllAligned(c) && i < |c| && p < |c[i].labels| && off == Offset(c, i)
    requires d == c[i := FilterTableAt(c[i], p, test)] && ProductAll(c) == prev && next == FilterRows(prev, off + p, test)
    ensures ProductAll(d) == next
  {
    PushdownSound(c, i, p, test);
  }

  /** Pushdown soundness for an unaliased column: filtering every declaring table equals filtering
      the product on each declaring table's column. */
  lemma FilterDeclaringSound(cat: Catalog, name: string, test: Test)
    requires CatalogWellFormed(cat)
    ensures ProductAll(FilterDeclaring(cat, name, test)) == DeclaredFilters(ProductAll(cat), cat, name, test, |cat|)
  {
    assert AllAligned(cat);
    FilterFirstSound(cat, name, test, |cat|, ProductAll(cat));
    FilterFirstAt(cat, name, test, |cat|);
    assert FilterFirst(cat, name, test, |cat|) == FilterDeclaring(cat, name, test);
  }

  /** The fold over the list of tables as `reduce` performs it (at least one table). */
  function Reduce(cat: Catalog): seq<Row>
    requires |cat| >= 1
  {
    if |cat| == 1 then cat[0].rows else Product(Reduce(cat[..|cat| - 1]), cat[|cat| - 1].rows)
  }

  lemma {:induction false} ReduceIsProductAll(cat: Catalog)
    requires |cat| >= 1
    ensures Reduce(cat) == ProductAll(cat)
  {
    if |cat| == 1 {
      assert cat[..0] == [];
      ProductUnit(cat[0].rows);
    } else {
      ReduceIsProductAll(cat[..|cat| - 1]);
    }
  }

  /** Some table has a frame without columns but still has labels. Its frame adds no column to the
      product, so `columns = labels` finds fewer columns than labels. */
  predicate RelabelFails(cat: Catalog)
  {
    exists i :: 0 <= i < |cat| && cat[i].columnless && |cat[i].labels| > 0
  }

  /** The number of columns of the frames: none for a frame without columns, one per label otherwise. */
  function FrameWidth(cat: Catalog): nat
  {
    if cat == [] then 0 else FrameWidth(cat[..|cat| - 1]) + if cat[|cat| - 1].columnless then 0 else |cat[|cat| - 1].labels|
  }

  /** The frames have as many columns as there are labels exactly when the relabelling fits. */
  lemma {:induction false} FrameWidthFits(cat: Catalog)
    ensures FrameWidth(cat) <= Width(cat)
    ensures FrameWidth(cat) == Width(cat) <==> !RelabelFails(cat)
  {
    if cat != [] {
      var front, last := cat[..|cat| - 1], cat[|cat| - 1];
      FrameWidthFits(front);
      assert forall i :: 0 <= i < |front| ==> front[i] == cat[i];
      if RelabelFails(front) {
        var i :| 0 <= i < |front| && front[i].columnless && |front[i].labels| > 0;
        assert cat[i].columnless && |cat[i].labels| > 0;
      }
      if last.columnless && |last.labels| > 0 {
        assert RelabelFails(cat) by {
          assert cat[|cat| - 1] == last;
        }
      }
      if RelabelFails(cat) {
        var i :| 0 <= i < |cat| && cat[i].columnless && |cat[i].labels| > 0;
        if i < |front| {
          assert front[i] == cat[i];
        }
      }
    }
  }

  /** `__constructCrossPoduct`: one table is used as it is; several are folded pairwise; `reduce` of
      an empty list raises TypeError; relabelling with more labels than columns raises ValueError. */
  function CrossProduct(cat: Catalog): Result<Relation>
  {
    if |cat| == 0 then Err(TypeError)
    else if RelabelFails(cat) then Err(ValueError)
    else if |cat| == 1 then Ok(Relation(cat[0].labels, cat[0].rows))
    else Ok(Relation(AllLabels(cat), Reduce(cat)))
  }

  /** The cross product, one table or many: the tables' labels concatenated in catalog order, every
      combination of rows, as many rows as the product of the row counts, aligned with the labels.
      It raises TypeError for no tables, and ValueError when a frame without columns has labels. */
  lemma CrossProductSpec(cat: Catalog)
    requires AllAligned(cat)
    ensures CrossProduct(cat).Ok? <==> |cat| >= 1 && !RelabelFails(cat)
    ensures CrossProduct(cat).Err? ==> CrossProduct(cat).error == if |cat| == 0 then TypeError else ValueError
    ensures CrossProduct(cat).Ok? ==>
      && CrossProduct(cat).value == Relation(AllLabels(cat), ProductAll(cat))
      && |CrossProduct(cat).value.rows| == RowCountProduct(cat)
      && RelationWellFormed(CrossProduct(cat).value)
  {
    if |cat| >= 1 && !RelabelFails(cat) {
      ReduceIsProductAll(cat);
      if |cat| == 1 {
        assert cat[..0] == [];
      }
      ProductAllCount(cat);
      ProductAllArity(cat);
      var rel := CrossProduct(cat).value;
      forall j | 0 <= j < |rel.rows|
        ensures |rel.rows[j]| == |rel.labels|
      {
        assert rel.rows[j] in ProductAll(cat);
      }
    }
  }

  /** The cross product as documented, every frame having its header's columns even without rows:
      the tables' labels in catalog order, and no rows exactly when some table has none. */
  function CrossProductIntended(cat: Catalog): (r: Result<Relation>)
    requires AllAligned(cat)
    ensures r.Ok? <==> |cat| >= 1
    ensures r.Ok? ==> r.value.labels == AllLabels(cat) && RelationWellFormed(r.value)
    ensures r.Ok? ==> (r.value.rows == [] <==> exists k :: 0 <= k < |cat| && cat[k].rows == [])
  {
    if |cat| == 0 then Err(TypeError)
    else
      ProductAllCount(cat);
      ProductAllArity(cat);
      var rel := Relation(AllLabels(cat), ProductAll(cat));
      assert RelationWellFormed(rel) by {
        forall j | 0 <= j < |rel.rows|
          ensures |rel.rows[j]| == |rel.labels|
        {
          assert rel.rows[j] in ProductAll(cat);
        }
      }
      Ok(rel)
  }

  /** Unless a frame without columns has labels, the product as written is the documented one. */
  lemma CrossProductAgrees(cat: Catalog)
    requires AllAligned(cat)
    ensures !RelabelFails(cat) ==> CrossProduct(cat) == CrossProductIntended(cat)
    ensures RelabelFails(cat) ==> CrossProduct(cat) == Err(ValueError) && CrossProductIntended(cat).Ok?
  {
    CrossProductSpec(cat);
  }

  /** A table file with a header `x: int` and no rows: the code raises ValueError where the documented
      product is empty. */
  lemma EmptyFileRelabel()
    ensures var cat := [FromHeader("a", [("x", "int")], [])];
      && CrossProduct(cat) == Err(ValueError)
      && CrossProductIntended(cat) == Ok(Relation(["a.x"], []))
  {
    var cat := [FromHeader("a", [("x", "int")], [])];
    var ls := QualifiedLabels("a", [("x", "int")]);
    assert |ls| == 1 && ls[0] == Qualify("a", "x") == "a.x";
    assert ls == ["a.x"];
    assert cat[0].columnless && |cat[0].labels| > 0;
    assert AllLabels(cat) == ["a.x"];
  }

  // ---------------------------------------------------------------------------------------------
  // The whole pushdown on the product

  /** Table `i` has the column `name`, and the row's cell in it passes the test. */
  predicate ColumnPasses(cat: Catalog, i: nat, name: string, test: Test, x: Row)
    requires i < |cat|
  {
    var l := Qualify(cat[i].alias, name);
    l in cat[i].labels && var q := Offset(cat, i) + IndexOf(cat[i].labels, l); q < |x| && Passes(test, x[q])
  }

  /** A product row passes a column test: its cell in the tested column of every table the column
      reference targets satisfies the test. */
  predicate ColumnTestPasses(cat: Catalog, c: ColumnRef, test: Test, x: Row)
  {
    forall i :: 0 <= i < |cat| && Targets(cat[i], c) ==> ColumnPasses(cat, i, c.name, test, x)
  }

  /** A product row passes a pushed clause. A clause without a literal side is not pushed; every row
      passes it. */
  predicate PassesPushed(cat: Catalog, clause: Clause, x: Row)
  {
    HasLiteral(clause) && !LiteralPair(clause) ==> ColumnTestPasses(cat, PushedColumn(clause), PushedTest(clause), x)
  }

  /** The product filtered on the columns of the declaring tables keeps exactly the rows that pass
      the test in every such column. */
  lemma {:induction false} DeclaredFiltersMembership(rows: seq<Row>, cat: Catalog, name: string, test: Test, n: nat, x: Row)
    requires n <= |cat|
    ensures x in DeclaredFilters(rows, cat, name, test, n) <==>
      x in rows && forall i :: 0 <= i < n && name in cat[i].dataTypes && Qualify(cat[i].alias, name) in cat[i].labels ==>
        ColumnPasses(cat, i, name, test, x)
  {
    if n > 0 {
      DeclaredFiltersMembership(rows, cat, name, test, n - 1, x);
      var t := cat[n - 1];
      if name in t.dataTypes && Qualify(t.alias, name) in t.labels {
        var r := DeclaredFilters(rows, cat, name, test, n - 1);
        FilterRowsMembership(r, Offset(cat, n - 1) + IndexOf(t.labels, Qualify(t.alias, name)), test, x);
      }
    }
  }

  /** Pushing a test on an aliased column filters the one table with that alias. */
  lemma PushAliasedSound(cat: Catalog, c: ColumnRef, test: Test, x: Row)
    requires CatalogWellFormed(cat) && Aliased(c) && PushColumn(cat, c, test).Ok?
    ensures x in ProductAll(PushColumn(cat, c, test).value) <==> x in ProductAll(cat) && ColumnTestPasses(cat, c, test, x)
  {
    var i := AliasIndex(cat, c.table).value;
    assert AllAligned(cat);
    PushTableMembership(cat, i, c.name, test, x, PushColumn(cat, c, test).value);
    AliasTargetsOne(cat, c, test, x, i);
  }

  /** Filtering table `i` on its column `name` keeps the product rows whose cell there passes. */
  lemma PushTableMembership(cat: Catalog, i: nat, name: string, test: Test, x: Row, pushed: Catalog)
    requires AllAligned(cat) && i < |cat| && Qualify(cat[i].alias, name) in cat[i].labels
    requires pushed == cat[i := FilterTableAt(cat[i], IndexOf(cat[i].labels, Qualify(cat[i].alias, name)), test)]
    ensures x in ProductAll(pushed) <==> x in ProductAll(cat) && ColumnPasses(cat, i, name, test, x)
  {
    var p := IndexOf(cat[i].labels, Qualify(cat[i].alias, name));
    PushdownMembership(cat, i, p, test, x);
    ColumnPassesAt(cat, i, name, test, x, p);
  }

  /** [ColumnPasses] at a known column position. */
  lemma ColumnPassesAt(cat: Catalog, i: nat, name: string, test: Test, x: Row, p: nat)
    requires i < |cat| && Qualify(cat[i].alias, name) in cat[i].labels && p == IndexOf(cat[i].labels, Qualify(cat[i].alias, name))
    ensures ColumnPasses(cat, i, name, test, x) == (Offset(cat, i) + p < |x| && Passes(test, x[Offset(cat, i) + p]))
  {
  }

  /** [PushdownSound] as membership: the rows kept are those whose cell at the table's column passes. */
  lemma PushdownMembership(cat: Catalog, i: nat, p: nat, test: Test, x: Row)
    requires AllAligned(cat) && i < |cat| && p < |cat[i].labels|
    ensures x in ProductAll(cat[i := FilterTableAt(cat[i], p, test)]) <==>
      x in ProductAll(cat) && Offset(cat, i) + p < |x| && Passes(test, x[Offset(cat, i) + p])
  {
    var filtered := ProductAll(cat[i := FilterTableAt(cat[i], p, test)]);
    assert filtered == FilterRows(ProductAll(cat), Offset(cat, i) + p, test) by {
      PushdownSound(cat, i, p, test);
    }
    MembershipOfFiltered(ProductAll(cat), filtered, Offset(cat, i) + p, test, x);
  }

  /** Membership in a list of rows known to be a filter of another. */
  lemma MembershipOfFiltered(rows: seq<Row>, filtered: seq<Row>, p: nat, test: Test, x: Row)
    requires filtered == FilterRows(rows, p, test)
    ensures x in filtered <==> x in rows && p < |x| && Passes(test, x[p])
  {
    FilterRowsMembership(rows, p, test, x);
  }

  /** With distinct aliases, an aliased column targets only the table with that alias. */
  lemma AliasTargetsOne(cat: Catalog, c: ColumnRef, test: Test, x: Row, i: nat)
    requires AliasesDistinct(cat) && Aliased(c) && i < |cat| && cat[i].alias == c.table
    ensures ColumnTestPasses(cat, c, test, x) <==> ColumnPasses(cat, i, c.name, test, x)
  {
  }

  /** Pushing a test on an unaliased column filters every table that declares it. */
  lemma PushUnaliasedSound(cat: Catalog, c: ColumnRef, test: Test, x: Row)
    requires CatalogWellFormed(cat) && !Aliased(c) && PushColumn(cat, c, test).Ok?
    ensures x in ProductAll(PushColumn(cat, c, test).value) <==> x in ProductAll(cat) && ColumnTestPasses(cat, c, test, x)
  {
    assert PushColumn(cat, c, test).value == FilterDeclaring(cat, c.name, test);
    FilterDeclaringSound(cat, c.name, test);
    DeclaredFiltersMembership(ProductAll(cat), cat, c.name, test, |cat|, x);
    forall i | 0 <= i < |cat| && c.name in cat[i].dataTypes
      ensures Qualify(cat[i].alias, c.name) in cat[i].labels
    {
      assert WellFormed(cat[i]);
    }
  }

  /** Pushing one clause down keeps exactly the product rows that pass it. */
  lemma PushClauseSound(cat: Catalog, clause: Clause, x: Row)
    requires CatalogWellFormed(cat) && PushClause(cat, clause).Ok?
    ensures x in ProductAll(PushClause(cat, clause).value) <==> x in ProductAll(cat) && PassesPushed(cat, clause, x)
  {
    if HasLiteral(clause) {
      var c, test := PushedColumn(clause), PushedTest(clause);
      assert PushClause(cat, clause) == PushColumn(cat, c, test);
      if Aliased(c) {
        PushAliasedSound(cat, c, test, x);
      } else {
        PushUnaliasedSound(cat, c, test, x);
      }
    }
  }

  /** Whether a row passes a pushed clause depends only on the schema, not on the rows. */
  lemma PassesPushedSchema(a: Catalog, b: Catalog, clause: Clause, x: Row)
    requires SameSchema(a, b)
    ensures PassesPushed(a, clause, x) <==> PassesPushed(b, clause, x)
  {
    forall i | 0 <= i <= |a|
      ensures Offset(a, i) == Offset(b, i)
    {
      OffsetPrefix(a, b, i);
    }
  }

  /** A product row passes every pushed clause of the WHERE list. */
  predicate PassesAll(cat: Catalog, where: seq<Clause>, x: Row)
  {
    forall k :: 0 <= k < |where| ==> PassesPushed(cat, where[k], x)
  }

  /** Splitting off the last clause of [PassesAll]. */
  lemma PassesAllSnoc(cat: Catalog, where: seq<Clause>, x: Row)
    requires where != []
    ensures PassesAll(cat, where, x) <==> PassesAll(cat, where[..|where| - 1], x) && PassesPushed(cat, where[|where| - 1], x)
  {
    var n := |where| - 1;
    assert forall k :: 0 <= k < n ==> where[..n][k] == where[k];
  }

  /** The whole pushdown loop keeps exactly the rows of the (pruned) product that pass every pushed
      clause's test at its column, so it removes no row that the pushed clauses would keep. */
  lemma {:induction false} PushAllSound(cat: Catalog, where: seq<Clause>, x: Row)
    requires CatalogWellFormed(cat) && PushAll(cat, where).Ok?
    ensures x in ProductAll(PushAll(cat, where).value) <==> x in ProductAll(cat) && PassesAll(cat, where, x)
  {
    if where != [] {
      var n := |where| - 1;
      var c := PushAll(cat, where[..n]).value;
      assert PushAll(cat, where).value == PushClause(c, where[n]).value;
      PushAllSound(cat, where[..n], x);
      PushClauseSound(c, where[n], x);
      PassesPushedSchema(cat, c, where[n], x);
      PassesAllSnoc(cat, where, x);
    }
  }
}
