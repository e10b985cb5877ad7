# A verified model of the JSON-SQL query engine

The engine takes a query that has already been parsed into JSON. The query has FROM entries (a
table source and an alias), SELECT items (a column reference and an output name) and WHERE clauses
(`left op right`, where each side is a column reference or a literal). The engine answers the query
over tables given as JSON files, in four stages:

1. **Building the catalog.** `Query.__constructTables` turns every FROM entry into a `Table` object.
   A table has qualified labels `alias.name`, a type map keyed by bare column name, and rows of
   cells. The tables go into a dictionary keyed by alias.
2. **Checking the query.** `Query.noErrors` checks the query before anything runs:
   - every SELECT item must name a known table, and a column of it;
   - an unqualified SELECT item must name a column found in exactly one table;
   - both sides of every WHERE clause must have the same type (`Query.__getDType`).

   It reports the first error as an `ERROR: ...` message.
3. **Optimising a valid query.** `Query.__optimiseQuery` does two things:
   - it deletes every column that neither SELECT nor WHERE mentions (`Table.deleteCol`);
   - it pushes each column-versus-literal clause down into the tables that hold the column, by
     filtering their rows, and drops that clause from the WHERE list.
4. **Running it.** `Query.run` works in four steps:
   - it builds the cross product of all tables (`__constructCrossPoduct`);
   - it keeps the rows that satisfy the remaining column-versus-column clauses (`__where` with
     `__genColName`);
   - it renames the selected columns and keeps them in SELECT order (`__select`);
   - it reports a header of `[name, type]` pairs, taken from the first row, followed by the rows.

## How the model is organised

The model follows the source's own form:

- **`Table` and `Query` are classes.** Their fields are updated in place, as in the source.
  - `Tables.Table` holds `labels`, `dataTypes` and `rows`. Its methods are `DeleteCol`,
    `KeepPassing` (the row filter of the pushdown) and `DeleteUnrequired` (the dead-column deletion).
  - `Queries.Query` holds the tables, the WHERE list, the check's outcome and the cross product.
  - The source's loops become methods with `while` loops. Each method is proved to compute a pure
    specification function over value snapshots (`TableState`, `Catalog = seq<TableState>` in
    dictionary order).
- **The specification functions live in their own modules:**
  - `Tables`: a table's state, deleting a column, pruning to the required columns, filtering rows;
  - `Catalogs`: the alias dictionary;
  - `Validation`: the check;
  - `Optimiser`: the pruning and the pushdown;
  - `Products`: the cross product;
  - `Evaluation`: WHERE, SELECT and the reply.
- **The properties are lemmas about those functions.** Among them:
  - the pushdown is sound: filtering one table before the cross product equals filtering the
    cross product at that table's columns, and the whole pushdown keeps exactly the cross-product
    rows that pass every pushed clause;
  - pruning then deleting one column equals pruning to the smaller set;
  - the check passes exactly when every item and every clause is valid;
  - a successful reply has one cell per header entry and only `as` names in its header;
  - a failed reply carries exactly the check's message.

The WHERE and SELECT stages take the lookup of an unqualified column as a parameter
(`Evaluation.Inference`):

- `LikeFilter` is the code as written: `filter(like=name).columns[0]`, the first label containing
  the name as a substring. WHERE searches the cross product's labels; SELECT searches the labels as
  renamed by the items before. The `Query` class and `Queries.RunQuery` use this lookup.
- `DeclaringTable` is the intended lookup: the label of the first table that declares the name.
- `Evaluation.EvaluateAgrees` and the lemmas before it prove that the two give the same reply
  whenever the substring filter cannot pick a wrong label. The counterexamples where they differ
  are listed under Findings.

The WHERE check passes a clause comparing two unqualified names that no table declares, since both
looked-up types are None. Resolving such a clause then raises IndexError
(`Evaluation.UnknownOperandsPassCheck`). `Evaluation.WhereResolves` therefore assumes that every
operand is declared, and does not follow from a passed check alone.

Where the source raises an exception on an input it does not reject, the model returns the
exception as a value (`Outcomes.Exception` inside `Result`, `Check` or `Response`).

A table file with no rows is loaded as `pd.DataFrame([])`, a data frame with no columns at all,
while `labels` and `dataTypes` still come from the header. `TableState.columnless` records this; it
holds exactly when the file has no rows. On such a table:

- `deleteCol` of a declared column drops the label and the type entry, then raises KeyError from
  `drop` (`Tables.Table.DeleteCol`);
- filtering a column in the pushdown raises KeyError (`Tables.Table.KeepPassing`,
  `Optimiser.PushColumnSucceeds`);
- relabelling the cross product raises ValueError, since the frame has fewer columns than labels
  (`Products.CrossProductSpec`).

The model calls the KeyError for a missing integer column label `FrameKeyError`. This behaviour is
listed under Findings.

Where the documented behaviour and the code disagree, the model follows the code:

- **Projecting one source column twice.** The documentation says the same source column may be
  projected under two output names. In the code the first `rename` replaces that label, so the
  second output name never becomes a label, and `data[selectedColumns]` raises KeyError. The model
  does the same (`Evaluation.Picks`, `Evaluation.PicksMissing`).
- **An empty result.** For a result with no rows the documentation leaves the output undefined.
  The code reads `data[0]` and raises IndexError, and `Evaluation.Assemble` models that. A result
  can be empty because the filters remove every row. When a table file itself has no rows, the run
  raises earlier, as described above.

## Model

| member | source | states |
|---|---|---|
| Values.OpMapComplements | queryObjects.py:156-165 | on two strings, or two numbers (an `int` or a `bool` each), `!=`, `>=` and `<=` are the negations of `=`, `<` and `>`, and exactly one of `<`, `=`, `>` holds |
| Values.BoolIsNumber | queryObjects.py:156-165 | a `bool` compares with an `int` as 0 or 1 (`True == 1`, `False < 1`, `True != 2`), and a string equals no number |
| Values.StrLessTrichotomy | queryObjects.py:156-165 | Python's string `<` is a strict total order: irreflexive, asymmetric, and any two distinct strings are ordered one way |
| Values.StrLessTransitive | queryObjects.py:156-165 | Python's string `<` is transitive |
| Tables.HeaderTypesEntries | queryObjects.py:343-350 | after the header loop, a name is a key of `dataTypes` exactly when some header entry has it, and maps to that entry's type when the name is not repeated later |
| Tables.FromHeaderShape | queryObjects.py:340-352 | a table built from a header with distinct names has label `alias.name` at position i for header entry i, the header's type for every name, no other keys, the given rows, and a consistent state; the frame has no columns exactly when there are no rows |
| Tables.Table.constructor | queryObjects.py:340-352 | the new object's state is the table built from the header, alias and rows, with `labels[i] == alias + "." + header[i].0` and every header type recorded |
| Tables.DeleteColumn | queryObjects.py:354-367 | deleting keeps the table consistent, drops `column` from the type map and `alias.column` from the labels, and changes nothing when `column` is not declared |
| Tables.DeleteColumnRemoves | queryObjects.py:360-367 | for a declared column, the label at its position and that cell of every row are removed; all other labels and cells keep their order |
| Tables.DeleteColumnIdempotent | queryObjects.py:360-367 | deleting the same column twice equals deleting it once |
| Tables.Table.DeleteCol | queryObjects.py:354-367 | the object's new state is `DeleteColumn` of its old state, and it stays consistent; it raises KeyError exactly when the column is declared and the frame has no columns, after the label and type entry are gone |
| Tables.PruneKeepsExactly | queryObjects.py:88-95 | after dead-column deletion, every remaining label is one of the table's labels whose bare name is required, every such label stays, the type map is cut to the required names, and the row count is unchanged |
| Tables.PruneIdempotent | queryObjects.py:88-95 | pruning twice with the same required set equals pruning once |
| Tables.PruneNothing | queryObjects.py:88-95 | when every declared column is required, pruning changes nothing |
| Tables.PruneThenDelete | queryObjects.py:88-95 | deleting one more column after pruning equals pruning without it, so deleting the columns one by one in any order gives the pruned table |
| Tables.Table.UnrequiredColumns | queryObjects.py:89-92 | the set to delete is exactly the declared columns that are not required |
| Tables.Table.DeleteUnrequired | queryObjects.py:88-95 | deleting the unrequired columns one `DeleteCol` at a time raises KeyError exactly when the frame has no columns and some declared column is not required; otherwise it leaves the object in the pruned state |
| Tables.FilterRowsMembership | queryObjects.py:112 | a row survives the filter exactly when it was there, has the column, and its cell passes the test |
| Tables.FilterRowsConcat | queryObjects.py:112 | filtering distributes over concatenation of row lists |
| Tables.FilterTableAt | queryObjects.py:110-112 | filtering the rows keeps the alias, labels and type map, and keeps rows aligned with the labels |
| Tables.Table.KeepPassing | queryObjects.py:110-112 | on a frame without columns it raises KeyError and changes nothing; otherwise the object's new state is its old state with only the rows whose cell at the column passes the test |
| Catalogs.AliasIndex | queryObjects.py:237 | the dictionary lookup by alias finds the first table with that alias, or reports that none has it |
| Catalogs.OwnersEmpty | queryObjects.py:245-250 | the list of tables declaring a name is empty exactly when no table declares it |
| Catalogs.OwnersSingle | queryObjects.py:245-252 | the list has exactly one entry exactly when exactly one table declares the name |
| Catalogs.OwnersFirstTwo | queryObjects.py:252-255 | with two or more owners, the first two entries are the aliases of the first two declaring tables, in dictionary order |
| Catalogs.FirstDeclaring | queryObjects.py:286-288 | the scan finds the first table that declares the name, or reports that none does |
| Catalogs.FirstDeclarer | queryObjects.py:286-288 | when the name has owners, the first declaring table heads the owner list |
| Catalogs.AssignKeys | queryObjects.py:307 | after `tables[alias] = table` an alias is a key exactly when it was one before or is the new alias |
| Catalogs.AssignEntry | queryObjects.py:307 | after the assignment each entry is the new table, or an old entry under a different alias |
| Catalogs.AssignDistinct | queryObjects.py:307 | the assignment keeps the aliases distinct |
| Catalogs.AssignWellFormed | queryObjects.py:307 | the assignment keeps every table consistent and adds at most one entry |
| Catalogs.BuildCatalogAliases | queryObjects.py:295-309 | the dictionary's keys are exactly the aliases of the FROM entries |
| Catalogs.BuildCatalogAliasesDistinct | queryObjects.py:295-309 | the dictionary holds each alias once |
| Catalogs.BuildCatalogWellFormed | queryObjects.py:295-309 | every table in the dictionary is consistent, and there are no more tables than FROM entries |
| Catalogs.BuildCatalogBinding | queryObjects.py:295-309 | each entry is the table of the last FROM entry with its alias |
| Catalogs.BuildCatalogDistinct | queryObjects.py:295-309 | with distinct aliases the dictionary holds one table per FROM entry, in FROM order |
| Validation.Message | queryObjects.py:238-265 | every error message starts with `ERROR: ` |
| Validation.LabelPresentIffDeclared | queryObjects.py:240 | testing for the label `table.column` is the same as testing the type map for the column |
| Validation.SelectItemAccepted | queryObjects.py:235-255 | a SELECT item passes exactly when it is resolvable: its table declares the column, or, with no table given, exactly one table does |
| Validation.SelectItemErrors | queryObjects.py:235-255 | each error is reported exactly in its case: unknown table, unknown column in a known table, unknown column, or ambiguous column naming the first two owners |
| Validation.FirstSelectErrorSpec | queryObjects.py:232-255 | the SELECT scan passes exactly when every item does, and otherwise reports the error of the first failing item |
| Validation.DTypeResolution | queryObjects.py:275-288 | an aliased column's type is its declared type, with KeyError for an unknown alias or column; an unaliased column's type comes from the first declaring table, or is None when no table declares it |
| Validation.FirstClauseCheckSpec | queryObjects.py:258-265 | the WHERE scan passes exactly when every clause does, and otherwise reports the first clause that does not |
| Validation.ClauseAccepted | queryObjects.py:262-265 | a clause passes exactly when both sides have a type lookup and the types are equal; it fails only with `IncompatibleTypes` naming the clause operator and the two looked-up types, and crashes with the first lookup's exception |
| Validation.ValidateOrder | queryObjects.py:231-267 | the check passes exactly when every SELECT item and every WHERE clause passes; SELECT errors come first, so a SELECT error is reported whatever the WHERE list is, and a crash happens only after SELECT is clean |
| Validation.PassedOperand | queryObjects.py:258-267 | in a clause that passed, a column compared with a literal is declared somewhere in the catalog |
| Validation.CheckClauseIntended | queryObjects.py:262-265 | the intended clause check rejects an unaliased column no table declares with `UnknownColumn`, left side first, and otherwise is the check as written; it passes exactly when neither side is such a column and the written check passes |
| Validation.IntendedCheckDeclares | queryObjects.py:258-267 | after the intended check passes a clause, every column operand is declared where it points |
| Optimiser.PruneCatalog | queryObjects.py:88-95 | dead-column deletion prunes every table of the catalog and keeps its alias and its place |
| Optimiser.PruneCatalogSpec | queryObjects.py:88-95 | in every pruned table the labels left are exactly the required labels, and the row count is unchanged |
| Optimiser.FilterDeclaring | queryObjects.py:115-121 | an unqualified pushdown filters every table that declares the column and keeps every schema |
| Optimiser.PushColumn | queryObjects.py:104-121 | pushing a test down keeps the catalog consistent and its schema unchanged |
| Optimiser.PushClause | queryObjects.py:100-144 | pushing a clause keeps the schema, and a clause with no literal side leaves the catalog unchanged |
| Optimiser.PushClauseEffect | queryObjects.py:104-142 | a pushed clause filters, in each table it targets, the rows whose cell at the column's label fails the test, and leaves every other table unchanged |
| Optimiser.PushColumnSucceeds | queryObjects.py:104-121 | pushing a test on a declared column fails exactly when a table it targets has no columns, and then raises KeyError |
| Optimiser.PushClauseSucceeds | queryObjects.py:100-144 | when the pushed column is declared, a clause pushes without error exactly when it is not blocked; comparing two literals raises KeyError('column'), and reaching a frame without columns raises KeyError for the column |
| Optimiser.PruneBlocked | queryObjects.py:88-144 | pruning to the required names does not change whether a clause blocks the pushdown |
| Optimiser.PushedTest | queryObjects.py:112 | the pushed test uses the clause's operator, with the literal on the side where the clause has it |
| Optimiser.PushAll | queryObjects.py:98-144 | pushing every clause in turn keeps the catalog consistent and its schema unchanged |
| Optimiser.PushAllSucceeds | queryObjects.py:98-144 | the WHERE pass succeeds exactly when no clause blocks, and otherwise raises the exception of the first clause that blocks |
| Optimiser.PruneKeepsDeclared | queryObjects.py:74-95 | a required column that the catalog declares is still declared after pruning |
| Optimiser.OptimiseAfterCheck | queryObjects.py:74-144 | after a passed check, optimising succeeds exactly when no deletion hits a frame without columns and no clause blocks; a failing deletion raises KeyError, and otherwise the first blocking clause's exception is raised |
| Optimiser.EmptyFilePrune | queryObjects.py:88-95 | for a table `a(x, y)` whose file has no rows, `SELECT x` makes the deletion of `y` raise KeyError |
| Optimiser.EmptyFilePush | queryObjects.py:115-121 | on the same table, `SELECT x, y WHERE x = 1` deletes nothing, and the pushdown of `x = 1` raises KeyError |
| Optimiser.ResidualMembership | queryObjects.py:146 | a clause is left in WHERE exactly when it is in WHERE and has no literal side |
| Optimiser.RemoveMarkedIsResidual | queryObjects.py:146 | the `index(clause) not in redundant` step gives exactly the clauses with no literal side, repeated clauses included |
| Optimiser.Optimise | queryObjects.py:65-146 | a successful optimisation leaves a consistent catalog |
| Optimiser.OptimiseShape | queryObjects.py:65-146 | after optimising, each table keeps its place and alias, its columns are cut to the required names, and the WHERE list is the residual clauses |
| Products.ProductLength | queryObjects.py:326-328 | the merge on a constant key has `|a| * |b|` rows |
| Products.ProductMembership | queryObjects.py:326-328 | a row is in the merged product exactly when it is a row of the left table followed by a row of the right one |
| Products.ProductArity | queryObjects.py:326-328 | product rows have the sum of the two widths |
| Products.ReduceIsProductAll | queryObjects.py:325-328 | reducing the table list with the pairwise merge equals the cross product of all tables |
| Products.AllLabels | queryObjects.py:331-335 | the cross product's labels are as many as its width |
| Products.AllLabelsAt | queryObjects.py:331-335 | label `p` of table `i` sits at that table's offset plus `p` among the cross product's labels |
| Products.ProductAllCount | queryObjects.py:318-328 | the product of the tables' rows has the product of the row counts, and is empty exactly when some table has no rows (the relabel raises before that when a table file had no rows; see `Products.CrossProductSpec`) |
| Products.FrameWidthFits | queryObjects.py:321-335 | the merged frame, where a table from an empty file adds no columns, is at most as wide as the labels, and exactly as wide when no such table has labels |
| Products.ProductAllArity | queryObjects.py:326-335 | every cross-product row has one cell per cross-product label |
| Products.CrossProductSpec | queryObjects.py:318-337 | the cross product exists exactly when there is at least one table and no table from an empty file has labels; no table raises TypeError from `reduce`, such a table raises ValueError from the relabel; otherwise its labels are all tables' labels in dictionary order, its rows the product of their rows, aligned |
| Products.CrossProductIntended | queryObjects.py:318-337 | the intended cross product exists exactly when there is a table; it has all tables' labels, is aligned, and has no rows exactly when some table has none |
| Products.CrossProductAgrees | queryObjects.py:318-337 | without a labelled table from an empty file the cross product as written is the intended one; with one it raises ValueError where the intended one succeeds |
| Products.EmptyFileRelabel | queryObjects.py:318-321 | for the one table `a(x)` whose file has no rows, the cross product raises ValueError, while the intended one is the relation with label `a.x` and no rows |
| Products.PushdownSound | queryObjects.py:108-112 | filtering table `i` at column `p` before the cross product equals filtering the cross product at that column's offset |
| Products.FilterProductLeft | queryObjects.py:108-112 | filtering a product on a left-hand column equals filtering the left factor first |
| Products.FilterProductRight | queryObjects.py:108-112 | filtering a product on a right-hand column equals filtering the right factor first |
| Products.FilterDeclaringSound | queryObjects.py:115-121 | an unqualified pushdown's effect on the cross product is the filter of each declaring table's column, applied in dictionary order |
| Products.DeclaredFiltersMembership | queryObjects.py:115-121 | a row survives the filters of the declaring tables exactly when it was there and its cell passes the test in each declaring table's column |
| Products.PushAliasedSound | queryObjects.py:104-112 | pushing a test on `table.name` keeps exactly the cross-product rows whose cell in that table's column passes |
| Products.PushUnaliasedSound | queryObjects.py:115-121 | pushing a test on a bare name keeps exactly the cross-product rows whose cell passes in the column of every table that declares the name |
| Products.PushClauseSound | queryObjects.py:100-144 | pushing one clause keeps exactly the cross-product rows that pass its test in every targeted column; a clause with no literal side keeps every row |
| Products.PushAllSound | queryObjects.py:98-144 | after the whole pushdown loop, the cross product holds exactly the rows of the unpushed one that pass every pushed clause's test in every column the clause targets |
| Seqs.FirstContaining | queryObjects.py:224 | `filter(like=name).columns[0]` finds the position of the first label containing the name, or reports that no label contains it |
| Evaluation.ResolveByLikeFilter | queryObjects.py:224 | the lookup as written returns the first label that contains the name as a substring, and raises IndexError exactly when no label contains it |
| Evaluation.LikeFilterPicksOtherColumn | queryObjects.py:187 | for table `a` with columns `paid, id`, the substring lookup of `id` gives `a.paid`, while the declaring-table lookup gives `a.id` |
| Evaluation.LikeFilterAgrees | queryObjects.py:224 | when the one label containing the name is the declared column's label (or no label contains it and no table declares it), the lookup as written and the declaring-table lookup agree |
| Evaluation.GenColName | queryObjects.py:214-224 | a literal operand raises KeyError('column'); an aliased column gives `table.name`; only an unaliased one can fail, with IndexError; under the lookup as written the label found contains the name |
| Evaluation.GenColNameAgrees | queryObjects.py:214-224 | on an operand the substring filter cannot mistake, both lookups give the same label or the same error |
| Evaluation.ResolveUnaliasedFound | queryObjects.py:220-224 | the corrected lookup succeeds exactly when some table declares the name, and otherwise raises IndexError |
| Evaluation.ResolveUnaliasedAt | queryObjects.py:220-224 | the corrected lookup gives `alias.name` for the first declaring table, a label of that table |
| Evaluation.ResolveUnaliasedOwner | queryObjects.py:220-224 | when exactly one table declares the name, the lookup gives that table's label |
| Evaluation.Lookup | queryObjects.py:210 | `data[label]` finds a position holding the label, or raises KeyError exactly when the label is missing |
| Evaluation.ResolveAll | queryObjects.py:204-210 | resolving the WHERE list gives one condition per clause |
| Evaluation.KeepAllMembership | queryObjects.py:203-212 | a row survives every WHERE filter exactly when it is a cross-product row satisfying every condition |
| Evaluation.KeepIfThenAll | queryObjects.py:204-210 | filtering by one clause and then by the rest equals filtering by all of them |
| Evaluation.ApplyWhereSpec | queryObjects.py:203-212 | `__where` fails with the first clause's resolution error, or keeps the labels and the rows satisfying all resolved conditions, in order |
| Evaluation.ApplyWhereMembership | queryObjects.py:203-212 | when the clauses resolve, a row is in the result exactly when it is in the input and satisfies every condition |
| Evaluation.ApplyWhereAligned | queryObjects.py:203-212 | filtering keeps the labels and the row width |
| Evaluation.WhereResolves | queryObjects.py:207-210 | when every remaining clause compares two column references, each declared where it points, every clause resolves against the cross product's labels, under either lookup; a passed check alone does not give this (see `Evaluation.UnknownOperandsPassCheck`) |
| Evaluation.OperandResolves | queryObjects.py:214-224 | a column reference declared where it points resolves, under either lookup, to a label of the cross product |
| Evaluation.IntendedCheckResolves | queryObjects.py:203-224 | under the intended clause check, every column-versus-column clause that passed resolves against the cross product's labels, so `__where` raises no IndexError |
| Evaluation.ResolveAllAgrees | queryObjects.py:204-210 | when no clause operand can be mistaken by the substring filter, resolving the WHERE list with either lookup gives the same conditions or the same error |
| Evaluation.ApplyWhereAgrees | queryObjects.py:203-212 | under the same condition `__where` as written gives the result of the intended lookup |
| Evaluation.LikeFilterResolvesUndeclared | queryObjects.py:224 | for table `a` with the one column `food`, `foo = foo` passes the type check and the substring lookup resolves it to `a.food`, compared with itself, where the declaring-table lookup raises IndexError |
| Evaluation.UnknownOperandsPassCheck | queryObjects.py:262-265 | for table `a` with the one column `x`, `foo = bar` passes the type check (both types are None) and resolving it raises IndexError under either lookup |
| Evaluation.RenameAllKeeps | queryObjects.py:176-191 | after the renames, a label no rename targeted keeps its place, and every other position holds its old label or one of the `as` names |
| Evaluation.SelectTargets | queryObjects.py:177-189 | the SELECT loop resolves one source label per item |
| Evaluation.SelectTargetsPrefix | queryObjects.py:176-191 | the labels resolved for the first `n` items are the first `n` labels resolved for the whole list, so each item is resolved before the later renames |
| Evaluation.SelectTargetAt | queryObjects.py:177-189 | item `k` is resolved among the labels left after renaming items `0..k-1`, as the loop does |
| Evaluation.Positions | queryObjects.py:194 | `data[key]` selects exactly the positions holding the key, in increasing order |
| Evaluation.Picks | queryObjects.py:194 | `data[selectedColumns]` succeeds exactly when every key is a label, and selects only positions whose labels are keys |
| Evaluation.PicksMissing | queryObjects.py:194 | a failed selection raises KeyError for the first key that is not a label |
| Evaluation.PicksDistinct | queryObjects.py:194 | with distinct labels each key is selected at its one position |
| Evaluation.Project | queryObjects.py:167-194 | the projection keeps the row count, keeps rows aligned, and has only `as` names as labels |
| Evaluation.RenameAllPlain | queryObjects.py:176-191 | for distinct targets and fresh distinct names, each target's position carries its `as` name, all other labels are unchanged, and the labels stay distinct |
| Evaluation.ProjectPlain | queryObjects.py:176-194 | under either lookup and plain renames, the projection's labels are the `as` names in SELECT order, and cell `k` of each row is that row's cell in the column item `k` selects |
| Evaluation.ProjectPicked | queryObjects.py:176-194 | whenever every `as` name is a label after the renames, the projection has the labels and cells at the positions `data[selectedColumns]` picks, row by row |
| Evaluation.SelectRenamesAway | queryObjects.py:182-194 | for table `a` with columns `x, y`, `SELECT x AS y, y AS z` under the lookup as written renames `a.x` to `y` and then that `y` to `z`, so the projection raises KeyError('y') |
| Evaluation.SelectRenamesIntended | queryObjects.py:182-194 | on the same query the declaring-table lookup renames `a.x` to `y` and `a.y` to `z`, and the projection has labels `y, z` |
| Evaluation.SelectTargetsAgree | queryObjects.py:177-189 | when no SELECT item can be mistaken by the substring filter at its turn, the loop resolves the same labels with either lookup |
| Evaluation.ProjectAgrees | queryObjects.py:167-194 | under that condition the projection as written equals the projection under the intended lookup |
| Evaluation.Assemble | queryObjects.py:45-57 | the reply succeeds exactly when the result has a row, otherwise raising IndexError; its header has one entry per column, and its rows are the result's rows |
| Evaluation.AssembleHeader | queryObjects.py:48-51 | header entry `i` carries label `i`; when every column holds one type, that is the type name of every cell in the column |
| Evaluation.EvaluatePlain | queryObjects.py:33-58 | under either lookup, with plain renames, no labelled table from an empty file and a non-empty result, the reply's header is the `as` names in order, and its rows are the cross-product rows satisfying every WHERE condition, projected to the selected columns |
| Evaluation.EvaluateAgrees | queryObjects.py:33-58 | when neither the WHERE operands nor the SELECT items can be mistaken by the substring filter, the evaluation as written equals the evaluation under the intended lookup |
| Evaluation.EvaluateSuccess | queryObjects.py:33-58 | under either lookup, a successful reply has at least one row, one cell per header entry in every row, and only `as` names in its header |
| Evaluation.PipelineOutcome | queryObjects.py:14-63 | under either lookup, the reply is a failure exactly when the check found an error, and then carries its `ERROR: ` message; a success implies a passed check and a well-shaped, non-empty reply |
| Queries.ConstructTables | queryObjects.py:290-309 | the loop builds one fresh, unshared `Table` per dictionary entry, whose states are the catalog of the FROM entries |
| Queries.StoreTable | queryObjects.py:305-307 | constructing one table and assigning it under its alias gives the assigned catalog |
| Queries.NewTable | queryObjects.py:305 | the new `Table` is fresh, and its state is the table of the source |
| Queries.OptimiseTables | queryObjects.py:65-146 | optimising the tables in place gives the states and residual WHERE list of `Optimise`, or its exception |
| Queries.PruneTables | queryObjects.py:88-95 | the loop over the tables raises KeyError exactly when some table has no columns and an unrequired declared column, and otherwise leaves the pruned catalog |
| Queries.PruneStep | queryObjects.py:89-95 | one iteration prunes table `i` and leaves the others untouched, or raises KeyError exactly when table `i` has no columns and a column to delete |
| Queries.PushAllInto | queryObjects.py:98-144 | the WHERE loop filters the tables to the states of `PushAll`, and marks as redundant exactly the clauses with a literal side, or raises `PushAll`'s exception |
| Queries.PushStep | queryObjects.py:99-144 | one iteration extends the pushed prefix by one clause, or raises the exception of the whole pass |
| Queries.PushClauseInto | queryObjects.py:100-144 | pushing one clause into the tables gives the states of `PushClause`, or its exception; an exception other than the KeyError of a frame without columns changes nothing |
| Queries.PushTestInto | queryObjects.py:104-121 | filtering the targeted tables in place gives the states of `PushColumn`, or its exception; for an aliased column an exception changes nothing |
| Queries.FilterTables | queryObjects.py:115-121 | the loop raises KeyError exactly when a declaring table has no columns, and otherwise filters every declaring table in place, giving the states of `FilterDeclaring` |
| Queries.FilterIfDeclared | queryObjects.py:116-121 | one table is filtered when it declares the column, is left as it was otherwise, and raises KeyError when it declares the column but has no columns |
| Queries.CheckSelect | queryObjects.py:232-255 | the SELECT loop returns the first SELECT error, or none |
| Queries.TablesDeclaring | queryObjects.py:245-249 | the inner loop collects the aliases of the declaring tables in dictionary order |
| Queries.CheckWhere | queryObjects.py:258-267 | the WHERE loop returns the outcome of the first clause that does not pass, or passes |
| Queries.GetDType | queryObjects.py:269-288 | the lookup returns the operand's type as `DType` resolves it |
| Queries.RequiredCols | queryObjects.py:74-85 | the loops collect the names of the SELECT columns and the WHERE column operands |
| Queries.CrossProductOf | queryObjects.py:312-337 | the single-table case and the reduce-and-relabel case both give the cross product, counting the merged frame's columns to raise ValueError when the labels do not fit |
| Queries.WhereLoop | queryObjects.py:196-212 | the clause loop, resolving names with the substring lookup over the cross product's labels, returns `ApplyWhere` of the cross product with that lookup |
| Queries.SelectLoop | queryObjects.py:167-194 | the rename loop, resolving each item with the substring lookup over the labels renamed so far, and the final selection return the projection with that lookup |
| Queries.SelectLoopStep | queryObjects.py:176-191 | one iteration extends the resolved labels by the item's label found among the current labels, the output names by its `as` name, and the current labels by its rename |
| Queries.Respond | queryObjects.py:45-57 | the header loop builds the assembled reply |
| Queries.RunQuery | queryObjects.py:14-63 | constructing a `Query` and running it gives the reply of the whole pipeline with the lookup as written |
| Queries.PipelineFromState | queryObjects.py:14-63 | under either lookup, the state the constructor leaves determines the reply: a raised exception, the check's failure, or the evaluation of the optimised tables and WHERE list |
| Queries.Query.constructor | queryObjects.py:14-25 | the new query holds the catalog of its FROM entries, checked and, when the check passed, optimised |
| Queries.Query.CheckAndOptimise | queryObjects.py:22-25 | records the check's outcome and message, and optimises exactly when the check passed |
| Queries.Query.OptimisePassed | queryObjects.py:24-25 | after a passed check the tables and WHERE list become those of `Optimise`, or its exception is recorded |
| Queries.Query.NoErrors | queryObjects.py:226-267 | the check of the current tables, SELECT and WHERE |
| Queries.Query.OptimiseQuery | queryObjects.py:65-146 | the tables and WHERE list become those of `Optimise` of the old state, or its exception is returned |
| Queries.Query.ConstructCrossProduct | queryObjects.py:312-337 | binds the cross product of the current tables |
| Queries.Query.Where | queryObjects.py:196-212 | filters the bound cross product by the current WHERE list, with the lookup as written |
| Queries.Query.Select | queryObjects.py:167-194 | projects the given relation by the SELECT list, with the lookup as written |
| Queries.Query.Run | queryObjects.py:27-63 | a query that passed the check replies with the evaluation, with the lookup as written, of its tables, SELECT and WHERE list; otherwise it replies with failure and the stored message |
| Queries.Query.Finish | queryObjects.py:37-58 | from a bound cross product, WHERE, SELECT and the reply give the evaluation with the lookup as written |

## Left out

- Reading the table files (`open` and `json.load` in `__constructTables`) is not modelled. The
  loaded contents arrive as `Source` values: an alias, a header of `[name, type]` pairs, and rows.
- `sqlEval.py` (the command-line driver and output writing) and the Go and Java starter code are not
  part of this model.
- Floating-point cells and literals are left out. Cells are integers, strings or booleans.
- Pandas mixes column labels and column positions. `drop(index, axis=1)` and `data[colIndex]`
  index by integer label, while `labels.index` gives a position. After one deletion the integer
  labels no longer match positions. The model uses positions throughout and keeps row width equal
  to the number of labels.
- Python's runtime type names are modelled as `int`, `str` and `bool` only. Numpy scalar types that
  pandas might return from `values.tolist()` are not modelled.
- Values.Less: an ordering of a string against a number is false in the model, where Python
  raises TypeError. Such a comparison passes the check in two ways. First, the check types an
  unqualified WHERE column by its first declaring table, while the pushdown filters every declaring
  table: with `a(x int)`, `b(x str)` and `WHERE x < 1`, the cells of `b.x` are compared with 1.
  Second, the substring lookup can resolve a column to another one, of another type: with
  `a(paid str, id int)`, `WHERE id < a.id` passes the check as `int` against `int`, and `__where`
  then compares `a.paid` with `a.id`. A `bool` compared with an `int` is
  modelled as Python does it, as 0 or 1 (`Values.BoolIsNumber`), and equality across strings and
  numbers is false, as in Python.
- The integer label that the KeyError of a frame without columns names is not carried
  (`FrameKeyError`).
- Pandas `merge` suffixes and the dummy `key` column are not modelled. The merged frame is relabelled
  at once with the tables' labels, and the model builds the product with those labels directly.
- Exceptions carry only the offending key (or none) and not Python's message text.
- A label can repeat in the cross product, for instance through aliases `a` and `a.b` with columns
  `b.c` and `c`. Then `data[label]` in `__where` would select several columns, and the model takes
  the first (`Evaluation.Lookup`). With repeated labels in SELECT, all positions are selected
  (`Evaluation.Positions`), as pandas does.
- The object's state after an exception escapes from `__optimiseQuery` is left unspecified. In the
  source the constructor does not return such an object at all. In particular, after the KeyError
  of an unqualified pushdown, the tables before the one without columns may already be filtered.
- Tables.Table.constructor: requires distinct names in the header. With a repeated name, the source's
  `labels` and `dataTypes` disagree, and later deletion would leave a stale label.
- Evaluation.EvaluatePlain: states the exact output only under `PlainRenames`: distinct selected
  labels and fresh, distinct `as` names. Other SELECT lists are covered by
  `Evaluation.EvaluateSuccess`, `Evaluation.Picks` and `Evaluation.PicksMissing`.
- `errorMessage` is the empty string, in place of Python's None, while the check has not failed.

## Findings

| source | as written | input that shows it | evidently intended | confidence | as-written member | corrected member |
|---|---|---|---|---|---|---|
| queryObjects.py:187, queryObjects.py:224 | an unqualified column is resolved by `filter(like=name).columns[0]`: the first label that contains the name anywhere as a substring, among the cross product's labels in WHERE and among the labels renamed so far in SELECT | table `a` with columns `paid, id` and `SELECT id`: `a.paid` comes first and contains `id`; table `a` with columns `x, y` and `SELECT x AS y, y AS z`: the renamed `y` is found and renamed away, so `data[['y', 'z']]` raises KeyError; table `a` with column `food` and `WHERE foo = foo`: the check passes and `a.food` is compared with itself | the label `alias.name` of the first table that declares the name, the table the check found | not executed | Evaluation.ResolveByLikeFilter, Evaluation.LikeFilterPicksOtherColumn, Evaluation.SelectRenamesAway, Evaluation.LikeFilterResolvesUndeclared | Evaluation.ResolveUnaliasedAt, Evaluation.SelectRenamesIntended, Evaluation.EvaluateAgrees |
| queryObjects.py:262-265 | the WHERE check compares the two looked-up types, and an unqualified column no table declares has the type None, so two such columns compare equal and the clause passes | table `a` with column `x` and `WHERE foo = bar`: both types are None, the check passes, and `__where` raises IndexError from `columns[0]` | an undeclared column is reported as `ERROR: Unknown column`, as the SELECT check does | not executed | Evaluation.UnknownOperandsPassCheck | Validation.CheckClauseIntended, Evaluation.IntendedCheckResolves |
| queryObjects.py:351, queryObjects.py:367, queryObjects.py:112, queryObjects.py:321 | a table file with no rows becomes `pd.DataFrame([])`, a frame with no columns, while `labels` and `dataTypes` come from the header; deleting a declared column or filtering one then raises KeyError, and relabelling the cross product raises ValueError | table `a` with header `x, y` and no rows: `SELECT x` raises KeyError from `drop`, `SELECT x, y WHERE x = 1` raises KeyError from the filter, `SELECT x, y` raises ValueError from the relabel | the table has its declared columns and no rows, so the deletions and filters succeed and the cross product is empty | not executed | Products.EmptyFileRelabel, Optimiser.EmptyFilePrune, Optimiser.EmptyFilePush | Products.CrossProductIntended, Products.CrossProductAgrees |
