# Relational tables: a verified model of `Table`

This project models the in-memory relational table of a small teaching
database. A table has:

- a name;
- an array of attribute names;
- an array of attribute domains;
- an array of primary-key attribute names;
- a list of tuples;
- an index from key values to tuples.

On top of the table sit the relational-algebra operators:

- `insert` adds a tuple and files it in the index under its key;
- `project` keeps the named columns;
- `select` works with a predicate or with a key;
- `union` and `minus`;
- the equi-join;
- the natural join.

The helpers they use are also modelled: `col`, `compatible`, `match`,
`extract`, `extractDom`, `typeCheck` and `removeDups`. Two alternative
method bodies are modelled as extra methods of the same class:

- a key select that scans the tuples linearly;
- an equi-join that compares extracted cells, checks the argument lengths
  and renames clashing attribute names.

The model is organised in these modules:

- `Values`: cell values, attribute domains, `Option`, and set/sequence helpers.
- `Names`: the Java `int` counter that numbers temporary tables, and the
  decimal rendering in `name + count++`.
- `Schema`: the column positions `match` computes, `Pick` (what
  `extract`/`extractDom` compute), and the common and non-common attribute
  names of the natural join.
- `RowOps`: value-level row operations.
  - `removeDups` as `Dedup`.
  - The pair order of the nested-loop joins, `MatchingPairs`.
  - The join's rows, `PairCells`/`JoinedCells`.
  - The attribute renaming, both as written (`Renamed`) and as intended
    (`Disambiguated`).
- `RowSets`: stored tuples, and the row-list functions the operators are
  proved against.
  - A tuple is an object (`Tuple`) whose cells never change, so identity
    and value can both be expressed.
  - The functions are `Filter`, `Without`, `KeyFilter`, `IndexedPicks`
    and `PickAll`.
  - The index relations are `Consistent` (every stored tuple is filed
    under its own key) and `Filed` (every entry sits under the key of the
    tuple it holds).
- `Lookups`: the operators that read cells through the index.
  - These are `project`, the equi-join and the natural join.
  - For every stored tuple they regenerate its key, look that key up, and
    read the named cells of the tuple the index returns.
  - They are written as methods over a `TableState` snapshot of the table.
- `Scans`: the alternative equi-join.
  - `extract` and the agreement loop.
  - The nested loops.
  - The in-place renaming of table2's attributes, as written
    (`RenameAsWritten`) and as intended (`Disambiguate`).
  - A proof that on a consistent index it pairs up exactly the tuples the
    key-lookup equi-join pairs up.
- `Tables`: the `Table` class with all the operators as methods, and the
  shared `Counter`.
  - `name`, the attribute and key arrays, and the domains are constant.
  - `tuples` and `index` are fields that `Insert` updates.
  - Every operator returns a fresh table with an empty index and advances
    the counter. The list constructor builds a fresh empty index.

In two places the code departs from what its own comments and relational
algebra lead a reader to expect. The model follows the code:

- **Natural join with no common attribute.** The Javadoc (Table.java:470-473)
  compares tuples "requiring common attributes to be equal". With no common
  attribute that holds for every pair, so a cross product is what it
  describes. The code returns no rows and the concatenated schema
  (Table.java:498-500).
- **`minus` and `union` comparison.** In relational algebra both are set
  operations on tuple values. The code compares tuples by identity.
  - `minus` tests with array `equals` (Table.java:296-301).
  - `union` collects the tuples in a `HashSet` of arrays (Table.java:271-284).

The alternative equi-join renames table2's own attribute array in place
(non-index.java:95-106). `Table.ScanJoin` models that: it modifies
`table2.attribute` with the loops as written (`Scans.RenameAsWritten`).
Which position those loops rename is a finding, below.

## Model

| member | source | states |
|---|---|---|
| Names.Successor | Table.java:212 | `count++` on a Java `int`: one more, except that the largest value wraps to the smallest; always one more modulo 2^32 |
| Names.IntToString | Table.java:212 | the counter's rendering in a table name is non-empty and starts with '-' exactly for negative counters |
| Names.NatToString | Table.java:212 | the decimal digits of a counter value: all digits, no leading zero |
| Names.NatToStringValue | Table.java:212 | reading the rendered digits back gives the counter value |
| Names.IntToStringInjective | Table.java:37-40 | different counter values give temporary tables different name suffixes |
| Schema.LastPos | Table.java:757-774 | the column `match` assigns to a name: a position holding that name with no later one holding it, or 0 when the name is absent |
| Schema.SchemaKeyPositions | non-index.java:10-16 | the key positions of the linear scan: ascending, each naming a key attribute, and every key attribute's position included |
| Schema.PickAgree | Table.java:419-430 | two equally long lists of looked-up cells are equal exactly when they agree at every compared position |
| Schema.MatchKnownFits | Table.java:757-774 | `match` of names that are all attributes gives positions inside the schema |
| Schema.LastPosDistinct | Table.java:760-767 | in a schema without repeated names, `match` finds each attribute at its own position |
| Schema.CommonMembers | Table.java:488-496 | the compared attributes of the natural join are exactly the names of table2 that are also attributes of this table |
| Schema.NonCommonMembers | Table.java:503-523 | the names the natural join appends are exactly table2's names that are not attributes of this table |
| Schema.NonCommonLength | Table.java:503-523 | the appended names are never more than table2's names, and all of them only when none was common |
| Schema.NonCommonCommonSuffix | Table.java:518-523 | common names after position n do not change which names are appended |
| Schema.NonCommonPrefix | Table.java:507-523 | when the merge stays in bounds, the appended names are exactly the first (number of distinct non-common names) names of table2 |
| Schema.NonCommonSlots | Table.java:518-523 | when the merge stays in bounds, a name of table2 is still in the set exactly when its position is below the number of non-common names |
| Schema.SchemaKeyPositionsAlign | non-index.java:10-24 | the key cells the linear scan collects are the key attributes taken in schema order |
| Schema.SchemaOrderKey | non-index.java:10-24 | with distinct attribute names and key names in schema order, the linear scan reads the key cells at exactly the positions `insert` files keys under |
| RowOps.DedupSpec | Table.java:329-345 | `removeDups` keeps every cell value of its input, each exactly once |
| RowOps.DedupLength | Table.java:329-345 | `removeDups` never lengthens a tuple, and keeps its length only on a tuple without repeated values, which it returns unchanged |
| RowOps.DedupRepeatSuffix | Table.java:331-336 | values that repeat an earlier one do not change the result of `removeDups` |
| RowOps.FirstsFitPrefix | Table.java:338-341 | when every first occurrence lies inside the result array, the tuple is its distinct values followed by repeats only, and `removeDups` returns that prefix |
| RowOps.FirstPositionsExtend | Table.java:331-336 | putting a value in the map only when it is new keeps "every value maps to its first position" |
| RowOps.FirstPositionsAt | Table.java:331-336 | a first occurrence is where the map of first positions points |
| RowOps.FirstPositionsFit | Table.java:338-341 | when first occurrences fit, every position in the map lies inside the result array |
| RowOps.FirstPositionsDedup | Table.java:338-344 | writing each map entry at its first position gives the first occurrences in order |
| RowOps.DistinctPrefixFirst | Table.java:329-345 | inside a prefix without repeats every position is a first occurrence |
| RowOps.RowPairs | Table.java:397-432 | the pairs the inner loop emits for one left tuple all have that tuple on the left and a right tuple in range |
| RowOps.MatchingPairs | Table.java:394-433 | every pair the nested loops emit indexes one tuple of each table |
| RowOps.PairCells | Table.java:431 | one concatenated row per emitted pair |
| RowOps.DedupAll | Table.java:584 | one deduplicated row per joined row |
| RowOps.JoinedCells | Table.java:431 | one result row per emitted pair, with or without `removeDups` |
| RowOps.JoinedCellsAppend | Table.java:394-433 | the rows of consecutive runs of pairs come out one after the other, with or without `removeDups` |
| RowOps.PairCellsAppend | Table.java:394-433 | the concatenated rows of consecutive runs of pairs come out one after the other |
| RowOps.DedupAllAppend | Table.java:584 | deduplicating row by row commutes with appending rows |
| RowOps.RowPairsSpec | Table.java:397-432 | the inner loop emits (i, j) exactly for the right tuples j that agree with left tuple i, in ascending j |
| RowOps.MatchingPairsMembers | Table.java:394-433 | a pair is emitted exactly when both positions are in range and the comparison values agree (both directions) |
| RowOps.MatchingPairsOrdered | Table.java:394-433 | the pairs come out in nested-loop order, this table's loop outer, so none is emitted twice |
| RowOps.MatchingPairsAll | Table.java:394-433 | when every comparison succeeds, the join is the full cross product |
| RowOps.RowPairsAll | Table.java:397-432 | when every right tuple agrees, the inner loop emits one pair per right tuple |
| RowOps.MatchingPairsEmpty | Table.java:394-433 | nothing is emitted when either table has no tuples |
| RowOps.Renamed | non-index.java:97-106 | the renaming as written keeps the array's length |
| RowOps.RenamedBeyond | non-index.java:97-106 | as written, positions at or beyond \|attributes1\| are never renamed |
| RowOps.RenamedSettled | non-index.java:97-106 | as written, position j is written only while attributes1[j] is being processed |
| RowOps.RenamedAt | non-index.java:97-106 | as written, position j ends as attributes1[j] + "2" exactly when attributes1[j] occurs in the array the earlier passes left, and is unchanged otherwise |
| RowOps.RenamedFires | non-index.java:97-106 | as written, a name of attributes1 found at or after its own position renames that position |
| RowOps.RenamedNoCollision | non-index.java:97-106 | with no clash between attributes1 and table2's names, nothing is renamed |
| RowOps.RenamedAsWrittenMisplaces | non-index.java:100-103 | as written, table2 = [a, b] joined on [b] becomes [b2, b]: the suffix lands on the wrong column and the clash stays |
| RowOps.RenamedAsWrittenOverruns | non-index.java:97-103 | as written, table2 = [b] joined on [x, b] writes past the end of the array |
| RowOps.RenameAll | non-index.java:98-104 | one intended pass keeps the array's length |
| RowOps.Disambiguated | non-index.java:97-106 | the intended renaming keeps the array's length |
| RowOps.DisambiguatedSpec | non-index.java:93-106 | intended renaming: exactly the attributes that occur in attributes1 get the suffix "2", and afterwards none clashes with attributes1 |
| RowOps.DisambiguatedKeeps | non-index.java:93-106 | intended renaming: an attribute outside attributes1 is never touched |
| RowSets.Tuple.constructor | Table.java:193-209 | a new tuple holds exactly the given cells |
| RowSets.CellsOf | Table.java:63 | the cells of the stored tuples, one list per tuple, in order |
| RowSets.CellsOfAppend | Table.java:63 | the cells of consecutive runs of tuples come one after the other |
| RowSets.FilterMembers | Table.java:223-229 | `select(predicate)` keeps a tuple exactly when it is stored and satisfies the predicate |
| RowSets.FilterAppend | Table.java:223-229 | the selected tuples keep their original order |
| RowSets.FilterAll | Table.java:223-229 | a predicate every tuple satisfies selects the whole table |
| RowSets.FindIdentical | Table.java:296-301 | the search in `kEEP_BiPredicate` finds the first position holding that very tuple, and finds nothing exactly when the tuple is not stored there |
| RowSets.WithoutMembers | Table.java:312-326 | `minus` keeps a tuple exactly when it is in this table and not in table2 |
| RowSets.WithoutAppend | Table.java:312-326 | `minus` keeps the tuples' original order |
| RowSets.WithoutCovered | Table.java:312-326 | minus a table holding every tuple gives nothing |
| RowSets.WithoutSelf | Table.java:312-326 | a table minus itself is empty |
| RowSets.WithoutDisjoint | Table.java:312-326 | minus a table that shares no tuple gives back every tuple in order |
| RowSets.KeyFilterMembers | non-index.java:17-28 | the linear scan returns a tuple exactly when it is stored and its key cells equal the key |
| RowSets.KeyFilterUnique | non-index.java:17-28 | with unique keys the linear scan returns just the tuple holding the key |
| RowSets.KeyFilterNone | non-index.java:17-28 | the linear scan returns nothing when no tuple has the key |
| RowSets.IndexedPicks | Table.java:190-210 | one list of looked-up cells per stored tuple |
| RowSets.IndexedPicksAt | Table.java:196-206 | the cells read for tuple q come from the tuple the index holds under q's regenerated key |
| RowSets.PickAll | non-index.java:68-72 | one list of extracted cells per stored tuple |
| RowSets.PickAllAt | non-index.java:71-72 | the cells extracted for tuple q are q's own cells at the compared columns |
| RowSets.ConsistentAdd | Table.java:629-635 | appending a tuple and filing it under an unused key keeps every stored tuple filed under its own key |
| RowSets.FiledAdd | Table.java:629-635 | filing a tuple under its own key keeps every index entry under the key of the tuple it holds |
| RowSets.TupleStep | Table.java:397-432 | one inner-loop step appends exactly the row of pair (i, j), or nothing |
| RowSets.RowsStep | Table.java:394-433 | one outer-loop step appends exactly the rows of left tuple i |
| RowSets.ConsistentPicks | Table.java:196-206 | on a consistent index, looking a tuple up by its own key gives the cells already in hand |
| RowSets.LinearScanMatchesIndex | non-index.java:17-28 | on a consistent, filed index of stored tuples with unique keys, the linear scan returns what the index holds for the key, or nothing |
| Lookups.GenerateKey | Table.java:196-203 | the regenerated key of a tuple is its cells at the key columns `match` finds, in key order |
| Lookups.LookupsIn | Table.java:190-210 | one list of looked-up cells per stored tuple |
| Lookups.Projected | Table.java:190-210 | `project` yields exactly one row per stored tuple |
| Lookups.LookupCell | Table.java:196-206 | one projected cell is the named cell of the tuple the index holds under the tuple's regenerated key |
| Lookups.Indexed | Table.java:206 | the looked-up tuple is one the index holds |
| Lookups.FillEntry | Table.java:193-207 | the new row holds, for each projected name in order, that column of the looked-up tuple |
| Lookups.ProjectEntry | Table.java:190-209 | row i of `project` is a new tuple with one cell per projected name, namely row i of the projection |
| Lookups.ProjectRows | Table.java:190-210 | the rows of `project` are new tuples, the projection of every stored tuple, in order |
| Lookups.LeftValues | Table.java:394-430 | one list of comparison cells per tuple of this table |
| Lookups.RightValues | Table.java:397-430 | one list of comparison cells per tuple of table2 |
| Lookups.MatchPairs | Table.java:394-433 | every pair a key-lookup join emits indexes one tuple of each table |
| Lookups.CountAgreements | Table.java:419-430 | `checks` ends at zero exactly when every compared pair of cells agrees (both directions) |
| Lookups.LookedUpCells | Table.java:401-424 | both regenerated keys are in their indexes, every compared cell exists, and the cells agree exactly when the comparison values agree |
| Lookups.PairAgrees | Table.java:400-430 | two tuples join exactly when their looked-up comparison values agree |
| Lookups.ConcatTuples | Table.java:431 | `ArrayUtil.concat` of two tuples is a new tuple holding the cells of the first, then those of the second |
| Lookups.FirstIndexMap | Table.java:330-336 | the map maps every cell value to the position of its first occurrence |
| Lookups.RemoveDups | Table.java:329-345 | `removeDups` returns a new tuple holding the first occurrence of each value in order, one cell per distinct value |
| Lookups.JoinPair | Table.java:396-431 | for tuples i and j: a new tuple holding their concatenation (deduplicated in the natural join) when they agree, and no row otherwise |
| Lookups.LookupTupleStep | Table.java:397-432 | one inner-loop step of a key-lookup join appends exactly the rows of pair (i, j) |
| Lookups.LookupRowsStep | Table.java:394-433 | one outer-loop step of a key-lookup join appends exactly the rows of left tuple i |
| Lookups.MatchTuple | Table.java:397-432 | the inner loop for left tuple i emits new tuples, the rows of its agreeing pairs, table2's tuples in order |
| Lookups.MatchRows | Table.java:394-433 | the nested loops emit a new tuple for every agreeing pair in nested-loop order, and nothing else |
| Scans.Extract | Table.java:783-789 | `extract` returns the tuple's cells at the columns `match` finds, in the order of the names |
| Scans.CellsEqual | non-index.java:74-83 | the flag stays true exactly when the first cell list agrees with the start of the second |
| Scans.ScanLeft | non-index.java:68-71 | one list of extracted cells per tuple of this table |
| Scans.ScanRight | non-index.java:69-72 | one list of extracted cells per tuple of table2 |
| Scans.ScanPairs | non-index.java:68-91 | every pair the scanning join emits indexes one tuple of each table |
| Scans.LookupJoinMatchesScan | non-index.java:68-91 | when both indexes file every stored tuple under its own key, the key-lookup equi-join and the scanning equi-join pair up the same tuples in the same order |
| Scans.ScanPair | non-index.java:71-89 | for tuples i and j: a new tuple holding their concatenation when the extracted cells agree, and no row otherwise |
| Scans.ScanTupleStep | non-index.java:69-90 | one inner-loop step of the scanning join appends exactly the row of pair (i, j) |
| Scans.ScanRowsStep | non-index.java:68-91 | one outer-loop step of the scanning join appends exactly the rows of left tuple i |
| Scans.ScanTuple | non-index.java:69-90 | the inner loop for left tuple i emits new tuples, the rows of its agreeing pairs, in order |
| Scans.ScanRows | non-index.java:68-91 | the rows are new tuples, the concatenation of every agreeing pair in nested-loop order, and nothing else |
| Scans.RenameAsWritten | non-index.java:95-106 | the renaming loops as written turn table2's attribute array, in place, into `Renamed` of its old contents: a clash of compared name j anywhere in the array renames position j; no write may fall past the end |
| Scans.Disambiguate | non-index.java:95-106 | the corrected renaming loop (writing at the clashing position k) turns table2's attribute array, in place, into its intended renaming `Disambiguated` |
| Tables.Counter.constructor | Table.java:40 | the counter starts at 0 |
| Tables.Counter.Next | Table.java:212 | `count++` yields the current value and advances it like a Java `int` |
| Tables.Concat | Table.java:435 | `ArrayUtil.concat` is a fresh array holding the first array, then the second |
| Tables.CellsAt | non-index.java:20-23 | the key values of a tuple are its cells at the collected key positions, in order |
| Tables.KeyArray | Table.java:630-633 | the key array `insert` fills holds the tuple's cell at each matched key column |
| Tables.EnumerateStep | Table.java:282-284 | moving one element of the set to the output keeps every element exactly once |
| Tables.FindColumn | Table.java:760-770 | the inner `match` loop finds the last position of the name and reports whether it was found at all |
| Tables.Enumerate | Table.java:282-284 | iterating the `HashSet` yields every element exactly once |
| Tables.AllNames | Table.java:503-506 | the name set grows to hold every attribute of both tables |
| Tables.PlaceOwn | Table.java:510-516 | this table's attributes are written at their own positions and removed from the set, which is left holding only table2's other names |
| Tables.PlaceOthers | Table.java:518-523 | table2's non-common names are written after this table's attributes, in table2's order, and this table's attributes are left alone |
| Tables.SplitAt | Table.java:507-523 | the merged array is its first part followed by the rest |
| Tables.MergedCount | Table.java:503-507 | the merged array has room for this table's attributes plus the distinct non-common names of table2 |
| Tables.MergedAttributes | Table.java:502-523 | the merged attribute array is this table's attributes followed by table2's non-common names in table2's order |
| Tables.Table.constructor | Table.java:114-122 | the primary constructor gives an empty table over the given schema |
| Tables.Table.WithTuples | Table.java:133-141 | the list constructor stores the given tuples as they are, with an empty index |
| Tables.Table.State | Table.java:45-77 | the snapshot holds the table's attribute names, key names, tuples and index |
| Tables.Table.Col | Table.java:608-615 | `col` is the first position of the name, or -1 exactly when the name is not an attribute |
| Tables.Table.Compatible | Table.java:737-749 | two tables are compatible exactly when their domain arrays have the same length and agree at every position |
| Tables.Table.Match | Table.java:757-774 | `match` gives each name's last position in the schema, or 0 when it is absent |
| Tables.Table.ExtractDom | Table.java:833-841 | `extractDom` gives the domain at each given column position, in order |
| Tables.Table.ColumnDomains | Table.java:174 | `extractDom(match(names), domain)` gives the domains of the named columns in order |
| Tables.Table.AttributeIndex | Table.java:180-188 | the name-to-position map holds every attribute, each at its last position |
| Tables.Table.TypeCheck | Table.java:800-804 | `typeCheck` accepts every tuple |
| Tables.Table.Insert | Table.java:625-640 | returns true; appends the tuple; files it under its key, replacing an earlier entry with that key; keeps index entries filed under their own keys, and keeps the index consistent unless the key was already in use |
| Tables.Table.Project | Table.java:171-213 | one row per stored tuple, holding the projected cells of its looked-up tuple; attributes are the projected names, domains are theirs, the key is kept when the projection contains it and is the projected array otherwise; every row a new tuple; fresh name, counter advanced |
| Tables.Table.Select | Table.java:223-229 | the stored tuples satisfying the predicate, the same objects in the same order, over the same schema |
| Tables.Table.SelectKey | Table.java:239-252 | the one tuple the index holds for the key, or no tuple when the key is absent, over the same schema |
| Tables.Table.KeyIndexes | non-index.java:10-16 | the positions of the key attributes in schema order |
| Tables.Table.NonIndexSelect | non-index.java:9-31 | every stored tuple (possibly several) whose key cells in schema order equal the key, in order, without reading the index, over the same schema |
| Tables.Table.LinearScanAgrees | non-index.java:9-31 | on a table built by `insert` with unique keys, distinct attribute names and key names in schema order, the linear scan returns what the indexed select returns |
| Tables.Table.Union | Table.java:262-286 | null, with the counter untouched, for incompatible tables; otherwise every tuple of either table exactly once, over this table's schema |
| Tables.Table.Keep | Table.java:296-301 | a tuple is kept exactly when that very tuple is not stored in the other table |
| Tables.Table.MinusKeeps | Table.java:296-326 | the tuples `minus` keeps are exactly the stored tuples `kEEP_BiPredicate` accepts |
| Tables.Table.Minus | Table.java:312-326 | null, with the counter untouched, for incompatible tables; otherwise this table's tuples that are not in table2, in order, which are exactly those `Keep` accepts |
| Tables.Table.NameMapsFor | Table.java:371-392 | the four name maps of a join each map every attribute to its last position |
| Tables.Table.JoinRows | Table.java:394-433 | the key-lookup join's rows are new tuples, the rows of every agreeing pair in nested-loop order |
| Tables.Table.Join | Table.java:363-437 | the concatenations of exactly the agreeing pairs, this table's loop outer; the schemas and domains concatenated without renaming; this table's key; every row a new tuple |
| Tables.Table.ScanJoin | non-index.java:53-111 | null, with nothing changed, for attribute lists of different lengths. Otherwise: the concatenations of the pairs whose extracted cells agree, in nested-loop order; table2's attribute array renamed in place as the loops are written (`Renamed`: a clash with compared name j renames position j), with no write past its end; the concatenated schemas and domains; this table's key; every row a new tuple |
| Tables.Table.CommonAttributes | Table.java:488-496 | the set of this table's names, and the compared attributes: table2's names that this table also has, in table2's order |
| Tables.Table.NaturalJoinOn | Table.java:502-599 | with a common attribute: the merged attributes; the domains of the common attributes; the key kept if still present, else the merged array; every agreeing pair's concatenation with repeated values removed, in nested-loop order; every row a new tuple |
| Tables.Table.NaturalJoin | Table.java:482-600 | with no common attribute: no rows, the concatenated schemas and domains, and this table's key; otherwise the result of `NaturalJoinOn`; every row a new tuple |

## Left out

- `print`, `printIndex` and every `out.println` diagnostic: output formatting only.
- `save` and `load`: file I/O and Java serialization.
- `findClass` and the string constructor: this is reflection on `java.lang` classes.
  - Tables are built from arrays of names, with domains as an enumeration.
  - Every operator takes its attribute lists already split, not as one space-separated string.
- `i_join` and `h_join`: stubs that return null.
- `getName` and `getTuples`: plain accessors.
- `makeMap` and the index backends:
  - The index is an abstract finite map.
  - `KeyType` is a sequence of values with value equality.
  - The `NO_MAP` configuration, which leaves the index null, is not modelled.
- Cell comparison:
  - The key-lookup joins compare cells with Java `==` (Table.java:423, 576). The model compares cells by value.
  - The scanning join compares with `.equals` (non-index.java:79), which is value equality only between cells of the same Java class; see the numeric classes below.
  - Tuples themselves are compared by identity, as in Java.
- Exceptions are modelled as preconditions, not as error results: `ProjectDefined`, `MatchDefined`, `DedupDefined`, `ScanDefined` and `NaturalDefined`.
  - They cover a missing index entry, an unknown attribute name and an index past the end of an array.
  - Each one asks for just what the loops that actually run would read.
  - `NonCommonFirst` is the condition under which the natural join's merging loop writes inside its array (Table.java:520). Otherwise Java throws `ArrayIndexOutOfBoundsException`.
  - `FirstsFit` is the same condition for the result array of `removeDups` (Table.java:341).
  - `RenameFits` is the same condition for the renaming loops of the scanning join (non-index.java:103).
- Tables.Table.NaturalJoinOn: requires distinct attribute names in this table, the relational schema invariant that attribute names are unique.
  - The model's merged attribute array is proved under that invariant only.
  - This excludes inputs Java accepts. For example, attributes [p, q, p] joined with [q] give the merged array [p, q] in Java. The first merging loop removes p from the name set, so it skips the second p (Table.java:510-516).
- Tables.Table.Union: states the set of tuples, not their order. The order of a `HashSet` of arrays is unspecified.
- `Tables.Table.WithTuples` stores the caller's tuple list as a value. The aliasing of that list between the caller and the new table is not modelled.
- RowOps.PairCells: gives an empty row for a pair outside the tables. Every pair the joins emit lies inside them (`PairsFit`).
- Domains: `Double` and `Float` cells are modelled as mathematical reals, with no rounding.
- Numeric classes: `Integer`, `Long`, `Short` and `Byte` cells are all `IntValue`, and `Double` and `Float` cells are all `RealValue`.
  - So the model treats `Integer` 1 and `Long` 1 as equal cells.
  - Java tells them apart in `.equals`, in `KeyType` equality and in the `HashMap` of `removeDups`.
  - For cells of different numeric classes, the model's comparisons, index lookups and duplicate removal can therefore match where Java's do not.
- Tables.Table.Project: not proved, that a projection containing the key keeps the number of distinct keys.
- `typeCheck`: the code accepts every tuple, so its arity and domain check is out of scope.
- The static `count` is the shared `Counter` object, which every operator takes as a parameter.

## Findings

| source | as written | input that shows it | evidently intended | confidence | as-written member | corrected member |
|---|---|---|---|---|---|---|
| non-index.java:100-103 | a clash of attributes1[j] with table2's attribute k renames position j of table2's array, rather than position k, and writes past the end when j is beyond that array | table2 attributes [a, b] joined on attributes1 [b] become [b2, b], so the clash on b remains; table2 attributes [b] with attributes1 [x, b] writes at index 1 of a one-element array | rename the clashing position k, so every attribute equal to a name of attributes1 gets the suffix "2" | not executed | RowOps.RenamedAsWrittenMisplaces | RowOps.DisambiguatedSpec |

The code as written is modelled by `RowOps.Renamed`, and its consequences
are proved in these lemmas:

- `RenamedAt`: only position j can change.
- `RenamedFires`: when j is renamed.
- `RenamedAsWrittenMisplaces`: the wrong column gets the suffix.
- `RenamedAsWrittenOverruns`: the write goes past the end.

`Scans.RenameAsWritten` runs the loops as written. It is the renaming
`Tables.Table.ScanJoin` applies, so the result's schema is the one `Renamed`
gives.

`Scans.Disambiguate` is the corrected loop, proved to produce
`Disambiguated`. `RowOps.DisambiguatedSpec` states what that renaming
achieves.
