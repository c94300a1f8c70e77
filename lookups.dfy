/**
 * The operators of `Table` that read cells through the index: `project`,
 * the equi-join and the natural join. For every stored tuple they
 * regenerate the tuple's key from a name-to-position map, look the key up in
 * the index and read the named cells of the tuple the index returns. They
 * read only the schema names, the key names, the tuple list and the index of
 * a table, which is what a `TableState` holds.
 */
module Lookups {
  import opened Values
  import opened Schema
  import opened RowOps
  import opened RowSets

  /** What key regeneration and the key-lookup joins read of a table. */
  datatype TableState = TableState(attrs: seq<string>, key: seq<string>, tuples: seq<Row>, index: map<seq<Value>, Row>)

  /** The columns `match(key)` finds for the key attributes. */
  function KeyColsOf(s: TableState): seq<nat>
  {
    MatchPositions(s.attrs, s.key)
  }

  /**
   * The name-to-position `HashMap` the operators fill by putting every
   * attribute in order: a name maps to its last position.
   */
  ghost predicate IsAttributeIndex(attrs: seq<string>, m: map<string, int>)
  {
    (forall a :: a in m <==> a in attrs) && forall a :: a in m ==> m[a] == LastPos(attrs, a)
  }

  /**
   * The key regeneration loop of `project` and the joins: the cells of
   * `tup` at the positions the name map gives for the key attributes.
   */
  method GenerateKey(s: TableState, tup: Row, m: map<string, int>) returns (k: seq<Value>)
    requires IsAttributeIndex(s.attrs, m)
    requires Known(s.attrs, s.key) && Fits(KeyColsOf(s), |tup.cells|)
    ensures k == Pick(tup.cells, KeyColsOf(s))
  {
    var keyGenerator := new Value[|s.key|](_ => IntValue(0));
    var v := 0;
    while v < |s.key|
      invariant 0 <= v <= |s.key|
      invariant forall q :: 0 <= q < v ==> keyGenerator[q] == tup.cells[KeyColsOf(s)[q]]
    {
      assert m[s.key[v]] == KeyColsOf(s)[v];
      keyGenerator[v] := tup.cells[m[s.key[v]]];
      v := v + 1;
    }
    k := keyGenerator[..];
  }

  /** Every key name is an attribute and every stored tuple has its key cells: keys regenerate without throwing. */
  predicate KeysDefined(s: TableState)
  {
    Known(s.attrs, s.key) && CellsFit(s.tuples, KeyColsOf(s))
  }

  /**
   * What regenerating the key of each stored tuple and reading the cells
   * `cols` of the tuple the index returns needs in order not to throw.
   */
  predicate CanLookupIn(s: TableState, cols: seq<nat>)
  {
    Known(s.attrs, s.key) && LookupsDefined(s.tuples, s.index, KeyColsOf(s), cols)
  }

  /** The cells `cols` of the indexed tuple, for each stored tuple in order. */
  function LookupsIn(s: TableState, cols: seq<nat>): (v: seq<seq<Value>>)
    requires CanLookupIn(s, cols)
    ensures |v| == |s.tuples|
  {
    IndexedPicks(s.tuples, s.index, KeyColsOf(s), cols)
  }

  // ---------------------------------------------------------------------------
  // project
  // ---------------------------------------------------------------------------

  /** What the row loop of `project` needs in order not to throw once a cell is read. */
  predicate ProjectLookups(s: TableState, attrs: seq<string>)
  {
    |s.tuples| > 0 && |attrs| > 0 ==> Known(s.attrs, attrs) && CanLookupIn(s, MatchPositions(s.attrs, attrs))
  }

  /** The cells of each projected row: empty rows for no attribute, otherwise the looked-up cells. */
  function Projected(s: TableState, attrs: seq<string>): (v: seq<seq<Value>>)
    requires ProjectLookups(s, attrs)
    ensures |v| == |s.tuples|
  {
    if |s.tuples| > 0 && |attrs| > 0 then LookupsIn(s, MatchPositions(s.attrs, attrs))
    else seq(|s.tuples|, _ => [])
  }

  /**
   * One cell of `project`: regenerate the key of tuple i, look it up and
   * read the cell of the indexed tuple at the position the name map gives.
   */
  method LookupCell(s: TableState, i: nat, m: map<string, int>, attributeIdx: map<string, int>, name: string)
    returns (cell: Value)
    requires i < |s.tuples| && IsAttributeIndex(s.attrs, m) && IsAttributeIndex(s.attrs, attributeIdx)
    requires Known(s.attrs, s.key) && Fits(KeyColsOf(s), |s.tuples[i].cells|)
    requires name in s.attrs && Pick(s.tuples[i].cells, KeyColsOf(s)) in s.index
    requires LastPos(s.attrs, name) < |s.index[Pick(s.tuples[i].cells, KeyColsOf(s))].cells|
    ensures cell == s.index[Pick(s.tuples[i].cells, KeyColsOf(s))].cells[LastPos(s.attrs, name)]
  {
    var keyGenerator := GenerateKey(s, s.tuples[i], m);
    cell := s.index[keyGenerator].cells[attributeIdx[name]];
  }

  /** The tuple the index holds under the key of stored tuple i. */
  function Indexed(s: TableState, i: nat): (t: Row)
    requires i < |s.tuples| && Known(s.attrs, s.key) && Fits(KeyColsOf(s), |s.tuples[i].cells|)
    requires Pick(s.tuples[i].cells, KeyColsOf(s)) in s.index
    ensures t in s.index.Values
  {
    s.index[Pick(s.tuples[i].cells, KeyColsOf(s))]
  }

  /**
   * The cell loop of one `project` row: for each projected name, regenerate
   * the key of tuple i and read the named cell of the tuple the index
   * returns, whose cells are `src`; `cols` are the positions of the names.
   */
  method FillEntry(s: TableState, attrs: seq<string>, m: map<string, int>, attributeIdx: map<string, int>, i: nat,
                   ghost src: seq<Value>, ghost cols: seq<nat>)
    returns (newEntry: array<Value>)
    requires i < |s.tuples| && IsAttributeIndex(s.attrs, m) && IsAttributeIndex(s.attrs, attributeIdx)
    requires |cols| == |attrs| && Fits(cols, |src|)
    requires forall j :: 0 <= j < |attrs| ==> attrs[j] in s.attrs && cols[j] == LastPos(s.attrs, attrs[j])
    requires |attrs| > 0 ==> Known(s.attrs, s.key) && Fits(KeyColsOf(s), |s.tuples[i].cells|)
    requires |attrs| > 0 ==> Pick(s.tuples[i].cells, KeyColsOf(s)) in s.index && Indexed(s, i).cells == src
    ensures fresh(newEntry) && newEntry[..] == Pick(src, cols)
  {
    newEntry := new Value[|attrs|](_ => IntValue(0));
    ghost var want := Pick(src, cols);
    for j := 0 to |attrs|
      invariant newEntry[..j] == want[..j]
    {
      var cell := LookupCell(s, i, m, attributeIdx, attrs[j]);
      newEntry[j] := cell;
      assert newEntry[..j + 1] == newEntry[..j] + [cell];
    }
    assert newEntry[..] == newEntry[..|attrs|];
  }

  /** One row of `project`: a new tuple over the cells `FillEntry` reads. */
  method ProjectEntry(s: TableState, attrs: seq<string>, m: map<string, int>, attributeIdx: map<string, int>, i: nat)
    returns (row: Row)
    requires i < |s.tuples| && ProjectLookups(s, attrs)
    requires IsAttributeIndex(s.attrs, m) && IsAttributeIndex(s.attrs, attributeIdx)
    ensures fresh(row)
    ensures |row.cells| == |attrs|
    ensures row.cells == Projected(s, attrs)[i]
  {
    ghost var cols := MatchPositions(s.attrs, attrs);
    ghost var src: seq<Value> := [];
    if |attrs| > 0 {
      IndexedPicksAt(s.tuples, s.index, KeyColsOf(s), cols, i);
      src := Indexed(s, i).cells;
    }
    var newEntry := FillEntry(s, attrs, m, attributeIdx, i, src, cols);
    row := new Tuple(newEntry[..]);
  }

  /** The row loop of `project`: one new row per stored tuple, in order. */
  method ProjectRows(s: TableState, attrs: seq<string>, m: map<string, int>, attributeIdx: map<string, int>)
    returns (rows: seq<Row>)
    requires ProjectLookups(s, attrs)
    requires IsAttributeIndex(s.attrs, m) && IsAttributeIndex(s.attrs, attributeIdx)
    ensures forall t :: t in rows ==> fresh(t)
    ensures CellsOf(rows) == Projected(s, attrs)
  {
    rows := [];
    ghost var v := Projected(s, attrs);
    for i := 0 to |s.tuples|
      invariant forall t :: t in rows ==> fresh(t)
      invariant CellsOf(rows) == v[..i]
    {
      var newEntry := ProjectEntry(s, attrs, m, attributeIdx, i);
      CellsOfAppend(rows, [newEntry]);
      assert v[..i + 1] == v[..i] + [v[i]];
      rows := rows + [newEntry];
    }
    assert v[..|s.tuples|] == v;
  }

  // ---------------------------------------------------------------------------
  // What the joins compare
  // ---------------------------------------------------------------------------

  /**
   * What the key-lookup joins need in order not to throw when both tables
   * have tuples: they compare the names `namesA` of the left table with the
   * first |namesA| names of `namesB` of the right table, in the tuples the
   * two indexes return for the regenerated keys.
   */
  predicate MatchDefined(l: TableState, namesA: seq<string>, r: TableState, namesB: seq<string>)
  {
    |l.tuples| > 0 && |r.tuples| > 0 ==>
      |namesA| <= |namesB| && KeysDefined(l) && KeysDefined(r)
      && (|namesA| > 0 ==>
            Known(l.attrs, namesA) && Known(r.attrs, namesB[..|namesA|])
            && CanLookupIn(l, MatchPositions(l.attrs, namesA))
            && CanLookupIn(r, MatchPositions(r.attrs, namesB[..|namesA|])))
  }

  /** The comparison values of each left tuple: the named cells of the tuple its key looks up. */
  function LeftValues(l: TableState, namesA: seq<string>, r: TableState, namesB: seq<string>): (v: seq<seq<Value>>)
    requires MatchDefined(l, namesA, r, namesB)
    ensures |v| == |l.tuples|
  {
    if |l.tuples| > 0 && |r.tuples| > 0 && |namesA| > 0 then LookupsIn(l, MatchPositions(l.attrs, namesA))
    else seq(|l.tuples|, _ => [])
  }

  /** The comparison values of each right tuple. */
  function RightValues(l: TableState, namesA: seq<string>, r: TableState, namesB: seq<string>): (v: seq<seq<Value>>)
    requires MatchDefined(l, namesA, r, namesB)
    ensures |v| == |r.tuples|
  {
    if |l.tuples| > 0 && |r.tuples| > 0 && |namesA| > 0 then LookupsIn(r, MatchPositions(r.attrs, namesB[..|namesA|]))
    else seq(|r.tuples|, _ => [])
  }

  /** The pairs of tuple positions the nested loops of a key-lookup join emit, in loop order. */
  function MatchPairs(l: TableState, namesA: seq<string>, r: TableState, namesB: seq<string>): (pairs: seq<(int, int)>)
    requires MatchDefined(l, namesA, r, namesB)
    ensures PairsFit(CellsOf(l.tuples), CellsOf(r.tuples), pairs)
  {
    MatchingPairs(LeftValues(l, namesA, r, namesB), RightValues(l, namesA, r, namesB))
  }

  /** What `removeDups` needs of every joined pair in order not to throw. */
  predicate DedupDefined(l: TableState, namesA: seq<string>, r: TableState, namesB: seq<string>)
    requires MatchDefined(l, namesA, r, namesB)
  {
    forall i, j ::
      (0 <= i < |l.tuples| && 0 <= j < |r.tuples| &&
       LeftValues(l, namesA, r, namesB)[i] == RightValues(l, namesA, r, namesB)[j]) ==>
      FirstsFit(l.tuples[i].cells + r.tuples[j].cells)
  }

  /**
   * The four name-to-position maps a key-lookup join builds: `kA` and `kB`
   * for key regeneration, `idxA` and `idxB` for the compared cells.
   */
  datatype NameMaps = NameMaps(kA: map<string, int>, kB: map<string, int>, idxA: map<string, int>, idxB: map<string, int>)

  /** Each map of `maps` is the name map of its table. */
  ghost predicate MapsOf(l: TableState, r: TableState, maps: NameMaps)
  {
    IsAttributeIndex(l.attrs, maps.kA) && IsAttributeIndex(r.attrs, maps.kB)
    && IsAttributeIndex(l.attrs, maps.idxA) && IsAttributeIndex(r.attrs, maps.idxB)
  }

  /** Everything one emitted pair of a join needs: defined lookups, the maps, and `removeDups` when asked for. */
  ghost predicate JoinReady(l: TableState, namesA: seq<string>, r: TableState, namesB: seq<string>, dedup: bool, maps: NameMaps)
  {
    MatchDefined(l, namesA, r, namesB) && (dedup ==> DedupDefined(l, namesA, r, namesB)) && MapsOf(l, r, maps)
  }

  // ---------------------------------------------------------------------------
  // One pair of tuples
  // ---------------------------------------------------------------------------

  /**
   * The `checks` loop: start from the number of compared names and count
   * down once per name whose cells agree in the two looked-up tuples.
   */
  method CountAgreements(ra: seq<Value>, idxA: map<string, int>, namesA: seq<string>,
                         rb: seq<Value>, idxB: map<string, int>, namesB: seq<string>)
    returns (checks: int)
    requires |namesA| <= |namesB|
    requires forall q :: 0 <= q < |namesA| ==>
      namesA[q] in idxA && 0 <= idxA[namesA[q]] < |ra| && namesB[q] in idxB && 0 <= idxB[namesB[q]] < |rb|
    ensures checks == 0 <==> forall q :: 0 <= q < |namesA| ==> ra[idxA[namesA[q]]] == rb[idxB[namesB[q]]]
  {
    checks := |namesA|;
    var x, y := 0, 0;
    while x < |namesA|
      invariant 0 <= x <= |namesA| && y == x
      invariant checks >= |namesA| - x
      invariant checks == |namesA| - x <==> forall q :: 0 <= q < x ==> ra[idxA[namesA[q]]] == rb[idxB[namesB[q]]]
    {
      if ra[idxA[namesA[x]]] == rb[idxB[namesB[y]]] {
        checks := checks - 1;
      }
      x, y := x + 1, y + 1;
    }
  }

  /**
   * The cells `checks` compares are the comparison values: for tuples i
   * and j, the names' positions in the name maps are the positions of
   * `match`, and the looked-up tuples have cells there.
   */
  lemma LookedUpCells(l: TableState, namesA: seq<string>, r: TableState, namesB: seq<string>,
                      i: nat, j: nat, idxA: map<string, int>, idxB: map<string, int>)
    requires i < |l.tuples| && j < |r.tuples| && MatchDefined(l, namesA, r, namesB) && |namesA| > 0
    requires IsAttributeIndex(l.attrs, idxA) && IsAttributeIndex(r.attrs, idxB)
    ensures Pick(l.tuples[i].cells, KeyColsOf(l)) in l.index && Pick(r.tuples[j].cells, KeyColsOf(r)) in r.index
    ensures var ra, rb := l.index[Pick(l.tuples[i].cells, KeyColsOf(l))].cells, r.index[Pick(r.tuples[j].cells, KeyColsOf(r))].cells;
      (forall q :: 0 <= q < |namesA| ==>
        namesA[q] in idxA && 0 <= idxA[namesA[q]] < |ra| && namesB[q] in idxB && 0 <= idxB[namesB[q]] < |rb|)
      && (LeftValues(l, namesA, r, namesB)[i] == RightValues(l, namesA, r, namesB)[j] <==>
          forall q :: 0 <= q < |namesA| ==> ra[idxA[namesA[q]]] == rb[idxB[namesB[q]]])
  {
    var n := |namesA|;
    var colsA := MatchPositions(l.attrs, namesA);
    var colsB := MatchPositions(r.attrs, namesB[..n]);
    IndexedPicksAt(l.tuples, l.index, KeyColsOf(l), colsA, i);
    IndexedPicksAt(r.tuples, r.index, KeyColsOf(r), colsB, j);
    assert forall q :: 0 <= q < n ==> idxA[namesA[q]] == colsA[q] && idxB[namesB[q]] == colsB[q];
    PickAgree(l.index[Pick(l.tuples[i].cells, KeyColsOf(l))].cells, r.index[Pick(r.tuples[j].cells, KeyColsOf(r))].cells,
              colsA, colsB);
  }

  /** Regenerate both keys and count the agreements: the two tuples join exactly when their comparison values agree. */
  method PairAgrees(l: TableState, namesA: seq<string>, r: TableState, namesB: seq<string>,
                    i: nat, j: nat, maps: NameMaps)
    returns (agree: bool)
    requires i < |l.tuples| && j < |r.tuples| && MatchDefined(l, namesA, r, namesB) && MapsOf(l, r, maps)
    ensures agree <==> LeftValues(l, namesA, r, namesB)[i] == RightValues(l, namesA, r, namesB)[j]
  {
    assert l.tuples[i] in l.tuples && r.tuples[j] in r.tuples;
    var keyA := GenerateKey(l, l.tuples[i], maps.kA);
    var keyB := GenerateKey(r, r.tuples[j], maps.kB);
    if |namesA| > 0 {
      LookedUpCells(l, namesA, r, namesB, i, j, maps.idxA, maps.idxB);
      var checks := CountAgreements(l.index[keyA].cells, maps.idxA, namesA, r.index[keyB].cells, maps.idxB, namesB);
      agree := checks == 0;
    } else {
      // With no compared name the `checks` loop runs zero times and never reads an index.
      agree := true;
    }
  }

  /** `ArrayUtil.concat` of two tuples: a new tuple holding the cells of `a`, then those of `b`. */
  method ConcatTuples(a: Row, b: Row) returns (c: Row)
    ensures fresh(c)
    ensures c.cells == a.cells + b.cells
  {
    c := new Tuple(a.cells + b.cells);
  }

  /** The first loop of `removeDups`: a `HashMap` from each cell value to its first position. */
  method FirstIndexMap(arr: seq<Value>) returns (m: map<Value, int>)
    ensures FirstPositions(m, arr)
  {
    m := map[];
    for i := 0 to |arr|
      invariant FirstPositions(m, arr[..i])
    {
      assert arr[..i + 1] == arr[..i] + [arr[i]];
      FirstPositionsExtend(m, arr[..i], arr[i]);
      var c := arr[i];
      if c !in m {
        m := m[c := i];
      }
    }
    assert arr[..|arr|] == arr;
  }

  /**
   * `removeDups`: keep the first occurrence of every cell value. Each
   * distinct value is written at the position of its first occurrence into
   * an array sized to the number of distinct values, so the result is
   * defined only when every first occurrence lies inside that size.
   */
  method RemoveDups(arr: Row) returns (r: Row)
    requires FirstsFit(arr.cells)
    ensures fresh(r)
    ensures r.cells == Dedup(arr.cells)
    ensures |r.cells| == |Elems(arr.cells)|
  {
    var m := FirstIndexMap(arr.cells);
    FirstPositionsFit(m, arr.cells);
    var compArr := new Value[|m|](_ => IntValue(0));
    var entries := m.Keys;
    while entries != {}
      invariant entries <= m.Keys
      invariant forall c :: c in m.Keys - entries ==> compArr[m[c]] == c
      decreases |entries|
    {
      var c :| c in entries;
      compArr[m[c]] := c;
      entries := entries - {c};
    }
    FirstPositionsDedup(m, arr.cells, compArr[..]);
    r := new Tuple(compArr[..]);
  }

  /**
   * The body of the inner loop of a key-lookup join: the row for tuples i
   * and j (the concatenation, deduplicated by `removeDups` for the natural
   * join) when their comparison values agree, and nothing otherwise.
   */
  method JoinPair(l: TableState, namesA: seq<string>, r: TableState, namesB: seq<string>, dedup: bool,
                  maps: NameMaps, i: nat, j: nat)
    returns (emitted: seq<Row>)
    requires i < |l.tuples| && j < |r.tuples| && JoinReady(l, namesA, r, namesB, dedup, maps)
    ensures forall t :: t in emitted ==> fresh(t)
    ensures CellsOf(emitted) == JoinedCells(CellsOf(l.tuples), CellsOf(r.tuples),
      if LeftValues(l, namesA, r, namesB)[i] == RightValues(l, namesA, r, namesB)[j] then [(i, j)] else [], dedup)
  {
    var tupleA, tupleB := l.tuples[i], r.tuples[j];
    var agree := PairAgrees(l, namesA, r, namesB, i, j, maps);
    emitted := [];
    if agree {
      var joined := ConcatTuples(tupleA, tupleB);
      if dedup {
        joined := RemoveDups(joined);
      }
      emitted := [joined];
      assert PairCells(CellsOf(l.tuples), CellsOf(r.tuples), [(i, j)]) == [tupleA.cells + tupleB.cells];
    }
  }

  // ---------------------------------------------------------------------------
  // The nested loops
  // ---------------------------------------------------------------------------

  /** The rows the inner loop of a key-lookup join has emitted for left tuple i after the first j right tuples. */
  function LookupTupleRows(l: TableState, namesA: seq<string>, r: TableState, namesB: seq<string>, dedup: bool,
                           i: nat, j: nat): seq<seq<Value>>
    requires MatchDefined(l, namesA, r, namesB) && i < |l.tuples| && j <= |r.tuples|
  {
    TupleRows(CellsOf(l.tuples), CellsOf(r.tuples), LeftValues(l, namesA, r, namesB), RightValues(l, namesA, r, namesB),
      dedup, i, j)
  }

  /** The rows the outer loop of a key-lookup join has emitted after the first i left tuples. */
  function LookupPrefixRows(l: TableState, namesA: seq<string>, r: TableState, namesB: seq<string>, dedup: bool, i: nat)
    : seq<seq<Value>>
    requires MatchDefined(l, namesA, r, namesB) && i <= |l.tuples|
  {
    PrefixRows(CellsOf(l.tuples), CellsOf(r.tuples), LeftValues(l, namesA, r, namesB), RightValues(l, namesA, r, namesB),
      dedup, i)
  }

  /** One step of the inner loop of a key-lookup join. */
  lemma LookupTupleStep(l: TableState, namesA: seq<string>, r: TableState, namesB: seq<string>, dedup: bool,
                        i: nat, j: nat, out: seq<Row>, more: seq<Row>)
    requires MatchDefined(l, namesA, r, namesB) && i < |l.tuples| && j < |r.tuples|
    requires CellsOf(out) == LookupTupleRows(l, namesA, r, namesB, dedup, i, j)
    requires CellsOf(more) == JoinedCells(CellsOf(l.tuples), CellsOf(r.tuples),
      if LeftValues(l, namesA, r, namesB)[i] == RightValues(l, namesA, r, namesB)[j] then [(i, j)] else [], dedup)
    ensures CellsOf(out + more) == LookupTupleRows(l, namesA, r, namesB, dedup, i, j + 1)
  {
    TupleStep(CellsOf(l.tuples), CellsOf(r.tuples), LeftValues(l, namesA, r, namesB), RightValues(l, namesA, r, namesB),
      dedup, i, j, out, more);
  }

  /** One step of the outer loop of a key-lookup join. */
  lemma LookupRowsStep(l: TableState, namesA: seq<string>, r: TableState, namesB: seq<string>, dedup: bool,
                       i: nat, rows: seq<Row>, more: seq<Row>)
    requires MatchDefined(l, namesA, r, namesB) && i < |l.tuples|
    requires CellsOf(rows) == LookupPrefixRows(l, namesA, r, namesB, dedup, i)
    requires CellsOf(more) == LookupTupleRows(l, namesA, r, namesB, dedup, i, |r.tuples|)
    ensures CellsOf(rows + more) == LookupPrefixRows(l, namesA, r, namesB, dedup, i + 1)
  {
    RowsStep(CellsOf(l.tuples), CellsOf(r.tuples), LeftValues(l, namesA, r, namesB), RightValues(l, namesA, r, namesB),
      dedup, i, rows, more);
  }

  /**
   * The inner loop of a key-lookup join for left tuple i: every right tuple
   * in order, emitting the row of each pair that agrees.
   */
  method MatchTuple(l: TableState, namesA: seq<string>, r: TableState, namesB: seq<string>, dedup: bool,
                    maps: NameMaps, i: nat)
    returns (out: seq<Row>)
    requires i < |l.tuples| && JoinReady(l, namesA, r, namesB, dedup, maps)
    ensures forall t :: t in out ==> fresh(t)
    ensures CellsOf(out) == LookupTupleRows(l, namesA, r, namesB, dedup, i, |r.tuples|)
  {
    out := [];
    for j := 0 to |r.tuples|
      invariant forall t :: t in out ==> fresh(t)
      invariant CellsOf(out) == LookupTupleRows(l, namesA, r, namesB, dedup, i, j)
    {
      var more := JoinPair(l, namesA, r, namesB, dedup, maps, i, j);
      LookupTupleStep(l, namesA, r, namesB, dedup, i, j, out, more);
      out := out + more;
    }
  }

  /** The outer loop of a key-lookup join: the rows of every left tuple, in order. */
  /** Once the outer loop has seen every left tuple, its rows are the rows of every matching pair. */
  lemma LookupPrefixRowsAll(l: TableState, namesA: seq<string>, r: TableState, namesB: seq<string>, dedup: bool)
    requires MatchDefined(l, namesA, r, namesB)
    ensures LookupPrefixRows(l, namesA, r, namesB, dedup, |l.tuples|)
      == JoinedCells(CellsOf(l.tuples), CellsOf(r.tuples), MatchPairs(l, namesA, r, namesB), dedup)
  {
    assert LeftValues(l, namesA, r, namesB)[..|l.tuples|] == LeftValues(l, namesA, r, namesB);
  }

  method MatchRows(l: TableState, namesA: seq<string>, r: TableState, namesB: seq<string>, dedup: bool, maps: NameMaps)
    returns (rows: seq<Row>)
    requires JoinReady(l, namesA, r, namesB, dedup, maps)
    ensures forall t :: t in rows ==> fresh(t)
    ensures CellsOf(rows) == JoinedCells(CellsOf(l.tuples), CellsOf(r.tuples), MatchPairs(l, namesA, r, namesB), dedup)
  {
    rows := [];
    for i := 0 to |l.tuples|
      invariant forall t :: t in rows ==> fresh(t)
      invariant CellsOf(rows) == LookupPrefixRows(l, namesA, r, namesB, dedup, i)
    {
      var more := MatchTuple(l, namesA, r, namesB, dedup, maps, i);
      LookupRowsStep(l, namesA, r, namesB, dedup, i, rows, more);
      rows := rows + more;
    }
    LookupPrefixRowsAll(l, namesA, r, namesB, dedup);
  }
}
