/**
 * The alternative equi-join: for every pair of stored tuples it extracts
 * the compared cells of both tuples directly (no index lookup), compares
 * them position by position and emits the concatenation of the pairs that
 * agree. Afterwards it renames the attributes of the right table that clash
 * with the compared names of the left table.
 */
module Scans {
  import opened Values
  import opened Schema
  import opened RowOps
  import opened RowSets
  import opened Lookups

  /** `extract`: the cells of `t` at the columns `match(column)` finds in the schema `attrs`. */
  method Extract(attrs: seq<string>, t: Row, column: seq<string>) returns (tup: seq<Value>)
    requires Fits(MatchPositions(attrs, column), |t.cells|)
    ensures tup == Pick(t.cells, MatchPositions(attrs, column))
  {
    var arr := new Value[|column|](_ => IntValue(0));
    var colPos := MatchPositions(attrs, column);
    for j := 0 to |column|
      invariant forall q :: 0 <= q < j ==> arr[q] == t.cells[colPos[q]]
    {
      arr[j] := t.cells[colPos[j]];
    }
    tup := arr[..];
  }

  /**
   * The agreement loop: compare position by position and stop at the first
   * difference. The result is true exactly when `attri1` is a prefix of `attri2`.
   */
  method CellsEqual(attri1: seq<Value>, attri2: seq<Value>) returns (flag: bool)
    requires |attri1| <= |attri2|
    ensures flag <==> attri1 == attri2[..|attri1|]
  {
    flag := true;
    for i := 0 to |attri1|
      invariant attri1[..i] == attri2[..i]
    {
      if attri1[i] != attri2[i] {
        assert attri2[..|attri1|][i] == attri2[i];
        flag := false;
        break;
      }
      assert attri1[..i + 1] == attri1[..i] + [attri1[i]];
      assert attri2[..i + 1] == attri2[..i] + [attri2[i]];
    }
    if flag {
      assert attri1 == attri1[..|attri1|];
    }
  }

  // ---------------------------------------------------------------------------
  // What the scanning join compares
  // ---------------------------------------------------------------------------

  /**
   * What the scanning join needs in order not to throw once a pair of
   * tuples is compared: every tuple has a cell at every compared column.
   */
  predicate ScanDefined(l: TableState, namesA: seq<string>, r: TableState, namesB: seq<string>)
  {
    |l.tuples| > 0 && |r.tuples| > 0 ==>
      CellsFit(l.tuples, MatchPositions(l.attrs, namesA)) && CellsFit(r.tuples, MatchPositions(r.attrs, namesB))
  }

  /** The extracted comparison cells of each left tuple. */
  function ScanLeft(l: TableState, namesA: seq<string>, r: TableState, namesB: seq<string>): (v: seq<seq<Value>>)
    requires ScanDefined(l, namesA, r, namesB)
    ensures |v| == |l.tuples|
  {
    if |l.tuples| > 0 && |r.tuples| > 0 then PickAll(l.tuples, MatchPositions(l.attrs, namesA))
    else seq(|l.tuples|, _ => [])
  }

  /** The extracted comparison cells of each right tuple. */
  function ScanRight(l: TableState, namesA: seq<string>, r: TableState, namesB: seq<string>): (v: seq<seq<Value>>)
    requires ScanDefined(l, namesA, r, namesB)
    ensures |v| == |r.tuples|
  {
    if |l.tuples| > 0 && |r.tuples| > 0 then PickAll(r.tuples, MatchPositions(r.attrs, namesB))
    else seq(|r.tuples|, _ => [])
  }

  /** The pairs of tuple positions the nested loops of the scanning join emit, in loop order. */
  function ScanPairs(l: TableState, namesA: seq<string>, r: TableState, namesB: seq<string>): (pairs: seq<(int, int)>)
    requires ScanDefined(l, namesA, r, namesB)
    ensures PairsFit(CellsOf(l.tuples), CellsOf(r.tuples), pairs)
  {
    MatchingPairs(ScanLeft(l, namesA, r, namesB), ScanRight(l, namesA, r, namesB))
  }

  /**
   * When both indexes hold every stored tuple under its own key, the
   * key-lookup equi-join and the scanning equi-join pair up the same tuples
   * in the same order.
   */
  lemma LookupJoinMatchesScan(l: TableState, namesA: seq<string>, r: TableState, namesB: seq<string>)
    requires |namesA| == |namesB| && MatchDefined(l, namesA, r, namesB) && ScanDefined(l, namesA, r, namesB)
    requires Consistent(l.tuples, l.index, KeyColsOf(l)) && Consistent(r.tuples, r.index, KeyColsOf(r))
    ensures MatchPairs(l, namesA, r, namesB) == ScanPairs(l, namesA, r, namesB)
  {
    if |l.tuples| > 0 && |r.tuples| > 0 {
      var colsA, colsB := MatchPositions(l.attrs, namesA), MatchPositions(r.attrs, namesB);
      assert namesB[..|namesA|] == namesB;
      ConsistentPicks(l.tuples, l.index, KeyColsOf(l), colsA);
      ConsistentPicks(r.tuples, r.index, KeyColsOf(r), colsB);
      if |namesA| == 0 {
        forall q | 0 <= q < |l.tuples|
          ensures PickAll(l.tuples, colsA)[q] == []
        {
          PickAllAt(l.tuples, colsA, q);
        }
        forall q | 0 <= q < |r.tuples|
          ensures PickAll(r.tuples, colsB)[q] == []
        {
          PickAllAt(r.tuples, colsB, q);
        }
      }
      assert LeftValues(l, namesA, r, namesB) == ScanLeft(l, namesA, r, namesB);
      assert RightValues(l, namesA, r, namesB) == ScanRight(l, namesA, r, namesB);
    }
  }

  // ---------------------------------------------------------------------------
  // The nested loops
  // ---------------------------------------------------------------------------

  /**
   * The body of the inner loop: extract the compared cells of tuples i and
   * j, and emit their concatenation when the cells agree.
   */
  method ScanPair(l: TableState, namesA: seq<string>, r: TableState, namesB: seq<string>, i: nat, j: nat)
    returns (emitted: seq<Row>)
    requires i < |l.tuples| && j < |r.tuples| && |namesA| == |namesB| && ScanDefined(l, namesA, r, namesB)
    ensures forall t :: t in emitted ==> fresh(t)
    ensures CellsOf(emitted) == PairCells(CellsOf(l.tuples), CellsOf(r.tuples),
      if ScanLeft(l, namesA, r, namesB)[i] == ScanRight(l, namesA, r, namesB)[j] then [(i, j)] else [])
  {
    var tuple1, tuple2 := l.tuples[i], r.tuples[j];
    PickAllAt(l.tuples, MatchPositions(l.attrs, namesA), i);
    PickAllAt(r.tuples, MatchPositions(r.attrs, namesB), j);
    var attri1 := Extract(l.attrs, tuple1, namesA);
    var attri2 := Extract(r.attrs, tuple2, namesB);
    var flag := CellsEqual(attri1, attri2);
    assert attri2[..|attri1|] == attri2;
    emitted := [];
    if flag {
      var joinTuple := ConcatTuples(tuple1, tuple2);
      emitted := [joinTuple];
      assert PairCells(CellsOf(l.tuples), CellsOf(r.tuples), [(i, j)]) == [tuple1.cells + tuple2.cells];
    }
  }

  /** The rows the inner loop of the scanning join has emitted for left tuple i after the first j right tuples. */
  function ScanTupleRows(l: TableState, namesA: seq<string>, r: TableState, namesB: seq<string>, i: nat, j: nat)
    : seq<seq<Value>>
    requires ScanDefined(l, namesA, r, namesB) && i < |l.tuples| && j <= |r.tuples|
  {
    TupleRows(CellsOf(l.tuples), CellsOf(r.tuples), ScanLeft(l, namesA, r, namesB), ScanRight(l, namesA, r, namesB),
      false, i, j)
  }

  /** The rows the outer loop of the scanning join has emitted after the first i left tuples. */
  function ScanPrefixRows(l: TableState, namesA: seq<string>, r: TableState, namesB: seq<string>, i: nat)
    : seq<seq<Value>>
    requires ScanDefined(l, namesA, r, namesB) && i <= |l.tuples|
  {
    PrefixRows(CellsOf(l.tuples), CellsOf(r.tuples), ScanLeft(l, namesA, r, namesB), ScanRight(l, namesA, r, namesB),
      false, i)
  }

  /** One step of the inner loop of the scanning join. */
  lemma ScanTupleStep(l: TableState, namesA: seq<string>, r: TableState, namesB: seq<string>, i: nat, j: nat,
                      out: seq<Row>, more: seq<Row>)
    requires ScanDefined(l, namesA, r, namesB) && i < |l.tuples| && j < |r.tuples|
    requires CellsOf(out) == ScanTupleRows(l, namesA, r, namesB, i, j)
    requires CellsOf(more) == PairCells(CellsOf(l.tuples), CellsOf(r.tuples),
      if ScanLeft(l, namesA, r, namesB)[i] == ScanRight(l, namesA, r, namesB)[j] then [(i, j)] else [])
    ensures CellsOf(out + more) == ScanTupleRows(l, namesA, r, namesB, i, j + 1)
  {
    TupleStep(CellsOf(l.tuples), CellsOf(r.tuples), ScanLeft(l, namesA, r, namesB), ScanRight(l, namesA, r, namesB),
      false, i, j, out, more);
  }

  /** One step of the outer loop of the scanning join. */
  lemma ScanRowsStep(l: TableState, namesA: seq<string>, r: TableState, namesB: seq<string>, i: nat,
                     rows: seq<Row>, more: seq<Row>)
    requires ScanDefined(l, namesA, r, namesB) && i < |l.tuples|
    requires CellsOf(rows) == ScanPrefixRows(l, namesA, r, namesB, i)
    requires CellsOf(more) == ScanTupleRows(l, namesA, r, namesB, i, |r.tuples|)
    ensures CellsOf(rows + more) == ScanPrefixRows(l, namesA, r, namesB, i + 1)
  {
    RowsStep(CellsOf(l.tuples), CellsOf(r.tuples), ScanLeft(l, namesA, r, namesB), ScanRight(l, namesA, r, namesB),
      false, i, rows, more);
  }

  /** The inner loop of the scanning join for left tuple i: every right tuple, in order. */
  method ScanTuple(l: TableState, namesA: seq<string>, r: TableState, namesB: seq<string>, i: nat)
    returns (out: seq<Row>)
    requires i < |l.tuples| && |namesA| == |namesB| && ScanDefined(l, namesA, r, namesB)
    ensures forall t :: t in out ==> fresh(t)
    ensures CellsOf(out) == ScanTupleRows(l, namesA, r, namesB, i, |r.tuples|)
  {
    out := [];
    for j := 0 to |r.tuples|
      invariant forall t :: t in out ==> fresh(t)
      invariant CellsOf(out) == ScanTupleRows(l, namesA, r, namesB, i, j)
    {
      var more := ScanPair(l, namesA, r, namesB, i, j);
      ScanTupleStep(l, namesA, r, namesB, i, j, out, more);
      out := out + more;
    }
  }

  /** One outer-loop step of the scanning join: append the new rows of left tuple i. */
  method ScanNext(l: TableState, namesA: seq<string>, r: TableState, namesB: seq<string>, i: nat, rows: seq<Row>)
    returns (next: seq<Row>)
    requires i < |l.tuples| && |namesA| == |namesB| && ScanDefined(l, namesA, r, namesB)
    requires CellsOf(rows) == ScanPrefixRows(l, namesA, r, namesB, i)
    ensures forall t :: t in next ==> t in rows || fresh(t)
    ensures CellsOf(next) == ScanPrefixRows(l, namesA, r, namesB, i + 1)
  {
    var more := ScanTuple(l, namesA, r, namesB, i);
    ScanRowsStep(l, namesA, r, namesB, i, rows, more);
    next := rows + more;
  }

  /** The nested loops of the scanning join: the rows of every left tuple, in order. */
  method ScanRows(l: TableState, namesA: seq<string>, r: TableState, namesB: seq<string>)
    returns (rows: seq<Row>)
    requires |namesA| == |namesB| && ScanDefined(l, namesA, r, namesB)
    ensures forall t :: t in rows ==> fresh(t)
    ensures CellsOf(rows) == PairCells(CellsOf(l.tuples), CellsOf(r.tuples), ScanPairs(l, namesA, r, namesB))
  {
    rows := [];
    for i := 0 to |l.tuples|
      invariant forall t :: t in rows ==> fresh(t)
      invariant CellsOf(rows) == ScanPrefixRows(l, namesA, r, namesB, i)
    {
      rows := ScanNext(l, namesA, r, namesB, i, rows);
    }
    assert ScanLeft(l, namesA, r, namesB)[..|l.tuples|] == ScanLeft(l, namesA, r, namesB);
  }

  // ---------------------------------------------------------------------------
  // Renaming the right table's attributes
  // ---------------------------------------------------------------------------

  /**
   * The renaming loops as written: for each compared name `tAttrs[j]` of the
   * left table, scan table2's attribute array and, on every clash, write
   * `tAttrs[j] + "2"` at position j, in place. `RenameFits` excludes the
   * write past the end that makes Java throw.
   */
  method RenameAsWritten(attribute2New: array<string>, tAttrs: seq<string>)
    requires RenameFits(attribute2New[..], tAttrs)
    modifies attribute2New
    ensures attribute2New[..] == Renamed(old(attribute2New[..]), tAttrs)
  {
    ghost var orig := attribute2New[..];
    for j := 0 to |tAttrs|
      invariant attribute2New[..] == Renamed(orig, tAttrs[..j])
    {
      ghost var before := attribute2New[..];
      var tj := tAttrs[j];
      assert tAttrs[..j + 1][..j] == tAttrs[..j];
      assert tj in before ==> j < attribute2New.Length;
      assert |tj + "2"| == |tj| + 1;
      for k := 0 to attribute2New.Length
        invariant attribute2New[..] == if tj in before[..k] then before[j := tj + "2"] else before
      {
        assert before[..k + 1] == before[..k] + [before[k]];
        if attribute2New[k] == tj {
          attribute2New[j] := tj + "2";
        }
      }
      assert before[..attribute2New.Length] == before;
    }
    assert tAttrs[..|tAttrs|] == tAttrs;
  }

  /**
   * The renaming loops with the write at the position where the clash was
   * found: every attribute equal to a compared name of the left table gets
   * the suffix "2", in place, one compared name after the other.
   */
  method Disambiguate(attribute2New: array<string>, tAttrs: seq<string>)
    modifies attribute2New
    ensures attribute2New[..] == Disambiguated(old(attribute2New[..]), tAttrs)
  {
    for j := 0 to |tAttrs|
      invariant attribute2New[..] == Disambiguated(old(attribute2New[..]), tAttrs[..j])
    {
      ghost var before := attribute2New[..];
      for k := 0 to attribute2New.Length
        invariant forall q :: 0 <= q < k ==> attribute2New[q] == RenameAll(before, tAttrs[j])[q]
        invariant forall q :: k <= q < attribute2New.Length ==> attribute2New[q] == before[q]
      {
        if attribute2New[k] == tAttrs[j] {
          attribute2New[k] := tAttrs[j] + "2";
        }
      }
      assert attribute2New[..] == RenameAll(before, tAttrs[j]);
      assert tAttrs[..j + 1][..j] == tAttrs[..j];
    }
    assert tAttrs[..|tAttrs|] == tAttrs;
  }
}
