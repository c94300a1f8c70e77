/**
 * Stored tuples. A Java tuple is a `Comparable[]` array: two tuples with the
 * same cells are still different tuples, and `union` (a `HashSet` of
 * arrays), `minus` (array `equals`) and the indexed select (`==`) compare
 * tuples by identity. No operation writes into a tuple once it is built, so
 * a tuple is an object with immutable cells.
 */
module RowSets {
  import opened Values
  import opened Schema
  import opened RowOps

  class Tuple {
    const cells: seq<Value>

    constructor (c: seq<Value>)
      ensures cells == c
    {
      cells := c;
    }
  }

  type Row = Tuple

  /** The cells of every row, in order. */
  function CellsOf(rows: seq<Row>): (cells: seq<seq<Value>>)
    ensures |cells| == |rows|
    ensures forall i :: 0 <= i < |rows| ==> cells[i] == rows[i].cells
  {
    if |rows| == 0 then [] else CellsOf(rows[..|rows| - 1]) + [rows[|rows| - 1].cells]
  }

  /** The cells of consecutive runs of rows come one after the other. */
  lemma CellsOfAppend(a: seq<Row>, b: seq<Row>)
    ensures CellsOf(a + b) == CellsOf(a) + CellsOf(b)
  {
    assert forall i :: 0 <= i < |a + b| ==> CellsOf(a + b)[i] == (CellsOf(a) + CellsOf(b))[i];
  }

  // ---------------------------------------------------------------------------
  // select (predicate)
  // ---------------------------------------------------------------------------

  /** The stream filter of `select(predicate)`: the rows whose cells satisfy `p`, in order. */
  function Filter(rows: seq<Row>, p: seq<Value> -> bool): seq<Row>
  {
    if |rows| == 0 then []
    else Filter(rows[..|rows| - 1], p) + (if p(rows[|rows| - 1].cells) then [rows[|rows| - 1]] else [])
  }

  /** A row is selected exactly when it is stored and satisfies the predicate. */
  lemma {:induction false} FilterMembers(rows: seq<Row>, p: seq<Value> -> bool)
    ensures forall r :: r in Filter(rows, p) <==> r in rows && p(r.cells)
  {
    if |rows| > 0 {
      FilterMembers(rows[..|rows| - 1], p);
      assert rows == rows[..|rows| - 1] + [rows[|rows| - 1]];
    }
  }

  /** Filtering commutes with concatenation: the selected rows keep their original order. */
  lemma {:induction false} FilterAppend(a: seq<Row>, b: seq<Row>, p: seq<Value> -> bool)
    ensures Filter(a + b, p) == Filter(a, p) + Filter(b, p)
  {
    if |b| > 0 {
      var init := b[..|b| - 1];
      assert (a + b)[..|a + b| - 1] == a + init;
      FilterAppend(a, init, p);
    } else {
      assert a + b == a;
    }
  }

  /** A predicate every row satisfies selects the whole table. */
  lemma {:induction false} FilterAll(rows: seq<Row>, p: seq<Value> -> bool)
    requires forall r :: r in rows ==> p(r.cells)
    ensures Filter(rows, p) == rows
  {
    if |rows| > 0 {
      FilterAll(rows[..|rows| - 1], p);
    }
  }

  // ---------------------------------------------------------------------------
  // minus
  // ---------------------------------------------------------------------------

  /**
   * `stream().filter(t -> t.equals(subj)).findFirst()`: the first position
   * that holds the very array `subj`.
   */
  function FindIdentical(rows: seq<Row>, subj: Row): (r: Option<nat>)
    ensures r.Some? ==> r.value < |rows| && rows[r.value] == subj && subj !in rows[..r.value]
    ensures r.None? <==> subj !in rows
  {
    if |rows| == 0 then None
    else if rows[0] == subj then Some(0)
    else match FindIdentical(rows[1..], subj)
      case None => None
      case Some(k) => Some(k + 1)
  }

  /** The stream filter of `minus`: the rows of `rows` not found in `other`, in order. */
  function Without(rows: seq<Row>, other: seq<Row>): seq<Row>
  {
    if |rows| == 0 then []
    else
      var last := rows[|rows| - 1];
      Without(rows[..|rows| - 1], other) + (if FindIdentical(other, last).None? then [last] else [])
  }

  /** A row survives `minus` exactly when it is in this table and not in the other. */
  lemma {:induction false} WithoutMembers(rows: seq<Row>, other: seq<Row>)
    ensures forall r :: r in Without(rows, other) <==> r in rows && r !in other
  {
    if |rows| > 0 {
      WithoutMembers(rows[..|rows| - 1], other);
      assert rows == rows[..|rows| - 1] + [rows[|rows| - 1]];
    }
  }

  /** `minus` commutes with concatenation of the left table: order is preserved. */
  lemma {:induction false} WithoutAppend(a: seq<Row>, b: seq<Row>, other: seq<Row>)
    ensures Without(a + b, other) == Without(a, other) + Without(b, other)
  {
    if |b| > 0 {
      var init := b[..|b| - 1];
      assert (a + b)[..|a + b| - 1] == a + init;
      WithoutAppend(a, init, other);
    } else {
      assert a + b == a;
    }
  }

  /** Minus a table holding every row gives nothing. */
  lemma {:induction false} WithoutCovered(rows: seq<Row>, other: seq<Row>)
    requires forall r :: r in rows ==> r in other
    ensures Without(rows, other) == []
  {
    if |rows| > 0 {
      WithoutCovered(rows[..|rows| - 1], other);
    }
  }

  /** A table minus itself is empty. */
  lemma WithoutSelf(rows: seq<Row>)
    ensures Without(rows, rows) == []
  {
    WithoutCovered(rows, rows);
  }

  /** Minus a table that shares no row gives back every row, in order. */
  lemma {:induction false} WithoutDisjoint(rows: seq<Row>, other: seq<Row>)
    requires forall r :: r in rows ==> r !in other
    ensures Without(rows, other) == rows
  {
    if |rows| > 0 {
      WithoutDisjoint(rows[..|rows| - 1], other);
    }
  }

  // ---------------------------------------------------------------------------
  // linear-scan key select
  // ---------------------------------------------------------------------------

  /** Every row holds a cell at every position of `cols`. */
  predicate CellsFit(rows: seq<Row>, cols: seq<nat>)
  {
    forall r :: r in rows ==> Fits(cols, |r.cells|)
  }

  /** The rows whose cells at `cols` equal `keyVal`, in order. */
  function KeyFilter(rows: seq<Row>, cols: seq<nat>, keyVal: seq<Value>): seq<Row>
    requires CellsFit(rows, cols)
  {
    if |rows| == 0 then []
    else
      var last := rows[|rows| - 1];
      KeyFilter(rows[..|rows| - 1], cols, keyVal) + (if Pick(last.cells, cols) == keyVal then [last] else [])
  }

  /** A row is returned exactly when it is stored and its key cells equal the key. */
  lemma {:induction false} KeyFilterMembers(rows: seq<Row>, cols: seq<nat>, keyVal: seq<Value>)
    requires CellsFit(rows, cols)
    ensures forall r :: r in KeyFilter(rows, cols, keyVal) <==> r in rows && Pick(r.cells, cols) == keyVal
  {
    if |rows| > 0 {
      KeyFilterMembers(rows[..|rows| - 1], cols, keyVal);
      assert rows == rows[..|rows| - 1] + [rows[|rows| - 1]];
    }
  }

  /** No two rows at different positions share a key. */
  predicate UniqueKeys(rows: seq<Row>, cols: seq<nat>)
    requires CellsFit(rows, cols)
  {
    forall a, b :: 0 <= a < b < |rows| ==> Pick(rows[a].cells, cols) != Pick(rows[b].cells, cols)
  }

  /** With unique keys the linear scan returns the one row holding the key, if any. */
  lemma {:induction false} KeyFilterUnique(rows: seq<Row>, cols: seq<nat>, keyVal: seq<Value>, m: nat)
    requires CellsFit(rows, cols) && UniqueKeys(rows, cols)
    requires m < |rows| && Pick(rows[m].cells, cols) == keyVal
    ensures KeyFilter(rows, cols, keyVal) == [rows[m]]
  {
    var init := rows[..|rows| - 1];
    if m == |rows| - 1 {
      forall r | r in init
        ensures Pick(r.cells, cols) != keyVal
      {
        var a :| 0 <= a < |init| && init[a] == r;
        assert rows[a] == r;
      }
      KeyFilterNone(init, cols, keyVal);
    } else {
      KeyFilterUnique(init, cols, keyVal, m);
    }
  }

  /** The linear scan returns nothing when no row has the key. */
  lemma {:induction false} KeyFilterNone(rows: seq<Row>, cols: seq<nat>, keyVal: seq<Value>)
    requires CellsFit(rows, cols)
    requires forall r :: r in rows ==> Pick(r.cells, cols) != keyVal
    ensures KeyFilter(rows, cols, keyVal) == []
  {
    if |rows| > 0 {
      KeyFilterNone(rows[..|rows| - 1], cols, keyVal);
    }
  }

  // ---------------------------------------------------------------------------
  // the index
  // ---------------------------------------------------------------------------

  /**
   * What `project` and the joins need of a table to avoid an exception: each
   * stored row has its key cells, its key is in the index, and the row the
   * index returns has a cell at every position of `cols`.
   */
  predicate LookupsDefined(rows: seq<Row>, idx: map<seq<Value>, Row>, keyCols: seq<nat>, cols: seq<nat>)
  {
    forall r :: r in rows ==>
      Fits(keyCols, |r.cells|) && Pick(r.cells, keyCols) in idx && Fits(cols, |idx[Pick(r.cells, keyCols)].cells|)
  }

  /**
   * The index-oracle pattern: for each stored row, re-derive its key, look
   * the key up and take the cells at `cols` of the row the index returns.
   */
  function IndexedPicks(rows: seq<Row>, idx: map<seq<Value>, Row>, keyCols: seq<nat>, cols: seq<nat>): (v: seq<seq<Value>>)
    requires LookupsDefined(rows, idx, keyCols, cols)
    ensures |v| == |rows|
  {
    if |rows| == 0 then []
    else
      var r := rows[|rows| - 1];
      IndexedPicks(rows[..|rows| - 1], idx, keyCols, cols) + [Pick(idx[Pick(r.cells, keyCols)].cells, cols)]
  }

  /** The q-th entry of the index-oracle pattern comes from the row the index holds for row q's key. */
  lemma {:induction false} IndexedPicksAt(rows: seq<Row>, idx: map<seq<Value>, Row>, keyCols: seq<nat>, cols: seq<nat>, q: nat)
    requires LookupsDefined(rows, idx, keyCols, cols) && q < |rows|
    ensures rows[q] in rows
    ensures IndexedPicks(rows, idx, keyCols, cols)[q] == Pick(idx[Pick(rows[q].cells, keyCols)].cells, cols)
  {
    if q < |rows| - 1 {
      IndexedPicksAt(rows[..|rows| - 1], idx, keyCols, cols, q);
    }
  }

  /** The cells at `cols` of each row taken directly. */
  function PickAll(rows: seq<Row>, cols: seq<nat>): (v: seq<seq<Value>>)
    requires CellsFit(rows, cols)
    ensures |v| == |rows|
  {
    if |rows| == 0 then [] else PickAll(rows[..|rows| - 1], cols) + [Pick(rows[|rows| - 1].cells, cols)]
  }

  /** The q-th entry of `PickAll` holds row q's own cells at `cols`. */
  lemma {:induction false} PickAllAt(rows: seq<Row>, cols: seq<nat>, q: nat)
    requires CellsFit(rows, cols) && q < |rows|
    ensures rows[q] in rows
    ensures PickAll(rows, cols)[q] == Pick(rows[q].cells, cols)
  {
    if q < |rows| - 1 {
      PickAllAt(rows[..|rows| - 1], cols, q);
    }
  }

  /** Each stored row's key maps to that very row: the case where keys never collided on `insert`. */
  predicate Consistent(rows: seq<Row>, idx: map<seq<Value>, Row>, keyCols: seq<nat>)
  {
    forall r :: r in rows ==> Fits(keyCols, |r.cells|) && Pick(r.cells, keyCols) in idx && idx[Pick(r.cells, keyCols)] == r
  }

  /** Every index entry is filed under the key of the row it holds. */
  predicate Filed(idx: map<seq<Value>, Row>, keyCols: seq<nat>)
  {
    forall k :: k in idx ==> Fits(keyCols, |idx[k].cells|) && Pick(idx[k].cells, keyCols) == k
  }

  /** Appending a row and filing it under a key not yet in use keeps the index consistent with the rows. */
  lemma ConsistentAdd(rows: seq<Row>, idx: map<seq<Value>, Row>, keyCols: seq<nat>, r: Row)
    requires Consistent(rows, idx, keyCols) && Fits(keyCols, |r.cells|) && Pick(r.cells, keyCols) !in idx
    ensures Consistent(rows + [r], idx[Pick(r.cells, keyCols) := r], keyCols)
  {
  }

  /** Filing a row under its own key keeps every entry filed. */
  lemma FiledAdd(idx: map<seq<Value>, Row>, keyCols: seq<nat>, r: Row)
    requires Filed(idx, keyCols) && Fits(keyCols, |r.cells|)
    ensures Filed(idx[Pick(r.cells, keyCols) := r], keyCols)
  {
  }

  /** One step of a join's inner loop, on the emitted rows: the rows of pair (i, j) follow. */
  lemma TupleStep(a: seq<seq<Value>>, b: seq<seq<Value>>, va: seq<seq<Value>>, vb: seq<seq<Value>>, dedup: bool,
                  i: nat, j: nat, out: seq<Row>, more: seq<Row>)
    requires i < |va| && |va| == |a| && j < |vb| && |vb| == |b|
    requires CellsOf(out) == TupleRows(a, b, va, vb, dedup, i, j)
    requires CellsOf(more) == JoinedCells(a, b, if va[i] == vb[j] then [(i, j)] else [], dedup)
    ensures CellsOf(out + more) == TupleRows(a, b, va, vb, dedup, i, j + 1)
  {
    JoinStep(a, b, i, va[i], vb, j, dedup, CellsOf(out), CellsOf(more));
    CellsOfAppend(out, more);
  }

  /** One step of a join's outer loop, on the emitted rows: the rows of left tuple i follow. */
  lemma RowsStep(a: seq<seq<Value>>, b: seq<seq<Value>>, va: seq<seq<Value>>, vb: seq<seq<Value>>, dedup: bool,
                 i: nat, rows: seq<Row>, more: seq<Row>)
    requires i < |va| && |va| == |a| && |vb| == |b|
    requires CellsOf(rows) == PrefixRows(a, b, va, vb, dedup, i)
    requires CellsOf(more) == TupleRows(a, b, va, vb, dedup, i, |vb|)
    ensures CellsOf(rows + more) == PrefixRows(a, b, va, vb, dedup, i + 1)
  {
    assert vb[..|vb|] == vb;
    MatchStep(a, b, va, vb, i, dedup, CellsOf(rows), CellsOf(more));
    CellsOfAppend(rows, more);
  }

  /**
   * On a consistent index the index-oracle pattern is redundant: looking a
   * row up by its own key gives back the row already in hand.
   */
  lemma {:induction false} ConsistentPicks(rows: seq<Row>, idx: map<seq<Value>, Row>, keyCols: seq<nat>, cols: seq<nat>)
    requires Consistent(rows, idx, keyCols) && CellsFit(rows, cols)
    ensures LookupsDefined(rows, idx, keyCols, cols)
    ensures IndexedPicks(rows, idx, keyCols, cols) == PickAll(rows, cols)
  {
    if |rows| > 0 {
      ConsistentPicks(rows[..|rows| - 1], idx, keyCols, cols);
    }
  }

  /**
   * The linear-scan select agrees with the index select when the index is
   * consistent and filed, every entry points at a stored row, and keys are
   * unique: both return the row the index holds for the key, or nothing.
   */
  lemma LinearScanMatchesIndex(rows: seq<Row>, idx: map<seq<Value>, Row>, keyCols: seq<nat>, keyVal: seq<Value>)
    requires Consistent(rows, idx, keyCols) && Filed(idx, keyCols)
    requires forall k :: k in idx ==> idx[k] in rows
    requires CellsFit(rows, keyCols) && UniqueKeys(rows, keyCols)
    ensures KeyFilter(rows, keyCols, keyVal) == if keyVal in idx then [idx[keyVal]] else []
  {
    if keyVal in idx {
      var m :| 0 <= m < |rows| && rows[m] == idx[keyVal];
      KeyFilterUnique(rows, keyCols, keyVal, m);
    } else {
      KeyFilterNone(rows, keyCols, keyVal);
    }
  }
}
