/**
 * Value-level row operations: duplicate removal (`removeDups`), the
 * nested-loop pair order of the joins, and the attribute renaming of the
 * alternative equi-join.
 */
module RowOps {
  import opened Values

  // ---------------------------------------------------------------------------
  // removeDups
  // ---------------------------------------------------------------------------

  /** The first occurrence of every element, in order of appearance. */
  function Dedup<T(==)>(s: seq<T>): seq<T>
  {
    if |s| == 0 then []
    else if s[|s| - 1] in s[..|s| - 1] then Dedup(s[..|s| - 1])
    else Dedup(s[..|s| - 1]) + [s[|s| - 1]]
  }

  /**
   * The condition under which `removeDups` stays inside its result array:
   * it writes each distinct value at the position of its first occurrence
   * into an array sized to the number of distinct values.
   */
  predicate FirstsFit<T(==)>(s: seq<T>)
  {
    forall i :: 0 <= i < |s| && s[i] !in s[..i] ==> i < |Elems(s)|
  }

  /** `Dedup` keeps exactly the elements of its input, each once. */
  lemma {:induction false} DedupSpec<T>(s: seq<T>)
    ensures Elems(Dedup(s)) == Elems(s)
    ensures Distinct(Dedup(s))
  {
    if |s| > 0 {
      var init := s[..|s| - 1];
      DedupSpec(init);
      assert s == init + [s[|s| - 1]];
      assert Elems(s) == Elems(init) + {s[|s| - 1]};
    }
  }

  /** `Dedup` of a duplicate-free sequence is that sequence, and only then is it as long. */
  lemma {:induction false} DedupLength<T>(s: seq<T>)
    ensures |Dedup(s)| <= |s|
    ensures |Dedup(s)| == |s| ==> Dedup(s) == s && Distinct(s)
  {
    if |s| > 0 {
      var init := s[..|s| - 1];
      DedupLength(init);
      assert s == init + [s[|s| - 1]];
      if |Dedup(s)| == |s| {
        assert s[|s| - 1] !in init;
        assert Dedup(init) == init;
      }
    }
  }

  /** Elements that repeat an earlier one do not change `Dedup`. */
  lemma {:induction false} DedupRepeatSuffix<T>(s: seq<T>, n: nat)
    requires n <= |s|
    requires forall i :: n <= i < |s| ==> s[i] in s[..i]
    ensures Dedup(s) == Dedup(s[..n])
  {
    if |s| > n {
      var init := s[..|s| - 1];
      assert init[..n] == s[..n];
      forall i | n <= i < |init| ensures init[i] in init[..i] {
        assert init[..i] == s[..i];
      }
      DedupRepeatSuffix(init, n);
    } else {
      assert s[..n] == s;
    }
  }

  /**
   * When `removeDups` stays in bounds, its input is a duplicate-free prefix
   * of d = |distinct values| elements followed by repeats only, and the
   * result `compArr` is that prefix: the first occurrences in order.
   */
  lemma FirstsFitPrefix<T>(s: seq<T>)
    requires FirstsFit(s)
    ensures |Elems(s)| <= |s|
    ensures Distinct(s[..|Elems(s)|])
    ensures Dedup(s) == s[..|Elems(s)|]
  {
    var d := |Elems(s)|;
    ElemsCard(s);
    forall i | d <= i < |s| ensures s[i] in s[..i] {
    }
    DedupRepeatSuffix(s, d);
    DedupSpec(s);
    DistinctCard(Dedup(s));
    DedupLength(s[..d]);
  }

  // ---------------------------------------------------------------------------
  /** `m` maps every element of `s` to the position of its first occurrence. */
  predicate FirstPositions<T(==)>(m: map<T, int>, s: seq<T>)
  {
    m.Keys == Elems(s) && forall c :: c in m ==> 0 <= m[c] < |s| && s[m[c]] == c && c !in s[..m[c]]
  }

  /** Putting an element only when it is new keeps the map of first positions. */
  lemma FirstPositionsExtend<T>(m: map<T, int>, s: seq<T>, x: T)
    requires FirstPositions(m, s)
    ensures FirstPositions(if x in m then m else m[x := |s|], s + [x])
  {
    var s' := s + [x];
    assert s'[..|s|] == s;
    forall c | c in m ensures s'[..m[c]] == s[..m[c]] {
    }
  }

  /** A first occurrence is where the map points. */
  lemma FirstPositionsAt<T>(m: map<T, int>, s: seq<T>, i: nat)
    requires FirstPositions(m, s) && i < |s| && s[i] !in s[..i]
    ensures s[i] in m && m[s[i]] == i
  {
  }

  /** When first occurrences fit, every position in the map is below the number of distinct elements. */
  lemma FirstPositionsFit<T>(m: map<T, int>, s: seq<T>)
    requires FirstPositions(m, s) && FirstsFit(s)
    ensures |m| == |Elems(s)|
    ensures forall c :: c in m ==> m[c] < |m|
  {
    assert |m.Keys| == |m|;
  }

  /**
   * Writing each element of the map at its first position, into an array
   * sized to the number of distinct elements, gives the first occurrences in
   * order.
   */
  lemma FirstPositionsDedup<T>(m: map<T, int>, s: seq<T>, c: seq<T>)
    requires FirstPositions(m, s) && FirstsFit(s)
    requires |c| == |m| && forall x :: x in m ==> 0 <= m[x] < |c| && c[m[x]] == x
    ensures c == Dedup(s)
  {
    FirstPositionsFit(m, s);
    FirstsFitPrefix(s);
    var d := |c|;
    forall i | 0 <= i < d
      ensures c[i] == s[..d][i]
    {
      DistinctPrefixFirst(s, d, i);
      FirstPositionsAt(m, s, i);
    }
    assert c == s[..d];
  }

  /** In a duplicate-free prefix, every position is a first occurrence. */
  lemma DistinctPrefixFirst<T>(s: seq<T>, d: nat, i: nat)
    requires d <= |s| && Distinct(s[..d]) && i < d
    ensures s[i] !in s[..i]
  {
    forall k | 0 <= k < i
      ensures s[k] != s[i]
    {
      assert s[..d][k] == s[k] && s[..d][i] == s[i];
    }
  }

  // Nested-loop joins
  // ---------------------------------------------------------------------------

  /** The pairs (i, j) with j < |vb| whose comparison values agree, in ascending j. */
  function RowPairs<T(==)>(i: int, x: T, vb: seq<T>): (r: seq<(int, int)>)
    ensures forall a :: 0 <= a < |r| ==> r[a].0 == i && 0 <= r[a].1 < |vb|
  {
    if |vb| == 0 then []
    else RowPairs(i, x, vb[..|vb| - 1]) + (if x == vb[|vb| - 1] then [(i, |vb| - 1)] else [])
  }

  /**
   * The index pairs a nested-loop join emits: `va[i]` holds the comparison
   * values of the i-th left tuple, `vb[j]` those of the j-th right tuple; the
   * left loop is outer.
   */
  function MatchingPairs<T(==)>(va: seq<T>, vb: seq<T>): (r: seq<(int, int)>)
    ensures PairsFit(va, vb, r)
  {
    if |va| == 0 then []
    else MatchingPairs(va[..|va| - 1], vb) + RowPairs(|va| - 1, va[|va| - 1], vb)
  }

  /** Every pair indexes into `a` on the left and `b` on the right. */
  predicate PairsFit<T>(a: seq<T>, b: seq<T>, pairs: seq<(int, int)>)
  {
    forall k :: 0 <= k < |pairs| ==> 0 <= pairs[k].0 < |a| && 0 <= pairs[k].1 < |b|
  }

  /**
   * The concatenated cells `ArrayUtil.concat(tupleA, tupleB)` of every
   * emitted pair. The joins emit only pairs that satisfy `PairsFit`; a pair
   * outside the tables would contribute an empty row.
   */
  function PairCells<T>(a: seq<seq<T>>, b: seq<seq<T>>, pairs: seq<(int, int)>): (c: seq<seq<T>>)
    ensures |c| == |pairs|
  {
    seq(|pairs|, k requires 0 <= k < |pairs| =>
      if 0 <= pairs[k].0 < |a| && 0 <= pairs[k].1 < |b| then a[pairs[k].0] + b[pairs[k].1] else [])
  }

  /** `removeDups` applied to every row. */
  function DedupAll<T(==)>(rows: seq<seq<T>>): (d: seq<seq<T>>)
    ensures |d| == |rows|
  {
    seq(|rows|, k requires 0 <= k < |rows| => Dedup(rows[k]))
  }

  /** The rows a join emits for `pairs`: concatenations, passed through `removeDups` for the natural join. */
  function JoinedCells<T(==)>(a: seq<seq<T>>, b: seq<seq<T>>, pairs: seq<(int, int)>, dedup: bool): (c: seq<seq<T>>)
    ensures |c| == |pairs|
  {
    if dedup then DedupAll(PairCells(a, b, pairs)) else PairCells(a, b, pairs)
  }

  /** The rows of consecutive runs of pairs come out one after the other. */
  lemma JoinedCellsAppend<T>(a: seq<seq<T>>, b: seq<seq<T>>, p: seq<(int, int)>, q: seq<(int, int)>, dedup: bool)
    ensures JoinedCells(a, b, p + q, dedup) == JoinedCells(a, b, p, dedup) + JoinedCells(a, b, q, dedup)
  {
    PairCellsAppend(a, b, p, q);
    if dedup {
      DedupAllAppend(PairCells(a, b, p), PairCells(a, b, q));
    }
  }

  /** The concatenated cells of consecutive runs of pairs come out one after the other. */
  lemma PairCellsAppend<T>(a: seq<seq<T>>, b: seq<seq<T>>, p: seq<(int, int)>, q: seq<(int, int)>)
    ensures PairCells(a, b, p + q) == PairCells(a, b, p) + PairCells(a, b, q)
  {
    var c := PairCells(a, b, p + q);
    forall k | 0 <= k < |p + q|
      ensures c[k] == (PairCells(a, b, p) + PairCells(a, b, q))[k]
    {
      if k < |p| {
        assert (p + q)[k] == p[k];
      } else {
        assert (p + q)[k] == q[k - |p|];
      }
    }
  }

  /** `removeDups` applied row by row commutes with concatenation. */
  lemma DedupAllAppend<T>(x: seq<seq<T>>, y: seq<seq<T>>)
    ensures DedupAll(x + y) == DedupAll(x) + DedupAll(y)
  {
    forall k | 0 <= k < |x + y|
      ensures DedupAll(x + y)[k] == (DedupAll(x) + DedupAll(y))[k]
    {
      if k < |x| {
        assert (x + y)[k] == x[k];
      } else {
        assert (x + y)[k] == y[k - |x|];
      }
    }
  }

  /** One more step of the inner loop emits (i, j) exactly when the values agree. */
  lemma RowPairsStep<T>(i: int, x: T, vb: seq<T>, j: nat)
    requires j < |vb|
    ensures RowPairs(i, x, vb[..j + 1]) == RowPairs(i, x, vb[..j]) + (if x == vb[j] then [(i, j)] else [])
  {
    assert vb[..j + 1][..j] == vb[..j];
  }

  /** Emitting one more pair appends its row. */
  lemma JoinedCellsSnoc<T>(a: seq<seq<T>>, b: seq<seq<T>>, p: seq<(int, int)>, i: nat, j: nat, dedup: bool)
    requires i < |a| && j < |b|
    ensures JoinedCells(a, b, p + [(i, j)], dedup) ==
      JoinedCells(a, b, p, dedup) + [if dedup then Dedup(a[i] + b[j]) else a[i] + b[j]]
  {
    assert PairCells(a, b, [(i, j)]) == [a[i] + b[j]];
    JoinedCellsAppend(a, b, p, [(i, j)], dedup);
  }

  /** One step of a join's inner loop: the rows so far, then the rows of pair (i, j), are the rows of the longer prefix. */
  lemma JoinStep<T>(a: seq<seq<T>>, b: seq<seq<T>>, i: nat, x: seq<T>, vb: seq<seq<T>>, j: nat, dedup: bool,
                        c: seq<seq<T>>, more: seq<seq<T>>)
    requires i < |a| && j < |vb| && |vb| == |b|
    requires c == JoinedCells(a, b, RowPairs(i, x, vb[..j]), dedup)
    requires more == JoinedCells(a, b, if x == vb[j] then [(i, j)] else [], dedup)
    ensures c + more == JoinedCells(a, b, RowPairs(i, x, vb[..j + 1]), dedup)
  {
    RowPairsStep(i, x, vb, j);
    JoinedCellsAppend(a, b, RowPairs(i, x, vb[..j]), if x == vb[j] then [(i, j)] else [], dedup);
  }

  /** One step of a join's outer loop: the rows so far, then the rows of tuple i, are the rows of the longer prefix. */
  lemma MatchStep<T>(a: seq<seq<T>>, b: seq<seq<T>>, va: seq<seq<T>>, vb: seq<seq<T>>, i: nat, dedup: bool,
                     c: seq<seq<T>>, more: seq<seq<T>>)
    requires i < |va| && |va| == |a| && |vb| == |b|
    requires c == JoinedCells(a, b, MatchingPairs(va[..i], vb), dedup)
    requires more == JoinedCells(a, b, RowPairs(i, va[i], vb), dedup)
    ensures c + more == JoinedCells(a, b, MatchingPairs(va[..i + 1], vb), dedup)
  {
    assert va[..i + 1][..i] == va[..i];
    JoinedCellsAppend(a, b, MatchingPairs(va[..i], vb), RowPairs(i, va[i], vb), dedup);
  }

  /** The rows the inner loop of a join has emitted for left tuple i after the first j right tuples. */
  function TupleRows<T(==)>(a: seq<seq<T>>, b: seq<seq<T>>, va: seq<seq<T>>, vb: seq<seq<T>>, dedup: bool, i: nat, j: nat)
    : seq<seq<T>>
    requires i < |va| && j <= |vb|
  {
    JoinedCells(a, b, RowPairs(i, va[i], vb[..j]), dedup)
  }

  /** The rows the outer loop of a join has emitted after the first i left tuples. */
  function PrefixRows<T(==)>(a: seq<seq<T>>, b: seq<seq<T>>, va: seq<seq<T>>, vb: seq<seq<T>>, dedup: bool, i: nat)
    : seq<seq<T>>
    requires i <= |va|
  {
    JoinedCells(a, b, MatchingPairs(va[..i], vb), dedup)
  }

  /** Strict lexicographic order of index pairs: the order of a nested loop. */
  predicate LexLess(p: (int, int), q: (int, int))
  {
    p.0 < q.0 || (p.0 == q.0 && p.1 < q.1)
  }

  lemma {:induction false} RowPairsSpec<T>(i: int, x: T, vb: seq<T>)
    ensures forall p :: p in RowPairs(i, x, vb) <==> p.0 == i && 0 <= p.1 < |vb| && x == vb[p.1]
    ensures forall a, b :: 0 <= a < b < |RowPairs(i, x, vb)| ==>
      RowPairs(i, x, vb)[a].1 < RowPairs(i, x, vb)[b].1
  {
    if |vb| > 0 {
      var init := vb[..|vb| - 1];
      RowPairsSpec(i, x, init);
      var R := RowPairs(i, x, init);
      var S := RowPairs(i, x, vb);
      assert S == R + (if x == vb[|vb| - 1] then [(i, |vb| - 1)] else []);
      forall a, b | 0 <= a < b < |S| ensures S[a].1 < S[b].1 {
        if b < |R| {
          assert S[a] == R[a] && S[b] == R[b];
        } else {
          assert S[a] == R[a];
        }
      }
    }
  }

  /** A pair is emitted exactly when both indices are in range and the comparison values agree. */
  lemma {:induction false} MatchingPairsMembers<T>(va: seq<T>, vb: seq<T>)
    ensures forall p :: p in MatchingPairs(va, vb) <==>
      0 <= p.0 < |va| && 0 <= p.1 < |vb| && va[p.0] == vb[p.1]
  {
    if |va| > 0 {
      var init := va[..|va| - 1];
      MatchingPairsMembers(init, vb);
      RowPairsSpec(|va| - 1, va[|va| - 1], vb);
    }
  }

  /** The pairs come out in nested-loop order, so none is emitted twice. */
  lemma {:induction false} MatchingPairsOrdered<T>(va: seq<T>, vb: seq<T>)
    ensures forall a, b :: 0 <= a < b < |MatchingPairs(va, vb)| ==>
      LexLess(MatchingPairs(va, vb)[a], MatchingPairs(va, vb)[b])
  {
    if |va| > 0 {
      var init := va[..|va| - 1];
      MatchingPairsOrdered(init, vb);
      MatchingPairsMembers(init, vb);
      RowPairsSpec(|va| - 1, va[|va| - 1], vb);
      var P, R := MatchingPairs(init, vb), RowPairs(|va| - 1, va[|va| - 1], vb);
      assert MatchingPairs(va, vb) == P + R;
      forall a | 0 <= a < |P| ensures P[a].0 < |va| - 1 {
        assert P[a] in P;
      }
    }
  }

  /** When every comparison succeeds the join is the full cross product. */
  lemma {:induction false} MatchingPairsAll<T>(va: seq<T>, vb: seq<T>)
    requires forall i, j :: 0 <= i < |va| && 0 <= j < |vb| ==> va[i] == vb[j]
    ensures |MatchingPairs(va, vb)| == |va| * |vb|
  {
    if |va| > 0 {
      var init := va[..|va| - 1];
      MatchingPairsAll(init, vb);
      RowPairsAll(|va| - 1, va[|va| - 1], vb);
    }
  }

  lemma {:induction false} RowPairsAll<T>(i: int, x: T, vb: seq<T>)
    requires forall j :: 0 <= j < |vb| ==> x == vb[j]
    ensures |RowPairs(i, x, vb)| == |vb|
  {
    if |vb| > 0 {
      RowPairsAll(i, x, vb[..|vb| - 1]);
    }
  }

  /** Nothing is emitted when one side has no tuples. */
  lemma MatchingPairsEmpty<T>(va: seq<T>, vb: seq<T>)
    requires |va| == 0 || |vb| == 0
    ensures MatchingPairs(va, vb) == []
  {
  }

  // ---------------------------------------------------------------------------
  // Attribute renaming of the alternative equi-join
  // ---------------------------------------------------------------------------

  /**
   * One pass of the outer renaming loop for `attrs1[j] == tj`: if `tj`
   * occurs anywhere in the current array, position j (not the position
   * where it was found) becomes `tj + "2"`. When j is past the end Java
   * throws; that case is excluded by `RenameFits`.
   */
  function RenameStep(arr: seq<string>, tj: string, j: nat): seq<string>
  {
    if tj in arr && j < |arr| then arr[j := tj + "2"] else arr
  }

  /** The attribute array after the renaming loop has run over the first |t| names of attrs1. */
  function Renamed(arr: seq<string>, t: seq<string>): (r: seq<string>)
    ensures |r| == |arr|
  {
    if |t| == 0 then arr
    else RenameStep(Renamed(arr, t[..|t| - 1]), t[|t| - 1], |t| - 1)
  }

  /** Every write of the renaming loop lands inside the array. */
  predicate RenameFits(arr: seq<string>, t: seq<string>)
  {
    forall j :: 0 <= j < |t| && t[j] in Renamed(arr, t[..j]) ==> j < |arr|
  }

  /** Positions at or beyond |attrs1| are never renamed. */
  lemma {:induction false} RenamedBeyond(arr: seq<string>, t: seq<string>, p: nat)
    requires |t| <= p < |arr|
    ensures Renamed(arr, t)[p] == arr[p]
  {
    if |t| > 0 {
      RenamedBeyond(arr, t[..|t| - 1], p);
    }
  }

  /** Position j is written only by pass j: later passes leave it alone. */
  lemma {:induction false} RenamedSettled(arr: seq<string>, t: seq<string>, n: nat, j: nat)
    requires j < n <= |t| && j < |arr|
    ensures Renamed(arr, t[..n])[j] == Renamed(arr, t[..j + 1])[j]
  {
    if n > j + 1 {
      assert t[..n][..n - 1] == t[..n - 1];
      RenamedSettled(arr, t, n - 1, j);
    }
  }

  /**
   * After the loop, position j < |attrs1| holds `attrs1[j] + "2"` exactly
   * when attrs1[j] occurs in the array as the earlier passes left it, and
   * its original name otherwise.
   */
  lemma RenamedAt(arr: seq<string>, t: seq<string>, j: nat)
    requires j < |t| && j < |arr|
    ensures Renamed(arr, t)[j] ==
      if t[j] in Renamed(arr, t[..j]) then t[j] + "2" else arr[j]
  {
    assert t[..|t|] == t;
    RenamedSettled(arr, t, |t|, j);
    assert t[..j + 1][..j] == t[..j];
    RenamedBeyond(arr, t[..j], j);
  }

  /**
   * If attrs1[j] names an attribute of table2 at a position k >= j, the
   * earlier passes have not touched k, so position j is renamed.
   */
  lemma RenamedFires(arr: seq<string>, t: seq<string>, j: nat, k: nat)
    requires j < |t| && j <= k < |arr| && arr[k] == t[j]
    ensures Renamed(arr, t)[j] == t[j] + "2"
  {
    RenamedBeyond(arr, t[..j], k);
    RenamedAt(arr, t, j);
  }

  /** If no name of attrs1 occurs in table2's attributes, the renaming changes nothing. */
  lemma {:induction false} RenamedNoCollision(arr: seq<string>, t: seq<string>)
    requires forall j :: 0 <= j < |t| ==> t[j] !in arr
    ensures Renamed(arr, t) == arr
  {
    if |t| > 0 {
      RenamedNoCollision(arr, t[..|t| - 1]);
    }
  }

  /** The renaming as written gives the suffix to the wrong column and leaves the clashing name in place. */
  lemma RenamedAsWrittenMisplaces()
    ensures Renamed(["a", "b"], ["b"]) == ["b2", "b"]
  {
    var arr, t := ["a", "b"], ["b"];
    assert t[..0] == [] && Renamed(arr, t[..0]) == arr;
    assert "b" in arr by { assert arr[1] == "b"; }
    assert "b" + "2" == "b2";
    assert arr[0 := "b2"] == ["b2", "b"];
  }

  /** The renaming as written writes past the end of a shorter attribute array. */
  lemma RenamedAsWrittenOverruns()
    ensures !RenameFits(["b"], ["x", "b"])
  {
    var t := ["x", "b"];
    assert t[..1] == ["x"] && t[..1][..0] == [];
    assert Renamed(["b"], t[..1]) == ["b"];
  }

  /** One pass of the intended loop: every attribute equal to `tj` gets the suffix "2", in place. */
  function RenameAll(arr: seq<string>, tj: string): (r: seq<string>)
    ensures |r| == |arr|
  {
    seq(|arr|, k requires 0 <= k < |arr| => if arr[k] == tj then tj + "2" else arr[k])
  }

  /** The intended renaming: one pass per name of attributes1, in order. */
  function Disambiguated(arr: seq<string>, t: seq<string>): (r: seq<string>)
    ensures |r| == |arr|
  {
    if |t| == 0 then arr else RenameAll(Disambiguated(arr, t[..|t| - 1]), t[|t| - 1])
  }

  /**
   * When no name of attributes1 is another one with "2" appended, the
   * intended renaming suffixes exactly the attributes that occur in
   * attributes1, and afterwards none of them clashes with attributes1.
   */
  lemma {:induction false} DisambiguatedSpec(arr: seq<string>, t: seq<string>)
    requires forall j, j' :: 0 <= j < |t| && 0 <= j' < |t| ==> t[j] + "2" != t[j']
    ensures forall k :: 0 <= k < |arr| ==>
      Disambiguated(arr, t)[k] == if arr[k] in t then arr[k] + "2" else arr[k]
    ensures forall k :: 0 <= k < |arr| ==> Disambiguated(arr, t)[k] !in t
  {
    if |t| > 0 {
      var init, x := t[..|t| - 1], t[|t| - 1];
      assert t == init + [x];
      DisambiguatedSpec(arr, init);
    }
  }

  /** The intended renaming never touches an attribute that is not in attributes1. */
  lemma {:induction false} DisambiguatedKeeps(arr: seq<string>, t: seq<string>, k: nat)
    requires k < |arr| && arr[k] !in t
    ensures Disambiguated(arr, t)[k] == arr[k]
  {
    if |t| > 0 {
      var init := t[..|t| - 1];
      assert t == init + [t[|t| - 1]];
      DisambiguatedKeeps(arr, init, k);
    }
  }
}
