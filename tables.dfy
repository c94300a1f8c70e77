/**
 * The relational table: a schema (name, attribute names, domains, primary
 * key), a list of tuples and an index from key values to tuples, with the
 * relational-algebra operators `project`, `select`, `union`, `minus`, the
 * equi-join and the natural join, and the `insert` operation.
 */
module Tables {
  import opened Values
  import opened Schema
  import opened RowOps
  import opened RowSets
  import opened Names
  import opened Lookups
  import opened Scans

  /** The static `count` that numbers temporary tables, shared by every table. */
  class Counter {
    var count: Int32

    constructor ()
      ensures count == 0
    {
      count := 0;
    }

    /** `count++`: yields the current value and advances the counter as a Java `int` does. */
    method Next() returns (c: Int32)
      modifies this
      ensures c == old(count)
      ensures count == Successor(old(count))
    {
      c := count;
      count := Successor(count);
    }
  }

  /** `ArrayUtil.concat`: a fresh array holding the elements of `a`, then those of `b`. */
  method Concat<T>(a: array<T>, b: array<T>) returns (c: array<T>)
    ensures fresh(c)
    ensures c[..] == a[..] + b[..]
  {
    var s := a[..] + b[..];
    c := new T[|s|](i requires 0 <= i < |s| => s[i]);
  }

  /** The `keyValues` list of the linear-scan select: the cells of `tup` at `positions`, in order. */
  method CellsAt(tup: Row, positions: seq<nat>) returns (keyValues: seq<Value>)
    requires Fits(positions, |tup.cells|)
    ensures keyValues == Pick(tup.cells, positions)
  {
    keyValues := [];
    for j := 0 to |positions|
      invariant keyValues == Pick(tup.cells, positions[..j])
    {
      keyValues := keyValues + [tup.cells[positions[j]]];
    }
    assert positions[..|positions|] == positions;
  }

  /** The key array `insert` fills: the cells of `cells` at the positions `colPos`, in order. */
  method KeyArray(cells: seq<Value>, colPos: seq<int>) returns (keyVal: seq<Value>)
    requires forall j :: 0 <= j < |colPos| ==> 0 <= colPos[j] < |cells|
    ensures |keyVal| == |colPos|
    ensures forall j :: 0 <= j < |colPos| ==> keyVal[j] == cells[colPos[j]]
  {
    var arr := new Value[|colPos|](_ => IntValue(0));
    for j := 0 to |colPos|
      invariant forall q :: 0 <= q < j ==> arr[q] == cells[colPos[q]]
    {
      arr[j] := cells[colPos[j]];
    }
    keyVal := arr[..];
  }

  /** One step of `Enumerate`: moving an element of `rest` to the end of `xs` keeps the split of `s`. */
  lemma EnumerateStep<T>(s: set<T>, xs: seq<T>, rest: set<T>, e: T)
    requires Elems(xs) + rest == s && Elems(xs) !! rest && Distinct(xs) && e in rest
    ensures Elems(xs + [e]) + (rest - {e}) == s && Elems(xs + [e]) !! (rest - {e}) && Distinct(xs + [e])
  {
    ElemsSnoc(xs, e);
  }

  /**
   * The inner loop of `match` for one name: scan the whole schema, keeping
   * the last position where the name occurs, starting from the array's 0.
   * `matched` records whether the name occurs at all (Java prints a
   * message when it does not).
   */
  method FindColumn(attrs: seq<string>, name: string) returns (pos: int, matched: bool)
    ensures matched <==> name in attrs
    ensures pos == LastPos(attrs, name)
  {
    pos, matched := 0, false;
    for k := 0 to |attrs|
      invariant matched <==> name in attrs[..k]
      invariant pos == LastPos(attrs[..k], name)
    {
      assert attrs[..k + 1][..k] == attrs[..k];
      if name == attrs[k] {
        matched := true;
        pos := k;
      }
    }
    assert attrs[..|attrs|] == attrs;
  }

  /** Iterating over a `HashSet`: every element exactly once, in an order the model leaves open. */
  method Enumerate<T>(s: set<T>) returns (xs: seq<T>)
    ensures Elems(xs) == s && Distinct(xs)
  {
    xs := [];
    var rest := s;
    while rest != {}
      invariant Elems(xs) + rest == s && Elems(xs) !! rest && Distinct(xs)
      decreases |rest|
    {
      var e :| e in rest;
      EnumerateStep(s, xs, rest, e);
      xs := xs + [e];
      rest := rest - {e};
    }
  }

  // ---------------------------------------------------------------------------
  // The natural join's attribute array
  // ---------------------------------------------------------------------------

  /** The first loop of the merge: add every name of `b` to the name set. */
  method AllNames(names: set<string>, b: seq<string>) returns (tableattr: set<string>)
    ensures tableattr == names + Elems(b)
  {
    tableattr := names;
    for i := 0 to |b|
      invariant tableattr == names + Elems(b[..i])
    {
      assert b[..i + 1] == b[..i] + [b[i]];
      ElemsSnoc(b[..i], b[i]);
      if b[i] !in tableattr {
        tableattr := tableattr + {b[i]};
      }
    }
    assert b[..|b|] == b;
  }

  /**
   * The second loop of the merge: each name of `a` still in the set is
   * removed from it and written at its own position.
   */
  method PlaceOwn(newAttr: array<string>, a: seq<string>, all: set<string>, ghost others: set<string>)
    returns (tableattr: set<string>)
    requires Distinct(a) && all == Elems(a) + others && Elems(a) !! others && |a| <= newAttr.Length
    modifies newAttr
    ensures tableattr == others
    ensures newAttr[..|a|] == a
    ensures forall q :: |a| <= q < newAttr.Length ==> newAttr[q] == old(newAttr[q])
  {
    tableattr := all;
    var x := 0;
    for i := 0 to |a|
      invariant x == i
      invariant tableattr == Elems(a[i..]) + others
      invariant forall q :: 0 <= q < i ==> newAttr[q] == a[q]
      invariant forall q :: i <= q < newAttr.Length ==> newAttr[q] == old(newAttr[q])
    {
      assert a[i..] == [a[i]] + a[i + 1..];
      assert a[i] !in a[i + 1..];
      if a[i] in tableattr {
        tableattr := tableattr - {a[i]};
        newAttr[x] := a[i];
      }
      x := x + 1;
    }
    assert newAttr[..|a|] == a;
  }

  /**
   * The third loop of the merge: the k-th name of `b`, when it is still in
   * the set, is written at position |a| + k.
   */
  method PlaceOthers(newAttr: array<string>, a: seq<string>, b: seq<string>, tableattr: set<string>)
    requires tableattr == Elems(b) - Elems(a) && NonCommonFirst(a, b)
    requires newAttr.Length == |a| + |tableattr|
    modifies newAttr
    ensures forall q :: 0 <= q < |a| ==> newAttr[q] == old(newAttr[q])
    ensures newAttr[|a|..] == NonCommon(a, b)
  {
    ghost var n := |tableattr|;
    NonCommonSlots(a, b, tableattr);
    var x := |a|;
    for k := 0 to |b|
      invariant x == |a| + k
      invariant forall q :: 0 <= q < |a| ==> newAttr[q] == old(newAttr[q])
      invariant forall q :: 0 <= q < k && q < n ==> newAttr[|a| + q] == b[q]
    {
      if b[k] in tableattr {
        newAttr[x] := b[k];
      }
      x := x + 1;
    }
    assert newAttr[|a|..] == b[..n];
  }

  /** A sequence is its first |a| elements followed by the rest. */
  lemma SplitAt<T>(s: seq<T>, a: seq<T>, rest: seq<T>)
    requires |a| <= |s| && s[..|a|] == a && s[|a|..] == rest
    ensures s == a + rest
  {
    assert s == s[..|a|] + s[|a|..];
  }

  /** The merged name set holds the names of `a` and, apart from them, the other names of `b`. */
  lemma MergedCount(a: seq<string>, b: seq<string>, tableattr: set<string>, others: set<string>)
    requires Distinct(a) && tableattr == Elems(a) + Elems(b) && others == Elems(b) - Elems(a)
    ensures tableattr == Elems(a) + others && Elems(a) !! others && |tableattr| == |a| + |others|
  {
    DistinctCard(a);
    assert tableattr == Elems(a) + others;
  }

  /**
   * The natural join's attribute array: sized to the distinct names of
   * both tables, the names of `a` first, then each name of `b` that is not
   * in `a` at position |a| + k, where k is its position in `b`.
   */
  method MergedAttributes(a: seq<string>, b: seq<string>, names: set<string>) returns (newAttr: array<string>)
    requires names == Elems(a) && Distinct(a) && NonCommonFirst(a, b)
    ensures fresh(newAttr)
    ensures newAttr[..] == a + NonCommon(a, b)
  {
    var tableattr := AllNames(names, b);
    ghost var others := Elems(b) - Elems(a);
    MergedCount(a, b, tableattr, others);
    newAttr := new string[|tableattr|](_ => "");
    tableattr := PlaceOwn(newAttr, a, tableattr, others);
    PlaceOthers(newAttr, a, b, tableattr);
    SplitAt(newAttr[..], a, NonCommon(a, b));
  }

  class Table {
    const name: string
    const attribute: array<string>
    const domain: seq<Domain>
    const key: array<string>
    var tuples: seq<Row>
    var index: map<seq<Value>, Row>

    /** Every index entry points at a stored tuple: `insert` writes both together. */
    ghost predicate Valid()
      reads this
    {
      forall k :: k in index ==> index[k] in tuples
    }

    /** The primary constructor: an empty table over the given schema arrays. */
    constructor (n: string, attrs: array<string>, doms: seq<Domain>, k: array<string>)
      ensures name == n && attribute == attrs && domain == doms && key == k
      ensures tuples == [] && index == map[]
      ensures Valid()
    {
      name, attribute, domain, key := n, attrs, doms, k;
      tuples, index := [], map[];
    }

    /** The constructor every operator uses: the given tuple list, stored as is, and an empty index. */
    constructor WithTuples(n: string, attrs: array<string>, doms: seq<Domain>, k: array<string>, rows: seq<Row>)
      ensures name == n && attribute == attrs && domain == doms && key == k
      ensures tuples == rows && index == map[]
      ensures Valid()
    {
      name, attribute, domain, key := n, attrs, doms, k;
      tuples, index := rows, map[];
    }

    /** The parts of the table that key regeneration and the key-lookup joins read. */
    function State(): (s: TableState)
      reads this, attribute, key
      ensures s.attrs == attribute[..] && s.key == key[..] && s.tuples == tuples && s.index == index
    {
      TableState(attribute[..], key[..], tuples, index)
    }

    // -------------------------------------------------------------------------
    // The key of a tuple
    // -------------------------------------------------------------------------

    /** The columns `match(key)` finds for the key attributes. */
    function KeyCols(): seq<nat>
      reads attribute, key
    {
      MatchPositions(attribute[..], key[..])
    }

    /** The tuple has a cell at every key column. */
    predicate HasKeyCells(r: Row)
      reads attribute, key
    {
      Fits(KeyCols(), |r.cells|)
    }

    /** The key value `insert` files the tuple under. */
    function KeyOf(r: Row): seq<Value>
      reads attribute, key
      requires HasKeyCells(r)
    {
      Pick(r.cells, KeyCols())
    }

    /** Every key attribute names an attribute of the schema. */
    predicate KeyNamesKnown()
      reads attribute, key
    {
      Known(attribute[..], key[..])
    }

    /** Each stored tuple's key maps to that very tuple. */
    predicate Consistent()
      reads this, attribute, key
    {
      RowSets.Consistent(tuples, index, KeyCols())
    }

    /** Every index entry is filed under the key of the tuple it holds. */
    predicate Filed()
      reads this, attribute, key
    {
      RowSets.Filed(index, KeyCols())
    }

    // -------------------------------------------------------------------------
    // Schema helpers
    // -------------------------------------------------------------------------

    /** `col`: the first position of `attr`, or -1 when it is not an attribute. */
    method Col(attr: string) returns (i: int)
      ensures -1 <= i < attribute.Length
      ensures i == -1 <==> attr !in attribute[..]
      ensures i >= 0 ==> attribute[i] == attr && attr !in attribute[..i]
    {
      var j := 0;
      while j < attribute.Length
        invariant 0 <= j <= attribute.Length
        invariant attr !in attribute[..j]
      {
        if attr == attribute[j] {
          return j;
        }
        j := j + 1;
      }
      return -1;
    }

    /** `compatible`: the same number of attributes with the same domains. */
    method Compatible(table2: Table) returns (ok: bool)
      ensures ok <==> domain == table2.domain
    {
      if |domain| != |table2.domain| {
        return false;
      }
      for j := 0 to |domain|
        invariant domain[..j] == table2.domain[..j]
      {
        if domain[j] != table2.domain[j] {
          return false;
        }
      }
      return true;
    }

    /**
     * `match`: the last position of each name in the schema, and 0 for a
     * name that is not there (the array starts zeroed).
     */
    method Match(column: seq<string>) returns (colPos: array<int>)
      ensures fresh(colPos)
      ensures colPos.Length == |column|
      ensures forall j :: 0 <= j < |column| ==> colPos[j] == MatchPositions(attribute[..], column)[j]
    {
      colPos := new int[|column|](_ => 0);
      var attrs := attribute[..];
      for j := 0 to |column|
        invariant forall q :: 0 <= q < j ==> colPos[q] == LastPos(attrs, column[q])
      {
        var pos, matched := FindColumn(attrs, column[j]);
        colPos[j] := pos;
      }
    }

    /** `extractDom`: the domains at the given column positions. */
    method ExtractDom(colPos: array<int>, group: seq<Domain>) returns (obj: seq<Domain>)
      requires forall j :: 0 <= j < colPos.Length ==> 0 <= colPos[j] < |group|
      ensures |obj| == colPos.Length
      ensures forall j :: 0 <= j < colPos.Length ==> obj[j] == group[colPos[j]]
    {
      var arr := new Domain[colPos.Length](_ => Integer);
      for j := 0 to colPos.Length
        invariant forall q :: 0 <= q < j ==> arr[q] == group[colPos[q]]
      {
        arr[j] := group[colPos[j]];
      }
      obj := arr[..];
    }

    /** `match` followed by `extractDom`: the domains of the columns named `names`, in that order. */
    method ColumnDomains(names: seq<string>) returns (colDomain: seq<Domain>)
      requires Fits(MatchPositions(attribute[..], names), |domain|)
      ensures colDomain == Pick(domain, MatchPositions(attribute[..], names))
    {
      var cp := Match(names);
      colDomain := ExtractDom(cp, domain);
    }

    /** Filling that map by putting every attribute, left to right. */
    method AttributeIndex() returns (m: map<string, int>)
      ensures IsAttributeIndex(attribute[..], m)
    {
      m := map[];
      for i := 0 to attribute.Length
        invariant forall a :: a in m <==> a in attribute[..i]
        invariant forall a :: a in m ==> m[a] == LastPos(attribute[..i], a)
      {
        assert attribute[..i + 1][..i] == attribute[..i];
        m := m[attribute[i] := i];
      }
      assert attribute[..attribute.Length] == attribute[..];
    }

    /** `typeCheck`, which accepts every tuple: its body is not yet written. */
    method TypeCheck(t: Row) returns (ok: bool)
      ensures ok
    {
      ok := true;
    }

    // -------------------------------------------------------------------------
    // insert
    // -------------------------------------------------------------------------

    /**
     * `insert`: append the tuple and file it in the index under its key; a
     * later tuple with the same key replaces the earlier one in the index.
     */
    method Insert(tup: Row) returns (ok: bool)
      requires Valid() && HasKeyCells(tup)
      modifies this
      ensures ok && Valid()
      ensures tuples == old(tuples) + [tup]
      ensures index == old(index)[KeyOf(tup) := tup]
      ensures old(Filed()) ==> Filed()
      ensures old(Consistent()) && KeyOf(tup) !in old(index) ==> Consistent()
    {
      ok := TypeCheck(tup);
      if ok {
        ghost var cols := KeyCols();
        if Consistent() && KeyOf(tup) !in index {
          RowSets.ConsistentAdd(tuples, index, cols, tup);
        }
        if Filed() {
          RowSets.FiledAdd(index, cols, tup);
        }
        tuples := tuples + [tup];
        var colPos := Match(key[..]);
        var keyVal := KeyArray(tup.cells, colPos[..]);
        assert keyVal == KeyOf(tup);
        index := index[keyVal := tup];
      }
    }


    // -------------------------------------------------------------------------
    // project
    // -------------------------------------------------------------------------

    /**
     * What `project` needs in order not to throw: the domains of the matched
     * columns exist, and when a cell is ever read, the projected names are
     * attributes and every key lookup succeeds with a wide enough tuple.
     */
    predicate ProjectDefined(attrs: seq<string>)
      reads this, attribute, key
    {
      Fits(MatchPositions(attribute[..], attrs), |domain|) && ProjectLookups(State(), attrs)
    }

    /**
     * `project`: one new row per stored tuple holding the cells of the
     * projected attributes, read from the tuple the index returns for the
     * tuple's own key. The key is kept when the projection contains it and
     * is otherwise the whole projected attribute array.
     */
    method Project(attrs: seq<string>, counter: Counter) returns (t: Table)
      requires ProjectDefined(attrs)
      modifies counter
      ensures counter.count == Successor(old(counter.count))
      ensures fresh(t) && fresh(t.attribute) && t.Valid()
      ensures t.name == name + IntToString(old(counter.count) as int)
      ensures t.attribute[..] == attrs
      ensures t.domain == Pick(domain, MatchPositions(attribute[..], attrs))
      ensures t.key == if Known(attrs, key[..]) then key else t.attribute
      ensures t.index == map[]
      ensures forall r :: r in t.tuples ==> fresh(r)
      ensures CellsOf(t.tuples) == Projected(State(), attrs)
    {
      var m := AttributeIndex();
      var attributeIdx := AttributeIndex();
      var rows := ProjectRows(State(), attrs, m, attributeIdx);
      var colDomain := ColumnDomains(attrs);
      var c := counter.Next();
      var attrsArr := new string[|attrs|](j requires 0 <= j < |attrs| => attrs[j]);
      assert attrsArr[..] == attrs;
      var newKey := if Known(attrs, key[..]) then key else attrsArr;
      t := new Table.WithTuples(name + IntToString(c as int), attrsArr, colDomain, newKey, rows);
    }

    // -------------------------------------------------------------------------
    // select
    // -------------------------------------------------------------------------

    /** `select(predicate)`: the stored tuples whose cells satisfy `p`, the same objects in the same order. */
    method Select(p: seq<Value> -> bool, counter: Counter) returns (t: Table)
      modifies counter
      ensures counter.count == Successor(old(counter.count))
      ensures fresh(t) && t.Valid()
      ensures t.name == name + IntToString(old(counter.count) as int)
      ensures t.attribute == attribute && t.domain == domain && t.key == key
      ensures t.tuples == Filter(tuples, p) && t.index == map[]
    {
      var c := counter.Next();
      t := new Table.WithTuples(name + IntToString(c as int), attribute, domain, key, Filter(tuples, p));
    }

    /**
     * `select(keyVal)`: scan the tuples for the one the index holds for the
     * key and stop at the first hit; nothing when the key is not indexed.
     */
    method SelectKey(keyVal: seq<Value>, counter: Counter) returns (t: Table)
      requires Valid()
      modifies counter
      ensures counter.count == Successor(old(counter.count))
      ensures fresh(t) && t.Valid()
      ensures t.name == name + IntToString(old(counter.count) as int)
      ensures t.attribute == attribute && t.domain == domain && t.key == key && t.index == map[]
      ensures t.tuples == if keyVal in index then [index[keyVal]] else []
    {
      var rows: seq<Row> := [];
      for i := 0 to |tuples|
        modifies {}
        invariant rows == []
        invariant keyVal in index ==> index[keyVal] !in tuples[..i]
      {
        if keyVal in index && index[keyVal] == tuples[i] {
          rows := [tuples[i]];
          break;
        }
        assert tuples[..i + 1] == tuples[..i] + [tuples[i]];
      }
      assert keyVal in index ==> index[keyVal] in tuples[..|tuples|];
      var c := counter.Next();
      t := new Table.WithTuples(name + IntToString(c as int), attribute, domain, key, rows);
    }

    /** The `keyIndexes` list of the linear-scan select: the positions of key attributes, ascending. */
    method KeyIndexes() returns (keyIndexes: seq<nat>)
      ensures keyIndexes == SchemaKeyPositions(attribute[..], key[..])
    {
      keyIndexes := [];
      var keyNames := Elems(key[..]);
      for i := 0 to attribute.Length
        invariant keyIndexes == SchemaKeyPositions(attribute[..i], key[..])
      {
        assert attribute[..i + 1][..i] == attribute[..i];
        if attribute[i] in keyNames {
          keyIndexes := keyIndexes + [i];
        }
      }
      assert attribute[..attribute.Length] == attribute[..];
    }

    /**
     * The linear-scan select: collect the positions of the key attributes in
     * schema order, then keep every tuple whose cells there equal the key.
     */
    method NonIndexSelect(keyVal: seq<Value>, counter: Counter) returns (t: Table)
      requires CellsFit(tuples, SchemaKeyPositions(attribute[..], key[..]))
      modifies counter
      ensures counter.count == Successor(old(counter.count))
      ensures fresh(t) && t.Valid()
      ensures t.name == name + IntToString(old(counter.count) as int)
      ensures t.attribute == attribute && t.domain == domain && t.key == key && t.index == map[]
      ensures t.tuples == KeyFilter(tuples, SchemaKeyPositions(attribute[..], key[..]), keyVal)
    {
      var keyIndexes := KeyIndexes();
      var rows: seq<Row> := [];
      for i := 0 to |tuples|
        modifies {}
        invariant rows == KeyFilter(tuples[..i], keyIndexes, keyVal)
      {
        assert tuples[..i + 1][..i] == tuples[..i];
        var currentTuple := tuples[i];
        var keyValues := CellsAt(currentTuple, keyIndexes);
        if keyValues == keyVal {
          rows := rows + [tuples[i]];
        }
      }
      assert tuples[..|tuples|] == tuples;
      var c := counter.Next();
      t := new Table.WithTuples(name + IntToString(c as int), attribute, domain, key, rows);
    }

    /**
     * On a table built by `insert` with unique keys, schema-ordered key
     * names and no tuple stored twice, the linear scan returns what the
     * indexed select returns.
     */
    lemma LinearScanAgrees(keyVal: seq<Value>)
      requires Valid() && Consistent() && Filed() && Distinct(tuples)
      requires Distinct(attribute[..]) && key[..] == Common(key[..], attribute[..])
      ensures CellsFit(tuples, SchemaKeyPositions(attribute[..], key[..]))
      ensures KeyFilter(tuples, SchemaKeyPositions(attribute[..], key[..]), keyVal)
        == if keyVal in index then [index[keyVal]] else []
    {
      SchemaOrderKey(attribute[..], key[..]);
      var kc := KeyCols();
      forall a, b | 0 <= a < b < |tuples|
        ensures Pick(tuples[a].cells, kc) != Pick(tuples[b].cells, kc)
      {
        assert tuples[a] in tuples && tuples[b] in tuples;
      }
      LinearScanMatchesIndex(tuples, index, kc, keyVal);
    }

    // -------------------------------------------------------------------------
    // union and minus
    // -------------------------------------------------------------------------

    /**
     * `union`: null for incompatible tables; otherwise every tuple of either
     * table exactly once, in the unspecified order of a `HashSet` of arrays.
     */
    method Union(table2: Table, counter: Counter) returns (t: Table?)
      modifies counter
      ensures domain != table2.domain ==> t == null && counter.count == old(counter.count)
      ensures domain == table2.domain ==> t != null && fresh(t) && t.Valid()
      ensures domain == table2.domain ==> counter.count == Successor(old(counter.count))
      ensures domain == table2.domain ==> t.name == name + IntToString(old(counter.count) as int)
      ensures domain == table2.domain ==>
        t.attribute == attribute && t.domain == domain && t.key == key && t.index == map[]
      ensures domain == table2.domain ==>
        Distinct(t.tuples) && Elems(t.tuples) == Elems(tuples) + Elems(table2.tuples)
    {
      var ok := Compatible(table2);
      if !ok {
        return null;
      }
      var tableSet: set<Row> := {};
      for i := 0 to |tuples|
        modifies {}
        invariant tableSet == Elems(tuples[..i])
      {
        assert tuples[..i + 1] == tuples[..i] + [tuples[i]];
        ElemsSnoc(tuples[..i], tuples[i]);
        tableSet := tableSet + {tuples[i]};
      }
      assert tuples[..|tuples|] == tuples;
      for i := 0 to |table2.tuples|
        modifies {}
        invariant tableSet == Elems(tuples) + Elems(table2.tuples[..i])
      {
        assert table2.tuples[..i + 1] == table2.tuples[..i] + [table2.tuples[i]];
        ElemsSnoc(table2.tuples[..i], table2.tuples[i]);
        tableSet := tableSet + {table2.tuples[i]};
      }
      assert table2.tuples[..|table2.tuples|] == table2.tuples;
      var rows := Enumerate(tableSet);
      var c := counter.Next();
      t := new Table.WithTuples(name + IntToString(c as int), attribute, domain, key, rows);
    }

    /**
     * `kEEP_BiPredicate`: keep `subj` unless some tuple of `diffTable` is
     * that very tuple; `Without` filters by exactly this test.
     */
    function Keep(subj: Row, diffTable: Table): (keep: bool)
      reads diffTable
      ensures keep <==> subj !in diffTable.tuples
      ensures keep == (FindIdentical(diffTable.tuples, subj) == None)
    {
      match FindIdentical(diffTable.tuples, subj)
      case None => true
      case Some(_) => false
    }

    /** The tuples `Without` keeps are exactly the stored tuples `Keep` accepts. */
    lemma MinusKeeps(table2: Table)
      ensures forall r :: r in Without(tuples, table2.tuples) <==> r in tuples && Keep(r, table2)
    {
      WithoutMembers(tuples, table2.tuples);
    }

    /** `minus`: null for incompatible tables; otherwise the tuples not in table2, in order. */
    method Minus(table2: Table, counter: Counter) returns (t: Table?)
      modifies counter
      ensures domain != table2.domain ==> t == null && counter.count == old(counter.count)
      ensures domain == table2.domain ==> t != null && fresh(t) && t.Valid()
      ensures domain == table2.domain ==> counter.count == Successor(old(counter.count))
      ensures domain == table2.domain ==> t.name == name + IntToString(old(counter.count) as int)
      ensures domain == table2.domain ==>
        t.attribute == attribute && t.domain == domain && t.key == key && t.index == map[]
      ensures domain == table2.domain ==> t.tuples == Without(tuples, table2.tuples)
      ensures domain == table2.domain ==> forall r :: r in t.tuples <==> r in tuples && Keep(r, table2)
    {
      var ok := Compatible(table2);
      if !ok {
        return null;
      }
      var c := counter.Next();
      t := new Table.WithTuples(name + IntToString(c as int), attribute, domain, key, Without(tuples, table2.tuples));
      MinusKeeps(table2);
    }

    // -------------------------------------------------------------------------
    // The index-oracle joins: the equi-join and the natural join
    // -------------------------------------------------------------------------

    /** The four name maps both key-lookup joins fill before their nested loops. */
    method NameMapsFor(table2: Table) returns (maps: NameMaps)
      ensures MapsOf(State(), table2.State(), maps)
    {
      var kA := AttributeIndex();
      var kB := table2.AttributeIndex();
      var attributeIdxA := AttributeIndex();
      var attributeIdxB := table2.AttributeIndex();
      maps := NameMaps(kA, kB, attributeIdxA, attributeIdxB);
    }

    /**
     * The nested loops of a key-lookup join with table2: for each tuple of
     * this table in order, for each tuple of table2 in order, the row of
     * every pair whose looked-up cells agree.
     */
    method JoinRows(namesA: seq<string>, table2: Table, namesB: seq<string>, dedup: bool) returns (rows: seq<Row>)
      requires MatchDefined(State(), namesA, table2.State(), namesB)
      requires dedup ==> DedupDefined(State(), namesA, table2.State(), namesB)
      ensures forall r :: r in rows ==> fresh(r)
      ensures CellsOf(rows) == JoinedCells(CellsOf(tuples), CellsOf(table2.tuples),
        MatchPairs(State(), namesA, table2.State(), namesB), dedup)
    {
      var maps := NameMapsFor(table2);
      rows := MatchRows(State(), namesA, table2.State(), namesB, dedup, maps);
    }

    /**
     * The equi-join: every pair of tuples, this table's in the outer loop,
     * whose looked-up cells agree on attributes1 and attributes2, as the
     * concatenation of the two tuples.
     */
    method Join(attrs1: seq<string>, attrs2: seq<string>, table2: Table, counter: Counter) returns (t: Table)
      requires MatchDefined(State(), attrs1, table2.State(), attrs2)
      modifies counter
      ensures counter.count == Successor(old(counter.count))
      ensures fresh(t) && fresh(t.attribute) && t.Valid()
      ensures t.name == name + IntToString(old(counter.count) as int)
      ensures t.attribute[..] == attribute[..] + table2.attribute[..]
      ensures t.domain == domain + table2.domain && t.key == key && t.index == map[]
      ensures forall r :: r in t.tuples ==> fresh(r)
      ensures CellsOf(t.tuples) == PairCells(CellsOf(tuples), CellsOf(table2.tuples),
        MatchPairs(State(), attrs1, table2.State(), attrs2))
    {
      var rows := JoinRows(attrs1, table2, attrs2, false);
      var attrs := Concat(attribute, table2.attribute);
      var c := counter.Next();
      t := new Table.WithTuples(name + IntToString(c as int), attrs, domain + table2.domain, key, rows);
    }

    /**
     * The alternative equi-join, without the index. Unequal numbers of
     * compared names give no table. Otherwise: every pair of tuples, this
     * table's in the outer loop, whose extracted cells agree, as the
     * concatenation of the two tuples; then table2's own attribute array is
     * renamed in place as the source's loops do it (`Renamed`: a clash with
     * compared name j writes at position j; so a self-join renames this table
     * too) and the result's schema is this table's attributes followed by
     * table2's.
     */
    method ScanJoin(attrs1: seq<string>, attrs2: seq<string>, table2: Table, counter: Counter) returns (t: Table?)
      requires |attrs1| == |attrs2| ==>
        ScanDefined(State(), attrs1, table2.State(), attrs2) && RenameFits(table2.attribute[..], attrs1)
      modifies counter, table2.attribute
      ensures |attrs1| != |attrs2| ==>
        t == null && counter.count == old(counter.count) && table2.attribute[..] == old(table2.attribute[..])
      ensures |attrs1| == |attrs2| ==>
        t != null && fresh(t) && fresh(t.attribute) && t.Valid()
        && counter.count == Successor(old(counter.count))
        && t.name == name + IntToString(old(counter.count) as int)
        && table2.attribute[..] == Renamed(old(table2.attribute[..]), attrs1)
        && t.attribute[..] == attribute[..] + table2.attribute[..]
        && t.domain == domain + table2.domain && t.key == key && t.index == map[]
        && (forall r :: r in t.tuples ==> fresh(r))
        && CellsOf(t.tuples) == PairCells(CellsOf(tuples), CellsOf(table2.tuples),
             old(ScanPairs(State(), attrs1, table2.State(), attrs2)))
    {
      if |attrs1| != |attrs2| {
        return null;
      }
      var rows := ScanRows(State(), attrs1, table2.State(), attrs2);
      var attribute2New := table2.attribute;
      RenameAsWritten(attribute2New, attrs1);
      var attrs := Concat(attribute, attribute2New);
      var c := counter.Next();
      t := new Table.WithTuples(name + IntToString(c as int), attrs, domain + table2.domain, key, rows);
    }

    /**
     * The natural join's compared attributes: the names of table2 that are
     * attributes of this table, in table2's order, along with the name set
     * of this table.
     */
    method CommonAttributes(table2: Table) returns (tableattr: set<string>, compare: seq<string>)
      ensures tableattr == Elems(attribute[..])
      ensures compare == Common(attribute[..], table2.attribute[..])
    {
      tableattr := {};
      for i := 0 to attribute.Length
        invariant tableattr == Elems(attribute[..i])
      {
        assert attribute[..i + 1] == attribute[..i] + [attribute[i]];
        ElemsSnoc(attribute[..i], attribute[i]);
        tableattr := tableattr + {attribute[i]};
      }
      assert attribute[..attribute.Length] == attribute[..];
      compare := [];
      for i := 0 to table2.attribute.Length
        invariant compare == Common(attribute[..], table2.attribute[..i])
      {
        assert table2.attribute[..i + 1][..i] == table2.attribute[..i];
        if table2.attribute[i] in tableattr {
          compare := compare + [table2.attribute[i]];
        }
      }
      assert table2.attribute[..table2.attribute.Length] == table2.attribute[..];
    }

    /** What the natural join needs in order not to throw once there is a common attribute. */
    predicate NaturalDefined(table2: Table)
      reads this, attribute, key, table2, table2.attribute, table2.key
    {
      var compare := Common(attribute[..], table2.attribute[..]);
      compare != [] ==>
        Distinct(attribute[..]) && NonCommonFirst(attribute[..], table2.attribute[..])
        && Fits(MatchPositions(attribute[..], compare), |domain|)
        && MatchDefined(State(), compare, table2.State(), compare)
        && DedupDefined(State(), compare, table2.State(), compare)
    }

    /**
     * The natural join once there is a common attribute: the merged
     * attribute array, the domains of the common attributes, and for every
     * pair of tuples whose looked-up cells agree on every common attribute,
     * the concatenation with duplicate cell values removed.
     */
    method NaturalJoinOn(table2: Table, tableattr: set<string>, compare: seq<string>, counter: Counter) returns (t: Table)
      requires tableattr == Elems(attribute[..]) && compare == Common(attribute[..], table2.attribute[..])
      requires compare != [] && NaturalDefined(table2)
      modifies counter
      ensures counter.count == Successor(old(counter.count))
      ensures fresh(t) && fresh(t.attribute) && t.Valid() && t.index == map[]
      ensures t.name == name + IntToString(old(counter.count) as int)
      ensures t.attribute[..] == attribute[..] + NonCommon(attribute[..], table2.attribute[..])
      ensures t.domain == Pick(domain, MatchPositions(attribute[..], compare))
      ensures t.key == (if Known(t.attribute[..], key[..]) then key else t.attribute)
      ensures forall r :: r in t.tuples ==> fresh(r)
      ensures CellsOf(t.tuples) == DedupAll(PairCells(CellsOf(tuples), CellsOf(table2.tuples),
        MatchPairs(State(), compare, table2.State(), compare)))
    {
      var rows := JoinRows(compare, table2, compare, true);
      var finalAttribute := compare;
      var colDomain := ColumnDomains(finalAttribute);
      var c := counter.Next();
      var newAttr := MergedAttributes(attribute[..], table2.attribute[..], tableattr);
      var newKey := if Known(newAttr[..], key[..]) then key else newAttr;
      t := new Table.WithTuples(name + IntToString(c as int), newAttr, colDomain, newKey, rows);
    }

    /**
     * The natural join. Without a common attribute: the concatenated schema
     * and no tuples. Otherwise the result of `NaturalJoinOn`.
     */
    method NaturalJoin(table2: Table, counter: Counter) returns (t: Table)
      requires NaturalDefined(table2)
      modifies counter
      ensures counter.count == Successor(old(counter.count))
      ensures fresh(t) && fresh(t.attribute) && t.Valid() && t.index == map[]
      ensures t.name == name + IntToString(old(counter.count) as int)
      ensures forall r :: r in t.tuples ==> fresh(r)
      ensures Common(attribute[..], table2.attribute[..]) == [] ==>
        t.attribute[..] == attribute[..] + table2.attribute[..] && t.domain == domain + table2.domain
        && t.key == key && t.tuples == []
      ensures Common(attribute[..], table2.attribute[..]) != [] ==>
        var compare := Common(attribute[..], table2.attribute[..]);
        t.attribute[..] == attribute[..] + NonCommon(attribute[..], table2.attribute[..])
        && t.domain == Pick(domain, MatchPositions(attribute[..], compare))
        && t.key == (if Known(t.attribute[..], key[..]) then key else t.attribute)
        && CellsOf(t.tuples) == DedupAll(PairCells(CellsOf(tuples), CellsOf(table2.tuples),
             MatchPairs(State(), compare, table2.State(), compare)))
    {
      var tableattr, compare := CommonAttributes(table2);
      if |compare| == 0 {
        var attrs := Concat(attribute, table2.attribute);
        var c := counter.Next();
        t := new Table.WithTuples(name + IntToString(c as int), attrs, domain + table2.domain, key, []);
        return;
      }
      t := NaturalJoinOn(table2, tableattr, compare, counter);
    }
  }
}
