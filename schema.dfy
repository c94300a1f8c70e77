/**
 * Column positions of a schema: what `match`, `col`, the name-to-position
 * hash maps and `extract` compute from an attribute array.
 */
module Schema {
  import opened Values

  /**
   * The column `match` assigns to `name`: its last position in `attrs`
   * (the inner loop of `match` keeps overwriting), or 0 when it is absent.
   * A `HashMap<String, Integer>` filled left to right over `attrs` maps a
   * present name to the same position.
   */
  function LastPos(attrs: seq<string>, name: string): (p: nat)
    ensures name in attrs ==> p < |attrs| && attrs[p] == name
    ensures name in attrs ==> forall q :: p < q < |attrs| ==> attrs[q] != name
    ensures name !in attrs ==> p == 0
  {
    if |attrs| == 0 then 0
    else if attrs[|attrs| - 1] == name then |attrs| - 1
    else LastPos(attrs[..|attrs| - 1], name)
  }

  /** The position array `match(column)` returns. */
  function MatchPositions(attrs: seq<string>, column: seq<string>): seq<nat>
  {
    seq(|column|, j requires 0 <= j < |column| => LastPos(attrs, column[j]))
  }

  /** Every position in `cols` is below `width`. */
  predicate Fits(cols: seq<nat>, width: nat)
  {
    forall j :: 0 <= j < |cols| ==> cols[j] < width
  }

  /** The cells of `row` at the positions `cols`, in the order of `cols` (`extract`, `extractDom`). */
  function Pick<T>(row: seq<T>, cols: seq<nat>): seq<T>
    requires Fits(cols, |row|)
  {
    seq(|cols|, j requires 0 <= j < |cols| => row[cols[j]])
  }

  /** Two picks of equal width agree exactly when they agree cell by cell. */
  lemma PickAgree<T>(ra: seq<T>, rb: seq<T>, ca: seq<nat>, cb: seq<nat>)
    requires Fits(ca, |ra|) && Fits(cb, |rb|) && |ca| == |cb|
    ensures Pick(ra, ca) == Pick(rb, cb) <==> forall q :: 0 <= q < |ca| ==> ra[ca[q]] == rb[cb[q]]
  {
    assert forall q :: 0 <= q < |ca| ==> Pick(ra, ca)[q] == ra[ca[q]] && Pick(rb, cb)[q] == rb[cb[q]];
  }

  /** Every name of `names` is an attribute of `attrs`. */
  predicate Known(attrs: seq<string>, names: seq<string>)
  {
    forall j :: 0 <= j < |names| ==> names[j] in attrs
  }

  /** The names of `b` that also occur in `a`, in the order of `b`. */
  function Common(a: seq<string>, b: seq<string>): seq<string>
  {
    if |b| == 0 then []
    else Common(a, b[..|b| - 1]) + (if b[|b| - 1] in a then [b[|b| - 1]] else [])
  }

  /** The names of `b` that do not occur in `a`, in the order of `b`. */
  function NonCommon(a: seq<string>, b: seq<string>): seq<string>
  {
    if |b| == 0 then []
    else NonCommon(a, b[..|b| - 1]) + (if b[|b| - 1] !in a then [b[|b| - 1]] else [])
  }

  /**
   * The positions, in ascending order, of the attributes that are key
   * attributes: the `keyIndexes` list of the linear-scan select.
   */
  function SchemaKeyPositions(attrs: seq<string>, key: seq<string>): (ps: seq<nat>)
    ensures forall v :: 0 <= v < |ps| ==> ps[v] < |attrs| && attrs[ps[v]] in key
    ensures forall u, v :: 0 <= u < v < |ps| ==> ps[u] < ps[v]
    ensures forall i :: 0 <= i < |attrs| && attrs[i] in key ==> i in ps
  {
    if |attrs| == 0 then []
    else
      var init := SchemaKeyPositions(attrs[..|attrs| - 1], key);
      if attrs[|attrs| - 1] in key then init + [|attrs| - 1] else init
  }

  /** Match positions of known names stay inside the schema. */
  lemma MatchKnownFits(attrs: seq<string>, names: seq<string>)
    requires Known(attrs, names)
    ensures Fits(MatchPositions(attrs, names), |attrs|)
  {
  }

  /** In a schema with distinct names, `match` finds the one position of each name. */
  lemma LastPosDistinct(attrs: seq<string>, p: nat)
    requires Distinct(attrs) && p < |attrs|
    ensures LastPos(attrs, attrs[p]) == p
  {
  }

  /** `Common` keeps exactly the names of `b` that occur in `a`. */
  lemma {:induction false} CommonMembers(a: seq<string>, b: seq<string>)
    ensures forall x :: x in Common(a, b) <==> x in b && x in a
  {
    if |b| > 0 {
      CommonMembers(a, b[..|b| - 1]);
      assert b == b[..|b| - 1] + [b[|b| - 1]];
    }
  }

  /** `NonCommon` keeps exactly the names of `b` that do not occur in `a`. */
  lemma {:induction false} NonCommonMembers(a: seq<string>, b: seq<string>)
    ensures forall x :: x in NonCommon(a, b) <==> x in b && x !in a
  {
    if |b| > 0 {
      NonCommonMembers(a, b[..|b| - 1]);
      assert b == b[..|b| - 1] + [b[|b| - 1]];
    }
  }

  /** `NonCommon` is never longer than its input, and is as long only when nothing was dropped. */
  lemma {:induction false} NonCommonLength(a: seq<string>, b: seq<string>)
    ensures |NonCommon(a, b)| <= |b|
    ensures |NonCommon(a, b)| == |b| ==> NonCommon(a, b) == b
  {
    if |b| > 0 {
      var init := b[..|b| - 1];
      NonCommonLength(a, init);
      assert b == init + [b[|b| - 1]];
    }
  }

  /** Dropping a suffix made only of common names does not change `NonCommon`. */
  lemma {:induction false} NonCommonCommonSuffix(a: seq<string>, b: seq<string>, n: nat)
    requires n <= |b|
    requires forall k :: n <= k < |b| ==> b[k] in a
    ensures NonCommon(a, b) == NonCommon(a, b[..n])
  {
    if |b| > n {
      var init := b[..|b| - 1];
      assert init[..n] == b[..n];
      NonCommonCommonSuffix(a, init, n);
    } else {
      assert b[..n] == b;
    }
  }

  /**
   * Every name of `b` that is not in `a` sits at a position below the
   * number of such distinct names: the natural join writes it at |a| plus
   * its position, into an array with room for exactly that many.
   */
  predicate NonCommonFirst(a: seq<string>, b: seq<string>)
  {
    forall k :: 0 <= k < |b| && b[k] !in a ==> k < |Elems(b) - Elems(a)|
  }

  /**
   * The natural join places the non-common attributes of table2 at
   * positions |this.attribute| + k, in an array with room for the distinct
   * non-common names only. When every non-common position k is below that
   * count n, the first n names of table2 are exactly its non-common names.
   */
  lemma NonCommonPrefix(a: seq<string>, b: seq<string>)
    requires NonCommonFirst(a, b)
    ensures |Elems(b) - Elems(a)| <= |b|
    ensures NonCommon(a, b) == b[..|Elems(b) - Elems(a)|]
  {
    var n := |Elems(b) - Elems(a)|;
    ElemsCard(b);
    assert Elems(b) - Elems(a) <= Elems(b);
    NonCommonCommonSuffix(a, b, n);
    NonCommonMembers(a, b);
    assert Elems(NonCommon(a, b)) == Elems(b) - Elems(a);
    ElemsCard(NonCommon(a, b));
    NonCommonLength(a, b[..n]);
  }

  /**
   * Under `NonCommonFirst`, a name of `b` is outside `a` exactly when its
   * position is below the number n of such distinct names, and those first
   * n names are the non-common names in order.
   */
  lemma NonCommonSlots(a: seq<string>, b: seq<string>, others: set<string>)
    requires others == Elems(b) - Elems(a) && NonCommonFirst(a, b)
    ensures |others| <= |b| && NonCommon(a, b) == b[..|others|]
    ensures forall k :: 0 <= k < |b| ==> (b[k] in others <==> k < |others|)
  {
    NonCommonPrefix(a, b);
    NonCommonMembers(a, b);
    forall k | 0 <= k < |others|
      ensures b[k] in others
    {
      assert b[k] in NonCommon(a, b);
    }
  }

  /** The key positions of the linear-scan select line up with the schema-ordered key names. */
  lemma {:induction false} SchemaKeyPositionsAlign(attrs: seq<string>, key: seq<string>)
    ensures |SchemaKeyPositions(attrs, key)| == |Common(key, attrs)|
    ensures forall v :: 0 <= v < |Common(key, attrs)| ==>
      attrs[SchemaKeyPositions(attrs, key)[v]] == Common(key, attrs)[v]
  {
    if |attrs| > 0 {
      var n := |attrs| - 1;
      var init := attrs[..n];
      var ps, cs := SchemaKeyPositions(init, key), Common(key, init);
      SchemaKeyPositionsAlign(init, key);
      forall v | 0 <= v < |cs|
        ensures attrs[ps[v]] == cs[v]
      {
        assert attrs[ps[v]] == init[ps[v]];
      }
      if attrs[n] in key {
        assert SchemaKeyPositions(attrs, key) == ps + [n];
        assert Common(key, attrs) == cs + [attrs[n]];
      } else {
        assert SchemaKeyPositions(attrs, key) == ps;
        assert Common(key, attrs) == cs;
      }
    }
  }

  /**
   * When the schema names are distinct and the key lists its attributes in
   * schema order, the linear-scan select collects the key cells at exactly
   * the positions `match(key)` gives, so its comparison values are the
   * index key of the row.
   */
  lemma SchemaOrderKey(attrs: seq<string>, key: seq<string>)
    requires Distinct(attrs)
    requires key == Common(key, attrs)
    ensures SchemaKeyPositions(attrs, key) == MatchPositions(attrs, key)
  {
    SchemaKeyPositionsAlign(attrs, key);
    var ps := SchemaKeyPositions(attrs, key);
    forall v | 0 <= v < |key|
      ensures ps[v] == LastPos(attrs, key[v])
    {
      LastPosDistinct(attrs, ps[v]);
    }
  }
}
