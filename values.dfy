/**
 * Cell values and attribute domains of the relational tables.
 *
 * A Java tuple is a `Comparable[]` whose cells are boxed integers, reals,
 * characters or strings; here a cell is a `Value` compared by value.
 * Domains are the closed set of `java.lang` classes a schema may name.
 */
module Values {

  /** One cell of a tuple. Reals stand in for Java's `Double` and `Float`. */
  datatype Value =
    | IntValue(i: int)
    | RealValue(r: real)
    | CharValue(c: char)
    | StringValue(s: string)

  /** The domain (data type) of one attribute. */
  datatype Domain = Integer | Long | Short | Byte | Double | Float | Character | String

  datatype Option<T> = None | Some(value: T)

  /** The set of elements of a sequence. */
  function Elems<T>(s: seq<T>): set<T>
  {
    set x | x in s
  }

  /** No element occurs twice. */
  predicate Distinct<T(==)>(s: seq<T>)
  {
    forall i, j :: 0 <= i < j < |s| ==> s[i] != s[j]
  }

  /** Appending one element adds it to the set of elements. */
  lemma ElemsSnoc<T>(s: seq<T>, x: T)
    ensures Elems(s + [x]) == Elems(s) + {x}
  {
  }

  /** A sequence has at least as many positions as distinct elements. */
  lemma {:induction false} ElemsCard<T>(s: seq<T>)
    ensures |Elems(s)| <= |s|
  {
    if |s| > 0 {
      var init := s[..|s| - 1];
      ElemsCard(init);
      assert Elems(s) == Elems(init) + {s[|s| - 1]};
    }
  }

  /** A duplicate-free sequence has exactly as many distinct elements as positions. */
  lemma {:induction false} DistinctCard<T>(s: seq<T>)
    requires Distinct(s)
    ensures |Elems(s)| == |s|
  {
    if |s| > 0 {
      var init := s[..|s| - 1];
      DistinctCard(init);
      assert s[|s| - 1] !in Elems(init);
      assert Elems(s) == Elems(init) + {s[|s| - 1]};
    }
  }

  /** Two duplicate-free sequences with no element in common concatenate to a duplicate-free one. */
  lemma DistinctConcat<T>(a: seq<T>, b: seq<T>)
    requires Distinct(a) && Distinct(b)
    requires forall x :: x in a ==> x !in b
    ensures Distinct(a + b)
  {
    forall i, j | 0 <= i < j < |a + b|
      ensures (a + b)[i] != (a + b)[j]
    {
      if i < |a| && j >= |a| {
        assert (a + b)[i] in a && (a + b)[j] in b;
      }
    }
  }
}
