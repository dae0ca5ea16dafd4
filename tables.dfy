/** What the inventory logic uses of the document store: a table is a
    sequence of records in insertion order, and `table.search(cond)` is the
    records satisfying `cond`, in table order. */
module Tables {

  /** `table.search(cond)`: the records of `table` that satisfy `cond`, in order. */
  function Search<R(==,!new)>(table: seq<R>, cond: R -> bool): (r: seq<R>)
    ensures |r| <= |table|
    ensures forall x :: x in r <==> x in table && cond(x)
    decreases |table|
  {
    if table == [] then []
    else
      assert table == [table[0]] + table[1..];
      (if cond(table[0]) then [table[0]] else []) + Search(table[1..], cond)
  }

  /** The query `Q[campo] == valor` as a condition. */
  function FieldEquals<R(!new)>(campo: R -> string, valor: string): R -> bool
  {
    x => campo(x) == valor
  }

  /** `table.search(Q[campo] == valor)`. */
  function WithValue<R(==,!new)>(table: seq<R>, campo: R -> string, valor: string): (r: seq<R>)
    ensures forall x :: x in r <==> x in table && campo(x) == valor
    ensures r == [] <==> forall x :: x in table ==> campo(x) != valor
  {
    var r := Search(table, FieldEquals(campo, valor));
    assert r != [] ==> r[0] in r;
    r
  }

  /** No record occurs twice. */
  predicate Distinct<T(==)>(s: seq<T>)
  {
    forall i, j :: 0 <= i < j < |s| ==> s[i] != s[j]
  }

  lemma DistinctSnoc<T>(s: seq<T>, x: T)
    requires Distinct(s) && x !in s
    ensures Distinct(s + [x])
  {
    forall i, j | 0 <= i < j < |s| + 1
      ensures (s + [x])[i] != (s + [x])[j]
    {
      if j == |s| {
        assert s[i] in s;
      }
    }
  }

  /** Searching a concatenation searches each part: results keep table order. */
  lemma {:induction false} SearchAppend<R(!new)>(a: seq<R>, b: seq<R>, cond: R -> bool)
    ensures Search(a + b, cond) == Search(a, cond) + Search(b, cond)
    decreases |a|
  {
    if a == [] {
      assert a + b == b;
    } else {
      assert (a + b)[0] == a[0];
      assert (a + b)[1..] == a[1..] + b;
      SearchAppend(a[1..], b, cond);
    }
  }

  /** A search every record satisfies returns the whole table, in order. */
  lemma {:induction false} SearchAll<R(!new)>(table: seq<R>, cond: R -> bool)
    requires forall x :: x in table ==> cond(x)
    ensures Search(table, cond) == table
    decreases |table|
  {
    if table != [] {
      assert table[0] in table;
      assert forall x :: x in table[1..] ==> x in table;
      SearchAll(table[1..], cond);
    }
  }

  /** Two conditions that agree on every record select the same records. */
  lemma {:induction false} SearchSameCondition<R(!new)>(table: seq<R>, c1: R -> bool, c2: R -> bool)
    requires forall x :: x in table ==> c1(x) == c2(x)
    ensures Search(table, c1) == Search(table, c2)
    decreases |table|
  {
    if table != [] {
      assert table[0] in table;
      assert forall x :: x in table[1..] ==> x in table;
      SearchSameCondition(table[1..], c1, c2);
    }
  }

  /** A condition and its negation split the table: the two counts add up to its length. */
  lemma {:induction false} SearchPartition<R(!new)>(table: seq<R>, cond: R -> bool, other: R -> bool)
    requires forall x :: x in table ==> other(x) == !cond(x)
    ensures |Search(table, cond)| + |Search(table, other)| == |table|
    decreases |table|
  {
    if table != [] {
      assert table[0] in table;
      assert forall x :: x in table[1..] ==> x in table;
      SearchPartition(table[1..], cond, other);
    }
  }
}
