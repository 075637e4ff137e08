/** `ORDER BY name`: a stable sort on the binary order of texts. */
module Sorting {

  /** Lexicographic order on code points, which is SQLite's BINARY order on UTF-8. */
  predicate TextLeq(a: string, b: string) {
    a == "" || (b != "" && (a[0] < b[0] || (a[0] == b[0] && TextLeq(a[1..], b[1..]))))
  }

  /** Puts an element behind those whose name is not greater. */
  function InsertByName<T>(sorted: seq<T>, x: T, name: T -> string): seq<T> {
    if sorted == [] then [x]
    else if TextLeq(name(sorted[|sorted| - 1]), name(x)) then sorted + [x]
    else InsertByName(sorted[..|sorted| - 1], x, name) + [sorted[|sorted| - 1]]
  }

  function SortByName<T>(rows: seq<T>, name: T -> string): seq<T> {
    if rows == [] then []
    else InsertByName(SortByName(rows[..|rows| - 1], name), rows[|rows| - 1], name)
  }

  lemma {:induction false} InsertKeepsElements<T>(sorted: seq<T>, x: T, name: T -> string)
    ensures multiset(InsertByName(sorted, x, name)) == multiset(sorted) + multiset{x}
  {
    if sorted != [] && !TextLeq(name(sorted[|sorted| - 1]), name(x)) {
      InsertKeepsElements(sorted[..|sorted| - 1], x, name);
      assert sorted == sorted[..|sorted| - 1] + [sorted[|sorted| - 1]];
    }
  }

  lemma {:induction false} LeqTransitive(a: string, b: string, c: string)
    requires TextLeq(a, b) && TextLeq(b, c)
    ensures TextLeq(a, c)
  {
    if a != "" && a[0] == b[0] == c[0] {
      LeqTransitive(a[1..], b[1..], c[1..]);
    }
  }

  lemma {:induction false} LeqTotal(a: string, b: string)
    ensures TextLeq(a, b) || TextLeq(b, a)
  {
    if a != "" && b != "" && a[0] == b[0] {
      LeqTotal(a[1..], b[1..]);
    }
  }

  lemma {:induction false} LeqAntisymmetric(a: string, b: string)
    requires TextLeq(a, b) && TextLeq(b, a)
    ensures a == b
  {
    if a != "" {
      LeqAntisymmetric(a[1..], b[1..]);
      assert a == [a[0]] + a[1..] && b == [b[0]] + b[1..];
    }
  }

  /** One row before another in a listing: by name, and rows of one name as they were inserted. */
  predicate InOrder<T>(a: T, b: T, name: T -> string, id: T -> nat) {
    TextLeq(name(a), name(b)) && (name(a) == name(b) ==> id(a) < id(b))
  }

  predicate Ordered<T>(s: seq<T>, name: T -> string, id: T -> nat) {
    forall i, j :: 0 <= i < j < |s| ==> InOrder(s[i], s[j], name, id)
  }

  lemma Behind<T>(a: T, last: T, x: T, name: T -> string, id: T -> nat)
    requires a == last || InOrder(a, last, name, id)
    requires TextLeq(name(last), name(x)) && id(a) < id(x)
    ensures InOrder(a, x, name, id)
  {
    if a != last {
      LeqTransitive(name(a), name(last), name(x));
    }
  }

  lemma InFront<T>(x: T, last: T, name: T -> string, id: T -> nat)
    requires !TextLeq(name(last), name(x))
    ensures InOrder(x, last, name, id)
  {
    LeqTotal(name(last), name(x));
  }

  lemma {:induction false} InsertKeepsOrdered<T>(sorted: seq<T>, x: T, name: T -> string, id: T -> nat)
    requires Ordered(sorted, name, id) && forall i :: 0 <= i < |sorted| ==> id(sorted[i]) < id(x)
    ensures Ordered(InsertByName(sorted, x, name), name, id)
  {
    hide TextLeq, InOrder;
    if sorted != [] {
      var init, last := sorted[..|sorted| - 1], sorted[|sorted| - 1];
      assert sorted == init + [last];
      if TextLeq(name(last), name(x)) {
        forall i | 0 <= i < |sorted|
          ensures InOrder(sorted[i], x, name, id)
        {
          Behind(sorted[i], last, x, name, id);
        }
      } else {
        InsertKeepsOrdered(init, x, name, id);
        InFront(x, last, name, id);
        var before := InsertByName(init, x, name);
        InsertKeepsElements(init, x, name);
        forall i | 0 <= i < |before|
          ensures InOrder(before[i], last, name, id)
        {
          assert before[i] in multiset(before);
          if before[i] != x {
            assert before[i] in multiset(init);
            var k :| 0 <= k < |init| && init[k] == before[i];
            assert sorted[k] == before[i] && sorted[|init|] == last;
          }
        }
      }
    }
  }

  /** Sorting rows that stand in the order of their ids lists them by name, then by id. */
  lemma {:induction false} SortOrders<T>(rows: seq<T>, name: T -> string, id: T -> nat)
    requires forall i, j :: 0 <= i < j < |rows| ==> id(rows[i]) < id(rows[j])
    ensures Ordered(SortByName(rows, name), name, id)
  {
    hide TextLeq, InsertByName;
    if rows != [] {
      var init := rows[..|rows| - 1];
      SortOrders(init, name, id);
      forall i | 0 <= i < |SortByName(init, name)|
        ensures id(SortByName(init, name)[i]) < id(rows[|rows| - 1])
      {
        SortMember(init, name, SortByName(init, name)[i]);
        var k :| 0 <= k < |init| && init[k] == SortByName(init, name)[i];
        assert rows[k] == init[k];
      }
      InsertKeepsOrdered(SortByName(init, name), rows[|rows| - 1], name, id);
    }
  }

  /** Sorting only reorders. */
  lemma {:induction false} SortKeepsElements<T>(rows: seq<T>, name: T -> string)
    ensures multiset(SortByName(rows, name)) == multiset(rows)
    ensures |SortByName(rows, name)| == |rows|
  {
    if rows != [] {
      var init := rows[..|rows| - 1];
      SortKeepsElements(init, name);
      InsertKeepsElements(SortByName(init, name), rows[|rows| - 1], name);
      assert rows == init + [rows[|rows| - 1]];
    }
    assert |multiset(SortByName(rows, name))| == |SortByName(rows, name)|;
  }

  lemma SortMember<T>(rows: seq<T>, name: T -> string, x: T)
    ensures x in SortByName(rows, name) <==> x in rows
  {
    SortKeepsElements(rows, name);
    assert x in rows <==> x in multiset(rows);
    assert x in SortByName(rows, name) <==> x in multiset(SortByName(rows, name));
  }

  predicate NoRepeat<T(==)>(s: seq<T>) {
    forall i, j :: 0 <= i < j < |s| ==> s[i] != s[j]
  }

  lemma {:induction false} NoRepeatCounts<T>(s: seq<T>)
    ensures NoRepeat(s) <==> forall x :: x in s ==> multiset(s)[x] == 1
  {
    if s != [] {
      var init, last := s[..|s| - 1], s[|s| - 1];
      NoRepeatCounts(init);
      assert s == init + [last];
      assert forall x :: x in init <==> x in multiset(init);
      if NoRepeat(s) {
        assert NoRepeat(init) && last !in init;
      }
      if forall x :: x in s ==> multiset(s)[x] == 1 {
        assert last in s && multiset(s)[last] == multiset(init)[last] + 1;
        forall x | x in init
          ensures multiset(init)[x] == 1
        {
          assert x in s;
        }
      }
    }
  }

  /** Sorting rows that are all different keeps them all different. */
  lemma SortKeepsNoRepeat<T>(rows: seq<T>, name: T -> string)
    requires NoRepeat(rows)
    ensures NoRepeat(SortByName(rows, name))
  {
    SortKeepsElements(rows, name);
    NoRepeatCounts(rows);
    NoRepeatCounts(SortByName(rows, name));
    assert forall x :: x in rows <==> x in multiset(rows);
    assert forall x :: x in SortByName(rows, name) <==> x in multiset(SortByName(rows, name));
  }
}
