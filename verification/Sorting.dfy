/** Sorting by a strict total order. The library sorts the program calls are modelled by an
    insertion sort: for distinct elements the sorted order is unique, so any sort gives it. */
module Sorting {

  ghost predicate StrictTotalOrder<T(!new)>(less: (T, T) -> bool) {
    && (forall a :: !less(a, a))
    && (forall a, b, c :: less(a, b) && less(b, c) ==> less(a, c))
    && (forall a, b :: a != b ==> less(a, b) || less(b, a))
  }

  ghost predicate Increasing<T>(less: (T, T) -> bool, s: seq<T>) {
    forall i, j :: 0 <= i < j < |s| ==> less(s[i], s[j])
  }

  ghost predicate Distinct<T>(s: seq<T>) {
    forall i, j :: 0 <= i < j < |s| ==> s[i] != s[j]
  }

  function Insert<T>(less: (T, T) -> bool, x: T, s: seq<T>): (r: seq<T>) {
    if s == [] || less(x, s[0]) then [x] + s
    else [s[0]] + Insert(less, x, s[1..])
  }

  function Sort<T>(less: (T, T) -> bool, s: seq<T>): (r: seq<T>) {
    if s == [] then [] else Insert(less, s[0], Sort(less, s[1..]))
  }

  lemma {:induction false} InsertIncreasing<T(!new)>(less: (T, T) -> bool, x: T, s: seq<T>)
    requires StrictTotalOrder(less) && Increasing(less, s) && x !in s
    ensures Increasing(less, Insert(less, x, s))
    ensures forall y :: y in Insert(less, x, s) <==> y == x || y in s
  {
    if s == [] {
    } else if less(x, s[0]) {
      assert forall i :: 0 < i < |s| ==> less(s[0], s[i]);
      assert forall i :: 0 <= i < |s| ==> less(x, s[i]);
    } else {
      var rest := Insert(less, x, s[1..]);
      InsertIncreasing(less, x, s[1..]);
      assert less(s[0], x);
      forall y | y in rest ensures less(s[0], y) {
        if y != x {
          var i :| 0 <= i < |s[1..]| && s[1..][i] == y;
          assert less(s[0], s[i + 1]);
        }
      }
      forall i, j | 0 <= i < j < |[s[0]] + rest| ensures less(([s[0]] + rest)[i], ([s[0]] + rest)[j]) {
        assert rest[j - 1] in rest;
        if i > 0 {
          assert less(rest[i - 1], rest[j - 1]);
        }
      }
      assert s == [s[0]] + s[1..];
    }
  }

  lemma {:induction false} SortIncreasing<T(!new)>(less: (T, T) -> bool, s: seq<T>)
    requires StrictTotalOrder(less) && Distinct(s)
    ensures Increasing(less, Sort(less, s))
    ensures forall y :: y in Sort(less, s) <==> y in s
  {
    if s != [] {
      SortIncreasing(less, s[1..]);
      assert s == [s[0]] + s[1..];
      forall i | 0 < i < |s| ensures s[0] != s[i] {
      }
      assert s[0] !in s[1..];
      InsertIncreasing(less, s[0], Sort(less, s[1..]));
    }
  }

  lemma {:induction false} FirstIsElement<T>(s: seq<T>)
    ensures s != [] ==> s[0] in s
  {
  }

  lemma {:induction false} TailHasTheRest<T(!new)>(less: (T, T) -> bool, s: seq<T>)
    requires StrictTotalOrder(less) && Increasing(less, s) && s != []
    ensures forall y :: y in s[1..] <==> y in s && y != s[0]
  {
  }

  /** There is only one increasing arrangement of given elements. */
  lemma {:induction false} IncreasingUnique<T(!new)>(less: (T, T) -> bool, a: seq<T>, b: seq<T>)
    requires StrictTotalOrder(less) && Increasing(less, a) && Increasing(less, b)
    requires forall y :: y in a <==> y in b
    ensures a == b
  {
    if a == [] {
      FirstIsElement(b);
    } else {
      assert a[0] in b;
      assert b[0] in a;
      var i :| 0 <= i < |b| && b[i] == a[0];
      var j :| 0 <= j < |a| && a[j] == b[0];
      assert a[0] == b[0];
      assert a == [a[0]] + a[1..] && b == [b[0]] + b[1..];
      TailHasTheRest(less, a);
      TailHasTheRest(less, b);
      IncreasingUnique(less, a[1..], b[1..]);
    }
  }
}
