/** Sorting by a total order, and the uniqueness of the sorted arrangement. */
module Sorting {

  ghost predicate TotalOrder<T(!new)>(le: (T, T) -> bool) {
    && (forall x, y :: le(x, y) || le(y, x))
    && (forall x, y :: le(x, y) && le(y, x) ==> x == y)
    && (forall x, y, z :: le(x, y) && le(y, z) ==> le(x, z))
  }

  ghost predicate Sorted<T>(s: seq<T>, le: (T, T) -> bool) {
    forall i, j :: 0 <= i < j < |s| ==> le(s[i], s[j])
  }

  function Insert<T>(x: T, s: seq<T>, le: (T, T) -> bool): seq<T> {
    if s == [] || le(x, s[0]) then [x] + s else [s[0]] + Insert(x, s[1..], le)
  }

  function Sort<T>(s: seq<T>, le: (T, T) -> bool): seq<T> {
    if s == [] then [] else Insert(s[0], Sort(s[1..], le), le)
  }

  lemma {:induction false} InsertKeeps<T(!new)>(x: T, s: seq<T>, le: (T, T) -> bool)
    requires TotalOrder(le) && Sorted(s, le)
    ensures Sorted(Insert(x, s, le), le)
    ensures multiset(Insert(x, s, le)) == multiset(s) + multiset{x}
  {
    if s == [] {
    } else if le(x, s[0]) {
      forall k | 0 <= k < |s| ensures le(x, s[k]) {
        assert k > 0 ==> le(s[0], s[k]);
      }
      hide TotalOrder;
    } else {
      assert le(s[0], x);
      var rest := Insert(x, s[1..], le);
      InsertKeeps(x, s[1..], le);
      hide TotalOrder;
      Bounded(s[0], x, s[1..], rest, le);
      assert s == [s[0]] + s[1..];
    }
  }

  /** A lower bound of x and s is a lower bound of any arrangement of them. */
  lemma Bounded<T(!new)>(low: T, x: T, s: seq<T>, rest: seq<T>, le: (T, T) -> bool)
    requires le(low, x) && (forall k :: 0 <= k < |s| ==> le(low, s[k]))
    requires multiset(rest) == multiset(s) + multiset{x}
    ensures forall k :: 0 <= k < |rest| ==> le(low, rest[k])
  {
    forall k | 0 <= k < |rest| ensures le(low, rest[k]) {
      assert rest[k] in multiset(rest);
      assert rest[k] == x || rest[k] in s;
    }
  }

  lemma {:induction false} SortSorts<T(!new)>(s: seq<T>, le: (T, T) -> bool)
    requires TotalOrder(le)
    ensures Sorted(Sort(s, le), le) && multiset(Sort(s, le)) == multiset(s)
  {
    if s != [] {
      SortSorts(s[1..], le);
      InsertKeeps(s[0], Sort(s[1..], le), le);
      assert s == [s[0]] + s[1..];
    }
  }

  /** Two sorted arrangements of the same elements begin with the same one. */
  lemma SameLeast<T(!new)>(a: seq<T>, b: seq<T>, le: (T, T) -> bool)
    requires TotalOrder(le) && Sorted(a, le) && Sorted(b, le) && multiset(a) == multiset(b) && a != []
    ensures b != [] && a[0] == b[0]
  {
    assert a[0] in multiset(b) && b[0] in multiset(a);
    var i :| 0 <= i < |b| && b[i] == a[0];
    var j :| 0 <= j < |a| && a[j] == b[0];
    assert i > 0 ==> le(b[0], b[i]);
    assert j > 0 ==> le(a[0], a[j]);
  }

  lemma TailElements<T>(a: seq<T>)
    requires a != []
    ensures multiset(a[1..]) == multiset(a) - multiset{a[0]}
  {
    assert a == [a[0]] + a[1..];
  }

  lemma TailsAgree<T>(a: seq<T>, b: seq<T>, le: (T, T) -> bool)
    requires Sorted(a, le) && Sorted(b, le) && multiset(a) == multiset(b)
    requires a != [] && b != [] && a[0] == b[0]
    ensures Sorted(a[1..], le) && Sorted(b[1..], le) && multiset(a[1..]) == multiset(b[1..])
  {
    TailElements(a);
    TailElements(b);
  }

  lemma {:induction false} SortedUnique<T(!new)>(a: seq<T>, b: seq<T>, le: (T, T) -> bool)
    requires TotalOrder(le) && Sorted(a, le) && Sorted(b, le) && multiset(a) == multiset(b)
    ensures a == b
  {
    assert |a| == |multiset(a)| == |multiset(b)| == |b|;
    if a != [] {
      SameLeast(a, b, le);
      TailsAgree(a, b, le);
      hide TotalOrder, Sorted;
      SortedUnique(a[1..], b[1..], le);
      assert a == [a[0]] + a[1..] && b == [b[0]] + b[1..];
    }
  }

  lemma SortedConcat<T>(a: seq<T>, b: seq<T>, le: (T, T) -> bool)
    requires Sorted(a, le) && Sorted(b, le)
    requires forall i, j :: 0 <= i < |a| && 0 <= j < |b| ==> le(a[i], b[j])
    ensures Sorted(a + b, le)
  {
  }
}
