/** Strict orders and the built-in sort, shared by the canonical printer and the page walk. */
module Ordering {

  ghost predicate StrictOrder<T(!new)>(before: (T, T) -> bool) {
    && (forall x :: !before(x, x))
    && (forall x, y, z :: before(x, y) && before(y, z) ==> before(x, z))
  }

  /** A strict order in which two different values never tie. */
  ghost predicate StrictTotalOrder<T(!new)>(before: (T, T) -> bool) {
    && StrictOrder(before)
    && (forall x, y :: x != y ==> before(x, y) || before(y, x))
  }

  ghost predicate Ascending<T>(before: (T, T) -> bool, s: seq<T>) {
    forall i, j :: 0 <= i < j < |s| ==> before(s[i], s[j])
  }

  /** No two positions of `s` tie. */
  ghost predicate Comparable<T>(before: (T, T) -> bool, s: seq<T>) {
    forall i, j :: 0 <= i < j < |s| ==> before(s[i], s[j]) || before(s[j], s[i])
  }

  function Insert<T>(before: (T, T) -> bool, x: T, s: seq<T>): (r: seq<T>)
    ensures multiset(r) == multiset(s) + multiset{x}
  {
    if s == [] then [x]
    else if before(s[0], x) then
      assert s == [s[0]] + s[1..];
      [s[0]] + Insert(before, x, s[1..])
    else [x] + s
  }

  /** Array.prototype.sort with comparison `before`. */
  function Sort<T>(before: (T, T) -> bool, s: seq<T>): (r: seq<T>)
    ensures multiset(r) == multiset(s)
  {
    if s == [] then []
    else
      assert s == [s[0]] + s[1..];
      Insert(before, s[0], Sort(before, s[1..]))
  }

  lemma SameMembers<T>(a: seq<T>, b: seq<T>)
    requires multiset(a) == multiset(b)
    ensures |a| == |b|
    ensures forall x :: x in a <==> x in b
  {
    assert |multiset(a)| == |multiset(b)|;
    forall x ensures x in a <==> x in b {
      assert x in a <==> x in multiset(a);
      assert x in b <==> x in multiset(b);
    }
  }

  lemma {:induction false} InsertAscends<T(!new)>(before: (T, T) -> bool, x: T, s: seq<T>)
    requires StrictOrder(before) && Ascending(before, s)
    requires forall y :: y in s ==> before(x, y) || before(y, x)
    ensures Ascending(before, Insert(before, x, s))
  {
    if s != [] && before(s[0], x) {
      var t := Insert(before, x, s[1..]);
      InsertAscends(before, x, s[1..]);
      assert multiset(t) == multiset([x] + s[1..]);
      SameMembers(t, [x] + s[1..]);
      forall j | 0 <= j < |t| ensures before(s[0], t[j]) {
        assert t[j] in t;
        assert t[j] in [x] + s[1..];
      }
    }
  }

  /** Sorting pairwise comparable values puts every earlier one before every later one. */
  lemma {:induction false} SortAscends<T(!new)>(before: (T, T) -> bool, s: seq<T>)
    requires StrictOrder(before) && Comparable(before, s)
    ensures Ascending(before, Sort(before, s))
  {
    if s != [] {
      SortAscends(before, s[1..]);
      SameMembers(Sort(before, s[1..]), s[1..]);
      InsertAscends(before, s[0], Sort(before, s[1..]));
    }
  }

  /** A set of values has at most one ascending arrangement. */
  lemma {:induction false} AscendingUnique<T(!new)>(before: (T, T) -> bool, a: seq<T>, b: seq<T>)
    requires StrictOrder(before) && Ascending(before, a) && Ascending(before, b)
    requires forall x :: x in a <==> x in b
    ensures a == b
  {
    assert a == [] <==> b == [] by {
      assert a != [] ==> a[0] in b;
      assert b != [] ==> b[0] in a;
    }
    if a != [] {
      assert a[0] in b && b[0] in a;
      assert a[0] == b[0];
      forall x ensures x in a[1..] <==> x in b[1..] {
        if x in a[1..] { assert x in b; }
        if x in b[1..] { assert x in a; }
      }
      AscendingUnique(before, a[1..], b[1..]);
    }
  }
}
