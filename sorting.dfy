/**
 * The stable sort the Rust code calls (`sort`, `sort_by`, `sort_by_key`),
 * written as insertion sort over a comparison `le` ("a sorts no later than b").
 * Proved here: the result is a permutation, it is ordered whenever `le` is a
 * total preorder, equivalent elements keep their input order (stability), and
 * an ordered permutation is unique when no two distinct elements are equivalent.
 */
module Sorting {

  ghost predicate Total<T(!new)>(le: (T, T) -> bool) {
    forall a, b :: le(a, b) || le(b, a)
  }

  ghost predicate Transitive<T(!new)>(le: (T, T) -> bool) {
    forall a, b, c :: le(a, b) && le(b, c) ==> le(a, c)
  }

  predicate SortedBy<T>(s: seq<T>, le: (T, T) -> bool) {
    forall i, j :: 0 <= i < j < |s| ==> le(s[i], s[j])
  }

  /** Inserts `x` before the first element it sorts no later than. */
  function Insert<T>(x: T, s: seq<T>, le: (T, T) -> bool): (r: seq<T>)
    ensures |r| == |s| + 1
    ensures multiset(r) == multiset(s) + multiset{x}
  {
    if |s| == 0 then [x]
    else if le(x, s[0]) then [x] + s
    else
      assert s == [s[0]] + s[1..];
      [s[0]] + Insert(x, s[1..], le)
  }

  function SortBy<T>(s: seq<T>, le: (T, T) -> bool): (r: seq<T>)
    ensures |r| == |s|
    ensures multiset(r) == multiset(s)
  {
    if |s| == 0 then []
    else
      assert s == [s[0]] + s[1..];
      Insert(s[0], SortBy(s[1..], le), le)
  }

  lemma {:induction false} InsertSorted<T(!new)>(x: T, s: seq<T>, le: (T, T) -> bool)
    requires Total(le) && Transitive(le) && SortedBy(s, le)
    ensures SortedBy(Insert(x, s, le), le)
  {
    if |s| > 0 && !le(x, s[0]) {
      var tail := Insert(x, s[1..], le);
      InsertSorted(x, s[1..], le);
      assert multiset(tail) == multiset(s[1..]) + multiset{x};
      forall j | 0 <= j < |tail|
        ensures le(s[0], tail[j])
      {
        assert tail[j] in multiset(tail);
        if tail[j] == x {
          assert le(s[0], x);
        } else {
          assert tail[j] in multiset(s[1..]);
          var k :| 0 <= k < |s[1..]| && s[1..][k] == tail[j];
          assert s[k + 1] == tail[j];
        }
      }
    }
  }

  /** Sorting orders the elements whenever `le` is a total preorder. */
  lemma {:induction false} SortBySorted<T(!new)>(s: seq<T>, le: (T, T) -> bool)
    requires Total(le) && Transitive(le)
    ensures SortedBy(SortBy(s, le), le)
  {
    if |s| > 0 {
      SortBySorted(s[1..], le);
      InsertSorted(s[0], SortBy(s[1..], le), le);
    }
  }

  predicate Equivalent<T>(a: T, b: T, le: (T, T) -> bool) {
    le(a, b) && le(b, a)
  }

  /** The elements of `s` equivalent to `y`, in their order in `s`. */
  function EquivalentTo<T>(s: seq<T>, y: T, le: (T, T) -> bool): seq<T> {
    if |s| == 0 then []
    else if Equivalent(s[0], y, le) then [s[0]] + EquivalentTo(s[1..], y, le)
    else EquivalentTo(s[1..], y, le)
  }

  lemma {:induction false} InsertStable<T(!new)>(x: T, s: seq<T>, y: T, le: (T, T) -> bool)
    requires Transitive(le)
    ensures EquivalentTo(Insert(x, s, le), y, le)
         == if Equivalent(x, y, le) then [x] + EquivalentTo(s, y, le) else EquivalentTo(s, y, le)
  {
    if |s| > 0 && !le(x, s[0]) {
      var r := [s[0]] + Insert(x, s[1..], le);
      assert r[1..] == Insert(x, s[1..], le);
      InsertStable(x, s[1..], y, le);
      if Equivalent(x, y, le) {
        // s[0] sorts strictly before x, so it is not equivalent to y.
        assert !Equivalent(s[0], y, le);
      }
    } else if |s| > 0 {
      assert ([x] + s)[1..] == s;
    }
  }

  /** Sorting is stable: equivalent elements keep their relative input order. */
  lemma {:induction false} SortByStable<T(!new)>(s: seq<T>, y: T, le: (T, T) -> bool)
    requires Transitive(le)
    ensures EquivalentTo(SortBy(s, le), y, le) == EquivalentTo(s, y, le)
  {
    if |s| > 0 {
      SortByStable(s[1..], y, le);
      InsertStable(s[0], SortBy(s[1..], le), y, le);
    }
  }

  /** No two distinct elements of `s` are equivalent under `le`. */
  ghost predicate StrictOn<T>(s: seq<T>, le: (T, T) -> bool) {
    forall i, j :: 0 <= i < |s| && 0 <= j < |s| && le(s[i], s[j]) && le(s[j], s[i]) ==> s[i] == s[j]
  }

  lemma TailsSameElements<T>(a: seq<T>, b: seq<T>)
    requires |a| > 0 && |b| > 0 && a[0] == b[0] && multiset(a) == multiset(b)
    ensures multiset(a[1..]) == multiset(b[1..])
  {
    assert a == [a[0]] + a[1..];
    assert b == [b[0]] + b[1..];
    assert multiset(a) == multiset{a[0]} + multiset(a[1..]);
    assert multiset(b) == multiset{b[0]} + multiset(b[1..]);
    assert (multiset{a[0]} + multiset(a[1..])) - multiset{a[0]} == multiset(a[1..]);
    assert (multiset{b[0]} + multiset(b[1..])) - multiset{b[0]} == multiset(b[1..]);
  }

  lemma SameHead<T>(a: seq<T>, b: seq<T>, le: (T, T) -> bool)
    requires |a| > 0 && multiset(a) == multiset(b)
    requires SortedBy(a, le) && SortedBy(b, le) && StrictOn(a, le)
    ensures |b| > 0 && a[0] == b[0]
  {
    assert a[0] in multiset(b);
    var ia :| 0 <= ia < |b| && b[ia] == a[0];
    assert b[0] in multiset(a);
    var ib :| 0 <= ib < |a| && a[ib] == b[0];
    if ia > 0 && ib > 0 {
      assert le(b[0], b[ia]) && le(a[0], a[ib]);
      assert a[0] == a[ib];
    }
  }

  /**
   * Two ordered arrangements of the same elements coincide when no two
   * distinct elements are equivalent: the sorted order does not depend on
   * the order in which the elements were handed in.
   */
  lemma {:induction false} SortedUnique<T>(a: seq<T>, b: seq<T>, le: (T, T) -> bool)
    requires multiset(a) == multiset(b)
    requires SortedBy(a, le) && SortedBy(b, le) && StrictOn(a, le)
    ensures a == b
  {
    if |a| == 0 {
      assert |b| == |multiset(b)| == 0;
    } else {
      SameHead(a, b, le);
      TailsSameElements(a, b);
      SortedUnique(a[1..], b[1..], le);
      assert a == [a[0]] + a[1..];
      assert b == [b[0]] + b[1..];
    }
  }

  /**
   * Sorting forgets the input order: permutations of one another sort to the
   * same sequence when no two distinct elements are equivalent.
   */
  lemma SortByOrderFree<T(!new)>(a: seq<T>, b: seq<T>, le: (T, T) -> bool)
    requires Total(le) && Transitive(le) && multiset(a) == multiset(b)
    requires StrictOn(a, le)
    ensures SortBy(a, le) == SortBy(b, le)
  {
    var sa := SortBy(a, le);
    var sb := SortBy(b, le);
    SortBySorted(a, le);
    SortBySorted(b, le);
    forall i, j | 0 <= i < |sa| && 0 <= j < |sa| && le(sa[i], sa[j]) && le(sa[j], sa[i])
      ensures sa[i] == sa[j]
    {
      assert sa[i] in multiset(a) && sa[j] in multiset(a);
      var p :| 0 <= p < |a| && a[p] == sa[i];
      var q :| 0 <= q < |a| && a[q] == sa[j];
    }
    SortedUnique(sa, sb, le);
  }
}
