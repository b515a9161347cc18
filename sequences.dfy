/** Mapping a function over a sequence, and how that interacts with `+` and permutation. */
module Sequences {

  function Map<A, B>(f: A -> B, s: seq<A>): (r: seq<B>)
    ensures |r| == |s|
    ensures forall i :: 0 <= i < |s| ==> r[i] == f(s[i])
  {
    seq(|s|, i requires 0 <= i < |s| => f(s[i]))
  }

  lemma MapConcat<A, B>(f: A -> B, a: seq<A>, b: seq<A>)
    ensures Map(f, a + b) == Map(f, a) + Map(f, b)
  {
    assert forall k :: 0 <= k < |a + b| ==> Map(f, a + b)[k] == (Map(f, a) + Map(f, b))[k];
  }

  /** Mapping sends permutations to permutations. */
  lemma {:induction false} MapMultiset<A, B>(f: A -> B, a: seq<A>, b: seq<A>)
    requires multiset(a) == multiset(b)
    ensures multiset(Map(f, a)) == multiset(Map(f, b))
    decreases |a|
  {
    if |a| == 0 {
      assert |b| == |multiset(b)| == 0;
    } else {
      var x := a[0];
      assert x in multiset(b);
      var i :| 0 <= i < |b| && b[i] == x;
      RemovedAt(a, 0);
      RemovedAt(b, i);
      var ra, rb := a[..0] + a[1..], b[..i] + b[i + 1..];
      MapMultiset(f, ra, rb);
      MapSameRemoved(f, a, b, i);
    }
  }

  /** Permuted maps stay permuted once the same element is put back into both. */
  lemma MapSameRemoved<A, B>(f: A -> B, a: seq<A>, b: seq<A>, i: nat)
    requires |a| > 0 && i < |b| && b[i] == a[0]
    requires multiset(Map(f, a[..0] + a[1..])) == multiset(Map(f, b[..i] + b[i + 1..]))
    ensures multiset(Map(f, a)) == multiset(Map(f, b))
  {
    MapRemovedAt(f, a, 0);
    MapRemovedAt(f, b, i);
  }

  lemma RemovedAt<A>(b: seq<A>, i: nat)
    requires i < |b|
    ensures multiset(b[..i] + b[i + 1..]) == multiset(b) - multiset{b[i]}
  {
    assert b == b[..i] + [b[i]] + b[i + 1..];
  }

  lemma MapRemovedAt<A, B>(f: A -> B, b: seq<A>, i: nat)
    requires i < |b|
    ensures multiset(Map(f, b)) == multiset(Map(f, b[..i] + b[i + 1..])) + multiset{f(b[i])}
  {
    MapSplitAt(f, b, i);
    MapConcat(f, b[..i], b[i + 1..]);
  }

  lemma MapSplitAt<A, B>(f: A -> B, b: seq<A>, i: nat)
    requires i < |b|
    ensures Map(f, b) == Map(f, b[..i]) + [f(b[i])] + Map(f, b[i + 1..])
  {
    var m := Map(f, b[..i]) + [f(b[i])] + Map(f, b[i + 1..]);
    assert forall k :: 0 <= k < |b| ==> Map(f, b)[k] == m[k];
  }
}
