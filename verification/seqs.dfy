/** `Array.prototype.filter` on sequences, and distinctness of a key. */
module Seqs {

  /** `xs.filter(p)`: the elements satisfying `p`, in their original order. */
  function Filter<T(!new)>(xs: seq<T>, p: T -> bool): (r: seq<T>)
    ensures |r| <= |xs|
    ensures forall x :: x in r <==> x in xs && p(x)
  {
    if xs == [] then []
    else (if p(xs[0]) then [xs[0]] else []) + Filter(xs[1..], p)
  }

  /** Filtering works element by element, so it keeps the relative order. */
  lemma {:induction false} FilterDistributes<T(!new)>(a: seq<T>, b: seq<T>, p: T -> bool)
    ensures Filter(a + b, p) == Filter(a, p) + Filter(b, p)
  {
    if a == [] {
      assert a + b == b;
    } else {
      assert (a + b)[1..] == a[1..] + b;
      FilterDistributes(a[1..], b, p);
    }
  }

  /** No two elements of `xs` share a key. */
  ghost predicate UniqueBy<T, K>(xs: seq<T>, key: T -> K) {
    forall i, j :: 0 <= i < j < |xs| ==> key(xs[i]) != key(xs[j])
  }

  /** Dropping the head keeps keys distinct. */
  lemma UniqueTail<T, K>(xs: seq<T>, key: T -> K)
    requires xs != [] && UniqueBy(xs, key)
    ensures UniqueBy(xs[1..], key)
  {
    assert forall k :: 0 <= k < |xs| - 1 ==> xs[1..][k] == xs[k + 1];
  }

  /** With distinct keys, no later element shares the head's key. */
  lemma HeadKeyFresh<T, K>(xs: seq<T>, key: T -> K)
    requires xs != [] && UniqueBy(xs, key)
    ensures forall y :: y in xs[1..] ==> key(y) != key(xs[0])
  {
    forall y | y in xs[1..] ensures key(y) != key(xs[0]) {
      var k :| 0 <= k < |xs[1..]| && xs[1..][k] == y;
      assert y == xs[k + 1];
    }
  }

  /** Putting an element with a new key in front keeps keys distinct. */
  lemma UniqueCons<T, K>(x: T, ys: seq<T>, key: T -> K)
    requires UniqueBy(ys, key)
    requires forall y :: y in ys ==> key(y) != key(x)
    ensures UniqueBy([x] + ys, key)
  {
    var r := [x] + ys;
    forall a, b | 0 <= a < b < |r| ensures key(r[a]) != key(r[b]) {
      assert r[b] == ys[b - 1];
      if a == 0 {
        assert r[b] in ys;
      } else {
        assert r[a] == ys[a - 1];
      }
    }
  }

  /** A filtered sequence keeps distinct keys distinct. */
  lemma {:induction false} FilterKeepsUnique<T(!new), K>(xs: seq<T>, p: T -> bool, key: T -> K)
    requires UniqueBy(xs, key)
    ensures UniqueBy(Filter(xs, p), key)
  {
    if xs != [] {
      var tail := Filter(xs[1..], p);
      UniqueTail(xs, key);
      FilterKeepsUnique(xs[1..], p, key);
      if p(xs[0]) {
        HeadKeyFresh(xs, key);
        UniqueCons(xs[0], tail, key);
        assert Filter(xs, p) == [xs[0]] + tail;
      } else {
        assert Filter(xs, p) == tail;
      }
    }
  }

  /** Filtering with a test every element passes changes nothing. */
  lemma {:induction false} FilterIdentity<T(!new)>(xs: seq<T>, p: T -> bool)
    requires forall x :: x in xs ==> p(x)
    ensures Filter(xs, p) == xs
  {
    if xs != [] {
      assert forall x :: x in xs[1..] ==> x in xs;
      FilterIdentity(xs[1..], p);
      assert [xs[0]] + xs[1..] == xs;
    }
  }
}
