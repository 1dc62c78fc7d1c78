/** `orderBy: { createdAt: "desc" }`: listings come newest first. The
    database promises an order sorted by the key and nothing about ties, so
    that is all the contract below promises too. */
module Ordering {

  /** `xs` is ordered by `key`, largest first. */
  ghost predicate NewestFirst<T>(xs: seq<T>, key: T -> int) {
    forall i, j :: 0 <= i < j < |xs| ==> key(xs[i]) >= key(xs[j])
  }

  /** Every row of `rest`, which holds `x` and the tail of `xs`, is at most as new as `xs[0]`. */
  lemma HeadIsNewest<T>(x: T, xs: seq<T>, rest: seq<T>, key: T -> int)
    requires xs != [] && NewestFirst(xs, key) && key(x) < key(xs[0])
    requires multiset(rest) == multiset(xs[1..]) + multiset{x}
    ensures forall y :: y in rest ==> key(y) <= key(xs[0])
  {
    forall y | y in rest ensures key(y) <= key(xs[0]) {
      assert y in multiset(rest);
      if y != x {
        assert y in multiset(xs[1..]);
        var k :| 0 <= k < |xs[1..]| && xs[1..][k] == y;
        assert y == xs[k + 1];
      }
    }
  }

  /** `x` placed into the sorted `xs`. */
  function Insert<T>(x: T, xs: seq<T>, key: T -> int): (r: seq<T>)
    requires NewestFirst(xs, key)
    ensures |r| == |xs| + 1
    ensures multiset(r) == multiset(xs) + multiset{x}
    ensures NewestFirst(r, key)
  {
    if xs == [] || key(x) >= key(xs[0]) then [x] + xs
    else
      var rest := Insert(x, xs[1..], key);
      assert xs == [xs[0]] + xs[1..];
      HeadIsNewest(x, xs, rest, key);
      var r := [xs[0]] + rest;
      assert forall i :: 1 <= i < |r| ==> r[i] == rest[i - 1] && r[i] in rest;
      r
  }

  /** The rows of `xs`, newest first. */
  function SortNewestFirst<T>(xs: seq<T>, key: T -> int): (r: seq<T>)
    ensures multiset(r) == multiset(xs)
    ensures NewestFirst(r, key)
  {
    if xs == [] then []
    else
      assert xs == [xs[0]] + xs[1..];
      Insert(xs[0], SortNewestFirst(xs[1..], key), key)
  }

  /** Sorting neither adds nor drops a row. */
  lemma SortedHasSameRows<T>(xs: seq<T>, key: T -> int, x: T)
    ensures x in SortNewestFirst(xs, key) <==> x in xs
  {
    var r := SortNewestFirst(xs, key);
    assert x in r <==> x in multiset(r);
  }
}
