/**
 * `Stream.sorted()` on strings: the names come out in `compareTo` order.
 * Insertion sort stands in for the library's sort; SortedPermutationUnique
 * shows that any sort by this total order produces the same list.
 */
module Sorting {
  import opened Text
  import opened Lists

  ghost predicate Sorted(xs: seq<string>) {
    forall i, j | 0 <= i < j < |xs| :: NotAfter(xs[i], xs[j])
  }

  function Insert(x: string, xs: seq<string>): (r: seq<string>)
    requires Sorted(xs)
    ensures Sorted(r)
    ensures multiset(r) == multiset(xs) + multiset{x}
  {
    if xs == [] then [x]
    else if NotAfter(x, xs[0]) then
      assert forall j | 0 <= j < |xs| :: NotAfter(x, xs[j]) by {
        forall j | 0 <= j < |xs| ensures NotAfter(x, xs[j]) {
          if j > 0 { NotAfterTransitive(x, xs[0], xs[j]); }
        }
      }
      [x] + xs
    else
      NotAfterTotal(x, xs[0]);
      var rest := Insert(x, xs[1..]);
      assert forall j | 0 <= j < |rest| :: NotAfter(xs[0], rest[j]) by {
        forall j | 0 <= j < |rest| ensures NotAfter(xs[0], rest[j]) {
          assert rest[j] in multiset(rest);
          if rest[j] != x {
            assert rest[j] in multiset(xs[1..]);
            var k :| 0 <= k < |xs[1..]| && xs[1..][k] == rest[j];
            assert xs[k + 1] == rest[j];
          }
        }
      }
      assert xs == [xs[0]] + xs[1..];
      [xs[0]] + rest
  }

  /** The result is in ascending `compareTo` order and holds the same strings as the input. */
  function Sort(xs: seq<string>): (r: seq<string>)
    ensures Sorted(r)
    ensures multiset(r) == multiset(xs)
  {
    if xs == [] then []
    else
      assert xs == [xs[0]] + xs[1..];
      Insert(xs[0], Sort(xs[1..]))
  }

  /** Two sorted lists holding the same strings are equal, so the choice of sorting algorithm is unobservable. */
  lemma {:induction false} SortedPermutationUnique(a: seq<string>, b: seq<string>)
    requires Sorted(a) && Sorted(b)
    requires multiset(a) == multiset(b)
    ensures a == b
  {
    if a != [] {
      assert |b| == |a| by { assert |multiset(a)| == |multiset(b)|; }
      var x, y := a[0], b[0];
      assert NotAfter(y, x) by {
        assert x in multiset(b);
        var j :| 0 <= j < |b| && b[j] == x;
        NotAfterTotal(y, y);
      }
      assert NotAfter(x, y) by {
        assert y in multiset(a);
        var i :| 0 <= i < |a| && a[i] == y;
        NotAfterTotal(x, x);
      }
      NotAfterAntisymmetric(x, y);
      TailMultiset(a);
      TailMultiset(b);
      SortedPermutationUnique(a[1..], b[1..]);
      assert a == [x] + a[1..] && b == [y] + b[1..];
    }
  }
}
