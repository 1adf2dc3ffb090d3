/**
 * Sorting of a collection by a caller-supplied comparator, as the tag store
 * does with `Collections.sort` before it windows its listing. The comparator
 * itself is not known to the model; it is only assumed to be a total
 * preorder, which may rank distinct elements as equal.
 */
module Sorting {

  /** `le` is a total preorder: any two elements compare, and comparison is transitive. */
  ghost predicate TotalPreorder<T(!new)>(le: (T, T) -> bool) {
    && (forall a, b :: le(a, b) || le(b, a))
    && (forall a, b, c :: le(a, b) && le(b, c) ==> le(a, c))
  }

  /** No two different elements of `s` are ranked equal by `le`. */
  ghost predicate AntisymmetricOn<T>(le: (T, T) -> bool, s: seq<T>) {
    forall i, j :: 0 <= i < |s| && 0 <= j < |s| && le(s[i], s[j]) && le(s[j], s[i]) ==> s[i] == s[j]
  }

  /** Every earlier element of `s` is ordered before every later one. */
  ghost predicate Sorted<T(!new)>(le: (T, T) -> bool, s: seq<T>) {
    forall i, j :: 0 <= i < j < |s| ==> le(s[i], s[j])
  }

  /** Inserts `x` into the sorted sequence `s` at its place. */
  function Insert<T(!new)>(le: (T, T) -> bool, x: T, s: seq<T>): (r: seq<T>)
    requires TotalPreorder(le) && Sorted(le, s)
    ensures Sorted(le, r)
    ensures multiset(r) == multiset(s) + multiset{x}
    ensures |r| == |s| + 1
  {
    if |s| == 0 then [x]
    else if le(x, s[0]) then [x] + s
    else
      var tail := Insert(le, x, s[1..]);
      assert s == [s[0]] + s[1..];
      assert forall y :: y in s[1..] ==> le(s[0], y);
      assert forall i :: 0 <= i < |tail| ==> le(s[0], tail[i]) by {
        forall i | 0 <= i < |tail| ensures le(s[0], tail[i]) {
          assert tail[i] in multiset(tail);
        }
      }
      [s[0]] + tail
  }

  /** Insertion sort: a sorted permutation of `s`. */
  function Sort<T(!new)>(le: (T, T) -> bool, s: seq<T>): (r: seq<T>)
    requires TotalPreorder(le)
    ensures Sorted(le, r)
    ensures multiset(r) == multiset(s)
    ensures |r| == |s|
  {
    if |s| == 0 then []
    else
      assert s == [s[0]] + s[1..];
      Insert(le, s[0], Sort(le, s[1..]))
  }

  /**
   * A collection none of whose distinct elements tie under `le` has exactly
   * one sorted arrangement, so the result of sorting it does not depend on
   * the order the input came in.
   */
  lemma {:induction false} SortedUnique<T(!new)>(le: (T, T) -> bool, a: seq<T>, b: seq<T>)
    requires TotalPreorder(le)
    requires Sorted(le, a) && Sorted(le, b)
    requires multiset(a) == multiset(b)
    requires AntisymmetricOn(le, a)
    ensures a == b
  {
    if |a| == 0 {
      assert |b| == |multiset(b)| == 0;
    } else {
      assert |b| == |multiset(b)| == |multiset(a)| == |a|;
      assert a == [a[0]] + a[1..];
      assert b == [b[0]] + b[1..];
      assert b[0] in multiset(a);
      assert a[0] in multiset(b);
      var i :| 0 <= i < |a| && a[i] == b[0];
      assert le(a[0], b[0]) by {
        if i > 0 { assert le(a[0], a[i]); }
      }
      assert le(b[0], a[0]) by {
        var j :| 0 <= j < |b| && b[j] == a[0];
        if j > 0 { assert le(b[0], b[j]); }
      }
      assert a[0] == a[i] == b[0];
      assert AntisymmetricOn(le, a[1..]) by {
        forall x, y | 0 <= x < |a[1..]| && 0 <= y < |a[1..]| && le(a[1..][x], a[1..][y]) && le(a[1..][y], a[1..][x])
          ensures a[1..][x] == a[1..][y]
        {
          assert a[1..][x] == a[x + 1] && a[1..][y] == a[y + 1];
        }
      }
      assert multiset(a[1..]) == multiset(a) - multiset{a[0]};
      assert multiset(b[1..]) == multiset(b) - multiset{b[0]};
      SortedUnique(le, a[1..], b[1..]);
    }
  }
}
