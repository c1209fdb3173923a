/** Facts about integer sequences shared by the sort and merge stages:
    ascending order, concatenation of a list of parts, and a reference
    sorting function against which the pipeline's sorts are compared. */
module Seqs {

  /** Ascending order (repeats allowed). */
  predicate Sorted(s: seq<int>) {
    forall i, j :: 0 <= i < j < |s| ==> s[i] <= s[j]
  }

  /** `r` is `s` in ascending order. */
  predicate SortedPermutationOf(r: seq<int>, s: seq<int>) {
    Sorted(r) && multiset(r) == multiset(s)
  }

  /** All parts concatenated in order. */
  function Flatten(parts: seq<seq<int>>): seq<int> {
    if |parts| == 0 then [] else parts[0] + Flatten(parts[1..])
  }

  /** Total number of elements over all parts. */
  function TotalLength(parts: seq<seq<int>>): nat {
    |Flatten(parts)|
  }

  lemma {:induction false} FlattenAppend(a: seq<seq<int>>, b: seq<seq<int>>)
    ensures Flatten(a + b) == Flatten(a) + Flatten(b)
    decreases |a|
  {
    if |a| == 0 {
      assert a + b == b;
    } else {
      assert (a + b)[1..] == a[1..] + b;
      FlattenAppend(a[1..], b);
    }
  }

  /** Every element of the concatenation belongs to some part. */
  lemma {:induction false} FlattenMember(parts: seq<seq<int>>, x: int)
    requires x in Flatten(parts)
    ensures exists i, j :: 0 <= i < |parts| && 0 <= j < |parts[i]| && parts[i][j] == x
    decreases |parts|
  {
    if x in parts[0] {
      var j :| 0 <= j < |parts[0]| && parts[0][j] == x;
      assert parts[0][j] == x;
    } else {
      FlattenMember(parts[1..], x);
      var i, j :| 0 <= i < |parts[1..]| && 0 <= j < |parts[1..][i]| && parts[1..][i][j] == x;
      assert parts[i + 1][j] == x;
    }
  }

  /** Sorting each part keeps the multiset of the concatenation. */
  lemma {:induction false} FlattenPermuted(a: seq<seq<int>>, b: seq<seq<int>>)
    requires |a| == |b|
    requires forall i :: 0 <= i < |a| ==> multiset(a[i]) == multiset(b[i])
    ensures multiset(Flatten(a)) == multiset(Flatten(b))
    decreases |a|
  {
    if |a| > 0 {
      FlattenPermuted(a[1..], b[1..]);
    }
  }

  /** `x` is no larger than any element of `s`. */
  predicate LowerBound(x: int, s: seq<int>) {
    forall i :: 0 <= i < |s| ==> x <= s[i]
  }

  /** A sorted sequence is determined by its multiset: two sorted
      arrangements of the same elements are equal. */
  lemma {:induction false} SortedUnique(a: seq<int>, b: seq<int>)
    requires Sorted(a) && Sorted(b)
    requires multiset(a) == multiset(b)
    ensures a == b
    decreases |a|
  {
    assert |a| == |multiset(a)| == |b|;
    if |a| > 0 {
      assert a[0] in multiset(b) && b[0] in multiset(a);
      var i :| 0 <= i < |b| && b[i] == a[0];
      var j :| 0 <= j < |a| && a[j] == b[0];
      assert a[0] == b[0];
      assert a == [a[0]] + a[1..];
      assert b == [b[0]] + b[1..];
      assert multiset(a) == multiset{a[0]} + multiset(a[1..]);
      assert multiset(b) == multiset{b[0]} + multiset(b[1..]);
      assert multiset(a[1..]) == multiset(a) - multiset{a[0]};
      assert multiset(b[1..]) == multiset(b) - multiset{b[0]};
      SortedTail(a);
      SortedTail(b);
      SortedUnique(a[1..], b[1..]);
    }
  }

  lemma SortedTail(s: seq<int>)
    requires Sorted(s) && |s| > 0
    ensures Sorted(s[1..])
  {
    forall p, q | 0 <= p < q < |s| - 1 ensures s[1..][p] <= s[1..][q] {
      assert s[1..][p] == s[p + 1] && s[1..][q] == s[q + 1];
    }
  }

  /** A sorted sequence stays sorted when a lower bound is put in front. */
  lemma SortedCons(x: int, s: seq<int>)
    requires Sorted(s) && LowerBound(x, s)
    ensures Sorted([x] + s)
  {
  }

  /** Inserts `x` before the first element not smaller than it. */
  function Insert(x: int, s: seq<int>): (r: seq<int>)
    requires Sorted(s)
    ensures Sorted(r)
    ensures multiset(r) == multiset(s) + multiset{x}
    decreases |s|
  {
    if |s| == 0 || x <= s[0] then
      SortedCons(x, s);
      [x] + s
    else
      var rest := Insert(x, s[1..]);
      assert s == [s[0]] + s[1..];
      assert LowerBound(s[0], rest) by {
        forall k | 0 <= k < |rest| ensures s[0] <= rest[k] {
          assert rest[k] in multiset(rest);
          if rest[k] != x {
            assert rest[k] in multiset(s[1..]);
            assert rest[k] in s[1..];
          }
        }
      }
      SortedCons(s[0], rest);
      [s[0]] + rest
  }

  /** The reference sort: insertion sort, written independently of the
      pipeline's pivot sort and merge. */
  function InsertionSort(s: seq<int>): (r: seq<int>)
    ensures Sorted(r)
    ensures multiset(r) == multiset(s)
    decreases |s|
  {
    if |s| == 0 then []
    else
      assert s == [s[0]] + s[1..];
      Insert(s[0], InsertionSort(s[1..]))
  }

  /** Anything sorted with the same elements as `s` is the reference sort of
      `s`. */
  lemma IsInsertionSort(s: seq<int>, r: seq<int>)
    requires Sorted(r) && multiset(r) == multiset(s)
    ensures r == InsertionSort(s)
  {
    SortedUnique(r, InsertionSort(s));
  }
}
