/** The sort engine (src/merger/sorter.rs): `sort` sorts a vector of u64 in
    place. The source delegates to a parallel unstable sort; here it is an
    insertion sort, which yields the same sequence because a sorted
    permutation is unique. */
module Sorter {
  import opened U64

  ghost predicate Sorted(s: seq<u64>)
  {
    forall i, j :: 0 <= i < j < |s| ==> s[i] <= s[j]
  }

  /** Inserts `x` into a sorted sequence. */
  function Insert(x: u64, s: seq<u64>): (r: seq<u64>)
    requires Sorted(s)
    ensures Sorted(r)
    ensures multiset(r) == multiset(s) + multiset{x}
  {
    if |s| == 0 then [x]
    else if x <= s[0] then
      ConsSorted(x, s);
      [x] + s
    else
      SortedTail(s);
      var t := Insert(x, s[1..]);
      InsertBehindHead(x, s, t);
      [s[0]] + t
  }

  lemma SortedTail(s: seq<u64>)
    requires Sorted(s) && |s| > 0
    ensures Sorted(s[1..])
  {
  }

  /** The head of `s`, below `x`, goes in front of `x` inserted into the tail. */
  lemma InsertBehindHead(x: u64, s: seq<u64>, t: seq<u64>)
    requires Sorted(s) && |s| > 0 && s[0] < x
    requires Sorted(t) && multiset(t) == multiset(s[1..]) + multiset{x}
    ensures Sorted([s[0]] + t)
    ensures multiset([s[0]] + t) == multiset(s) + multiset{x}
  {
    assert s == [s[0]] + s[1..];
    LeastOfMultiset(s[0], t);
    ConsSorted(s[0], t);
  }

  /** A value at most every element of a sorted sequence can go in front. */
  lemma ConsSorted(x: u64, s: seq<u64>)
    requires Sorted(s)
    requires forall k :: 0 <= k < |s| ==> x <= s[k]
    ensures Sorted([x] + s)
  {
  }

  /** A bound on the elements of a multiset bounds every element of a sequence
      with that multiset. */
  lemma LeastOfMultiset(x: u64, t: seq<u64>)
    requires forall y :: y in multiset(t) ==> x <= y
    ensures forall k :: 0 <= k < |t| ==> x <= t[k]
  {
    forall k | 0 <= k < |t|
      ensures x <= t[k]
    {
      assert t[k] in multiset(t);
    }
  }

  /** `sort`: the result is non-decreasing and a permutation of the input;
      in particular the empty vector stays empty. */
  function Sort(s: seq<u64>): (r: seq<u64>)
    ensures Sorted(r)
    ensures multiset(r) == multiset(s)
    ensures |r| == |s|
  {
    if |s| == 0 then []
    else
      assert s == [s[0]] + s[1..];
      Insert(s[0], Sort(s[1..]))
  }

  lemma HeadIsLeast(s: seq<u64>, x: u64)
    requires Sorted(s) && x in s
    ensures s[0] <= x
  {
    var k :| 0 <= k < |s| && s[k] == x;
    assert k == 0 || s[0] <= s[k];
  }

  lemma TailMultiset(s: seq<u64>)
    requires |s| > 0
    ensures multiset(s[1..]) == multiset(s) - multiset{s[0]}
  {
    assert s == [s[0]] + s[1..];
  }

  /** Two sorted permutations of each other have the same length and the same
      least element, and what remains after it is again a pair of sorted
      permutations. */
  lemma PeelLeast(a: seq<u64>, b: seq<u64>)
    requires Sorted(a) && Sorted(b)
    requires multiset(a) == multiset(b)
    requires |a| > 0
    ensures |b| == |a| && a[0] == b[0]
    ensures Sorted(a[1..]) && Sorted(b[1..])
    ensures multiset(a[1..]) == multiset(b[1..])
  {
    assert |a| == |multiset(a)| && |b| == |multiset(b)|;
    assert a[0] in multiset(b) && b[0] in multiset(a);
    HeadIsLeast(b, a[0]);
    HeadIsLeast(a, b[0]);
    TailMultiset(a);
    TailMultiset(b);
  }

  /** A sorted permutation is unique, so any correct sort, parallel or not,
      produces the same sequence. */
  lemma {:induction false} SortedUnique(a: seq<u64>, b: seq<u64>)
    requires Sorted(a) && Sorted(b)
    requires multiset(a) == multiset(b)
    ensures a == b
    decreases |a|
  {
    if |a| == 0 {
      assert |b| == |multiset(b)| == 0;
    } else {
      PeelLeast(a, b);
      SortedUnique(a[1..], b[1..]);
      assert a == [a[0]] + a[1..] && b == [b[0]] + b[1..];
    }
  }
}
