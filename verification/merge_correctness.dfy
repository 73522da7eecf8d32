/** What `merge_chunks` guarantees: no value is lost, duplicated or invented,
    every batch lies in its partition's range, and with non-decreasing chunks
    result.txt holds the sorted union of all chunks, whatever the number of
    partitions. */
module MergeCorrectness {
  import opened U64
  import opened Wrappers
  import opened Sorter
  import opened Partition
  import opened Tokens
  import opened Merger

  // ---- Values taken so far ----

  /** The values of chunks `j..` already placed in some batch. */
  ghost function TakenBag(chunks: seq<seq<u64>>, rs: seq<Reader>, j: nat): multiset<u64>
    requires Valid(chunks, rs) && j <= |chunks|
    decreases |chunks| - j
  {
    if j == |chunks| then multiset{}
    else multiset(chunks[j][..Taken(rs[j])]) + TakenBag(chunks, rs, j + 1)
  }

  lemma {:induction false} TakenBagFrame(chunks: seq<seq<u64>>, rs: seq<Reader>, qs: seq<Reader>, j: nat)
    requires Valid(chunks, rs) && Valid(chunks, qs) && j <= |chunks|
    requires rs[j..] == qs[j..]
    ensures TakenBag(chunks, rs, j) == TakenBag(chunks, qs, j)
    decreases |chunks| - j
  {
    if j < |chunks| {
      assert rs[j] == rs[j..][0] == qs[j];
      assert rs[j + 1..] == rs[j..][1..];
      assert qs[j + 1..] == qs[j..][1..];
      TakenBagFrame(chunks, rs, qs, j + 1);
    }
  }

  /** One visit moves values from the chunk into the batch: the batch grows
      by exactly the values it marks as taken. */
  lemma VisitBag(vec: seq<u64>, data: seq<u64>, s: Reader, ub: u64)
    requires InPlace(data, s)
    ensures var v := VisitChunk(vec, data, s, ub);
      multiset(v.vec) + multiset(data[..Taken(s)]) == multiset(vec) + multiset(data[..Taken(v.reader)])
  {
    var v := VisitChunk(vec, data, s, ub);
    SliceBag(vec, v.vec, data, Taken(s), Taken(v.reader));
  }

  lemma SliceBag(vec: seq<u64>, out: seq<u64>, data: seq<u64>, a: nat, e: nat)
    requires a <= e <= |data| && out == vec + data[a..e]
    ensures multiset(out) + multiset(data[..a]) == multiset(vec) + multiset(data[..e])
  {
    assert data[..e] == data[..a] + data[a..e];
  }

  /** Replacing chunk `j`'s reader by another that lies in place changes only
      chunk `j`'s share of the taken values. */
  lemma TakenBagStep(chunks: seq<seq<u64>>, rs: seq<Reader>, j: nat, r: Reader)
    requires Valid(chunks, rs) && j < |chunks| && InPlace(chunks[j], r)
    ensures Valid(chunks, rs[j := r])
    ensures TakenBag(chunks, rs, j) == multiset(chunks[j][..Taken(rs[j])]) + TakenBag(chunks, rs, j + 1)
    ensures TakenBag(chunks, rs[j := r], j + 1) == TakenBag(chunks, rs, j + 1)
    ensures TakenBag(chunks, rs[j := r], j) == multiset(chunks[j][..Taken(r)]) + TakenBag(chunks, rs, j + 1)
  {
    var qs := rs[j := r];
    assert rs[j + 1..] == qs[j + 1..];
    TakenBagFrame(chunks, rs, qs, j + 1);
  }

  lemma StepAlgebra<T>(bv: multiset<T>, rv: multiset<T>, v: multiset<T>, a: multiset<T>, e: multiset<T>,
                       r: multiset<T>, r': multiset<T>)
    requires bv + r == rv + r'
    requires rv + a == v + e
    ensures bv + (a + r) == v + (e + r')
  {
    forall y
      ensures (bv + (a + r))[y] == (v + (e + r'))[y]
    {
      assert (bv + r)[y] == (rv + r')[y];
      assert (rv + a)[y] == (v + e)[y];
    }
  }

  /** The chunk loop moves values from the chunks into the batch: the batch
      grows by exactly the values it marks as taken. */
  lemma {:induction false} CollectPartitionTakes(chunks: seq<seq<u64>>, rs: seq<Reader>, ub: u64, j: nat, vec: seq<u64>)
    requires Valid(chunks, rs) && j <= |chunks|
    ensures var b := CollectPartition(chunks, rs, ub, j, vec);
      multiset(b.vec) + TakenBag(chunks, rs, j) == multiset(vec) + TakenBag(chunks, b.readers, j)
    decreases |chunks| - j, 1
  {
    if j < |chunks| {
      CollectPartitionTakesStep(chunks, rs, ub, j, vec);
    }
  }

  lemma {:induction false} CollectPartitionTakesStep(chunks: seq<seq<u64>>, rs: seq<Reader>, ub: u64, j: nat, vec: seq<u64>)
    requires Valid(chunks, rs) && j < |chunks|
    ensures var b := CollectPartition(chunks, rs, ub, j, vec);
      multiset(b.vec) + TakenBag(chunks, rs, j) == multiset(vec) + TakenBag(chunks, b.readers, j)
    decreases |chunks| - j, 0
  {
    var v := VisitChunk(vec, chunks[j], rs[j], ub);
    var qs := rs[j := v.reader];
    VisitBag(vec, chunks[j], rs[j], ub);
    TakenBagStep(chunks, rs, j, v.reader);
    var b := CollectPartition(chunks, qs, ub, j + 1, v.vec);
    assert CollectPartition(chunks, rs, ub, j, vec) == b;
    CollectPartitionTakes(chunks, qs, ub, j + 1, v.vec);
    assert b.readers[j] == b.readers[..j + 1][j] == v.reader;
    var e := multiset(chunks[j][..Taken(v.reader)]);
    assert TakenBag(chunks, b.readers, j) == e + TakenBag(chunks, b.readers, j + 1);
    StepAlgebra(multiset(b.vec), multiset(v.vec), multiset(vec),
      multiset(chunks[j][..Taken(rs[j])]), e,
      TakenBag(chunks, qs, j + 1), TakenBag(chunks, b.readers, j + 1));
  }

  lemma {:induction false} TakenBagInitial(chunks: seq<seq<u64>>, j: nat)
    requires j <= |chunks| && Valid(chunks, Initial(|chunks|))
    ensures TakenBag(chunks, Initial(|chunks|), j) == multiset{}
    decreases |chunks| - j
  {
    if j < |chunks| {
      TakenBagInitial(chunks, j + 1);
    }
  }

  lemma {:induction false} TakenBagDrained(chunks: seq<seq<u64>>, rs: seq<Reader>, j: nat)
    requires Valid(chunks, rs) && j <= |chunks|
    requires forall i :: j <= i < |chunks| ==> Beyond(chunks[i], rs[i], MAX)
    ensures TakenBag(chunks, rs, j) == multiset(Flatten(chunks[j..]))
    decreases |chunks| - j, 1
  {
    if j < |chunks| {
      TakenBagDrainedStep(chunks, rs, j);
    } else {
      assert chunks[j..] == [];
    }
  }

  lemma {:induction false} TakenBagDrainedStep(chunks: seq<seq<u64>>, rs: seq<Reader>, j: nat)
    requires Valid(chunks, rs) && j < |chunks|
    requires forall i :: j <= i < |chunks| ==> Beyond(chunks[i], rs[i], MAX)
    ensures TakenBag(chunks, rs, j) == multiset(Flatten(chunks[j..]))
    decreases |chunks| - j, 0
  {
    var d := chunks[j];
    assert Beyond(d, rs[j], MAX);
    assert Taken(rs[j]) == |d|;
    assert d[..|d|] == d;
    TakenBagDrained(chunks, rs, j + 1);
    assert TakenBag(chunks, rs, j) == multiset(d) + multiset(Flatten(chunks[j + 1..]));
    assert chunks[j..] == [d] + chunks[j + 1..];
    FlattenCons(d, chunks[j + 1..]);
  }

  lemma FlattenCons(s: seq<u64>, rest: seq<seq<u64>>)
    ensures Flatten([s] + rest) == s + Flatten(rest)
  {
    assert ([s] + rest)[1..] == rest;
  }

  /** No value is lost, duplicated or invented by the partitions from `k` on:
      their batches hold exactly the values not yet taken. */
  lemma {:induction false} MergePartitionsTakes(chunks: seq<seq<u64>>, p: nat, k: nat, rs: seq<Reader>)
    requires p <= MAX_PART_EXP && k <= Count(p) && Valid(chunks, rs)
    requires k == Count(p) ==> forall i :: 0 <= i < |chunks| ==> Beyond(chunks[i], rs[i], MAX)
    ensures multiset(Flatten(MergePartitions(chunks, p, k, rs))) + TakenBag(chunks, rs, 0) == multiset(Flatten(chunks))
    decreases Count(p) - k, 1
  {
    if k == Count(p) {
      TakenBagDrained(chunks, rs, 0);
      assert chunks[0..] == chunks;
      assert |MergePartitions(chunks, p, k, rs)| == 0;
    } else {
      MergePartitionsTakesStep(chunks, p, k, rs);
    }
  }

  lemma {:induction false} MergePartitionsTakesStep(chunks: seq<seq<u64>>, p: nat, k: nat, rs: seq<Reader>)
    requires p <= MAX_PART_EXP && k < Count(p) && Valid(chunks, rs)
    ensures multiset(Flatten(MergePartitions(chunks, p, k, rs))) + TakenBag(chunks, rs, 0) == multiset(Flatten(chunks))
    decreases Count(p) - k, 0
  {
    var b := CollectPartition(chunks, rs, Ub(p, k), 0, []);
    CollectPartitionTakes(chunks, rs, Ub(p, k), 0, []);
    RangesTile(p);
    MergePartitionsTakes(chunks, p, k + 1, b.readers);
    var rest := MergePartitions(chunks, p, k + 1, b.readers);
    assert MergePartitions(chunks, p, k, rs) == [Sort(b.vec)] + rest;
    FlattenCons(Sort(b.vec), rest);
    assert multiset(Sort(b.vec) + Flatten(rest)) == multiset(b.vec) + multiset(Flatten(rest));
  }

  // ---- Ranges ----

  /** Every untaken value of chunks `j..` is at least `lo`. */
  ghost predicate PendingAtLeast(chunks: seq<seq<u64>>, rs: seq<Reader>, lo: int, j: nat)
    requires Valid(chunks, rs)
  {
    forall i, t :: j <= i < |chunks| && Taken(rs[i]) <= t < |chunks[i]| ==> lo <= chunks[i][t]
  }

  lemma VisitChunkPending(vec: seq<u64>, data: seq<u64>, s: Reader, lo: int, ub: u64)
    requires InPlace(data, s) && Sorted(data)
    requires forall t :: Taken(s) <= t < |data| ==> lo <= data[t]
    ensures var v := VisitChunk(vec, data, s, ub);
      && (forall k :: |vec| <= k < |v.vec| ==> lo <= v.vec[k])
      && (forall t :: Taken(v.reader) <= t < |data| ==> ub < data[t])
  {
    var v := VisitChunk(vec, data, s, ub);
    SliceAtLeast(vec, v.vec, data, Taken(s), Taken(v.reader), lo);
    BeyondAbove(data, v.reader, ub);
  }

  lemma SliceAtLeast(vec: seq<u64>, out: seq<u64>, data: seq<u64>, a: nat, e: nat, lo: int)
    requires a <= e <= |data| && out == vec + data[a..e]
    requires forall t :: a <= t < |data| ==> lo <= data[t]
    ensures forall k :: |vec| <= k < |out| ==> lo <= out[k]
  {
    forall k | |vec| <= k < |out|
      ensures lo <= out[k]
    {
      assert out[k] == data[a + (k - |vec|)];
    }
  }

  /** On a non-decreasing chunk, a reader past the bound `ub` leaves only
      values above `ub` untaken. */
  lemma BeyondAbove(data: seq<u64>, r: Reader, ub: u64)
    requires InPlace(data, r) && Sorted(data) && Beyond(data, r, ub)
    ensures forall t :: Taken(r) <= t < |data| ==> ub < data[t]
  {
    forall t | Taken(r) <= t < |data|
      ensures ub < data[t]
    {
      assert data[r.pos - 1] <= data[t];
    }
  }

  lemma {:induction false} CollectPartitionRange(chunks: seq<seq<u64>>, rs: seq<Reader>, lo: int, ub: u64, j: nat, vec: seq<u64>)
    requires Valid(chunks, rs) && j <= |chunks|
    requires forall i :: 0 <= i < |chunks| ==> Sorted(chunks[i])
    requires PendingAtLeast(chunks, rs, lo, j)
    requires forall k :: 0 <= k < |vec| ==> lo <= vec[k]
    ensures var b := CollectPartition(chunks, rs, ub, j, vec);
      && (forall k :: 0 <= k < |b.vec| ==> lo <= b.vec[k])
      && PendingAtLeast(chunks, b.readers, ub as int + 1, j)
    decreases |chunks| - j, 1
  {
    if j < |chunks| {
      CollectPartitionRangeStep(chunks, rs, lo, ub, j, vec);
    }
  }

  lemma {:induction false} CollectPartitionRangeStep(chunks: seq<seq<u64>>, rs: seq<Reader>, lo: int, ub: u64, j: nat, vec: seq<u64>)
    requires Valid(chunks, rs) && j < |chunks|
    requires forall i :: 0 <= i < |chunks| ==> Sorted(chunks[i])
    requires PendingAtLeast(chunks, rs, lo, j)
    requires forall k :: 0 <= k < |vec| ==> lo <= vec[k]
    ensures var b := CollectPartition(chunks, rs, ub, j, vec);
      && (forall k :: 0 <= k < |b.vec| ==> lo <= b.vec[k])
      && PendingAtLeast(chunks, b.readers, ub as int + 1, j)
    decreases |chunks| - j, 0
  {
    var v := VisitChunk(vec, chunks[j], rs[j], ub);
    var qs := rs[j := v.reader];
    VisitChunkPending(vec, chunks[j], rs[j], lo, ub);
    CollectPartitionRange(chunks, qs, lo, ub, j + 1, v.vec);
    var b := CollectPartition(chunks, qs, ub, j + 1, v.vec);
    assert b.readers[j] == b.readers[..j + 1][j] == v.reader;
  }

  /** With non-decreasing chunks, partition `k`'s batch lies within
      `[Lb(p, k), Ub(p, k)]`, and afterwards every cursor is `None` with its
      chunk exhausted or holds a value above `Ub(p, k)`, as does every value
      not yet taken. */
  lemma PartitionBatchInRange(chunks: seq<seq<u64>>, p: nat, k: nat, rs: seq<Reader>)
    requires p <= MAX_PART_EXP && k < Count(p) && Valid(chunks, rs)
    requires forall i :: 0 <= i < |chunks| ==> Sorted(chunks[i])
    requires PendingAtLeast(chunks, rs, Lb(p, k), 0)
    ensures var b := CollectPartition(chunks, rs, Ub(p, k), 0, []);
      && (forall t :: 0 <= t < |b.vec| ==> Lb(p, k) <= b.vec[t] <= Ub(p, k))
      && (forall i :: 0 <= i < |chunks| ==> Beyond(chunks[i], b.readers[i], Ub(p, k)))
      && PendingAtLeast(chunks, b.readers, Floor(p, k + 1), 0)
  {
    CollectPartitionRange(chunks, rs, Lb(p, k), Ub(p, k), 0, []);
  }

  lemma SortKeepsRange(v: seq<u64>, lo: int, hi: int)
    requires forall t :: 0 <= t < |v| ==> lo <= v[t] <= hi
    ensures forall t :: 0 <= t < |Sort(v)| ==> lo <= Sort(v)[t] <= hi
  {
    var s := Sort(v);
    forall t | 0 <= t < |s|
      ensures lo <= s[t] <= hi
    {
      assert s[t] in multiset(v);
    }
  }

  lemma SortedAppend(a: seq<u64>, b: seq<u64>, lo: int, m: int)
    requires Sorted(a) && Sorted(b) && lo <= m
    requires forall t :: 0 <= t < |a| ==> lo <= a[t] < m
    requires forall t :: 0 <= t < |b| ==> m <= b[t]
    ensures Sorted(a + b)
    ensures forall t :: 0 <= t < |a + b| ==> lo <= (a + b)[t]
  {
  }

  /** With non-decreasing chunks, partition `k`'s sorted batch lies in
      `[Floor(p, k), Floor(p, k + 1))` and leaves only values from
      `Floor(p, k + 1)` on pending. */
  lemma SortedBatchStep(chunks: seq<seq<u64>>, p: nat, k: nat, rs: seq<Reader>)
    requires p <= MAX_PART_EXP && k < Count(p) && Valid(chunks, rs)
    requires forall i :: 0 <= i < |chunks| ==> Sorted(chunks[i])
    requires PendingAtLeast(chunks, rs, Floor(p, k), 0)
    ensures var b := CollectPartition(chunks, rs, Ub(p, k), 0, []);
      && Sorted(Sort(b.vec))
      && (forall t :: 0 <= t < |Sort(b.vec)| ==> Floor(p, k) <= Sort(b.vec)[t] < Floor(p, k + 1))
      && PendingAtLeast(chunks, b.readers, Floor(p, k + 1), 0)
      && Floor(p, k) <= Floor(p, k + 1)
  {
    var b := CollectPartition(chunks, rs, Ub(p, k), 0, []);
    PartitionBatchInRange(chunks, p, k, rs);
    SortKeepsRange(b.vec, Lb(p, k), Ub(p, k));
    MulMonotone(k, k + 1, Width(p));
  }

  lemma SortedConsBatch(batch: seq<u64>, rest: seq<seq<u64>>, lo: int, m: int)
    requires Sorted(batch) && lo <= m
    requires forall t :: 0 <= t < |batch| ==> lo <= batch[t] < m
    requires Sorted(Flatten(rest)) && forall t :: 0 <= t < |Flatten(rest)| ==> m <= Flatten(rest)[t]
    ensures Sorted(Flatten([batch] + rest))
    ensures forall t :: 0 <= t < |Flatten([batch] + rest)| ==> lo <= Flatten([batch] + rest)[t]
  {
    FlattenCons(batch, rest);
    SortedAppend(batch, Flatten(rest), lo, m);
  }

  /** With non-decreasing chunks the batches of partitions `k..`, written one
      after another, form a non-decreasing sequence starting at `Floor(p, k)`. */
  lemma {:induction false} MergePartitionsSorted(chunks: seq<seq<u64>>, p: nat, k: nat, rs: seq<Reader>)
    requires p <= MAX_PART_EXP && k <= Count(p) && Valid(chunks, rs)
    requires forall i :: 0 <= i < |chunks| ==> Sorted(chunks[i])
    requires PendingAtLeast(chunks, rs, Floor(p, k), 0)
    ensures var out := Flatten(MergePartitions(chunks, p, k, rs));
      Sorted(out) && forall t :: 0 <= t < |out| ==> Floor(p, k) <= out[t]
    decreases Count(p) - k, 1
  {
    if k < Count(p) {
      MergePartitionsSortedStep(chunks, p, k, rs);
    } else {
      assert |MergePartitions(chunks, p, k, rs)| == 0;
    }
  }

  lemma {:induction false} MergePartitionsSortedStep(chunks: seq<seq<u64>>, p: nat, k: nat, rs: seq<Reader>)
    requires p <= MAX_PART_EXP && k < Count(p) && Valid(chunks, rs)
    requires forall i :: 0 <= i < |chunks| ==> Sorted(chunks[i])
    requires PendingAtLeast(chunks, rs, Floor(p, k), 0)
    ensures var out := Flatten(MergePartitions(chunks, p, k, rs));
      Sorted(out) && forall t :: 0 <= t < |out| ==> Floor(p, k) <= out[t]
    decreases Count(p) - k, 0
  {
    var b := CollectPartition(chunks, rs, Ub(p, k), 0, []);
    SortedBatchStep(chunks, p, k, rs);
    MergePartitionsSorted(chunks, p, k + 1, b.readers);
    var rest := MergePartitions(chunks, p, k + 1, b.readers);
    assert MergePartitions(chunks, p, k, rs) == [Sort(b.vec)] + rest;
    SortedConsBatch(Sort(b.vec), rest, Floor(p, k), Floor(p, k + 1));
  }

  // ---- End to end ----

  lemma InitialValid(chunks: seq<seq<u64>>)
    ensures Valid(chunks, Initial(|chunks|))
    ensures PendingAtLeast(chunks, Initial(|chunks|), 0, 0)
  {
  }

  /** For any chunks, sorted or not, result.txt holds the values of all
      chunks, each as often as it occurs in them, and reads back as those
      values. */
  lemma MergeChunksPermutation(chunks: seq<seq<u64>>, p: nat)
    requires p <= MAX_PART_EXP
    ensures MergeChunks(chunks, p) == Success(Encode(MergedValues(chunks, p)))
    ensures multiset(MergedValues(chunks, p)) == multiset(Flatten(chunks))
    ensures Tokenize(Encode(MergedValues(chunks, p))) == Some(MergedValues(chunks, p))
  {
    MergeChunksWrites(chunks, p);
    var rs := Initial(|chunks|);
    InitialValid(chunks);
    MergePartitionsTakes(chunks, p, 0, rs);
    TakenBagInitial(chunks, 0);
    TokenizeEncode(MergedValues(chunks, p));
  }

  /** result.txt, which starts empty, ends as the encoding of the batches'
      values in partition order. */
  lemma MergeChunksWrites(chunks: seq<seq<u64>>, p: nat)
    requires p <= MAX_PART_EXP
    ensures MergeChunks(chunks, p) == Success(Encode(MergedValues(chunks, p)))
  {
    var w := WriteAll([], MergePartitions(chunks, p, 0, Initial(|chunks|)));
    assert w == [] + Encode(MergedValues(chunks, p));
    assert [] + Encode(MergedValues(chunks, p)) == Encode(MergedValues(chunks, p));
  }

  /** With non-decreasing chunks, result.txt is the sorted union of all chunks:
      non-decreasing (what the source's `validate_result` checks) and a
      permutation of the input values. */
  lemma MergeChunksSortsInput(chunks: seq<seq<u64>>, p: nat)
    requires p <= MAX_PART_EXP
    requires forall i :: 0 <= i < |chunks| ==> Sorted(chunks[i])
    ensures MergeChunks(chunks, p) == Success(Encode(Sort(Flatten(chunks))))
    ensures Sorted(MergedValues(chunks, p))
  {
    InitialValid(chunks);
    MergeChunksPermutation(chunks, p);
    MergePartitionsSorted(chunks, p, 0, Initial(|chunks|));
    SortedUnique(MergedValues(chunks, p), Sort(Flatten(chunks)));
  }

  /** The number of partitions affects only memory use, not the result. */
  lemma MergeIndependentOfPartExp(chunks: seq<seq<u64>>, p: nat, q: nat)
    requires p <= MAX_PART_EXP && q <= MAX_PART_EXP
    requires forall i :: 0 <= i < |chunks| ==> Sorted(chunks[i])
    ensures MergeChunks(chunks, p) == MergeChunks(chunks, q)
  {
    MergeChunksSortsInput(chunks, p);
    MergeChunksSortsInput(chunks, q);
  }

  lemma FlattenExample()
    ensures Flatten([[1, 5, 9], [2, 2, 8], []]) == [1, 5, 9, 2, 2, 8]
  {
    FlattenCons([], []);
    FlattenCons([2, 2, 8], [[]]);
    FlattenCons([1, 5, 9], [[2, 2, 8], []]);
    assert [[1, 5, 9], [2, 2, 8], []] == [[1, 5, 9]] + [[2, 2, 8], []];
    assert [[2, 2, 8], []] == [[2, 2, 8]] + [[]];
  }

  lemma ExampleOrdered()
    ensures Sorted([1, 2, 2, 5, 8, 9])
  {
  }

  lemma ExampleSameValues()
    ensures multiset([1, 5, 9, 2, 2, 8]) == multiset([1, 2, 2, 5, 8, 9])
  {
  }

  lemma SortExample()
    ensures Sort([1, 5, 9, 2, 2, 8]) == [1, 2, 2, 5, 8, 9]
  {
    ExampleOrdered();
    ExampleSameValues();
    SortedUnique(Sort([1, 5, 9, 2, 2, 8]), [1, 2, 2, 5, 8, 9]);
  }

  /** Three chunks `[1, 5, 9]`, `[2, 2, 8]` and an empty one, in two
      partitions, give `1 2 2 5 8 9 `. */
  lemma ThreeChunkExample()
    ensures MergeChunks([[1, 5, 9], [2, 2, 8], []], 1) == Success(Encode([1, 2, 2, 5, 8, 9]))
  {
    var chunks: seq<seq<u64>> := [[1, 5, 9], [2, 2, 8], []];
    assert forall i :: 0 <= i < |chunks| ==> Sorted(chunks[i]);
    MergeChunksSortsInput(chunks, 1);
    FlattenExample();
    SortExample();
  }

  /** With no chunks, result.txt is left empty. */
  lemma NoChunksEmptyResult(p: nat)
    requires p <= MAX_PART_EXP
    ensures MergeChunks([], p) == Success([])
  {
    MergeChunksSortsInput([], p);
  }
}
