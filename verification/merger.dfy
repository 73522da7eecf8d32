/** `merge_chunks` (src/merger/mod.rs, lines 9-45): the streaming
    range-partition merge. For every partition in increasing order it visits
    every chunk, collects the chunk's values that fall at or below the
    partition's upper bound (keeping one lookahead cursor per chunk across
    partitions), sorts the batch and appends it to result.txt.

    Chunks are given as their value sequences; `ChunkReader` relates reading
    a value sequence to reading the file that holds it. */
module Merger {
  import opened U64
  import opened Wrappers
  import opened Sorter
  import opened Partition
  import opened Tokens
  import opened ChunkReader

  /** One chunk's reader position together with its lookahead cursor (its
      entry of `rem`, line 24). */
  datatype Reader = Reader(pos: nat, cursor: Option<u64>)

  /** How many values of a chunk have already gone into some batch: the
      tokens read, less the one held as cursor. */
  function Taken(r: Reader): int
  {
    r.pos - |AsSeq(r.cursor)|
  }

  /** The reader lies within its chunk, and a held cursor is the token read
      just before the reader's position. */
  ghost predicate InPlace(data: seq<u64>, r: Reader)
  {
    r.pos <= |data| && (r.cursor.Some? ==> 1 <= r.pos && data[r.pos - 1] == r.cursor.value)
  }

  ghost predicate Valid(chunks: seq<seq<u64>>, rs: seq<Reader>)
  {
    |rs| == |chunks| && forall j :: 0 <= j < |chunks| ==> InPlace(chunks[j], rs[j])
  }

  /** After the partition with upper bound `ub`: the cursor is `None` with
      the chunk exhausted, or holds a value above `ub`. */
  ghost predicate Beyond(data: seq<u64>, r: Reader, ub: int)
  {
    && (r.cursor.None? ==> r.pos == |data|)
    && (r.cursor.Some? ==> ub < r.cursor.value)
  }

  /** Before the first partition every reader is at the start of its chunk and
      every cursor is `None` (line 24). */
  function Initial(n: nat): (rs: seq<Reader>)
    ensures |rs| == n && forall j :: 0 <= j < n ==> rs[j] == Reader(0, None)
  {
    seq(n, _ => Reader(0, None))
  }

  datatype Visit = Visit(vec: seq<u64>, reader: Reader)

  /** One iteration of the chunk loop (lines 33-38). */
  function VisitChunk(vec: seq<u64>, data: seq<u64>, s: Reader, ub: u64): (v: Visit)
    requires InPlace(data, s)
    // a held value above the bound: the chunk is skipped (`continue`)
    ensures s.cursor.Some? && ub < s.cursor.value ==> v == Visit(vec, s)
    // an exhausted chunk yields nothing and its cursor stays `None`
    ensures s == Reader(|data|, None) ==> v == Visit(vec, s)
    ensures InPlace(data, v.reader)
    // what it adds to the batch is the chunk's next untaken values, all at most `ub`
    ensures Taken(s) <= Taken(v.reader)
    ensures v.vec == vec + data[Taken(s)..Taken(v.reader)]
    ensures forall k :: |vec| <= k < |v.vec| ==> v.vec[k] <= ub
    ensures Beyond(data, v.reader, ub)
  {
    if s.cursor.Some? && ub < s.cursor.value then Visit(vec, s)
    else
      // a held value (at most `ub`) is pushed first; then `read_chunk`
      ResumeRead(vec, data, s, ub);
      var r := ReadChunk(vec + AsSeq(s.cursor), data, s.pos, ub);
      Visit(r.vec, Reader(r.pos, r.cursor))
  }

  /** Pushing the held value, if any, and reading on appends the chunk's next
      untaken values. */
  lemma ResumeRead(vec: seq<u64>, data: seq<u64>, s: Reader, ub: u64)
    requires InPlace(data, s)
    requires s.cursor.Some? ==> s.cursor.value <= ub
    ensures var r := ReadChunk(vec + AsSeq(s.cursor), data, s.pos, ub);
      && Taken(s) <= Taken(Reader(r.pos, r.cursor))
      && r.vec == vec + data[Taken(s)..Taken(Reader(r.pos, r.cursor))]
      && (forall k :: |vec| <= k < |r.vec| ==> r.vec[k] <= ub)
  {
    if s.cursor.Some? {
      ResumeHeld(vec, data, s, ub);
    } else {
      ResumeFresh(vec, data, s, ub);
    }
  }

  lemma ResumeFresh(vec: seq<u64>, data: seq<u64>, s: Reader, ub: u64)
    requires InPlace(data, s) && s.cursor.None?
    ensures var r := ReadChunk(vec + AsSeq(s.cursor), data, s.pos, ub);
      && Taken(s) <= Taken(Reader(r.pos, r.cursor))
      && r.vec == vec + data[Taken(s)..Taken(Reader(r.pos, r.cursor))]
      && (forall k :: |vec| <= k < |r.vec| ==> r.vec[k] <= ub)
  {
    assert vec + AsSeq(s.cursor) == vec;
    assert Taken(s) == s.pos;
  }

  lemma ResumeHeld(vec: seq<u64>, data: seq<u64>, s: Reader, ub: u64)
    requires InPlace(data, s) && s.cursor.Some? && s.cursor.value <= ub
    ensures var r := ReadChunk(vec + AsSeq(s.cursor), data, s.pos, ub);
      && Taken(s) <= Taken(Reader(r.pos, r.cursor))
      && r.vec == vec + data[Taken(s)..Taken(Reader(r.pos, r.cursor))]
      && (forall k :: |vec| <= k < |r.vec| ==> r.vec[k] <= ub)
  {
    assert vec + AsSeq(s.cursor) == vec + [data[s.pos - 1]];
    assert Taken(s) == s.pos - 1;
    HeldThenRead(vec, data, s.pos, ub);
  }

  lemma HeldThenRead(vec: seq<u64>, data: seq<u64>, pos: nat, ub: u64)
    requires 1 <= pos <= |data| && data[pos - 1] <= ub
    ensures var r := ReadChunk(vec + [data[pos - 1]], data, pos, ub);
      && pos <= r.pos - |AsSeq(r.cursor)|
      && r.vec == vec + data[pos - 1..r.pos - |AsSeq(r.cursor)|]
      && forall k :: |vec| <= k < |r.vec| ==> r.vec[k] <= ub
  {
    var r := ReadChunk(vec + [data[pos - 1]], data, pos, ub);
    var e := r.pos - |AsSeq(r.cursor)|;
    assert pos <= e;
    assert r.vec == (vec + [data[pos - 1]]) + data[pos..e];
    assert data[pos - 1..e] == [data[pos - 1]] + data[pos..e];
    assert r.vec == vec + data[pos - 1..e];
    AppendedAtMost(vec, r.vec, data, pos - 1, e, ub);
  }

  /** `vec` followed by a slice of values that are at most `ub`. */
  lemma AppendedAtMost(vec: seq<u64>, out: seq<u64>, data: seq<u64>, a: nat, e: nat, ub: u64)
    requires a <= e <= |data| && out == vec + data[a..e]
    requires a == e || data[a] <= ub
    requires forall t :: a < t < e ==> data[t] <= ub
    ensures forall k :: |vec| <= k < |out| ==> out[k] <= ub
  {
    forall k | |vec| <= k < |out|
      ensures out[k] <= ub
    {
      assert out[k] == data[a + (k - |vec|)];
    }
  }

  datatype Batch = Batch(vec: seq<u64>, readers: seq<Reader>)

  /** The chunk loop from chunk `j` on (lines 32-39), collecting into `vec`
      the values of the partition whose upper bound is `ub`. */
  function CollectPartition(chunks: seq<seq<u64>>, rs: seq<Reader>, ub: u64, j: nat, vec: seq<u64>): (b: Batch)
    requires Valid(chunks, rs) && j <= |chunks|
    ensures Valid(chunks, b.readers)
    ensures b.readers[..j] == rs[..j]
    ensures |vec| <= |b.vec| && b.vec[..|vec|] == vec
    ensures forall k :: |vec| <= k < |b.vec| ==> b.vec[k] <= ub
    ensures forall i :: j <= i < |chunks| ==> Beyond(chunks[i], b.readers[i], ub)
    decreases |chunks| - j
  {
    if j == |chunks| then Batch(vec, rs)
    else
      var v := VisitChunk(vec, chunks[j], rs[j], ub);
      var b := CollectPartition(chunks, rs[j := v.reader], ub, j + 1, v.vec);
      assert b.readers[..j] == b.readers[..j + 1][..j];
      assert b.vec[..|vec|] == b.vec[..|v.vec|][..|vec|];
      b
  }

  /** The partition loop from partition `k` on (lines 26-42): the sorted batch
      of every remaining partition, in partition order. */
  function MergePartitions(chunks: seq<seq<u64>>, p: nat, k: nat, rs: seq<Reader>): (batches: seq<seq<u64>>)
    requires p <= MAX_PART_EXP && k <= Count(p) && Valid(chunks, rs)
    // one batch per remaining partition, each sorted before it is written
    ensures |batches| == Count(p) - k
    ensures forall i :: 0 <= i < |batches| ==> Sorted(batches[i])
    decreases Count(p) - k
  {
    if k == Count(p) then []
    else
      var b := CollectPartition(chunks, rs, Ub(p, k), 0, []);
      [Sort(b.vec)] + MergePartitions(chunks, p, k + 1, b.readers)
  }

  function Flatten(ss: seq<seq<u64>>): seq<u64>
  {
    if |ss| == 0 then [] else ss[0] + Flatten(ss[1..])
  }

  /** `write_result` (lines 69-83): appends every value of the batch, in
      order, to result.txt. */
  function WriteResult(file: seq<byte>, vec: seq<u64>): (r: seq<byte>)
    // the file is opened for appending: what it held stays in front
    ensures |file| <= |r| && r[..|file|] == file
    // what it appends reads back as exactly the batch
    ensures Tokenize(r[|file|..]) == Some(vec)
  {
    TokenizeEncode(vec);
    assert (file + Encode(vec))[|file|..] == Encode(vec);
    file + Encode(vec)
  }

  /** One `write_result` call per batch, in order: the file's old bytes
      followed by the encoding of all batches, one after another. */
  function WriteAll(file: seq<byte>, batches: seq<seq<u64>>): (r: seq<byte>)
    ensures r == file + Encode(Flatten(batches))
    decreases |batches|
  {
    if |batches| == 0 then
      assert file + Encode(Flatten(batches)) == file + [];
      file
    else
      WriteAllStep(file, batches);
      WriteAll(WriteResult(file, batches[0]), batches[1..])
  }

  lemma WriteAllStep(file: seq<byte>, batches: seq<seq<u64>>)
    requires |batches| > 0
    ensures WriteResult(file, batches[0]) + Encode(Flatten(batches[1..])) == file + Encode(Flatten(batches))
  {
    var b0, rest := batches[0], Flatten(batches[1..]);
    assert Flatten(batches) == b0 + rest;
    EncodeAppend(b0, rest);
    calc {
      WriteResult(file, b0) + Encode(rest);
      (file + Encode(b0)) + Encode(rest);
      file + (Encode(b0) + Encode(rest));
    }
  }

  /** The values `merge_chunks` writes, partition by partition. */
  function MergedValues(chunks: seq<seq<u64>>, p: nat): seq<u64>
    requires p <= MAX_PART_EXP
  {
    Flatten(MergePartitions(chunks, p, 0, Initial(|chunks|)))
  }

  /** `merge_chunks`: the contents of result.txt, which starts empty (lines
      14-16), or the argument error. The partition bounds are the exact ones
      of `Partition`; `Partition.SourceBoundsExact` shows where they agree
      with the source's u64 arithmetic. */
  function MergeChunks(chunks: seq<seq<u64>>, p: nat): (r: Result<seq<byte>, ArgError>)
    ensures r.Failure? <==> p > MAX_PART_EXP
    ensures r.Failure? ==> r.error == InvalidPartExp
  {
    match CheckPartExp(p)
    case Failure(e) => Failure(e)
    case Success(_) => Success(WriteAll([], MergePartitions(chunks, p, 0, Initial(|chunks|))))
  }
}
