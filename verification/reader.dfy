/** `read_chunk` (src/merger/mod.rs, lines 47-67): append to `vec` every
    further value of one chunk while it is at most `ub`, and return the first
    value above `ub` as the new lookahead cursor, or `None` at the end of the
    stream.

    `ReadChunk` works on a chunk as its sequence of values plus a read
    position; `ReadChunkBytes` works on the unread bytes of the chunk file
    with the tokeniser of `Tokens`. `ReadChunkBytesFollowsTokens` shows they
    agree on every file whose tokens parse, and `ReadChunkBytesRefines` that
    on a file in the value-plus-space format the bytes left unread are again
    in that format. */
module ChunkReader {
  import opened U64
  import opened Wrappers
  import opened Tokens

  datatype Read = Read(vec: seq<u64>, pos: nat, cursor: Option<u64>)

  /** Token-level `read_chunk` on chunk `data` whose next unread value is at
      `pos`. */
  function ReadChunk(vec: seq<u64>, data: seq<u64>, pos: nat, ub: u64): (r: Read)
    requires pos <= |data|
    ensures pos <= r.pos <= |data|
    // it returns the last token it consumed, which is the first above `ub`,
    // or `None` once the chunk is exhausted
    ensures r.cursor.Some? ==> pos < r.pos && data[r.pos - 1] == r.cursor.value && ub < r.cursor.value
    ensures r.cursor.None? ==> r.pos == |data|
    // only appends, and what it appends is the chunk's values read, minus the
    // one returned as cursor, in stream order
    ensures r.vec == vec + data[pos..r.pos - |AsSeq(r.cursor)|]
    ensures forall k :: pos <= k < r.pos - |AsSeq(r.cursor)| ==> data[k] <= ub
    decreases |data| - pos
  {
    if pos == |data| then Read(vec, pos, None)
    else if data[pos] <= ub then
      var r := ReadChunk(vec + [data[pos]], data, pos + 1, ub);
      assert data[pos..r.pos - |AsSeq(r.cursor)|] == [data[pos]] + data[pos + 1..r.pos - |AsSeq(r.cursor)|];
      r
    else Read(vec, pos + 1, Some(data[pos]))
  }

  /** On a non-decreasing chunk the values `read_chunk` pushes are exactly
      those of the unread ones that are at most `ub`, so it never stops early. */
  lemma {:induction false} ReadChunkTakesAllAtMost(vec: seq<u64>, data: seq<u64>, pos: nat, ub: u64)
    requires pos <= |data|
    requires forall i, j :: 0 <= i < j < |data| ==> data[i] <= data[j]
    ensures var r := ReadChunk(vec, data, pos, ub);
      forall k :: r.pos <= k < |data| ==> ub < data[k]
    decreases |data| - pos
  {
    if pos < |data| && data[pos] <= ub {
      ReadChunkTakesAllAtMost(vec + [data[pos]], data, pos + 1, ub);
    }
  }

  datatype ByteRead = ByteRead(vec: seq<u64>, rest: seq<byte>, cursor: Option<u64>)

  /** Byte-level `read_chunk` on the unread bytes `rest` of a chunk file;
      `None` when a token fails to parse and the run panics. */
  function ReadChunkBytes(vec: seq<u64>, rest: seq<byte>, ub: u64): (r: Option<ByteRead>)
    ensures r.Some? ==> |vec| <= |r.value.vec| && r.value.vec[..|vec|] == vec
    ensures r.Some? ==> forall k :: |vec| <= k < |r.value.vec| ==> r.value.vec[k] <= ub
    ensures r.Some? && r.value.cursor.Some? ==> ub < r.value.cursor.value
    ensures r.Some? && r.value.cursor.None? ==> r.value.rest == []
    decreases |rest|
  {
    match NextToken(rest)
    case End => Some(ByteRead(vec, rest, None))
    case Malformed => None
    case Parsed(v, after) =>
      if v <= ub then
        var r := ReadChunkBytes(vec + [v], after, ub);
        if r.Some? then
          PushedAtMost(vec, v, r.value.vec, ub);
          r
        else r
      else Some(ByteRead(vec, after, Some(v)))
  }

  /** A value at most `ub` pushed in front of values at most `ub`. */
  lemma PushedAtMost(vec: seq<u64>, v: u64, out: seq<u64>, ub: u64)
    requires v <= ub && |vec| + 1 <= |out| && out[..|vec| + 1] == vec + [v]
    requires forall k :: |vec| + 1 <= k < |out| ==> out[k] <= ub
    ensures |vec| <= |out| && out[..|vec|] == vec
    ensures forall k :: |vec| <= k < |out| ==> out[k] <= ub
  {
    assert out[..|vec|] == out[..|vec| + 1][..|vec|];
    assert out[|vec|] == out[..|vec| + 1][|vec|];
  }

  /** Reading a chunk file in the value-plus-space format from the start of
      its `pos`-th token does what the token-level reader does, and leaves the
      file positioned at the start of the token the token-level reader stops
      after. */
  lemma {:induction false} ReadChunkBytesRefines(vec: seq<u64>, data: seq<u64>, pos: nat, ub: u64)
    requires pos <= |data|
    ensures var r := ReadChunk(vec, data, pos, ub);
      ReadChunkBytes(vec, Encode(data[pos..]), ub) == Some(ByteRead(r.vec, Encode(data[r.pos..]), r.cursor))
    decreases |data| - pos
  {
    if pos < |data| {
      var d := data[pos..];
      assert d[0] == data[pos] && d[1..] == data[pos + 1..];
      EncodeHead(d);
      NextTokenOfEncoded(data[pos], Encode(data[pos + 1..]));
      if data[pos] <= ub {
        ReadChunkBytesRefines(vec + [data[pos]], data, pos + 1, ub);
      }
    } else {
      assert data[pos..] == [];
    }
  }

  /** Reading any chunk file whose tokens all parse, canonical or not (leading
      zeros, a `+` sign, an unterminated last token), does what the
      token-level reader does on the values `Tokenize` reads from it: the same
      values appended in stream order, the same cursor, and the unread bytes
      hold exactly the unread values. */
  lemma {:induction false} ReadChunkBytesFollowsTokens(vec: seq<u64>, bytes: seq<byte>, data: seq<u64>, pos: nat, ub: u64)
    requires pos <= |data| && Tokenize(bytes) == Some(data[pos..])
    ensures var r := ReadChunk(vec, data, pos, ub);
      var b := ReadChunkBytes(vec, bytes, ub);
      b.Some? && b.value.vec == r.vec && b.value.cursor == r.cursor && Tokenize(b.value.rest) == Some(data[r.pos..])
    decreases |bytes|, 1
  {
    match NextToken(bytes)
    case End =>
      assert data[pos..] == [];
    case Malformed =>
      assert false;
    case Parsed(v, after) =>
      TokenizeParsed(bytes, v, after, data, pos);
      if v <= ub {
        ReadChunkBytesFollowsTokensStep(vec, bytes, data, pos, ub);
      }
  }

  lemma {:induction false} ReadChunkBytesFollowsTokensStep(vec: seq<u64>, bytes: seq<byte>, data: seq<u64>, pos: nat, ub: u64)
    requires pos < |data| && data[pos] <= ub
    requires NextToken(bytes).Parsed? && NextToken(bytes).value == data[pos]
    requires Tokenize(NextToken(bytes).rest) == Some(data[pos + 1..])
    ensures var r := ReadChunk(vec, data, pos, ub);
      var b := ReadChunkBytes(vec, bytes, ub);
      b.Some? && b.value.vec == r.vec && b.value.cursor == r.cursor && Tokenize(b.value.rest) == Some(data[r.pos..])
    decreases |bytes|, 0
  {
    ReadChunkBytesFollowsTokens(vec + [data[pos]], NextToken(bytes).rest, data, pos + 1, ub);
  }

  /** A parsed token at the head of a stream that tokenises to `data[pos..]`
      is `data[pos]`, and the rest of the stream tokenises to the rest. */
  lemma TokenizeParsed(bytes: seq<byte>, v: u64, after: seq<byte>, data: seq<u64>, pos: nat)
    requires NextToken(bytes) == Parsed(v, after)
    requires pos <= |data| && Tokenize(bytes) == Some(data[pos..])
    ensures pos < |data| && data[pos] == v && Tokenize(after) == Some(data[pos + 1..])
  {
    var vs := Tokenize(after).value;
    assert [v] + vs == data[pos..];
    assert data[pos..][0] == data[pos] && data[pos..][1..] == data[pos + 1..];
  }

  /** Reading a whole chunk file with bound 2^64 - 1 returns every value
      written to it and leaves it exhausted. */
  lemma ReadWholeChunk(data: seq<u64>)
    ensures ReadChunkBytes([], Encode(data), MAX) == Some(ByteRead(data, [], None))
  {
    var r := ReadChunk([], data, 0, MAX);
    assert r.cursor.None? && r.pos == |data|;
    assert r.vec == data by {
      assert r.vec == [] + data[0..|data|];
      assert data[0..|data|] == data;
    }
    assert data[0..] == data && data[r.pos..] == [];
    ReadChunkBytesRefines([], data, 0, MAX);
  }
}
