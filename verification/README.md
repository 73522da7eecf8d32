# merging-chunks: the streaming range-partition merge, in Dafny

`merging-chunks` merges `chunk_num` files `0.in`, `1.in`, … into one
`result.txt`. Each chunk holds u64 values written as decimal followed by one
space. `merge_chunks(chunk_num, part_exp)` works like this:
- it splits the u64 key domain into `2^part_exp` equal, contiguous ranges;
- it walks the ranges in increasing order;
- for every range it visits every chunk, and pulls that chunk's values that
  are at or below the range's upper bound into a batch;
- it keeps, per chunk, one lookahead value (`rem[j]`): the first value read
  that was too large for the current range;
- it sorts the batch and appends it to `result.txt`.

With non-decreasing chunks, the file then holds the sorted union of all
chunks.

The project models that merge and proves its properties. It has eight modules:

| module | file | what it holds |
|---|---|---|
| `U64` | `u64.dfy` | The u64 type, powers of two, and the debug-build checked shift, add, subtract and multiply (a panic is `Overflow`). |
| `Wrappers` | `wrappers.dfy` | `Option` and `Result`. |
| `Partition` | `partition.dfy` | The argument check; the exact partition bounds `Lb`/`Ub`; the bounds as the source computes them in u64 arithmetic (`SourceRange`). |
| `Sorter` | `sorter.dfy` | The contract of `sorter::sort`, backed by an insertion sort, and the fact that a sorted permutation is unique. |
| `Tokens` | `tokens.dfy` | The byte format: `write!("{} ")` on the writing side; `read_until(b' ')`, `pop`, `from_utf8` and `parse` on the reading side. |
| `ChunkReader` | `reader.dfy` | `read_chunk`, once over a chunk's value sequence and once over its bytes, with a lemma that the two agree. |
| `Merger` | `merger.dfy` | The lookahead readers, one chunk visit, the chunk loop, the partition loop, `write_result`, and `merge_chunks`. |
| `MergeCorrectness` | `merge_correctness.dfy` | Value preservation, batch ranges, sortedness of the output, and a worked example. |

A chunk reader is its position in the chunk's value sequence plus its
lookahead cursor. `Taken(r)` is the number of the chunk's values already
placed in some batch: the tokens read, less the one held as cursor.

## Model

| member | source | states |
|---|---|---|
| Partition.CheckPartExp | src/merger/mod.rs:10-12 | The call fails with the error `invalid part_exp` (`ErrorKind::Other`, modelled as `InvalidPartExp`) exactly when `part_exp > 64`, before any other work. |
| Partition.RangesTile | src/merger/mod.rs:26-28 | For every exponent 0..64, the ranges tile the u64 domain: the first starts at 0, each starts one past the previous one's end, the last ends at 2^64 - 1, and each holds 2^(64-p) keys. |
| Partition.InRangeIffPartitionOf | src/merger/mod.rs:26-28 | A key lies in range `i` exactly when its top `p` bits are `i`, so every key lies in exactly one range. |
| Partition.SourceBoundsExact | src/merger/mod.rs:26-28 | For 1 <= p <= 63 the source's u64 expressions neither underflow nor overflow (including the `i == 0` branch and the `lb - 1 + w` order), and they yield exactly `Count`, `Lb` and `Ub`. |
| U64.Shl | src/merger/mod.rs:26-28 | `1u64 << s` panics in a debug build exactly when `s >= 64`; below that, when no set bit is shifted out, it is `x * 2^s`. |
| U64.Mul | src/merger/mod.rs:27 | `*` on u64 panics exactly when the product reaches 2^64, and is otherwise the product. |
| U64.Sub | src/merger/mod.rs:28 | `-` on u64 panics exactly when the difference would be negative, and is otherwise the difference. |
| U64.Add | src/merger/mod.rs:28 | `+` on u64 panics exactly when the sum reaches 2^64, and is otherwise the sum. |
| Partition.SourceCount | src/merger/mod.rs:26 | The loop bound `1u64 << part_exp` panics exactly at `part_exp = 64`, and is otherwise the number of partitions `2^part_exp`. |
| Partition.SourceRange | src/merger/mod.rs:27-28 | The bounds of partition `i`, in checked u64 arithmetic, panic exactly when `part_exp = 0` or when the range would end past 2^64 - 1. Otherwise they are the `i`-th block of `2^(64 - part_exp)` keys: `lb = i * w`, `ub = (i + 1) * w - 1`. |
| Partition.EdgeExponentsOverflow | src/merger/mod.rs:10-28 | Exponents 0 and 64 pass the argument check, yet the source then shifts a u64 by 64. At p = 64 the loop bound overflows; at p = 0 the first range's width overflows. |
| Sorter.Sort | src/merger/sorter.rs:6-8 | The output is non-decreasing, a permutation of the input, and of the same length, so the empty vector stays empty. |
| Sorter.SortedUnique | src/merger/sorter.rs:36-39 | Two non-decreasing sequences with the same multiset are equal, so any correct sort returns what the test's reference sort returns. |
| Tokens.Decimal | src/merger/mod.rs:78-80 | The decimal form of a value is a non-empty string of digits, without a leading zero, that denotes the value. |
| Tokens.ParseU64 | src/merger/mod.rs:57 | `from_utf8(..).unwrap().parse::<u64>()` accepts only decimal digits after an optional `+`, leading zeros included. It rejects the empty token, a lone `+`, a leading `-` and any value of 2^64 or more. Accepted digits parse to the value they denote. |
| Tokens.Encode | src/merger/mod.rs:78-80 | The bytes written for a vector are empty exactly when the vector is; otherwise they are only digits and spaces, end in a space, and take at least two bytes per value. |
| Tokens.Tokenize | src/merger/mod.rs:48-64 | The read loop over a whole stream: an empty stream gives no values; a non-empty stream that parses gives at least one; every value takes at least two bytes. |
| Tokens.ReadUntilSpace | src/merger/mod.rs:50 | `read_until(b' ')` splits the unread bytes into what it reads and what stays unread. It reads nothing only at end of stream. It stops at the first space, which it includes, or at end of stream. |
| Tokens.NextToken | src/merger/mod.rs:50-57 | One tokenising step reports end of stream exactly when no bytes are left. Otherwise it consumes a prefix of the stream, and a parsed token consumes at least two bytes: a digit and the byte `pop` drops. |
| Tokens.TokenizeEncode | src/merger/mod.rs:50-57 | Tokenising what `write_result` writes gives back the values written, in order. |
| Tokens.EncodeAppend | src/merger/mod.rs:78-80 | Writing two vectors one after the other gives the bytes of their concatenation. |
| Tokens.UnterminatedTokenLosesDigit | src/merger/mod.rs:56 | A final token that ends in a digit, with no delimiter after it, loses that digit to `pop`: one digit becomes a parse failure, more digits parse as the value divided by ten. |
| Tokens.FinalByteDropped | src/merger/mod.rs:50-57 | When the stream ends without a space, `pop` drops its final byte, whatever it is: the token is what comes before that byte. So a chunk ending in `3` followed by a newline reads `3` intact. |
| Tokens.EmptyTokenIsMalformed | src/merger/mod.rs:50-57 | A space directly after a space gives an empty token, which fails to parse; it is not skipped. |
| ChunkReader.ReadChunk | src/merger/mod.rs:47-67 | `read_chunk` leaves `vec` in place and appends, in stream order, the values it consumes that are at most `ub`. It returns the first value above `ub` (having consumed it), or `None` with the chunk exhausted. |
| ChunkReader.ReadChunkTakesAllAtMost | src/merger/mod.rs:47-67 | On a non-decreasing chunk, every value left unread after `read_chunk` is above `ub`. |
| ChunkReader.ReadChunkBytes | src/merger/mod.rs:47-67 | On the chunk's bytes, `read_chunk` keeps `vec`'s prefix and appends only values at most `ub`. A returned cursor is above `ub`; `None` means the stream is used up. Which values it appends is pinned by `ReadChunkBytesFollowsTokens`. |
| ChunkReader.ReadChunkBytesFollowsTokens | src/merger/mod.rs:47-67 | On any stream whose tokens all parse, canonical or not, the byte-level `read_chunk` appends the stream's tokens in order while they are at most `ub`. Its cursor is the first token above `ub`, and the bytes left unread hold exactly the remaining tokens. |
| ChunkReader.ReadChunkBytesRefines | src/merger/mod.rs:47-67 | Reading the bytes of a chunk's values gives the same vector and cursor as reading the values, and leaves the bytes of the unread values. |
| ChunkReader.ReadWholeChunk | src/merger/mod.rs:47-67 | With the bound 2^64 - 1, `read_chunk` reads a whole well-formed chunk file back as its values and returns `None`. |
| Merger.VisitChunk | src/merger/mod.rs:32-38 | A held cursor above `ub` skips the chunk and leaves it unchanged; an exhausted chunk yields nothing and stays exhausted. Otherwise the batch grows by exactly the chunk's next untaken values, all at most `ub`. Afterwards the cursor is `None` with the chunk exhausted, or above `ub`. |
| Merger.CollectPartition | src/merger/mod.rs:32-39 | The chunk loop keeps every reader in place and leaves the readers of chunks already visited unchanged. It only appends values at most `ub`, and leaves every visited chunk past `ub`. |
| Merger.Initial | src/merger/mod.rs:18-24 | Before the first partition there is one reader per chunk, each at the start of its file, and every `rem` entry is `None`. |
| Merger.MergePartitions | src/merger/mod.rs:26-42 | The partition loop yields one batch per remaining partition, in partition order, each sorted before it is written. What the batches hold: `MergeCorrectness.MergePartitionsTakes` and `MergeCorrectness.PartitionBatchInRange`. |
| Merger.WriteResult | src/merger/mod.rs:69-83 | `write_result` appends: what `result.txt` held stays in front, and what it appends reads back as exactly the batch. |
| Merger.WriteAll | src/merger/mod.rs:40-41 | The successive `write_result` calls leave the file's old bytes followed by the encoding of all batches, one after another. |
| Merger.MergeChunks | src/merger/mod.rs:9-45 | `merge_chunks` fails exactly when `part_exp > 64`, and then with the error `invalid part_exp` (`InvalidPartExp`). |
| MergeCorrectness.CollectPartitionTakes | src/merger/mod.rs:32-39 | The chunk loop moves values from the chunks into the batch: the batch grows by exactly the multiset of values it marks as taken. |
| MergeCorrectness.MergePartitionsTakes | src/merger/mod.rs:26-42 | The remaining partitions' batches hold exactly the values not yet taken, each as often as it occurs. |
| MergeCorrectness.PartitionBatchInRange | src/merger/mod.rs:32-39 | With non-decreasing chunks, partition `k`'s batch lies in `[Lb(p, k), Ub(p, k)]`. Afterwards every cursor is `None` with its chunk exhausted, or above `Ub(p, k)`, and so is every value not yet taken. |
| MergeCorrectness.MergePartitionsSorted | src/merger/mod.rs:26-42 | With non-decreasing chunks, the sorted batches of the remaining partitions, written one after another, are non-decreasing and start at the current partition's lower bound. |
| MergeCorrectness.MergeChunksWrites | src/merger/mod.rs:14-16 | `result.txt` starts empty, so it ends as the encoding of the batches' values in partition order. |
| MergeCorrectness.MergeChunksPermutation | src/merger/mod.rs:26-42 | For any chunks, sorted or not, `result.txt` holds every input value exactly as often as the chunks do, and reads back as those values. |
| MergeCorrectness.MergeChunksSortsInput | src/merger/mod.rs:137-161 | With non-decreasing chunks, `result.txt` is the encoding of the sorted union of all chunks, so the check in `validate_result` passes. |
| MergeCorrectness.MergeIndependentOfPartExp | src/merger/mod.rs:9-45 | With non-decreasing chunks, the number of partitions does not change `result.txt`. |
| MergeCorrectness.ThreeChunkExample | src/merger/mod.rs:9-45 | Chunks `1 5 9 `, `2 2 8 ` and an empty one, in two partitions, give `1 2 2 5 8 9 `. |
| MergeCorrectness.NoChunksEmptyResult | src/merger/mod.rs:14-24 | With no chunks, `result.txt` is left empty. |

## Left out

- File I/O is not modelled: removing the old `result.txt`, opening the chunk files, append-mode opening and `BufWriter` (src/merger/mod.rs:14-22, 69-77). Chunks are value sequences; `result.txt` is a byte sequence that starts empty.
- `expect`/`unwrap` panics on I/O are not modelled. Parse failures appear only as `None`/`Malformed` in `ReadChunkBytes` and `Tokenize`.
- The merge loop reads chunks at the value level: a chunk is the sequence of values `Tokenize` reads from its file. The byte-level reader, `ChunkReader.ReadChunkBytes`, is connected to it by `ChunkReader.ReadChunkBytesFollowsTokens` rather than used inside the loop.
- ChunkReader.ReadChunkBytesFollowsTokens: covers streams whose every token parses. A stream with a malformed token after the one `read_chunk` stops at is read the same way by the source, but no lemma covers it.
- Merger.MergeChunks: uses the exact bounds of `Partition`, not the source's u64 expressions. The two agree for 1 <= p <= 63 (`Partition.SourceBoundsExact`). For p = 0 and p = 64 the source panics where the model merges; see Findings.
- Release builds are not modelled. There the shift amount is taken modulo 64 instead of panicking, so at `part_exp` 0 and 64 the loop would run a single partition `[0, 0]`.
- `sorter::sort` runs rayon's parallel unstable sort. It is modelled by its contract, backed by an insertion sort; for u64 keys every correct sort gives the same sequence (`Sorter.SortedUnique`).
- `src/main.rs` is argument parsing and process entry, and is not part of this model. Its call `merge_chunks(chunk_num)` does not match the two-argument signature.
- The random test-data generation and cleanup (src/merger/mod.rs:92-135) are not modelled. Only the format `write_chunk` writes (lines 114-116) is, because it is the same format as `write_result`.
- Consecutive spaces are not skipped: the empty token between them panics (`Tokens.EmptyTokenIsMalformed`). A final token that ends in a digit, with no delimiter after it, loses that digit (`Tokens.UnterminatedTokenLosesDigit`); any other final byte, such as a newline, is the one dropped (`Tokens.FinalByteDropped`).

## Findings

| source | as written | input that shows it | evidently intended | confidence | as-written member | corrected member |
|---|---|---|---|---|---|---|
| src/merger/mod.rs:10-28 | The argument check at line 10 rejects only `part_exp > 64`. Lines 26-28 then compute `1u64 << part_exp` and `1u64 << (64 - part_exp)`, and a shift by 64 overflows. | `part_exp = 64`: the loop bound `1u64 << 64` panics in a debug build. `part_exp = 0`: the width `1u64 << 64` panics at the first partition. | 2^p ranges of 2^(64-p) keys each, for every accepted `p` from 0 to 64. | high; not executed | Partition.EdgeExponentsOverflow | Partition.RangesTile |
