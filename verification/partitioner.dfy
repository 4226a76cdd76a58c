/**
 * The partitioner: the first loop of `splitAndSort` (index.js).
 *
 * It reads the input line by line, appends each line and a terminator to an
 * in-memory chunk, and counts the bytes buffered. As soon as the count reaches
 * the chunk size the chunk is written to its own file and a new chunk begins;
 * whatever is buffered when the input ends becomes the last chunk.
 */
module Partitioner {
  import opened Order
  import opened Text

  /** `CHUNK_SIZE`, the threshold `main` partitions with: 500 MiB. */
  const ChunkSize: nat := 500 * 1024 * 1024

  /** The byte count of a buffer: each line's UTF-8 length plus one for its '\n'. */
  function Cost(xs: seq<Line>): (c: nat)
    ensures |xs| <= c
  {
    if xs == [] then 0 else Cost(xs[..|xs| - 1]) + Utf8Length(xs[|xs| - 1]) + 1
  }

  /**
   * The running count is `Buffer.byteLength(chunk)`: the UTF-8 length of the
   * buffered lines, each followed by its '\n'.
   */
  lemma {:induction false} CostIsByteLength(xs: seq<Line>)
    ensures Cost(xs) == Utf8Length(Terminated(xs))
    decreases |xs|
  {
    if xs != [] {
      var init, last := xs[..|xs| - 1], xs[|xs| - 1];
      assert xs == init + [last];
      CostIsByteLength(init);
      TerminatedAppend(init, last);
      Utf8AppendLine(Terminated(init), last);
    }
  }

  /** A longer prefix never costs less. */
  lemma {:induction false} CostMonotone(xs: seq<Line>, k: nat, m: nat)
    requires k <= m <= |xs|
    ensures Cost(xs[..k]) <= Cost(xs[..m])
    decreases m
  {
    if k < m {
      assert xs[..m][..m - 1] == xs[..m - 1];
      CostMonotone(xs, k, m - 1);
    }
  }

  /** The threshold was not reached before the chunk's last line was added. */
  ghost predicate FlushedOnLastLine(c: seq<Line>, chunkSize: nat) {
    |c| <= 1 || Cost(c[..|c| - 1]) < chunkSize
  }

  /** A chunk written because its byte count reached the threshold. */
  ghost predicate Flushed(c: seq<Line>, chunkSize: nat) {
    c != [] && FlushedOnLastLine(c, chunkSize) && Cost(c) >= chunkSize
  }

  /**
   * What the partition loop produces: the chunks concatenate to the input,
   * none is empty, each reached the threshold only with its last line, and
   * every chunk but the last reached it.
   */
  ghost predicate IsGreedyPartition(input: seq<Line>, chunkSize: nat, chunks: seq<seq<Line>>) {
    && Flatten(chunks) == input
    && (forall i | 0 <= i < |chunks| :: chunks[i] != [] && FlushedOnLastLine(chunks[i], chunkSize))
    && (forall i | 0 <= i < |chunks| - 1 :: Cost(chunks[i]) >= chunkSize)
  }

  /** Each chunk file holds its chunk's lines, each followed by '\n'. */
  ghost predicate FilesHold(chunks: seq<seq<Line>>, files: seq<Line>) {
    |files| == |chunks| && forall j | 0 <= j < |files| :: files[j] == Terminated(chunks[j])
  }

  ghost predicate AllFlushed(chunks: seq<seq<Line>>, chunkSize: nat) {
    forall j | 0 <= j < |chunks| :: Flushed(chunks[j], chunkSize)
  }

  /**
   * What holds between lines: the written chunks were each flushed at the
   * threshold and their files hold them; `chunk` holds the buffered lines,
   * `byteCount` counts them and is below the threshold unless nothing is buffered.
   */
  ghost predicate Buffered(chunkSize: nat, chunks: seq<seq<Line>>, files: seq<Line>, buffer: seq<Line>, chunk: Line, byteCount: nat) {
    && AllFlushed(chunks, chunkSize)
    && FilesHold(chunks, files)
    && chunk == Terminated(buffer)
    && byteCount == Cost(buffer)
    && (buffer == [] || byteCount < chunkSize)
  }

  /**
   * The body of the partition loop (index.js:38-50): appends a line and its
   * terminator to the chunk, and writes the chunk out once its byte count
   * reaches the threshold.
   */
  method AddLine(chunkSize: nat, chunks: seq<seq<Line>>, files: seq<Line>, buffer: seq<Line>, chunk: Line, byteCount: nat, line: Line)
    returns (chunks': seq<seq<Line>>, files': seq<Line>, buffer': seq<Line>, chunk': Line, byteCount': nat)
    requires Buffered(chunkSize, chunks, files, buffer, chunk, byteCount)
    ensures Buffered(chunkSize, chunks', files', buffer', chunk', byteCount')
    ensures Flatten(chunks') + buffer' == Flatten(chunks) + buffer + [line]
    ensures byteCount + Utf8Length(line) + 1 >= chunkSize ==> buffer' == [] && chunks' == chunks + [buffer + [line]]
    ensures byteCount + Utf8Length(line) + 1 < chunkSize ==> buffer' == buffer + [line] && chunks' == chunks
  {
    chunks', files' := chunks, files;
    chunk' := chunk + line + [NewLine];
    byteCount' := byteCount + Utf8Length(line) + 1;
    buffer' := buffer + [line];
    if byteCount' >= chunkSize {
      FlushLine(chunkSize, chunks, files, buffer, chunk, byteCount, line);
      chunks' := chunks + [buffer'];
      files' := files + [chunk'];
      chunk' := [];
      buffer' := [];
      byteCount' := 0;
    } else {
      BufferLine(chunkSize, chunks, files, buffer, chunk, byteCount, line);
    }
  }

  /** Appending a line that keeps the byte count below the threshold keeps it buffered. */
  lemma BufferLine(chunkSize: nat, chunks: seq<seq<Line>>, files: seq<Line>, buffer: seq<Line>, chunk: Line, byteCount: nat, line: Line)
    requires Buffered(chunkSize, chunks, files, buffer, chunk, byteCount)
    requires byteCount + Utf8Length(line) + 1 < chunkSize
    ensures Buffered(chunkSize, chunks, files, buffer + [line], chunk + line + [NewLine], byteCount + Utf8Length(line) + 1)
  {
    TerminatedAppend(buffer, line);
    CostAppend(buffer, line);
  }

  /** Appending a line that takes the byte count to the threshold writes the chunk out. */
  lemma FlushLine(chunkSize: nat, chunks: seq<seq<Line>>, files: seq<Line>, buffer: seq<Line>, chunk: Line, byteCount: nat, line: Line)
    requires Buffered(chunkSize, chunks, files, buffer, chunk, byteCount)
    requires byteCount + Utf8Length(line) + 1 >= chunkSize
    ensures Buffered(chunkSize, chunks + [buffer + [line]], files + [chunk + line + [NewLine]], [], [], 0)
    ensures Flatten(chunks + [buffer + [line]]) == Flatten(chunks) + buffer + [line]
  {
    TerminatedAppend(buffer, line);
    CostAppend(buffer, line);
    FlushedAppend(buffer, line, chunkSize);
    WriteChunk(chunks, files, buffer + [line], chunk + line + [NewLine], chunkSize);
  }

  /**
   * Partitions the input (index.js:33-58). Returns the chunks as lines, and
   * the text written to each chunk file.
   */
  method Partition(input: seq<Line>, chunkSize: nat) returns (chunks: seq<seq<Line>>, files: seq<Line>)
    ensures IsGreedyPartition(input, chunkSize, chunks)
    ensures |files| == |chunks|
    ensures forall i | 0 <= i < |files| :: files[i] == Terminated(chunks[i])
  {
    chunks, files := [], [];
    var buffer: seq<Line> := [];  // the lines held in `chunk`
    var chunk: Line := [];
    var byteCount: nat := 0;
    for i := 0 to |input|
      invariant Flatten(chunks) + buffer == input[..i]
      invariant Buffered(chunkSize, chunks, files, buffer, chunk, byteCount)
    {
      assert input[..i + 1] == input[..i] + [input[i]];
      chunks, files, buffer, chunk, byteCount := AddLine(chunkSize, chunks, files, buffer, chunk, byteCount, input[i]);
    }
    assert input[..|input|] == input;
    FinalChunk(input, chunkSize, chunks, buffer);
    if chunk != [] {
      WriteLastChunk(chunks, files, buffer, chunk);
      chunks := chunks + [buffer];
      files := files + [chunk];
    }
  }

  lemma CostAppend(buffer: seq<Line>, line: Line)
    ensures Cost(buffer + [line]) == Cost(buffer) + Utf8Length(line) + 1
  {
    assert (buffer + [line])[..|buffer|] == buffer;
  }

  /** A buffer below the threshold that reaches it with one more line is flushed on that line. */
  lemma FlushedAppend(buffer: seq<Line>, line: Line, chunkSize: nat)
    requires buffer == [] || Cost(buffer) < chunkSize
    requires Cost(buffer + [line]) >= chunkSize
    ensures Flushed(buffer + [line], chunkSize)
  {
    assert (buffer + [line])[..|buffer|] == buffer;
  }

  lemma WriteChunk(chunks: seq<seq<Line>>, files: seq<Line>, buffer: seq<Line>, chunk: Line, chunkSize: nat)
    requires AllFlushed(chunks, chunkSize) && FilesHold(chunks, files)
    requires Flushed(buffer, chunkSize) && chunk == Terminated(buffer)
    ensures AllFlushed(chunks + [buffer], chunkSize) && FilesHold(chunks + [buffer], files + [chunk])
    ensures Flatten(chunks + [buffer]) == Flatten(chunks) + buffer
  {
    FlattenAppend(chunks, buffer);
  }

  lemma WriteLastChunk(chunks: seq<seq<Line>>, files: seq<Line>, buffer: seq<Line>, chunk: Line)
    requires FilesHold(chunks, files) && chunk == Terminated(buffer)
    ensures FilesHold(chunks + [buffer], files + [chunk])
  {
  }

  /** Flushing what is left after the input ends completes a greedy partition. */
  lemma FinalChunk(input: seq<Line>, chunkSize: nat, chunks: seq<seq<Line>>, buffer: seq<Line>)
    requires Flatten(chunks) + buffer == input
    requires AllFlushed(chunks, chunkSize)
    requires buffer == [] || Cost(buffer) < chunkSize
    ensures buffer == [] ==> IsGreedyPartition(input, chunkSize, chunks)
    ensures buffer != [] ==> IsGreedyPartition(input, chunkSize, chunks + [buffer])
  {
    FlattenAppend(chunks, buffer);
    if buffer != [] {
      var all := chunks + [buffer];
      assert Cost(buffer[..|buffer| - 1]) <= Cost(buffer);
      forall i | 0 <= i < |all|
        ensures all[i] != [] && FlushedOnLastLine(all[i], chunkSize)
      {
        if i < |chunks| {
          assert Flushed(chunks[i], chunkSize);
        }
      }
      forall i | 0 <= i < |all| - 1
        ensures Cost(all[i]) >= chunkSize
      {
        assert Flushed(chunks[i], chunkSize);
      }
    } else {
      assert chunks + [] == chunks;
    }
  }

  /** No chunk file is written exactly when the input has no line. */
  lemma NoChunksIffEmptyInput(input: seq<Line>, chunkSize: nat, chunks: seq<seq<Line>>)
    requires IsGreedyPartition(input, chunkSize, chunks)
    ensures chunks == [] <==> input == []
  {
    if chunks != [] {
      PrefixOfConcat(chunks[0], Flatten(chunks[1..]), input);
    }
  }

  lemma PrefixOfConcat<T>(x: seq<T>, y: seq<T>, z: seq<T>)
    requires x + y == z
    ensures x == z[..|x|] && y == z[|x|..]
  {
  }

  /** The rest of a greedy partition is a greedy partition of the rest of the input. */
  lemma GreedyPartitionTail(input: seq<Line>, chunkSize: nat, chunks: seq<seq<Line>>)
    requires IsGreedyPartition(input, chunkSize, chunks) && chunks != []
    ensures |chunks[0]| <= |input| && chunks[0] == input[..|chunks[0]|]
    ensures IsGreedyPartition(input[|chunks[0]|..], chunkSize, chunks[1..])
  {
    PrefixOfConcat(chunks[0], Flatten(chunks[1..]), input);
  }

  lemma FirstChunkNotShorter(input: seq<Line>, chunkSize: nat, a: seq<seq<Line>>, b: seq<seq<Line>>)
    requires IsGreedyPartition(input, chunkSize, a) && IsGreedyPartition(input, chunkSize, b)
    requires a != [] && b != []
    ensures |b[0]| <= |a[0]|
  {
    GreedyPartitionTail(input, chunkSize, a);
    GreedyPartitionTail(input, chunkSize, b);
    if |a[0]| < |b[0]| && |a| > 1 {
      assert Cost(a[0]) >= chunkSize;
      assert a[0] == b[0][..|a[0]|];
      CostMonotone(b[0], |a[0]|, |b[0]| - 1);
    }
  }

  /** The chunks are determined by the input and the threshold alone. */
  lemma {:induction false} GreedyPartitionUnique(input: seq<Line>, chunkSize: nat, a: seq<seq<Line>>, b: seq<seq<Line>>)
    requires IsGreedyPartition(input, chunkSize, a) && IsGreedyPartition(input, chunkSize, b)
    ensures a == b
    decreases |a|
  {
    if a == [] || b == [] {
      if a != [] {
        GreedyPartitionTail(input, chunkSize, a);
      } else if b != [] {
        GreedyPartitionTail(input, chunkSize, b);
      }
    } else {
      FirstChunkNotShorter(input, chunkSize, a, b);
      FirstChunkNotShorter(input, chunkSize, b, a);
      GreedyPartitionTail(input, chunkSize, a);
      GreedyPartitionTail(input, chunkSize, b);
      GreedyPartitionUnique(input[|a[0]|..], chunkSize, a[1..], b[1..]);
      assert a == [a[0]] + a[1..] && b == [b[0]] + b[1..];
    }
  }
}
