/**
 * The whole external sort: `splitAndSort` followed by `mergeChunks`, as
 * `main` runs them (index.js).
 */
module ExternalSort {
  import opened Wrappers
  import opened Order
  import opened Text
  import opened Partitioner
  import opened ChunkSorter
  import opened Merger

  /** The lines a line reader delivers from each file, file by file. */
  function ReadAll(files: seq<Line>): (r: seq<seq<Line>>)
    ensures |r| == |files|
  {
    seq(|files|, i requires 0 <= i < |files| => FileLines(files[i]))
  }

  /** Sorting chunks one by one keeps all their non-empty lines together. */
  lemma {:induction false} SortedChunksKeepLines(chunks: seq<seq<Line>>, sorted: seq<seq<Line>>)
    requires |sorted| == |chunks|
    requires forall j | 0 <= j < |chunks| :: sorted[j] == Sort(DropEmpty(chunks[j]))
    ensures multiset(Flatten(sorted)) == multiset(DropEmpty(Flatten(chunks)))
  {
    if chunks != [] {
      SortSpec(DropEmpty(chunks[0]));
      SortedChunksKeepLines(chunks[1..], sorted[1..]);
      DropEmptyAppend(chunks[0], Flatten(chunks[1..]));
    }
  }

  /** A chunk with no non-empty line consists of empty input lines, so the input holds one. */
  lemma BlankChunkOfBlankLines(input: seq<Line>, chunkSize: nat, chunks: seq<seq<Line>>, j: nat)
    requires IsGreedyPartition(input, chunkSize, chunks)
    requires j < |chunks| && DropEmpty(chunks[j]) == []
    ensures forall k | 0 <= k < |chunks[j]| :: chunks[j][k] == []
    ensures exists i | 0 <= i < |input| :: input[i] == []
  {
    forall k | 0 <= k < |chunks[j]|
      ensures chunks[j][k] == []
    {
      assert chunks[j][k] in chunks[j];
    }
    assert chunks[j] != [];
    assert chunks[j][0] in chunks[j];
    FlattenContains(chunks, j, chunks[j][0]);
  }

  /** A chunk file written from a chunk and then rewritten reads back as the chunk's sorted non-empty lines. */
  lemma RewrittenChunk(chunk: seq<Line>)
    requires forall k | 0 <= k < |chunk| :: NewLine !in chunk[k]
    ensures FileLines(Rewrite(Terminated(chunk))) == Sort(DropEmpty(chunk))
  {
    ChunkLinesOfTerminated(chunk);
    RewriteReadsBack(Terminated(chunk));
  }

  /**
   * The sorting loop of `splitAndSort` (index.js:61-65): every chunk file is
   * rewritten with its own non-empty lines in sorted order.
   */
  method SortChunks(written: seq<Line>) returns (files: seq<Line>)
    ensures |files| == |written|
    ensures forall j | 0 <= j < |files| :: files[j] == Rewrite(written[j])
    ensures forall j | 0 <= j < |files| :: FileLines(files[j]) == Sort(ChunkLines(written[j]))
  {
    files := [];
    for i := 0 to |written|
      invariant |files| == i
      invariant forall j | 0 <= j < i :: files[j] == Rewrite(written[j])
    {
      var lines, rewritten := SortChunkFile(written[i]);
      files := files + [rewritten];
      assert files[i] == Rewrite(written[i]);
    }
  }

  /** Each rewritten chunk file reads back as its chunk's sorted non-empty lines. */
  lemma RewrittenChunks(chunks: seq<seq<Line>>, written: seq<Line>, files: seq<Line>)
    requires |written| == |chunks| && |files| == |chunks|
    requires forall j | 0 <= j < |chunks| :: written[j] == Terminated(chunks[j])
    requires forall j, k | 0 <= j < |chunks| && 0 <= k < |chunks[j]| :: NewLine !in chunks[j][k]
    requires forall j | 0 <= j < |files| :: files[j] == Rewrite(written[j])
    ensures forall j | 0 <= j < |files| :: FileLines(files[j]) == Sort(DropEmpty(chunks[j]))
  {
    forall j | 0 <= j < |files|
      ensures FileLines(files[j]) == Sort(DropEmpty(chunks[j]))
    {
      RewrittenChunk(chunks[j]);
    }
  }

  /** No line of any chunk holds a line feed. */
  lemma ChunksHoldLines(input: seq<Line>, chunkSize: nat, chunks: seq<seq<Line>>)
    requires forall k | 0 <= k < |input| :: IsLine(input[k])
    requires IsGreedyPartition(input, chunkSize, chunks)
    ensures forall j, k | 0 <= j < |chunks| && 0 <= k < |chunks[j]| :: NewLine !in chunks[j][k]
  {
    forall j, k | 0 <= j < |chunks| && 0 <= k < |chunks[j]|
      ensures NewLine !in chunks[j][k]
    {
      FlattenContains(chunks, j, chunks[j][k]);
    }
  }

  lemma SortedChunkFiles(input: seq<Line>, chunkSize: nat, chunks: seq<seq<Line>>, files: seq<Line>)
    requires IsGreedyPartition(input, chunkSize, chunks) && |chunks| == |files|
    requires forall j | 0 <= j < |files| :: FileLines(files[j]) == Sort(DropEmpty(chunks[j]))
    ensures forall j | 0 <= j < |files| :: Sorted(FileLines(files[j]))
    ensures multiset(Flatten(ReadAll(files))) == multiset(DropEmpty(input))
  {
    forall j | 0 <= j < |files|
      ensures Sorted(FileLines(files[j]))
    {
      SortSpec(DropEmpty(chunks[j]));
    }
    SortedChunksKeepLines(chunks, ReadAll(files));
  }

  /**
   * `splitAndSort` (index.js:24-68): partitions the input, then sorts every
   * chunk file. Each returned file holds the sorted non-empty lines of one
   * chunk of the greedy partition, returned as `chunks`.
   */
  method SplitAndSort(input: seq<Line>, chunkSize: nat) returns (files: seq<Line>, ghost chunks: seq<seq<Line>>)
    requires forall i | 0 <= i < |input| :: IsLine(input[i])
    ensures IsGreedyPartition(input, chunkSize, chunks)
    ensures |chunks| == |files|
    ensures forall j | 0 <= j < |files| :: FileLines(files[j]) == Sort(DropEmpty(chunks[j]))
    ensures forall j | 0 <= j < |files| :: Sorted(FileLines(files[j]))
    ensures multiset(Flatten(ReadAll(files))) == multiset(DropEmpty(input))
  {
    var partition, written := Partition(input, chunkSize);
    chunks := partition;
    ChunksHoldLines(input, chunkSize, partition);
    files := SortChunks(written);
    RewrittenChunks(partition, written, files);
    SortedChunkFiles(input, chunkSize, chunks, files);
  }

  /**
   * The two phases of `main` (index.js:16-19) with chunks of at most about
   * `chunkSize` bytes. None exactly when some chunk holds only empty lines,
   * so that its file has no line to prime the merge with. Otherwise the
   * output is the sorted permutation of the input's non-empty lines,
   * whatever the chunk size.
   */
  method SortInputLines(input: seq<Line>, chunkSize: nat) returns (result: Option<seq<Line>>, ghost chunks: seq<seq<Line>>)
    requires forall i | 0 <= i < |input| :: IsLine(input[i])
    ensures IsGreedyPartition(input, chunkSize, chunks)
    ensures result.None? <==> exists j | 0 <= j < |chunks| :: DropEmpty(chunks[j]) == []
    ensures result.Some? ==> result.value == Sort(DropEmpty(input))
    ensures (forall i | 0 <= i < |input| :: input[i] != []) ==> result.Some?
  {
    var files: seq<Line>;
    files, chunks := SplitAndSort(input, chunkSize);
    var readers := ReadAll(files);
    assert AllSorted(readers);
    forall j | 0 <= j < |chunks|
      ensures readers[j] == [] <==> DropEmpty(chunks[j]) == []
    {
      SortEmpty(DropEmpty(chunks[j]));
    }
    result := MergeChunks(readers);
    if result.Some? {
      assert Sorted(result.value);
      assert multiset(result.value) == multiset(DropEmpty(input));
      SortSpec(DropEmpty(input));
      SortedUnique(result.value, Sort(DropEmpty(input)));
    } else {
      ghost var j :| 0 <= j < |chunks| && DropEmpty(chunks[j]) == [];
      BlankChunkOfBlankLines(input, chunkSize, chunks, j);
    }
  }

  /** `main` (index.js:9-22): the sort with the program's own chunk size, `CHUNK_SIZE`. */
  method SortInput(input: seq<Line>) returns (result: Option<seq<Line>>)
    requires forall i | 0 <= i < |input| :: IsLine(input[i])
    ensures result.Some? ==> result.value == Sort(DropEmpty(input))
    ensures (forall i | 0 <= i < |input| :: input[i] != []) ==> result.Some?
    ensures result.None? ==> exists i | 0 <= i < |input| :: input[i] == []
  {
    ghost var chunks;
    result, chunks := SortInputLines(input, ChunkSize);
    if result.None? {
      ghost var j :| 0 <= j < |chunks| && DropEmpty(chunks[j]) == [];
      BlankChunkOfBlankLines(input, ChunkSize, chunks, j);
    }
  }
}
