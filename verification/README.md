# External line sort, modelled in Dafny

The program sorts the lines of a text file that may be too large for memory.
`splitAndSort` reads the input line by line. It appends each line and a `'\n'`
to an in-memory chunk and counts the chunk's UTF-8 bytes. Once the count
reaches `CHUNK_SIZE` (500 MiB), the chunk is written to a temporary file, and
whatever is left at the end of the input becomes the last chunk file. Each
chunk file is then loaded, split on `'\n'`, stripped of empty strings, sorted
with JavaScript's default string order, and written back joined with `'\n'`.
`mergeChunks` opens one line reader per chunk file and primes each with its
first line. It then repeatedly picks the smallest current line by a linear
scan (the first one wins among equals), writes it followed by `'\n'`, and
advances that reader. A reader that has no further line is spliced out of the
array.

The model is split into seven modules:

- `Order` (order.dfy): lines as sequences of UTF-16 code units, JavaScript's
  string `<`, the proof that it is a total order, and a reference sort.
- `Text` (text.dfy): the text layer. It covers `split('\n')`, `join('\n')`,
  `filter(Boolean)`, the UTF-8 byte length, chunk text, and what a line
  reader delivers from a file.
- `Partitioner` (partitioner.dfy): the partition loop, and a
  characterisation of its output as the unique greedy partition.
- `ChunkSorter` (chunksorter.dfy): the per-chunk sort, with the array sort in
  place.
- `Merger` (merger.dfy): priming, the selection scan, the advance step and
  the merge loop.
- `Wrappers` (wrappers.dfy): the optional value used for "no result".
- `ExternalSort` (externalsort.dfy): the two phases together. Its main result
  is that the output is the sorted permutation of the input's non-empty lines,
  whatever the chunk size.

Empty input lines never reach the output: the chunk sorter's
`filter(Boolean)` drops them (index.js:62). The model follows the code here,
not a description of the program as a sort of all input lines.

Readers are modelled as values: a chunk's lines and how many have been
delivered. Awaiting the next `'line'` event becomes reading the next element,
or nothing once the lines are used up.

## Model

| member | source | states |
|---|---|---|
| Order.Less | index.js:97 | JavaScript's string `<` on code units; no string is `<` itself |
| Order.LessTransitive | index.js:97 | string `<` is transitive |
| Order.LessTrichotomy | index.js:97 | of two strings, one is `<` the other, or they are equal |
| Order.LessAsymmetric | index.js:97 | `a < b` excludes `b < a` |
| Order.LessEqReflexive | index.js:63 | the sort order is reflexive |
| Order.LessEqTotal | index.js:63 | any two lines are comparable in the sort order |
| Order.LessEqAntisymmetric | index.js:63 | lines that are each no greater than the other are equal |
| Order.LessEqTransitive | index.js:63 | the sort order is transitive |
| Order.LessLessEqTransitive | index.js:97 | `a < b` and `b <= c` give `a < c` |
| Order.SortedAppend | index.js:104 | writing a line no smaller than the last one written keeps the output sorted |
| Order.InsertPermutes | index.js:63 | inserting a line into a sequence adds exactly that line to its multiset |
| Order.InsertBounded | index.js:63 | a lower bound of a line and of a sequence still bounds the sequence after insertion |
| Order.SortedCons | index.js:63 | a line no larger than any line of a sorted sequence can be placed in front of it |
| Order.InsertSorted | index.js:63 | insertion keeps a sorted sequence sorted |
| Order.SortSpec | index.js:63 | the reference sort returns a sorted permutation of its input |
| Order.SortedHeadIsLeast | index.js:63 | the first line of a sorted sequence is no larger than any of its lines |
| Order.SortedUnique | index.js:63 | two sorted sequences with the same multiset are equal, so every correct sort gives the same result |
| Order.SortEmpty | index.js:63 | sorting yields no line exactly when there is none to sort |
| Order.SortOfSorted | index.js:63 | sorting an already sorted sequence leaves it unchanged |
| Text.FirstWidth | index.js:40 | a character takes two code units when they form a surrogate pair and one otherwise, never more than remain |
| Text.Utf8Length | index.js:40 | `Buffer.byteLength`: the UTF-8 length lies between one and three bytes per code unit |
| Text.Utf8Append | index.js:39-40 | the byte lengths of two strings add up, unless a surrogate pair straddles the seam |
| Text.Utf8AppendLine | index.js:39-40 | appending `line + '\n'` to text that ends in `'\n'` adds the line's byte length plus one |
| Text.Terminated | index.js:39 | chunk text is empty exactly when no line was appended, and otherwise ends in `'\n'` |
| Text.TerminatedAppend | index.js:39 | appending `line + '\n'` to chunk text is the text of the lines with the new line appended |
| Text.Split | index.js:62 | `split('\n')` yields at least one piece and no piece holds a line feed |
| Text.Join | index.js:64 | `join('\n')` of a non-empty list is the text of its lines each followed by `'\n'`, less the last `'\n'` |
| Text.SplitPlain | index.js:62 | a string without a line feed splits into itself |
| Text.SplitAfter | index.js:62 | a line feed after a plain string splits it off as the first piece |
| Text.SplitTerminated | index.js:62 | splitting chunk text gives back the lines written and one empty final piece |
| Text.SplitJoin | index.js:64 | `split('\n')` undoes `join('\n')` on non-empty lists of lines without line feeds |
| Text.DropEmpty | index.js:62 | `filter(Boolean)` keeps exactly the non-empty strings |
| Text.DropEmptyAppend | index.js:62 | the filter distributes over concatenation |
| Text.DropEmptyKeepsLines | index.js:62 | the filter leaves a list of non-empty strings unchanged |
| Text.ChunkLines | index.js:62 | every string kept by `split('\n').filter(Boolean)` is non-empty and holds no line feed |
| Text.ChunkLinesOfTerminated | index.js:62 | loading a chunk file yields the chunk's lines without the empty ones |
| Text.ChunkLinesOfJoin | index.js:64 | loading a rewritten chunk file yields exactly the lines written |
| Text.FileLines | index.js:75-78 | a line reader over a file delivers its `'\n'`-separated pieces in order, none holding a line feed, dropping at most a final empty piece |
| Text.FileLinesOfJoin | index.js:88 | a line reader over a rewritten chunk file delivers exactly the lines written |
| Partitioner.Cost | index.js:40 | each buffered line adds at least one byte, its `'\n'` |
| Partitioner.CostIsByteLength | index.js:39-40 | the running count equals `Buffer.byteLength(chunk)`, the UTF-8 length of the chunk text |
| Partitioner.CostAppend | index.js:40 | one more line adds its byte length plus one to the count |
| Partitioner.CostMonotone | index.js:40 | the byte count of a longer prefix of lines is never smaller |
| Partitioner.AddLine | index.js:38-50 | one loop turn: the line and `'\n'` join the chunk and the count grows by the line's UTF-8 length plus one; at the threshold the chunk is written and both are reset |
| Partitioner.BufferLine | index.js:39-41 | a line that keeps the count below the threshold stays buffered, with chunk text and count in step |
| Partitioner.FlushedAppend | index.js:42 | a buffer below the threshold that reaches it with one more line is flushed on that line |
| Partitioner.FlushLine | index.js:39-49 | a line that takes the count to the threshold is written out with its chunk, which ends flushed; chunk text and count start again from empty |
| Partitioner.Partition | index.js:33-58 | the chunks concatenate to the input, none is empty, each reached the threshold only with its last line, every one but the last reached it, and each file holds its chunk's lines each followed by `'\n'` |
| Partitioner.WriteChunk | index.js:42-49 | writing a full chunk keeps every written chunk flushed at the threshold and its file in step |
| Partitioner.WriteLastChunk | index.js:53-57 | the final chunk's file holds its lines |
| Partitioner.FinalChunk | index.js:53-57 | writing whatever is left at the end of the input, if anything, completes a greedy partition |
| Partitioner.NoChunksIffEmptyInput | index.js:53 | no chunk file is written exactly when the input has no line |
| Partitioner.GreedyPartitionTail | index.js:37-51 | the first chunk is a prefix of the input, and the rest is a greedy partition of the rest |
| Partitioner.FirstChunkNotShorter | index.js:42 | of any two greedy partitions of one input, the second never starts with a longer chunk than the first |
| Partitioner.GreedyPartitionUnique | index.js:33-58 | the chunks are determined by the input and the threshold alone |
| ChunkSorter.InsertingStart | index.js:63 | before insertion the line to insert sits at its own index |
| ChunkSorter.SwapStep | index.js:63 | swapping the inserted line past a larger one keeps the insertion invariant, permutes the lines and leaves those after the inserted one untouched |
| ChunkSorter.InsertingDone | index.js:63 | insertion that stops at a smaller or equal line leaves the prefix sorted |
| ChunkSorter.InsertLine | index.js:63 | moving a line into a sorted prefix sorts the longer prefix, permutes the array and leaves everything after it untouched |
| ChunkSorter.SortLines | index.js:63 | `lines.sort()` in place: the array becomes sorted, a permutation of its contents, equal to the reference sort |
| ChunkSorter.Rewrite | index.js:62-64 | the text written back delivers, line by line, the sorted non-empty lines loaded from the chunk |
| ChunkSorter.SortedChunkLinesAreLines | index.js:63 | every sorted line is non-empty and free of line feeds |
| ChunkSorter.RewriteReadsBack | index.js:62-64 | a rewritten chunk file reads back, by either reader, as the sorted permutation of the chunk's non-empty lines |
| ChunkSorter.RewriteIdempotent | index.js:62-64 | sorting a chunk file twice gives the same text as sorting it once |
| ChunkSorter.RewriteSorted | index.js:62-64 | a file that already holds sorted non-empty lines joined by `'\n'` is written back unchanged |
| ChunkSorter.SortChunkFile | index.js:62-64 | load, sort in an array and join one chunk file: the lines are the reference sort of the loaded lines and read back unchanged |
| Merger.NextLine | index.js:108 | no line exactly when the reader is exhausted; otherwise the line delivered, followed by what the advanced reader still holds, is what remained before |
| Merger.PendingPrimed | index.js:86-90 | before anything is written, the unwritten lines are all chunks' lines in order |
| Merger.Prime | index.js:86-90 | one cursor per chunk in chunk order, holding its first line; no result when some chunk has no line, because priming then never completes |
| Merger.SelectMin | index.js:94-101 | the chosen head is no greater than any head and strictly less than every head before it, so the first of equal minima wins |
| Merger.Advance | index.js:107-117 | only the chosen cursor changes: it takes its reader's next line, or is spliced out when there is none, the rest keeping their order; exactly the written line leaves the unwritten lines |
| Merger.PendingReplace | index.js:112 | replacing the chosen head by the next line removes exactly the old head from the unwritten lines |
| Merger.PendingRemove | index.js:115 | splicing out an exhausted cursor removes exactly its head from the unwritten lines |
| Merger.AdvanceKeepsCursors | index.js:104-117 | after an advance every cursor still reads a chunk; with sorted chunks the output stays sorted and no head is smaller than the line just written |
| Merger.MergeStep | index.js:93-117 | one loop turn selects a smallest head (the first of equal ones), appends exactly that head to the output, and either gives its cursor the reader's next line or splices the cursor out, the others unchanged and in order; the lines written plus the lines unwritten stay the same multiset, and the unwritten lines shrink |
| Merger.MergeCursors | index.js:92-118 | the loop terminates with the output a permutation of the unwritten lines, sorted when the chunks are |
| Merger.MergeChunks | index.js:86-118 | no result exactly when a chunk is empty; otherwise the output is a permutation of all chunks' lines, and with sorted chunks it is sorted and equals their sorted permutation |
| ExternalSort.ReadAll | index.js:74-78 | one reader per chunk file |
| ExternalSort.SortedChunksKeepLines | index.js:61-65 | sorting chunks one by one keeps all their non-empty lines together |
| ExternalSort.BlankChunkOfBlankLines | index.js:62 | a chunk whose file loads no line consists of empty input lines only, so the input holds an empty line |
| ExternalSort.RewrittenChunk | index.js:61-65 | a chunk's file, after sorting, reads back as the chunk's sorted non-empty lines |
| ExternalSort.SortChunks | index.js:61-65 | every chunk file is rewritten in place, in file order, and reads back as its own sorted non-empty lines |
| ExternalSort.RewrittenChunks | index.js:61-65 | after the sorting loop each chunk file reads back as its chunk's sorted non-empty lines |
| ExternalSort.ChunksHoldLines | index.js:37-51 | no chunk line holds a line feed when no input line does |
| ExternalSort.SortedChunkFiles | index.js:61-65 | each chunk file reads back sorted, and together they hold exactly the input's non-empty lines |
| ExternalSort.SplitAndSort | index.js:24-68 | the files come one per chunk of the greedy partition (returned as ghost `chunks`), each reads back as its chunk's sorted non-empty lines, and together they hold exactly the input's non-empty lines |
| ExternalSort.SortInputLines | index.js:16-19 | for the greedy partition at any chunk size: no result exactly when some chunk holds only empty lines; otherwise the result is the sorted permutation of the input's non-empty lines, and there is always a result when no input line is empty |
| ExternalSort.SortInput | index.js:9-22 | with `CHUNK_SIZE` of 500 MiB (index.js:5, `Partitioner.ChunkSize`): a result is the sorted permutation of the input's non-empty lines; there is always one when no input line is empty, and none only when some input line is empty |

## Left out

- File and stream I/O are parameters. The input file's lines are the input
  sequence, chunk files are their contents, and the output file is the
  returned sequence of lines. The output text itself (every line followed by
  `'\n'`, index.js:104) is not built.
- The temporary directory, the chunk file names and `chunkNum`
  (index.js:6-7, 11-13, 35, 44, 49, 55) are not modelled: the chunk files are
  a sequence in write order.
- Logging, `process.exit` and the top-level `try`/`catch` (index.js:21, 66,
  126-139) are not modelled.
- `main` passes the file names to `mergeChunks` in swapped order
  (index.js:19), so the sorted output overwrites `input.txt` and the final
  readability check is made on `output.txt`. Only file names are affected,
  and the model has none.
- `readline` ends a line at `'\r'`, `'\n'` or `'\r\n'` (`crlfDelay` only
  makes a `'\r\n'` split across two reads count once). The model's input
  lines are assumed free of `'\n'` and `'\r'`. The chunk and merge
  readers split on `'\n'` only, which is exact for the text the program
  writes.
- `MergeChunks`: `once(reader, 'line')` waits for the next event of a
  stream-driven reader. Lines emitted while no listener is attached are lost,
  and the wait after the last line never settles. The model reads the next
  line on demand and reports exhaustion as "no line", as the code at
  index.js:110 expects.
- `Prime`: a chunk file without lines would make the wait at index.js:88 never
  settle. The model returns no result instead.
- `SortLines`: the engine's sort algorithm is not visible, so an insertion
  sort stands for it. `Order.SortedUnique` shows that any correct sort gives
  the same array.
- `Text.Utf8Length`: its own contract states only bounds. The exact byte
  count is its definition; `Partitioner.CostIsByteLength` ties the
  partitioner's running count to it.
- Text with unpaired surrogates: chunk files are written and read back as
  UTF-8 (index.js:45, 56, 62), which turns an unpaired surrogate into U+FFFD.
  The model treats file contents as the same code units that were written, so
  it stands only for input that is well-formed UTF-16.
