/**
 * The merger: `mergeChunks` (index.js).
 *
 * One reader is opened per sorted chunk and primed with its first line; the
 * live cursors, each a reader with its current head line, are kept in an
 * array. Until no cursor is left, a linear scan picks the cursor with the
 * smallest head (the first one among equal heads), the head is written to
 * the output, and the cursor either takes its reader's next line or, once
 * the reader is exhausted, is spliced out of the array.
 */
module Merger {
  import opened Wrappers
  import opened Order
  import opened Text

  /** A sequential reader over one chunk: its lines and how many have been delivered. */
  datatype Reader = Reader(lines: seq<Line>, pos: nat)

  /** Awaiting the reader's next `'line'` event: the next line, or nothing once it is exhausted. */
  function NextLine(r: Reader): (o: Option<Line>)
    ensures o.None? <==> r.pos >= |r.lines|
    ensures o.Some? ==> r.pos < |r.lines| && [o.value] + Consumed(r).lines[Consumed(r).pos..] == r.lines[r.pos..]
  {
    if r.pos < |r.lines| then Some(r.lines[r.pos]) else None
  }

  /** The reader after it has delivered a line. */
  function Consumed(r: Reader): Reader {
    r.(pos := r.pos + 1)
  }

  /** An entry `{reader, line}` of `currentLines`: a reader and the head line it delivered last. */
  datatype Cursor = Cursor(reader: Reader, line: Line)

  /** The cursor after its reader delivered its next line, which becomes the head. */
  function Successor(c: Cursor): Cursor
    requires c.reader.pos < |c.reader.lines|
  {
    Cursor(Consumed(c.reader), c.reader.lines[c.reader.pos])
  }

  /** The head is the line the reader delivered last. */
  ghost predicate Live(c: Cursor) {
    1 <= c.reader.pos <= |c.reader.lines| && c.line == c.reader.lines[c.reader.pos - 1]
  }

  /** The lines of a cursor's chunk not yet written: its head and what its reader still holds. */
  function Unconsumed(c: Cursor): seq<Line> {
    if 1 <= c.reader.pos <= |c.reader.lines| then c.reader.lines[c.reader.pos - 1..] else []
  }

  /** The unwritten lines of each cursor, cursor by cursor. */
  function Backlog(cs: seq<Cursor>): (r: seq<seq<Line>>)
    ensures |r| == |cs|
  {
    seq(|cs|, i requires 0 <= i < |cs| => Unconsumed(cs[i]))
  }

  /** The lines of all live cursors not yet written. */
  function Pending(cs: seq<Cursor>): seq<Line> {
    Flatten(Backlog(cs))
  }

  /** The cursor a chunk is primed with: its reader has delivered the first line. */
  function Primed(chunk: seq<Line>): Cursor
    requires chunk != []
  {
    Cursor(Reader(chunk, 1), chunk[0])
  }

  /** Before anything is written, the pending lines are all chunks' lines, in order. */
  lemma PendingPrimed(chunks: seq<seq<Line>>, cs: seq<Cursor>)
    requires |cs| == |chunks|
    requires forall i | 0 <= i < |chunks| :: chunks[i] != [] && cs[i] == Primed(chunks[i])
    ensures Pending(cs) == Flatten(chunks)
  {
    forall i | 0 <= i < |chunks|
      ensures Backlog(cs)[i] == chunks[i]
    {
      assert chunks[i][0..] == chunks[i];
    }
    assert Backlog(cs) == chunks;
  }

  /**
   * Priming (index.js:86-90): one cursor per chunk, in chunk order, holding
   * the chunk's first line. A chunk without lines never delivers one, so the
   * merge never gets past priming: the result is None.
   */
  method Prime(chunks: seq<seq<Line>>) returns (cursors: Option<seq<Cursor>>)
    ensures cursors.None? <==> exists i | 0 <= i < |chunks| :: chunks[i] == []
    ensures cursors.Some? ==>
      && |cursors.value| == |chunks|
      && forall i | 0 <= i < |chunks| :: chunks[i] != [] && cursors.value[i] == Primed(chunks[i])
  {
    var currentLines: seq<Cursor> := [];
    for i := 0 to |chunks|
      invariant |currentLines| == i
      invariant forall j | 0 <= j < i :: chunks[j] != [] && currentLines[j] == Primed(chunks[j])
    {
      var reader := Reader(chunks[i], 0);
      var line := NextLine(reader);
      if line.None? {
        return None;
      }
      currentLines := currentLines + [Cursor(Consumed(reader), line.value)];
    }
    cursors := Some(currentLines);
  }

  /**
   * The selection scan (index.js:94-101): the index of a smallest head.
   * The comparison is strict, so among equal smallest heads the first wins.
   */
  method SelectMin(cs: seq<Cursor>) returns (minIndex: nat)
    requires cs != []
    ensures minIndex < |cs|
    ensures forall j | 0 <= j < |cs| :: LessEq(cs[minIndex].line, cs[j].line)
    ensures forall j | 0 <= j < minIndex :: Less(cs[minIndex].line, cs[j].line)
  {
    var minLine := cs[0].line;
    minIndex := 0;
    LessEqReflexive(minLine);
    for i := 1 to |cs|
      invariant minIndex < i && minLine == cs[minIndex].line
      invariant forall j | 0 <= j < i :: LessEq(minLine, cs[j].line)
      invariant forall j | 0 <= j < minIndex :: Less(minLine, cs[j].line)
    {
      if Less(cs[i].line, minLine) {
        forall j | 0 <= j < i
          ensures Less(cs[i].line, cs[j].line) && LessEq(cs[i].line, cs[j].line)
        {
          LessLessEqTransitive(cs[i].line, minLine, cs[j].line);
          LessAsymmetric(cs[i].line, cs[j].line);
        }
        LessEqReflexive(cs[i].line);
        minLine := cs[i].line;
        minIndex := i;
      }
    }
  }

  /**
   * The advance step (index.js:107-117): reads the chosen cursor's next line.
   * If there is one, it becomes that cursor's head and nothing else changes;
   * otherwise that cursor alone is removed and the others keep their order.
   * Either way exactly the written head leaves the pending lines.
   */
  method Advance(cs: seq<Cursor>, minIndex: nat) returns (next: seq<Cursor>)
    requires minIndex < |cs| && Live(cs[minIndex])
    ensures var r := cs[minIndex].reader;
      r.pos < |r.lines| ==> next == cs[minIndex := Successor(cs[minIndex])]
    ensures var r := cs[minIndex].reader;
      r.pos == |r.lines| ==> next == cs[..minIndex] + cs[minIndex + 1..]
    ensures multiset(Pending(next)) + multiset{cs[minIndex].line} == multiset(Pending(cs))
    ensures |Pending(next)| < |Pending(cs)|
  {
    var reader := cs[minIndex].reader;
    var line := NextLine(reader);
    if line.Some? {
      var c := Cursor(Consumed(reader), line.value);
      assert c == Successor(cs[minIndex]);
      next := cs[minIndex := c];
      PendingReplace(cs, minIndex, c);
    } else {
      next := cs[..minIndex] + cs[minIndex + 1..];
      PendingRemove(cs, minIndex);
    }
    assert |multiset(Pending(next))| == |Pending(next)|;
    assert |multiset(Pending(cs))| == |Pending(cs)|;
  }

  /** Taking the next line as head removes exactly the old head from the pending lines. */
  lemma PendingReplace(cs: seq<Cursor>, k: nat, c: Cursor)
    requires k < |cs| && Live(cs[k])
    requires cs[k].reader.pos < |cs[k].reader.lines|
    requires c == Cursor(Consumed(cs[k].reader), cs[k].reader.lines[cs[k].reader.pos])
    ensures multiset(Pending(cs[k := c])) + multiset{cs[k].line} == multiset(Pending(cs))
  {
    var before, after := Backlog(cs), Backlog(cs[k := c]);
    assert after == before[k := Unconsumed(c)];
    assert after[..k] == before[..k] && after[k + 1..] == before[k + 1..];
    var r := cs[k].reader;
    assert before[k] == r.lines[r.pos - 1..] && after[k] == r.lines[r.pos..];
    assert r.lines[r.pos - 1..] == [r.lines[r.pos - 1]] + r.lines[r.pos..];
    assert before[k] == [cs[k].line] + after[k];
    FlattenAround(before, k);
    FlattenAround(after, k);
  }

  /** Dropping an exhausted cursor removes exactly its head from the pending lines. */
  lemma PendingRemove(cs: seq<Cursor>, k: nat)
    requires k < |cs| && Live(cs[k])
    requires cs[k].reader.pos == |cs[k].reader.lines|
    ensures multiset(Pending(cs[..k] + cs[k + 1..])) + multiset{cs[k].line} == multiset(Pending(cs))
  {
    var b := Backlog(cs);
    assert Backlog(cs[..k] + cs[k + 1..]) == b[..k] + b[k + 1..];
    assert b[k] == [cs[k].line];
    FlattenConcat(b[..k], b[k + 1..]);
    FlattenAround(b, k);
  }

  /** Every chunk is sorted. */
  ghost predicate AllSorted(chunks: seq<seq<Line>>) {
    forall i | 0 <= i < |chunks| :: Sorted(chunks[i])
  }

  /**
   * After an advance, every cursor is still live and reads one of the chunks;
   * when the chunks are sorted, the output with the written head is sorted and
   * no head is smaller than the line just written.
   */
  lemma AdvanceKeepsCursors(chunks: seq<seq<Line>>, cs: seq<Cursor>, k: nat, next: seq<Cursor>, output: seq<Line>)
    requires k < |cs|
    requires AllSorted(chunks) ==> Sorted(output)
    requires AllSorted(chunks) && output != [] ==> forall c | c in cs :: LessEq(output[|output| - 1], c.line)
    requires forall c | c in cs :: Live(c) && c.reader.lines in chunks
    requires forall j | 0 <= j < |cs| :: LessEq(cs[k].line, cs[j].line)
    requires var r := cs[k].reader;
      r.pos < |r.lines| ==> next == cs[k := Successor(cs[k])]
    requires var r := cs[k].reader;
      r.pos == |r.lines| ==> next == cs[..k] + cs[k + 1..]
    ensures forall c | c in next :: Live(c) && c.reader.lines in chunks
    ensures AllSorted(chunks) ==> Sorted(output + [cs[k].line])
    ensures AllSorted(chunks) ==> forall c | c in next :: LessEq(cs[k].line, c.line)
  {
    assert cs[k] in cs;
    if AllSorted(chunks) {
      SortedAppend(output, cs[k].line);
    }
    var r := cs[k].reader;
    forall c | c in next
      ensures Live(c) && c.reader.lines in chunks
      ensures AllSorted(chunks) ==> LessEq(cs[k].line, c.line)
    {
      var j :| 0 <= j < |next| && next[j] == c;
      if r.pos == |r.lines| {
        assert c in cs[..k] || c in cs[k + 1..];
        assert c in cs;
      }
      if c in cs {
        var j :| 0 <= j < |cs| && cs[j] == c;
      } else {
        assert r.pos < |r.lines| && c == Successor(cs[k]);
        if AllSorted(chunks) {
          var i :| 0 <= i < |chunks| && chunks[i] == r.lines;
          assert Sorted(r.lines);
        }
      }
    }
  }

  /** What holds of the cursors and the output at the top of the merge loop. */
  ghost predicate Merging(chunks: seq<seq<Line>>, cs: seq<Cursor>, output: seq<Line>) {
    && (forall c | c in cs :: Live(c) && c.reader.lines in chunks)
    && (AllSorted(chunks) ==> Sorted(output))
    && (AllSorted(chunks) && output != [] ==> forall c | c in cs :: LessEq(output[|output| - 1], c.line))
  }

  /**
   * One turn of the merge loop (index.js:92-118): selects the smallest head
   * (the first of equal ones), writes exactly that head, and advances its
   * cursor, which takes its reader's next line or is spliced out.
   */
  method MergeStep(chunks: seq<seq<Line>>, cs: seq<Cursor>, output: seq<Line>)
    returns (next: seq<Cursor>, written: seq<Line>, minIndex: nat)
    requires cs != [] && Merging(chunks, cs, output)
    ensures minIndex < |cs|
    ensures forall j | 0 <= j < |cs| :: LessEq(cs[minIndex].line, cs[j].line)
    ensures forall j | 0 <= j < minIndex :: Less(cs[minIndex].line, cs[j].line)
    ensures written == output + [cs[minIndex].line]
    ensures var r := cs[minIndex].reader;
      r.pos < |r.lines| ==> next == cs[minIndex := Successor(cs[minIndex])]
    ensures var r := cs[minIndex].reader;
      r.pos == |r.lines| ==> next == cs[..minIndex] + cs[minIndex + 1..]
    ensures Merging(chunks, next, written)
    ensures multiset(written) + multiset(Pending(next)) == multiset(output) + multiset(Pending(cs))
    ensures |Pending(next)| < |Pending(cs)|
  {
    minIndex := SelectMin(cs);
    next := Advance(cs, minIndex);
    AdvanceKeepsCursors(chunks, cs, minIndex, next, output);
    written := output + [cs[minIndex].line];
  }

  /**
   * The merge loop (index.js:92-118): writes the smallest head until no
   * cursor is left. The output holds exactly the pending lines, and when
   * every chunk is sorted it is sorted.
   */
  method MergeCursors(chunks: seq<seq<Line>>, cursors: seq<Cursor>) returns (output: seq<Line>)
    requires forall c | c in cursors :: Live(c) && c.reader.lines in chunks
    ensures multiset(output) == multiset(Pending(cursors))
    ensures AllSorted(chunks) ==> Sorted(output)
  {
    var currentLines := cursors;
    output := [];
    while currentLines != []
      invariant Merging(chunks, currentLines, output)
      invariant multiset(output) + multiset(Pending(currentLines)) == multiset(Pending(cursors))
      decreases |Pending(currentLines)|
    {
      var next, written, minIndex := MergeStep(chunks, currentLines, output);
      currentLines, output := next, written;
    }
  }

  /**
   * `mergeChunks` (index.js:86-118) over the lines of each chunk. None when
   * some chunk has no line and priming never completes. Otherwise the output
   * holds exactly the chunks' lines, and when every chunk is sorted it is
   * their sorted permutation.
   */
  method MergeChunks(chunks: seq<seq<Line>>) returns (result: Option<seq<Line>>)
    ensures result.None? <==> exists i | 0 <= i < |chunks| :: chunks[i] == []
    ensures result.Some? ==> multiset(result.value) == multiset(Flatten(chunks))
    ensures result.Some? && AllSorted(chunks) ==> Sorted(result.value)
    ensures result.Some? && AllSorted(chunks) ==> result.value == Sort(Flatten(chunks))
  {
    var primed := Prime(chunks);
    if primed.None? {
      return None;
    }
    var cursors := primed.value;
    PendingPrimed(chunks, cursors);
    forall c | c in cursors
      ensures Live(c) && c.reader.lines in chunks
    {
      var i :| 0 <= i < |cursors| && cursors[i] == c;
    }
    var output := MergeCursors(chunks, cursors);
    if AllSorted(chunks) {
      SortSpec(Flatten(chunks));
      SortedUnique(output, Sort(Flatten(chunks)));
    }
    result := Some(output);
  }
}
