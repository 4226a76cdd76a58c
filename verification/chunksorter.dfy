/**
 * The chunk sorter: the second loop of `splitAndSort` (index.js).
 *
 * Each chunk file is loaded, split on '\n', stripped of empty strings,
 * sorted with the default string order, and written back joined with '\n'.
 * The engine's own sorting algorithm is not visible; an in-place insertion
 * sort stands for it. Under a total order the sorted arrangement of a
 * multiset is unique (Order.SortedUnique), so the choice does not change
 * what is written.
 */
module ChunkSorter {
  import opened Order
  import opened Text

  /** Invariant of insertion: the line being inserted sits at `j`, ahead of it `s[..j]` and behind it `s[j+1..i+1]`. */
  ghost predicate Inserting(s: seq<Line>, i: nat, j: nat) {
    && j <= i < |s|
    && Sorted(s[..j])
    && Sorted(s[j..i + 1])
    && (forall k, m | 0 <= k < j < m <= i :: LessEq(s[k], s[m]))
  }

  lemma InsertingStart(s: seq<Line>, i: nat)
    requires i < |s| && Sorted(s[..i])
    ensures Inserting(s, i, i)
  {
  }

  lemma SwapStep(s: seq<Line>, i: nat, j: nat)
    requires Inserting(s, i, j) && 0 < j && Less(s[j], s[j - 1])
    ensures Inserting(s[j - 1 := s[j]][j := s[j - 1]], i, j - 1)
    ensures multiset(s[j - 1 := s[j]][j := s[j - 1]]) == multiset(s)
    ensures s[j - 1 := s[j]][j := s[j - 1]][i + 1..] == s[i + 1..]
  {
    var t := s[j - 1 := s[j]][j := s[j - 1]];
    assert t[i + 1..] == s[i + 1..];
    assert t[..j - 1] == s[..j - 1];
    forall k, m | j - 1 <= k < m <= i
      ensures LessEq(t[k], t[m])
    {
      if k == j - 1 {
        if m == j {
          LessAsymmetric(s[j], s[j - 1]);
        } else {
          assert LessEq(s[j], s[m]) by { assert s[j..i + 1][0] == s[j] && s[j..i + 1][m - j] == s[m]; }
        }
      } else if k == j {
        assert LessEq(s[j - 1], s[m]);
      } else {
        assert s[j..i + 1][k - j] == s[k] && s[j..i + 1][m - j] == s[m];
      }
    }
    forall k, m | 0 <= k < j - 1 < m <= i
      ensures LessEq(t[k], t[m])
    {
      if m == j {
        assert s[..j][k] == s[k] && s[..j][j - 1] == s[j - 1];
      }
    }
  }

  lemma InsertingDone(s: seq<Line>, i: nat, j: nat)
    requires Inserting(s, i, j)
    requires j == 0 || LessEq(s[j - 1], s[j])
    ensures Sorted(s[..i + 1])
  {
    var p := s[..i + 1];
    forall k, m | 0 <= k < m <= i
      ensures LessEq(p[k], p[m])
    {
      if m < j {
        assert s[..j][k] == s[k] && s[..j][m] == s[m];
      } else if j <= k {
        assert s[j..i + 1][k - j] == s[k] && s[j..i + 1][m - j] == s[m];
      } else if m > j {
      } else {
        if k < j - 1 {
          assert s[..j][k] == s[k] && s[..j][j - 1] == s[j - 1];
          LessEqTransitive(s[k], s[j - 1], s[j]);
        }
      }
    }
  }

  /** Moves `a[i]` back into the sorted prefix `a[..i]`, swapping it past every larger line. */
  method InsertLine(a: array<Line>, i: nat)
    requires i < a.Length && Sorted(a[..i])
    modifies a
    ensures Sorted(a[..i + 1])
    ensures multiset(a[..]) == old(multiset(a[..]))
    ensures a[i + 1..] == old(a[i + 1..])
  {
    InsertingStart(a[..], i);
    var j: nat := i;
    while j > 0 && Less(a[j], a[j - 1])
      invariant Inserting(a[..], i, j)
      invariant multiset(a[..]) == old(multiset(a[..]))
      invariant a[i + 1..] == old(a[i + 1..])
    {
      ghost var s := a[..];
      SwapStep(s, i, j);
      a[j - 1], a[j] := a[j], a[j - 1];
      assert a[..] == s[j - 1 := s[j]][j := s[j - 1]];
      j := j - 1;
    }
    InsertingDone(a[..], i, j);
    assert a[..][..i + 1] == a[..i + 1];
  }

  /** `lines.sort()`: rearranges the array into its sorted permutation. */
  method SortLines(a: array<Line>)
    modifies a
    ensures Sorted(a[..])
    ensures multiset(a[..]) == old(multiset(a[..]))
    ensures a[..] == Sort(old(a[..]))
  {
    for i := 0 to a.Length
      invariant Sorted(a[..i])
      invariant multiset(a[..]) == old(multiset(a[..]))
    {
      InsertLine(a, i);
    }
    assert a[..a.Length] == a[..];
    SortSpec(old(a[..]));
    SortedUnique(a[..], Sort(old(a[..])));
  }

  /** The text a chunk file is rewritten with: its non-empty lines, sorted, joined with '\n'. */
  function Rewrite(text: Line): (r: Line)
    ensures FileLines(r) == Sort(ChunkLines(text))
  {
    var sorted := Sort(ChunkLines(text));
    SortedChunkLinesAreLines(text);
    FileLinesOfJoin(sorted);
    Join(sorted)
  }

  /** The sorted lines of a chunk: non-empty and free of '\n'. */
  lemma SortedChunkLinesAreLines(text: Line)
    ensures forall k | 0 <= k < |Sort(ChunkLines(text))| ::
      Sort(ChunkLines(text))[k] != [] && NewLine !in Sort(ChunkLines(text))[k]
  {
    var loaded := ChunkLines(text);
    SortSpec(loaded);
    forall k | 0 <= k < |Sort(loaded)|
      ensures Sort(loaded)[k] != [] && NewLine !in Sort(loaded)[k]
    {
      assert Sort(loaded)[k] in multiset(loaded);
    }
  }

  /**
   * Reading a rewritten chunk file back, by either reader, yields the sorted
   * permutation of the chunk's non-empty lines.
   */
  lemma RewriteReadsBack(text: Line)
    ensures ChunkLines(Rewrite(text)) == Sort(ChunkLines(text))
    ensures FileLines(Rewrite(text)) == Sort(ChunkLines(text))
    ensures Sorted(FileLines(Rewrite(text)))
    ensures multiset(FileLines(Rewrite(text))) == multiset(ChunkLines(text))
  {
    SortSpec(ChunkLines(text));
    SortedChunkLinesAreLines(text);
    ChunkLinesOfJoin(Sort(ChunkLines(text)));
    FileLinesOfJoin(Sort(ChunkLines(text)));
  }

  /** Sorting a chunk file a second time leaves it as it is. */
  lemma RewriteIdempotent(text: Line)
    ensures Rewrite(Rewrite(text)) == Rewrite(text)
  {
    RewriteReadsBack(text);
    SortSpec(ChunkLines(text));
    SortOfSorted(Sort(ChunkLines(text)));
  }

  /** A file that already holds sorted non-empty lines joined by '\n' (no final terminator) is rewritten unchanged. */
  lemma RewriteSorted(text: Line)
    requires Sorted(ChunkLines(text)) && Join(ChunkLines(text)) == text
    ensures Rewrite(text) == text
  {
    SortOfSorted(ChunkLines(text));
  }

  /**
   * Sorts one chunk file (index.js:62-64): loads its lines, drops the empty
   * ones, sorts them in an array, and returns the sorted lines and the text
   * written back.
   */
  method SortChunkFile(text: Line) returns (lines: seq<Line>, rewritten: Line)
    ensures lines == Sort(ChunkLines(text))
    ensures rewritten == Rewrite(text)
    ensures FileLines(rewritten) == lines
  {
    var loaded := ChunkLines(text);
    var a := new Line[|loaded|](k requires 0 <= k < |loaded| => loaded[k]);
    assert a[..] == loaded;
    SortLines(a);
    lines := a[..];
    rewritten := Join(lines);
    RewriteReadsBack(text);
  }
}
