/**
 * The order in which the sorter arranges lines.
 *
 * A line is a JavaScript string, i.e. a sequence of UTF-16 code units.
 * Both `a < b` on strings and the default comparator of `Array.prototype.sort`
 * compare strings lexicographically by code unit, a proper prefix coming first.
 * Dafny's own `<` on sequences means "proper prefix", so the order is defined
 * here and proved to be a total order.
 */
module Order {

  /** One UTF-16 code unit. */
  newtype CodeUnit = x: int | 0 <= x < 0x1_0000

  /** A line of text, without its terminator. */
  type Line = seq<CodeUnit>

  /** JavaScript's `a < b` on two strings. */
  predicate Less(a: Line, b: Line)
    ensures Less(a, b) ==> a != b
    decreases |a|
  {
    if b == [] then false
    else if a == [] then true
    else if a[0] != b[0] then a[0] < b[0]
    else Less(a[1..], b[1..])
  }

  /** `a` may come before `b` in sorted output. */
  predicate LessEq(a: Line, b: Line) {
    !Less(b, a)
  }

  lemma {:induction false} LessTransitive(a: Line, b: Line, c: Line)
    requires Less(a, b) && Less(b, c)
    ensures Less(a, c)
    decreases |a|
  {
    if a != [] && a[0] == b[0] && b[0] == c[0] {
      LessTransitive(a[1..], b[1..], c[1..]);
    }
  }

  lemma {:induction false} LessTrichotomy(a: Line, b: Line)
    ensures Less(a, b) || a == b || Less(b, a)
    decreases |a|
  {
    if a != [] && b != [] && a[0] == b[0] {
      LessTrichotomy(a[1..], b[1..]);
      if a[1..] == b[1..] {
        assert a == [a[0]] + a[1..] && b == [b[0]] + b[1..];
      }
    }
  }

  lemma LessAsymmetric(a: Line, b: Line)
    requires Less(a, b)
    ensures !Less(b, a)
  {
    if Less(b, a) {
      LessTransitive(a, b, a);
    }
  }

  lemma LessEqReflexive(a: Line)
    ensures LessEq(a, a)
  {
  }

  lemma LessEqTotal(a: Line, b: Line)
    ensures LessEq(a, b) || LessEq(b, a)
  {
    if Less(a, b) {
      LessAsymmetric(a, b);
    }
  }

  lemma LessEqAntisymmetric(a: Line, b: Line)
    requires LessEq(a, b) && LessEq(b, a)
    ensures a == b
  {
    LessTrichotomy(a, b);
  }

  lemma LessEqTransitive(a: Line, b: Line, c: Line)
    requires LessEq(a, b) && LessEq(b, c)
    ensures LessEq(a, c)
  {
    if Less(c, a) {
      LessTrichotomy(a, b);
      if Less(a, b) {
        LessTransitive(c, a, b);
      }
    }
  }

  lemma LessLessEqTransitive(a: Line, b: Line, c: Line)
    requires Less(a, b) && LessEq(b, c)
    ensures Less(a, c)
  {
    LessTrichotomy(b, c);
    if Less(b, c) {
      LessTransitive(a, b, c);
    }
  }

  /** Every pair of lines, in order, is in non-decreasing order. */
  ghost predicate Sorted(s: seq<Line>) {
    forall i, j | 0 <= i < j < |s| :: LessEq(s[i], s[j])
  }

  /** Appending a line no smaller than the last keeps a sequence sorted. */
  lemma SortedAppend(s: seq<Line>, x: Line)
    requires Sorted(s)
    requires s != [] ==> LessEq(s[|s| - 1], x)
    ensures Sorted(s + [x])
  {
    var t := s + [x];
    forall i, j | 0 <= i < j < |t|
      ensures LessEq(t[i], t[j])
    {
      if j == |s| && i < |s| - 1 {
        LessEqTransitive(s[i], s[|s| - 1], x);
      }
    }
  }

  /** Insertion of one line into a sequence, before the first line not smaller than it. */
  function Insert(x: Line, s: seq<Line>): seq<Line> {
    if s == [] then [x]
    else if LessEq(x, s[0]) then [x] + s
    else [s[0]] + Insert(x, s[1..])
  }

  /** Insertion adds exactly the line. */
  lemma {:induction false} InsertPermutes(x: Line, s: seq<Line>)
    ensures multiset(Insert(x, s)) == multiset(s) + multiset{x}
  {
    if s != [] && !LessEq(x, s[0]) {
      InsertPermutes(x, s[1..]);
      assert s == [s[0]] + s[1..];
    }
  }

  /** A lower bound of a line and of a sequence bounds the sequence with the line inserted. */
  lemma {:induction false} InsertBounded(y: Line, x: Line, s: seq<Line>)
    requires LessEq(y, x)
    requires forall j | 0 <= j < |s| :: LessEq(y, s[j])
    ensures forall j | 0 <= j < |Insert(x, s)| :: LessEq(y, Insert(x, s)[j])
  {
    if s != [] && !LessEq(x, s[0]) {
      InsertBounded(y, x, s[1..]);
      assert Insert(x, s) == [s[0]] + Insert(x, s[1..]);
    }
  }

  /** A line no larger than any line of a sorted sequence can go in front of it. */
  lemma SortedCons(y: Line, s: seq<Line>)
    requires Sorted(s)
    requires forall j | 0 <= j < |s| :: LessEq(y, s[j])
    ensures Sorted([y] + s)
  {
    forall i, j | 0 <= i < j < |s| + 1
      ensures LessEq(([y] + s)[i], ([y] + s)[j])
    {
      if i > 0 {
        assert ([y] + s)[i] == s[i - 1];
      }
    }
  }

  /** Insertion keeps a sorted sequence sorted. */
  lemma {:induction false} InsertSorted(x: Line, s: seq<Line>)
    requires Sorted(s)
    ensures Sorted(Insert(x, s))
  {
    if s == [] {
    } else if LessEq(x, s[0]) {
      forall j | 0 <= j < |s|
        ensures LessEq(x, s[j])
      {
        if j > 0 {
          LessEqTransitive(x, s[0], s[j]);
        }
      }
      SortedCons(x, s);
    } else {
      InsertSorted(x, s[1..]);
      LessEqTotal(x, s[0]);
      InsertBounded(s[0], x, s[1..]);
      SortedCons(s[0], Insert(x, s[1..]));
    }
  }

  /** The reference sort: insertion sort. */
  function Sort(s: seq<Line>): seq<Line> {
    if s == [] then [] else Insert(s[0], Sort(s[1..]))
  }

  /** Sort returns the sorted permutation of its input. */
  lemma {:induction false} SortSpec(s: seq<Line>)
    ensures Sorted(Sort(s))
    ensures multiset(Sort(s)) == multiset(s)
  {
    if s != [] {
      SortSpec(s[1..]);
      InsertPermutes(s[0], Sort(s[1..]));
      InsertSorted(s[0], Sort(s[1..]));
      assert s == [s[0]] + s[1..];
    }
  }

  /** Sorting yields nothing exactly when there is nothing to sort. */
  lemma SortEmpty(s: seq<Line>)
    ensures Sort(s) == [] <==> s == []
  {
    SortSpec(s);
    assert |multiset(Sort(s))| == |Sort(s)| && |multiset(s)| == |s|;
  }

  /** The first line of a sorted sequence is no larger than any of its lines. */
  lemma SortedHeadIsLeast(s: seq<Line>, x: Line)
    requires Sorted(s) && x in s
    ensures LessEq(s[0], x)
  {
    var i :| 0 <= i < |s| && s[i] == x;
    if i == 0 {
      LessEqReflexive(x);
    }
  }

  lemma MultisetTail(a: seq<Line>, b: seq<Line>)
    requires a != [] && b != [] && a[0] == b[0]
    requires multiset(a) == multiset(b)
    ensures multiset(a[1..]) == multiset(b[1..])
  {
    assert a == [a[0]] + a[1..] && b == [b[0]] + b[1..];
    calc {
      multiset(a[1..]);
      multiset(a) - multiset{a[0]};
      multiset(b) - multiset{b[0]};
      multiset(b[1..]);
    }
  }

  /** Under a total order, a multiset has exactly one sorted arrangement. */
  lemma {:induction false} SortedUnique(a: seq<Line>, b: seq<Line>)
    requires Sorted(a) && Sorted(b)
    requires multiset(a) == multiset(b)
    ensures a == b
    decreases |a|
  {
    if a == [] {
      assert |multiset(b)| == 0;
    } else {
      assert |multiset(b)| == |a|;
      assert a[0] in multiset(b) && b[0] in multiset(a);
      SortedHeadIsLeast(a, b[0]);
      SortedHeadIsLeast(b, a[0]);
      LessEqAntisymmetric(a[0], b[0]);
      MultisetTail(a, b);
      SortedUnique(a[1..], b[1..]);
      assert a == [a[0]] + a[1..] && b == [b[0]] + b[1..];
    }
  }

  /** Sorting is the identity on sorted sequences, so sorting twice is sorting once. */
  lemma SortOfSorted(s: seq<Line>)
    requires Sorted(s)
    ensures Sort(s) == s
  {
    SortSpec(s);
    SortedUnique(Sort(s), s);
  }
}
