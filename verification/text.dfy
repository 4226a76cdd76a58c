/**
 * The text layer under the sorter: how lines become chunk files and how
 * chunk files become lines again.
 *
 * The partitioner writes each line followed by '\n'; the chunk sorter splits
 * a file on '\n' and drops the empty strings; it writes the sorted lines
 * joined with '\n' (no final terminator); the merger reads a chunk file back
 * line by line. Byte counting follows Node's `Buffer.byteLength`, the length
 * of the UTF-8 encoding.
 */
module Text {
  import opened Order

  const NewLine: CodeUnit := 0x0A
  const CarriageReturn: CodeUnit := 0x0D

  /** What a line reader delivers: text holding no line break. */
  predicate IsLine(l: Line) {
    NewLine !in l && CarriageReturn !in l
  }

  predicate IsHighSurrogate(u: CodeUnit) { 0xD800 <= u < 0xDC00 }
  predicate IsLowSurrogate(u: CodeUnit) { 0xDC00 <= u < 0xE000 }

  /** Code units taken by the first character: two for a surrogate pair, one otherwise. */
  function FirstWidth(s: Line): (w: nat)
    requires s != []
    ensures 1 <= w <= |s|
  {
    if IsHighSurrogate(s[0]) && |s| >= 2 && IsLowSurrogate(s[1]) then 2 else 1
  }

  /**
   * Bytes in the UTF-8 encoding of the first character: 1, 2 or 3 for a code
   * unit below 0x80, 0x800 and 0x10000, 4 for a surrogate pair, and 3 (the
   * replacement character) for an unpaired surrogate.
   */
  function FirstBytes(s: Line): nat
    requires s != []
  {
    if s[0] < 0x80 then 1
    else if s[0] < 0x800 then 2
    else if FirstWidth(s) == 2 then 4
    else 3
  }

  /** `Buffer.byteLength(s, 'utf8')`: bytes in the UTF-8 encoding of a string. */
  function Utf8Length(s: Line): (n: nat)
    ensures |s| <= n <= 3 * |s|
    decreases |s|
  {
    if s == [] then 0 else FirstBytes(s) + Utf8Length(s[FirstWidth(s)..])
  }

  /** UTF-8 lengths add up unless a surrogate pair straddles the seam. */
  lemma {:induction false} Utf8Append(a: Line, b: Line)
    requires a == [] || b == [] || !IsHighSurrogate(a[|a| - 1]) || !IsLowSurrogate(b[0])
    ensures Utf8Length(a + b) == Utf8Length(a) + Utf8Length(b)
    decreases |a|
  {
    var ab := a + b;
    if a == [] {
      assert ab == b;
    } else {
      var w := FirstWidth(a);
      assert ab[0] == a[0];
      assert FirstWidth(ab) == w by {
        if |a| >= 2 { assert ab[1] == a[1]; }
      }
      assert ab[w..] == a[w..] + b;
      Utf8Append(a[w..], b);
    }
  }

  /** Appending a line and its '\n' to text that ends in '\n' adds their byte counts. */
  lemma Utf8AppendLine(t: Line, x: Line)
    requires t == [] || t[|t| - 1] == NewLine
    ensures Utf8Length(t + x + [NewLine]) == Utf8Length(t) + Utf8Length(x) + 1
  {
    Utf8Append(t, x);
    Utf8Append(t + x, [NewLine]);
    assert [NewLine][FirstWidth([NewLine])..] == [];
  }

  /** The concatenation of a sequence of sequences. */
  function Flatten<T>(xss: seq<seq<T>>): seq<T> {
    if xss == [] then [] else xss[0] + Flatten(xss[1..])
  }

  lemma {:induction false} FlattenAppend<T>(xss: seq<seq<T>>, ys: seq<T>)
    ensures Flatten(xss + [ys]) == Flatten(xss) + ys
  {
    if xss == [] {
      assert [] + [ys] == [ys];
    } else {
      assert (xss + [ys])[1..] == xss[1..] + [ys];
      FlattenAppend(xss[1..], ys);
    }
  }

  lemma {:induction false} FlattenConcat<T>(a: seq<seq<T>>, b: seq<seq<T>>)
    ensures Flatten(a + b) == Flatten(a) + Flatten(b)
  {
    if a == [] {
      assert a + b == b;
    } else {
      assert (a + b)[1..] == a[1..] + b;
      FlattenConcat(a[1..], b);
    }
  }

  lemma {:induction false} FlattenAround<T>(xss: seq<seq<T>>, k: nat)
    requires k < |xss|
    ensures Flatten(xss) == Flatten(xss[..k]) + xss[k] + Flatten(xss[k + 1..])
  {
    if k == 0 {
      assert xss[..0] == [] && xss[1..] == xss[k + 1..];
    } else {
      var tail := xss[1..];
      FlattenAround(tail, k - 1);
      assert tail[k - 1] == xss[k] && tail[k..] == xss[k + 1..];
      assert xss[..k][0] == xss[0] && xss[..k][1..] == tail[..k - 1];
      assert Flatten(xss[..k]) == xss[0] + Flatten(tail[..k - 1]);
    }
  }

  lemma {:induction false} FlattenContains<T>(xss: seq<seq<T>>, i: nat, x: T)
    requires i < |xss| && x in xss[i]
    ensures x in Flatten(xss)
  {
    if i > 0 {
      FlattenContains(xss[1..], i - 1, x);
    }
  }

  /** Text of a chunk buffer: every line followed by '\n'. */
  function Terminated(xs: seq<Line>): (t: Line)
    ensures t == [] <==> xs == []
    ensures t != [] ==> t[|t| - 1] == NewLine
  {
    if xs == [] then [] else xs[0] + [NewLine] + Terminated(xs[1..])
  }

  lemma {:induction false} TerminatedAppend(xs: seq<Line>, x: Line)
    ensures Terminated(xs + [x]) == Terminated(xs) + x + [NewLine]
  {
    if xs == [] {
      assert [] + [x] == [x];
    } else {
      assert (xs + [x])[1..] == xs[1..] + [x];
      TerminatedAppend(xs[1..], x);
    }
  }

  /** JavaScript's `s.split('\n')`: the pieces between line feeds, at least one. */
  function Split(s: Line): (parts: seq<Line>)
    ensures |parts| >= 1
    ensures forall i | 0 <= i < |parts| :: NewLine !in parts[i]
  {
    if s == [] then [[]]
    else
      var rest := Split(s[1..]);
      if s[0] == NewLine then [[]] + rest
      else [[s[0]] + rest[0]] + rest[1..]
  }

  /** JavaScript's `xs.join('\n')`. */
  function Join(xs: seq<Line>): (r: Line)
    ensures xs != [] ==> Terminated(xs) == r + [NewLine]
  {
    if xs == [] then []
    else if |xs| == 1 then xs[0]
    else xs[0] + [NewLine] + Join(xs[1..])
  }

  lemma {:induction false} SplitPlain(x: Line)
    requires NewLine !in x
    ensures Split(x) == [x]
  {
    if x != [] {
      assert x[0] != NewLine && NewLine !in x[1..] by {
        assert x[0] in x;
        assert forall u | u in x[1..] :: u in x;
      }
      SplitPlain(x[1..]);
      assert [x[0]] + x[1..] == x;
    }
  }

  lemma {:induction false} SplitAfter(x: Line, y: Line)
    requires NewLine !in x
    ensures Split(x + [NewLine] + y) == [x] + Split(y)
  {
    if x == [] {
      assert [] + [NewLine] + y == [NewLine] + y;
      assert ([NewLine] + y)[1..] == y;
    } else {
      assert (x + [NewLine] + y)[1..] == x[1..] + [NewLine] + y;
      SplitAfter(x[1..], y);
      assert [x[0]] + x[1..] == x;
    }
  }

  /** Splitting a terminated chunk gives back its lines and one empty tail. */
  lemma {:induction false} SplitTerminated(xs: seq<Line>)
    requires forall i | 0 <= i < |xs| :: NewLine !in xs[i]
    ensures Split(Terminated(xs)) == xs + [[]]
  {
    if xs != [] {
      SplitAfter(xs[0], Terminated(xs[1..]));
      SplitTerminated(xs[1..]);
      assert xs == [xs[0]] + xs[1..];
    }
  }

  /** Splitting joined lines gives them back. */
  lemma {:induction false} SplitJoin(xs: seq<Line>)
    requires xs != []
    requires forall i | 0 <= i < |xs| :: NewLine !in xs[i]
    ensures Split(Join(xs)) == xs
  {
    if |xs| == 1 {
      SplitPlain(xs[0]);
    } else {
      SplitAfter(xs[0], Join(xs[1..]));
      SplitJoin(xs[1..]);
      assert xs == [xs[0]] + xs[1..];
    }
  }

  /** JavaScript's `xs.filter(Boolean)` on strings: drops every empty string. */
  function DropEmpty(xs: seq<Line>): (r: seq<Line>)
    ensures forall i | 0 <= i < |r| :: r[i] != [] && r[i] in xs
    ensures forall x | x in xs && x != [] :: x in r
  {
    if xs == [] then []
    else if xs[0] == [] then DropEmpty(xs[1..])
    else [xs[0]] + DropEmpty(xs[1..])
  }

  lemma {:induction false} DropEmptyAppend(xs: seq<Line>, ys: seq<Line>)
    ensures DropEmpty(xs + ys) == DropEmpty(xs) + DropEmpty(ys)
  {
    if xs == [] {
      assert xs + ys == ys;
    } else {
      assert (xs + ys)[0] == xs[0];
      assert (xs + ys)[1..] == xs[1..] + ys;
      DropEmptyAppend(xs[1..], ys);
    }
  }

  lemma {:induction false} DropEmptyKeepsLines(xs: seq<Line>)
    requires forall i | 0 <= i < |xs| :: xs[i] != []
    ensures DropEmpty(xs) == xs
  {
    if xs != [] {
      DropEmptyKeepsLines(xs[1..]);
    }
  }

  /** The lines the chunk sorter loads: `text.split('\n').filter(Boolean)`. */
  function ChunkLines(text: Line): (r: seq<Line>)
    ensures forall i | 0 <= i < |r| :: r[i] != [] && NewLine !in r[i]
  {
    DropEmpty(Split(text))
  }

  /** Loading a chunk file yields the buffered lines, without the empty ones. */
  lemma ChunkLinesOfTerminated(xs: seq<Line>)
    requires forall i | 0 <= i < |xs| :: NewLine !in xs[i]
    ensures ChunkLines(Terminated(xs)) == DropEmpty(xs)
  {
    SplitTerminated(xs);
    DropEmptyAppend(xs, [[]]);
  }

  /** Loading a rewritten chunk file yields exactly the lines written. */
  lemma ChunkLinesOfJoin(xs: seq<Line>)
    requires forall i | 0 <= i < |xs| :: xs[i] != [] && NewLine !in xs[i]
    ensures ChunkLines(Join(xs)) == xs
  {
    if xs != [] {
      SplitJoin(xs);
    }
    DropEmptyKeepsLines(xs);
  }

  /**
   * The lines a line reader delivers from a file's text: the pieces between
   * line feeds, a final empty piece (after a trailing terminator, or of an
   * empty file) yielding no line.
   */
  function FileLines(text: Line): (r: seq<Line>)
    ensures forall i | 0 <= i < |r| :: NewLine !in r[i]
    ensures r <= Split(text) && |Split(text)| <= |r| + 1
  {
    var parts := Split(text);
    if parts[|parts| - 1] == [] then parts[..|parts| - 1] else parts
  }

  /** Reading a rewritten chunk file line by line yields exactly the lines written. */
  lemma FileLinesOfJoin(xs: seq<Line>)
    requires forall i | 0 <= i < |xs| :: xs[i] != [] && NewLine !in xs[i]
    ensures FileLines(Join(xs)) == xs
  {
    if xs != [] {
      SplitJoin(xs);
    }
  }

}
