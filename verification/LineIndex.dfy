/**
 * Line and column of a byte offset in UTF-8 text. A source is its sequence of Unicode scalar
 * values; how many bytes each occupies is section 3 of RFC 3629.
 */
module LineIndex {

  datatype Pos = Pos(line: nat, column: nat, byte: nat)

  datatype Span = Span(start: Pos, end: Pos)

  /** Bytes of one encoded scalar value. */
  function EncodedLength(c: char): (n: nat)
    ensures 1 <= n <= 4
  {
    var code := c as int;
    if code < 0x80 then 1 else if code < 0x800 then 2 else if code < 0x1_0000 then 3 else 4
  }

  function ByteLength(s: string): nat
  {
    if s == "" then 0 else ByteLength(s[..|s| - 1]) + EncodedLength(s[|s| - 1])
  }

  /** Byte offset of character `k`. */
  function Offset(s: string, k: nat): nat
    requires k <= |s|
  {
    ByteLength(s[..k])
  }

  lemma {:induction false} OffsetIncreases(s: string, j: nat, k: nat)
    requires j < k <= |s|
    ensures Offset(s, j) + (k - j) <= Offset(s, k)
  {
    assert s[..k][..k - 1] == s[..k - 1];
    if j < k - 1 {
      OffsetIncreases(s, j, k - 1);
    }
  }

  lemma OffsetOfPrefix(s: string, n: nat, k: nat)
    requires k <= n <= |s|
    ensures Offset(s[..n], k) == Offset(s, k)
  {
    assert s[..n][..k] == s[..k];
  }

  // ---------------------------------------------------------------- the index

  /** Byte offset of the start of each line, always beginning with 0. */
  function LineStarts(s: string): (starts: seq<nat>)
    ensures |starts| > 0
  {
    if s == "" then [0]
    else LineStarts(s[..|s| - 1]) + if s[|s| - 1] == '\n' then [ByteLength(s)] else []
  }

  ghost predicate Increasing(starts: seq<nat>)
  {
    forall i, j :: 0 <= i < j < |starts| ==> starts[i] < starts[j]
  }

  /** Where the starts at or before `byte` end, by halving the range that still holds the answer. */
  function PartitionPoint(starts: seq<nat>, byte: nat, lo: nat, hi: nat): (at: nat)
    requires lo <= hi <= |starts| && Increasing(starts)
    requires lo > 0 ==> starts[lo - 1] <= byte
    requires hi < |starts| ==> byte < starts[hi]
    ensures at <= |starts|
    ensures forall i :: 0 <= i < at ==> starts[i] <= byte
    ensures forall i :: at <= i < |starts| ==> byte < starts[i]
    decreases hi - lo
  {
    if lo == hi then lo
    else
      var mid := (lo + hi) / 2;
      if starts[mid] <= byte then PartitionPoint(starts, byte, mid + 1, hi)
      else PartitionPoint(starts, byte, lo, mid)
  }

  function LineOf(starts: seq<nat>, byte: nat): nat
    requires Increasing(starts)
  {
    PartitionPoint(starts, byte, 0, |starts|)
  }

  /** The last character that starts at or before `byte`, or the end of the text. */
  function FloorIndex(s: string, byte: nat): (k: nat)
    ensures k <= |s|
  {
    if s == "" || ByteLength(s) <= byte then |s| else FloorIndex(s[..|s| - 1], byte)
  }

  function FloorCharBoundary(s: string, byte: nat): nat { Offset(s, FloorIndex(s, byte)) }

  /** Characters in the slice of the text between two boundaries. */
  function CharsBetween(s: string, from: nat, to: nat): int { FloorIndex(s, to) - FloorIndex(s, from) }

  function Position(s: string, at: nat): Pos
  {
    var byte := FloorCharBoundary(s, at);
    StartsIncrease(s);
    var starts := LineStarts(s);
    var line := LineOf(starts, byte);
    PositionSteps(s, FloorIndex(s, at));
    var column := CharsBetween(s, starts[line - 1], byte);
    Pos(line, column + 1, byte)
  }

  function SpanOf(s: string, start: nat, end: nat): Span { Span(Position(s, start), Position(s, end)) }

  function EndOf(s: string): Span { SpanOf(s, ByteLength(s), ByteLength(s)) }

  // ---------------------------------------------------------------- plain counting

  function Newlines(s: string): nat
  {
    if s == "" then 0 else Newlines(s[..|s| - 1]) + if s[|s| - 1] == '\n' then 1 else 0
  }

  /** The character just after the last newline, where the last line begins. */
  function LastLine(s: string): (k: nat)
    ensures k <= |s|
    ensures k > 0 ==> s[k - 1] == '\n'
    ensures forall i :: k <= i < |s| ==> s[i] != '\n'
  {
    if s == "" then 0 else if s[|s| - 1] == '\n' then |s| else LastLine(s[..|s| - 1])
  }

  /** The position of character `k` by plain counting. */
  function Counted(s: string, k: nat): Pos
    requires k <= |s|
  {
    Pos(1 + Newlines(s[..k]), 1 + (k - LastLine(s[..k])), Offset(s, k))
  }

  // ---------------------------------------------------------------- flooring

  lemma {:induction false} FloorIndexIs(s: string, byte: nat, k: nat)
    requires k <= |s| && Offset(s, k) <= byte
    requires k < |s| ==> byte < Offset(s, k + 1)
    ensures FloorIndex(s, byte) == k
  {
    assert s[..|s|] == s;
    if k < |s| {
      if k + 1 < |s| {
        OffsetIncreases(s, k + 1, |s|);
      }
      OffsetOfPrefix(s, |s| - 1, k);
      if k + 1 < |s| {
        OffsetOfPrefix(s, |s| - 1, k + 1);
      }
      FloorIndexIs(s[..|s| - 1], byte, k);
    }
  }

  /** Flooring brackets the offset between a boundary and the next. */
  lemma {:induction false} FloorBrackets(s: string, byte: nat)
    ensures Offset(s, FloorIndex(s, byte)) <= byte
    ensures FloorIndex(s, byte) < |s| ==> byte < Offset(s, FloorIndex(s, byte) + 1)
    ensures ByteLength(s) <= byte ==> FloorIndex(s, byte) == |s|
  {
    hide EncodedLength;
    assert s[..|s|] == s;
    if s != "" && byte < ByteLength(s) {
      var init, k := s[..|s| - 1], FloorIndex(s, byte);
      FloorBrackets(init, byte);
      OffsetOfPrefix(s, |s| - 1, k);
      if k < |init| {
        OffsetOfPrefix(s, |s| - 1, k + 1);
      }
    }
  }

  /**
   * Flooring clamps: it lands on the greatest boundary at or before the offset, an offset past the
   * end lands on the end, and only a boundary is left where it is.
   */
  lemma FloorClamps(s: string, byte: nat)
    ensures FloorCharBoundary(s, byte) <= byte
    ensures forall j :: 0 <= j <= |s| && Offset(s, j) <= byte ==> Offset(s, j) <= FloorCharBoundary(s, byte)
    ensures ByteLength(s) <= byte ==> FloorCharBoundary(s, byte) == ByteLength(s)
    ensures FloorIndex(s, byte) < |s| ==> byte < Offset(s, FloorIndex(s, byte) + 1)
  {
    hide ByteLength, FloorIndex;
    FloorBrackets(s, byte);
    assert s[..|s|] == s;
    var k := FloorIndex(s, byte);
    forall j | 0 <= j <= |s| && Offset(s, j) <= byte ensures Offset(s, j) <= Offset(s, k) {
      if j < k {
        OffsetIncreases(s, j, k);
      } else if k + 1 < j {
        OffsetIncreases(s, k + 1, j);
      }
    }
  }

  lemma FloorOfBoundary(s: string, k: nat)
    requires k <= |s|
    ensures FloorIndex(s, Offset(s, k)) == k
  {
    if k < |s| {
      OffsetIncreases(s, k, k + 1);
    }
    FloorIndexIs(s, Offset(s, k), k);
  }

  // ---------------------------------------------------------------- the index agrees with counting

  lemma {:induction false} StartsIncrease(s: string)
    ensures Increasing(LineStarts(s))
    ensures forall i :: 0 <= i < |LineStarts(s)| ==> LineStarts(s)[i] <= ByteLength(s)
  {
    if s != "" {
      StartsIncrease(s[..|s| - 1]);
    }
  }

  /** One start a newline and one for the first line; the last start is where the last line begins. */
  lemma {:induction false} StartsCount(s: string)
    ensures |LineStarts(s)| == 1 + Newlines(s)
    ensures LineStarts(s)[|LineStarts(s)| - 1] == Offset(s, LastLine(s))
  {
    if s != "" {
      StartsCount(s[..|s| - 1]);
      assert s[..|s|] == s;
      OffsetOfPrefix(s, |s| - 1, LastLine(s[..|s| - 1]));
    }
  }

  /** The starts of a prefix are a prefix of the starts, and every later start lies past it. */
  lemma {:induction false} StartsOfPrefix(s: string, k: nat)
    requires k <= |s|
    ensures LineStarts(s[..k]) <= LineStarts(s)
    ensures forall i :: |LineStarts(s[..k])| <= i < |LineStarts(s)| ==> Offset(s, k) < LineStarts(s)[i]
  {
    hide EncodedLength;
    assert s[..|s|] == s;
    if k < |s| {
      var init := s[..|s| - 1];
      StartsOfPrefix(init, k);
      assert init[..k] == s[..k];
      OffsetOfPrefix(s, |s| - 1, k);
      OffsetIncreases(s, k, |s|);
    }
  }

  lemma SplitIsUnique(starts: seq<nat>, m: nat, n: nat, byte: nat)
    requires m <= |starts| && n <= |starts|
    requires forall i :: 0 <= i < m ==> starts[i] <= byte
    requires forall i :: m <= i < |starts| ==> byte < starts[i]
    requires forall i :: 0 <= i < n ==> starts[i] <= byte
    requires forall i :: n <= i < |starts| ==> byte < starts[i]
    ensures m == n
  {
    assert m < |starts| ==> byte < starts[m];
    assert n < |starts| ==> byte < starts[n];
  }

  lemma PositionSteps(s: string, k: nat)
    requires k <= |s|
    ensures Increasing(LineStarts(s))
    ensures var line := LineOf(LineStarts(s), Offset(s, k));
      && line == 1 + Newlines(s[..k]) && line <= |LineStarts(s)|
      && LineStarts(s)[line - 1] == Offset(s, LastLine(s[..k]))
      && CharsBetween(s, LineStarts(s)[line - 1], Offset(s, k)) == k - LastLine(s[..k])
  {
    hide LineStarts, ByteLength, PartitionPoint, Newlines, LastLine, FloorIndex;
    var starts, prefix := LineStarts(s), LineStarts(s[..k]);
    StartsIncrease(s);
    StartsIncrease(s[..k]);
    StartsCount(s[..k]);
    StartsOfPrefix(s, k);
    assert s[..k][..LastLine(s[..k])] == s[..LastLine(s[..k])];
    var line := LineOf(starts, Offset(s, k));
    SplitIsUnique(starts, |prefix|, line, Offset(s, k));
    assert starts[line - 1] == prefix[line - 1];
    FloorOfBoundary(s, k);
    FloorOfBoundary(s, LastLine(s[..k]));
  }

  /** The indexed position of any offset is the counted position of the character it floors to. */
  lemma PositionIsCounted(s: string, byte: nat)
    ensures Position(s, byte) == Counted(s, FloorIndex(s, byte))
  {
    hide LineStarts, LineOf, PartitionPoint, Offset, CharsBetween, Increasing, Newlines, LastLine, FloorIndex;
    PositionSteps(s, FloorIndex(s, byte));
  }

  predicate Before(a: Pos, b: Pos) { a.line < b.line || (a.line == b.line && a.column < b.column) }

  lemma {:induction false} CountedOrdered(s: string, j: nat, k: nat)
    requires j < k <= |s|
    ensures Before(Counted(s, j), Counted(s, k)) && Counted(s, j).byte < Counted(s, k).byte
  {
    OffsetIncreases(s, j, k);
    assert s[..k][..k - 1] == s[..k - 1];
    if j < k - 1 {
      CountedOrdered(s, j, k - 1);
    }
  }

  /**
   * Positions are ordered as the bytes they report, and distinct character boundaries get distinct
   * line and column pairs.
   */
  lemma PositionsOrderedAsBytes(s: string, a: nat, b: nat)
    ensures Position(s, a).byte < Position(s, b).byte <==> Before(Position(s, a), Position(s, b))
    ensures Position(s, a).byte == Position(s, b).byte <==>
            Position(s, a).line == Position(s, b).line && Position(s, a).column == Position(s, b).column
    ensures a <= b ==> Position(s, a).byte <= Position(s, b).byte
  {
    hide LineStarts, ByteLength, LineOf, Newlines, LastLine, FloorIndex, Position;
    PositionIsCounted(s, a);
    PositionIsCounted(s, b);
    var j, k := FloorIndex(s, a), FloorIndex(s, b);
    FloorClamps(s, a);
    FloorClamps(s, b);
    if j < k {
      CountedOrdered(s, j, k);
    } else if k < j {
      CountedOrdered(s, k, j);
    }
  }

  /** A refusal about a whole file is reported just past its last byte, as an empty span. */
  lemma EndOfIsTheEnd(s: string)
    ensures EndOf(s).start == EndOf(s).end
    ensures EndOf(s).start == Pos(1 + Newlines(s), 1 + (|s| - LastLine(s)), ByteLength(s))
  {
    hide LineStarts, LineOf, Newlines, LastLine, FloorIndex, Position;
    assert s[..|s|] == s;
    PositionIsCounted(s, ByteLength(s));
    FloorOfBoundary(s, |s|);
  }
}
