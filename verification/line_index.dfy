/** Maps flat byte offsets of a text to (line, UTF-16 column) pairs and back,
    and splits byte ranges at line boundaries. */
module LineIndex {
  import opened Wrappers
  import opened TextSize
  import opened Seqs

  // ---------------------------------------------------------------------
  // Character widths

  /** Bytes of `c` in UTF-8 (`TextSize::of(c)`). */
  function Utf8Len(c: char): nat {
    if c as int < 0x80 then 1
    else if c as int < 0x800 then 2
    else if c as int < 0x1_0000 then 3
    else 4
  }

  /** Code units of `c` in UTF-16. */
  function Utf16Len(c: char): nat {
    if c as int < 0x1_0000 then 1 else 2
  }

  /** Bytes of `s` in UTF-8. */
  function ByteLen(s: string): nat {
    if |s| == 0 then 0 else ByteLen(s[..|s| - 1]) + Utf8Len(s[|s| - 1])
  }

  /** Code units of `s` in UTF-16. */
  function Utf16Length(s: string): nat {
    if |s| == 0 then 0 else Utf16Length(s[..|s| - 1]) + Utf16Len(s[|s| - 1])
  }

  // ---------------------------------------------------------------------
  // The index

  /** A character of more than one UTF-8 byte, by its byte columns
      `[start, end)` within its line. */
  datatype Utf16Char = Utf16Char(start: nat, end: nat)

  datatype LineCol = LineCol(line: nat, colUtf16: nat)

  /** `newlines[k]` is the byte offset at which line `k` starts;
      `utf16Lines[k]`, when present, lists the multi-byte characters of line
      `k` in order. */
  datatype LineIndex = LineIndex(newlines: seq<nat>, utf16Lines: map<nat, seq<Utf16Char>>)

  predicate StrictlyIncreasing(s: seq<nat>) {
    forall i, j :: 0 <= i < j < |s| ==> s[i] < s[j]
  }

  /** The multi-byte characters of one line: each two to four bytes long,
      in order and not overlapping. */
  predicate ValidChars(cs: seq<Utf16Char>) {
    && (forall i :: 0 <= i < |cs| ==> cs[i].start + 2 <= cs[i].end <= cs[i].start + 4)
    && (forall i :: 0 < i < |cs| ==> cs[i - 1].end <= cs[i].start)
  }

  /** What `LineIndex::new` establishes and the queries rely on. */
  predicate Valid(idx: LineIndex) {
    && |idx.newlines| > 0
    && idx.newlines[0] == 0
    && StrictlyIncreasing(idx.newlines)
    && (forall line :: line in idx.utf16Lines ==> ValidChars(idx.utf16Lines[line]))
  }

  // ---------------------------------------------------------------------
  // Construction

  /** The loop state of `LineIndex::new`. */
  datatype Builder = Builder(
    newlines: seq<nat>,
    utf16Lines: map<nat, seq<Utf16Char>>,
    utf16Chars: seq<Utf16Char>,  // multi-byte characters of the current line so far
    currRow: nat,                 // byte offset reached
    currCol: nat,                 // byte column reached within the current line
    line: nat)                    // number of the current line

  const Start := Builder([0], map[], [], 0, 0, 0)

  /** One iteration of the loop of `LineIndex::new`. */
  function Step(b: Builder, c: char): Builder {
    var row := b.currRow + Utf8Len(c);
    if c == '\n' then
      Builder(b.newlines + [row], Flush(b), [], row, 0, b.line + 1)
    else
      var len := Utf8Len(c);
      var chars := if len > 1 then b.utf16Chars + [Utf16Char(b.currCol, b.currCol + len)] else b.utf16Chars;
      Builder(b.newlines, b.utf16Lines, chars, row, b.currCol + len, b.line)
  }

  /** Saves the current line's multi-byte characters, if it has any. */
  function Flush(b: Builder): map<nat, seq<Utf16Char>> {
    if |b.utf16Chars| > 0 then b.utf16Lines[b.line := b.utf16Chars] else b.utf16Lines
  }

  /** The loop state after the characters of `text`. */
  function Scan(text: string): Builder
    decreases |text|
  {
    if |text| == 0 then Start else Step(Scan(text[..|text| - 1]), text[|text| - 1])
  }

  /** `LineIndex::new`. */
  function New(text: string): LineIndex {
    var b := Scan(text);
    LineIndex(b.newlines, Flush(b))
  }

  // ---------------------------------------------------------------------
  // Binary-search specifications (superslice `upper_bound`/`lower_bound`)

  predicate Sorted(s: seq<nat>) {
    forall i, j :: 0 <= i < j < |s| ==> s[i] <= s[j]
  }

  /** Index of the first element greater than `x`. */
  function UpperBound(s: seq<nat>, x: nat): (r: nat)
    requires Sorted(s)
    ensures r <= |s|
    ensures forall k :: 0 <= k < r ==> s[k] <= x
    ensures forall k :: r <= k < |s| ==> x < s[k]
  {
    if |s| == 0 then 0
    else if s[|s| - 1] <= x then |s|
    else UpperBound(s[..|s| - 1], x)
  }

  /** Index of the first element not less than `x`. */
  function LowerBound(s: seq<nat>, x: nat): (r: nat)
    requires Sorted(s)
    ensures r <= |s|
    ensures forall k :: 0 <= k < r ==> s[k] < x
    ensures forall k :: r <= k < |s| ==> x <= s[k]
  {
    if |s| == 0 then 0
    else if s[|s| - 1] < x then |s|
    else LowerBound(s[..|s| - 1], x)
  }

  // ---------------------------------------------------------------------
  // Column conversions, as written

  function CharsOf(idx: LineIndex, line: nat): seq<Utf16Char> {
    if line in idx.utf16Lines then idx.utf16Lines[line] else []
  }

  /** The correction loop of `utf8_to_utf16_col`: for each character that
      ends at or before `col`, in order, add `len - 1`; stop at the first
      one that does not. When it corrects at all, the correction stays
      below `col - cs[0].start`. */
  function Utf8CorrectionAsWritten(cs: seq<Utf16Char>, col: nat): (r: nat)
    requires ValidChars(cs)
    ensures |cs| == 0 || col < cs[0].end ==> r == 0
    ensures |cs| > 0 && cs[0].end <= col ==> r + cs[0].start < col
  {
    if |cs| == 0 || col < cs[0].end then 0
    else (cs[0].end - cs[0].start - 1) + Utf8CorrectionAsWritten(cs[1..], col)
  }

  /** `utf8_to_utf16_col`: never more than `col`, and `col` itself on a line
      without multi-byte characters. */
  function Utf8ToUtf16ColAsWritten(idx: LineIndex, line: nat, col: nat): (r: nat)
    requires Valid(idx)
    ensures r <= col
    ensures line !in idx.utf16Lines ==> r == col
  {
    col - Utf8CorrectionAsWritten(CharsOf(idx, line), col)
  }

  /** The loop of `utf16_to_utf8_col`: while the running column is at or
      after a character's start, widen it by `len - 1`. */
  function Utf16ToUtf8AsWritten(cs: seq<Utf16Char>, col: nat): (r: nat)
    requires ValidChars(cs)
    ensures r >= col
    ensures |cs| == 0 || col < cs[0].start ==> r == col
  {
    if |cs| == 0 || col < cs[0].start then col
    else Utf16ToUtf8AsWritten(cs[1..], col + (cs[0].end - cs[0].start - 1))
  }

  /** `utf16_to_utf8_col`: never less than `col`, and `col` itself on a line
      without multi-byte characters. */
  function Utf16ToUtf8ColAsWritten(idx: LineIndex, line: nat, col: nat): (r: nat)
    requires Valid(idx)
    ensures r >= col
    ensures line !in idx.utf16Lines ==> r == col
  {
    Utf16ToUtf8AsWritten(CharsOf(idx, line), col)
  }

  /** `line_col`: the last line starting at or before `offset` (there is
      one, as line 0 starts at 0), and the column from that line's start,
      converted to UTF-16. */
  function LineColOfAsWritten(idx: LineIndex, offset: nat): (lc: LineCol)
    requires Valid(idx)
    ensures lc.line < |idx.newlines| && idx.newlines[lc.line] <= offset
    ensures lc.line + 1 < |idx.newlines| ==> offset < idx.newlines[lc.line + 1]
    ensures lc.colUtf16 <= offset - idx.newlines[lc.line]
    ensures lc.line !in idx.utf16Lines ==> lc.colUtf16 == offset - idx.newlines[lc.line]
  {
    var line := UpperBound(idx.newlines, offset) - 1;
    LineCol(line, Utf8ToUtf16ColAsWritten(idx, line, offset - idx.newlines[line]))
  }

  /** `offset`: the line's start plus the column converted back to bytes.
      Indexing `newlines` panics for a line past the last. */
  function OffsetAsWritten(idx: LineIndex, lc: LineCol): (r: nat)
    requires Valid(idx) && lc.line < |idx.newlines|
    ensures r >= idx.newlines[lc.line] + lc.colUtf16
    ensures lc.line !in idx.utf16Lines ==> r == idx.newlines[lc.line] + lc.colUtf16
  {
    idx.newlines[lc.line] + Utf16ToUtf8ColAsWritten(idx, lc.line, lc.colUtf16)
  }

  // ---------------------------------------------------------------------
  // Column conversions, corrected

  /** UTF-16 code units of a recorded character: a four-byte character is a
      surrogate pair, the others are one unit. */
  function Units(c: Utf16Char): nat {
    if c.end - c.start == 4 then 2 else 1
  }

  /** The correction of `utf8_to_utf16_col` with each character counted as
      `len - units` bytes too many rather than `len - 1`. */
  function Utf8Correction(cs: seq<Utf16Char>, col: nat): (r: nat)
    requires ValidChars(cs)
    ensures |cs| == 0 || col < cs[0].end ==> r == 0
    ensures |cs| > 0 && cs[0].end <= col ==> r + cs[0].start < col
  {
    if |cs| == 0 || col < cs[0].end then 0
    else (cs[0].end - cs[0].start - Units(cs[0])) + Utf8Correction(cs[1..], col)
  }

  /** The loop of `utf16_to_utf8_col` widening only past characters that
      start strictly before the running column, by `len - units`. */
  function Utf16ToUtf8(cs: seq<Utf16Char>, col: nat): (r: nat)
    requires ValidChars(cs)
    ensures r >= col
    ensures |cs| == 0 || col <= cs[0].start ==> r == col
  {
    if |cs| == 0 || col <= cs[0].start then col
    else Utf16ToUtf8(cs[1..], col + (cs[0].end - cs[0].start - Units(cs[0])))
  }

  /** `col` does not fall strictly inside a multi-byte character. */
  predicate OnBoundary(cs: seq<Utf16Char>, col: nat) {
    forall i :: 0 <= i < |cs| ==> !(cs[i].start < col < cs[i].end)
  }

  /** On a character boundary, converting a byte column to UTF-16 and back
      gives the column back. */
  lemma {:induction false} ColumnRoundTrip(cs: seq<Utf16Char>, col: nat)
    requires ValidChars(cs) && OnBoundary(cs, col)
    ensures Utf8Correction(cs, col) <= col
    ensures Utf16ToUtf8(cs, col - Utf8Correction(cs, col)) == col
  {
    if |cs| > 0 && cs[0].end <= col {
      var rest := cs[1..];
      assert ValidChars(rest);
      assert OnBoundary(rest, col) by {
        forall i | 0 <= i < |rest| ensures !(rest[i].start < col < rest[i].end) {
          assert rest[i] == cs[i + 1];
        }
      }
      ColumnRoundTrip(rest, col);
      var d := cs[0].end - cs[0].start - Units(cs[0]);
      assert Utf8Correction(rest, col) + cs[0].end <= col by {
        if |rest| > 0 && rest[0].end <= col {
          assert cs[0].end <= rest[0].start by { assert rest[0] == cs[1]; }
        }
      }
      assert col - Utf8Correction(cs, col) + d == col - Utf8Correction(rest, col);
    }
  }

  function Utf8ToUtf16Col(idx: LineIndex, line: nat, col: nat): (r: nat)
    requires Valid(idx)
    ensures r <= col
    ensures line !in idx.utf16Lines ==> r == col
  {
    col - Utf8Correction(CharsOf(idx, line), col)
  }

  function Utf16ToUtf8Col(idx: LineIndex, line: nat, col: nat): (r: nat)
    requires Valid(idx)
    ensures r >= col
    ensures line !in idx.utf16Lines ==> r == col
  {
    Utf16ToUtf8(CharsOf(idx, line), col)
  }

  /** The line of `offset`: the last line starting at or before it. */
  function LineOf(idx: LineIndex, offset: nat): (line: nat)
    requires Valid(idx)
    ensures line < |idx.newlines| && idx.newlines[line] <= offset
    ensures line + 1 < |idx.newlines| ==> offset < idx.newlines[line + 1]
  {
    UpperBound(idx.newlines, offset) - 1
  }

  /** `line_col` with the corrected conversion. */
  function LineColOf(idx: LineIndex, offset: nat): (lc: LineCol)
    requires Valid(idx)
    ensures lc.line == LineOf(idx, offset)
    ensures lc.colUtf16 <= offset - idx.newlines[lc.line]
    ensures lc.line !in idx.utf16Lines ==> lc.colUtf16 == offset - idx.newlines[lc.line]
  {
    var line := LineOf(idx, offset);
    LineCol(line, Utf8ToUtf16Col(idx, line, offset - idx.newlines[line]))
  }

  /** `offset` with the corrected conversion. */
  function Offset(idx: LineIndex, lc: LineCol): (r: nat)
    requires Valid(idx) && lc.line < |idx.newlines|
    ensures r >= idx.newlines[lc.line] + lc.colUtf16
    ensures lc.line !in idx.utf16Lines ==> r == idx.newlines[lc.line] + lc.colUtf16
  {
    idx.newlines[lc.line] + Utf16ToUtf8Col(idx, lc.line, lc.colUtf16)
  }

  /** `offset` does not fall strictly inside a multi-byte character of its
      line. */
  predicate AtCharBoundary(idx: LineIndex, offset: nat)
    requires Valid(idx)
  {
    var line := LineOf(idx, offset);
    OnBoundary(CharsOf(idx, line), offset - idx.newlines[line])
  }

  /** With the corrected conversions, `offset` undoes `line_col` at every
      character boundary. */
  lemma {:induction false} OffsetLineColRoundTrip(idx: LineIndex, offset: nat)
    requires Valid(idx) && AtCharBoundary(idx, offset)
    ensures LineColOf(idx, offset).line < |idx.newlines|
    ensures Offset(idx, LineColOf(idx, offset)) == offset
  {
    var line := LineOf(idx, offset);
    var col := offset - idx.newlines[line];
    var cs := CharsOf(idx, line);
    assert ValidChars(cs);
    ColumnRoundTrip(cs, col);
  }

  // ---------------------------------------------------------------------
  // Splitting a range at line starts

  /** The consecutive pairs of `all` as ranges, the empty ones dropped
      (`zip(all, all.skip(1))` then `filter(!is_empty)`). */
  function SplitAt(all: seq<nat>): (r: seq<TextRange>)
    requires |all| > 0
  {
    if |all| == 1 then []
    else
      var rest := SplitAt(all[..|all| - 1]);
      var prev, last := all[|all| - 2], all[|all| - 1];
      if prev == last then rest else rest + [TextRange(prev, last)]
  }

  /** The pieces `SplitAt` makes of a sorted sequence are non-empty and
      adjacent, and run from its first to its last element. */
  predicate IsChain(all: seq<nat>, r: seq<TextRange>)
    requires |all| > 0
  {
    && (forall i :: 0 <= i < |r| ==> r[i].start < r[i].end)
    && (forall i :: 0 < i < |r| ==> r[i - 1].end == r[i].start)
    && (|r| == 0 <==> all[0] == all[|all| - 1])
    && (|r| > 0 ==> r[0].start == all[0] && r[|r| - 1].end == all[|all| - 1])
  }

  /** Every piece starts and ends at elements of `all`. */
  predicate EndsAtElements(all: seq<nat>, r: seq<TextRange>) {
    forall i :: 0 <= i < |r| ==> r[i].start in all && r[i].end in all
  }

  /** No element of `all` lies strictly inside a piece. */
  predicate NoElementInside(all: seq<nat>, r: seq<TextRange>) {
    forall i, k :: 0 <= i < |r| && 0 <= k < |all| ==> !(r[i].start < all[k] < r[i].end)
  }

  lemma {:induction false} SplitAtIsChain(all: seq<nat>)
    requires |all| > 0 && Sorted(all)
    ensures IsChain(all, SplitAt(all))
  {
    if |all| > 1 {
      var prefix := all[..|all| - 1];
      SplitAtIsChain(prefix);
      assert prefix[0] == all[0] && prefix[|prefix| - 1] == all[|all| - 2];
      assert all[0] <= all[|all| - 2] <= all[|all| - 1];
    }
  }

  /** In a sorted sequence, an element is at most the last one. */
  lemma SortedBelowLast(all: seq<nat>, x: nat)
    requires |all| > 0 && Sorted(all) && x in all
    ensures all[0] <= x <= all[|all| - 1]
  {
    var k :| 0 <= k < |all| && all[k] == x;
  }

  lemma {:induction false} SplitAtEndsAtElements(all: seq<nat>)
    requires |all| > 0
    ensures EndsAtElements(all, SplitAt(all))
  {
    if |all| > 1 {
      var prefix := all[..|all| - 1];
      SplitAtEndsAtElements(prefix);
      assert forall x :: x in prefix ==> x in all;
    }
  }

  lemma {:induction false} SplitAtNoElementInside(all: seq<nat>)
    requires |all| > 0 && Sorted(all)
    ensures NoElementInside(all, SplitAt(all))
  {
    if |all| > 1 {
      var prefix := all[..|all| - 1];
      var prev, last := all[|all| - 2], all[|all| - 1];
      SplitAtNoElementInside(prefix);
      SplitAtEndsAtElements(prefix);
      var rest := SplitAt(prefix);
      assert forall i :: 0 <= i < |rest| ==> rest[i].end <= prev by {
        forall i | 0 <= i < |rest| ensures rest[i].end <= prev {
          var k :| 0 <= k < |prefix| && prefix[k] == rest[i].end;
        }
      }
      var r := SplitAt(all);
      forall i, k | 0 <= i < |r| && 0 <= k < |all| ensures !(r[i].start < all[k] < r[i].end) {
        if i < |rest| {
          assert r[i] == rest[i];
          if k < |all| - 1 {
            assert all[k] == prefix[k];
          }
        } else {
          assert r[i] == TextRange(prev, last);
        }
      }
    }
  }

  /** The cut points of `lines`: the range's start, the line starts
      within `[start, end]`, and the range's end, in order. */
  function Cuts(nl: seq<nat>, range: TextRange): (all: seq<nat>)
    requires StrictlyIncreasing(nl) && range.Valid()
    ensures |all| >= 2 && all[0] == range.start && all[|all| - 1] == range.end
    ensures Sorted(all)
    ensures forall m :: 0 < m < |all| - 1 ==> all[m] in nl
    ensures forall k :: 0 <= k < |nl| && range.start <= nl[k] <= range.end ==> nl[k] in all
  {
    var lo := LowerBound(nl, range.start);
    var hi := UpperBound(nl, range.end);
    CutsFacts(nl, range.start, range.end, lo, hi);
    [range.start] + nl[lo..hi] + [range.end]
  }

  /** A sorted run between a lower and an upper bound stays sorted with
      the bounds added at its ends. */
  lemma FramedSorted(mid: seq<nat>, start: nat, end: nat)
    requires Sorted(mid) && start <= end
    requires forall k :: 0 <= k < |mid| ==> start <= mid[k] <= end
    ensures Sorted([start] + mid + [end])
  {
    var all := [start] + mid + [end];
    forall i, j | 0 <= i < j < |all| ensures all[i] <= all[j] {
      if 0 < i && j < |all| - 1 {
        assert all[i] == mid[i - 1] && all[j] == mid[j - 1];
      } else if 0 < i {
        assert all[i] == mid[i - 1];
      } else if j < |all| - 1 {
        assert all[j] == mid[j - 1];
      }
    }
  }

  /** The line starts between the two bounds lie within `[start, end]`,
      in order, and include every line start there. */
  lemma CutsFacts(nl: seq<nat>, start: nat, end: nat, lo: nat, hi: nat)
    requires StrictlyIncreasing(nl) && start <= end && lo <= |nl| && hi <= |nl|
    requires forall k :: 0 <= k < lo ==> nl[k] < start
    requires forall k :: lo <= k < |nl| ==> start <= nl[k]
    requires forall k :: 0 <= k < hi ==> nl[k] <= end
    requires forall k :: hi <= k < |nl| ==> end < nl[k]
    ensures lo <= hi
    ensures Sorted([start] + nl[lo..hi] + [end])
    ensures var all := [start] + nl[lo..hi] + [end];
      forall m :: 0 < m < |all| - 1 ==> all[m] in nl
    ensures forall k :: 0 <= k < |nl| && start <= nl[k] <= end ==> nl[k] in [start] + nl[lo..hi] + [end]
  {
    if lo > 0 {
      assert nl[lo - 1] < start;
    }
    var all := [start] + nl[lo..hi] + [end];
    FramedSorted(nl[lo..hi], start, end);
    forall m | 0 < m < |all| - 1 ensures all[m] in nl {
      assert all[m] == nl[lo + m - 1];
    }
    forall k | 0 <= k < |nl| && start <= nl[k] <= end ensures nl[k] in all {
      assert lo <= k < hi;
      assert all[k - lo + 1] == nl[k];
    }
  }

  /** When the line starts run exactly from the range's start to its end,
      the cut points are all of them between the two ends. */
  lemma CutsOfWholeRun(nl: seq<nat>, range: TextRange)
    requires StrictlyIncreasing(nl) && range.Valid()
    requires |nl| > 0 && nl[0] == range.start && nl[|nl| - 1] == range.end
    ensures Cuts(nl, range) == [range.start] + nl + [range.end]
  {
    var lo := LowerBound(nl, range.start);
    var hi := UpperBound(nl, range.end);
    assert lo == 0 && hi == |nl|;
    assert nl[lo..hi] == nl;
  }

  /** `lines`: `range` cut at every line start inside it, as non-empty,
      adjacent pieces that together cover it. */
  function Lines(idx: LineIndex, range: TextRange): (r: seq<TextRange>)
    requires Valid(idx) && range.Valid()
    ensures forall i :: 0 <= i < |r| ==> r[i].start < r[i].end
    ensures forall i :: 0 < i < |r| ==> r[i - 1].end == r[i].start
    ensures |r| == 0 <==> range.IsEmpty()
    ensures |r| > 0 ==> r[0].start == range.start && r[|r| - 1].end == range.end
    ensures forall i :: 0 < i < |r| ==> r[i].start in idx.newlines
    ensures forall i, k :: 0 <= i < |r| && 0 <= k < |idx.newlines| ==>
              !(r[i].start < idx.newlines[k] < r[i].end)
  {
    var all := Cuts(idx.newlines, range);
    LinesFacts(idx.newlines, all);
    SplitAtIsChain(all);
    SplitAt(all)
  }

  lemma LinesFacts(nl: seq<nat>, all: seq<nat>)
    requires |all| >= 2 && Sorted(all)
    requires forall m :: 0 < m < |all| - 1 ==> all[m] in nl
    requires forall k :: 0 <= k < |nl| && all[0] <= nl[k] <= all[|all| - 1] ==> nl[k] in all
    ensures forall i :: 0 < i < |SplitAt(all)| ==> SplitAt(all)[i].start in nl
    ensures forall i, k :: 0 <= i < |SplitAt(all)| && 0 <= k < |nl| ==>
              !(SplitAt(all)[i].start < nl[k] < SplitAt(all)[i].end)
  {
    PiecesStartAtLineStarts(nl, all);
    NoLineStartInsidePiece(nl, all);
  }

  /** Every piece after the first starts at an inner cut point, hence at a
      line start. */
  lemma PiecesStartAtLineStarts(nl: seq<nat>, all: seq<nat>)
    requires |all| >= 2 && Sorted(all)
    requires forall m :: 0 < m < |all| - 1 ==> all[m] in nl
    ensures forall i :: 0 < i < |SplitAt(all)| ==> SplitAt(all)[i].start in nl
  {
    var r := SplitAt(all);
    SplitAtIsChain(all);
    SplitAtEndsAtElements(all);
    forall i | 0 < i < |r| ensures r[i].start in nl {
      ChainIncreases(r, i);
      var m :| 0 <= m < |all| && all[m] == r[i].start;
      assert all[0] < all[m] < all[|all| - 1];
    }
  }

  /** A line start strictly inside a piece would be a cut point there. */
  lemma NoLineStartInsidePiece(nl: seq<nat>, all: seq<nat>)
    requires |all| >= 2 && Sorted(all)
    requires forall k :: 0 <= k < |nl| && all[0] <= nl[k] <= all[|all| - 1] ==> nl[k] in all
    ensures forall i, k :: 0 <= i < |SplitAt(all)| && 0 <= k < |nl| ==>
              !(SplitAt(all)[i].start < nl[k] < SplitAt(all)[i].end)
  {
    var r := SplitAt(all);
    SplitAtEndsAtElements(all);
    SplitAtNoElementInside(all);
    forall i, k | 0 <= i < |r| && 0 <= k < |nl| ensures !(r[i].start < nl[k] < r[i].end) {
      SortedBelowLast(all, r[i].start);
      SortedBelowLast(all, r[i].end);
      if all[0] <= nl[k] <= all[|all| - 1] {
        var m :| 0 <= m < |all| && all[m] == nl[k];
      }
    }
  }

  /** Along adjacent non-empty ranges, starts increase. */
  lemma {:induction false} ChainIncreases(r: seq<TextRange>, i: nat)
    requires 0 < i < |r|
    requires forall j :: 0 <= j < |r| ==> r[j].start < r[j].end
    requires forall j :: 0 < j < |r| ==> r[j - 1].end == r[j].start
    ensures r[0].start < r[i].start
  {
    if i > 1 {
      ChainIncreases(r, i - 1);
    }
  }

  // ---------------------------------------------------------------------
  // What `LineIndex::new` builds

  /** The loop state's counters after `text`: the row is the text's byte
      length, one line start per newline has been pushed after the initial
      0, in increasing order, and the column is the distance from the last
      line start. */
  predicate CountersAfter(b: Builder, text: string) {
    && b.currRow == ByteLen(text)
    && b.line == Count(text, '\n')
    && |b.newlines| == b.line + 1
    && b.newlines[0] == 0
    && StrictlyIncreasing(b.newlines)
    && b.newlines[|b.newlines| - 1] + b.currCol == b.currRow
  }

  lemma {:induction false} ScanCounters(text: string)
    ensures CountersAfter(Scan(text), text)
    decreases |text|
  {
    if |text| > 0 {
      var p := text[..|text| - 1];
      ScanCounters(p);
      assert text[..|text| - 1] == p;
    }
  }

  /** The multi-byte characters collected so far are well formed and lie
      before the current column; the saved lines are earlier lines, each
      with at least one character. */
  predicate CharsAfter(b: Builder) {
    && ValidChars(b.utf16Chars)
    && (forall i :: 0 <= i < |b.utf16Chars| ==> b.utf16Chars[i].end <= b.currCol)
    && (forall l :: l in b.utf16Lines ==> l < b.line && |b.utf16Lines[l]| > 0 && ValidChars(b.utf16Lines[l]))
  }

  lemma {:induction false} ScanChars(text: string)
    ensures CharsAfter(Scan(text))
    decreases |text|
  {
    if |text| > 0 {
      ScanChars(text[..|text| - 1]);
    }
  }

  /** Every newline of `text` has its following offset among the line
      starts, and every line start after the first follows a newline. */
  predicate StartsFollowNewlines(nl: seq<nat>, text: string) {
    NewlinesRecorded(nl, text) && StartsAfterNewlines(nl, text)
  }

  predicate NewlinesRecorded(nl: seq<nat>, text: string) {
    forall j :: 0 <= j < |text| && text[j] == '\n' ==> ByteLen(text[..j + 1]) in nl
  }

  predicate StartsAfterNewlines(nl: seq<nat>, text: string) {
    forall k :: 0 < k < |nl| ==>
      exists j :: 0 <= j < |text| && text[j] == '\n' && nl[k] == ByteLen(text[..j + 1])
  }

  lemma ScanStarts(text: string)
    ensures StartsFollowNewlines(Scan(text).newlines, text)
  {
    ScanRecordsNewlines(text);
    ScanStartsAfterNewlines(text);
  }

  lemma {:induction false} ScanRecordsNewlines(text: string)
    ensures NewlinesRecorded(Scan(text).newlines, text)
    decreases |text|
  {
    if |text| > 0 {
      var p := text[..|text| - 1];
      var c := text[|text| - 1];
      ScanRecordsNewlines(p);
      ScanCounters(p);
      var b := Scan(p);
      var nl := Scan(text).newlines;
      assert text[..|text|] == text && text == p + [c];
      assert forall x :: x in b.newlines ==> x in nl;
      forall j | 0 <= j < |text| && text[j] == '\n'
        ensures ByteLen(text[..j + 1]) in nl
      {
        if j < |p| {
          assert text[..j + 1] == p[..j + 1] && text[j] == p[j];
        } else {
          assert nl == b.newlines + [ByteLen(text)];
        }
      }
    }
  }

  lemma {:induction false} ScanStartsAfterNewlines(text: string)
    ensures StartsAfterNewlines(Scan(text).newlines, text)
    decreases |text|
  {
    if |text| > 0 {
      var p := text[..|text| - 1];
      var c := text[|text| - 1];
      ScanStartsAfterNewlines(p);
      ScanCounters(p);
      var b := Scan(p);
      var nl := Scan(text).newlines;
      assert text[..|text|] == text && text == p + [c];
      assert |b.newlines| <= |nl|;
      assert forall k :: 0 <= k < |b.newlines| ==> nl[k] == b.newlines[k];
      forall k | 0 < k < |nl|
        ensures exists j :: 0 <= j < |text| && text[j] == '\n' && nl[k] == ByteLen(text[..j + 1])
      {
        if k < |b.newlines| {
          var j :| 0 <= j < |p| && p[j] == '\n' && b.newlines[k] == ByteLen(p[..j + 1]);
          assert text[..j + 1] == p[..j + 1] && text[j] == p[j];
        } else {
          assert c == '\n' && nl == b.newlines + [ByteLen(text)];
          assert text[|text| - 1] == '\n' && nl[k] == ByteLen(text[..|text|]);
        }
      }
    }
  }

  lemma NewIsValid(text: string)
    ensures Valid(New(text))
  {
    ScanCounters(text);
    ScanChars(text);
  }

  /** `LineIndex::new` yields a valid index with one line start per newline
      plus the initial 0, each just past its newline, and for each line
      the multi-byte characters of that line of the text. */
  lemma {:induction false} NewIsIndexOf(text: string)
    ensures Valid(New(text))
    ensures |New(text).newlines| == Count(text, '\n') + 1
    ensures StartsFollowNewlines(New(text).newlines, text)
    ensures forall l :: l in New(text).utf16Lines ==> l < |New(text).newlines| && |New(text).utf16Lines[l]| > 0
    ensures forall l :: 0 <= l < |New(text).newlines| ==> CharsOf(New(text), l) == MultiByteChars(TextLines(text)[l])
  {
    NewIsValid(text);
    ScanCounters(text);
    ScanChars(text);
    ScanStarts(text);
    NewRecordsLineChars(text);
  }

  /** A text of ASCII characters only records no multi-byte characters. */
  lemma {:induction false} AsciiTextHasNoUtf16Lines(text: string)
    requires forall i :: 0 <= i < |text| ==> text[i] as int < 0x80
    ensures New(text).utf16Lines == map[]
  {
    AsciiScan(text);
  }

  lemma {:induction false} AsciiScan(text: string)
    requires forall i :: 0 <= i < |text| ==> text[i] as int < 0x80
    ensures Scan(text).utf16Chars == [] && Scan(text).utf16Lines == map[]
    decreases |text|
  {
    if |text| > 0 {
      AsciiScan(text[..|text| - 1]);
    }
  }

  /** Scanning one more character is one more loop iteration. */
  lemma ScanSnoc(text: string, c: char)
    ensures Scan(text + [c]) == Step(Scan(text), c)
  {
    assert (text + [c])[..|text|] == text;
  }

  /** A run of ASCII characters without a newline only advances the row and
      the column. */
  lemma {:induction false} ScanPlain(text: string, run: string)
    requires forall i :: 0 <= i < |run| ==> run[i] as int < 0x80 && run[i] != '\n'
    ensures Scan(text + run) == Scan(text).(currRow := Scan(text).currRow + |run|, currCol := Scan(text).currCol + |run|)
    decreases |run|
  {
    if |run| > 0 {
      var p := run[..|run| - 1];
      ScanPlain(text, p);
      assert text + run == (text + p) + [run[|run| - 1]];
      ScanSnoc(text + p, run[|run| - 1]);
    } else {
      assert text + run == text;
    }
  }

  // ---------------------------------------------------------------------
  // The corrected column is the UTF-16 length of the line so far

  /** The characters after the last newline of `text`. */
  function LastLine(text: string): string {
    if |text| == 0 then []
    else if text[|text| - 1] == '\n' then []
    else LastLine(text[..|text| - 1]) + [text[|text| - 1]]
  }

  /** The bytes the recorded characters have beyond their UTF-16 units. */
  function Excess(cs: seq<Utf16Char>): int {
    if |cs| == 0 then 0 else Excess(cs[..|cs| - 1]) + (cs[|cs| - 1].end - cs[|cs| - 1].start - Units(cs[|cs| - 1]))
  }

  lemma {:induction false} ExcessFront(cs: seq<Utf16Char>)
    requires |cs| > 0
    ensures Excess(cs) == (cs[0].end - cs[0].start - Units(cs[0])) + Excess(cs[1..])
    decreases |cs|
  {
    if |cs| > 1 {
      ExcessFront(cs[..|cs| - 1]);
      assert cs[..|cs| - 1][1..] == cs[1..][..|cs[1..]| - 1];
    } else {
      assert cs[..|cs| - 1] == [];
    }
  }

  /** When every character ends at or before `col`, the correction counts
      all of them. */
  lemma {:induction false} CorrectionCountsAll(cs: seq<Utf16Char>, col: nat)
    requires ValidChars(cs)
    requires forall i :: 0 <= i < |cs| ==> cs[i].end <= col
    ensures Utf8Correction(cs, col) == Excess(cs)
    decreases |cs|
  {
    if |cs| > 0 {
      ExcessFront(cs);
      CorrectionCountsAll(cs[1..], col);
    }
  }

  /** The loop state's column is the byte length of the last line, and
      exceeds its UTF-16 length by the excess of the recorded characters. */
  lemma {:induction false} ScanColumns(text: string)
    ensures Scan(text).currCol == ByteLen(LastLine(text))
    ensures Utf16Length(LastLine(text)) + Excess(Scan(text).utf16Chars) == Scan(text).currCol
    decreases |text|
  {
    if |text| > 0 {
      var p := text[..|text| - 1];
      var c := text[|text| - 1];
      ScanColumns(p);
      if c != '\n' {
        var l := LastLine(p) + [c];
        assert l[..|l| - 1] == LastLine(p);
        var b := Scan(p);
        if Utf8Len(c) > 1 {
          var cs := b.utf16Chars + [Utf16Char(b.currCol, b.currCol + Utf8Len(c))];
          assert cs[..|cs| - 1] == b.utf16Chars;
        }
      }
    }
  }

  /** At the end of any text, the corrected `line_col` gives the number of
      newlines as the line and the UTF-16 length of the last line as the
      column. */
  lemma {:induction false} LineColAtEnd(text: string)
    ensures Valid(New(text))
    ensures LineColOf(New(text), ByteLen(text)) == LineCol(Count(text, '\n'), Utf16Length(LastLine(text)))
  {
    NewIsValid(text);
    ScanCounters(text);
    LastLineChars(text);
    ScanColumns(text);
    EndLineCol(New(text), Scan(text), ByteLen(text), Utf16Length(LastLine(text)));
  }

  /** The position of the offset the loop ends at, from the loop's final
      state. */
  lemma EndLineCol(idx: LineIndex, b: Builder, offset: nat, colUtf16: nat)
    requires Valid(idx) && idx.newlines == b.newlines && |b.newlines| == b.line + 1
    requires b.newlines[b.line] + b.currCol == offset
    requires CharsOf(idx, b.line) == b.utf16Chars && ValidChars(b.utf16Chars)
    requires forall i :: 0 <= i < |b.utf16Chars| ==> b.utf16Chars[i].end <= b.currCol
    requires colUtf16 + Excess(b.utf16Chars) == b.currCol
    ensures LineColOf(idx, offset) == LineCol(b.line, colUtf16)
  {
    LineColPastLastStart(idx, offset);
    assert LineColOf(idx, offset) == LineCol(b.line, Utf8ToUtf16Col(idx, b.line, b.currCol));
    CorrectionCountsAll(b.utf16Chars, b.currCol);
    assert Utf8Correction(CharsOf(idx, b.line), b.currCol) == Excess(b.utf16Chars);
  }

  /** Offsets from the last line start on are on the last line, at their
      distance from that start converted to UTF-16. */
  lemma LineColPastLastStart(idx: LineIndex, offset: nat)
    requires Valid(idx) && idx.newlines[|idx.newlines| - 1] <= offset
    ensures var last := |idx.newlines| - 1;
      LineColOf(idx, offset) == LineCol(last, Utf8ToUtf16Col(idx, last, offset - idx.newlines[last]))
  {
    LineOfPastLastStart(idx, offset);
  }

  /** The characters the index records for the last line are those the
      loop holds at the end. */
  lemma LastLineChars(text: string)
    ensures CharsOf(New(text), Scan(text).line) == Scan(text).utf16Chars
    ensures forall i :: 0 <= i < |Scan(text).utf16Chars| ==> Scan(text).utf16Chars[i].end <= Scan(text).currCol
    ensures ValidChars(Scan(text).utf16Chars)
  {
    ScanChars(text);
  }

  /** Offsets from the last line start on are on the last line. */
  lemma LineOfPastLastStart(idx: LineIndex, offset: nat)
    requires Valid(idx) && idx.newlines[|idx.newlines| - 1] <= offset
    ensures LineOf(idx, offset) == |idx.newlines| - 1
  {
    var line := LineOf(idx, offset);
    if line + 1 < |idx.newlines| {
      assert false;
    }
  }

  // ---------------------------------------------------------------------
  // The recorded characters are those of the text's lines

  /** The lines of `text`: the pieces between newlines, without them. */
  function TextLines(text: string): (r: seq<string>)
    ensures |r| == Count(text, '\n') + 1
    decreases |text|
  {
    if |text| == 0 then [[]]
    else
      var ls := TextLines(text[..|text| - 1]);
      var c := text[|text| - 1];
      if c == '\n' then ls + [[]]
      else ls[..|ls| - 1] + [ls[|ls| - 1] + [c]]
  }

  /** The characters of `line` of more than one UTF-8 byte, in order, each
      with its byte columns `[start, end)`: there is one exactly when the
      line holds such a character. */
  function MultiByteChars(line: string): (r: seq<Utf16Char>)
    ensures r == [] <==> forall i :: 0 <= i < |line| ==> Utf8Len(line[i]) == 1
    decreases |line|
  {
    if |line| == 0 then []
    else
      var p := line[..|line| - 1];
      var c := line[|line| - 1];
      assert forall i :: 0 <= i < |p| ==> p[i] == line[i];
      MultiByteChars(p) + (if Utf8Len(c) > 1 then [Utf16Char(ByteLen(p), ByteLen(p) + Utf8Len(c))] else [])
  }

  /** Appending a character to a line appends its entry, if it has one. */
  lemma MultiByteSnoc(line: string, c: char)
    ensures MultiByteChars(line + [c]) == MultiByteChars(line) +
      (if Utf8Len(c) > 1 then [Utf16Char(ByteLen(line), ByteLen(line) + Utf8Len(c))] else [])
  {
    assert (line + [c])[..|line|] == line;
  }

  /** The loop state agrees with the lines of the text read so far: the
      current line is the last one, its characters are collected, and each
      earlier line's characters are saved (or it has none). */
  predicate LinesAfter(b: Builder, text: string) {
    var ls := TextLines(text);
    && |ls| == b.line + 1
    && b.currCol == ByteLen(ls[b.line])
    && b.utf16Chars == MultiByteChars(ls[b.line])
    && forall l :: 0 <= l < b.line ==> (if l in b.utf16Lines then b.utf16Lines[l] else []) == MultiByteChars(ls[l])
  }

  lemma {:induction false} ScanLines(text: string)
    ensures LinesAfter(Scan(text), text)
    decreases |text|
  {
    if |text| > 0 {
      var p := text[..|text| - 1];
      var c := text[|text| - 1];
      ScanLines(p);
      ScanChars(p);
      var b := Scan(p);
      var ls := TextLines(p);
      var b' := Scan(text);
      var ls' := TextLines(text);
      assert b' == Step(b, c);
      if c == '\n' {
        assert ls' == ls + [[]];
        forall l | 0 <= l < b'.line
          ensures (if l in b'.utf16Lines then b'.utf16Lines[l] else []) == MultiByteChars(ls'[l])
        {
          assert ls'[l] == ls[l];
          if l == b.line && |b.utf16Chars| == 0 {
            assert l !in b.utf16Lines;
          }
        }
      } else {
        var last := ls[b.line] + [c];
        assert ls' == ls[..b.line] + [last];
        MultiByteSnoc(ls[b.line], c);
        forall l | 0 <= l < b'.line
          ensures (if l in b'.utf16Lines then b'.utf16Lines[l] else []) == MultiByteChars(ls'[l])
        {
          assert ls'[l] == ls[l];
        }
      }
    }
  }

  /** `LineIndex::new` records, for every line of the text, exactly the
      line's multi-byte characters with their byte columns, and keeps an
      entry only for a line that has at least one. */
  lemma {:induction false} NewRecordsLineChars(text: string)
    ensures |New(text).newlines| == |TextLines(text)|
    ensures forall l :: l in New(text).utf16Lines ==> l < |TextLines(text)|
    ensures forall l :: 0 <= l < |TextLines(text)| ==>
      (l in New(text).utf16Lines <==> MultiByteChars(TextLines(text)[l]) != [])
    ensures forall l :: 0 <= l < |TextLines(text)| ==> CharsOf(New(text), l) == MultiByteChars(TextLines(text)[l])
  {
    ScanCounters(text);
    ScanChars(text);
    ScanLines(text);
    var b := Scan(text);
    var ls := TextLines(text);
    var idx := New(text);
    forall l | 0 <= l < |ls|
      ensures (l in idx.utf16Lines <==> MultiByteChars(ls[l]) != [])
      ensures CharsOf(idx, l) == MultiByteChars(ls[l])
    {
      if l < b.line {
        assert (if l in b.utf16Lines then b.utf16Lines[l] else []) == MultiByteChars(ls[l]);
      } else if |b.utf16Chars| == 0 {
        assert l !in b.utf16Lines;
      }
    }
  }

  // ---------------------------------------------------------------------
  // How far the as-written conversions are from the corrected ones

  /** `len - 1` summed over every recorded character that ends at or before
      `col`, wherever it sits in the list. */
  function EndedExcessAsWritten(cs: seq<Utf16Char>, col: nat): int {
    if |cs| == 0 then 0
    else (if cs[0].end <= col then cs[0].end - cs[0].start - 1 else 0) + EndedExcessAsWritten(cs[1..], col)
  }

  /** The number of four-byte characters that end at or before `col`. */
  function FourByteEnded(cs: seq<Utf16Char>, col: nat): nat {
    if |cs| == 0 then 0
    else (if cs[0].end <= col && cs[0].end - cs[0].start == 4 then 1 else 0) + FourByteEnded(cs[1..], col)
  }

  /** In a well-formed list, every character ends after the first one does. */
  lemma {:induction false} EndsIncrease(cs: seq<Utf16Char>)
    requires ValidChars(cs)
    ensures forall i :: 0 <= i < |cs| ==> cs[0].end <= cs[i].end
    decreases |cs|
  {
    if |cs| > 1 {
      var rest := cs[1..];
      assert ValidChars(rest) by {
        assert forall i :: 0 <= i < |rest| ==> rest[i] == cs[i + 1];
      }
      EndsIncrease(rest);
      assert forall i :: 1 <= i < |cs| ==> cs[i] == rest[i - 1];
    }
  }

  /** Neither sum counts anything when no character has ended by `col`. */
  lemma {:induction false} NothingEnded(cs: seq<Utf16Char>, col: nat)
    requires forall i :: 0 <= i < |cs| ==> col < cs[i].end
    ensures EndedExcessAsWritten(cs, col) == 0 && FourByteEnded(cs, col) == 0
    decreases |cs|
  {
    if |cs| > 0 {
      assert forall i :: 0 <= i < |cs[1..]| ==> cs[1..][i] == cs[i + 1];
      NothingEnded(cs[1..], col);
    }
  }

  /** The early exit of `utf8_to_utf16_col` loses nothing: its correction is
      `len - 1` summed over all characters ending at or before `col`. */
  lemma {:induction false} CorrectionAsWrittenSumsEnded(cs: seq<Utf16Char>, col: nat)
    requires ValidChars(cs)
    ensures Utf8CorrectionAsWritten(cs, col) == EndedExcessAsWritten(cs, col)
    decreases |cs|
  {
    if |cs| > 0 {
      var rest := cs[1..];
      assert ValidChars(rest) by {
        assert forall i :: 0 <= i < |rest| ==> rest[i] == cs[i + 1];
      }
      if col < cs[0].end {
        EndsIncrease(cs);
        NothingEnded(cs, col);
      } else {
        CorrectionAsWrittenSumsEnded(rest, col);
      }
    }
  }

  /** The as-written correction exceeds the corrected one by one byte per
      four-byte character ended at or before `col`. */
  lemma {:induction false} CorrectionGap(cs: seq<Utf16Char>, col: nat)
    requires ValidChars(cs)
    ensures Utf8CorrectionAsWritten(cs, col) == Utf8Correction(cs, col) + FourByteEnded(cs, col)
    decreases |cs|
  {
    if |cs| > 0 {
      var rest := cs[1..];
      assert ValidChars(rest) by {
        assert forall i :: 0 <= i < |rest| ==> rest[i] == cs[i + 1];
      }
      if col < cs[0].end {
        EndsIncrease(cs);
        NothingEnded(cs, col);
      } else {
        CorrectionGap(rest, col);
      }
    }
  }

  lemma {:induction false} FourByteEndedZero(cs: seq<Utf16Char>, col: nat)
    ensures FourByteEnded(cs, col) == 0 <==>
      forall i :: 0 <= i < |cs| && cs[i].end <= col ==> cs[i].end - cs[i].start != 4
    decreases |cs|
  {
    if |cs| > 0 {
      var rest := cs[1..];
      FourByteEndedZero(rest, col);
      assert forall i :: 0 <= i < |rest| ==> rest[i] == cs[i + 1];
      assert forall i :: 1 <= i < |cs| ==> cs[i] == rest[i - 1];
    }
  }

  /** The as-written `utf8_to_utf16_col` agrees with the corrected one
      exactly when no four-byte character ends at or before `col`; in
      particular on every line whose characters are at most three bytes. */
  lemma Utf8ToUtf16ColsAgree(idx: LineIndex, line: nat, col: nat)
    requires Valid(idx)
    ensures var cs := CharsOf(idx, line);
      Utf8ToUtf16ColAsWritten(idx, line, col) == Utf8ToUtf16Col(idx, line, col) <==>
      forall i :: 0 <= i < |cs| && cs[i].end <= col ==> cs[i].end - cs[i].start != 4
  {
    CorrectionGap(CharsOf(idx, line), col);
    FourByteEndedZero(CharsOf(idx, line), col);
  }

  /** In a well-formed list, every character starts at or after the first. */
  lemma {:induction false} StartsIncrease(cs: seq<Utf16Char>)
    requires ValidChars(cs)
    ensures forall i :: 0 <= i < |cs| ==> cs[0].start <= cs[i].start
  {
    if |cs| > 0 {
      EndsIncrease(cs);
      forall i | 0 < i < |cs| ensures cs[0].start <= cs[i].start {
        assert cs[0].end <= cs[i - 1].end <= cs[i].start;
      }
    }
  }

  predicate AtMostThreeBytes(cs: seq<Utf16Char>) {
    forall i :: 0 <= i < |cs| ==> cs[i].end - cs[i].start <= 3
  }

  /** On characters of at most three bytes, the as-written loop of
      `utf16_to_utf8_col` agrees with the corrected one exactly when the
      column it reaches is not the start of a character. */
  lemma {:induction false} Utf16ToUtf8Agree(cs: seq<Utf16Char>, col: nat)
    requires ValidChars(cs) && AtMostThreeBytes(cs)
    ensures Utf16ToUtf8AsWritten(cs, col) == Utf16ToUtf8(cs, col) <==>
      forall i :: 0 <= i < |cs| ==> cs[i].start != Utf16ToUtf8(cs, col)
    decreases |cs|
  {
    if |cs| > 0 {
      var rest := cs[1..];
      assert forall i :: 0 <= i < |rest| ==> rest[i] == cs[i + 1];
      assert ValidChars(rest) && AtMostThreeBytes(rest);
      if col < cs[0].start {
        StartsIncrease(cs);
      } else if col == cs[0].start {
        assert Utf16ToUtf8AsWritten(cs, col) > col;
      } else {
        var col' := col + (cs[0].end - cs[0].start - 1);
        assert Units(cs[0]) == 1;
        Utf16ToUtf8Agree(rest, col');
        assert forall i :: 1 <= i < |cs| ==> cs[i] == rest[i - 1];
      }
    }
  }
}
