/** Viewport anchors that survive rewrites: frontend/src/viewportAnchor.ts over the fold index maps. */
module Viewport {
  import opened HiddenRows

  datatype ViewportAnchor = ViewportAnchor(originalLogical: nat, offsetRows: nat)

  /** Buffer rows of the composed logical lines, as a buffer scan lists them. */
  ghost predicate Ascending(rows: seq<int>) {
    forall i, j :: 0 <= i < j < |rows| ==> rows[i] < rows[j]
  }

  ghost predicate ScannedBuffer(rows: seq<int>, bufferLength: int) {
    Ascending(rows) && |rows| > 0 && 0 <= rows[0] && rows[|rows| - 1] < bufferLength
  }

  /** The first buffer row that no longer belongs to a line. */
  function LineEnd(rows: seq<int>, bufferLength: int, line: nat): int
    requires line < |rows|
  {
    if line + 1 < |rows| then rows[line + 1] else bufferLength
  }

  /** The line whose extent holds the row; the first line for rows above the buffer's first line. */
  ghost predicate IsLineOf(rows: seq<int>, row: int, line: int) {
    && 0 <= line < |rows|
    && (line > 0 ==> rows[line] <= row)
    && (line + 1 < |rows| ==> row < rows[line + 1])
  }

  /** The anchor names the original of the composed line and the row's distance from the line's first row. */
  ghost predicate Anchors(anchor: ViewportAnchor, rows: seq<int>, row: int, ranges: seq<Range>, line: nat)
    requires Spaced(ranges)
  {
    && IsLineOf(rows, row, line)
    && anchor.originalLogical == Nth(ranges, line)
    && anchor.offsetRows == if row < rows[line] then 0 else row - rows[line]
  }

  method CaptureViewportAnchor(rows: seq<int>, viewportRow: int, ranges: seq<Range>) returns (anchor: ViewportAnchor)
    requires |rows| > 0 && Ascending(rows) && Spaced(ranges)
    ensures exists line: nat :: Anchors(anchor, rows, viewportRow, ranges, line)
  {
    var lo, hi := 0, |rows| - 1;
    var index: nat := 0;
    while lo <= hi
      invariant 0 <= lo <= hi + 1 <= |rows|
      invariant lo == 0 ==> index == 0
      invariant lo > 0 ==> index == lo - 1 && rows[index] <= viewportRow
      invariant hi + 1 < |rows| ==> viewportRow < rows[hi + 1]
      decreases hi - lo
    {
      var mid := (lo + hi) / 2;
      if rows[mid] <= viewportRow {
        index := mid;
        lo := mid + 1;
      } else {
        hi := mid - 1;
      }
    }
    var original := ToOriginal(ranges, index);
    RankInjective(ranges, original, Nth(ranges, index));
    var above := viewportRow - rows[index];
    anchor := ViewportAnchor(original, if above < 0 then 0 else above);
    assert Anchors(anchor, rows, viewportRow, ranges, index);
  }

  function Clamp(x: int, low: int, high: int): int {
    if x > high then (if high < low then low else high) else if x < low then low else x
  }

  /** Where an anchor lands in a freshly scanned buffer. */
  ghost function ResolvedRow(anchor: ViewportAnchor, rows: seq<int>, bufferLength: int, ranges: seq<Range>): int
    requires Spaced(ranges)
  {
    if |rows| == 0 then 0
    else
      var line := Clamp(Rank(ranges, Shown(ranges, anchor.originalLogical)), 0, |rows| - 1);
      var extent := LineEnd(rows, bufferLength, line) - rows[line];
      rows[line] + (if anchor.offsetRows < extent then anchor.offsetRows else if extent > 0 then extent - 1 else 0)
  }

  method ResolveViewportAnchor(anchor: ViewportAnchor, rows: seq<int>, bufferLength: int, ranges: seq<Range>)
    returns (row: int)
    requires Spaced(ranges)
    ensures row == ResolvedRow(anchor, rows, bufferLength, ranges)
  {
    if |rows| == 0 { return 0; }
    var composed := ToDisplay(ranges, anchor.originalLogical);
    composed := if |rows| - 1 < composed then |rows| - 1 else composed;
    composed := if composed < 0 then 0 else composed;
    var firstRow := rows[composed];
    var nextLineRow := if composed + 1 < |rows| then rows[composed + 1] else bufferLength;
    var maxOffset := if nextLineRow - firstRow - 1 < 0 then 0 else nextLineRow - firstRow - 1;
    row := firstRow + if anchor.offsetRows < maxOffset then anchor.offsetRows else maxOffset;
  }

  /** Captured and resolved against the same buffer and folds, an anchor gives back its row, for every
      row of the buffer and for no row outside it. */
  lemma {:induction false} CaptureThenResolve(anchor: ViewportAnchor, rows: seq<int>, bufferLength: int,
                                              ranges: seq<Range>, viewportRow: int)
    requires ScannedBuffer(rows, bufferLength) && Spaced(ranges)
    requires exists line: nat :: Anchors(anchor, rows, viewportRow, ranges, line)
    ensures ResolvedRow(anchor, rows, bufferLength, ranges) == viewportRow <==> rows[0] <= viewportRow < bufferLength
  {
    var line: nat :| Anchors(anchor, rows, viewportRow, ranges, line);
    MapsAreInverse(ranges, line);
    if line > 0 { assert rows[0] < rows[line]; }
    if line + 1 < |rows| { assert rows[line + 1] <= rows[|rows| - 1] || line + 1 == |rows| - 1; }
  }

  /** The composed line an anchor is resolved to: the one that shows its original line, or the buffer's last. */
  ghost function ShowingLine(anchor: ViewportAnchor, rows: seq<int>, ranges: seq<Range>): int
    requires Spaced(ranges)
  {
    Clamp(Rank(ranges, Shown(ranges, anchor.originalLogical)), 0, |rows| - 1)
  }

  /** In any other buffer and fold state the anchor lands inside the extent of that line, at the captured offset if the
      line is still that tall and on its last row otherwise; never in the next line. */
  lemma {:induction false} ResolveStaysInLine(anchor: ViewportAnchor, rows: seq<int>, bufferLength: int,
                                              ranges: seq<Range>)
    requires ScannedBuffer(rows, bufferLength) && Spaced(ranges)
    ensures var line := ShowingLine(anchor, rows, ranges);
            var row := ResolvedRow(anchor, rows, bufferLength, ranges);
            && 0 <= line < |rows|
            && rows[line] <= row < LineEnd(rows, bufferLength, line)
            && (row == rows[line] + anchor.offsetRows || row == LineEnd(rows, bufferLength, line) - 1)
  {
  }

  /** The line is the one that shows the anchor's original, or the buffer's last; the row is the captured one, or the line's
      last. */
  lemma {:induction false} ResolvesExactly(anchor: ViewportAnchor, rows: seq<int>, bufferLength: int,
                                           ranges: seq<Range>)
    requires ScannedBuffer(rows, bufferLength) && Spaced(ranges)
    ensures var rank, line := Rank(ranges, Shown(ranges, anchor.originalLogical)), ShowingLine(anchor, rows, ranges);
            && line == (if rank < |rows| then rank else |rows| - 1)
            && ResolvedRow(anchor, rows, bufferLength, ranges)
               == var end := if line + 1 < |rows| then rows[line + 1] else bufferLength;
                  if rows[line] + anchor.offsetRows < end then rows[line] + anchor.offsetRows else end - 1
  {
  }

  lemma {:induction false} AnchorHasLine(ranges: seq<Range>, original: nat, total: nat)
    requires Spaced(ranges) && original < total
    ensures Rank(ranges, Shown(ranges, original)) < Rank(ranges, total)
  {
    ShownIsVisible(ranges, original);
    RankMonotone(ranges, Shown(ranges, original), total);
  }

  /** In a buffer that holds one line per visible original line, that line shows the anchor's own original line or the
      header that hides it. */
  lemma {:induction false} ResolveShowsOriginal(anchor: ViewportAnchor, rows: seq<int>, bufferLength: int,
                                                ranges: seq<Range>, total: nat)
    requires ScannedBuffer(rows, bufferLength) && Spaced(ranges)
    requires |rows| == Rank(ranges, total) && anchor.originalLogical < total
    ensures var line := ShowingLine(anchor, rows, ranges);
            line >= 0 && Nth(ranges, line) == Shown(ranges, anchor.originalLogical)
  {
    AnchorHasLine(ranges, anchor.originalLogical, total);
    MapsAreInverse(ranges, anchor.originalLogical);
  }
}
