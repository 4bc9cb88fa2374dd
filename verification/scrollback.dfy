/** Growing the terminal's scrollback: frontend/src/terminalScrollback.ts, for whole line counts. */
module Scrollback {
  import Numbers
  import opened Wrappers
  import Texts

  const DEFAULT_SCROLLBACK: nat := 20_000

  function BufferCapacity(scrollback: int, viewportRows: int): int {
    Numbers.Max(0, scrollback) + Numbers.Max(1, viewportRows)
  }

  function Required(bufferLines: int, viewportRows: int): int {
    Numbers.Max(DEFAULT_SCROLLBACK, Numbers.Max(0, bufferLines - Numbers.Max(1, viewportRows)))
  }

  /** The required scrollback is the least one, from the default on, that holds the lines. */
  lemma {:induction false} RequiredIsLeast(bufferLines: int, viewportRows: int, scrollback: int)
    requires scrollback >= DEFAULT_SCROLLBACK
    ensures Required(bufferLines, viewportRows) <= scrollback
        <==> BufferCapacity(scrollback, viewportRows) >= bufferLines
  {
  }

  function Next(current: int, neededBufferLines: int, viewportRows: int): int {
    var required := Required(neededBufferLines, viewportRows);
    if required <= current then current else Numbers.Max(required, current * 2)
  }

  /** A scrollback that holds the lines with the viewport is left alone; otherwise it at least doubles, and grows no further
      than the lines need or a doubling takes it. */
  lemma {:induction false} GrowsOnlyWhenShort(current: int, lines: int, viewportRows: int)
    requires current >= 20_000 && viewportRows >= 1
    ensures var next := Next(current, lines, viewportRows);
            if current + viewportRows >= lines then next == current
            else next >= 2 * current && next + viewportRows >= lines && (next == 2 * current || next + viewportRows == lines)
  {
  }

  class Terminal {
    var rows: int
    var scrollback: Option<int>

    function Current(): int
      reads this
    {
      if scrollback.Some? then scrollback.value else DEFAULT_SCROLLBACK
    }

    method EnsureScrollback(neededBufferLines: int) returns (next: int)
      modifies this`scrollback
      ensures next == Current() == Next(old(Current()), neededBufferLines, rows)
      ensures Current() >= old(Current()) && BufferCapacity(Current(), rows) >= neededBufferLines
      ensures Current() == old(Current()) ==> scrollback == old(scrollback)
    {
      next := Next(Current(), neededBufferLines, rows);
      NextCovers(Current(), neededBufferLines, rows);
      if next != Current() { scrollback := Some(next); }
    }
  }

  lemma {:induction false} NextCovers(current: int, needed: int, rows: int)
    ensures Next(current, needed, rows) >= current
    ensures BufferCapacity(Next(current, needed, rows), rows) >= needed
  {
  }

  // ---------------------------------------------------------------- runs of requests

  /** A request: the lines needed and the viewport rows at that moment. */
  datatype Request = Request(lines: int, rows: int)

  function Grown(start: int, requests: seq<Request>): int {
    if requests == [] then start
    else var last := requests[|requests| - 1]; Next(Grown(start, requests[..|requests| - 1]), last.lines, last.rows)
  }

  /** How many requests changed the scrollback: each one reallocates the buffer. */
  function Reallocations(start: int, requests: seq<Request>): nat {
    if requests == [] then 0
    else
      var before := requests[..|requests| - 1];
      Reallocations(start, before) + if Grown(start, requests) != Grown(start, before) then 1 else 0
  }

  function Largest(requests: seq<Request>): int {
    if requests == [] then DEFAULT_SCROLLBACK
    else var last := requests[|requests| - 1]; Numbers.Max(Largest(requests[..|requests| - 1]), Required(last.lines, last.rows))
  }

  function Power(k: nat): nat {
    if k == 0 then 1 else 2 * Power(k - 1)
  }

  /** Over any run, every request stays covered for its viewport, however many follow. */
  lemma {:induction false} RunCovers(start: int, requests: seq<Request>, i: nat)
    requires i < |requests|
    ensures Grown(start, requests) >= start
    ensures BufferCapacity(Grown(start, requests), requests[i].rows) >= requests[i].lines
  {
    var n := |requests| - 1;
    NextCovers(Grown(start, requests[..n]), requests[n].lines, requests[n].rows);
    if i < n {
      RunCovers(start, requests[..n], i);
    } else {
      RunGrows(start, requests[..n]);
    }
  }

  lemma {:induction false} RunGrows(start: int, requests: seq<Request>)
    ensures Grown(start, requests) >= start
  {
    if requests != [] {
      var n := |requests| - 1;
      RunGrows(start, requests[..n]);
      NextCovers(Grown(start, requests[..n]), requests[n].lines, requests[n].rows);
    }
  }

  /** Each reallocation at least doubles the scrollback, which never reaches twice the largest need: their number is
      logarithmic in the largest request. */
  lemma {:induction false} ReallocationsAreLogarithmic(requests: seq<Request>)
    ensures DEFAULT_SCROLLBACK * Power(Reallocations(DEFAULT_SCROLLBACK, requests)) <= Grown(DEFAULT_SCROLLBACK, requests)
    ensures Grown(DEFAULT_SCROLLBACK, requests) < 2 * Largest(requests)
    ensures DEFAULT_SCROLLBACK * Power(Reallocations(DEFAULT_SCROLLBACK, requests)) < 2 * Largest(requests)
  {
    if requests != [] { ReallocationsAreLogarithmic(requests[..|requests| - 1]); }
  }

  // ---------------------------------------------------------------- estimating rendered lines

  /** Rows a run of characters adds below the row it starts on. */
  function Extra(length: nat, width: nat): nat
    requires width >= 1
  {
    if length == 0 then 0 else (length - 1) / width
  }

  function RunRows(runs: seq<string>, width: nat): nat
    requires width >= 1
  {
    if runs == [] then 0 else RunRows(runs[..|runs| - 1], width) + Extra(|runs[|runs| - 1]|, width)
  }

  /** A line takes one row and what its runs between carriage returns add. */
  function LineRows(line: string, width: nat): nat
    requires width >= 1
  {
    1 + RunRows(Texts.Split(line, '\r'), width)
  }

  function TextRows(lines: seq<string>, width: nat): nat
    requires width >= 1
  {
    if lines == [] then 0 else TextRows(lines[..|lines| - 1], width) + LineRows(lines[|lines| - 1], width)
  }

  /** A run with no carriage return takes as many rows as it must, and at least one. */
  lemma {:induction false} RunTakesLeast(length: nat, width: nat, rows: nat)
    requires width >= 1 && rows >= 1
    ensures 1 + Extra(length, width) <= rows <==> length <= width * rows
  {
    if length > 0 {
      var q := (length - 1) / width;
      assert length - 1 == width * q + (length - 1) % width;
      if q < rows { Numbers.TimesMonotone(width, q + 1, rows); assert width * (q + 1) == width * q + width; }
      if rows <= q { Numbers.TimesMonotone(width, rows, q); }
    }
  }

  /** Lines take their rows one below the other. */
  lemma {:induction false} LinesAdd(a: string, b: string, width: nat)
    requires width >= 1 && '\n' !in a && '\n' !in b
    ensures TextRows(Texts.Split(a + ['\n'] + b, '\n'), width) == LineRows(a, width) + LineRows(b, width)
  {
    SplitTwo(a, b, '\n');
    TextRowsSnoc([], a, width);
    TextRowsSnoc([a], b, width);
    assert [] + [a] == [a] && [a] + [b] == [a, b];
  }

  /** What follows a carriage return starts over on the last row. */
  lemma {:induction false} RunsShareARow(a: string, b: string, width: nat)
    requires width >= 1 && '\r' !in a && '\r' !in b
    ensures LineRows(a, width) == 1 + Extra(|a|, width)
    ensures LineRows(a + ['\r'] + b, width) == LineRows(a, width) + LineRows(b, width) - 1
  {
    SplitTwo(a, b, '\r');
    SplitOne(a, '\r');
    SplitOne(b, '\r');
    RunRowsSnoc([], a, width);
    RunRowsSnoc([], b, width);
    RunRowsSnoc([a], b, width);
    assert [] + [a] == [a] && [] + [b] == [b] && [a] + [b] == [a, b];
  }

  lemma {:induction false} SplitOne(a: string, sep: char)
    requires sep !in a
    ensures Texts.Split(a, sep) == [a]
  {
    Texts.SplitOfJoin([a], sep);
  }

  lemma {:induction false} SplitTwo(a: string, b: string, sep: char)
    requires sep !in a && sep !in b
    ensures Texts.Split(a + [sep] + b, sep) == [a, b]
  {
    Texts.SplitOfJoin([a, b], sep);
    assert [a, b][1..] == [b];
    assert Texts.Join([a, b], [sep]) == a + [sep] + b;
  }

  function LastOf(parts: seq<string>): string
    requires parts != []
  {
    parts[|parts| - 1]
  }

  /** The pieces after one more character. */
  function Snoc(parts: seq<string>, c: char, sep: char): seq<string>
    requires parts != []
  {
    if c == sep then parts + [""] else parts[..|parts| - 1] + [LastOf(parts) + [c]]
  }

  function Front(c: char, parts: seq<string>, sep: char): seq<string>
    requires parts != []
  {
    if c == sep then [""] + parts else [[c] + parts[0]] + parts[1..]
  }

  lemma {:induction false} FrontAndSnoc(first: char, parts: seq<string>, c: char, sep: char)
    requires parts != []
    ensures Snoc(Front(first, parts, sep), c, sep) == Front(first, Snoc(parts, c, sep), sep)
  {
    assert |parts| == 1 && first != sep && c != sep ==> [first] + (parts[0] + [c]) == ([first] + parts[0]) + [c];
  }

  lemma {:induction false} SplitSnoc(s: string, c: char, sep: char)
    ensures Texts.Split(s + [c], sep) == Snoc(Texts.Split(s, sep), c, sep)
  {
    if s == "" {
      assert s + [c] == [c] && [c][1..] == "";
      assert Texts.Split("", sep) == [""];
      assert [c] + "" == "" + [c] == [c];
      assert Front(c, [""], sep) == Snoc([""], c, sep) by {
        assert [""] + [""] == ["", ""] && [""][1..] == [] && [""][..0] == [];
      }
      assert Texts.Split([c], sep) == Front(c, Texts.Split([c][1..], sep), sep);
    } else {
      SplitSnoc(s[1..], c, sep);
      assert (s + [c])[1..] == s[1..] + [c];
      FrontAndSnoc(s[0], Texts.Split(s[1..], sep), c, sep);
    }
  }

  lemma {:induction false} ExtraStep(length: nat, width: nat)
    requires width >= 1
    ensures Extra(length + 1, width) == Extra(length, width) + if length > 0 && length % width == 0 then 1 else 0
  {
    if length > 0 {
      assert length == width * (length / width) + length % width;
      if length % width == 0 {
        Quotient(length - 1, width, length / width - 1, width - 1);
      } else {
        Quotient(length - 1, width, length / width, length % width - 1);
      }
    }
  }

  lemma {:induction false} Quotient(a: nat, d: nat, q: int, r: nat)
    requires d >= 1 && r < d && a == d * q + r
    ensures a / d == q
  {
    assert a == d * (a / d) + a % d;
    assert d * (q + 1) == d * q + d && d * (a / d + 1) == d * (a / d) + d;
    if a / d > q { Numbers.TimesMonotone(d, q + 1, a / d); }
    if a / d < q { Numbers.TimesMonotone(d, a / d + 1, q); }
  }

  /** Column after a run of characters: 0 at the start, else 1 to width. */
  function Column(length: nat, width: nat): nat
    requires width >= 1
  {
    if length == 0 then 0 else (length - 1) % width + 1
  }

  /** The remainder before a full row, and before any other position. */
  lemma {:induction false} RemainderBefore(length: nat, width: nat)
    requires width >= 1 && length > 0
    ensures (length - 1) % width == if length % width == 0 then width - 1 else length % width - 1
  {
    assert length == width * (length / width) + length % width;
    var q := if length % width == 0 then length / width - 1 else length / width;
    var r := if length % width == 0 then width - 1 else length % width - 1;
    Quotient(length - 1, width, q, r);
    assert length - 1 == width * ((length - 1) / width) + (length - 1) % width;
  }

  lemma {:induction false} ColumnStep(length: nat, width: nat)
    requires width >= 1
    ensures Column(length, width) >= width <==> length > 0 && length % width == 0
    ensures Column(length + 1, width) == (if Column(length, width) >= width then 0 else Column(length, width)) + 1
  {
    if length > 0 { RemainderBefore(length, width); } else { Quotient(0, width, 0, 0); }
  }

  lemma {:induction false} RunRowsSnoc(runs: seq<string>, run: string, width: nat)
    requires width >= 1
    ensures RunRows(runs + [run], width) == RunRows(runs, width) + Extra(|run|, width)
  {
    assert (runs + [run])[..|runs|] == runs;
  }

  lemma {:induction false} TextRowsSnoc(lines: seq<string>, line: string, width: nat)
    requires width >= 1
    ensures TextRows(lines + [line], width) == TextRows(lines, width) + LineRows(line, width)
  {
    assert (lines + [line])[..|lines|] == lines;
  }

  /** A line after one more character. */
  lemma {:induction false} LineStep(line: string, c: char, width: nat)
    requires width >= 1
    ensures var run, next := LastOf(Texts.Split(line, '\r')), LastOf(Texts.Split(line + [c], '\r'));
            && next == (if c == '\r' then "" else run + [c])
            && LineRows(line + [c], width)
               == LineRows(line, width) + if c == '\r' then 0 else Extra(|run| + 1, width) - Extra(|run|, width)
  {
    SplitSnoc(line, c, '\r');
    var runs := Texts.Split(line, '\r');
    var before, run := runs[..|runs| - 1], LastOf(runs);
    assert runs == before + [run];
    RunRowsSnoc(before, run, width);
    RunRowsSnoc(before, run + [c], width);
    RunRowsSnoc(runs, "", width);
  }

  /** The text after one more character. */
  lemma {:induction false} TextStep(text: string, c: char, width: nat)
    requires width >= 1
    ensures var lines, next := Texts.Split(text, '\n'), Texts.Split(text + [c], '\n');
            && LastOf(next) == (if c == '\n' then "" else LastOf(lines) + [c])
            && TextRows(next, width)
               == TextRows(lines, width) + if c == '\n' then 1 else LineRows(LastOf(lines) + [c], width) - LineRows(LastOf(lines), width)
  {
    SplitSnoc(text, c, '\n');
    var lines := Texts.Split(text, '\n');
    var before, line := lines[..|lines| - 1], LastOf(lines);
    assert lines == before + [line];
    TextRowsSnoc(before, line, width);
    TextRowsSnoc(before, line + [c], width);
    TextRowsSnoc(lines, "", width);
    EmptyLine(width);
  }

  lemma {:induction false} EmptyLine(width: nat)
    requires width >= 1
    ensures Texts.Split("", '\r') == [""] && LineRows("", width) == 1 && TextRows([""], width) == 1
  {
    RunRowsSnoc([], "", width);
    TextRowsSnoc([], "", width);
    assert [] + [""] == [""];
  }

  /** What the loop knows after a prefix: the rows so far and the column on the last of them. */
  ghost predicate Laid(text: string, width: nat, lines: int, col: int)
    requires width >= 1
  {
    && lines == TextRows(Texts.Split(text, '\n'), width)
    && col == Column(|LastOf(Texts.Split(LastOf(Texts.Split(text, '\n')), '\r'))|, width)
  }

  lemma {:induction false} LaidStep(text: string, c: char, width: nat, lines: int, col: int)
    requires width >= 1 && Laid(text, width, lines, col)
    ensures c == '\n' ==> Laid(text + [c], width, lines + 1, 0)
    ensures c == '\r' ==> Laid(text + [c], width, lines, 0)
    ensures c != '\n' && c != '\r' ==>
              Laid(text + [c], width, if col >= width then lines + 1 else lines, (if col >= width then 0 else col) + 1)
  {
    var line := LastOf(Texts.Split(text, '\n'));
    var run := LastOf(Texts.Split(line, '\r'));
    TextStep(text, c, width);
    LineStep(line, c, width);
    ExtraStep(|run|, width);
    ColumnStep(|run|, width);
    EmptyLine(width);
  }

  method EstimateRenderedLineCount(text: string, cols: int) returns (lines: nat)
    ensures lines == if text == "" then 0 else TextRows(Texts.Split(text, '\n'), Numbers.Max(1, cols))
  {
    if text == "" { return 0; }
    var width := Numbers.Max(1, cols);
    var col := 0;
    lines := 1;
    EmptyLine(width);
    for i := 0 to |text|
      invariant Laid(text[..i], width, lines, col)
    {
      assert text[..i + 1] == text[..i] + [text[i]];
      LaidStep(text[..i], text[i], width, lines, col);
      if text[i] == '\n' {
        lines, col := lines + 1, 0;
      } else if text[i] == '\r' {
        col := 0;
      } else {
        if col >= width { lines, col := lines + 1, 0; }
        col := col + 1;
      }
    }
    assert text[..|text|] == text;
  }
}
