/** The composed text of composeFoldView in frontend/src/terminalFolds.ts and how its lines relate to
    the original ones. Text is a sequence of UTF-16 units without surrogate pairs. */
module FoldViews {
  import opened Folds
  import opened HiddenRows
  import Numbers
  import Texts

  datatype FoldView = FoldView(text: string, hiddenTotal: int, ranges: seq<Range>, logicalRanges: seq<Range>)

  // ---------------------------------------------------------------- the header line

  const OPEN_ARROW := '\U{25BC}'
  const CLOSED_ARROW := '\U{25B6}'
  const RESET := "\U{1B}[0m"

  /** line.replace('▼', '▶'): the first arrow only. */
  function FlipArrow(line: string): (r: string)
    ensures |r| == |line|
  {
    if line == "" then ""
    else if line[0] == OPEN_ARROW then [CLOSED_ARROW] + line[1..]
    else [line[0]] + FlipArrow(line[1..])
  }

  function BadgeText(hidden: nat, lineUnit: string): string {
    "\U{1B}[2m (" + Texts.Decimal(hidden) + " " + lineUnit + ")" + RESET
  }

  function FoldHeader(line: string, hidden: nat, offset: int, lineUnit: string): string {
    var flipped := FlipArrow(line);
    var badge := BadgeText(hidden, lineUnit);
    if 0 <= offset <= |flipped| then flipped[..offset] + badge + flipped[offset..]
    else
      var resetAt := Texts.LastIndexOf(flipped, RESET);
      if resetAt >= 0 then flipped[..resetAt + 4] + badge else flipped + badge
  }

  ghost predicate InsertedAt(whole: string, base: string, inserted: string, p: int) {
    0 <= p <= |base| && whole == base[..p] + inserted + base[p..]
  }

  /** A header keeps its text around the badge, apart from the flipped arrow, exactly when the offset
      falls inside it, it has no reset, or nothing follows its last reset. Text after the last reset
      is otherwise dropped. */
  lemma {:induction false} HeaderKeepsText(line: string, hidden: nat, offset: int, lineUnit: string)
    ensures (exists p :: InsertedAt(FoldHeader(line, hidden, offset, lineUnit), FlipArrow(line), BadgeText(hidden, lineUnit), p))
       <==> 0 <= offset <= |line| || Texts.LastIndexOf(FlipArrow(line), RESET) < 0
            || Texts.LastIndexOf(FlipArrow(line), RESET) + 4 == |line|
  {
    var flipped := FlipArrow(line);
    var badge := BadgeText(hidden, lineUnit);
    var header := FoldHeader(line, hidden, offset, lineUnit);
    var resetAt := Texts.LastIndexOf(flipped, RESET);
    if 0 <= offset <= |line| {
      assert InsertedAt(header, flipped, badge, offset);
    } else if resetAt < 0 || resetAt + 4 == |line| {
      assert flipped[..|flipped|] == flipped && flipped[|flipped|..] == "";
      assert header == flipped[..|flipped|] + badge + flipped[|flipped|..];
      assert InsertedAt(header, flipped, badge, |flipped|);
    } else {
      assert |header| == resetAt + 4 + |badge| < |flipped| + |badge|;
    }
  }

  /** A header whose text after the reset disappears. */
  lemma {:induction false} HeaderDropsTail(tail: string)
    requires RESET[0] !in tail && tail != ""
    ensures FoldHeader(RESET + tail, 1, -1, "lines") == RESET + BadgeText(1, "lines")
  {
    FlipSkips(RESET, tail);
    FlipAvoids(tail, RESET[0]);
    ResetInFront(FlipArrow(tail));
  }

  /** A reset in front of text without another one. */
  lemma {:induction false} ResetInFront(tail: string)
    requires RESET[0] !in tail
    ensures Texts.LastIndexOf(RESET + tail, RESET) == 0 && (RESET + tail)[..4] == RESET
  {
    var text := RESET + tail;
    assert Texts.IsAt(text, RESET, 0);
    forall i | 0 < i
      ensures !Texts.IsAt(text, RESET, i)
    {
      if i <= |text| - 4 {
        assert text[i..i + 4][0] == text[i] == if i < 4 then RESET[i] else tail[i - 4];
      }
    }
  }

  lemma {:induction false} FlipSkips(p: string, s: string)
    requires OPEN_ARROW !in p
    ensures FlipArrow(p + s) == p + FlipArrow(s)
  {
    if p == "" {
      assert p + s == s && p + FlipArrow(s) == FlipArrow(s);
    } else {
      FlipSkips(p[1..], s);
      assert (p + s)[1..] == p[1..] + s;
      assert p == [p[0]] + p[1..];
    }
  }

  lemma {:induction false} FlipAvoids(s: string, c: char)
    requires c !in s && c != CLOSED_ARROW
    ensures c !in FlipArrow(s)
  {
    if s != "" { FlipAvoids(s[1..], c); }
  }

  lemma {:induction false} HeaderHasNoNewline(line: string, hidden: nat, offset: int, lineUnit: string)
    requires '\n' !in line && '\n' !in lineUnit
    ensures '\n' !in FoldHeader(line, hidden, offset, lineUnit)
  {
    FlipAvoids(line, '\n');
    Texts.DecimalIsDigits(hidden);
  }

  // ---------------------------------------------------------------- what a header shows

  /** The line with its first open arrow closed, if it has one. */
  ghost predicate ArrowClosed(line: string, closed: string) {
    if '\U{25BC}' !in line then closed == line
    else exists i :: 0 <= i < |line| && line[i] == '\U{25BC}' && '\U{25BC}' !in line[..i] && closed == line[i := '\U{25B6}']
  }

  lemma {:induction false} FlipsFirst(line: string)
    ensures ArrowClosed(line, FlipArrow(line))
  {
    if '\U{25BC}' !in line {
      FlipSkips(line, "");
      assert line + "" == line;
    } else {
      FirstArrow(line);
      var i :| 0 <= i < |line| && line[i] == '\U{25BC}' && '\U{25BC}' !in line[..i];
      FlipSkips(line[..i], line[i..]);
      assert line[..i] + line[i..] == line && line[i..][1..] == line[i + 1..];
      assert FlipArrow(line) == line[..i] + (['\U{25B6}'] + line[i + 1..]) == line[i := '\U{25B6}'];
    }
  }

  lemma {:induction false} FirstArrow(line: string)
    requires '\U{25BC}' in line
    ensures exists i :: 0 <= i < |line| && line[i] == '\U{25BC}' && '\U{25BC}' !in line[..i]
  {
    var n := |line| - 1;
    if '\U{25BC}' in line[..n] {
      FirstArrow(line[..n]);
      var i :| 0 <= i < n && line[..n][i] == '\U{25BC}' && '\U{25BC}' !in line[..n][..i];
      assert line[..n][..i] == line[..i] && line[i] == '\U{25BC}';
    } else {
      assert line[n] == '\U{25BC}';
    }
  }

  /** The number of hidden rows in dim brackets, at the offset if there is one within the text, else behind the last reset,
      of which nothing follows, else at the end. */
  ghost predicate HeaderShows(header: string, line: string, hidden: nat, offset: int, lineUnit: string) {
    exists closed :: ArrowClosed(line, closed) && Badged(header, closed, hidden, offset, lineUnit)
  }

  ghost predicate Badged(header: string, closed: string, hidden: nat, offset: int, lineUnit: string) {
    var badge := "\U{1B}[2m (" + Texts.Decimal(hidden) + " " + lineUnit + ")\U{1B}[0m";
    if 0 <= offset <= |closed| then header == closed[..offset] + badge + closed[offset..]
    else if exists r :: Texts.IsAt(closed, "\U{1B}[0m", r) then
      exists r :: Texts.IsAt(closed, "\U{1B}[0m", r) && (forall q :: q > r ==> !Texts.IsAt(closed, "\U{1B}[0m", q))
        && header == closed[..r + 4] + badge
    else header == closed + badge
  }

  lemma {:induction false} HeaderIsBadged(line: string, hidden: nat, offset: int, lineUnit: string)
    ensures HeaderShows(FoldHeader(line, hidden, offset, lineUnit), line, hidden, offset, lineUnit)
  {
    var closed := FlipArrow(line);
    FlipsFirst(line);
    var r := Texts.LastIndexOf(closed, RESET);
    assert BadgeText(hidden, lineUnit) == "\U{1B}[2m (" + Texts.Decimal(hidden) + " " + lineUnit + ")\U{1B}[0m";
    assert r < 0 ==> forall q :: Texts.IsAt(closed, RESET, q) ==> q <= r;
    assert Badged(FoldHeader(line, hidden, offset, lineUnit), closed, hidden, offset, lineUnit);
  }

  // ---------------------------------------------------------------- the composed lines

  ghost predicate Heads(active: seq<FoldRange>, k: int, line: int) {
    0 <= k < |active| && active[k].headerLogical == line
  }

  /** A visible line as the view shows it: rewritten when it heads an active fold. */
  ghost function Rendered(active: seq<FoldRange>, lines: seq<string>, lineUnit: string, i: nat): string
    requires i < |lines| && InOrder(active)
  {
    if exists k :: Heads(active, k, i) then
      var k :| Heads(active, k, i);
      FoldHeader(lines[i], active[k].displayEnd - active[k].displayStart, active[k].badgeOffset, lineUnit)
    else lines[i]
  }

  /** A line that heads an active fold says how many display rows the fold's body takes. */
  lemma {:induction false} RenderedShows(active: seq<FoldRange>, lines: seq<string>, lineUnit: string, k: nat, i: nat)
    requires i < |lines| && InOrder(active) && Heads(active, k, i)
    ensures HeaderShows(Rendered(active, lines, lineUnit, i), lines[i], active[k].displayEnd - active[k].displayStart,
                        active[k].badgeOffset, lineUnit)
  {
    forall j | Heads(active, j, i)
      ensures j == k
    {
      assert j < k ==> Precedes(active[j], active[k]);
      assert k < j ==> Precedes(active[k], active[j]);
    }
    HeaderIsBadged(lines[i], active[k].displayEnd - active[k].displayStart, active[k].badgeOffset, lineUnit);
  }

  ghost function Bodies(active: seq<FoldRange>): seq<Range> {
    LogicalRanges(ByLogical(active))
  }

  /** What the first n original lines contribute to the composed text. */
  ghost function ComposedLines(active: seq<FoldRange>, bodies: seq<Range>, lines: seq<string>, lineUnit: string, n: nat)
    : seq<string>
    requires n <= |lines| && InOrder(active)
  {
    if n == 0 then []
    else ComposedLines(active, bodies, lines, lineUnit, n - 1)
         + if Hidden(bodies, n - 1) then [] else [Rendered(active, lines, lineUnit, n - 1)]
  }

  lemma {:induction false} ComposedAt(active: seq<FoldRange>, bodies: seq<Range>, lines: seq<string>, lineUnit: string,
                                      n: nat, i: nat)
    requires n <= |lines| && InOrder(active)
    ensures |ComposedLines(active, bodies, lines, lineUnit, n)| == Rank(bodies, n)
    ensures i < n && !Hidden(bodies, i) ==>
              var r := Rank(bodies, i);
              r < Rank(bodies, n) && ComposedLines(active, bodies, lines, lineUnit, n)[r] == Rendered(active, lines, lineUnit, i)
  {
    if n > 0 { ComposedAt(active, bodies, lines, lineUnit, n - 1, i); }
  }

  lemma {:induction false} BodyContributesNothing(active: seq<FoldRange>, bodies: seq<Range>, lines: seq<string>,
                                                  lineUnit: string, k: nat, n: nat)
    requires InOrder(active) && k < |bodies| && bodies[k].start >= 0
    requires bodies[k].start <= n <= bodies[k].end && n <= |lines|
    ensures ComposedLines(active, bodies, lines, lineUnit, n)
        == ComposedLines(active, bodies, lines, lineUnit, bodies[k].start)
  {
    if n > bodies[k].start {
      BodyContributesNothing(active, bodies, lines, lineUnit, k, n - 1);
      assert InRange(bodies, k, n - 1);
    }
  }

  datatype Badge = Badge(hidden: nat, offset: int)

  ghost predicate BadgesOf(badges: map<int, Badge>, active: seq<FoldRange>, n: int) {
    && 0 <= n <= |active|
    && (forall line :: line in badges <==> exists k :: k < n && Heads(active, k, line))
    && (forall k :: 0 <= k < n ==>
          active[k].headerLogical in badges
          && badges[active[k].headerLogical]
              == Badge(Numbers.Max(0, active[k].displayEnd - active[k].displayStart), active[k].badgeOffset))
  }

  method CollectBadges(active: seq<FoldRange>) returns (badges: map<int, Badge>)
    requires InOrder(active)
    ensures BadgesOf(badges, active, |active|)
  {
    badges := map[];
    for i := 0 to |active|
      invariant BadgesOf(badges, active, i)
    {
      var f := active[i];
      BadgeAdded(badges, active, i);
      badges := badges[f.headerLogical := Badge(Numbers.Max(0, f.displayEnd - f.displayStart), f.badgeOffset)];
    }
  }

  lemma {:induction false} BadgeAdded(badges: map<int, Badge>, active: seq<FoldRange>, i: nat)
    requires InOrder(active) && i < |active| && BadgesOf(badges, active, i)
    ensures var f := active[i];
            BadgesOf(badges[f.headerLogical := Badge(Numbers.Max(0, f.displayEnd - f.displayStart), f.badgeOffset)], active, i + 1)
  {
    forall k: nat | k < i
      ensures active[k].headerLogical < active[i].headerLogical
    {
      HeadersAscend(active, k, i);
    }
    assert Heads(active, i, active[i].headerLogical);
    assert forall line, k :: k < i + 1 && Heads(active, k, line) ==> k < i || line == active[i].headerLogical;
  }

  lemma {:induction false} HeadersAscend(active: seq<FoldRange>, i: nat, j: nat)
    requires InOrder(active) && i < j < |active|
    ensures active[i].headerLogical < active[j].headerLogical
  {
    assert Precedes(active[i], active[j]) && WellFormed(active[i]);
  }

  lemma {:induction false} HeadsUnique(active: seq<FoldRange>, k: int, l: int, line: int)
    requires InOrder(active) && Heads(active, k, line) && Heads(active, l, line)
    ensures k == l
  {
    if l < k { HeadersAscend(active, l, k); }
    if k < l { HeadersAscend(active, k, l); }
  }

  /** The line pushed for index i: its header rewrite when the badge map has one. */
  method RenderLine(badges: map<int, Badge>, ghost active: seq<FoldRange>, lines: seq<string>, lineUnit: string, i: nat)
    returns (line: string)
    requires InOrder(active) && BadgesOf(badges, active, |active|) && i < |lines|
    ensures line == Rendered(active, lines, lineUnit, i)
  {
    if i in badges {
      ghost var k :| Heads(active, k, i);
      ghost var l :| Heads(active, l, i) && Rendered(active, lines, lineUnit, i)
        == FoldHeader(lines[i], active[l].displayEnd - active[l].displayStart, active[l].badgeOffset, lineUnit);
      HeadsUnique(active, k, l, i);
      assert WellFormed(active[k]);
      line := FoldHeader(lines[i], badges[i].hidden, badges[i].offset, lineUnit);
    } else {
      assert forall k :: !Heads(active, k, i);
      line := lines[i];
    }
  }

  /** One run of lines between two bodies. */
  method CopyGap(lines: seq<string>, ghost active: seq<FoldRange>, ghost bodies: seq<Range>, badges: map<int, Badge>,
                 lineUnit: string, copied: seq<string>, from: nat, to: int, ghost k: nat) returns (out: seq<string>)
    requires InOrder(active) && Spaced(bodies) && BadgesOf(badges, active, |active|)
    requires k < |bodies| && to == bodies[k].start
    requires from == if k == 0 then 0 else bodies[k - 1].end
    requires copied == ComposedLines(active, bodies, lines, lineUnit, Numbers.Min(from, |lines|))
    ensures out == ComposedLines(active, bodies, lines, lineUnit, Numbers.Min(to, |lines|))
  {
    out := copied;
    var i := from;
    while i < to && i < |lines|
      invariant from <= i <= to
      invariant out == ComposedLines(active, bodies, lines, lineUnit, Numbers.Min(i, |lines|))
    {
      GapIsVisible(bodies, k, i);
      var line := RenderLine(badges, active, lines, lineUnit, i);
      out := out + [line];
      i := i + 1;
    }
  }

  /** The copying loop: header rewrites between the bodies, then the tail. */
  method ComposeLines(lines: seq<string>, active: seq<FoldRange>, badges: map<int, Badge>, lineUnit: string)
    returns (out: seq<string>)
    requires InOrder(active) && InOrder(ByLogical(active)) && Spaced(Bodies(active))
    requires BadgesOf(badges, active, |active|)
    ensures out == ComposedLines(active, Bodies(active), lines, lineUnit, |lines|)
  {
    var byLogical := ByLogical(active);
    ghost var bodies := Bodies(active);
    out := [];
    var cursor := 0;
    for k := 0 to |byLogical|
      invariant cursor == if k == 0 then 0 else bodies[k - 1].end
      invariant cursor >= 0
      invariant out == ComposedLines(active, bodies, lines, lineUnit, Numbers.Min(cursor, |lines|))
    {
      var f := byLogical[k];
      assert bodies[k] == Range(f.logicalStart, f.logicalEnd);
      out := CopyGap(lines, active, bodies, badges, lineUnit, out, cursor, f.logicalStart, k);
      if f.logicalStart <= |lines| {
        BodyContributesNothing(active, bodies, lines, lineUnit, k, Numbers.Min(f.logicalEnd, |lines|));
      }
      cursor := Numbers.Max(cursor, f.logicalEnd);
    }
    TailHasNoHeader(active, cursor);
    out := CopyTail(lines, active, bodies, out, cursor, lineUnit);
  }

  /** The lines below the last body, none of which heads a fold. */
  method CopyTail(lines: seq<string>, ghost active: seq<FoldRange>, ghost bodies: seq<Range>, copied: seq<string>,
                  cursor: nat, ghost lineUnit: string) returns (out: seq<string>)
    requires InOrder(active) && Spaced(bodies)
    requires |bodies| > 0 ==> cursor == bodies[|bodies| - 1].end
    requires forall k, line :: cursor <= line ==> !Heads(active, k, line)
    requires copied == ComposedLines(active, bodies, lines, lineUnit, Numbers.Min(cursor, |lines|))
    ensures out == ComposedLines(active, bodies, lines, lineUnit, |lines|)
  {
    out := copied;
    for i := cursor to Numbers.Max(cursor, |lines|)
      invariant out == ComposedLines(active, bodies, lines, lineUnit, Numbers.Min(i, |lines|))
    {
      GapIsVisible(bodies, |bodies|, i);
      out := out + [lines[i]];
    }
  }

  lemma {:induction false} HeaderAboveLastEnd(byLogical: seq<FoldRange>, j: nat)
    requires InOrder(byLogical) && j < |byLogical|
    ensures byLogical[j].headerLogical < byLogical[|byLogical| - 1].logicalEnd
  {
    var last := |byLogical| - 1;
    assert WellFormed(byLogical[j]) && WellFormed(byLogical[last]);
    assert j < last ==> Precedes(byLogical[j], byLogical[last]);
  }

  lemma {:induction false} TailHasNoHeader(active: seq<FoldRange>, cursor: nat)
    requires InOrder(active) && InOrder(ByLogical(active))
    requires var byLogical := ByLogical(active); |byLogical| > 0 ==> byLogical[|byLogical| - 1].logicalEnd <= cursor
    ensures forall k, line :: cursor <= line ==> !Heads(active, k, line)
  {
    SortMembers(LogicalLe, active);
    HeadersAboveCursor(ByLogical(active), cursor);
    forall k, line | cursor <= line
      ensures !Heads(active, k, line)
    {
      assert 0 <= k < |active| ==> active[k] in ByLogical(active);
    }
  }

  lemma {:induction false} HeadersAboveCursor(byLogical: seq<FoldRange>, cursor: nat)
    requires InOrder(byLogical) && (|byLogical| > 0 ==> byLogical[|byLogical| - 1].logicalEnd <= cursor)
    ensures forall f :: f in byLogical ==> f.headerLogical < cursor
  {
    forall j: nat | j < |byLogical|
      ensures byLogical[j].headerLogical < cursor
    {
      HeaderAboveLastEnd(byLogical, j);
    }
  }

  /** The view as a whole. */
  ghost predicate IsViewOf(view: FoldView, ansi: string, active: seq<FoldRange>, lineUnit: string)
    requires InOrder(active)
  {
    && view.text == (if active == [] then ansi
                     else Texts.Join(ComposedLines(active, Bodies(active), Texts.Split(ansi, '\n'), lineUnit, |Texts.Split(ansi, '\n')|), "\n"))
    && view.hiddenTotal == HiddenBy(view.ranges, |view.ranges|)
    && view.ranges == DisplayRanges(active)
    && view.logicalRanges == Bodies(active)
  }

  method ComposeFoldView(ansi: string, folds: seq<FoldRange>, collapsed: set<string>, lineUnit: string)
    returns (view: FoldView)
    requires Aligned(folds) && !SharesBody(folds, collapsed)
    ensures InOrder(Active(folds, collapsed)) && Spaced(view.ranges) && Spaced(view.logicalRanges)
    ensures IsViewOf(view, ansi, Active(folds, collapsed), lineUnit)
  {
    ActiveIsSpaced(folds, collapsed);
    view := ComposeActive(ansi, Active(folds, collapsed), lineUnit);
  }

  method ComposedText(ansi: string, active: seq<FoldRange>, lineUnit: string) returns (text: string)
    requires InOrder(active) && InOrder(ByLogical(active)) && Spaced(Bodies(active)) && active != []
    ensures text
        == Texts.Join(ComposedLines(active, Bodies(active), Texts.Split(ansi, '\n'), lineUnit, |Texts.Split(ansi, '\n')|), "\n")
  {
    var badges := CollectBadges(active);
    var out := ComposeLines(Texts.Split(ansi, '\n'), active, badges, lineUnit);
    text := Texts.Join(out, "\n");
  }

  method CountHidden(ranges: seq<Range>) returns (hiddenTotal: int)
    ensures hiddenTotal == HiddenBy(ranges, |ranges|)
  {
    hiddenTotal := 0;
    for k := 0 to |ranges|
      invariant hiddenTotal == HiddenBy(ranges, k)
    {
      hiddenTotal := hiddenTotal + (ranges[k].end - ranges[k].start);
    }
  }

  method ComposeActive(ansi: string, active: seq<FoldRange>, lineUnit: string) returns (view: FoldView)
    requires InOrder(active) && InOrder(ByLogical(active)) && Spaced(Bodies(active))
    ensures IsViewOf(view, ansi, active, lineUnit)
  {
    var text := ansi;
    if |active| > 0 { text := ComposedText(ansi, active, lineUnit); }
    var hiddenTotal := CountHidden(DisplayRanges(active));
    view := FoldView(text, hiddenTotal, DisplayRanges(active), LogicalRanges(ByLogical(active)));
  }

  // ---------------------------------------------------------------- what the view shows

  lemma {:induction false} LogicalRangesHide(folds: seq<FoldRange>, line: int)
    ensures Hidden(LogicalRanges(folds), line) <==> exists f :: f in folds && f.logicalStart <= line < f.logicalEnd
  {
    forall k | 0 <= k < |folds| && folds[k].logicalStart <= line < folds[k].logicalEnd
      ensures InRange(LogicalRanges(folds), k, line)
    {
    }
    forall k | InRange(LogicalRanges(folds), k, line)
      ensures folds[k] in folds && folds[k].logicalStart <= line < folds[k].logicalEnd
    {
    }
  }

  lemma {:induction false} DisplayRangesHide(folds: seq<FoldRange>, row: int)
    ensures Hidden(DisplayRanges(folds), row) <==> exists f :: f in folds && f.displayStart <= row < f.displayEnd
  {
    forall k | 0 <= k < |folds| && folds[k].displayStart <= row < folds[k].displayEnd
      ensures InRange(DisplayRanges(folds), k, row)
    {
    }
    forall k | InRange(DisplayRanges(folds), k, row)
      ensures folds[k] in folds && folds[k].displayStart <= row < folds[k].displayEnd
    {
    }
  }

  lemma {:induction false} HiddenLogicalExact(folds: seq<FoldRange>, collapsed: set<string>, line: int)
    requires Aligned(folds)
    ensures Hidden(Bodies(Active(folds, collapsed)), line)
       <==> exists f :: f in folds && f.key in collapsed && f.logicalStart <= line < f.logicalEnd
  {
    var active := Active(folds, collapsed);
    SortMembers(LogicalLe, active);
    LogicalRangesHide(ByLogical(active), line);
    ActiveHidesTheCollapsed(folds, collapsed, line);
  }

  lemma {:induction false} HiddenDisplayExact(folds: seq<FoldRange>, collapsed: set<string>, row: int)
    requires Aligned(folds)
    ensures Hidden(DisplayRanges(Active(folds, collapsed)), row)
       <==> exists f :: f in folds && f.key in collapsed && f.displayStart <= row < f.displayEnd
  {
    DisplayRangesHide(Active(folds, collapsed), row);
    ActiveHidesTheCollapsed(folds, collapsed, row);
  }

  lemma {:induction false} RenderedHasNoNewline(active: seq<FoldRange>, lines: seq<string>, lineUnit: string, i: nat)
    requires i < |lines| && InOrder(active) && Texts.Clean('\n', lines) && '\n' !in lineUnit
    ensures '\n' !in Rendered(active, lines, lineUnit, i)
  {
    if exists k :: Heads(active, k, i) {
      var k :| Heads(active, k, i) && Rendered(active, lines, lineUnit, i)
        == FoldHeader(lines[i], active[k].displayEnd - active[k].displayStart, active[k].badgeOffset, lineUnit);
      HeaderHasNoNewline(lines[i], active[k].displayEnd - active[k].displayStart, active[k].badgeOffset, lineUnit);
    }
  }

  lemma {:induction false} ComposedIsClean(active: seq<FoldRange>, bodies: seq<Range>, lines: seq<string>,
                                           lineUnit: string, n: nat)
    requires n <= |lines| && InOrder(active) && Texts.Clean('\n', lines) && '\n' !in lineUnit
    ensures Texts.Clean('\n', ComposedLines(active, bodies, lines, lineUnit, n))
  {
    if n > 0 {
      ComposedIsClean(active, bodies, lines, lineUnit, n - 1);
      RenderedHasNoNewline(active, lines, lineUnit, n - 1);
    }
  }

  lemma {:induction false} NothingCollapsed(lines: seq<string>, lineUnit: string, n: nat)
    requires n <= |lines|
    ensures ComposedLines([], [], lines, lineUnit, n) == lines[..n]
  {
    if n > 0 { NothingCollapsed(lines, lineUnit, n - 1); }
  }

  /** The lines of the composed text are the visible original lines, in order: as many as there are
      visible lines, each at its rank, rewritten only where it heads an active fold. */
  lemma {:induction false} ComposedTextLines(view: FoldView, ansi: string, folds: seq<FoldRange>,
                                             collapsed: set<string>, lineUnit: string, i: nat)
    requires Aligned(folds) && !SharesBody(folds, collapsed) && InOrder(Active(folds, collapsed))
    requires IsViewOf(view, ansi, Active(folds, collapsed), lineUnit) && '\n' !in lineUnit
    ensures var lines := Texts.Split(ansi, '\n');
            var shown := Texts.Split(view.text, '\n');
            && |shown| == Rank(view.logicalRanges, |lines|)
            && (i < |lines| && !Hidden(view.logicalRanges, i) ==>
                  && Rank(view.logicalRanges, i) < |shown|
                  && shown[Rank(view.logicalRanges, i)] == Rendered(Active(folds, collapsed), lines, lineUnit, i))
  {
    var active := Active(folds, collapsed);
    var lines := Texts.Split(ansi, '\n');
    ActiveIsSpaced(folds, collapsed);
    ComposedAt(active, Bodies(active), lines, lineUnit, |lines|, i);
    if active == [] {
      NothingCollapsed(lines, lineUnit, |lines|);
      assert Bodies(active) == [];
      assert lines[..|lines|] == lines;
    } else {
      Texts.SplitIsClean(ansi, '\n');
      ComposedIsClean(active, Bodies(active), lines, lineUnit, |lines|);
      FirstLineVisible(active);
      RankMonotone(Bodies(active), 0, |lines|);
      Texts.SplitOfJoin(ComposedLines(active, Bodies(active), lines, lineUnit, |lines|), '\n');
      assert ['\n'] == "\n";
    }
  }

  lemma {:induction false} FirstLineVisible(active: seq<FoldRange>)
    requires Spaced(Bodies(active))
    ensures !Hidden(Bodies(active), 0)
  {
  }

  /** Exactly the hidden lines are missing: original lines minus visible ones is the number of lines
      that some body covers. */
  lemma {:induction false} RankCountsHidden(ranges: seq<Range>, n: nat)
    ensures n - Rank(ranges, n) == |set i | 0 <= i < n && Hidden(ranges, i)|
  {
    if n > 0 {
      RankCountsHidden(ranges, n - 1);
      var before := set i | 0 <= i < n - 1 && Hidden(ranges, i);
      var after := set i | 0 <= i < n && Hidden(ranges, i);
      if Hidden(ranges, n - 1) { assert after == before + {n - 1}; } else { assert after == before; }
    }
  }

  // ---------------------------------------------------------------- opening the folds around a target

  predicate Contains(f: FoldRange, lineStart: int, logicalStart: int, byLine: bool) {
    if byLine then f.headerLogical <= logicalStart < f.logicalEnd
    else f.headerDisplay <= lineStart < f.displayEnd
  }

  /** Every fold that contains the target, header included; the logical line wins when it is known. */
  function FoldKeysContainingTarget(folds: seq<FoldRange>, lineStart: int, logicalStart: int, byLine: bool)
    : (keys: seq<string>)
    ensures forall f :: f in folds && Contains(f, lineStart, logicalStart, byLine) ==> f.key in keys
  {
    if folds == [] then []
    else
      var rest := FoldKeysContainingTarget(folds[1..], lineStart, logicalStart, byLine);
      var f := folds[0];
      assert forall g :: g in folds ==> g == f || g in folds[1..];
      if Contains(f, lineStart, logicalStart, byLine) then [f.key] + rest else rest
  }

  lemma {:induction false} FoldKeysAreContaining(folds: seq<FoldRange>, lineStart: int, logicalStart: int, byLine: bool,
                                                 key: string)
    returns (f: FoldRange)
    requires key in FoldKeysContainingTarget(folds, lineStart, logicalStart, byLine)
    ensures f in folds && f.key == key
    ensures Contains(f, lineStart, logicalStart, byLine)
  {
    var rest := FoldKeysContainingTarget(folds[1..], lineStart, logicalStart, byLine);
    if key in rest {
      f := FoldKeysAreContaining(folds[1..], lineStart, logicalStart, byLine, key);
    } else {
      f := folds[0];
    }
  }

  /** Nothing more is listed than must be opened: a fold's key is listed exactly when the target is its header or collapsing
      that fold alone hides the target. */
  lemma {:induction false} ListedExactly(folds: seq<FoldRange>, lineStart: int, target: int, f: FoldRange)
    requires Aligned(folds) && f in folds
    ensures f.key in FoldKeysContainingTarget(folds, lineStart, target, true)
       <==> target == f.headerLogical || Hidden(Bodies(Active(folds, {f.key})), target)
  {
    var keys := FoldKeysContainingTarget(folds, lineStart, target, true);
    HiddenLogicalExact(folds, {f.key}, target);
    assert WellFormed(f);
    if f.key in keys {
      var g := FoldKeysAreContaining(folds, lineStart, target, true, f.key);
      assert f == g || Compatible(f, g);
    }
    if g :| g in folds && g.key in {f.key} && g.logicalStart <= target < g.logicalEnd {
      assert f == g || Compatible(f, g);
    }
  }

  /** The same by display row, where rows between the header's first and the body belong to the header. */
  lemma {:induction false} ListedExactlyByRow(folds: seq<FoldRange>, row: int, f: FoldRange)
    requires Aligned(folds) && f in folds
    ensures f.key in FoldKeysContainingTarget(folds, row, 0, false)
       <==> f.headerDisplay <= row < f.displayStart || Hidden(DisplayRanges(Active(folds, {f.key})), row)
  {
    var keys := FoldKeysContainingTarget(folds, row, 0, false);
    HiddenDisplayExact(folds, {f.key}, row);
    assert WellFormed(f);
    if f.key in keys {
      var g := FoldKeysAreContaining(folds, row, 0, false, f.key);
      assert f == g || Compatible(f, g);
    }
    if g :| g in folds && g.key in {f.key} && g.displayStart <= row < g.displayEnd {
      assert f == g || Compatible(f, g);
    }
  }

  /** Opening those folds makes the target line visible; every other line keeps its state unless one of the opened folds
      hid it. When no two folds that still show share a body, the view shows the target at its own place. */
  lemma {:induction false} OpeningRevealsLine(folds: seq<FoldRange>, collapsed: set<string>, lineStart: int,
                                              target: nat, other: nat)
    requires Aligned(folds)
    ensures var uncollapsed := collapsed - (set k | k in FoldKeysContainingTarget(folds, lineStart, target, true));
            var before, after := Bodies(Active(folds, collapsed)), Bodies(Active(folds, uncollapsed));
            && !Hidden(after, target) && (Hidden(after, other) ==> Hidden(before, other))
            && (!SharesBody(folds, uncollapsed) ==>
                  Spaced(after) && Shown(after, target) == target && Nth(after, Rank(after, target)) == target)
  {
    var keys := FoldKeysContainingTarget(folds, lineStart, target, true);
    var uncollapsed := collapsed - (set k | k in keys);
    HiddenLogicalExact(folds, uncollapsed, target);
    assert forall f :: f in folds ==> WellFormed(f);
    HiddenLogicalExact(folds, uncollapsed, other);
    HiddenLogicalExact(folds, collapsed, other);
    if !SharesBody(folds, uncollapsed) {
      ActiveIsSpaced(folds, uncollapsed);
      MapsAreInverse(Bodies(Active(folds, uncollapsed)), target);
    }
  }

  lemma {:induction false} OpeningRevealsRow(folds: seq<FoldRange>, collapsed: set<string>, target: nat)
    requires Aligned(folds)
    ensures var uncollapsed := collapsed - (set k | k in FoldKeysContainingTarget(folds, target, 0, false));
            var after := DisplayRanges(Active(folds, uncollapsed));
            && !Hidden(after, target)
            && (!SharesBody(folds, uncollapsed) ==> Spaced(after) && Nth(after, Rank(after, target)) == target)
  {
    var uncollapsed := collapsed - (set k | k in FoldKeysContainingTarget(folds, target, 0, false));
    HiddenDisplayExact(folds, uncollapsed, target);
    assert forall f :: f in folds ==> WellFormed(f);
    if !SharesBody(folds, uncollapsed) {
      ActiveIsSpaced(folds, uncollapsed);
      MapsAreInverse(DisplayRanges(Active(folds, uncollapsed)), target);
    }
  }
}
