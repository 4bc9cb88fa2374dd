/** Rows of a text of which some disjoint ranges are hidden. The index maps of terminalFolds.ts walk
    the ranges with a running total; here they are proved to count and to select visible rows. */
module HiddenRows {

  /** A hidden body [start, end); the row just above it is its header. */
  datatype Range = Range(start: int, end: int)

  /** Ascending bodies, each below a visible header row of its own. */
  ghost predicate Spaced(ranges: seq<Range>) {
    && (forall k :: 0 <= k < |ranges| ==> 1 <= ranges[k].start < ranges[k].end)
    && (forall k, l :: 0 <= k < l < |ranges| ==> ranges[k].end < ranges[l].start)
  }

  ghost predicate InRange(ranges: seq<Range>, k: int, row: int) {
    0 <= k < |ranges| && ranges[k].start <= row < ranges[k].end
  }

  ghost predicate Hidden(ranges: seq<Range>, row: int) {
    exists k :: InRange(ranges, k, row)
  }

  /** How many rows above the given one are visible: its row number once the bodies are gone. */
  ghost function Rank(ranges: seq<Range>, row: nat): nat {
    if row == 0 then 0
    else Rank(ranges, row - 1) + if Hidden(ranges, row - 1) then 0 else 1
  }

  /** The row that shows the given one: itself, or the header of the body that hides it. */
  ghost function Shown(ranges: seq<Range>, row: nat): nat
    requires Spaced(ranges)
  {
    if Hidden(ranges, row) then
      var k :| InRange(ranges, k, row);
      ranges[k].start - 1
    else row
  }

  /** Lengths of the first k bodies. */
  function HiddenBy(ranges: seq<Range>, k: nat): int
    requires k <= |ranges|
  {
    if k == 0 then 0 else HiddenBy(ranges, k - 1) + (ranges[k - 1].end - ranges[k - 1].start)
  }

  /** The row lies in the gap before the k-th body. */
  ghost predicate InGap(ranges: seq<Range>, k: nat, row: int) {
    && k <= |ranges|
    && 0 <= row
    && (k > 0 ==> ranges[k - 1].end <= row)
    && (k < |ranges| ==> row < ranges[k].start)
  }

  lemma {:induction false} GapIsVisible(ranges: seq<Range>, k: nat, row: int)
    requires Spaced(ranges) && InGap(ranges, k, row)
    ensures !Hidden(ranges, row)
  {
    forall l
      ensures !InRange(ranges, l, row)
    {
      if 0 <= l < k { assert ranges[l].end <= ranges[k - 1].end; }
      if k <= l < |ranges| { assert ranges[k].start <= ranges[l].start; }
    }
  }

  lemma {:induction false} BodyHasNoRank(ranges: seq<Range>, k: nat, row: nat)
    requires k < |ranges| && 0 <= ranges[k].start <= row <= ranges[k].end
    ensures Rank(ranges, row) == Rank(ranges, ranges[k].start)
  {
    if row > ranges[k].start {
      BodyHasNoRank(ranges, k, row - 1);
      assert InRange(ranges, k, row - 1);
    }
  }

  /** In the gap before the k-th body, exactly the first k bodies are missing above. */
  lemma {:induction false} RankInGap(ranges: seq<Range>, k: nat, row: nat)
    requires Spaced(ranges) && k <= |ranges|
    requires k > 0 ==> ranges[k - 1].end <= row
    requires k < |ranges| ==> row <= ranges[k].start
    ensures Rank(ranges, row) == row - HiddenBy(ranges, k)
  {
    if k > 0 && row == ranges[k - 1].end {
      BodyHasNoRank(ranges, k - 1, row);
      RankInGap(ranges, k - 1, ranges[k - 1].start);
    } else if row > 0 {
      GapIsVisible(ranges, k, row - 1);
      RankInGap(ranges, k, row - 1);
    }
  }

  lemma {:induction false} RankMonotone(ranges: seq<Range>, a: nat, b: nat)
    requires a <= b
    ensures Rank(ranges, a) <= Rank(ranges, b)
    ensures a < b && !Hidden(ranges, a) ==> Rank(ranges, a) < Rank(ranges, b)
  {
    if a < b { RankMonotone(ranges, a, b - 1); }
  }

  lemma {:induction false} ShownIsVisible(ranges: seq<Range>, row: nat)
    requires Spaced(ranges)
    ensures !Hidden(ranges, Shown(ranges, row))
    ensures Shown(ranges, row) <= row
    ensures Hidden(ranges, row) ==> exists k :: InRange(ranges, k, row) && Shown(ranges, row) == ranges[k].start - 1
    ensures Rank(ranges, Shown(ranges, row)) == Rank(ranges, row) - if Hidden(ranges, row) then 1 else 0
  {
    if Hidden(ranges, row) {
      var k :| InRange(ranges, k, row) && Shown(ranges, row) == ranges[k].start - 1;
      GapIsVisible(ranges, k, ranges[k].start - 1);
      BodyHasNoRank(ranges, k, row);
    }
  }

  lemma {:induction false} BodyIsUnique(ranges: seq<Range>, k: int, l: int, row: int)
    requires Spaced(ranges) && InRange(ranges, k, row) && InRange(ranges, l, row)
    ensures k == l
  {
  }

  /** A row is shown by the nearest visible row at or above it. */
  lemma {:induction false} ShownIsNearestAbove(ranges: seq<Range>, row: nat)
    requires Spaced(ranges)
    ensures var shown := Shown(ranges, row);
            shown <= row && !Hidden(ranges, shown) && forall r :: shown < r <= row ==> Hidden(ranges, r)
  {
    ShownIsVisible(ranges, row);
    if Hidden(ranges, row) {
      var k :| InRange(ranges, k, row) && Shown(ranges, row) == ranges[k].start - 1;
      forall r | ranges[k].start <= r <= row ensures Hidden(ranges, r) { assert InRange(ranges, k, r); }
    }
  }

  /** A row's rank is the number of visible rows above it. */
  lemma {:induction false} RankCounts(ranges: seq<Range>, row: nat)
    ensures Rank(ranges, row) == |set r: nat | r < row && !Hidden(ranges, r)|
  {
    if row > 0 {
      RankCounts(ranges, row - 1);
      var before, upTo := (set r: nat | r < row - 1 && !Hidden(ranges, r)), (set r: nat | r < row && !Hidden(ranges, r));
      assert upTo == if Hidden(ranges, row - 1) then before else before + {row - 1};
    }
  }

  /** Original row to current row: hidden rows go to their header. */
  method ToDisplay(ranges: seq<Range>, orig: nat) returns (display: int)
    requires Spaced(ranges)
    ensures display == Rank(ranges, Shown(ranges, orig))
  {
    var hidden := 0;
    var k := 0;
    while k < |ranges|
      invariant k <= |ranges| && hidden == HiddenBy(ranges, k)
      invariant k > 0 ==> ranges[k - 1].end <= orig
    {
      var r := ranges[k];
      if orig >= r.end {
        hidden := hidden + (r.end - r.start);
        k := k + 1;
        continue;
      }
      if orig >= r.start {
        assert InRange(ranges, k, orig);
        ShownIsVisible(ranges, orig);
        ghost var l :| InRange(ranges, l, orig) && Shown(ranges, orig) == ranges[l].start - 1;
        BodyIsUnique(ranges, k, l, orig);
        RankInGap(ranges, k, r.start - 1);
        return if r.start - 1 - hidden < 0 then 0 else r.start - 1 - hidden;
      }
      break;
    }
    GapIsVisible(ranges, k, orig);
    RankInGap(ranges, k, orig);
    return orig - hidden;
  }

  /** Current row to original row: the visible row with that many visible rows above. */
  method ToOriginal(ranges: seq<Range>, display: nat) returns (orig: nat)
    requires Spaced(ranges)
    ensures !Hidden(ranges, orig) && Rank(ranges, orig) == display
  {
    var hidden := 0;
    var k := 0;
    while k < |ranges|
      invariant k <= |ranges| && hidden == HiddenBy(ranges, k) && hidden >= 0
      invariant k > 0 ==> ranges[k - 1].end <= display + hidden
    {
      var r := ranges[k];
      var header := r.start - 1 - hidden;
      if display <= header { break; }
      hidden := hidden + (r.end - r.start);
      k := k + 1;
    }
    orig := display + hidden;
    GapIsVisible(ranges, k, orig);
    RankInGap(ranges, k, orig);
  }

  /** The visible row with the given rank. */
  ghost function Nth(ranges: seq<Range>, display: nat): (orig: nat)
    requires Spaced(ranges)
    ensures !Hidden(ranges, orig) && Rank(ranges, orig) == display
  {
    NthExists(ranges, display, 0);
    var orig: nat :| !Hidden(ranges, orig) && Rank(ranges, orig) == display;
    orig
  }

  lemma {:induction false} NthExists(ranges: seq<Range>, display: nat, k: nat)
    requires Spaced(ranges) && k <= |ranges| && HiddenBy(ranges, k) >= 0
    requires k > 0 ==> ranges[k - 1].end <= display + HiddenBy(ranges, k)
    ensures exists orig: nat :: !Hidden(ranges, orig) && Rank(ranges, orig) == display
    decreases |ranges| - k
  {
    var orig := display + HiddenBy(ranges, k);
    if k < |ranges| && ranges[k].start <= orig {
      NthExists(ranges, display, k + 1);
    } else {
      GapIsVisible(ranges, k, orig);
      RankInGap(ranges, k, orig);
    }
  }

  /** A visible row is determined by its rank. */
  lemma {:induction false} RankInjective(ranges: seq<Range>, a: nat, b: nat)
    requires !Hidden(ranges, a) && !Hidden(ranges, b) && Rank(ranges, a) == Rank(ranges, b)
    ensures a == b
  {
    if a < b { RankMonotone(ranges, a, b); }
    if b < a { RankMonotone(ranges, b, a); }
  }

  /** The two maps undo each other: exactly on visible rows, and up to the header on hidden ones. */
  lemma {:induction false} MapsAreInverse(ranges: seq<Range>, row: nat)
    requires Spaced(ranges)
    ensures Nth(ranges, Rank(ranges, Shown(ranges, row))) == Shown(ranges, row)
    ensures Nth(ranges, Rank(ranges, Shown(ranges, row))) == row <==> !Hidden(ranges, row)
    ensures Rank(ranges, Shown(ranges, Nth(ranges, row))) == row
  {
    ShownIsVisible(ranges, row);
    RankInjective(ranges, Nth(ranges, Rank(ranges, Shown(ranges, row))), Shown(ranges, row));
  }

  /** Both maps preserve order; the map from current rows is strict. */
  lemma {:induction false} MapsAreMonotone(ranges: seq<Range>, a: nat, b: nat)
    requires Spaced(ranges) && a < b
    ensures Rank(ranges, Shown(ranges, a)) <= Rank(ranges, Shown(ranges, b))
    ensures Nth(ranges, a) < Nth(ranges, b)
  {
    ShownIsVisible(ranges, a);
    ShownIsVisible(ranges, b);
    RankMonotone(ranges, a, b);
    if Hidden(ranges, b) && !Hidden(ranges, a) {
      RankMonotone(ranges, Shown(ranges, a), b);
    }
    if Nth(ranges, b) <= Nth(ranges, a) { RankMonotone(ranges, Nth(ranges, b), Nth(ranges, a)); }
  }
}
