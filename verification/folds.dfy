/** Fold composition for the terminal replay: composeFoldView and its neighbours in
    frontend/src/terminalFolds.ts. */
module Folds {
  import HiddenRows
  import Ordering

  datatype FoldRange = FoldRange(
    key: string, turnIndex: int,
    headerDisplay: int, headerLogical: int,
    displayStart: int, displayEnd: int,
    logicalStart: int, logicalEnd: int,
    badgeOffset: int)

  // ---------------------------------------------------------------- what the renderer emits

  ghost predicate WellFormed(f: FoldRange) {
    && 0 <= f.headerDisplay < f.displayStart < f.displayEnd
    && 0 <= f.headerLogical && f.logicalStart == f.headerLogical + 1 && f.logicalStart < f.logicalEnd
  }

  /** f lies, header included, in the body of g, in both spaces. */
  ghost predicate Nested(f: FoldRange, g: FoldRange) {
    && g.displayStart <= f.headerDisplay && f.displayEnd <= g.displayEnd
    && g.logicalStart <= f.headerLogical && f.logicalEnd <= g.logicalEnd
  }

  /** f ends before g's header, in both spaces. */
  ghost predicate Precedes(f: FoldRange, g: FoldRange) {
    f.displayEnd <= g.headerDisplay && f.logicalEnd <= g.headerLogical
  }

  ghost predicate SameBody(f: FoldRange, g: FoldRange) {
    && f.displayStart == g.displayStart && f.displayEnd == g.displayEnd
    && f.logicalStart == g.logicalStart && f.logicalEnd == g.logicalEnd
  }

  ghost predicate Compatible(f: FoldRange, g: FoldRange) {
    f.key != g.key && (Nested(f, g) || Nested(g, f) || Precedes(f, g) || Precedes(g, f) || SameBody(f, g))
  }

  ghost predicate NoRepeats(s: seq<FoldRange>) {
    forall f :: multiset(s)[f] <= 1
  }

  /** Distinct keys; any two folds nest, are apart or share a body. */
  ghost predicate Aligned(folds: seq<FoldRange>) {
    && NoRepeats(folds)
    && (forall f :: f in folds ==> WellFormed(f))
    && (forall f, g :: f in folds && g in folds && f != g ==> Compatible(f, g))
  }

  // ---------------------------------------------------------------- de-nesting

  /** g is another fold whose body strictly contains the body of f. */
  predicate Swallows(g: FoldRange, f: FoldRange) {
    && g.key != f.key && g.displayStart <= f.displayStart && f.displayEnd <= g.displayEnd
    && (g.displayStart < f.displayStart || f.displayEnd < g.displayEnd)
  }

  predicate Swallowed(among: seq<FoldRange>, f: FoldRange) {
    exists i :: 0 <= i < |among| && Swallows(among[i], f)
  }

  predicate DisplayLe(f: FoldRange, g: FoldRange) {
    f.displayStart <= g.displayStart
  }

  predicate LogicalLe(f: FoldRange, g: FoldRange) {
    f.logicalStart <= g.logicalStart
  }

  function CollapsedFolds(folds: seq<FoldRange>, collapsed: set<string>): (r: seq<FoldRange>)
    ensures multiset(r) <= multiset(folds)
    ensures forall f :: f in r <==> f in folds && f.key in collapsed
  {
    if folds == [] then [] else
      assert folds == [folds[0]] + folds[1..];
      (if folds[0].key in collapsed then [folds[0]] else []) + CollapsedFolds(folds[1..], collapsed)
  }

  function Unswallowed(among: seq<FoldRange>, s: seq<FoldRange>): (r: seq<FoldRange>)
    ensures multiset(r) <= multiset(s)
    ensures forall f :: f in r <==> f in s && !Swallowed(among, f)
  {
    if s == [] then [] else
      assert s == [s[0]] + s[1..];
      (if Swallowed(among, s[0]) then [] else [s[0]]) + Unswallowed(among, s[1..])
  }

  /** The collapsed folds that no other collapsed fold already hides, by display row. */
  function Active(folds: seq<FoldRange>, collapsed: set<string>): seq<FoldRange> {
    var collapsedFolds := CollapsedFolds(folds, collapsed);
    Ordering.Sort(DisplayLe, Unswallowed(collapsedFolds, collapsedFolds))
  }

  function ByLogical(active: seq<FoldRange>): seq<FoldRange> {
    Ordering.Sort(LogicalLe, active)
  }

  function DisplayRanges(active: seq<FoldRange>): seq<HiddenRows.Range> {
    seq(|active|, k requires 0 <= k < |active| => HiddenRows.Range(active[k].displayStart, active[k].displayEnd))
  }

  function LogicalRanges(active: seq<FoldRange>): seq<HiddenRows.Range> {
    seq(|active|, k requires 0 <= k < |active| => HiddenRows.Range(active[k].logicalStart, active[k].logicalEnd))
  }

  lemma {:induction false} SortMembers(le: (FoldRange, FoldRange) -> bool, s: seq<FoldRange>)
    ensures |Ordering.Sort(le, s)| == |s|
    ensures forall f :: f in Ordering.Sort(le, s) <==> f in s
  {
    Ordering.MemberOfMultiset(Ordering.Sort(le, s), s);
  }

  lemma {:induction false} ActiveExact(folds: seq<FoldRange>, collapsed: set<string>, f: FoldRange)
    ensures f in Active(folds, collapsed)
       <==> f in folds && f.key in collapsed && !Swallowed(CollapsedFolds(folds, collapsed), f)
  {
    var collapsedFolds := CollapsedFolds(folds, collapsed);
    SortMembers(DisplayLe, Unswallowed(collapsedFolds, collapsedFolds));
  }

  /** On the folds the renderer emits, swallowing is nesting. */
  lemma {:induction false} SwallowsIsNested(folds: seq<FoldRange>, f: FoldRange, g: FoldRange)
    requires Aligned(folds) && f in folds && g in folds
    ensures Swallows(g, f) <==> f != g && Nested(f, g)
  {
    if f != g { assert Compatible(f, g); }
  }

  /** Every collapsed fold is active or lies in an active one. */
  lemma {:induction false} CoveredByActive(folds: seq<FoldRange>, collapsed: set<string>, f: FoldRange,
                                           above: set<FoldRange>) returns (g: FoldRange)
    requires Aligned(folds) && f in folds && f.key in collapsed
    requires above == set h | h in folds && h.key in collapsed && Swallows(h, f)
    ensures g in Active(folds, collapsed) && (g == f || Nested(f, g))
    decreases above
  {
    var collapsedFolds := CollapsedFolds(folds, collapsed);
    ActiveExact(folds, collapsed, f);
    if !Swallowed(collapsedFolds, f) {
      g := f;
    } else {
      var i :| 0 <= i < |collapsedFolds| && Swallows(collapsedFolds[i], f);
      var h := collapsedFolds[i];
      assert h in collapsedFolds;
      SwallowsIsNested(folds, f, h);
      var aboveH := set e | e in folds && e.key in collapsed && Swallows(e, h);
      forall e | e in aboveH
        ensures e in above
      {
        SwallowsIsNested(folds, h, e);
        assert Nested(f, e) && e != f;
        SwallowsIsNested(folds, f, e);
      }
      assert h in above && h !in aboveH;
      g := CoveredByActive(folds, collapsed, h, aboveH);
    }
  }

  ghost predicate CoversLogical(folds: seq<FoldRange>, collapsed: set<string>, line: int) {
    exists f :: f in folds && f.key in collapsed && f.logicalStart <= line < f.logicalEnd
  }

  ghost predicate CoversDisplay(folds: seq<FoldRange>, collapsed: set<string>, row: int) {
    exists f :: f in folds && f.key in collapsed && f.displayStart <= row < f.displayEnd
  }

  /** A collapsed fold's body lies in that of an active one. */
  lemma {:induction false} CoveredBody(folds: seq<FoldRange>, collapsed: set<string>, f: FoldRange)
    returns (g: FoldRange)
    requires Aligned(folds) && f in folds && f.key in collapsed
    ensures g in Active(folds, collapsed)
    ensures g.logicalStart <= f.logicalStart && f.logicalEnd <= g.logicalEnd
    ensures g.displayStart <= f.displayStart && f.displayEnd <= g.displayEnd
  {
    g := CoveredByActive(folds, collapsed, f, set h | h in folds && h.key in collapsed && Swallows(h, f));
    assert WellFormed(f);
  }

  /** De-nesting loses nothing: the active bodies hide exactly the lines and rows of the collapsed folds. */
  lemma {:induction false} ActiveHidesTheCollapsed(folds: seq<FoldRange>, collapsed: set<string>, line: int)
    requires Aligned(folds)
    ensures (exists f :: f in Active(folds, collapsed) && f.logicalStart <= line < f.logicalEnd)
       <==> CoversLogical(folds, collapsed, line)
    ensures (exists f :: f in Active(folds, collapsed) && f.displayStart <= line < f.displayEnd)
       <==> CoversDisplay(folds, collapsed, line)
  {
    forall f | f in Active(folds, collapsed)
      ensures f in folds && f.key in collapsed
    {
      ActiveExact(folds, collapsed, f);
    }
    if CoversLogical(folds, collapsed, line) {
      var f :| f in folds && f.key in collapsed && f.logicalStart <= line < f.logicalEnd;
      var g := CoveredBody(folds, collapsed, f);
    }
    if CoversDisplay(folds, collapsed, line) {
      var f :| f in folds && f.key in collapsed && f.displayStart <= line < f.displayEnd;
      var g := CoveredBody(folds, collapsed, f);
    }
  }

  /** Two collapsed folds share a body that no other collapsed fold swallows. */
  ghost predicate SharesBody(folds: seq<FoldRange>, collapsed: set<string>) {
    exists f, g :: IsSharedBody(folds, collapsed, f, g)
  }

  ghost predicate IsSharedBody(folds: seq<FoldRange>, collapsed: set<string>, f: FoldRange, g: FoldRange) {
    && f in folds && g in folds && f.key in collapsed && g.key in collapsed && f != g && SameBody(f, g)
    && forall h :: h in folds && h.key in collapsed ==> !Swallows(h, f)
  }

  ghost predicate ApartEitherWay(f: FoldRange, g: FoldRange) {
    Precedes(f, g) || Precedes(g, f)
  }

  lemma {:induction false} ActiveNeverSwallowed(folds: seq<FoldRange>, collapsed: set<string>, f: FoldRange)
    ensures f in Active(folds, collapsed)
       <==> f in folds && f.key in collapsed && forall h :: h in folds && h.key in collapsed ==> !Swallows(h, f)
  {
    var collapsedFolds := CollapsedFolds(folds, collapsed);
    ActiveExact(folds, collapsed, f);
    if Swallowed(collapsedFolds, f) {
      var i :| 0 <= i < |collapsedFolds| && Swallows(collapsedFolds[i], f);
      assert collapsedFolds[i] in collapsedFolds;
    } else {
      forall h | h in folds && h.key in collapsed
        ensures !Swallows(h, f)
      {
        NotSwallowed(collapsedFolds, f, h);
      }
    }
  }

  lemma {:induction false} ActiveApart(folds: seq<FoldRange>, collapsed: set<string>)
    requires Aligned(folds) && !SharesBody(folds, collapsed)
    ensures AllApart(Active(folds, collapsed))
  {
    var collapsedFolds := CollapsedFolds(folds, collapsed);
    var active := Active(folds, collapsed);
    forall f, g | f in active && g in active && f != g
      ensures ApartEitherWay(f, g)
    {
      ActiveNeverSwallowed(folds, collapsed, f);
      ActiveNeverSwallowed(folds, collapsed, g);
      SwallowsIsNested(folds, f, g);
      SwallowsIsNested(folds, g, f);
      assert Compatible(f, g) && !IsSharedBody(folds, collapsed, f, g);
    }
    forall f | f in active
      ensures WellFormed(f)
    {
      ActiveExact(folds, collapsed, f);
    }
    assert multiset(active) == multiset(Unswallowed(collapsedFolds, collapsedFolds)) <= multiset(folds);
  }

  ghost predicate InOrder(s: seq<FoldRange>) {
    && (forall i :: 0 <= i < |s| ==> WellFormed(s[i]))
    && (forall i, j :: 0 <= i < j < |s| ==> Precedes(s[i], s[j]))
  }

  /** Sorting by either space puts folds that are apart in the same order. */
  lemma {:induction false} ApartIsInOrder(le: (FoldRange, FoldRange) -> bool, s: seq<FoldRange>)
    requires le == DisplayLe || le == LogicalLe
    requires AllApart(s) && Ordering.Sorted(le, s)
    ensures InOrder(s)
  {
    forall i, j | 0 <= i < j < |s|
      ensures Precedes(s[i], s[j])
    {
      NoRepeatsByIndex(s, i, j);
      assert s[i] in s && s[j] in s && le(s[i], s[j]);
      assert ApartEitherWay(s[i], s[j]);
    }
  }

  lemma {:induction false} InOrderIsSpaced(s: seq<FoldRange>)
    requires InOrder(s)
    ensures HiddenRows.Spaced(DisplayRanges(s)) && HiddenRows.Spaced(LogicalRanges(s))
  {
    forall i, j | 0 <= i < j < |s|
      ensures s[i].displayEnd < s[j].displayStart && s[i].logicalEnd < s[j].logicalStart
    {
      assert Precedes(s[i], s[j]) && WellFormed(s[j]);
    }
  }

  lemma {:induction false} ByLogicalApart(s: seq<FoldRange>)
    requires AllApart(s)
    ensures AllApart(ByLogical(s)) && InOrder(ByLogical(s))
  {
    SortMembers(LogicalLe, s);
    Ordering.SortSorted(LogicalLe, s);
    ApartIsInOrder(LogicalLe, ByLogical(s));
  }

  /** Without shared bodies the active folds are pairwise apart, so both index spaces see spaced bodies. */
  lemma {:induction false} ActiveIsSpaced(folds: seq<FoldRange>, collapsed: set<string>)
    requires Aligned(folds) && !SharesBody(folds, collapsed)
    ensures var active := Active(folds, collapsed);
            && InOrder(active) && InOrder(ByLogical(active))
            && HiddenRows.Spaced(DisplayRanges(active)) && HiddenRows.Spaced(LogicalRanges(ByLogical(active)))
  {
    ActiveApart(folds, collapsed);
    Ordering.SortSorted(DisplayLe, Unswallowed(CollapsedFolds(folds, collapsed), CollapsedFolds(folds, collapsed)));
    ApartIsInOrder(DisplayLe, Active(folds, collapsed));
    ByLogicalApart(Active(folds, collapsed));
    InOrderIsSpaced(Active(folds, collapsed));
    InOrderIsSpaced(ByLogical(Active(folds, collapsed)));
  }

  /** Two folds of one body spoil the spacing wherever both stand. */
  lemma {:induction false} SharedBodySpoils(s: seq<FoldRange>, f: FoldRange, g: FoldRange)
    requires f in s && g in s && f != g && SameBody(f, g) && WellFormed(f)
    ensures !HiddenRows.Spaced(DisplayRanges(s)) && !HiddenRows.Spaced(LogicalRanges(s))
  {
    var i :| 0 <= i < |s| && s[i] == f;
    var j :| 0 <= j < |s| && s[j] == g;
    var low, high := if i < j then i else j, if i < j then j else i;
    assert DisplayRanges(s)[low] == DisplayRanges(s)[high] && LogicalRanges(s)[low] == LogicalRanges(s)[high];
  }

  /** In either space the bodies of the active folds are spaced exactly when no two collapsed folds share a body that
      shows. */
  lemma {:induction false} ActiveIsSpacedExactly(folds: seq<FoldRange>, collapsed: set<string>)
    requires Aligned(folds)
    ensures HiddenRows.Spaced(DisplayRanges(Active(folds, collapsed))) <==> !SharesBody(folds, collapsed)
    ensures HiddenRows.Spaced(LogicalRanges(ByLogical(Active(folds, collapsed)))) <==> !SharesBody(folds, collapsed)
  {
    if SharesBody(folds, collapsed) {
      var f, g :| IsSharedBody(folds, collapsed, f, g);
      BothActive(folds, collapsed, f, g);
      SharedBodySpoils(Active(folds, collapsed), f, g);
      SortMembers(LogicalLe, Active(folds, collapsed));
      SharedBodySpoils(ByLogical(Active(folds, collapsed)), f, g);
    } else {
      ActiveIsSpaced(folds, collapsed);
    }
  }

  lemma {:induction false} BothActive(folds: seq<FoldRange>, collapsed: set<string>, f: FoldRange, g: FoldRange)
    requires Aligned(folds) && IsSharedBody(folds, collapsed, f, g)
    ensures f in Active(folds, collapsed) && g in Active(folds, collapsed)
  {
    ActiveNeverSwallowed(folds, collapsed, f);
    ActiveNeverSwallowed(folds, collapsed, g);
    forall h | h in folds && h.key in collapsed
      ensures !Swallows(h, g)
    {
      if h != f { assert Compatible(h, f); }
    }
  }

  ghost predicate AllApart(s: seq<FoldRange>) {
    && NoRepeats(s)
    && (forall f :: f in s ==> WellFormed(f))
    && (forall f, g :: f in s && g in s && f != g ==> ApartEitherWay(f, g))
  }

  lemma {:induction false} NoRepeatsByIndex(s: seq<FoldRange>, i: nat, j: nat)
    requires NoRepeats(s) && i < j < |s|
    ensures s[i] != s[j]
  {
    Ordering.RepeatCounts(s, i, j);
  }

  lemma {:induction false} NotSwallowed(among: seq<FoldRange>, f: FoldRange, g: FoldRange)
    requires !Swallowed(among, f) && g in among
    ensures !Swallows(g, f)
  {
    var i :| 0 <= i < |among| && among[i] == g;
  }

  lemma {:induction false} KeptFoldsStep(among: seq<FoldRange>, s: seq<FoldRange>, collapsed: set<string>)
    requires s != []
    ensures Unswallowed(among, CollapsedFolds(s, collapsed))
         == (if s[0].key in collapsed && !Swallowed(among, s[0]) then [s[0]] else [])
            + Unswallowed(among, CollapsedFolds(s[1..], collapsed))
  {
    var rest := CollapsedFolds(s[1..], collapsed);
    if s[0].key in collapsed {
      assert CollapsedFolds(s, collapsed) == [s[0]] + rest;
      assert ([s[0]] + rest)[1..] == rest;
    } else {
      assert CollapsedFolds(s, collapsed) == [] + rest == rest;
    }
  }

  lemma {:induction false} SameKeptFolds(s: seq<FoldRange>, collapsed: set<string>, more: set<string>,
                                         before: seq<FoldRange>, after: seq<FoldRange>)
    requires forall h :: h in s ==>
               (h.key in collapsed && !Swallowed(before, h) <==> h.key in more && !Swallowed(after, h))
    ensures Unswallowed(before, CollapsedFolds(s, collapsed)) == Unswallowed(after, CollapsedFolds(s, more))
  {
    if s != [] {
      SameKeptFolds(s[1..], collapsed, more, before, after);
      KeptFoldsStep(before, s, collapsed);
      KeptFoldsStep(after, s, more);
      assert s[0] in s;
    }
  }

  lemma {:induction false} SwallowedSame(folds: seq<FoldRange>, collapsed: set<string>, f: FoldRange, g: FoldRange,
                                         h: FoldRange)
    requires Aligned(folds) && f in folds && g in folds && h in folds
    requires g.key in collapsed && f != g && Nested(f, g)
    ensures Swallowed(CollapsedFolds(folds, collapsed + {f.key}), h) <==> Swallowed(CollapsedFolds(folds, collapsed), h)
  {
    var before, after := CollapsedFolds(folds, collapsed), CollapsedFolds(folds, collapsed + {f.key});
    if Swallowed(before, h) {
      var i :| 0 <= i < |before| && Swallows(before[i], h);
      assert before[i] in before && before[i] in after;
      if !Swallowed(after, h) { NotSwallowed(after, h, before[i]); }
    }
    if Swallowed(after, h) && !Swallowed(before, h) {
      var i :| 0 <= i < |after| && Swallows(after[i], h);
      var e := after[i];
      assert e in after && g in before;
      NotSwallowed(before, h, g);
      SwallowsIsNested(folds, h, e);
      SwallowsIsNested(folds, h, g);
      SameKeySameFold(folds, e, f);
      if e.key != f.key { NotSwallowed(before, h, e); }
    }
  }

  /** Collapsing a fold inside an already collapsed one leaves the active folds, hence the whole view,
      as they are. */
  lemma {:induction false} CollapsingInsideCollapsed(folds: seq<FoldRange>, collapsed: set<string>, f: FoldRange,
                                                     g: FoldRange)
    requires Aligned(folds) && f in folds && g in folds
    requires g.key in collapsed && f != g && Nested(f, g)
    ensures Active(folds, collapsed + {f.key}) == Active(folds, collapsed)
  {
    var more := collapsed + {f.key};
    var before, after := CollapsedFolds(folds, collapsed), CollapsedFolds(folds, more);
    forall h | h in folds
      ensures h.key in collapsed && !Swallowed(before, h) <==> h.key in more && !Swallowed(after, h)
    {
      SwallowedSame(folds, collapsed, f, g, h);
      SameKeySameFold(folds, h, f);
      if h.key == f.key {
        SwallowsIsNested(folds, f, g);
        if !Swallowed(before, h) { NotSwallowed(before, h, g); }
      }
    }
    SameKeptFolds(folds, collapsed, more, before, after);
  }

  lemma {:induction false} SameKeySameFold(folds: seq<FoldRange>, f: FoldRange, g: FoldRange)
    requires Aligned(folds) && f in folds && g in folds
    ensures f.key == g.key ==> f == g
  {
    if f != g { assert Compatible(f, g); }
  }

  /** Equal bodies escape the de-nesting: both folds stay active and their rows are counted twice. */
  lemma {:induction false} EqualRangesBothStay(a: FoldRange, b: FoldRange)
    requires a.key != b.key && a.displayStart == b.displayStart && a.displayEnd == b.displayEnd
    ensures Active([a, b], {a.key, b.key}) == [a, b]
    ensures HiddenRows.HiddenBy(DisplayRanges(Active([a, b], {a.key, b.key})), 2) == 2 * (a.displayEnd - a.displayStart)
  {
    BothCollapsed(a, b);
    NeitherSwallowed(a, b);
    SortTwo(a, b);
    var r := DisplayRanges([a, b]);
    assert HiddenRows.HiddenBy(r, 1) == a.displayEnd - a.displayStart;
  }

  lemma {:induction false} BothCollapsed(a: FoldRange, b: FoldRange)
    ensures CollapsedFolds([a, b], {a.key, b.key}) == [a, b]
  {
    var keys := {a.key, b.key};
    assert [a, b][1..] == [b] && [b][1..] == [];
    assert CollapsedFolds([b], keys) == [b];
  }

  lemma {:induction false} NeitherSwallowed(a: FoldRange, b: FoldRange)
    requires a.displayStart == b.displayStart && a.displayEnd == b.displayEnd
    ensures Unswallowed([a, b], [a, b]) == [a, b]
  {
    assert !Swallowed([a, b], a) && !Swallowed([a, b], b);
    assert [a, b][1..] == [b] && [b][1..] == [];
    assert Unswallowed([a, b], [b]) == [b];
  }

  lemma {:induction false} SortTwo(a: FoldRange, b: FoldRange)
    requires DisplayLe(a, b)
    ensures Ordering.Sort(DisplayLe, [a, b]) == [a, b]
  {
    assert Ordering.Sort(DisplayLe, [b]) == Ordering.Insert(DisplayLe, b, []) == [b];
    assert [a, b][1..] == [b];
  }
}
