/** The outline item for a viewport position: nearestOutlineKey of frontend/src/semanticOutline.ts. */
module NearestOutline {
  import Numbers
  import opened Wrappers

  datatype Item = Item(key: string, line: int, lineEnd: Option<int>) {
    function End(): int {
      if lineEnd.Some? then lineEnd.value else line
    }
    predicate Contains(anchor: int) {
      line <= anchor <= End()
    }
  }

  ghost predicate LineOrdered(items: seq<Item>) {
    forall i, j :: 0 <= i < j < |items| ==> items[i].line <= items[j].line
  }

  /** The first of the narrowest items, among the first n, whose range contains the anchor. */
  ghost predicate IsNarrowest(items: seq<Item>, anchor: int, n: nat, r: int) {
    && 0 <= r < n <= |items| && items[r].Contains(anchor)
    && forall k :: 0 <= k < n && items[k].Contains(anchor) ==>
         var spanR, spanK := items[r].End() - items[r].line, items[k].End() - items[k].line;
         spanR < spanK || (spanR == spanK && r <= k)
  }

  /** Smallest distance first; then items above the anchor; then, on one line, the last item above it but the
      first item below it. */
  predicate Nearer(items: seq<Item>, anchor: int, r: int, k: int)
    requires 0 <= r < |items| && 0 <= k < |items|
  {
    var dr, dk := Numbers.Distance(items[r].line, anchor), Numbers.Distance(items[k].line, anchor);
    var above, kAbove := items[r].line < anchor, items[k].line < anchor;
    dr < dk || (dr == dk && ((above && !kAbove) || (above == kAbove && if above then r >= k else r <= k)))
  }

  ghost predicate IsNearest(items: seq<Item>, anchor: int, r: int) {
    0 <= r < |items| && forall k :: 0 <= k < |items| ==> Nearer(items, anchor, r, k)
  }

  /** The one item the rules pick. */
  ghost predicate IsCurrent(items: seq<Item>, anchor: int, r: int) {
    if exists k :: 0 <= k < |items| && items[k].Contains(anchor) then IsNarrowest(items, anchor, |items|, r)
    else IsNearest(items, anchor, r)
  }

  lemma {:induction false} CurrentIsUnique(items: seq<Item>, anchor: int, r: int, s: int)
    requires IsCurrent(items, anchor, r) && IsCurrent(items, anchor, s)
    ensures r == s
  {
    if !(exists k :: 0 <= k < |items| && items[k].Contains(anchor)) {
      assert Nearer(items, anchor, r, s) && Nearer(items, anchor, s, r);
    }
  }

  method NarrowestContaining(items: seq<Item>, anchor: int) returns (best: int)
    ensures if best < 0 then best == -1 && forall k :: 0 <= k < |items| ==> !items[k].Contains(anchor)
            else IsNarrowest(items, anchor, |items|, best)
  {
    best := -1;
    var bestSpan := 0;
    for i := 0 to |items|
      invariant best < i && bestSpan == if best < 0 then 0 else items[best].End() - items[best].line
      invariant if best < 0 then best == -1 && forall k :: 0 <= k < i ==> !items[k].Contains(anchor)
                else IsNarrowest(items, anchor, i, best)
    {
      if items[i].Contains(anchor) {
        var span := items[i].End() - items[i].line;
        if best < 0 || span < bestSpan { best, bestSpan := i, span; }
      }
    }
  }

  /** The first item at or below the anchor, or the last item when there is none. */
  method FirstFrom(items: seq<Item>, anchor: int) returns (lo: nat)
    requires LineOrdered(items) && items != []
    ensures lo < |items| && (items[lo].line >= anchor || lo == |items| - 1)
    ensures forall k :: 0 <= k < lo ==> items[k].line < anchor
  {
    lo := 0;
    var hi := |items| - 1;
    while lo < hi
      invariant 0 <= lo <= hi < |items|
      invariant forall k :: 0 <= k < lo ==> items[k].line < anchor
      invariant items[hi].line >= anchor || hi == |items| - 1
    {
      var mid := (lo + hi) / 2;
      if items[mid].line < anchor { lo := mid + 1; } else { hi := mid; }
    }
  }

  lemma {:induction false} NeighbourIsNearest(items: seq<Item>, anchor: int, lo: nat)
    requires LineOrdered(items) && lo < |items| && (items[lo].line >= anchor || lo == |items| - 1)
    requires forall k :: 0 <= k < lo ==> items[k].line < anchor
    ensures IsNearest(items, anchor, if lo > 0 && anchor - items[lo - 1].line <= items[lo].line - anchor then lo - 1 else lo)
  {
  }

  /** nearestOutlineKey: the key of the item the rules pick, and none only for an empty outline. */
  method NearestOutlineKey(items: seq<Item>, anchor: int) returns (key: Option<string>)
    requires LineOrdered(items)
    ensures key.None? <==> items == []
    ensures forall r :: IsCurrent(items, anchor, r) ==> key == Some(items[r].key)
    ensures key.Some? ==> exists r :: IsCurrent(items, anchor, r)
  {
    if items == [] { return None; }
    var best := NarrowestContaining(items, anchor);
    if best >= 0 {
      UniqueKey(items, anchor, best);
      return Some(items[best].key);
    }
    var lo := FirstFrom(items, anchor);
    NeighbourIsNearest(items, anchor, lo);
    if lo == 0 {
      UniqueKey(items, anchor, 0);
      return Some(items[0].key);
    }
    var before := anchor - items[lo - 1].line <= items[lo].line - anchor;
    UniqueKey(items, anchor, if before then lo - 1 else lo);
    return Some(if before then items[lo - 1].key else items[lo].key);
  }

  lemma {:induction false} UniqueKey(items: seq<Item>, anchor: int, r: int)
    requires IsCurrent(items, anchor, r)
    ensures forall s :: IsCurrent(items, anchor, s) ==> s == r
  {
    forall s | IsCurrent(items, anchor, s)
      ensures s == r
    {
      CurrentIsUnique(items, anchor, r, s);
    }
  }

  /** Of nested items the innermost is picked, of equal ones the first; between items the nearer, and the one above when both
      are as near. */
  lemma {:induction false} PickedExamples()
    ensures var items := [Item("all", 1, Some(10)), Item("a", 3, Some(5)), Item("b", 3, Some(5))];
            IsCurrent(items, 4, 1)
    ensures var items := [Item("a", 2, None), Item("b", 6, None), Item("c", 7, None)];
            IsCurrent(items, 4, 0) && IsCurrent(items, 5, 1) && IsCurrent(items, 9, 2)
  {
    var nested := [Item("all", 1, Some(10)), Item("a", 3, Some(5)), Item("b", 3, Some(5))];
    var apart := [Item("a", 2, None), Item("b", 6, None), Item("c", 7, None)];
    assert nested[1].Contains(4) && IsNarrowest(nested, 4, 3, 1);
    assert IsNearest(apart, 4, 0) && IsNearest(apart, 5, 1) && IsNearest(apart, 9, 2);
  }

  // ---------------------------------------------------------------- ties

  /** The last item above the anchor, -1 for none. */
  function LastAbove(items: seq<Item>, anchor: int, n: nat): (a: int)
    requires n <= |items|
    ensures -1 <= a < n && (a >= 0 ==> items[a].line < anchor)
    ensures forall k :: a < k < n ==> items[k].line >= anchor
  {
    if n == 0 then -1 else if items[n - 1].line < anchor then n - 1 else LastAbove(items, anchor, n - 1)
  }

  /** The last item above the anchor is at least as near as the next item, and shares its line with the item before. */
  predicate TieGoesToTheLater(items: seq<Item>, anchor: int) {
    var a := LastAbove(items, anchor, |items|);
    && a >= 1 && items[a - 1].line == items[a].line
    && (a + 1 < |items| ==> anchor - items[a].line <= items[a + 1].line - anchor)
  }

  /** The event order: of equally near items the one picked comes first. */
  predicate IsEarliest(items: seq<Item>, anchor: int, r: nat)
    requires r < |items|
  {
    forall k :: 0 <= k < |items| && Numbers.Distance(items[k].line, anchor) == Numbers.Distance(items[r].line, anchor) ==> r <= k
  }

  /** When no item contains the anchor, the documented tie rule holds exactly unless the item just above the anchor wins
      and has another one on its line. */
  lemma {:induction false} TiesPreferTheEarlierExactly(items: seq<Item>, anchor: int, r: nat)
    requires LineOrdered(items) && r < |items| && forall k :: 0 <= k < |items| ==> !items[k].Contains(anchor)
    requires IsCurrent(items, anchor, r)
    ensures IsEarliest(items, anchor, r) <==> !TieGoesToTheLater(items, anchor)
  {
    var a := LastAbove(items, anchor, |items|);
    if items[r].line < anchor {
      assert Nearer(items, anchor, r, a);
      assert r == a;
      if a + 1 < |items| { assert Nearer(items, anchor, r, a + 1); }
      if a >= 1 && items[a - 1].line != items[a].line {
        assert forall k :: 0 <= k < a ==> items[k].line <= items[a - 1].line < items[a].line;
      }
    } else {
      assert forall k :: 0 <= k < |items| && items[k].line == items[r].line ==> Nearer(items, anchor, r, k);
      if a >= 0 { assert Nearer(items, anchor, r, a); }
      if a + 1 < |items| { assert Nearer(items, anchor, r, a + 1); }
    }
  }

  /** Two items on one line above the anchor: the later one is picked. */
  lemma {:induction false} SameLineTakesTheLater()
    ensures var items := [Item("first", 1, None), Item("second", 1, None)];
            IsCurrent(items, 5, 1) && TieGoesToTheLater(items, 5)
  {
    var items := [Item("first", 1, None), Item("second", 1, None)];
    assert LastAbove(items, 5, 2) == 1;
    assert IsNearest(items, 5, 1);
  }
}
