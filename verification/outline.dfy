/** Source lines by binary search: lineStarts and lineAt of frontend/src/codeOutline.ts. */
module SourceLines {

  function NewlinesBefore(content: string, offset: nat): nat
    requires offset <= |content|
  {
    if offset == 0 then 0 else NewlinesBefore(content, offset - 1) + if content[offset - 1] == '\n' then 1 else 0
  }

  function StartsUpTo(content: string, n: nat): (r: seq<nat>)
    requires n <= |content|
    ensures r != [] && r[0] == 0
  {
    if n == 0 then [0]
    else if content[n - 1] == '\n' then StartsUpTo(content, n - 1) + [n]
    else StartsUpTo(content, n - 1)
  }

  method LineStarts(content: string) returns (starts: seq<nat>)
    ensures starts == StartsUpTo(content, |content|)
  {
    starts := [0];
    for i := 0 to |content|
      invariant starts == StartsUpTo(content, i)
    {
      if content[i] == '\n' { starts := starts + [i + 1]; }
    }
  }

  /** The k-th start is at or before an offset exactly when k newlines precede the offset. */
  lemma {:induction false} StartsCountNewlines(content: string, n: nat, offset: nat)
    requires offset <= n <= |content|
    ensures |StartsUpTo(content, n)| == NewlinesBefore(content, n) + 1
    ensures NewlinesBefore(content, offset) <= NewlinesBefore(content, n)
    ensures forall k :: 0 <= k < |StartsUpTo(content, n)| ==>
              (StartsUpTo(content, n)[k] <= offset <==> k <= NewlinesBefore(content, offset))
    decreases n
  {
    if n > 0 {
      if offset < n {
        StartsCountNewlines(content, n - 1, offset);
      } else {
        StartsCountNewlines(content, n - 1, n - 1);
        StartsStayInside(content, n);
      }
    }
  }

  lemma {:induction false} StartsStayInside(content: string, n: nat)
    requires n <= |content|
    ensures forall k :: 0 <= k < |StartsUpTo(content, n)| ==> StartsUpTo(content, n)[k] <= n
    ensures |StartsUpTo(content, n)| == NewlinesBefore(content, n) + 1
  {
    if n > 0 { StartsStayInside(content, n - 1); }
  }

  /** Counting newlines is counting the places where one stands. */
  lemma {:induction false} NewlinesCounted(content: string, offset: nat)
    requires offset <= |content|
    ensures NewlinesBefore(content, offset) == |set i: nat | i < offset && content[i] == '\n'|
  {
    if offset > 0 {
      NewlinesCounted(content, offset - 1);
      var before, upTo := (set i: nat | i < offset - 1 && content[i] == '\n'), (set i: nat | i < offset && content[i] == '\n');
      assert upTo == if content[offset - 1] == '\n' then before + {offset - 1} else before;
    }
  }

  /** The binary search answers one plus the number of newlines before the offset. */
  method LineAt(starts: seq<nat>, ghost content: string, offset: nat) returns (line: nat)
    requires starts == StartsUpTo(content, |content|) && offset <= |content|
    ensures line == NewlinesBefore(content, offset) + 1
  {
    StartsCountNewlines(content, |content|, offset);
    var lo, hi := 0, |starts|;
    while lo + 1 < hi
      invariant 0 <= lo <= NewlinesBefore(content, offset) < hi <= |starts|
    {
      var mid := (lo + hi) / 2;
      if starts[mid] <= offset { lo := mid; } else { hi := mid; }
    }
    return lo + 1;
  }
}

/** The heading outline: markdownOutline and flattenOutline of frontend/src/codeOutline.ts. */
module Outlines {
  import SourceLines
  import Texts

  /** One heading node of the document, with the text left of its first line. */
  datatype Heading = Heading(level: nat, name: string, from: nat, to: nat)

  /** A child array, shared between an item and the stack of open items. */
  class ItemList {
    var items: seq<OutlineItem>

    constructor ()
      ensures items == []
    {
      items := [];
    }
  }

  class OutlineItem {
    const id: string
    const heading: Heading
    const line: nat
    const children: ItemList

    constructor (heading: Heading, line: nat)
      ensures this.heading == heading && this.line == line && this.id == HeadingId(heading)
      ensures fresh(children) && children.items == []
    {
      this.id := HeadingId(heading);
      this.heading := heading;
      this.line := line;
      this.children := new ItemList();
    }
  }

  function HeadingId(h: Heading): string {
    "heading:" + (Texts.Decimal(h.from) + [':'] + h.name)
  }

  /** Headings that start at different offsets have different IDs. */
  lemma {:induction false} HeadingIdInjective(g: Heading, h: Heading)
    requires HeadingId(g) == HeadingId(h)
    ensures g.from == h.from && g.name == h.name
  {
    var s, t := Texts.Decimal(g.from) + [':'] + g.name, Texts.Decimal(h.from) + [':'] + h.name;
    assert s == HeadingId(g)[8..] && t == HeadingId(h)[8..];
    Texts.DecimalIsDigits(g.from);
    Texts.DecimalIsDigits(h.from);
    var m, n := |Texts.Decimal(g.from)|, |Texts.Decimal(h.from)|;
    assert s[m] == ':' && t[n] == ':';
    assert forall i :: 0 <= i < m ==> s[i] == Texts.Decimal(g.from)[i];
    assert forall i :: 0 <= i < n ==> t[i] == Texts.Decimal(h.from)[i];
    assert m == n;
    assert s[..m] == Texts.Decimal(g.from) && t[..n] == Texts.Decimal(h.from);
    assert s[m + 1..] == g.name && t[n + 1..] == h.name;
    Texts.DecimalInjective(g.from, h.from);
  }

  // ---------------------------------------------------------------- the tree a list of levels describes

  /** Nearest index before i whose level is smaller, or -1 for the root. */
  function NearestBelow(levels: seq<nat>, i: nat, level: nat): (p: int)
    requires i <= |levels|
    ensures -1 <= p < i && (p >= 0 ==> levels[p] < level)
    ensures forall j :: p < j < i ==> levels[j] >= level
  {
    if i == 0 then -1 else if levels[i - 1] < level then i - 1 else NearestBelow(levels, i - 1, level)
  }

  function ParentOf(levels: seq<nat>, j: nat): int
    requires j < |levels|
  {
    NearestBelow(levels, j, levels[j])
  }

  function Levels(hs: seq<Heading>): (r: seq<nat>)
    ensures |r| == |hs| && forall j :: 0 <= j < |hs| ==> r[j] == hs[j].level
  {
    seq(|hs|, j requires 0 <= j < |hs| => hs[j].level)
  }

  /** Headings whose text is empty are left out of the outline. */
  function Named(hs: seq<Heading>): seq<Heading> {
    if hs == [] then []
    else Named(hs[..|hs| - 1]) + if hs[|hs| - 1].name == "" then [] else [hs[|hs| - 1]]
  }

  /** Every heading with a name is kept, in its order, and no other. */
  lemma {:induction false} NamedExactly(hs: seq<Heading>, i: nat)
    requires i < |hs|
    ensures forall h :: h in Named(hs) ==> h in hs && h.name != ""
    ensures hs[i].name != "" ==>
              var k := |Named(hs[..i])|; k < |Named(hs)| && Named(hs)[k] == hs[i] && Named(hs)[..k] == Named(hs[..i])
  {
    var n := |hs| - 1;
    if i < n {
      NamedExactly(hs[..n], i);
      assert hs[..n][..i] == hs[..i];
    } else {
      NamedMembers(hs[..n]);
    }
  }

  lemma {:induction false} NamedMembers(hs: seq<Heading>)
    ensures forall h :: h in Named(hs) ==> h in hs && h.name != ""
  {
    if hs != [] { NamedMembers(hs[..|hs| - 1]); }
  }

  /** The children of node p among the first n nodes, in order. */
  function Kids(items: seq<OutlineItem>, levels: seq<nat>, n: nat, p: int): seq<OutlineItem>
    requires n <= |items| && n <= |levels|
  {
    if n == 0 then []
    else Kids(items, levels, n - 1, p) + if ParentOf(levels, n - 1) == p then [items[n - 1]] else []
  }

  function ListOf(root: ItemList, items: seq<OutlineItem>, p: int): ItemList
    requires -1 <= p < |items|
  {
    if p < 0 then root else items[p].children
  }

  function Lists(root: ItemList, items: seq<OutlineItem>): set<ItemList> {
    {root} + set i | 0 <= i < |items| :: items[i].children
  }

  ghost predicate Distinct(root: ItemList, items: seq<OutlineItem>) {
    forall p, r :: -1 <= p < r < |items| ==> ListOf(root, items, p) != ListOf(root, items, r)
  }

  ghost predicate HasItsKids(root: ItemList, items: seq<OutlineItem>, levels: seq<nat>, p: int)
    requires -1 <= p < |items| == |levels|
    reads Lists(root, items)
  {
    ListOf(root, items, p).items == Kids(items, levels, |items|, p)
  }

  /** items are the nodes of the tree under root, in document order: every node hangs under its parent. */
  ghost predicate IsTree(root: ItemList, items: seq<OutlineItem>, levels: seq<nat>)
    reads Lists(root, items)
  {
    && |items| == |levels| && Distinct(root, items)
    && forall p :: -1 <= p < |items| ==> HasItsKids(root, items, levels, p)
  }

  predicate Describes(item: OutlineItem, h: Heading, content: string)
    requires h.from <= |content|
  {
    item.heading == h && item.id == HeadingId(h) && item.line == SourceLines.NewlinesBefore(content, h.from) + 1
  }

  // ---------------------------------------------------------------- building

  datatype Open = Open(level: nat, children: ItemList)

  function LevelOf(levels: seq<nat>, p: int): nat
    requires -1 <= p < |levels|
  {
    if p < 0 then 0 else levels[p]
  }

  /** The stack holds the root, then the chain of open nodes, each the parent of the next. */
  ghost predicate IsChain(levels: seq<nat>, open: seq<int>) {
    && open != [] && open[0] == -1
    && (forall k :: 0 < k < |open| ==> 0 <= open[k] < |levels|)
    && (forall k :: 0 < k < |open| ==> open[k - 1] == ParentOf(levels, open[k]))
  }

  ghost predicate Shows(root: ItemList, items: seq<OutlineItem>, levels: seq<nat>, open: seq<int>, stack: seq<Open>) {
    && |stack| == |open| && |items| == |levels| && IsChain(levels, open)
    && forall k :: 0 <= k < |open| ==> stack[k] == Open(LevelOf(levels, open[k]), ListOf(root, items, open[k]))
  }

  lemma {:induction false} NearestOfPrefix(levels: seq<nat>, more: seq<nat>, i: nat, level: nat)
    requires i <= |levels|
    ensures NearestBelow(levels + more, i, level) == NearestBelow(levels, i, level)
  {
    if i > 0 { NearestOfPrefix(levels, more, i - 1, level); }
  }

  lemma {:induction false} KidsOfPrefix(items: seq<OutlineItem>, levels: seq<nat>, item: OutlineItem, level: nat,
                                        n: nat, p: int)
    requires n <= |items| == |levels|
    ensures Kids(items + [item], levels + [level], n, p) == Kids(items, levels, n, p)
  {
    if n > 0 {
      KidsOfPrefix(items, levels, item, level, n - 1, p);
      NearestOfPrefix(levels, [level], n - 1, levels[n - 1]);
    }
  }

  /** Popping the open nodes whose level is not smaller leaves the parent of the next node on top. */
  method PopTo(stack: seq<Open>, level: nat, ghost root: ItemList, ghost items: seq<OutlineItem>,
               ghost levels: seq<nat>, ghost open: seq<int>)
    returns (top: seq<Open>, ghost left: seq<int>)
    requires Shows(root, items, levels, open, stack) && open[|open| - 1] == |levels| - 1
    ensures Shows(root, items, levels, left, top) && left[|left| - 1] == NearestBelow(levels, |levels|, level)
  {
    top, left := stack, open;
    while |top| > 1 && top[|top| - 1].level >= level
      invariant Shows(root, items, levels, left, top)
      invariant forall j :: left[|left| - 1] < j < |levels| ==> levels[j] >= level
    {
      top, left := top[..|top| - 1], left[..|left| - 1];
    }
  }

  lemma {:induction false} NoKidsYet(items: seq<OutlineItem>, levels: seq<nat>, n: nat, p: int)
    requires n <= |items| == |levels| && p >= n
    ensures Kids(items, levels, n, p) == []
  {
    if n > 0 { NoKidsYet(items, levels, n - 1, p); }
  }

  lemma {:induction false} KidsAfterHanging(items: seq<OutlineItem>, levels: seq<nat>, item: OutlineItem, level: nat,
                                            p: int)
    requires |items| == |levels|
    ensures Kids(items + [item], levels + [level], |items| + 1, p)
         == Kids(items, levels, |items|, p) + if NearestBelow(levels, |levels|, level) == p then [item] else []
  {
    KidsOfPrefix(items, levels, item, level, |items|, p);
    NearestOfPrefix(levels, [level], |levels|, level);
  }

  /** Pushing a new item to its parent's child array extends the tree by one node. */
  method Hang(list: ItemList, item: OutlineItem, ghost root: ItemList, ghost items: seq<OutlineItem>,
              ghost levels: seq<nat>, ghost level: nat)
    requires IsTree(root, items, levels) && list == ListOf(root, items, NearestBelow(levels, |levels|, level))
    requires item.children !in Lists(root, items) && item.children.items == []
    modifies list
    ensures IsTree(root, items + [item], levels + [level])
    ensures list.items == old(list.items) + [item]
  {
    list.items := list.items + [item];
    var more, deeper := items + [item], levels + [level];
    NoKidsYet(items, levels, |items|, |items|);
    assert forall p :: -1 <= p < |items| ==>
          ListOf(root, more, p) == ListOf(root, items, p) && ListOf(root, items, p) in Lists(root, items);
    assert ListOf(root, more, |items|) == item.children;
    forall p | -1 <= p < |more|
      ensures HasItsKids(root, more, deeper, p)
    {
      assert p < |items| ==> old(HasItsKids(root, items, levels, p));
      KidsAfterHanging(items, levels, item, level, p);
    }
  }

  /** Headings need only start inside the document; the parser's levels run from 1 to 6. */
  predicate WellFormed(hs: seq<Heading>, content: string) {
    forall h :: h in hs ==> 1 <= h.level <= 6 && h.from <= |content|
  }

  ghost predicate DescribeAll(items: seq<OutlineItem>, hs: seq<Heading>, content: string) {
    |items| == |hs| && forall j :: 0 <= j < |hs| ==> hs[j].from <= |content| && Describes(items[j], hs[j], content)
  }

  ghost predicate Building(root: ItemList, items: seq<OutlineItem>, levels: seq<nat>, open: seq<int>, stack: seq<Open>)
    reads Lists(root, items)
  {
    IsTree(root, items, levels) && Shows(root, items, levels, open, stack) && open[|open| - 1] == |levels| - 1
  }

  /** The stack is popped to the new item's parent, and the item hung there and pushed. */
  method Place(item: OutlineItem, level: nat, stack0: seq<Open>, ghost root: ItemList, ghost items: seq<OutlineItem>,
               ghost levels: seq<nat>, ghost open0: seq<int>)
    returns (stack: seq<Open>, ghost open: seq<int>)
    requires Building(root, items, levels, open0, stack0)
    requires item.children !in Lists(root, items) && item.children.items == []
    modifies Lists(root, items)
    ensures Building(root, items + [item], levels + [level], open, stack)
  {
    var top;
    ghost var left;
    top, left := PopTo(stack0, level, root, items, levels, open0);
    Hang(top[|top| - 1].children, item, root, items, levels, level);
    PushShows(root, items, levels, left, top, item, level);
    stack := top + [Open(level, item.children)];
    open := left + [|levels|];
  }

  /** The loop body for a heading with a name. */
  method Enter(h: Heading, content: string, starts: seq<nat>, stack0: seq<Open>, ghost root: ItemList,
               ghost items: seq<OutlineItem>, ghost kept: seq<Heading>, ghost open0: seq<int>)
    returns (item: OutlineItem, stack: seq<Open>, ghost open: seq<int>)
    requires h.from <= |content| && starts == SourceLines.StartsUpTo(content, |content|) &&
             DescribeAll(items, kept, content)
    requires Building(root, items, Levels(kept), open0, stack0)
    modifies Lists(root, items)
    ensures fresh(item.children) && Lists(root, items + [item]) == Lists(root, items) + {item.children}
    ensures DescribeAll(items + [item], kept + [h], content)
    ensures Building(root, items + [item], Levels(kept + [h]), open, stack)
  {
    var line := SourceLines.LineAt(starts, content, h.from);
    item := new OutlineItem(h, line);
    stack, open := Place(item, h.level, stack0, root, items, Levels(kept), open0);
    DescribeOne(items, kept, item, h, content);
    ListsWith(root, items, item);
    LevelsStep(kept, h);
  }

  method Start() returns (root: ItemList, stack: seq<Open>)
    ensures fresh(root) && Lists(root, []) == {root} && Building(root, [], Levels([]), [-1], stack)
  {
    root := new ItemList();
    stack := [Open(0, root)];
  }

  /** markdownOutline: one item per heading with a name, in order, each under its parent. */
  method MarkdownOutline(hs: seq<Heading>, content: string, starts: seq<nat>)
    returns (root: ItemList, ghost items: seq<OutlineItem>)
    requires WellFormed(hs, content) && starts == SourceLines.StartsUpTo(content, |content|)
    ensures DescribeAll(items, Named(hs), content) && IsTree(root, items, Levels(Named(hs)))
  {
    var stack;
    root, stack := Start();
    items := [];
    ghost var open, kept: seq<Heading>, own := [-1], [], {root};
    for i := 0 to |hs|
      invariant kept == Named(hs[..i]) && DescribeAll(items, kept, content)
      invariant fresh(own) && Lists(root, items) == own && Building(root, items, Levels(kept), open, stack)
    {
      var h := hs[i];
      NamedStep(hs, i);
      if h.name != "" {
        var item;
        item, stack, open := Enter(h, content, starts, stack, root, items, kept, open);
        items, kept, own := items + [item], kept + [h], own + {item.children};
      }
    }
    assert hs[..|hs|] == hs;
  }

  lemma {:induction false} ListsWith(root: ItemList, items: seq<OutlineItem>, item: OutlineItem)
    ensures Lists(root, items + [item]) == Lists(root, items) + {item.children}
  {
    var more := items + [item];
    assert forall i :: 0 <= i < |items| ==> more[i] == items[i];
    assert more[|items|] == item;
  }

  lemma {:induction false} DescribeOne(items: seq<OutlineItem>, hs: seq<Heading>, item: OutlineItem, h: Heading,
                                       content: string)
    requires DescribeAll(items, hs, content) && h.from <= |content| && Describes(item, h, content)
    ensures DescribeAll(items + [item], hs + [h], content)
  {
  }

  lemma {:induction false} NamedStep(hs: seq<Heading>, i: nat)
    requires i < |hs|
    ensures Named(hs[..i + 1]) == if hs[i].name == "" then Named(hs[..i]) else Named(hs[..i]) + [hs[i]]
  {
    assert hs[..i + 1][..i] == hs[..i];
  }

  lemma {:induction false} LevelsStep(hs: seq<Heading>, h: Heading)
    ensures Levels(hs + [h]) == Levels(hs) + [h.level]
  {
  }

  lemma {:induction false} ChainGrows(levels: seq<nat>, open: seq<int>, level: nat)
    requires IsChain(levels, open) && open[|open| - 1] == NearestBelow(levels, |levels|, level)
    ensures IsChain(levels + [level], open + [|levels|])
  {
    var deeper, longer := levels + [level], open + [|levels|];
    forall k | 0 < k < |longer|
      ensures longer[k - 1] == ParentOf(deeper, longer[k])
    {
      NearestOfPrefix(levels, [level], longer[k], deeper[longer[k]]);
    }
  }

  lemma {:induction false} PushShows(root: ItemList, items: seq<OutlineItem>, levels: seq<nat>, open: seq<int>,
                                     stack: seq<Open>, item: OutlineItem, level: nat)
    requires Shows(root, items, levels, open, stack) && open[|open| - 1] == NearestBelow(levels, |levels|, level)
    ensures Shows(root, items + [item], levels + [level], open + [|levels|], stack + [Open(level, item.children)])
  {
    ChainGrows(levels, open, level);
  }

  // ---------------------------------------------------------------- flattening

  /** The first node after i, from j on, that is not below a node of the given level. */
  function EndFrom(levels: seq<nat>, j: nat, level: nat): (e: nat)
    requires j <= |levels|
    ensures j <= e <= |levels| && (e < |levels| ==> levels[e] <= level)
    ensures forall i :: j <= i < e ==> levels[i] > level
    decreases |levels| - j
  {
    if j < |levels| && levels[j] > level then EndFrom(levels, j + 1, level) else j
  }

  /** Where the subtree of node p ends. */
  function End(levels: seq<nat>, p: int): nat
    requires -1 <= p < |levels|
  {
    EndFrom(levels, p + 1, LevelOf(levels, p))
  }

  /** The node where one child's subtree ends is the next child, until the parent's subtree ends. */
  lemma {:induction false} NextChild(levels: seq<nat>, p: int, at: nat)
    requires -1 <= p < at < |levels| && at < End(levels, p)
    requires forall i :: p < i < at ==> levels[i] >= levels[at]
    ensures ParentOf(levels, at) == p
  {
  }

  /** No node strictly inside a child's subtree is a child too. */
  lemma {:induction false} InnerNodesAreNotKids(items: seq<OutlineItem>, levels: seq<nat>, p: int, c: nat, n: nat)
    requires |items| == |levels| && -1 <= p < c < |levels| && c < n <= End(levels, c)
    requires ParentOf(levels, c) == p
    ensures Kids(items, levels, n, p) == Kids(items, levels, c, p) + [items[c]]
  {
    if n > c + 1 { InnerNodesAreNotKids(items, levels, p, c, n - 1); }
  }

  lemma {:induction false} NoKidsOutside(items: seq<OutlineItem>, levels: seq<nat>, p: int, n: nat)
    requires |items| == |levels| && -1 <= p < |levels| && End(levels, p) <= n <= |items|
    requires forall j :: 0 <= j < |levels| ==> levels[j] >= 1
    ensures Kids(items, levels, n, p) == Kids(items, levels, End(levels, p), p)
  {
    if n > End(levels, p) { NoKidsOutside(items, levels, p, n - 1); }
  }

  lemma {:induction false} KidsGrow(items: seq<OutlineItem>, levels: seq<nat>, p: int, m: nat, n: nat)
    requires |items| == |levels| && m <= n <= |items|
    ensures |Kids(items, levels, m, p)| <= |Kids(items, levels, n, p)|
    ensures Kids(items, levels, n, p)[..|Kids(items, levels, m, p)|] == Kids(items, levels, m, p)
  {
    if m < n { KidsGrow(items, levels, p, m, n - 1); }
  }

  /** What flattening the children of p has done when it stands at a node: the first k children, whole. */
  ghost predicate AtChild(items: seq<OutlineItem>, levels: seq<nat>, p: int, at: nat, k: nat)
    requires |items| == |levels| && -1 <= p < |levels|
  {
    && p < at <= End(levels, p)
    && k == |Kids(items, levels, at, p)|
    && (at < End(levels, p) ==> forall i :: p < i < at ==> levels[i] >= levels[at])
  }

  predicate Positive(levels: seq<nat>) {
    forall j :: 0 <= j < |levels| ==> levels[j] >= 1
  }

  /** There is a next child exactly when the subtree has not ended. */
  lemma {:induction false} ChildrenLast(items: seq<OutlineItem>, levels: seq<nat>, p: int, at: nat, k: nat)
    requires |items| == |levels| && -1 <= p < |levels| && Positive(levels) && AtChild(items, levels, p, at, k)
    ensures k < |Kids(items, levels, |items|, p)| <==> at < End(levels, p)
    ensures at < End(levels, p) ==> ParentOf(levels, at) == p && Kids(items, levels, |items|, p)[k] == items[at]
  {
    if at < End(levels, p) {
      NextChild(levels, p, at);
      KidsGrow(items, levels, p, at + 1, |items|);
      var all, some := Kids(items, levels, |items|, p), Kids(items, levels, at + 1, p);
      assert some == Kids(items, levels, at, p) + [items[at]];
      assert all[..|some|][k] == some[k];
    } else {
      NoKidsOutside(items, levels, p, |items|);
    }
  }

  /** After the last child comes the end of the subtree; after any other, the next child. */
  lemma {:induction false} AfterChild(items: seq<OutlineItem>, levels: seq<nat>, p: int, at: nat, k: nat)
    requires |items| == |levels| && -1 <= p < |levels| && AtChild(items, levels, p, at, k)
    requires at < End(levels, p) && ParentOf(levels, at) == p
    ensures AtChild(items, levels, p, End(levels, at), k + 1)
  {
    InnerNodesAreNotKids(items, levels, p, at, End(levels, at));
  }

  /** Standing before the k-th child: which node that is, and where its subtree ends. */
  lemma {:induction false} ChildStep(items: seq<OutlineItem>, levels: seq<nat>, p: int, at: nat, k: nat,
                                     kids: seq<OutlineItem>)
    requires |items| == |levels| && -1 <= p < |levels| && Positive(levels) && AtChild(items, levels, p, at, k)
    requires kids == Kids(items, levels, |items|, p)
    ensures p < at <= |items| && (k >= |kids| ==> at == End(levels, p))
    ensures k < |kids| ==>
          at < |items| && kids[k] == items[at] && at < End(levels, at) && AtChild(items, levels, p, End(levels, at), k + 1)
  {
    ChildrenLast(items, levels, p, at, k);
    if at < End(levels, p) { AfterChild(items, levels, p, at, k); }
  }

  method Visit(list: ItemList, flat: ItemList, ghost root: ItemList, ghost items: seq<OutlineItem>,
               ghost levels: seq<nat>, ghost p: int)
    requires -1 <= p < |items| && IsTree(root, items, levels) && list == ListOf(root, items, p)
    requires Positive(levels) && flat !in Lists(root, items)
    modifies flat
    ensures flat.items == Listed(old(flat.items), items, p + 1, End(levels, p)) && IsTree(root, items, levels)
    decreases |items| - p, 1
  {
    NoKidsUpTo(items, levels, p, p + 1);
    assert HasItsKids(root, items, levels, p);
    VisitAll(list, flat, root, items, levels, p, Kids(items, levels, |items|, p));
  }

  method VisitAll(list: ItemList, flat: ItemList, ghost root: ItemList, ghost items: seq<OutlineItem>,
                  ghost levels: seq<nat>, ghost p: int, ghost kids: seq<OutlineItem>)
    requires -1 <= p < |items| && IsTree(root, items, levels) && list.items == kids == Kids(items, levels, |items|, p)
    requires Positive(levels) && flat !in Lists(root, items) && list != flat && AtChild(items, levels, p, p + 1, 0)
    modifies flat
    ensures flat.items == Listed(old(flat.items), items, p + 1, End(levels, p)) && IsTree(root, items, levels)
    decreases |items| - p, 0
  {
    var k := 0;
    ghost var at: nat, before := p + 1, flat.items;
    ListedFurther(before, items, p + 1, p + 1, p + 1);
    ChildStep(items, levels, p, at, k, kids);
    while k < |list.items|
      invariant list.items == kids && IsTree(root, items, levels)
      invariant p < at <= |items| && AtChild(items, levels, p, at, k)
      invariant flat.items == Listed(before, items, p + 1, at)
      decreases |list.items| - k
    {
      ChildStep(items, levels, p, at, k, kids);
      VisitNode(list.items[k], flat, root, items, levels, at);
      ListedFurther(before, items, p + 1, at, End(levels, at));
      at, k := End(levels, at), k + 1;
    }
    ChildStep(items, levels, p, at, k, kids);
  }

  method VisitNode(node: OutlineItem, flat: ItemList, ghost root: ItemList, ghost items: seq<OutlineItem>,
                   ghost levels: seq<nat>, ghost at: nat)
    requires at < |items| && IsTree(root, items, levels) && node == items[at]
    requires Positive(levels) && flat !in Lists(root, items)
    modifies flat
    ensures flat.items == Listed(old(flat.items), items, at, End(levels, at))
    decreases |items| - at, 2
  {
    flat.items := flat.items + [node];
    assert flat.items == Listed(old(flat.items), items, at, at + 1);
    Visit(node.children, flat, root, items, levels, at);
    ListedFurther(old(flat.items), items, at, at + 1, End(levels, at));
  }

  function Listed(before: seq<OutlineItem>, items: seq<OutlineItem>, a: nat, b: nat): seq<OutlineItem>
    requires a <= b <= |items|
  {
    before + items[a..b]
  }

  lemma {:induction false} ListedFurther(before: seq<OutlineItem>, items: seq<OutlineItem>, a: nat, b: nat, c: nat)
    requires a <= b <= c <= |items|
    ensures Listed(Listed(before, items, a, b), items, b, c) == Listed(before, items, a, c)
    ensures Listed(before, items, a, a) == before
  {
  }

  lemma {:induction false} NoKidsUpTo(items: seq<OutlineItem>, levels: seq<nat>, p: int, n: nat)
    requires |items| == |levels| && n <= |items| && -1 <= p && n <= p + 1
    ensures Kids(items, levels, n, p) == []
  {
    if n > 0 { NoKidsUpTo(items, levels, p, n - 1); }
  }

  /** flattenOutline lists the nodes of any such tree in document order. */
  method FlattenOutline(root: ItemList, ghost items: seq<OutlineItem>, ghost levels: seq<nat>)
    returns (flat: seq<OutlineItem>)
    requires IsTree(root, items, levels) && Positive(levels)
    ensures flat == items && IsTree(root, items, levels)
  {
    ghost var lists := Lists(root, items);
    var list := new ItemList();
    assert list !in lists && IsTree(root, items, levels);
    Visit(root, list, root, items, levels, -1);
    return list.items;
  }

  lemma {:induction false} NamedAreWellFormed(hs: seq<Heading>, content: string)
    requires WellFormed(hs, content)
    ensures WellFormed(Named(hs), content)
  {
    if hs != [] { NamedAreWellFormed(hs[..|hs| - 1], content); }
  }

  /** Flattening undoes building: the named headings come back in document order. */
  method OutlineOf(hs: seq<Heading>, content: string) returns (root: ItemList, flat: seq<OutlineItem>)
    requires WellFormed(hs, content)
    ensures DescribeAll(flat, Named(hs), content) && IsTree(root, flat, Levels(Named(hs)))
  {
    var starts := SourceLines.LineStarts(content);
    ghost var items;
    root, items := MarkdownOutline(hs, content, starts);
    NamedAreWellFormed(hs, content);
    ghost var levels := Levels(Named(hs));
    flat := FlattenOutline(root, items, levels);
  }
}
