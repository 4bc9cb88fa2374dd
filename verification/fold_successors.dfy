/** Collapse state across a re-render: foldSuccessorKeys of frontend/src/terminalFolds.ts. A fold is
    identified by its turn and its ordinal among the turn's folds. */
module FoldSuccessors {
  import opened Folds
  import Ordering

  predicate HeaderLe(f: FoldRange, g: FoldRange) {
    f.headerLogical <= g.headerLogical
  }

  /** The folds of one turn in list order. */
  function OfTurn(folds: seq<FoldRange>, turn: int): seq<FoldRange> {
    if folds == [] then []
    else OfTurn(folds[..|folds| - 1], turn)
         + if folds[|folds| - 1].turnIndex == turn then [folds[|folds| - 1]] else []
  }

  lemma {:induction false} OfTurnMembers(folds: seq<FoldRange>, turn: int)
    ensures multiset(OfTurn(folds, turn)) <= multiset(folds)
    ensures forall f :: f in OfTurn(folds, turn) <==> f in folds && f.turnIndex == turn
  {
    if folds != [] {
      var n := |folds| - 1;
      assert folds == folds[..n] + [folds[n]];
      OfTurnMembers(folds[..n], turn);
    }
  }

  function Group(folds: seq<FoldRange>, turn: int): seq<FoldRange> {
    Ordering.Sort(HeaderLe, OfTurn(folds, turn))
  }

  lemma {:induction false} GroupMembers(folds: seq<FoldRange>, turn: int, f: FoldRange)
    ensures f in Group(folds, turn) <==> f in folds && f.turnIndex == turn
  {
    OfTurnMembers(folds, turn);
    SortMembers(HeaderLe, OfTurn(folds, turn));
  }

  ghost predicate DistinctKeys(folds: seq<FoldRange>) {
    && NoRepeats(folds)
    && forall f, g :: f in folds && g in folds && f != g ==> f.key != g.key
  }

  /** The i-th folds of two lists carry these keys. */
  ghost predicate Paired(prev: seq<FoldRange>, next: seq<FoldRange>, i: int, key: string, succ: string) {
    0 <= i < |prev| && i < |next| && prev[i].key == key && next[i].key == succ
  }

  /** The i-th fold of a turn on either side. */
  ghost predicate Succeeds(prev: seq<FoldRange>, next: seq<FoldRange>, key: string, succ: string, turn: int, i: int) {
    Paired(Group(prev, turn), Group(next, turn), i, key, succ)
  }

  /** A key has one turn and one ordinal. */
  lemma {:induction false} PlaceIsUnique(folds: seq<FoldRange>, turn: int, i: nat, turn': int, i': nat)
    requires DistinctKeys(folds) && i < |Group(folds, turn)| && i' < |Group(folds, turn')|
    requires Group(folds, turn)[i].key == Group(folds, turn')[i'].key
    ensures turn == turn' && i == i'
  {
    var f, g := Group(folds, turn)[i], Group(folds, turn')[i'];
    GroupMembers(folds, turn, f);
    GroupMembers(folds, turn', g);
    assert f == g;
    var group := Group(folds, turn);
    OfTurnMembers(folds, turn);
    assert multiset(group) == multiset(OfTurn(folds, turn)) <= multiset(folds);
    assert NoRepeats(group);
    if i < i' { NoRepeatsByIndex(group, i, i'); }
    if i' < i { NoRepeatsByIndex(group, i', i); }
  }

  /** The renaming is a partial bijection: no two folds share a successor, and renaming back from the
      new render to the old one returns every renamed key. */
  lemma {:induction false} RenamingIsReversible(prev: seq<FoldRange>, next: seq<FoldRange>, k: string, s: string,
                                                turn: int, i: int, k': string, s': string, turn': int, i': int)
    requires DistinctKeys(prev) && DistinctKeys(next)
    requires Succeeds(prev, next, k, s, turn, i) && Succeeds(prev, next, k', s', turn', i')
    ensures k == k' <==> s == s'
    ensures Succeeds(next, prev, s, k, turn, i)
  {
    if k == k' { PlaceIsUnique(prev, turn, i, turn', i'); }
    if s == s' { PlaceIsUnique(next, turn, i, turn', i'); }
  }

  // ---------------------------------------------------------------- the ordinal, counted

  /** Within a turn no two folds start on one line. */
  ghost predicate DistinctHeaders(folds: seq<FoldRange>) {
    && NoRepeats(folds)
    && forall f, g :: f in folds && g in folds && f.turnIndex == g.turnIndex && f.headerLogical == g.headerLogical ==>
          f == g
  }

  /** The folds of its turn that start above it. */
  function Above(folds: seq<FoldRange>, f: FoldRange): set<FoldRange> {
    set h | h in folds && h.turnIndex == f.turnIndex && h.headerLogical < f.headerLogical
  }

  lemma {:induction false} GroupAscends(folds: seq<FoldRange>, turn: int, i: nat, j: nat)
    requires i < j < |Group(folds, turn)|
    ensures Group(folds, turn)[i].headerLogical <= Group(folds, turn)[j].headerLogical
    ensures NoRepeats(folds) ==> Group(folds, turn)[i] != Group(folds, turn)[j]
  {
    Ordering.SortSorted(HeaderLe, OfTurn(folds, turn));
    OfTurnMembers(folds, turn);
    assert HeaderLe(Group(folds, turn)[i], Group(folds, turn)[j]);
    assert multiset(Group(folds, turn)) <= multiset(folds);
    if NoRepeats(folds) { NoRepeatsByIndex(Group(folds, turn), i, j); }
  }

  function Elements<T(!new)>(s: seq<T>): set<T> {
    set x | x in s
  }

  lemma {:induction false} ElementsSnoc<T(!new)>(s: seq<T>, x: T)
    ensures Elements(s + [x]) == Elements(s) + {x}
  {
  }

  lemma {:induction false} DistinctSize<T(!new)>(s: seq<T>)
    requires forall j, k :: 0 <= j < k < |s| ==> s[j] != s[k]
    ensures |Elements(s)| == |s|
  {
    if s != [] {
      var n := |s| - 1;
      var front := s[..n];
      DistinctSize(front);
      ElementsSnoc(front, s[n]);
      assert s == front + [s[n]];
    }
  }

  /** A fold's ordinal is the number of folds of its turn above it. */
  lemma {:induction false} OrdinalCounts(folds: seq<FoldRange>, turn: int, i: nat)
    requires DistinctHeaders(folds) && i < |Group(folds, turn)|
    ensures |Above(folds, Group(folds, turn)[i])| == i
  {
    var group := Group(folds, turn);
    forall j, k | 0 <= j < k < |group|
      ensures group[j] != group[k] && group[j].headerLogical < group[k].headerLogical
    {
      GroupAscends(folds, turn, j, k);
      GroupMembers(folds, turn, group[j]);
      GroupMembers(folds, turn, group[k]);
    }
    GroupMembers(folds, turn, group[i]);
    forall h
      ensures h in Above(folds, group[i]) <==> h in group[..i]
    {
      GroupMembers(folds, turn, h);
      if h in group {
        var j :| 0 <= j < |group| && group[j] == h;
        assert j < i <==> h.headerLogical < group[i].headerLogical;
      }
    }
    assert Above(folds, group[i]) == Elements(group[..i]);
    DistinctSize(group[..i]);
  }

  /** The two folds belong together: same turn, and as many folds of it above the one as above the other. */
  ghost predicate Counterparts(prev: seq<FoldRange>, next: seq<FoldRange>, f: FoldRange, g: FoldRange) {
    f in prev && g in next && f.turnIndex == g.turnIndex && |Above(prev, f)| == |Above(next, g)|
  }

  /** One key succeeds another exactly when their folds are counterparts. */
  lemma {:induction false} SuccessionExactly(prev: seq<FoldRange>, next: seq<FoldRange>, k: string, s: string)
    requires DistinctHeaders(prev) && DistinctHeaders(next)
    ensures (exists t, i :: Succeeds(prev, next, k, s, t, i))
       <==> exists f, g :: Counterparts(prev, next, f, g) && f.key == k && g.key == s
  {
    if t, i :| Succeeds(prev, next, k, s, t, i) {
      var f, g := Group(prev, t)[i], Group(next, t)[i];
      GroupMembers(prev, t, f);
      GroupMembers(next, t, g);
      OrdinalCounts(prev, t, i);
      OrdinalCounts(next, t, i);
      assert Counterparts(prev, next, f, g);
    }
    if f, g :| Counterparts(prev, next, f, g) && f.key == k && g.key == s {
      var i := PlaceInTurn(prev, f);
      var j := PlaceInTurn(next, g);
      assert Succeeds(prev, next, k, s, f.turnIndex, i);
    }
  }

  lemma {:induction false} PlaceInTurn(folds: seq<FoldRange>, f: FoldRange) returns (i: nat)
    requires DistinctHeaders(folds) && f in folds
    ensures i < |Group(folds, f.turnIndex)| && Group(folds, f.turnIndex)[i] == f && i == |Above(folds, f)|
  {
    GroupMembers(folds, f.turnIndex, f);
    var n :| 0 <= n < |Group(folds, f.turnIndex)| && Group(folds, f.turnIndex)[n] == f;
    OrdinalCounts(folds, f.turnIndex, n);
    i := n;
  }

  function Lookup(groups: map<int, seq<FoldRange>>, turn: int): seq<FoldRange> {
    if turn in groups then groups[turn] else []
  }

  lemma {:induction false} OfTurnStep(folds: seq<FoldRange>, n: nat, turn: int)
    requires n < |folds|
    ensures OfTurn(folds[..n + 1], turn)
         == OfTurn(folds[..n], turn) + if folds[n].turnIndex == turn then [folds[n]] else []
  {
    assert folds[..n + 1][..n] == folds[..n];
  }

  /** groupByTurn: fill the groups in list order, then sort each. */
  method GroupByTurn(ranges: seq<FoldRange>) returns (groups: map<int, seq<FoldRange>>)
    ensures forall t :: Lookup(groups, t) == Group(ranges, t)
  {
    var filled := FillGroups(ranges);
    groups := map t | t in filled :: Ordering.Sort(HeaderLe, filled[t]);
  }

  lemma {:induction false} GroupsStep(ranges: seq<FoldRange>, n: nat, before: map<int, seq<FoldRange>>,
                                      filled: map<int, seq<FoldRange>>)
    requires n < |ranges| && forall t :: Lookup(before, t) == OfTurn(ranges[..n], t)
    requires var turn := ranges[n].turnIndex; filled == before[turn := Lookup(before, turn) + [ranges[n]]]
    ensures forall t :: Lookup(filled, t) == OfTurn(ranges[..n + 1], t)
  {
    forall t
      ensures Lookup(filled, t) == OfTurn(ranges[..n + 1], t)
    {
      OfTurnStep(ranges, n, t);
      assert Lookup(before, t) == OfTurn(ranges[..n], t);
    }
  }

  method FillGroups(ranges: seq<FoldRange>) returns (filled: map<int, seq<FoldRange>>)
    ensures forall t :: Lookup(filled, t) == OfTurn(ranges, t)
  {
    filled := map[];
    for n := 0 to |ranges|
      invariant forall t :: Lookup(filled, t) == OfTurn(ranges[..n], t)
    {
      var turn := ranges[n].turnIndex;
      ghost var before := filled;
      filled := filled[turn := Lookup(filled, turn) + [ranges[n]]];
      GroupsStep(ranges, n, before, filled);
    }
    assert ranges[..|ranges|] == ranges;
  }

  ghost predicate Maps(m: map<string, string>, key: string, value: string) {
    key in m && m[key] == value
  }

  /** Pair the folds of one turn by ordinal; a repeated key keeps its last pairing. */
  method RenameTurn(prevFolds: seq<FoldRange>, nextFolds: seq<FoldRange>, before: map<string, string>)
    returns (successors: map<string, string>)
    ensures forall k, s :: Maps(successors, k, s) ==>
          Maps(before, k, s) || exists i :: Paired(prevFolds, nextFolds, i, k, s)
    ensures forall k :: k in before ==> k in successors
    ensures forall k, s, i :: Paired(prevFolds, nextFolds, i, k, s) ==> k in successors
  {
    successors := before;
    var n := 0;
    while n < |prevFolds| && n < |nextFolds|
      invariant n <= |prevFolds| && n <= |nextFolds|
      invariant forall k, s :: Maps(successors, k, s) ==>
            Maps(before, k, s) || exists i :: i < n && Paired(prevFolds, nextFolds, i, k, s)
      invariant forall k :: k in before ==> k in successors
      invariant forall k, s, i :: i < n && Paired(prevFolds, nextFolds, i, k, s) ==> k in successors
    {
      ghost var m := successors;
      successors := successors[prevFolds[n].key := nextFolds[n].key];
      forall k, s
        ensures Maps(successors, k, s) ==> Maps(m, k, s) || Paired(prevFolds, nextFolds, n, k, s)
      {
      }
      n := n + 1;
    }
  }

  /** Some turn that is no longer pending pairs the two keys. */
  ghost predicate RenamedOutside(prev: seq<FoldRange>, next: seq<FoldRange>, pending: set<int>, key: string,
                                 succ: string)
  {
    exists t, i :: t !in pending && Succeeds(prev, next, key, succ, t, i)
  }

  /** Every key that has a successor is renamed to one; with distinct keys, to its only one. */
  method FoldSuccessorKeys(prev: seq<FoldRange>, next: seq<FoldRange>) returns (successors: map<string, string>)
    ensures forall k, s :: Maps(successors, k, s) ==> exists t, i :: Succeeds(prev, next, k, s, t, i)
    ensures forall k, s, t, i :: Succeeds(prev, next, k, s, t, i) ==> k in successors
    ensures DistinctKeys(prev) ==> forall k, s, t, i :: Succeeds(prev, next, k, s, t, i) ==> Maps(successors, k, s)
  {
    successors := PairTurns(prev, next);
    forall k, s, t, i | Succeeds(prev, next, k, s, t, i)
      ensures k in successors
      ensures DistinctKeys(prev) ==> Maps(successors, k, s)
    {
      assert RenamedOutside(prev, next, {}, k, s);
      assert Maps(successors, k, successors[k]);
      if DistinctKeys(prev) { OneSuccessor(prev, next, k, s, t, i, successors[k]); }
    }
  }

  method PairTurns(prev: seq<FoldRange>, next: seq<FoldRange>) returns (successors: map<string, string>)
    ensures forall k, s :: Maps(successors, k, s) ==> RenamedOutside(prev, next, {}, k, s)
    ensures forall k, s :: RenamedOutside(prev, next, {}, k, s) ==> k in successors
  {
    var prevByTurn := GroupByTurn(prev);
    var nextByTurn := GroupByTurn(next);
    successors := map[];
    var turns := prevByTurn.Keys;
    assert forall t :: t !in turns ==> Lookup(prevByTurn, t) == [];
    while turns != {}
      invariant turns <= prevByTurn.Keys
      invariant forall k, s :: Maps(successors, k, s) ==> RenamedOutside(prev, next, turns, k, s)
      invariant forall k, s :: RenamedOutside(prev, next, turns, k, s) ==> k in successors
      decreases turns
    {
      var turn := PickTurn(turns);
      RenamedStep(prev, next, turns, turn);
      successors := RenameTurn(Lookup(prevByTurn, turn), Lookup(nextByTurn, turn), successors);
      turns := turns - {turn};
    }
  }

  lemma {:induction false} OneSuccessor(prev: seq<FoldRange>, next: seq<FoldRange>, k: string, s: string, t: int,
                                        i: int, other: string)
    requires DistinctKeys(prev) && Succeeds(prev, next, k, s, t, i) && RenamedOutside(prev, next, {}, k, other)
    ensures s == other
  {
    var u, j :| u !in {} && Succeeds(prev, next, k, other, u, j);
    PlaceIsUnique(prev, t, i, u, j);
  }

  method PickTurn(turns: set<int>) returns (turn: int)
    requires turns != {}
    ensures turn in turns
  {
    assert (forall t: int :: t !in turns) ==> turns == {};
    turn :| turn in turns;
  }

  lemma {:induction false} RenamedStep(prev: seq<FoldRange>, next: seq<FoldRange>, pending: set<int>, turn: int)
    requires turn in pending
    ensures forall k, s :: RenamedOutside(prev, next, pending - {turn}, k, s)
              <==> RenamedOutside(prev, next, pending, k, s)
                   || exists i :: Paired(Group(prev, turn), Group(next, turn), i, k, s)
  {
    forall k, s
      ensures RenamedOutside(prev, next, pending - {turn}, k, s)
         <==> RenamedOutside(prev, next, pending, k, s)
              || exists i :: Paired(Group(prev, turn), Group(next, turn), i, k, s)
    {
      if i :| Paired(Group(prev, turn), Group(next, turn), i, k, s) {
        assert Succeeds(prev, next, k, s, turn, i);
      }
      if t, i :| t !in pending && Succeeds(prev, next, k, s, t, i) {
        assert t !in pending - {turn};
      }
      if t, i :| t !in pending - {turn} && Succeeds(prev, next, k, s, t, i) {
        if t == turn { assert Paired(Group(prev, turn), Group(next, turn), i, k, s); }
      }
    }
  }
}
