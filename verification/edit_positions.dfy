/** Matching a session's edits to the terminal's edit positions: frontend/src/editPositionMatch.ts. */
module EditPositions {
  import opened Wrappers

  /** An edit position: the call it belongs to ("" when unknown) and the row it starts on. */
  datatype Position = Position(id: string, row: int)

  function Ids(ps: seq<Position>): (ids: seq<string>)
    ensures |ids| == |ps| && forall j :: 0 <= j < |ps| ==> ids[j] == ps[j].id
  {
    seq(|ps|, j requires 0 <= j < |ps| => ps[j].id)
  }

  // ---------------------------------------------------------------- occurrences of one ID

  /** How often an ID occurs among the first n entries. */
  function Count(ids: seq<string>, id: string, n: nat): nat
    requires n <= |ids|
  {
    if n == 0 then 0 else Count(ids, id, n - 1) + if ids[n - 1] == id then 1 else 0
  }

  /** The index of the k-th occurrence of an ID among the first n entries. */
  function NthOf(ids: seq<string>, id: string, k: nat, n: nat): (j: nat)
    requires n <= |ids| && k < Count(ids, id, n)
    ensures j < n && ids[j] == id && Count(ids, id, j) == k
  {
    if ids[n - 1] == id && k == Count(ids, id, n - 1) then n - 1 else NthOf(ids, id, k, n - 1)
  }

  lemma {:induction false} CountGrows(ids: seq<string>, id: string, m: nat, n: nat)
    requires m <= n <= |ids|
    ensures Count(ids, id, m) <= Count(ids, id, n)
  {
    if m < n { CountGrows(ids, id, m, n - 1); }
  }

  lemma {:induction false} NthIsTheOne(ids: seq<string>, j: nat)
    requires j < |ids|
    ensures Count(ids, ids[j], j) < Count(ids, ids[j], |ids|)
    ensures NthOf(ids, ids[j], Count(ids, ids[j], j), |ids|) == j
  {
    CountGrows(ids, ids[j], j + 1, |ids|);
    var i := NthOf(ids, ids[j], Count(ids, ids[j], j), |ids|);
    if i < j { CountGrows(ids, ids[j], i + 1, j); }
    if j < i { CountGrows(ids, ids[j], j + 1, i); }
  }

  method PerIdOrdinal(ids: seq<string>, index: nat) returns (ordinal: nat)
    requires index < |ids|
    ensures ordinal == Count(ids, ids[index], index)
  {
    ordinal := 0;
    for i := 0 to index
      invariant ordinal == Count(ids, ids[index], i)
    {
      if ids[i] == ids[index] { ordinal := ordinal + 1; }
    }
  }

  // ---------------------------------------------------------------- the two directions

  /** Index of the position for the i-th edit: the occurrence with the same ordinal of the same ID, or the last one;
      plain indexing without an ID or without candidates; -1 for none. */
  function PositionFor(edits: seq<string>, ids: seq<string>, i: int): (j: int)
    ensures -1 <= j < |ids|
  {
    if i < 0 || i >= |edits| then -1
    else
      var total := Count(ids, edits[i], |ids|);
      if edits[i] != "" && total > 0 then
        var ordinal := Count(edits, edits[i], i);
        NthOf(ids, edits[i], if ordinal < total then ordinal else total - 1, |ids|)
      else if i < |ids| then i else -1
  }

  /** Index of the edit for the j-th position. A position without an ID gives its own index, which may lie past the edits. */
  function EditFor(edits: seq<string>, ids: seq<string>, j: nat): int
    requires j < |ids|
  {
    if ids[j] == "" then j
    else
      var ordinal := Count(ids, ids[j], j);
      if ordinal < Count(edits, ids[j], |edits|) then NthOf(edits, ids[j], ordinal, |edits|)
      else if j < |edits| then j else -1
  }

  function CandidatesUpTo(ps: seq<Position>, id: string, n: nat): (r: seq<Position>)
    requires n <= |ps|
    ensures |r| == Count(Ids(ps), id, n)
  {
    if n == 0 then [] else CandidatesUpTo(ps, id, n - 1) + if ps[n - 1].id == id then [ps[n - 1]] else []
  }

  lemma {:induction false} CandidateIsNth(ps: seq<Position>, id: string, k: nat, n: nat)
    requires n <= |ps| && k < |CandidatesUpTo(ps, id, n)|
    ensures CandidatesUpTo(ps, id, n)[k] == ps[NthOf(Ids(ps), id, k, n)]
  {
    if !(ps[n - 1].id == id && k == Count(Ids(ps), id, n - 1)) { CandidateIsNth(ps, id, k, n - 1); }
  }

  method EditPositionForIndex(edits: seq<string>, ps: seq<Position>, i: int) returns (position: Option<Position>)
    ensures var j := PositionFor(edits, Ids(ps), i); position == if j < 0 then None else Some(ps[j])
  {
    if i < 0 || i >= |edits| { return None; }
    if edits[i] != "" {
      var ordinal := PerIdOrdinal(edits, i);
      var candidates := CandidatesUpTo(ps, edits[i], |ps|);
      if |candidates| > 0 {
        var k := if ordinal < |candidates| - 1 then ordinal else |candidates| - 1;
        CandidateIsNth(ps, edits[i], k, |ps|);
        return Some(candidates[k]);
      }
    }
    return if i < |ps| then Some(ps[i]) else None;
  }

  /** The first position, from the n-th on, that starts on a row; -1 for none. */
  function FirstAt(ps: seq<Position>, row: int, n: nat): (j: int)
    requires n <= |ps|
    ensures if j < 0 then j == -1 && forall k :: n <= k < |ps| ==> ps[k].row != row
            else n <= j < |ps| && ps[j].row == row && forall k :: n <= k < j ==> ps[k].row != row
    decreases |ps| - n
  {
    if n == |ps| then -1 else if ps[n].row == row then n else FirstAt(ps, row, n + 1)
  }

  /** The edit for a row: that of the first position on it, -1 when no edit starts there. */
  function EditForRow(edits: seq<string>, ps: seq<Position>, row: int): int {
    var j := FirstAt(ps, row, 0);
    if j < 0 then -1 else EditFor(edits, Ids(ps), j)
  }

  method EditIndexForRow(edits: seq<string>, ps: seq<Position>, row: int) returns (index: int)
    ensures index == EditForRow(edits, ps, row)
  {
    var j := FirstAt(ps, row, 0);
    if j < 0 { return -1; }
    var ids := Ids(ps);
    if ids[j] == "" { return j; }
    var ordinal := PerIdOrdinal(ids, j);
    var seen := 0;
    for i := 0 to |edits|
      invariant seen == Count(edits, ids[j], i) <= ordinal
    {
      if edits[i] == ids[j] {
        if seen == ordinal {
          NthIsTheOne(edits, i);
          return i;
        }
        seen := seen + 1;
      }
    }
    return if j < |edits| then j else -1;
  }

  // ---------------------------------------------------------------- where entries go

  /** A named edit with candidates goes to the position of its ordinal, or, past the candidates, to the last of them; any
      other edit to the position of its own index. */
  lemma {:induction false} EditGoes(edits: seq<string>, ids: seq<string>, i: nat)
    requires i < |edits|
    ensures var j := PositionFor(edits, ids, i);
            if edits[i] != "" && edits[i] in ids then
              && j >= 0 && ids[j] == edits[i]
              && (|| Count(ids, edits[i], j) == Count(edits, edits[i], i)
                  || (Count(ids, edits[i], j) < Count(edits, edits[i], i) && forall k :: j < k < |ids| ==> ids[k] != edits[i]))
            else j == if i < |ids| then i else -1
  {
    OccursWhenCounted(ids, edits[i]);
    var j := PositionFor(edits, ids, i);
    if edits[i] != "" && edits[i] in ids && Count(ids, edits[i], j) != Count(edits, edits[i], i) {
      forall k: nat | j < k < |ids|
        ensures ids[k] != edits[i]
      {
        CountGrows(ids, edits[i], j + 1, k);
        if ids[k] == edits[i] { CountGrows(ids, edits[i], k + 1, |ids|); }
      }
    }
  }

  /** A named position goes to the edit of its ordinal; without one, and without a name, to the edit of its own index. */
  lemma {:induction false} PositionGoes(edits: seq<string>, ids: seq<string>, j: nat)
    requires j < |ids|
    ensures var i := EditFor(edits, ids, j);
            if ids[j] == "" then i == j
            else if Count(ids, ids[j], j) < Count(edits, ids[j], |edits|)
            then 0 <= i < |edits| && edits[i] == ids[j] && Count(edits, ids[j], i) == Count(ids, ids[j], j)
            else i == if j < |edits| then j else -1
  {
  }

  /** The places of an ID among the first n entries. */
  function Places(ids: seq<string>, id: string, n: nat): set<nat>
    requires n <= |ids|
  {
    set k: nat | k < n && ids[k] == id
  }

  lemma {:induction false} PlacesStep(ids: seq<string>, id: string, n: nat)
    requires 0 < n <= |ids|
    ensures Places(ids, id, n) == Places(ids, id, n - 1) + if ids[n - 1] == id then {n - 1} else {}
    ensures n - 1 !in Places(ids, id, n - 1)
  {
  }

  /** Counting an ID is counting its places. */
  lemma {:induction false} CountsPlaces(ids: seq<string>, id: string, n: nat)
    requires n <= |ids|
    ensures Count(ids, id, n) == |Places(ids, id, n)|
  {
    if n > 0 {
      CountsPlaces(ids, id, n - 1);
      PlacesStep(ids, id, n);
    }
  }

  lemma {:induction false} OccursWhenCounted(ids: seq<string>, id: string)
    ensures Count(ids, id, |ids|) > 0 <==> id in ids
  {
    CountsPlaces(ids, id, |ids|);
    if k: nat :| k < |ids| && ids[k] == id { assert k in Places(ids, id, |ids|); }
    if Places(ids, id, |ids|) != {} { var k :| k in Places(ids, id, |ids|); }
  }

  // ---------------------------------------------------------------- the round trip

  /** Both sides hold the same number of entries for every call that is named. */
  ghost predicate SameCounts(edits: seq<string>, ids: seq<string>) {
    forall id: string :: id != "" ==> Count(edits, id, |edits|) == Count(ids, id, |ids|)
  }

  /** The entries without an ID stand at the same indexes on both sides. */
  predicate UnnamedAligned(edits: seq<string>, ids: seq<string>) {
    && (forall i :: 0 <= i < |edits| && edits[i] == "" ==> i < |ids| && ids[i] == "")
    && (forall j :: 0 <= j < |ids| && ids[j] == "" ==> j < |edits| && edits[j] == "")
  }

  /** No two positions start on one row. */
  predicate DistinctRows(ps: seq<Position>) {
    forall j, k :: 0 <= j < k < |ps| ==> ps[j].row != ps[k].row
  }

  /** From an edit to its position and, by that position's row, back. */
  predicate EditReturns(edits: seq<string>, ps: seq<Position>, i: nat) {
    var j := PositionFor(edits, Ids(ps), i);
    j >= 0 && EditForRow(edits, ps, ps[j].row) == i
  }

  /** From a position, by its row, to an edit and back to the very same position. */
  predicate PositionReturns(edits: seq<string>, ps: seq<Position>, j: nat)
    requires j < |ps|
  {
    var i := EditForRow(edits, ps, ps[j].row);
    0 <= i < |edits| && PositionFor(edits, Ids(ps), i) == j
  }

  ghost predicate MutuallyInverse(edits: seq<string>, ps: seq<Position>) {
    && (forall i: nat :: i < |edits| ==> EditReturns(edits, ps, i))
    && (forall j: nat :: j < |ps| ==> PositionReturns(edits, ps, j))
  }

  /** A named edit goes to the position of the same call and ordinal, whatever the order of the lists; that position's
      index leads back. */
  lemma {:induction false} NamedEditPairs(edits: seq<string>, ids: seq<string>, i: nat)
    requires SameCounts(edits, ids) && i < |edits| && edits[i] != ""
    ensures var j := PositionFor(edits, ids, i); j >= 0 && ids[j] == edits[i] && EditFor(edits, ids, j) == i
  {
    NthIsTheOne(edits, i);
  }

  lemma {:induction false} NamedPositionPairs(edits: seq<string>, ids: seq<string>, j: nat)
    requires SameCounts(edits, ids) && j < |ids| && ids[j] != ""
    ensures var i := EditFor(edits, ids, j); 0 <= i < |edits| && edits[i] == ids[j] && PositionFor(edits, ids, i) == j
  {
    NthIsTheOne(ids, j);
  }

  /** By its row a named edit comes back exactly when its position is the first on that row, or an unnamed position
      stands there first, at the edit's own index. */
  lemma {:induction false} NamedEditReturns(edits: seq<string>, ps: seq<Position>, i: nat)
    requires SameCounts(edits, Ids(ps)) && i < |edits| && edits[i] != ""
    ensures var j := PositionFor(edits, Ids(ps), i);
            && j >= 0 && ps[j].id == edits[i]
            && var first := FirstAt(ps, ps[j].row, 0);
               EditReturns(edits, ps, i) <==> first == j || (first == i && ps[first].id == "")
  {
    var ids := Ids(ps);
    NamedEditPairs(edits, ids, i);
    var first := FirstAt(ps, ps[PositionFor(edits, ids, i)].row, 0);
    if ids[first] != "" { NamedPositionPairs(edits, ids, first); }
  }

  /** On distinct rows the way by the row is the way by the index. */
  lemma {:induction false} RowIsIndex(edits: seq<string>, ps: seq<Position>, j: nat)
    requires DistinctRows(ps) && j < |ps|
    ensures EditForRow(edits, ps, ps[j].row) == EditFor(edits, Ids(ps), j)
  {
  }

  /** An edit that goes by plain indexing: without an ID, or no position has its ID. */
  predicate LooseEdit(edits: seq<string>, ids: seq<string>, i: nat)
    requires i < |edits|
  {
    edits[i] == "" || Count(ids, edits[i], |ids|) == 0
  }

  /** A position that goes by plain indexing: without an ID, or past the edits of its ID. */
  predicate LoosePosition(edits: seq<string>, ids: seq<string>, j: nat)
    requires j < |ids|
  {
    ids[j] == "" || Count(ids, ids[j], j) >= Count(edits, ids[j], |edits|)
  }

  /** The entries that go by plain indexing stand at the same indexes on both sides. */
  predicate LooseAligned(edits: seq<string>, ids: seq<string>) {
    && (forall i: nat | i < |edits| :: LooseEdit(edits, ids, i) ==> i < |ids| && LoosePosition(edits, ids, i))
    && (forall j: nat | j < |ids| :: LoosePosition(edits, ids, j) ==> j < |edits| && LooseEdit(edits, ids, j))
  }

  /** A call whose positions are known at all has one for each of its edits. */
  predicate EnoughPositions(edits: seq<string>, ids: seq<string>) {
    forall i: nat | i < |edits| :: LooseEdit(edits, ids, i) || Count(edits, edits[i], |edits|) <= Count(ids, edits[i], |ids|)
  }

  /** From an edit to its position and, by that position's index, back. */
  predicate EditComesBack(edits: seq<string>, ids: seq<string>, i: nat) {
    var j := PositionFor(edits, ids, i);
    j >= 0 && EditFor(edits, ids, j) == i
  }

  predicate PositionComesBack(edits: seq<string>, ids: seq<string>, j: nat)
    requires j < |ids|
  {
    var i := EditFor(edits, ids, j);
    0 <= i < |edits| && PositionFor(edits, ids, i) == j
  }

  lemma {:induction false} LooseEditComesBack(edits: seq<string>, ids: seq<string>, i: nat)
    requires i < |edits| && LooseEdit(edits, ids, i)
    ensures EditComesBack(edits, ids, i) <==> i < |ids| && LoosePosition(edits, ids, i)
  {
    if i < |ids| && !LoosePosition(edits, ids, i) { NthIsTheOne(ids, i); }
  }

  lemma {:induction false} BoundEditComesBack(edits: seq<string>, ids: seq<string>, i: nat)
    requires i < |edits| && !LooseEdit(edits, ids, i)
    ensures EditComesBack(edits, ids, i) <==> Count(edits, edits[i], i) < Count(ids, edits[i], |ids|)
  {
    NthIsTheOne(edits, i);
  }

  lemma {:induction false} LoosePositionComesBack(edits: seq<string>, ids: seq<string>, j: nat)
    requires j < |ids| && LoosePosition(edits, ids, j)
    ensures PositionComesBack(edits, ids, j) <==> j < |edits| && LooseEdit(edits, ids, j)
  {
    if j < |edits| && !LooseEdit(edits, ids, j) { NthIsTheOne(edits, j); }
  }

  lemma {:induction false} BoundPositionComesBack(edits: seq<string>, ids: seq<string>, j: nat)
    requires j < |ids| && !LoosePosition(edits, ids, j)
    ensures PositionComesBack(edits, ids, j)
  {
    NthIsTheOne(ids, j);
  }

  /** When every edit that is bound to a position comes back, its call has enough positions. */
  lemma {:induction false} EnoughWhenAllComeBack(edits: seq<string>, ids: seq<string>, i: nat)
    requires i < |edits| && !LooseEdit(edits, ids, i)
    requires forall i: nat | i < |edits| :: EditComesBack(edits, ids, i)
    ensures Count(edits, edits[i], |edits|) <= Count(ids, edits[i], |ids|)
  {
    var total := Count(ids, edits[i], |ids|);
    if total < Count(edits, edits[i], |edits|) {
      BoundEditComesBack(edits, ids, NthOf(edits, edits[i], total, |edits|));
    }
  }

  lemma {:induction false} EditsComeBackExactly(edits: seq<string>, ids: seq<string>)
    ensures (forall i: nat | i < |edits| :: EditComesBack(edits, ids, i))
        <==> EnoughPositions(edits, ids)
             && forall i: nat | i < |edits| :: LooseEdit(edits, ids, i) ==> i < |ids| && LoosePosition(edits, ids, i)
  {
    forall i: nat | i < |edits| && LooseEdit(edits, ids, i)
      ensures EditComesBack(edits, ids, i) <==> i < |ids| && LoosePosition(edits, ids, i)
    {
      LooseEditComesBack(edits, ids, i);
    }
    forall i: nat | i < |edits| && !LooseEdit(edits, ids, i)
      ensures EditComesBack(edits, ids, i) <==> Count(edits, edits[i], i) < Count(ids, edits[i], |ids|)
      ensures Count(edits, edits[i], i) < Count(edits, edits[i], |edits|)
    {
      BoundEditComesBack(edits, ids, i);
      NthIsTheOne(edits, i);
    }
    if forall i: nat | i < |edits| :: EditComesBack(edits, ids, i) {
      forall i: nat | i < |edits| && !LooseEdit(edits, ids, i)
        ensures Count(edits, edits[i], |edits|) <= Count(ids, edits[i], |ids|)
      {
        EnoughWhenAllComeBack(edits, ids, i);
      }
    }
  }

  lemma {:induction false} PositionsComeBackExactly(edits: seq<string>, ids: seq<string>)
    ensures (forall j: nat | j < |ids| :: PositionComesBack(edits, ids, j))
        <==> forall j: nat | j < |ids| :: LoosePosition(edits, ids, j) ==> j < |edits| && LooseEdit(edits, ids, j)
  {
    forall j: nat | j < |ids|
      ensures PositionComesBack(edits, ids, j)
          <==> (LoosePosition(edits, ids, j) ==> j < |edits| && LooseEdit(edits, ids, j))
    {
      if LoosePosition(edits, ids, j) {
        LoosePositionComesBack(edits, ids, j);
      } else {
        BoundPositionComesBack(edits, ids, j);
      }
    }
  }

  lemma {:induction false} InverseNeedsDistinctRows(edits: seq<string>, ps: seq<Position>)
    requires MutuallyInverse(edits, ps)
    ensures DistinctRows(ps)
  {
    forall j: nat, k: nat | j < k < |ps|
      ensures ps[j].row != ps[k].row
    {
      assert PositionReturns(edits, ps, j) && PositionReturns(edits, ps, k);
    }
  }

  lemma {:induction false} ReturnsAreComebacks(edits: seq<string>, ps: seq<Position>)
    requires DistinctRows(ps)
    ensures MutuallyInverse(edits, ps) <==>
              && (forall i: nat | i < |edits| :: EditComesBack(edits, Ids(ps), i))
              && (forall j: nat | j < |ps| :: PositionComesBack(edits, Ids(ps), j))
  {
    forall j: nat | j < |ps|
      ensures EditForRow(edits, ps, ps[j].row) == EditFor(edits, Ids(ps), j)
    {
      RowIsIndex(edits, ps, j);
    }
    assert forall i: nat | i < |edits| :: EditReturns(edits, ps, i) <==> EditComesBack(edits, Ids(ps), i);
    assert forall j: nat | j < |ps| :: PositionReturns(edits, ps, j) <==> PositionComesBack(edits, Ids(ps), j);
  }

  /** For any two lists, the two functions are mutually inverse bijections exactly when no two positions start on one
      row, every call with positions has enough of them, and the entries that go by plain indexing line up. */
  lemma {:induction false} MatchingIsInverse(edits: seq<string>, ps: seq<Position>)
    ensures MutuallyInverse(edits, ps)
        <==> DistinctRows(ps) && EnoughPositions(edits, Ids(ps)) && LooseAligned(edits, Ids(ps))
  {
    if MutuallyInverse(edits, ps) { InverseNeedsDistinctRows(edits, ps); }
    if DistinctRows(ps) {
      ReturnsAreComebacks(edits, ps);
      EditsComeBackExactly(edits, Ids(ps));
      PositionsComeBackExactly(edits, Ids(ps));
    }
  }

  /** With equal counts per call only the unnamed entries go by plain indexing. */
  lemma {:induction false} LooseIsUnnamed(edits: seq<string>, ids: seq<string>)
    requires SameCounts(edits, ids)
    ensures forall i: nat | i < |edits| :: LooseEdit(edits, ids, i) <==> edits[i] == ""
    ensures forall j: nat | j < |ids| :: LoosePosition(edits, ids, j) <==> ids[j] == ""
    ensures EnoughPositions(edits, ids)
  {
    forall i: nat | i < |edits|
      ensures LooseEdit(edits, ids, i) <==> edits[i] == ""
      ensures LooseEdit(edits, ids, i) || Count(edits, edits[i], |edits|) <= Count(ids, edits[i], |ids|)
    {
      NthIsTheOne(edits, i);
    }
    forall j: nat | j < |ids|
      ensures LoosePosition(edits, ids, j) <==> ids[j] == ""
    {
      NthIsTheOne(ids, j);
    }
  }

  lemma {:induction false} AlignedAlike(edits: seq<string>, ids: seq<string>)
    requires forall i: nat | i < |edits| :: LooseEdit(edits, ids, i) <==> edits[i] == ""
    requires forall j: nat | j < |ids| :: LoosePosition(edits, ids, j) <==> ids[j] == ""
    ensures LooseAligned(edits, ids) <==> UnnamedAligned(edits, ids)
  {
  }

  /** So for equal counts the condition is about the rows and the unnamed entries. */
  lemma {:induction false} EqualCountsInverse(edits: seq<string>, ps: seq<Position>)
    requires SameCounts(edits, Ids(ps))
    ensures MutuallyInverse(edits, ps) <==> DistinctRows(ps) && UnnamedAligned(edits, Ids(ps))
  {
    LooseIsUnnamed(edits, Ids(ps));
    AlignedAlike(edits, Ids(ps));
    MatchingIsInverse(edits, ps);
  }

  /** Unequal counts can still match: a position without an ID stands in for a call that has none. */
  lemma {:induction false} UnnamedPositionStandsIn()
    ensures var edits, ps := ["a"], [Position("", 1)];
            !SameCounts(edits, Ids(ps)) && !UnnamedAligned(edits, Ids(ps)) && MutuallyInverse(edits, ps)
  {
    var edits, ps, ids := ["a"], [Position("", 1)], [""];
    assert Ids(ps) == ids;
    assert Count(edits, "a", 0) == 0 && Count(edits, "a", 1) == 1;
    assert Count(ids, "a", 0) == 0 && Count(ids, "a", 1) == 0;
    MatchingIsInverse(edits, ps);
  }

  /** Two edits of a call with one position: both go to it. */
  lemma {:induction false} TooFewPositions()
    ensures var edits, ps := ["a", "a"], [Position("a", 1)];
            PositionFor(edits, Ids(ps), 0) == 0 == PositionFor(edits, Ids(ps), 1) && !MutuallyInverse(edits, ps)
  {
    var edits, ps, ids := ["a", "a"], [Position("a", 1)], ["a"];
    assert Ids(ps) == ids;
    assert Count(edits, "a", 0) == 0 && Count(edits, "a", 1) == 1 && Count(edits, "a", 2) == 2;
    assert Count(ids, "a", 0) == 0 && Count(ids, "a", 1) == 1;
    MatchingIsInverse(edits, ps);
    assert !LooseEdit(edits, ids, 0);
  }

  /** Two edits whose positions share a row: the second comes back as the first. */
  lemma {:induction false} SharedRowLosesAnEdit()
    ensures var edits, ps := ["a", "b"], [Position("a", 5), Position("b", 5)];
            && SameCounts(edits, Ids(ps)) && UnnamedAligned(edits, Ids(ps))
            && PositionFor(edits, Ids(ps), 1) == 1 && EditForRow(edits, ps, 5) == 0
            && !MutuallyInverse(edits, ps)
  {
    var edits, ps := ["a", "b"], [Position("a", 5), Position("b", 5)];
    assert Ids(ps) == edits;
    NamedPositionPairs(edits, edits, 0);
    NamedEditPairs(edits, edits, 1);
    assert Count(edits, "b", 1) == 0 && Count(edits, "a", 0) == 0 && Count(edits, "a", 1) == 1;
    NthIsTheOne(edits, 0);
    NthIsTheOne(edits, 1);
    EqualCountsInverse(edits, ps);
    assert ps[0].row == ps[1].row;
  }

  /** Equal counts and distinct rows do not suffice: an unnamed edit in front of the named ones takes a named one's
      position. */
  lemma {:induction false} UnnamedEntriesDisplace()
    ensures var edits, ps := ["", "a"], [Position("a", 1), Position("", 2)];
            && SameCounts(edits, Ids(ps)) && DistinctRows(ps) && !MutuallyInverse(edits, ps)
            && PositionFor(edits, Ids(ps), 0) == 0 == PositionFor(edits, Ids(ps), 1)
  {
    var edits, ps := ["", "a"], [Position("a", 1), Position("", 2)];
    var ids := ["a", ""];
    assert Ids(ps) == ids;
    forall id: string | id != ""
      ensures Count(edits, id, 2) == Count(ids, id, 2)
    {
      assert edits[0] != id && Count(edits, id, 0) == 0 && Count(edits, id, 1) == 0;
      assert ids[1] != id && Count(ids, id, 0) == 0 && Count(ids, id, 1) == if ids[0] == id then 1 else 0;
    }
    EqualCountsInverse(edits, ps);
    assert Count(ids, "a", 1) == 1 && Count(edits, "a", 1) == 0;
  }
}
