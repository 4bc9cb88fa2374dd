/** The canonical projection of one collaboration graph: Validate of internal/collaboration/validate.go.
    Delegation evidence may be cyclic, duplicated or dangling; the projection is one forest. */
module Collaboration {
  import opened Chains
  import Identity
  import opened Ordering
  import opened Wrappers

  datatype Delegation = Delegation(id: Id, parent: Id, child: Id)

  datatype Graph = Graph(rootAgentType: string, rootSessionId: string,
                         invocations: seq<Id>, delegations: seq<Delegation>)

  /** The branch of the edge loop that one delegation takes; every branch but Canonical reports the
      issue of the same name. */
  datatype Outcome = DuplicateDelegation | UnknownChild | SelfLink | RootHasParent | MissingParent
                   | DuplicateRelation | MultipleParents | Cycle | Canonical

  predicate Quarantines(o: Outcome) {
    o.DuplicateDelegation? || o.UnknownChild? || o.SelfLink? || o.RootHasParent? || o.DuplicateRelation? || o.Cycle?
  }

  /** The maps and sets the edge loop updates. */
  datatype EdgeState = EdgeState(seenIds: set<Id>, seenPairs: map<string, Id>, parentChain: Chain,
                                 quarantined: set<Id>, canonicalParent: map<Id, Id>)

  const NO_EDGES := EdgeState({}, map[], map[], {}, map[])

  /** rootId is "" when the graph has no root invocation. */
  datatype Projection = Projection(rootId: Id, canonicalParent: map<Id, Id>,
                                   unlinked: seq<Id>, quarantined: seq<Id>)

  // ---------------------------------------------------------------- order of the delegations

  predicate Before(d: Delegation, e: Delegation) {
    if d.id != e.id then LexLess(d.id, e.id)
    else if d.parent != e.parent then LexLess(d.parent, e.parent)
    else LexLess(d.child, e.child)
  }

  predicate BeforeOrEqual(d: Delegation, e: Delegation) {
    d == e || Before(d, e)
  }

  lemma {:induction false} BeforeTransitive(d: Delegation, e: Delegation, f: Delegation)
    requires BeforeOrEqual(d, e) && BeforeOrEqual(e, f)
    ensures BeforeOrEqual(d, f)
  {
    if LexLess(d.id, e.id) && LexLess(e.id, f.id) { LexTransitive(d.id, e.id, f.id); }
    if LexLess(d.parent, e.parent) && LexLess(e.parent, f.parent) { LexTransitive(d.parent, e.parent, f.parent); }
    if LexLess(d.child, e.child) && LexLess(e.child, f.child) { LexTransitive(d.child, e.child, f.child); }
    LexTrichotomy(d.id, e.id);
    LexTrichotomy(e.id, f.id);
    LexTrichotomy(d.parent, e.parent);
    LexTrichotomy(e.parent, f.parent);
  }

  lemma {:induction false} BeforeTotal()
    ensures TotalOrder(BeforeOrEqual)
  {
    forall d: Delegation, e: Delegation
      ensures BeforeOrEqual(d, e) || BeforeOrEqual(e, d)
      ensures BeforeOrEqual(d, e) && BeforeOrEqual(e, d) ==> d == e
    {
      LexTrichotomy(d.id, e.id);
      LexTrichotomy(d.parent, e.parent);
      LexTrichotomy(d.child, e.child);
    }
    forall d: Delegation, e: Delegation, f: Delegation | BeforeOrEqual(d, e) && BeforeOrEqual(e, f)
      ensures BeforeOrEqual(d, f)
    {
      BeforeTransitive(d, e, f);
    }
  }

  // ---------------------------------------------------------------- the relation key

  function PairKey(parent: Id, child: Id): string {
    parent + "\0" + child
  }

  /** The key of a parent-child pair identifies the pair unless an ID itself contains the separator:
      two keys agree exactly when the pairs do, or one parent extends the other across a separator
      that the other child carries. */
  lemma {:induction false} PairKeyCollision(p: Id, c: Id, p': Id, c': Id)
    ensures PairKey(p, c) == PairKey(p', c') <==>
            || (p == p' && c == c')
            || (exists q: string :: p' == p + "\0" + q && c == q + "\0" + c')
            || (exists q: string :: p == p' + "\0" + q && c' == q + "\0" + c)
  {
    var k, k' := PairKey(p, c), PairKey(p', c');
    forall q: string | p' == p + "\0" + q && c == q + "\0" + c'
      ensures k == k'
    {
      assert p + "\0" + (q + "\0" + c') == p + "\0" + q + "\0" + c';
    }
    forall q: string | p == p' + "\0" + q && c' == q + "\0" + c
      ensures k == k'
    {
      assert p' + "\0" + (q + "\0" + c) == p' + "\0" + q + "\0" + c;
    }
    if k == k' {
      assert p == k[..|p|] && p' == k[..|p'|];
      assert c == k[|p| + 1..] && c' == k[|p'| + 1..];
      assert k[|p|] == '\0' && k'[|p'|] == '\0';
      if |p| < |p'| {
        Overlap(k, p, c, p', c');
      } else if |p'| < |p| {
        Overlap(k, p', c', p, c);
      }
    }
  }

  lemma {:induction false} Overlap(k: string, p: Id, c: Id, p': Id, c': Id)
    requires k == PairKey(p, c) == PairKey(p', c') && |p| < |p'|
    ensures exists q: string :: p' == p + "\0" + q && c == q + "\0" + c'
  {
    var q := p'[|p| + 1..];
    assert p' == k[..|p'|] && p == k[..|p|] && k[|p|] == '\0';
    assert p' == p + "\0" + q;
    assert c == k[|p| + 1..] && c' == k[|p'| + 1..] && k[|p'|] == '\0';
    assert c == q + "\0" + c';
  }

  lemma {:induction false} PairKeyInjective(p: Id, c: Id, p': Id, c': Id)
    requires '\0' !in p && '\0' !in p'
    requires PairKey(p, c) == PairKey(p', c')
    ensures p == p' && c == c'
  {
    assert PairKey(p, c) == p + ['\0'] + c && PairKey(p', c') == p' + ['\0'] + c';
    Identity.SplitAtSeparator('\0', p, c, p', c');
  }

  // ---------------------------------------------------------------- one step of the edge loop

  ghost function Classify(ids: set<Id>, root: Id, st: EdgeState, d: Delegation): Outcome {
    if d.id in st.seenIds then DuplicateDelegation
    else if d.child !in ids then UnknownChild
    else if d.parent == d.child then SelfLink
    else if d.child == root then RootHasParent
    else if d.parent !in ids then MissingParent
    else if PairKey(d.parent, d.child) in st.seenPairs then DuplicateRelation
    else if d.child in st.canonicalParent then MultipleParents
    else if AncestorOrSelf(st.parentChain, d.child, d.parent) then Cycle
    else Canonical
  }

  function Advance(st: EdgeState, d: Delegation, o: Outcome): EdgeState {
    var seen := st.(seenIds := st.seenIds + {d.id},
                    quarantined := if Quarantines(o) then st.quarantined + {d.id} else st.quarantined);
    var paired := if o.MultipleParents? || o.Cycle? || o.Canonical?
                  then seen.(seenPairs := seen.seenPairs[PairKey(d.parent, d.child) := d.id]) else seen;
    if o.Canonical?
    then paired.(parentChain := paired.parentChain[d.child := d.parent],
                 canonicalParent := paired.canonicalParent[d.child := d.id])
    else paired
  }

  /** The state after the loop has taken the first n delegations. */
  ghost function Run(ids: set<Id>, root: Id, ds: seq<Delegation>, n: nat): EdgeState
    requires n <= |ds|
    decreases n, 0
  {
    if n == 0 then NO_EDGES
    else Advance(Run(ids, root, ds, n - 1), ds[n - 1], OutcomeAt(ids, root, ds, n - 1))
  }

  /** What the loop decides about the i-th delegation. */
  ghost function OutcomeAt(ids: set<Id>, root: Id, ds: seq<Delegation>, i: nat): Outcome
    requires i < |ds|
    decreases i, 1
  {
    Classify(ids, root, Run(ids, root, ds, i), ds[i])
  }

  ghost function Final(ids: set<Id>, root: Id, ds: seq<Delegation>): EdgeState {
    Run(ids, root, ds, |ds|)
  }

  // ---------------------------------------------------------------- what every step keeps

  ghost predicate ForestInvariant(ids: set<Id>, root: Id, st: EdgeState) {
    && st.parentChain.Keys == st.canonicalParent.Keys
    && Grounded(st.parentChain)
    && forall c :: c in st.parentChain ==> c in ids && c != root && st.parentChain[c] in ids
  }

  /** Whatever state the loop is in, taking one more delegation keeps the forest: the accepted
      relation stays acyclic, links only known invocations and never gives the root a parent. */
  lemma {:induction false} StepKeepsForest(ids: set<Id>, root: Id, st: EdgeState, d: Delegation)
    requires ForestInvariant(ids, root, st)
    ensures ForestInvariant(ids, root, Advance(st, d, Classify(ids, root, st, d)))
  {
    if Classify(ids, root, st, d).Canonical? {
      LinkKeepsForest(st.parentChain, d.parent, d.child);
    }
  }

  lemma {:induction false} RunKeepsForest(ids: set<Id>, root: Id, ds: seq<Delegation>, n: nat)
    requires n <= |ds|
    ensures ForestInvariant(ids, root, Run(ids, root, ds, n))
  {
    if n == 0 {
      forall x
        ensures Ends(map[], x)
      {
        assert Climb(map[], x, 1).None?;
      }
    } else {
      RunKeepsForest(ids, root, ds, n - 1);
      StepKeepsForest(ids, root, Run(ids, root, ds, n - 1), ds[n - 1]);
    }
  }

  /** Everything recorded early is still recorded late. */
  ghost predicate Grows(early: EdgeState, late: EdgeState) {
    && early.seenIds <= late.seenIds
    && early.quarantined <= late.quarantined
    && (forall c :: c in early.parentChain ==> c in late.parentChain && late.parentChain[c] == early.parentChain[c])
    && (forall c :: c in early.canonicalParent ==>
          c in late.canonicalParent && late.canonicalParent[c] == early.canonicalParent[c])
  }

  lemma {:induction false} GrowsOn(a: EdgeState, b: EdgeState, c: EdgeState)
    requires Grows(a, b) && Grows(b, c)
    ensures Grows(a, c)
  {
  }

  lemma {:induction false} StepGrows(ids: set<Id>, root: Id, st: EdgeState, d: Delegation)
    requires ForestInvariant(ids, root, st)
    ensures Grows(st, Advance(st, d, Classify(ids, root, st, d)))
  {
    if Classify(ids, root, st, d).Canonical? { assert d.child !in st.canonicalParent && d.child !in st.parentChain; }
  }

  /** Nothing the loop has recorded is withdrawn later. */
  lemma {:induction false} RunGrows(ids: set<Id>, root: Id, ds: seq<Delegation>, i: nat, n: nat)
    requires i <= n <= |ds|
    ensures Grows(Run(ids, root, ds, i), Run(ids, root, ds, n))
  {
    if i < n {
      RunGrows(ids, root, ds, i, n - 1);
      RunKeepsForest(ids, root, ds, n - 1);
      StepGrows(ids, root, Run(ids, root, ds, n - 1), ds[n - 1]);
      assert Run(ids, root, ds, n) == Advance(Run(ids, root, ds, n - 1), ds[n - 1], OutcomeAt(ids, root, ds, n - 1));
      GrowsOn(Run(ids, root, ds, i), Run(ids, root, ds, n - 1), Run(ids, root, ds, n));
    }
  }

  /** An edge rejected as a cycle would still close a cycle in the final forest. */
  lemma {:induction false} CycleVerdictIsFinal(ids: set<Id>, root: Id, ds: seq<Delegation>, i: nat)
    requires i < |ds| && OutcomeAt(ids, root, ds, i).Cycle?
    ensures AncestorOrSelf(Final(ids, root, ds).parentChain, ds[i].child, ds[i].parent)
  {
    RunGrows(ids, root, ds, i, |ds|);
    AncestorMonotone(Run(ids, root, ds, i).parentChain, Final(ids, root, ds).parentChain, ds[i].child, ds[i].parent);
  }

  /** Every invocation climbs, through known invocations, to one without a canonical parent. */
  lemma {:induction false} ChainsEndAtParentless(ids: set<Id>, root: Id, ds: seq<Delegation>, x: Id)
    returns (top: Id, height: nat)
    requires x in ids
    ensures var chain := Final(ids, root, ds).parentChain;
            Climb(chain, x, height) == Some(top) && top in ids && top !in chain
  {
    var chain := Final(ids, root, ds).parentChain;
    RunKeepsForest(ids, root, ds, |ds|);
    assert Ends(chain, x);
    var n: nat :| Climb(chain, x, n).None?;
    top, height := TopExists(chain, x, n);
    ClimbStaysKnown(ids, chain, x, height);
  }

  lemma {:induction false} ClimbStaysKnown(ids: set<Id>, chain: Chain, x: Id, n: nat)
    requires x in ids && forall c :: c in chain ==> chain[c] in ids
    requires Climb(chain, x, n).Some?
    ensures Climb(chain, x, n).value in ids
    decreases n
  {
    if n > 0 { ClimbStaysKnown(ids, chain, chain[x], n - 1); }
  }

  // ---------------------------------------------------------------- outcomes and results

  lemma {:induction false} SeenIdsExact(ids: set<Id>, root: Id, ds: seq<Delegation>, n: nat, id: Id)
    requires n <= |ds|
    ensures id in Run(ids, root, ds, n).seenIds <==> exists j :: 0 <= j < n && ds[j].id == id
  {
    if n > 0 { SeenIdsExact(ids, root, ds, n - 1, id); }
  }

  /** A delegation counts as a duplicate exactly when an earlier one carries its ID. */
  lemma {:induction false} DuplicateExact(ids: set<Id>, root: Id, ds: seq<Delegation>, i: nat)
    requires i < |ds|
    ensures OutcomeAt(ids, root, ds, i).DuplicateDelegation? <==> exists j :: 0 <= j < i && ds[j].id == ds[i].id
  {
    SeenIdsExact(ids, root, ds, i, ds[i].id);
  }

  ghost predicate QuarantinedAt(ids: set<Id>, root: Id, ds: seq<Delegation>, j: int, id: Id) {
    0 <= j < |ds| && ds[j].id == id && Quarantines(OutcomeAt(ids, root, ds, j))
  }

  /** The quarantine holds exactly the IDs of the delegations that some branch quarantined. */
  lemma {:induction false} QuarantinedExact(ids: set<Id>, root: Id, ds: seq<Delegation>, n: nat, id: Id)
    requires n <= |ds|
    ensures id in Run(ids, root, ds, n).quarantined <==> exists j :: j < n && QuarantinedAt(ids, root, ds, j, id)
  {
    if n > 0 {
      QuarantinedExact(ids, root, ds, n - 1, id);
      assert QuarantinedAt(ids, root, ds, n - 1, id)
        <==> ds[n - 1].id == id && Quarantines(OutcomeAt(ids, root, ds, n - 1));
    }
  }

  ghost predicate CanonicalAt(ids: set<Id>, root: Id, ds: seq<Delegation>, j: int, child: Id) {
    0 <= j < |ds| && ds[j].child == child && OutcomeAt(ids, root, ds, j).Canonical?
  }

  /** What one more delegation does to the links of a child: it links an unlinked one, or leaves it as it is. */
  lemma {:induction false} LinkStep(ids: set<Id>, root: Id, ds: seq<Delegation>, n: nat, child: Id)
    requires n < |ds|
    ensures var st, next := Run(ids, root, ds, n), Run(ids, root, ds, n + 1);
            if CanonicalAt(ids, root, ds, n, child) then
              && child !in st.canonicalParent
              && child in next.canonicalParent && next.canonicalParent[child] == ds[n].id
              && child in next.parentChain && next.parentChain[child] == ds[n].parent
            else
              && (child in next.canonicalParent <==> child in st.canonicalParent)
              && (child in st.canonicalParent ==> next.canonicalParent[child] == st.canonicalParent[child])
              && (child in st.parentChain ==> child in next.parentChain && next.parentChain[child] == st.parentChain[child])
  {
    var o := OutcomeAt(ids, root, ds, n);
    assert Run(ids, root, ds, n + 1) == Advance(Run(ids, root, ds, n), ds[n], o);
    assert CanonicalAt(ids, root, ds, n, child) <==> ds[n].child == child && o.Canonical?;
  }

  /** An accepted delegation's link stands from then on. */
  lemma {:induction false} AcceptedStaysLinked(ids: set<Id>, root: Id, ds: seq<Delegation>, j: nat, n: nat, child: Id)
    requires j < n <= |ds| && CanonicalAt(ids, root, ds, j, child)
    ensures var st := Run(ids, root, ds, n);
            && child in st.canonicalParent && st.canonicalParent[child] == ds[j].id
            && child in st.parentChain && st.parentChain[child] == ds[j].parent
  {
    LinkStep(ids, root, ds, j, child);
    RunGrows(ids, root, ds, j + 1, n);
  }

  lemma {:induction false} LinkedWasAccepted(ids: set<Id>, root: Id, ds: seq<Delegation>, n: nat, child: Id)
    returns (j: nat)
    requires n <= |ds| && child in Run(ids, root, ds, n).canonicalParent
    ensures j < n && CanonicalAt(ids, root, ds, j, child)
  {
    LinkStep(ids, root, ds, n - 1, child);
    j := n - 1;
    if !CanonicalAt(ids, root, ds, n - 1, child) { j := LinkedWasAccepted(ids, root, ds, n - 1, child); }
  }

  lemma {:induction false} AcceptedOnce(ids: set<Id>, root: Id, ds: seq<Delegation>, j: nat, k: nat, child: Id)
    requires j < |ds| && k < |ds| && CanonicalAt(ids, root, ds, j, child) && CanonicalAt(ids, root, ds, k, child)
    ensures j == k
  {
    LinkStep(ids, root, ds, j, child);
    LinkStep(ids, root, ds, k, child);
    if j < k { AcceptedStaysLinked(ids, root, ds, j, k, child); }
    if k < j { AcceptedStaysLinked(ids, root, ds, k, j, child); }
  }

  /** A child is linked exactly when one of its delegations was accepted; its canonical parent and
      delegation are those of that delegation, and no other delegation of the child is accepted. */
  lemma {:induction false} LinkedExact(ids: set<Id>, root: Id, ds: seq<Delegation>, n: nat, child: Id)
    requires n <= |ds|
    ensures var st := Run(ids, root, ds, n);
            && (child in st.canonicalParent <==> exists j :: j < n && CanonicalAt(ids, root, ds, j, child))
            && (forall j :: j < n && CanonicalAt(ids, root, ds, j, child) ==>
                  && st.canonicalParent[child] == ds[j].id
                  && child in st.parentChain && st.parentChain[child] == ds[j].parent)
            && (forall j, k :: j < n && k < n ==>
                  CanonicalAt(ids, root, ds, j, child) && CanonicalAt(ids, root, ds, k, child) ==> j == k)
  {
    if child in Run(ids, root, ds, n).canonicalParent { var j := LinkedWasAccepted(ids, root, ds, n, child); }
    forall j: nat | j < n && CanonicalAt(ids, root, ds, j, child)
      ensures var st := Run(ids, root, ds, n);
              && child in st.canonicalParent && st.canonicalParent[child] == ds[j].id
              && child in st.parentChain && st.parentChain[child] == ds[j].parent
    {
      AcceptedStaysLinked(ids, root, ds, j, n, child);
    }
    forall j: nat, k: nat | j < n && k < n && CanonicalAt(ids, root, ds, j, child) && CanonicalAt(ids, root, ds, k, child)
      ensures j == k
    {
      AcceptedOnce(ids, root, ds, j, k, child);
    }
  }

  /** The canonical delegation of a child is the first acceptable one in sorted order: what precedes
      it was quarantined or has no parent invocation, and what follows it is never accepted, nor even
      tested for a cycle. */
  lemma {:induction false} CanonicalIsFirstAcceptable(ids: set<Id>, root: Id, ds: seq<Delegation>, k: nat, i: nat)
    requires i < |ds| && i != k && CanonicalAt(ids, root, ds, k, ds[i].child)
    ensures i < k ==> Quarantines(OutcomeAt(ids, root, ds, i)) || OutcomeAt(ids, root, ds, i).MissingParent?
    ensures k < i ==> !OutcomeAt(ids, root, ds, i).Canonical? && !OutcomeAt(ids, root, ds, i).Cycle?
  {
    var child := ds[k].child;
    LinkedExact(ids, root, ds, |ds|, child);
    if i < k {
      assert OutcomeAt(ids, root, ds, i).Canonical? ==> CanonicalAt(ids, root, ds, i, child);
      RunGrows(ids, root, ds, i, k);
    } else {
      RunGrows(ids, root, ds, k + 1, i);
    }
  }

  /** A child stays unlinked only if each of its delegations was quarantined or lacks its parent. */
  lemma {:induction false} UnlinkedHasNoAcceptable(ids: set<Id>, root: Id, ds: seq<Delegation>, i: nat)
    requires i < |ds| && ds[i].child !in Final(ids, root, ds).canonicalParent
    ensures Quarantines(OutcomeAt(ids, root, ds, i)) || OutcomeAt(ids, root, ds, i).MissingParent?
  {
    LinkedExact(ids, root, ds, |ds|, ds[i].child);
    assert !CanonicalAt(ids, root, ds, i, ds[i].child);
    RunGrows(ids, root, ds, i, |ds|);
  }

  /** A duplicate relation repeats the key of an earlier delegation that reached the same test; when
      no ID holds the separator, it repeats that delegation's parent and child. */
  lemma {:induction false} PairsExact(ids: set<Id>, root: Id, ds: seq<Delegation>, n: nat, pair: string)
    returns (j: nat)
    requires n <= |ds| && pair in Run(ids, root, ds, n).seenPairs
    ensures j < n && PairKey(ds[j].parent, ds[j].child) == pair
    ensures Run(ids, root, ds, n).seenPairs[pair] == ds[j].id
    ensures var o := OutcomeAt(ids, root, ds, j); o.Canonical? || o.Cycle? || o.MultipleParents?
  {
    var o := OutcomeAt(ids, root, ds, n - 1);
    if (o.Canonical? || o.Cycle? || o.MultipleParents?) && PairKey(ds[n - 1].parent, ds[n - 1].child) == pair {
      j := n - 1;
    } else {
      j := PairsExact(ids, root, ds, n - 1, pair);
    }
  }

  lemma {:induction false} DuplicateRelationRepeats(ids: set<Id>, root: Id, ds: seq<Delegation>, i: nat)
    returns (j: nat)
    requires i < |ds| && OutcomeAt(ids, root, ds, i).DuplicateRelation?
    requires forall k :: 0 <= k < |ds| ==> '\0' !in ds[k].parent
    ensures j < i && ds[j].parent == ds[i].parent && ds[j].child == ds[i].child
    ensures var o := OutcomeAt(ids, root, ds, j); o.Canonical? || o.Cycle? || o.MultipleParents?
  {
    j := PairsExact(ids, root, ds, i, PairKey(ds[i].parent, ds[i].child));
    PairKeyInjective(ds[j].parent, ds[j].child, ds[i].parent, ds[i].child);
  }

  ghost predicate DistinctIds(ds: seq<Delegation>) {
    forall i, j :: 0 <= i < j < |ds| ==> ds[i].id != ds[j].id
  }

  ghost predicate AcceptedAt(ids: set<Id>, root: Id, ds: seq<Delegation>, j: int, id: Id) {
    0 <= j < |ds| && ds[j].id == id && OutcomeAt(ids, root, ds, j).Canonical?
  }

  lemma {:induction false} CanonicalValuesExact(ids: set<Id>, root: Id, ds: seq<Delegation>, id: Id)
    ensures id in Final(ids, root, ds).canonicalParent.Values <==> exists j :: AcceptedAt(ids, root, ds, j, id)
  {
    var st := Final(ids, root, ds);
    if id in st.canonicalParent.Values {
      var c :| c in st.canonicalParent && st.canonicalParent[c] == id;
      LinkedExact(ids, root, ds, |ds|, c);
      var j :| j < |ds| && CanonicalAt(ids, root, ds, j, c);
      assert AcceptedAt(ids, root, ds, j, id);
    }
    if j :| AcceptedAt(ids, root, ds, j, id) {
      LinkedExact(ids, root, ds, |ds|, ds[j].child);
      assert CanonicalAt(ids, root, ds, j, ds[j].child);
      assert st.canonicalParent[ds[j].child] == id;
    }
  }

  /** With distinct delegation IDs the four fates are exclusive: an ID is canonical exactly when its
      delegation was accepted, quarantined exactly when its branch quarantines, and neither exactly
      when the parent is missing or the child already had one. */
  lemma {:induction false} OneFatePerDelegation(ids: set<Id>, root: Id, ds: seq<Delegation>, i: nat)
    requires DistinctIds(ds) && i < |ds|
    ensures var st := Final(ids, root, ds);
            var o := OutcomeAt(ids, root, ds, i);
            && !o.DuplicateDelegation?
            && (ds[i].id in st.canonicalParent.Values <==> o.Canonical?)
            && (ds[i].id in st.quarantined <==> Quarantines(o))
            && (ds[i].id !in st.canonicalParent.Values && ds[i].id !in st.quarantined <==>
                o.MissingParent? || o.MultipleParents?)
  {
    DuplicateExact(ids, root, ds, i);
    QuarantinedExact(ids, root, ds, |ds|, ds[i].id);
    CanonicalValuesExact(ids, root, ds, ds[i].id);
    var o := OutcomeAt(ids, root, ds, i);
    assert QuarantinedAt(ids, root, ds, i, ds[i].id) <==> Quarantines(o);
    assert AcceptedAt(ids, root, ds, i, ds[i].id) <==> o.Canonical?;
    assert forall j :: AcceptedAt(ids, root, ds, j, ds[i].id) || QuarantinedAt(ids, root, ds, j, ds[i].id) ==> j == i;
  }

  /** Without distinct IDs the partition fails in exactly one way: an ID is both canonical and
      quarantined exactly when its accepted delegation is repeated by a later one with the same ID. */
  lemma {:induction false} BothFatesExact(ids: set<Id>, root: Id, ds: seq<Delegation>, id: Id)
    ensures var st := Final(ids, root, ds);
            id in st.canonicalParent.Values && id in st.quarantined <==>
            exists i, j :: AcceptedAt(ids, root, ds, i, id) && i < j < |ds| && ds[j].id == id
  {
    CanonicalValuesExact(ids, root, ds, id);
    QuarantinedExact(ids, root, ds, |ds|, id);
    var st := Final(ids, root, ds);
    if id in st.canonicalParent.Values && id in st.quarantined {
      var i :| AcceptedAt(ids, root, ds, i, id);
      var j :| j < |ds| && QuarantinedAt(ids, root, ds, j, id);
      DuplicateExact(ids, root, ds, i);
      assert i < j;
    }
    if i, j :| AcceptedAt(ids, root, ds, i, id) && i < j < |ds| && ds[j].id == id {
      DuplicateExact(ids, root, ds, j);
      assert QuarantinedAt(ids, root, ds, j, id);
    }
  }

  /** A repeated delegation of one child to one parent: both canonical and quarantined. */
  lemma {:induction false} BothFatesExample()
    ensures var st := Final({"r", "a"}, "r", [Delegation("d", "r", "a"), Delegation("d", "r", "a")]);
            "d" in st.canonicalParent.Values && "d" in st.quarantined
  {
    var ids: set<Id> := {"r", "a"};
    var d := Delegation("d", "r", "a");
    var ds := [d, d];
    assert Run(ids, "r", ds, 0) == NO_EDGES;
    assert forall n: nat :: Climb(map[], "r", n) != Some("a");
    assert AcceptedAt(ids, "r", ds, 0, "d");
    BothFatesExact(ids, "r", ds, "d");
    assert ds[0].id == ds[1].id == "d";
  }

  /** A genuine relation quarantined as a duplicate of another: IDs that hold the separator make two pairs share a key. */
  lemma {:induction false} PairKeyCollisionExample()
    ensures var ids: set<Id> := {"p", "q\0c", "p\0q", "c"};
            var ds := [Delegation("1", "p", "q\0c"), Delegation("2", "p\0q", "c")];
            && OutcomeAt(ids, "p", ds, 0).Canonical? && OutcomeAt(ids, "p", ds, 1).DuplicateRelation?
            && "2" in Final(ids, "p", ds).quarantined && "c" !in Final(ids, "p", ds).canonicalParent
  {
    var ids: set<Id> := {"p", "q\0c", "p\0q", "c"};
    var d, e := Delegation("1", "p", "q\0c"), Delegation("2", "p\0q", "c");
    var ds := [d, e];
    assert Run(ids, "p", ds, 0) == NO_EDGES;
    assert "p"[0] != "q\0c"[0] && "p\0q"[0] != "c"[0];
    assert forall n: nat :: Climb(map[], "p", n) != Some("q\0c");
    assert OutcomeAt(ids, "p", ds, 0).Canonical?;
    assert "1"[0] != "2"[0];
    assert PairKey("p", "q\0c") == "p\0q\0c" == PairKey("p\0q", "c");
    assert Run(ids, "p", ds, 1) == Advance(NO_EDGES, d, Canonical);
    assert "c"[0] != "q\0c"[0] && "c"[0] != "p"[0];
    assert OutcomeAt(ids, "p", ds, 1) == Classify(ids, "p", Run(ids, "p", ds, 1), e);
  }

  // ---------------------------------------------------------------- what the evidence decides

  /** Evidence for a relation between two known invocations that could stand. */
  predicate Genuine(ids: set<Id>, root: Id, d: Delegation) {
    d.child in ids && d.parent in ids && d.parent != d.child && d.child != root
  }

  /** No earlier delegation has the ID. */
  predicate IsFirst(ds: seq<Delegation>, i: nat)
    requires i < |ds|
  {
    forall j :: 0 <= j < i ==> ds[j].id != ds[i].id
  }

  /** Genuine evidence with the key of the pair. */
  predicate RecordsPair(ids: set<Id>, root: Id, ds: seq<Delegation>, j: int, key: string) {
    0 <= j < |ds| && IsFirst(ds, j) && Genuine(ids, root, ds[j]) && PairKey(ds[j].parent, ds[j].child) == key
  }

  lemma {:induction false} RecordedPairs(ids: set<Id>, root: Id, ds: seq<Delegation>, n: nat, key: string)
    requires n <= |ds|
    ensures key in Run(ids, root, ds, n).seenPairs <==> exists j :: j < n && RecordsPair(ids, root, ds, j, key)
  {
    SeesWhatRecords(ids, root, ds, key);
    Accumulates(Sees(ids, root, ds, key), Records(ids, root, ds, key), n);
    RecordsSomewhere(ids, root, ds, n, key);
  }

  ghost function Sees(ids: set<Id>, root: Id, ds: seq<Delegation>, key: string): nat -> bool {
    (k: nat) => k <= |ds| && key in Run(ids, root, ds, k).seenPairs
  }

  ghost function Records(ids: set<Id>, root: Id, ds: seq<Delegation>, key: string): nat -> bool {
    (k: nat) => RecordsPair(ids, root, ds, k, key)
  }

  ghost predicate FollowsFrom(seen: nat -> bool, adds: nat -> bool, n: nat) {
    !seen(0) && forall k: nat :: k < n ==> (seen(k + 1) <==> seen(k) || adds(k))
  }

  lemma {:induction false} SeesWhatRecords(ids: set<Id>, root: Id, ds: seq<Delegation>, key: string)
    ensures FollowsFrom(Sees(ids, root, ds, key), Records(ids, root, ds, key), |ds|)
  {
    var seen, adds := Sees(ids, root, ds, key), Records(ids, root, ds, key);
    assert !seen(0);
    forall k: nat | k < |ds| ensures seen(k + 1) <==> seen(k) || adds(k) { SeesNext(ids, root, ds, key, k); }
  }

  lemma {:induction false} SeesNext(ids: set<Id>, root: Id, ds: seq<Delegation>, key: string, k: nat)
    requires k < |ds|
    ensures Sees(ids, root, ds, key)(k + 1) <==> Sees(ids, root, ds, key)(k) || Records(ids, root, ds, key)(k)
  {
    PairStepExact(ids, root, ds, k, key);
  }

  lemma {:induction false} RecordsSomewhere(ids: set<Id>, root: Id, ds: seq<Delegation>, n: nat, key: string)
    ensures (exists j: nat :: j < n && Records(ids, root, ds, key)(j))
        <==> exists j :: j < n && RecordsPair(ids, root, ds, j, key)
  {
    var adds := Records(ids, root, ds, key);
    if j: nat :| j < n && adds(j) { assert RecordsPair(ids, root, ds, j, key); }
    if j :| j < n && RecordsPair(ids, root, ds, j, key) { assert adds(j); }
  }

  /** What grows by single additions holds exactly what was added. */
  lemma {:induction false} Accumulates(seen: nat -> bool, adds: nat -> bool, n: nat)
    requires FollowsFrom(seen, adds, n)
    ensures seen(n) <==> exists j: nat :: j < n && adds(j)
  {
    if n > 0 {
      Accumulates(seen, adds, n - 1);
      assert seen(n - 1 + 1) <==> seen(n - 1) || adds(n - 1);
    }
  }

  lemma {:induction false} PairStepExact(ids: set<Id>, root: Id, ds: seq<Delegation>, n: nat, key: string)
    requires n < |ds|
    ensures key in Run(ids, root, ds, n + 1).seenPairs
       <==> key in Run(ids, root, ds, n).seenPairs || RecordsPair(ids, root, ds, n, key)
  {
    DuplicateExact(ids, root, ds, n);
    PairStep(ids, root, ds, n, key);
  }

  lemma {:induction false} PairStep(ids: set<Id>, root: Id, ds: seq<Delegation>, n: nat, key: string)
    requires n < |ds|
    ensures var st, next := Run(ids, root, ds, n), Run(ids, root, ds, n + 1);
            key in next.seenPairs <==>
              || key in st.seenPairs
              || (!OutcomeAt(ids, root, ds, n).DuplicateDelegation? && Genuine(ids, root, ds[n])
                  && PairKey(ds[n].parent, ds[n].child) == key)
  {
    assert Run(ids, root, ds, n + 1) == Advance(Run(ids, root, ds, n), ds[n], OutcomeAt(ids, root, ds, n));
  }

  /** The first delegation of an ID whose pair no earlier one has recorded. */
  ghost predicate NewRelation(ids: set<Id>, root: Id, ds: seq<Delegation>, i: nat)
    requires i < |ds|
  {
    && IsFirst(ds, i) && Genuine(ids, root, ds[i])
    && forall j :: j < i ==> !RecordsPair(ids, root, ds, j, PairKey(ds[i].parent, ds[i].child))
  }

  /** An earlier delegation gave the child its parent. */
  ghost predicate ChildTaken(ids: set<Id>, root: Id, ds: seq<Delegation>, i: nat)
    requires i < |ds|
  {
    exists j :: j < i && CanonicalAt(ids, root, ds, j, ds[i].child)
  }

  /** The final relation tells whether the edge would have closed a cycle when it was looked at. */
  lemma {:induction false} CycleByFinalRelation(ids: set<Id>, root: Id, ds: seq<Delegation>, i: nat)
    requires i < |ds| && (OutcomeAt(ids, root, ds, i).Cycle? || OutcomeAt(ids, root, ds, i).Canonical?)
    ensures OutcomeAt(ids, root, ds, i).Cycle?
        <==> AncestorOrSelf(Final(ids, root, ds).parentChain, ds[i].child, ds[i].parent)
  {
    if OutcomeAt(ids, root, ds, i).Cycle? {
      CycleVerdictIsFinal(ids, root, ds, i);
    } else {
      assert CanonicalAt(ids, root, ds, i, ds[i].child);
      AcceptedStaysLinked(ids, root, ds, i, |ds|, ds[i].child);
      RunKeepsForest(ids, root, ds, |ds|);
      LinkedIsNoAncestor(Final(ids, root, ds).parentChain, ds[i].child);
    }
  }

  /** In a forest a child is not above its own parent. */
  lemma {:induction false} LinkedIsNoAncestor(chain: Chain, child: Id)
    requires Grounded(chain) && child in chain
    ensures !AncestorOrSelf(chain, child, chain[child])
  {
    if AncestorOrSelf(chain, child, chain[child]) {
      var n: nat :| Climb(chain, chain[child], n) == Some(child);
      GroundedHasNoCycle(chain, child, n + 1);
    }
  }

  /** What each issue says about the evidence. A known child whose parent is unknown is a missing parent and nothing
      else; an unknown child comes before all other findings but a repeated ID. */
  lemma {:induction false} VerdictByEvidence(ids: set<Id>, root: Id, ds: seq<Delegation>, i: nat)
    requires i < |ds|
    ensures var o, d := OutcomeAt(ids, root, ds, i), ds[i];
            && (o.DuplicateDelegation? <==> !IsFirst(ds, i))
            && (IsFirst(ds, i) ==>
                  && (o.UnknownChild? <==> d.child !in ids)
                  && (o.SelfLink? <==> d.child in ids && d.parent == d.child)
                  && (o.RootHasParent? <==> d.child in ids && d.parent != d.child && d.child == root)
                  && (o.MissingParent? <==> d.child in ids - {root} && d.parent !in ids)
                  && (o.DuplicateRelation? <==> Genuine(ids, root, d) && !NewRelation(ids, root, ds, i)))
            && (o.MultipleParents? <==> NewRelation(ids, root, ds, i) && ChildTaken(ids, root, ds, i))
            && (NewRelation(ids, root, ds, i) && !ChildTaken(ids, root, ds, i) ==>
                  if AncestorOrSelf(Final(ids, root, ds).parentChain, d.child, d.parent) then o.Cycle? else o.Canonical?)
  {
    DuplicateExact(ids, root, ds, i);
    RecordedPairs(ids, root, ds, i, PairKey(ds[i].parent, ds[i].child));
    LinkedExact(ids, root, ds, i, ds[i].child);
    var o := OutcomeAt(ids, root, ds, i);
    if o.Cycle? || o.Canonical? { CycleByFinalRelation(ids, root, ds, i); }
  }

  // ---------------------------------------------------------------- the projection

  ghost function SortedElements(s: set<Id>): (r: seq<Id>)
    ensures multiset(r) == multiset(s)
    ensures Sorted(LexLe, r)
  {
    if s == {} then []
    else
      var x :| x in s;
      LexLeTotal();
      InsertSorted(LexLe, x, SortedElements(s - {x}));
      assert multiset(s) == multiset(s - {x}) + multiset{x};
      Insert(LexLe, x, SortedElements(s - {x}))
  }

  ghost function IdSet(g: Graph): set<Id> {
    set id | id in g.invocations
  }

  ghost function RootOfGraph(g: Graph): Id {
    var root := Identity.RootInvocationId(g.rootAgentType, g.rootSessionId);
    if root in g.invocations then root else ""
  }

  ghost function EdgesOf(g: Graph): EdgeState {
    Final(IdSet(g), RootOfGraph(g), Sort(BeforeOrEqual, g.delegations))
  }

  ghost function UnlinkedOf(g: Graph): set<Id> {
    IdSet(g) - {RootOfGraph(g)} - EdgesOf(g).canonicalParent.Keys
  }

  ghost function ProjectionOf(g: Graph): Projection {
    Projection(RootOfGraph(g), EdgesOf(g).canonicalParent,
               SortedElements(UnlinkedOf(g)), SortedElements(EdgesOf(g).quarantined))
  }

  /** The projection is a function of the evidence alone: reordering (or repeating) invocations and
      reordering delegations changes nothing. */
  lemma {:induction false} ProjectionIgnoresOrder(g: Graph, h: Graph)
    requires g.rootAgentType == h.rootAgentType && g.rootSessionId == h.rootSessionId
    requires IdSet(g) == IdSet(h)
    requires multiset(g.delegations) == multiset(h.delegations)
    ensures ProjectionOf(g) == ProjectionOf(h)
  {
    BeforeTotal();
    SortOfPermutation(BeforeOrEqual, g.delegations, h.delegations);
    var root := Identity.RootInvocationId(g.rootAgentType, g.rootSessionId);
    assert root in g.invocations <==> root in IdSet(g);
    assert root in h.invocations <==> root in IdSet(h);
  }

  ghost predicate Rooted(g: Graph) {
    Identity.RootInvocationId(g.rootAgentType, g.rootSessionId) in g.invocations
  }

  /** Root, linked and unlinked invocations are disjoint, and they cover all invocations unless the
      graph has no root and one invocation has the empty ID, which then stands for that root. */
  lemma {:induction false} InvocationsPartitioned(g: Graph)
    ensures var p := ProjectionOf(g);
            && (forall x :: x in p.canonicalParent || x in p.unlinked ==> x in IdSet(g) && (Rooted(g) ==> x != p.rootId))
            && (forall x :: x in p.canonicalParent ==> x !in p.unlinked)
            && ((forall x :: x in IdSet(g) ==> (Rooted(g) && x == p.rootId) || x in p.canonicalParent || x in p.unlinked)
                <==> Rooted(g) || "" !in IdSet(g))
  {
    var ds := Sort(BeforeOrEqual, g.delegations);
    RunKeepsForest(IdSet(g), RootOfGraph(g), ds, |ds|);
    SortedElementsCover(UnlinkedOf(g));
  }

  /** A graph without a root whose one invocation has the empty ID: it is neither linked nor unlinked nor the root. */
  lemma {:induction false} EmptyIdIsNowhere()
    ensures var g := Graph("agent", "session", [""], []); var p := ProjectionOf(g);
            !Rooted(g) && "" in IdSet(g) && "" !in p.canonicalParent && "" !in p.unlinked
  {
    var g := Graph("agent", "session", [""], []);
    assert Identity.RootInvocationId("agent", "session") != "";
    InvocationsPartitioned(g);
    assert "" in g.invocations && forall x :: x in IdSet(g) ==> x == "";
  }

  lemma {:induction false} SortKeepsDistinctIds(delegations: seq<Delegation>)
    requires DistinctIds(delegations)
    ensures DistinctIds(Sort(BeforeOrEqual, delegations))
  {
    var ds := Sort(BeforeOrEqual, delegations);
    MemberOfMultiset(ds, delegations);
    forall i, j | 0 <= i < j < |ds|
      ensures ds[i].id != ds[j].id
    {
      assert ds[i] in delegations && ds[j] in delegations;
      RepeatCounts(ds, i, j);
      CountedOnce(delegations, ds[i]);
    }
  }

  /** With distinct IDs the delegations are looked at in the order of their IDs. */
  lemma {:induction false} EarlierById(delegations: seq<Delegation>, i: nat, j: nat)
    requires DistinctIds(delegations) && i < |delegations| && j < |delegations|
    ensures |Sort(BeforeOrEqual, delegations)| == |delegations|
    ensures var ds := Sort(BeforeOrEqual, delegations); i < j <==> LexLess(ds[i].id, ds[j].id)
  {
    var ds := Sort(BeforeOrEqual, delegations);
    MemberOfMultiset(ds, delegations);
    LexTrichotomy(ds[i].id, ds[j].id);
    if i < j { AscendsById(delegations, i, j); }
    if j < i { AscendsById(delegations, j, i); }
  }

  lemma {:induction false} AscendsById(delegations: seq<Delegation>, i: nat, j: nat)
    requires DistinctIds(delegations) && i < j < |Sort(BeforeOrEqual, delegations)|
    ensures var ds := Sort(BeforeOrEqual, delegations); LexLess(ds[i].id, ds[j].id)
  {
    var ds := Sort(BeforeOrEqual, delegations);
    SortKeepsDistinctIds(delegations);
    BeforeTotal();
    SortSorted(BeforeOrEqual, delegations);
    assert ds[i].id != ds[j].id && BeforeOrEqual(ds[i], ds[j]);
  }

  /** Another delegation with a smaller ID is genuine evidence for the same pair. */
  ghost predicate RepeatsPair(g: Graph, d: Delegation) {
    exists e :: e in g.delegations && Genuine(IdSet(g), RootOfGraph(g), e) && LexLess(e.id, d.id)
                && PairKey(e.parent, e.child) == PairKey(d.parent, d.child)
  }

  /** Another delegation with a smaller ID is the canonical one of the child. */
  ghost predicate ChildLinkedEarlier(g: Graph, d: Delegation) {
    && d.child in ProjectionOf(g).canonicalParent
    && exists e :: e in g.delegations && e.id == ProjectionOf(g).canonicalParent[d.child] && LexLess(e.id, d.id)
  }

  /** With distinct delegation IDs the evidence alone decides what becomes of a delegation. An unknown child, a link to
      itself and a parent for the root are quarantined; a known child whose parent is unknown leaves no trace; of several
      delegations for one pair all but the one with the least ID are quarantined; a second parent leaves no trace; what is
      left is canonical, unless its child is above its parent in the final relation, and then it is quarantined. */
  lemma {:induction false} FateByEvidence(g: Graph, d: Delegation)
    requires d in g.delegations && DistinctIds(g.delegations)
    ensures var p, ids, root := ProjectionOf(g), IdSet(g), RootOfGraph(g);
            var canonical, quarantined := d.id in p.canonicalParent.Values, d.id in p.quarantined;
            && (d.child !in ids || d.parent == d.child || d.child == root ==> !canonical && quarantined)
            && (d.child in ids - {root} && d.parent !in ids ==> !canonical && !quarantined)
            && (Genuine(ids, root, d) ==>
                  if RepeatsPair(g, d) then !canonical && quarantined
                  else if ChildLinkedEarlier(g, d) then !canonical && !quarantined
                  else if AncestorOrSelf(EdgesOf(g).parentChain, d.child, d.parent) then !canonical && quarantined
                  else canonical && !quarantined)
  {
    var ids, root, ds := IdSet(g), RootOfGraph(g), Sort(BeforeOrEqual, g.delegations);
    MemberOfMultiset(ds, g.delegations);
    var i :| 0 <= i < |ds| && ds[i] == d;
    SortKeepsDistinctIds(g.delegations);
    SortedElementsCover(EdgesOf(g).quarantined);
    OneFatePerDelegation(ids, root, ds, i);
    VerdictByEvidence(ids, root, ds, i);
    EarlierPair(g, i);
    EarlierLink(g, i);
  }

  lemma {:induction false} EarlierPair(g: Graph, i: nat)
    requires DistinctIds(g.delegations) && i < |g.delegations|
    ensures var ids, root, ds := IdSet(g), RootOfGraph(g), Sort(BeforeOrEqual, g.delegations);
            && |ds| == |g.delegations|
            && (Genuine(ids, root, ds[i]) ==> (NewRelation(ids, root, ds, i) <==> !RepeatsPair(g, ds[i])))
  {
    var ids, root, ds := IdSet(g), RootOfGraph(g), Sort(BeforeOrEqual, g.delegations);
    MemberOfMultiset(ds, g.delegations);
    SortKeepsDistinctIds(g.delegations);
    var key := PairKey(ds[i].parent, ds[i].child);
    forall j: nat | j < |ds|
      ensures j < i <==> LexLess(ds[j].id, ds[i].id)
      ensures RecordsPair(ids, root, ds, j, key)
          <==> Genuine(ids, root, ds[j]) && PairKey(ds[j].parent, ds[j].child) == key
    {
      EarlierById(g.delegations, j, i);
    }
    if RepeatsPair(g, ds[i]) {
      var e :| e in g.delegations && Genuine(ids, root, e) && LexLess(e.id, ds[i].id) && PairKey(e.parent, e.child) == key;
      var j :| 0 <= j < |ds| && ds[j] == e;
      assert RecordsPair(ids, root, ds, j, key);
    }
    assert forall j :: j < i && RecordsPair(ids, root, ds, j, key) ==> ds[j] in g.delegations;
  }

  lemma {:induction false} EarlierLink(g: Graph, i: nat)
    requires DistinctIds(g.delegations) && i < |g.delegations|
    ensures var ids, root, ds := IdSet(g), RootOfGraph(g), Sort(BeforeOrEqual, g.delegations);
            && |ds| == |g.delegations|
            && (ChildTaken(ids, root, ds, i) <==> ChildLinkedEarlier(g, ds[i]))
  {
    var ids, root, ds := IdSet(g), RootOfGraph(g), Sort(BeforeOrEqual, g.delegations);
    MemberOfMultiset(ds, g.delegations);
    SortKeepsDistinctIds(g.delegations);
    LinkedExact(ids, root, ds, |ds|, ds[i].child);
    if ChildTaken(ids, root, ds, i) {
      var j :| j < i && CanonicalAt(ids, root, ds, j, ds[i].child);
      EarlierById(g.delegations, j, i);
      assert ds[j] in g.delegations;
    }
    if ChildLinkedEarlier(g, ds[i]) {
      var j :| j < |ds| && CanonicalAt(ids, root, ds, j, ds[i].child);
      var e :| e in g.delegations && e.id == ds[j].id && LexLess(e.id, ds[i].id);
      EarlierById(g.delegations, j, i);
    }
  }

  /** The relation that decides about cycles is that of the canonical delegations. */
  lemma {:induction false} CanonicalIsRelation(g: Graph, c: Id)
    ensures c in EdgesOf(g).parentChain <==> c in ProjectionOf(g).canonicalParent
    ensures c in ProjectionOf(g).canonicalParent ==>
              exists d :: d in g.delegations && d.child == c && d.id == ProjectionOf(g).canonicalParent[c]
                          && d.parent == EdgesOf(g).parentChain[c]
  {
    var ids, root, ds := IdSet(g), RootOfGraph(g), Sort(BeforeOrEqual, g.delegations);
    RunKeepsForest(ids, root, ds, |ds|);
    LinkedExact(ids, root, ds, |ds|, c);
    MemberOfMultiset(ds, g.delegations);
    if c in ProjectionOf(g).canonicalParent {
      var j :| j < |ds| && CanonicalAt(ids, root, ds, j, c);
      assert ds[j] in g.delegations;
    }
  }

  /** A delegation whose parent was never captured: the child stays unlinked, nothing is quarantined. */
  lemma {:induction false} LoneMissingParent(g: Graph, d: Delegation)
    requires g.delegations == [d] && d.child in IdSet(g) - {RootOfGraph(g)} && d.parent !in IdSet(g)
    ensures var p := ProjectionOf(g); p.canonicalParent == map[] && d.child in p.unlinked && d.id !in p.quarantined
  {
    FateByEvidence(g, d);
    forall c
      ensures c !in ProjectionOf(g).canonicalParent
    {
      CanonicalIsRelation(g, c);
    }
    SortedElementsCover(UnlinkedOf(g));
  }

  lemma {:induction false} MissingParentExample()
    ensures var p := ProjectionOf(Graph("agent", "session", ["a"], [Delegation("d", "gone", "a")]));
            "a" in p.unlinked && "d" !in p.quarantined && p.canonicalParent == map[]
  {
    var d := Delegation("d", "gone", "a");
    var g := Graph("agent", "session", ["a"], [d]);
    assert g.invocations[0] == "a" && forall x :: x in IdSet(g) <==> x == "a";
    assert |"gone"| != |"a"| && RootOfGraph(g) != "a";
    LoneMissingParent(g, d);
  }

  lemma {:induction false} SortedElementsCover(s: set<Id>)
    ensures forall x :: x in SortedElements(s) <==> x in s
  {
    forall x
      ensures x in SortedElements(s) <==> x in s
    {
      assert x in SortedElements(s) <==> x in multiset(SortedElements(s));
    }
  }

  /** With non-empty IDs, every invocation climbs to the root or to an unlinked invocation. */
  lemma {:induction false} EveryChainEndsAtRootOrUnlinked(g: Graph, x: Id) returns (top: Id, height: nat)
    requires x in IdSet(g) && "" !in IdSet(g)
    ensures Climb(EdgesOf(g).parentChain, x, height) == Some(top)
    ensures top == ProjectionOf(g).rootId || top in ProjectionOf(g).unlinked
  {
    top, height := ChainsEndAtParentless(IdSet(g), RootOfGraph(g), Sort(BeforeOrEqual, g.delegations), x);
    var ds := Sort(BeforeOrEqual, g.delegations);
    RunKeepsForest(IdSet(g), RootOfGraph(g), ds, |ds|);
    SortedElementsCover(UnlinkedOf(g));
  }

  // ---------------------------------------------------------------- the loop

  /** Map iteration order is arbitrary; sorting hides it. */
  method SortedIds(s: set<Id>) returns (r: seq<Id>)
    ensures r == SortedElements(s)
  {
    var collected: seq<Id> := [];
    var rest := s;
    while rest != {}
      invariant multiset(collected) + multiset(rest) == multiset(s)
      decreases rest
    {
      var id :| id in rest;
      assert multiset(rest) == multiset(rest - {id}) + multiset{id};
      collected := collected + [id];
      rest := rest - {id};
    }
    r := Sort(LexLe, collected);
    LexLeTotal();
    SortSorted(LexLe, collected);
    SortedUnique(LexLe, r, SortedElements(s));
  }

  /** The first invocation with an ID is kept. */
  method IndexInvocations(invocations: seq<Id>) returns (invById: map<Id, nat>)
    ensures forall id :: id in invById <==> id in invocations
    ensures forall id :: id in invById ==>
              && invById[id] < |invocations| && invocations[invById[id]] == id
              && id !in invocations[..invById[id]]
  {
    invById := map[];
    for i := 0 to |invocations|
      invariant forall id :: id in invById <==> id in invocations[..i]
      invariant forall id :: id in invById ==>
                  && invById[id] < i && invocations[invById[id]] == id
                  && id !in invocations[..invById[id]]
    {
      var inv := invocations[i];
      if inv !in invById { invById := invById[inv := i]; }
    }
  }

  method Validate(g: Graph) returns (v: Projection, outcomes: seq<Outcome>)
    ensures v == ProjectionOf(g)
    ensures |outcomes| == |g.delegations| == |Sort(BeforeOrEqual, g.delegations)|
    ensures forall i :: 0 <= i < |outcomes| ==>
              outcomes[i] == OutcomeAt(IdSet(g), RootOfGraph(g), Sort(BeforeOrEqual, g.delegations), i)
  {
    var invById := IndexInvocations(g.invocations);
    var ids := invById.Keys;
    assert ids == IdSet(g);
    var rootId := Identity.RootInvocationId(g.rootAgentType, g.rootSessionId);
    var root := if rootId in invById then rootId else "";
    var sorted := Sort(BeforeOrEqual, g.delegations);
    MemberOfMultiset(sorted, g.delegations);
    var canonical, quarantined;
    outcomes, canonical, quarantined := ProjectEdges(ids, root, sorted);
    var unlinked := SortedIds(ids - {root} - canonical.Keys);
    var quarantinedIds := SortedIds(quarantined);
    v := Projection(root, canonical, unlinked, quarantinedIds);
  }

  /** The edge loop over the sorted delegations. */
  method ProjectEdges(ids: set<Id>, root: Id, sorted: seq<Delegation>)
    returns (outcomes: seq<Outcome>, canonical: map<Id, Id>, quarantined: set<Id>)
    ensures canonical == Final(ids, root, sorted).canonicalParent
    ensures quarantined == Final(ids, root, sorted).quarantined
    ensures |outcomes| == |sorted|
    ensures forall k :: 0 <= k < |sorted| ==> outcomes[k] == OutcomeAt(ids, root, sorted, k)
  {
    var seenIds: set<Id> := {};
    var seenPairs: map<string, Id> := map[];
    var parentChain: Chain := map[];
    outcomes, canonical, quarantined := [], map[], {};
    for i := 0 to |sorted|
      invariant |outcomes| == i
      invariant EdgeState(seenIds, seenPairs, parentChain, quarantined, canonical) == Run(ids, root, sorted, i)
      invariant forall k :: 0 <= k < i ==> outcomes[k] == OutcomeAt(ids, root, sorted, k)
    {
      var d := sorted[i];
      RunKeepsForest(ids, root, sorted, i);
      var o := Canonical;
      if d.id in seenIds {
        o := DuplicateDelegation;
      } else {
        seenIds := seenIds + {d.id};
        if d.child !in ids {
          o := UnknownChild;
        } else if d.parent == d.child {
          o := SelfLink;
        } else if d.child == root {
          o := RootHasParent;
        } else if d.parent !in ids {
          o := MissingParent;
        } else if PairKey(d.parent, d.child) in seenPairs {
          o := DuplicateRelation;
        } else {
          seenPairs := seenPairs[PairKey(d.parent, d.child) := d.id];
          if d.child in canonical {
            o := MultipleParents;
          } else {
            var closes := CreatesCycle(parentChain, d.parent, d.child);
            if closes {
              o := Cycle;
            } else {
              parentChain := parentChain[d.child := d.parent];
              canonical := canonical[d.child := d.id];
            }
          }
        }
      }
      if Quarantines(o) { quarantined := quarantined + {d.id}; }
      outcomes := outcomes + [o];
    }
  }
}
