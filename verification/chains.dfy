/** Child-to-parent chains: climbing, ancestry and the cycle test of
    internal/collaboration/validate.go. */
module Chains {
  import opened Wrappers

  type Id = string
  type Chain = map<Id, Id>

  /** The ancestor n steps above x, if the chain is that long. */
  ghost function Climb(chain: Chain, x: Id, n: nat): Option<Id>
    decreases n
  {
    if n == 0 then Some(x)
    else if x in chain then Climb(chain, chain[x], n - 1)
    else None
  }

  ghost predicate Ends(chain: Chain, x: Id) {
    exists n: nat :: Climb(chain, x, n).None?
  }

  /** A forest: every climb leaves it after finitely many steps. */
  ghost predicate Grounded(chain: Chain) {
    forall x :: Ends(chain, x)
  }

  ghost predicate AncestorOrSelf(chain: Chain, a: Id, x: Id) {
    exists n: nat :: Climb(chain, x, n) == Some(a)
  }

  lemma {:induction false} ClimbAdd(chain: Chain, x: Id, m: nat, n: nat)
    ensures Climb(chain, x, m + n)
         == if Climb(chain, x, m).None? then None else Climb(chain, Climb(chain, x, m).value, n)
    decreases m
  {
    if m > 0 && x in chain { ClimbAdd(chain, chain[x], m - 1, n); }
  }

  lemma {:induction false} ClimbStaysEnded(chain: Chain, x: Id, m: nat, n: nat)
    requires m <= n && Climb(chain, x, m).None?
    ensures Climb(chain, x, n).None?
  {
    ClimbAdd(chain, x, m, n - m);
  }

  /** A climb that returns to its start never ends. */
  lemma {:induction false} ReturnNeverEnds(chain: Chain, x: Id, period: nat, n: nat)
    requires 0 < period && Climb(chain, x, period) == Some(x)
    ensures Climb(chain, x, n).Some?
    decreases n
  {
    if n < period {
      if Climb(chain, x, n).None? { ClimbStaysEnded(chain, x, n, period); }
    } else {
      ReturnNeverEnds(chain, x, period, n - period);
      ClimbAdd(chain, x, period, n - period);
    }
  }

  /** In a forest nothing is its own proper ancestor. */
  lemma {:induction false} GroundedHasNoCycle(chain: Chain, x: Id, n: nat)
    requires Grounded(chain) && Climb(chain, x, n) == Some(x)
    ensures n == 0
  {
    if n > 0 {
      assert Ends(chain, x);
      var e: nat :| Climb(chain, x, e).None?;
      ReturnNeverEnds(chain, x, n, e);
      assert false;
    }
  }

  /** A longer chain keeps every climb of a shorter one. */
  lemma {:induction false} ClimbMonotone(small: Chain, large: Chain, x: Id, n: nat)
    requires forall k :: k in small ==> k in large && large[k] == small[k]
    requires Climb(small, x, n).Some?
    ensures Climb(large, x, n) == Climb(small, x, n)
    decreases n
  {
    if n > 0 { ClimbMonotone(small, large, small[x], n - 1); }
  }

  lemma {:induction false} AncestorMonotone(small: Chain, large: Chain, a: Id, x: Id)
    requires forall k :: k in small ==> k in large && large[k] == small[k]
    requires AncestorOrSelf(small, a, x)
    ensures AncestorOrSelf(large, a, x)
  {
    var n: nat :| Climb(small, x, n) == Some(a);
    ClimbMonotone(small, large, x, n);
  }

  /** Until the new edge is reached, the climb is the old one. */
  lemma {:induction false} ClimbAfterLink(chain: Chain, linked: Chain, parent: Id, child: Id, x: Id, n: nat)
    requires child !in chain && linked == chain[child := parent]
    requires Climb(chain, x, n).None?
    ensures Climb(linked, x, n).None? || AncestorOrSelf(linked, child, x)
    decreases n
  {
    if x == child {
      assert Climb(linked, x, 0) == Some(child);
    } else if x in chain {
      ClimbAfterLink(chain, linked, parent, child, chain[x], n - 1);
      if !Climb(linked, x, n).None? {
        var m: nat :| Climb(linked, chain[x], m) == Some(child);
        assert Climb(linked, x, m + 1) == Some(child);
      }
    }
  }

  /** A climb that never meets the child does not see the new edge. */
  lemma {:induction false} ClimbAvoidsLink(chain: Chain, parent: Id, child: Id, x: Id, n: nat)
    requires child !in chain && !AncestorOrSelf(chain, child, x)
    ensures Climb(chain[child := parent], x, n) == Climb(chain, x, n)
    decreases n
  {
    assert Climb(chain, x, 0) == Some(x);
    if n > 0 && x in chain {
      assert forall m: nat :: Climb(chain, chain[x], m) == Climb(chain, x, m + 1);
      ClimbAvoidsLink(chain, parent, child, chain[x], n - 1);
    }
  }

  /** Linking a parentless child keeps the forest exactly when the child is not an ancestor of, or
      equal to, its new parent: the question the cycle test answers. */
  lemma {:induction false} LinkKeepsForest(chain: Chain, parent: Id, child: Id)
    requires Grounded(chain) && child !in chain
    ensures Grounded(chain[child := parent]) <==> !AncestorOrSelf(chain, child, parent)
  {
    var linked := chain[child := parent];
    if AncestorOrSelf(chain, child, parent) {
      var n: nat :| Climb(chain, parent, n) == Some(child);
      ClimbMonotone(chain, linked, parent, n);
      assert Climb(linked, child, n + 1) == Some(child);
      if Grounded(linked) { GroundedHasNoCycle(linked, child, n + 1); }
    } else {
      assert Ends(chain, parent);
      var e: nat :| Climb(chain, parent, e).None?;
      ClimbAvoidsLink(chain, parent, child, parent, e);
      assert Climb(linked, child, e + 1).None?;
      forall x
        ensures Ends(linked, x)
      {
        assert Ends(chain, x);
        var n: nat :| Climb(chain, x, n).None?;
        ClimbAfterLink(chain, linked, parent, child, x, n);
        if !Climb(linked, x, n).None? {
          var m: nat :| Climb(linked, x, m) == Some(child);
          ClimbAdd(linked, x, m, e + 1);
        }
      }
    }
  }

  /** In a forest every node has a topmost ancestor. */
  lemma {:induction false} TopExists(chain: Chain, x: Id, n: nat) returns (top: Id, height: nat)
    requires Climb(chain, x, n).None?
    ensures top !in chain && Climb(chain, x, height) == Some(top)
    decreases n
  {
    if x !in chain {
      top, height := x, 0;
    } else {
      var h;
      top, h := TopExists(chain, chain[x], n - 1);
      height := h + 1;
    }
  }

  /** The cycle test: walk up from the parent until the child or the top is met. Its loop has no
      bound of its own; it stops because the chain built so far is a forest. */
  method CreatesCycle(parentChain: Chain, parent: Id, child: Id) returns (closes: bool)
    requires Grounded(parentChain)
    ensures closes <==> AncestorOrSelf(parentChain, child, parent)
  {
    assert Ends(parentChain, parent);
    ghost var end: nat :| Climb(parentChain, parent, end).None?;
    ghost var n: nat := 0;
    var cur := parent;
    while true
      invariant n < end && Climb(parentChain, parent, n) == Some(cur)
      invariant forall i: nat | i < n :: Climb(parentChain, parent, i) != Some(child)
      decreases end - n
    {
      if cur == child { return true; }
      ClimbAdd(parentChain, parent, n, 1);
      if cur !in parentChain {
        forall i: nat
          ensures Climb(parentChain, parent, i) != Some(child)
        {
          if i > n { ClimbStaysEnded(parentChain, parent, n + 1, i); }
        }
        return false;
      }
      cur := parentChain[cur];
      n := n + 1;
    }
  }
}
