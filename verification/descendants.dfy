/** The `descendants` query: the transitive child-of closure of a node set,
    computed by expanding a frontier until it is empty or adds nothing new. */
module Descendants {
  import opened TreeNodes

  /** Nodes exactly `k` child steps below some node of `s`. */
  function Frontier<N(==,!new)>(g: ChildRelation<N>, s: set<N>, k: nat): set<N>
  {
    if k == 0 then s else Children(g, Frontier(g, s, k - 1))
  }

  /** Nodes between 1 and `k` child steps below some node of `s`. */
  function Covered<N(==,!new)>(g: ChildRelation<N>, s: set<N>, k: nat): set<N>
  {
    if k == 0 then {} else Covered(g, s, k - 1) + Frontier(g, s, k)
  }

  /** `p` walks the tree downwards, one child step at a time. */
  ghost predicate IsChain<N(!new)>(g: ChildRelation<N>, p: seq<N>)
  {
    forall i :: 0 <= i < |p| - 1 ==> (p[i], p[i + 1]) in g
  }

  /** `x` is reached from some node of `s` by one or more child steps. */
  ghost predicate IsDescendant<N(!new)>(g: ChildRelation<N>, s: set<N>, x: N)
  {
    exists p :: |p| >= 2 && p[0] in s && p[|p| - 1] == x && IsChain(g, p)
  }

  /** Every node of the k-th frontier ends a chain of k steps from `s`. */
  lemma {:induction false} FrontierHasChain<N(!new)>(g: ChildRelation<N>, s: set<N>, k: nat, x: N)
    requires x in Frontier(g, s, k)
    ensures exists p :: |p| == k + 1 && p[0] in s && p[k] == x && IsChain(g, p)
  {
    if k == 0 {
      assert IsChain(g, [x]);
    } else {
      var y :| y in Frontier(g, s, k - 1) && (y, x) in g;
      FrontierHasChain(g, s, k - 1, y);
      var q :| |q| == k && q[0] in s && q[k - 1] == y && IsChain(g, q);
      var p := q + [x];
      assert IsChain(g, p) by {
        forall i | 0 <= i < |p| - 1
          ensures (p[i], p[i + 1]) in g
        {
          if i < k - 1 {
            assert p[i] == q[i] && p[i + 1] == q[i + 1];
          }
        }
      }
      assert p[0] == q[0] && p[k] == x;
    }
  }

  /** The end of a chain of n steps from `s` is in the n-th frontier. */
  lemma {:induction false} ChainInFrontier<N(!new)>(g: ChildRelation<N>, s: set<N>, p: seq<N>)
    requires |p| >= 1 && p[0] in s && IsChain(g, p)
    ensures p[|p| - 1] in Frontier(g, s, |p| - 1)
  {
    if |p| > 1 {
      var q := p[..|p| - 1];
      assert IsChain(g, q) by {
        forall i | 0 <= i < |q| - 1
          ensures (q[i], q[i + 1]) in g
        {
          assert q[i] == p[i] && q[i + 1] == p[i + 1];
        }
      }
      ChainInFrontier(g, s, q);
      assert (p[|p| - 2], p[|p| - 1]) in g;
    }
  }

  /** Covered(k) holds frontiers 1 to k. */
  lemma {:induction false} FrontierInCovered<N(!new)>(g: ChildRelation<N>, s: set<N>, j: nat, k: nat)
    requires 1 <= j <= k
    ensures Frontier(g, s, j) <= Covered(g, s, k)
  {
    if j < k {
      FrontierInCovered(g, s, j, k - 1);
    }
  }

  /** Everything in Covered(k) is a descendant. */
  lemma {:induction false} CoveredAreDescendants<N(!new)>(g: ChildRelation<N>, s: set<N>, k: nat, x: N)
    requires x in Covered(g, s, k)
    ensures IsDescendant(g, s, x)
  {
    if x in Covered(g, s, k - 1) {
      CoveredAreDescendants(g, s, k - 1, x);
    } else {
      FrontierHasChain(g, s, k, x);
    }
  }

  /** One child step from the first k frontiers lands in the first k + 1. */
  lemma {:induction false} ChildrenOfCovered<N(!new)>(g: ChildRelation<N>, s: set<N>, k: nat)
    ensures Children(g, Covered(g, s, k)) <= Covered(g, s, k + 1)
  {
    if k > 0 {
      ChildrenOfCovered(g, s, k - 1);
      forall c | c in Children(g, Covered(g, s, k))
        ensures c in Covered(g, s, k + 1)
      {
        var p :| p in Covered(g, s, k) && (p, c) in g;
        if p in Covered(g, s, k - 1) {
          assert c in Children(g, Covered(g, s, k - 1));
        } else {
          assert c in Frontier(g, s, k + 1);
        }
      }
    }
  }

  /** Once frontier k adds nothing to frontiers 1 to k - 1, no later frontier does:
      the early stop loses nothing. */
  lemma {:induction false} StallCoversLater<N(!new)>(g: ChildRelation<N>, s: set<N>, k: nat, j: nat)
    requires 1 <= k <= j
    requires Frontier(g, s, k) <= Covered(g, s, k - 1)
    ensures Frontier(g, s, j) <= Covered(g, s, k - 1)
  {
    if j > k {
      StallCoversLater(g, s, k, j - 1);
      ChildrenOfCovered(g, s, k - 1);
      assert Covered(g, s, k) == Covered(g, s, k - 1);
    }
  }

  /** When frontier k is already covered (in particular when it is empty), the
      first k - 1 frontiers are exactly the descendants. */
  lemma {:induction false} StallIsComplete<N(!new)>(g: ChildRelation<N>, s: set<N>, k: nat)
    requires 1 <= k
    requires Frontier(g, s, k) <= Covered(g, s, k - 1)
    ensures forall x :: x in Covered(g, s, k - 1) <==> IsDescendant(g, s, x)
  {
    forall x
      ensures x in Covered(g, s, k - 1) <==> IsDescendant(g, s, x)
    {
      if x in Covered(g, s, k - 1) {
        CoveredAreDescendants(g, s, k - 1, x);
      }
      if IsDescendant(g, s, x) {
        var p :| |p| >= 2 && p[0] in s && p[|p| - 1] == x && IsChain(g, p);
        ChainInFrontier(g, s, p);
        if |p| - 1 < k {
          FrontierInCovered(g, s, |p| - 1, k - 1);
        } else {
          StallCoversLater(g, s, k, |p| - 1);
        }
      }
    }
  }

  /** The query itself. `addAll` reports whether it changed the accumulator;
      the loop stops when the frontier is empty or when it did not. */
  method Execute<N(==,!new)>(g: ChildRelation<N>, input: set<N>) returns (descendants: set<N>)
    ensures forall x :: x in descendants <==> IsDescendant(g, input, x)
    ensures descendants <= Targets(g)
  {
    descendants := {};
    var children := Children(g, input);
    ghost var k: nat := 1;
    while children != {}
      invariant 1 <= k
      invariant children == Frontier(g, input, k)
      invariant descendants == Covered(g, input, k - 1)
      invariant descendants <= Targets(g)
      decreases Targets(g) - descendants
    {
      var added := !(children <= descendants);
      descendants := descendants + children;
      if !added {
        StallIsComplete(g, input, k);
        break;
      }
      children := Children(g, children);
      k := k + 1;
    }
    if children == {} {
      StallIsComplete(g, input, k);
    }
  }

  /** The descendants are closed under the child step. */
  lemma DescendantsClosed<N(!new)>(g: ChildRelation<N>, s: set<N>, x: N, y: N)
    requires IsDescendant(g, s, x) && (x, y) in g
    ensures IsDescendant(g, s, y)
  {
    var p :| |p| >= 2 && p[0] in s && p[|p| - 1] == x && IsChain(g, p);
    var q := p + [y];
    assert IsChain(g, q) by {
      forall i | 0 <= i < |q| - 1
        ensures (q[i], q[i + 1]) in g
      {
        if i < |p| - 1 {
          assert q[i] == p[i] && q[i + 1] == p[i + 1];
        }
      }
    }
    assert q[0] == p[0];
  }

  /** The descendants lie inside every set that holds the input's children and is
      closed under the child step: they form the least such set. */
  lemma DescendantsLeast<N(!new)>(g: ChildRelation<N>, s: set<N>, closed: set<N>, x: N)
    requires Children(g, s) <= closed
    requires Children(g, closed) <= closed
    requires IsDescendant(g, s, x)
    ensures x in closed
  {
    var p :| |p| >= 2 && p[0] in s && p[|p| - 1] == x && IsChain(g, p);
    var i := 1;
    while i < |p| - 1
      invariant 1 <= i <= |p| - 1
      invariant p[i] in closed
    {
      assert (p[i], p[i + 1]) in g;
      i := i + 1;
    }
  }

  /** No children, no descendants: a descendant needs the input to have a child,
      so an empty input, or one whose nodes are all leaves, yields an empty result. */
  lemma DescendantNeedsChild<N(!new)>(g: ChildRelation<N>, s: set<N>, x: N)
    requires IsDescendant(g, s, x)
    ensures Children(g, s) != {}
  {
    var p :| |p| >= 2 && p[0] in s && p[|p| - 1] == x && IsChain(g, p);
    assert p[1] in Children(g, s);
  }

  /** The accumulator starts empty, so a node, input or not, is in the result
      only when some child step leads to it. A corollary, stated on chains, of
      `Execute`'s bound `descendants <= Targets(g)`. */
  lemma DescendantHasParent<N(!new)>(g: ChildRelation<N>, s: set<N>, x: N)
    requires IsDescendant(g, s, x)
    ensures exists e :: e in g && e.1 == x
  {
    var p :| |p| >= 2 && p[0] in s && p[|p| - 1] == x && IsChain(g, p);
    assert (p[|p| - 2], p[|p| - 1]) in g;
  }

  /** An input node on a cycle of any length is its own descendant. The cycle is
      `cycle`, starting at `a`, followed by the step from its last node back to
      `a`; a self-loop is the cycle `[a]`. */
  lemma CycleMakesInputDescendant<N(!new)>(g: ChildRelation<N>, s: set<N>, a: N, cycle: seq<N>)
    requires a in s && |cycle| >= 1 && cycle[0] == a && IsChain(g, cycle)
    requires (cycle[|cycle| - 1], a) in g
    ensures IsDescendant(g, s, a)
  {
    var p := cycle + [a];
    assert IsChain(g, p) by {
      forall i | 0 <= i < |p| - 1
        ensures (p[i], p[i + 1]) in g
      {
        if i < |cycle| - 1 {
          assert p[i] == cycle[i] && p[i + 1] == cycle[i + 1];
        }
      }
    }
    assert p[0] == a && p[|p| - 1] == a;
  }
}
