/** Finite directed graphs given as a node set and a set of arcs, with the two
    whole-graph notions the library relies on: acyclicity (with a topological
    order as its witness) and the ancestor closure of a node. */
module Digraphs {
  import opened Collections

  /** Every arc joins two nodes of the graph. */
  predicate Closed<N(==)>(nodes: set<N>, arcs: set<(N, N)>) {
    forall a :: a in arcs ==> a.0 in nodes && a.1 in nodes
  }

  /** A nonempty set of nodes each of which has a predecessor inside the set:
      the shape every directed cycle leaves behind. */
  predicate Stuck<N(==)>(s: set<N>, arcs: set<(N, N)>) {
    s != {} && forall n {:trigger PredsIn(s, arcs, n)} :: n in s ==> PredsIn(s, arcs, n) != {}
  }

  /** The predecessors of `n` inside `s`. */
  function PredsIn<N(==)>(s: set<N>, arcs: set<(N, N)>, n: N): set<N> {
    set m | m in s && (m, n) in arcs
  }

  /** No set of nodes is stuck. */
  predicate Acyclic<N(==)>(nodes: set<N>, arcs: set<(N, N)>) {
    forall s: set<N> :: s <= nodes ==> !Stuck(s, arcs)
  }

  /** A closed walk of at least one arc. */
  predicate IsCycle<N(==)>(w: seq<N>, arcs: set<(N, N)>) {
    |w| >= 2 && w[0] == w[|w| - 1] && forall i :: 0 <= i < |w| - 1 ==> (w[i], w[i + 1]) in arcs
  }

  /** The nodes of a cycle form a stuck set, so an acyclic graph has no cycle. */
  lemma CycleIsStuck<N>(w: seq<N>, arcs: set<(N, N)>)
    requires IsCycle(w, arcs)
    ensures Stuck(set i | 0 <= i < |w| :: w[i], arcs)
  {
    var s := set i | 0 <= i < |w| :: w[i];
    assert w[0] in s;
    forall n | n in s
      ensures PredsIn(s, arcs, n) != {}
    {
      var i :| 0 <= i < |w| && w[i] == n;
      if i == 0 {
        assert w[|w| - 2] in PredsIn(s, arcs, n);
      } else {
        assert w[i - 1] in PredsIn(s, arcs, n);
      }
    }
  }

  /** Sequence lists every node exactly once, each after all its predecessors. */
  predicate IsTopoOrder<N(==)>(o: seq<N>, nodes: set<N>, arcs: set<(N, N)>) {
    (forall i, j :: 0 <= i < j < |o| ==> o[i] != o[j])
    && (forall n :: n in nodes ==> n in o)
    && (forall i :: 0 <= i < |o| ==> o[i] in nodes)
    && (forall i, j :: 0 <= i < |o| && 0 <= j < |o| && (o[i], o[j]) in arcs ==> i < j)
  }

  /** Nodes of `rem` with no predecessor in `rem`. */
  function Sources<N(==)>(rem: set<N>, arcs: set<(N, N)>): set<N> {
    set n | n in rem && forall m :: m in rem ==> (m, n) !in arcs
  }

  /** Repeatedly strips every source; what remains is empty exactly when the graph is acyclic. */
  function Peel<N(==)>(rem: set<N>, arcs: set<(N, N)>): (r: set<N>)
    ensures r <= rem
    ensures r != {} ==> Stuck(r, arcs)
    decreases |rem|
  {
    var src := Sources(rem, arcs);
    if src == {} then rem else Peel(rem - src, arcs)
  }

  /** Peeling never strips a node of a stuck set: every stuck set survives. */
  lemma {:induction false} PeelKeepsStuck<N>(rem: set<N>, arcs: set<(N, N)>, s: set<N>)
    requires s <= rem && Stuck(s, arcs)
    ensures s <= Peel(rem, arcs)
    decreases |rem|
  {
    var src := Sources(rem, arcs);
    if src != {} {
      forall n | n in s
        ensures n !in src
      {
        StuckHasNoSource(rem, arcs, s, n);
      }
      PeelKeepsStuck(rem - src, arcs, s);
    }
  }

  lemma StuckHasNoSource<N>(rem: set<N>, arcs: set<(N, N)>, s: set<N>, n: N)
    requires s <= rem && Stuck(s, arcs) && n in s
    ensures n !in Sources(rem, arcs)
  {
    assert PredsIn(s, arcs, n) != {};
    var m :| m in PredsIn(s, arcs, n);
    assert m in rem;
  }

  /** Acyclicity is decided by peeling. */
  lemma PeelDecides<N>(nodes: set<N>, arcs: set<(N, N)>)
    ensures Peel(nodes, arcs) == {} <==> Acyclic(nodes, arcs)
  {
    if Peel(nodes, arcs) == {} {
      forall s: set<N> | s <= nodes
        ensures !Stuck(s, arcs)
      {
        if Stuck(s, arcs) {
          PeelKeepsStuck(nodes, arcs, s);
        }
      }
    }
  }

  /** A topological order witnesses acyclicity: the earliest node of a stuck set would need an earlier predecessor. */
  lemma TopoOrderAcyclic<N>(o: seq<N>, nodes: set<N>, arcs: set<(N, N)>)
    requires IsTopoOrder(o, nodes, arcs)
    ensures Acyclic(nodes, arcs)
  {
    forall s: set<N> | s <= nodes
      ensures !Stuck(s, arcs)
    {
      if s != {} {
        NotStuck(o, nodes, arcs, s);
      }
    }
  }

  lemma NotStuck<N>(o: seq<N>, nodes: set<N>, arcs: set<(N, N)>, s: set<N>)
    requires IsTopoOrder(o, nodes, arcs)
    requires s != {} && s <= nodes
    ensures !Stuck(s, arcs)
  {
    assert forall n :: n in s ==> n in o;
    var k := EarliestIn(o, s);
    forall m | m in s
      ensures (m, o[k]) !in arcs
    {
      assert m in o;
      var j :| 0 <= j < |o| && o[j] == m;
      assert (m, o[k]) in arcs ==> j < k;
    }
    assert PredsIn(s, arcs, o[k]) == {};
  }

  function EarliestIn<N(==)>(o: seq<N>, s: set<N>): (k: nat)
    requires s != {} && forall n :: n in s ==> n in o
    ensures k < |o| && o[k] in s
    ensures forall j :: 0 <= j < k ==> o[j] !in s
  {
    if o[0] in s then 0
    else
      assert forall n :: n in s ==> n in o[1..] by {
        forall n | n in s ensures n in o[1..] {
          var i :| 0 <= i < |o| && o[i] == n;
          assert o[i] == o[1..][i - 1];
        }
      }
      EarliestIn(o[1..], s) + 1
  }

  /** Kahn's algorithm, taking the sources in any order. Mirrors the networkx
      topological sort; only its defining property is promised. */
  method TopoSort<N(==)>(nodes: set<N>, arcs: set<(N, N)>) returns (o: seq<N>)
    requires Acyclic(nodes, arcs)
    ensures IsTopoOrder(o, nodes, arcs)
  {
    o := [];
    var rem := nodes;
    while rem != {}
      invariant rem <= nodes
      invariant forall n :: n in nodes <==> n in rem || n in o
      invariant forall n :: n in o ==> n !in rem
      invariant forall i, j :: 0 <= i < j < |o| ==> o[i] != o[j]
      invariant forall i, j :: 0 <= i < |o| && 0 <= j < |o| && (o[i], o[j]) in arcs ==> i < j
      invariant forall i, m :: 0 <= i < |o| && m in rem ==> (m, o[i]) !in arcs
      decreases |rem|
    {
      assert !Stuck(rem, arcs);
      var n :| n in rem && PredsIn(rem, arcs, n) == {};
      forall m | m in rem
        ensures (m, n) !in arcs
      {
        assert m !in PredsIn(rem, arcs, n);
      }
      o := o + [n];
      rem := rem - {n};
    }
  }

  /** A set closed under taking predecessors along `arcs`. */
  predicate AncestorClosed<N(==)>(s: set<N>, arcs: set<(N, N)>) {
    forall a :: a in arcs && a.1 in s ==> a.0 in s
  }

  /** The least superset of `acc` closed under predecessors, grown one layer at a time. */
  function AncestorsFrom<N(==,!new)>(nodes: set<N>, arcs: set<(N, N)>, acc: set<N>): (r: set<N>)
    requires Closed(nodes, arcs) && acc <= nodes
    ensures acc <= r <= nodes
    ensures AncestorClosed(r, arcs)
    ensures forall s: set<N> :: acc <= s && AncestorClosed(s, arcs) ==> r <= s
    decreases |nodes - acc|
  {
    var next := set a | a in arcs && a.1 in acc :: a.0;
    if next <= acc then
      acc
    else
      assert |nodes - (acc + next)| < |nodes - acc| by {
        var x :| x in next && x !in acc;
        assert x in nodes - acc && x !in nodes - (acc + next);
        SubsetSmaller(nodes - (acc + next), nodes - acc);
      }
      var r := AncestorsFrom(nodes, arcs, acc + next);
      r
  }

  /** A walk along arcs: each node is joined to the next by an arc. */
  predicate IsWalk<N(==)>(w: seq<N>, arcs: set<(N, N)>) {
    |w| > 0 && forall i :: 0 <= i < |w| - 1 ==> (w[i], w[i + 1]) in arcs
  }

  /** Some walk leads from `a` to `b` (of no arcs when `a == b`). */
  ghost predicate Reaches<N(!new)>(arcs: set<(N, N)>, a: N, b: N) {
    exists w: seq<N> :: IsWalk(w, arcs) && w[0] == a && w[|w| - 1] == b
  }

  /** A walk ending inside a predecessor-closed set starts inside it. */
  lemma {:induction false} WalkInClosed<N>(w: seq<N>, arcs: set<(N, N)>, s: set<N>)
    requires IsWalk(w, arcs) && w[|w| - 1] in s && AncestorClosed(s, arcs)
    ensures w[0] in s
    decreases |w|
  {
    if |w| > 1 {
      assert IsWalk(w[1..], arcs) by {
        forall i | 0 <= i < |w[1..]| - 1 ensures (w[1..][i], w[1..][i + 1]) in arcs {
          assert (w[i + 1], w[i + 2]) in arcs;
        }
      }
      WalkInClosed(w[1..], arcs, s);
      assert (w[0], w[1]) in arcs;
    }
  }

  /** Prefixing a predecessor keeps a walk a walk. */
  lemma WalkCons<N>(x: N, w: seq<N>, arcs: set<(N, N)>)
    requires IsWalk(w, arcs) && (x, w[0]) in arcs
    ensures IsWalk([x] + w, arcs)
  {
    var v := [x] + w;
    forall i | 0 <= i < |v| - 1 ensures (v[i], v[i + 1]) in arcs {
      if i > 0 {
        assert v[i] == w[i - 1] && v[i + 1] == w[i];
      }
    }
  }

  /** The ancestor closure of `n` holds exactly the nodes from which a walk reaches `n`. */
  lemma AncestorsReach<N(!new)>(nodes: set<N>, arcs: set<(N, N)>, n: N, m: N)
    requires Closed(nodes, arcs) && n in nodes
    ensures m in AncestorsFrom(nodes, arcs, {n}) <==> Reaches(arcs, m, n)
  {
    var r := AncestorsFrom(nodes, arcs, {n});
    if Reaches(arcs, m, n) {
      var w :| IsWalk(w, arcs) && w[0] == m && w[|w| - 1] == n;
      WalkInClosed(w, arcs, r);
    }
    if m in r {
      var s := set x | x in nodes && Reaches(arcs, x, n);
      assert IsWalk([n], arcs);
      assert n in s;
      forall a | a in arcs && a.1 in s
        ensures a.0 in s
      {
        var w :| IsWalk(w, arcs) && w[0] == a.1 && w[|w| - 1] == n;
        WalkCons(a.0, w, arcs);
        assert ([a.0] + w)[0] == a.0 && ([a.0] + w)[|w|] == n;
      }
      assert AncestorClosed(s, arcs);
    }
  }

  /** The ancestors of a union of start sets are the union of their ancestors. */
  lemma AncestorsUnion<N(!new)>(nodes: set<N>, arcs: set<(N, N)>, s: set<N>, t: set<N>)
    requires Closed(nodes, arcs) && s <= nodes && t <= nodes
    ensures AncestorsFrom(nodes, arcs, s + t) == AncestorsFrom(nodes, arcs, s) + AncestorsFrom(nodes, arcs, t)
  {
    var p := AncestorsFrom(nodes, arcs, s);
    var q := AncestorsFrom(nodes, arcs, t);
    var r := AncestorsFrom(nodes, arcs, s + t);
    assert AncestorClosed(p + q, arcs);
    assert r <= p + q;
    assert p <= r && q <= r;
  }

  /** Nothing is an ancestor of the empty set. */
  lemma AncestorsOfNothing<N(!new)>(nodes: set<N>, arcs: set<(N, N)>)
    requires Closed(nodes, arcs)
    ensures AncestorsFrom(nodes, arcs, {}) == {}
  {
    var none: set<N> := {};
    assert AncestorClosed(none, arcs);
  }

  /** Part of a graph without a cycle has none. */
  lemma AcyclicSubset<N(!new)>(p: set<N>, q: set<N>, arcs: set<(N, N)>)
    requires p <= q
    ensures Acyclic(q, arcs) ==> Acyclic(p, arcs)
  {
  }

  /** Two predecessor-closed sets without a cycle have no cycle together: a
      stuck set inside the union leaves a stuck part inside one of them. */
  lemma {:induction false} AcyclicClosedUnion<N(!new)>(p: set<N>, q: set<N>, arcs: set<(N, N)>)
    requires AncestorClosed(p, arcs) && AncestorClosed(q, arcs)
    requires Acyclic(p, arcs) && Acyclic(q, arcs)
    ensures Acyclic(p + q, arcs)
  {
    forall s: set<N> | s <= p + q ensures !Stuck(s, arcs) {
      if Stuck(s, arcs) {
        var m :| m in s;
        var part := if m in p then s * p else s * q;
        assert AncestorClosed(if m in p then p else q, arcs);
        forall k | k in part ensures PredsIn(part, arcs, k) != {} {
          assert k in s && PredsIn(s, arcs, k) != {};
          var j :| j in PredsIn(s, arcs, k);
          assert j in PredsIn(part, arcs, k);
        }
        assert Stuck(part, arcs);
      }
    }
  }

  /** Every arc turned around. */
  function Reversed<N(==,!new)>(arcs: set<(N, N)>): (r: set<(N, N)>)
    ensures forall a :: a in r <==> (a.1, a.0) in arcs
  {
    set a | a in arcs :: (a.1, a.0)
  }

  /** A set closed under taking successors. */
  predicate DescendantClosed<N(==)>(s: set<N>, arcs: set<(N, N)>) {
    forall a :: a in arcs && a.0 in s ==> a.1 in s
  }

  /** Closed under successors is closed under predecessors in the reversed graph. */
  lemma ClosedDual<N(!new)>(s: set<N>, arcs: set<(N, N)>)
    ensures DescendantClosed(s, arcs) <==> AncestorClosed(s, Reversed(arcs))
  {
    if DescendantClosed(s, arcs) {
      forall a | a in Reversed(arcs) && a.1 in s
        ensures a.0 in s
      {
        assert (a.1, a.0) in arcs;
      }
    }
    if AncestorClosed(s, Reversed(arcs)) {
      forall a | a in arcs && a.0 in s
        ensures a.1 in s
      {
        assert (a.1, a.0) in Reversed(arcs);
      }
    }
  }

  /** The least superset of `acc` closed under successors. */
  function DescendantsFrom<N(==,!new)>(nodes: set<N>, arcs: set<(N, N)>, acc: set<N>): (r: set<N>)
    requires Closed(nodes, arcs) && acc <= nodes
    ensures acc <= r <= nodes
    ensures DescendantClosed(r, arcs)
    ensures forall s: set<N> :: acc <= s && DescendantClosed(s, arcs) ==> r <= s
  {
    var back := Reversed(arcs);
    assert Closed(nodes, back);
    var r := AncestorsFrom(nodes, back, acc);
    ClosedDual(r, arcs);
    forall s: set<N> | acc <= s && DescendantClosed(s, arcs)
      ensures r <= s
    {
      ClosedDual(s, arcs);
    }
    r
  }
}
