/** The edge-orientation rules of constraint-based causal discovery over a
    partially directed graph. The graph is a set of arcs; an undirected edge
    x - y is stored as both arcs (x, y) and (y, x), and orienting it x -> y
    deletes the arc (y, x). Every rule only ever deletes one arc of an
    undirected pair, so adjacency never changes.

    Each finder of the source yields an arc only while that arc's edge is
    still undirected, and its applier deletes the arc at once; `Yield`
    models that pair of steps. CD and RBO enumerate their triples lazily
    while arcs are being deleted, so their validity checks see the graph as
    it is at that moment; KNC, CA and MR3 collect their candidates from the
    starting graph first and re-check only the undirectedness of the edge
    they orient. Python's set and node iteration orders are parameters: a
    sequence that enumerates the candidate set. */
module EdgeOrientation {
  import opened Collections

  type Arcs<N(==)> = set<(N, N)>

  function Reverse<N>(e: (N, N)): (N, N) {
    (e.1, e.0)
  }

  predicate Adjacent<N(==)>(g: Arcs<N>, x: N, y: N) {
    (x, y) in g || (y, x) in g
  }

  predicate Undirected<N(==)>(g: Arcs<N>, x: N, y: N) {
    (x, y) in g && (y, x) in g
  }

  /** x -> y and not y -> x: `y` is a successor and not a predecessor of `x`. */
  predicate Directed<N(==)>(g: Arcs<N>, x: N, y: N) {
    (x, y) in g && (y, x) !in g
  }

  function Nodes<N>(g: Arcs<N>): set<N> {
    (set e | e in g :: e.0) + (set e | e in g :: e.1)
  }

  lemma AdjacentNodes<N>(g: Arcs<N>, x: N, y: N)
    requires Adjacent(g, x, y)
    ensures x in Nodes(g) && y in Nodes(g)
  {
    if (x, y) in g {
      assert x == (x, y).0 && y == (x, y).1;
    } else {
      assert y == (y, x).0 && x == (y, x).1;
    }
  }

  // ---------------------------------------------------------------------
  // Unshielded triples
  // ---------------------------------------------------------------------

  /** 1 - 2 - 3 with 3 != 1 and 1, 3 not adjacent (edges of either kind). */
  predicate Unshielded<N(==)>(g: Arcs<N>, t: (N, N, N)) {
    Adjacent(g, t.0, t.1) && Adjacent(g, t.1, t.2) && t.2 != t.0 && !Adjacent(g, t.0, t.2)
  }

  /** The triples the source's generator enumerates: node 1 over all nodes,
      node 2 over 1's neighbours, node 3 over 2's neighbours other than 1
      and not among 1's neighbours. */
  function UnshieldedTriples<N(==)>(g: Arcs<N>): set<(N, N, N)> {
    set a, b, c | a in Nodes(g) && b in Nodes(g) && c in Nodes(g) && Unshielded(g, (a, b, c)) :: (a, b, c)
  }

  /** The enumeration finds exactly the unshielded triples, and their three
      nodes are pairwise distinct. */
  lemma UnshieldedTriplesExact<N>(g: Arcs<N>, t: (N, N, N))
    ensures t in UnshieldedTriples(g) <==> Unshielded(g, t)
    ensures t in UnshieldedTriples(g) ==> t.0 != t.1 && t.1 != t.2 && t.0 != t.2
  {
    if Unshielded(g, t) {
      AdjacentNodes(g, t.0, t.1);
      AdjacentNodes(g, t.1, t.2);
      assert (t.0, t.1, t.2) == t;
    }
  }

  // ---------------------------------------------------------------------
  // One pass of a rule
  // ---------------------------------------------------------------------

  /** The graph during one applier call, and its `newOrientationsFound`. */
  datatype Pass<N> = Pass(arcs: Arcs<N>, changed: bool)

  function Start<N>(g: Arcs<N>): Pass<N> {
    Pass(g, false)
  }

  /** A finder yields `e` only while e's edge is undirected; the applier then
      deletes `e` and records that it found an orientation. */
  function Yield<N(==)>(st: Pass<N>, e: (N, N)): (r: Pass<N>)
    ensures r.arcs <= st.arcs && st.arcs - r.arcs <= {e}
    ensures !Undirected(r.arcs, e.0, e.1)
    ensures r.changed <==> st.changed || r.arcs != st.arcs
  {
    if Undirected(st.arcs, e.0, e.1) then Pass(st.arcs - {e}, true) else st
  }

  /** What every applier promises about its result relative to the graph
      `g` it started from: only arcs are deleted, every deleted arc leaves
      its reverse behind (an orientation, never a deletion of adjacency),
      and the returned flag is set iff at least one arc was deleted. */
  predicate Sound<N(==)>(g: Arcs<N>, st: Pass<N>) {
    && st.arcs <= g
    && (forall e | e in g && e !in st.arcs :: Reverse(e) in st.arcs)
    && (st.changed <==> st.arcs != g)
  }

  lemma SoundStart<N>(g: Arcs<N>)
    ensures Sound(g, Start(g))
  {
  }

  /** Orienting keeps every adjacency of the starting graph. */
  lemma SoundKeepsAdjacency<N>(g: Arcs<N>, st: Pass<N>, x: N, y: N)
    requires Sound(g, st)
    ensures Adjacent(st.arcs, x, y) <==> Adjacent(g, x, y)
  {
    if (x, y) in g && (x, y) !in st.arcs {
      assert Reverse((x, y)) in st.arcs;
    }
    if (y, x) in g && (y, x) !in st.arcs {
      assert Reverse((y, x)) in st.arcs;
    }
  }

  lemma SoundKeepsUnshielded<N>(g: Arcs<N>, st: Pass<N>, t: (N, N, N))
    requires Sound(g, st)
    ensures Unshielded(st.arcs, t) <==> Unshielded(g, t)
  {
    SoundKeepsAdjacency(g, st, t.0, t.1);
    SoundKeepsAdjacency(g, st, t.1, t.2);
    SoundKeepsAdjacency(g, st, t.0, t.2);
  }

  lemma UnshieldedTriplesKept<N>(g: Arcs<N>, st: Pass<N>)
    requires Sound(g, st)
    ensures UnshieldedTriples(st.arcs) == UnshieldedTriples(g)
  {
    forall t | t in UnshieldedTriples(g)
      ensures t in UnshieldedTriples(st.arcs)
    {
      UnshieldedTriplesExact(g, t);
      SoundKeepsUnshielded(g, st, t);
      UnshieldedTriplesExact(st.arcs, t);
    }
    forall t | t in UnshieldedTriples(st.arcs)
      ensures t in UnshieldedTriples(g)
    {
      UnshieldedTriplesExact(st.arcs, t);
      SoundKeepsUnshielded(g, st, t);
      UnshieldedTriplesExact(g, t);
    }
  }

  lemma YieldSound<N>(g: Arcs<N>, st: Pass<N>, e: (N, N))
    requires Sound(g, st) && e.0 != e.1
    ensures Sound(g, Yield(st, e))
  {
    var r := Yield(st, e);
    if Undirected(st.arcs, e.0, e.1) {
      forall x | x in g && x !in r.arcs
        ensures Reverse(x) in r.arcs
      {
        if x == e {
          assert Reverse(x) in st.arcs && Reverse(x) != e;
        } else {
          assert x !in st.arcs;
          assert Reverse(x) in st.arcs;
          assert Reverse(x) != e;
        }
      }
      assert e in g && e !in r.arcs;
    }
  }

  // ---------------------------------------------------------------------
  // Rules whose candidates are collected first: KNC, CA and MR3
  // ---------------------------------------------------------------------

  /** Deletes each target arc in turn, each only while its edge is undirected. */
  function Drops<N(==)>(st: Pass<N>, targets: seq<(N, N)>): Pass<N>
    decreases |targets|
  {
    if targets == [] then st else Drops(Yield(st, targets[0]), targets[1..])
  }

  lemma {:induction false} DropsSound<N>(g: Arcs<N>, st: Pass<N>, targets: seq<(N, N)>)
    requires Sound(g, st)
    requires forall e | e in targets :: e.0 != e.1
    ensures Sound(g, Drops(st, targets))
    decreases |targets|
  {
    if targets != [] {
      YieldSound(g, st, targets[0]);
      DropsSound(g, Yield(st, targets[0]), targets[1..]);
    }
  }

  lemma {:induction false} DropsShrink<N>(st: Pass<N>, targets: seq<(N, N)>)
    ensures Drops(st, targets).arcs <= st.arcs
    ensures st.arcs - Drops(st, targets).arcs <= SetOf(targets)
    decreases |targets|
  {
    if targets != [] {
      DropsShrink(Yield(st, targets[0]), targets[1..]);
      assert SetOf(targets) == {targets[0]} + SetOf(targets[1..]) by {
        assert targets == [targets[0]] + targets[1..];
      }
    }
  }

  /** After the pass no target's edge is undirected any more. */
  lemma {:induction false} DropsSettle<N>(st: Pass<N>, targets: seq<(N, N)>)
    ensures forall e | e in targets :: !Undirected(Drops(st, targets).arcs, e.0, e.1)
    decreases |targets|
  {
    if targets != [] {
      var st1 := Yield(st, targets[0]);
      DropsSettle(st1, targets[1..]);
      DropsShrink(st1, targets[1..]);
      forall e | e in targets
        ensures !Undirected(Drops(st, targets).arcs, e.0, e.1)
      {
        if e != targets[0] {
          assert e in targets[1..];
        }
      }
    }
  }

  function TargetsOf<T, N>(order: seq<T>, target: T -> (N, N)): (r: seq<(N, N)>)
    ensures |r| == |order| && forall i | 0 <= i < |order| :: r[i] == target(order[i])
  {
    seq(|order|, i requires 0 <= i < |order| => target(order[i]))
  }

  /** One pass of a rule whose candidates were collected up front: the arc
      `target(t)` of each candidate `t`, in iteration order. */
  function RulePass<T, N(==)>(g: Arcs<N>, order: seq<T>, target: T -> (N, N)): Pass<N> {
    Drops(Start(g), TargetsOf(order, target))
  }

  lemma RulePassFacts<T, N>(g: Arcs<N>, order: seq<T>, target: T -> (N, N))
    requires forall t | t in order :: target(t).0 != target(t).1
    ensures Sound(g, RulePass(g, order, target))
    ensures forall e | e in g && e !in RulePass(g, order, target).arcs :: exists t :: t in order && target(t) == e
    ensures forall t | t in order :: !Undirected(RulePass(g, order, target).arcs, target(t).0, target(t).1)
  {
    var targets := TargetsOf(order, target);
    var r := RulePass(g, order, target);
    forall e | e in targets
      ensures e.0 != e.1
    {
      var i :| 0 <= i < |targets| && targets[i] == e;
      assert order[i] in order;
    }
    SoundStart(g);
    DropsSound(g, Start(g), targets);
    DropsShrink(Start(g), targets);
    DropsSettle(Start(g), targets);
    forall e | e in g && e !in r.arcs
      ensures exists t :: t in order && target(t) == e
    {
      assert e in SetOf(targets);
      var i :| 0 <= i < |targets| && targets[i] == e;
      assert order[i] in order && target(order[i]) == e;
    }
    forall t | t in order
      ensures !Undirected(r.arcs, target(t).0, target(t).1)
    {
      var i :| 0 <= i < |order| && order[i] == t;
      assert targets[i] in targets;
    }
  }

  // Known non-colliders: 1 -> 2 - 3 with 1, 3 not adjacent orients 2 -> 3.

  predicate KnownNonCollider<N(==)>(g: Arcs<N>, t: (N, N, N)) {
    Directed(g, t.0, t.1) && Undirected(g, t.1, t.2) && !Adjacent(g, t.0, t.2)
  }

  function KNCCandidates<N(==)>(g: Arcs<N>): set<(N, N, N)> {
    set a, b, c | a in Nodes(g) && b in Nodes(g) && c in Nodes(g) && KnownNonCollider(g, (a, b, c)) :: (a, b, c)
  }

  function KNCTarget<N>(t: (N, N, N)): (N, N) {
    (t.2, t.1)
  }

  /** `applyKnownNonColliders` with the candidate set iterated in `order`. */
  function ApplyKnownNonColliders<N(==,!new)>(g: Arcs<N>, order: seq<(N, N, N)>): (r: Pass<N>)
    requires SetOf(order) == KNCCandidates(g)
    ensures Sound(g, r)
    ensures forall e | e in g && e !in r.arcs :: exists a :: KnownNonCollider(g, (a, e.1, e.0))
    ensures forall t | t in KNCCandidates(g) :: !Undirected(r.arcs, t.1, t.2)
  {
    KNCFacts(g, order);
    RulePass(g, order, KNCTarget)
  }

  lemma KNCFacts<N>(g: Arcs<N>, order: seq<(N, N, N)>)
    requires SetOf(order) == KNCCandidates(g)
    ensures Sound(g, RulePass(g, order, KNCTarget))
    ensures forall e | e in g && e !in RulePass(g, order, KNCTarget).arcs :: exists a :: KnownNonCollider(g, (a, e.1, e.0))
    ensures forall t | t in KNCCandidates(g) :: !Undirected(RulePass(g, order, KNCTarget).arcs, t.1, t.2)
  {
    var r := RulePass(g, order, KNCTarget);
    forall t | t in order
      ensures KNCTarget(t).0 != KNCTarget(t).1
    {
      assert t in KNCCandidates(g);
    }
    RulePassFacts(g, order, KNCTarget);
    forall e | e in g && e !in r.arcs
      ensures exists a :: KnownNonCollider(g, (a, e.1, e.0))
    {
      var t :| t in order && KNCTarget(t) == e;
      assert t in KNCCandidates(g);
      assert KnownNonCollider(g, (t.0, e.1, e.0));
    }
    forall t | t in KNCCandidates(g)
      ensures !Undirected(r.arcs, t.1, t.2)
    {
      assert t in SetOf(order);
      assert !Undirected(r.arcs, KNCTarget(t).0, KNCTarget(t).1);
    }
  }

  // Cycle avoidance: 1 -> 2 -> 3 with 1 - 3 orients 1 -> 3.

  predicate CycleCandidate<N(==)>(g: Arcs<N>, t: (N, N, N)) {
    Directed(g, t.0, t.1) && Directed(g, t.1, t.2) && Undirected(g, t.0, t.2)
  }

  function CACandidates<N(==)>(g: Arcs<N>): set<(N, N, N)> {
    set a, b, c | a in Nodes(g) && b in Nodes(g) && c in Nodes(g) && CycleCandidate(g, (a, b, c)) :: (a, b, c)
  }

  function CATarget<N>(t: (N, N, N)): (N, N) {
    (t.2, t.0)
  }

  /** `applyCycleAvoidance` with the candidate set iterated in `order`. */
  function ApplyCycleAvoidance<N(==,!new)>(g: Arcs<N>, order: seq<(N, N, N)>): (r: Pass<N>)
    requires SetOf(order) == CACandidates(g)
    ensures Sound(g, r)
    ensures forall e | e in g && e !in r.arcs :: exists b :: CycleCandidate(g, (e.1, b, e.0))
    ensures forall t | t in CACandidates(g) :: !Undirected(r.arcs, t.0, t.2)
  {
    CAFacts(g, order);
    RulePass(g, order, CATarget)
  }

  lemma CAFacts<N>(g: Arcs<N>, order: seq<(N, N, N)>)
    requires SetOf(order) == CACandidates(g)
    ensures Sound(g, RulePass(g, order, CATarget))
    ensures forall e | e in g && e !in RulePass(g, order, CATarget).arcs :: exists b :: CycleCandidate(g, (e.1, b, e.0))
    ensures forall t | t in CACandidates(g) :: !Undirected(RulePass(g, order, CATarget).arcs, t.0, t.2)
  {
    var r := RulePass(g, order, CATarget);
    forall t | t in order
      ensures CATarget(t).0 != CATarget(t).1
    {
      assert t in CACandidates(g);
    }
    RulePassFacts(g, order, CATarget);
    forall e | e in g && e !in r.arcs
      ensures exists b :: CycleCandidate(g, (e.1, b, e.0))
    {
      var t :| t in order && CATarget(t) == e;
      assert t in CACandidates(g);
      assert CycleCandidate(g, (e.1, t.1, e.0));
    }
    forall t | t in CACandidates(g)
      ensures !Undirected(r.arcs, t.0, t.2)
    {
      assert t in SetOf(order);
      assert !Undirected(r.arcs, CATarget(t).0, CATarget(t).1);
    }
  }

  // Meek's rule 3: 1 - 3 -> 2, 1 - 4 -> 2, 1 - 2, 3 and 4 not adjacent, orients 1 -> 2.

  function UndirectedNeighbours<N(==)>(g: Arcs<N>, x: N): set<N> {
    set y | y in Nodes(g) && Undirected(g, x, y)
  }

  /** Node 1 has at least three undirected neighbours, node 2 is one of them,
      and two distinct non-adjacent undirected neighbours of 1 point into 2. */
  predicate MR3Pair<N(==)>(g: Arcs<N>, a: N, b: N) {
    var un := UndirectedNeighbours(g, a);
    && |un| >= 3
    && b in un
    && exists c, d | c in un && d in un :: c != d && Directed(g, c, b) && Directed(g, d, b) && !Adjacent(g, c, d)
  }

  /** The (node 1, node 2) parts of the candidate quartets: the source keeps at
      most one quartet per such pair, and only that pair decides the arc. */
  function MR3Pairs<N(==)>(g: Arcs<N>): set<(N, N)> {
    set a, b | a in Nodes(g) && b in Nodes(g) && MR3Pair(g, a, b) :: (a, b)
  }

  function MR3Target<N>(p: (N, N)): (N, N) {
    (p.1, p.0)
  }

  /** `applyMR3` with the candidate quartets iterated in `order`. */
  function ApplyMR3<N(==)>(g: Arcs<N>, order: seq<(N, N)>): (r: Pass<N>)
    requires SetOf(order) == MR3Pairs(g)
    ensures Sound(g, r)
    ensures forall e | e in g && e !in r.arcs :: MR3Pair(g, e.1, e.0)
    ensures forall p | p in MR3Pairs(g) :: !Undirected(r.arcs, p.0, p.1)
  {
    MR3Facts(g, order);
    RulePass(g, order, MR3Target)
  }

  lemma MR3Facts<N>(g: Arcs<N>, order: seq<(N, N)>)
    requires SetOf(order) == MR3Pairs(g)
    ensures Sound(g, RulePass(g, order, MR3Target))
    ensures forall e | e in g && e !in RulePass(g, order, MR3Target).arcs :: MR3Pair(g, e.1, e.0)
    ensures forall p | p in MR3Pairs(g) :: !Undirected(RulePass(g, order, MR3Target).arcs, p.0, p.1)
  {
    var r := RulePass(g, order, MR3Target);
    forall p | p in order
      ensures MR3Target(p).0 != MR3Target(p).1
    {
      assert p in MR3Pairs(g);
      var un := UndirectedNeighbours(g, p.0);
      var c, d :| c in un && d in un && c != d && Directed(g, c, p.1) && Directed(g, d, p.1) && !Adjacent(g, c, d);
    }
    RulePassFacts(g, order, MR3Target);
    forall e | e in g && e !in r.arcs
      ensures MR3Pair(g, e.1, e.0)
    {
      var p :| p in order && MR3Target(p) == e;
      assert p in MR3Pairs(g);
    }
    forall p | p in MR3Pairs(g)
      ensures !Undirected(r.arcs, p.0, p.1)
    {
      assert p in SetOf(order);
      assert !Undirected(r.arcs, MR3Target(p).0, MR3Target(p).1);
    }
  }

  // ---------------------------------------------------------------------
  // Collider detection: triples enumerated while arcs are deleted
  // ---------------------------------------------------------------------

  /** The part of a candidate check that does not look at the graph. */
  type Filter<!N> = ((N, N, N)) -> bool

  /** 1 -> 2 and 3 -> 2 are present and at least one of the two edges is
      still undirected: the triple can still become a collider. */
  predicate Orientable<N(==)>(g: Arcs<N>, t: (N, N, N)) {
    (t.0, t.1) in g && (t.2, t.1) in g && ((t.1, t.0) in g || (t.1, t.2) in g)
  }

  lemma OrientableGrows<N>(g: Arcs<N>, h: Arcs<N>, t: (N, N, N))
    requires g <= h && Orientable(g, t)
    ensures Orientable(h, t)
  {
  }

  /** The default check: a recorded sepset(1, 3) that does not contain 2. */
  predicate SepsetExcludes<N(==)>(sepsets: map<(N, N), set<N>>, t: (N, N, N)) {
    (t.0, t.2) in sepsets && t.1 !in sepsets[(t.0, t.2)]
  }

  function SepsetRule<N(==)>(sepsets: map<(N, N), set<N>>): Filter<N> {
    t => SepsetExcludes(sepsets, t)
  }

  /** One triple of the enumeration: if it is still a valid candidate, yield
      2 -> 1 and then 2 -> 3, each only while that edge is undirected. */
  function CDStep<N(==)>(st: Pass<N>, t: (N, N, N), valid: Filter<N>): Pass<N> {
    if Orientable(st.arcs, t) && valid(t) then Yield(Yield(st, (t.1, t.0)), (t.1, t.2)) else st
  }

  function CDPass<N(==)>(st: Pass<N>, order: seq<(N, N, N)>, valid: Filter<N>): Pass<N>
    decreases |order|
  {
    if order == [] then st else CDPass(CDStep(st, order[0], valid), order[1..], valid)
  }

  lemma CDStepFacts<N>(g: Arcs<N>, st: Pass<N>, t: (N, N, N), valid: Filter<N>)
    requires Sound(g, st) && t.0 != t.1 && t.1 != t.2
    ensures Sound(g, CDStep(st, t, valid))
    ensures CDStep(st, t, valid).arcs <= st.arcs
    ensures !(Orientable(CDStep(st, t, valid).arcs, t) && valid(t))
    ensures forall e | e in st.arcs && e !in CDStep(st, t, valid).arcs ::
              Orientable(st.arcs, t) && valid(t) && (e == (t.1, t.0) || e == (t.1, t.2))
  {
    if Orientable(st.arcs, t) && valid(t) {
      var st1 := Yield(st, (t.1, t.0));
      YieldSound(g, st, (t.1, t.0));
      YieldSound(g, st1, (t.1, t.2));
      assert (t.1, t.0) !in st1.arcs;
    }
  }

  lemma {:induction false} CDPassFacts<N>(g: Arcs<N>, st: Pass<N>, order: seq<(N, N, N)>, valid: Filter<N>)
    requires Sound(g, st)
    requires forall t | t in order :: t.0 != t.1 && t.1 != t.2
    ensures Sound(g, CDPass(st, order, valid))
    ensures CDPass(st, order, valid).arcs <= st.arcs
    ensures forall t | t in order :: !(Orientable(CDPass(st, order, valid).arcs, t) && valid(t))
    ensures forall e | e in st.arcs && e !in CDPass(st, order, valid).arcs ::
              exists t :: t in order && Orientable(st.arcs, t) && valid(t) && (e == (t.1, t.0) || e == (t.1, t.2))
    decreases |order|
  {
    if order != [] {
      var t0 := order[0];
      var st1 := CDStep(st, t0, valid);
      var r := CDPass(st, order, valid);
      assert t0 in order;
      CDStepFacts(g, st, t0, valid);
      forall t | t in order[1..]
        ensures t.0 != t.1 && t.1 != t.2
      {
        assert t in order;
      }
      CDPassFacts(g, st1, order[1..], valid);
      forall t | t in order
        ensures !(Orientable(r.arcs, t) && valid(t))
      {
        if t != t0 {
          assert t in order[1..];
        } else if Orientable(r.arcs, t) {
          OrientableGrows(r.arcs, st1.arcs, t);
        }
      }
      forall e | e in st.arcs && e !in r.arcs
        ensures exists t :: t in order && Orientable(st.arcs, t) && valid(t) && (e == (t.1, t.0) || e == (t.1, t.2))
      {
        if e !in st1.arcs {
          assert Orientable(st.arcs, t0) && valid(t0) && (e == (t0.1, t0.0) || e == (t0.1, t0.2));
        } else {
          var t :| t in order[1..] && Orientable(st1.arcs, t) && valid(t) && (e == (t.1, t.0) || e == (t.1, t.2));
          OrientableGrows(st1.arcs, st.arcs, t);
          assert t in order;
        }
      }
    }
  }

  /** A pass in which no triple is a valid candidate changes nothing. */
  lemma {:induction false} CDPassInert<N>(st: Pass<N>, order: seq<(N, N, N)>, valid: Filter<N>)
    requires forall t | t in order :: !(Orientable(st.arcs, t) && valid(t))
    ensures CDPass(st, order, valid) == st
    decreases |order|
  {
    if order != [] {
      assert order[0] in order;
      forall t | t in order[1..]
        ensures !(Orientable(st.arcs, t) && valid(t))
      {
        assert t in order;
      }
      CDPassInert(st, order[1..], valid);
    }
  }

  /** `applyColliderDetection` with its generator's triples in `order`. */
  function ApplyColliderDetection<N(==,!new)>(g: Arcs<N>, sepsets: map<(N, N), set<N>>, order: seq<(N, N, N)>): (r: Pass<N>)
    requires SetOf(order) == UnshieldedTriples(g)
    ensures Sound(g, r)
    ensures forall e | e in g && e !in r.arcs ::
              exists t :: Unshielded(g, t) && Orientable(g, t) && SepsetExcludes(sepsets, t) && (e == (t.1, t.0) || e == (t.1, t.2))
    ensures forall t | Unshielded(g, t) :: !(Orientable(r.arcs, t) && SepsetExcludes(sepsets, t))
  {
    CDFacts(g, sepsets, order);
    CDPass(Start(g), order, SepsetRule(sepsets))
  }

  lemma CDFacts<N>(g: Arcs<N>, sepsets: map<(N, N), set<N>>, order: seq<(N, N, N)>)
    requires SetOf(order) == UnshieldedTriples(g)
    ensures Sound(g, CDPass(Start(g), order, SepsetRule(sepsets)))
    ensures forall e | e in g && e !in CDPass(Start(g), order, SepsetRule(sepsets)).arcs ::
              exists t :: Unshielded(g, t) && Orientable(g, t) && SepsetExcludes(sepsets, t) && (e == (t.1, t.0) || e == (t.1, t.2))
    ensures forall t | Unshielded(g, t) :: !(Orientable(CDPass(Start(g), order, SepsetRule(sepsets)).arcs, t) && SepsetExcludes(sepsets, t))
  {
    var valid := SepsetRule(sepsets);
    var r := CDPass(Start(g), order, valid);
    forall t | t in order
      ensures t.0 != t.1 && t.1 != t.2
    {
      assert t in UnshieldedTriples(g);
      UnshieldedTriplesExact(g, t);
    }
    SoundStart(g);
    CDPassFacts(g, Start(g), order, valid);
    forall e | e in g && e !in r.arcs
      ensures exists t :: Unshielded(g, t) && Orientable(g, t) && SepsetExcludes(sepsets, t) && (e == (t.1, t.0) || e == (t.1, t.2))
    {
      var t :| t in order && Orientable(g, t) && valid(t) && (e == (t.1, t.0) || e == (t.1, t.2));
      assert t in UnshieldedTriples(g);
      UnshieldedTriplesExact(g, t);
    }
    forall t | Unshielded(g, t)
      ensures !(Orientable(r.arcs, t) && SepsetExcludes(sepsets, t))
    {
      UnshieldedTriplesExact(g, t);
      assert t in SetOf(order);
      assert !(Orientable(r.arcs, t) && valid(t));
    }
  }

  /** Collider detection reaches a fixpoint in one pass: run again on its own
      result (whose unshielded triples are the same), it deletes nothing and
      reports no new orientation. */
  lemma ColliderDetectionIdempotent<N(!new)>(g: Arcs<N>, sepsets: map<(N, N), set<N>>, order: seq<(N, N, N)>, order2: seq<(N, N, N)>)
    requires SetOf(order) == UnshieldedTriples(g)
    requires SetOf(order2) == UnshieldedTriples(ApplyColliderDetection(g, sepsets, order).arcs)
    ensures ApplyColliderDetection(ApplyColliderDetection(g, sepsets, order).arcs, sepsets, order2)
            == Start(ApplyColliderDetection(g, sepsets, order).arcs)
  {
    var r := ApplyColliderDetection(g, sepsets, order);
    var valid := SepsetRule(sepsets);
    UnshieldedTriplesKept(g, r);
    forall t | t in order2
      ensures !(Orientable(r.arcs, t) && valid(t))
    {
      assert t in UnshieldedTriples(g);
      UnshieldedTriplesExact(g, t);
    }
    CDPassInert(Start(r.arcs), order2, valid);
  }

  /** The result depends on the enumeration order. The graph is X - Z - Y - W
      with sepset(X, Y) = sepset(W, Z) = {} (X, Z, Y, W are 0, 1, 2, 3):
      taking (X, Z, Y) first orients X -> Z <- Y, taking (W, Y, Z) first
      orients W -> Y <- Z, and either way the other collider is then blocked. */
  lemma ColliderDetectionOrderMatters()
    ensures var g := {(0, 1), (1, 0), (2, 1), (1, 2), (3, 2), (2, 3)};
            var sepsets := map[(0, 2) := {}, (2, 0) := {}, (3, 1) := {}, (1, 3) := {}];
            var first := CDPass(Start(g), [(0, 1, 2), (2, 1, 0), (1, 2, 3), (3, 2, 1)], SepsetRule(sepsets));
            var second := CDPass(Start(g), [(3, 2, 1), (1, 2, 3), (0, 1, 2), (2, 1, 0)], SepsetRule(sepsets));
            && first.arcs == {(0, 1), (2, 1), (3, 2), (2, 3)}
            && second.arcs == {(0, 1), (1, 0), (1, 2), (3, 2)}
  {
    var g: Arcs<int> := {(0, 1), (1, 0), (2, 1), (1, 2), (3, 2), (2, 3)};
    var sepsets: map<(int, int), set<int>> := map[(0, 2) := {}, (2, 0) := {}, (3, 1) := {}, (1, 3) := {}];
    var valid := SepsetRule(sepsets);
    var a1 := CDStep(Start(g), (0, 1, 2), valid);
    assert a1.arcs == {(0, 1), (2, 1), (3, 2), (2, 3)};
    var a2 := CDStep(a1, (2, 1, 0), valid);
    assert a2 == a1;
    var a3 := CDStep(a2, (1, 2, 3), valid);
    assert a3 == a2;
    var a4 := CDStep(a3, (3, 2, 1), valid);
    assert a4 == a3;
    var b1 := CDStep(Start(g), (3, 2, 1), valid);
    assert b1.arcs == {(0, 1), (1, 0), (1, 2), (3, 2)};
    var b2 := CDStep(b1, (1, 2, 3), valid);
    assert b2 == b1;
    var b3 := CDStep(b2, (0, 1, 2), valid);
    assert b3 == b2;
    var b4 := CDStep(b3, (2, 1, 0), valid);
    assert b4 == b3;
  }

  // ---------------------------------------------------------------------
  // Relational bivariate orientation (RBO)
  // ---------------------------------------------------------------------

  /** The source checks 1 - 2 and 3 - 2 are both still undirected. */
  predicate RBOOrientable<N(==)>(g: Arcs<N>, t: (N, N, N)) {
    Undirected(g, t.0, t.1) && Undirected(g, t.2, t.1)
  }

  /** Node 2 is in sepset(1, 3) or intersects one of its members: a common
      cause, oriented 2 -> 3; otherwise a common effect, oriented 3 -> 2. */
  predicate CommonCause<N(==)>(sepsets: map<(N, N), set<N>>, intersects: (N, N) -> bool, t: (N, N, N))
    requires (t.0, t.2) in sepsets
  {
    var s := sepsets[(t.0, t.2)];
    t.1 in s || exists v | v in s :: intersects(t.1, v)
  }

  function RBOTarget<N(==)>(sepsets: map<(N, N), set<N>>, intersects: (N, N) -> bool, t: (N, N, N)): (N, N)
    requires (t.0, t.2) in sepsets
  {
    if CommonCause(sepsets, intersects, t) then (t.2, t.1) else (t.1, t.2)
  }

  /** The validity check is supplied by the caller (RCD's checks that the
      triple is still orientable and that a sepset was recorded for 1, 3);
      `valid` is its graph-independent part, which implies the sepset lookup
      the finder performs next succeeds. */
  function RBOStep<N(==)>(st: Pass<N>, t: (N, N, N), sepsets: map<(N, N), set<N>>, intersects: (N, N) -> bool, valid: Filter<N>): Pass<N>
    requires valid(t) ==> (t.0, t.2) in sepsets
  {
    if RBOOrientable(st.arcs, t) && valid(t) then Yield(st, RBOTarget(sepsets, intersects, t)) else st
  }

  function RBOPass<N(==)>(st: Pass<N>, order: seq<(N, N, N)>, sepsets: map<(N, N), set<N>>, intersects: (N, N) -> bool, valid: Filter<N>): Pass<N>
    requires forall t | t in order :: valid(t) ==> (t.0, t.2) in sepsets
    decreases |order|
  {
    if order == [] then st
    else RBOPass(RBOStep(st, order[0], sepsets, intersects, valid), order[1..], sepsets, intersects, valid)
  }

  lemma RBOStepFacts<N>(g: Arcs<N>, st: Pass<N>, t: (N, N, N), sepsets: map<(N, N), set<N>>, intersects: (N, N) -> bool, valid: Filter<N>)
    requires Sound(g, st) && t.1 != t.2
    requires valid(t) ==> (t.0, t.2) in sepsets
    ensures Sound(g, RBOStep(st, t, sepsets, intersects, valid))
    ensures RBOStep(st, t, sepsets, intersects, valid).arcs <= st.arcs
    ensures !(RBOOrientable(RBOStep(st, t, sepsets, intersects, valid).arcs, t) && valid(t))
    ensures forall e | e in st.arcs && e !in RBOStep(st, t, sepsets, intersects, valid).arcs ::
              RBOOrientable(st.arcs, t) && valid(t) && e == RBOTarget(sepsets, intersects, t)
  {
    if RBOOrientable(st.arcs, t) && valid(t) {
      YieldSound(g, st, RBOTarget(sepsets, intersects, t));
    }
  }

  lemma {:induction false} RBOPassFacts<N>(g: Arcs<N>, st: Pass<N>, order: seq<(N, N, N)>, sepsets: map<(N, N), set<N>>, intersects: (N, N) -> bool, valid: Filter<N>)
    requires Sound(g, st)
    requires forall t | t in order :: t.1 != t.2 && (valid(t) ==> (t.0, t.2) in sepsets)
    ensures Sound(g, RBOPass(st, order, sepsets, intersects, valid))
    ensures RBOPass(st, order, sepsets, intersects, valid).arcs <= st.arcs
    ensures forall t | t in order :: !(RBOOrientable(RBOPass(st, order, sepsets, intersects, valid).arcs, t) && valid(t))
    ensures forall e | e in st.arcs && e !in RBOPass(st, order, sepsets, intersects, valid).arcs ::
              exists t :: t in order && RBOOrientable(st.arcs, t) && valid(t) && e == RBOTarget(sepsets, intersects, t)
    decreases |order|
  {
    if order != [] {
      var t0 := order[0];
      assert t0 in order;
      var st1 := RBOStep(st, t0, sepsets, intersects, valid);
      var r := RBOPass(st, order, sepsets, intersects, valid);
      RBOStepFacts(g, st, t0, sepsets, intersects, valid);
      forall t | t in order[1..]
        ensures t.1 != t.2 && (valid(t) ==> (t.0, t.2) in sepsets)
      {
        assert t in order;
      }
      RBOPassFacts(g, st1, order[1..], sepsets, intersects, valid);
      forall t | t in order
        ensures !(RBOOrientable(r.arcs, t) && valid(t))
      {
        if t != t0 {
          assert t in order[1..];
        }
      }
      forall e | e in st.arcs && e !in r.arcs
        ensures exists t :: t in order && RBOOrientable(st.arcs, t) && valid(t) && e == RBOTarget(sepsets, intersects, t)
      {
        if e !in st1.arcs {
          assert RBOOrientable(st.arcs, t0) && valid(t0) && e == RBOTarget(sepsets, intersects, t0);
        } else {
          var t :| t in order[1..] && RBOOrientable(st1.arcs, t) && valid(t) && e == RBOTarget(sepsets, intersects, t);
          assert t in order;
        }
      }
    }
  }

  /** The RBO finder applied as RCD applies it, with its generator's triples
      in `order`: each valid triple orients 2 - 3 as a common cause or a
      common effect, and afterwards no triple is still a valid candidate. */
  function ApplyRBO<N(==)>(g: Arcs<N>, order: seq<(N, N, N)>, sepsets: map<(N, N), set<N>>, intersects: (N, N) -> bool, valid: Filter<N>): (r: Pass<N>)
    requires SetOf(order) == UnshieldedTriples(g)
    requires forall t | t in order :: valid(t) ==> (t.0, t.2) in sepsets
    ensures Sound(g, r)
    ensures forall e | e in g && e !in r.arcs ::
              exists t :: t in order && Unshielded(g, t) && RBOOrientable(g, t) && valid(t) && e == RBOTarget(sepsets, intersects, t)
    ensures forall t | t in order :: !(RBOOrientable(r.arcs, t) && valid(t))
  {
    RBOFacts(g, order, sepsets, intersects, valid);
    RBOPass(Start(g), order, sepsets, intersects, valid)
  }

  lemma RBOFacts<N>(g: Arcs<N>, order: seq<(N, N, N)>, sepsets: map<(N, N), set<N>>, intersects: (N, N) -> bool, valid: Filter<N>)
    requires SetOf(order) == UnshieldedTriples(g)
    requires forall t | t in order :: valid(t) ==> (t.0, t.2) in sepsets
    ensures Sound(g, RBOPass(Start(g), order, sepsets, intersects, valid))
    ensures forall e | e in g && e !in RBOPass(Start(g), order, sepsets, intersects, valid).arcs ::
              exists t :: t in order && Unshielded(g, t) && RBOOrientable(g, t) && valid(t) && e == RBOTarget(sepsets, intersects, t)
    ensures forall t | t in order :: !(RBOOrientable(RBOPass(Start(g), order, sepsets, intersects, valid).arcs, t) && valid(t))
  {
    var r := RBOPass(Start(g), order, sepsets, intersects, valid);
    forall t | t in order
      ensures t.1 != t.2 && Unshielded(g, t)
    {
      assert t in UnshieldedTriples(g);
      UnshieldedTriplesExact(g, t);
    }
    SoundStart(g);
    RBOPassFacts(g, Start(g), order, sepsets, intersects, valid);
  }
}
