/** The undirected entity graph the schema generator keeps while it picks the
    endpoints of new relationships, the breadth-first search that decides
    whether two entities are already connected, and the choice of an entity
    pair, with the random picker supplied by the caller. */
module EntityGraphs {
  import opened Wrappers
  import opened Collections

  type Pair = (string, string)

  /** An edge (a, b) joins a and b in both directions. */
  datatype Graph = Graph(nodes: set<string>, edges: set<Pair>)

  predicate Adjacent(edges: set<Pair>, a: string, b: string) {
    (a, b) in edges || (b, a) in edges
  }

  /** Every node that some edge touches. */
  function Ends(edges: set<Pair>): set<string> {
    (set e | e in edges :: e.0) + (set e | e in edges :: e.1)
  }

  /** The nodes adjacent to some member of `from`. */
  function Touching(edges: set<Pair>, from: set<string>): (r: set<string>)
    ensures forall y :: y in r <==> exists x :: x in from && Adjacent(edges, x, y)
    ensures r <= Ends(edges)
  {
    var r := (set e | e in edges && e.0 in from :: e.1) + (set e | e in edges && e.1 in from :: e.0);
    forall y | exists x :: x in from && Adjacent(edges, x, y) ensures y in r {
      var x :| x in from && Adjacent(edges, x, y);
      if (x, y) in edges {
        assert (x, y).1 == y;
      } else {
        assert (y, x).0 == y;
      }
    }
    r
  }

  // ---------------------------------------------------------------------------
  // Connectivity, the reference the search is measured against.

  predicate IsWalk(edges: set<Pair>, w: seq<string>) {
    |w| > 0 && forall i :: 0 <= i < |w| - 1 ==> Adjacent(edges, w[i], w[i + 1])
  }

  /** Some walk along the edges leads from `a` to `b`. */
  ghost predicate Connected(edges: set<Pair>, a: string, b: string) {
    exists w :: IsWalk(edges, w) && w[0] == a && w[|w| - 1] == b
  }

  lemma ConnectedStep(edges: set<Pair>, a: string, x: string, y: string)
    requires Connected(edges, a, x) && Adjacent(edges, x, y)
    ensures Connected(edges, a, y)
  {
    var w :| IsWalk(edges, w) && w[0] == a && w[|w| - 1] == x;
    var w' := w + [y];
    assert forall i :: 0 <= i < |w'| - 1 ==> Adjacent(edges, w'[i], w'[i + 1]) by {
      forall i | 0 <= i < |w'| - 1 ensures Adjacent(edges, w'[i], w'[i + 1]) {
        if i < |w| - 1 {
          assert w'[i] == w[i] && w'[i + 1] == w[i + 1];
        }
      }
    }
    assert IsWalk(edges, w');
  }

  lemma ConnectedItself(edges: set<Pair>, a: string)
    ensures Connected(edges, a, a)
  {
    assert IsWalk(edges, [a]);
  }

  /** Adding edges never disconnects anything. */
  lemma ConnectedMore(edges: set<Pair>, more: set<Pair>, a: string, b: string)
    requires Connected(edges, a, b) && edges <= more
    ensures Connected(more, a, b)
  {
    var w :| IsWalk(edges, w) && w[0] == a && w[|w| - 1] == b;
    assert IsWalk(more, w);
  }

  /** A set that holds `w[0]` and every neighbour of its members holds the
      whole walk. */
  lemma {:induction false} ClosedHoldsWalk(edges: set<Pair>, v: set<string>, w: seq<string>)
    requires IsWalk(edges, w) && w[0] in v
    requires forall x, y :: x in v && Adjacent(edges, x, y) ==> y in v
    ensures w[|w| - 1] in v
  {
    if |w| > 1 {
      var w' := w[..|w| - 1];
      assert IsWalk(edges, w') by {
        forall i | 0 <= i < |w'| - 1 ensures Adjacent(edges, w'[i], w'[i + 1]) {
          assert w'[i] == w[i] && w'[i + 1] == w[i + 1];
        }
      }
      ClosedHoldsWalk(edges, v, w');
      assert Adjacent(edges, w[|w| - 2], w[|w| - 1]);
    }
  }

  // ---------------------------------------------------------------------------
  // The breadth-first search of `doesPathExist`.

  /** New nodes of a round are edge ends not seen before, so the unseen ends shrink. */
  lemma FewerUnseen(edges: set<Pair>, visited: set<string>, next: set<string>)
    requires next <= Ends(edges) && next != {} && next !! visited
    ensures |Ends(edges) - (visited + next)| < |Ends(edges) - visited|
  {
    var y :| y in next;
    assert y in Ends(edges) - visited && y !in Ends(edges) - (visited + next);
    SubsetSmaller(Ends(edges) - (visited + next), Ends(edges) - visited);
  }

  /** The rounds of the search loop: `visited` holds every node found so far
      and `frontier` the nodes found in the last round. The search succeeds as
      soon as a round finds `to`. */
  function Explore(edges: set<Pair>, to: string, visited: set<string>, frontier: set<string>): bool
    requires frontier <= visited
    decreases |Ends(edges) - visited|
  {
    if frontier == {} then false
    else
      var next := Touching(edges, frontier) - visited;
      if to in next then true
      else if next == {} then false
      else
        FewerUnseen(edges, visited, next);
        Explore(edges, to, visited + next, next)
  }

  /** Whatever the search finds is connected to where it started. */
  lemma {:induction false} ExploreSound(edges: set<Pair>, from: string, to: string,
                                        visited: set<string>, frontier: set<string>)
    requires frontier <= visited
    requires forall x :: x in visited ==> Connected(edges, from, x)
    requires Explore(edges, to, visited, frontier)
    ensures Connected(edges, from, to)
    decreases |Ends(edges) - visited|
  {
    var next := Touching(edges, frontier) - visited;
    if to in next {
      var x :| x in frontier && Adjacent(edges, x, to);
      ConnectedStep(edges, from, x, to);
    } else {
      FewerUnseen(edges, visited, next);
      forall y | y in visited + next ensures Connected(edges, from, y) {
        if y in next {
          var x :| x in frontier && Adjacent(edges, x, y);
          ConnectedStep(edges, from, x, y);
        }
      }
      ExploreSound(edges, from, to, visited + next, next);
    }
  }

  /** The search misses nothing: while only the frontier may have unseen
      neighbours, a node connected to a visited one is found. */
  lemma {:induction false} ExploreComplete(edges: set<Pair>, from: string, to: string,
                                           visited: set<string>, frontier: set<string>)
    requires frontier <= visited && from in visited && to !in visited
    requires forall x, y :: x in visited && x !in frontier && Adjacent(edges, x, y) ==> y in visited
    requires Connected(edges, from, to)
    ensures Explore(edges, to, visited, frontier)
    decreases |Ends(edges) - visited|
  {
    var w :| IsWalk(edges, w) && w[0] == from && w[|w| - 1] == to;
    var next := Touching(edges, frontier) - visited;
    if frontier == {} {
      ClosedHoldsWalk(edges, visited, w);
    } else if to !in next {
      forall x, y | x in visited + next && x !in next && Adjacent(edges, x, y)
        ensures y in visited + next
      {
        if x in frontier {
          assert y in Touching(edges, frontier);
        }
      }
      if next == {} {
        ClosedHoldsWalk(edges, visited, w);
      } else {
        FewerUnseen(edges, visited, next);
        ExploreComplete(edges, from, to, visited + next, next);
      }
    }
  }

  /** A node already visited is never reported. */
  lemma {:induction false} ExploreSkipsVisited(edges: set<Pair>, to: string, visited: set<string>,
                                               frontier: set<string>)
    requires frontier <= visited && to in visited
    ensures !Explore(edges, to, visited, frontier)
    decreases |Ends(edges) - visited|
  {
    if frontier != {} {
      var next := Touching(edges, frontier) - visited;
      if next != {} {
        FewerUnseen(edges, visited, next);
        ExploreSkipsVisited(edges, to, visited + next, next);
      }
    }
  }

  /** `doesPathExist`: for two distinct nodes, exactly whether they are
      connected. A node counts as reaching itself only through a self-loop,
      because the search starts with it already visited. */
  function DoesPathExist(edges: set<Pair>, from: string, to: string): (b: bool)
    ensures from != to ==> (b <==> Connected(edges, from, to))
    ensures from == to ==> (b <==> Adjacent(edges, from, from))
  {
    var neighbors := Touching(edges, {from});
    if to in neighbors then
      FirstRound(edges, from, to);
      true
    else
      SearchDecides(edges, from, to);
      Explore(edges, to, {from} + neighbors, neighbors)
  }

  lemma FirstRound(edges: set<Pair>, from: string, to: string)
    requires to in Touching(edges, {from})
    ensures Connected(edges, from, to) && (from == to ==> Adjacent(edges, from, from))
  {
    assert exists x :: x in {from} && Adjacent(edges, x, to);
    ConnectedItself(edges, from);
    ConnectedStep(edges, from, from, to);
  }

  /** The rounds after the first decide connectivity. */
  lemma SearchDecides(edges: set<Pair>, from: string, to: string)
    requires to !in Touching(edges, {from})
    ensures var neighbors := Touching(edges, {from});
            var found := Explore(edges, to, {from} + neighbors, neighbors);
            (from != to ==> (found <==> Connected(edges, from, to)))
            && (from == to ==> !found && !Adjacent(edges, from, from))
  {
    var neighbors := Touching(edges, {from});
    var visited := {from} + neighbors;
    forall x | x in visited ensures Connected(edges, from, x) {
      ConnectedItself(edges, from);
      if x in neighbors {
        assert exists f :: f in {from} && Adjacent(edges, f, x);
        ConnectedStep(edges, from, from, x);
      }
    }
    if from == to {
      ExploreSkipsVisited(edges, to, visited, neighbors);
      assert !Adjacent(edges, from, from);
    } else {
      if Explore(edges, to, visited, neighbors) {
        ExploreSound(edges, from, to, visited, neighbors);
      }
      if Connected(edges, from, to) {
        forall x, y | x in visited && x !in neighbors && Adjacent(edges, x, y) ensures y in visited {
          assert x == from && x in {from};
        }
        ExploreComplete(edges, from, to, visited, neighbors);
      }
    }
  }

  // ---------------------------------------------------------------------------
  // Choosing the endpoints of a new relationship.

  /** The injected `entityPairPicker`, given how many times it has been called
      before and the candidate list; `None` when it raises (as sampling from
      an empty list does). */
  type Picker = (nat, seq<Pair>) -> Option<Pair>

  const PickerFailed := "entityPairPicker raised"
  const NotInGraph := "The node is not in the graph"

  /** A picker that always returns a member of a non-empty candidate list. */
  ghost predicate Samples(pick: Picker) {
    forall n: nat, cs: seq<Pair> :: |cs| > 0 ==> pick(n, cs).Some? && pick(n, cs).value in cs
  }

  function AddEdge(g: Graph, p: Pair): Graph {
    Graph(g.nodes + {p.0, p.1}, g.edges + {p})
  }

  /** What a choice leaves behind: the pair, the remaining candidates, the
      entity graph and the number of picker calls made so far. */
  datatype Choice = Choice(pair: Pair, cands: seq<Pair>, graph: Graph, picks: nat)

  /** The loop of `chooseEntityPair` when cycles are forbidden: pick, accept the
      pair when its endpoints are not yet connected, and drop it from the
      candidates either way. */
  function ChooseAcyclic(pick: Picker, cands: seq<Pair>, g: Graph, picks: nat): (r: Result<Choice>)
    ensures r.Ok? ==> r.value.pair in cands && r.value.graph == AddEdge(g, r.value.pair)
    ensures r.Ok? ==> SetOf(r.value.cands) <= SetOf(cands)
    ensures r.Ok? && PairwiseDistinct(cands) ==>
              PairwiseDistinct(r.value.cands) && r.value.pair !in r.value.cands
    ensures r.Ok? ==> |r.value.cands| < |cands| && r.value.picks > picks
    ensures r.Ok? && r.value.pair.0 != r.value.pair.1 ==>
              !Connected(g.edges, r.value.pair.0, r.value.pair.1)
    ensures r.Ok? && r.value.pair.0 == r.value.pair.1 ==> !Adjacent(g.edges, r.value.pair.0, r.value.pair.0)
    decreases |cands|
  {
    var picked := pick(picks, cands);
    if picked.None? then Err(PickerFailed)
    else
    var p := picked.value;
    if p.0 !in g.nodes then Err(NotInGraph)
    else
      var found := !DoesPathExist(g.edges, p.0, p.1);
      var rest :- Remove(cands, p);
      if found then Ok(Choice(p, rest, AddEdge(g, p), picks + 1))
      else
        var c :- ChooseAcyclic(pick, rest, g, picks + 1);
        Ok(c)
  }

  /** While some candidate still joins two separate nodes of the graph, a
      picker that samples from the candidates never exhausts them. */
  lemma {:induction false} ChooseAcyclicFinds(pick: Picker, cands: seq<Pair>, g: Graph, picks: nat, q: Pair)
    requires Samples(pick)
    requires forall p :: p in cands ==> p.0 in g.nodes && p.0 != p.1
    requires q in cands && !Connected(g.edges, q.0, q.1)
    ensures ChooseAcyclic(pick, cands, g, picks).Ok?
    decreases |cands|
  {
    var p := pick(picks, cands).value;
    if DoesPathExist(g.edges, p.0, p.1) {
      assert p != q;
      ChooseAcyclicFinds(pick, Remove(cands, p).value, g, picks + 1, q);
    }
  }

  /** `chooseEntityPair`: with cycles allowed the picker's pair is used as it
      is (and removed from the candidates when only one relationship per pair
      is allowed); otherwise the acyclic loop runs. */
  function ChooseEntityPair(pick: Picker, cands: seq<Pair>, onePerPair: bool, allowCycles: bool,
                            g: Graph, picks: nat): (r: Result<Choice>)
    ensures allowCycles ==> (r.Ok? <==> pick(picks, cands).Some? && (onePerPair ==> pick(picks, cands).value in cands))
    ensures allowCycles && r.Ok? ==>
              r.value.pair == pick(picks, cands).value && r.value.graph == g && r.value.picks == picks + 1
    ensures allowCycles && r.Ok? && !onePerPair ==> r.value.cands == cands
    ensures allowCycles && r.Ok? && onePerPair ==> r.value.cands == Remove(cands, r.value.pair).value
    ensures !allowCycles ==> r == ChooseAcyclic(pick, cands, g, picks)
  {
    if allowCycles then
      var picked := pick(picks, cands);
      if picked.None? then Err(PickerFailed)
      else
      var p := picked.value;
      if onePerPair then
        var rest :- Remove(cands, p);
        Ok(Choice(p, rest, g, picks + 1))
      else Ok(Choice(p, cands, g, picks + 1))
    else ChooseAcyclic(pick, cands, g, picks)
  }

  // ---------------------------------------------------------------------------
  // Forests.

  /** Edges added one by one, each joining two nodes the earlier edges left
      apart: no edge ever closes a cycle. */
  ghost predicate Forest(es: seq<Pair>) {
    forall j :: 0 <= j < |es| ==> es[j].0 != es[j].1 && !Connected(SetOf(es[..j]), es[j].0, es[j].1)
  }

  lemma ForestGrows(es: seq<Pair>, p: Pair)
    requires Forest(es) && p.0 != p.1 && !Connected(SetOf(es), p.0, p.1)
    ensures Forest(es + [p])
  {
    var es' := es + [p];
    forall j | 0 <= j < |es'| ensures es'[j].0 != es'[j].1 && !Connected(SetOf(es'[..j]), es'[j].0, es'[j].1) {
      if j < |es| {
        assert es'[..j] == es[..j];
      } else {
        assert es'[..j] == es;
      }
    }
  }
}
