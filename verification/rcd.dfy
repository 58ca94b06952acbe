/** The state and the primitives of RCD (RCD.py): the configuration its
    constructor checks, one abstract ground graph per perspective built at a
    multiple of the hop threshold, the neighbours of an effect in its
    perspective's graph, the size-`k` separating-set search over them, and
    the removal of a dependency's edges from every graph. */
module RCD {
  import opened Wrappers
  import opened Collections
  import opened Schemas
  import opened RelVars
  import opened Sepsets
  import opened AGGs
  import Parents
  import Space
  import Config
  import CausalModel
  import Digraphs

  /** `perspectiveToAgg`. */
  type Aggs = map<string, Agg>

  /** `sepsets`: keyed by the ordered pair of variables. */
  type SepsetTable = map<(RelVar, RelVar), set<RelVar>>

  /** The learner: its configuration, the graphs (None before they are
      built), the separating sets (None before Phase I), the CI cache, and
      the two results (None before the phase that sets them). The depth is
      an integer once Phase I has defaulted it, and may then be negative. */
  datatype Rcd = Rcd(schema: Schema, hop: nat, depth: Option<int>, aggs: Option<Aggs>,
                     sepsets: Option<SepsetTable>, cache: CiCache,
                     undirected: Option<seq<RelDep>>, oriented: Option<set<RelDep>>)

  /** The error `max` raises on an empty sequence. */
  const EmptyMax := "ValueError: max() arg is an empty sequence"

  /** The constructor: the hop threshold is checked first, then the depth;
      nothing has been learned yet. */
  function NewRCD(schema: Schema, hop: Space.Num, depth: Option<Space.Num>): (r: Result<Rcd>)
    ensures r.Ok? <==> Config.NonNegativeInt(hop) && (depth.None? || Config.NonNegativeInt(depth.value))
    ensures !Config.NonNegativeInt(hop) ==> r == Err(Config.BadHop)
    ensures Config.NonNegativeInt(hop) && r.Err? ==> r.msg == Config.BadDepth
    ensures r.Ok? ==> r.value.schema == schema && r.value.hop == hop.i
    ensures r.Ok? ==> (r.value.depth.None? <==> depth.None?) && (depth.Some? ==> r.value.depth.value == depth.value.i)
    ensures r.Ok? ==> r.value.aggs.None? && r.value.sepsets.None? && r.value.cache == map[]
                      && r.value.undirected.None? && r.value.oriented.None?
  {
    var h :- Config.CheckHop(hop);
    var d :- Config.CheckDepth(depth);
    Ok(Rcd(schema, h, if d.None? then None else Some(d.value), None, None, map[], None, None))
  }

  // ---------------------------------------------------------------------------
  // The graphs.

  /** The names of the schema's items: the perspectives. */
  function Perspectives(s: Schema): set<string> {
    set n | n in Names(s.entities) + Names(s.relationships)
  }

  /** `constructAggsFromDependencies`: one graph per schema item over the
      given dependencies, at `times` times the hop threshold. */
  function ConstructAggs(s: Schema, deps: seq<RelDep>, hop: nat, times: nat): (r: Aggs)
    ensures r.Keys == Perspectives(s)
    ensures forall p | p in r :: Wf(r[p]) && r[p].perspective == p && r[p].hop == times * hop && r[p].cache == map[]
  {
    map p | p in Perspectives(s) :: Assemble(s, deps, p, times * hop, VarsAt(s, p, times * hop))
  }

  /** Each graph is the one the AbstractGroundGraph constructor builds. */
  lemma ConstructAggsBuild(s: Schema, deps: seq<RelDep>, hop: nat, times: nat, p: string)
    requires p in Perspectives(s)
    ensures Build(CausalModel.Model(s, deps, {}, {}), p, Space.IntNum(times * hop)) == Ok(ConstructAggs(s, deps, hop, times)[p])
  {
  }

  /** No edge of any graph carries a dependency outside `live`. */
  ghost predicate TagsWithin(aggs: Aggs, live: set<RelDep>) {
    forall p | p in aggs :: forall a | a in aggs[p].edges :: aggs[p].edges[a] <= live
  }

  lemma TagsFromDeps(s: Schema, deps: seq<RelDep>, a: (Node, Node))
    ensures Tags(s, deps, a) <= SetOf(deps)
  {
  }

  /** The graphs only carry the dependencies they were built from. */
  lemma ConstructedTags(s: Schema, deps: seq<RelDep>, hop: nat, times: nat)
    ensures TagsWithin(ConstructAggs(s, deps, hop, times), SetOf(deps))
  {
    var aggs := ConstructAggs(s, deps, hop, times);
    forall p, a | p in aggs && a in aggs[p].edges
      ensures aggs[p].edges[a] <= SetOf(deps)
    {
      TagsFromDeps(s, deps, a);
    }
  }

  // ---------------------------------------------------------------------------
  // Neighbours.

  /** Whether a variable's path is within an optional length bound. */
  predicate Fits(limit: Option<nat>, v: RelVar) {
    limit.None? || |v.path| <= limit.value
  }

  /** Predecessors and successors of `x`. */
  function Adj(g: Agg, x: Node): set<Node> {
    (set a | a in g.edges && a.1 == x :: a.0) + (set a | a in g.edges && a.0 == x :: a.1)
  }

  /** The effect is a variable node of its perspective's graph. */
  predicate Located(aggs: Aggs, v: RelVar) {
    Base(v) in aggs && VarNode(v) in NodeSet(aggs[Base(v)])
  }

  /** The neighbour variables of `effect` (lines 106-129 of the source):
      variable neighbours within the bound, and both sources of an
      intersection neighbour whose sources are both within it; the cause is
      left out. */
  function Neighbours(g: Agg, effect: RelVar, cause: RelVar, limit: Option<nat>): (r: set<RelVar>)
    ensures cause !in r
    ensures forall v | v in r :: Fits(limit, v)
  {
    var adj := Adj(g, VarNode(effect));
    ((set x | x in adj && x.VarNode? && Fits(limit, x.v) :: x.v)
     + (set x | x in adj && x.IntNode? && Fits(limit, x.i.relVar1) && Fits(limit, x.i.relVar2) :: x.i.relVar1)
     + (set x | x in adj && x.IntNode? && Fits(limit, x.i.relVar1) && Fits(limit, x.i.relVar2) :: x.i.relVar2))
    - {cause}
  }

  /** A neighbour is adjacent to the effect, or a source of an adjacent intersection. */
  lemma NeighbourSource(g: Agg, effect: RelVar, cause: RelVar, limit: Option<nat>, v: RelVar)
    requires v in Neighbours(g, effect, cause, limit)
    ensures VarNode(v) in Adj(g, VarNode(effect))
            || exists i :: IntNode(i) in Adj(g, VarNode(effect)) && (v == i.relVar1 || v == i.relVar2)
  {
  }

  /** Phase I's neighbours are among Phase II's. */
  lemma BoundedNeighbours(g: Agg, effect: RelVar, cause: RelVar, k: nat)
    ensures Neighbours(g, effect, cause, Some(k)) <= Neighbours(g, effect, cause, None)
  {
  }

  /** Fewer edges, fewer neighbours. */
  lemma NeighboursShrink(g: Agg, h: Agg, effect: RelVar, cause: RelVar, limit: Option<nat>)
    requires h.edges.Keys <= g.edges.Keys
    ensures Neighbours(h, effect, cause, limit) <= Neighbours(g, effect, cause, limit)
  {
    assert Adj(h, VarNode(effect)) <= Adj(g, VarNode(effect));
  }

  /** The neighbours of a dependency's effect, none when it is not located. */
  function Nb(aggs: Aggs, cause: RelVar, effect: RelVar, limit: Option<nat>): set<RelVar> {
    if Located(aggs, effect) then Neighbours(aggs[Base(effect)], effect, cause, limit) else {}
  }

  /** `findSepset`: the conditioning sets of exactly `size` drawn from the
      effect's neighbours, the first one the tester finds independent, and
      whether any set was tried. Looking the effect's graph up fails with a
      KeyError; asking a graph for a variable it does not hold fails as the
      graph library does. */
  method FindSepset(aggs: Aggs, cache: CiCache, cause: RelVar, effect: RelVar, size: nat, limit: Option<nat>, ci: CiTest)
    returns (r: Result<(Option<set<RelVar>>, bool)>, cache': CiCache, asked: seq<set<RelVar>>)
    requires Agrees(cache, ci)
    ensures r.Err? <==> !Located(aggs, effect)
    ensures r.Err? ==> cache' == cache && r.msg == (if Base(effect) !in aggs then Parents.KeyError else NotInDigraph)
    ensures r.Ok? ==> (r.value.1 <==> size <= |Nb(aggs, cause, effect, limit)|)
    ensures r.Ok? && r.value.0.Some? ==>
              r.value.0.value in Candidates(Nb(aggs, cause, effect, limit), size) && ci(cause, effect, r.value.0.value)
    ensures r.Ok? && r.value.0.None? ==>
              forall c :: c in Candidates(Nb(aggs, cause, effect, limit), size) ==> !ci(cause, effect, c)
    ensures r.Ok? ==> AskedOnce(cache, cache', cause, effect, asked, ci)
    ensures Agrees(cache', ci)
  {
    if Base(effect) !in aggs {
      return Err(Parents.KeyError), cache, [];
    }
    if VarNode(effect) !in NodeSet(aggs[Base(effect)]) {
      return Err(NotInDigraph), cache, [];
    }
    var nb := Neighbours(aggs[Base(effect)], effect, cause, limit);
    var sepset, tested;
    sepset, tested, cache', asked := FindSepsetWithSize(cause, effect, nb, size, cache, ci);
    r := Ok((sepset, tested));
  }

  // ---------------------------------------------------------------------------
  // Removing dependencies.

  /** Every tag in `ds` dropped at once: an edge all of whose tags are in
      `ds` disappears. */
  function DropAll(edges: map<(Node, Node), set<RelDep>>, ds: set<RelDep>): (r: map<(Node, Node), set<RelDep>>)
    ensures r.Keys <= edges.Keys
  {
    map a | a in edges && !(edges[a] <= ds) :: edges[a] - ds
  }

  /** Dropping nothing changes nothing. */
  lemma DropNothing(edges: map<(Node, Node), set<RelDep>>)
    requires forall a | a in edges :: edges[a] != {}
    ensures DropAll(edges, {}) == edges
  {
    forall a | a in edges ensures !(edges[a] <= {}) && edges[a] - {} == edges[a] {
      var x :| x in edges[a];
    }
  }

  /** Dropping one more tag with the graph's own removal is dropping the
      larger set: so the source's loop over a set of dependencies, in any
      order, drops the whole set. */
  lemma DropAllTag(edges: map<(Node, Node), set<RelDep>>, ds: set<RelDep>, d: RelDep)
    requires forall a | a in edges :: edges[a] != {}
    ensures DropTag(DropAll(edges, ds), d) == DropAll(edges, ds + {d})
  {
    var l := DropTag(DropAll(edges, ds), d);
    var r := DropAll(edges, ds + {d});
    forall a ensures a in l <==> a in r {
      if a in edges && !(edges[a] <= ds) {
        assert (edges[a] - ds == {d}) <==> edges[a] <= ds + {d};
      }
    }
    assert forall a | a in l :: l[a] == r[a];
  }

  /** Every graph keeps the invariants of a built graph. The trigger keeps
      the solver from unfolding `Wf` for every graph it meets. */
  ghost predicate AllWf(aggs: Aggs) {
    forall p {:trigger Wf(aggs[p])} | p in aggs :: Wf(aggs[p])
  }

  /** The graph with the tags in `ds` dropped, as the graph's own removal
      leaves it after removing them one at a time: with no dependency to
      remove the graph is untouched, otherwise its ancestor cache is
      cleared too. */
  function DropFrom(g: Agg, ds: set<RelDep>): (r: Agg)
    ensures r.edges.Keys <= g.edges.Keys && r == g.(edges := r.edges, cache := r.cache)
  {
    if ds == {} then g else g.(edges := DropAll(g.edges, ds), cache := map[])
  }

  /** Dropping tags keeps a graph well formed, and drops exactly them. */
  lemma DropFromWf(g: Agg, ds: set<RelDep>)
    requires Wf(g)
    ensures Wf(DropFrom(g, ds)) && DropFrom(g, ds).edges == DropAll(g.edges, ds)
  {
    if ds == {} {
      DropNothing(g.edges);
    } else {
      var r := DropFrom(g, ds);
      assert NodeSet(r) == NodeSet(g) && ArcSet(r) <= ArcSet(g);
      assert Digraphs.Closed(NodeSet(r), ArcSet(r));
      forall a | a in r.edges ensures r.edges[a] != {} {
        assert !(g.edges[a] <= ds) && r.edges[a] == g.edges[a] - ds;
        var x :| x in g.edges[a] && x !in ds;
        assert x in r.edges[a];
      }
    }
  }

  /** `removeEdgesForDependency` for every dependency of a set, in any order. */
  method RemoveAll(g: Agg, deps: set<RelDep>) returns (g': Agg)
    requires Wf(g)
    ensures g' == DropFrom(g, deps) && Wf(g')
  {
    g' := g;
    var todo, done := deps, {};
    while todo != {}
      invariant todo + done == deps
      invariant g' == DropFrom(g, done) && Wf(g')
      decreases |todo|
    {
      var d :| d in todo;
      DropFromWf(g, done);
      DropFromWf(g, done + {d});
      var (h, _) := RemoveEdgesForDependency(g', d);
      DropAllTag(g.edges, done, d);
      g' := h;
      todo, done := todo - {d}, done + {d};
    }
  }

  /** Every graph is the old one with the tags in `ds` dropped. */
  ghost predicate DroppedEverywhere(a0: Aggs, a: Aggs, ds: set<RelDep>) {
    a.Keys == a0.Keys && forall p | p in a0 :: a[p] == DropFrom(a0[p], ds)
  }

  /** `propagateEdgeRemoval(deps)` without recursion: every graph, in
      turn, removes the edges of every dependency of the set. */
  method PropagateEdgeRemoval(aggs: Aggs, deps: set<RelDep>) returns (r: Aggs)
    requires AllWf(aggs)
    ensures DroppedEverywhere(aggs, r, deps) && AllWf(r)
  {
    r := map[];
    var todo := aggs.Keys;
    while todo != {}
      invariant todo <= aggs.Keys && r.Keys == aggs.Keys - todo
      invariant forall p | p in r :: r[p] == DropFrom(aggs[p], deps)
      invariant AllWf(r)
      decreases |todo|
    {
      var p :| p in todo;
      var g := RemoveAll(aggs[p], deps);
      r, todo := r[p := g], todo - {p};
    }
  }

  /** `g` is `g0` with some tags dropped, all of them in `allowed`. */
  ghost predicate ThinnedAgg(g0: Agg, g: Agg, allowed: set<RelDep>) {
    && g == g0.(edges := g.edges, cache := g.cache)
    && g.edges.Keys <= g0.edges.Keys
    && (forall a | a in g.edges :: g.edges[a] <= g0.edges[a] && g0.edges[a] - g.edges[a] <= allowed)
    && (forall a | a in g0.edges && a !in g.edges :: g0.edges[a] <= allowed)
  }

  /** Every graph has only lost tags, and only tags in `allowed`. */
  ghost predicate Thinned(a0: Aggs, a: Aggs, allowed: set<RelDep>) {
    a.Keys == a0.Keys && forall p {:trigger ThinnedAgg(a0[p], a[p], allowed)} | p in a0 :: ThinnedAgg(a0[p], a[p], allowed)
  }

  lemma ThinnedAggRefl(g: Agg, allowed: set<RelDep>)
    ensures ThinnedAgg(g, g, allowed)
  {
  }

  lemma ThinnedRefl(a: Aggs, allowed: set<RelDep>)
    ensures Thinned(a, a, allowed)
  {
    forall p | p in a ensures ThinnedAgg(a[p], a[p], allowed) {
      ThinnedAggRefl(a[p], allowed);
    }
  }

  lemma ThinnedAggTrans(g0: Agg, g1: Agg, g2: Agg, x: set<RelDep>, y: set<RelDep>)
    requires ThinnedAgg(g0, g1, x) && ThinnedAgg(g1, g2, y)
    ensures ThinnedAgg(g0, g2, x + y)
  {
  }

  lemma ThinnedTrans(a0: Aggs, a1: Aggs, a2: Aggs, x: set<RelDep>, y: set<RelDep>)
    requires Thinned(a0, a1, x) && Thinned(a1, a2, y)
    ensures Thinned(a0, a2, x + y)
  {
    forall p | p in a0 ensures ThinnedAgg(a0[p], a2[p], x + y) {
      ThinnedAggTrans(a0[p], a1[p], a2[p], x, y);
    }
  }

  lemma ThinnedWider(a0: Aggs, a: Aggs, x: set<RelDep>, y: set<RelDep>)
    requires Thinned(a0, a, x) && x <= y
    ensures Thinned(a0, a, y)
  {
    forall p | p in a0 ensures ThinnedAgg(a0[p], a[p], y) {
      assert ThinnedAgg(a0[p], a[p], x);
    }
  }

  /** Thinning twice within the same bound stays within it. */
  lemma ThinnedTransSame(a0: Aggs, a1: Aggs, a2: Aggs, x: set<RelDep>)
    requires Thinned(a0, a1, x) && Thinned(a1, a2, x)
    ensures Thinned(a0, a2, x)
  {
    ThinnedTrans(a0, a1, a2, x, x);
    ThinnedWider(a0, a2, x + x, x);
  }

  /** Dropping a set of tags everywhere thins by that set. */
  lemma DroppedThinned(a0: Aggs, a: Aggs, ds: set<RelDep>)
    requires AllWf(a0) && DroppedEverywhere(a0, a, ds)
    ensures Thinned(a0, a, ds)
  {
    forall p | p in a0 ensures ThinnedAgg(a0[p], a[p], ds) {
      DropFromWf(a0[p], ds);
    }
  }

  /** Thinning keeps every graph's tags inside any bound they were in. */
  lemma ThinnedTagsWithin(a0: Aggs, a: Aggs, x: set<RelDep>, live: set<RelDep>)
    requires Thinned(a0, a, x) && TagsWithin(a0, live)
    ensures TagsWithin(a, live)
  {
    forall p, e | p in a && e in a[p].edges ensures a[p].edges[e] <= live {
      assert ThinnedAgg(a0[p], a[p], x);
    }
  }

  /** Dropping a set of tags everywhere takes them out of every bound. */
  lemma DroppedTagsWithin(a0: Aggs, a: Aggs, ds: set<RelDep>, live: set<RelDep>)
    requires AllWf(a0) && DroppedEverywhere(a0, a, ds) && TagsWithin(a0, live)
    ensures TagsWithin(a, live - ds)
  {
    forall p, e | p in a && e in a[p].edges ensures a[p].edges[e] <= live - ds {
      DropFromWf(a0[p], ds);
      assert a[p].edges[e] == a0[p].edges[e] - ds;
    }
  }

  /** No edge of the graph carries a dependency of `ds`. */
  ghost predicate Untagged(g: Agg, ds: set<RelDep>) {
    forall a | a in g.edges :: g.edges[a] !! ds
  }

  /** The dependencies found on an edge that also carries one of `ds`, in
      any graph, and `ds` itself: the most one level of propagation can
      remove. */
  ghost function CoTagged(a0: Aggs, ds: set<RelDep>): set<RelDep> {
    ds + set p, a, x | p in a0 && a in a0[p].edges && x in a0[p].edges[a] && !(a0[p].edges[a] !! ds) :: x
  }

  /** The other tags met while removing one of `ds` from a thinned graph
      were co-tagged with it from the start. */
  lemma OthersCoTagged(a0: Aggs, a: Aggs, p: string, ds: set<RelDep>, d: RelDep)
    requires p in a0 && Thinned(a0, a, CoTagged(a0, ds)) && d in ds
    ensures OtherTags(a[p].edges, d) <= CoTagged(a0, ds)
  {
    assert ThinnedAgg(a0[p], a[p], CoTagged(a0, ds));
    forall x | x in OtherTags(a[p].edges, d) ensures x in CoTagged(a0, ds) {
      var e :| e in a[p].edges && d in a[p].edges[e] && x in a[p].edges[e];
      assert d in a0[p].edges[e] && x in a0[p].edges[e];
    }
  }

  /** The graph's own removal of one dependency drops exactly that tag. */
  lemma RemoveOneThinned(g: Agg, d: RelDep)
    requires Wf(g)
    ensures ThinnedAgg(g, RemoveEdgesForDependency(g, d).0, {d})
    ensures Untagged(RemoveEdgesForDependency(g, d).0, {d})
  {
    DropNothing(g.edges);
    DropAllTag(g.edges, {}, d);
    RemoveEdgesExact(g.edges, d);
  }

  /** No graph carries the tag `x` any longer. */
  ghost predicate GoneOne(a: Aggs, x: RelDep) {
    forall q, e | q in a && e in a[q].edges :: x !in a[q].edges[e]
  }

  /** From `a` to `a'` every tag stays on its edge, except `d` in graph `p`
      and the tags of `s`. */
  ghost predicate KeepsTags(a: Aggs, a': Aggs, p: string, d: RelDep, s: set<RelDep>) {
    forall q, e, y | q in a && e in a[q].edges && y in a[q].edges[e] && y !in s && (q != p || y != d) ::
      q in a' && e in a'[q].edges && y in a'[q].edges[e]
  }

  /** Every tag of `ys` that graph `q` carried on an edge in `a0` is still
      on that edge in `a`. */
  ghost predicate Intact(a0: Aggs, a: Aggs, q: string, ys: set<RelDep>) {
    q in a0 ==> q in a && forall e, y | e in a0[q].edges && y in ys && y in a0[q].edges[e] ::
                            e in a[q].edges && y in a[q].edges[e]
  }

  /** Every tag outside `deps` that some graph carried in `a0` is either
      still on its edge or gone from every graph. */
  ghost predicate KeptOrGone(a0: Aggs, a: Aggs, deps: set<RelDep>) {
    forall p, e, x | p in a0 && e in a0[p].edges && x in a0[p].edges[e] && x !in deps ::
      (p in a && e in a[p].edges && x in a[p].edges[e]) || GoneOne(a, x)
  }

  /** The tags that shared an edge with `d` in graph `p` at the start, other
      than those of `deps`, are gone from every graph. */
  ghost predicate Swept(a0: Aggs, a: Aggs, p: string, d: RelDep, deps: set<RelDep>) {
    p in a0 && forall x | x in OtherTags(a0[p].edges, d) && x !in deps :: GoneOne(a, x)
  }

  /** A tag gone from every graph stays gone when graphs only lose tags. */
  lemma GoneThinned(a: Aggs, a': Aggs, allowed: set<RelDep>, x: RelDep)
    requires Thinned(a, a', allowed) && GoneOne(a, x)
    ensures GoneOne(a', x)
  {
    forall q, e | q in a' && e in a'[q].edges ensures x !in a'[q].edges[e] {
      assert ThinnedAgg(a[q], a'[q], allowed);
    }
  }

  /** Removing `d` from graph `p` and then dropping `s` everywhere keeps
      every other tag in place, and leaves no tag of `s` anywhere. */
  lemma PropagatedTags(r: Aggs, r1: Aggs, r': Aggs, p: string, d: RelDep, s: set<RelDep>)
    requires p in r && AllWf(r) && AllWf(r1) && DroppedEverywhere(r1, r', s)
    requires r1.Keys == r.Keys && r1[p].edges == DropTag(r[p].edges, d)
    requires forall q | q in r && q != p :: r1[q] == r[q]
    ensures KeepsTags(r, r', p, d, s)
    ensures forall x | x in s :: GoneOne(r', x)
  {
    forall q, e, y | q in r && e in r[q].edges && y in r[q].edges[e] && y !in s && (q != p || y != d)
      ensures q in r' && e in r'[q].edges && y in r'[q].edges[e]
    {
      assert e in r1[q].edges && y in r1[q].edges[e];
      assert Wf(r1[q]);
      DropFromWf(r1[q], s);
    }
    forall x | x in s ensures GoneOne(r', x) {
      forall q, e | q in r' && e in r'[q].edges ensures x !in r'[q].edges[e] {
        assert Wf(r1[q]);
        DropFromWf(r1[q], s);
      }
    }
  }

  /** One removal step on graph `p` keeps the bookkeeping of the loop: the
      tags beside `d` are swept, the dependencies still to remove stay on
      their edges, and every other tag is kept or gone. */
  lemma StepBookkeeping(a0: Aggs, r: Aggs, r': Aggs, p: string, d: RelDep, deps: set<RelDep>, todo: set<RelDep>,
                        allowed: set<RelDep>)
    requires p in a0 && p in r && d in todo && todo <= deps && Thinned(r, r', allowed)
    requires KeptOrGone(a0, r, deps) && Intact(a0, r, p, todo)
    requires KeepsTags(r, r', p, d, OtherTags(r[p].edges, d) - deps)
    requires forall x | x in OtherTags(r[p].edges, d) - deps :: GoneOne(r', x)
    ensures KeptOrGone(a0, r', deps) && Intact(a0, r', p, todo - {d}) && Swept(a0, r', p, d, deps)
    ensures forall q | q != p && Intact(a0, r, q, deps) :: Intact(a0, r', q, deps)
  {
    var s := OtherTags(r[p].edges, d) - deps;
    forall q, e, x | q in a0 && e in a0[q].edges && x in a0[q].edges[e] && x !in deps
      ensures (q in r' && e in r'[q].edges && x in r'[q].edges[e]) || GoneOne(r', x)
    {
      if q in r && e in r[q].edges && x in r[q].edges[e] {
        if x in s {
          assert GoneOne(r', x);
        }
      } else {
        GoneThinned(r, r', allowed, x);
      }
    }
    forall x | x in OtherTags(a0[p].edges, d) && x !in deps ensures GoneOne(r', x) {
      var e :| e in a0[p].edges && d in a0[p].edges[e] && x in a0[p].edges[e];
      if e in r[p].edges && x in r[p].edges[e] {
        assert d in r[p].edges[e];
        assert x in s;
      } else {
        GoneThinned(r, r', allowed, x);
      }
    }
  }

  /** One step of the loop over `underlyingRelDeps` for one graph, with
      `recurse=True`: remove the dependency's edges from this graph, then
      propagate the other dependencies found on them, less the set itself,
      to every graph without recursing further. */
  method RemoveOne(a0: Aggs, r: Aggs, p: string, deps: set<RelDep>, d: RelDep) returns (r': Aggs)
    requires p in a0 && d in deps && AllWf(r) && Thinned(a0, r, CoTagged(a0, deps))
    ensures AllWf(r') && Thinned(r, r', CoTagged(a0, deps))
    ensures Untagged(r'[p], {d})
    ensures KeepsTags(r, r', p, d, OtherTags(r[p].edges, d) - deps)
    ensures forall x | x in OtherTags(r[p].edges, d) - deps :: GoneOne(r', x)
  {
    assert p in r;
    OthersCoTagged(a0, r, p, deps, d);
    r' := DropAndPropagate(r, p, d, deps);
    ThinnedWider(r, r', {d} + (OtherTags(r[p].edges, d) - deps), CoTagged(a0, deps));
  }

  /** The body of one step: `d` removed from graph `p`, then the other tags
      on its edges, less `deps`, dropped from every graph. */
  method DropAndPropagate(r: Aggs, p: string, d: RelDep, deps: set<RelDep>) returns (r': Aggs)
    requires p in r && AllWf(r)
    ensures AllWf(r') && Thinned(r, r', {d} + (OtherTags(r[p].edges, d) - deps))
    ensures Untagged(r'[p], {d})
    ensures KeepsTags(r, r', p, d, OtherTags(r[p].edges, d) - deps)
    ensures forall x | x in OtherTags(r[p].edges, d) - deps :: GoneOne(r', x)
  {
    assert Wf(r[p]);
    var (h, others) := RemoveEdgesForDependency(r[p], d);
    RemoveOneThinned(r[p], d);
    var r1 := r[p := h];
    forall q | q in r ensures ThinnedAgg(r[q], r1[q], {d}) {
      if q != p {
        ThinnedAggRefl(r[q], {d});
      }
    }
    assert AllWf(r1) by {
      forall q | q in r1 ensures Wf(r1[q]) {
        if q != p {
          assert Wf(r[q]);
        }
      }
    }
    r' := PropagateEdgeRemoval(r1, others - deps);
    DroppedThinned(r1, r', others - deps);
    ThinnedTrans(r, r1, r', {d}, others - deps);
    assert ThinnedAgg(r1[p], r'[p], others - deps);
    PropagatedTags(r, r1, r', p, d, others - deps);
  }

  /** The loop over `underlyingRelDeps` for one graph. */
  method RemoveFrom(a0: Aggs, r: Aggs, p: string, deps: set<RelDep>) returns (r': Aggs)
    requires p in a0 && AllWf(r) && Thinned(a0, r, CoTagged(a0, deps))
    requires KeptOrGone(a0, r, deps) && Intact(a0, r, p, deps)
    ensures AllWf(r') && Thinned(r, r', CoTagged(a0, deps))
    ensures Untagged(r'[p], deps)
    ensures KeptOrGone(a0, r', deps) && forall d | d in deps :: Swept(a0, r', p, d, deps)
    ensures forall q | q != p && Intact(a0, r, q, deps) :: Intact(a0, r', q, deps)
  {
    r' := r;
    ThinnedRefl(r, CoTagged(a0, deps));
    var todo, done := deps, {};
    while todo != {}
      invariant todo + done == deps
      invariant AllWf(r') && Thinned(r, r', CoTagged(a0, deps))
      invariant Untagged(r'[p], done)
      invariant KeptOrGone(a0, r', deps) && Intact(a0, r', p, todo)
      invariant forall d | d in done :: Swept(a0, r', p, d, deps)
      invariant forall q | q != p && Intact(a0, r, q, deps) :: Intact(a0, r', q, deps)
      decreases |todo|
    {
      var d :| d in todo;
      ThinnedTransSame(a0, r, r', CoTagged(a0, deps));
      var r2 := RemoveOne(a0, r', p, deps, d);
      ThinnedTransSame(r, r', r2, CoTagged(a0, deps));
      assert ThinnedAgg(r'[p], r2[p], CoTagged(a0, deps));
      StepBookkeeping(a0, r', r2, p, d, deps, todo, CoTagged(a0, deps));
      forall d' | d' in done ensures Swept(a0, r2, p, d', deps) {
        forall x | x in OtherTags(a0[p].edges, d') && x !in deps ensures GoneOne(r2, x) {
          GoneThinned(r', r2, CoTagged(a0, deps), x);
        }
      }
      r' := r2;
      todo, done := todo - {d}, done + {d};
    }
  }

  /** `propagateEdgeRemoval(deps, recurse=True)` as written: the inner call
      does not pass `recurse`, so the propagation stops one level down.
      Afterwards no graph carries any of `deps`, and the only tags any graph
      lost are `deps` and the dependencies that shared an edge with one of
      them at the start; and exactly those are gone from every graph, since
      a tag outside `deps` leaves an edge only by being dropped everywhere,
      and a dependency of `deps` stays on its edges until its own graph
      removes it. */
  method PropagateRecursive(aggs: Aggs, deps: set<RelDep>) returns (r: Aggs)
    requires AllWf(aggs)
    ensures AllWf(r) && Thinned(aggs, r, CoTagged(aggs, deps))
    ensures forall p | p in r :: Untagged(r[p], deps)
    ensures forall p | p in r :: Untagged(r[p], CoTagged(aggs, deps))
  {
    r := aggs;
    ThinnedRefl(aggs, CoTagged(aggs, deps));
    var todo := aggs.Keys;
    while todo != {}
      invariant todo <= aggs.Keys
      invariant AllWf(r) && Thinned(aggs, r, CoTagged(aggs, deps))
      invariant Progress(aggs, r, deps, todo)
      decreases |todo|
    {
      var p :| p in todo;
      r := PropagateFrom(aggs, r, p, deps, todo);
      todo := todo - {p};
    }
    CoTaggedGone(aggs, r, deps);
  }

  /** What the loop over the graphs has done once the graphs of `todo` are
      left: every graph done is free of `deps` and has swept the tags that
      shared an edge with them, the graphs left still carry every tag of
      `deps`, and every other tag is kept or gone. */
  ghost predicate Progress(aggs: Aggs, r: Aggs, deps: set<RelDep>, todo: set<string>) {
    && r.Keys == aggs.Keys
    && (forall p | p in aggs && p !in todo :: Untagged(r[p], deps))
    && KeptOrGone(aggs, r, deps)
    && (forall q | q in todo :: Intact(aggs, r, q, deps))
    && (forall p, d | p in aggs && p !in todo && d in deps :: Swept(aggs, r, p, d, deps))
  }

  /** One turn of the loop over the graphs: graph `p` removes every
      dependency of `deps`, propagating as it goes. */
  method PropagateFrom(aggs: Aggs, r: Aggs, p: string, deps: set<RelDep>, todo: set<string>) returns (r': Aggs)
    requires p in todo && todo <= aggs.Keys
    requires AllWf(r) && Thinned(aggs, r, CoTagged(aggs, deps)) && Progress(aggs, r, deps, todo)
    ensures AllWf(r') && Thinned(aggs, r', CoTagged(aggs, deps)) && Progress(aggs, r', deps, todo - {p})
  {
    r' := RemoveFrom(aggs, r, p, deps);
    ThinnedTransSame(aggs, r, r', CoTagged(aggs, deps));
    forall q | q in aggs && q !in todo - {p} ensures Untagged(r'[q], deps) {
      assert ThinnedAgg(r[q], r'[q], CoTagged(aggs, deps));
    }
    forall q, d | q in aggs && q !in todo && d in deps ensures Swept(aggs, r', q, d, deps) {
      forall x | x in OtherTags(aggs[q].edges, d) && x !in deps ensures GoneOne(r', x) {
        GoneThinned(r, r', CoTagged(aggs, deps), x);
      }
    }
  }

  /** Once every graph is free of `deps` and every tag that shared an edge
      with one of them is gone, no graph carries a co-tagged dependency. */
  lemma CoTaggedGone(aggs: Aggs, r: Aggs, deps: set<RelDep>)
    requires r.Keys == aggs.Keys && forall p | p in r :: Untagged(r[p], deps)
    requires forall p, d | p in aggs && d in deps :: Swept(aggs, r, p, d, deps)
    ensures forall p | p in r :: Untagged(r[p], CoTagged(aggs, deps))
  {
    forall q, a, x | q in r && a in r[q].edges && x in r[q].edges[a] ensures x !in CoTagged(aggs, deps) {
      if x in CoTagged(aggs, deps) && x !in deps {
        var p, e :| p in aggs && e in aggs[p].edges && x in aggs[p].edges[e] && !(aggs[p].edges[e] !! deps);
        var d :| d in aggs[p].edges[e] && d in deps;
      }
    }
  }

  /** Thinning keeps every variable where it was and only takes neighbours away. */
  lemma NbThinned(a0: Aggs, a: Aggs, x: set<RelDep>, cause: RelVar, effect: RelVar, limit: Option<nat>)
    requires Thinned(a0, a, x)
    ensures Located(a, effect) <==> Located(a0, effect)
    ensures Nb(a, cause, effect, limit) <= Nb(a0, cause, effect, limit)
  {
    var p := Base(effect);
    if p in a0 {
      assert ThinnedAgg(a0[p], a[p], x);
      NeighboursShrink(a0[p], a[p], effect, cause, limit);
    }
  }

  // ---------------------------------------------------------------------------
  // The default depth.

  /** `max([len(agg.nodes()) - 2 for agg in perspectiveToAgg.values()])`:
      the largest node count of any graph, less two; `max` of an empty
      list fails. */
  method MaxDepth(aggs: Aggs) returns (r: Result<int>)
    ensures r.Err? <==> aggs.Keys == {}
    ensures r.Err? ==> r.msg == EmptyMax
    ensures r.Ok? ==> forall p | p in aggs :: |NodeSet(aggs[p])| - 2 <= r.value
    ensures r.Ok? ==> exists p | p in aggs :: |NodeSet(aggs[p])| - 2 == r.value
  {
    if aggs.Keys == {} {
      return Err(EmptyMax);
    }
    var first :| first in aggs;
    var best := |NodeSet(aggs[first])| - 2;
    var todo := aggs.Keys - {first};
    while todo != {}
      invariant todo <= aggs.Keys
      invariant forall p | p in aggs && p !in todo :: |NodeSet(aggs[p])| - 2 <= best
      invariant exists p | p in aggs :: |NodeSet(aggs[p])| - 2 == best
      decreases |todo|
    {
      var p :| p in todo;
      if best < |NodeSet(aggs[p])| - 2 {
        best := |NodeSet(aggs[p])| - 2;
      }
      todo := todo - {p};
    }
    r := Ok(best);
  }
}
