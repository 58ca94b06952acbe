/** The PC algorithm run as RCD on a single-entity schema (PC.py): a learner
    fixed at hop threshold 0 whose results are read off as graphs over the
    first entity's attribute variables. */
module PC {
  import opened Wrappers
  import opened Collections
  import opened Schemas
  import opened RelVars
  import opened Sepsets
  import opened RCD
  import Space
  import Config
  import Parents
  import AGGs
  import RCDPhaseOne
  import RCDPhaseTwo
  import RCDInputs

  const NoSkeleton := "No undirected skeleton found. Try running Phase I first."
  const NoSepsets := "No sepsets found. Try running Phase I first."
  const NotDiGraph := "Undirected skeleton must be a networkx DiGraph"
  const NodesMismatch := "Undirected skeleton's nodes must match schema attributes"
  const NotDict := "Sepsets must be a dictionary"

  /** Taking the first entity of a schema that has none. */
  const NoEntity := "IndexError: list index out of range"

  /** A directed graph over relational variables; an undirected edge is
      stored as its two arcs. */
  datatype DiGraph = DiGraph(nodes: set<RelVar>, edges: set<(RelVar, RelVar)>)

  /** The argument to `setUndirectedSkeleton`: a graph, or anything else. */
  datatype SkeletonArg = Given(g: DiGraph) | NotGraph

  /** The PC learner: its schema, the skeleton and separating sets of Phase
      I (or as supplied), the graph of Phase II, and the RCD learner that
      does the work. */
  datatype Pc = Pc(schema: Schema, skeleton: Option<DiGraph>, sepsets: Option<SepsetTable>,
                   pdag: Option<DiGraph>, rcd: Rcd)

  /** The attribute variables of an entity, in attribute order. */
  function AttrVars(e: Item): (r: seq<RelVar>)
    ensures |r| == |e.attributes|
    ensures forall i :: 0 <= i < |r| ==> r[i] == RelVar([e.name], e.attributes[i].name)
  {
    seq(|e.attributes|, i requires 0 <= i < |e.attributes| => RelVar([e.name], e.attributes[i].name))
  }

  /** The arc of each dependency, from cause to effect. */
  function DepArcs(deps: set<RelDep>): set<(RelVar, RelVar)> {
    set d | d in deps :: (d.cause, d.effect)
  }

  /** The graph with the given nodes and one arc per dependency; adding an
      arc adds its ends as nodes. */
  function Graph(nodes: seq<RelVar>, deps: set<RelDep>): (r: DiGraph)
    ensures r.edges == DepArcs(deps)
    ensures SetOf(nodes) <= r.nodes && forall a | a in r.edges :: a.0 in r.nodes && a.1 in r.nodes
    ensures forall v | v in r.nodes :: v in nodes || exists a | a in r.edges :: v == a.0 || v == a.1
  {
    var arcs := DepArcs(deps);
    DiGraph(SetOf(nodes) + (set a | a in arcs :: a.0) + (set a | a in arcs :: a.1), arcs)
  }

  /** What holds of every learner: the RCD learner works on the same schema
      at hop threshold 0, and its graphs, when built, are well formed. */
  ghost predicate Shape(pc: Pc) {
    && pc.rcd.schema == pc.schema && pc.rcd.hop == 0
    && (pc.rcd.aggs.Some? ==> AllWf(pc.rcd.aggs.value))
  }

  /** Shape, and every cached answer is the oracle's. */
  ghost predicate Good(pc: Pc, ci: CiTest) {
    Shape(pc) && Agrees(pc.rcd.cache, ci)
  }

  /** The skeleton carries an arc for every dependency the RCD learner's
      graphs still carry. */
  ghost predicate Covers(pc: Pc) {
    && pc.skeleton.Some? && pc.rcd.aggs.Some?
    && DepArcs(RCDPhaseTwo.Tags(pc.rcd.aggs.value)) <= pc.skeleton.value.edges
  }

  lemma DepArcsMono(a: set<RelDep>, b: set<RelDep>)
    requires a <= b
    ensures DepArcs(a) <= DepArcs(b)
  {
  }

  /** `PC(schema, oracle)`: an RCD learner at hop threshold 0 with no depth
      limit, and nothing learned yet. */
  function NewPC(schema: Schema): (r: Pc)
    ensures r.schema == schema && r.skeleton.None? && r.sepsets.None? && r.pdag.None?
    ensures r.rcd.hop == 0 && r.rcd.depth.None? && r.rcd.aggs.None? && r.rcd.sepsets.None?
            && r.rcd.undirected.None? && r.rcd.oriented.None?
    ensures forall ci: CiTest :: Good(r, ci)
  {
    var m := NewRCD(schema, Space.IntNum(0), None);
    assert Config.NonNegativeInt(Space.IntNum(0));
    Pc(schema, None, None, None, m.value)
  }

  /** `pcPhaseI`: Phase I of RCD with its defaults, its separating sets
      taken over, and the skeleton built from the first entity's attribute
      variables and one arc per undirected dependency. A schema without
      entities fails on taking the first, after Phase I has run. */
  method PcPhaseI(pc: Pc, ci: CiTest) returns (r: Result<Pc>)
    requires Good(pc, ci)
    ensures pc.rcd.depth.None? && Perspectives(pc.schema) == {} ==> r == Err(EmptyMax)
    ensures r.Err? ==> r.msg in {EmptyMax, Parents.KeyError, AGGs.NotInDigraph, NotInList, NoEntity}
    ensures r.Err? && r.msg == NoEntity ==> |pc.schema.entities| == 0
    ensures r.Ok? ==> |pc.schema.entities| > 0 && RCDPhaseTwo.PhaseOneOf(pc.rcd, r.value.rcd, ci)
    ensures r.Ok? ==> && r.value == pc.(skeleton := r.value.skeleton, sepsets := r.value.rcd.sepsets, rcd := r.value.rcd)
                      && r.value.skeleton == Some(Graph(AttrVars(pc.schema.entities[0]), SetOf(r.value.rcd.undirected.value)))
    ensures r.Ok? ==> Good(r.value, ci) && Covers(r.value)
  {
    var u :- RCDPhaseOne.IdentifyUndirected(pc.rcd, false, 2, ci);
    if |pc.schema.entities| == 0 {
      return Err(NoEntity);
    }
    var skeleton := Graph(AttrVars(pc.schema.entities[0]), SetOf(u.undirected.value));
    r := Ok(pc.(skeleton := Some(skeleton), sepsets := u.sepsets, rcd := u));
    PhaseOneCovers(pc, u, ci);
  }

  lemma PhaseOneCovers(pc: Pc, u: Rcd, ci: CiTest)
    requires RCDPhaseTwo.PhaseOneOf(pc.rcd, u, ci)
    ensures AllWf(u.aggs.value) && Agrees(u.cache, ci)
    ensures DepArcs(RCDPhaseTwo.Tags(u.aggs.value)) <= DepArcs(SetOf(u.undirected.value))
  {
    var pot := RCDPhaseOne.PhaseOneCandidates(pc.rcd);
    ConstructedTags(pc.rcd.schema, pot, pc.rcd.hop, 2);
    RCDPhaseTwo.PhaseOneTags(SetOf(pot), ConstructAggs(pc.rcd.schema, pot, pc.rcd.hop, 2), u,
                             RCDPhaseOne.PhaseOneLimit(pc.rcd.hop), ci);
    DepArcsMono(RCDPhaseTwo.Tags(u.aggs.value), SetOf(u.undirected.value));
  }

  /** `pcPhaseII`: refused without a skeleton or separating sets; otherwise
      Phase II of RCD in the normal order, and the result graph built from
      the first entity's attribute variables and one arc per oriented
      dependency. The result graph's arcs lie within the skeleton's. */
  method PcPhaseII(pc: Pc, ci: CiTest) returns (r: Result<Pc>)
    requires Good(pc, ci)
    ensures pc.skeleton.None? ==> r == Err(NoSkeleton)
    ensures pc.skeleton.Some? && pc.sepsets.None? ==> r == Err(NoSepsets)
    ensures r.Err? ==> r.msg in {NoSkeleton, NoSepsets, NoEntity, RCDPhaseTwo.NoUndirected, RCDPhaseTwo.NoSepsets,
                                 RCDPhaseTwo.NoGraphs, EmptyMax, Parents.KeyError, AGGs.NotInDigraph}
    ensures r.Ok? ==> pc.skeleton.Some? && pc.sepsets.Some? && |pc.schema.entities| > 0
                      && RCDPhaseTwo.Oriented(pc.rcd, r.value.rcd, ci)
    ensures r.Ok? ==> && r.value == pc.(pdag := r.value.pdag, rcd := r.value.rcd)
                      && r.value.pdag == Some(Graph(AttrVars(pc.schema.entities[0]), r.value.rcd.oriented.value))
    ensures r.Ok? ==> Good(r.value, ci)
    ensures r.Ok? && Covers(pc) ==> Covers(r.value) && r.value.pdag.value.edges <= pc.skeleton.value.edges
  {
    if pc.skeleton.None? {
      return Err(NoSkeleton);
    }
    if pc.sepsets.None? {
      return Err(NoSepsets);
    }
    var n :- RCDPhaseTwo.OrientDependencies(pc.rcd, "normal", ci);
    if |pc.schema.entities| == 0 {
      return Err(NoEntity);
    }
    var pdag := Graph(AttrVars(pc.schema.entities[0]), n.oriented.value);
    r := Ok(pc.(pdag := Some(pdag), rcd := n));
    PhaseTwoCovers(pc, n, ci);
  }

  lemma PhaseTwoCovers(pc: Pc, n: Rcd, ci: CiTest)
    requires RCDPhaseTwo.Oriented(pc.rcd, n, ci)
    ensures DepArcs(n.oriented.value) <= DepArcs(RCDPhaseTwo.Tags(pc.rcd.aggs.value))
    ensures RCDPhaseTwo.Tags(n.aggs.value) == n.oriented.value
  {
    RCDPhaseTwo.OrientedWithin(pc.rcd, n, ci);
    DepArcsMono(n.oriented.value, RCDPhaseTwo.Tags(pc.rcd.aggs.value));
  }

  /** `learnModel`: Phase I then Phase II. The learned graph's arcs lie
      within the learned skeleton's, and its oriented dependencies are
      among those Phase I left undirected. */
  method LearnModel(pc: Pc, ci: CiTest) returns (r: Result<Pc>)
    requires Good(pc, ci)
    ensures pc.rcd.depth.None? && Perspectives(pc.schema) == {} ==> r == Err(EmptyMax)
    ensures r.Ok? ==> Good(r.value, ci) && r.value.pdag.Some? && r.value.skeleton.Some?
                      && r.value.pdag.value.edges <= r.value.skeleton.value.edges
    ensures r.Ok? ==> r.value.rcd.oriented.Some? && r.value.rcd.undirected.Some?
                      && r.value.rcd.oriented.value <= SetOf(r.value.rcd.undirected.value)
  {
    var first :- PcPhaseI(pc, ci);
    r := PcPhaseII(first, ci);
    if r.Ok? {
      RCDPhaseTwo.LearnedUndirected(pc.rcd, first.rcd, r.value.rcd, ci);
    }
  }

  /** The expected skeleton nodes: the first entity's attribute variables,
      or none when the schema has no entity. */
  function ExpectedNodes(s: Schema): (r: seq<RelVar>)
    ensures |s.entities| == 0 ==> r == []
    ensures |s.entities| > 0 ==> r == AttrVars(s.entities[0])
  {
    if |s.entities| == 0 then [] else AttrVars(s.entities[0])
  }

  /** `setUndirectedSkeleton`: a non-graph is refused, and so is a graph
      whose nodes are not exactly the expected ones in number and as a set.
      Otherwise the graph becomes the skeleton, each of its arcs (in the
      graph's own order) an undirected dependency of the RCD learner, and
      the learner's graphs are rebuilt from those at twice its hop
      threshold; the graphs then carry no dependency outside the skeleton. */
  method SetUndirectedSkeleton(pc: Pc, arg: SkeletonArg) returns (r: Result<Pc>)
    ensures arg.NotGraph? ==> r == Err(NotDiGraph)
    ensures arg.Given? ==> (r.Err? <==> |ExpectedNodes(pc.schema)| != |arg.g.nodes|
                                        || SetOf(ExpectedNodes(pc.schema)) != arg.g.nodes)
    ensures arg.Given? && r.Err? ==> r.msg == NodesMismatch
    ensures r.Ok? ==> var deps := r.value.rcd.undirected;
                      && deps.Some? && PairwiseDistinct(deps.value)
                      && (forall d :: d in deps.value <==> (d.cause, d.effect) in arg.g.edges)
                      && r.value == pc.(skeleton := Some(arg.g), rcd := r.value.rcd)
                      && r.value.rcd == pc.rcd.(undirected := deps,
                                                aggs := Some(ConstructAggs(pc.rcd.schema, deps.value, pc.rcd.hop, 2)))
    ensures r.Ok? ==> Covers(r.value) && (Shape(pc) ==> Shape(r.value))
  {
    if arg.NotGraph? {
      return Err(NotDiGraph);
    }
    var expected := ExpectedNodes(pc.schema);
    if |expected| != |arg.g.nodes| || SetOf(expected) != arg.g.nodes {
      return Err(NodesMismatch);
    }
    var arcs := Enumerate(arg.g.edges);
    var deps := seq(|arcs|, i requires 0 <= i < |arcs| => RelDep(arcs[i].0, arcs[i].1));
    ArcDeps(arcs, deps);
    var aggs := RCDInputs.RebuiltAggs(pc.rcd, deps);
    r := Ok(pc.(skeleton := Some(arg.g), rcd := pc.rcd.(undirected := Some(deps), aggs := Some(aggs))));
    SuppliedCovers(aggs, deps, arg.g.edges);
  }

  lemma ArcDeps(arcs: seq<(RelVar, RelVar)>, deps: seq<RelDep>)
    requires PairwiseDistinct(arcs) && |deps| == |arcs|
    requires forall i :: 0 <= i < |arcs| ==> deps[i] == RelDep(arcs[i].0, arcs[i].1)
    ensures PairwiseDistinct(deps)
    ensures forall d :: d in deps <==> (d.cause, d.effect) in arcs
  {
    forall d: RelDep | (d.cause, d.effect) in arcs ensures d in deps {
      var i :| 0 <= i < |arcs| && arcs[i] == (d.cause, d.effect);
      assert deps[i] == d;
    }
  }

  lemma SuppliedCovers(aggs: Aggs, deps: seq<RelDep>, arcs: set<(RelVar, RelVar)>)
    requires TagsWithin(aggs, SetOf(deps)) && forall d :: d in deps <==> (d.cause, d.effect) in arcs
    ensures DepArcs(RCDPhaseTwo.Tags(aggs)) <= arcs
  {
    forall d | d in RCDPhaseTwo.Tags(aggs) ensures d in SetOf(deps) {
      RCDInputs.TagIn(aggs, SetOf(deps), d);
    }
  }

  /** `setSepsets`: a non-dictionary is refused; otherwise the RCD learner's
      setter runs, and only when it succeeds are its separating sets taken
      over. What the RCD setter stores before a failed check stays stored
      in the RCD learner. */
  method SetSepsets(pc: Pc, arg: RCDInputs.SepsetsArg) returns (pc': Pc, out: Outcome)
    ensures arg.NotDict? ==> pc' == pc && out == Fail(NotDict)
    ensures arg.Dict? && RCDInputs.ParseTable(arg.items, RCDInputs.ParseEntry).Err? ==>
              pc' == pc && out == Fail(RCDInputs.ParseTable(arg.items, RCDInputs.ParseEntry).msg)
    ensures arg.Dict? && RCDInputs.ParseTable(arg.items, RCDInputs.ParseEntry).Ok? ==>
              var t := RCDInputs.ParseTable(arg.items, RCDInputs.ParseEntry).value;
              && pc'.rcd == pc.rcd.(sepsets := Some(t))
              && pc' == pc.(rcd := pc'.rcd, sepsets := if out.Pass? then Some(t) else pc.sepsets)
    ensures out.Pass? <==> && arg.Dict? && RCDInputs.ParseTable(arg.items, RCDInputs.ParseEntry).Ok?
                           && RCDInputs.AllValid(pc.rcd.schema, pc.rcd.hop,
                                                 RCDInputs.ParseTable(arg.items, RCDInputs.ParseEntry).value)
    ensures Shape(pc) ==> Shape(pc') && pc'.rcd.cache == pc.rcd.cache
  {
    if arg.NotDict? {
      return pc, Fail(NotDict);
    }
    var m, o := RCDInputs.SetSepsets(pc.rcd, arg);
    pc' := pc.(rcd := m);
    out := o;
    if o.Pass? {
      pc' := pc'.(sepsets := m.sepsets);
    }
  }
}
