/** Phase II of RCD (`orientDependencies` in RCD.py): the orientation
    rules run on every abstract ground graph. A rule orients x - y as
    y -> x by removing arc (x, y); RCD does that by removing, from every
    graph, the dependencies that arc carries, and then one level of the
    dependencies that share an edge with them. Collider detection (CD) and
    the relational bivariate orientation rule (RBO) look up, or search for
    and record, a separating set for the pair they test. The dependencies
    still carried by some edge at the end are the oriented ones.

    Python's set, dict and node iteration orders are free choices here: the
    model picks an enumeration wherever the source iterates over a set. */
module RCDPhaseTwo {
  import opened Wrappers
  import opened Collections
  import opened Schemas
  import opened RelVars
  import opened Sepsets
  import opened AGGs
  import opened RCD
  import EdgeOrientation
  import Parents
  import Space
  import RCDPhaseOne

  /** What Phase II updates: the graphs, the separating-set records and the
      CI cache. */
  datatype Orienting = Orienting(aggs: Aggs, seps: SepsetTable, cache: CiCache)

  const NoUndirected := "No undirected dependencies found. Try running Phase I first."
  const NoSepsets := "No sepsets found. Try running Phase I first."
  const BadRboOrder := "rboOrder must be one of 'normal', 'first', or 'last'"
  /** Asking for the graphs before any were built (`None.values()`). */
  const NoGraphs := "AttributeError: 'NoneType' object has no attribute 'values'"

  /** The orders `applyOrientationRules` accepts. */
  const Orders: set<string> := {"normal", "first", "last"}

  /** Every arc of every graph, with its perspective. */
  function ArcKeys(aggs: Aggs): set<(string, (Node, Node))> {
    set p, a | p in aggs && a in aggs[p].edges :: (p, a)
  }

  /** Every dependency some edge of some graph carries. */
  function Tags(aggs: Aggs): set<RelDep> {
    set p, a, d | p in aggs && a in aggs[p].edges && d in aggs[p].edges[a] :: d
  }

  /** The arcs of one graph, as the orientation rules see them. */
  function Arcs(g: Agg): EdgeOrientation.Arcs<Node> {
    g.edges.Keys
  }

  /** The graphs of `a` are those of `a0` with some tags dropped. */
  ghost predicate Shrunk(a0: Aggs, a: Aggs) {
    Thinned(a0, a, Tags(a0))
  }

  lemma ShrunkRefl(a: Aggs)
    ensures Shrunk(a, a)
  {
    ThinnedRefl(a, Tags(a));
  }

  /** Thinner graphs carry fewer arcs and fewer dependencies. */
  lemma ThinnedFewer(a0: Aggs, a: Aggs, x: set<RelDep>)
    requires Thinned(a0, a, x)
    ensures ArcKeys(a) <= ArcKeys(a0) && Tags(a) <= Tags(a0)
  {
    forall k | k in ArcKeys(a) ensures k in ArcKeys(a0) {
      assert ThinnedAgg(a0[k.0], a[k.0], x);
    }
    forall d | d in Tags(a) ensures d in Tags(a0) {
      var p, e :| p in a && e in a[p].edges && d in a[p].edges[e];
      assert ThinnedAgg(a0[p], a[p], x);
    }
  }

  lemma ShrunkTrans(a0: Aggs, a1: Aggs, a2: Aggs)
    requires Shrunk(a0, a1) && Shrunk(a1, a2)
    ensures Shrunk(a0, a2)
  {
    ThinnedFewer(a0, a1, Tags(a0));
    ThinnedWider(a1, a2, Tags(a1), Tags(a0));
    ThinnedTransSame(a0, a1, a2, Tags(a0));
  }

  /** The entry for `k` sits beside its swapped twin with the same set,
      which separates the pair in one order or the other. */
  ghost predicate Recorded(s: SepsetTable, k: (RelVar, RelVar), ci: CiTest)
    requires k in s
  {
    (k.1, k.0) in s && s[(k.1, k.0)] == s[k] && (ci(k.0, k.1, s[k]) || ci(k.1, k.0, s[k]))
  }

  /** The records only grow: no key goes, and every entry is as it was or
      was recorded with its twin. */
  ghost predicate RecordsGrow(s0: SepsetTable, s: SepsetTable, ci: CiTest) {
    && s0.Keys <= s.Keys
    && forall k | k in s :: (k in s0 && s[k] == s0[k]) || Recorded(s, k, ci)
  }

  lemma RecordsGrowTrans(s0: SepsetTable, s1: SepsetTable, s2: SepsetTable, ci: CiTest)
    requires RecordsGrow(s0, s1, ci) && RecordsGrow(s1, s2, ci)
    ensures RecordsGrow(s0, s2, ci)
  {
    forall k | k in s2 ensures (k in s0 && s2[k] == s0[k]) || Recorded(s2, k, ci) {
      var t := (k.1, k.0);
      if k in s1 && s2[k] == s1[k] && !(k in s0 && s1[k] == s0[k]) {
        assert Recorded(s1, k, ci) && t in s2;
      }
    }
  }

  /** Sound records stay sound as they grow. */
  lemma RecordsGrowSound(s0: SepsetTable, s: SepsetTable, ci: CiTest)
    requires RCDPhaseOne.SepsSound(s0, ci) && RecordsGrow(s0, s, ci)
    ensures RCDPhaseOne.SepsSound(s, ci)
  {
    forall k | k in s ensures Recorded(s, k, ci) {
      var t := (k.1, k.0);
      if k in s0 && s[k] == s0[k] {
        assert t in s;
      }
    }
  }

  /** What a step of Phase II keeps: well-formed graphs under the same
      perspectives and a cache that agrees with the tester. */
  ghost predicate Kept(st: Orienting, keys: set<string>, ci: CiTest) {
    AllWf(st.aggs) && st.aggs.Keys == keys && Agrees(st.cache, ci)
  }

  /** What a run of steps from `st0` to `st` did: the graphs only lost
      tags, the records only grew, and `changed` says whether any arc
      went: when it is set the arcs are strictly fewer, when it is not the
      graphs are untouched. */
  ghost predicate Went(st0: Orienting, st: Orienting, changed: bool, ci: CiTest) {
    && Shrunk(st0.aggs, st.aggs) && RecordsGrow(st0.seps, st.seps, ci)
    && (changed ==> ArcKeys(st.aggs) < ArcKeys(st0.aggs))
    && (!changed ==> st.aggs == st0.aggs)
  }

  lemma WentRefl(st: Orienting, st': Orienting, ci: CiTest)
    requires st'.aggs == st.aggs && RecordsGrow(st.seps, st'.seps, ci)
    ensures Went(st, st', false, ci)
  {
    ShrunkRefl(st.aggs);
  }

  lemma WentTrans(st0: Orienting, st1: Orienting, st2: Orienting, c1: bool, c2: bool, ci: CiTest)
    requires Went(st0, st1, c1, ci) && Went(st1, st2, c2, ci)
    ensures Went(st0, st2, c1 || c2, ci)
  {
    ShrunkTrans(st0.aggs, st1.aggs, st2.aggs);
    RecordsGrowTrans(st0.seps, st1.seps, st2.seps, ci);
    ThinnedFewer(st0.aggs, st1.aggs, Tags(st0.aggs));
    ThinnedFewer(st1.aggs, st2.aggs, Tags(st1.aggs));
  }

  /** A run of steps leaves every graph with no more arcs than it had. */
  lemma WentArcs(st0: Orienting, st: Orienting, changed: bool, ci: CiTest, p: string)
    requires Went(st0, st, changed, ci) && p in st0.aggs
    ensures Arcs(st.aggs[p]) <= Arcs(st0.aggs[p])
  {
    assert ThinnedAgg(st0.aggs[p], st.aggs[p], Tags(st0.aggs));
  }

  // ---------------------------------------------------------------------------
  // Orienting one arc.

  /** What one level of propagation may remove is carried by the graphs. */
  lemma CoTaggedCarried(aggs: Aggs, p: string, e: (Node, Node))
    requires p in aggs && e in aggs[p].edges
    ensures CoTagged(aggs, aggs[p].edges[e]) <= Tags(aggs)
  {
    forall d | d in CoTagged(aggs, aggs[p].edges[e]) ensures d in Tags(aggs) {
      if d !in aggs[p].edges[e] {
        var q, a, x :| q in aggs && a in aggs[q].edges && x in aggs[q].edges[a]
                       && !(aggs[q].edges[a] !! aggs[p].edges[e]) && x == d;
      }
    }
  }

  /** A thinned graph that carries none of an arc's dependencies has lost
      the arc. */
  lemma ArcGone(g0: Agg, g: Agg, x: set<RelDep>, e: (Node, Node))
    requires e in g0.edges && Wf(g) && ThinnedAgg(g0, g, x) && Untagged(g, g0.edges[e])
    ensures e !in g.edges
  {
  }

  /** Orienting x - y as y -> x in graph `p`
      (`propagateEdgeRemoval(agg[x][y][UNDERLYING_DEPENDENCIES], recurse=True)`,
      lines 216-276 of the source): every graph drops the dependencies arc
      (x, y) carries, and one level of those sharing an edge with them. The
      arc itself is gone afterwards, so the arcs are strictly fewer. */
  method RemoveArc(aggs: Aggs, p: string, e: (Node, Node)) returns (r: Aggs)
    requires AllWf(aggs) && p in aggs && e in aggs[p].edges
    ensures AllWf(r) && r.Keys == aggs.Keys && Thinned(aggs, r, CoTagged(aggs, aggs[p].edges[e]))
    ensures Shrunk(aggs, r) && e !in r[p].edges && ArcKeys(r) < ArcKeys(aggs)
  {
    var ds := aggs[p].edges[e];
    r := PropagateRecursive(aggs, ds);
    CoTaggedCarried(aggs, p, e);
    ThinnedWider(aggs, r, CoTagged(aggs, ds), Tags(aggs));
    ThinnedFewer(aggs, r, Tags(aggs));
    ArcGone(aggs[p], r[p], CoTagged(aggs, ds), e);
    assert (p, e) in ArcKeys(aggs);
    assert (p, e) !in ArcKeys(r);
  }

  /** The step of a rule that yields arc `e` of graph `p` (lines 20-25,
      61-63, 95-97, 128-133 and 155-163 of EdgeOrientation.py): when x - y
      is still undirected, orient it as y -> x. Only then does anything
      change, and then the arc is gone. */
  method Orient(st: Orienting, p: string, e: (Node, Node), ci: CiTest) returns (st': Orienting, changed: bool)
    requires Kept(st, st.aggs.Keys, ci) && p in st.aggs
    ensures Kept(st', st.aggs.Keys, ci) && Went(st, st', changed, ci)
    ensures changed <==> EdgeOrientation.Undirected(Arcs(st.aggs[p]), e.0, e.1)
    ensures changed ==> st'.seps == st.seps && st'.cache == st.cache && e !in st'.aggs[p].edges
    ensures !changed ==> st' == st
  {
    if !EdgeOrientation.Undirected(Arcs(st.aggs[p]), e.0, e.1) {
      WentRefl(st, st, ci);
      return st, false;
    }
    var aggs := RemoveArc(st.aggs, p, e);
    st', changed := st.(aggs := aggs), true;
  }

  // ---------------------------------------------------------------------------
  // Separating sets in Phase II.

  /** `s` is a separating set of the smallest size for the pair among the
      effect's neighbours, of at most `depth` members. */
  ghost predicate Smallest(aggs: Aggs, c: RelVar, e: RelVar, depth: int, s: set<RelVar>, ci: CiTest) {
    var nb := Nb(aggs, c, e, None);
    && s <= nb && |s| <= depth && ci(c, e, s)
    && forall x :: x <= nb && |x| < |s| ==> !ci(c, e, x)
  }

  /** No set of at most `depth` of the effect's neighbours separates the pair. */
  ghost predicate NoneSeparates(aggs: Aggs, c: RelVar, e: RelVar, depth: int, ci: CiTest) {
    forall x :: x <= Nb(aggs, c, e, None) && |x| <= depth ==> !ci(c, e, x)
  }

  /** `findRecordAndReturnSepset(relVar1, relVar2)` (lines 318-334): the
      recorded set when there is one; otherwise a search from size 0 up to
      the depth over all neighbours of the effect, whose find is recorded
      under both orders. Only that search can fail, on the lookups
      `findSepset` makes. */
  method FindRecord(st: Orienting, depth: int, c: RelVar, e: RelVar, ci: CiTest)
    returns (r: Result<Option<set<RelVar>>>, st': Orienting)
    requires Agrees(st.cache, ci)
    ensures st'.aggs == st.aggs && Agrees(st'.cache, ci) && RecordsGrow(st.seps, st'.seps, ci)
    ensures (c, e) in st.seps ==> r == Ok(Some(st.seps[(c, e)])) && st' == st
    ensures r.Err? <==> (c, e) !in st.seps && depth >= 0 && !Located(st.aggs, e)
    ensures r.Err? ==> r.msg == (if Base(e) in st.aggs then NotInDigraph else Parents.KeyError)
    ensures r.Ok? ==> (r.value.Some? <==> (c, e) in st'.seps)
    ensures r.Ok? && r.value.Some? ==> st'.seps[(c, e)] == r.value.value
    ensures r.Ok? && r.value.None? ==> st'.seps == st.seps && NoneSeparates(st.aggs, c, e, depth, ci)
    ensures r.Ok? && r.value.Some? && (c, e) !in st.seps ==>
              && Smallest(st.aggs, c, e, depth, r.value.value, ci)
              && st'.seps == st.seps[(c, e) := r.value.value][(e, c) := r.value.value]
  {
    if (c, e) in st.seps {
      return Ok(Some(st.seps[(c, e)])), st;
    }
    if depth < 0 {
      return Ok(None), st;
    }
    if Base(e) !in st.aggs {
      return Err(Parents.KeyError), st;
    }
    if VarNode(e) !in NodeSet(st.aggs[Base(e)]) {
      return Err(NotInDigraph), st;
    }
    var nb := Neighbours(st.aggs[Base(e)], e, c, None);
    var found, cache, asked := GrowSepset(c, e, nb, Some(depth), st.cache, ci);
    if found.None? {
      return Ok(None), st.(cache := cache);
    }
    var seps := st.seps[(c, e) := found.value][(e, c) := found.value];
    assert Recorded(seps, (c, e), ci) && Recorded(seps, (e, c), ci);
    r, st' := Ok(found), Orienting(st.aggs, seps, cache);
  }

  /** Node 2 is in the separating set of nodes 1 and 3, or intersects one
      of its members: the test both CD (negated) and RBO (to tell a common
      cause from a common effect) apply. */
  predicate Blocks(v: RelVar, s: set<RelVar>) {
    v in s || exists x | x in s :: Intersects(v, x)
  }

  /** Three variable nodes, the first and last on a singleton-path effect
      side as the candidate checks demand. */
  predicate AllVars(t: (Node, Node, Node)) {
    t.0.VarNode? && t.1.VarNode? && t.2.VarNode?
  }

  /** The graph checks of `_isValidCDCandidate` (lines 279-292): three
      variables, 1 and 3 on different attributes, 3 on a path of at most
      one item, 1 -> 2 and 3 -> 2 present and one of them undirected. */
  predicate CDShape(g: Agg, t: (Node, Node, Node)) {
    && AllVars(t) && t.0.v.attrName != t.2.v.attrName && |t.2.v.path| <= 1
    && EdgeOrientation.Orientable(Arcs(g), t)
  }

  /** The graph checks of `_isValidRBOCandidate` (lines 299-312): three
      variables, 1 and 3 on the same attribute, 3 on a path of at most one
      item, and 1 - 2 - 3 both undirected. */
  predicate RBOShape(g: Agg, t: (Node, Node, Node)) {
    && AllVars(t) && t.0.v.attrName == t.2.v.attrName && |t.2.v.path| <= 1
    && EdgeOrientation.RBOOrientable(Arcs(g), t)
  }

  /** The recorded separating set of nodes 1 and 3. */
  predicate HasRecord(seps: SepsetTable, t: (Node, Node, Node)) {
    AllVars(t) && (t.0.v, t.2.v) in seps
  }

  /** `_isValidCDCandidate`: after the graph checks, the separating set of
      1 and 3 is looked up or searched for, and the triple is a collider
      when there is one and node 2 neither is in it nor intersects a
      member. A triple failing the graph checks costs nothing. */
  method ValidCD(st: Orienting, p: string, t: (Node, Node, Node), depth: int, ci: CiTest)
    returns (r: Result<bool>, st': Orienting)
    requires Agrees(st.cache, ci) && p in st.aggs
    ensures st'.aggs == st.aggs && Agrees(st'.cache, ci) && RecordsGrow(st.seps, st'.seps, ci)
    ensures !CDShape(st.aggs[p], t) ==> r == Ok(false) && st' == st
    ensures r.Ok? ==> (r.value <==> CDShape(st.aggs[p], t) && HasRecord(st'.seps, t)
                                     && !Blocks(t.1.v, st'.seps[(t.0.v, t.2.v)]))
    ensures r.Err? ==> CDShape(st.aggs[p], t) && r.msg in {Parents.KeyError, NotInDigraph}
  {
    if !CDShape(st.aggs[p], t) {
      return Ok(false), st;
    }
    var s;
    s, st' := FindRecord(st, depth, t.0.v, t.2.v, ci);
    if s.Err? {
      return Err(s.msg), st';
    }
    r := Ok(s.value.Some? && !Blocks(t.1.v, s.value.value));
  }

  /** `_isValidRBOCandidate`: after the graph checks, the triple is a
      candidate when a separating set of 1 and 3 is recorded or found. */
  method ValidRBO(st: Orienting, p: string, t: (Node, Node, Node), depth: int, ci: CiTest)
    returns (r: Result<bool>, st': Orienting)
    requires Agrees(st.cache, ci) && p in st.aggs
    ensures st'.aggs == st.aggs && Agrees(st'.cache, ci) && RecordsGrow(st.seps, st'.seps, ci)
    ensures !RBOShape(st.aggs[p], t) ==> r == Ok(false) && st' == st
    ensures r.Ok? ==> (r.value <==> RBOShape(st.aggs[p], t) && HasRecord(st'.seps, t))
    ensures r.Err? ==> RBOShape(st.aggs[p], t) && r.msg in {Parents.KeyError, NotInDigraph}
  {
    if !RBOShape(st.aggs[p], t) {
      return Ok(false), st;
    }
    var s;
    s, st' := FindRecord(st, depth, t.0.v, t.2.v, ci);
    if s.Err? {
      return Err(s.msg), st';
    }
    r := Ok(s.value.Some?);
  }

  // ---------------------------------------------------------------------------
  // Collider detection and the bivariate orientation rule.

  /** One unshielded triple of CD (`_findColliderDetectionRemovals`, lines
      18-26 of EdgeOrientation.py, each yield applied by lines 216-225): a
      valid collider orients 1 -> 2 and then 3 -> 2, each only while still
      undirected. Something is oriented exactly when the triple is valid,
      and then neither edge is left undirected. */
  method CDTriple(st: Orienting, p: string, t: (Node, Node, Node), depth: int, ci: CiTest)
    returns (r: Result<(Orienting, bool)>)
    requires Kept(st, st.aggs.Keys, ci) && p in st.aggs
    ensures r.Err? ==> CDShape(st.aggs[p], t) && r.msg in {Parents.KeyError, NotInDigraph}
    ensures r.Ok? ==> Kept(r.value.0, st.aggs.Keys, ci) && Went(st, r.value.0, r.value.1, ci)
    ensures r.Ok? ==> (r.value.1 <==> CDShape(st.aggs[p], t) && HasRecord(r.value.0.seps, t)
                                      && !Blocks(t.1.v, r.value.0.seps[(t.0.v, t.2.v)]))
    ensures r.Ok? && r.value.1 ==> && !EdgeOrientation.Undirected(Arcs(r.value.0.aggs[p]), t.0, t.1)
                                   && !EdgeOrientation.Undirected(Arcs(r.value.0.aggs[p]), t.1, t.2)
  {
    var v, st1 := ValidCD(st, p, t, depth, ci);
    if v.Err? {
      return Err(v.msg);
    }
    WentRefl(st, st1, ci);
    if !v.value {
      return Ok((st1, false));
    }
    var st2, c1 := Orient(st1, p, (t.1, t.0), ci);
    var st3, c2 := Orient(st2, p, (t.1, t.2), ci);
    WentTrans(st1, st2, st3, c1, c2, ci);
    WentTrans(st, st1, st3, false, c1 || c2, ci);
    WentArcs(st2, st3, c2, ci, p);
    WentArcs(st1, st2, c1, ci, p);
    r := Ok((st3, c1 || c2));
  }

  /** One unshielded triple of RBO (`_findRBORemovals`, lines 152-163 of
      EdgeOrientation.py, each yield applied by lines 228-237): a valid
      triple is oriented 2 -> 3 when node 2 blocks the separating set of 1
      and 3 (a common cause) and 3 -> 2 otherwise (a common effect).
      Something is oriented exactly when the triple is valid. */
  method RBOTriple(st: Orienting, p: string, t: (Node, Node, Node), depth: int, ci: CiTest)
    returns (r: Result<(Orienting, bool)>)
    requires Kept(st, st.aggs.Keys, ci) && p in st.aggs
    ensures r.Err? ==> RBOShape(st.aggs[p], t) && r.msg in {Parents.KeyError, NotInDigraph}
    ensures r.Ok? ==> Kept(r.value.0, st.aggs.Keys, ci) && Went(st, r.value.0, r.value.1, ci)
    ensures r.Ok? ==> (r.value.1 <==> RBOShape(st.aggs[p], t) && HasRecord(r.value.0.seps, t))
    ensures r.Ok? && r.value.1 ==>
              if Blocks(t.1.v, r.value.0.seps[(t.0.v, t.2.v)])
              then (t.2, t.1) !in r.value.0.aggs[p].edges
              else (t.1, t.2) !in r.value.0.aggs[p].edges
  {
    var v, st1 := ValidRBO(st, p, t, depth, ci);
    if v.Err? {
      return Err(v.msg);
    }
    WentRefl(st, st1, ci);
    if !v.value {
      return Ok((st1, false));
    }
    var e := if Blocks(t.1.v, st1.seps[(t.0.v, t.2.v)]) then (t.2, t.1) else (t.1, t.2);
    var st2, c := Orient(st1, p, e, ci);
    WentTrans(st, st1, st2, false, c, ci);
    r := Ok((st2, c));
  }

  /** The two rules that walk the unshielded triples. */
  datatype TripleRule = CDRule | RBORule

  /** One triple of either rule. */
  method TripleStep(st: Orienting, p: string, rule: TripleRule, t: (Node, Node, Node), depth: int, ci: CiTest)
    returns (r: Result<(Orienting, bool)>)
    requires Kept(st, st.aggs.Keys, ci) && p in st.aggs
    ensures r.Err? ==> r.msg in {Parents.KeyError, NotInDigraph}
    ensures r.Ok? ==> Kept(r.value.0, st.aggs.Keys, ci) && Went(st, r.value.0, r.value.1, ci)
  {
    if rule.CDRule? {
      r := CDTriple(st, p, t, depth, ci);
    } else {
      r := RBOTriple(st, p, t, depth, ci);
    }
  }

  /** The innermost loop of `_findUnshieldedTriples` (lines 33-36 of
      EdgeOrientation.py): node 3 ranges over node 2's neighbours other
      than node 1, taken when node 2 is reached, and is skipped when it is
      among node 1's neighbours `n1s`, taken when node 1 was. */
  method ThirdNodes(st: Orienting, p: string, rule: TripleRule, n1: Node, n2: Node, n1s: set<Node>, depth: int,
                    ci: CiTest)
    returns (r: Result<(Orienting, bool)>)
    requires Kept(st, st.aggs.Keys, ci) && p in st.aggs
    ensures r.Err? ==> r.msg in {Parents.KeyError, NotInDigraph}
    ensures r.Ok? ==> Kept(r.value.0, st.aggs.Keys, ci) && Went(st, r.value.0, r.value.1, ci)
  {
    var n3s := Enumerate(Adj(st.aggs[p], n2) - {n1});
    var cur, changed := st, false;
    WentRefl(st, st, ci);
    for i := 0 to |n3s|
      invariant Kept(cur, st.aggs.Keys, ci) && Went(st, cur, changed, ci)
    {
      if n3s[i] !in n1s {
        var step := TripleStep(cur, p, rule, (n1, n2, n3s[i]), depth, ci);
        if step.Err? {
          return Err(step.msg);
        }
        WentTrans(st, cur, step.value.0, changed, step.value.1, ci);
        cur, changed := step.value.0, changed || step.value.1;
      }
    }
    return Ok((cur, changed));
  }

  /** The middle loop: node 2 ranges over node 1's neighbours, taken when
      node 1 is reached. */
  method SecondNodes(st: Orienting, p: string, rule: TripleRule, n1: Node, depth: int, ci: CiTest)
    returns (r: Result<(Orienting, bool)>)
    requires Kept(st, st.aggs.Keys, ci) && p in st.aggs
    ensures r.Err? ==> r.msg in {Parents.KeyError, NotInDigraph}
    ensures r.Ok? ==> Kept(r.value.0, st.aggs.Keys, ci) && Went(st, r.value.0, r.value.1, ci)
  {
    var n1s := Adj(st.aggs[p], n1);
    var n2s := Enumerate(n1s);
    var cur, changed := st, false;
    WentRefl(st, st, ci);
    for i := 0 to |n2s|
      invariant Kept(cur, st.aggs.Keys, ci) && Went(st, cur, changed, ci)
    {
      var step := ThirdNodes(cur, p, rule, n1, n2s[i], n1s, depth, ci);
      if step.Err? {
        return Err(step.msg);
      }
      WentTrans(st, cur, step.value.0, changed, step.value.1, ci);
      cur, changed := step.value.0, changed || step.value.1;
    }
    return Ok((cur, changed));
  }

  /** CD or RBO on the graph of perspective `p`: the outer loop of
      `_findUnshieldedTriples` over the graph's nodes, with every triple
      handled before the next is generated, so later triples see the
      graphs as the earlier ones left them. */
  method TriplePass(st: Orienting, p: string, rule: TripleRule, depth: int, ci: CiTest)
    returns (r: Result<(Orienting, bool)>)
    requires Kept(st, st.aggs.Keys, ci) && p in st.aggs
    ensures r.Err? ==> r.msg in {Parents.KeyError, NotInDigraph}
    ensures r.Ok? ==> Kept(r.value.0, st.aggs.Keys, ci) && Went(st, r.value.0, r.value.1, ci)
  {
    var n1s := Enumerate(NodeSet(st.aggs[p]));
    var cur, changed := st, false;
    WentRefl(st, st, ci);
    for i := 0 to |n1s|
      invariant Kept(cur, st.aggs.Keys, ci) && Went(st, cur, changed, ci)
    {
      var step := SecondNodes(cur, p, rule, n1s[i], depth, ci);
      if step.Err? {
        return Err(step.msg);
      }
      WentTrans(st, cur, step.value.0, changed, step.value.1, ci);
      cur, changed := step.value.0, changed || step.value.1;
    }
    return Ok((cur, changed));
  }

  /** `applyColliderDetection` and `applyRBO` (lines 216-239): the rule on
      every graph in turn. It only removes tags and grows the records, and
      reports a change exactly when some arc went. */
  method TripleRuleEverywhere(st: Orienting, persps: seq<string>, rule: TripleRule, depth: int, ci: CiTest)
    returns (r: Result<(Orienting, bool)>)
    requires Kept(st, st.aggs.Keys, ci) && SetOf(persps) == st.aggs.Keys
    ensures r.Err? ==> r.msg in {Parents.KeyError, NotInDigraph}
    ensures r.Ok? ==> Kept(r.value.0, st.aggs.Keys, ci) && Went(st, r.value.0, r.value.1, ci)
  {
    var cur, changed := st, false;
    WentRefl(st, st, ci);
    for i := 0 to |persps|
      invariant Kept(cur, st.aggs.Keys, ci) && Went(st, cur, changed, ci)
    {
      assert persps[i] in SetOf(persps);
      var step := TriplePass(cur, persps[i], rule, depth, ci);
      if step.Err? {
        return Err(step.msg);
      }
      WentTrans(st, cur, step.value.0, changed, step.value.1, ci);
      cur, changed := step.value.0, changed || step.value.1;
    }
    return Ok((cur, changed));
  }

  // ---------------------------------------------------------------------------
  // The rules that need no separating set.

  /** Known non-colliders, cycle avoidance and Meek's rule 3. */
  datatype TargetRule = KNCRule | CARule | MR3Rule

  /** The arcs a rule's candidates, collected before any is applied, point
      at (lines 58-149 of EdgeOrientation.py). */
  function Targets(rule: TargetRule, g: Agg): set<(Node, Node)> {
    var a := Arcs(g);
    match rule
    case KNCRule => set t | t in EdgeOrientation.KNCCandidates(a) :: EdgeOrientation.KNCTarget(t)
    case CARule => set t | t in EdgeOrientation.CACandidates(a) :: EdgeOrientation.CATarget(t)
    case MR3Rule => set q | q in EdgeOrientation.MR3Pairs(a) :: EdgeOrientation.MR3Target(q)
  }

  /** A target the driver orients: still undirected when its turn comes,
      and between two variables (lines 246, 258 and 270 of RCD.py). */
  predicate Fires(g: Agg, e: (Node, Node)) {
    e.0.VarNode? && e.1.VarNode? && EdgeOrientation.Undirected(Arcs(g), e.0, e.1)
  }

  /** No candidate of the rule has anything left to orient in `g`. */
  ghost predicate Done(rule: TargetRule, g: Agg) {
    forall e | e in Targets(rule, g) :: !Fires(g, e)
  }

  /** The rule on the graph of perspective `p`: its candidates are
      collected from the graph as it is, then each target is oriented when
      it still fires. It reports a change exactly when some arc went, and
      when it reports none the rule has nothing left to do there. */
  method TargetPass(st: Orienting, p: string, rule: TargetRule, ci: CiTest) returns (st': Orienting, changed: bool)
    requires Kept(st, st.aggs.Keys, ci) && p in st.aggs
    ensures Kept(st', st.aggs.Keys, ci) && Went(st, st', changed, ci)
    ensures !changed ==> st' == st && Done(rule, st.aggs[p])
  {
    var g := st.aggs[p];
    var ts := Enumerate(Targets(rule, g));
    st', changed := st, false;
    WentRefl(st, st, ci);
    for i := 0 to |ts|
      invariant Kept(st', st.aggs.Keys, ci) && Went(st, st', changed, ci)
      invariant !changed ==> st' == st && forall j | 0 <= j < i :: !Fires(g, ts[j])
    {
      if ts[i].0.VarNode? && ts[i].1.VarNode? {
        var nxt, c := Orient(st', p, ts[i], ci);
        WentTrans(st, st', nxt, changed, c, ci);
        st', changed := nxt, changed || c;
      }
    }
    assert !changed ==> Done(rule, g) by {
      forall e | e in Targets(rule, g) ensures !changed ==> !Fires(g, e) {
        assert e in SetOf(ts);
      }
    }
  }

  /** `applyKnownNonColliders`, `applyCycleAvoidance` and `applyMR3` (lines
      242-276): the rule on every graph in turn. */
  method TargetRuleEverywhere(st: Orienting, persps: seq<string>, rule: TargetRule, ci: CiTest)
    returns (st': Orienting, changed: bool)
    requires Kept(st, st.aggs.Keys, ci) && SetOf(persps) == st.aggs.Keys
    ensures Kept(st', st.aggs.Keys, ci) && Went(st, st', changed, ci)
    ensures !changed ==> st' == st && forall p | p in st.aggs :: Done(rule, st.aggs[p])
  {
    st', changed := st, false;
    WentRefl(st, st, ci);
    for i := 0 to |persps|
      invariant Kept(st', st.aggs.Keys, ci) && Went(st, st', changed, ci)
      invariant !changed ==> st' == st && forall j | 0 <= j < i :: Done(rule, st.aggs[persps[j]])
    {
      assert persps[i] in SetOf(persps);
      var nxt, c := TargetPass(st', persps[i], rule, ci);
      WentTrans(st, st', nxt, changed, c, ci);
      st', changed := nxt, changed || c;
    }
    assert !changed ==> forall p | p in st.aggs :: Done(rule, st.aggs[p]) by {
      forall p | p in st.aggs ensures !changed ==> Done(rule, st.aggs[p]) {
        assert p in SetOf(persps);
      }
    }
  }

  /** None of the three rules has anything left to orient in any graph. */
  ghost predicate SepsetFreeDone(aggs: Aggs) {
    forall p | p in aggs :: Done(KNCRule, aggs[p]) && Done(CARule, aggs[p]) && Done(MR3Rule, aggs[p])
  }

  /** One test of the loop condition of `applySepsetFreeOrientationRules`
      (lines 208-213): KNC, then CA only when KNC changed nothing, then MR3
      only when neither did. */
  method SepsetFreeRound(st: Orienting, persps: seq<string>, ci: CiTest) returns (st': Orienting, changed: bool)
    requires Kept(st, st.aggs.Keys, ci) && SetOf(persps) == st.aggs.Keys
    ensures Kept(st', st.aggs.Keys, ci) && Went(st, st', changed, ci)
    ensures !changed ==> st' == st && SepsetFreeDone(st.aggs)
  {
    st', changed := TargetRuleEverywhere(st, persps, KNCRule, ci);
    if changed {
      return;
    }
    st', changed := TargetRuleEverywhere(st, persps, CARule, ci);
    if changed {
      return;
    }
    st', changed := TargetRuleEverywhere(st, persps, MR3Rule, ci);
  }

  /** Fewer arcs: the measure the loop below decreases. */
  lemma FewerArcs(a0: Aggs, a: Aggs)
    requires ArcKeys(a) < ArcKeys(a0)
    ensures |ArcKeys(a)| < |ArcKeys(a0)|
  {
    SubsetSmaller(ArcKeys(a), ArcKeys(a0));
  }

  /** `applySepsetFreeOrientationRules`: rounds until one changes nothing.
      Every round that changes something removes an arc, so the loop ends,
      and it ends with nothing left for KNC, CA or MR3 to orient. */
  method SepsetFree(st: Orienting, persps: seq<string>, ci: CiTest) returns (st': Orienting)
    requires Kept(st, st.aggs.Keys, ci) && SetOf(persps) == st.aggs.Keys
    ensures Kept(st', st.aggs.Keys, ci) && Went(st, st', st'.aggs != st.aggs, ci)
    ensures SepsetFreeDone(st'.aggs)
  {
    var changed := false;
    st' := st;
    WentRefl(st, st, ci);
    while true
      invariant Kept(st', st.aggs.Keys, ci) && Went(st, st', changed, ci)
      decreases |ArcKeys(st'.aggs)|
    {
      var nxt, c := SepsetFreeRound(st', persps, ci);
      if !c {
        assert changed == (st'.aggs != st.aggs);
        return;
      }
      FewerArcs(st'.aggs, nxt.aggs);
      WentTrans(st, st', nxt, changed, c, ci);
      st', changed := nxt, true;
    }
  }

  // ---------------------------------------------------------------------------
  // Phase II.

  /** From `st0` to `st` the graphs only lost tags and the records only grew. */
  ghost predicate Progressed(st0: Orienting, st: Orienting, ci: CiTest) {
    Shrunk(st0.aggs, st.aggs) && RecordsGrow(st0.seps, st.seps, ci)
  }

  lemma ProgressedTrans(st0: Orienting, st1: Orienting, st2: Orienting, c: bool, ci: CiTest)
    requires Progressed(st0, st1, ci) && Went(st1, st2, c, ci)
    ensures Progressed(st0, st2, ci)
  {
    ShrunkTrans(st0.aggs, st1.aggs, st2.aggs);
    RecordsGrowTrans(st0.seps, st1.seps, st2.seps, ci);
  }

  /** CD or RBO on every graph, continuing from `st`. */
  method RunTriple(st0: Orienting, st: Orienting, persps: seq<string>, rule: TripleRule, depth: int, ci: CiTest)
    returns (r: Result<Orienting>)
    requires Kept(st, st0.aggs.Keys, ci) && SetOf(persps) == st0.aggs.Keys && Progressed(st0, st, ci)
    ensures r.Err? ==> r.msg in {Parents.KeyError, NotInDigraph}
    ensures r.Ok? ==> Kept(r.value, st0.aggs.Keys, ci) && Progressed(st0, r.value, ci)
  {
    var step :- TripleRuleEverywhere(st, persps, rule, depth, ci);
    ProgressedTrans(st0, st, step.0, step.1, ci);
    return Ok(step.0);
  }

  /** The sepset-free rules to their end, continuing from `st`. */
  method RunSepsetFree(st0: Orienting, st: Orienting, persps: seq<string>, ci: CiTest) returns (r: Orienting)
    requires Kept(st, st0.aggs.Keys, ci) && SetOf(persps) == st0.aggs.Keys && Progressed(st0, st, ci)
    ensures Kept(r, st0.aggs.Keys, ci) && Progressed(st0, r, ci) && SepsetFreeDone(r.aggs)
  {
    r := SepsetFree(st, persps, ci);
    ProgressedTrans(st0, st, r, r.aggs != st.aggs, ci);
  }

  /** `applyOrientationRules(rboOrder)` (lines 190-205): 'normal' runs CD,
      RBO, then the sepset-free rules; 'first' runs RBO before CD; 'last'
      runs the sepset-free rules between CD and RBO and again at the end;
      any other order fails before a rule runs. Every order ends with the
      sepset-free rules, so none of KNC, CA and MR3 is left with anything
      to orient. */
  method ApplyOrientationRules(st: Orienting, persps: seq<string>, rboOrder: string, depth: int, ci: CiTest)
    returns (r: Result<Orienting>)
    requires Kept(st, st.aggs.Keys, ci) && SetOf(persps) == st.aggs.Keys
    ensures rboOrder !in Orders ==> r == Err(BadRboOrder)
    ensures r.Err? ==> r.msg in {BadRboOrder, Parents.KeyError, NotInDigraph}
    ensures r.Err? && rboOrder in Orders ==> r.msg in {Parents.KeyError, NotInDigraph}
    ensures r.Ok? ==> Kept(r.value, st.aggs.Keys, ci) && Progressed(st, r.value, ci) && SepsetFreeDone(r.value.aggs)
  {
    if rboOrder !in Orders {
      return Err(BadRboOrder);
    }
    WentRefl(st, st, ci);
    ShrunkRefl(st.aggs);
    var cur := st;
    if rboOrder == "normal" {
      cur :- RunTriple(st, cur, persps, CDRule, depth, ci);
      cur :- RunTriple(st, cur, persps, RBORule, depth, ci);
    } else if rboOrder == "first" {
      cur :- RunTriple(st, cur, persps, RBORule, depth, ci);
      cur :- RunTriple(st, cur, persps, CDRule, depth, ci);
    } else {
      cur :- RunTriple(st, cur, persps, CDRule, depth, ci);
      cur := RunSepsetFree(st, cur, persps, ci);
      cur :- RunTriple(st, cur, persps, RBORule, depth, ci);
    }
    cur := RunSepsetFree(st, cur, persps, ci);
    return Ok(cur);
  }

  /** `d` is the default depth: the most nodes of any graph, less two. */
  ghost predicate DefaultDepth(aggs: Aggs, d: int) {
    && (forall p | p in aggs :: |NodeSet(aggs[p])| - 2 <= d)
    && (exists p | p in aggs :: |NodeSet(aggs[p])| - 2 == d)
  }

  /** What Phase II promises of the model `n` it leaves from `m`: only the
      depth, the graphs, the records, the cache and the oriented
      dependencies change; a missing depth becomes the default one; the
      graphs, under the same perspectives, have only lost tags; the records
      only grew; the cache agrees with the tester; none of KNC, CA and MR3
      has anything left to orient; and the oriented dependencies are
      exactly those some edge of some graph still carries. */
  ghost predicate Oriented(m: Rcd, n: Rcd, ci: CiTest) {
    && m.aggs.Some? && m.sepsets.Some? && m.undirected.Some?
    && n == m.(depth := n.depth, aggs := n.aggs, sepsets := n.sepsets, cache := n.cache, oriented := n.oriented)
    && n.depth.Some? && (m.depth.Some? ==> n.depth == m.depth) && (m.depth.None? ==> DefaultDepth(m.aggs.value, n.depth.value))
    && n.aggs.Some? && n.sepsets.Some? && n.oriented.Some?
    && var aggs := n.aggs.value;
       && AllWf(aggs) && aggs.Keys == m.aggs.value.Keys && Agrees(n.cache, ci)
       && Shrunk(m.aggs.value, aggs) && RecordsGrow(m.sepsets.value, n.sepsets.value, ci)
       && SepsetFreeDone(aggs)
       && n.oriented.value == Tags(aggs)
  }

  /** `orientDependencies(rboOrder)` (lines 157-187): it needs the
      undirected dependencies and the records of Phase I; a missing depth
      defaults as in Phase I, which needs the graphs and fails on none;
      then the orientation rules run, and the oriented dependencies are
      the tags left on the graphs. */
  method OrientDependencies(m: Rcd, rboOrder: string, ci: CiTest) returns (r: Result<Rcd>)
    requires Agrees(m.cache, ci) && (m.aggs.Some? ==> AllWf(m.aggs.value))
    ensures m.undirected.None? ==> r == Err(NoUndirected)
    ensures m.undirected.Some? && m.sepsets.None? ==> r == Err(NoSepsets)
    ensures m.undirected.Some? && m.sepsets.Some? && m.aggs.None? && (m.depth.None? || rboOrder in Orders) ==>
              r == Err(NoGraphs)
    ensures m.undirected.Some? && m.sepsets.Some? && m.depth.None? && m.aggs == Some(map[]) ==> r == Err(EmptyMax)
    ensures (&& m.undirected.Some? && m.sepsets.Some? && rboOrder !in Orders
             && (m.depth.Some? || (m.aggs.Some? && m.aggs.value.Keys != {}))) ==> r == Err(BadRboOrder)
    ensures r.Err? ==> r.msg in {NoUndirected, NoSepsets, NoGraphs, EmptyMax, BadRboOrder, Parents.KeyError, NotInDigraph}
    ensures r.Err? && r.msg == BadRboOrder ==> rboOrder !in Orders
    ensures r.Ok? ==> rboOrder in Orders && Oriented(m, r.value, ci)
  {
    if m.undirected.None? {
      return Err(NoUndirected);
    }
    if m.sepsets.None? {
      return Err(NoSepsets);
    }
    var depth: int;
    if m.depth.Some? {
      depth := m.depth.value;
    } else {
      if m.aggs.None? {
        return Err(NoGraphs);
      }
      var md := MaxDepth(m.aggs.value);
      if md.Err? {
        return Err(md.msg);
      }
      depth := md.value;
    }
    if rboOrder !in Orders {
      return Err(BadRboOrder);
    }
    if m.aggs.None? {
      return Err(NoGraphs);
    }
    var persps := Enumerate(m.aggs.value.Keys);
    var st := Orienting(m.aggs.value, m.sepsets.value, m.cache);
    var fin :- ApplyOrientationRules(st, persps, rboOrder, depth, ci);
    r := Ok(m.(depth := Some(depth), aggs := Some(fin.aggs), sepsets := Some(fin.seps), cache := fin.cache,
               oriented := Some(Tags(fin.aggs))));
  }

  /** The oriented dependencies are among those the graphs carried before
      Phase II, and records that were sound stay sound. */
  lemma OrientedWithin(m: Rcd, n: Rcd, ci: CiTest)
    requires Oriented(m, n, ci)
    ensures n.oriented.value <= Tags(m.aggs.value)
    ensures RCDPhaseOne.SepsSound(m.sepsets.value, ci) ==> RCDPhaseOne.SepsSound(n.sepsets.value, ci)
  {
    ThinnedFewer(m.aggs.value, n.aggs.value, Tags(m.aggs.value));
    if RCDPhaseOne.SepsSound(m.sepsets.value, ci) {
      RecordsGrowSound(m.sepsets.value, n.sepsets.value, ci);
    }
  }

  /** After Phase I, the oriented dependencies are among the undirected
      ones: the graphs Phase I leaves carry only candidates it did not
      separate. */
  lemma OrientedUndirected(pot: set<RelDep>, aggs0: Aggs, u: Rcd, n: Rcd, limit: Option<nat>, ci: CiTest)
    requires RCDPhaseOne.Undirected(pot, aggs0, u, limit, ci) && TagsWithin(aggs0, pot) && Oriented(u, n, ci)
    ensures n.oriented.value <= SetOf(u.undirected.value)
  {
    OrientedWithin(u, n, ci);
    PhaseOneTags(pot, aggs0, u, limit, ci);
  }

  /** The graphs Phase I leaves carry only dependencies it left undirected. */
  lemma PhaseOneTags(pot: set<RelDep>, aggs0: Aggs, u: Rcd, limit: Option<nat>, ci: CiTest)
    requires RCDPhaseOne.Undirected(pot, aggs0, u, limit, ci) && TagsWithin(aggs0, pot)
    ensures Tags(u.aggs.value) <= SetOf(u.undirected.value)
  {
    var aggs := u.aggs.value;
    var dropped := RCDPhaseOne.Dropped(pot, u.sepsets.value);
    forall d | d in Tags(aggs) ensures d in SetOf(u.undirected.value) {
      var p, a :| p in aggs && a in aggs[p].edges && d in aggs[p].edges[a];
      assert ThinnedAgg(aggs0[p], aggs[p], dropped);
      assert Untagged(aggs[p], dropped);
    }
  }

  /** What Phase I promises of `u` when run on a fresh learner `m`. */
  ghost predicate PhaseOneOf(m: Rcd, u: Rcd, ci: CiTest) {
    var pot := RCDPhaseOne.PhaseOneCandidates(m);
    RCDPhaseOne.Undirected(SetOf(pot), ConstructAggs(m.schema, pot, m.hop, 2), u, RCDPhaseOne.PhaseOneLimit(m.hop), ci)
  }

  /** Phase II after Phase I orients only dependencies Phase I left undirected. */
  lemma LearnedUndirected(m: Rcd, u: Rcd, n: Rcd, ci: CiTest)
    requires PhaseOneOf(m, u, ci) && Oriented(u, n, ci)
    ensures n.oriented.value <= SetOf(u.undirected.value)
  {
    var pot := RCDPhaseOne.PhaseOneCandidates(m);
    ConstructedTags(m.schema, pot, m.hop, 2);
    OrientedUndirected(SetOf(pot), ConstructAggs(m.schema, pot, m.hop, 2), u, n, RCDPhaseOne.PhaseOneLimit(m.hop), ci);
  }

  /** `runRCD(schema, citest, hopThreshold, depth)` (lines 393-397): build
      the learner, run Phase I with its defaults, then Phase II in the
      normal order, and return the oriented dependencies. The constructor's
      rejections come through unchanged, and what is returned is among the
      dependencies Phase I left undirected. */
  method RunRCD(schema: Schema, hop: Space.Num, depth: Option<Space.Num>, ci: CiTest) returns (r: Result<set<RelDep>>)
    ensures NewRCD(schema, hop, depth).Err? ==> r == Err(NewRCD(schema, hop, depth).msg)
    ensures r.Ok? ==> && NewRCD(schema, hop, depth).Ok?
                      && exists u :: PhaseOneOf(NewRCD(schema, hop, depth).value, u, ci)
                                     && r.value <= SetOf(u.undirected.value)
  {
    var m :- NewRCD(schema, hop, depth);
    var u :- RCDPhaseOne.IdentifyUndirected(m, false, 2, ci);
    var n :- OrientDependencies(u, "normal", ci);
    LearnedUndirected(m, u, n, ci);
    return Ok(n.oriented.value);
  }
}
