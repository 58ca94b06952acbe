/** The abstract ground graph (AGG) of a model seen from one perspective item:
    its nodes are the relational variables based at the perspective within the
    hop threshold, plus one intersection node per pair of variables whose paths
    diverge; its edges come from extending each dependency along a node's
    path and carry the set of dependencies that produced them. */
module AGGs {
  import opened Wrappers
  import opened Collections
  import opened Schemas
  import opened RelVars
  import opened Digraphs
  import Validity
  import Space
  import ParserUtil
  import CausalModel

  const BadPerspective := "Perspective must be a valid schema item name"
  const BadHop := "hopThreshold must be a non-negative integer"
  const NotAVariable := "relVar must be a RelationalVariable"
  const NotInDigraph := "The node is not in the digraph."
  const RecursionLimit := "maximum recursion depth exceeded"

  /** The message for a variable that is not a node, quoting it as printed. */
  function NotANode(v: RelVar): string {
    "relVar '" + ParserUtil.Show(v) + "' is not a node in the abstract ground graph"
  }

  // ---------------------------------------------------------------------------
  // Extending a path by a dependency's cause path.

  /** `findPivots`: the positions 1..k, where k is the length of the longest
      common prefix of the two paths. */
  function FindPivots(p1: seq<string>, p2: seq<string>): (r: seq<nat>)
    ensures |r| <= |p1| && |r| <= |p2|
    ensures forall i :: 0 <= i < |r| ==> r[i] == i + 1
    ensures p1[..|r|] == p2[..|r|]
    ensures |r| < |p1| && |r| < |p2| ==> p1[|r|] != p2[|r|]
  {
    PivotsFrom(p1, p2, 0)
  }

  function PivotsFrom(p1: seq<string>, p2: seq<string>, i: nat): (r: seq<nat>)
    requires i <= |p1| && i <= |p2| && p1[..i] == p2[..i]
    ensures i + |r| <= |p1| && i + |r| <= |p2|
    ensures forall k :: 0 <= k < |r| ==> r[k] == i + k + 1
    ensures p1[..i + |r|] == p2[..i + |r|]
    ensures i + |r| < |p1| && i + |r| < |p2| ==> p1[i + |r|] != p2[i + |r|]
    decreases |p1| - i
  {
    if i == |p1| || i == |p2| || p1[i] != p2[i] then []
    else
      assert p1[..i + 1] == p1[..i] + [p1[i]] && p2[..i + 1] == p2[..i] + [p2[i]];
      [i + 1] + PivotsFrom(p1, p2, i + 1)
  }

  /** The number of items the end of `orig`, read backwards, shares with the start of `ext`. */
  function Overlap(orig: seq<string>, ext: seq<string>): nat {
    |FindPivots(Rev(orig), ext)|
  }

  /** Walk `orig`, back up `pivot - 1` items where `ext` retraces it, then follow the rest of `ext`. */
  function Splice(orig: Path, ext: Path, pivot: nat): (q: Path)
    requires 1 <= pivot <= |orig| && pivot <= |ext|
    ensures |q| == |orig| + |ext| + 1 - 2 * pivot
  {
    orig[..|orig| - pivot + 1] + ext[pivot..]
  }

  /** The splices at pivots `lo..hi` that pass the path check, in pivot order. */
  function KeepValid(s: Schema, orig: Path, ext: Path, lo: nat, hi: nat): (r: seq<seq<string>>)
    requires 1 <= lo && hi <= |orig| && hi <= |ext|
    ensures forall q :: q in r <==>
              exists k :: lo <= k <= hi && q == Splice(orig, ext, k) && Validity.CheckPath(s, q).Pass?
    ensures forall i :: 0 <= i < |r| ==> |orig| + |ext| + 1 - 2 * hi <= |r[i]| <= |orig| + |ext| + 1 - 2 * lo
    ensures forall i, j :: 0 <= i < j < |r| ==> |r[i]| > |r[j]|
  {
    KeepSplices(orig, ext, lo, hi, q => Validity.CheckPath(s, q).Pass?)
  }

  /** The same over any test of a splice. */
  function KeepSplices(orig: Path, ext: Path, lo: nat, hi: nat, keep: seq<string> -> bool): (r: seq<seq<string>>)
    requires 1 <= lo && hi <= |orig| && hi <= |ext|
    ensures forall q :: q in r <==> exists k :: lo <= k <= hi && q == Splice(orig, ext, k) && keep(q)
    ensures forall i :: 0 <= i < |r| ==> |orig| + |ext| + 1 - 2 * hi <= |r[i]| <= |orig| + |ext| + 1 - 2 * lo
    ensures forall i, j :: 0 <= i < j < |r| ==> |r[i]| > |r[j]|
    decreases hi + 1 - lo
  {
    if lo > hi then []
    else
      var rest := KeepSplices(orig, ext, lo + 1, hi, keep);
      var q := Splice(orig, ext, lo);
      if keep(q) then [q] + rest else rest
  }

  /** `extendPath`: every valid way of continuing `orig` by `ext`, where `ext`
      starts at the item where `orig` ends; invalid splices are dropped. */
  function ExtendPath(s: Schema, orig: Path, ext: Path): (r: seq<seq<string>>)
    ensures forall q :: q in r <==>
              exists k :: 1 <= k <= Overlap(orig, ext) && q == Splice(orig, ext, k) && Validity.CheckPath(s, q).Pass?
    ensures PairwiseDistinct(r)
  {
    var k := Overlap(orig, ext);
    var r := KeepValid(s, orig, ext, 1, k);
    r
  }

  /** Every extension starts where `orig` starts and ends where `ext` ends,
      and is a valid path. */
  lemma ExtendPathEnds(s: Schema, orig: Path, ext: Path, q: seq<string>)
    requires WellFormed(s) && q in ExtendPath(s, orig, ext)
    ensures |q| > 0 && q[0] == orig[0] && q[|q| - 1] == ext[|ext| - 1]
    ensures Validity.ValidPath(s, q)
  {
    var k :| 1 <= k <= Overlap(orig, ext) && q == Splice(orig, ext, k) && Validity.CheckPath(s, q).Pass?;
    Validity.CheckPathValid(s, q);
    SpliceEnds(orig, ext, k);
  }

  /** A splice at a pivot within the overlap starts at `orig`'s base and ends at `ext`'s terminal. */
  lemma SpliceEnds(orig: Path, ext: Path, k: nat)
    requires 1 <= k <= Overlap(orig, ext)
    ensures var q := Splice(orig, ext, k); q[0] == orig[0] && q[|q| - 1] == ext[|ext| - 1]
  {
    var q := Splice(orig, ext, k);
    var p := FindPivots(Rev(orig), ext);
    assert q[0] == orig[0];
    if k == |ext| {
      assert Rev(orig)[..|p|][k - 1] == ext[..|p|][k - 1];
      assert q[|q| - 1] == orig[|orig| - k] == Rev(orig)[k - 1];
    } else {
      assert q[|q| - 1] == ext[k..][|ext| - k - 1];
    }
  }

  // ---------------------------------------------------------------------------
  // Nodes.

  datatype Node = VarNode(v: RelVar) | IntNode(i: Intersection)

  /** The intersection of two variables in its canonical form (smaller variable first). */
  function Canon(a: RelVar, b: RelVar): (i: Intersection)
    ensures {i.relVar1, i.relVar2} == {a, b}
    ensures !VarLess(i.relVar2, i.relVar1)
  {
    var k := IntersectionKey(Intersection(a, b));
    Intersection(k.0, k.1)
  }

  /** One intersection node per unordered pair. */
  lemma CanonSymmetric(a: RelVar, b: RelVar)
    ensures Canon(a, b) == Canon(b, a)
  {
    IntersectionOrderIrrelevant(a, b);
  }

  datatype Agg = Agg(perspective: string, hop: nat, vars: set<RelVar>, ints: set<Intersection>,
                     edges: map<(Node, Node), set<RelDep>>, subsumed: map<RelVar, set<Node>>,
                     cache: map<Node, set<Node>>)

  function NodeSet(g: Agg): set<Node> {
    (set v | v in g.vars :: VarNode(v)) + (set i | i in g.ints :: IntNode(i))
  }

  function ArcSet(g: Agg): set<(Node, Node)> {
    g.edges.Keys
  }

  /** The invariants every graph built here keeps: edges join nodes and carry
      at least one dependency; each variable subsumes itself and only nodes. */
  ghost predicate Wf(g: Agg) {
    && Closed(NodeSet(g), ArcSet(g))
    && (forall a :: a in g.edges ==> g.edges[a] != {})
    && g.subsumed.Keys == g.vars
    && (forall v :: v in g.subsumed ==> VarNode(v) in g.subsumed[v] && g.subsumed[v] <= NodeSet(g))
  }

  // ---------------------------------------------------------------------------
  // Construction.

  /** The variables of at most `h` hops based at the perspective, without existence variables. */
  function VarsAt(s: Schema, perspective: string, h: nat): set<RelVar> {
    set v | v in Space.VarsOf(s, Space.PathsUpTo(s, h), false) && Base(v) == perspective
  }

  /** The dependencies that put an edge from `c` into `n`: those whose effect
      is `n`'s attribute on `n`'s terminal item, and whose cause, extended
      along `n`'s path, is `c`. */
  function DepTags(s: Schema, deps: seq<RelDep>, c: RelVar, n: RelVar): set<RelDep> {
    set d | d in deps && d.effect == RelVar([Terminal(n)], n.attrName) && d.cause.attrName == c.attrName
            && c.path in ExtendPath(s, n.path, d.cause.path)
  }

  function Intersections(vars: set<RelVar>): set<Intersection> {
    set a, b | a in vars && b in vars && Intersects(a, b) :: Canon(a, b)
  }

  /** What each variable subsumes: itself and the intersections built from it. */
  function Subsumed(vars: set<RelVar>): map<RelVar, set<Node>> {
    map v | v in vars :: {VarNode(v)} + set w | w in vars && Intersects(v, w) :: IntNode(Canon(v, w))
  }

  /** The tags of a candidate edge: an edge between variables carries the
      dependencies that produce it; an edge into (out of) an intersection node
      pools the tags of the edges into (out of) its two sources. */
  function Tags(s: Schema, deps: seq<RelDep>, a: (Node, Node)): set<RelDep> {
    match a
    case (VarNode(c), VarNode(n)) => DepTags(s, deps, c, n)
    case (VarNode(c), IntNode(i)) => DepTags(s, deps, c, i.relVar1) + DepTags(s, deps, c, i.relVar2)
    case (IntNode(i), VarNode(e)) => DepTags(s, deps, i.relVar1, e) + DepTags(s, deps, i.relVar2, e)
    case (IntNode(_), IntNode(_)) => {}
  }

  function Pairs(nodes: set<Node>): set<(Node, Node)> {
    set x, y | x in nodes && y in nodes :: (x, y)
  }

  /** Every pair of nodes with a nonempty tag set, with its tags. */
  function Edges(s: Schema, deps: seq<RelDep>, nodes: set<Node>): map<(Node, Node), set<RelDep>> {
    map a | a in Pairs(nodes) && Tags(s, deps, a) != {} :: Tags(s, deps, a)
  }

  /** The graph over the given variable nodes. */
  function Assemble(s: Schema, deps: seq<RelDep>, perspective: string, hop: nat, vars: set<RelVar>): (g: Agg)
    ensures g.perspective == perspective && g.hop == hop && g.vars == vars && g.cache == map[]
    ensures Wf(g)
  {
    var bare := Agg(perspective, hop, vars, Intersections(vars), map[], Subsumed(vars), map[]);
    var g := bare.(edges := Edges(s, deps, NodeSet(bare)));
    AssembleWf(g, s, deps);
    g
  }

  lemma AssembleWf(g: Agg, s: Schema, deps: seq<RelDep>)
    requires g.ints == Intersections(g.vars) && g.subsumed == Subsumed(g.vars)
    requires g.edges == Edges(s, deps, NodeSet(g))
    ensures Wf(g)
  {
    forall v | v in g.subsumed
      ensures g.subsumed[v] <= NodeSet(g)
    {
      forall x | x in g.subsumed[v] ensures x in NodeSet(g) {
        if x != VarNode(v) {
          var w :| w in g.vars && Intersects(v, w) && x == IntNode(Canon(v, w));
          assert Canon(v, w) in g.ints;
        }
      }
    }
  }

  /** The AbstractGroundGraph constructor. */
  function Build(m: CausalModel.Model, perspective: string, h: Space.Num): (r: Result<Agg>)
    ensures r.Err? <==> !HasSchemaItem(m.schema, perspective) || !(h.IntNum? && h.i >= 0)
    ensures r.Err? ==> r.msg == if !HasSchemaItem(m.schema, perspective) then BadPerspective else BadHop
    ensures r.Ok? ==> r.value.perspective == perspective && r.value.hop == h.i && r.value.cache == map[]
    ensures r.Ok? ==> Wf(r.value)
  {
    if !HasSchemaItem(m.schema, perspective) then Err(BadPerspective)
    else if !(h.IntNum? && h.i >= 0) then Err(BadHop)
    else Ok(Assemble(m.schema, m.dependencies, perspective, h.i, VarsAt(m.schema, perspective, h.i)))
  }

  /** The variable nodes are exactly the non-existence variables that are
      valid, based at the perspective, and of at most `h` hops. */
  lemma VariableNodes(m: CausalModel.Model, perspective: string, h: Space.Num, v: RelVar)
    requires WellFormed(m.schema) && Space.NoSelfRelationships(m.schema)
    requires Build(m, perspective, h).Ok?
    ensures VarNode(v) in NodeSet(Build(m, perspective, h).value) <==>
              Base(v) == perspective && |v.path| <= h.i + 1 && Validity.ValidVariable(m.schema, v) && !IsExistence(v)
  {
    Space.VariablesValid(m.schema, h.i, false, v);
  }

  /** Between two nodes, the edge map holds exactly the pair's tags (an absent edge reads as no tags). */
  lemma EdgeAt(s: Schema, deps: seq<RelDep>, nodes: set<Node>, a: (Node, Node))
    requires a.0 in nodes && a.1 in nodes
    ensures SetAt(Edges(s, deps, nodes), a) == Tags(s, deps, a)
  {
    assert a in Pairs(nodes);
  }

  /** An edge between two variable nodes is tagged with exactly the model's
      dependencies whose effect is the target's attribute on its terminal
      item and whose cause, extended along the target's path, is the source;
      the source then starts where the target starts, ends where the cause
      path ends, and has a valid path. */
  lemma VariableEdges(g: Agg, s: Schema, deps: seq<RelDep>, c: RelVar, n: RelVar, d: RelDep)
    requires WellFormed(s) && g.edges == Edges(s, deps, NodeSet(g)) && c in g.vars && n in g.vars
    ensures d in SetAt(g.edges, (VarNode(c), VarNode(n)))
            <==> d in deps && d.effect == RelVar([Terminal(n)], n.attrName)
                 && d.cause.attrName == c.attrName && c.path in ExtendPath(s, n.path, d.cause.path)
    ensures d in SetAt(g.edges, (VarNode(c), VarNode(n)))
            ==> Base(c) == Base(n) && Terminal(c) == Terminal(d.cause) && Validity.ValidPath(s, c.path)
  {
    VarEdgeTags(g, s, deps, c, n);
    if d in DepTags(s, deps, c, n) {
      ExtendPathEnds(s, n.path, d.cause.path, c.path);
    }
  }

  lemma VarEdgeTags(g: Agg, s: Schema, deps: seq<RelDep>, c: RelVar, n: RelVar)
    requires g.edges == Edges(s, deps, NodeSet(g)) && c in g.vars && n in g.vars
    ensures SetAt(g.edges, (VarNode(c), VarNode(n))) == DepTags(s, deps, c, n)
  {
    EdgeAt(s, deps, NodeSet(g), (VarNode(c), VarNode(n)));
  }

  /** Intersection nodes come one per unordered pair of intersecting variable
      nodes, and each variable subsumes itself and the intersection nodes it
      is a source of. */
  lemma IntersectionNodes(g: Agg, v: RelVar, x: Node)
    requires g.ints == Intersections(g.vars) && g.subsumed == Subsumed(g.vars) && v in g.vars
    ensures x in g.subsumed[v] <==>
              x == VarNode(v) || (x.IntNode? && x in NodeSet(g) && v in {x.i.relVar1, x.i.relVar2})
    ensures x.IntNode? ==> (x in NodeSet(g) <==>
              x.i.relVar1 in g.vars && x.i.relVar2 in g.vars && Intersects(x.i.relVar1, x.i.relVar2)
              && x.i == Canon(x.i.relVar1, x.i.relVar2))
  {
    if x.IntNode? {
      IntersectionIff(g.vars, x.i);
      if x in g.subsumed[v] && x != VarNode(v) {
        SubsumedIsSource(g.vars, v, x);
      }
      if x in NodeSet(g) && v in {x.i.relVar1, x.i.relVar2} {
        SourceIsSubsumed(g.vars, v, x.i);
      }
    }
  }

  /** An intersection is built exactly from two intersecting variables, in canonical form. */
  lemma IntersectionIff(vars: set<RelVar>, i: Intersection)
    ensures i in Intersections(vars) <==>
              i.relVar1 in vars && i.relVar2 in vars && Intersects(i.relVar1, i.relVar2) && i == Canon(i.relVar1, i.relVar2)
  {
    if i in Intersections(vars) {
      var a, b :| a in vars && b in vars && Intersects(a, b) && i == Canon(a, b);
      IntersectsSymmetric(a, b);
      CanonSymmetric(a, b);
    }
  }

  lemma SubsumedIsSource(vars: set<RelVar>, v: RelVar, x: Node)
    requires v in vars && x in Subsumed(vars)[v] && x != VarNode(v)
    ensures x.IntNode? && x.i in Intersections(vars) && v in {x.i.relVar1, x.i.relVar2}
  {
    var w :| w in vars && Intersects(v, w) && x == IntNode(Canon(v, w));
  }

  lemma SourceIsSubsumed(vars: set<RelVar>, v: RelVar, i: Intersection)
    requires v in vars && i in Intersections(vars) && v in {i.relVar1, i.relVar2}
    ensures IntNode(i) in Subsumed(vars)[v]
  {
    var a, b :| a in vars && b in vars && Intersects(a, b) && i == Canon(a, b);
    IntersectsSymmetric(a, b);
    CanonSymmetric(a, b);
    if v == a {
      assert IntNode(Canon(v, b)) in Subsumed(vars)[v];
    } else {
      assert IntNode(Canon(v, a)) in Subsumed(vars)[v];
    }
  }

  /** An intersection node's edges pool its two sources' edges: it has an
      edge from (to) a variable node exactly when one of its sources does,
      tagged with the union of their tags; no edge joins two intersection nodes. */
  lemma IntersectionEdges(g: Agg, s: Schema, deps: seq<RelDep>, i: Intersection, c: RelVar)
    requires g.ints == Intersections(g.vars) && g.edges == Edges(s, deps, NodeSet(g))
    requires i in g.ints && c in g.vars
    ensures SetAt(g.edges, (VarNode(c), IntNode(i)))
            == SetAt(g.edges, (VarNode(c), VarNode(i.relVar1))) + SetAt(g.edges, (VarNode(c), VarNode(i.relVar2)))
    ensures SetAt(g.edges, (IntNode(i), VarNode(c)))
            == SetAt(g.edges, (VarNode(i.relVar1), VarNode(c))) + SetAt(g.edges, (VarNode(i.relVar2), VarNode(c)))
    ensures forall j :: (IntNode(i), IntNode(j)) !in g.edges
  {
    IntersectionIff(g.vars, i);
    var nodes := NodeSet(g);
    EdgeAt(s, deps, nodes, (VarNode(c), IntNode(i)));
    EdgeAt(s, deps, nodes, (IntNode(i), VarNode(c)));
    EdgeAt(s, deps, nodes, (VarNode(c), VarNode(i.relVar1)));
    EdgeAt(s, deps, nodes, (VarNode(c), VarNode(i.relVar2)));
    EdgeAt(s, deps, nodes, (VarNode(i.relVar1), VarNode(c)));
    EdgeAt(s, deps, nodes, (VarNode(i.relVar2), VarNode(c)));
  }

  // ---------------------------------------------------------------------------
  // Queries.

  /** `getSubsumedVariables`: refused for anything but a variable node. */
  function GetSubsumedVariables(g: Agg, o: Obj): (r: Result<set<Node>>)
    requires Wf(g)
    ensures r.Ok? <==> o.VarObj? && VarNode(o.v) in NodeSet(g)
    ensures !o.VarObj? ==> r.Err? && NotAVariable <= r.msg
    ensures o.VarObj? && VarNode(o.v) !in NodeSet(g) ==> r == Err(NotANode(o.v))
    ensures r.Ok? ==> VarNode(o.v) in r.value && r.value <= NodeSet(g)
  {
    match o
    case VarObj(v) =>
      if VarNode(v) !in NodeSet(g) then Err(NotANode(v))
      else
        assert v in g.vars;
        Ok(g.subsumed[v])
    case _ => Err(NotAVariable + ": found " + Describe(o))
  }

  /** How the refusal quotes a non-variable argument. */
  function Describe(o: Obj): string {
    match o
    case StrObj(s) => "'" + s + "'"
    case DepObj(d) => "'" + ParserUtil.ShowDep(d) + "'"
    case _ => "'...'"
  }

  /** Every cached entry is the true ancestor set of its node, which has no
      cycle (only answers that came back are cached). */
  ghost predicate CacheSound(g: Agg)
    requires Wf(g)
  {
    forall n :: n in g.cache ==>
      && n in NodeSet(g)
      && g.cache[n] == AncestorsFrom(NodeSet(g), ArcSet(g), {n})
      && Acyclic(g.cache[n], ArcSet(g))
  }

  /** `getAncestors`: a cached answer when there is one; otherwise the
      ancestors of `n` including `n`, found by a recursion over predecessors
      that has no visited set, so any cycle among the ancestors makes it
      recurse without end; a fresh answer is cached. */
  function GetAncestors(g: Agg, n: Node): (r: (Result<set<Node>>, Agg))
    requires Wf(g)
    ensures n in g.cache ==> r == (Ok(g.cache[n]), g)
    ensures n !in g.cache && n !in NodeSet(g) ==> r == (Err(NotInDigraph), g)
    ensures n !in g.cache && n in NodeSet(g) ==>
              var a := AncestorsFrom(NodeSet(g), ArcSet(g), {n});
              && (r.0.Err? <==> !Acyclic(a, ArcSet(g)))
              && (r.0.Err? ==> r == (Err(RecursionLimit), g))
              && (r.0.Ok? ==> r.1 == g.(cache := g.cache[n := r.0.value]))
    ensures r.0.Ok? && CacheSound(g) ==> n in r.0.value && AncestorClosed(r.0.value, ArcSet(g))
    ensures Wf(r.1) && r.1.edges == g.edges && (CacheSound(g) ==> CacheSound(r.1))
  {
    if n in g.cache then (Ok(g.cache[n]), g)
    else if n !in NodeSet(g) then (Err(NotInDigraph), g)
    else
      var a := AncestorsFrom(NodeSet(g), ArcSet(g), {n});
      PeelDecides(a, ArcSet(g));
      if Peel(a, ArcSet(g)) != {} then (Err(RecursionLimit), g)
      else (Ok(a), g.(cache := g.cache[n := a]))
  }

  /** With a sound cache, whether an answer comes back does not depend on the
      cache: it fails exactly when the ancestors of `n` hold a cycle, and
      otherwise it is those ancestors. */
  lemma AncestorsOfNode(g: Agg, n: Node)
    requires Wf(g) && CacheSound(g) && n in NodeSet(g)
    ensures var a := AncestorsFrom(NodeSet(g), ArcSet(g), {n});
            && (GetAncestors(g, n).0.Err? <==> !Acyclic(a, ArcSet(g)))
            && (GetAncestors(g, n).0.Ok? ==> GetAncestors(g, n).0.value == a)
  {
  }

  /** A cached or fresh answer lies inside every ancestor-closed set holding `n`. */
  lemma AncestorsLeast(g: Agg, n: Node, s: set<Node>)
    requires Wf(g) && CacheSound(g) && GetAncestors(g, n).0.Ok?
    requires n in s && AncestorClosed(s, ArcSet(g))
    ensures GetAncestors(g, n).0.value <= s
  {
  }

  /** A cached or fresh answer is exactly the set of nodes with a walk to `n`. */
  lemma AncestorsAreWalks(g: Agg, n: Node, m: Node)
    requires Wf(g) && CacheSound(g) && GetAncestors(g, n).0.Ok?
    ensures m in GetAncestors(g, n).0.value <==> Reaches(ArcSet(g), m, n)
  {
    AncestorsReach(NodeSet(g), ArcSet(g), n, m);
  }

  // ---------------------------------------------------------------------------
  // Removing a dependency's edges.

  /** The edges after dropping `d` from every tag set: an edge that carried
      only `d` disappears, every other edge keeps its other tags. */
  function DropTag(edges: map<(Node, Node), set<RelDep>>, d: RelDep): (r: map<(Node, Node), set<RelDep>>)
    ensures forall a :: a in r <==> a in edges && edges[a] != {d}
    ensures forall a :: a in r ==> r[a] == edges[a] - {d}
  {
    map a | a in edges && edges[a] != {d} :: edges[a] - {d}
  }

  /** The other dependencies found on the edges that carried `d`. */
  function OtherTags(edges: map<(Node, Node), set<RelDep>>, d: RelDep): (r: set<RelDep>)
    ensures forall x :: x in r <==> x != d && exists a :: a in edges && d in edges[a] && x in edges[a]
  {
    set a, x | a in edges && d in edges[a] && x in edges[a] && x != d :: x
  }

  /** `removeEdgesForDependency` as written: the ancestor cache is left as it
      was, so answers cached before the removal are served after it. */
  function RemoveEdgesForDependencyAsWritten(g: Agg, d: RelDep): (r: (Agg, set<RelDep>))
    requires Wf(g)
    ensures r.0 == g.(edges := DropTag(g.edges, d)) && r.1 == OtherTags(g.edges, d)
    ensures Wf(r.0)
  {
    var g' := g.(edges := DropTag(g.edges, d));
    assert Closed(NodeSet(g'), ArcSet(g'));
    (g', OtherTags(g.edges, d))
  }

  /** `removeEdgesForDependency` with the ancestor cache cleared, as the
      removal of edges requires. */
  function RemoveEdgesForDependency(g: Agg, d: RelDep): (r: (Agg, set<RelDep>))
    requires Wf(g)
    ensures r.0.edges == DropTag(g.edges, d) && r.1 == OtherTags(g.edges, d)
    ensures r.0 == g.(edges := r.0.edges, cache := map[])
    ensures Wf(r.0) && CacheSound(r.0)
  {
    var (g', others) := RemoveEdgesForDependencyAsWritten(g, d);
    (g'.(cache := map[]), others)
  }

  /** Removing a dependency leaves no edge tagged with it and changes only
      the edges that carried it; removing it a second time changes nothing
      and reports no other dependency. */
  lemma RemoveEdgesExact(edges: map<(Node, Node), set<RelDep>>, d: RelDep)
    ensures forall a :: a in DropTag(edges, d) ==> d !in DropTag(edges, d)[a]
    ensures forall a :: a in edges && d !in edges[a] ==> a in DropTag(edges, d) && DropTag(edges, d)[a] == edges[a]
    ensures DropTag(edges, d).Keys <= edges.Keys
    ensures DropTag(DropTag(edges, d), d) == DropTag(edges, d) && OtherTags(DropTag(edges, d), d) == {}
  {
    var e := DropTag(edges, d);
    forall a | a in e ensures e[a] != {d} && e[a] - {d} == e[a] {
      assert d !in e[a];
    }
    assert DropTag(e, d) == e;
  }

  /** Removing two dependencies leaves the same edges in either order. */
  lemma RemoveEdgesCommute(edges: map<(Node, Node), set<RelDep>>, d1: RelDep, d2: RelDep)
    ensures DropTag(DropTag(edges, d1), d2) == DropTag(DropTag(edges, d2), d1)
  {
    var e12 := DropTag(DropTag(edges, d1), d2);
    var e21 := DropTag(DropTag(edges, d2), d1);
    forall a | a in edges
      ensures (a in e12 <==> a in e21)
      ensures a in e12 ==> e12[a] == e21[a]
    {
      DropTwice(edges[a], d1, d2);
      DropTwice(edges[a], d2, d1);
      assert edges[a] - {d1} - {d2} == edges[a] - {d2} - {d1};
    }
    assert e12 == e21;
  }

  /** A tag set survives dropping `d1` and then `d2` exactly when it is empty
      or holds some third dependency. */
  lemma DropTwice(x: set<RelDep>, d1: RelDep, d2: RelDep)
    ensures (x != {d1} && x - {d1} != {d2}) <==> (x == {} || x - {d1, d2} != {})
  {
    if x - {d1, d2} != {} {
      var e :| e in x - {d1, d2};
      assert e in x - {d1};
    } else if x != {} {
      assert x <= {d1, d2};
      if d1 in x && d2 !in x {
        assert x == {d1};
      } else if d1 !in x {
        assert x == {d2} && x - {d1} == {d2};
      } else if d1 != d2 {
        assert x - {d1} == {d2};
      }
    }
  }

  /** The graph `x -> y` whose only edge is tagged by `d`, nothing cached yet. */
  function StaleExample(x: RelVar, y: RelVar, d: RelDep): (g: Agg)
    requires x != y
    ensures Wf(g) && CacheSound(g)
    ensures NodeSet(g) == {VarNode(x), VarNode(y)} && ArcSet(g) == {(VarNode(x), VarNode(y))}
  {
    var g := Agg("A", 0, {x, y}, {}, map[(VarNode(x), VarNode(y)) := {d}],
                 map[x := {VarNode(x)}, y := {VarNode(y)}], map[]);
    assert NodeSet(g) == {VarNode(x), VarNode(y)};
    g
  }

  /** Asking for the ancestors of `y` caches `{x, y}`. */
  lemma StaleExampleAsked(x: RelVar, y: RelVar, d: RelDep)
    requires x != y
    ensures var g := StaleExample(x, y, d);
            GetAncestors(g, VarNode(y)) == (Ok({VarNode(x), VarNode(y)}), g.(cache := map[VarNode(y) := {VarNode(x), VarNode(y)}]))
  {
    SingleArcAncestors(VarNode(x), VarNode(y));
  }

  /** The cache kept by the removal as written goes stale: a graph `x -> y`
      tagged only by `d`, asked for the ancestors of `y`, then stripped of
      `d`, still answers that `x` is an ancestor of `y`. */
  lemma StaleAncestorsAfterRemoval(x: RelVar, y: RelVar, d: RelDep)
    requires x != y
    ensures var asked := GetAncestors(StaleExample(x, y, d), VarNode(y)).1;
            var stripped := RemoveEdgesForDependencyAsWritten(asked, d).0;
            && GetAncestors(stripped, VarNode(y)).0 == Ok({VarNode(x), VarNode(y)})
            && !Reaches(ArcSet(stripped), VarNode(x), VarNode(y))
            && !CacheSound(stripped)
  {
    var g := StaleExample(x, y, d);
    StaleExampleAsked(x, y, d);
    var asked := g.(cache := map[VarNode(y) := {VarNode(x), VarNode(y)}]);
    var stripped := RemoveEdgesForDependencyAsWritten(asked, d).0;
    assert stripped.edges == map[];
    NoArcsNoReach(VarNode(x), VarNode(y));
    if CacheSound(stripped) {
      AncestorsReach(NodeSet(stripped), ArcSet(stripped), VarNode(y), VarNode(x));
    }
  }

  /** In the graph with the one arc `x -> y`, the ancestors of `y` are `x` and `y`, without a cycle. */
  lemma SingleArcAncestors(x: Node, y: Node)
    requires x != y
    ensures AncestorsFrom({x, y}, {(x, y)}, {y}) == {x, y}
    ensures Acyclic({x, y}, {(x, y)})
  {
    var arcs := {(x, y)};
    var all := AncestorsFrom({x, y}, arcs, {y});
    assert x in all by {
      assert AncestorClosed(all, arcs) && y in all && (x, y) in arcs;
    }
    forall s: set<Node> | s <= {x, y} ensures !Stuck(s, arcs) {
      if x in s {
        assert PredsIn(s, arcs, x) == {};
      } else if s != {} {
        assert s == {y};
        assert PredsIn(s, arcs, y) == {};
      }
    }
  }

  /** Without arcs no walk leads anywhere else. */
  lemma NoArcsNoReach(x: Node, y: Node)
    requires x != y
    ensures !Reaches({}, x, y)
  {
    var none: set<(Node, Node)> := {};
    forall w: seq<Node> | IsWalk(w, none) && w[0] == x
      ensures w[|w| - 1] != y
    {
      FirstArc(w, none);
    }
  }

  lemma FirstArc(w: seq<Node>, arcs: set<(Node, Node)>)
    requires IsWalk(w, arcs)
    ensures |w| > 1 ==> (w[0], w[1]) in arcs
  {
  }
}
