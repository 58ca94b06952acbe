/** d-separation queries over abstract ground graphs: the argument checks,
    one graph (and its mirrored graph) per perspective and hop threshold,
    the expansion of every variable into the intersection nodes it
    subsumes, and the labelled-link search adapted from Algorithm 2 of
    Geiger, Verma and Pearl, "Identifying Independence in Bayesian
    Networks" (1990).

    The search is specified by an independent reference: a *trail* is a
    walk through the mirrored graph that starts in X, never turns straight
    back, and passes each inner node legally (a collider only when it has a
    conditioned descendant, any other node only when it is not conditioned
    on). X and Y are d-separated exactly when no trail ends in Y. */
module DSeparation {
  import opened Wrappers
  import opened Collections
  import opened RelVars
  import opened Digraphs
  import opened AGGs
  import Schemas
  import Space
  import CausalModel
  import ParserUtil

  const BadRelVars1 := "relVars1 must be a non-empty sequence of parseable RelationalVariable strings"
  const BadRelVars2 := "relVars2 must be a non-empty sequence of parseable RelationalVariable strings"
  const BadCondRelVars := "condRelVars must be a sequence of parseable RelationalVariable strings"

  // ---------------------------------------------------------------------------
  // The mirrored graph and legal moves.

  /** The mirrored graph: both directions of every graph arc, plus the arcs
      out of the extra `source` node that a search adds while it runs. */
  datatype Ug = Ug(links: set<(Node, Node)>, source: set<Node>)

  function Mirror(arcs: set<(Node, Node)>): (r: set<(Node, Node)>)
    ensures forall a :: a in r <==> a in arcs || (a.1, a.0) in arcs
  {
    arcs + Reversed(arcs)
  }

  /** `agg2ug`: every arc in both directions, and no source arcs yet. */
  function Agg2Ug(g: Agg): (u: Ug)
    ensures ArcSet(g) <= u.links && u.source == {}
    ensures forall a :: a in u.links ==> (a.1, a.0) in u.links && (a in ArcSet(g) || (a.1, a.0) in ArcSet(g))
  {
    Ug(Mirror(ArcSet(g)), {})
  }

  /** Where a link comes from: the `source` node or a graph node. */
  datatype From = Source | At(n: Node)

  /** A labelled link `f -> t` of the search. */
  type Link = (From, Node)

  /** What a search looks at: the graph's arcs (for colliders), the mirrored
      links it walks, the conditioning set and the nodes with a conditioned
      descendant. */
  datatype Ctx = Ctx(arcs: set<(Node, Node)>, links: set<(Node, Node)>, cond: set<Node>, desc: set<Node>)

  /** `t` is head-to-head on `f - t - z`: both neighbours point into it. */
  predicate Collider(c: Ctx, f: From, t: Node, z: Node) {
    f.At? && (f.n, t) in c.arcs && (z, t) in c.arcs
  }

  /** The legality of the link pair `(f -> t, t -> z)`. */
  predicate Legal(c: Ctx, f: From, t: Node, z: Node) {
    if Collider(c, f, t, z) then t in c.desc else t !in c.cond
  }

  /** Going on from the link `f -> t` to `t -> z`. */
  predicate Move(c: Ctx, f: From, t: Node, z: Node) {
    (t, z) in c.links && f != At(z) && Legal(c, f, t, z)
  }

  /** The links a labelled link leads on to. */
  function Next(c: Ctx, l: Link): (r: set<Link>)
    ensures forall m :: m in r <==> m.0 == At(l.1) && Move(c, l.0, l.1, m.1)
  {
    set a | a in c.links && a.0 == l.1 && Move(c, l.0, l.1, a.1) :: (At(l.1), a.1)
  }

  /** The first links: from `source` to every node of X. */
  function Seeds(x: set<Node>): (r: set<Link>)
    ensures forall m :: m in r <==> m.0 == Source && m.1 in x
  {
    set n | n in x :: (Source, n)
  }

  /** Every link a search can ever label. */
  function AllLinks(c: Ctx, x: set<Node>): set<Link> {
    Seeds(x) + set a | a in c.links :: (At(a.0), a.1)
  }

  // ---------------------------------------------------------------------------
  // The reference: trails.

  /** The link a trail arrives at its `i`-th node by. */
  function Prev(v: seq<Node>, i: nat): From
    requires i < |v|
  {
    if i == 0 then Source else At(v[i - 1])
  }

  /** The trail `v` goes on legally from its `i`-th node. */
  predicate Step(c: Ctx, v: seq<Node>, i: nat)
    requires i < |v| - 1
  {
    Move(c, Prev(v, i), v[i], v[i + 1])
  }

  ghost predicate Trail(c: Ctx, x: set<Node>, v: seq<Node>) {
    |v| > 0 && v[0] in x && forall i :: 0 <= i < |v| - 1 ==> Step(c, v, i)
  }

  /** Some trail from X ends in Y. */
  ghost predicate Connected(c: Ctx, x: set<Node>, y: set<Node>) {
    exists v :: Trail(c, x, v) && v[|v| - 1] in y
  }

  /** Some trail from X arrives by the link `l`. */
  ghost predicate HasTrail(c: Ctx, x: set<Node>, l: Link) {
    exists v :: Trail(c, x, v) && Prev(v, |v| - 1) == l.0 && v[|v| - 1] == l.1
  }

  lemma SeedTrail(c: Ctx, x: set<Node>, n: Node)
    requires n in x
    ensures HasTrail(c, x, (Source, n))
  {
    assert Trail(c, x, [n]);
  }

  lemma TrailExtend(c: Ctx, x: set<Node>, v: seq<Node>, z: Node)
    requires Trail(c, x, v) && Move(c, Prev(v, |v| - 1), v[|v| - 1], z)
    ensures Trail(c, x, v + [z]) && Prev(v + [z], |v|) == At(v[|v| - 1])
  {
    var w := v + [z];
    forall i | 0 <= i < |w| - 1 ensures Step(c, w, i) {
      if i < |v| - 1 {
        assert Step(c, v, i);
        assert Prev(w, i) == Prev(v, i) && w[i] == v[i] && w[i + 1] == v[i + 1];
      } else {
        assert Prev(w, i) == Prev(v, i);
      }
    }
  }

  /** A link the search reaches from a link with a trail has a trail too. */
  lemma NextHasTrail(c: Ctx, x: set<Node>, l: Link, m: Link)
    requires HasTrail(c, x, l) && m in Next(c, l)
    ensures HasTrail(c, x, m)
  {
    var v :| Trail(c, x, v) && Prev(v, |v| - 1) == l.0 && v[|v| - 1] == l.1;
    TrailExtend(c, x, v, m.1);
    var w := v + [m.1];
    assert Prev(w, |w| - 1) == m.0 && w[|w| - 1] == m.1;
  }

  /** Every trail arrives by a link of a set that holds the seeds and is
      closed under `Next`. */
  lemma {:induction false} TrailInClosed(c: Ctx, x: set<Node>, v: seq<Node>, total: set<Link>)
    requires Trail(c, x, v)
    requires Seeds(x) <= total
    requires forall l :: l in total ==> Next(c, l) <= total
    ensures (Prev(v, |v| - 1), v[|v| - 1]) in total
    decreases |v|
  {
    if |v| > 1 {
      var u := v[..|v| - 1];
      assert Trail(c, x, u) by {
        forall i | 0 <= i < |u| - 1 ensures Step(c, u, i) {
          assert Step(c, v, i);
          assert Prev(u, i) == Prev(v, i) && u[i] == v[i] && u[i + 1] == v[i + 1];
        }
      }
      TrailInClosed(c, x, u, total);
      var k := |v| - 2;
      assert Prev(u, |u| - 1) == Prev(v, k) && u[|u| - 1] == v[k];
      assert Step(c, v, k);
      assert (Prev(v, k + 1), v[k + 1]) in Next(c, (Prev(v, k), v[k]));
    } else {
      assert (Prev(v, 0), v[0]) in Seeds(x);
    }
  }

  // ---------------------------------------------------------------------------
  // The search.

  /** Follows every neighbour of the labelled link `l` (`for z in ug[t]`):
      a legal, unlabelled link into Y stops the search; every other legal,
      unlabelled link is labelled. */
  method FollowLink(c: Ctx, x: set<Node>, y: set<Node>, l: Link, total: set<Link>) returns (hit: bool, total': set<Link>)
    requires HasTrail(c, x, l)
    ensures hit ==> Connected(c, x, y)
    ensures !hit ==> total' == total + Next(c, l)
    ensures !hit ==> forall m :: m in total' && m !in total ==> m.1 !in y
  {
    var rest := set a | a in c.links && a.0 == l.1 :: a.1;
    hit, total' := false, total;
    while rest != {}
      invariant forall z :: (l.1, z) in c.links && z !in rest && Move(c, l.0, l.1, z) ==> (At(l.1), z) in total'
      invariant total <= total' <= total + Next(c, l)
      invariant forall m :: m in total' && m !in total ==> m.1 !in y
      decreases |rest|
    {
      var z :| z in rest;
      rest := rest - {z};
      if (At(l.1), z) !in total' && Move(c, l.0, l.1, z) {
        assert (At(l.1), z) in Next(c, l);
        if z in y {
          NextHasTrail(c, x, l, (At(l.1), z));
          ghost var v :| Trail(c, x, v) && Prev(v, |v| - 1) == At(l.1) && v[|v| - 1] == z;
          return true, total';
        }
        total' := total' + {(At(l.1), z)};
      }
    }
  }

  /** One round of the search: follows every link labelled in the previous
      round. */
  method FollowRound(c: Ctx, x: set<Node>, y: set<Node>, frontier: set<Link>, total: set<Link>)
    returns (hit: bool, total': set<Link>)
    requires frontier <= total
    requires forall l :: l in total ==> HasTrail(c, x, l) && l.1 !in y
    ensures hit ==> Connected(c, x, y)
    ensures !hit ==> total <= total' && forall l :: l in frontier ==> Next(c, l) <= total'
    ensures !hit ==> forall l :: l in total' ==> HasTrail(c, x, l) && l.1 !in y
    ensures !hit ==> forall m :: m in total' && m !in total ==> m.0.At? && (m.0.n, m.1) in c.links
  {
    var rest := frontier;
    hit, total' := false, total;
    while rest != {}
      invariant rest <= frontier && total <= total'
      invariant forall l :: l in frontier && l !in rest ==> Next(c, l) <= total'
      invariant forall l :: l in total' ==> HasTrail(c, x, l) && l.1 !in y
      invariant forall m :: m in total' && m !in total ==> m.0.At? && (m.0.n, m.1) in c.links
      decreases |rest|
    {
      var l :| l in rest;
      rest := rest - {l};
      var h, t := FollowLink(c, x, y, l, total');
      if h {
        return true, total';
      }
      forall m | m in t && m !in total'
        ensures HasTrail(c, x, m) && m.0.At? && (m.0.n, m.1) in c.links
      {
        NextHasTrail(c, x, l, m);
      }
      total' := t;
    }
  }

  /** The labelled-link search of `bfsReachability`: labels the links from
      `source` into X, then round by round every legal link that goes on
      from a link labelled in the previous round, and stops as soon as such a
      link enters Y. X and Y are separated exactly when no trail from X ends
      in Y. */
  method Search(c: Ctx, x: set<Node>, y: set<Node>) returns (separated: bool)
    requires x !! y
    ensures separated <==> !Connected(c, x, y)
  {
    var total := Seeds(x);
    forall l | l in total ensures HasTrail(c, x, l) && l.1 !in y {
      SeedTrail(c, x, l.1);
    }
    var frontier := total;
    while frontier != {}
      invariant frontier <= total <= AllLinks(c, x) && Seeds(x) <= total
      invariant forall l :: l in total ==> HasTrail(c, x, l) && l.1 !in y
      invariant forall l :: l in total && l !in frontier ==> Next(c, l) <= total
      decreases |AllLinks(c, x) - total|, |frontier|
    {
      var hit, total' := FollowRound(c, x, y, frontier, total);
      if hit {
        return false;
      }
      var next := total' - total;
      assert total' <= AllLinks(c, x);
      if next != {} {
        SubsetSmaller(AllLinks(c, x) - total', AllLinks(c, x) - total);
      }
      total, frontier := total', next;
    }
    if Connected(c, x, y) {
      var v :| Trail(c, x, v) && v[|v| - 1] in y;
      TrailInClosed(c, x, v, total);
    }
    return true;
  }

  // ---------------------------------------------------------------------------
  // Symmetry of the reference.

  /** Read backwards, a trail from X into Y is a trail from Y into X, as long
      as the links go both ways and Y holds no conditioned node (the search
      leaves `source` only through a node not conditioned on). */
  lemma ConnectedSymmetric(c: Ctx, x: set<Node>, y: set<Node>)
    requires forall a :: a in c.links ==> (a.1, a.0) in c.links
    requires y !! c.cond
    requires Connected(c, x, y)
    ensures Connected(c, y, x)
  {
    var v :| Trail(c, x, v) && v[|v| - 1] in y;
    var n := |v|;
    var u := seq(n, k requires 0 <= k < n => v[n - 1 - k]);
    forall i | 0 <= i < n - 1 ensures Step(c, u, i) {
      ReversedStep(c, v, u, i);
    }
    assert Trail(c, y, u) && u[n - 1] == v[0];
  }

  lemma ReversedStep(c: Ctx, v: seq<Node>, u: seq<Node>, i: nat)
    requires forall a :: a in c.links ==> (a.1, a.0) in c.links
    requires |u| == |v| && i < |v| - 1
    requires forall k :: 0 <= k < |v| ==> u[k] == v[|v| - 1 - k]
    requires forall k :: 0 <= k < |v| - 1 ==> Step(c, v, k)
    requires v[|v| - 1] !in c.cond
    ensures Step(c, u, i)
  {
    var n := |v|;
    var j := n - 2 - i;
    assert Step(c, v, j);
    assert (u[i + 1], u[i]) == (v[j], v[j + 1]);
    if i > 0 {
      assert Step(c, v, j + 1);
      assert u[i - 1] == v[j + 2];
      assert Prev(v, j + 1) == At(u[i + 1]) && Prev(u, i) == At(v[j + 2]);
      assert Collider(c, Prev(u, i), u[i], u[i + 1]) == Collider(c, Prev(v, j + 1), v[j + 1], v[j + 2]);
    }
  }

  // ---------------------------------------------------------------------------
  // The pieces of a query.

  /** The `descendant` table of `bfsReachability`: every conditioned node and
      each of its ancestors, gathered by asking the graph for the ancestors of
      one conditioned node after another (the answers are cached on the
      graph). Gathering fails exactly when those ancestors hold a cycle. */
  method Descendants(g: Agg, z: set<Node>) returns (r: Result<set<Node>>, g': Agg)
    requires Wf(g) && CacheSound(g) && z <= NodeSet(g)
    ensures Wf(g') && CacheSound(g') && g' == g.(cache := g'.cache)
    ensures r.Err? <==> !Acyclic(AncestorsFrom(NodeSet(g), ArcSet(g), z), ArcSet(g))
    ensures r.Err? ==> r.msg == RecursionLimit
    ensures r.Ok? ==> r.value == AncestorsFrom(NodeSet(g), ArcSet(g), z)
  {
    var rest := z;
    var acc: set<Node> := {};
    g' := g;
    AncestorsOfNothing(NodeSet(g), ArcSet(g));
    while rest != {}
      invariant rest <= z
      invariant Wf(g') && CacheSound(g') && g' == g.(cache := g'.cache)
      invariant acc == AncestorsFrom(NodeSet(g), ArcSet(g), z - rest)
      invariant Acyclic(acc, ArcSet(g))
      decreases |rest|
    {
      var n :| n in rest;
      var a, h := AskAncestors(g, g', n);
      if a.Err? {
        GatherFails(NodeSet(g), ArcSet(g), z, n);
        return Err(a.msg), g';
      }
      GatherStep(NodeSet(g), ArcSet(g), z - rest, n);
      TakeOne(z, rest, n);
      acc := acc + a.value;
      g', rest := h, rest - {n};
    }
    assert z - rest == z;
    return Ok(acc), g';
  }

  /** Moving one element from the pending part to the finished part. */
  lemma TakeOne<T>(z: set<T>, rest: set<T>, n: T)
    requires n in rest && rest <= z
    ensures z - rest + {n} == z - (rest - {n})
  {
  }

  /** One `getAncestors` call on a graph that differs from `g` only in its cache. */
  method AskAncestors(g: Agg, g': Agg, n: Node) returns (a: Result<set<Node>>, h: Agg)
    requires Wf(g') && CacheSound(g') && g' == g.(cache := g'.cache) && n in NodeSet(g)
    ensures Wf(h) && CacheSound(h) && h == g.(cache := h.cache)
    ensures a.Err? <==> !Acyclic(AncestorsFrom(NodeSet(g), ArcSet(g), {n}), ArcSet(g))
    ensures a.Err? ==> a.msg == RecursionLimit && h == g'
    ensures a.Ok? ==> a.value == AncestorsFrom(NodeSet(g), ArcSet(g), {n})
  {
    assert NodeSet(g') == NodeSet(g) && ArcSet(g') == ArcSet(g);
    AncestorsOfNode(g', n);
    a, h := GetAncestors(g', n).0, GetAncestors(g', n).1;
  }

  /** Adding a node whose ancestors have no cycle to a start set whose
      ancestors have none adds exactly its ancestors, still without a cycle. */
  lemma GatherStep(nodes: set<Node>, arcs: set<(Node, Node)>, done: set<Node>, n: Node)
    requires Closed(nodes, arcs) && done <= nodes && n in nodes
    requires Acyclic(AncestorsFrom(nodes, arcs, done), arcs) && Acyclic(AncestorsFrom(nodes, arcs, {n}), arcs)
    ensures AncestorsFrom(nodes, arcs, done + {n}) == AncestorsFrom(nodes, arcs, done) + AncestorsFrom(nodes, arcs, {n})
    ensures Acyclic(AncestorsFrom(nodes, arcs, done + {n}), arcs)
  {
    AncestorsUnion(nodes, arcs, done, {n});
    AcyclicClosedUnion(AncestorsFrom(nodes, arcs, done), AncestorsFrom(nodes, arcs, {n}), arcs);
  }

  /** A cycle among the ancestors of one start node is a cycle among the
      ancestors of the whole start set. */
  lemma GatherFails(nodes: set<Node>, arcs: set<(Node, Node)>, z: set<Node>, n: Node)
    requires Closed(nodes, arcs) && z <= nodes && n in z
    requires !Acyclic(AncestorsFrom(nodes, arcs, {n}), arcs)
    ensures !Acyclic(AncestorsFrom(nodes, arcs, z), arcs)
  {
    AncestorsUnion(nodes, arcs, z - {n}, {n});
    assert z - {n} + {n} == z;
    AcyclicSubset(AncestorsFrom(nodes, arcs, {n}), AncestorsFrom(nodes, arcs, z), arcs);
  }

  /** The variables `vs` and every intersection node they subsume. */
  function Subsume(g: Agg, vs: set<RelVar>): (r: set<Node>)
    requires Wf(g) && vs <= g.vars
    ensures forall n :: n in r <==> exists v :: v in vs && n in g.subsumed[v]
    ensures r <= NodeSet(g)
  {
    set v, n | v in vs && n in g.subsumed[v] :: n
  }

  /** The expansion of a variable set through `getSubsumedVariables`: it
      fails, quoting some variable that is not a node, unless every variable
      is a node. */
  method Expand(g: Agg, vs: set<RelVar>) returns (r: Result<set<Node>>)
    requires Wf(g)
    ensures r.Ok? <==> vs <= g.vars
    ensures r.Err? ==> exists v :: v in vs && v !in g.vars && r.msg == NotANode(v)
    ensures r.Ok? ==> r.value == Subsume(g, vs)
  {
    var rest := vs;
    var acc: set<Node> := {};
    while rest != {}
      invariant rest <= vs && vs - rest <= g.vars
      invariant acc == Subsume(g, vs - rest)
      decreases |rest|
    {
      var v :| v in rest;
      assert VarNode(v) in NodeSet(g) <==> v in g.vars;
      var s := GetSubsumedVariables(g, VarObj(v));
      if s.Err? {
        return Err(s.msg);
      }
      assert Subsume(g, vs - (rest - {v})) == acc + g.subsumed[v] by {
        assert vs - (rest - {v}) == (vs - rest) + {v};
      }
      acc := acc + s.value;
      rest := rest - {v};
    }
    assert vs - rest == vs;
    return Ok(acc);
  }

  /** The search context a graph gives for the expanded conditioning set. */
  function SearchCtx(g: Agg, ze: set<Node>): Ctx
    requires Wf(g) && ze <= NodeSet(g)
  {
    Ctx(ArcSet(g), Mirror(ArcSet(g)), ze, AncestorsFrom(NodeSet(g), ArcSet(g), ze))
  }

  /** The reference answer of a query on `g`: no trail joins the expanded X
      and Y once the expanded Z is taken out of both. */
  ghost predicate Separated(g: Agg, x: set<RelVar>, y: set<RelVar>, z: set<RelVar>)
    requires Wf(g) && x <= g.vars && y <= g.vars && z <= g.vars
  {
    var ze := Subsume(g, z);
    !Connected(SearchCtx(g, ze), Subsume(g, x) - ze, Subsume(g, y) - ze)
  }

  /** d-separation is symmetric in X and Y. */
  lemma SeparatedSymmetric(g: Agg, x: set<RelVar>, y: set<RelVar>, z: set<RelVar>)
    requires Wf(g) && x <= g.vars && y <= g.vars && z <= g.vars
    ensures Separated(g, x, y, z) <==> Separated(g, y, x, z)
  {
    var ze := Subsume(g, z);
    var c := SearchCtx(g, ze);
    var xe, ye := Subsume(g, x) - ze, Subsume(g, y) - ze;
    if Connected(c, xe, ye) {
      ConnectedSymmetric(c, xe, ye);
    }
    if Connected(c, ye, xe) {
      ConnectedSymmetric(c, ye, xe);
    }
  }

  /** A node in both X and Y is a trail by itself. */
  lemma OverlapConnected(c: Ctx, x: set<Node>, y: set<Node>, n: Node)
    requires n in x && n in y
    ensures Connected(c, x, y)
  {
    assert Trail(c, x, [n]);
  }

  /** `bfsReachability`: gathers the nodes with a conditioned descendant, adds
      the arcs from `source` to X to the mirrored graph, searches, and takes
      those arcs out again before answering. */
  method BfsReachability(x: set<Node>, y: set<Node>, z: set<Node>, g: Agg, ug: Ug)
    returns (r: Result<bool>, g': Agg, ug': Ug)
    requires Wf(g) && CacheSound(g) && z <= NodeSet(g) && x !! y
    ensures Wf(g') && CacheSound(g') && g' == g.(cache := g'.cache)
    ensures r.Err? <==> !Acyclic(AncestorsFrom(NodeSet(g), ArcSet(g), z), ArcSet(g))
    ensures r.Err? ==> r.msg == RecursionLimit && ug' == ug
    ensures r.Ok? ==> ug' == ug.(source := ug.source - x)
    ensures r.Ok? ==> r.value == !Connected(Ctx(ArcSet(g), ug.links, z, AncestorsFrom(NodeSet(g), ArcSet(g), z)), x, y)
  {
    var desc;
    desc, g' := Descendants(g, z);
    if desc.Err? {
      return Err(desc.msg), g', ug;
    }
    var withSource := ug.(source := ug.source + x);
    var separated := Search(Ctx(ArcSet(g), withSource.links, z, desc.value), x, y);
    return Ok(separated), g', withSource.(source := withSource.source - x);
  }

  // ---------------------------------------------------------------------------
  // Arguments.

  /** An argument as a caller passes it: an iterable of variables or their
      text, or something that is not iterable at all. */
  datatype Arg = Items(items: seq<Obj>) | NotIterable

  /** Every entry parsed; the first entry that does not parse raises. */
  function ParseAll(items: seq<Obj>): (r: Result<set<RelVar>>)
    ensures r.Ok? <==> forall i :: 0 <= i < |items| ==> ParserUtil.ParseRelVar(items[i]).Ok?
    ensures r.Ok? ==> forall v :: v in r.value <==> exists i :: 0 <= i < |items| && ParserUtil.ParseRelVar(items[i]) == Ok(v)
    ensures r.Err? ==> exists i :: 0 <= i < |items| && ParserUtil.ParseRelVar(items[i]) == Err(r.msg)
                                   && forall j :: 0 <= j < i ==> ParserUtil.ParseRelVar(items[j]).Ok?
  {
    ParseEach(items, ParserUtil.ParseRelVar)
  }

  /** The same over any parser of one entry. */
  function ParseEach<T(!new)>(items: seq<Obj>, parse: Obj -> Result<T>): (r: Result<set<T>>)
    ensures r.Ok? <==> forall i :: 0 <= i < |items| ==> parse(items[i]).Ok?
    ensures r.Ok? ==> forall v :: v in r.value <==> exists i :: 0 <= i < |items| && parse(items[i]) == Ok(v)
    ensures r.Err? ==> exists i :: 0 <= i < |items| && parse(items[i]) == Err(r.msg)
                                   && forall j :: 0 <= j < i ==> parse(items[j]).Ok?
  {
    if |items| == 0 then Ok({})
    else
      var first := parse(items[0]);
      if first.Err? then Err(first.msg)
      else
        var rest := ParseEach(items[1..], parse);
        if rest.Err? then
          assert exists i :: 0 <= i < |items| && parse(items[i]) == Err(rest.msg)
                             && forall j :: 0 <= j < i ==> parse(items[j]).Ok? by {
            var i :| 0 <= i < |items[1..]| && parse(items[1..][i]) == Err(rest.msg)
                     && forall j :: 0 <= j < i ==> parse(items[1..][j]).Ok?;
            assert items[1..][i] == items[i + 1];
            forall j | 0 <= j < i + 1 ensures parse(items[j]).Ok? {
              if j > 0 { assert items[j] == items[1..][j - 1]; }
            }
          }
          Err(rest.msg)
        else
          assert forall i :: 0 <= i < |items| ==> parse(items[i]).Ok? by {
            forall i | 0 <= i < |items| ensures parse(items[i]).Ok? {
              if i > 0 { assert items[i] == items[1..][i - 1]; }
            }
          }
          assert forall v :: v in {first.value} + rest.value <==>
                   exists i :: 0 <= i < |items| && parse(items[i]) == Ok(v) by {
            forall v ensures v in {first.value} + rest.value <==>
                               exists i :: 0 <= i < |items| && parse(items[i]) == Ok(v) {
              if v in rest.value {
                var i :| 0 <= i < |items[1..]| && parse(items[1..][i]) == Ok(v);
                assert items[1..][i] == items[i + 1];
              }
              if exists i :: 0 <= i < |items| && parse(items[i]) == Ok(v) {
                var i :| 0 <= i < |items| && parse(items[i]) == Ok(v);
                if i > 0 { assert items[1..][i - 1] == items[i]; }
              }
            }
          }
          Ok({first.value} + rest.value)
  }

  /** One argument: it must be iterable and, unless it may be empty, hold
      something; then every entry must parse. */
  function ReadArg(a: Arg, message: string, mayBeEmpty: bool): (r: Result<set<RelVar>>)
    ensures r.Ok? <==> a.Items? && (mayBeEmpty || |a.items| > 0) && ParseAll(a.items).Ok?
    ensures a.NotIterable? || (!mayBeEmpty && |a.items| == 0) ==> r == Err(message)
    ensures a.Items? && (mayBeEmpty || |a.items| > 0) ==> r == ParseAll(a.items)
    ensures r.Ok? && !mayBeEmpty ==> r.value != {}
  {
    if a.NotIterable? || (!mayBeEmpty && |a.items| == 0) then Err(message)
    else
      var r := ParseAll(a.items);
      assert r.Ok? && |a.items| > 0 ==> ParserUtil.ParseRelVar(a.items[0]).value in r.value;
      r
  }

  /** The three arguments of `dSeparated`, checked and parsed in order: X,
      then Y, then Z (which may be empty). */
  function ReadArgs(xs: Arg, ys: Arg, zs: Arg): (r: Result<(set<RelVar>, set<RelVar>, set<RelVar>)>)
    ensures r.Ok? <==> ReadArg(xs, BadRelVars1, false).Ok? && ReadArg(ys, BadRelVars2, false).Ok?
                       && ReadArg(zs, BadCondRelVars, true).Ok?
    ensures ReadArg(xs, BadRelVars1, false).Err? ==> r == Err(ReadArg(xs, BadRelVars1, false).msg)
    ensures ReadArg(xs, BadRelVars1, false).Ok? && ReadArg(ys, BadRelVars2, false).Err? ==>
              r == Err(ReadArg(ys, BadRelVars2, false).msg)
    ensures r.Ok? ==> r.value == (ReadArg(xs, BadRelVars1, false).value, ReadArg(ys, BadRelVars2, false).value,
                                  ReadArg(zs, BadCondRelVars, true).value)
    ensures r.Ok? ==> r.value.0 != {} && r.value.1 != {}
  {
    var x :- ReadArg(xs, BadRelVars1, false);
    var y :- ReadArg(ys, BadRelVars2, false);
    var z :- ReadArg(zs, BadCondRelVars, true);
    Ok((x, y, z))
  }

  // ---------------------------------------------------------------------------
  // The query object.

  /** A `DSeparation` object: the model, and the graphs built so far with
      their mirrored graphs, keyed by perspective and hop threshold. */
  datatype DSep = DSep(model: CausalModel.Model, aggs: map<(string, int), Agg>, ugs: map<(string, int), Ug>)

  /** A stored graph is the one construction gives for its key, up to its
      ancestor cache, which is sound; its mirrored graph has no source arcs. */
  ghost predicate StoredOk(m: CausalModel.Model, k: (string, int), g: Agg, u: Ug) {
    var b := Build(m, k.0, Space.IntNum(k.1));
    && b.Ok? && g == b.value.(cache := g.cache) && Wf(g) && CacheSound(g) && u == Agg2Ug(g)
  }

  ghost predicate Good(ds: DSep) {
    && ds.aggs.Keys == ds.ugs.Keys
    && forall k :: k in ds.aggs ==> StoredOk(ds.model, k, ds.aggs[k], ds.ugs[k])
  }

  function NewDSep(m: CausalModel.Model): (ds: DSep)
    ensures Good(ds) && ds.model == m && ds.aggs == map[]
  {
    DSep(m, map[], map[])
  }

  /** The graph for a perspective and hop threshold: the stored one, or a
      new one built, stored and returned with its mirrored graph. */
  method GetAgg(ds: DSep, p: string, h: int) returns (r: Result<(Agg, Ug)>, ds': DSep)
    requires Good(ds)
    ensures Good(ds') && ds'.model == ds.model && ds.aggs.Keys <= ds'.aggs.Keys
    ensures (p, h) in ds.aggs ==> r == Ok((ds.aggs[(p, h)], ds.ugs[(p, h)])) && ds' == ds
    ensures r.Err? <==> (p, h) !in ds.aggs && Build(ds.model, p, Space.IntNum(h)).Err?
    ensures r.Err? ==> r.msg == Build(ds.model, p, Space.IntNum(h)).msg && ds' == ds
    ensures (p, h) !in ds.aggs && r.Ok? ==>
              r.value.0 == Build(ds.model, p, Space.IntNum(h)).value
              && ds'.aggs == ds.aggs[(p, h) := r.value.0]
    ensures r.Ok? ==> (p, h) in ds'.aggs && r.value == (ds'.aggs[(p, h)], ds'.ugs[(p, h)])
  {
    if (p, h) in ds.aggs {
      return Ok((ds.aggs[(p, h)], ds.ugs[(p, h)])), ds;
    }
    var b := Build(ds.model, p, Space.IntNum(h));
    if b.Err? {
      return Err(b.msg), ds;
    }
    var g := b.value;
    var u := Agg2Ug(g);
    BuiltOk(ds.model, p, h);
    ds' := Store(ds, (p, h), g, u);
    return Ok((g, u)), ds';
  }

  /** A freshly built graph may be stored. */
  lemma BuiltOk(m: CausalModel.Model, p: string, h: int)
    requires Build(m, p, Space.IntNum(h)).Ok?
    ensures var g := Build(m, p, Space.IntNum(h)).value; StoredOk(m, (p, h), g, Agg2Ug(g))
  {
  }

  /** Storing a graph (or replacing a stored one) under its key. */
  function Store(ds: DSep, k: (string, int), g: Agg, u: Ug): (ds': DSep)
    requires Good(ds) && StoredOk(ds.model, k, g, u)
    ensures Good(ds') && ds'.model == ds.model && ds'.aggs == ds.aggs[k := g] && ds'.ugs == ds.ugs[k := u]
  {
    DSep(ds.model, ds.aggs[k := g], ds.ugs[k := u])
  }

  /** What an answer `b` to a query with the parsed arguments `args` means:
      the graph stored for the perspective of some variable of X (which is
      the graph construction gives, by `Good`) answers it as the reference
      does. */
  ghost predicate Answered(ds: DSep, hop: int, args: Result<(set<RelVar>, set<RelVar>, set<RelVar>)>, b: bool) {
    && args.Ok?
    && var (x, y, z) := args.value;
       exists v :: v in x && (Base(v), hop) in ds.aggs && AnsweredBy(ds.aggs[(Base(v), hop)], x, y, z, b)
  }

  ghost predicate AnsweredBy(g: Agg, x: set<RelVar>, y: set<RelVar>, z: set<RelVar>, b: bool) {
    Wf(g) && x <= g.vars && y <= g.vars && z <= g.vars && b == Separated(g, x, y, z)
  }

  /** A query on `g` is answerable when X, Y and Z are variables of `g` and
      the ancestors of the expanded Z form no cycle. */
  ghost predicate Answerable(g: Agg, x: set<RelVar>, y: set<RelVar>, z: set<RelVar>) {
    && Wf(g) && x <= g.vars && y <= g.vars && z <= g.vars
    && Acyclic(AncestorsFrom(NodeSet(g), ArcSet(g), Subsume(g, z)), ArcSet(g))
  }

  /** The variable-set checker accepts every listing of `s`, in any order. */
  ghost predicate CheckerPasses(checker: (Schemas.Schema, int, seq<RelVar>) -> Outcome,
                                schema: Schemas.Schema, hop: int, s: set<RelVar>) {
    forall xs: seq<RelVar> | SetOf(xs) == s && PairwiseDistinct(xs) :: checker(schema, hop, xs).Pass?
  }

  /** Parsed arguments a query answers: the checker accepts them, and for
      every variable of X the graph of its perspective can be built and
      answers the query. */
  ghost predicate AnswerableArgs(m: CausalModel.Model, hop: int, x: set<RelVar>, y: set<RelVar>, z: set<RelVar>,
                                 checker: (Schemas.Schema, int, seq<RelVar>) -> Outcome) {
    && CheckerPasses(checker, m.schema, hop, x + y + z)
    && forall v | v in x ::
         var b := Build(m, Base(v), Space.IntNum(hop));
         b.Ok? && Answerable(b.value, x, y, z)
  }

  lemma EmptyNotConnected(c: Ctx, x: set<Node>, y: set<Node>)
    requires x == {} || y == {}
    ensures !Connected(c, x, y)
  {
  }

  /** A search changes a stored graph's cache only, so it stays storable. */
  lemma SearchedOk(m: CausalModel.Model, k: (string, int), g: Agg, g': Agg, u: Ug)
    requires StoredOk(m, k, g, u) && Wf(g') && CacheSound(g') && g' == g.(cache := g'.cache)
    ensures StoredOk(m, k, g', u)
  {
    assert ArcSet(g') == ArcSet(g);
  }

  /** The answer of a graph does not depend on its cache. */
  lemma SeparatedIgnoresCache(g: Agg, g': Agg, x: set<RelVar>, y: set<RelVar>, z: set<RelVar>)
    requires Wf(g) && Wf(g') && g' == g.(cache := g'.cache)
    requires x <= g.vars && y <= g.vars && z <= g.vars
    ensures Separated(g', x, y, z) == Separated(g, x, y, z)
  {
    assert NodeSet(g') == NodeSet(g) && ArcSet(g') == ArcSet(g) && g'.subsumed == g.subsumed;
  }

  /** The query proper on a graph: expansion, the two early answers, then the
      search. */
  method Query(g: Agg, ug: Ug, x: set<RelVar>, y: set<RelVar>, z: set<RelVar>)
    returns (r: Result<bool>, g': Agg, ug': Ug)
    requires Wf(g) && CacheSound(g) && ug == Agg2Ug(g)
    ensures Wf(g') && CacheSound(g') && g' == g.(cache := g'.cache) && ug' == ug
    ensures r.Ok? ==> x <= g.vars && y <= g.vars && z <= g.vars && r.value == Separated(g, x, y, z)
    ensures Answerable(g, x, y, z) ==> r.Ok?
    ensures r.Err? ==>
              || (exists v :: v in x + y + z && v !in g.vars && r.msg == NotANode(v))
              || (x + y + z <= g.vars && r.msg == RecursionLimit && !Answerable(g, x, y, z))
  {
    g', ug' := g, ug;
    var ex := Expand(g, x);
    if ex.Err? {
      return Err(ex.msg), g', ug';
    }
    var ey := Expand(g, y);
    if ey.Err? {
      return Err(ey.msg), g', ug';
    }
    var ez := Expand(g, z);
    if ez.Err? {
      return Err(ez.msg), g', ug';
    }
    var ze := ez.value;
    var xe, ye := ex.value - ze, ey.value - ze;
    ghost var c := SearchCtx(g, ze);
    if !(xe !! ye) {
      var n :| n in xe && n in ye;
      OverlapConnected(c, xe, ye, n);
      return Ok(false), g', ug';
    }
    if xe == {} || ye == {} {
      EmptyNotConnected(c, xe, ye);
      return Ok(true), g', ug';
    }
    r, g', ug' := BfsReachability(xe, ye, ze, g, ug);
  }

  /** `dSeparated`: are X and Y d-separated given Z in the abstract ground
      graph of X's perspective at `hop` hops? The arguments are checked and
      parsed; the variable-set checker is called once, on X, Y and Z
      together; the graph is built or reused; X, Y and Z are expanded into
      the nodes they subsume and the expanded Z is taken out of X and Y.
      Overlapping X and Y are not separated, an emptied X or Y is, and
      otherwise the search decides. */
  method DSeparated(ds: DSep, hop: int, xs: Arg, ys: Arg, zs: Arg,
                    checker: (Schemas.Schema, int, seq<RelVar>) -> Outcome)
    returns (r: Result<bool>, ds': DSep)
    requires Good(ds)
    ensures Good(ds') && ds'.model == ds.model && ds.aggs.Keys <= ds'.aggs.Keys
    ensures ReadArgs(xs, ys, zs).Err? ==> r == Err(ReadArgs(xs, ys, zs).msg) && ds' == ds
    ensures r.Ok? ==> Answered(ds', hop, ReadArgs(xs, ys, zs), r.value)
    ensures ReadArgs(xs, ys, zs).Ok? ==>
              var (x, y, z) := ReadArgs(xs, ys, zs).value;
              AnswerableArgs(ds.model, hop, x, y, z, checker) ==> r.Ok?
  {
    var args := ReadArgs(xs, ys, zs);
    if args.Err? {
      return Err(args.msg), ds;
    }
    r, ds' := QueryParsed(ds, hop, args.value.0, args.value.1, args.value.2, checker);
  }

  /** `dSeparated` once its arguments are parsed, X being non-empty. */
  method QueryParsed(ds: DSep, hop: int, x: set<RelVar>, y: set<RelVar>, z: set<RelVar>,
                     checker: (Schemas.Schema, int, seq<RelVar>) -> Outcome)
    returns (r: Result<bool>, ds': DSep)
    requires Good(ds) && x != {}
    ensures Good(ds') && ds'.model == ds.model && ds.aggs.Keys <= ds'.aggs.Keys
    ensures r.Ok? ==> exists v :: v in x && (Base(v), hop) in ds'.aggs && AnsweredBy(ds'.aggs[(Base(v), hop)], x, y, z, r.value)
    ensures AnswerableArgs(ds.model, hop, x, y, z, checker) ==> r.Ok?
  {
    var all := Enumerate(x + y + z);
    var check := checker(ds.model.schema, hop, all);
    if check.Fail? {
      return Err(check.msg), ds;
    }
    var v :| v in x;
    var k := (Base(v), hop);
    ghost var b := Build(ds.model, k.0, Space.IntNum(k.1));
    var got;
    got, ds' := GetAgg(ds, k.0, k.1);
    if got.Err? {
      return Err(got.msg), ds';
    }
    if AnswerableArgs(ds.model, hop, x, y, z, checker) {
      AnswerableIgnoresCache(b.value, ds'.aggs[k], x, y, z);
    }
    r, ds' := QueryStored(ds', k, x, y, z);
  }

  /** Whether a query is answerable does not depend on the ancestor cache. */
  lemma AnswerableIgnoresCache(g: Agg, g': Agg, x: set<RelVar>, y: set<RelVar>, z: set<RelVar>)
    requires Wf(g) && g' == g.(cache := g'.cache)
    ensures Answerable(g', x, y, z) == Answerable(g, x, y, z)
  {
    assert NodeSet(g') == NodeSet(g) && ArcSet(g') == ArcSet(g);
  }

  /** Stores back the graph under `k` after its ancestor cache changed. */
  function Restore(ds: DSep, k: (string, int), g': Agg): (ds': DSep)
    requires Good(ds) && k in ds.aggs
    requires Wf(g') && CacheSound(g') && g' == ds.aggs[k].(cache := g'.cache)
    ensures Good(ds') && ds'.model == ds.model && ds'.aggs == ds.aggs[k := g'] && ds'.aggs.Keys == ds.aggs.Keys
  {
    SearchedOk(ds.model, k, ds.aggs[k], g', ds.ugs[k]);
    Store(ds, k, g', ds.ugs[k])
  }

  /** A query on the graph stored under `k`; the search's cache updates are
      stored back. */
  method QueryStored(ds: DSep, k: (string, int), x: set<RelVar>, y: set<RelVar>, z: set<RelVar>)
    returns (r: Result<bool>, ds': DSep)
    requires Good(ds) && k in ds.aggs
    ensures Good(ds') && ds'.model == ds.model && ds'.aggs.Keys == ds.aggs.Keys
    ensures r.Ok? ==> AnsweredBy(ds'.aggs[k], x, y, z, r.value)
    ensures Answerable(ds.aggs[k], x, y, z) ==> r.Ok?
  {
    var g, ug := ds.aggs[k], ds.ugs[k];
    var g', ug';
    r, g', ug' := Query(g, ug, x, y, z);
    ds' := Restore(ds, k, g');
    if r.Ok? {
      SeparatedIgnoresCache(g, g', x, y, z);
    }
  }
}
