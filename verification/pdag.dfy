/** The partially directed graph over attribute classes that RCD-Light
    orients (the `PDAG` class of snc_rules.py, repeated in RCDLight.py).
    An undirected edge x -- y is stored as both arcs (x, y) and (y, x); a
    directed edge x --> y as the arc (x, y) alone. Beside the arc set the
    class keeps `defaultdict(set)` maps of parents and children that mirror
    the arcs; `Consistent` is that mirroring, and every operation keeps it. */
module Pdags {
  import opened Collections
  import opened EdgeOrientation
  import Digraphs

  datatype Pdag<V> = Pdag(E: set<(V, V)>, pa: map<V, set<V>>, ch: map<V, set<V>>)

  /** (x, y) is an arc iff x is recorded among y's parents iff y is
      recorded among x's children; and no arc is a loop. */
  ghost predicate Consistent<V(!new)>(g: Pdag<V>) {
    && (forall x, y :: (x, y) in g.E <==> x in SetAt(g.pa, y))
    && (forall x, y :: (x, y) in g.E <==> y in SetAt(g.ch, x))
    && (forall e | e in g.E :: e.0 != e.1)
  }

  /** What every orienting step promises: the arcs only shrink, each removed
      arc leaves its reverse behind, the flag says whether anything was
      removed, and the mirroring maps stay consistent. */
  ghost predicate OrientsOnly<V(!new)>(g: Pdag<V>, r: (Pdag<V>, bool)) {
    Sound(g.E, Pass(r.0.E, r.1)) && (Consistent(g) ==> Consistent(r.0))
  }

  // ---------------------------------------------------------------------
  // Construction
  // ---------------------------------------------------------------------

  function Empty<V>(): (r: Pdag<V>)
    ensures r.E == {}
  {
    Pdag({}, map[], map[])
  }

  lemma EmptyConsistent<V(!new)>()
    ensures Consistent(Empty<V>())
  {
  }

  /** `add_edge`: adds the arc (x, y); on top of y --> x this makes x -- y. */
  function AddEdge<V(!new)>(g: Pdag<V>, x: V, y: V): (r: Pdag<V>)
    requires x != y
    ensures r.E == g.E + {(x, y)}
    ensures Consistent(g) ==> Consistent(r)
  {
    Pdag(g.E + {(x, y)}, g.pa[y := SetAt(g.pa, y) + {x}], g.ch[x := SetAt(g.ch, x) + {y}])
  }

  /** `add_edges`, and the constructor `PDAG(edges)`. */
  function AddEdges<V(!new)>(g: Pdag<V>, xys: seq<(V, V)>): (r: Pdag<V>)
    requires forall i | 0 <= i < |xys| :: xys[i].0 != xys[i].1
    ensures r.E == g.E + SetOf(xys)
    ensures Consistent(g) ==> Consistent(r)
    decreases |xys|
  {
    if xys == [] then g
    else
      assert SetOf(xys) == {xys[0]} + SetOf(xys[1..]) by {
        assert xys == [xys[0]] + xys[1..];
      }
      AddEdges(AddEdge(g, xys[0].0, xys[0].1), xys[1..])
  }

  function FromEdges<V(!new)>(xys: seq<(V, V)>): (r: Pdag<V>)
    requires forall i | 0 <= i < |xys| :: xys[i].0 != xys[i].1
    ensures r.E == SetOf(xys) && Consistent(r)
  {
    AddEdges(Empty(), xys)
  }

  /** `add_undirected_edge`: x -- y, overriding any directed edge between them. */
  function AddUndirectedEdge<V(!new)>(g: Pdag<V>, x: V, y: V): (r: Pdag<V>)
    requires x != y
    ensures Undirected(r.E, x, y)
    ensures r.E - g.E <= {(x, y), (y, x)} && g.E <= r.E
    ensures Consistent(g) ==> Consistent(r)
  {
    AddEdge(AddEdge(g, x, y), y, x)
  }

  /** `vertices`: every vertex the maps have a key for. */
  function Vertices<V(!new)>(g: Pdag<V>): (r: set<V>)
    ensures Consistent(g) ==> Nodes(g.E) <= r
  {
    var r := g.pa.Keys + g.ch.Keys;
    assert Consistent(g) ==> Nodes(g.E) <= r by {
      if Consistent(g) {
        forall v | v in Nodes(g.E)
          ensures v in r
        {
          var e :| e in g.E && (e.0 == v || e.1 == v);
          assert e.1 in SetAt(g.ch, e.0) && e.0 in SetAt(g.pa, e.1);
        }
      }
    }
    r
  }

  // ---------------------------------------------------------------------
  // Orientation
  // ---------------------------------------------------------------------

  /** `orient(x, y)`: when x -- y, removes the arc (y, x) (and y from x's
      parents, x from y's children) and answers True; otherwise changes
      nothing and answers False. */
  function Orient<V(!new)>(g: Pdag<V>, x: V, y: V): (r: (Pdag<V>, bool))
    ensures r.1 <==> Undirected(g.E, x, y)
    ensures r.1 ==> r.0.E == g.E - {(y, x)}
    ensures r.1 && x != y ==> Directed(r.0.E, x, y)
    ensures !r.1 ==> r.0 == g
    ensures Consistent(g) ==> Consistent(r.0)
  {
    if (x, y) in g.E && (y, x) in g.E then
      (Pdag(g.E - {(y, x)}, g.pa[x := SetAt(g.pa, x) - {y}], g.ch[y := SetAt(g.ch, y) - {x}]), true)
    else
      (g, false)
  }

  /** `orient` is the edge-orientation rules' single deletion step. */
  lemma OrientYields<V(!new)>(g: Pdag<V>, x: V, y: V, changed: bool)
    ensures Yield(Pass(g.E, changed), (y, x)) == Pass(Orient(g, x, y).0.E, changed || Orient(g, x, y).1)
  {
  }

  /** Orienting an edge between two distinct vertices only orients. */
  lemma OrientOnly<V(!new)>(g: Pdag<V>, x: V, y: V)
    requires x != y
    ensures OrientsOnly(g, Orient(g, x, y))
  {
    OrientYields(g, x, y, false);
    YieldSound(g.E, Start(g.E), (y, x));
  }

  lemma OrientOnlyIf<V(!new)>(g: Pdag<V>, x: V, y: V)
    ensures Consistent(g) ==> OrientsOnly(g, Orient(g, x, y)) && Consistent(Orient(g, x, y).0)
  {
    if Consistent(g) && x != y {
      OrientOnly(g, x, y);
    }
  }

  /** `orients`: every pair in turn, with no short-circuit; True iff any
      of them changed the graph. */
  function Orients<V(!new)>(g: Pdag<V>, xys: seq<(V, V)>): (r: (Pdag<V>, bool))
    ensures Consistent(g) ==> Consistent(r.0)
    decreases |xys|
  {
    if xys == [] then (g, false)
    else
      var (g1, c1) := Orient(g, xys[0].0, xys[0].1);
      var (g2, c2) := Orients(g1, xys[1..]);
      (g2, c1 || c2)
  }

  /** `orients` is the edge-orientation rules' pass over the reversed pairs. */
  lemma {:induction false} OrientsDrops<V(!new)>(g: Pdag<V>, xys: seq<(V, V)>, changed: bool)
    ensures Drops(Pass(g.E, changed), TargetsOf(xys, Reverse)) ==
            Pass(Orients(g, xys).0.E, changed || Orients(g, xys).1)
    decreases |xys|
  {
    if xys != [] {
      var (g1, c1) := Orient(g, xys[0].0, xys[0].1);
      OrientYields(g, xys[0].0, xys[0].1, changed);
      OrientsDrops(g1, xys[1..], changed || c1);
      assert TargetsOf(xys, Reverse)[1..] == TargetsOf(xys[1..], Reverse);
    }
  }

  /** After `orients(xys)`: only orientations happened, the flag is set iff
      some arc went, every removed arc is the reverse of a listed pair, and
      no listed pair is still undirected. */
  lemma OrientsFacts<V(!new)>(g: Pdag<V>, xys: seq<(V, V)>)
    requires forall i | 0 <= i < |xys| :: xys[i].0 != xys[i].1
    ensures OrientsOnly(g, Orients(g, xys))
    ensures forall e | e in g.E && e !in Orients(g, xys).0.E :: Reverse(e) in xys
    ensures forall p | p in xys :: !Undirected(Orients(g, xys).0.E, p.0, p.1)
  {
    OrientsDrops(g, xys, false);
    RulePassFacts(g.E, xys, Reverse);
    var r := Orients(g, xys);
    forall e | e in g.E && e !in r.0.E
      ensures Reverse(e) in xys
    {
      var t :| t in xys && Reverse(t) == e;
      assert Reverse(e) == t;
    }
    forall p | p in xys
      ensures !Undirected(r.0.E, p.0, p.1)
    {
      assert !Undirected(r.0.E, Reverse(p).0, Reverse(p).1);
    }
  }

  /** On a consistent graph `orients` only orients, whatever the pairs, and
      leaves none of the listed pairs undirected. */
  lemma {:induction false} OrientsConsistent<V(!new)>(g: Pdag<V>, xys: seq<(V, V)>)
    requires Consistent(g)
    ensures OrientsOnly(g, Orients(g, xys))
    ensures forall p | p in xys :: !Undirected(Orients(g, xys).0.E, p.0, p.1)
    decreases |xys|
  {
    if xys != [] {
      var (g1, c1) := Orient(g, xys[0].0, xys[0].1);
      OrientOnlyIf(g, xys[0].0, xys[0].1);
      OrientsConsistent(g1, xys[1..]);
      var r := Orients(g1, xys[1..]);
      SoundThen(g.E, g1.E, c1, r.0.E, r.1);
      forall p | p in xys
        ensures !Undirected(r.0.E, p.0, p.1)
      {
        if p == xys[0] {
          SoundKeepsDirected(g1.E, Pass(r.0.E, r.1), p.0, p.1);
        } else {
          assert p in xys[1..];
        }
      }
    }
  }

  /** `g` is a consistent graph obtained from the arcs `E0` by orienting only. */
  ghost predicate OrientedFrom<V(!new)>(E0: set<(V, V)>, g: Pdag<V>) {
    Consistent(g) && Sound(E0, Pass(g.E, g.E != E0))
  }

  /** Orienting twice in a row is orienting. */
  lemma OrientedFromThen<V(!new)>(E0: set<(V, V)>, g1: Pdag<V>, g2: Pdag<V>)
    requires OrientedFrom(E0, g1) && OrientedFrom(g1.E, g2)
    ensures OrientedFrom(E0, g2)
  {
    SoundThen(E0, g1.E, g1.E != E0, g2.E, g2.E != g1.E);
  }

  // ---------------------------------------------------------------------
  // Queries
  // ---------------------------------------------------------------------

  /** `is_oriented(x, y)`: exactly one of the two arcs is present. */
  function IsOriented<V(==)>(g: Pdag<V>, x: V, y: V): (r: bool)
    ensures r <==> Directed(g.E, x, y) || Directed(g.E, y, x)
  {
    ((x, y) in g.E) != ((y, x) in g.E)
  }

  /** `oriented()`: the directed edges. */
  function OrientedEdges<V(!new)>(g: Pdag<V>): (r: set<(V, V)>)
    ensures forall e :: e in r <==> Directed(g.E, e.0, e.1)
  {
    set e | e in g.E && (e.1, e.0) !in g.E
  }

  /** `unoriented()`: the undirected edges, each as its two end points. */
  function UnorientedEdges<V(!new)>(g: Pdag<V>): (r: set<set<V>>)
    ensures forall e | e in g.E :: {e.0, e.1} in r <==> Undirected(g.E, e.0, e.1)
    ensures forall s | s in r :: exists e | e in g.E :: Undirected(g.E, e.0, e.1) && s == {e.0, e.1}
  {
    var r := set e | e in g.E && (e.1, e.0) in g.E :: {e.0, e.1};
    assert forall e | e in g.E :: {e.0, e.1} in r ==> Undirected(g.E, e.0, e.1) by {
      forall e | e in g.E && {e.0, e.1} in r
        ensures Undirected(g.E, e.0, e.1)
      {
        var f :| f in g.E && (f.1, f.0) in g.E && {f.0, f.1} == {e.0, e.1};
        assert e.0 in {f.0, f.1} && e.1 in {f.0, f.1};
        assert f.0 in {e.0, e.1} && f.1 in {e.0, e.1};
      }
    }
    r
  }

  function Pa<V(==)>(g: Pdag<V>, x: V): set<V> {
    SetAt(g.pa, x) - SetAt(g.ch, x)
  }

  function Ch<V(==)>(g: Pdag<V>, x: V): set<V> {
    SetAt(g.ch, x) - SetAt(g.pa, x)
  }

  function Ne<V(==)>(g: Pdag<V>, x: V): set<V> {
    SetAt(g.pa, x) * SetAt(g.ch, x)
  }

  /** `adj`: parents, children and neighbours split the adjacent vertices
      into three disjoint parts. */
  function Adj<V(==)>(g: Pdag<V>, x: V): (r: set<V>)
    ensures r == Pa(g, x) + Ch(g, x) + Ne(g, x)
    ensures Pa(g, x) !! Ch(g, x) && Pa(g, x) !! Ne(g, x) && Ch(g, x) !! Ne(g, x)
  {
    SetAt(g.pa, x) + SetAt(g.ch, x)
  }

  /** On a consistent graph the map-based queries mean what their names say. */
  lemma QueriesExact<V(!new)>(g: Pdag<V>, x: V)
    requires Consistent(g)
    ensures forall v :: v in Pa(g, x) <==> Directed(g.E, v, x)
    ensures forall v :: v in Ch(g, x) <==> Directed(g.E, x, v)
    ensures forall v :: v in Ne(g, x) <==> Undirected(g.E, x, v)
    ensures forall v :: v in Adj(g, x) <==> Adjacent(g.E, x, v)
  {
  }

  /** `is_adj` */
  function IsAdj<V(==)>(g: Pdag<V>, x: V, y: V): (r: bool)
    ensures r <==> Adjacent(g.E, x, y)
  {
    (x, y) in g.E || (y, x) in g.E
  }

  /** The directed edges as arcs, and reversed. */
  function DirectedArcs<V(!new)>(g: Pdag<V>): (r: set<(V, V)>)
    ensures Digraphs.Closed(Nodes(g.E), r)
    ensures forall e :: e in r <==> Directed(g.E, e.0, e.1)
  {
    set e | e in g.E && (e.1, e.0) !in g.E
  }

  function ReversedDirectedArcs<V(!new)>(g: Pdag<V>): (r: set<(V, V)>)
    ensures Digraphs.Closed(Nodes(g.E), r)
    ensures forall e :: e in r <==> Directed(g.E, e.1, e.0)
  {
    set e | e in g.E && (e.1, e.0) !in g.E :: (e.1, e.0)
  }

  /** `an(x)`: the least set holding x's parents and closed under taking
      parents along directed edges. */
  function An<V(!new)>(g: Pdag<V>, x: V): (r: set<V>)
    requires Consistent(g)
    ensures forall p | Directed(g.E, p, x) :: p in r
    ensures forall p, c | c in r && Directed(g.E, p, c) :: p in r
    ensures forall s: set<V> | (forall p | Directed(g.E, p, x) :: p in s)
              && (forall p, c | c in s && Directed(g.E, p, c) :: p in s) :: r <= s
  {
    QueriesExact(g, x);
    assert Pa(g, x) <= Nodes(g.E) by {
      forall p | p in Pa(g, x)
        ensures p in Nodes(g.E)
      {
        assert (p, x) in g.E;
      }
    }
    var arcs := DirectedArcs(g);
    var r := Digraphs.AncestorsFrom(Nodes(g.E), arcs, Pa(g, x));
    assert forall p, c | c in r && Directed(g.E, p, c) :: p in r by {
      forall p, c | c in r && Directed(g.E, p, c)
        ensures p in r
      {
        assert (p, c) in arcs;
      }
    }
    assert forall s: set<V> | (forall p | Directed(g.E, p, x) :: p in s)
              && (forall p, c | c in s && Directed(g.E, p, c) :: p in s) :: r <= s by {
      forall s: set<V> | (forall p | Directed(g.E, p, x) :: p in s)
              && (forall p, c | c in s && Directed(g.E, p, c) :: p in s)
        ensures r <= s
      {
        assert Pa(g, x) <= s;
        assert Digraphs.AncestorClosed(s, arcs);
      }
    }
    r
  }

  /** `de(x)`: the same along children. */
  function De<V(!new)>(g: Pdag<V>, x: V): (r: set<V>)
    requires Consistent(g)
    ensures forall c | Directed(g.E, x, c) :: c in r
    ensures forall p, c | p in r && Directed(g.E, p, c) :: c in r
    ensures forall s: set<V> | (forall c | Directed(g.E, x, c) :: c in s)
              && (forall p, c | p in s && Directed(g.E, p, c) :: c in s) :: r <= s
  {
    QueriesExact(g, x);
    assert Ch(g, x) <= Nodes(g.E) by {
      forall c | c in Ch(g, x)
        ensures c in Nodes(g.E)
      {
        assert (x, c) in g.E;
      }
    }
    var arcs := ReversedDirectedArcs(g);
    var r := Digraphs.AncestorsFrom(Nodes(g.E), arcs, Ch(g, x));
    assert forall p, c | p in r && Directed(g.E, p, c) :: c in r by {
      forall p, c | p in r && Directed(g.E, p, c)
        ensures c in r
      {
        assert (c, p) in arcs;
      }
    }
    assert forall s: set<V> | (forall c | Directed(g.E, x, c) :: c in s)
              && (forall p, c | p in s && Directed(g.E, p, c) :: c in s) :: r <= s by {
      forall s: set<V> | (forall c | Directed(g.E, x, c) :: c in s)
              && (forall p, c | p in s && Directed(g.E, p, c) :: c in s)
        ensures r <= s
      {
        assert Ch(g, x) <= s;
        assert Digraphs.AncestorClosed(s, arcs);
      }
    }
    r
  }

  /** `remove_vertex(v)`: drops every arc at v, v's own entries, and v from
      every other entry. */
  function RemoveVertex<V(!new)>(g: Pdag<V>, v: V): (r: Pdag<V>)
    ensures forall e :: e in r.E <==> e in g.E && e.0 != v && e.1 != v
    ensures v !in r.pa && v !in r.ch
    ensures forall k :: v !in SetAt(r.pa, k) && v !in SetAt(r.ch, k)
    ensures forall k | k != v :: SetAt(r.pa, k) == SetAt(g.pa, k) - {v} && SetAt(r.ch, k) == SetAt(g.ch, k) - {v}
    ensures Consistent(g) ==> Consistent(r)
  {
    Pdag(set e | e in g.E && e.0 != v && e.1 != v,
         map k | k in g.pa.Keys - {v} :: g.pa[k] - {v},
         map k | k in g.ch.Keys - {v} :: g.ch[k] - {v})
  }

  // ---------------------------------------------------------------------
  // Rule counters and steps
  // ---------------------------------------------------------------------

  /** How often each rule fired: a `defaultdict(int)` keyed by rule name. */
  type Counter = map<string, nat>

  const SncR3Name := "SNC-R3"
  const CAName := "CA"
  const KNCName := "KNC"
  const MR3Name := "MR3"
  const MR4Name := "MR4"
  const SncR2Name := "SNC-R2"

  function CountAt(c: Counter, name: string): nat {
    if name in c then c[name] else 0
  }

  /** `count(result, counter, name)`: one more under `name` exactly when
      the result is truthy, nothing else touched. */
  function Count(c: Counter, result: bool, name: string): (r: Counter)
    ensures CountAt(r, name) == CountAt(c, name) + (if result then 1 else 0)
    ensures forall k | k != name :: CountAt(r, k) == CountAt(c, k)
    ensures !result ==> r == c
  {
    if result then c[name := CountAt(c, name) + 1] else c
  }

  /** The graph after a rule, the rule's answer, and the counter. */
  datatype Step<V> = Step(g: Pdag<V>, changed: bool, counter: Counter)

  /** A step that only orients edges of `g`. */
  ghost predicate Valid<V(!new)>(g: Pdag<V>, s: Step<V>) {
    Sound(g.E, Pass(s.g.E, s.changed)) && Consistent(s.g)
  }

  /** Two orienting steps in a row orient, and together changed something
      iff one of them did. */
  lemma SoundThen<V>(E0: set<(V, V)>, E1: set<(V, V)>, b1: bool, E2: set<(V, V)>, b2: bool)
    requires Sound(E0, Pass(E1, b1)) && Sound(E1, Pass(E2, b2))
    ensures Sound(E0, Pass(E2, b1 || b2))
  {
    forall e | e in E0 && e !in E2
      ensures Reverse(e) in E2
    {
      if e !in E1 {
        assert Reverse(e) in E1;
        assert Reverse(Reverse(e)) == e;
      }
    }
  }

  lemma ValidThen<V(!new)>(g: Pdag<V>, s1: Step<V>, s2: Step<V>)
    requires Valid(g, s1) && Valid(s1.g, s2)
    ensures Valid(g, Step(s2.g, s1.changed || s2.changed, s2.counter))
  {
    SoundThen(g.E, s1.g.E, s1.changed, s2.g.E, s2.changed);
  }

  /** Directed edges stay directed under orientation, and an edge left
      undirected was undirected before. */
  lemma SoundKeepsDirected<V>(E: set<(V, V)>, st: Pass<V>, a: V, b: V)
    requires Sound(E, st)
    ensures Directed(E, a, b) ==> Directed(st.arcs, a, b)
    ensures Undirected(st.arcs, a, b) ==> Undirected(E, a, b)
  {
  }

  /** `orient`, counted under `name`. */
  function OrientStep<V(!new)>(g: Pdag<V>, x: V, y: V, c: Counter, name: string): (r: Step<V>)
    ensures r.changed <==> Undirected(g.E, x, y)
    ensures r.changed ==> r.g.E == g.E - {(y, x)}
    ensures !r.changed ==> r.g == g && r.counter == c
    ensures r.counter == Count(c, r.changed, name)
    ensures Consistent(g) ==> Valid(g, r)
  {
    var (g1, b) := Orient(g, x, y);
    OrientOnlyIf(g, x, y);
    Step(g1, b, Count(c, b, name))
  }

  function Unchanged<V>(g: Pdag<V>, c: Counter): Step<V> {
    Step(g, false, c)
  }

  // ---------------------------------------------------------------------
  // The rules on a non-collider x -- y -- z
  // ---------------------------------------------------------------------

  /** MR1 (`run_mr1`, `MeekRules.rule_1`, counted as KNC): x --> y makes
      y --> z; otherwise z --> y makes y --> x. */
  function Rule1<V(!new)>(g: Pdag<V>, x: V, y: V, z: V, c: Counter): (r: Step<V>)
    ensures Consistent(g) ==> Valid(g, r)
    ensures Directed(g.E, x, y) ==> !Undirected(r.g.E, y, z) && (r.changed <==> Undirected(g.E, y, z))
    ensures !Directed(g.E, x, y) && Directed(g.E, z, y) ==>
              !Undirected(r.g.E, y, x) && (r.changed <==> Undirected(g.E, y, x))
    ensures !Directed(g.E, x, y) && !Directed(g.E, z, y) ==> r == Unchanged(g, c)
    ensures !r.changed ==> r == Unchanged(g, c)
  {
    if Directed(g.E, x, y) then OrientStep(g, y, z, c, KNCName)
    else if Directed(g.E, z, y) then OrientStep(g, y, x, c, KNCName)
    else Unchanged(g, c)
  }

  /** MR4 (`run_mr4`, `MeekRules.rule_4`): z --> w --> x makes y --> x;
      otherwise x --> w --> z makes y --> z. */
  function Rule4<V(!new)>(g: Pdag<V>, x: V, y: V, z: V, c: Counter): (r: Step<V>)
    ensures Consistent(g) ==> Valid(g, r)
    ensures !r.changed ==> r == Unchanged(g, c)
  {
    if Ch(g, z) * Pa(g, x) != {} then OrientStep(g, y, x, c, MR4Name)
    else if Ch(g, x) * Pa(g, z) != {} then OrientStep(g, y, z, c, MR4Name)
    else Unchanged(g, c)
  }

  /** A directed path a --> w --> b of two edges. */
  predicate TwoStep<V(==)>(E: set<(V, V)>, a: V, w: V, b: V) {
    Directed(E, a, w) && Directed(E, w, b)
  }

  /** What MR4 does on a consistent graph, in terms of directed paths. */
  lemma Rule4Meaning<V(!new)>(g: Pdag<V>, x: V, y: V, z: V, c: Counter)
    requires Consistent(g)
    ensures (exists w :: TwoStep(g.E, z, w, x)) ==>
              !Undirected(Rule4(g, x, y, z, c).g.E, y, x) && (Rule4(g, x, y, z, c).changed <==> Undirected(g.E, y, x))
    ensures (forall w :: !TwoStep(g.E, z, w, x)) && (exists w :: TwoStep(g.E, x, w, z)) ==>
              !Undirected(Rule4(g, x, y, z, c).g.E, y, z) && (Rule4(g, x, y, z, c).changed <==> Undirected(g.E, y, z))
    ensures (forall w :: !TwoStep(g.E, z, w, x)) && (forall w :: !TwoStep(g.E, x, w, z)) ==>
              Rule4(g, x, y, z, c) == Unchanged(g, c)
  {
    QueriesExact(g, x);
    QueriesExact(g, z);
    if exists w :: TwoStep(g.E, z, w, x) {
      var w :| TwoStep(g.E, z, w, x);
      assert w in Ch(g, z) * Pa(g, x);
    } else if exists w :: TwoStep(g.E, x, w, z) {
      var w :| TwoStep(g.E, x, w, z);
      assert w in Ch(g, x) * Pa(g, z);
      assert Ch(g, z) * Pa(g, x) == {} by {
        forall w | w in Ch(g, z) * Pa(g, x)
          ensures false
        {
          assert TwoStep(g.E, z, w, x);
        }
      }
    } else {
      assert Ch(g, z) * Pa(g, x) == {} by {
        forall w | w in Ch(g, z) * Pa(g, x)
          ensures false
        {
          assert TwoStep(g.E, z, w, x);
        }
      }
      assert Ch(g, x) * Pa(g, z) == {} by {
        forall w | w in Ch(g, x) * Pa(g, z)
          ensures false
        {
          assert TwoStep(g.E, x, w, z);
        }
      }
    }
  }

  /** SNC rule 2 (`run_snc_r2`): x --> z makes y --> z; otherwise
      z --> x makes y --> x. */
  function SncRule2<V(!new)>(g: Pdag<V>, x: V, y: V, z: V, c: Counter): (r: Step<V>)
    ensures Consistent(g) ==> Valid(g, r)
    ensures Directed(g.E, x, z) ==> !Undirected(r.g.E, y, z) && (r.changed <==> Undirected(g.E, y, z))
    ensures !Directed(g.E, x, z) && Directed(g.E, z, x) ==>
              !Undirected(r.g.E, y, x) && (r.changed <==> Undirected(g.E, y, x))
    ensures !Directed(g.E, x, z) && !Directed(g.E, z, x) ==> r == Unchanged(g, c)
    ensures !r.changed ==> r == Unchanged(g, c)
  {
    if Directed(g.E, x, z) then OrientStep(g, y, z, c, SncR2Name)
    else if Directed(g.E, z, x) then OrientStep(g, y, x, c, SncR2Name)
    else Unchanged(g, c)
  }

  /** The vertices MR3 orients towards: x --> w <-- z with w -- y. */
  function Rule3Targets<V(==)>(g: Pdag<V>, x: V, y: V, z: V): set<V> {
    Ch(g, x) * Ch(g, z) * Ne(g, y)
  }

  /** MR3 (`run_mr3`, `MeekRules.rule_3`): y --> w for every w with
      x --> w <-- z and w -- y, each orientation counted. The targets are
      fixed before the first orientation and orienting y --> w touches no
      other target's edge, so the result is the same in every iteration
      order (`Rule3AnyOrder`); it is written here for all targets at once. */
  function Rule3<V(!new)>(g: Pdag<V>, x: V, y: V, z: V, c: Counter): (r: Step<V>)
    ensures Consistent(g) ==> Valid(g, r)
    ensures Consistent(g) ==> r.g.E == g.E - (set w | w in Rule3Targets(g, x, y, z) :: (w, y))
    ensures Consistent(g) ==> (r.changed <==> Rule3Targets(g, x, y, z) != {})
    ensures !r.changed ==> r == Unchanged(g, c)
  {
    var ws := Rule3Targets(g, x, y, z);
    if ws == {} then Unchanged(g, c)
    else
    var r := Step(Pdag(g.E - (set w | w in ws :: (w, y)),
                       g.pa[y := SetAt(g.pa, y) - ws],
                       map k | k in g.ch.Keys :: if k in ws then g.ch[k] - {y} else g.ch[k]),
                  true,
                  c[MR3Name := CountAt(c, MR3Name) + |ws|]);
    Rule3Valid(g, x, y, z, r);
    r
  }

  lemma Rule3Valid<V(!new)>(g: Pdag<V>, x: V, y: V, z: V, r: Step<V>)
    requires r.g == Pdag(g.E - (set w | w in Rule3Targets(g, x, y, z) :: (w, y)),
                         g.pa[y := SetAt(g.pa, y) - Rule3Targets(g, x, y, z)],
                         map k | k in g.ch.Keys :: if k in Rule3Targets(g, x, y, z) then g.ch[k] - {y} else g.ch[k])
    requires r.changed && Rule3Targets(g, x, y, z) != {}
    ensures Consistent(g) ==> Valid(g, r)
  {
    if Consistent(g) {
      Rule3ValidC(g, x, y, z, r);
    }
  }

  lemma Rule3ValidC<V(!new)>(g: Pdag<V>, x: V, y: V, z: V, r: Step<V>)
    requires Consistent(g)
    requires r.g == Pdag(g.E - (set w | w in Rule3Targets(g, x, y, z) :: (w, y)),
                         g.pa[y := SetAt(g.pa, y) - Rule3Targets(g, x, y, z)],
                         map k | k in g.ch.Keys :: if k in Rule3Targets(g, x, y, z) then g.ch[k] - {y} else g.ch[k])
    requires r.changed && Rule3Targets(g, x, y, z) != {}
    ensures Valid(g, r)
  {
    var ws := Rule3Targets(g, x, y, z);
    QueriesExact(g, y);
    assert forall w | w in ws :: Undirected(g.E, y, w) && w != y;
    DropIntoConsistent(g, y, ws, r.g);
    forall e | e in g.E && e !in r.g.E
      ensures Reverse(e) in r.g.E
    {
      assert e.0 in ws && e.1 == y;
    }
    var w :| w in ws;
    assert (w, y) in g.E && (w, y) !in r.g.E;
  }

  /** Removing the arcs (w, y) for the w in `ws` from a consistent graph,
      with the matching map updates, leaves it consistent. */
  lemma DropIntoConsistent<V(!new)>(g: Pdag<V>, y: V, ws: set<V>, h: Pdag<V>)
    requires Consistent(g)
    requires h == Pdag(g.E - (set w | w in ws :: (w, y)),
                       g.pa[y := SetAt(g.pa, y) - ws],
                       map k | k in g.ch.Keys :: if k in ws then g.ch[k] - {y} else g.ch[k])
    ensures Consistent(h)
  {
    forall a, b
      ensures (a, b) in h.E <==> a in SetAt(h.pa, b)
    {
      assert (a, b) in (set w | w in ws :: (w, y)) <==> a in ws && b == y;
    }
    forall a, b
      ensures (a, b) in h.E <==> b in SetAt(h.ch, a)
    {
      assert (a, b) in (set w | w in ws :: (w, y)) <==> a in ws && b == y;
    }
  }

  /** The pairs (y, w) for the w in `ws`, in order. */
  function Pairs<V>(y: V, ws: seq<V>): (r: seq<(V, V)>)
    ensures |r| == |ws| && forall i | 0 <= i < |ws| :: r[i] == (y, ws[i])
  {
    seq(|ws|, i requires 0 <= i < |ws| => (y, ws[i]))
  }

  /** Orienting y --> w for several w whose arcs (y, w) exist removes
      exactly their arcs (w, y), whatever the order. */
  lemma {:induction false} OrientsToward<V(!new)>(g: Pdag<V>, y: V, ws: seq<V>)
    requires forall i | 0 <= i < |ws| :: ws[i] != y && (y, ws[i]) in g.E
    ensures Orients(g, Pairs(y, ws)).0.E == g.E - (set w | w in ws :: (w, y))
    decreases |ws|
  {
    if ws != [] {
      var g1 := OrientTowardFirst(g, y, ws);
      OrientsToward(g1, y, ws[1..]);
      assert (set w | w in ws :: (w, y)) == {(ws[0], y)} + (set w | w in ws[1..] :: (w, y)) by {
        assert ws == [ws[0]] + ws[1..];
      }
    }
  }

  /** The first orientation of `OrientsToward`, and what it leaves for the rest. */
  lemma OrientTowardFirst<V(!new)>(g: Pdag<V>, y: V, ws: seq<V>) returns (g1: Pdag<V>)
    requires ws != []
    requires forall i | 0 <= i < |ws| :: ws[i] != y && (y, ws[i]) in g.E
    ensures g1 == Orient(g, y, ws[0]).0 && g1.E == g.E - {(ws[0], y)}
    ensures Orients(g, Pairs(y, ws)).0 == Orients(g1, Pairs(y, ws[1..])).0
    ensures forall i | 0 <= i < |ws[1..]| :: ws[1..][i] != y && (y, ws[1..][i]) in g1.E
  {
    g1 := Orient(g, y, ws[0]).0;
    assert Pairs(y, ws)[1..] == Pairs(y, ws[1..]);
    forall i | 0 <= i < |ws[1..]|
      ensures ws[1..][i] != y && (y, ws[1..][i]) in g1.E
    {
      assert ws[1..][i] == ws[i + 1];
    }
  }

  /** `run_mr3` orients in the iteration order of a set; every order gives
      `Rule3`'s arcs and answer. */
  lemma Rule3AnyOrder<V(!new)>(g: Pdag<V>, x: V, y: V, z: V, c: Counter, order: seq<V>)
    requires Consistent(g) && SetOf(order) == Rule3Targets(g, x, y, z)
    ensures Orients(g, Pairs(y, order)).0.E == Rule3(g, x, y, z, c).g.E
    ensures Orients(g, Pairs(y, order)).1 == Rule3(g, x, y, z, c).changed
  {
    QueriesExact(g, y);
    forall i | 0 <= i < |order|
      ensures order[i] != y && (y, order[i]) in g.E
    {
      assert order[i] in SetOf(order);
    }
    OrientsToward(g, y, order);
    OrientsFacts(g, Pairs(y, order));
    assert (set w | w in order :: (w, y)) == (set w | w in Rule3Targets(g, x, y, z) :: (w, y));
    if Rule3Targets(g, x, y, z) != {} {
      var w :| w in Rule3Targets(g, x, y, z);
      assert w in SetOf(order) && (w, y) in g.E;
    }
  }

  // ---------------------------------------------------------------------
  // MR2 over every arc
  // ---------------------------------------------------------------------

  /** MR2 on one arc (`run_mr2`, `MeekRules.rule_2`, counted as CA):
      x -- y with x --> w --> y for some w makes x --> y. */
  function Rule2At<V(!new)>(g: Pdag<V>, e: (V, V), c: Counter): (r: Step<V>)
    ensures Consistent(g) ==> Valid(g, r)
    ensures !r.changed ==> r == Unchanged(g, c)
  {
    if Undirected(g.E, e.0, e.1) && Ch(g, e.0) * Pa(g, e.1) != {} then OrientStep(g, e.0, e.1, c, CAName)
    else Unchanged(g, c)
  }

  /** MR2 over the arcs in `order`, each checked on the graph as it is by then. */
  function Rule2Over<V(!new)>(g: Pdag<V>, order: seq<(V, V)>, c: Counter): (r: Step<V>)
    ensures Consistent(g) ==> Valid(g, r)
    ensures !r.changed ==> r == Unchanged(g, c)
    decreases |order|
  {
    if order == [] then Unchanged(g, c)
    else
      var s1 := Rule2At(g, order[0], c);
      var s2 := Rule2Over(s1.g, order[1..], s1.counter);
      ValidThenIf(g, s1, s2);
      Step(s2.g, s1.changed || s2.changed, s2.counter)
  }

  lemma ValidThenIf<V(!new)>(g: Pdag<V>, s1: Step<V>, s2: Step<V>)
    requires Consistent(g) ==> Valid(g, s1)
    requires Consistent(s1.g) ==> Valid(s1.g, s2)
    ensures Consistent(g) ==> Valid(g, Step(s2.g, s1.changed || s2.changed, s2.counter))
  {
    if Consistent(g) {
      ValidThen(g, s1, s2);
    }
  }

  /** No undirected x -- y with a directed path x --> w --> y: nothing
      left for MR2. */
  ghost predicate Rule2Closed<V(!new)>(g: Pdag<V>) {
    forall x, y, w :: !(Undirected(g.E, x, y) && TwoStep(g.E, x, w, y))
  }

  /** `run_mr2` / `MeekRules.rule_2`: MR2 over `list(E)`. */
  function Rule2<V(!new)>(g: Pdag<V>, order: seq<(V, V)>, c: Counter): (r: Step<V>)
    requires SetOf(order) == g.E
    ensures Consistent(g) ==> Valid(g, r)
    ensures Consistent(g) && !r.changed ==> Rule2Closed(g)
    ensures !r.changed ==> r == Unchanged(g, c)
  {
    var r := Rule2Over(g, order, c);
    Rule2Quiet(g, order, c);
    r
  }

  /** When MR2 changed nothing, no arc of the order had the MR2 pattern. */
  lemma {:induction false} Rule2Quiet<V(!new)>(g: Pdag<V>, order: seq<(V, V)>, c: Counter)
    ensures Consistent(g) && !Rule2Over(g, order, c).changed ==>
              forall x, y, w | (x, y) in order :: !(Undirected(g.E, x, y) && TwoStep(g.E, x, w, y))
    ensures Consistent(g) && !Rule2Over(g, order, c).changed && SetOf(order) == g.E ==> Rule2Closed(g)
    decreases |order|
  {
    if Consistent(g) && !Rule2Over(g, order, c).changed && order != [] {
      var s1 := Rule2At(g, order[0], c);
      assert s1 == Unchanged(g, c);
      Rule2Quiet(g, order[1..], c);
      QueriesExact(g, order[0].0);
      QueriesExact(g, order[0].1);
      forall x, y, w | (x, y) in order
        ensures !(Undirected(g.E, x, y) && TwoStep(g.E, x, w, y))
      {
        if (x, y) == order[0] {
          if TwoStep(g.E, x, w, y) {
            assert w in Ch(g, x) * Pa(g, y);
          }
        } else {
          assert (x, y) in order[1..];
        }
      }
    }
  }

  /** Every arc MR2 removed has, in the result, the directed path that
      justified it: directed edges are never undone. */
  lemma {:induction false} Rule2Justified<V(!new)>(g: Pdag<V>, order: seq<(V, V)>, c: Counter)
    requires Consistent(g)
    ensures forall e | e in g.E && e !in Rule2Over(g, order, c).g.E ::
              exists w :: TwoStep(Rule2Over(g, order, c).g.E, e.1, w, e.0)
    decreases |order|
  {
    if order != [] {
      var s1 := Rule2At(g, order[0], c);
      var r := Rule2Over(g, order, c);
      Rule2Justified(s1.g, order[1..], s1.counter);
      var rest := Rule2Over(s1.g, order[1..], s1.counter);
      assert r.g == rest.g;
      forall e | e in g.E && e !in r.g.E
        ensures exists w :: TwoStep(r.g.E, e.1, w, e.0)
      {
        if e in s1.g.E {
        } else {
          var (x, y) := order[0];
          QueriesExact(g, x);
          QueriesExact(g, y);
          var w :| w in Ch(g, x) * Pa(g, y);
          assert e == (y, x);
          SoundKeepsDirected(s1.g.E, Pass(r.g.E, rest.changed), x, w);
          SoundKeepsDirected(s1.g.E, Pass(r.g.E, rest.changed), w, y);
          SoundKeepsDirected(g.E, Pass(s1.g.E, s1.changed), x, w);
          SoundKeepsDirected(g.E, Pass(s1.g.E, s1.changed), w, y);
          assert TwoStep(r.g.E, x, w, y);
        }
      }
    }
  }
}
