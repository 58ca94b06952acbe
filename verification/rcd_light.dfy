/** RCD-Light (RCDLight.py): Phase I finds the undirected dependencies by
    growing conditioning sets over the effect's other causes, with no depth
    limit; Phase II orients the attribute-class dependency graph from the
    representative unshielded triples, non-colliders and ancestral
    relationships, and reads the oriented dependencies back from it. The
    CI tester is a function parameter; the random shuffle of the triples is
    an input order. */
module RCDLight {
  import opened Wrappers
  import opened Collections
  import opened Schemas
  import opened RelVars
  import opened Sepsets
  import opened Parents
  import opened Skeleton
  import opened Pdags
  import opened Ancestrals
  import opened OrientationRules
  import EdgeOrientation
  import Space
  import Config
  import AGGs

  datatype Light = Light(schema: Schema, hop: nat)

  /** The constructor: rejects a hop threshold that is not a non-negative integer. */
  function NewLight(schema: Schema, hop: Space.Num): (r: Result<Light>)
    ensures r.Ok? <==> Config.NonNegativeInt(hop)
    ensures r.Ok? ==> r.value.schema == schema && r.value.hop == hop.i
    ensures r.Err? ==> r.msg == Config.BadHop
  {
    var h :- Config.CheckHop(hop);
    Ok(Light(schema, h))
  }

  /** The candidate dependencies: `getRelationalDependencies` at the hop
      threshold, without existence variables; all of them canonical. */
  function Potential(l: Light): (r: set<RelDep>)
    ensures forall d | d in r :: Canonical(d)
  {
    var deps := Space.GetRelationalDependencies(l.schema, Space.IntNum(l.hop), false).value;
    var vars := Space.VarsOf(l.schema, Space.PathsUpTo(l.schema, l.hop), false);
    assert forall d | d in SetOf(deps) :: Canonical(d) by {
      forall d | d in SetOf(deps) ensures Canonical(d) {
        SpaceCanonical(l.schema, vars, d);
      }
    }
    SetOf(deps)
  }

  /** Every variable any effect has as a cause. */
  function AllCauses(m: Causes): set<RelVar> {
    set e, c | e in m && c in m[e] :: c
  }

  /** A round that leaves dependencies on the worklist ran at a size no
      larger than the number of variables that were ever causes. */
  lemma Progress(pot: set<RelDep>, m0: Causes, m: Causes, tbt: set<RelDep>, m': Causes, tbt': set<RelDep>,
                 s': Search, k: nat, ci: CiTest)
    requires RoundInv(pot, m, tbt, m', tbt', {}, s', k, ci) && Shrinks(m0, m)
    ensures RoundInv(pot, m', tbt', m', tbt', tbt', s', k + 1, ci) && Shrinks(m0, m')
    ensures tbt' != {} ==> k + 1 <= |AllCauses(m0)| + 1
  {
    NextRound(pot, m, tbt, m', tbt', s', k, ci);
    ShrinksTrans(m0, m, m');
    if tbt' != {} {
      var d :| d in tbt';
      SubsetNotLarger(m[d.effect], AllCauses(m0));
    }
  }

  /** `identifyUndirectedDependencies`: rounds at sizes 0, 1, 2, ... until
      the worklist is empty. Besides what every Phase I leaves behind, each
      remaining dependency is dependent given every set of its effect's
      other remaining causes. A KeyError is possible only when the
      candidates are not closed under reversal. */
  method IdentifyUndirected(l: Light, s: Search, ci: CiTest) returns (r: Result<(set<RelDep>, Causes, Search)>)
    requires SearchOk(s, ci)
    ensures r.Err? ==> r.msg == KeyError && !Closed(Potential(l))
    ensures r.Ok? ==> Learned(Potential(l), r.value.0, r.value.1, r.value.2, ci)
    ensures r.Ok? ==> forall d | d in r.value.0 :: Exhausted(r.value.1, d, ci)
  {
    var pot := Potential(l);
    var m0 := Group(pot);
    FirstRound(pot, s, ci);
    var m, tbt, st := m0, pot, s;
    ghost var bound := |AllCauses(m0)|;
    var k: nat := 0;
    while tbt != {}
      invariant RoundInv(pot, m, tbt, m, tbt, tbt, st, k, ci)
      invariant Shrinks(m0, m)
      invariant tbt != {} ==> k <= bound + 1
      decreases bound + 1 - k
    {
      var rr := Round(pot, m, tbt, st, k, ci);
      if rr.Err? {
        return Err(rr.msg);
      }
      var (m', tbt', st') := rr.value;
      Progress(pot, m0, m, tbt, m', tbt', st', k, ci);
      m, tbt, st, k := m', tbt', st', k + 1;
    }
    LastRound(pot, m0, m, st, k, ci);
    r := Ok((Deps(m), m, st));
  }

  // ---------------------------------------------------------------------
  // Phase II
  // ---------------------------------------------------------------------

  /** A representative unshielded triple (rv1, rv2, crv3): rv1 -- rv2 -- crv3
      in some ground graph, with rv1 and crv3 not adjacent. */
  type Rut = (RelVar, RelVar, RelVar)

  /** `_enumerate_RUTs`: for Qy -> Vx and Rz -> [Q].y undirected, every
      valid extension QR of Qy's path by Rz's path gives QR.z -- Qy -- Vx,
      unless QR.z is Vx itself or already one of Vx's causes. */
  function Ruts(s: Schema, und: set<RelDep>, m: Causes): (r: set<Rut>)
    ensures forall t | t in r :: RelDep(t.1, t.2) in und && t.0 != t.2 && t.0 !in SetAt(m, t.2)
    ensures forall t | t in r :: exists d | d in und :: d.cause.attrName == t.0.attrName && d.effect.attrName == t.1.attrName
  {
    set dyx, dzy, q | dyx in und && dzy in und && dzy.effect.attrName == dyx.cause.attrName
                      && q in AGGs.ExtendPath(s, dyx.cause.path, dzy.cause.path)
                      && RelVar(q, dzy.cause.attrName) != dyx.effect
                      && RelVar(q, dzy.cause.attrName) !in SetAt(m, dyx.effect)
      :: (RelVar(q, dzy.cause.attrName), dyx.cause, dyx.effect)
  }

  /** Whether a separating set is already recorded for a triple's ends. */
  predicate Cached(t: Rut, seps: SepsetMap) {
    Skeleton.Key(t.0, t.2) in seps
  }

  /** Splits the triples into those with a recorded separating set and the
      rest, each part in the original order. */
  function Partition(order: seq<Rut>, seps: SepsetMap): (r: (seq<Rut>, seq<Rut>))
    ensures multiset(r.0) + multiset(r.1) == multiset(order)
    ensures forall t | t in r.0 :: Cached(t, seps)
    ensures forall t | t in r.1 :: !Cached(t, seps)
  {
    if order == [] then ([], [])
    else
      var (a, b) := Partition(order[1..], seps);
      assert order == [order[0]] + order[1..];
      if Cached(order[0], seps) then ([order[0]] + a, b) else (a, [order[0]] + b)
  }

  /** `ruts.sort(key=lambda ut: frozenset({ut[0], ut[2]}) in self._sepsets,
      reverse=True)`: a stable sort that brings the triples whose separating
      set is already recorded to the front. */
  function CachedFirst(order: seq<Rut>, seps: SepsetMap): (r: seq<Rut>)
    ensures multiset(r) == multiset(order)
    ensures forall i, j | 0 <= i < j < |r| :: Cached(r[j], seps) ==> Cached(r[i], seps)
  {
    var (a, b) := Partition(order, seps);
    forall k | 0 <= k < |a| ensures Cached((a + b)[k], seps) {
      assert (a + b)[k] == a[k];
      assert a[k] in a;
    }
    forall k | |a| <= k < |a + b| ensures !Cached((a + b)[k], seps) {
      assert (a + b)[k] == b[k - |a|];
      assert b[k - |a|] in b;
    }
    a + b
  }

  /** `_find_sepset`: the recorded separating set of the pair if there is
      one; otherwise sizes 0, 1, 2, ... over the effect's other causes until
      a set separates or no set of the size exists, recording a set found.
      A set found is one of the smallest that separate; when none is found,
      no set of the effect's other causes separates. */
  method FindSepset(m: Causes, s: Search, cause: RelVar, effect: RelVar, ci: CiTest)
    returns (r: Result<Option<set<RelVar>>>, s': Search)
    requires |effect.path| == 1 && SearchOk(s, ci)
    ensures SearchOk(s', ci) && s.sepsets.Keys <= s'.sepsets.Keys
    ensures Skeleton.Key(cause, effect) in s.sepsets ==> r == Ok(Some(s.sepsets[Skeleton.Key(cause, effect)])) && s' == s
    ensures Skeleton.Key(cause, effect) !in s.sepsets ==> (r.Err? <==> effect !in m)
    ensures r.Err? ==> r.msg == KeyError
    ensures Skeleton.Key(cause, effect) !in s.sepsets && r.Ok? && r.value.Some? ==>
              var c := r.value.value;
              && c <= Nb(m, RelDep(cause, effect)) && ci(cause, effect, c)
              && (forall c' :: c' <= Nb(m, RelDep(cause, effect)) && |c'| < |c| ==> !ci(cause, effect, c'))
              && s'.sepsets == s.sepsets[Skeleton.Key(cause, effect) := c]
    ensures Skeleton.Key(cause, effect) !in s.sepsets && r.Ok? && r.value.None? ==>
              Exhausted(m, RelDep(cause, effect), ci) && s'.sepsets == s.sepsets
  {
    var key := Skeleton.Key(cause, effect);
    if key in s.sepsets {
      return Ok(Some(s.sepsets[key])), s;
    }
    if effect !in m {
      return Err(KeyError), s;
    }
    var sepset, cache', _ := GrowSepset(cause, effect, m[effect] - {cause}, None, s.cache, ci);
    if sepset.Some? {
      RecordKeeps(s.sepsets, cause, effect, sepset.value, ci);
      s' := Search(cache', s.sepsets[key := sepset.value]);
    } else {
      s' := Search(cache', s.sepsets);
    }
    r := Ok(sepset);
  }

  /** The class dependency graph, the non-colliders and the ancestral
      record Phase II works on. */
  datatype Orienting = Orienting(g: Pdag<string>, ncs: set<NonCollider<string>>, anc: Ancestral<string>)

  /** The tests that let a triple be skipped: both edges already oriented,
      already a known non-collider, z a descendant of x (the complementary
      triple decides), or an edge already oriented away from y. */
  predicate Skippable(o: Orienting, t: Rut)
    requires Consistent(o.g)
  {
    var (z, y, x) := (t.0.attrName, t.1.attrName, t.2.attrName);
    (IsOriented(o.g, z, y) && IsOriented(o.g, x, y))
    || (y, (x, z)) in o.ncs || (y, (z, x)) in o.ncs
    || z in De(o.g, x)
    || EdgeOrientation.Directed(o.g.E, y, x) || EdgeOrientation.Directed(o.g.E, y, z)
  }

  /** Orienting x --> y where the graph allows it. */
  function OrientIn(g: Pdag<string>, x: string, y: string): (r: Pdag<string>)
    requires Consistent(g)
    ensures OrientedFrom(g.E, r)
    ensures x != y ==> !EdgeOrientation.Undirected(r.E, x, y)
  {
    OrientOnlyIf(g, x, y);
    Orient(g, x, y).0
  }

  /** Orienting a list of pairs. */
  function OrientAll(g: Pdag<string>, xys: seq<(string, string)>): (r: Pdag<string>)
    requires Consistent(g)
    ensures OrientedFrom(g.E, r)
    ensures forall p | p in xys :: !EdgeOrientation.Undirected(r.E, p.0, p.1)
  {
    OrientsConsistent(g, xys);
    Orients(g, xys).0
  }

  /** Which `Ancestral.add` records x ~> z: the code as written, which
      records nothing, or the corrected one. */
  datatype AddMode = AsWritten | Corrected

  function RecordAncestor(mode: AddMode, a: Ancestral<string>, x: string, z: string): (r: Result<Ancestral<string>>)
    ensures r.Ok? <==> x != z && z !in SetAt(a.ans, x)
    ensures r.Err? ==> r.msg == AddRejected
  {
    if mode.AsWritten? then TryAddAsWritten(a, x, z) else TryAdd(a, x, z)
  }

  /** What a triple that is not skipped leaves behind, read off the
      separating-set record of its ends after the search: a set that misses
      the middle orients both edges into it; one that holds it gives y --> x
      when the end attributes agree and a known non-collider otherwise; no
      set orients x --> z when the ends' attributes are adjacent. */
  ghost predicate Decided(o: Orienting, t: Rut, o': Orienting, seps: SepsetMap)
    requires Consistent(o.g)
  {
    var (z, y, x) := (t.0.attrName, t.1.attrName, t.2.attrName);
    var key := Skeleton.Key(t.0, t.2);
    && (key in seps && t.1 !in seps[key] ==>
          !EdgeOrientation.Undirected(o'.g.E, z, y) && !EdgeOrientation.Undirected(o'.g.E, x, y))
    && (key in seps && t.1 in seps[key] && x == z && y != x ==> !EdgeOrientation.Undirected(o'.g.E, y, x))
    && (key in seps && t.1 in seps[key] && x != z ==> (y, (x, z)) in o'.ncs)
    && (key !in seps && IsAdj(o.g, x, z) && x != z ==> !EdgeOrientation.Undirected(o'.g.E, x, z))
  }

  /** One triple of the Phase II loop: a collider when the separating set of
      its ends misses the middle (or, with equal end attributes, a
      relational bivariate orientation y --> x), a non-collider otherwise;
      with no separating set, x --> z when adjacent and else x recorded as an
      ancestor of z; then the rules. Only the ancestral record's assertions
      can fail; with the record as written, which stays blank, only when
      both ends carry the same attribute. */
  method OrientTriple(mode: AddMode, m: Causes, s: Search, o: Orienting, t: Rut, ci: CiTest)
    returns (r: Result<(Orienting, Search)>)
    requires Consistent(o.g) && SearchOk(s, ci)
    requires |t.2.path| == 1 && t.2 in m
    ensures r.Err? ==> r.msg == AddRejected && !Skippable(o, t)
    ensures r.Err? && mode.AsWritten? && Blank(o.anc) ==> t.0.attrName == t.2.attrName
    ensures r.Ok? ==> OrientedFrom(o.g.E, r.value.0.g) && o.ncs <= r.value.0.ncs
    ensures r.Ok? ==> SearchOk(r.value.1, ci) && s.sepsets.Keys <= r.value.1.sepsets.Keys
    ensures r.Ok? && Skippable(o, t) ==> r.value == (o, s)
    ensures r.Ok? && !Skippable(o, t) ==> Decided(o, t, r.value.0, r.value.1.sepsets)
    ensures r.Ok? && mode.AsWritten? && Blank(o.anc) ==> Blank(r.value.0.anc)
    ensures r.Ok? && mode.Corrected? && !Skippable(o, t) && Skeleton.Key(t.0, t.2) !in r.value.1.sepsets
              && !IsAdj(o.g, t.2.attrName, t.0.attrName)
            ==> Contains(r.value.0.anc, (t.2.attrName, t.0.attrName))
  {
    if Skippable(o, t) {
      EdgeOrientation.SoundStart(o.g.E);
      return Ok((o, s));
    }
    var d :- Decide(mode, m, s, o, t, ci);
    var (o1, s') := d;
    var g' := ApplyRules(o1.g, o1.ncs, o1.anc);
    OrientedFromThen(o.g.E, o1.g, g');
    DecidedKept(o, t, o1, o1.(g := g'), s'.sepsets);
    r := Ok((o1.(g := g'), s'));
  }

  /** The body of one triple that is not skipped, before the rules. */
  method Decide(mode: AddMode, m: Causes, s: Search, o: Orienting, t: Rut, ci: CiTest)
    returns (r: Result<(Orienting, Search)>)
    requires Consistent(o.g) && SearchOk(s, ci)
    requires |t.2.path| == 1 && t.2 in m
    ensures r.Err? ==> r.msg == AddRejected
    ensures r.Err? && mode.AsWritten? && Blank(o.anc) ==> t.0.attrName == t.2.attrName
    ensures r.Ok? ==> OrientedFrom(o.g.E, r.value.0.g) && o.ncs <= r.value.0.ncs
    ensures r.Ok? ==> SearchOk(r.value.1, ci) && s.sepsets.Keys <= r.value.1.sepsets.Keys
    ensures r.Ok? ==> Decided(o, t, r.value.0, r.value.1.sepsets)
    ensures r.Ok? && mode.AsWritten? && Blank(o.anc) ==> Blank(r.value.0.anc)
    ensures r.Ok? && mode.Corrected? && Skeleton.Key(t.0, t.2) !in r.value.1.sepsets
              && !IsAdj(o.g, t.2.attrName, t.0.attrName)
            ==> Contains(r.value.0.anc, (t.2.attrName, t.0.attrName))
  {
    var (z, y, x) := (t.0.attrName, t.1.attrName, t.2.attrName);
    var found, s' := FindSepset(m, s, t.0, t.2, ci);
    var g, ncs, anc := o.g, o.ncs, o.anc;
    match found.value {
      case Some(sep) =>
        if t.1 !in sep {
          g := OrientAll(g, [(z, y), (x, y)]);
          assert (z, y) in [(z, y), (x, y)] && (x, y) in [(z, y), (x, y)];
        } else if x == z {
          g := OrientIn(g, y, x);
        } else {
          ncs := ncs + {(y, (x, z))};
          EdgeOrientation.SoundStart(g.E);
        }
      case None =>
        if IsAdj(g, x, z) {
          g := OrientIn(g, x, z);
        } else {
          var a := RecordAncestor(mode, anc, x, z);
          if a.Err? {
            return Err(a.msg);
          }
          EdgeOrientation.SoundStart(g.E);
          anc := a.value;
        }
    }
    r := Ok((Orienting(g, ncs, anc), s'));
  }

  /** What a triple decided survives the rules, which only orient. */
  lemma DecidedKept(o: Orienting, t: Rut, o1: Orienting, o2: Orienting, seps: SepsetMap)
    requires Consistent(o.g) && Decided(o, t, o1, seps)
    requires OrientedFrom(o1.g.E, o2.g) && o2.ncs == o1.ncs
    ensures Decided(o, t, o2, seps)
  {
    var (z, y, x) := (t.0.attrName, t.1.attrName, t.2.attrName);
    Keeps(o1.g.E, o2.g, z, y);
    Keeps(o1.g.E, o2.g, x, y);
    Keeps(o1.g.E, o2.g, y, x);
    Keeps(o1.g.E, o2.g, x, z);
  }

  /** Under orienting, an edge that is not undirected stays so, and a
      directed one keeps its direction. */
  lemma Keeps(E: set<(string, string)>, g: Pdag<string>, a: string, b: string)
    requires OrientedFrom(E, g)
    ensures !EdgeOrientation.Undirected(E, a, b) ==> !EdgeOrientation.Undirected(g.E, a, b)
    ensures EdgeOrientation.Directed(E, a, b) ==> EdgeOrientation.Directed(g.E, a, b)
  {
    SoundKeepsDirected(E, EdgeOrientation.Pass(g.E, g.E != E), a, b);
  }

  /** `orientDependencies` as written: the ancestral record never records
      anything, so the ancestral step of the rules never fires, and the
      only assertion that can fail is the one on a triple whose ends carry
      the same attribute. */
  method OrientDependencies(l: Light, m: Causes, s: Search, bk: Option<seq<(string, string)>>,
                            shuffled: seq<Rut>, ci: CiTest)
    returns (r: Result<(set<RelDep>, Causes, Search, Pdag<string>)>)
    requires SearchOk(s, ci)
    requires forall d | d in Deps(m) :: Canonical(d)
    requires SetOf(shuffled) == Ruts(l.schema, Deps(m), m) && PairwiseDistinct(shuffled)
    ensures r.Err? ==> r.msg == AddRejected || (r.msg == KeyError && !Closed(Deps(m)))
    ensures r.Err? && r.msg == AddRejected ==> exists t | t in shuffled :: t.0.attrName == t.2.attrName
    ensures r.Ok? ==> OrientedFrom(ClassArcs(m), r.value.3) && SearchOk(r.value.2, ci)
    ensures r.Ok? ==> r.value.1 == Reflect(m, r.value.3.E) && r.value.0 <= Deps(m)
    ensures r.Ok? && Closed(Deps(m)) ==>
              r.value.0 == set d | d in Deps(m) && EdgeOrientation.Directed(r.value.3.E, d.cause.attrName, d.effect.attrName)
  {
    r := PhaseTwo(AsWritten, l, m, s, bk, shuffled, ci);
  }

  /** The same with the corrected `Ancestral.add`, which records x ~> z. */
  method OrientDependenciesCorrected(l: Light, m: Causes, s: Search, bk: Option<seq<(string, string)>>,
                                     shuffled: seq<Rut>, ci: CiTest)
    returns (r: Result<(set<RelDep>, Causes, Search, Pdag<string>)>)
    requires SearchOk(s, ci)
    requires forall d | d in Deps(m) :: Canonical(d)
    requires SetOf(shuffled) == Ruts(l.schema, Deps(m), m) && PairwiseDistinct(shuffled)
    ensures r.Err? ==> r.msg == AddRejected || (r.msg == KeyError && !Closed(Deps(m)))
    ensures r.Ok? ==> OrientedFrom(ClassArcs(m), r.value.3) && SearchOk(r.value.2, ci)
    ensures r.Ok? ==> r.value.1 == Reflect(m, r.value.3.E) && r.value.0 <= Deps(m)
    ensures r.Ok? && Closed(Deps(m)) ==>
              r.value.0 == set d | d in Deps(m) && EdgeOrientation.Directed(r.value.3.E, d.cause.attrName, d.effect.attrName)
  {
    r := PhaseTwo(Corrected, l, m, s, bk, shuffled, ci);
  }

  /** The class dependency graph over the undirected dependencies'
      attribute pairs, background knowledge oriented first, then every
      triple in the cached-first order, then the orientations reflected into
      the causes map. The class graph ends up obtained from the attribute
      pairs by orienting only; on a map closed under reversal the output is
      exactly the undirected dependencies whose attribute edge the class
      graph directs from cause to effect, and no KeyError arises. */
  method PhaseTwo(mode: AddMode, l: Light, m: Causes, s: Search, bk: Option<seq<(string, string)>>,
                  shuffled: seq<Rut>, ci: CiTest)
    returns (r: Result<(set<RelDep>, Causes, Search, Pdag<string>)>)
    requires SearchOk(s, ci)
    requires forall d | d in Deps(m) :: Canonical(d)
    requires SetOf(shuffled) == Ruts(l.schema, Deps(m), m) && PairwiseDistinct(shuffled)
    ensures r.Err? ==> r.msg == AddRejected || (r.msg == KeyError && !Closed(Deps(m)))
    ensures r.Err? && r.msg == AddRejected && mode.AsWritten? ==> exists t | t in shuffled :: t.0.attrName == t.2.attrName
    ensures r.Ok? ==> OrientedFrom(ClassArcs(m), r.value.3) && SearchOk(r.value.2, ci)
    ensures r.Ok? ==> r.value.1 == Reflect(m, r.value.3.E) && r.value.0 <= Deps(m)
    ensures r.Ok? && Closed(Deps(m)) ==>
              r.value.0 == set d | d in Deps(m) && EdgeOrientation.Directed(r.value.3.E, d.cause.attrName, d.effect.attrName)
  {
    var g := StartGraph(m, bk);
    var order := CachedFirst(shuffled, s.sepsets);
    forall t | t in order ensures |t.2.path| == 1 && t.2 in m && t in shuffled {
      assert t in multiset(shuffled);
      assert RelDep(t.1, t.2) in Deps(m);
    }
    var res := Triples(mode, m, s, Orienting(g, {}, Init(Vertices(g))), order, ci);
    if res.Err? {
      return Err(res.msg);
    }
    var (o, st) := res.value;
    OrientedFromThen(ClassArcs(m), g, o.g);
    var out :- ReadBack(m, o.g.E);
    r := Ok((out.0, out.1, st, o.g));
  }

  /** The class dependency graph over the attribute pairs, with background
      knowledge oriented and the rules applied. */
  method StartGraph(m: Causes, bk: Option<seq<(string, string)>>) returns (g: Pdag<string>)
    requires forall d | d in Deps(m) :: Canonical(d)
    ensures OrientedFrom(ClassArcs(m), g)
  {
    var arcs := Enumerate(ClassArcs(m));
    forall i | 0 <= i < |arcs| ensures arcs[i].0 != arcs[i].1 {
      assert arcs[i] in ClassArcs(m);
    }
    g := FromEdges(arcs);
    EdgeOrientation.SoundStart(g.E);
    if bk.Some? {
      var g1 := OrientAll(g, bk.value);
      var g2 := ApplyRules(g1, {}, Init(Vertices(g)));
      OrientedFromThen(g.E, g1, g2);
      g := g2;
    }
  }

  /** `_reflect_orientations` then `_update_oriented_dependencies`. */
  function ReadBack(m: Causes, E: set<(string, string)>): (r: Result<(set<RelDep>, Causes)>)
    ensures r.Err? ==> r.msg == KeyError && !Closed(Deps(m))
    ensures r.Ok? ==> r.value.1 == Reflect(m, E) && r.value.0 <= Deps(m)
    ensures r.Ok? && Closed(Deps(m)) ==>
              r.value.0 == set d | d in Deps(m) && EdgeOrientation.Directed(E, d.cause.attrName, d.effect.attrName)
    ensures Closed(Deps(m)) ==> r.Ok?
  {
    var m' := Reflect(m, E);
    OrientedExactIf(m, E);
    var out :- Oriented(m');
    Ok((out, m'))
  }

  lemma OrientedExactIf(m: Causes, E: set<(string, string)>)
    ensures Closed(Deps(m)) ==>
              Oriented(Reflect(m, E)).Ok?
              && Oriented(Reflect(m, E)).value ==
                   set d | d in Deps(m) && EdgeOrientation.Directed(E, d.cause.attrName, d.effect.attrName)
  {
    if Closed(Deps(m)) {
      OrientedExact(m, E);
    }
  }

  /** The loop over the triples, each seeing the class graph, record and
      searches the earlier ones left. */
  method Triples(mode: AddMode, m: Causes, st0: Search, o0: Orienting, order: seq<Rut>, ci: CiTest)
    returns (r: Result<(Orienting, Search)>)
    requires Consistent(o0.g) && SearchOk(st0, ci)
    requires forall t | t in order :: |t.2.path| == 1 && t.2 in m
    ensures r.Err? ==> r.msg == AddRejected
    ensures r.Err? && mode.AsWritten? && Blank(o0.anc) ==> exists t | t in order :: t.0.attrName == t.2.attrName
    ensures r.Ok? ==> OrientedFrom(o0.g.E, r.value.0.g) && SearchOk(r.value.1, ci)
  {
    var o, st := o0, st0;
    EdgeOrientation.SoundStart(o.g.E);
    for i := 0 to |order|
      invariant OrientedFrom(o0.g.E, o.g) && SearchOk(st, ci)
      invariant mode.AsWritten? && Blank(o0.anc) ==> Blank(o.anc)
    {
      var t := order[i];
      var step := OrientTriple(mode, m, st, o, t, ci);
      if step.Err? {
        return Err(step.msg);
      }
      OrientedFromThen(o0.g.E, o.g, step.value.0.g);
      o, st := step.value.0, step.value.1;
    }
    r := Ok((o, st));
  }
}
