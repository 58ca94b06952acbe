/** The rewrite of RCD-Light (RCDLightNew.py): Phase I runs the size
    rounds only up to a depth (given, or the largest number of causes of an
    effect); Phase I can be skipped by handing in the dependencies; Phase II
    grows separating sets up to the depth, marks a triple a non-collider
    without a test when an edge already leaves its middle, adds a directed
    class edge x --> z when no separating set exists and x, z are not
    adjacent, and runs the rule-based orientation of snc_rules.py. */
module RCDLightNew {
  import opened Wrappers
  import opened Collections
  import opened RelVars
  import opened Sepsets
  import opened Parents
  import opened Skeleton
  import opened Pdags
  import opened OrientationRules
  import Schemas
  import EdgeOrientation
  import Space
  import Config
  import RCDLight

  /** The learner: the schema and hop threshold of RCD-Light, an optional
      depth limit on conditioning-set sizes, and the non-colliders found so
      far, which the learner keeps from one orientation run to the next. */
  datatype LightNew = LightNew(light: RCDLight.Light, depth: Option<nat>, nonColliders: set<NonCollider<string>>)

  /** The error `max` raises on an empty sequence. */
  const EmptyMax := "ValueError: max() arg is an empty sequence"

  /** The error `add_edge` raises on a loop (its `assert x != y`). */
  const SelfLoop := "AssertionError"

  /** The constructor: the hop threshold is checked first, then the depth. */
  function NewLightNew(schema: Schemas.Schema, hop: Space.Num, depth: Option<Space.Num>): (r: Result<LightNew>)
    ensures r.Ok? <==> Config.NonNegativeInt(hop) && (depth.None? || Config.NonNegativeInt(depth.value))
    ensures !Config.NonNegativeInt(hop) ==> r == Err(Config.BadHop)
    ensures Config.NonNegativeInt(hop) && r.Err? ==> r.msg == Config.BadDepth
    ensures r.Ok? ==> r.value.light == RCDLight.Light(schema, hop.i)
    ensures r.Ok? ==> r.value.depth == (if depth.None? then None else Some(depth.value.i))
    ensures r.Ok? ==> r.value.nonColliders == {}
  {
    var h :- Config.CheckHop(hop);
    var d :- Config.CheckDepth(depth);
    Ok(LightNew(RCDLight.Light(schema, h), d, {}))
  }

  /** `max(len(v) for v in parents.values())`: the largest number of causes
      of any effect; a ValueError on an empty map. */
  method MaxCauses(m: Causes) returns (r: Result<nat>)
    ensures r.Err? <==> |m| == 0
    ensures r.Err? ==> r.msg == EmptyMax
    ensures r.Ok? ==> (forall e | e in m :: |m[e]| <= r.value) && exists e | e in m :: |m[e]| == r.value
  {
    if |m| == 0 {
      return Err(EmptyMax);
    }
    var w :| w in m;
    var best := |m[w]|;
    var todo := m.Keys - {w};
    while todo != {}
      invariant todo <= m.Keys && w in m && |m[w]| == best
      invariant forall e | e in m && e !in todo :: |m[e]| <= best
      decreases |todo|
    {
      var e :| e in todo;
      if |m[e]| > best {
        w, best := e, |m[e]|;
      }
      todo := todo - {e};
    }
    r := Ok(best);
  }

  /** With the depth at least every effect's number of causes, a test of
      every size up to the depth is a test of every neighbour subset. */
  lemma DepthExhausts(m0: Causes, m: Causes, d: RelDep, depth: nat, ci: CiTest)
    requires Shrinks(m0, m) && d in Deps(m) && TestedBelow(m, d, depth + 1, ci)
    requires forall e | e in m0 :: |m0[e]| <= depth
    ensures Exhausted(m, d, ci)
  {
    SubsetNotLarger(Nb(m, d), m0[d.effect]);
    TestedAll(m, d, depth + 1, ci);
  }

  /** Where the depth-limited rounds stop: after the round at the depth,
      or earlier on an empty worklist. */
  lemma Stopped(pot: set<RelDep>, m0: Causes, m: Causes, tbt: set<RelDep>, s: Search, k: nat, depth: nat, ci: CiTest)
    requires m0 == Group(pot) && Shrinks(m0, m)
    requires RoundInv(pot, m, tbt, m, tbt, tbt, s, k, ci) && (k == depth + 1 || tbt == {})
    ensures Learned(pot, Deps(m), m, s, ci)
    ensures forall d | d in Deps(m) :: Exhausted(m, d, ci) || TestedBelow(m, d, depth + 1, ci)
    ensures (forall e | e in m0 :: |m0[e]| <= depth) ==> forall d | d in Deps(m) :: Exhausted(m, d, ci)
  {
    if forall e | e in m0 :: |m0[e]| <= depth {
      forall d | d in Deps(m) ensures Exhausted(m, d, ci) {
        if d in tbt {
          DepthExhausts(m0, m, d, depth, ci);
        }
      }
    }
  }

  /** One round of Phase I, ready for the next size. */
  method NextSize(pot: set<RelDep>, m0: Causes, m: Causes, tbt: set<RelDep>, st: Search, k: nat, ci: CiTest)
    returns (ok: bool, m': Causes, tbt': set<RelDep>, st': Search)
    requires forall d | d in pot :: Canonical(d)
    requires RoundInv(pot, m, tbt, m, tbt, tbt, st, k, ci) && Shrinks(m0, m)
    ensures !ok ==> !Closed(pot)
    ensures ok ==> RoundInv(pot, m', tbt', m', tbt', tbt', st', k + 1, ci) && Shrinks(m0, m')
  {
    var rr := Round(pot, m, tbt, st, k, ci);
    if rr.Err? {
      return false, m, tbt, st;
    }
    ok, m', tbt', st' := true, rr.value.0, rr.value.1, rr.value.2;
    RCDLight.Progress(pot, m0, m, tbt, m', tbt', st', k, ci);
  }

  /** The `for d in range(depth + 1)` loop of Phase I from size `k` on,
      leaving it early on an empty worklist; it stops in the state `Stopped`
      takes, or reports a KeyError. */
  method Rounds(pot: set<RelDep>, m0: Causes, m: Causes, tbt: set<RelDep>, st: Search, k: nat, depth: nat, ci: CiTest)
    returns (ok: bool, m': Causes, tbt': set<RelDep>, st': Search, k': nat)
    requires forall d | d in pot :: Canonical(d)
    requires RoundInv(pot, m, tbt, m, tbt, tbt, st, k, ci) && Shrinks(m0, m) && k <= depth + 1
    ensures !ok ==> !Closed(pot)
    ensures ok ==> RoundInv(pot, m', tbt', m', tbt', tbt', st', k', ci)
    ensures ok ==> Shrinks(m0, m') && (k' == depth + 1 || tbt' == {})
    decreases depth + 1 - k
  {
    if k > depth || tbt == {} {
      return true, m, tbt, st, k;
    }
    var next, m1, tbt1, st1 := NextSize(pot, m0, m, tbt, st, k, ci);
    if !next {
      return false, m, tbt, st, k;
    }
    ok, m', tbt', st', k' := Rounds(pot, m0, m1, tbt1, st1, k + 1, depth, ci);
  }

  /** The rounds from size 0 on the candidates, up to the depth. */
  method PhaseOne(pot: set<RelDep>, s: Search, depth: nat, ci: CiTest) returns (r: Result<(Causes, Search)>)
    requires forall d | d in pot :: Canonical(d)
    requires SearchOk(s, ci)
    ensures r.Err? ==> r.msg == KeyError && !Closed(pot)
    ensures r.Ok? ==> Learned(pot, Deps(r.value.0), r.value.0, r.value.1, ci)
    ensures r.Ok? ==> forall d | d in Deps(r.value.0) ::
              Exhausted(r.value.0, d, ci) || TestedBelow(r.value.0, d, depth + 1, ci)
    ensures r.Ok? && (forall e | e in Group(pot) :: |Group(pot)[e]| <= depth) ==>
              forall d | d in Deps(r.value.0) :: Exhausted(r.value.0, d, ci)
  {
    var m0 := Group(pot);
    FirstRound(pot, s, ci);
    var ok, m, tbt, st, k := Rounds(pot, m0, m0, pot, s, 0, depth, ci);
    if !ok {
      return Err(KeyError);
    }
    Stopped(pot, m0, m, tbt, st, k, depth, ci);
    r := Ok((m, st));
  }

  /** No effects, no dependencies. */
  lemma NoEffects(deps: set<RelDep>)
    ensures |Group(deps)| == 0 ==> deps == {}
  {
    if d :| d in deps {
      assert d.effect in Group(deps);
    }
  }

  /** `identify_undirected_dependencies`: the rounds at sizes 0 .. depth,
      stopping early once the worklist is empty; with no depth given, the
      depth becomes the largest number of causes, which fails with a
      ValueError when there are no candidates. Every remaining dependency
      has been tested at every size up to the depth, or has had all its
      neighbour subsets tested; with no depth given, always the latter.
      The depth used is returned with the result. */
  method IdentifyUndirected(l: LightNew, s: Search, ci: CiTest)
    returns (r: Result<(set<RelDep>, Causes, Search, nat)>)
    requires SearchOk(s, ci)
    ensures r.Err? ==> ((r.msg == KeyError && !Closed(RCDLight.Potential(l.light)))
                        || (r.msg == EmptyMax && l.depth.None? && RCDLight.Potential(l.light) == {}))
    ensures r.Ok? ==> Learned(RCDLight.Potential(l.light), r.value.0, r.value.1, r.value.2, ci)
    ensures r.Ok? && l.depth.Some? ==> r.value.3 == l.depth.value
    ensures r.Ok? ==> forall d | d in r.value.0 ::
              Exhausted(r.value.1, d, ci) || TestedBelow(r.value.1, d, r.value.3 + 1, ci)
    ensures r.Ok? && l.depth.None? ==> forall d | d in r.value.0 :: Exhausted(r.value.1, d, ci)
  {
    var pot := RCDLight.Potential(l.light);
    var m0 := Group(pot);
    var depth := l.depth;
    if depth.None? {
      var mx := MaxCauses(m0);
      if mx.Err? {
        NoEffects(pot);
        return Err(mx.msg);
      }
      depth := Some(mx.value);
    }
    var rr :- PhaseOne(pot, s, depth.value, ci);
    r := Ok((Deps(rr.0), rr.0, rr.1, depth.value));
  }

  /** `skip_phase_1`: the given dependencies together with their reverses,
      grouped by effect. */
  function SkipPhase1(deps: set<RelDep>): (r: (set<RelDep>, Causes))
    ensures Deps(r.1) == r.0 && r.1.Keys == Effects(r.0) && deps <= r.0
    ensures forall d | d in deps :: Reverse(d) in r.0
    ensures (forall d | d in deps :: Canonical(d)) ==> Closed(r.0)
  {
    var und := deps + set d | d in deps :: Reverse(d);
    assert forall d | d in deps :: Canonical(d) ==> Canonical(Reverse(d)) && Reverse(Reverse(d)) == d by {
      forall d | d in deps && Canonical(d) ensures Canonical(Reverse(d)) && Reverse(Reverse(d)) == d {
        ReverseCanonical(d);
      }
    }
    (und, Group(und))
  }

  /** Skipping Phase I adds nothing beyond what closure under reversal
      demands: every set of canonical dependencies that holds the given ones
      and is closed holds all the undirected dependencies. */
  lemma SkipPhase1Least(deps: set<RelDep>, closed: set<RelDep>)
    requires deps <= closed && Closed(closed)
    ensures SkipPhase1(deps).0 <= closed
  {
  }

  /** `find_record_and_return_sepset`: the recorded separating set if any;
      otherwise sizes 0 .. depth over the effect's other causes, stopping at
      a separating set (recorded) or at a size with no candidates. A set
      found is one of the smallest; when none is found, no set of at most
      the depth separates. */
  method FindRecordAndReturnSepset(m: Causes, s: Search, cause: RelVar, effect: RelVar, depth: nat, ci: CiTest)
    returns (r: Result<Option<set<RelVar>>>, s': Search)
    requires |effect.path| == 1 && SearchOk(s, ci)
    ensures SearchOk(s', ci) && s.sepsets.Keys <= s'.sepsets.Keys
    ensures Skeleton.Key(cause, effect) in s.sepsets ==> r == Ok(Some(s.sepsets[Skeleton.Key(cause, effect)])) && s' == s
    ensures Skeleton.Key(cause, effect) !in s.sepsets ==> (r.Err? <==> effect !in m)
    ensures r.Err? ==> r.msg == KeyError
    ensures Skeleton.Key(cause, effect) !in s.sepsets && r.Ok? && r.value.Some? ==>
              var c := r.value.value;
              && c <= Nb(m, RelDep(cause, effect)) && |c| <= depth && ci(cause, effect, c)
              && (forall c' :: c' <= Nb(m, RelDep(cause, effect)) && |c'| < |c| ==> !ci(cause, effect, c'))
              && s'.sepsets == s.sepsets[Skeleton.Key(cause, effect) := c]
    ensures Skeleton.Key(cause, effect) !in s.sepsets && r.Ok? && r.value.None? ==>
              TestedBelow(m, RelDep(cause, effect), depth + 1, ci) && s'.sepsets == s.sepsets
  {
    var key := Skeleton.Key(cause, effect);
    if key in s.sepsets {
      return Ok(Some(s.sepsets[key])), s;
    }
    if effect !in m {
      return Err(KeyError), s;
    }
    var sepset, cache', _ := GrowSepset(cause, effect, m[effect] - {cause}, Some(depth), s.cache, ci);
    if sepset.Some? {
      RecordKeeps(s.sepsets, cause, effect, sepset.value, ci);
      s' := Search(cache', s.sepsets[key := sepset.value]);
    } else {
      s' := Search(cache', s.sepsets);
    }
    r := Ok(sepset);
  }

  // ---------------------------------------------------------------------
  // Phase II
  // ---------------------------------------------------------------------

  /** The class dependency graph `g` grew from the arcs `E0`: edges were
      only oriented, and every arc not among `E0` is directed and joins two
      attributes `E0` did not make adjacent. */
  ghost predicate Grown<V(!new)>(E0: set<(V, V)>, g: Pdag<V>) {
    && Consistent(g)
    && (forall e | e in E0 && e !in g.E :: (e.1, e.0) in g.E)
    && (forall e | e in g.E && e !in E0 :: (e.1, e.0) !in g.E && (e.1, e.0) !in E0)
  }

  lemma OrientedGrown<V(!new)>(E0: set<(V, V)>, g: Pdag<V>)
    requires OrientedFrom(E0, g)
    ensures Grown(E0, g)
  {
  }

  /** Growing twice in a row is growing. */
  lemma GrownThen<V(!new)>(E0: set<(V, V)>, g1: Pdag<V>, g2: Pdag<V>)
    requires Grown(E0, g1) && Grown(g1.E, g2)
    ensures Grown(E0, g2)
  {
    forall e | e in E0 && e !in g2.E ensures (e.1, e.0) in g2.E {
      if e !in g1.E {
        assert (e.1, e.0) in g1.E;
      }
    }
  }

  /** Adding an arc between two attributes that are not adjacent grows the graph. */
  lemma AddGrown<V(!new)>(g: Pdag<V>, x: V, z: V)
    requires Consistent(g) && x != z && !IsAdj(g, x, z)
    ensures Grown(g.E, AddEdge(g, x, z))
  {
  }

  /** The class graph, the non-colliders found so far, and the rule counter. */
  datatype State = State(g: Pdag<string>, ncs: set<NonCollider<string>>, counter: Counter)

  /** `count(orient(x, y), counter, name)`. */
  function CountedOrient(st: State, x: string, y: string, name: string): (r: State)
    requires Consistent(st.g)
    ensures OrientedFrom(st.g.E, r.g) && r.ncs == st.ncs
    ensures x != y ==> !EdgeOrientation.Undirected(r.g.E, x, y)
    ensures CountAt(r.counter, name) == CountAt(st.counter, name) + (if EdgeOrientation.Undirected(st.g.E, x, y) then 1 else 0)
  {
    OrientOnlyIf(st.g, x, y);
    var (g', changed) := Orient(st.g, x, y);
    State(g', st.ncs, Count(st.counter, changed, name))
  }

  /** The tests that let a triple be skipped: both edges already oriented,
      already a known non-collider (in either order of its ends), or z a
      descendant of x. */
  predicate Skippable(st: State, t: RCDLight.Rut)
    requires Consistent(st.g)
  {
    var (z, y, x) := (t.0.attrName, t.1.attrName, t.2.attrName);
    (IsOriented(st.g, z, y) && IsOriented(st.g, x, y))
    || (y, (x, z)) in st.ncs || (y, (z, x)) in st.ncs
    || z in De(st.g, x)
  }

  /** `rule_based_orient`, when the orientation is simultaneous. */
  method MaybeRules(st: State, simultaneous: bool) returns (r: Result<State>)
    requires Consistent(st.g)
    ensures r.Err? ==> r.msg == Unfeasible && simultaneous
    ensures r.Ok? ==> OrientedFrom(st.g.E, r.value.g) && r.value.ncs == st.ncs
    ensures !simultaneous ==> r == Ok(st)
  {
    if !simultaneous {
      EdgeOrientation.SoundStart(st.g.E);
      return Ok(st);
    }
    var rb := RuleBasedOrient(st.g, st.ncs, st.counter);
    if rb.Err? {
      return Err(rb.msg);
    }
    r := Ok(State(rb.value.0, st.ncs, rb.value.1));
  }

  /** What a triple that is not skipped leaves behind. An edge already
      leaving y makes it a non-collider. Otherwise the separating-set record
      of its ends after the search decides: a set that misses the middle
      orients both edges into it; one that holds it gives y --> x when the
      end attributes agree and a non-collider otherwise; with no set, x --> z
      is oriented when adjacent and added as a new arc when not. */
  ghost predicate Decided(st: State, t: RCDLight.Rut, st': State, seps: SepsetMap)
    requires Consistent(st.g)
  {
    var (z, y, x) := (t.0.attrName, t.1.attrName, t.2.attrName);
    var key := Skeleton.Key(t.0, t.2);
    var early := x != z && (EdgeOrientation.Directed(st.g.E, y, x) || EdgeOrientation.Directed(st.g.E, y, z));
    && (early ==> (y, (x, z)) in st'.ncs)
    && (!early && key in seps && t.1 !in seps[key] && z != y && x != y ==>
          !EdgeOrientation.Undirected(st'.g.E, z, y) && !EdgeOrientation.Undirected(st'.g.E, x, y))
    && (!early && key in seps && t.1 in seps[key] && x == z && y != x ==> !EdgeOrientation.Undirected(st'.g.E, y, x))
    && (!early && key in seps && t.1 in seps[key] && x != z ==> (y, (x, z)) in st'.ncs)
    && (!early && key !in seps && x != z && IsAdj(st.g, x, z) ==> !EdgeOrientation.Undirected(st'.g.E, x, z))
    && (!early && key !in seps && x != z && !IsAdj(st.g, x, z) ==> EdgeOrientation.Directed(st'.g.E, x, z))
  }

  /** One triple of the `phase_2` loop. A skipped triple changes nothing.
      With x and z different and an edge already leaving y, the triple is a
      non-collider without a test. Otherwise the separating set of its ends
      decides: a collider when it misses the middle (or, with x == z, y -->
      x by relational bivariate orientation), a non-collider otherwise; with
      none, x --> z, as an orientation when they are adjacent and as a new
      arc otherwise, which fails on a loop. Then the rules, when
      simultaneous. */
  method OrientTriple(m: Causes, s: Search, st: State, t: RCDLight.Rut, depth: nat, simultaneous: bool, ci: CiTest)
    returns (r: Result<(State, Search)>)
    requires Consistent(st.g) && SearchOk(s, ci)
    requires |t.2.path| == 1 && t.2 in m
    ensures r.Err? ==> r.msg == SelfLoop || r.msg == Unfeasible
    ensures r.Ok? ==> Grown(st.g.E, r.value.0.g) && st.ncs <= r.value.0.ncs
    ensures r.Ok? ==> SearchOk(r.value.1, ci) && s.sepsets.Keys <= r.value.1.sepsets.Keys
    ensures r.Ok? && Skippable(st, t) ==> r.value == (st, s)
    ensures r.Ok? && !Skippable(st, t) ==> Decided(st, t, r.value.0, r.value.1.sepsets)
    ensures r.Err? && r.msg == SelfLoop ==> t.0.attrName == t.2.attrName
  {
    if Skippable(st, t) {
      EdgeOrientation.SoundStart(st.g.E);
      return Ok((st, s));
    }
    var d :- Decide(m, s, st, t, depth, ci);
    var (st1, s') := d;
    var st2 :- MaybeRules(st1, simultaneous);
    OrientedGrown(st1.g.E, st2.g);
    GrownThen(st.g.E, st1.g, st2.g);
    DecidedKept(st, t, st1, st2, s'.sepsets);
    r := Ok((st2, s'));
  }

  /** The body of one triple that is not skipped, before the rules. */
  method Decide(m: Causes, s: Search, st: State, t: RCDLight.Rut, depth: nat, ci: CiTest)
    returns (r: Result<(State, Search)>)
    requires Consistent(st.g) && SearchOk(s, ci)
    requires |t.2.path| == 1 && t.2 in m
    ensures r.Err? ==> r.msg == SelfLoop && t.0.attrName == t.2.attrName
    ensures r.Ok? ==> Grown(st.g.E, r.value.0.g) && st.ncs <= r.value.0.ncs
    ensures r.Ok? ==> SearchOk(r.value.1, ci) && s.sepsets.Keys <= r.value.1.sepsets.Keys
    ensures r.Ok? ==> Decided(st, t, r.value.0, r.value.1.sepsets)
  {
    var (z, y, x) := (t.0.attrName, t.1.attrName, t.2.attrName);
    var s' := s;
    var st1 := st;
    if x != z && (EdgeOrientation.Directed(st.g.E, y, x) || EdgeOrientation.Directed(st.g.E, y, z)) {
      st1 := st.(ncs := st.ncs + {(y, (x, z))});
      EdgeOrientation.SoundStart(st.g.E);
    } else {
      var found;
      found, s' := FindRecordAndReturnSepset(m, s, t.0, t.2, depth, ci);
      match found.value {
        case Some(sep) =>
          if t.1 !in sep {
            var name := if x != z then "CD" else "RBO";
            var a := CountedOrient(st, z, y, name);
            st1 := CountedOrient(a, x, y, name);
            OrientedFromThen(st.g.E, a.g, st1.g);
            RCDLight.Keeps(a.g.E, st1.g, z, y);
          } else if x == z {
            st1 := CountedOrient(st, y, x, "RBO");
          } else {
            st1 := st.(ncs := st.ncs + {(y, (x, z))});
            EdgeOrientation.SoundStart(st.g.E);
          }
        case None =>
          if IsAdj(st.g, x, z) {
            st1 := CountedOrient(st, x, z, "NONE_SEPSET");
          } else if x == z {
            return Err(SelfLoop);
          } else {
            AddGrown(st.g, x, z);
            st1 := st.(g := AddEdge(st.g, x, z));
          }
      }
    }
    if OrientedFrom(st.g.E, st1.g) {
      OrientedGrown(st.g.E, st1.g);
    }
    r := Ok((st1, s'));
  }

  /** What a triple decided survives the rules, which only orient. */
  lemma DecidedKept(st: State, t: RCDLight.Rut, st1: State, st2: State, seps: SepsetMap)
    requires Consistent(st.g) && Decided(st, t, st1, seps)
    requires OrientedFrom(st1.g.E, st2.g) && st2.ncs == st1.ncs
    ensures Decided(st, t, st2, seps)
  {
    var (z, y, x) := (t.0.attrName, t.1.attrName, t.2.attrName);
    RCDLight.Keeps(st1.g.E, st2.g, z, y);
    RCDLight.Keeps(st1.g.E, st2.g, x, y);
    RCDLight.Keeps(st1.g.E, st2.g, y, x);
    RCDLight.Keeps(st1.g.E, st2.g, x, z);
  }

  /** The class dependency graph before the triples: the attribute pairs
      of the undirected dependencies, background knowledge oriented, and the
      rules once when simultaneous, with the non-colliders the learner already
      knows. */
  method StartGraph(m: Causes, bk: Option<seq<(string, string)>>, simultaneous: bool, c: Counter,
                    ncs: set<NonCollider<string>>)
    returns (r: Result<State>)
    requires forall d | d in Deps(m) :: Canonical(d)
    ensures r.Err? ==> r.msg == Unfeasible
    ensures r.Ok? ==> Grown(ClassArcs(m), r.value.g) && r.value.ncs == ncs
  {
    var arcs := Enumerate(ClassArcs(m));
    forall i | 0 <= i < |arcs| ensures arcs[i].0 != arcs[i].1 {
      assert arcs[i] in ClassArcs(m);
    }
    var g := FromEdges(arcs);
    EdgeOrientation.SoundStart(g.E);
    if bk.Some? {
      g := RCDLight.OrientAll(g, bk.value);
    }
    OrientedGrown(ClassArcs(m), g);
    var st :- MaybeRules(State(g, ncs, c), simultaneous);
    OrientedGrown(g.E, st.g);
    GrownThen(ClassArcs(m), g, st.g);
    r := Ok(st);
  }

  /** The `while unshielded_triples` loop over the triples in order. */
  method Triples(m: Causes, s: Search, st: State, order: seq<RCDLight.Rut>, depth: nat, simultaneous: bool, ci: CiTest)
    returns (r: Result<(State, Search)>)
    requires Consistent(st.g) && SearchOk(s, ci)
    requires forall i | 0 <= i < |order| :: |order[i].2.path| == 1 && order[i].2 in m
    ensures r.Err? ==> r.msg == SelfLoop || r.msg == Unfeasible
    ensures r.Ok? ==> Grown(st.g.E, r.value.0.g) && st.ncs <= r.value.0.ncs && SearchOk(r.value.1, ci)
  {
    var cur, search := st, s;
    EdgeOrientation.SoundStart(st.g.E);
    OrientedGrown(st.g.E, st.g);
    for i := 0 to |order|
      invariant Grown(st.g.E, cur.g) && st.ncs <= cur.ncs && SearchOk(search, ci)
    {
      var step :- OrientTriple(m, search, cur, order[i], depth, simultaneous, ci);
      GrownThen(st.g.E, cur.g, step.0.g);
      cur, search := step.0, step.1;
    }
    r := Ok((cur, search));
  }

  /** What `orient_dependencies` hands back. */
  datatype PhaseTwo = PhaseTwo(oriented: set<RelDep>, causes: Causes, search: Search, cdg: Pdag<string>,
                               ncs: set<NonCollider<string>>, counter: Counter)

  /** After the triples: the rules once more, then the orientations
      reflected into the causes map and read back. */
  method Finish(m: Causes, st: State, search: Search) returns (r: Result<PhaseTwo>)
    requires Grown(ClassArcs(m), st.g)
    ensures r.Err? ==> r.msg == Unfeasible || (r.msg == KeyError && !Closed(Deps(m)))
    ensures r.Ok? ==> Grown(ClassArcs(m), r.value.cdg) && r.value.search == search && r.value.ncs == st.ncs
    ensures r.Ok? ==> Rule2Closed(r.value.cdg)
    ensures r.Ok? ==> forall y, x, z | (y, (x, z)) in r.value.ncs ::
              Deletable(r.value.cdg, (y, (x, z))) || (MeekClosed(r.value.cdg.E, x, y, z) && SncR2Closed(r.value.cdg.E, x, y, z))
    ensures r.Ok? ==> r.value.causes == Reflect(m, r.value.cdg.E) && r.value.oriented <= Deps(m)
    ensures r.Ok? && Closed(Deps(m)) ==>
              r.value.oriented == set d | d in Deps(m) && EdgeOrientation.Directed(r.value.cdg.E, d.cause.attrName, d.effect.attrName)
  {
    var rb :- RuleBasedOrient(st.g, st.ncs, st.counter);
    OrientedGrown(st.g.E, rb.0);
    GrownThen(ClassArcs(m), st.g, rb.0);
    var m' := Reflect(m, rb.0.E);
    if Closed(Deps(m)) {
      OrientedExact(m, rb.0.E);
    }
    var out :- Oriented(m');
    r := Ok(PhaseTwo(out, m', search, rb.0, st.ncs, rb.1));
  }

  /** `orient_dependencies`: the depth becomes the largest number of causes
      (a ValueError on an empty map); the class dependency graph over the
      undirected dependencies' attribute pairs, background knowledge
      oriented first; every triple in the cached-first order; the rules once
      more; the orientations reflected into the causes map and read back.
      The class graph ends up grown from the attribute pairs, closed under
      MR2, with every non-collider either settled or closed under MR1, MR3
      and SNC rule 2; on a map closed under reversal the output is exactly
      the undirected dependencies whose attribute edge the class graph
      directs from cause to effect. The run starts from the non-colliders
      the learner already holds and hands back the grown set in `ncs`, for
      the learner to keep for its next run. */
  method OrientDependencies(l: LightNew, m: Causes, s: Search, bk: Option<seq<(string, string)>>,
                            shuffled: seq<RCDLight.Rut>, simultaneous: bool, c: Counter, ci: CiTest)
    returns (r: Result<PhaseTwo>)
    requires SearchOk(s, ci)
    requires forall d | d in Deps(m) :: Canonical(d)
    requires SetOf(shuffled) == RCDLight.Ruts(l.light.schema, Deps(m), m) && PairwiseDistinct(shuffled)
    ensures r.Err? ==> ((r.msg == EmptyMax && |m| == 0) || r.msg == SelfLoop || r.msg == Unfeasible
                        || (r.msg == KeyError && !Closed(Deps(m))))
    ensures r.Ok? ==> Grown(ClassArcs(m), r.value.cdg) && SearchOk(r.value.search, ci)
    ensures r.Ok? ==> l.nonColliders <= r.value.ncs
    ensures r.Ok? ==> Rule2Closed(r.value.cdg)
    ensures r.Ok? ==> forall y, x, z | (y, (x, z)) in r.value.ncs ::
              Deletable(r.value.cdg, (y, (x, z))) || (MeekClosed(r.value.cdg.E, x, y, z) && SncR2Closed(r.value.cdg.E, x, y, z))
    ensures r.Ok? ==> r.value.causes == Reflect(m, r.value.cdg.E) && r.value.oriented <= Deps(m)
    ensures r.Ok? && Closed(Deps(m)) ==>
              r.value.oriented == set d | d in Deps(m) && EdgeOrientation.Directed(r.value.cdg.E, d.cause.attrName, d.effect.attrName)
  {
    var depth :- MaxCauses(m);
    var st :- StartGraph(m, bk, simultaneous, c, l.nonColliders);
    var order := RCDLight.CachedFirst(shuffled, s.sepsets);
    assert forall i | 0 <= i < |order| :: RelDep(order[i].1, order[i].2) in Deps(m) by {
      forall i | 0 <= i < |order| ensures RelDep(order[i].1, order[i].2) in Deps(m) {
        assert order[i] in multiset(shuffled);
      }
    }
    var done :- Triples(m, s, st, order, depth, simultaneous, ci);
    GrownThen(ClassArcs(m), st.g, done.0.g);
    r := Finish(m, done.0, done.1);
  }
}
