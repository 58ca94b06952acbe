/** Phase I of RCD-Light, shared by RCDLight.py and RCDLightNew.py: one
    round of tests at a fixed conditioning-set size over the dependencies
    still to be tested. A dependency whose neighbours are too few for the
    size leaves the worklist; one that is separated is unlinked from the
    causes map together with its reverse, and the separating set is
    recorded under the unordered pair of its two variables. */
module Skeleton {
  import opened Wrappers
  import opened Collections
  import opened RelVars
  import opened Sepsets
  import opened Parents
  import Space

  /** `_sepsets` / `sepsets`: keyed by `frozenset({rv1, rv2})`. */
  type SepsetMap = map<set<RelVar>, set<RelVar>>

  function Key(a: RelVar, b: RelVar): set<RelVar> {
    {a, b}
  }

  /** Every recorded set separates its two variables, in one order or the other. */
  ghost predicate Recorded(seps: SepsetMap, ci: CiTest) {
    forall a, b | Key(a, b) in seps :: ci(a, b, seps[Key(a, b)]) || ci(b, a, seps[Key(a, b)])
  }

  /** The CI cache and the recorded separating sets. */
  datatype Search = Search(cache: CiCache, sepsets: SepsetMap)

  ghost predicate SearchOk(s: Search, ci: CiTest) {
    Agrees(s.cache, ci) && Recorded(s.sepsets, ci)
  }

  /** The effect's other causes: `set(causes[effect]) - {cause}`. */
  function Nb(m: Causes, d: RelDep): set<RelVar> {
    SetAt(m, d.effect) - {d.cause}
  }

  /** No conditioning set drawn from the neighbours, smaller than `k`, separates. */
  ghost predicate TestedBelow(m: Causes, d: RelDep, k: nat, ci: CiTest) {
    forall c :: c <= Nb(m, d) && |c| < k ==> !ci(d.cause, d.effect, c)
  }

  /** No conditioning set drawn from the neighbours separates. */
  ghost predicate Exhausted(m: Causes, d: RelDep, ci: CiTest) {
    forall c :: c <= Nb(m, d) ==> !ci(d.cause, d.effect, c)
  }

  /** A separating set is recorded for the dependency or for its reverse. */
  ghost predicate Removed(seps: SepsetMap, d: RelDep) {
    Key(d.cause, d.effect) in seps || Key(Reverse(d).cause, Reverse(d).effect) in seps
  }

  /** Same keys, and every effect's causes only shrink. */
  ghost predicate Shrinks(m0: Causes, m: Causes) {
    m.Keys == m0.Keys && forall e | e in m0 :: m[e] <= m0[e]
  }

  /** Every dependency the library enumerates without existence variables
      is canonical. */
  lemma SpaceCanonical(s: Schemas.Schema, vars: seq<RelVar>, d: RelDep)
    requires d in Space.DepsOf(s, false, vars, vars)
    ensures Canonical(d)
  {
    assert Space.Keeps(s, false, d.cause, d.effect);
    assert d.effect.path == [Base(d.effect)];
  }

  /** Tests below a size that reaches past the neighbours cover them all. */
  lemma TestedAll(m: Causes, d: RelDep, k: nat, ci: CiTest)
    requires TestedBelow(m, d, k, ci) && |Nb(m, d)| < k
    ensures Exhausted(m, d, ci)
  {
    forall c | c <= Nb(m, d) ensures !ci(d.cause, d.effect, c) {
      SubsetNotLarger(c, Nb(m, d));
    }
  }

  /** Recording a separating set keeps every record sound. */
  lemma RecordKeeps(seps: SepsetMap, cause: RelVar, effect: RelVar, c: set<RelVar>, ci: CiTest)
    requires Recorded(seps, ci) && ci(cause, effect, c)
    ensures Recorded(seps[Key(cause, effect) := c], ci)
  {
    var seps' := seps[Key(cause, effect) := c];
    forall x, y | Key(x, y) in seps'
      ensures ci(x, y, seps'[Key(x, y)]) || ci(y, x, seps'[Key(x, y)])
    {
      if Key(x, y) != Key(cause, effect) {
        assert Key(x, y) in seps;
      } else if x != cause {
        assert x == effect && y == cause;
      }
    }
  }

  /** `_find_sepset_with_size` (RCDLight.py) and `find_sepset`
      (RCDLightNew.py): the size-`size` search over the effect's other
      causes. Looking the effect up fails with a KeyError when it has no
      entry. A separating set found is recorded under the pair; nothing else
      is recorded. */
  method SepsetWithSize(m: Causes, s: Search, cause: RelVar, effect: RelVar, size: nat, ci: CiTest)
    returns (r: Result<(Option<set<RelVar>>, bool)>, s': Search, asked: seq<set<RelVar>>)
    requires |effect.path| == 1
    requires SearchOk(s, ci)
    ensures SearchOk(s', ci) && s.sepsets.Keys <= s'.sepsets.Keys
    ensures r.Err? <==> effect !in m
    ensures r.Err? ==> r.msg == KeyError && s' == s
    ensures r.Ok? ==> (r.value.1 <==> size <= |Nb(m, RelDep(cause, effect))|)
    ensures r.Ok? && r.value.0.Some? ==>
              var c := r.value.0.value;
              && c in Candidates(Nb(m, RelDep(cause, effect)), size) && ci(cause, effect, c)
              && s'.sepsets == s.sepsets[Key(cause, effect) := c]
    ensures r.Ok? && r.value.0.None? ==>
              && s'.sepsets == s.sepsets
              && forall c :: c in Candidates(Nb(m, RelDep(cause, effect)), size) ==> !ci(cause, effect, c)
    ensures r.Ok? ==> AskedOnce(s.cache, s'.cache, cause, effect, asked, ci)
  {
    if effect !in m {
      return Err(KeyError), s, [];
    }
    var nb := m[effect] - {cause};
    var sepset, tested, cache', a := FindSepsetWithSize(cause, effect, nb, size, s.cache, ci);
    asked := a;
    if sepset.Some? {
      RecordKeeps(s.sepsets, cause, effect, sepset.value, ci);
      s' := Search(cache', s.sepsets[Key(cause, effect) := sepset.value]);
    } else {
      s' := Search(cache', s.sepsets);
    }
    r := Ok((sepset, tested));
  }

  /** The state part-way through a round at size `k` that started from the
      map `m0` and the worklist `tbt0`, with `todo` still to visit: the
      search state is sound; every dependency gone from the map has a
      recorded separating set; every dependency off the worklist has had
      all its neighbour subsets tested; the ones on it have had every size
      below `k` tested, and `k` as well once visited, which a visited one
      survives only if its neighbours were at least `k` at the round's
      start. Closure under reversal survives. */
  ghost predicate RoundInv(pot: set<RelDep>, m0: Causes, tbt0: set<RelDep>, m: Causes, tbt: set<RelDep>,
                           todo: set<RelDep>, s: Search, k: nat, ci: CiTest) {
    && SearchOk(s, ci)
    && Deps(m) <= pot && tbt <= Deps(m) && tbt <= tbt0 && todo <= tbt0
    && Shrinks(m0, m)
    && (forall d | d in pot - Deps(m) :: Removed(s.sepsets, d))
    && (forall d | d in Deps(m) - tbt :: Exhausted(m, d, ci))
    && (forall d | d in tbt && d in todo :: TestedBelow(m, d, k, ci))
    && (forall d | d in tbt && d !in todo :: TestedBelow(m, d, k + 1, ci) && k <= |SetAt(m0, d.effect)|)
    && (Closed(pot) ==> Closed(Deps(m)))
  }

  /** Fewer causes keep every test result. */
  lemma ShrinkKeeps(m: Causes, m': Causes, d: RelDep, k: nat, ci: CiTest)
    requires Shrinks(m, m')
    ensures TestedBelow(m, d, k, ci) ==> TestedBelow(m', d, k, ci)
    ensures Exhausted(m, d, ci) ==> Exhausted(m', d, ci)
  {
    assert Nb(m', d) <= Nb(m, d);
  }

  lemma ShrinksTrans(m0: Causes, m1: Causes, m2: Causes)
    requires Shrinks(m0, m1) && Shrinks(m1, m2)
    ensures Shrinks(m0, m2)
  {
  }

  /** A visited dependency with too few neighbours for the size leaves the worklist. */
  lemma VisitDropped(pot: set<RelDep>, m0: Causes, tbt0: set<RelDep>, m: Causes, tbt: set<RelDep>,
                     todo: set<RelDep>, s: Search, s': Search, k: nat, dep: RelDep, ci: CiTest)
    requires RoundInv(pot, m0, tbt0, m, tbt, todo, s, k, ci) && dep in todo && dep in tbt
    requires SearchOk(s', ci) && s.sepsets.Keys <= s'.sepsets.Keys
    requires |Nb(m, dep)| < k
    ensures RoundInv(pot, m0, tbt0, m, tbt - {dep}, todo - {dep}, s', k, ci)
  {
    TestedAll(m, dep, k, ci);
  }

  /** A visited dependency no set of size `k` separates stays, tested up to `k`. */
  lemma VisitKept(pot: set<RelDep>, m0: Causes, tbt0: set<RelDep>, m: Causes, tbt: set<RelDep>,
                  todo: set<RelDep>, s: Search, s': Search, k: nat, dep: RelDep, ci: CiTest)
    requires RoundInv(pot, m0, tbt0, m, tbt, todo, s, k, ci) && dep in todo && dep in tbt
    requires SearchOk(s', ci) && s.sepsets.Keys <= s'.sepsets.Keys
    requires k <= |Nb(m, dep)|
    requires forall c :: c in Candidates(Nb(m, dep), k) ==> !ci(dep.cause, dep.effect, c)
    ensures RoundInv(pot, m0, tbt0, m, tbt, todo - {dep}, s', k, ci)
  {
    SubsetNotLarger(SetAt(m, dep.effect), SetAt(m0, dep.effect));
    forall c | c <= Nb(m, dep) && |c| < k + 1 ensures !ci(dep.cause, dep.effect, c) {
      assert |c| < k || c in Candidates(Nb(m, dep), k);
    }
  }

  /** A separated dependency leaves the map and the worklist with its reverse. */
  lemma VisitSeparated(pot: set<RelDep>, m0: Causes, tbt0: set<RelDep>, m: Causes, tbt: set<RelDep>,
                       todo: set<RelDep>, s: Search, s': Search, k: nat, dep: RelDep, ci: CiTest)
    requires forall d | d in pot :: Canonical(d)
    requires RoundInv(pot, m0, tbt0, m, tbt, todo, s, k, ci) && dep in todo && dep in tbt
    requires SearchOk(s', ci) && s.sepsets.Keys <= s'.sepsets.Keys && Key(dep.cause, dep.effect) in s'.sepsets
    requires UnlinkPair(m, dep).Ok?
    ensures RoundInv(pot, m0, tbt0, UnlinkPair(m, dep).value, tbt - {dep, Reverse(dep)}, todo - {dep}, s', k, ci)
  {
    ReverseCanonical(dep);
    var m' := UnlinkPair(m, dep).value;
    if Closed(pot) {
      UnlinkPairClosed(m, dep);
    }
    forall d | d in Deps(m)
      ensures TestedBelow(m, d, k, ci) ==> TestedBelow(m', d, k, ci)
      ensures TestedBelow(m, d, k + 1, ci) ==> TestedBelow(m', d, k + 1, ci)
      ensures Exhausted(m, d, ci) ==> Exhausted(m', d, ci)
    {
      ShrinkKeeps(m, m', d, k, ci);
      ShrinkKeeps(m, m', d, k + 1, ci);
    }
    ShrinksTrans(m0, m, m');
    forall d | d in pot - Deps(m') ensures Removed(s'.sepsets, d) {
      if d == Reverse(dep) {
        assert Reverse(d) == dep;
      } else if d != dep {
        assert Removed(s.sepsets, d);
      }
    }
  }

  /** Visiting one dependency of the round's snapshot (the body of the
      remove-safe loop). */
  method Visit(pot: set<RelDep>, m0: Causes, tbt0: set<RelDep>, m: Causes, tbt: set<RelDep>,
               todo: set<RelDep>, s: Search, k: nat, dep: RelDep, ci: CiTest)
    returns (r: Result<(Causes, set<RelDep>, Search)>)
    requires forall d | d in pot :: Canonical(d)
    requires RoundInv(pot, m0, tbt0, m, tbt, todo, s, k, ci) && dep in todo
    ensures r.Err? ==> r.msg == KeyError && !Closed(pot)
    ensures r.Ok? ==> RoundInv(pot, m0, tbt0, r.value.0, r.value.1, todo - {dep}, r.value.2, k, ci)
  {
    if dep !in tbt {
      return Ok((m, tbt, s));
    }
    var res, s', _ := SepsetWithSize(m, s, dep.cause, dep.effect, k, ci);
    var (sepset, tested) := res.value;
    if !tested {
      VisitDropped(pot, m0, tbt0, m, tbt, todo, s, s', k, dep, ci);
      return Ok((m, tbt - {dep}, s'));
    }
    if sepset.None? {
      VisitKept(pot, m0, tbt0, m, tbt, todo, s, s', k, dep, ci);
      return Ok((m, tbt, s'));
    }
    var u := UnlinkPair(m, dep);
    if u.Err? {
      if Closed(pot) {
        UnlinkPairClosed(m, dep);
      }
      return Err(u.msg);
    }
    VisitSeparated(pot, m0, tbt0, m, tbt, todo, s, s', k, dep, ci);
    r := Ok((u.value, tbt - {dep, Reverse(dep)}, s'));
  }

  /** One round at size `k`: every dependency on the worklist is visited
      once, in any order. Afterwards every dependency still on the worklist
      has had the sizes up to `k` tested, and had at least `k` neighbours at
      the round's start. */
  method Round(pot: set<RelDep>, m: Causes, tbt: set<RelDep>, s: Search, k: nat, ci: CiTest)
    returns (r: Result<(Causes, set<RelDep>, Search)>)
    requires forall d | d in pot :: Canonical(d)
    requires RoundInv(pot, m, tbt, m, tbt, tbt, s, k, ci)
    ensures r.Err? ==> r.msg == KeyError && !Closed(pot)
    ensures r.Ok? ==> RoundInv(pot, m, tbt, r.value.0, r.value.1, {}, r.value.2, k, ci)
  {
    var todo := tbt;
    var m', tbt', s' := m, tbt, s;
    while todo != {}
      invariant RoundInv(pot, m, tbt, m', tbt', todo, s', k, ci)
      decreases |todo|
    {
      var dep :| dep in todo;
      var v := Visit(pot, m, tbt, m', tbt', todo, s', k, dep, ci);
      if v.Err? {
        return Err(v.msg);
      }
      todo := todo - {dep};
      m', tbt', s' := v.value.0, v.value.1, v.value.2;
    }
    r := Ok((m', tbt', s'));
  }

  /** A finished round starts the next one, at the next size, from where it ended. */
  lemma NextRound(pot: set<RelDep>, m0: Causes, tbt0: set<RelDep>, m: Causes, tbt: set<RelDep>,
                  s: Search, k: nat, ci: CiTest)
    requires RoundInv(pot, m0, tbt0, m, tbt, {}, s, k, ci)
    ensures RoundInv(pot, m, tbt, m, tbt, tbt, s, k + 1, ci)
    ensures forall d | d in tbt :: k <= |SetAt(m0, d.effect)|
  {
  }

  /** What Phase I leaves behind: the undirected dependencies are the ones
      the causes map still holds, drawn from the candidates, with one entry
      per candidate effect; the search state is sound; every candidate that
      was dropped has a recorded separating set, for itself or its reverse;
      and closure under reversal survives. */
  ghost predicate Learned(pot: set<RelDep>, und: set<RelDep>, m: Causes, s: Search, ci: CiTest) {
    && und == Deps(m) && und <= pot && m.Keys == Effects(pot)
    && SearchOk(s, ci)
    && (forall d | d in pot - und :: Removed(s.sepsets, d))
    && (Closed(pot) ==> Closed(und))
  }

  /** Phase I's starting point: every candidate on the worklist and in the map. */
  lemma FirstRound(pot: set<RelDep>, s: Search, ci: CiTest)
    requires SearchOk(s, ci)
    ensures RoundInv(pot, Group(pot), pot, Group(pot), pot, pot, s, 0, ci)
  {
  }

  /** An empty worklist after a round is a finished Phase I. */
  lemma LastRound(pot: set<RelDep>, m0: Causes, m: Causes, s: Search, k: nat, ci: CiTest)
    requires RoundInv(pot, m, {}, m, {}, {}, s, k, ci) && Shrinks(Group(pot), m)
    ensures Learned(pot, Deps(m), m, s, ci)
    ensures forall d | d in Deps(m) :: Exhausted(m, d, ci)
  {
  }
}
