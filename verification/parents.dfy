/** The map from each effect to the set of its causes that RCD-Light keeps
    (`_causes` in RCDLight.py, `parents` in RCDLightNew.py), and the
    bookkeeping both drivers do with it: grouping the candidate
    dependencies by effect, unlinking a dependency together with its
    reverse, reflecting the orientations of the class dependency graph,
    and reading the oriented dependencies back out. */
module Parents {
  import opened Wrappers
  import opened RelVars
  import EdgeOrientation

  type Causes = map<RelVar, set<RelVar>>

  /** The error a missing dictionary key or set element raises. */
  const KeyError := "KeyError"

  /** The dependencies a causes map holds: c -> e for every c among e's causes. */
  function Deps(m: Causes): (r: set<RelDep>)
    ensures forall d :: d in r <==> d.effect in m && d.cause in m[d.effect]
  {
    set e, c | e in m && c in m[e] :: RelDep(c, e)
  }

  function Effects(deps: set<RelDep>): set<RelVar> {
    set d | d in deps :: d.effect
  }

  /** `{effect: set(causes) for effect, causes in groupby(sorted(deps), key=effect)}`:
      one key per effect, and the map holds exactly the given dependencies. */
  function Group(deps: set<RelDep>): (m: Causes)
    ensures m.Keys == Effects(deps)
    ensures Deps(m) == deps
  {
    var m := map e | e in Effects(deps) :: set d | d in deps && d.effect == e :: d.cause;
    assert Deps(m) == deps by {
      forall d | d in deps ensures d in Deps(m) {
        assert d.effect in Effects(deps);
      }
    }
    m
  }

  /** The shape of every dependency the library enumerates: the effect is
      the single base item of the cause, and the two attributes differ. */
  predicate Canonical(d: RelDep) {
    d.effect.path == [Base(d.cause)] && d.cause.attrName != d.effect.attrName
  }

  /** A dependency set closed under reversal, of canonical dependencies. */
  ghost predicate Closed(deps: set<RelDep>) {
    forall d | d in deps :: Canonical(d) && Reverse(d) in deps
  }

  /** The reverse of a canonical dependency is canonical, reverses back,
      and is a different dependency. */
  lemma ReverseCanonical(d: RelDep)
    requires Canonical(d)
    ensures Canonical(Reverse(d)) && Reverse(Reverse(d)) == d && Reverse(d) != d
  {
    ReverseInvolution(d);
  }

  /** Reversal is one-to-one on canonical dependencies. */
  lemma ReverseInjective(a: RelDep, b: RelDep)
    requires Canonical(a) && Canonical(b) && Reverse(a) == Reverse(b)
    ensures a == b
  {
    ReverseCanonical(a);
    ReverseCanonical(b);
  }

  /** `causes[d.effect].remove(d.cause)`: fails with a KeyError when the
      effect has no entry or the cause is not among its causes; otherwise
      exactly that dependency is gone. */
  function Unlink(m: Causes, d: RelDep): (r: Result<Causes>)
    ensures r.Ok? <==> d in Deps(m)
    ensures r.Err? ==> r.msg == KeyError
    ensures r.Ok? ==> r.value.Keys == m.Keys && Deps(r.value) == Deps(m) - {d}
    ensures r.Ok? ==> forall e | e in m :: r.value[e] <= m[e]
  {
    if d.effect in m && d.cause in m[d.effect] then
      Ok(m[d.effect := m[d.effect] - {d.cause}])
    else
      Err(KeyError)
  }

  /** The two removals Phase I makes on a separation: the dependency, then
      its reverse. */
  function UnlinkPair(m: Causes, d: RelDep): (r: Result<Causes>)
    ensures r.Ok? <==> d in Deps(m) && Reverse(d) in Deps(m) && Reverse(d) != d
    ensures r.Err? ==> r.msg == KeyError
    ensures r.Ok? ==> r.value.Keys == m.Keys && Deps(r.value) == Deps(m) - {d, Reverse(d)}
    ensures r.Ok? ==> forall e | e in m :: r.value[e] <= m[e]
  {
    var m1 :- Unlink(m, d);
    Unlink(m1, Reverse(d))
  }

  /** On a closed map, unlinking a held dependency with its reverse always
      succeeds and leaves a closed map. */
  lemma UnlinkPairClosed(m: Causes, d: RelDep)
    requires Closed(Deps(m)) && d in Deps(m)
    ensures UnlinkPair(m, d).Ok? && Closed(Deps(UnlinkPair(m, d).value))
  {
    ReverseCanonical(d);
    var r := UnlinkPair(m, d).value;
    forall d' | d' in Deps(r)
      ensures Canonical(d') && Reverse(d') in Deps(r)
    {
      ReverseCanonical(d');
      if Reverse(d') == Reverse(d) {
        ReverseInjective(d', d);
      }
    }
  }

  /** `_reflect_orientations`: drops the cause c of effect e whenever the
      class dependency graph orients e's attribute towards c's. */
  function Reflect(m: Causes, E: set<(string, string)>): (r: Causes)
    ensures r.Keys == m.Keys
    ensures forall d :: d in Deps(r) <==>
              d in Deps(m) && !EdgeOrientation.Directed(E, d.effect.attrName, d.cause.attrName)
  {
    map e | e in m :: set c | c in m[e] && !EdgeOrientation.Directed(E, e.attrName, c.attrName)
  }

  /** `_update_oriented_dependencies` (and the output loop of
      `orient_dependencies`): keeps c -> e when its reverse is no longer
      held. Looking the reverse up raises a KeyError when the reverse's
      effect has no entry. */
  function Oriented(m: Causes): (r: Result<set<RelDep>>)
    ensures r.Ok? ==> r.value <= Deps(m)
    ensures r.Err? ==> r.msg == KeyError
  {
    if forall d | d in Deps(m) :: Reverse(d).effect in m then
      Ok(set d | d in Deps(m) && Reverse(d) !in Deps(m))
    else
      Err(KeyError)
  }

  /** What reflecting and reading back computes on a closed map: exactly
      the held dependencies whose attribute edge the class graph directs
      from cause to effect; none of them with its reverse. */
  lemma OrientedExact(m: Causes, E: set<(string, string)>)
    requires Closed(Deps(m))
    ensures Oriented(Reflect(m, E)).Ok?
    ensures Oriented(Reflect(m, E)).value ==
              set d | d in Deps(m) && EdgeOrientation.Directed(E, d.cause.attrName, d.effect.attrName)
  {
    var r := Reflect(m, E);
    forall d | d in Deps(r) ensures Reverse(d).effect in r {
      assert Reverse(d) in Deps(m);
    }
    var out := Oriented(r).value;
    var want := set d | d in Deps(m) && EdgeOrientation.Directed(E, d.cause.attrName, d.effect.attrName);
    forall d | d in out ensures d in want {
      assert Reverse(d) in Deps(m);
    }
    forall d | d in want ensures d in out {
      ReverseCanonical(d);
    }
  }

  /** Oriented dependencies never come with their reverse. */
  lemma OrientedOneWay(m: Causes, d: RelDep)
    requires forall d' | d' in Deps(m) :: Canonical(d')
    requires Oriented(m).Ok? && d in Oriented(m).value
    ensures Reverse(d) !in Oriented(m).value && Reverse(d) != d
  {
    ReverseCanonical(d);
  }

  /** The attribute-class edges of a causes map: `(c.attrName, e.attrName)`. */
  function ClassArcs(m: Causes): (r: set<(string, string)>)
    ensures forall d | d in Deps(m) :: (d.cause.attrName, d.effect.attrName) in r
  {
    set d | d in Deps(m) :: (d.cause.attrName, d.effect.attrName)
  }

  /** On a closed map every class edge is present in both directions, so
      the class dependency graph starts out undirected. */
  lemma ClassArcsUndirected(m: Causes, a: string, b: string)
    requires Closed(Deps(m)) && (a, b) in ClassArcs(m)
    ensures EdgeOrientation.Undirected(ClassArcs(m), a, b) && a != b
  {
    var d :| d in Deps(m) && (d.cause.attrName, d.effect.attrName) == (a, b);
    assert Reverse(d) in Deps(m);
  }
}
