/** Phase I of RCD (`identifyUndirectedDependencies` in RCD.py): starting
    from every candidate dependency within the hop threshold and one
    abstract ground graph per perspective, test each remaining dependency
    at conditioning-set sizes 0, 1, ... up to the depth, drawing the sets
    from the effect's neighbours in its graph. A separated dependency is
    dropped from the list together with its reverse, its separating set is
    recorded under both orders of the pair, and its edges are removed from
    every graph, at once or, order-independently, at the end of the size.
    A size at which no set could be tried at all ends the search. */
module RCDPhaseOne {
  import opened Wrappers
  import opened Collections
  import opened Schemas
  import opened RelVars
  import opened Sepsets
  import opened AGGs
  import opened RCD
  import Parents
  import Skeleton
  import Space

  /** What Phase I updates as it goes: the graphs, the separating sets, the
      CI cache, the remaining dependencies (a list, as in the source, that
      may hold a dependency twice) and, order-independently, the separated
      dependencies whose edges are still to be removed. */
  datatype State = State(aggs: Aggs, seps: SepsetTable, cache: CiCache,
                         remaining: seq<RelDep>, pending: seq<RelDep>)

  /** The neighbour bound of Phase I: paths of at most one more item than
      the hop threshold. */
  function PhaseOneLimit(hop: nat): Option<nat> {
    Some(hop + 1)
  }

  /** Both orders of every recorded pair carry the same set, and it
      separates the pair in one order or the other. */
  ghost predicate SepsSound(seps: SepsetTable, ci: CiTest) {
    forall k | k in seps :: (k.1, k.0) in seps && seps[(k.1, k.0)] == seps[k]
                            && (ci(k.0, k.1, seps[k]) || ci(k.1, k.0, seps[k]))
  }

  /** A separating set is recorded for the dependency or for its reverse. */
  predicate Removed(seps: SepsetTable, d: RelDep) {
    (d.cause, d.effect) in seps || (Reverse(d).cause, Reverse(d).effect) in seps
  }

  /** The candidates removed so far. */
  function Dropped(pot: set<RelDep>, seps: SepsetTable): set<RelDep> {
    set d | d in pot && Removed(seps, d)
  }

  /** The dependencies of a list and their reverses. */
  function Both(ds: seq<RelDep>): set<RelDep> {
    SetOf(ds) + set d | d in ds :: Reverse(d)
  }

  /** No graph carries any of `ds`. */
  ghost predicate Gone(aggs: Aggs, ds: set<RelDep>) {
    forall p | p in aggs :: Untagged(aggs[p], ds)
  }

  /** No set of fewer than `k` of the effect's current neighbours separates
      the dependency. */
  ghost predicate TestedBelow(aggs: Aggs, d: RelDep, k: nat, limit: Option<nat>, ci: CiTest) {
    forall c :: c <= Nb(aggs, d.cause, d.effect, limit) && |c| < k ==> !ci(d.cause, d.effect, c)
  }

  /** No set of the effect's current neighbours separates the dependency. */
  ghost predicate Exhausted(aggs: Aggs, d: RelDep, limit: Option<nat>, ci: CiTest) {
    forall c :: c <= Nb(aggs, d.cause, d.effect, limit) ==> !ci(d.cause, d.effect, c)
  }

  /** Every candidate is canonical, so a dependency's reverse reverses back. */
  ghost predicate Canon(pot: set<RelDep>) {
    forall d | d in pot :: Parents.Canonical(d)
  }

  /** The cache and the records are sound. */
  ghost predicate Records(st: State, ci: CiTest) {
    Agrees(st.cache, ci) && SepsSound(st.seps, ci)
  }

  /** The remaining dependencies are candidates, every candidate gone from
      the list has been removed, and so has every pending one. */
  ghost predicate Lists(pot: set<RelDep>, st: State) {
    && SetOf(st.remaining) <= pot && pot - SetOf(st.remaining) <= Dropped(pot, st.seps)
    && Both(st.pending) <= Dropped(pot, st.seps)
  }

  /** The graphs have lost only the tags of removed candidates, and all of
      them except those still pending. */
  ghost predicate Graphs(pot: set<RelDep>, aggs0: Aggs, st: State) {
    && AllWf(st.aggs) && Thinned(aggs0, st.aggs, Dropped(pot, st.seps))
    && Gone(st.aggs, Dropped(pot, st.seps) - Both(st.pending))
  }

  /** What holds throughout Phase I, against the candidates `pot` and the
      graphs `aggs0` it started from. */
  ghost predicate Sound(pot: set<RelDep>, aggs0: Aggs, st: State, ci: CiTest) {
    Records(st, ci) && Lists(pot, st) && Graphs(pot, aggs0, st)
  }

  /** What a round at size `k` knows about the remaining dependencies: each
      was removed or no smaller set separates it; the ones visited so far
      (`snap[..i]`) have had size `k` tried as well; and, while no set has
      been tried this round, each visited one has fewer than `k`
      neighbours. */
  ghost predicate Progress(st: State, snap: seq<RelDep>, i: nat, k: nat, tested: bool, limit: Option<nat>, ci: CiTest) {
    && i <= |snap| && SetOf(st.remaining) <= SetOf(snap)
    && (forall d | d in SetOf(st.remaining) :: Removed(st.seps, d) || TestedBelow(st.aggs, d, k, limit, ci))
    && (forall d | d in SetOf(st.remaining) && d in snap[..i] ::
          Removed(st.seps, d) || TestedBelow(st.aggs, d, k + 1, limit, ci))
    && (!tested ==> forall d | d in SetOf(st.remaining) && d in snap[..i] ::
                      |Nb(st.aggs, d.cause, d.effect, limit)| < k)
  }

  // ---------------------------------------------------------------------------
  // Facts the steps share.

  /** Thinning the graphs keeps every test result, and removal records only grow. */
  lemma TestedThinned(a0: Aggs, a: Aggs, x: set<RelDep>, d: RelDep, k: nat, limit: Option<nat>, ci: CiTest)
    requires Thinned(a0, a, x)
    ensures TestedBelow(a0, d, k, limit, ci) ==> TestedBelow(a, d, k, limit, ci)
    ensures |Nb(a, d.cause, d.effect, limit)| <= |Nb(a0, d.cause, d.effect, limit)|
  {
    NbThinned(a0, a, x, d.cause, d.effect, limit);
    SubsetNotLarger(Nb(a, d.cause, d.effect, limit), Nb(a0, d.cause, d.effect, limit));
  }

  /** Progress survives thinner graphs, more records and a shorter list. */
  lemma ProgressKept(st: State, st': State, x: set<RelDep>, snap: seq<RelDep>, i: nat, k: nat,
                     tested: bool, limit: Option<nat>, ci: CiTest)
    requires Progress(st, snap, i, k, tested, limit, ci)
    requires Thinned(st.aggs, st'.aggs, x) && st.seps.Keys <= st'.seps.Keys
    requires SetOf(st'.remaining) <= SetOf(st.remaining)
    ensures Progress(st', snap, i, k, tested, limit, ci)
  {
    forall d | d in SetOf(st'.remaining)
      ensures Removed(st'.seps, d) || TestedBelow(st'.aggs, d, k, limit, ci)
      ensures d in snap[..i] ==> Removed(st'.seps, d) || TestedBelow(st'.aggs, d, k + 1, limit, ci)
      ensures d in snap[..i] && !tested ==> |Nb(st'.aggs, d.cause, d.effect, limit)| < k
    {
      TestedThinned(st.aggs, st'.aggs, x, d, k, limit, ci);
      TestedThinned(st.aggs, st'.aggs, x, d, k + 1, limit, ci);
    }
  }

  /** The records only grow, so the removed candidates only grow. */
  lemma DroppedGrows(pot: set<RelDep>, seps: SepsetTable, seps': SepsetTable)
    requires seps.Keys <= seps'.Keys
    ensures Dropped(pot, seps) <= Dropped(pot, seps')
  {
  }

  /** One more dependency visited, changing nothing. */
  lemma SnapStep(snap: seq<RelDep>, i: nat, d: RelDep)
    requires i < |snap|
    ensures d in snap[..i + 1] <==> d in snap[..i] || d == snap[i]
  {
    assert snap[..i + 1] == snap[..i] + [snap[i]];
  }

  // ---------------------------------------------------------------------------
  // Visiting one dependency.

  /** A dependency no longer on the list is passed over. */
  lemma SkipStep(st: State, snap: seq<RelDep>, i: nat, k: nat, tested: bool, limit: Option<nat>, ci: CiTest)
    requires Progress(st, snap, i, k, tested, limit, ci) && i < |snap| && snap[i] !in st.remaining
    ensures Progress(st, snap, i + 1, k, tested, limit, ci)
  {
    forall e | e in SetOf(st.remaining) ensures e in snap[..i + 1] ==> e in snap[..i] {
      SnapStep(snap, i, e);
    }
  }

  /** Trying every set of size `k` extends what has been tried by one size. */
  lemma TestedOneMore(aggs: Aggs, d: RelDep, k: nat, limit: Option<nat>, ci: CiTest)
    requires TestedBelow(aggs, d, k, limit, ci)
    requires forall c :: c in Candidates(Nb(aggs, d.cause, d.effect, limit), k) ==> !ci(d.cause, d.effect, c)
    ensures TestedBelow(aggs, d, k + 1, limit, ci)
  {
    var nb := Nb(aggs, d.cause, d.effect, limit);
    forall c | c <= nb && |c| < k + 1 ensures !ci(d.cause, d.effect, c) {
      if |c| == k {
        assert c in Candidates(nb, k);
      }
    }
  }

  /** A visited dependency that no set of size `k` separates has had size
      `k` tried, or has too few neighbours for it. */
  lemma KeptProgress(st: State, snap: seq<RelDep>, i: nat, k: nat, tested: bool, t: bool,
                     limit: Option<nat>, ci: CiTest)
    requires Progress(st, snap, i, k, tested, limit, ci) && i < |snap| && snap[i] in st.remaining
    requires var d := snap[i]; t <==> k <= |Nb(st.aggs, d.cause, d.effect, limit)|
    requires var d := snap[i];
             forall c :: c in Candidates(Nb(st.aggs, d.cause, d.effect, limit), k) ==> !ci(d.cause, d.effect, c)
    ensures Progress(st, snap, i + 1, k, tested || t, limit, ci)
  {
    var d := snap[i];
    if !Removed(st.seps, d) {
      TestedOneMore(st.aggs, d, k, limit, ci);
    }
    forall e | e in SetOf(st.remaining) ensures e in snap[..i + 1] ==> e in snap[..i] || e == d {
      SnapStep(snap, i, e);
    }
  }

  /** The state after visiting a dependency that stays. */
  lemma KeptStep(pot: set<RelDep>, aggs0: Aggs, st: State, snap: seq<RelDep>, i: nat, k: nat, tested: bool,
                 t: bool, limit: Option<nat>, cache': CiCache, ci: CiTest)
    requires Sound(pot, aggs0, st, ci) && Progress(st, snap, i, k, tested, limit, ci)
    requires i < |snap| && snap[i] in st.remaining && Agrees(cache', ci)
    requires var d := snap[i]; t <==> k <= |Nb(st.aggs, d.cause, d.effect, limit)|
    requires var d := snap[i];
             forall c :: c in Candidates(Nb(st.aggs, d.cause, d.effect, limit), k) ==> !ci(d.cause, d.effect, c)
    ensures Sound(pot, aggs0, st.(cache := cache'), ci)
    ensures Progress(st.(cache := cache'), snap, i + 1, k, tested || t, limit, ci)
  {
    KeptProgress(st, snap, i, k, tested, t, limit, ci);
    ProgressCache(st, cache', snap, i + 1, k, tested || t, limit, ci);
    CacheStep(pot, aggs0, st, cache', ci);
  }

  /** A new cache that agrees with the tester keeps everything sound. */
  lemma CacheStep(pot: set<RelDep>, aggs0: Aggs, st: State, cache': CiCache, ci: CiTest)
    requires Sound(pot, aggs0, st, ci) && Agrees(cache', ci)
    ensures Sound(pot, aggs0, st.(cache := cache'), ci)
  {
  }

  /** Progress does not look at the cache. */
  lemma ProgressCache(st: State, cache': CiCache, snap: seq<RelDep>, i: nat, k: nat, tested: bool,
                      limit: Option<nat>, ci: CiTest)
    requires Progress(st, snap, i, k, tested, limit, ci)
    ensures Progress(st.(cache := cache'), snap, i, k, tested, limit, ci)
  {
  }

  /** Recording a separating set under both orders keeps the records sound. */
  lemma RecordBoth(seps: SepsetTable, d: RelDep, s: set<RelVar>, ci: CiTest)
    requires SepsSound(seps, ci) && ci(d.cause, d.effect, s)
    ensures SepsSound(seps[(d.cause, d.effect) := s][(d.effect, d.cause) := s], ci)
  {
  }

  /** The records after separating `d`. */
  function Record(seps: SepsetTable, d: RelDep, s: set<RelVar>): (r: SepsetTable)
    ensures r.Keys == seps.Keys + {(d.cause, d.effect), (d.effect, d.cause)}
    ensures r[(d.cause, d.effect)] == s && r[(d.effect, d.cause)] == s
  {
    seps[(d.cause, d.effect) := s][(d.effect, d.cause) := s]
  }

  /** A dependency whose cause is a single item is the swap of its reverse. */
  lemma SwapIsReverse(d: RelDep)
    requires Parents.Canonical(d) && |d.cause.path| == 1
    ensures Reverse(d) == RelDep(d.effect, d.cause)
  {
  }

  /** The only canonical dependencies that the two keys recorded for `d`
      remove are `d` and its reverse. */
  lemma NewKeyIsPair(d: RelDep, e: RelDep)
    requires Parents.Canonical(d) && Parents.Canonical(e)
    requires var ks := {(d.cause, d.effect), (d.effect, d.cause)};
             (e.cause, e.effect) in ks || (Reverse(e).cause, Reverse(e).effect) in ks
    ensures e == d || e == Reverse(d)
  {
    Parents.ReverseCanonical(d);
    Parents.ReverseCanonical(e);
    if (e.cause, e.effect) == (d.effect, d.cause) {
      SwapIsReverse(d);
    } else if (Reverse(e).cause, Reverse(e).effect) == (d.cause, d.effect) {
      assert Reverse(e) == d;
    } else if (Reverse(e).cause, Reverse(e).effect) == (d.effect, d.cause) {
      SwapIsReverse(d);
      Parents.ReverseInjective(e, d);
    }
  }

  /** Separating `d` removes exactly `d` and its reverse. */
  lemma DroppedAfter(pot: set<RelDep>, seps: SepsetTable, d: RelDep, s: set<RelVar>)
    requires Canon(pot) && d in pot && Reverse(d) in pot
    ensures Dropped(pot, Record(seps, d, s)) == Dropped(pot, seps) + {d, Reverse(d)}
  {
    var seps' := Record(seps, d, s);
    Parents.ReverseCanonical(d);
    assert Removed(seps', d) && Removed(seps', Reverse(d));
    forall e | e in Dropped(pot, seps') ensures e in Dropped(pot, seps) + {d, Reverse(d)} {
      if !Removed(seps, e) {
        NewKeyIsPair(d, e);
      }
    }
  }

  /** The lists after separating `d` and taking it and its reverse off. */
  lemma ListsStep(pot: set<RelDep>, st: State, d: RelDep, s: set<RelVar>, rem: seq<RelDep>)
    requires Canon(pot) && Lists(pot, st) && d in st.remaining && Reverse(d) in st.remaining
    requires SetOf(rem) <= SetOf(st.remaining)
    requires forall e | e in SetOf(st.remaining) - SetOf(rem) :: e == d || e == Reverse(d)
    ensures Lists(pot, st.(seps := Record(st.seps, d, s), remaining := rem))
    ensures Dropped(pot, Record(st.seps, d, s)) == Dropped(pot, st.seps) + {d, Reverse(d)}
  {
    DroppedAfter(pot, st.seps, d, s);
    var x := Dropped(pot, Record(st.seps, d, s));
    forall e | e in pot - SetOf(rem) ensures e in x {
      if e in SetOf(st.remaining) {
        assert e in SetOf(st.remaining) - SetOf(rem);
      }
    }
  }

  /** Progress after separating `d` and taking it and its reverse off. */
  lemma SeparatedProgress(st: State, snap: seq<RelDep>, i: nat, k: nat, tested: bool, limit: Option<nat>,
                          s: set<RelVar>, rem: seq<RelDep>, ci: CiTest)
    requires Progress(st, snap, i, k, tested, limit, ci) && i < |snap| && SetOf(rem) <= SetOf(st.remaining)
    ensures Progress(st.(seps := Record(st.seps, snap[i], s), remaining := rem), snap, i + 1, k, true, limit, ci)
  {
    var d := snap[i];
    var st1 := st.(seps := Record(st.seps, d, s), remaining := rem);
    ThinnedRefl(st.aggs, {});
    ProgressKept(st, st1, {}, snap, i, k, tested, limit, ci);
    forall e | e in SetOf(rem) ensures e in snap[..i + 1] ==> e in snap[..i] || e == d {
      SnapStep(snap, i, e);
    }
  }

  /** Visiting `snap[i]` at size `k` (the body of the inner loop of
      lines 65-84 of the source). */
  method Visit(pot: set<RelDep>, aggs0: Aggs, st: State, snap: seq<RelDep>, i: nat, k: nat, tested: bool,
               limit: Option<nat>, oi: bool, ci: CiTest)
    returns (r: Result<(State, bool)>)
    requires Canon(pot) && Sound(pot, aggs0, st, ci) && Progress(st, snap, i, k, tested, limit, ci)
    requires i < |snap| && (!oi ==> st.pending == [])
    ensures r.Err? ==> r.msg in {Parents.KeyError, NotInDigraph, NotInList}
    ensures r.Ok? ==> Sound(pot, aggs0, r.value.0, ci) && Progress(r.value.0, snap, i + 1, k, r.value.1, limit, ci)
    ensures r.Ok? ==> SetOf(r.value.0.remaining) <= SetOf(st.remaining) && (!oi ==> r.value.0.pending == [])
  {
    var d := snap[i];
    if d !in st.remaining {
      SkipStep(st, snap, i, k, tested, limit, ci);
      return Ok((st, tested));
    }
    var f, cache', _ := FindSepset(st.aggs, st.cache, d.cause, d.effect, k, limit, ci);
    if f.Err? {
      return Err(f.msg);
    }
    var (sepset, t) := f.value;
    if sepset.None? {
      KeptStep(pot, aggs0, st, snap, i, k, tested, t, limit, cache', ci);
      return Ok((st.(cache := cache'), tested || t));
    }
    r := SeparateAndDrop(pot, aggs0, st, snap, i, k, tested, limit, sepset.value, cache', oi, ci);
  }

  /** Once `snap[i]` is separated by `s`: the set is recorded under both
      orders, the dependency and its reverse are taken off the list (which
      fails when the reverse is no longer on it), and their edges are
      removed at once or, order-independently, left pending. */
  method SeparateAndDrop(pot: set<RelDep>, aggs0: Aggs, st: State, snap: seq<RelDep>, i: nat, k: nat,
                         tested: bool, limit: Option<nat>, s: set<RelVar>, cache': CiCache, oi: bool,
                         ci: CiTest)
    returns (r: Result<(State, bool)>)
    requires Canon(pot) && Sound(pot, aggs0, st, ci) && Progress(st, snap, i, k, tested, limit, ci)
    requires i < |snap| && snap[i] in st.remaining && (!oi ==> st.pending == [])
    requires Agrees(cache', ci) && ci(snap[i].cause, snap[i].effect, s)
    ensures r.Err? ==> r.msg == NotInList
    ensures r.Ok? ==> Sound(pot, aggs0, r.value.0, ci) && Progress(r.value.0, snap, i + 1, k, r.value.1, limit, ci)
    ensures r.Ok? ==> SetOf(r.value.0.remaining) <= SetOf(st.remaining) && (!oi ==> r.value.0.pending == [])
  {
    var d := snap[i];
    var rem1 := Remove(st.remaining, d);
    var rem2 := Remove(rem1.value, Reverse(d));
    if rem2.Err? {
      return Err(rem2.msg);
    }
    var st1 := Separated(pot, aggs0, st, snap, i, k, tested, limit, s, cache', rem1.value, rem2.value, ci);
    if oi {
      PendingStep(pot, aggs0, st, st1, d, ci);
      ProgressPending(st1, st.pending + [d], snap, i + 1, k, true, limit, ci);
      r := Ok((st1.(pending := st.pending + [d]), true));
    } else {
      var aggs' := PropagateEdgeRemoval(st.aggs, {d, Reverse(d)});
      RemovedStep(pot, aggs0, st, st1, aggs', d, snap, i, k, limit, ci);
      r := Ok((st1.(aggs := aggs'), true));
    }
  }

  /** Progress does not look at the pending list. */
  lemma ProgressPending(st: State, pending: seq<RelDep>, snap: seq<RelDep>, i: nat, k: nat, tested: bool,
                        limit: Option<nat>, ci: CiTest)
    requires Progress(st, snap, i, k, tested, limit, ci)
    ensures Progress(st.(pending := pending), snap, i, k, tested, limit, ci)
  {
  }

  /** The state after separating `snap[i]`: the set recorded under both
      orders, the dependency and its reverse taken off the list, before any
      edge is removed. */
  method Separated(pot: set<RelDep>, aggs0: Aggs, st: State, snap: seq<RelDep>, i: nat, k: nat, tested: bool,
                   limit: Option<nat>, s: set<RelVar>, cache': CiCache, rem1: seq<RelDep>, rem2: seq<RelDep>,
                   ci: CiTest)
    returns (st1: State)
    requires Canon(pot) && Sound(pot, aggs0, st, ci) && Progress(st, snap, i, k, tested, limit, ci)
    requires i < |snap| && snap[i] in st.remaining && Agrees(cache', ci) && ci(snap[i].cause, snap[i].effect, s)
    requires Remove(st.remaining, snap[i]) == Ok(rem1) && Remove(rem1, Reverse(snap[i])) == Ok(rem2)
    ensures st1 == st.(seps := Record(st.seps, snap[i], s), cache := cache', remaining := rem2)
    ensures Records(st1, ci) && Lists(pot, st1) && Progress(st1, snap, i + 1, k, true, limit, ci)
    ensures Thinned(aggs0, st.aggs, Dropped(pot, st1.seps))
    ensures Dropped(pot, st1.seps) == Dropped(pot, st.seps) + {snap[i], Reverse(snap[i])}
  {
    var d := snap[i];
    st1 := st.(seps := Record(st.seps, d, s), cache := cache', remaining := rem2);
    RecordBoth(st.seps, d, s, ci);
    ListsStep(pot, st, d, s, rem2);
    SeparatedProgress(st, snap, i, k, tested, limit, s, rem2, ci);
    ProgressCache(st.(seps := Record(st.seps, d, s), remaining := rem2), cache', snap, i + 1, k, true, limit, ci);
    ThinnedWider(aggs0, st.aggs, Dropped(pot, st.seps), Dropped(pot, st1.seps));
  }

  /** Order-independently, a separated dependency waits with its edges. */
  lemma PendingStep(pot: set<RelDep>, aggs0: Aggs, st: State, st1: State, d: RelDep, ci: CiTest)
    requires Graphs(pot, aggs0, st)
    requires st1.aggs == st.aggs && st1.pending == st.pending
    requires Records(st1, ci) && Lists(pot, st1) && Thinned(aggs0, st.aggs, Dropped(pot, st1.seps))
    requires Dropped(pot, st1.seps) == Dropped(pot, st.seps) + {d, Reverse(d)}
    ensures Sound(pot, aggs0, st1.(pending := st.pending + [d]), ci)
  {
    var p' := st.pending + [d];
    assert Both(p') == Both(st.pending) + {d, Reverse(d)};
  }

  /** No graph carrying any of a set carries any of a smaller one. */
  lemma GoneFewer(aggs: Aggs, ds: set<RelDep>, es: set<RelDep>)
    requires Gone(aggs, ds) && es <= ds
    ensures Gone(aggs, es)
  {
    forall p | p in aggs ensures Untagged(aggs[p], es) {
      assert Untagged(aggs[p], ds);
    }
  }

  /** Removing the edges of a removed dependency and its reverse from every
      graph: what the graphs have lost stays within the removed candidates
      `x`, and the pair joins the removed candidates that no graph carries
      any more (all but those of `y`). */
  lemma DropPair(aggs0: Aggs, a: Aggs, a': Aggs, x: set<RelDep>, y: set<RelDep>, d: RelDep)
    requires AllWf(a) && Thinned(aggs0, a, x) && d in x && Reverse(d) in x
    requires Gone(a, x - y - {d, Reverse(d)}) && DroppedEverywhere(a, a', {d, Reverse(d)})
    ensures Thinned(a, a', x) && Thinned(aggs0, a', x) && Gone(a', x - y)
  {
    DroppedThinned(a, a', {d, Reverse(d)});
    ThinnedWider(a, a', {d, Reverse(d)}, x);
    ThinnedTransSame(aggs0, a, a', x);
    forall p | p in a' ensures Untagged(a'[p], x - y) {
      assert Wf(a[p]);
      DropFromWf(a[p], {d, Reverse(d)});
      assert Untagged(a[p], x - y - {d, Reverse(d)});
    }
  }

  /** Removing a separated dependency's edges at once. */
  lemma RemovedStep(pot: set<RelDep>, aggs0: Aggs, st: State, st1: State, aggs': Aggs, d: RelDep,
                    snap: seq<RelDep>, i: nat, k: nat, limit: Option<nat>, ci: CiTest)
    requires Graphs(pot, aggs0, st) && st.pending == []
    requires st1.aggs == st.aggs && st1.pending == []
    requires Records(st1, ci) && Lists(pot, st1) && Thinned(aggs0, st.aggs, Dropped(pot, st1.seps))
    requires Dropped(pot, st1.seps) == Dropped(pot, st.seps) + {d, Reverse(d)}
    requires Progress(st1, snap, i + 1, k, true, limit, ci)
    requires DroppedEverywhere(st.aggs, aggs', {d, Reverse(d)}) && AllWf(aggs')
    ensures Sound(pot, aggs0, st1.(aggs := aggs'), ci)
    ensures Progress(st1.(aggs := aggs'), snap, i + 1, k, true, limit, ci)
  {
    var x := Dropped(pot, st1.seps);
    GoneFewer(st.aggs, Dropped(pot, st.seps), x - {} - {d, Reverse(d)});
    DropPair(aggs0, st.aggs, aggs', x, {}, d);
    ProgressKept(st1, st1.(aggs := aggs'), x, snap, i + 1, k, true, limit, ci);
  }

  // ---------------------------------------------------------------------------
  // One size.

  /** Every remaining dependency is removed, or no set of fewer than `k`
      of its neighbours separates it. */
  ghost predicate Below(st: State, k: nat, limit: Option<nat>, ci: CiTest) {
    forall d | d in SetOf(st.remaining) :: Removed(st.seps, d) || TestedBelow(st.aggs, d, k, limit, ci)
  }

  /** The dependencies of a pending list, the first one apart. */
  lemma BothCons(ds: seq<RelDep>)
    requires ds != []
    ensures Both(ds) == {ds[0], Reverse(ds[0])} + Both(ds[1..])
  {
    assert ds == [ds[0]] + ds[1..];
    assert SetOf(ds) == {ds[0]} + SetOf(ds[1..]);
  }

  /** Removing the edges of the first pending dependency. */
  lemma FlushStep(pot: set<RelDep>, aggs0: Aggs, st: State, aggs': Aggs, snap: seq<RelDep>, i: nat, k: nat,
                  tested: bool, limit: Option<nat>, ci: CiTest)
    requires Sound(pot, aggs0, st, ci) && Progress(st, snap, i, k, tested, limit, ci) && st.pending != []
    requires DroppedEverywhere(st.aggs, aggs', {st.pending[0], Reverse(st.pending[0])}) && AllWf(aggs')
    ensures Sound(pot, aggs0, st.(aggs := aggs', pending := st.pending[1..]), ci)
    ensures Progress(st.(aggs := aggs', pending := st.pending[1..]), snap, i, k, tested, limit, ci)
  {
    var d := st.pending[0];
    var x := Dropped(pot, st.seps);
    BothCons(st.pending);
    DropPair(aggs0, st.aggs, aggs', x, Both(st.pending[1..]), d);
    ProgressKept(st, st.(aggs := aggs', pending := st.pending[1..]), x, snap, i, k, tested, limit, ci);
  }

  /** The order-independent end of a size: the edges of every dependency
      separated during it are removed from every graph, in the order the
      dependencies were separated (lines 85-88 of the source). */
  method Flush(pot: set<RelDep>, aggs0: Aggs, st: State, snap: seq<RelDep>, i: nat, k: nat, tested: bool,
               limit: Option<nat>, ci: CiTest)
    returns (st': State)
    requires Sound(pot, aggs0, st, ci) && Progress(st, snap, i, k, tested, limit, ci)
    ensures Sound(pot, aggs0, st', ci) && Progress(st', snap, i, k, tested, limit, ci)
    ensures st'.pending == [] && st'.remaining == st.remaining
  {
    st' := st;
    while st'.pending != []
      invariant Sound(pot, aggs0, st', ci) && Progress(st', snap, i, k, tested, limit, ci)
      invariant st'.remaining == st.remaining
      decreases |st'.pending|
    {
      var d := st'.pending[0];
      var aggs' := PropagateEdgeRemoval(st'.aggs, {d, Reverse(d)});
      FlushStep(pot, aggs0, st', aggs', snap, i, k, tested, limit, ci);
      st' := st'.(aggs := aggs', pending := st'.pending[1..]);
    }
  }

  /** A round starts with nothing visited and nothing tried. */
  lemma RoundStart(st: State, k: nat, limit: Option<nat>, ci: CiTest)
    requires Below(st, k, limit, ci)
    ensures Progress(st, st.remaining, 0, k, false, limit, ci)
  {
  }

  /** At the end of a round every remaining dependency has had size `k`
      tried; if no set could be tried at all, each has fewer neighbours
      than `k`, so every set of them has been tried. */
  lemma RoundEnd(st: State, snap: seq<RelDep>, k: nat, tested: bool, limit: Option<nat>, ci: CiTest)
    requires Progress(st, snap, |snap|, k, tested, limit, ci)
    ensures Below(st, k + 1, limit, ci)
    ensures !tested ==> forall d | d in SetOf(st.remaining) :: Removed(st.seps, d) || Exhausted(st.aggs, d, limit, ci)
  {
    assert snap[..|snap|] == snap;
    forall d | d in SetOf(st.remaining) && !tested && !Removed(st.seps, d)
      ensures Exhausted(st.aggs, d, limit, ci)
    {
      var nb := Nb(st.aggs, d.cause, d.effect, limit);
      forall c | c <= nb ensures !ci(d.cause, d.effect, c) {
        SubsetNotLarger(c, nb);
      }
    }
  }

  /** One size of the search (one pass of lines 60-91 of the source): every
      dependency still on the list when the size starts is visited in list
      order. The flag says whether any set was tried. */
  method Round(pot: set<RelDep>, aggs0: Aggs, st: State, k: nat, limit: Option<nat>, oi: bool, ci: CiTest)
    returns (r: Result<(State, bool)>)
    requires Canon(pot) && Sound(pot, aggs0, st, ci) && st.pending == [] && Below(st, k, limit, ci)
    ensures r.Err? ==> r.msg in {Parents.KeyError, NotInDigraph, NotInList}
    ensures r.Ok? ==> Sound(pot, aggs0, r.value.0, ci) && r.value.0.pending == []
    ensures r.Ok? ==> Below(r.value.0, k + 1, limit, ci) && SetOf(r.value.0.remaining) <= SetOf(st.remaining)
    ensures r.Ok? && !r.value.1 ==>
              forall d | d in SetOf(r.value.0.remaining) :: Removed(r.value.0.seps, d) || Exhausted(r.value.0.aggs, d, limit, ci)
  {
    var snap := st.remaining;
    RoundStart(st, k, limit, ci);
    var cur, tested, i := st, false, 0;
    while i < |snap|
      invariant i <= |snap| && Sound(pot, aggs0, cur, ci) && Progress(cur, snap, i, k, tested, limit, ci)
      invariant !oi ==> cur.pending == []
    {
      var v := Visit(pot, aggs0, cur, snap, i, k, tested, limit, oi, ci);
      if v.Err? {
        return Err(v.msg);
      }
      cur, tested, i := v.value.0, v.value.1, i + 1;
    }
    if oi {
      cur := Flush(pot, aggs0, cur, snap, i, k, tested, limit, ci);
    }
    RoundEnd(cur, snap, k, tested, limit, ci);
    return Ok((cur, tested));
  }

  // ---------------------------------------------------------------------------
  // All sizes.

  /** The sizes Phase I tries: 0 up to the depth, none for a negative one. */
  function Sizes(depth: int): nat {
    if depth < 0 then 0 else depth + 1
  }

  /** What Phase I leaves of each dependency still on the list: it was
      removed, or every set of fewer than `n` of its neighbours has been
      tried, or every set of them has. */
  ghost predicate Settled(aggs: Aggs, seps: SepsetTable, remaining: seq<RelDep>, n: nat, limit: Option<nat>,
                          ci: CiTest) {
    forall d | d in SetOf(remaining) ::
      Removed(seps, d) || TestedBelow(aggs, d, n, limit, ci) || Exhausted(aggs, d, limit, ci)
  }

  /** The loop over conditioning-set sizes (lines 60-91 of the source): it
      stops after the depth, or after a size at which no set could be
      tried. */
  method Search(pot: set<RelDep>, aggs0: Aggs, st: State, depth: int, limit: Option<nat>, oi: bool, ci: CiTest)
    returns (r: Result<State>)
    requires Canon(pot) && Sound(pot, aggs0, st, ci) && st.pending == [] && Below(st, 0, limit, ci)
    ensures r.Err? ==> r.msg in {Parents.KeyError, NotInDigraph, NotInList}
    ensures r.Ok? ==> Sound(pot, aggs0, r.value, ci) && r.value.pending == []
    ensures r.Ok? ==> Settled(r.value.aggs, r.value.seps, r.value.remaining, Sizes(depth), limit, ci)
  {
    var cur, k := st, 0;
    while k < Sizes(depth)
      invariant k <= Sizes(depth) && Sound(pot, aggs0, cur, ci) && cur.pending == [] && Below(cur, k, limit, ci)
    {
      var rd := Round(pot, aggs0, cur, k, limit, oi, ci);
      if rd.Err? {
        return Err(rd.msg);
      }
      cur := rd.value.0;
      if !rd.value.1 {
        return Ok(cur);
      }
      k := k + 1;
    }
    return Ok(cur);
  }

  /** The candidates of Phase I: every dependency within the hop
      threshold, without existence variables, in enumeration order. All of
      them are canonical. */
  function PhaseOneCandidates(m: Rcd): (r: seq<RelDep>)
    ensures Canon(SetOf(r))
  {
    var vars := Space.VarsOf(m.schema, Space.PathsUpTo(m.schema, m.hop), false);
    var r := Space.GetRelationalDependencies(m.schema, Space.IntNum(m.hop), false).value;
    assert Canon(SetOf(r)) by {
      forall d | d in SetOf(r) ensures Parents.Canonical(d) {
        Skeleton.SpaceCanonical(m.schema, vars, d);
      }
    }
    r
  }

  /** Phase I starts from the full graphs, no records and every candidate
      on the list. */
  lemma StartSound(pot: seq<RelDep>, aggs: Aggs, cache: CiCache, limit: Option<nat>, ci: CiTest)
    requires AllWf(aggs) && Agrees(cache, ci)
    ensures Sound(SetOf(pot), aggs, State(aggs, map[], cache, pot, []), ci)
    ensures Below(State(aggs, map[], cache, pot, []), 0, limit, ci)
  {
    ThinnedRefl(aggs, {});
  }

  /** What Phase I promises of the model `n` it leaves, against the
      candidates `pot` and the graphs `aggs0` built from them: the cache
      and the records are sound; the undirected dependencies are
      candidates, and every candidate not among them was separated, in one
      order or the other, by the set recorded for it; the graphs have lost
      exactly the tags of the separated candidates; and each undirected
      dependency was separated, or no set of fewer than the depth plus one
      of its neighbours separates it, or no set of them at all does. */
  ghost predicate Undirected(pot: set<RelDep>, aggs0: Aggs, n: Rcd, limit: Option<nat>, ci: CiTest) {
    && n.depth.Some? && n.aggs.Some? && n.sepsets.Some? && n.undirected.Some?
    && var aggs := n.aggs.value;
       var seps := n.sepsets.value;
       && Agrees(n.cache, ci) && SepsSound(seps, ci)
       && SetOf(n.undirected.value) <= pot && pot - SetOf(n.undirected.value) <= Dropped(pot, seps)
       && aggs.Keys == aggs0.Keys && AllWf(aggs)
       && Thinned(aggs0, aggs, Dropped(pot, seps)) && Gone(aggs, Dropped(pot, seps))
       && Settled(aggs, seps, n.undirected.value, Sizes(n.depth.value), limit, ci)
  }

  /** The end state of the search gives what Phase I promises. */
  lemma Finished(pot: set<RelDep>, aggs0: Aggs, st: State, n: Rcd, limit: Option<nat>, ci: CiTest)
    requires Sound(pot, aggs0, st, ci) && st.pending == []
    requires n.depth.Some? && Settled(st.aggs, st.seps, st.remaining, Sizes(n.depth.value), limit, ci)
    requires n.aggs == Some(st.aggs) && n.sepsets == Some(st.seps) && n.cache == st.cache
    requires n.undirected == Some(st.remaining)
    ensures Undirected(pot, aggs0, n, limit, ci)
  {
    assert Both(st.pending) == {};
  }

  /** `identifyUndirectedDependencies`: build one graph per perspective
      from the candidates, take the depth (when none was given) to be the
      most nodes of any graph less two, which fails when there is no
      graph, and run the search from empty records. On success the model
      holds the graphs, the records, the cache, the depth and the remaining
      dependencies as the undirected ones. */
  method IdentifyUndirected(m: Rcd, oi: bool, times: nat, ci: CiTest) returns (r: Result<Rcd>)
    requires Agrees(m.cache, ci)
    ensures r.Err? ==> r.msg in {EmptyMax, Parents.KeyError, NotInDigraph, NotInList}
    ensures r.Err? && r.msg == EmptyMax ==> m.depth.None? && Perspectives(m.schema) == {}
    ensures m.depth.None? && Perspectives(m.schema) == {} ==> r == Err(EmptyMax)
    ensures r.Ok? ==>
              && r.value == m.(depth := r.value.depth, aggs := r.value.aggs, sepsets := r.value.sepsets,
                               cache := r.value.cache, undirected := r.value.undirected)
              && r.value.depth.Some? && (m.depth.Some? ==> r.value.depth == m.depth)
              && r.value.aggs.Some? && r.value.sepsets.Some? && r.value.undirected.Some?
    ensures r.Ok? ==> Undirected(SetOf(PhaseOneCandidates(m)), ConstructAggs(m.schema, PhaseOneCandidates(m), m.hop, times),
                                 r.value, PhaseOneLimit(m.hop), ci)
  {
    var deps := PhaseOneCandidates(m);
    var aggs0 := ConstructAggs(m.schema, deps, m.hop, times);
    var depth: int;
    if m.depth.Some? {
      depth := m.depth.value;
    } else {
      var md := MaxDepth(aggs0);
      if md.Err? {
        return Err(md.msg);
      }
      depth := md.value;
    }
    StartSound(deps, aggs0, m.cache, PhaseOneLimit(m.hop), ci);
    var st0 := State(aggs0, map[], m.cache, deps, []);
    var found := Search(SetOf(deps), aggs0, st0, depth, PhaseOneLimit(m.hop), oi, ci);
    if found.Err? {
      return Err(found.msg);
    }
    var st := found.value;
    var n := m.(depth := Some(depth), aggs := Some(st.aggs), sepsets := Some(st.seps), cache := st.cache,
                undirected := Some(st.remaining));
    Finished(SetOf(deps), aggs0, st, n, PhaseOneLimit(m.hop), ci);
    r := Ok(n);
  }
}
