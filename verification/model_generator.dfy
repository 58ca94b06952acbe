/** Random model generation: candidate dependencies are drawn one at a time
    without replacement, and each is kept when the dependencies kept so far
    still form a valid model and its effect stays within the parent limit.
    The picker, the only source of randomness, is supplied by the caller. */
module ModelGenerators {
  import opened Wrappers
  import opened Collections
  import opened Schemas
  import opened RelVars
  import Space
  import CausalModel
  import Validity

  const NotEnough := "Could not generate a model: not enough dependencies to draw from"
  const NotFound := "Could not generate a model: failed to find a model with the requested number of dependencies"
  const PickerFailed := "randomPicker raised"

  /** The injected `randomPicker`, given how many times it has been called
      before and the remaining candidates; `None` when it raises. */
  type DepPicker = (nat, seq<RelDep>) -> Option<RelDep>

  /** The dependencies handed to the model constructor as objects. */
  function Objs(deps: seq<RelDep>): (r: seq<Obj>)
    ensures |r| == |deps| && forall i :: 0 <= i < |deps| ==> r[i] == DepObj(deps[i])
  {
    seq(|deps|, i requires 0 <= i < |deps| => DepObj(deps[i]))
  }

  /** `Model(schema, deps)` with the library's own dependency check. */
  function BuildModel(s: Schema, deps: seq<RelDep>): Result<CausalModel.Model> {
    CausalModel.MakeModel(s, Objs(deps), Validity.CheckDependency)
  }

  /** Already-built dependencies parse to themselves. */
  lemma {:induction false} ParseObjs(deps: seq<RelDep>)
    ensures CausalModel.ParseAll(Objs(deps)) == Ok(deps)
  {
    if |deps| > 0 {
      ParseObjs(deps[1..]);
      assert Objs(deps)[1..] == Objs(deps[1..]);
      assert deps == [deps[0]] + deps[1..];
    }
  }

  /** Objects of distinct dependencies are distinct, and conversely. */
  lemma ObjsDistinct(deps: seq<RelDep>)
    ensures NoDuplicates(Objs(deps)) <==> PairwiseDistinct(deps)
  {
    NoDuplicatesIff(Objs(deps));
    var objs := Objs(deps);
    if PairwiseDistinct(objs) {
      forall i, j | 0 <= i < j < |deps| ensures deps[i] != deps[j] {
        assert objs[i] != objs[j];
      }
    }
  }

  /** A model built from dependency objects holds those dependencies, with no repeats. */
  lemma BuiltHolds(s: Schema, deps: seq<RelDep>)
    requires BuildModel(s, deps).Ok?
    ensures BuildModel(s, deps).value.dependencies == deps && PairwiseDistinct(deps)
  {
    ParseObjs(deps);
    ObjsDistinct(deps);
  }

  /** The candidate pool: the whole dependency space of the schema when no
      list, or an empty one, is given; otherwise the given entries parsed. */
  function Pool(s: Schema, h: Space.Num, given: Option<seq<Obj>>): Result<seq<RelDep>> {
    if given.None? || |given.value| == 0 then Space.GetRelationalDependencies(s, h, false)
    else CausalModel.ParseAll(given.value)
  }

  /** How many of the dependencies have effect `e`. */
  function ParentCount(deps: seq<RelDep>, e: RelVar): nat {
    if |deps| == 0 then 0 else (if deps[0].effect == e then 1 else 0) + ParentCount(deps[1..], e)
  }

  lemma {:induction false} ParentCountAppend(deps: seq<RelDep>, d: RelDep, e: RelVar)
    ensures ParentCount(deps + [d], e) == ParentCount(deps, e) + (if d.effect == e then 1 else 0)
  {
    if |deps| > 0 {
      assert (deps + [d])[1..] == deps[1..] + [d];
      ParentCountAppend(deps[1..], d, e);
    }
  }

  /** Appending a dependency and then removing its first occurrence changes
      no effect's count, wherever that occurrence is. */
  lemma {:induction false} ParentCountRemove(deps: seq<RelDep>, d: RelDep, e: RelVar)
    ensures Remove(deps + [d], d).Ok?
    ensures ParentCount(Remove(deps + [d], d).value, e) == ParentCount(deps, e)
  {
    var xs := deps + [d];
    assert xs[|deps|] == d;
    if |deps| > 0 {
      assert xs[1..] == deps[1..] + [d];
      if deps[0] == d {
        ParentCountAppend(deps[1..], d, e);
      } else {
        ParentCountRemove(deps[1..], d, e);
      }
    }
  }

  // ---------------------------------------------------------------------------
  // The drawing loop.

  /** Whether the parent limit rejects an effect with n parents; `None` and
      0 both mean no limit. */
  predicate OverLimit(maxParents: Option<int>, n: nat) {
    maxParents.Some? && maxParents.value != 0 && n > maxParents.value
  }

  /** No effect has more parents among `deps` than the limit allows. */
  ghost predicate WithinLimit(maxParents: Option<int>, deps: seq<RelDep>) {
    forall e :: ParentCount(deps, e) == 0 || !OverLimit(maxParents, ParentCount(deps, e))
  }

  /** The loop state: the candidates not yet tried, the dependencies kept,
      `attrToNumParents`, the last model built and the picker calls so far. */
  datatype Draw = Draw(pool: seq<RelDep>, kept: seq<RelDep>, counts: map<RelVar, nat>,
                       model: Option<CausalModel.Model>, picks: nat)

  function CountOf(counts: map<RelVar, nat>, v: RelVar): nat {
    if v in counts then counts[v] else 0
  }

  /** The model constructor applied to the dependencies kept so far. */
  type Builder = seq<RelDep> -> Result<CausalModel.Model>

  /** One candidate: draw it, take it out of the pool, and keep it only when
      the kept dependencies with it still build a model and its effect is not
      over the limit. A rejected candidate is taken out of the kept list by
      its first occurrence; its effect's count, once raised, stays raised. */
  function Try(build: Builder, maxParents: Option<int>, pick: DepPicker, st: Draw): (r: Result<Draw>)
    ensures r.Ok? ==> |r.value.pool| == |st.pool| - 1 && r.value.picks == st.picks + 1
    ensures r.Err? ==> r.msg in {PickerFailed, NotInList}
  {
    var picked := pick(st.picks, st.pool);
    if picked.None? then Err(PickerFailed)
    else
      var d := picked.value;
      var rest :- Remove(st.pool, d);
      var tried := st.kept + [d];
      assert tried[|st.kept|] == d;
      var m := build(tried);
      if m.Err? then Ok(Draw(rest, Remove(tried, d).value, st.counts, None, st.picks + 1))
      else
        var n := CountOf(st.counts, d.effect) + 1;
        var counts := st.counts[d.effect := n];
        if OverLimit(maxParents, n) then Ok(Draw(rest, Remove(tried, d).value, counts, None, st.picks + 1))
        else Ok(Draw(rest, tried, counts, Some(m.value), st.picks + 1))
  }

  /** `while len(dependencies) > 0 and len(modelDeps) < numDependencies`. */
  function Loop(build: Builder, num: int, maxParents: Option<int>, pick: DepPicker, st: Draw): (r: Result<Draw>)
    ensures r.Ok? ==> (|r.value.pool| == 0 || |r.value.kept| >= num)
    ensures r.Ok? ==> r.value.picks == st.picks + |st.pool| - |r.value.pool| && |r.value.pool| <= |st.pool|
    decreases |st.pool|
  {
    if |st.pool| == 0 || |st.kept| >= num then Ok(st)
    else
      var st1 :- Try(build, maxParents, pick, st);
      Loop(build, num, maxParents, pick, st1)
  }

  /** What the loop keeps true: kept and untried candidates together come
      from the original pool, ... */
  ghost predicate Inv(build: Builder, num: int, maxParents: Option<int>, pool: seq<RelDep>, st: Draw) {
    multiset(st.kept) + multiset(st.pool) <= multiset(pool)
    && ModelKept(build, num, st)
    && Counted(maxParents, st)
  }

  /** ... the last model, if any, is the model of the kept dependencies,
      and there is one once enough are kept, ... */
  ghost predicate ModelKept(build: Builder, num: int, st: Draw) {
    (st.model.Some? ==> build(st.kept) == Ok(st.model.value))
    && (|st.kept| >= num > 0 ==> st.model.Some?)
    && |st.kept| <= num
  }

  /** ... and no effect has more kept parents than its count or the limit allows. */
  ghost predicate Counted(maxParents: Option<int>, st: Draw) {
    (forall e :: ParentCount(st.kept, e) <= CountOf(st.counts, e))
    && WithinLimit(maxParents, st.kept)
  }

  /** A successful draw, taken apart: the candidate came from the pool and
      left it, and it was either kept, with the model of the kept list and its
      effect's count raised within the limit, or dropped again. */
  lemma TryCases(build: Builder, maxParents: Option<int>, pick: DepPicker, st: Draw)
    requires Try(build, maxParents, pick, st).Ok?
    ensures var d := pick(st.picks, st.pool).value;
            var st' := Try(build, maxParents, pick, st).value;
            var n := CountOf(st.counts, d.effect) + 1;
            d in st.pool && Remove(st.kept + [d], d).Ok? && st'.pool == Remove(st.pool, d).value
            && ((st'.kept == st.kept + [d] && build(st'.kept).Ok?
                 && st'.model == Some(build(st'.kept).value)
                 && st'.counts == st.counts[d.effect := n] && !OverLimit(maxParents, n))
                || (st'.kept == Remove(st.kept + [d], d).value && st'.model.None?
                    && (st'.counts == st.counts || st'.counts == st.counts[d.effect := n])))
  {
    var d := pick(st.picks, st.pool).value;
    assert (st.kept + [d])[|st.kept|] == d;
  }

  lemma PoolShrinks(pool: seq<RelDep>, kept: seq<RelDep>, rest: seq<RelDep>, kept': seq<RelDep>,
                    d: RelDep, cands: seq<RelDep>)
    requires multiset(kept) + multiset(cands) <= multiset(pool)
    requires d in cands && multiset(rest) == multiset(cands) - multiset{d}
    requires kept' == kept + [d] || (Remove(kept + [d], d).Ok? && kept' == Remove(kept + [d], d).value)
    ensures multiset(kept') + multiset(rest) <= multiset(pool)
  {
    assert multiset(kept + [d]) == multiset(kept) + multiset{d};
  }

  lemma CountsKeep(maxParents: Option<int>, kept: seq<RelDep>, counts: map<RelVar, nat>, d: RelDep,
                   kept': seq<RelDep>, counts': map<RelVar, nat>)
    requires forall e :: ParentCount(kept, e) <= CountOf(counts, e)
    requires WithinLimit(maxParents, kept)
    requires var n := CountOf(counts, d.effect) + 1;
             (kept' == kept + [d] && counts' == counts[d.effect := n] && !OverLimit(maxParents, n))
             || (Remove(kept + [d], d).Ok? && kept' == Remove(kept + [d], d).value
                 && (counts' == counts || counts' == counts[d.effect := n]))
    ensures forall e :: ParentCount(kept', e) <= CountOf(counts', e)
    ensures WithinLimit(maxParents, kept')
  {
    forall e ensures ParentCount(kept', e) <= CountOf(counts', e) && (ParentCount(kept', e) == 0 || !OverLimit(maxParents, ParentCount(kept', e))) {
      ParentCountAppend(kept, d, e);
      ParentCountRemove(kept, d, e);
    }
  }

  lemma TryKeeps(build: Builder, num: int, maxParents: Option<int>, pick: DepPicker, pool: seq<RelDep>, st: Draw)
    requires Inv(build, num, maxParents, pool, st) && |st.kept| < num
    requires Try(build, maxParents, pick, st).Ok?
    ensures Inv(build, num, maxParents, pool, Try(build, maxParents, pick, st).value)
  {
    TryCases(build, maxParents, pick, st);
    var d := pick(st.picks, st.pool).value;
    var st' := Try(build, maxParents, pick, st).value;
    PoolShrinks(pool, st.kept, st'.pool, st'.kept, d, st.pool);
    CountsKeep(maxParents, st.kept, st.counts, d, st'.kept, st'.counts);
    assert Counted(maxParents, st');
    assert ModelKept(build, num, st');
  }

  lemma {:induction false} LoopKeeps(build: Builder, num: int, maxParents: Option<int>, pick: DepPicker,
                                     pool: seq<RelDep>, st: Draw)
    requires Inv(build, num, maxParents, pool, st) && Loop(build, num, maxParents, pick, st).Ok?
    ensures Inv(build, num, maxParents, pool, Loop(build, num, maxParents, pick, st).value)
    decreases |st.pool|
  {
    if |st.pool| > 0 && |st.kept| < num {
      TryKeeps(build, num, maxParents, pick, pool, st);
      LoopKeeps(build, num, maxParents, pick, pool, Try(build, maxParents, pick, st).value);
    }
  }

  // ---------------------------------------------------------------------------
  // The whole generator.

  /** The drawing from a pool large enough for a positive number of
      dependencies: the last model is returned, with the dependencies kept,
      when it holds all of them. */
  function DrawModel(build: Builder, num: int, maxParents: Option<int>, pick: DepPicker,
                     pool: seq<RelDep>): (r: Result<(seq<RelDep>, CausalModel.Model)>)
    requires 0 < num <= |pool|
    ensures r.Ok? ==> var deps := r.value.0;
                      build(deps) == Ok(r.value.1) && |deps| == num
                      && multiset(deps) <= multiset(pool)
                      && WithinLimit(maxParents, deps)
    ensures r.Err? ==> r.msg in {PickerFailed, NotInList, NotFound}
  {
    var start := Draw(pool, [], map[], None, 0);
    LoopErr(build, num, maxParents, pick, start);
    var st :- Loop(build, num, maxParents, pick, start);
    LoopKeeps(build, num, maxParents, pick, pool, start);
    if st.model.None? || |st.kept| < num then Err(NotFound)
    else Ok((st.kept, st.model.value))
  }

  /** `generateModel`: build the pool, check it is large enough, return the
      empty model when no dependency is asked for, and otherwise draw. */
  function GenerateModel(s: Schema, h: Space.Num, num: int, maxParents: Option<int>,
                         given: Option<seq<Obj>>, pick: DepPicker): (r: Result<CausalModel.Model>)
    ensures Pool(s, h, given).Err? ==> r == Err(Pool(s, h, given).msg)
    ensures Pool(s, h, given).Ok? && |Pool(s, h, given).value| < num ==> r == Err(NotEnough)
    ensures Pool(s, h, given).Ok? && num == 0 ==> r == BuildModel(s, [])
    ensures Pool(s, h, given).Ok? && 0 < num <= |Pool(s, h, given).value| ==>
              var drawn := DrawModel(deps => BuildModel(s, deps), num, maxParents, pick, Pool(s, h, given).value);
              (r.Ok? <==> drawn.Ok?) && (r.Ok? ==> r.value == drawn.value.1) && (r.Err? ==> r.msg == drawn.msg)
  {
    var pool :- Pool(s, h, given);
    if |pool| < num then Err(NotEnough)
    else if num == 0 then BuildModel(s, [])
    else if num < 0 then Err(NotFound)
    else
      var drawn :- DrawModel(deps => BuildModel(s, deps), num, maxParents, pick, pool);
      Ok(drawn.1)
  }

  /** A generated model holds as many dependencies as asked for, all drawn
      from the pool, without repeats and within the parent limit, and the
      model constructor accepts exactly them. */
  lemma GeneratedModelValid(s: Schema, h: Space.Num, num: int, maxParents: Option<int>,
                            given: Option<seq<Obj>>, pick: DepPicker)
    requires GenerateModel(s, h, num, maxParents, given, pick).Ok?
    ensures var m := GenerateModel(s, h, num, maxParents, given, pick).value;
            BuildModel(s, m.dependencies) == Ok(m) && |m.dependencies| == num && PairwiseDistinct(m.dependencies)
            && multiset(m.dependencies) <= multiset(Pool(s, h, given).value)
            && WithinLimit(maxParents, m.dependencies)
  {
    var m := GenerateModel(s, h, num, maxParents, given, pick).value;
    var pool := Pool(s, h, given).value;
    if num == 0 {
      BuiltHolds(s, []);
    } else {
      var drawn := DrawModel(deps => BuildModel(s, deps), num, maxParents, pick, pool).value;
      BuiltHolds(s, drawn.0);
    }
  }

  /** The loop fails only by the picker raising or drawing a non-candidate. */
  lemma {:induction false} LoopErr(build: Builder, num: int, maxParents: Option<int>, pick: DepPicker, st: Draw)
    ensures Loop(build, num, maxParents, pick, st).Err? ==>
              Loop(build, num, maxParents, pick, st).msg in {PickerFailed, NotInList}
    decreases |st.pool|
  {
    if |st.pool| > 0 && |st.kept| < num && Try(build, maxParents, pick, st).Ok? {
      LoopErr(build, num, maxParents, pick, Try(build, maxParents, pick, st).value);
    }
  }
}
