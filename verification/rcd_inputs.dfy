/** The two setters of the RCD learner (RCD.py) through which a caller hands
    over what Phase I would otherwise find: `setUndirectedDependencies` and
    `setSepsets`. */
module RCDInputs {
  import opened Wrappers
  import opened Collections
  import opened Schemas
  import opened RelVars
  import opened Sepsets
  import opened RCD
  import CausalModel
  import DSeparation
  import ParserUtil
  import Validity
  import RCDPhaseTwo

  /** The argument to `setUndirectedDependencies` is not iterable. */
  const NotIterable := "Undirected dependencies must be an iterable sequence of parseable RelationalDependency strings"

  /** Line 347 of RCD.py reads a name that nothing defines. */
  const UndefinedTimes := "NameError: name 'times' is not defined"

  /** The argument to `setSepsets` is not a dictionary. */
  const NotDict := "Sepsets must be a dictionary"

  /** Iterating over a conditioning set that is not iterable. */
  const NotIterableSet := "TypeError: object is not iterable"

  // ---------------------------------------------------------------------
  // setUndirectedDependencies

  /** The supplied dependencies, parsed and then checked in list order: the
      first entry that does not parse decides the error, and after that the
      first parsed dependency the checker rejects. */
  function ParseChecked(s: Schema, arg: DSeparation.Arg, checker: CausalModel.Checker): (r: Result<seq<RelDep>>)
    ensures arg.NotIterable? ==> r == Err(NotIterable)
    ensures arg.Items? && CausalModel.ParseAll(arg.items).Err? ==> r == Err(CausalModel.ParseAll(arg.items).msg)
    ensures r.Ok? <==> && arg.Items? && CausalModel.ParseAll(arg.items).Ok?
                       && CausalModel.CheckAll(s, CausalModel.ParseAll(arg.items).value, checker).Pass?
    ensures r.Ok? ==> r.value == CausalModel.ParseAll(arg.items).value
  {
    if arg.NotIterable? then Err(NotIterable)
    else
      var deps :- CausalModel.ParseAll(arg.items);
      var ok := CausalModel.CheckAll(s, deps, checker);
      if ok.Fail? then Err(ok.msg) else Ok(deps)
  }

  /** `setUndirectedDependencies` as written: once the dependencies parse
      and pass the checker they are stored, and the call then fails on the
      undefined name `times` before the graphs are rebuilt. Every call
      fails, and the graphs are never touched. */
  function SetUndirectedAsWritten(m: Rcd, arg: DSeparation.Arg, checker: CausalModel.Checker): (r: (Rcd, Outcome))
    ensures r.1.Fail? && r.0.aggs == m.aggs
    ensures ParseChecked(m.schema, arg, checker).Err? ==>
              r == (m, Fail(ParseChecked(m.schema, arg, checker).msg))
    ensures ParseChecked(m.schema, arg, checker).Ok? ==>
              r == (m.(undirected := Some(ParseChecked(m.schema, arg, checker).value)), Fail(UndefinedTimes))
  {
    match ParseChecked(m.schema, arg, checker)
    case Err(e) => (m, Fail(e))
    case Ok(deps) => (m.(undirected := Some(deps)), Fail(UndefinedTimes))
  }

  /** A checker that accepts every dependency. */
  function AcceptAll(s: Schema, d: RelDep): (r: Outcome)
    ensures r.Pass?
  {
    Pass
  }

  /** One valid dependency handed to a fresh learner: it is stored, the
      graphs stay unbuilt, and the call still fails. */
  lemma SetUndirectedAsWrittenFails(m: Rcd)
    requires m.aggs.None?
    ensures var d := RelDep(RelVar(["A"], "X"), RelVar(["A"], "Y"));
            var r := SetUndirectedAsWritten(m, DSeparation.Items([DepObj(d)]), AcceptAll);
            && r.0.undirected == Some([d]) && r.0.aggs.None? && r.1 == Fail(UndefinedTimes)
  {
    var d := RelDep(RelVar(["A"], "X"), RelVar(["A"], "Y"));
    assert ParserUtil.ParseRelDep(DepObj(d)) == Ok(d);
    var items: seq<Obj> := [DepObj(d)];
    var parsed := CausalModel.ParseAll(items);
    assert parsed.Ok? && parsed.value[0] == d;
    assert parsed.value == [d];
    assert CausalModel.CheckAll(m.schema, [d], AcceptAll).Pass?;
  }

  /** The graphs after a successful call: built from the supplied
      dependencies at twice the hop threshold, as `constructAggsFromDependencies`
      does by default. */
  function RebuiltAggs(m: Rcd, deps: seq<RelDep>): (r: Aggs)
    ensures AllWf(r) && r.Keys == Perspectives(m.schema)
    ensures TagsWithin(r, SetOf(deps))
  {
    ConstructedTags(m.schema, deps, m.hop, 2);
    ConstructAggs(m.schema, deps, m.hop, 2)
  }

  /** `setUndirectedDependencies` as evidently intended: the dependencies are
      stored and the graphs rebuilt from them at twice the hop threshold;
      everything else is kept. */
  function SetUndirected(m: Rcd, arg: DSeparation.Arg, checker: CausalModel.Checker): (r: Result<Rcd>)
    ensures r.Err? <==> ParseChecked(m.schema, arg, checker).Err?
    ensures r.Err? ==> r.msg == ParseChecked(m.schema, arg, checker).msg
    ensures r.Ok? ==> var deps := ParseChecked(m.schema, arg, checker).value;
                      && r.value == m.(undirected := Some(deps), aggs := r.value.aggs)
                      && r.value.aggs == Some(ConstructAggs(m.schema, deps, m.hop, 2))
                      && AllWf(r.value.aggs.value) && TagsWithin(r.value.aggs.value, SetOf(deps))
  {
    var deps :- ParseChecked(m.schema, arg, checker);
    Ok(m.(undirected := Some(deps), aggs := Some(RebuiltAggs(m, deps))))
  }

  /** Orienting after the corrected setter leaves oriented dependencies
      only among the supplied ones. */
  lemma SetThenOrient(m: Rcd, arg: DSeparation.Arg, checker: CausalModel.Checker, n: Rcd, ci: CiTest)
    requires SetUndirected(m, arg, checker).Ok?
    requires RCDPhaseTwo.Oriented(SetUndirected(m, arg, checker).value, n, ci)
    ensures n.oriented.value <= SetOf(ParseChecked(m.schema, arg, checker).value)
  {
    var u := SetUndirected(m, arg, checker).value;
    var deps := ParseChecked(m.schema, arg, checker).value;
    RCDPhaseTwo.OrientedWithin(u, n, ci);
    forall d | d in RCDPhaseTwo.Tags(u.aggs.value) ensures d in SetOf(deps) {
      TagIn(u.aggs.value, SetOf(deps), d);
    }
  }

  lemma TagIn(aggs: Aggs, live: set<RelDep>, d: RelDep)
    requires TagsWithin(aggs, live) && d in RCDPhaseTwo.Tags(aggs)
    ensures d in live
  {
    var p, a :| p in aggs && a in aggs[p].edges && d in aggs[p].edges[a];
  }

  // ---------------------------------------------------------------------
  // setSepsets

  /** The argument to `setSepsets`: a dictionary's items in its iteration
      order, each a pair of variables and a conditioning collection, or
      something that is not a dictionary. */
  datatype SepsetsArg = Dict(items: seq<((Obj, Obj), DSeparation.Arg)>) | NotDict

  /** One item of the dictionary comprehension. The value (the conditioning
      set) is evaluated before the key, as CPython did before version 3.8,
      and the key's two variables left to right. */
  function ParseEntry(item: ((Obj, Obj), DSeparation.Arg)): (r: Result<((RelVar, RelVar), set<RelVar>)>)
    ensures r.Ok? <==> && item.1.Items? && DSeparation.ParseAll(item.1.items).Ok?
                       && ParserUtil.ParseRelVar(item.0.0).Ok? && ParserUtil.ParseRelVar(item.0.1).Ok?
    ensures r.Ok? ==> r.value == ((ParserUtil.ParseRelVar(item.0.0).value, ParserUtil.ParseRelVar(item.0.1).value),
                                  DSeparation.ParseAll(item.1.items).value)
    ensures item.1.NotIterable? ==> r == Err(NotIterableSet)
  {
    if item.1.NotIterable? then Err(NotIterableSet)
    else
      var cond :- DSeparation.ParseAll(item.1.items);
      var r1 :- ParserUtil.ParseRelVar(item.0.0);
      var r2 :- ParserUtil.ParseRelVar(item.0.1);
      Ok(((r1, r2), cond))
  }

  /** How one dictionary item is read: a key and its conditioning set. */
  type EntryParser<!I> = I -> Result<((RelVar, RelVar), set<RelVar>)>

  /** The parsed key of item `i`. */
  function KeyAt<I>(items: seq<I>, parse: EntryParser<I>, i: nat): (RelVar, RelVar)
    requires i < |items| && parse(items[i]).Ok?
  {
    parse(items[i]).value.0
  }

  /** The dictionary comprehension: every item parsed in order and the
      first failure raised; each parsed item then stored under its key. */
  function ParseTable<I>(items: seq<I>, parse: EntryParser<I>): (r: Result<SepsetTable>)
    ensures r.Ok? <==> forall i :: 0 <= i < |items| ==> parse(items[i]).Ok?
    ensures r.Err? ==> exists i :: 0 <= i < |items| && parse(items[i]) == Err(r.msg)
                                   && forall j :: 0 <= j < i ==> parse(items[j]).Ok?
    decreases |items|
  {
    if |items| == 0 then Ok(map[])
    else
      var front := items[..|items| - 1];
      assert forall j :: 0 <= j < |front| ==> front[j] == items[j];
      var t :- ParseTable(front, parse);
      var last :- parse(items[|items| - 1]);
      Ok(t[last.0 := last.1])
  }

  /** A nonempty table is the table of all items but the last, updated
      with the last. */
  lemma ParseTableLast<I>(items: seq<I>, parse: EntryParser<I>)
    requires ParseTable(items, parse).Ok? && |items| > 0
    ensures var front := items[..|items| - 1];
            && ParseTable(front, parse).Ok? && parse(items[|items| - 1]).Ok?
            && (forall j :: 0 <= j < |front| ==> front[j] == items[j])
            && var last := parse(items[|items| - 1]).value;
               ParseTable(items, parse).value == ParseTable(front, parse).value[last.0 := last.1]
  {
    var front := items[..|items| - 1];
    assert forall j :: 0 <= j < |front| ==> front[j] == items[j];
  }

  /** The keys of the parsed table are exactly the parsed keys of the items. */
  lemma {:induction false} ParseTableKeys<I>(items: seq<I>, parse: EntryParser<I>, k: (RelVar, RelVar))
    requires ParseTable(items, parse).Ok?
    ensures k in ParseTable(items, parse).value <==> exists i :: 0 <= i < |items| && KeyAt(items, parse, i) == k
    decreases |items|
  {
    if |items| > 0 {
      var front := items[..|items| - 1];
      ParseTableLast(items, parse);
      ParseTableKeys(front, parse, k);
      if k == KeyAt(items, parse, |items| - 1) {
      } else {
        forall i | 0 <= i < |front| && KeyAt(items, parse, i) == k ensures k in ParseTable(items, parse).value {
          assert KeyAt(front, parse, i) == k;
        }
        if k in ParseTable(items, parse).value {
          assert k in ParseTable(front, parse).value;
          var i :| 0 <= i < |front| && KeyAt(front, parse, i) == k;
          assert KeyAt(items, parse, i) == k;
        }
      }
    }
  }

  /** A key given by several items keeps the set of the last of them. */
  lemma {:induction false} ParseTableLastWins<I>(items: seq<I>, parse: EntryParser<I>, i: nat)
    requires ParseTable(items, parse).Ok? && i < |items|
    requires forall j :: i < j < |items| ==> KeyAt(items, parse, j) != KeyAt(items, parse, i)
    ensures KeyAt(items, parse, i) in ParseTable(items, parse).value
    ensures ParseTable(items, parse).value[KeyAt(items, parse, i)] == parse(items[i]).value.1
    decreases |items|
  {
    var front := items[..|items| - 1];
    ParseTableLast(items, parse);
    if i < |items| - 1 {
      forall j | i < j < |front| ensures KeyAt(front, parse, j) != KeyAt(front, parse, i) {
        assert KeyAt(front, parse, j) == KeyAt(items, parse, j);
      }
      ParseTableLastWins(front, parse, i);
      assert KeyAt(items, parse, |items| - 1) != KeyAt(items, parse, i);
    }
  }

  /** The set-level validity `checkValidityOfRelationalVariableSet` asks
      for: some variable, one shared perspective, and every variable valid
      and within the hop threshold plus one. */
  ghost predicate ValidVarSet(s: Schema, h: int, vs: set<RelVar>) {
    && vs != {}
    && (forall a, b | a in vs && b in vs :: Base(a) == Base(b))
    && forall v | v in vs :: |v.path| <= h + 1 && Validity.CheckVariable(s, v).Pass?
  }

  /** Checking any listing of a set is checking the set. */
  lemma CheckListing(s: Schema, h: int, xs: seq<RelVar>)
    ensures Validity.CheckVariableSet(s, h, xs).Pass? <==> ValidVarSet(s, h, SetOf(xs))
  {
    if ValidVarSet(s, h, SetOf(xs)) {
      assert |xs| > 0 by {
        var v :| v in SetOf(xs);
      }
      assert Validity.SamePerspective(xs) by {
        forall k | 0 <= k < |xs| ensures Base(xs[k]) == Base(xs[0]) {
          assert xs[k] in SetOf(xs) && xs[0] in SetOf(xs);
        }
      }
      forall k | 0 <= k < |xs| ensures |xs[k].path| <= h + 1 && Validity.CheckVariable(s, xs[k]).Pass? {
        assert xs[k] in SetOf(xs);
      }
    }
    if Validity.CheckVariableSet(s, h, xs).Pass? {
      assert xs[0] in SetOf(xs);
      forall a, b | a in SetOf(xs) && b in SetOf(xs) ensures Base(a) == Base(b) {
        var i :| 0 <= i < |xs| && xs[i] == a;
        var j :| 0 <= j < |xs| && xs[j] == b;
      }
      forall v | v in SetOf(xs) ensures |v.path| <= h + 1 && Validity.CheckVariable(s, v).Pass? {
        var i :| 0 <= i < |xs| && xs[i] == v;
      }
    }
  }

  /** The variables one stored entry is checked over. */
  function EntryVars(t: SepsetTable, k: (RelVar, RelVar)): set<RelVar>
    requires k in t
  {
    {k.0, k.1} + t[k]
  }

  /** Every stored entry passes the variable-set check. */
  ghost predicate AllValid(s: Schema, h: int, t: SepsetTable) {
    forall k | k in t :: ValidVarSet(s, h, EntryVars(t, k))
  }

  /** `setSepsets`: a non-dictionary is refused and nothing changes; a
      dictionary whose items do not all parse raises the first parse error
      and nothing changes; otherwise the parsed table is stored, and then
      each entry (in the table's own order) is checked, the first invalid
      one raising after the table is already in place. */
  method SetSepsets(m: Rcd, arg: SepsetsArg) returns (m': Rcd, out: Outcome)
    ensures arg.NotDict? ==> m' == m && out == Fail(NotDict)
    ensures arg.Dict? && ParseTable(arg.items, ParseEntry).Err? ==> m' == m && out == Fail(ParseTable(arg.items, ParseEntry).msg)
    ensures arg.Dict? && ParseTable(arg.items, ParseEntry).Ok? ==> m' == m.(sepsets := Some(ParseTable(arg.items, ParseEntry).value))
    ensures out.Pass? <==> arg.Dict? && ParseTable(arg.items, ParseEntry).Ok? && AllValid(m.schema, m.hop, ParseTable(arg.items, ParseEntry).value)
  {
    if arg.NotDict? {
      return m, Fail(NotDict);
    }
    var parsed := ParseTable(arg.items, ParseEntry);
    if parsed.Err? {
      return m, Fail(parsed.msg);
    }
    m' := m.(sepsets := Some(parsed.value));
    out := CheckEntries(m.schema, m.hop, parsed.value);
  }

  /** The entries listed first have all passed. */
  ghost predicate ValidUpTo(s: Schema, h: int, t: SepsetTable, keys: seq<(RelVar, RelVar)>, i: nat)
    requires i <= |keys| && forall j :: 0 <= j < |keys| ==> keys[j] in t
  {
    forall j :: 0 <= j < i ==> ValidVarSet(s, h, EntryVars(t, keys[j]))
  }

  /** Checking a listing of one entry's variables decides that entry. */
  lemma CheckEntry(s: Schema, h: int, t: SepsetTable, keys: seq<(RelVar, RelVar)>, i: nat, vs: seq<RelVar>)
    requires i < |keys| && (forall j :: 0 <= j < |keys| ==> keys[j] in t) && ValidUpTo(s, h, t, keys, i)
    requires SetOf(vs) == EntryVars(t, keys[i])
    ensures Validity.CheckVariableSet(s, h, vs).Pass? <==> ValidVarSet(s, h, EntryVars(t, keys[i]))
    ensures Validity.CheckVariableSet(s, h, vs).Pass? ==> ValidUpTo(s, h, t, keys, i + 1)
  {
    CheckListing(s, h, vs);
  }

  /** Every listed entry passing is every stored entry passing. */
  lemma AllListed(s: Schema, h: int, t: SepsetTable, keys: seq<(RelVar, RelVar)>)
    requires SetOf(keys) == t.Keys && ValidUpTo(s, h, t, keys, |keys|)
    ensures AllValid(s, h, t)
  {
    forall k | k in t ensures ValidVarSet(s, h, EntryVars(t, k)) {
      var j :| 0 <= j < |keys| && keys[j] == k;
    }
  }

  /** The checking loop of `setSepsets`: each entry, in the table's own
      order, checked over its two variables and its conditioning set; the
      first invalid entry raises. */
  method CheckEntries(s: Schema, h: int, t: SepsetTable) returns (out: Outcome)
    ensures out.Pass? <==> AllValid(s, h, t)
  {
    var keys := Enumerate(t.Keys);
    assert forall j :: 0 <= j < |keys| ==> keys[j] in t;
    for i := 0 to |keys|
      invariant ValidUpTo(s, h, t, keys, i)
    {
      var vs := Enumerate(EntryVars(t, keys[i]));
      CheckEntry(s, h, t, keys, i, vs);
      var o := Validity.CheckVariableSet(s, h, vs);
      if o.Fail? {
        return o;
      }
    }
    AllListed(s, h, t, keys);
    return Pass;
  }
}
