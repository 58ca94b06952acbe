/** Reading the in-memory store: summarising a list of values with an
    aggregator, walking a relational path from one instance, collecting a
    variable's values at the end of the path, and pairing every instance of a
    base item with the Cartesian product of its summaries.

    Python iterates a set in an order of its own choosing; the model takes
    that order as a parameter (`Order`) and states which results do not
    depend on it. */
module DataQueries {
  import opened Wrappers
  import opened Schemas
  import opened RelVars
  import opened Aggregators
  import opened DataStores
  import opened Collections

  const UnknownAggregator := "Unknown aggregator"
  const Unorderable := "unorderable types"
  const NotSubscriptable := "'set' object does not support indexing"
  const BadOperand := "unsupported operand type(s) for +"
  const NoBaseTable := "No table found for base item"

  /** What `aggregate` hands back: one value (None included), or the
      collection it was given, passed through unchanged. */
  datatype AggOut = Scalar(v: Value) | Listed(vs: seq<Value>)

  // ---------------------------------------------------------------------------
  // Python's comparisons on values.

  /** `a < b`: numbers with numbers, strings with strings by code point;
      every other pairing, None included, raises. */
  function Less(a: Value, b: Value): Result<bool> {
    if a.Num? && b.Num? then Ok(a.x < b.x)
    else if a.Str? && b.Str? then Ok(StrLess(a.s, b.s))
    else Err(Unorderable)
  }

  /** `a <= b`, under the same typing rules as `<`. */
  function LessEq(a: Value, b: Value): Result<bool> {
    if a.Num? && b.Num? then Ok(a.x <= b.x)
    else if a.Str? && b.Str? then Ok(StrLess(a.s, b.s) || a.s == b.s)
    else Err(Unorderable)
  }

  /** The comparison a case statement asks for, between the nested result and
      the statement's value. A collection equals no single value and cannot
      be ordered against one. */
  function Compare(code: int, nested: AggOut, c: Value): Result<bool>
    requires EqualsOp <= code <= GreaterThanOrEqualOp
  {
    if code == EqualsOp then Ok(nested == Scalar(c))
    else if code == NotEqualsOp then Ok(nested != Scalar(c))
    else if nested.Listed? then Err(Unorderable)
    else if code == LessThanOp then Less(nested.v, c)
    else if code == LessThanOrEqualOp then LessEq(nested.v, c)
    else if code == GreaterThanOp then Less(c, nested.v)
    else LessEq(c, nested.v)
  }

  /** One case statement's test; a statement whose operator is none of the
      six is passed over. */
  function Test(nested: AggOut, cs: CaseStatement): Result<bool> {
    if KnownOperator(cs.op) then Compare(OperatorCode(cs.op), nested, cs.compareVal) else Ok(false)
  }

  /** The case statements in order: the first that holds gives its value, the
      first test that raises stops the search, and the default comes last. */
  function FirstCase(nested: AggOut, cases: seq<CaseStatement>, elseValue: Value): Result<Value>
    decreases |cases|
  {
    if |cases| == 0 then Ok(elseValue)
    else
      var hit :- Test(nested, cases[0]);
      if hit then Ok(cases[0].returnVal) else FirstCase(nested, cases[1..], elseValue)
  }

  /** After any run of statements that do not hold, the next statement that
      holds or raises decides the result, and the default is returned only
      when none does. */
  lemma {:induction false} FirstCaseDecides(nested: AggOut, cases: seq<CaseStatement>, elseValue: Value, k: nat)
    requires k <= |cases|
    requires forall j :: 0 <= j < k ==> Test(nested, cases[j]) == Ok(false)
    ensures k == |cases| ==> FirstCase(nested, cases, elseValue) == Ok(elseValue)
    ensures k < |cases| && Test(nested, cases[k]) == Ok(true) ==>
              FirstCase(nested, cases, elseValue) == Ok(cases[k].returnVal)
    ensures k < |cases| && Test(nested, cases[k]).Err? ==>
              FirstCase(nested, cases, elseValue) == Err(Test(nested, cases[k]).msg)
    decreases k
  {
    if k > 0 {
      assert Test(nested, cases[0]) == Ok(false);
      var rest := cases[1..];
      forall j | 0 <= j < k - 1 ensures Test(nested, rest[j]) == Ok(false) {
        assert rest[j] == cases[j + 1];
      }
      FirstCaseDecides(nested, rest, elseValue, k - 1);
    }
  }

  // ---------------------------------------------------------------------------
  // The aggregators.

  predicate AllNum(vals: seq<Value>) {
    forall i :: 0 <= i < |vals| ==> vals[i].Num?
  }

  predicate AllStr(vals: seq<Value>) {
    forall i :: 0 <= i < |vals| ==> vals[i].Str?
  }

  /** `sum`, left to right from 0. */
  function Sum(vals: seq<Value>): real
    requires AllNum(vals)
  {
    if |vals| == 0 then 0.0 else vals[0].x + Sum(vals[1..])
  }

  /** `max`: the running maximum is replaced by each later value greater than it. */
  function MaxFold(cur: Value, rest: seq<Value>): Result<Value>
    decreases |rest|
  {
    if |rest| == 0 then Ok(cur)
    else
      var greater :- Less(cur, rest[0]);
      MaxFold(if greater then rest[0] else cur, rest[1..])
  }

  /** `aggregate`: `vals` is what the traversal reached, and `indexable` is
      false when it was a set of instance ids rather than a list of values. */
  function Aggregate(a: Aggregator, vals: seq<Value>, indexable: bool): (r: Result<AggOut>)
    ensures r.Ok? && r.value.Listed? ==> a.Simple? && a.kind == Identity && r.value.vs == vals && |vals| > 0
    ensures a.Simple? && (a.kind == Plain || a.kind == NoneKind) ==> r == Err(UnknownAggregator)
    ensures a.Simple? && a.kind == Count ==> r == Ok(Scalar(Num(|vals| as real)))
    ensures |vals| == 0 && a.Simple? && a.kind in {Identity, NonRandomChoice, Average, Max} ==> r == Ok(Scalar(NoneVal))
    decreases a
  {
    match a
    case Simple(k, _) =>
      if k == Count then Ok(Scalar(Num(|vals| as real)))
      else if k == Plain || k == NoneKind then Err(UnknownAggregator)
      else if |vals| == 0 then Ok(Scalar(NoneVal))
      else if k == Identity then Ok(Listed(vals))
      else if k == NonRandomChoice then (if indexable then Ok(Scalar(vals[0])) else Err(NotSubscriptable))
      else if k == Average then (if AllNum(vals) then Ok(Scalar(Num(Sum(vals) / (|vals| as real)))) else Err(BadOperand))
      else
        var m :- MaxFold(vals[0], vals[1..]);
        Ok(Scalar(m))
    case Case(inner, cases, elseValue) =>
      var nested :- Aggregate(inner, vals, indexable);
      var v :- FirstCase(nested, cases, elseValue);
      Ok(Scalar(v))
  }

  /** A case aggregator compares the nested aggregator's result with each
      statement in turn and returns the first value whose test holds, else
      its default; an error in the nested aggregator comes through. */
  lemma CaseAggregate(a: Aggregator, vals: seq<Value>, indexable: bool, k: nat)
    requires a.Case? && k <= |a.cases|
    ensures Aggregate(a.agg, vals, indexable).Err? ==> Aggregate(a, vals, indexable) == Err(Aggregate(a.agg, vals, indexable).msg)
    ensures Aggregate(a.agg, vals, indexable).Ok? && (forall j :: 0 <= j < k ==> Test(Aggregate(a.agg, vals, indexable).value, a.cases[j]) == Ok(false)) ==>
              (k == |a.cases| ==> Aggregate(a, vals, indexable) == Ok(Scalar(a.elseValue)))
              && (k < |a.cases| && Test(Aggregate(a.agg, vals, indexable).value, a.cases[k]) == Ok(true) ==>
                    Aggregate(a, vals, indexable) == Ok(Scalar(a.cases[k].returnVal)))
  {
    var inner := Aggregate(a.agg, vals, indexable);
    if inner.Ok? && forall j :: 0 <= j < k ==> Test(inner.value, a.cases[j]) == Ok(false) {
      FirstCaseDecides(inner.value, a.cases, a.elseValue, k);
    }
  }

  /** The running maximum keeps the kind of the value it started from, so the
      fold succeeds exactly when nothing is left to compare or every value
      is a number, or every value is a string, like the first. */
  lemma {:induction false} MaxFoldOk(cur: Value, rest: seq<Value>)
    ensures MaxFold(cur, rest).Ok? <==> |rest| == 0 || (cur.Num? && AllNum(rest)) || (cur.Str? && AllStr(rest))
    decreases |rest|
  {
    if |rest| > 0 {
      var l := Less(cur, rest[0]);
      if l.Ok? {
        var next := if l.value then rest[0] else cur;
        MaxFoldOk(next, rest[1..]);
        assert AllNum(rest) <==> rest[0].Num? && AllNum(rest[1..]);
        assert AllStr(rest) <==> rest[0].Str? && AllStr(rest[1..]);
      } else {
        assert !(cur.Num? && AllNum(rest)) && !(cur.Str? && AllStr(rest)) by {
          assert !(cur.Num? && rest[0].Num?) && !(cur.Str? && rest[0].Str?);
        }
      }
    }
  }

  /** Over numbers the fold gives one of its inputs, at least as large as each. */
  lemma {:induction false} MaxFoldGreatest(cur: Value, rest: seq<Value>)
    requires cur.Num? && AllNum(rest)
    ensures MaxFold(cur, rest).Ok?
    ensures var m := MaxFold(cur, rest).value;
            m.Num? && (m == cur || m in rest) && cur.x <= m.x && forall i :: 0 <= i < |rest| ==> rest[i].x <= m.x
    decreases |rest|
  {
    if |rest| > 0 {
      var next := if cur.x < rest[0].x then rest[0] else cur;
      assert AllNum(rest[1..]);
      MaxFoldGreatest(next, rest[1..]);
      var m := MaxFold(next, rest[1..]).value;
      assert MaxFold(cur, rest).value == m;
      forall i | 0 <= i < |rest| ensures rest[i].x <= m.x {
        if i > 0 { assert rest[i] == rest[1..][i - 1]; }
      }
      if m != next {
        assert m in rest[1..];
      }
    }
  }

  /** `max` over a nonempty list succeeds exactly for a single value, all
      numbers or all strings; over numbers it is the largest of them. */
  lemma MaxAggregate(v: RelVar, vals: seq<Value>, indexable: bool)
    requires |vals| > 0
    ensures Aggregate(Simple(Max, v), vals, indexable).Ok? <==> |vals| == 1 || AllNum(vals) || AllStr(vals)
    ensures AllNum(vals) ==>
              exists m :: Aggregate(Simple(Max, v), vals, indexable) == Ok(Scalar(m))
                          && m in vals && forall i :: 0 <= i < |vals| ==> vals[i].x <= m.x
  {
    MaxFoldOk(vals[0], vals[1..]);
    assert AllNum(vals) <==> vals[0].Num? && AllNum(vals[1..]);
    assert AllStr(vals) <==> vals[0].Str? && AllStr(vals[1..]);
    if AllNum(vals) {
      MaxFoldGreatest(vals[0], vals[1..]);
      var m := MaxFold(vals[0], vals[1..]).value;
      forall i | 0 <= i < |vals| ensures vals[i].x <= m.x {
        if i > 0 { assert vals[i] == vals[1..][i - 1]; }
      }
      assert m in vals;
    }
  }

  /** Every value lies between a lower and an upper bound, and so does the sum
      scaled by the count. */
  lemma {:induction false} SumBounded(vals: seq<Value>, lo: real, hi: real)
    requires AllNum(vals) && forall i :: 0 <= i < |vals| ==> lo <= vals[i].x <= hi
    ensures (|vals| as real) * lo <= Sum(vals) <= (|vals| as real) * hi
    decreases |vals|
  {
    if |vals| > 0 {
      assert AllNum(vals[1..]);
      forall i | 0 <= i < |vals| - 1 ensures lo <= vals[1..][i].x <= hi {
        assert vals[1..][i] == vals[i + 1];
      }
      SumBounded(vals[1..], lo, hi);
    }
  }

  /** The average of numbers between two bounds lies between them. */
  lemma AverageBounded(v: RelVar, vals: seq<Value>, indexable: bool, lo: real, hi: real)
    requires |vals| > 0 && AllNum(vals) && forall i :: 0 <= i < |vals| ==> lo <= vals[i].x <= hi
    ensures var r := Aggregate(Simple(Average, v), vals, indexable);
            r.Ok? && r.value.Scalar? && r.value.v.Num? && lo <= r.value.v.x <= hi
  {
    SumBounded(vals, lo, hi);
    DivBounded(Sum(vals), |vals| as real, lo, hi);
  }

  lemma DivBounded(s: real, n: real, lo: real, hi: real)
    requires n > 0.0 && n * lo <= s <= n * hi
    ensures lo <= s / n <= hi
  {
    var q := s / n;
    assert q * n == s;
    assert (q - lo) * n >= 0.0 && (hi - q) * n >= 0.0;
  }

  /** The average of a list containing something other than a number raises. */
  lemma AverageNeedsNumbers(v: RelVar, vals: seq<Value>, indexable: bool)
    requires |vals| > 0
    ensures Aggregate(Simple(Average, v), vals, indexable).Ok? <==> AllNum(vals)
  {
  }

  /** Two enumerations of the same set of instance ids, as a set iterated in
      two orders gives them, count the same and have the same maximum when
      the ids are numbers. */
  lemma OrderIrrelevant(v: RelVar, xs: seq<Value>, ys: seq<Value>)
    requires PairwiseDistinct(xs) && PairwiseDistinct(ys) && SetOf(xs) == SetOf(ys)
    ensures Aggregate(Simple(Count, v), xs, false) == Aggregate(Simple(Count, v), ys, false)
    ensures |xs| > 0 && AllNum(xs) ==> Aggregate(Simple(Max, v), xs, false) == Aggregate(Simple(Max, v), ys, false)
  {
    NoDuplicatesIff(xs);
    NoDuplicatesIff(ys);
    if |xs| > 0 && AllNum(xs) {
      assert AllNum(ys) by {
        forall i | 0 <= i < |ys| ensures ys[i].Num? {
          assert ys[i] in SetOf(xs);
        }
      }
      MaxAggregate(v, xs, false);
      MaxAggregate(v, ys, false);
      var mx :| Aggregate(Simple(Max, v), xs, false) == Ok(Scalar(mx)) && mx in xs
                && forall i :: 0 <= i < |xs| ==> xs[i].x <= mx.x;
      var my :| Aggregate(Simple(Max, v), ys, false) == Ok(Scalar(my)) && my in ys
                && forall i :: 0 <= i < |ys| ==> ys[i].x <= my.x;
      assert mx in SetOf(ys) && my in SetOf(xs);
      var i :| 0 <= i < |ys| && ys[i] == mx;
      var j :| 0 <= j < |xs| && xs[j] == my;
    }
  }

  // ---------------------------------------------------------------------------
  // Walking a relational path.

  /** The instances of the next item linked, through a relationship's rows of
      (id, entity id), to the current instances: forward from an entity to the
      relationship, or back from the relationship to an entity. */
  function Linked(rows: seq<seq<Value>>, current: set<Value>, toRelationship: bool): (r: set<Value>)
    ensures forall x :: x in r <==> exists i :: 0 <= i < |rows| && |rows[i]| == 2
                                               && (if toRelationship then rows[i][1] in current && rows[i][0] == x
                                                   else rows[i][0] in current && rows[i][1] == x)
  {
    set i | 0 <= i < |rows| && |rows[i]| == 2 && (if toRelationship then rows[i][1] in current else rows[i][0] in current)
          :: if toRelationship then rows[i][0] else rows[i][1]
  }

  /** Reads, for a step from `item1` to `item2`, the instances of `item2`
      linked to the current instances of `item1`. */
  type Reader = (string, string, set<Value>) -> Result<set<Value>>

  /** The store's reader: the relationship's table is read as rows of
      (id, entity id), whichever way the step goes. */
  function Links(st: Store, s: Schema, item1: string, item2: string, current: set<Value>): Result<set<Value>> {
    var toRel := HasRelationship(s, item2);
    var ent := if toRel then item1 else item2;
    var rel := if toRel then item2 else item1;
    var rows :- GetAllRows(st, s, rel, [IdColumn, ent + "_id"]);
    Ok(Linked(rows, current, toRel))
  }

  function StoreReader(st: Store, s: Schema): Reader {
    (item1, item2, current) => Links(st, s, item1, item2, current)
  }

  /** The walk so far: the instances of the item reached last, and for every
      item on the path the instances of it visited so far. */
  datatype Visit = Visit(current: set<Value>, visited: map<string, set<Value>>)

  /** Instances of `item` visited so far; none before the walk reaches it. */
  function Seen(v: Visit, item: string): set<Value> {
    if item in v.visited then v.visited[item] else {}
  }

  /** One step from `item1` to `item2`: instances of `item2` visited before
      are dropped from what the reader links to. */
  function Step(read: Reader, item1: string, item2: string, v: Visit): (r: Result<Visit>)
    ensures r.Ok? ==> r.value.current !! Seen(v, item2)
    ensures r.Ok? ==> Seen(r.value, item2) == Seen(v, item2) + r.value.current
    ensures r.Ok? ==> forall item :: item != item2 ==> Seen(r.value, item) == Seen(v, item)
  {
    var links :- read(item1, item2, v.current);
    var seen := Seen(v, item2);
    var next := links - seen;
    Ok(Visit(next, v.visited[item2 := seen + next]))
  }

  /** The walk from `start` up to and including `path[i]`. */
  function WalkTo(read: Reader, path: Path, i: nat, start: Value): (r: Result<Visit>)
    requires i < |path|
    ensures i == 0 ==> r == Ok(Visit({start}, map[path[0] := {start}]))
    decreases i
  {
    if i == 0 then Ok(Visit({start}, map[path[0] := {start}]))
    else
      var prev :- WalkTo(read, path, i - 1, start);
      Step(read, path[i - 1], path[i], prev)
  }

  /** `_getTerminalSetForRelPath`: the instances of the last item reached
      from `start`. A one-item path gives `{start}` without reading anything,
      which is also where the walk begins. */
  function TerminalSet(st: Store, s: Schema, path: Path, start: Value): Result<set<Value>> {
    var v :- WalkTo(StoreReader(st, s), path, |path| - 1, start);
    Ok(v.current)
  }

  /** One step of the walk adds to what was visited, and what it reaches
      was not visited before. */
  lemma WalkStep(read: Reader, path: Path, i: nat, start: Value, item: string)
    requires 0 < i < |path| && WalkTo(read, path, i, start).Ok?
    ensures WalkTo(read, path, i - 1, start).Ok?
    ensures Seen(WalkTo(read, path, i - 1, start).value, item) <= Seen(WalkTo(read, path, i, start).value, item)
    ensures WalkTo(read, path, i, start).value.current !! Seen(WalkTo(read, path, i - 1, start).value, path[i])
  {
    var prev := WalkTo(read, path, i - 1, start).value;
    assert WalkTo(read, path, i, start) == Step(read, path[i - 1], path[i], prev);
  }

  /** The walk's state is settled once reached: later steps only add. */
  lemma {:induction false} VisitedGrows(read: Reader, path: Path, j: nat, i: nat, start: Value, item: string)
    requires j <= i < |path| && WalkTo(read, path, i, start).Ok?
    ensures WalkTo(read, path, j, start).Ok?
    ensures Seen(WalkTo(read, path, j, start).value, item) <= Seen(WalkTo(read, path, i, start).value, item)
    decreases i
  {
    if j < i {
      WalkStep(read, path, i, start, item);
      VisitedGrows(read, path, j, i - 1, start, item);
    }
  }

  /** The instances reached at a position are recorded as visited for its item. */
  lemma CurrentSeen(read: Reader, path: Path, i: nat, start: Value)
    requires i < |path| && WalkTo(read, path, i, start).Ok?
    ensures WalkTo(read, path, i, start).value.current <= Seen(WalkTo(read, path, i, start).value, path[i])
  {
  }

  /** An item met twice on a path is never reached at an instance already
      reached the first time, whatever the reader returns. */
  lemma NeverRevisits(read: Reader, path: Path, j: nat, i: nat, start: Value)
    requires j < i < |path| && path[j] == path[i] && WalkTo(read, path, i, start).Ok?
    ensures WalkTo(read, path, j, start).Ok?
    ensures WalkTo(read, path, i, start).value.current !! WalkTo(read, path, j, start).value.current
  {
    WalkStep(read, path, i, start, path[i]);
    VisitedGrows(read, path, j, i - 1, start, path[i]);
    CurrentSeen(read, path, j, start);
    var now := WalkTo(read, path, i, start).value.current;
    var before := Seen(WalkTo(read, path, i - 1, start).value, path[i]);
    var first := WalkTo(read, path, j, start).value.current;
    DisjointFromSuperset(now, first, before);
  }

  lemma DisjointFromSuperset<T>(a: set<T>, b: set<T>, c: set<T>)
    requires a !! c && b <= c
    ensures a !! b
  {
  }

  /** A path that ends on its base item never leads back to the instance it
      started from. */
  lemma TerminalAvoidsStart(st: Store, s: Schema, path: Path, start: Value)
    requires |path| > 1 && path[|path| - 1] == path[0]
    ensures TerminalSet(st, s, path, start).Ok? ==> start !in TerminalSet(st, s, path, start).value
  {
    if TerminalSet(st, s, path, start).Ok? {
      NeverRevisits(StoreReader(st, s), path, 0, |path| - 1, start);
    }
  }

  /** A one-step walk between two different items drops nothing: it gives
      exactly the instances the store links to the start. */
  lemma OneStep(st: Store, s: Schema, item1: string, item2: string, start: Value)
    requires item1 != item2
    ensures TerminalSet(st, s, [item1, item2], start) == Links(st, s, item1, item2, {start})
  {
    var path: Path := [item1, item2];
    var v0 := Visit({start}, map[item1 := {start}]);
    assert WalkTo(StoreReader(st, s), path, 1, start) == Step(StoreReader(st, s), item1, item2, v0);
    assert Seen(v0, item2) == {};
    var links := Links(st, s, item1, item2, {start});
    assert StoreReader(st, s)(item1, item2, {start}) == links;
    if links.Ok? {
      assert links.value - {} == links.value;
    }
  }

  // ---------------------------------------------------------------------------
  // A variable's values at the end of its path.

  /** What the traversal hands to an aggregator: the set of instance ids for
      an existence variable, else the list of the attribute's values. */
  datatype Reached = Ids(ids: set<Value>) | Values(vals: seq<Value>)

  /** The order Python iterates a set in. */
  type Order = set<Value> -> seq<Value>

  predicate Enumerates(xs: seq<Value>, ids: set<Value>) {
    SetOf(xs) == ids && PairwiseDistinct(xs)
  }

  /** The attribute's value on each instance in turn, skipping an instance
      that has no row, or whose row lacks the attribute. */
  function Cells(st: Store, item: string, ids: seq<Value>, attr: string): (r: seq<Value>)
    ensures |r| <= |ids|
    decreases |ids|
  {
    if |ids| == 0 then []
    else
      var here := match Cell(st, item, ids[0], attr) case Some(x) => [x] case None => [];
      here + Cells(st, item, ids[1..], attr)
  }

  /** A value is collected exactly when some instance holds it. */
  lemma {:induction false} CellsExact(st: Store, item: string, ids: seq<Value>, attr: string, x: Value)
    ensures x in Cells(st, item, ids, attr) <==> exists i :: 0 <= i < |ids| && Cell(st, item, ids[i], attr) == Some(x)
    decreases |ids|
  {
    if |ids| > 0 {
      CellsExact(st, item, ids[1..], attr, x);
      if exists i :: 0 <= i < |ids| && Cell(st, item, ids[i], attr) == Some(x) {
        var i :| 0 <= i < |ids| && Cell(st, item, ids[i], attr) == Some(x);
        if i > 0 { assert ids[1..][i - 1] == ids[i]; }
      }
      if exists i :: 0 <= i < |ids[1..]| && Cell(st, item, ids[1..][i], attr) == Some(x) {
        var i :| 0 <= i < |ids[1..]| && Cell(st, item, ids[1..][i], attr) == Some(x);
        assert ids[i + 1] == ids[1..][i];
      }
    }
  }

  /** `_getTerminalSetForRelVar`: the path is checked against the tables, then
      the attribute against the terminal item; an existence variable gives the
      instances reached, any other the values found on them. */
  function TerminalFor(st: Store, s: Schema, v: RelVar, start: Value, order: Order): (r: Result<Reached>)
    ensures r.Ok? <==> ValidateRelPath(s, v.path, TableNames(st)).Pass? && VerifyAttrsExist(s, v).Pass?
                       && TerminalSet(st, s, v.path, start).Ok?
    ensures ValidateRelPath(s, v.path, TableNames(st)).Fail? ==> r == Err(ValidateRelPath(s, v.path, TableNames(st)).msg)
    ensures r.Ok? && IsExistence(v) ==> r.value == Ids(TerminalSet(st, s, v.path, start).value)
    ensures r.Ok? && !IsExistence(v) ==>
              r.value.Values? && forall x :: x in r.value.vals <==>
                exists i :: 0 <= i < |order(TerminalSet(st, s, v.path, start).value)|
                            && Cell(st, Terminal(v), order(TerminalSet(st, s, v.path, start).value)[i], v.attrName) == Some(x)
  {
    var pathCheck := ValidateRelPath(s, v.path, TableNames(st));
    if pathCheck.Fail? then Err(pathCheck.msg)
    else
      var attrCheck := VerifyAttrsExist(s, v);
      if attrCheck.Fail? then Err(attrCheck.msg)
      else
        var ids :- TerminalSet(st, s, v.path, start);
        if IsExistence(v) then Ok(Ids(ids))
        else
          var xs := order(ids);
          var vals := Cells(st, Terminal(v), xs, v.attrName);
          assert forall x :: x in vals <==> exists i :: 0 <= i < |xs| && Cell(st, Terminal(v), xs[i], v.attrName) == Some(x) by {
            forall x { CellsExact(st, Terminal(v), xs, v.attrName, x); }
          }
          Ok(Values(vals))
  }

  /** A set of ids goes to the aggregator in the set's order, and cannot be indexed. */
  function AggregateReached(a: Aggregator, reached: Reached, order: Order): Result<AggOut> {
    match reached
    case Ids(ids) => Aggregate(a, order(ids), false)
    case Values(vals) => Aggregate(a, vals, true)
  }

  /** A single value, a string included, becomes a one-element tuple; a
      collection is used as it is. */
  function Wrap(o: AggOut): (r: seq<Value>)
    ensures o.Scalar? ==> r == [o.v]
  {
    match o
    case Scalar(v) => [v]
    case Listed(vs) => vs
  }

  /** One aggregator's wrapped result for one base instance: never empty,
      since a collection is passed through only when it has values. */
  function Summary(st: Store, s: Schema, id: Value, a: Aggregator, order: Order): (r: Result<seq<Value>>)
    ensures r.Ok? ==> |r.value| > 0
  {
    var reached :- TerminalFor(st, s, VariableOf(a), id, order);
    var out :- AggregateReached(a, reached, order);
    Ok(Wrap(out))
  }

  /** Each aggregator's wrapped result for one base instance, in order; the
      first aggregator that raises stops the instance. */
  function InstanceLists(st: Store, s: Schema, id: Value, aggs: seq<Aggregator>, order: Order): (r: Result<seq<seq<Value>>>)
    ensures r.Ok? ==> |r.value| == |aggs| && forall k :: 0 <= k < |aggs| ==> |r.value[k]| > 0
    decreases |aggs|
  {
    if |aggs| == 0 then Ok([])
    else
      var first :- Summary(st, s, id, aggs[0], order);
      var rest :- InstanceLists(st, s, id, aggs[1..], order);
      Ok([first] + rest)
  }

  // ---------------------------------------------------------------------------
  // The Cartesian product, in the order `itertools.product` gives it.

  function Cons(x: Value, tails: seq<seq<Value>>): (r: seq<seq<Value>>)
    ensures |r| == |tails| && forall i :: 0 <= i < |tails| ==> r[i] == [x] + tails[i]
  {
    seq(|tails|, i requires 0 <= i < |tails| => [x] + tails[i])
  }

  /** Each value of `xs` in turn, followed by each tail. */
  function Prepend(xs: seq<Value>, tails: seq<seq<Value>>): seq<seq<Value>>
    decreases |xs|
  {
    if |xs| == 0 then [] else Cons(xs[0], tails) + Prepend(xs[1..], tails)
  }

  function Product(ls: seq<seq<Value>>): seq<seq<Value>>
    decreases |ls|
  {
    if |ls| == 0 then [[]] else Prepend(ls[0], Product(ls[1..]))
  }

  /** The number of tuples: the product of the lists' lengths. */
  function Combinations(ls: seq<seq<Value>>): nat
    decreases |ls|
  {
    if |ls| == 0 then 1 else |ls[0]| * Combinations(ls[1..])
  }

  lemma {:induction false} PrependMembers(xs: seq<Value>, tails: seq<seq<Value>>, t: seq<Value>)
    ensures t in Prepend(xs, tails) <==> |t| > 0 && t[0] in xs && t[1..] in tails
    decreases |xs|
  {
    if |xs| > 0 {
      PrependMembers(xs[1..], tails, t);
      var c := Cons(xs[0], tails);
      if t in c {
        var i :| 0 <= i < |c| && c[i] == t;
        assert t[1..] == tails[i];
      }
      if |t| > 0 && t[0] == xs[0] && t[1..] in tails {
        var i :| 0 <= i < |tails| && tails[i] == t[1..];
        assert c[i] == t;
      }
      if |t| > 0 && t[0] in xs && t[0] != xs[0] {
        assert t[0] in xs[1..];
      }
    }
  }

  lemma {:induction false} PrependLength(xs: seq<Value>, tails: seq<seq<Value>>)
    ensures |Prepend(xs, tails)| == |xs| * |tails|
    decreases |xs|
  {
    if |xs| > 0 {
      PrependLength(xs[1..], tails);
    }
  }

  /** The product holds exactly the tuples taking their k-th value from the
      k-th list. */
  lemma {:induction false} ProductMembers(ls: seq<seq<Value>>, t: seq<Value>)
    ensures t in Product(ls) <==> |t| == |ls| && forall k :: 0 <= k < |ls| ==> t[k] in ls[k]
    decreases |ls|
  {
    if |ls| == 0 {
      if |t| == 0 { assert t == []; }
    } else {
      PrependMembers(ls[0], Product(ls[1..]), t);
      if |t| > 0 {
        ProductMembers(ls[1..], t[1..]);
        if |t| == |ls| && forall k :: 0 <= k < |ls| ==> t[k] in ls[k] {
          forall k | 0 <= k < |ls| - 1 ensures t[1..][k] in ls[1..][k] {
            assert t[1..][k] == t[k + 1];
          }
        }
        if t in Product(ls) {
          forall k | 0 <= k < |ls| ensures t[k] in ls[k] {
            if k > 0 { assert t[k] == t[1..][k - 1] && ls[k] == ls[1..][k - 1]; }
          }
        }
      }
    }
  }

  /** One tuple per combination. */
  lemma {:induction false} ProductLength(ls: seq<seq<Value>>)
    ensures |Product(ls)| == Combinations(ls)
    ensures (forall k :: 0 <= k < |ls| ==> |ls[k]| > 0) ==> Combinations(ls) > 0
    decreases |ls|
  {
    if |ls| > 0 {
      ProductLength(ls[1..]);
      PrependLength(ls[0], Product(ls[1..]));
      if forall k :: 0 <= k < |ls| ==> |ls[k]| > 0 {
        assert forall k :: 0 <= k < |ls| - 1 ==> |ls[1..][k]| > 0 by {
          forall k | 0 <= k < |ls| - 1 ensures |ls[1..][k]| > 0 {
            assert ls[1..][k] == ls[k + 1];
          }
        }
      }
    }
  }

  // ---------------------------------------------------------------------------
  // `getValuesForRelVarAggrs`.

  /** The rows a generator produced, and whether it ran to the end. */
  datatype Emitted = Emitted(rows: seq<(Value, seq<Value>)>, outcome: Outcome)

  function Tag(id: Value, tuples: seq<seq<Value>>): (r: seq<(Value, seq<Value>)>)
    ensures |r| == |tuples| && forall i :: 0 <= i < |r| ==> r[i] == (id, tuples[i])
  {
    seq(|tuples|, i requires 0 <= i < |tuples| => (id, tuples[i]))
  }

  /** The wrapped summaries of one base instance, or the error they raise. */
  type Summaries = Value -> Result<seq<seq<Value>>>

  /** Base instances in order, each followed by its product rows; the first
      instance whose summaries raise ends the output. */
  function RowsFor(ids: seq<Value>, lists: Summaries): Emitted
    decreases |ids|
  {
    if |ids| == 0 then Emitted([], Pass)
    else
      match lists(ids[0])
      case Err(m) => Emitted([], Fail(m))
      case Ok(ls) =>
        var rest := RowsFor(ids[1..], lists);
        Emitted(Tag(ids[0], Product(ls)) + rest.rows, rest.outcome)
  }

  function StoreSummaries(st: Store, s: Schema, aggs: seq<Aggregator>, order: Order): Summaries {
    id => InstanceLists(st, s, id, aggs, order)
  }

  /** `getValuesForRelVarAggrs`: the base item needs a table; its instances
      are taken in insertion order. */
  function GetValues(st: Store, s: Schema, base: string, aggs: seq<Aggregator>, order: Order): (r: Emitted)
    ensures base !in st.tables ==> r == Emitted([], Fail(NoBaseTable))
  {
    if base !in st.tables then Emitted([], Fail(NoBaseTable))
    else RowsFor(st.tables[base].ids, StoreSummaries(st, s, aggs, order))
  }

  /** The run completes exactly when every instance's summaries succeed, and
      then a row (x, t) comes out exactly when x is a base instance and t
      picks one value from each of its wrapped summaries. */
  lemma {:induction false} RowsForExact(ids: seq<Value>, lists: Summaries, x: Value, t: seq<Value>)
    ensures RowsFor(ids, lists).outcome.Pass? <==> forall k :: 0 <= k < |ids| ==> lists(ids[k]).Ok?
    ensures RowsFor(ids, lists).outcome.Pass? ==>
              ((x, t) in RowsFor(ids, lists).rows <==> x in ids && t in Product(lists(x).value))
    decreases |ids|
  {
    if |ids| > 0 {
      RowsForExact(ids[1..], lists, x, t);
      var first := lists(ids[0]);
      assert forall k :: 1 <= k < |ids| ==> ids[k] == ids[1..][k - 1];
      if first.Ok? {
        var rest := RowsFor(ids[1..], lists);
        var here := Tag(ids[0], Product(first.value));
        assert RowsFor(ids, lists).rows == here + rest.rows;
        if rest.outcome.Pass? {
          if (x, t) in here {
            var i :| 0 <= i < |here| && here[i] == (x, t);
          }
          if x == ids[0] && t in Product(first.value) {
            var i :| 0 <= i < |Product(first.value)| && Product(first.value)[i] == t;
            assert here[i] == (x, t);
          }
          if x in ids && x != ids[0] {
            assert x in ids[1..];
          }
        }
      }
    }
  }

  /** When the instances before position k succeed and the one at k raises,
      the run stops there with that error, after all the rows of the
      instances before it. */
  lemma {:induction false} RowsForStops(ids: seq<Value>, lists: Summaries, k: nat)
    requires k < |ids| && lists(ids[k]).Err?
    requires forall j :: 0 <= j < k ==> lists(ids[j]).Ok?
    ensures RowsFor(ids, lists) == Emitted(RowsFor(ids[..k], lists).rows, Fail(lists(ids[k]).msg))
    decreases k
  {
    if k == 0 {
      assert ids[..0] == [];
    } else {
      var tail := ids[1..];
      assert lists(ids[0]).Ok?;
      forall j | 0 <= j < k - 1 ensures lists(tail[j]).Ok? {
        assert tail[j] == ids[j + 1];
      }
      assert tail[k - 1] == ids[k];
      RowsForStops(tail, lists, k - 1);
      var prefix := ids[..k];
      assert prefix[0] == ids[0] && prefix[1..] == tail[..k - 1];
    }
  }

  /** An instance whose wrapped summaries are all nonempty yields at least
      one row when the run completes. */
  lemma InstanceEmits(ids: seq<Value>, lists: Summaries, k: nat)
    requires k < |ids| && RowsFor(ids, lists).outcome.Pass?
    requires lists(ids[k]).Ok? ==> forall j :: 0 <= j < |lists(ids[k]).value| ==> |lists(ids[k]).value[j]| > 0
    ensures exists t :: (ids[k], t) in RowsFor(ids, lists).rows
  {
    var x := ids[k];
    RowsForExact(ids, lists, x, []);
    var ls := lists(x).value;
    ProductLength(ls);
    var t := Product(ls)[0];
    RowsForExact(ids, lists, x, t);
  }

  /** Every base instance yields at least one row when the run completes. */
  lemma EveryInstanceEmits(st: Store, s: Schema, base: string, aggs: seq<Aggregator>, order: Order, k: nat)
    requires base in st.tables && k < |st.tables[base].ids|
    requires GetValues(st, s, base, aggs, order).outcome.Pass?
    ensures exists t :: (st.tables[base].ids[k], t) in GetValues(st, s, base, aggs, order).rows
  {
    var lists := StoreSummaries(st, s, aggs, order);
    var x := st.tables[base].ids[k];
    assert lists(x) == InstanceLists(st, s, x, aggs, order);
    InstanceEmits(st.tables[base].ids, lists, k);
  }
}
