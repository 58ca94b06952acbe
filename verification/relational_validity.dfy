/** Validity of relational paths, variables, dependencies and variable sets
    against a schema. Each check either passes or fails with a message; the
    source raises an exception where the model returns `Fail`. */
module Validity {
  import opened Wrappers
  import opened Schemas
  import opened RelVars

  const NoItem := "Schema has no item in relationalPath"
  const NotParticipating := "Entity does not participate in relationship"
  const NotAlternating := "Invalid item pair in relationalPath: types must alternate between entities and relationships"
  const EREPattern := "Found ERE pattern in relationalPath"
  const RERPattern := "Found RER pattern in relationalPath with card(R, E) = ONE"
  const NoAttribute := "Schema item has no attribute in relationalVariable"
  const NotCanonical := "Dependency is not canonical"
  const InconsistentBase := "Dependency has inconsistent base items"
  const EmptyVariableSet := "Relational variable set is empty"
  const InconsistentPerspective := "Perspective is not consistent across all relational variables"
  const TooLong := "Relational variable is longer than the hop threshold"

  // ---------------------------------------------------------------------------
  // The three scans of the path check, each as written.

  /** The pair test applied to consecutive items `a, b`. */
  predicate PairPasses(s: Schema, a: string, b: string) {
    if HasEntity(s, a) && HasRelationship(s, b) then Involves(GetRelationship(s, b).value, a)
    else if HasRelationship(s, a) && HasEntity(s, b) then Involves(GetRelationship(s, a).value, b)
    else false
  }

  /** The cardinality the relationship `rel` has at its end `e`, read the way the
      source reads it: through whichever endpoint field names `e`. */
  predicate CardOneAt(rel: Item, e: string)
    requires rel.Relationship?
  {
    (rel.entity1 == e && CardMap(rel)[rel.entity1] == One)
    || (rel.entity2 == e && CardMap(rel)[rel.entity2] == One)
  }

  /** The triple test applied to `a, m, c`. */
  predicate TriplePasses(s: Schema, a: string, m: string, c: string) {
    if a == c && HasRelationship(s, m) then false
    else if a == c && HasEntity(s, m) then
      HasRelationship(s, a) && GetRelationship(s, a).value.Relationship?
      && !CardOneAt(GetRelationship(s, a).value, m)
    else true
  }

  function CheckItems(s: Schema, p: seq<string>, i: nat): (r: Outcome)
    requires i <= |p|
    ensures r.Pass? <==> forall j :: i <= j < |p| ==> HasSchemaItem(s, p[j])
    ensures r.Fail? ==> r == Fail(NoItem)
    decreases |p| - i
  {
    if i == |p| then Pass
    else if !HasSchemaItem(s, p[i]) then Fail(NoItem)
    else CheckItems(s, p, i + 1)
  }

  function CheckPairs(s: Schema, p: seq<string>, i: nat): (r: Outcome)
    requires i <= |p|
    ensures r.Pass? <==> forall j :: i <= j < |p| - 1 ==> PairPasses(s, p[j], p[j + 1])
    decreases |p| - i
  {
    if i + 1 >= |p| then Pass
    else if HasEntity(s, p[i]) && HasRelationship(s, p[i + 1]) then
      if !Involves(GetRelationship(s, p[i + 1]).value, p[i]) then Fail(NotParticipating)
      else CheckPairs(s, p, i + 1)
    else if HasRelationship(s, p[i]) && HasEntity(s, p[i + 1]) then
      if !Involves(GetRelationship(s, p[i]).value, p[i + 1]) then Fail(NotParticipating)
      else CheckPairs(s, p, i + 1)
    else Fail(NotAlternating)
  }

  function CheckTriples(s: Schema, p: seq<string>, i: nat): (r: Outcome)
    requires i <= |p|
    ensures r.Pass? <==> forall j :: i <= j < |p| - 2 ==> TriplePasses(s, p[j], p[j + 1], p[j + 2])
    decreases |p| - i
  {
    if i + 2 >= |p| then Pass
    else if p[i] == p[i + 2] && HasRelationship(s, p[i + 1]) then Fail(EREPattern)
    else if p[i] == p[i + 2] && HasEntity(s, p[i + 1]) then
      match GetRelationship(s, p[i])
      case Err(m) => Fail(m)
      case Ok(rel) =>
        if !rel.Relationship? then Fail("Schema item is not a relationship")
        else if CardOneAt(rel, p[i + 1]) then Fail(RERPattern)
        else CheckTriples(s, p, i + 1)
    else CheckTriples(s, p, i + 1)
  }

  /** checkRelationalPathValidity: every item exists, then every consecutive
      pair alternates between an entity and a relationship it takes part in,
      then no entity-relationship-entity back-tracking and no
      relationship-entity-relationship back-tracking over a ONE end. */
  function CheckPath(s: Schema, p: seq<string>): (r: Outcome)
    ensures r.Pass? <==> (forall j :: 0 <= j < |p| ==> HasSchemaItem(s, p[j]))
                         && (forall j :: 0 <= j < |p| - 1 ==> PairPasses(s, p[j], p[j + 1]))
                         && (forall j :: 0 <= j < |p| - 2 ==> TriplePasses(s, p[j], p[j + 1], p[j + 2]))
    ensures (exists j :: 0 <= j < |p| && !HasSchemaItem(s, p[j])) ==> r == Fail(NoItem)
  {
    var items := CheckItems(s, p, 0);
    if items.Fail? then items
    else
      var pairs := CheckPairs(s, p, 0);
      if pairs.Fail? then pairs else CheckTriples(s, p, 0)
  }

  // ---------------------------------------------------------------------------
  // The declarative reading of a valid path, for schemas built by the schema
  // operations (where no name is both an entity and a relationship).

  /** `e` is an entity that is an endpoint of the relationship `r`. */
  predicate Participates(s: Schema, e: string, r: string) {
    HasEntity(s, e) && HasRelationship(s, r) && Involves(GetRelationship(s, r).value, e)
  }

  /** The cardinality of relationship `r` at its end `e`. */
  predicate ManyAt(s: Schema, r: string, e: string) {
    HasRelationship(s, r) && GetRelationship(s, r).value.Relationship?
    && e in CardMap(GetRelationship(s, r).value) && CardMap(GetRelationship(s, r).value)[e] == Many
  }

  /** A relational path: items alternate between entities and relationships,
      each entity taking part in its neighbouring relationships; the path may
      turn back only at an entity, and only through a relationship whose
      cardinality at that entity is MANY. */
  predicate ValidPath(s: Schema, p: seq<string>) {
    (forall j :: 0 <= j < |p| ==> HasSchemaItem(s, p[j]))
    && (forall j :: 0 <= j < |p| - 1 ==> Adjacent(s, p[j], p[j + 1]))
    && (forall j :: 0 <= j < |p| - 2 ==> TurnOk(s, p[j], p[j + 1], p[j + 2]))
  }

  /** One of `a`, `b` is an entity taking part in the other, a relationship. */
  predicate Adjacent(s: Schema, a: string, b: string) {
    Participates(s, a, b) || Participates(s, b, a)
  }

  /** A walk `a, m, c` that turns back (`a == c`) does so at an entity `m`
      through a relationship `a` that is MANY at `m`. */
  predicate TurnOk(s: Schema, a: string, m: string, c: string) {
    a == c ==> ManyAt(s, a, m)
  }

  lemma EntityNotRelationship(s: Schema, n: string)
    requires WellFormed(s)
    ensures !(HasEntity(s, n) && HasRelationship(s, n))
  {
    var es, rs := Names(s.entities), Names(s.relationships);
    forall i, j | 0 <= i < |es| && 0 <= j < |rs| ensures es[i] != rs[j] {
      assert (es + rs)[i] == es[i] && (es + rs)[|es| + j] == rs[j];
    }
  }

  lemma RelationshipItem(s: Schema, n: string)
    requires WellFormed(s) && HasRelationship(s, n)
    ensures GetRelationship(s, n).value.Relationship?
  {
  }

  lemma PairPassesIff(s: Schema, a: string, b: string)
    requires WellFormed(s)
    ensures PairPasses(s, a, b) <==> Adjacent(s, a, b)
  {
    EntityNotRelationship(s, a);
    EntityNotRelationship(s, b);
  }

  lemma TriplePassesIff(s: Schema, a: string, m: string, c: string)
    requires WellFormed(s) && HasSchemaItem(s, m)
    requires Adjacent(s, a, m)
    ensures TriplePasses(s, a, m, c) <==> TurnOk(s, a, m, c)
  {
    EntityNotRelationship(s, a);
    EntityNotRelationship(s, m);
    if HasRelationship(s, a) {
      RelationshipItem(s, a);
    }
  }

  /** On a well-formed schema the path check passes exactly on valid paths. */
  lemma CheckPathValid(s: Schema, p: seq<string>)
    requires WellFormed(s)
    ensures CheckPath(s, p).Pass? <==> ValidPath(s, p)
  {
    forall j | 0 <= j < |p| - 1 {
      PairPassesIff(s, p[j], p[j + 1]);
    }
    if ValidPath(s, p) {
      forall j | 0 <= j < |p| - 2 {
        TriplePassesIff(s, p[j], p[j + 1], p[j + 2]);
      }
    }
    if CheckPath(s, p).Pass? {
      forall j | 0 <= j < |p| - 2 ensures TurnOk(s, p[j], p[j + 1], p[j + 2]) {
        TriplePassesIff(s, p[j], p[j + 1], p[j + 2]);
      }
    }
  }

  lemma AdjacentSymmetric(s: Schema, a: string, b: string)
    requires Adjacent(s, a, b)
    ensures Adjacent(s, b, a)
  {
  }

  /** A valid path walked backwards is valid: alternation, participation and
      the turning rule read the same in both directions. */
  lemma ReversedPathValid(s: Schema, p: seq<string>)
    requires ValidPath(s, p)
    ensures ValidPath(s, Rev(p))
  {
    var q := Rev(p);
    var n := |p|;
    forall j | 0 <= j < n ensures HasSchemaItem(s, q[j]) {
      assert q[j] == p[n - 1 - j];
    }
    forall j | 0 <= j < n - 1 ensures Adjacent(s, q[j], q[j + 1]) {
      var k := n - 2 - j;
      assert q[j] == p[k + 1] && q[j + 1] == p[k];
      AdjacentSymmetric(s, p[k], p[k + 1]);
    }
    forall j | 0 <= j < n - 2 ensures TurnOk(s, q[j], q[j + 1], q[j + 2]) {
      var k := n - 3 - j;
      assert q[j] == p[k + 2] && q[j + 1] == p[k + 1] && q[j + 2] == p[k];
      assert TurnOk(s, p[k], p[k + 1], p[k + 2]);
    }
  }

  // ---------------------------------------------------------------------------
  // Variables and dependencies.

  /** The attribute names declared on the terminal item of `v`. */
  predicate HasAttributeAt(s: Schema, item: string, attr: string) {
    HasSchemaItem(s, item) && attr in AttrNames(GetSchemaItem(s, item).value.attributes)
  }

  /** checkRelationalVariableValidity: the path must be valid, and unless the
      variable is the existence variable its attribute must be declared on the
      terminal item. */
  function CheckVariable(s: Schema, v: RelVar): (r: Outcome)
    ensures r.Pass? <==> CheckPath(s, v.path).Pass?
                         && (IsExistence(v) || HasAttributeAt(s, Terminal(v), v.attrName))
    ensures CheckPath(s, v.path).Fail? ==> r == CheckPath(s, v.path)
  {
    var path := CheckPath(s, v.path);
    if path.Fail? then path
    else if IsExistence(v) then Pass
    else
      match GetSchemaItem(s, Terminal(v))
      case Err(m) => Fail(m)
      case Ok(item) => if v.attrName !in AttrNames(item.attributes) then Fail(NoAttribute) else Pass
  }

  predicate ValidVariable(s: Schema, v: RelVar) {
    ValidPath(s, v.path) && (IsExistence(v) || HasAttributeAt(s, Terminal(v), v.attrName))
  }

  lemma CheckVariableValid(s: Schema, v: RelVar)
    requires WellFormed(s)
    ensures CheckVariable(s, v).Pass? <==> ValidVariable(s, v)
  {
    CheckPathValid(s, v.path);
  }

  /** checkRelationalDependencyValidity: the effect must have a singleton path,
      the two bases must agree, then the effect and the cause must be valid
      variables, in that order. */
  function CheckDependency(s: Schema, d: RelDep): (r: Outcome)
    ensures |d.effect.path| > 1 ==> r == Fail(NotCanonical)
    ensures |d.effect.path| == 1 && Base(d.cause) != Base(d.effect) ==> r == Fail(InconsistentBase)
    ensures r.Pass? <==> |d.effect.path| == 1 && Base(d.cause) == Base(d.effect)
                         && CheckVariable(s, d.effect).Pass? && CheckVariable(s, d.cause).Pass?
  {
    if |d.effect.path| > 1 then Fail(NotCanonical)
    else if Base(d.cause) != Base(d.effect) then Fail(InconsistentBase)
    else
      var effect := CheckVariable(s, d.effect);
      if effect.Fail? then effect else CheckVariable(s, d.cause)
  }

  /** A valid dependency: canonical, one perspective, and both variables valid. */
  predicate ValidDependency(s: Schema, d: RelDep) {
    |d.effect.path| == 1 && Base(d.cause) == Base(d.effect)
    && ValidVariable(s, d.effect) && ValidVariable(s, d.cause)
  }

  lemma CheckDependencyValid(s: Schema, d: RelDep)
    requires WellFormed(s)
    ensures CheckDependency(s, d).Pass? <==> ValidDependency(s, d)
  {
    CheckVariableValid(s, d.effect);
    CheckVariableValid(s, d.cause);
  }

  /** The reverse of a valid dependency is valid: the cause's path walked back
      ends at the old base, which carries the old effect's attribute, and the
      new effect sits on the old terminal, which carries the old cause's. */
  lemma ReverseValid(s: Schema, d: RelDep)
    requires ValidDependency(s, d)
    ensures ValidDependency(s, Reverse(d))
  {
    var r := Reverse(d);
    ReversedPathValid(s, d.cause.path);
    assert Terminal(r.cause) == Base(d.cause) == Terminal(d.effect);
    assert ValidVariable(s, r.cause);
    assert HasSchemaItem(s, Terminal(d.cause));
    assert ValidVariable(s, r.effect);
  }

  // ---------------------------------------------------------------------------
  // Variable sets.

  predicate SamePerspective(vars: seq<RelVar>)
    requires |vars| > 0
  {
    forall k :: 0 <= k < |vars| ==> Base(vars[k]) == Base(vars[0])
  }

  function CheckEach(s: Schema, h: int, vars: seq<RelVar>): (r: Outcome)
    ensures r.Pass? <==> forall k :: 0 <= k < |vars| ==>
                           |vars[k].path| <= h + 1 && CheckVariable(s, vars[k]).Pass?
  {
    if |vars| == 0 then Pass
    else if |vars[0].path| > h + 1 then Fail(TooLong)
    else
      var first := CheckVariable(s, vars[0]);
      if first.Fail? then first else CheckEach(s, h, vars[1..])
  }

  /** checkValidityOfRelationalVariableSet, for the variables in the order the
      source iterates them: an empty collection fails (the source indexes its
      first element), then all bases must equal the first one's, then each
      variable in turn must be within the hop threshold and valid. */
  function CheckVariableSet(s: Schema, h: int, vars: seq<RelVar>): (r: Outcome)
    ensures |vars| == 0 ==> r.Fail?
    ensures |vars| > 0 && !SamePerspective(vars) ==> r == Fail(InconsistentPerspective)
    ensures r.Pass? <==> |vars| > 0 && SamePerspective(vars)
                         && forall k :: 0 <= k < |vars| ==>
                              |vars[k].path| <= h + 1 && CheckVariable(s, vars[k]).Pass?
  {
    if |vars| == 0 then Fail(EmptyVariableSet)
    else if !SamePerspective(vars) then Fail(InconsistentPerspective)
    else CheckEach(s, h, vars)
  }

  /** The set-level reading: nonempty, one perspective, every variable within
      the hop threshold and valid. */
  predicate ValidVariableSet(s: Schema, h: int, vars: set<RelVar>) {
    vars != {}
    && (forall a, b :: a in vars && b in vars ==> Base(a) == Base(b))
    && (forall v :: v in vars ==> |v.path| <= h + 1 && ValidVariable(s, v))
  }

  /** Whatever order a set of variables is iterated in, the check passes exactly
      when the set is valid. */
  lemma CheckVariableSetValid(s: Schema, h: int, vars: seq<RelVar>)
    requires WellFormed(s)
    ensures CheckVariableSet(s, h, vars).Pass? <==> ValidVariableSet(s, h, set v | v in vars)
  {
    var vs := set v | v in vars;
    forall v | v in vars {
      CheckVariableValid(s, v);
    }
    if |vars| > 0 {
      assert vars[0] in vs;
    }
    if ValidVariableSet(s, h, vs) {
      assert vars[0] in vs;
      forall k | 0 <= k < |vars| ensures Base(vars[k]) == Base(vars[0]) {
        assert vars[k] in vs;
      }
    }
    if CheckVariableSet(s, h, vars).Pass? {
      forall a, b | a in vs && b in vs ensures Base(a) == Base(b) {
        var i :| 0 <= i < |vars| && vars[i] == a;
        var j :| 0 <= j < |vars| && vars[j] == b;
      }
    }
  }
}
