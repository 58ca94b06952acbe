/** A relational causal model: a schema plus a list of relational
    dependencies, checked against the schema and turned into a precedence DAG
    over existence and attribute variables that must be acyclic. */
module CausalModel {
  import opened Wrappers
  import opened Schemas
  import opened RelVars
  import opened ParserUtil
  import opened Digraphs
  import Validity
  import opened Collections

  const DuplicateDependency := "Found duplicate dependency"
  const CycleFound := "dependencies encodes a cycle among relational variables"

  /** The existence variable of one item, seen from that item. */
  function ExistsVar(n: string): RelVar {
    RelVar([n], ExistsAttr)
  }

  /** A checker of one dependency against the schema, as the constructor takes it. */
  type Checker = (Schema, RelDep) -> Outcome

  datatype Model = Model(schema: Schema, dependencies: seq<RelDep>,
                         nodes: set<RelVar>, arcs: set<(RelVar, RelVar)>)

  // ---------------------------------------------------------------------------
  // Parsing and checking, one dependency at a time, in list order.

  /** Parses every entry; the first entry that does not parse decides the error. */
  function ParseAll(deps: seq<Obj>): (r: Result<seq<RelDep>>)
    ensures r.Ok? <==> forall i :: 0 <= i < |deps| ==> ParseRelDep(deps[i]).Ok?
    ensures r.Ok? ==> |r.value| == |deps|
                      && forall i :: 0 <= i < |deps| ==> ParseRelDep(deps[i]) == Ok(r.value[i])
    ensures r.Err? ==> exists i :: 0 <= i < |deps| && ParseRelDep(deps[i]) == Err(r.msg)
                                   && forall j :: 0 <= j < i ==> ParseRelDep(deps[j]).Ok?
  {
    ParseEvery(deps, ParseRelDep)
  }

  /** The same over any parser of one entry. */
  function ParseEvery<T>(items: seq<Obj>, parse: Obj -> Result<T>): (r: Result<seq<T>>)
    ensures r.Ok? <==> forall i :: 0 <= i < |items| ==> parse(items[i]).Ok?
    ensures r.Ok? ==> |r.value| == |items|
                      && forall i :: 0 <= i < |items| ==> parse(items[i]) == Ok(r.value[i])
    ensures r.Err? ==> exists i :: 0 <= i < |items| && parse(items[i]) == Err(r.msg)
                                   && forall j :: 0 <= j < i ==> parse(items[j]).Ok?
  {
    if |items| == 0 then Ok([])
    else
      match parse(items[0])
      case Err(m) => Err(m)
      case Ok(d) =>
        match ParseEvery(items[1..], parse)
        case Err(m) =>
          assert exists i :: 0 <= i < |items| && parse(items[i]) == Err(m)
                             && forall j :: 0 <= j < i ==> parse(items[j]).Ok? by {
            var i :| 0 <= i < |items| - 1 && parse(items[1..][i]) == Err(m)
                     && forall j :: 0 <= j < i ==> parse(items[1..][j]).Ok?;
            assert parse(items[i + 1]) == Err(m);
            assert forall j :: 0 <= j < i + 1 ==> parse(items[j]).Ok? by {
              forall j | 0 <= j < i + 1 ensures parse(items[j]).Ok? {
                if j > 0 { assert items[j] == items[1..][j - 1]; }
              }
            }
          }
          Err(m)
        case Ok(ds) => Ok([d] + ds)
  }

  /** Runs the checker on every dependency; the first failure is raised. */
  function CheckAll(s: Schema, deps: seq<RelDep>, checker: Checker): (r: Outcome)
    ensures r.Pass? <==> forall i :: 0 <= i < |deps| ==> checker(s, deps[i]).Pass?
    ensures r.Fail? ==> exists i :: 0 <= i < |deps| && r == checker(s, deps[i])
                                   && forall j :: 0 <= j < i ==> checker(s, deps[j]).Pass?
  {
    if |deps| == 0 then Pass
    else
      var first := checker(s, deps[0]);
      if first.Fail? then first
      else
        var rest := CheckAll(s, deps[1..], checker);
        if rest.Fail? then
          assert exists i :: 0 <= i < |deps| && rest == checker(s, deps[i])
                             && forall j :: 0 <= j < i ==> checker(s, deps[j]).Pass? by {
            var i :| 0 <= i < |deps| - 1 && rest == checker(s, deps[1..][i])
                     && forall j :: 0 <= j < i ==> checker(s, deps[1..][j]).Pass?;
            assert rest == checker(s, deps[i + 1]);
            forall j | 0 <= j < i + 1 ensures checker(s, deps[j]).Pass? {
              if j > 0 { assert deps[j] == deps[1..][j - 1]; }
            }
          }
          rest
        else Pass
  }

  // ---------------------------------------------------------------------------
  // The precedence DAG.

  /** The attribute variable of every declared attribute, from its own item. */
  function DeclaredVars(items: seq<Item>): set<RelVar> {
    set it, a | it in items && a in it.attributes :: RelVar([it.name], a.name)
  }

  /** The effects of the dependencies and every declared attribute. */
  function AttrVars(s: Schema, deps: seq<RelDep>): set<RelVar> {
    (set d | d in deps :: d.effect) + DeclaredVars(SchemaItems(s))
  }

  function ExistenceNodes(s: Schema): set<RelVar> {
    set it | it in SchemaItems(s) :: ExistsVar(it.name)
  }

  /** Entity existence precedes the existence of each relationship it takes part in. */
  function RelationshipArcs(s: Schema): set<(RelVar, RelVar)> {
    (set r | r in s.relationships && r.Relationship? :: (ExistsVar(r.entity1), ExistsVar(r.name)))
    + (set r | r in s.relationships && r.Relationship? :: (ExistsVar(r.entity2), ExistsVar(r.name)))
  }

  /** An item's existence precedes each of its attributes. */
  function AttributeArcs(vars: set<RelVar>): set<(RelVar, RelVar)> {
    set v | v in vars && !IsExistence(v) :: (ExistsVar(Base(v)), v)
  }

  /** The cause's attribute on its terminal item precedes the effect, and so
      does the existence of every item on the cause's path after its base. */
  function DependencyArcs(deps: seq<RelDep>): set<(RelVar, RelVar)> {
    (set d | d in deps :: (RelVar([Terminal(d.cause)], d.cause.attrName), d.effect))
    + (set d, i | d in deps && 1 <= i < |d.cause.path| :: (ExistsVar(d.cause.path[i]), d.effect))
  }

  function Arcs(s: Schema, deps: seq<RelDep>): set<(RelVar, RelVar)> {
    RelationshipArcs(s) + AttributeArcs(AttrVars(s, deps)) + DependencyArcs(deps)
  }

  /** Adding an arc adds its endpoints, so the nodes are the listed ones plus
      every endpoint. */
  function Nodes(s: Schema, deps: seq<RelDep>): (r: set<RelVar>)
    ensures Closed(r, Arcs(s, deps))
  {
    var arcs := Arcs(s, deps);
    ExistenceNodes(s) + AttrVars(s, deps) + (set a | a in arcs :: a.0) + (set a | a in arcs :: a.1)
  }

  /** `Model.__init__`: duplicates first, then parsing every entry, then the
      checker on every dependency, then the cycle check on the DAG. */
  function MakeModel(s: Schema, deps: seq<Obj>, checker: Checker): (r: Result<Model>)
    ensures !NoDuplicates(deps) ==> r == Err(DuplicateDependency)
    ensures NoDuplicates(deps) && ParseAll(deps).Err? ==> r == Err(ParseAll(deps).msg)
    ensures NoDuplicates(deps) && ParseAll(deps).Ok? && CheckAll(s, ParseAll(deps).value, checker).Fail?
            ==> r == Err(CheckAll(s, ParseAll(deps).value, checker).msg)
    ensures r.Ok? <==> NoDuplicates(deps) && ParseAll(deps).Ok?
                       && CheckAll(s, ParseAll(deps).value, checker).Pass?
                       && Acyclic(Nodes(s, ParseAll(deps).value), Arcs(s, ParseAll(deps).value))
    ensures r.Ok? ==> r.value.schema == s && r.value.dependencies == ParseAll(deps).value
                      && r.value.nodes == Nodes(s, r.value.dependencies)
                      && r.value.arcs == Arcs(s, r.value.dependencies)
  {
    if !NoDuplicates(deps) then Err(DuplicateDependency)
    else
      var parsed :- ParseAll(deps);
      var checked := CheckAll(s, parsed, checker);
      if checked.Fail? then Err(checked.msg)
      else
        var nodes, arcs := Nodes(s, parsed), Arcs(s, parsed);
        PeelDecides(nodes, arcs);
        if Peel(nodes, arcs) != {} then Err(CycleFound)
        else Ok(Model(s, parsed, nodes, arcs))
  }

  /** Two different foreign entries (Python's `[1, 2]`) are no duplicates,
      so they reach the parser, which refuses the first of them. */
  lemma ForeignEntriesReachParser(s: Schema, checker: Checker)
    ensures MakeModel(s, [OtherObj(1), OtherObj(2)], checker) == Err(NotStringOrDep)
  {
    var deps := [OtherObj(1), OtherObj(2)];
    assert SetOf(deps) == {OtherObj(1), OtherObj(2)};
    assert ParseRelDep(deps[0]) == Err(NotStringOrDep);
  }

  // ---------------------------------------------------------------------------
  // What the DAG holds.

  /** Every item has an existence node and every declared attribute a node. */
  lemma ItemNodes(m: Model, it: Item, a: Attribute)
    requires m.nodes == Nodes(m.schema, m.dependencies) && it in SchemaItems(m.schema)
    ensures ExistsVar(it.name) in m.nodes
    ensures a in it.attributes ==> RelVar([it.name], a.name) in m.nodes
  {
    assert ExistsVar(it.name) in ExistenceNodes(m.schema);
    if a in it.attributes {
      assert RelVar([it.name], a.name) in DeclaredVars(SchemaItems(m.schema));
    }
  }

  /** The precedence arcs: entity existence to relationship existence, and an
      item's existence to each of its declared attributes. */
  lemma PrecedenceArcs(m: Model, it: Item, a: Attribute)
    requires m.arcs == Arcs(m.schema, m.dependencies) && it in SchemaItems(m.schema)
    ensures it in m.schema.relationships && it.Relationship? ==>
              (ExistsVar(it.entity1), ExistsVar(it.name)) in m.arcs
              && (ExistsVar(it.entity2), ExistsVar(it.name)) in m.arcs
    ensures a in it.attributes && a.name != ExistsAttr ==>
              (ExistsVar(it.name), RelVar([it.name], a.name)) in m.arcs
  {
    var s := m.schema;
    if it in s.relationships && it.Relationship? {
      assert (ExistsVar(it.entity1), ExistsVar(it.name)) in RelationshipArcs(s);
      assert (ExistsVar(it.entity2), ExistsVar(it.name)) in RelationshipArcs(s);
    }
    if a in it.attributes && a.name != ExistsAttr {
      var v := RelVar([it.name], a.name);
      assert v in DeclaredVars(SchemaItems(s));
      assert v in AttrVars(s, m.dependencies);
      assert (ExistsVar(Base(v)), v) in AttributeArcs(AttrVars(s, m.dependencies));
    }
  }

  /** Each dependency makes its cause's terminal attribute, and the existence
      of every item past the cause's base, a parent of its effect. */
  lemma DependencyParents(m: Model, d: RelDep, i: nat)
    requires m.arcs == Arcs(m.schema, m.dependencies) && d in m.dependencies
    ensures (RelVar([Terminal(d.cause)], d.cause.attrName), d.effect) in m.arcs
    ensures 1 <= i < |d.cause.path| ==> (ExistsVar(d.cause.path[i]), d.effect) in m.arcs
  {
    assert (RelVar([Terminal(d.cause)], d.cause.attrName), d.effect) in DependencyArcs(m.dependencies);
    if 1 <= i < |d.cause.path| {
      assert (ExistsVar(d.cause.path[i]), d.effect) in DependencyArcs(m.dependencies);
    }
  }

  /** In a well-formed schema every name is carried by one item only. */
  lemma UniqueItem(s: Schema, a: Item, b: Item)
    requires WellFormed(s) && a in SchemaItems(s) && b in SchemaItems(s) && a.name == b.name
    ensures a == b
  {
    var items := SchemaItems(s);
    NamesAppend(s.entities, s.relationships);
    var i :| 0 <= i < |items| && items[i] == a;
    var j :| 0 <= j < |items| && items[j] == b;
    assert Names(items)[i] == Names(items)[j];
  }

  lemma LookupItem(s: Schema, it: Item)
    requires WellFormed(s) && it in SchemaItems(s)
    ensures HasSchemaItem(s, it.name) && GetSchemaItem(s, it.name).value == it
  {
    var items := SchemaItems(s);
    var i :| 0 <= i < |items| && items[i] == it;
    NamesAppend(s.entities, s.relationships);
    assert Names(items)[i] == it.name;
    if i < |s.entities| {
      assert Names(s.entities)[i] == it.name;
    } else {
      assert Names(s.relationships)[i - |s.entities|] == it.name;
    }
    UniqueItem(s, it, GetSchemaItem(s, it.name).value);
  }

  /** A valid variable on a single item is that item's existence or one of its declared attributes. */
  lemma SingleItemVariable(s: Schema, n: string, attr: string)
    requires WellFormed(s) && Validity.ValidVariable(s, RelVar([n], attr))
    ensures RelVar([n], attr) in ExistenceNodes(s) + DeclaredVars(SchemaItems(s))
  {
    var it := GetSchemaItem(s, n).value;
    assert [n][0] == n;
    if attr == ExistsAttr {
      assert ExistsVar(it.name) in ExistenceNodes(s);
    } else {
      var k :| 0 <= k < |it.attributes| && AttrNames(it.attributes)[k] == attr;
      assert it.attributes[k] in it.attributes;
      assert RelVar([it.name], it.attributes[k].name) in DeclaredVars(SchemaItems(s));
    }
  }

  /** Every item on a valid path has an existence node. */
  lemma PathItemExists(s: Schema, p: seq<string>, i: nat)
    requires Validity.ValidPath(s, p) && i < |p|
    ensures ExistsVar(p[i]) in ExistenceNodes(s)
  {
    var it := GetSchemaItem(s, p[i]).value;
    assert ExistsVar(it.name) in ExistenceNodes(s);
  }

  /** With dependencies that pass the validity check on a well-formed schema,
      adding arcs adds no node beyond the existence variables and the
      attribute variables. */
  lemma NodesExact(s: Schema, deps: seq<RelDep>)
    requires WellFormed(s)
    requires forall d :: d in deps ==> Validity.ValidDependency(s, d)
    ensures Nodes(s, deps) == ExistenceNodes(s) + AttrVars(s, deps)
  {
    var base := ExistenceNodes(s) + AttrVars(s, deps);
    forall a | a in Arcs(s, deps) ensures a.0 in base && a.1 in base {
      ArcInside(s, deps, a);
    }
  }

  /** A model built with the library's own dependency check holds exactly the
      existence variables and the attribute variables. */
  lemma DefaultCheckerNodes(s: Schema, deps: seq<Obj>)
    requires WellFormed(s)
    requires MakeModel(s, deps, Validity.CheckDependency).Ok?
    ensures MakeModel(s, deps, Validity.CheckDependency).value.nodes
            == ExistenceNodes(s) + AttrVars(s, ParseAll(deps).value)
  {
    var parsed := ParseAll(deps).value;
    forall d | d in parsed ensures Validity.ValidDependency(s, d) {
      var i :| 0 <= i < |parsed| && parsed[i] == d;
      Validity.CheckDependencyValid(s, d);
    }
    NodesExact(s, parsed);
  }

  lemma ArcInside(s: Schema, deps: seq<RelDep>, a: (RelVar, RelVar))
    requires WellFormed(s)
    requires forall d :: d in deps ==> Validity.ValidDependency(s, d)
    requires a in Arcs(s, deps)
    ensures a.0 in ExistenceNodes(s) + AttrVars(s, deps)
    ensures a.1 in ExistenceNodes(s) + AttrVars(s, deps)
  {
    if a in RelationshipArcs(s) {
      RelationshipArcInside(s, a);
    } else if a in AttributeArcs(AttrVars(s, deps)) {
      AttributeArcInside(s, deps, a);
    } else {
      DependencyArcInside(s, deps, a);
    }
  }

  lemma RelationshipArcInside(s: Schema, a: (RelVar, RelVar))
    requires WellFormed(s) && a in RelationshipArcs(s)
    ensures a.0 in ExistenceNodes(s) && a.1 in ExistenceNodes(s)
  {
    var r :| r in s.relationships && r.Relationship?
             && (a == (ExistsVar(r.entity1), ExistsVar(r.name)) || a == (ExistsVar(r.entity2), ExistsVar(r.name)));
    assert r in SchemaItems(s);
    assert ExistsVar(r.name) in ExistenceNodes(s);
    var e := if a.0 == ExistsVar(r.entity1) then r.entity1 else r.entity2;
    var en := GetEntity(s, e).value;
    assert en in SchemaItems(s) && ExistsVar(en.name) in ExistenceNodes(s);
  }

  lemma AttributeArcInside(s: Schema, deps: seq<RelDep>, a: (RelVar, RelVar))
    requires forall d :: d in deps ==> Validity.ValidDependency(s, d)
    requires a in AttributeArcs(AttrVars(s, deps))
    ensures a.0 in ExistenceNodes(s) && a.1 in AttrVars(s, deps)
  {
    var v :| v in AttrVars(s, deps) && !IsExistence(v) && a == (ExistsVar(Base(v)), v);
    if v in DeclaredVars(SchemaItems(s)) {
      var it, at :| it in SchemaItems(s) && at in it.attributes && v == RelVar([it.name], at.name);
      assert ExistsVar(it.name) in ExistenceNodes(s);
    } else {
      var d :| d in deps && d.effect == v;
      PathItemExists(s, v.path, 0);
    }
  }

  lemma DependencyArcInside(s: Schema, deps: seq<RelDep>, a: (RelVar, RelVar))
    requires WellFormed(s)
    requires forall d :: d in deps ==> Validity.ValidDependency(s, d)
    requires a in DependencyArcs(deps)
    ensures a.0 in ExistenceNodes(s) + DeclaredVars(SchemaItems(s)) && a.1 in AttrVars(s, deps)
  {
    if a in (set d | d in deps :: (RelVar([Terminal(d.cause)], d.cause.attrName), d.effect)) {
      var d :| d in deps && a == (RelVar([Terminal(d.cause)], d.cause.attrName), d.effect);
      var c := d.cause;
      PathItemExists(s, c.path, |c.path| - 1);
      assert Validity.ValidVariable(s, RelVar([Terminal(c)], c.attrName));
      SingleItemVariable(s, Terminal(c), c.attrName);
    } else {
      var d, i :| d in deps && 1 <= i < |d.cause.path| && a == (ExistsVar(d.cause.path[i]), d.effect);
      PathItemExists(s, d.cause.path, i);
    }
  }

  // ---------------------------------------------------------------------------
  // Item and attribute variables, and the generation order.

  /** `getItemRelVars`: the existence nodes. */
  function ItemRelVars(m: Model): (r: set<RelVar>)
    ensures forall v :: v in r <==> v in m.nodes && IsExistence(v)
  {
    set v | v in m.nodes && IsExistence(v)
  }

  /** `getAttrRelVars`: the other nodes. */
  function AttrRelVars(m: Model): (r: set<RelVar>)
    ensures forall v :: v in r <==> v in m.nodes && !IsExistence(v)
  {
    set v | v in m.nodes && !IsExistence(v)
  }

  /** The two lists split the nodes. */
  lemma RelVarsPartition(m: Model)
    ensures ItemRelVars(m) + AttrRelVars(m) == m.nodes
    ensures ItemRelVars(m) * AttrRelVars(m) == {}
  {
  }

  /** `getNextItemOrAttribute`: every node once, each after all of its parents. */
  method NextItemOrAttribute(m: Model) returns (o: seq<RelVar>)
    requires Acyclic(m.nodes, m.arcs)
    ensures IsTopoOrder(o, m.nodes, m.arcs)
  {
    o := TopoSort(m.nodes, m.arcs);
  }

  /** In the generation order an item's existence comes before each of its
      declared attributes, and every parent of a dependency's effect comes
      before the effect. */
  lemma ParentsFirst(m: Model, o: seq<RelVar>, d: RelDep, i: nat, j: nat)
    requires m.arcs == Arcs(m.schema, m.dependencies) && IsTopoOrder(o, m.nodes, m.arcs)
    requires d in m.dependencies && i < |o| && j < |o| && o[j] == d.effect
    requires o[i] == RelVar([Terminal(d.cause)], d.cause.attrName)
    ensures i < j
  {
    DependencyParents(m, d, 0);
  }
}
