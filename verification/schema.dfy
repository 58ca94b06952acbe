/** Relational schemas: entities, binary relationships with a cardinality at
    each end, and the attributes attached to either. Item names are global:
    no entity and relationship may share one. Python dicts keep insertion
    order, so the model keeps entities and relationships as sequences. */
module Schemas {
  import opened Wrappers

  /** The implicit existence attribute every item carries; it may not be declared. */
  const ExistsAttr: string := "exists"

  datatype Cardinality = One | Many

  /** The cardinality constants are the strings 'one' and 'many'. */
  function ParseCardinality(s: string): (r: Option<Cardinality>)
    ensures r == Some(One) <==> s == "one"
    ensures r == Some(Many) <==> s == "many"
    ensures r.None? <==> s != "one" && s != "many"
  {
    if s == "one" then Some(One) else if s == "many" then Some(Many) else None
  }

  /** Data type codes: STRING 0, INTEGER 1, FLOAT 2; `None` means type-agnostic. */
  datatype Attribute = Attribute(name: string, dataType: Option<int>)

  predicate KnownDataType(d: int) {
    d == 0 || d == 1 || d == 2
  }

  /** An attribute with an unknown data type code is refused. */
  function MakeAttribute(name: string, dataType: Option<int>): (r: Result<Attribute>)
    ensures r.Ok? <==> dataType.None? || KnownDataType(dataType.value)
    ensures r.Ok? ==> r.value.name == name && r.value.dataType == dataType
  {
    if dataType.Some? && !KnownDataType(dataType.value) then Err("unknown dataType found")
    else Ok(Attribute(name, dataType))
  }

  /** A schema item. A relationship records its two endpoint entities and the
      cardinality of each end. */
  datatype Item =
    | Entity(name: string, attributes: seq<Attribute>)
    | Relationship(name: string, attributes: seq<Attribute>,
                   entity1: string, card1: Cardinality, entity2: string, card2: Cardinality)

  /** The declared attribute names, in declaration order: a name is listed
      exactly when some attribute carries it. */
  function AttrNames(attrs: seq<Attribute>): (r: seq<string>)
    ensures |r| == |attrs|
    ensures forall n :: n in r <==> exists a :: a in attrs && a.name == n
  {
    var r := seq(|attrs|, i requires 0 <= i < |attrs| => attrs[i].name);
    assert forall n :: n in r ==> exists a :: a in attrs && a.name == n by {
      forall n | n in r ensures exists a :: a in attrs && a.name == n {
        var i :| 0 <= i < |r| && r[i] == n;
        assert attrs[i] in attrs;
      }
    }
    assert forall a :: a in attrs ==> a.name in r by {
      forall a | a in attrs ensures a.name in r {
        var i :| 0 <= i < |attrs| && attrs[i] == a;
        assert r[i] == a.name;
      }
    }
    r
  }

  /** The relationship has `e` as one of its two endpoints. */
  predicate Involves(it: Item, e: string) {
    it.Relationship? && (it.entity1 == e || it.entity2 == e)
  }

  /** The cardinalities of a relationship as the source's dict builds them:
      entity1 is entered first and entity2 second, so when both ends are the
      same entity the second cardinality is the one kept. */
  function CardMap(it: Item): map<string, Cardinality>
    requires it.Relationship?
  {
    map[it.entity1 := it.card1][it.entity2 := it.card2]
  }

  /** Cardinality of the end at `e`; refused when `e` is not an endpoint. */
  function GetCardinality(it: Item, e: string): (r: Result<Cardinality>)
    requires it.Relationship?
    ensures r.Ok? <==> Involves(it, e)
    ensures r.Ok? ==> r.value == CardMap(it)[e]
    ensures r.Ok? && e == it.entity2 ==> r.value == it.card2
    ensures r.Ok? && e == it.entity1 && e != it.entity2 ==> r.value == it.card1
  {
    if e == it.entity2 then Ok(it.card2)
    else if e == it.entity1 then Ok(it.card1)
    else Err("Entity does not exist for relationship")
  }

  /** Declares a new attribute on an item: the reserved name and a name already
      in use are refused, otherwise the attribute is appended. */
  function AddItemAttribute(it: Item, attrName: string, dataType: Option<int>): (r: Result<Item>)
    ensures r.Ok? <==> attrName != ExistsAttr && attrName !in AttrNames(it.attributes)
                        && (dataType.None? || KnownDataType(dataType.value))
    ensures r.Ok? ==> r.value == it.(attributes := it.attributes + [Attribute(attrName, dataType)])
  {
    if attrName == ExistsAttr then Err("Cannot add attribute with reserved name")
    else if attrName in AttrNames(it.attributes) then Err("Schema already has attribute with that name")
    else
      var a :- MakeAttribute(attrName, dataType);
      Ok(it.(attributes := it.attributes + [a]))
  }

  /** Equality key of an item: its kind, its name, its attributes irrespective
      of the order they were declared in, and for a relationship its
      cardinality map. */
  datatype ItemKey = ItemKey(isRelationship: bool, name: string, attrs: set<Attribute>,
                             cards: map<string, Cardinality>)

  function Key(it: Item): ItemKey {
    ItemKey(it.Relationship?, it.name, set a | a in it.attributes,
            if it.Relationship? then CardMap(it) else map[])
  }

  /** Item equality of the source (`__eq__`). */
  predicate SameItem(a: Item, b: Item) {
    Key(a) == Key(b)
  }

  /** Declaring the same attributes in either order gives equal items. */
  lemma AttributeOrderIrrelevant(it: Item, a: string, da: Option<int>, b: string, db: Option<int>)
    ensures var r1 := AddItemAttribute(it, a, da);
            var r2 := AddItemAttribute(it, b, db);
            var both1 := if r1.Ok? then AddItemAttribute(r1.value, b, db) else Err("");
            var both2 := if r2.Ok? then AddItemAttribute(r2.value, a, da) else Err("");
            (both1.Ok? <==> both2.Ok?) && (both1.Ok? ==> SameItem(both1.value, both2.value))
  {
    var r1 := AddItemAttribute(it, a, da);
    var r2 := AddItemAttribute(it, b, db);
    if r1.Ok? {
      assert AttrNames(r1.value.attributes) == AttrNames(it.attributes) + [a];
    }
    if r2.Ok? {
      assert AttrNames(r2.value.attributes) == AttrNames(it.attributes) + [b];
    }
  }

  /** A relationship between two distinct entities is the same whichever end is listed first. */
  lemma EndpointOrderIrrelevant(n: string, attrs: seq<Attribute>, e1: string, c1: Cardinality,
                                e2: string, c2: Cardinality)
    requires e1 != e2
    ensures SameItem(Relationship(n, attrs, e1, c1, e2, c2), Relationship(n, attrs, e2, c2, e1, c1))
  {
  }

  /** With a single entity at both ends only the second cardinality survives,
      so swapping the ends of such a relationship changes it. */
  lemma SelfRelationshipKeepsSecondCard(n: string, e: string)
    ensures !SameItem(Relationship(n, [], e, One, e, Many), Relationship(n, [], e, Many, e, One))
    ensures GetCardinality(Relationship(n, [], e, One, e, Many), e) == Ok(Many)
  {
    assert CardMap(Relationship(n, [], e, One, e, Many))[e] == Many;
    assert CardMap(Relationship(n, [], e, Many, e, One))[e] == One;
  }

  /** Entities and relationships, each in insertion order. */
  datatype Schema = Schema(entities: seq<Item>, relationships: seq<Item>)

  const EmptySchema := Schema([], [])

  function Names(items: seq<Item>): (r: seq<string>)
    ensures |r| == |items|
  {
    seq(|items|, i requires 0 <= i < |items| => items[i].name)
  }

  predicate Distinct(names: seq<string>) {
    forall i, j :: 0 <= i < j < |names| ==> names[i] != names[j]
  }

  /** The invariant every schema built through the operations below keeps. */
  predicate WellFormed(s: Schema) {
    (forall it :: it in s.entities ==> it.Entity?)
    && (forall it :: it in s.relationships ==> it.Relationship?)
    && Distinct(Names(s.entities) + Names(s.relationships))
    && (forall it :: it in s.relationships ==> it.entity1 in Names(s.entities) && it.entity2 in Names(s.entities))
    && (forall it :: it in s.entities + s.relationships ==>
          ExistsAttr !in AttrNames(it.attributes) && Distinct(AttrNames(it.attributes)))
  }

  predicate HasEntity(s: Schema, n: string) {
    n in Names(s.entities)
  }

  predicate HasRelationship(s: Schema, n: string) {
    n in Names(s.relationships)
  }

  predicate HasSchemaItem(s: Schema, n: string) {
    HasRelationship(s, n) || HasEntity(s, n)
  }

  /** Entities first, then relationships. */
  function SchemaItems(s: Schema): seq<Item> {
    s.entities + s.relationships
  }

  /** Index of the first item called `n`. */
  function IndexOf(items: seq<Item>, n: string): (r: nat)
    requires n in Names(items)
    ensures r < |items| && items[r].name == n
    ensures forall j :: 0 <= j < r ==> items[j].name != n
  {
    if items[0].name == n then 0
    else
      assert Names(items) == [items[0].name] + Names(items[1..]);
      IndexOf(items[1..], n) + 1
  }

  function GetEntity(s: Schema, n: string): (r: Result<Item>)
    ensures r.Ok? <==> HasEntity(s, n)
    ensures r.Ok? ==> r.value in s.entities && r.value.name == n
  {
    if HasEntity(s, n) then Ok(s.entities[IndexOf(s.entities, n)]) else Err("Entity does not exist")
  }

  function GetRelationship(s: Schema, n: string): (r: Result<Item>)
    ensures r.Ok? <==> HasRelationship(s, n)
    ensures r.Ok? ==> r.value in s.relationships && r.value.name == n
  {
    if HasRelationship(s, n) then Ok(s.relationships[IndexOf(s.relationships, n)])
    else Err("Relationship does not exist")
  }

  /** Entities are looked up before relationships. */
  function GetSchemaItem(s: Schema, n: string): (r: Result<Item>)
    ensures r.Ok? <==> HasSchemaItem(s, n)
    ensures r.Ok? ==> r.value.name == n && r.value in SchemaItems(s)
    ensures HasEntity(s, n) ==> r == GetEntity(s, n)
    ensures !HasEntity(s, n) ==> r == GetRelationship(s, n) || (r.Err? && !HasRelationship(s, n))
  {
    if HasEntity(s, n) then GetEntity(s, n)
    else if HasRelationship(s, n) then GetRelationship(s, n)
    else Err("Schema item does not exist")
  }

  const EntityExists := "Schema already has entity with that name"
  const RelationshipExists := "Schema already has relationship with that name"

  /** A name already used by any item is refused; otherwise an entity without attributes is appended. */
  function AddEntity(s: Schema, n: string): (r: Result<Schema>)
    ensures r.Ok? <==> !HasSchemaItem(s, n)
    ensures r.Ok? ==> r.value == s.(entities := s.entities + [Entity(n, [])])
    ensures HasEntity(s, n) ==> r == Err(EntityExists)
    ensures !HasEntity(s, n) && HasRelationship(s, n) ==> r == Err(RelationshipExists)
  {
    if HasEntity(s, n) then Err(EntityExists)
    else if HasRelationship(s, n) then Err(RelationshipExists)
    else Ok(s.(entities := s.entities + [Entity(n, [])]))
  }

  /** The checks run in this order: name clash with a relationship, with an
      entity, endpoints that are not entities, cardinalities other than 'one'
      and 'many'. */
  function AddRelationship(s: Schema, n: string, end1: (string, string), end2: (string, string)): (r: Result<Schema>)
    ensures r.Ok? <==> !HasSchemaItem(s, n) && HasEntity(s, end1.0) && HasEntity(s, end2.0)
                        && ParseCardinality(end1.1).Some? && ParseCardinality(end2.1).Some?
    ensures r.Ok? ==> r.value == s.(relationships := s.relationships +
                        [Relationship(n, [], end1.0, ParseCardinality(end1.1).value,
                                      end2.0, ParseCardinality(end2.1).value)])
    ensures HasSchemaItem(s, n) ==> r == Err(RelationshipExists) || r == Err(EntityExists)
  {
    if HasRelationship(s, n) then Err(RelationshipExists)
    else if HasEntity(s, n) then Err(EntityExists)
    else if !HasEntity(s, end1.0) || !HasEntity(s, end2.0) then Err("One of entity1Name or entity2Name not listed")
    else if ParseCardinality(end1.1).None? || ParseCardinality(end2.1).None? then Err("Bad cardinality")
    else Ok(s.(relationships := s.relationships +
                 [Relationship(n, [], end1.0, ParseCardinality(end1.1).value,
                               end2.0, ParseCardinality(end2.1).value)]))
  }

  /** Adds an attribute to the item called `itemName` (an entity when both exist). */
  function AddAttribute(s: Schema, itemName: string, attrName: string, dataType: Option<int>): (r: Result<Schema>)
    ensures !HasSchemaItem(s, itemName) ==> r.Err?
    ensures r.Ok? ==> HasSchemaItem(s, itemName) && attrName != ExistsAttr
    ensures r.Ok? && HasEntity(s, itemName) ==>
              var i := IndexOf(s.entities, itemName);
              AddItemAttribute(s.entities[i], attrName, dataType).Ok? && r.value == s.(entities := s.entities[i := AddItemAttribute(s.entities[i], attrName, dataType).value])
    ensures r.Ok? && !HasEntity(s, itemName) ==>
              var i := IndexOf(s.relationships, itemName);
              AddItemAttribute(s.relationships[i], attrName, dataType).Ok? && r.value == s.(relationships := s.relationships[i := AddItemAttribute(s.relationships[i], attrName, dataType).value])
    ensures HasSchemaItem(s, itemName) ==>
              (r.Ok? <==> AddItemAttribute(GetSchemaItem(s, itemName).value, attrName, dataType).Ok?)
  {
    if HasEntity(s, itemName) then
      var i := IndexOf(s.entities, itemName);
      var it :- AddItemAttribute(s.entities[i], attrName, dataType);
      Ok(s.(entities := s.entities[i := it]))
    else if HasRelationship(s, itemName) then
      var i := IndexOf(s.relationships, itemName);
      var it :- AddItemAttribute(s.relationships[i], attrName, dataType);
      Ok(s.(relationships := s.relationships[i := it]))
    else Err("Schema item does not exist")
  }

  /** The relationships among `rels` that have `e` at one end, in order. */
  function RelationshipsWith(rels: seq<Item>, e: string): (r: seq<Item>)
    ensures forall x :: x in r <==> x in rels && Involves(x, e)
    ensures |r| <= |rels|
  {
    if |rels| == 0 then []
    else (if Involves(rels[0], e) then [rels[0]] else []) + RelationshipsWith(rels[1..], e)
  }

  /** Refused for a name that is not an entity. */
  function GetRelationshipsForEntity(s: Schema, e: string): (r: Result<seq<Item>>)
    ensures r.Ok? <==> HasEntity(s, e)
    ensures r.Ok? ==> forall x :: x in r.value <==> x in s.relationships && Involves(x, e)
  {
    if !HasEntity(s, e) then Err("Entity does not exist") else Ok(RelationshipsWith(s.relationships, e))
  }

  function RelationshipsWithBoth(rels: seq<Item>, e1: string, e2: string): (r: seq<Item>)
    ensures forall x :: x in r <==> x in rels && Involves(x, e1) && Involves(x, e2)
  {
    if |rels| == 0 then []
    else (if Involves(rels[0], e1) && Involves(rels[0], e2) then [rels[0]] else [])
         + RelationshipsWithBoth(rels[1..], e1, e2)
  }

  /** Refused unless both names are entities. */
  function GetRelationshipsBetweenEntities(s: Schema, e1: string, e2: string): (r: Result<seq<Item>>)
    ensures r.Ok? <==> HasEntity(s, e1) && HasEntity(s, e2)
    ensures r.Ok? ==> forall x :: x in r.value <==> x in s.relationships && Involves(x, e1) && Involves(x, e2)
  {
    if !HasEntity(s, e1) then Err("Entity does not exist")
    else if !HasEntity(s, e2) then Err("Entity does not exist")
    else Ok(RelationshipsWithBoth(s.relationships, e1, e2))
  }

  /** The relationships between two entities do not depend on the order they are named in. */
  lemma {:induction false} BetweenEntitiesSymmetric(rels: seq<Item>, e1: string, e2: string)
    ensures RelationshipsWithBoth(rels, e1, e2) == RelationshipsWithBoth(rels, e2, e1)
  {
    if |rels| > 0 {
      BetweenEntitiesSymmetric(rels[1..], e1, e2);
    }
  }

  /** Key of the first item called `n`. */
  function KeyByName(items: seq<Item>, n: string): ItemKey
    requires n in Names(items)
  {
    Key(items[IndexOf(items, n)])
  }

  /** Equality key of a schema: the key of every item by name, insertion order ignored. */
  function SchemaKey(s: Schema): (map<string, ItemKey>, map<string, ItemKey>) {
    (map n | n in Names(s.entities) :: KeyByName(s.entities, n),
     map n | n in Names(s.relationships) :: KeyByName(s.relationships, n))
  }

  predicate SameSchema(a: Schema, b: Schema) {
    SchemaKey(a) == SchemaKey(b)
  }

  /** The by-name keys do not see the order of two differently named items added last. */
  lemma SwapLastKeys(items: seq<Item>, x: Item, y: Item)
    requires x.name != y.name
    ensures (map n | n in Names(items + [x, y]) :: KeyByName(items + [x, y], n))
            == (map n | n in Names(items + [y, x]) :: KeyByName(items + [y, x], n))
  {
    assert Names([x, y]) == [x.name, y.name] && Names([y, x]) == [y.name, x.name];
    NamesAppend(items, [x, y]);
    NamesAppend(items, [y, x]);
    forall n | n in Names(items + [x, y])
      ensures n in Names(items + [y, x]) && KeyByName(items + [x, y], n) == KeyByName(items + [y, x], n)
    {
      KeyByNameAppend(items, [x, y], n);
      KeyByNameAppend(items, [y, x], n);
    }
  }

  /** Adding two entities in either order gives equal schemas. */
  lemma EntityOrderIrrelevant(s: Schema, a: string, b: string)
    requires a != b && !HasSchemaItem(s, a) && !HasSchemaItem(s, b)
    ensures AddEntity(s, a).Ok? && AddEntity(AddEntity(s, a).value, b).Ok?
    ensures AddEntity(s, b).Ok? && AddEntity(AddEntity(s, b).value, a).Ok?
    ensures SameSchema(AddEntity(AddEntity(s, a).value, b).value, AddEntity(AddEntity(s, b).value, a).value)
  {
    NamesAppend(s.entities, [Entity(a, [])]);
    NamesAppend(s.entities, [Entity(b, [])]);
    var ea, eb := Entity(a, []), Entity(b, []);
    var s1 := AddEntity(AddEntity(s, a).value, b).value;
    var s2 := AddEntity(AddEntity(s, b).value, a).value;
    assert s1.entities == s.entities + [ea, eb];
    assert s2.entities == s.entities + [eb, ea];
    SwapLastKeys(s.entities, ea, eb);
  }

  lemma NamesAppend(items: seq<Item>, more: seq<Item>)
    ensures Names(items + more) == Names(items) + Names(more)
  {
  }

  lemma KeyByNameAppend(items: seq<Item>, more: seq<Item>, n: string)
    requires n in Names(items) || n in Names(more)
    ensures n in Names(items + more)
    ensures n in Names(items) ==> KeyByName(items + more, n) == KeyByName(items, n)
    ensures n !in Names(items) ==> KeyByName(items + more, n) == KeyByName(more, n)
  {
    NamesAppend(items, more);
    var k := IndexOf(items + more, n);
    if n in Names(items) {
      var i := IndexOf(items, n);
      assert (items + more)[i] == items[i];
    } else {
      var j := IndexOf(more, n);
      assert (items + more)[|items| + j] == more[j];
      assert forall i :: 0 <= i < |items| ==> (items + more)[i].name == Names(items)[i];
      assert k >= |items|;
      assert (items + more)[k] == more[k - |items|];
    }
  }

  /** The empty schema is well formed, and so is every schema the operations return. */
  lemma EmptyWellFormed()
    ensures WellFormed(EmptySchema)
  {
  }

  lemma AddEntityWellFormed(s: Schema, n: string)
    requires WellFormed(s) && AddEntity(s, n).Ok?
    ensures WellFormed(AddEntity(s, n).value)
  {
    var t := AddEntity(s, n).value;
    assert Names(t.entities) == Names(s.entities) + [n];
    assert Names(t.entities) + Names(t.relationships) == Names(s.entities) + [n] + Names(s.relationships);
    assert Names(s.entities) + Names(s.relationships) + [n] == (Names(s.entities) + Names(s.relationships)) + [n];
    DistinctInsert(Names(s.entities), n, Names(s.relationships));
  }

  lemma DistinctInsert(a: seq<string>, n: string, b: seq<string>)
    requires Distinct(a + b) && n !in a && n !in b
    ensures Distinct(a + [n] + b)
  {
    var c := a + [n] + b;
    forall i, j | 0 <= i < j < |c|
      ensures c[i] != c[j]
    {
      if i < |a| && j > |a| {
        assert c[j] == (a + b)[j - 1] && c[i] == (a + b)[i];
      } else if i > |a| {
        assert c[j] == (a + b)[j - 1] && c[i] == (a + b)[i - 1];
      } else if j < |a| {
        assert c[j] == (a + b)[j] && c[i] == (a + b)[i];
      }
    }
  }

  lemma AddRelationshipWellFormed(s: Schema, n: string, end1: (string, string), end2: (string, string))
    requires WellFormed(s) && AddRelationship(s, n, end1, end2).Ok?
    ensures WellFormed(AddRelationship(s, n, end1, end2).value)
  {
    var t := AddRelationship(s, n, end1, end2).value;
    assert Names(t.relationships) == Names(s.relationships) + [n];
    assert Names(t.entities) + Names(t.relationships) == (Names(s.entities) + Names(s.relationships)) + [n];
    DistinctInsert(Names(s.entities) + Names(s.relationships), n, []);
    assert Names(s.entities) + Names(s.relationships) + [n] + [] == Names(s.entities) + Names(s.relationships) + [n];
  }

  lemma AddAttributeWellFormed(s: Schema, itemName: string, attrName: string, dataType: Option<int>)
    requires WellFormed(s) && AddAttribute(s, itemName, attrName, dataType).Ok?
    ensures WellFormed(AddAttribute(s, itemName, attrName, dataType).value)
  {
    var t := AddAttribute(s, itemName, attrName, dataType).value;
    if HasEntity(s, itemName) {
      var i := IndexOf(s.entities, itemName);
      var it := AddItemAttribute(s.entities[i], attrName, dataType).value;
      AttrNamesAppend(s.entities[i], attrName, dataType);
      NamesUpdate(s.entities, i, it);
    } else {
      var i := IndexOf(s.relationships, itemName);
      var it := AddItemAttribute(s.relationships[i], attrName, dataType).value;
      AttrNamesAppend(s.relationships[i], attrName, dataType);
      NamesUpdate(s.relationships, i, it);
      forall r | r in t.relationships
        ensures r.entity1 in Names(t.entities) && r.entity2 in Names(t.entities)
      {
        var k :| 0 <= k < |t.relationships| && t.relationships[k] == r;
        if k != i {
          assert r == s.relationships[k];
        } else {
          assert r.entity1 == s.relationships[i].entity1 && r.entity2 == s.relationships[i].entity2;
          assert s.relationships[i] in s.relationships;
        }
      }
    }
  }

  lemma AttrNamesAppend(it: Item, attrName: string, dataType: Option<int>)
    requires Distinct(AttrNames(it.attributes)) && ExistsAttr !in AttrNames(it.attributes)
    requires AddItemAttribute(it, attrName, dataType).Ok?
    ensures var t := AddItemAttribute(it, attrName, dataType).value;
            Distinct(AttrNames(t.attributes)) && ExistsAttr !in AttrNames(t.attributes)
            && t.name == it.name && t.Entity? == it.Entity?
  {
    var t := AddItemAttribute(it, attrName, dataType).value;
    assert AttrNames(t.attributes) == AttrNames(it.attributes) + [attrName];
  }

  lemma NamesUpdate(items: seq<Item>, i: nat, it: Item)
    requires i < |items| && it.name == items[i].name
    ensures Names(items[i := it]) == Names(items)
  {
  }
}
