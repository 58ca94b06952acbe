/** The relational space of a schema: every relational path up to a hop
    threshold, the relational variables on them and the candidate relational
    dependencies between those variables, enumerated in the source's order. */
module Space {
  import opened Wrappers
  import opened Schemas
  import opened RelVars
  import opened Validity

  /** The hop threshold argument, whose numeric type the source inspects. */
  datatype Num = IntNum(i: int) | RealNum(x: real) | NotNum

  const NotANumber := "Hop threshold must be a number"
  const Negative := "Hop threshold must be >= 0"
  const NotAnInteger := "Hop threshold must be an integer to count hops"

  /** No relationship has the same entity at both ends. */
  predicate NoSelfRelationships(s: Schema) {
    forall it :: it in s.relationships ==> it.Relationship? ==> it.entity1 != it.entity2
  }

  function Last(p: seq<string>): string
    requires |p| > 0
  {
    p[|p| - 1]
  }

  /** Whether the walk `p`, now at entity `t`, may continue into `rel`: it may
      always go to a relationship it did not just leave, and back into the one
      it just left only through a MANY end at `t` (the end is read from the
      endpoint field that names `t`, entity1 first). */
  predicate Admits(p: seq<string>, t: string, rel: Item)
    requires |p| > 0 && rel.Relationship?
  {
    |p| == 1 || rel.name != p[|p| - 2]
    || (if t == rel.entity1 then rel.card1 == Many else rel.card2 == Many)
  }

  function ExtendThrough(p: seq<string>, t: string, rels: seq<Item>): seq<seq<string>>
    requires |p| > 0 && forall rel :: rel in rels ==> rel.Relationship?
  {
    if |rels| == 0 then []
    else
      var rest := ExtendThrough(p, t, rels[1..]);
      if Admits(p, t, rels[0]) then [p + [rels[0].name]] + rest else rest
  }

  /** Each admitted relationship gives an extension. */
  lemma {:induction false} ExtendThroughTo(p: seq<string>, t: string, rels: seq<Item>, rel: Item)
    requires |p| > 0 && forall rel :: rel in rels ==> rel.Relationship?
    requires rel in rels && Admits(p, t, rel)
    ensures p + [rel.name] in ExtendThrough(p, t, rels)
  {
    if rel != rels[0] {
      ExtendThroughTo(p, t, rels[1..], rel);
    }
  }

  /** Each path `ExtendThrough` lists comes from one of the relationships. */
  lemma {:induction false} ExtendThroughFrom(p: seq<string>, t: string, rels: seq<Item>, q: seq<string>)
    requires |p| > 0 && forall rel :: rel in rels ==> rel.Relationship?
    requires q in ExtendThrough(p, t, rels)
    ensures exists rel :: rel in rels && q == p + [rel.name] && Admits(p, t, rel)
  {
    if q !in ExtendThrough(p, t, rels[1..]) {
      assert q == p + [rels[0].name] && Admits(p, t, rels[0]);
    } else {
      ExtendThroughFrom(p, t, rels[1..], q);
      var rel :| rel in rels[1..] && q == p + [rel.name] && Admits(p, t, rel);
      assert rel in rels;
    }
  }

  /** `p` extended by each of `ends` in turn, except the item `p` came from. */
  function ExtendToEnds(p: seq<string>, from: Option<string>, ends: seq<string>): seq<seq<string>> {
    if |ends| == 0 then []
    else
      var rest := ExtendToEnds(p, from, ends[1..]);
      if from == Some(ends[0]) then rest else [p + [ends[0]]] + rest
  }

  /** The one-hop extensions of `p`: a path ending at a relationship goes on to
      each of its endpoints except the item it came from; a path ending at an
      entity goes on to each relationship the entity takes part in, subject to
      `Admits`. */
  function ExtendOne(s: Schema, p: seq<string>): seq<seq<string>> {
    if |p| == 0 then []
    else
      var t := Last(p);
      if HasRelationship(s, t) then
        var rel := GetRelationship(s, t).value;
        if !rel.Relationship? then []
        else if |p| > 1 then
          (if rel.entity1 != p[|p| - 2] then [p + [rel.entity1]] else [])
          + (if rel.entity2 != p[|p| - 2] then [p + [rel.entity2]] else [])
        else [p + [rel.entity1], p + [rel.entity2]]
      else
        ExtendThrough(p, t, RelationshipsWith(s.relationships, t))
  }

  /** Each extension of `p` is `p` with one more item. */
  lemma ExtendOneShape(s: Schema, p: seq<string>, q: seq<string>)
    requires q in ExtendOne(s, p)
    ensures |p| > 0 && |q| == |p| + 1 && q == p + [q[|p|]]
  {
    var t := Last(p);
    if !HasRelationship(s, t) {
      ExtendThroughFrom(p, t, RelationshipsWith(s.relationships, t), q);
      var rel :| rel in RelationshipsWith(s.relationships, t) && q == p + [rel.name] && Admits(p, t, rel);
      assert q[|p|] == rel.name;
    }
  }

  /** extendRelationalPaths: the extensions of each path in turn. */
  function ExtendPaths(s: Schema, ps: seq<seq<string>>): seq<seq<string>>
    decreases |ps|, 1
  {
    if |ps| == 0 then [] else ExtendFirst(s, ps)
  }

  /** The extensions of the first path, then those of the others. */
  function ExtendFirst(s: Schema, ps: seq<seq<string>>): seq<seq<string>>
    requires |ps| > 0
    decreases |ps|, 0
  {
    ExtendOne(s, ps[0]) + ExtendPaths(s, ps[1..])
  }

  /** Every extension of every given path is listed. */
  lemma {:induction false} ExtendPathsTo(s: Schema, ps: seq<seq<string>>, p: seq<string>, q: seq<string>)
    requires p in ps && q in ExtendOne(s, p)
    ensures q in ExtendPaths(s, ps)
  {
    assert ExtendPaths(s, ps) == ExtendFirst(s, ps);
    if p != ps[0] {
      ExtendPathsTo(s, ps[1..], p, q);
    }
  }

  /** Each path `ExtendPaths` lists extends one of the given paths. */
  lemma {:induction false} ExtendPathsFrom(s: Schema, ps: seq<seq<string>>, q: seq<string>) returns (p: seq<string>)
    requires q in ExtendPaths(s, ps)
    ensures p in ps && q in ExtendOne(s, p)
  {
    assert ExtendPaths(s, ps) == ExtendFirst(s, ps);
    if q in ExtendOne(s, ps[0]) {
      p := ps[0];
    } else {
      p := ExtendPathsFrom(s, ps[1..], q);
    }
  }

  /** The one-item path of each item, in order. */
  function Singletons(items: seq<Item>): (r: seq<seq<string>>)
    ensures |r| == |items|
    ensures forall i :: 0 <= i < |items| ==> r[i] == [items[i].name]
  {
    if |items| == 0 then [] else [[items[0].name]] + Singletons(items[1..])
  }

  /** The frontier after `k` hops: the paths with exactly `k + 1` items. */
  function Level(s: Schema, k: nat): seq<seq<string>> {
    if k == 0 then Singletons(SchemaItems(s)) else ExtendPaths(s, Level(s, k - 1))
  }

  /** Every path of at most `h` hops, shortest first, each frontier in the order it was produced. */
  function PathsUpTo(s: Schema, h: nat): seq<seq<string>> {
    if h == 0 then Level(s, 0) else PathsUpTo(s, h - 1) + Level(s, h)
  }

  /** Every frontier up to `h` is listed. */
  lemma {:induction false} PathsUpToHas(s: Schema, h: nat, k: nat, q: seq<string>)
    requires k <= h && q in Level(s, k)
    ensures q in PathsUpTo(s, h)
  {
    if k < h {
      PathsUpToHas(s, h - 1, k, q);
    }
  }

  /** Every enumerated path comes from one of the frontiers. */
  lemma {:induction false} PathLevel(s: Schema, h: nat, q: seq<string>)
    requires q in PathsUpTo(s, h)
    ensures exists k :: 0 <= k <= h && q in Level(s, k)
  {
    if h == 0 {
      assert 0 <= 0 <= h && q in Level(s, 0);
    } else if q in PathsUpTo(s, h - 1) {
      PathLevel(s, h - 1, q);
      var k :| 0 <= k <= h - 1 && q in Level(s, k);
      assert 0 <= k <= h && q in Level(s, k);
    } else {
      assert 0 <= h <= h && q in Level(s, h);
    }
  }

  /** getRelationalPaths: the threshold must be a number, then non-negative;
      counting hops over a non-integral number fails as well. */
  function GetRelationalPaths(s: Schema, h: Num): (r: Result<seq<seq<string>>>)
    ensures h.NotNum? ==> r == Err(NotANumber)
    ensures h.IntNum? && h.i < 0 ==> r == Err(Negative)
    ensures r.Ok? <==> h.IntNum? && h.i >= 0
    ensures r.Ok? ==> r.value == PathsUpTo(s, h.i)
  {
    match h
    case NotNum => Err(NotANumber)
    case RealNum(x) => if x < 0.0 then Err(Negative) else Err(NotAnInteger)
    case IntNum(i) => if i < 0 then Err(Negative) else Ok(PathsUpTo(s, i))
  }

  // ---------------------------------------------------------------------------
  // The enumerated paths are exactly the valid ones.

  /** What a valid path `p` needs for `p + [x]` to be valid too. */
  predicate StepOk(s: Schema, p: seq<string>, x: string)
    requires |p| > 0
  {
    HasSchemaItem(s, x) && Adjacent(s, Last(p), x) && (|p| > 1 ==> TurnOk(s, p[|p| - 2], Last(p), x))
  }

  lemma ValidPrefix(s: Schema, p: seq<string>, k: nat)
    requires ValidPath(s, p) && k <= |p|
    ensures ValidPath(s, p[..k])
  {
    var q := p[..k];
    assert forall j :: 0 <= j < k ==> q[j] == p[j];
  }

  lemma StepOkExtends(s: Schema, p: seq<string>, x: string)
    requires |p| > 0 && ValidPath(s, p) && StepOk(s, p, x)
    ensures ValidPath(s, p + [x])
  {
    var q := p + [x];
    var n := |p|;
    assert q[n] == x && q[n - 1] == Last(p);
    forall j | 0 <= j < n + 1 ensures HasSchemaItem(s, q[j]) {
      if j < n { assert q[j] == p[j]; }
    }
    forall j | 0 <= j < n ensures Adjacent(s, q[j], q[j + 1]) {
      if j < n - 1 { assert q[j] == p[j] && q[j + 1] == p[j + 1]; }
    }
    forall j | 0 <= j < n - 1 ensures TurnOk(s, q[j], q[j + 1], q[j + 2]) {
      if j < n - 2 {
        assert q[j] == p[j] && q[j + 1] == p[j + 1] && q[j + 2] == p[j + 2];
      } else {
        assert q[j] == p[n - 2];
      }
    }
  }

  lemma ExtendsStepOk(s: Schema, p: seq<string>, x: string)
    requires |p| > 0 && ValidPath(s, p + [x])
    ensures StepOk(s, p, x)
  {
    var q := p + [x];
    var n := |p|;
    assert q[n] == x && q[n - 1] == Last(p);
    assert HasSchemaItem(s, q[n]);
    assert Adjacent(s, q[n - 1], q[n]);
    if n > 1 {
      assert TurnOk(s, q[n - 2], q[n - 1], q[n]);
      assert q[n - 2] == p[n - 2];
    }
  }

  /** A valid path extends by `x` to a valid path exactly when the step is allowed. */
  lemma ValidExtend(s: Schema, p: seq<string>, x: string)
    requires |p| > 0 && ValidPath(s, p)
    ensures ValidPath(s, p + [x]) <==> StepOk(s, p, x)
  {
    if StepOk(s, p, x) {
      StepOkExtends(s, p, x);
    }
    if ValidPath(s, p + [x]) {
      ExtendsStepOk(s, p, x);
    }
  }

  /** Relationship names are unique in a well-formed schema, so looking one up
      by its name gives it back. */
  lemma LookupRelationship(s: Schema, rel: Item)
    requires WellFormed(s) && rel in s.relationships
    ensures HasRelationship(s, rel.name) && GetRelationship(s, rel.name).value == rel
  {
    var rs := s.relationships;
    var j :| 0 <= j < |rs| && rs[j] == rel;
    assert Names(rs)[j] == rel.name;
    var i := IndexOf(rs, rel.name);
    var es := Names(s.entities);
    assert (es + Names(rs))[|es| + i] == Names(rs)[i];
    assert (es + Names(rs))[|es| + j] == Names(rs)[j];
  }

  lemma EndpointsAreEntities(s: Schema, rel: Item)
    requires WellFormed(s) && rel in s.relationships
    ensures HasEntity(s, rel.entity1) && HasEntity(s, rel.entity2)
  {
  }

  lemma ExtendAtRelationship(s: Schema, p: seq<string>, x: string)
    requires WellFormed(s) && |p| > 0 && ValidPath(s, p) && HasRelationship(s, Last(p))
    ensures p + [x] in ExtendOne(s, p) <==> StepOk(s, p, x)
  {
    var t := Last(p);
    var rel := GetRelationship(s, t).value;
    EntityNotRelationship(s, t);
    EntityNotRelationship(s, x);
    EndpointsAreEntities(s, rel);
    if |p| > 1 {
      EntityNotRelationship(s, p[|p| - 2]);
    }
    assert forall y :: p + [x] == p + [y] ==> x == y by {
      forall y | p + [x] == p + [y] ensures x == y {
        assert (p + [x])[|p|] == x && (p + [y])[|p|] == y;
      }
    }
    assert p + [x] in ExtendOne(s, p) <==>
           (x == rel.entity1 || x == rel.entity2) && (|p| > 1 ==> x != p[|p| - 2]);
  }

  /** Between distinct endpoints each end keeps its own cardinality. */
  lemma CardAtEnd(rel: Item, t: string)
    requires rel.Relationship? && rel.entity1 != rel.entity2 && Involves(rel, t)
    ensures t in CardMap(rel)
    ensures CardMap(rel)[t] == if t == rel.entity1 then rel.card1 else rel.card2
  {
  }

  lemma ExtendThroughHas(p: seq<string>, t: string, rels: seq<Item>, x: string)
    requires |p| > 0 && forall rel :: rel in rels ==> rel.Relationship?
    ensures p + [x] in ExtendThrough(p, t, rels) <==>
              exists rel :: rel in rels && rel.name == x && Admits(p, t, rel)
  {
    if p + [x] in ExtendThrough(p, t, rels) {
      ExtendThroughFrom(p, t, rels, p + [x]);
      var rel :| rel in rels && p + [x] == p + [rel.name] && Admits(p, t, rel);
      assert x == (p + [x])[|p|] == (p + [rel.name])[|p|] == rel.name;
    }
  }

  /** The walk back into the relationship it just left is admitted exactly
      when that relationship is MANY at the entity. */
  lemma AdmitsIff(s: Schema, p: seq<string>, t: string, rel: Item)
    requires WellFormed(s) && NoSelfRelationships(s) && rel in s.relationships
    requires |p| > 0 && Involves(rel, t)
    ensures Admits(p, t, rel) <==> (|p| > 1 ==> TurnOk(s, p[|p| - 2], t, rel.name))
  {
    LookupRelationship(s, rel);
    CardAtEnd(rel, t);
  }

  lemma ExtendAtEntity(s: Schema, p: seq<string>, x: string)
    requires WellFormed(s) && NoSelfRelationships(s)
    requires |p| > 0 && ValidPath(s, p) && !HasRelationship(s, Last(p))
    ensures p + [x] in ExtendOne(s, p) <==> StepOk(s, p, x)
  {
    var t := Last(p);
    assert HasEntity(s, t) by { assert p[|p| - 1] in p; }
    var rels := RelationshipsWith(s.relationships, t);
    assert ExtendOne(s, p) == ExtendThrough(p, t, rels);
    ExtendThroughHas(p, t, rels, x);
    if p + [x] in ExtendOne(s, p) {
      var rel :| rel in rels && rel.name == x && Admits(p, t, rel);
      LookupRelationship(s, rel);
      AdmitsIff(s, p, t, rel);
      assert Participates(s, t, x);
    }
    if StepOk(s, p, x) {
      EntityNotRelationship(s, t);
      assert Participates(s, t, x);
      var rel := GetRelationship(s, x).value;
      assert rel in rels;
      AdmitsIff(s, p, t, rel);
    }
  }

  /** On a well-formed schema without self-relationships, the one-hop
      extensions of a valid path are exactly its valid one-item extensions. */
  lemma ExtendOneValid(s: Schema, p: seq<string>, x: string)
    requires WellFormed(s) && NoSelfRelationships(s) && |p| > 0 && ValidPath(s, p)
    ensures p + [x] in ExtendOne(s, p) <==> ValidPath(s, p + [x])
  {
    ValidExtend(s, p, x);
    if HasRelationship(s, Last(p)) {
      ExtendAtRelationship(s, p, x);
    } else {
      ExtendAtEntity(s, p, x);
    }
  }

  lemma SingletonsHas(items: seq<Item>, q: seq<string>)
    ensures q in Singletons(items) <==> |q| == 1 && q[0] in Names(items)
  {
    if q in Singletons(items) {
      var i :| 0 <= i < |items| && Singletons(items)[i] == q;
      assert Names(items)[i] == q[0];
    }
    if |q| == 1 && q[0] in Names(items) {
      var i :| 0 <= i < |items| && Names(items)[i] == q[0];
      assert Singletons(items)[i] == q;
    }
  }

  lemma Level0Valid(s: Schema, q: seq<string>)
    ensures q in Level(s, 0) <==> |q| == 1 && ValidPath(s, q)
  {
    SingletonsHas(SchemaItems(s), q);
    NamesAppend(s.entities, s.relationships);
    if |q| == 1 {
      assert q[0] in Names(SchemaItems(s)) <==> HasSchemaItem(s, q[0]);
    }
  }

  /** A valid path whose prefix is listed is reached by extending that prefix. */
  lemma StepComplete(s: Schema, prev: seq<seq<string>>, k: nat, q: seq<string>)
    requires WellFormed(s) && NoSelfRelationships(s) && k > 0
    requires |q| == k + 1 && ValidPath(s, q) && q[..k] in prev
    ensures q in ExtendPaths(s, prev)
  {
    var p, x := q[..k], q[k];
    assert q == p + [x];
    ValidPrefix(s, q, k);
    ExtendOneValid(s, p, x);
    ExtendPathsTo(s, prev, p, q);
  }

  /** A one-hop extension of a valid path is a valid path one item longer. */
  lemma StepValid(s: Schema, p: seq<string>, q: seq<string>)
    requires WellFormed(s) && NoSelfRelationships(s) && ValidPath(s, p) && q in ExtendOne(s, p)
    ensures |q| == |p| + 1 && ValidPath(s, q)
  {
    ExtendOneShape(s, p, q);
    ExtendOneValid(s, p, q[|p|]);
  }

  /** Every path of the `k`-th frontier is a valid path of `k + 1` items. */
  lemma {:induction false} LevelSound(s: Schema, k: nat, q: seq<string>)
    requires WellFormed(s) && NoSelfRelationships(s) && q in Level(s, k)
    ensures |q| == k + 1 && ValidPath(s, q)
  {
    if k == 0 {
      Level0Valid(s, q);
    } else {
      var p := ExtendPathsFrom(s, Level(s, k - 1), q);
      LevelSound(s, k - 1, p);
      StepValid(s, p, q);
    }
  }

  /** Every valid path of `k + 1` items is in the `k`-th frontier. */
  lemma {:induction false} LevelComplete(s: Schema, k: nat, q: seq<string>)
    requires WellFormed(s) && NoSelfRelationships(s) && |q| == k + 1 && ValidPath(s, q)
    ensures q in Level(s, k)
  {
    if k == 0 {
      Level0Valid(s, q);
    } else {
      ValidPrefix(s, q, k);
      LevelComplete(s, k - 1, q[..k]);
      StepComplete(s, Level(s, k - 1), k, q);
    }
  }

  /** The frontier after `k` hops holds exactly the valid paths of `k + 1` items. */
  lemma LevelValid(s: Schema, k: nat, q: seq<string>)
    requires WellFormed(s) && NoSelfRelationships(s)
    ensures q in Level(s, k) <==> |q| == k + 1 && ValidPath(s, q)
  {
    if q in Level(s, k) {
      LevelSound(s, k, q);
    }
    if |q| == k + 1 && ValidPath(s, q) {
      LevelComplete(s, k, q);
    }
  }

  lemma PathsUpToSound(s: Schema, h: nat, q: seq<string>)
    requires WellFormed(s) && NoSelfRelationships(s) && q in PathsUpTo(s, h)
    ensures 1 <= |q| <= h + 1 && ValidPath(s, q)
  {
    PathLevel(s, h, q);
    var k :| 0 <= k <= h && q in Level(s, k);
    LevelValid(s, k, q);
  }

  lemma PathsUpToComplete(s: Schema, h: nat, q: seq<string>)
    requires WellFormed(s) && NoSelfRelationships(s) && 1 <= |q| <= h + 1 && ValidPath(s, q)
    ensures q in PathsUpTo(s, h)
  {
    var k: nat := |q| - 1;
    LevelValid(s, k, q);
    PathsUpToHas(s, h, k, q);
  }

  /** The enumerated paths are exactly the valid paths of at most `h` hops. */
  lemma PathsUpToValid(s: Schema, h: nat, q: seq<string>)
    requires WellFormed(s) && NoSelfRelationships(s)
    ensures q in PathsUpTo(s, h) <==> 1 <= |q| <= h + 1 && ValidPath(s, q)
  {
    if q in PathsUpTo(s, h) {
      PathsUpToSound(s, h, q);
    }
    if 1 <= |q| <= h + 1 && ValidPath(s, q) {
      PathsUpToComplete(s, h, q);
    }
  }

  /** Every path the space enumerates passes the path validity check. */
  lemma EnumeratedPathsPass(s: Schema, h: nat, q: seq<string>)
    requires WellFormed(s) && NoSelfRelationships(s) && q in PathsUpTo(s, h)
    ensures CheckPath(s, q).Pass?
  {
    PathsUpToValid(s, h, q);
    CheckPathValid(s, q);
  }

  /** A relationship whose two ends are one entity extends to that entity
      twice: the enumeration does not tell its two roles apart. */
  lemma SelfRelationshipListedTwice()
    ensures var s := Schema([Entity("E", [])], [Relationship("R", [], "E", Many, "E", Many)]);
            ExtendOne(s, ["R"]) == [["R", "E"], ["R", "E"]]
  {
    var s := Schema([Entity("E", [])], [Relationship("R", [], "E", Many, "E", Many)]);
    assert Names(s.relationships) == ["R"];
    assert IndexOf(s.relationships, "R") == 0;
    assert GetRelationship(s, "R").value == s.relationships[0];
    assert Last(["R"]) == "R";
    assert ["R"] + ["E"] == ["R", "E"];
  }

  /** A relationship from an entity to itself that is MANY at its first end
      and ONE at its second: the enumeration reads the first end and turns
      back through it, but the schema keeps only the second end's
      cardinality, so the validity rules refuse the path it lists. */
  lemma SelfRelationshipTurnsBackInvalid()
    ensures var s := Schema([Entity("E", [])], [Relationship("R", [], "E", Many, "E", One)]);
            && WellFormed(s)
            && ["R", "E", "R"] in ExtendOne(s, ["R", "E"])
            && ["R", "E", "R"] in PathsUpTo(s, 2)
            && !ValidPath(s, ["R", "E", "R"])
  {
    var rel := Relationship("R", [], "E", Many, "E", One);
    var s := Schema([Entity("E", [])], [rel]);
    assert Names(s.entities) == ["E"] && Names(s.relationships) == ["R"];
    assert Distinct(Names(s.entities) + Names(s.relationships));
    assert IndexOf(s.relationships, "R") == 0;
    assert GetRelationship(s, "R").value == rel;
    assert !HasRelationship(s, "E");
    assert RelationshipsWith(s.relationships, "E") == [rel];
    assert Admits(["R", "E"], "E", rel);
    assert [rel][1..] == [] && ["R", "E"] + ["R"] == ["R", "E", "R"];
    assert ExtendThrough(["R", "E"], "E", [rel]) == [["R", "E", "R"]];
    assert CardMap(rel)["E"] == One;
    assert !ManyAt(s, "R", "E");
    var q := ["R", "E", "R"];
    assert !TurnOk(s, q[0], q[1], q[2]);
    assert Level(s, 0) == [["E"], ["R"]];
    assert HasRelationship(s, "R") && ["R"] + ["E"] == ["R", "E"];
    assert ["R", "E"] in ExtendOne(s, ["R"]);
    ExtendPathsTo(s, Level(s, 0), ["R"], ["R", "E"]);
    ExtendPathsTo(s, Level(s, 1), ["R", "E"], ["R", "E", "R"]);
    PathsUpToHas(s, 2, 2, ["R", "E", "R"]);
  }

  // ---------------------------------------------------------------------------
  // Relational variables.

  /** The attributes declared on the item called `n` (none for an unknown name). */
  function AttributesOf(s: Schema, n: string): seq<Attribute> {
    match GetSchemaItem(s, n)
    case Ok(it) => it.attributes
    case Err(_) => []
  }

  /** `name` is one of the declared attributes, or the existence attribute when asked for. */
  predicate Declares(attrs: seq<Attribute>, includeExistence: bool, name: string) {
    name in AttrNames(attrs) || (includeExistence && name == ExistsAttr)
  }

  function VarsOn(p: Path, attrs: seq<Attribute>, includeExistence: bool): (r: seq<RelVar>)
    ensures forall v :: v in r <==> (v.path == p && Declares(attrs, includeExistence, v.attrName))
  {
    var onAttrs := seq(|attrs|, i requires 0 <= i < |attrs| => RelVar(p, attrs[i].name));
    assert forall v :: v in onAttrs <==> (v.path == p && v.attrName in AttrNames(attrs)) by {
      forall v ensures v in onAttrs <==> (v.path == p && v.attrName in AttrNames(attrs)) {
        if v.path == p && v.attrName in AttrNames(attrs) {
          var i :| 0 <= i < |attrs| && AttrNames(attrs)[i] == v.attrName;
          assert onAttrs[i] == v;
        }
        if v in onAttrs {
          var i :| 0 <= i < |attrs| && onAttrs[i] == v;
          assert AttrNames(attrs)[i] == v.attrName;
        }
      }
    }
    onAttrs + (if includeExistence then [RelVar(p, ExistsAttr)] else [])
  }

  /** For each path in turn, a variable per attribute of its terminal item, then
      the existence variable if asked for. */
  function VarsOf(s: Schema, paths: seq<seq<string>>, includeExistence: bool): (r: seq<RelVar>)
    ensures forall v :: v in r <==>
              (v.path in paths && Declares(AttributesOf(s, Terminal(v)), includeExistence, v.attrName))
  {
    if |paths| == 0 then []
    else
      assert forall p :: p in paths <==> p == paths[0] || p in paths[1..];
      var rest := VarsOf(s, paths[1..], includeExistence);
      if |paths[0]| == 0 then
        assert forall v: RelVar :: v.path != paths[0];
        rest
      else
        var here := VarsOn(paths[0], AttributesOf(s, Last(paths[0])), includeExistence);
        assert forall v :: v in here ==> Terminal(v) == Last(paths[0]);
        here + rest
  }

  /** getRelationalVariables. */
  function GetRelationalVariables(s: Schema, h: Num, includeExistence: bool): (r: Result<seq<RelVar>>)
    ensures r.Ok? <==> h.IntNum? && h.i >= 0
    ensures r.Err? ==> r == GetRelationalPaths(s, h).PropagateFailure()
    ensures r.Ok? ==> r.value == VarsOf(s, PathsUpTo(s, h.i), includeExistence)
  {
    var paths :- GetRelationalPaths(s, h);
    Ok(VarsOf(s, paths, includeExistence))
  }

  /** The enumerated variables are exactly the valid variables of at most `h`
      hops, without existence variables unless they are asked for. */
  lemma VariablesValid(s: Schema, h: nat, includeExistence: bool, v: RelVar)
    requires WellFormed(s) && NoSelfRelationships(s)
    ensures v in VarsOf(s, PathsUpTo(s, h), includeExistence) <==>
              |v.path| <= h + 1 && ValidVariable(s, v) && (includeExistence || !IsExistence(v))
  {
    PathsUpToValid(s, h, v.path);
    var t := Terminal(v);
    if HasSchemaItem(s, t) {
      var it := GetSchemaItem(s, t).value;
      assert it in s.entities + s.relationships;
      assert ExistsAttr !in AttrNames(it.attributes);
    }
  }

  // ---------------------------------------------------------------------------
  // Relational dependencies.

  function Occurrences(p: seq<string>, x: string): (r: nat)
    ensures r <= |p|
    ensures r == 0 <==> x !in p
  {
    if |p| == 0 then 0 else (if p[0] == x then 1 else 0) + Occurrences(p[1..], x)
  }

  /** The source's filters on a candidate pair, in the order it applies them:
      existence variables only if asked for; never the existence of an entity;
      a canonical effect; one perspective; no existence at either end of a
      dependency within one item; the effect's relationship may appear only
      once in a cause path when the effect is its existence; no attribute
      causing itself. */
  predicate Keeps(s: Schema, includeExistence: bool, v1: RelVar, v2: RelVar) {
    !(!includeExistence && v1.attrName == ExistsAttr)
    && !(IsExistence(v1) && HasEntity(s, Terminal(v1)))
    && !(!includeExistence && v2.attrName == ExistsAttr)
    && !(IsExistence(v2) && HasEntity(s, Terminal(v2)))
    && |v2.path| <= 1
    && Base(v1) == Base(v2)
    && !(|v1.path| == 1 && (IsExistence(v1) || IsExistence(v2)))
    && !(IsExistence(v2) && Occurrences(v1.path, Base(v2)) > 1)
    && !(v1.attrName == v2.attrName && v1.attrName != ExistsAttr)
  }

  function EffectsOf(s: Schema, includeExistence: bool, v1: RelVar, vars: seq<RelVar>): (r: seq<RelDep>)
    ensures forall d :: d in r <==> d.cause == v1 && d.effect in vars && Keeps(s, includeExistence, v1, d.effect)
  {
    if |vars| == 0 then []
    else
      assert forall v :: v in vars <==> v == vars[0] || v in vars[1..];
      (if Keeps(s, includeExistence, v1, vars[0]) then [RelDep(v1, vars[0])] else [])
      + EffectsOf(s, includeExistence, v1, vars[1..])
  }

  /** For each cause in turn, its dependencies on each effect in turn. */
  function DepsOf(s: Schema, includeExistence: bool, causes: seq<RelVar>, vars: seq<RelVar>): (r: seq<RelDep>)
    ensures forall d :: d in r <==> d.cause in causes && d.effect in vars
                                    && Keeps(s, includeExistence, d.cause, d.effect)
  {
    if |causes| == 0 then []
    else
      assert forall v :: v in causes <==> v == causes[0] || v in causes[1..];
      EffectsOf(s, includeExistence, causes[0], vars) + DepsOf(s, includeExistence, causes[1..], vars)
  }

  /** getRelationalDependencies. */
  function GetRelationalDependencies(s: Schema, h: Num, includeExistence: bool): (r: Result<seq<RelDep>>)
    ensures r.Ok? <==> h.IntNum? && h.i >= 0
    ensures r.Ok? ==> var vars := VarsOf(s, PathsUpTo(s, h.i), includeExistence);
                      r.value == DepsOf(s, includeExistence, vars, vars)
  {
    var vars :- GetRelationalVariables(s, h, includeExistence);
    Ok(DepsOf(s, includeExistence, vars, vars))
  }

  /** Every enumerated dependency is valid, and every valid dependency within
      the hop threshold that the filters keep is enumerated. */
  lemma DependenciesValid(s: Schema, h: nat, includeExistence: bool, d: RelDep)
    requires WellFormed(s) && NoSelfRelationships(s)
    ensures var vars := VarsOf(s, PathsUpTo(s, h), includeExistence);
            d in DepsOf(s, includeExistence, vars, vars) <==>
              |d.cause.path| <= h + 1 && ValidDependency(s, d) && Keeps(s, includeExistence, d.cause, d.effect)
  {
    VariablesValid(s, h, includeExistence, d.cause);
    VariablesValid(s, h, includeExistence, d.effect);
  }

  /** The enumerated dependencies pass the dependency validity check. */
  lemma EnumeratedDependenciesPass(s: Schema, h: nat, includeExistence: bool, d: RelDep)
    requires WellFormed(s) && NoSelfRelationships(s)
    requires var vars := VarsOf(s, PathsUpTo(s, h), includeExistence);
             d in DepsOf(s, includeExistence, vars, vars)
    ensures CheckDependency(s, d).Pass?
  {
    DependenciesValid(s, h, includeExistence, d);
    CheckDependencyValid(s, d);
  }
}
