/** Random schema generation: the argument checks, the naming of entities,
    relationships and attributes, and the loop that joins picked entity pairs
    by relationships. Every random draw is supplied by the caller: each
    distribution as its sequence of draws, the pair picker as a function. */
module SchemaGenerators {
  import opened Wrappers
  import opened Schemas
  import opened Collections
  import opened EntityGraphs
  import Strings
  import RelVars
  import Space

  /** What sampling a distribution returns: an int, a string or anything else. */
  datatype Sample = IntSample(n: int) | StrSample(s: string) | OtherSample

  /** A marginal distribution, given as its successive draws numbered from 0,
      or an argument of some other type. */
  datatype Distribution = Marginal(draw: nat -> Sample) | NotMarginal

  datatype Arguments = Arguments(
    numEntities: Space.Num, numRelationships: Space.Num,
    entityAttrs: Distribution, relationshipAttrs: Distribution,
    pick: Picker, cardinalities: Distribution,
    allowCycles: bool, onePerPair: bool)

  const BadEntityCount := "numEntities must be a non-negative integer"
  const BadRelationshipCount := "numRelationships must be a non-negative integer"
  const TooFewEntities := "must have at least 2 entities to support a relationship"
  const TooManyRelationships := "Too many relationships requested"
  const BadEntityAttrDistribution := "entityAttrDistribution must be a MarginalDistribution"
  const BadRelationshipAttrDistribution := "relationshipAttrDistribution must be a MarginalDistribution"
  const BadCardinalityDistribution := "cardinalityDistribution must be a MarginalDistribution"
  const NoEntityName := "string index out of range"
  const BadEntityAttrCount := "entityAttrDistribution must have a domain of non-negative integers"
  const BadRelationshipAttrCount := "relationshipAttrDistribution must have a domain of non-negative integers"
  const BadCardinality := "cardinalityDistribution must return either Schema.ONE or Schema.MANY"
  const NoPrefix := "no attribute prefix for that entity name"

  /** An integral, non-negative number. */
  predicate IsCount(x: Space.Num) {
    x.IntNum? && x.i >= 0
  }

  predicate IsCountSample(x: Sample) {
    x.IntSample? && x.n >= 0
  }

  /** Only the strings 'one' and 'many' are cardinalities. */
  predicate IsCardinalitySample(x: Sample) {
    x.StrSample? && ParseCardinality(x.s).Some?
  }

  // ---------------------------------------------------------------------------
  // Argument checks.

  /** Everything the arguments must satisfy before anything is generated. */
  predicate ValidArguments(a: Arguments) {
    IsCount(a.numEntities) && IsCount(a.numRelationships)
    && (a.numRelationships.i > 0 ==> a.numEntities.i >= 2)
    && (!a.allowCycles ==> a.numRelationships.i <= a.numEntities.i - 1)
    && (a.onePerPair ==> 2 * a.numRelationships.i <= a.numEntities.i * (a.numEntities.i - 1))
    && a.entityAttrs.Marginal? && a.relationshipAttrs.Marginal? && a.cardinalities.Marginal?
  }

  /** The checks in the source's order; the pair bound n(n-1)/2 is compared
      exactly, as the true division of an even product is. */
  function CheckArguments(a: Arguments): (r: Result<(nat, nat)>)
    ensures r.Ok? <==> ValidArguments(a)
    ensures r.Ok? ==> r.value == (a.numEntities.i, a.numRelationships.i)
    ensures !IsCount(a.numEntities) ==> r == Err(BadEntityCount)
    ensures IsCount(a.numEntities) && !IsCount(a.numRelationships) ==> r == Err(BadRelationshipCount)
    ensures (IsCount(a.numEntities) && IsCount(a.numRelationships)
             && a.numRelationships.i > 0 && a.numEntities.i < 2) ==> r == Err(TooFewEntities)
    ensures (r.Err? && IsCount(a.numEntities) && IsCount(a.numRelationships)
             && (a.allowCycles || a.numRelationships.i <= a.numEntities.i - 1)
             && (!a.onePerPair || 2 * a.numRelationships.i <= a.numEntities.i * (a.numEntities.i - 1))) ==>
              r.msg in {TooFewEntities, BadEntityAttrDistribution, BadRelationshipAttrDistribution,
                        BadCardinalityDistribution}
  {
    if !IsCount(a.numEntities) then Err(BadEntityCount)
    else if !IsCount(a.numRelationships) then Err(BadRelationshipCount)
    else
      var n := a.numEntities.i;
      var m := a.numRelationships.i;
      if m > 0 && n < 2 then Err(TooFewEntities)
      else if !a.allowCycles && m > n - 1 then Err(TooManyRelationships)
      else if a.onePerPair && 2 * m > n * (n - 1) then Err(TooManyRelationships)
      else if !a.entityAttrs.Marginal? then Err(BadEntityAttrDistribution)
      else if !a.relationshipAttrs.Marginal? then Err(BadRelationshipAttrDistribution)
      else if !a.cardinalities.Marginal? then Err(BadCardinalityDistribution)
      else Ok((n, m))
  }

  /** Forbidding cycles already caps the relationships below the number of
      entity pairs, so it implies the one-per-pair bound. */
  lemma AcyclicWithinPairs(a: Arguments)
    requires ValidArguments(a) && !a.allowCycles
    ensures 2 * a.numRelationships.i <= a.numEntities.i * (a.numEntities.i - 1)
  {
    var n, m := a.numEntities.i, a.numRelationships.i;
    if m > 0 {
      assert 2 * m <= 2 * (n - 1) <= n * (n - 1);
    }
  }

  // ---------------------------------------------------------------------------
  // Names.

  const Letters := "ABCDEF"
  const Prefixes := "XYZWVU"

  /** The name of the i-th entity: the i-th capital letter. */
  function EntityName(i: nat): string
    requires i < |Letters|
  {
    [Letters[i]]
  }

  lemma EntityNamesDistinct(i: nat, j: nat)
    requires i < |Letters| && j < |Letters| && i != j
    ensures EntityName(i) != EntityName(j)
  {
    assert EntityName(i)[0] == Letters[i] && EntityName(j)[0] == Letters[j];
  }

  /** The attribute-name prefix of an entity: X for A, Y for B and so on, and
      none for a name outside A to F. */
  function PrefixOf(name: string): (r: Result<string>)
    ensures r.Ok? <==> exists i :: 0 <= i < |Letters| && name == EntityName(i)
    ensures forall i :: 0 <= i < |Letters| && name == EntityName(i) ==> r == Ok([Prefixes[i]])
  {
    if name == "A" then assert name == EntityName(0); Ok("X")
    else if name == "B" then assert name == EntityName(1); Ok("Y")
    else if name == "C" then assert name == EntityName(2); Ok("Z")
    else if name == "D" then assert name == EntityName(3); Ok("W")
    else if name == "E" then assert name == EntityName(4); Ok("V")
    else if name == "F" then assert name == EntityName(5); Ok("U")
    else
      assert forall i :: 0 <= i < |Letters| ==> name != EntityName(i) by {
        forall i | 0 <= i < |Letters| ensures name != EntityName(i) {
          assert i == 0 || i == 1 || i == 2 || i == 3 || i == 4 || i == 5;
        }
      }
      Err(NoPrefix)
  }

  /** The attributes `prefix1`, `prefix2`, …, `prefixk`, in that order. */
  function Numbered(prefix: string, k: nat): (r: seq<Attribute>)
    ensures |r| == k
    ensures forall i :: 0 <= i < k ==> r[i] == Attribute(prefix + Strings.NatToString(i + 1), None)
  {
    if k == 0 then [] else Numbered(prefix, k - 1) + [Attribute(prefix + Strings.NatToString(k), None)]
  }

  /** Numbering gives every attribute a new name. */
  lemma FreshNumber(prefix: string, k: nat)
    requires k >= 1
    ensures prefix + Strings.NatToString(k) !in AttrNames(Numbered(prefix, k - 1))
  {
    var names := AttrNames(Numbered(prefix, k - 1));
    forall i | 0 <= i < |names| ensures names[i] != prefix + Strings.NatToString(k) {
      assert names[i] == prefix + Strings.NatToString(i + 1);
      NumberSuffix(prefix, i + 1, k);
    }
  }

  /** A common prefix followed by different numbers gives different names. */
  lemma NumberSuffix(prefix: string, a: nat, b: nat)
    requires a != b
    ensures prefix + Strings.NatToString(a) != prefix + Strings.NatToString(b)
  {
    var x, y := prefix + Strings.NatToString(a), prefix + Strings.NatToString(b);
    assert x[|prefix|..] == Strings.NatToString(a);
    assert y[|prefix|..] == Strings.NatToString(b);
    if x == y {
      Strings.NatToStringInjective(a, b);
    }
  }

  /** `schema.addAttribute` for `prefix1` … `prefixk` on the item `item`, in order. */
  function AddAttributes(s: Schema, item: string, prefix: string, k: nat): Result<Schema> {
    if k == 0 then Ok(s)
    else
      var s1 :- AddAttributes(s, item, prefix, k - 1);
      AddAttribute(s1, item, prefix + Strings.NatToString(k), None)
  }

  /** A name missing from the first items is found among the others. */
  lemma {:induction false} IndexAfter(items: seq<Item>, more: seq<Item>, n: string)
    requires n !in Names(items) && n in Names(more)
    ensures n in Names(items + more) && IndexOf(items + more, n) == |items| + IndexOf(more, n)
  {
    var k :| 0 <= k < |more| && Names(more)[k] == n;
    assert Names(items + more)[|items| + k] == n;
    if |items| > 0 {
      assert Names(items)[0] == items[0].name;
      assert (items + more)[1..] == items[1..] + more;
      assert n !in Names(items[1..]) by {
        forall j | 0 <= j < |items| - 1 ensures Names(items[1..])[j] != n {
          assert Names(items[1..])[j] == Names(items)[j + 1];
        }
      }
      IndexAfter(items[1..], more, n);
    } else {
      assert items + more == more;
    }
  }

  /** Numbering the attributes of the entity added last never fails and
      leaves it with exactly `prefix1` … `prefixk`. */
  lemma {:induction false} NumberLastEntity(es: seq<Item>, rels: seq<Item>, name: string, prefix: string, k: nat)
    requires name !in Names(es) && |prefix| > 0 && prefix[0] != 'e'
    ensures AddAttributes(Schema(es + [Entity(name, [])], rels), name, prefix, k)
            == Ok(Schema(es + [Entity(name, Numbered(prefix, k))], rels))
  {
    if k > 0 {
      NumberLastEntity(es, rels, name, prefix, k - 1);
      var a := prefix + Strings.NatToString(k);
      FreshNumber(prefix, k);
      assert a[0] == prefix[0];
      AddToLastEntity(es, rels, Entity(name, Numbered(prefix, k - 1)), a);
    }
  }

  /** `schema.addAttribute` on the entity added last appends to it alone. */
  lemma AddToLastEntity(es: seq<Item>, rels: seq<Item>, last: Item, a: string)
    requires last.Entity? && last.name !in Names(es) && a != ExistsAttr && a !in AttrNames(last.attributes)
    ensures AddAttribute(Schema(es + [last], rels), last.name, a, None)
            == Ok(Schema(es + [last.(attributes := last.attributes + [Attribute(a, None)])], rels))
  {
    assert Names([last])[0] == last.name;
    IndexAfter(es, [last], last.name);
    var added := AddItemAttribute(last, a, None);
    assert (es + [last])[|es| := added.value] == es + [added.value];
  }

  /** The same for the relationship added last, whose name no entity has. */
  lemma {:induction false} NumberLastRelationship(es: seq<Item>, rels: seq<Item>, r: Item, prefix: string, k: nat)
    requires r.Relationship? && r.attributes == []
    requires r.name !in Names(es) && r.name !in Names(rels) && |prefix| > 0 && prefix[0] != 'e'
    ensures AddAttributes(Schema(es, rels + [r]), r.name, prefix, k)
            == Ok(Schema(es, rels + [r.(attributes := Numbered(prefix, k))]))
  {
    if k > 0 {
      NumberLastRelationship(es, rels, r, prefix, k - 1);
      var a := prefix + Strings.NatToString(k);
      FreshNumber(prefix, k);
      assert a[0] == prefix[0];
      AddToLastRelationship(es, rels, r.(attributes := Numbered(prefix, k - 1)), a);
    }
  }

  lemma AddToLastRelationship(es: seq<Item>, rels: seq<Item>, last: Item, a: string)
    requires last.Relationship? && last.name !in Names(es) && last.name !in Names(rels)
    requires a != ExistsAttr && a !in AttrNames(last.attributes)
    ensures AddAttribute(Schema(es, rels + [last]), last.name, a, None)
            == Ok(Schema(es, rels + [last.(attributes := last.attributes + [Attribute(a, None)])]))
  {
    assert Names([last])[0] == last.name;
    IndexAfter(rels, [last], last.name);
    var added := AddItemAttribute(last, a, None);
    assert (rels + [last])[|rels| := added.value] == rels + [added.value];
  }

  // ---------------------------------------------------------------------------
  // Entities.

  /** The entities as generated, entity i drawing its attribute count from
      draw i: named by the i-th letter, with the attributes of its prefix
      numbered from 1. */
  ghost predicate GeneratedEntities(es: seq<Item>, attrs: nat -> Sample) {
    |es| <= |Letters|
    && forall i :: 0 <= i < |es| ==>
         IsCountSample(attrs(i)) && es[i] == Entity(EntityName(i), Numbered([Prefixes[i]], attrs(i).n))
  }

  /** The entity loop from entity `i` on. */
  function EntityLoop(s: Schema, i: nat, n: nat, attrs: nat -> Sample): Result<Schema>
    decreases n - i
  {
    if i >= n then Ok(s)
    else if i >= |Letters| then Err(NoEntityName)
    else
      var name := EntityName(i);
      var s1 :- AddEntity(s, name);
      var k := attrs(i);
      if !IsCountSample(k) then Err(BadEntityAttrCount)
      else
        var prefix :- PrefixOf(name);
        var s2 :- AddAttributes(s1, name, prefix, k.n);
        EntityLoop(s2, i + 1, n, attrs)
  }

  /** One round of the entity loop appends the next generated entity. */
  lemma EntityStep(es: seq<Item>, n: nat, attrs: nat -> Sample)
    requires GeneratedEntities(es, attrs) && |es| < n && |es| < |Letters| && IsCountSample(attrs(|es|))
    ensures var es' := es + [Entity(EntityName(|es|), Numbered([Prefixes[|es|]], attrs(|es|).n))];
            GeneratedEntities(es', attrs)
            && EntityLoop(Schema(es, []), |es|, n, attrs) == EntityLoop(Schema(es', []), |es'|, n, attrs)
  {
    var i := |es|;
    var name := EntityName(i);
    NextNameFresh(es, attrs);
    var prefix := [Prefixes[i]];
    assert PrefixOf(name) == Ok(prefix);
    NumberLastEntity(es, [], name, prefix, attrs(i).n);
    GeneratedGrows(es, attrs);
  }

  lemma NextNameFresh(es: seq<Item>, attrs: nat -> Sample)
    requires GeneratedEntities(es, attrs) && |es| < |Letters|
    ensures EntityName(|es|) !in Names(es)
  {
    var name := EntityName(|es|);
    if name in Names(es) {
      var j :| 0 <= j < |es| && Names(es)[j] == name;
      EntityNamesDistinct(|es|, j);
    }
  }

  lemma GeneratedGrows(es: seq<Item>, attrs: nat -> Sample)
    requires GeneratedEntities(es, attrs) && |es| < |Letters| && IsCountSample(attrs(|es|))
    ensures GeneratedEntities(es + [Entity(EntityName(|es|), Numbered([Prefixes[|es|]], attrs(|es|).n))], attrs)
  {
    var es' := es + [Entity(EntityName(|es|), Numbered([Prefixes[|es|]], attrs(|es|).n))];
    forall j | 0 <= j < |es'|
      ensures IsCountSample(attrs(j)) && es'[j] == Entity(EntityName(j), Numbered([Prefixes[j]], attrs(j).n))
    {
      if j < |es| {
        assert es'[j] == es[j];
      }
    }
  }

  /** The loop succeeds exactly when no more than six entities are asked for
      and every count drawn is a non-negative integer, and then builds the
      generated entities and nothing else. */
  lemma {:induction false} EntityLoopBuilds(es: seq<Item>, n: nat, attrs: nat -> Sample)
    requires GeneratedEntities(es, attrs) && |es| <= n
    ensures var r := EntityLoop(Schema(es, []), |es|, n, attrs);
            (r.Ok? <==> n <= |Letters| && forall i :: |es| <= i < n ==> IsCountSample(attrs(i)))
            && (r.Ok? ==> r.value.relationships == [] && |r.value.entities| == n
                          && GeneratedEntities(r.value.entities, attrs))
            && (n > |Letters| && (forall i :: |es| <= i < |Letters| ==> IsCountSample(attrs(i))) ==>
                  r == Err(NoEntityName))
    decreases n - |es|
  {
    var i := |es|;
    if i < n && i < |Letters| && IsCountSample(attrs(i)) {
      EntityStep(es, n, attrs);
      EntityLoopBuilds(es + [Entity(EntityName(i), Numbered([Prefixes[i]], attrs(i).n))], n, attrs);
    }
  }

  // ---------------------------------------------------------------------------
  // Relationships.

  /** The base of a relationship name: the endpoint names in alphabetical order. */
  function BaseName(e1: string, e2: string): string {
    if RelVars.StrLess(e1, e2) then e1 + e2 else e2 + e1
  }

  /** The base does not depend on which endpoint the picker listed first. */
  lemma BaseNameSymmetric(e1: string, e2: string)
    ensures BaseName(e1, e2) == BaseName(e2, e1)
  {
    RelVars.StrLessStrict(e1, e2);
  }

  /** The c-th relationship on a base is named by the base alone when c is 1,
      and by the base followed by c from the second on. */
  function RelName(base: string, count: nat): string {
    if count == 1 then base else base + Strings.NatToString(count)
  }

  /** The attribute prefix of a relationship: its endpoints' prefixes in the
      endpoints' alphabetical order, then, from the second relationship on
      the same base, the count and an underscore. */
  function RelAttrPrefix(e1: string, e2: string, p1: string, p2: string, count: nat): string {
    (if RelVars.StrLess(e1, e2) then p1 + p2 else p2 + p1)
    + (if count > 1 then Strings.NatToString(count) + "_" else "")
  }

  /** `relNamesToCount` read with 0 for a base not seen yet. */
  function CountOf(counts: map<string, nat>, b: string): nat {
    if b in counts then counts[b] else 0
  }

  /** The draws after the argument checks have passed. */
  datatype Draws = Draws(entityAttrs: nat -> Sample, relationshipAttrs: nat -> Sample,
                         cardinalities: nat -> Sample, pick: Picker,
                         allowCycles: bool, onePerPair: bool)

  /** The loop state: the schema, `relNamesToCount`, the candidate pairs, the
      entity graph and the number of picker calls so far. */
  datatype Progress = Progress(schema: Schema, counts: map<string, nat>, cands: seq<Pair>,
                               graph: Graph, picks: nat)

  /** A relationship as the j-th round generates it on the `count`-th use of
      its base: named after the base, cardinalities from draws 2j and 2j+1,
      and as many attributes, numbered after its prefix, as draw j says. */
  ghost predicate IsGenerated(r: Item, d: Draws, j: nat, count: nat) {
    r.Relationship?
    && var c1 := d.cardinalities(2 * j);
       var c2 := d.cardinalities(2 * j + 1);
       r.name == RelName(BaseName(r.entity1, r.entity2), count)
       && IsCardinalitySample(c1) && IsCardinalitySample(c2)
       && r.card1 == ParseCardinality(c1.s).value && r.card2 == ParseCardinality(c2.s).value
       && IsCountSample(d.relationshipAttrs(j))
       && PrefixOf(r.entity1).Ok? && PrefixOf(r.entity2).Ok?
       && r.attributes == Numbered(RelAttrPrefix(r.entity1, r.entity2, PrefixOf(r.entity1).value,
                                                 PrefixOf(r.entity2).value, count),
                                   d.relationshipAttrs(j).n)
  }

  /** The j-th round once its pair is chosen: draw and check both
      cardinalities, add the relationship, then draw its attribute count and
      add the numbered attributes. */
  function AddGenerated(d: Draws, j: nat, s: Schema, e1: string, e2: string, count: nat): (r: Result<Schema>)
    requires WellFormed(s)
    ensures r.Ok? ==> WellFormed(r.value) && r.value.entities == s.entities
                      && |r.value.relationships| == |s.relationships| + 1
                      && r.value.relationships == s.relationships + [r.value.relationships[|s.relationships|]]
    ensures r.Ok? ==> var x := r.value.relationships[|s.relationships|];
                      IsGenerated(x, d, j, count) && x.entity1 == e1 && x.entity2 == e2
  {
    var name := RelName(BaseName(e1, e2), count);
    var card1 := d.cardinalities(2 * j);
    var card2 := d.cardinalities(2 * j + 1);
    if !IsCardinalitySample(card1) || !IsCardinalitySample(card2) then Err(BadCardinality)
    else
      var s1 :- AddRelationship(s, name, (e1, card1.s), (e2, card2.s));
      var k := d.relationshipAttrs(j);
      if !IsCountSample(k) then Err(BadRelationshipAttrCount)
      else
        var p1 :- PrefixOf(e1);
        var p2 :- PrefixOf(e2);
        var prefix := RelAttrPrefix(e1, e2, p1, p2, count);
        var r := Relationship(name, [], e1, ParseCardinality(card1.s).value, e2, ParseCardinality(card2.s).value);
        AddRelationshipWellFormed(s, name, (e1, card1.s), (e2, card2.s));
        PrefixShape(e1);
        PrefixShape(e2);
        assert prefix[0] == p1[0] || prefix[0] == p2[0];
        NumberLastRelationship(s.entities, s.relationships, r, prefix, k.n);
        AddAttributesWellFormed(s1, name, prefix, k.n);
        AddAttributes(s1, name, prefix, k.n)
  }

  /** One round of the relationship loop, the j-th. */
  function RelStep(d: Draws, j: nat, st: Progress): Result<Progress>
    requires WellFormed(st.schema)
  {
    var c :- ChooseEntityPair(d.pick, st.cands, d.onePerPair, d.allowCycles, st.graph, st.picks);
    Join(d, j, st, c)
  }

  /** The rest of the round once the pair is chosen: the relationship takes
      the next count of its base. */
  function Join(d: Draws, j: nat, st: Progress, c: Choice): Result<Progress>
    requires WellFormed(st.schema)
  {
    var base := BaseName(c.pair.0, c.pair.1);
    var count := CountOf(st.counts, base) + 1;
    var s :- AddGenerated(d, j, st.schema, c.pair.0, c.pair.1, count);
    Ok(Progress(s, st.counts[base := count], c.cands, c.graph, c.picks))
  }

  function RelLoop(d: Draws, j: nat, m: nat, st: Progress): (r: Result<Progress>)
    requires WellFormed(st.schema)
    ensures r.Ok? ==> WellFormed(r.value.schema)
    decreases m - j
  {
    if j >= m then Ok(st)
    else
      var st1 :- RelStep(d, j, st);
      RelLoop(d, j + 1, m, st1)
  }

  /** The endpoint pair of every relationship. */
  function EndsOf(rels: seq<Item>): (r: seq<Pair>)
    ensures |r| == |rels|
  {
    seq(|rels|, i requires 0 <= i < |rels| =>
      if rels[i].Relationship? then (rels[i].entity1, rels[i].entity2) else ("", ""))
  }

  function BasesOf(rels: seq<Item>): (r: seq<string>)
    ensures |r| == |rels|
  {
    seq(|rels|, i requires 0 <= i < |rels| => BaseName(EndsOf(rels)[i].0, EndsOf(rels)[i].1))
  }

  /** Relationship i as generated, its base used for the count-th time
      counting it and the relationships before it. */
  ghost predicate GeneratedRelationship(rels: seq<Item>, i: nat, d: Draws)
    requires i < |rels|
  {
    rels[i].Relationship?
    && IsGenerated(rels[i], d, i, multiset(BasesOf(rels[..i + 1]))[BaseName(rels[i].entity1, rels[i].entity2)])
  }

  /** What the relationship loop keeps true after j rounds: the schema holds
      the generated entities and j generated relationships, ... */
  ghost predicate RelInv(d: Draws, es: seq<Item>, j: nat, st: Progress) {
    RelsSoFar(d, es, j, st.schema)
    && CountsSoFar(st.counts, st.schema.relationships)
    && CandsSoFar(d, es, st.cands, st.schema.relationships)
    && GraphSoFar(d, es, st.graph, st.schema.relationships)
  }

  ghost predicate RelsSoFar(d: Draws, es: seq<Item>, j: nat, s: Schema) {
    s.entities == es && GeneratedEntities(es, d.entityAttrs) && WellFormed(s)
    && |s.relationships| == j
    && (forall i :: 0 <= i < j ==> GeneratedRelationship(s.relationships, i, d))
  }

  /** ... `relNamesToCount` counts the uses of every base, ... */
  ghost predicate CountsSoFar(counts: map<string, nat>, rels: seq<Item>) {
    forall b :: CountOf(counts, b) == multiset(BasesOf(rels))[b]
  }

  /** ... every candidate joins two different entities, and when a pair may
      be used once or cycles are forbidden, no pair is listed twice or both
      listed and used, ... */
  ghost predicate CandsSoFar(d: Draws, es: seq<Item>, cands: seq<Pair>, rels: seq<Item>) {
    (forall p :: p in cands ==> p.0 in Names(es) && p.1 in Names(es) && p.0 != p.1)
    && ((d.onePerPair || !d.allowCycles) ==>
          PairwiseDistinct(cands) && PairwiseDistinct(EndsOf(rels)) && SetOf(cands) !! SetOf(EndsOf(rels)))
  }

  /** ... and when cycles are forbidden the entity graph has the relationships
      as its edges, which form a forest. */
  ghost predicate GraphSoFar(d: Draws, es: seq<Item>, g: Graph, rels: seq<Item>) {
    !d.allowCycles ==> g == Graph(SetOf(Names(es)), SetOf(EndsOf(rels))) && Forest(EndsOf(rels))
  }

  // ---------------------------------------------------------------------------
  // Candidate pairs.

  /** `itertools.combinations(xs, 2)`: the pairs of entries at positions
      i < j, ordered by i and then j. */
  function Combinations(xs: seq<string>): (r: seq<Pair>)
    ensures forall p :: p in r ==> p.0 in xs && p.1 in xs
    ensures 2 * |r| == |xs| * (|xs| - 1)
  {
    if |xs| == 0 then []
    else
      var first := seq(|xs| - 1, k requires 0 <= k < |xs| - 1 => (xs[0], xs[k + 1]));
      var rest := Combinations(xs[1..]);
      var n := |xs|;
      assert 2 * (n - 1) + (n - 1) * (n - 2) == n * (n - 1);
      first + rest
  }

  /** Every pair of distinct positions is a candidate, earlier entry first. */
  lemma {:induction false} CombinationsComplete(xs: seq<string>, i: nat, j: nat)
    requires i < j < |xs|
    ensures (xs[i], xs[j]) in Combinations(xs)
  {
    var first := seq(|xs| - 1, k requires 0 <= k < |xs| - 1 => (xs[0], xs[k + 1]));
    if i == 0 {
      assert first[j - 1] == (xs[i], xs[j]);
    } else {
      CombinationsComplete(xs[1..], i - 1, j - 1);
    }
  }

  /** Over distinct entries the candidates are distinct and never pair an
      entry with itself. */
  lemma {:induction false} CombinationsDistinct(xs: seq<string>)
    requires PairwiseDistinct(xs)
    ensures PairwiseDistinct(Combinations(xs))
    ensures forall p :: p in Combinations(xs) ==> p.0 != p.1
  {
    if |xs| > 0 {
      var first := seq(|xs| - 1, k requires 0 <= k < |xs| - 1 => (xs[0], xs[k + 1]));
      var rest := Combinations(xs[1..]);
      DistinctCons(xs);
      CombinationsDistinct(xs[1..]);
      assert Combinations(xs) == first + rest;
      assert PairwiseDistinct(first) by {
        forall a, b | 0 <= a < b < |first| ensures first[a] != first[b] {
          assert xs[a + 1] != xs[b + 1];
        }
      }
      forall p | p in first ensures p.0 != p.1 && p !in rest {
        var k :| 0 <= k < |first| && first[k] == p;
        assert p.1 == xs[k + 1] && p.0 == xs[0];
      }
      DistinctConcat(first, rest);
    }
  }

  // ---------------------------------------------------------------------------
  // The loops keep the schema well formed.

  lemma {:induction false} AddAttributesWellFormed(s: Schema, item: string, prefix: string, k: nat)
    requires WellFormed(s) && AddAttributes(s, item, prefix, k).Ok?
    ensures WellFormed(AddAttributes(s, item, prefix, k).value)
  {
    if k > 0 {
      AddAttributesWellFormed(s, item, prefix, k - 1);
      var s1 := AddAttributes(s, item, prefix, k - 1).value;
      AddAttributeWellFormed(s1, item, prefix + Strings.NatToString(k), None);
    }
  }

  lemma PrefixShape(name: string)
    requires PrefixOf(name).Ok?
    ensures |PrefixOf(name).value| == 1 && PrefixOf(name).value[0] != 'e'
  {
    var i :| 0 <= i < |Letters| && name == EntityName(i);
    assert i == 0 || i == 1 || i == 2 || i == 3 || i == 4 || i == 5;
  }

  // ---------------------------------------------------------------------------
  // One round of the relationship loop.

  lemma EndsAppend(rels: seq<Item>, r: Item)
    requires r.Relationship?
    ensures EndsOf(rels + [r]) == EndsOf(rels) + [(r.entity1, r.entity2)]
    ensures BasesOf(rels + [r]) == BasesOf(rels) + [BaseName(r.entity1, r.entity2)]
  {
    assert EndsOf(rels + [r]) == EndsOf(rels) + [(r.entity1, r.entity2)];
  }

  /** What the choice leaves of the candidates: never a new one, and when a
      pair may be used once or cycles are forbidden, a candidate pair taken
      out of a remainder that stays free of duplicates. */
  lemma ChoiceNarrows(d: Draws, st: Progress)
    requires ChooseEntityPair(d.pick, st.cands, d.onePerPair, d.allowCycles, st.graph, st.picks).Ok?
    ensures var c := ChooseEntityPair(d.pick, st.cands, d.onePerPair, d.allowCycles, st.graph, st.picks).value;
            SetOf(c.cands) <= SetOf(st.cands)
            && ((d.onePerPair || !d.allowCycles) ==>
                  c.pair in st.cands
                  && (PairwiseDistinct(st.cands) ==> PairwiseDistinct(c.cands) && c.pair !in c.cands))
  {
  }

  lemma RelsKeepGenerated(d: Draws, rels: seq<Item>, r: Item, count: nat)
    requires forall i :: 0 <= i < |rels| ==> GeneratedRelationship(rels, i, d)
    requires IsGenerated(r, d, |rels|, count)
    requires count == multiset(BasesOf(rels))[BaseName(r.entity1, r.entity2)] + 1
    ensures forall i :: 0 <= i < |rels| + 1 ==> GeneratedRelationship(rels + [r], i, d)
  {
    var rels' := rels + [r];
    EndsAppend(rels, r);
    forall i | 0 <= i < |rels| ensures GeneratedRelationship(rels', i, d) {
      EarlierGenerated(d, rels, r, i);
    }
    LastGenerated(d, rels, r, count);
  }

  lemma EarlierGenerated(d: Draws, rels: seq<Item>, r: Item, i: nat)
    requires i < |rels| && GeneratedRelationship(rels, i, d)
    ensures GeneratedRelationship(rels + [r], i, d)
  {
    assert (rels + [r])[..i + 1] == rels[..i + 1];
  }

  lemma LastGenerated(d: Draws, rels: seq<Item>, r: Item, count: nat)
    requires IsGenerated(r, d, |rels|, count)
    requires count == multiset(BasesOf(rels))[BaseName(r.entity1, r.entity2)] + 1
    ensures GeneratedRelationship(rels + [r], |rels|, d)
  {
    var rels' := rels + [r];
    var base := BaseName(r.entity1, r.entity2);
    EndsAppend(rels, r);
    assert rels'[|rels|] == r;
    assert rels'[..|rels| + 1] == rels';
    assert multiset(BasesOf(rels')) == multiset(BasesOf(rels)) + multiset{base};
    assert multiset(BasesOf(rels'[..|rels| + 1]))[base] == count;
  }

  lemma CountsKeep(counts: map<string, nat>, bases: seq<string>, base: string)
    requires forall b :: CountOf(counts, b) == multiset(bases)[b]
    ensures forall b :: CountOf(counts[base := CountOf(counts, base) + 1], b) == multiset(bases + [base])[b]
  {
    assert multiset(bases + [base]) == multiset(bases) + multiset{base};
  }

  lemma EndsKeepDistinct(cands: seq<Pair>, cands': seq<Pair>, ends: seq<Pair>, p: Pair)
    requires PairwiseDistinct(cands) && PairwiseDistinct(ends) && SetOf(cands) !! SetOf(ends)
    requires p in cands && SetOf(cands') <= SetOf(cands) && PairwiseDistinct(cands') && p !in cands'
    ensures PairwiseDistinct(cands') && PairwiseDistinct(ends + [p]) && SetOf(cands') !! SetOf(ends + [p])
  {
    assert p in SetOf(cands);
    DistinctConcat(ends, [p]);
    SetOfConcat(ends, [p]);
  }

  lemma GraphGrows(es: seq<Item>, ends: seq<Pair>, g: Graph, p: Pair)
    requires g == Graph(SetOf(Names(es)), SetOf(ends)) && Forest(ends)
    requires p.0 in Names(es) && p.1 in Names(es) && p.0 != p.1 && !Connected(g.edges, p.0, p.1)
    ensures AddEdge(g, p) == Graph(SetOf(Names(es)), SetOf(ends + [p])) && Forest(ends + [p])
  {
    GraphGrowsSets(Names(es), ends, g, p);
    ForestGrows(ends, p);
  }

  lemma GraphGrowsSets(names: seq<string>, ends: seq<Pair>, g: Graph, p: Pair)
    requires g == Graph(SetOf(names), SetOf(ends)) && p.0 in names && p.1 in names
    ensures AddEdge(g, p) == Graph(SetOf(names), SetOf(ends + [p]))
  {
    var ns := SetOf(names);
    assert p.0 in ns && p.1 in ns;
    assert ns + {p.0, p.1} == ns;
    SetOfConcat(ends, [p]);
    assert SetOf([p]) == {p};
  }

  /** The parts of a successful round: the chosen pair, then its base and
      count, and the schema with the new relationship. */
  lemma RoundParts(d: Draws, j: nat, st: Progress)
    requires WellFormed(st.schema) && RelStep(d, j, st).Ok?
    ensures var c := ChooseEntityPair(d.pick, st.cands, d.onePerPair, d.allowCycles, st.graph, st.picks);
            c.Ok? && RelStep(d, j, st) == Join(d, j, st, c.value)
  {
  }

  lemma JoinParts(d: Draws, j: nat, st: Progress, c: Choice)
    requires WellFormed(st.schema) && Join(d, j, st, c).Ok?
    ensures var base := BaseName(c.pair.0, c.pair.1);
            var count := CountOf(st.counts, base) + 1;
            var s := AddGenerated(d, j, st.schema, c.pair.0, c.pair.1, count);
            s.Ok? && Join(d, j, st, c).value == Progress(s.value, st.counts[base := count], c.cands, c.graph, c.picks)
  {
  }

  lemma RelsStep(d: Draws, es: seq<Item>, j: nat, st: Progress)
    requires RelsSoFar(d, es, j, st.schema) && CountsSoFar(st.counts, st.schema.relationships)
    requires RelStep(d, j, st).Ok?
    ensures RelsSoFar(d, es, j + 1, RelStep(d, j, st).value.schema)
  {
    RoundParts(d, j, st);
    var c := ChooseEntityPair(d.pick, st.cands, d.onePerPair, d.allowCycles, st.graph, st.picks).value;
    JoinParts(d, j, st, c);
    var count := CountOf(st.counts, BaseName(c.pair.0, c.pair.1)) + 1;
    var s := AddGenerated(d, j, st.schema, c.pair.0, c.pair.1, count).value;
    SchemaGrows(d, es, j, st.schema, s, count);
  }

  lemma SchemaGrows(d: Draws, es: seq<Item>, j: nat, s0: Schema, s: Schema, count: nat)
    requires RelsSoFar(d, es, j, s0) && s.entities == es && WellFormed(s)
    requires |s.relationships| == j + 1 && s.relationships == s0.relationships + [s.relationships[j]]
    requires IsGenerated(s.relationships[j], d, j, count)
    requires count == multiset(BasesOf(s0.relationships))[BaseName(s.relationships[j].entity1,
                                                                   s.relationships[j].entity2)] + 1
    ensures RelsSoFar(d, es, j + 1, s)
  {
    RelsKeepGenerated(d, s0.relationships, s.relationships[j], count);
  }

  /** The new relationship joins the chosen pair. */
  lemma NewEnds(d: Draws, j: nat, st: Progress)
    requires WellFormed(st.schema) && |st.schema.relationships| == j && RelStep(d, j, st).Ok?
    ensures var c := ChooseEntityPair(d.pick, st.cands, d.onePerPair, d.allowCycles, st.graph, st.picks).value;
            var st' := RelStep(d, j, st).value;
            EndsOf(st'.schema.relationships) == EndsOf(st.schema.relationships) + [c.pair]
            && BasesOf(st'.schema.relationships) == BasesOf(st.schema.relationships) + [BaseName(c.pair.0, c.pair.1)]
            && st'.counts == st.counts[BaseName(c.pair.0, c.pair.1) := CountOf(st.counts, BaseName(c.pair.0, c.pair.1)) + 1]
            && st'.cands == c.cands && st'.graph == c.graph
  {
    RoundParts(d, j, st);
    var c := ChooseEntityPair(d.pick, st.cands, d.onePerPair, d.allowCycles, st.graph, st.picks).value;
    JoinParts(d, j, st, c);
    var st' := RelStep(d, j, st).value;
    EndsAppend(st.schema.relationships, st'.schema.relationships[j]);
  }

  lemma CountsStep(d: Draws, j: nat, st: Progress)
    requires WellFormed(st.schema) && |st.schema.relationships| == j && RelStep(d, j, st).Ok?
    requires CountsSoFar(st.counts, st.schema.relationships)
    ensures CountsSoFar(RelStep(d, j, st).value.counts, RelStep(d, j, st).value.schema.relationships)
  {
    NewEnds(d, j, st);
    var c := ChooseEntityPair(d.pick, st.cands, d.onePerPair, d.allowCycles, st.graph, st.picks).value;
    CountsKeep(st.counts, BasesOf(st.schema.relationships), BaseName(c.pair.0, c.pair.1));
  }

  lemma CandsStep(d: Draws, es: seq<Item>, j: nat, st: Progress)
    requires WellFormed(st.schema) && |st.schema.relationships| == j && RelStep(d, j, st).Ok?
    requires CandsSoFar(d, es, st.cands, st.schema.relationships)
    ensures CandsSoFar(d, es, RelStep(d, j, st).value.cands, RelStep(d, j, st).value.schema.relationships)
  {
    NewEnds(d, j, st);
    ChoiceNarrows(d, st);
    var c := ChooseEntityPair(d.pick, st.cands, d.onePerPair, d.allowCycles, st.graph, st.picks).value;
    CandsShrink(st.cands, c.cands, Names(es));
    if d.onePerPair || !d.allowCycles {
      EndsKeepDistinct(st.cands, c.cands, EndsOf(st.schema.relationships), c.pair);
    }
  }

  lemma CandsShrink(cands: seq<Pair>, cands': seq<Pair>, names: seq<string>)
    requires SetOf(cands') <= SetOf(cands)
    requires forall p :: p in cands ==> p.0 in names && p.1 in names && p.0 != p.1
    ensures forall p :: p in cands' ==> p.0 in names && p.1 in names && p.0 != p.1
  {
    forall p | p in cands' ensures p.0 in names && p.1 in names && p.0 != p.1 {
      assert p in SetOf(cands');
    }
  }

  lemma GraphStep(d: Draws, es: seq<Item>, j: nat, st: Progress)
    requires WellFormed(st.schema) && |st.schema.relationships| == j && RelStep(d, j, st).Ok?
    requires CandsSoFar(d, es, st.cands, st.schema.relationships)
    requires GraphSoFar(d, es, st.graph, st.schema.relationships)
    ensures GraphSoFar(d, es, RelStep(d, j, st).value.graph, RelStep(d, j, st).value.schema.relationships)
  {
    if !d.allowCycles {
      NewEnds(d, j, st);
      ChoiceNarrows(d, st);
      var c := ChooseEntityPair(d.pick, st.cands, d.onePerPair, d.allowCycles, st.graph, st.picks).value;
      GraphGrows(es, EndsOf(st.schema.relationships), st.graph, c.pair);
    }
  }

  /** Every round that succeeds keeps the loop invariant. */
  lemma RelStepKeeps(d: Draws, es: seq<Item>, j: nat, st: Progress)
    requires RelInv(d, es, j, st) && RelStep(d, j, st).Ok?
    ensures RelInv(d, es, j + 1, RelStep(d, j, st).value)
  {
    RelsStep(d, es, j, st);
    CountsStep(d, j, st);
    CandsStep(d, es, j, st);
    GraphStep(d, es, j, st);
  }

  /** The invariant holds after every round of a loop that succeeds. */
  lemma {:induction false} RelLoopKeeps(d: Draws, es: seq<Item>, j: nat, m: nat, st: Progress)
    requires RelInv(d, es, j, st) && j <= m && RelLoop(d, j, m, st).Ok?
    ensures RelInv(d, es, m, RelLoop(d, j, m, st).value)
    decreases m - j
  {
    if j < m {
      RelStepKeeps(d, es, j, st);
      RelLoopKeeps(d, es, j + 1, m, RelStep(d, j, st).value);
    }
  }

  /** The loop starts from every pair of distinct entities, in the order of
      `itertools.combinations`, with no relationship and an edgeless graph. */
  function StartOf(s: Schema): Progress {
    Progress(s, map[], Combinations(Names(s.entities)), Graph(SetOf(Names(s.entities)), {}), 0)
  }

  lemma RelInvStarts(d: Draws, es: seq<Item>)
    requires GeneratedEntities(es, d.entityAttrs) && WellFormed(Schema(es, []))
    ensures RelInv(d, es, 0, StartOf(Schema(es, [])))
  {
    assert Names(es) + Names([]) == Names(es);
    CombinationsDistinct(Names(es));
    assert SetOf(EndsOf([])) == {};
  }

  /** The entity loop keeps the schema well formed. */
  lemma {:induction false} EntityLoopWellFormed(s: Schema, i: nat, n: nat, attrs: nat -> Sample)
    requires WellFormed(s) && EntityLoop(s, i, n, attrs).Ok?
    ensures WellFormed(EntityLoop(s, i, n, attrs).value)
    decreases n - i
  {
    if i < n {
      EntityRound(s, i, n, attrs);
      var name := EntityName(i);
      var s1 := AddEntity(s, name).value;
      AddEntityWellFormed(s, name);
      var prefix := PrefixOf(name).value;
      AddAttributesWellFormed(s1, name, prefix, attrs(i).n);
      EntityLoopWellFormed(AddAttributes(s1, name, prefix, attrs(i).n).value, i + 1, n, attrs);
    }
  }

  /** A successful round of the entity loop, taken apart. */
  lemma EntityRound(s: Schema, i: nat, n: nat, attrs: nat -> Sample)
    requires i < n && EntityLoop(s, i, n, attrs).Ok?
    ensures i < |Letters| && AddEntity(s, EntityName(i)).Ok? && IsCountSample(attrs(i))
            && PrefixOf(EntityName(i)).Ok?
            && var s2 := AddAttributes(AddEntity(s, EntityName(i)).value, EntityName(i),
                                       PrefixOf(EntityName(i)).value, attrs(i).n);
               s2.Ok? && EntityLoop(s, i, n, attrs) == EntityLoop(s2.value, i + 1, n, attrs)
  {
  }

  // ---------------------------------------------------------------------------
  // The whole generator.

  function DrawsOf(a: Arguments): Draws
    requires a.entityAttrs.Marginal? && a.relationshipAttrs.Marginal? && a.cardinalities.Marginal?
  {
    Draws(a.entityAttrs.draw, a.relationshipAttrs.draw, a.cardinalities.draw, a.pick,
          a.allowCycles, a.onePerPair)
  }

  /** `generateSchema`: check the arguments, add the entities A, B, … with
      their attributes, then add the relationships one chosen pair at a time. */
  function GenerateSchema(a: Arguments): (r: Result<Schema>)
    ensures CheckArguments(a).Err? ==> r == Err(CheckArguments(a).msg)
    ensures r.Ok? ==> ValidArguments(a) && WellFormed(r.value)
    ensures r.Ok? ==> var d := DrawsOf(a);
                      var rels := r.value.relationships;
                      |r.value.entities| == a.numEntities.i <= |Letters|
                      && GeneratedEntities(r.value.entities, d.entityAttrs)
                      && |rels| == a.numRelationships.i
                      && (forall i :: 0 <= i < |rels| ==> GeneratedRelationship(rels, i, d))
                      && ((a.onePerPair || !a.allowCycles) ==> PairwiseDistinct(EndsOf(rels)))
                      && (!a.allowCycles ==> Forest(EndsOf(rels)))
    ensures ValidArguments(a) && a.numEntities.i > |Letters|
            && (forall i :: 0 <= i < |Letters| ==> IsCountSample(a.entityAttrs.draw(i))) ==>
              r == Err(NoEntityName)
  {
    var nm :- CheckArguments(a);
    var d := DrawsOf(a);
    EmptyWellFormed();
    EntityLoopBuilds([], nm.0, d.entityAttrs);
    var s :- EntityLoop(EmptySchema, 0, nm.0, d.entityAttrs);
    EntityLoopWellFormed(EmptySchema, 0, nm.0, d.entityAttrs);
    RelInvStarts(d, s.entities);
    var st :- RelLoop(d, 0, nm.1, StartOf(s));
    RelLoopKeeps(d, s.entities, 0, nm.1, StartOf(s));
    Ok(st.schema)
  }
}
