/** Relational variables (a relational path from a base item plus an attribute
    name), relational dependencies between them, and intersections of two
    relational variables. Equality is structural, matching the source's keys. */
module RelVars {
  import opened Wrappers
  import Schemas

  /** A relational path: a nonempty sequence of item names, base item first. */
  type Path = p: seq<string> | |p| > 0 witness ["A"]

  datatype RelVar = RelVar(path: Path, attrName: string)

  function Base(v: RelVar): string {
    v.path[0]
  }

  function Terminal(v: RelVar): string {
    v.path[|v.path| - 1]
  }

  predicate IsExistence(v: RelVar) {
    v.attrName == Schemas.ExistsAttr
  }

  /** A dependency `cause -> effect` (relVar1 -> relVar2 in the source). */
  datatype RelDep = RelDep(cause: RelVar, effect: RelVar)

  /** The dynamically typed arguments the source's constructors and parsers
      inspect. `OtherObj` is any other object, told apart by its identity
      `id`, so two different foreign objects (the integers 1 and 2, say) are
      not equal. */
  datatype Obj = StrObj(s: string) | VarObj(v: RelVar) | DepObj(d: RelDep) | OtherObj(id: nat)

  /** A dependency is built only from two relational variables. */
  function MakeDependency(a: Obj, b: Obj): (r: Result<RelDep>)
    ensures r.Ok? <==> a.VarObj? && b.VarObj?
    ensures r.Ok? ==> r.value.cause == a.v && r.value.effect == b.v
  {
    if !a.VarObj? || !b.VarObj? then Err("RelationalDependency expects two RelationalVariable objects")
    else Ok(RelDep(a.v, b.v))
  }

  predicate IsPrefix(p: seq<string>, q: seq<string>) {
    |p| <= |q| && q[..|p|] == p
  }

  /** Two variables intersect when they share base, terminal and attribute and
      their paths differ at some position both paths have. */
  predicate Intersects(a: RelVar, b: RelVar) {
    Base(a) == Base(b) && Terminal(a) == Terminal(b) && a.attrName == b.attrName
    && exists i :: 0 <= i < |a.path| && i < |b.path| && a.path[i] != b.path[i]
  }

  /** Differing somewhere along the common length means neither path extends the other. */
  lemma IntersectsIffNotPrefix(a: RelVar, b: RelVar)
    ensures Intersects(a, b) <==>
              Base(a) == Base(b) && Terminal(a) == Terminal(b) && a.attrName == b.attrName
              && !IsPrefix(a.path, b.path) && !IsPrefix(b.path, a.path)
  {
    var p, q := a.path, b.path;
    if !IsPrefix(p, q) && !IsPrefix(q, p) {
      if |p| <= |q| {
        assert q[..|p|] != p;
        var i :| 0 <= i < |p| && q[..|p|][i] != p[i];
        assert q[i] != p[i];
      } else {
        assert p[..|q|] != q;
        var i :| 0 <= i < |q| && p[..|q|][i] != q[i];
        assert q[i] != p[i];
      }
    }
    if IsPrefix(p, q) {
      assert forall i :: 0 <= i < |p| ==> p[i] == q[..|p|][i];
    }
    if IsPrefix(q, p) {
      assert forall i :: 0 <= i < |q| ==> q[i] == p[..|q|][i];
    }
  }

  lemma IntersectsSymmetric(a: RelVar, b: RelVar)
    ensures Intersects(a, b) <==> Intersects(b, a)
  {
  }

  /** No variable intersects itself. */
  lemma IntersectsIrreflexive(a: RelVar)
    ensures !Intersects(a, a)
  {
  }

  function Rev(p: seq<string>): (r: seq<string>)
    ensures |r| == |p|
    ensures forall i :: 0 <= i < |p| ==> r[i] == p[|p| - 1 - i]
  {
    if |p| == 0 then [] else Rev(p[1..]) + [p[0]]
  }

  /** The reverse of `cause -> effect` walks the cause's path backwards: its
      cause is the reversed path carrying the effect's attribute, its effect
      is the cause's terminal item carrying the cause's attribute. */
  function Reverse(d: RelDep): (r: RelDep)
    ensures |r.effect.path| == 1 && Base(r.cause) == Base(r.effect) == Terminal(d.cause)
    ensures Terminal(r.cause) == Base(d.cause)
    ensures r.cause.attrName == d.effect.attrName && r.effect.attrName == d.cause.attrName
    ensures r.cause.path == Rev(d.cause.path) && r.effect.path == [Terminal(d.cause)]
  {
    RelDep(RelVar(Rev(d.cause.path), d.effect.attrName), RelVar([Terminal(d.cause)], d.cause.attrName))
  }

  /** Reversing twice gives the dependency back exactly when its effect is the
      single base item of its cause, the canonical form of every dependency the
      library enumerates. */
  lemma ReverseInvolution(d: RelDep)
    ensures Reverse(Reverse(d)) == d <==> d.effect.path == [Base(d.cause)]
  {
    var r2 := Reverse(Reverse(d));
    assert Rev(Rev(d.cause.path)) == d.cause.path;
    assert r2.effect.path == [Base(d.cause)];
  }

  /** Python's string order: lexicographic by code point, a proper prefix first. */
  predicate StrLess(a: string, b: string) {
    if |a| == 0 then |b| > 0
    else if |b| == 0 then false
    else if a[0] != b[0] then a[0] < b[0]
    else StrLess(a[1..], b[1..])
  }

  /** Tuple order over item names. */
  predicate PathLess(p: seq<string>, q: seq<string>) {
    if |p| == 0 then |q| > 0
    else if |q| == 0 then false
    else if p[0] != q[0] then StrLess(p[0], q[0])
    else PathLess(p[1..], q[1..])
  }

  /** Order of the key (path, attribute). */
  predicate VarLess(a: RelVar, b: RelVar) {
    PathLess(a.path, b.path) || (a.path == b.path && StrLess(a.attrName, b.attrName))
  }

  lemma {:induction false} StrLessStrict(a: string, b: string)
    ensures !(StrLess(a, b) && StrLess(b, a))
    ensures a != b ==> StrLess(a, b) || StrLess(b, a)
    ensures !StrLess(a, a)
  {
    if |a| > 0 && |b| > 0 {
      StrLessStrict(a[1..], b[1..]);
      if a[0] == b[0] && a != b {
        assert a == [a[0]] + a[1..] && b == [b[0]] + b[1..];
      }
    }
    if |a| > 0 {
      StrLessStrict(a[1..], a[1..]);
    }
  }

  lemma {:induction false} PathLessStrict(p: seq<string>, q: seq<string>)
    ensures !(PathLess(p, q) && PathLess(q, p))
    ensures p != q ==> PathLess(p, q) || PathLess(q, p)
    ensures !PathLess(p, p)
  {
    if |p| > 0 && |q| > 0 {
      PathLessStrict(p[1..], q[1..]);
      StrLessStrict(p[0], q[0]);
      if p[0] == q[0] && p != q {
        assert p == [p[0]] + p[1..] && q == [q[0]] + q[1..];
      }
    }
    if |p| > 0 {
      PathLessStrict(p[1..], p[1..]);
    }
  }

  /** The key order on relational variables is a strict total order. */
  lemma VarLessStrict(a: RelVar, b: RelVar)
    ensures !(VarLess(a, b) && VarLess(b, a))
    ensures a != b ==> VarLess(a, b) || VarLess(b, a)
    ensures !VarLess(a, a)
  {
    PathLessStrict(a.path, b.path);
    StrLessStrict(a.attrName, b.attrName);
    PathLessStrict(a.path, a.path);
    StrLessStrict(a.attrName, a.attrName);
  }

  datatype Intersection = Intersection(relVar1: RelVar, relVar2: RelVar)

  /** An intersection is built only from two relational variables. */
  function MakeIntersection(a: Obj, b: Obj): (r: Result<Intersection>)
    ensures r.Ok? <==> a.VarObj? && b.VarObj?
    ensures r.Ok? ==> r.value.relVar1 == a.v && r.value.relVar2 == b.v
  {
    if !a.VarObj? || !b.VarObj? then Err("RelationalVariableIntersection expects two RelationalVariable objects")
    else Ok(Intersection(a.v, b.v))
  }

  /** The equality key of an intersection: its two variables, smaller first. */
  function IntersectionKey(i: Intersection): (k: (RelVar, RelVar))
    ensures {k.0, k.1} == {i.relVar1, i.relVar2}
    ensures !VarLess(k.1, k.0)
  {
    VarLessStrict(i.relVar1, i.relVar2);
    if VarLess(i.relVar1, i.relVar2) then (i.relVar1, i.relVar2) else (i.relVar2, i.relVar1)
  }

  /** The order in which the two variables are given does not matter. */
  lemma IntersectionOrderIrrelevant(a: RelVar, b: RelVar)
    ensures IntersectionKey(Intersection(a, b)) == IntersectionKey(Intersection(b, a))
  {
    VarLessStrict(a, b);
  }
}
