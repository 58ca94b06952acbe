/** RCD-Light's record of ancestral relationships between attribute classes:
    for every vertex, the set of its recorded ancestors and the set of its
    recorded descendants, both kept as `defaultdict(set)` maps.

    Recording `ancestor ~> x` is meant to make every recorded ancestor of
    `ancestor` (and `ancestor` itself) an ancestor of every recorded
    descendant of `x` (and of `x` itself). The code as written leaves the
    two endpoints out of the sets it merges, so starting from the empty
    record nothing is ever recorded. `AddAsWritten` models the code, and
    RCD-Light's Phase II uses it; `Add` models the evident intent, which
    the corrected Phase II uses. */
module Ancestrals {
  import opened Wrappers
  import opened Collections

  datatype Ancestral<V> = Ancestral(vs: set<V>, ans: map<V, set<V>>, des: map<V, set<V>>)

  function Init<V>(vs: set<V>): Ancestral<V> {
    Ancestral(vs, map[], map[])
  }

  /** `(x, y) in ancestral`: x is a recorded ancestor of y. */
  predicate Contains<V(==)>(a: Ancestral<V>, p: (V, V)) {
    p.0 in SetAt(a.ans, p.1)
  }

  /** Either vertex is a recorded ancestor or descendant of the other. */
  function Related<V(==)>(a: Ancestral<V>, x: V, y: V): bool
    requires x != y
  {
    y in SetAt(a.ans, x) || y in SetAt(a.des, x)
  }

  /** Adds `extra` to the set under every key in `keys`. */
  function Grow<V(==,!new)>(m: map<V, set<V>>, keys: set<V>, extra: set<V>): (r: map<V, set<V>>)
    ensures forall k :: SetAt(r, k) == SetAt(m, k) + (if k in keys then extra else {})
  {
    map k | k in m.Keys + keys :: SetAt(m, k) + (if k in keys then extra else {})
  }

  /** The ancestor and descendant maps mirror each other. */
  ghost predicate Dual<V(!new)>(a: Ancestral<V>) {
    forall p, q :: p in SetAt(a.ans, q) <==> q in SetAt(a.des, p)
  }

  /** An ancestor of an ancestor is recorded as an ancestor. */
  ghost predicate Transitive<V(!new)>(a: Ancestral<V>) {
    forall p, q, r :: p in SetAt(a.ans, q) && q in SetAt(a.ans, r) ==> p in SetAt(a.ans, r)
  }

  /** Nothing recorded at all. */
  ghost predicate Blank<V(!new)>(a: Ancestral<V>) {
    forall k :: SetAt(a.ans, k) == {} && SetAt(a.des, k) == {}
  }

  /** `add` as written: it merges ans[ancestor] into the ancestors of x and
      of x's descendants, and des[x] into the descendants of ancestor and of
      ancestor's ancestors, but never the endpoints themselves. */
  function AddAsWritten<V(==,!new)>(a: Ancestral<V>, ancestor: V, x: V): Ancestral<V>
    requires ancestor != x && x !in SetAt(a.ans, ancestor)
  {
    if ancestor in SetAt(a.ans, x) then a
    else
      var dedes := SetAt(a.des, x);
      var anans := SetAt(a.ans, ancestor);
      Ancestral(a.vs, Grow(a.ans, dedes + {x}, anans), Grow(a.des, anans + {ancestor}, dedes))
  }

  /** From a blank record, `add` as written records nothing: the pair just
      added is not contained, and the record stays blank. */
  lemma AddAsWrittenRecordsNothing<V(!new)>(a: Ancestral<V>, ancestor: V, x: V)
    requires Blank(a) && ancestor != x
    ensures Blank(AddAsWritten(a, ancestor, x))
    ensures !Contains(AddAsWritten(a, ancestor, x), (ancestor, x))
  {
    assert SetAt(a.ans, ancestor) == {} && SetAt(a.des, x) == {};
  }

  /** So any sequence of adds from `Ancestral(vs)` leaves every membership
      test false. */
  function AddsAsWritten<V(==,!new)>(a: Ancestral<V>, ancs: seq<(V, V)>): (r: Ancestral<V>)
    requires forall i | 0 <= i < |ancs| :: ancs[i].0 != ancs[i].1
    decreases |ancs|
  {
    if ancs == [] || ancs[0].1 in SetAt(a.ans, ancs[0].0) then a
    else AddsAsWritten(AddAsWritten(a, ancs[0].0, ancs[0].1), ancs[1..])
  }

  lemma {:induction false} AddsAsWrittenBlank<V(!new)>(vs: set<V>, a: Ancestral<V>, ancs: seq<(V, V)>, p: (V, V))
    requires Blank(a)
    requires forall i | 0 <= i < |ancs| :: ancs[i].0 != ancs[i].1
    ensures Blank(AddsAsWritten(a, ancs))
    ensures !Contains(AddsAsWritten(a, ancs), p)
    decreases |ancs|
  {
    if ancs != [] && ancs[0].1 !in SetAt(a.ans, ancs[0].0) {
      AddAsWrittenRecordsNothing(a, ancs[0].0, ancs[0].1);
      AddsAsWrittenBlank(vs, AddAsWritten(a, ancs[0].0, ancs[0].1), ancs[1..], p);
    }
  }

  /** `add` with the endpoints included: ancestor and its ancestors become
      ancestors of x and of x's descendants. */
  function Add<V(==,!new)>(a: Ancestral<V>, ancestor: V, x: V): (r: Ancestral<V>)
    requires ancestor != x && x !in SetAt(a.ans, ancestor)
    ensures r.vs == a.vs
  {
    if ancestor in SetAt(a.ans, x) then a
    else
      var dedes := SetAt(a.des, x) + {x};
      var anans := SetAt(a.ans, ancestor) + {ancestor};
      Ancestral(a.vs, Grow(a.ans, dedes, anans), Grow(a.des, anans, dedes))
  }

  /** The ancestors `Add` gives to every vertex and the descendants it
      gives to every vertex: `ancestor` and its ancestors are added to
      `x` and its descendants, and the other way round. */
  lemma AddShape<V(!new)>(a: Ancestral<V>, ancestor: V, x: V)
    requires ancestor != x && x !in SetAt(a.ans, ancestor) && ancestor !in SetAt(a.ans, x)
    ensures forall q :: SetAt(Add(a, ancestor, x).ans, q) ==
              SetAt(a.ans, q) + (if q in SetAt(a.des, x) + {x} then SetAt(a.ans, ancestor) + {ancestor} else {})
    ensures forall p :: SetAt(Add(a, ancestor, x).des, p) ==
              SetAt(a.des, p) + (if p in SetAt(a.ans, ancestor) + {ancestor} then SetAt(a.des, x) + {x} else {})
  {
  }

  /** After `Add(a, ancestor, x)` the pair is recorded, and on a dual,
      transitive record the pairs recorded are exactly the old ones plus the
      ancestors of `ancestor` (inclusive) times the descendants of `x`
      (inclusive); so nothing recorded before is lost. */
  lemma AddRecords<V(!new)>(a: Ancestral<V>, ancestor: V, x: V)
    requires ancestor != x && x !in SetAt(a.ans, ancestor)
    requires Dual(a) && Transitive(a)
    ensures Contains(Add(a, ancestor, x), (ancestor, x))
    ensures forall p, q :: Contains(Add(a, ancestor, x), (p, q)) <==>
              Contains(a, (p, q)) || ((p == ancestor || Contains(a, (p, ancestor))) && (q == x || Contains(a, (x, q))))
  {
    if ancestor !in SetAt(a.ans, x) {
      AddShape(a, ancestor, x);
    } else {
      forall p, q | (p == ancestor || Contains(a, (p, ancestor))) && (q == x || Contains(a, (x, q)))
        ensures Contains(a, (p, q))
      {
        assert p in SetAt(a.ans, x);
      }
    }
  }

  /** `Add` records its pair and loses nothing. */
  lemma AddGrows<V(!new)>(a: Ancestral<V>, ancestor: V, x: V)
    requires ancestor != x && x !in SetAt(a.ans, ancestor)
    requires Dual(a) && Transitive(a)
    ensures Contains(Add(a, ancestor, x), (ancestor, x))
    ensures forall p | Contains(a, p) :: Contains(Add(a, ancestor, x), p)
  {
    AddRecords(a, ancestor, x);
  }

  /** `Add` keeps the two maps mirroring each other. */
  lemma AddKeepsDual<V(!new)>(a: Ancestral<V>, ancestor: V, x: V)
    requires ancestor != x && x !in SetAt(a.ans, ancestor)
    requires Dual(a)
    ensures Dual(Add(a, ancestor, x))
  {
    if ancestor !in SetAt(a.ans, x) {
      AddShape(a, ancestor, x);
    }
  }

  /** An ancestor of an ancestor (inclusive) of `v` is one too. */
  lemma AncestorOfAncestor<V(!new)>(a: Ancestral<V>, v: V, p: V, q: V)
    requires Transitive(a)
    requires p in SetAt(a.ans, q) && q in SetAt(a.ans, v) + {v}
    ensures p in SetAt(a.ans, v) + {v}
  {
  }

  /** A descendant of a descendant (inclusive) of `v` is one too. */
  lemma DescendantOfDescendant<V(!new)>(a: Ancestral<V>, v: V, q: V, s: V)
    requires Dual(a) && Transitive(a)
    requires q in SetAt(a.des, v) + {v} && q in SetAt(a.ans, s)
    ensures s in SetAt(a.des, v) + {v}
  {
    assert v == q || v in SetAt(a.ans, q);
  }

  /** `Add` keeps the record transitive. */
  lemma AddKeepsTransitive<V(!new)>(a: Ancestral<V>, ancestor: V, x: V)
    requires ancestor != x && x !in SetAt(a.ans, ancestor)
    requires Dual(a) && Transitive(a)
    ensures Transitive(Add(a, ancestor, x))
  {
    if ancestor !in SetAt(a.ans, x) {
      AddShape(a, ancestor, x);
      var r := Add(a, ancestor, x);
      forall p, q, s | p in SetAt(r.ans, q) && q in SetAt(r.ans, s)
        ensures p in SetAt(r.ans, s)
      {
        if p in SetAt(a.ans, q) && q in SetAt(a.ans, ancestor) + {ancestor} {
          AncestorOfAncestor(a, ancestor, p, q);
        } else if q in SetAt(a.des, x) + {x} && q in SetAt(a.ans, s) {
          DescendantOfDescendant(a, x, q, s);
        }
      }
    }
  }

  /** The two assertions `add` makes on entry. */
  const AddRejected := "AssertionError"

  /** `add` with its entry assertions as an error path. */
  function TryAdd<V(==,!new)>(a: Ancestral<V>, ancestor: V, x: V): (r: Result<Ancestral<V>>)
    ensures r.Ok? <==> ancestor != x && x !in SetAt(a.ans, ancestor)
    ensures r.Err? ==> r.msg == AddRejected
  {
    if ancestor == x || x in SetAt(a.ans, ancestor) then Err(AddRejected)
    else Ok(Add(a, ancestor, x))
  }

  /** `add` as written, with its entry assertions as an error path: from a
      blank record it fails only when both ends are the same vertex, and
      what it gives back is still blank. */
  function TryAddAsWritten<V(==,!new)>(a: Ancestral<V>, ancestor: V, x: V): (r: Result<Ancestral<V>>)
    ensures r.Ok? <==> ancestor != x && x !in SetAt(a.ans, ancestor)
    ensures r.Err? ==> r.msg == AddRejected
    ensures Blank(a) ==> (r.Err? <==> ancestor == x) && (r.Ok? ==> Blank(r.value))
  {
    if ancestor == x || x in SetAt(a.ans, ancestor) then Err(AddRejected)
    else
      AddAsWrittenKeepsBlank(a, ancestor, x);
      Ok(AddAsWritten(a, ancestor, x))
  }

  lemma AddAsWrittenKeepsBlank<V(!new)>(a: Ancestral<V>, ancestor: V, x: V)
    requires ancestor != x && x !in SetAt(a.ans, ancestor)
    ensures Blank(a) ==> Blank(AddAsWritten(a, ancestor, x))
  {
    if Blank(a) {
      AddAsWrittenRecordsNothing(a, ancestor, x);
    }
  }

  /** `adds`: the pairs added in order, stopping at the first rejected one. */
  function Adds<V(==,!new)>(a: Ancestral<V>, ancs: seq<(V, V)>): Result<Ancestral<V>>
    decreases |ancs|
  {
    if ancs == [] then Ok(a)
    else
      var a' :- TryAdd(a, ancs[0].0, ancs[0].1);
      Adds(a', ancs[1..])
  }

  /** When every add goes through on a dual, transitive record, the result
      is still dual and transitive. */
  lemma {:induction false} AddsKeep<V(!new)>(a: Ancestral<V>, ancs: seq<(V, V)>)
    requires Dual(a) && Transitive(a) && Adds(a, ancs).Ok?
    ensures Dual(Adds(a, ancs).value) && Transitive(Adds(a, ancs).value)
    decreases |ancs|
  {
    if ancs != [] {
      AddKeepsDual(a, ancs[0].0, ancs[0].1);
      AddKeepsTransitive(a, ancs[0].0, ancs[0].1);
      AddsKeep(Add(a, ancs[0].0, ancs[0].1), ancs[1..]);
    }
  }

  /** ... keeps every pair recorded before, and records every pair that was
      added. */
  lemma {:induction false} AddsRecords<V(!new)>(a: Ancestral<V>, ancs: seq<(V, V)>)
    requires Dual(a) && Transitive(a) && Adds(a, ancs).Ok?
    ensures forall p | Contains(a, p) :: Contains(Adds(a, ancs).value, p)
    ensures forall i | 0 <= i < |ancs| :: Contains(Adds(a, ancs).value, ancs[i])
    decreases |ancs|
  {
    if ancs != [] {
      var a' := Add(a, ancs[0].0, ancs[0].1);
      AddGrows(a, ancs[0].0, ancs[0].1);
      AddKeepsDual(a, ancs[0].0, ancs[0].1);
      AddKeepsTransitive(a, ancs[0].0, ancs[0].1);
      AddsRecords(a', ancs[1..]);
      assert Adds(a, ancs) == Adds(a', ancs[1..]);
      forall i | 0 < i < |ancs|
        ensures Contains(Adds(a, ancs).value, ancs[i])
      {
        assert ancs[i] == ancs[1..][i - 1];
      }
    }
  }

  lemma InitDual<V(!new)>(vs: set<V>)
    ensures Dual(Init(vs)) && Transitive(Init(vs)) && Blank(Init(vs))
  {
  }
}
