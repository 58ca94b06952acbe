/** The two fixpoint drivers over the attribute-class PDAG:
    `RCDLight._apply_rules` (Meek rules 1-4 plus the recorded ancestral
    relationships) and snc_rules.py's `rule_based_orient` (the chained
    SNC rule 3 once, then MR1-MR4 and SNC rule 2 until nothing changes).

    A non-collider x -- y -- z is the pair `(y, (x, z))`, as the loops
    unpack it. Set iteration orders are chosen afresh on every pass. */
module OrientationRules {
  import opened Wrappers
  import opened Collections
  import opened EdgeOrientation
  import opened Pdags
  import opened Ancestrals
  import Digraphs

  type NonCollider<V> = (V, (V, V))

  /** Two steps in a row. */
  function Then<V>(s1: Step<V>, s2: Step<V>): Step<V> {
    Step(s2.g, s1.changed || s2.changed, s2.counter)
  }

  /** No pattern of MR1, MR3 or MR4 is left on x -- y -- z. */
  ghost predicate MeekClosed<V(!new)>(E: set<(V, V)>, x: V, y: V, z: V) {
    && (Directed(E, x, y) ==> !Undirected(E, y, z))
    && (Directed(E, z, y) ==> !Undirected(E, y, x))
    && (forall w :: !(Directed(E, x, w) && Directed(E, z, w) && Undirected(E, y, w)))
    && ((exists w :: TwoStep(E, z, w, x)) ==> !Undirected(E, y, x))
    && ((forall w :: !TwoStep(E, z, w, x)) && (exists w :: TwoStep(E, x, w, z)) ==> !Undirected(E, y, z))
  }

  /** MR1, MR3 and MR4 each changed nothing on x -- y -- z. */
  predicate MeekQuiet<V(==,!new)>(g: Pdag<V>, x: V, y: V, z: V) {
    && !Rule1(g, x, y, z, map[]).changed
    && !Rule3(g, x, y, z, map[]).changed
    && !Rule4(g, x, y, z, map[]).changed
  }

  /** Rules that change nothing leave none of their patterns behind. */
  lemma MeekQuietCloses<V(!new)>(g: Pdag<V>, x: V, y: V, z: V)
    requires Consistent(g) && MeekQuiet(g, x, y, z)
    ensures MeekClosed(g.E, x, y, z)
  {
    QueriesExact(g, x);
    QueriesExact(g, z);
    QueriesExact(g, y);
    Rule4Meaning(g, x, y, z, map[]);
  }

  // ---------------------------------------------------------------------
  // RCDLight._apply_rules
  // ---------------------------------------------------------------------

  /** `orient` without a counter, as RCDLight's PDAG has none. */
  function OrientPlain<V(==,!new)>(g: Pdag<V>, x: V, y: V, c: Counter): (r: Step<V>)
    ensures r.changed <==> Undirected(g.E, x, y)
    ensures !Undirected(r.g.E, x, y)
    ensures !r.changed ==> r == Unchanged(g, c)
    ensures Consistent(g) ==> Valid(g, r)
  {
    var (h, b) := Orient(g, x, y);
    OrientOnlyIf(g, x, y);
    Step(h, b, c)
  }

  /** The ancestral step: x ~> z makes y --> z, otherwise z ~> x makes y --> x. */
  function AncestralRule<V(==,!new)>(g: Pdag<V>, x: V, y: V, z: V, a: Ancestral<V>, c: Counter): (r: Step<V>)
    ensures Consistent(g) ==> Valid(g, r)
    ensures !r.changed ==> r == Unchanged(g, c)
    ensures Contains(a, (x, z)) ==> !Undirected(r.g.E, y, z) && (r.changed <==> Undirected(g.E, y, z))
    ensures !Contains(a, (x, z)) && Contains(a, (z, x)) ==>
              !Undirected(r.g.E, y, x) && (r.changed <==> Undirected(g.E, y, x))
    ensures !Contains(a, (x, z)) && !Contains(a, (z, x)) ==> r == Unchanged(g, c)
  {
    if Contains(a, (x, z)) then OrientPlain(g, y, z, c)
    else if Contains(a, (z, x)) then OrientPlain(g, y, x, c)
    else Unchanged(g, c)
  }

  /** A blank record, all that `add` as written ever leaves, never lets the
      ancestral step act. */
  lemma AncestralRuleBlank<V(!new)>(g: Pdag<V>, x: V, y: V, z: V, a: Ancestral<V>, c: Counter)
    requires Blank(a)
    ensures AncestralRule(g, x, y, z, a, c) == Unchanged(g, c)
  {
    assert SetAt(a.ans, z) == {} && SetAt(a.ans, x) == {};
  }

  /** No pattern of the ancestral step is left on x -- y -- z. */
  ghost predicate AncestralClosed<V>(E: set<(V, V)>, x: V, y: V, z: V, a: Ancestral<V>) {
    && (Contains(a, (x, z)) ==> !Undirected(E, y, z))
    && (Contains(a, (z, x)) && !Contains(a, (x, z)) ==> !Undirected(E, y, x))
  }

  /** Meek rules 1, 3 and 4 and then the ancestral step on one non-collider. */
  function MeekStep<V(==,!new)>(g: Pdag<V>, nc: NonCollider<V>, a: Ancestral<V>): (r: Step<V>)
    ensures Consistent(g) ==> Valid(g, r)
    ensures !r.changed ==> r.g == g
  {
    var (y, (x, z)) := nc;
    var s1 := Rule1(g, x, y, z, map[]);
    var s3 := Rule3(s1.g, x, y, z, s1.counter);
    var s4 := Rule4(s3.g, x, y, z, s3.counter);
    var s5 := AncestralRule(s4.g, x, y, z, a, s4.counter);
    ValidThenIf(g, s1, s3);
    ValidThenIf(g, Then(s1, s3), s4);
    ValidThenIf(g, Then(Then(s1, s3), s4), s5);
    Then(Then(Then(s1, s3), s4), s5)
  }

  /** Nothing for Meek rules 1, 3, 4 or the ancestral step to do on `nc`. */
  predicate MeekInert<V(==,!new)>(g: Pdag<V>, nc: NonCollider<V>, a: Ancestral<V>) {
    var (y, (x, z)) := nc;
    MeekQuiet(g, x, y, z) && !AncestralRule(g, x, y, z, a, map[]).changed
  }

  /** A step that changes nothing found every rule inert. */
  lemma MeekStepQuiet<V(!new)>(g: Pdag<V>, nc: NonCollider<V>, a: Ancestral<V>)
    requires !MeekStep(g, nc, a).changed
    ensures MeekInert(g, nc, a)
  {
  }

  /** An inert non-collider carries no pattern of any of the four rules. */
  lemma MeekInertCloses<V(!new)>(g: Pdag<V>, nc: NonCollider<V>, a: Ancestral<V>)
    requires Consistent(g) && MeekInert(g, nc, a)
    ensures MeekClosed(g.E, nc.1.0, nc.0, nc.1.1) && AncestralClosed(g.E, nc.1.0, nc.0, nc.1.1, a)
  {
    MeekQuietCloses(g, nc.1.0, nc.0, nc.1.1);
  }

  /** One pass of the non-collider loop. */
  function MeekPass<V(==,!new)>(g: Pdag<V>, ncs: seq<NonCollider<V>>, a: Ancestral<V>): (r: Step<V>)
    ensures Consistent(g) ==> Valid(g, r)
    ensures !r.changed ==> r.g == g && forall nc | nc in ncs :: MeekInert(g, nc, a)
    decreases |ncs|
  {
    if ncs == [] then Unchanged(g, map[])
    else
      var s1 := MeekStep(g, ncs[0], a);
      var s2 := MeekPass(s1.g, ncs[1..], a);
      ValidThenIf(g, s1, s2);
      QuietHead(g, ncs, a, s1, s2);
      Then(s1, s2)
  }

  lemma QuietHead<V(!new)>(g: Pdag<V>, ncs: seq<NonCollider<V>>, a: Ancestral<V>, s1: Step<V>, s2: Step<V>)
    requires ncs != [] && s1 == MeekStep(g, ncs[0], a)
    requires !s2.changed ==> s2.g == s1.g && forall nc | nc in ncs[1..] :: MeekInert(s1.g, nc, a)
    ensures !Then(s1, s2).changed ==> forall nc | nc in ncs :: MeekInert(g, nc, a)
  {
    if !Then(s1, s2).changed {
      MeekStepQuiet(g, ncs[0], a);
      forall nc | nc in ncs
        ensures MeekInert(g, nc, a)
      {
        if nc != ncs[0] {
          assert nc in ncs[1..];
        }
      }
    }
  }

  /** A change that only orients shrinks the arc set. */
  lemma SoundShrinks<V>(E: set<(V, V)>, st: EdgeOrientation.Pass<V>)
    requires Sound(E, st) && st.changed
    ensures |st.arcs| < |E|
  {
    SubsetSmaller(st.arcs, E);
  }

  /** `_apply_rules`: MR2 over all arcs, then every non-collider, until a
      whole pass changes nothing. The result only orients edges of `g`,
      and leaves no pattern of MR2 anywhere and no pattern of the other
      rules on any non-collider. */
  method ApplyRules<V(==,!new)>(g: Pdag<V>, ncs: set<NonCollider<V>>, a: Ancestral<V>) returns (r: Pdag<V>)
    requires Consistent(g)
    ensures Consistent(r) && Sound(g.E, EdgeOrientation.Pass(r.E, r.E != g.E))
    ensures Rule2Closed(r)
    ensures forall y, x, z | (y, (x, z)) in ncs :: MeekClosed(r.E, x, y, z) && AncestralClosed(r.E, x, y, z, a)
  {
    r := g;
    var changed := true;
    while changed
      invariant Consistent(r) && Sound(g.E, EdgeOrientation.Pass(r.E, r.E != g.E))
      invariant !changed ==> Rule2Closed(r) && forall nc | nc in ncs :: MeekInert(r, nc, a)
      decreases |r.E| + (if changed then 1 else 0)
    {
      var arcs := Enumerate(r.E);
      var s := Rule2(r, arcs, map[]);
      var order := Enumerate(ncs);
      var t := MeekPass(s.g, order, a);
      ValidThen(r, s, t);
      SoundThen(g.E, r.E, r.E != g.E, t.g.E, s.changed || t.changed);
      changed := s.changed || t.changed;
      if changed {
        SoundShrinks(r.E, EdgeOrientation.Pass(t.g.E, changed));
      }
      r := t.g;
    }
    forall y, x, z | (y, (x, z)) in ncs
      ensures MeekClosed(r.E, x, y, z) && AncestralClosed(r.E, x, y, z, a)
    {
      MeekInertCloses(r, (y, (x, z)), a);
    }
  }

  // ---------------------------------------------------------------------
  // snc_rules.py: the per-non-collider pass of rule_based_orient
  // ---------------------------------------------------------------------

  /** A non-collider the loop drops: x -- y -- z with both edges oriented
      and z's towards y, or an edge oriented away from y. */
  predicate Deletable<V(==,!new)>(g: Pdag<V>, nc: NonCollider<V>) {
    var (y, (x, z)) := nc;
    (IsOriented(g, y, x) && IsOriented(g, z, y)) || Directed(g.E, y, x) || Directed(g.E, y, z)
  }

  /** Orienting more edges never makes a dropped non-collider live again. */
  lemma DeletableKept<V(!new)>(g: Pdag<V>, s: Step<V>, nc: NonCollider<V>)
    requires Deletable(g, nc)
    ensures Valid(g, s) ==> Deletable(s.g, nc)
  {
    if Valid(g, s) {
      var (y, (x, z)) := nc;
      var st := EdgeOrientation.Pass(s.g.E, s.changed);
      SoundKeepsDirected(g.E, st, y, x);
      SoundKeepsDirected(g.E, st, x, y);
      SoundKeepsDirected(g.E, st, z, y);
      SoundKeepsDirected(g.E, st, y, z);
    }
  }

  /** MR1 (KNC), MR3, MR4 and SNC rule 2 on one non-collider, each counted. */
  function SncStep<V(==,!new)>(g: Pdag<V>, nc: NonCollider<V>, c: Counter): (r: Step<V>)
    ensures Consistent(g) ==> Valid(g, r)
    ensures !r.changed ==> r == Unchanged(g, c)
  {
    var (y, (x, z)) := nc;
    var s1 := Rule1(g, x, y, z, c);
    var s3 := Rule3(s1.g, x, y, z, s1.counter);
    var s4 := Rule4(s3.g, x, y, z, s3.counter);
    var s5 := SncRule2(s4.g, x, y, z, s4.counter);
    ValidThenIf(g, s1, s3);
    ValidThenIf(g, Then(s1, s3), s4);
    ValidThenIf(g, Then(Then(s1, s3), s4), s5);
    Then(Then(Then(s1, s3), s4), s5)
  }

  /** Nothing for the four rules to do on `nc`. */
  predicate SncInert<V(==,!new)>(g: Pdag<V>, nc: NonCollider<V>) {
    var (y, (x, z)) := nc;
    MeekQuiet(g, x, y, z) && !SncRule2(g, x, y, z, map[]).changed
  }

  /** No pattern of SNC rule 2 is left on x -- y -- z. */
  ghost predicate SncR2Closed<V>(E: set<(V, V)>, x: V, y: V, z: V) {
    && (Directed(E, x, z) ==> !Undirected(E, y, z))
    && (Directed(E, z, x) ==> !Undirected(E, y, x))
  }

  lemma SncStepQuiet<V(!new)>(g: Pdag<V>, nc: NonCollider<V>, c: Counter)
    ensures !SncStep(g, nc, c).changed ==> SncInert(g, nc)
  {
  }

  lemma SncInertCloses<V(!new)>(g: Pdag<V>, nc: NonCollider<V>)
    requires Consistent(g) && SncInert(g, nc)
    ensures MeekClosed(g.E, nc.1.0, nc.0, nc.1.1) && SncR2Closed(g.E, nc.1.0, nc.0, nc.1.1)
  {
    MeekQuietCloses(g, nc.1.0, nc.0, nc.1.1);
  }

  /** One pass over `list(ncs)`: a deletable non-collider is dropped,
      every other one gets the four rules. Answers the step and the
      non-colliders kept. */
  function SncPass<V(==,!new)>(g: Pdag<V>, order: seq<NonCollider<V>>, c: Counter): (r: (Step<V>, set<NonCollider<V>>))
    ensures Consistent(g) ==> Valid(g, r.0)
    ensures r.1 <= SetOf(order)
    ensures Consistent(g) ==> forall nc | nc in SetOf(order) - r.1 :: Deletable(r.0.g, nc)
    ensures !r.0.changed ==> r.0.g == g && forall nc | nc in r.1 :: SncInert(g, nc)
    decreases |order|
  {
    if order == [] then (Unchanged(g, c), {})
    else if Deletable(g, order[0]) then
      var (s, kept) := SncPass(g, order[1..], c);
      DeletableKept(g, s, order[0]);
      DropsHead(order, kept);
      (s, kept)
    else
      var s1 := SncStep(g, order[0], c);
      var (s2, kept) := SncPass(s1.g, order[1..], s1.counter);
      ValidThenIf(g, s1, s2);
      SncStepQuiet(g, order[0], c);
      SncPassHead(g, order, s1, s2, kept);
      (Then(s1, s2), kept + {order[0]})
  }

  lemma DropsHead<V>(order: seq<NonCollider<V>>, kept: set<NonCollider<V>>)
    requires order != [] && kept <= SetOf(order[1..])
    ensures kept <= SetOf(order)
    ensures SetOf(order) - kept <= {order[0]} + (SetOf(order[1..]) - kept)
  {
    assert order == [order[0]] + order[1..];
  }

  lemma SncPassHead<V(!new)>(g: Pdag<V>, order: seq<NonCollider<V>>, s1: Step<V>, s2: Step<V>,
                            kept: set<NonCollider<V>>)
    requires order != [] && kept <= SetOf(order[1..])
    requires Consistent(g) ==> Valid(g, s1)
    requires !s1.changed ==> s1.g == g && SncInert(g, order[0])
    requires Consistent(s1.g) ==> forall nc | nc in SetOf(order[1..]) - kept :: Deletable(s2.g, nc)
    requires !s2.changed ==> s2.g == s1.g && forall nc | nc in kept :: SncInert(s1.g, nc)
    ensures kept + {order[0]} <= SetOf(order)
    ensures Consistent(g) ==> forall nc | nc in SetOf(order) - (kept + {order[0]}) :: Deletable(s2.g, nc)
    ensures !Then(s1, s2).changed ==> forall nc | nc in kept + {order[0]} :: SncInert(g, nc)
  {
    assert SetOf(order) == {order[0]} + SetOf(order[1..]) by {
      assert order == [order[0]] + order[1..];
    }
  }

  // ---------------------------------------------------------------------
  // snc_rules.py: run_chained_sncs
  // ---------------------------------------------------------------------

  type Triple<V> = (V, V, V)

  /** Both readings x -- y -- z and z -- y -- x of every non-collider. */
  function BothSides<V(==,!new)>(ncs: set<NonCollider<V>>): (r: set<Triple<V>>)
    ensures forall y, x, z | (y, (x, z)) in ncs :: (x, y, z) in r && (z, y, x) in r
    ensures forall t | t in r :: (t.1, (t.0, t.2)) in ncs || (t.1, (t.2, t.0)) in ncs
  {
    (set nc | nc in ncs :: (nc.1.0, nc.0, nc.1.1)) + (set nc | nc in ncs :: (nc.1.1, nc.0, nc.1.0))
  }

  /** The chain graph: x -- y -- z leads to y -- z -- w. */
  function ChainArcs<V(==,!new)>(ts: set<Triple<V>>): (r: set<(Triple<V>, Triple<V>)>)
    ensures Digraphs.Closed(ts, r)
    ensures forall t, u :: (t, u) in r <==> t in ts && u in ts && t.1 == u.0 && t.2 == u.1
  {
    set t, u | t in ts && u in ts && t.1 == u.0 && t.2 == u.1 :: (t, u)
  }

  /** The triples x -- y -- z leads to. */
  function Successors<V(==,!new)>(ts: set<Triple<V>>, t: Triple<V>): (r: set<Triple<V>>)
    ensures r <= ts
    ensures t in ts ==> forall u :: u in r <==> (t, u) in ChainArcs(ts)
  {
    set u | u in ts && t.1 == u.0 && t.2 == u.1
  }

  /** The descendants of `t` in the chain graph: the least set holding
      t's successors and closed under successors. */
  function Descendants<V(==,!new)>(ts: set<Triple<V>>, t: Triple<V>): (r: set<Triple<V>>)
    ensures Successors(ts, t) <= r <= ts
    ensures Digraphs.DescendantClosed(r, ChainArcs(ts))
  {
    Digraphs.DescendantsFrom(ts, ChainArcs(ts), Successors(ts, t))
  }

  /** Nothing beyond the descendants: every set holding t's successors and
      closed under successors holds all of them. */
  lemma DescendantsLeast<V(!new)>(ts: set<Triple<V>>, t: Triple<V>, s: set<Triple<V>>)
    requires Successors(ts, t) <= s && Digraphs.DescendantClosed(s, ChainArcs(ts))
    ensures Descendants(ts, t) <= s
  {
  }

  /** Each descendant (a, b, c) of x -- y -- z with c == x is a request
      for y --> x and b --> c. */
  function Requests<V(==,!new)>(ncs: set<NonCollider<V>>): set<(Triple<V>, Triple<V>)> {
    var ts := BothSides(ncs);
    set t, d | t in ts && d in Descendants(ts, t) && t.0 == d.2 :: (t, d)
  }

  /** The two orientations one request asks for. */
  function Asked<V(==)>(q: (Triple<V>, Triple<V>)): seq<(V, V)> {
    [(q.0.1, q.0.0), (q.1.1, q.1.2)]
  }

  /** Every orientation a set of requests asks for. */
  function AskedAll<V(==)>(qs: set<(Triple<V>, Triple<V>)>): set<(V, V)> {
    (set q | q in qs :: (q.0.1, q.0.0)) + (set q | q in qs :: (q.1.1, q.1.2))
  }

  /** The orientations the requests ask for, in order. */
  function RequestedPairs<V(==)>(reqs: seq<(Triple<V>, Triple<V>)>): (r: seq<(V, V)>)
    ensures AskedAll(SetOf(reqs)) <= SetOf(r)
    decreases |reqs|
  {
    if reqs == [] then []
    else
      var rest := RequestedPairs(reqs[1..]);
      AskedCons(reqs, rest);
      Asked(reqs[0]) + rest
  }

  lemma AskedCons<V>(reqs: seq<(Triple<V>, Triple<V>)>, rest: seq<(V, V)>)
    requires reqs != [] && AskedAll(SetOf(reqs[1..])) <= SetOf(rest)
    ensures AskedAll(SetOf(reqs)) <= SetOf(Asked(reqs[0]) + rest)
  {
    assert SetOf(reqs) == {reqs[0]} + SetOf(reqs[1..]) by {
      assert reqs == [reqs[0]] + reqs[1..];
    }
    SetOfConcat(Asked(reqs[0]), rest);
  }

  /** No listed orientation is left undirected. */
  ghost predicate Settled<V>(E: set<(V, V)>, ps: set<(V, V)>) {
    forall p | p in ps :: !Undirected(E, p.0, p.1)
  }

  lemma SettledKept<V>(E: set<(V, V)>, st: EdgeOrientation.Pass<V>, ps: set<(V, V)>)
    requires Sound(E, st) && Settled(E, ps)
    ensures Settled(st.arcs, ps)
  {
    forall p | p in ps
      ensures !Undirected(st.arcs, p.0, p.1)
    {
      SoundKeepsDirected(E, st, p.0, p.1);
    }
  }

  /** `orients` with each orientation counted under `name`. */
  function OrientsCounted<V(==,!new)>(g: Pdag<V>, xys: seq<(V, V)>, c: Counter, name: string): (r: Step<V>)
    ensures r.g == Orients(g, xys).0 && r.changed == Orients(g, xys).1
    ensures forall k | k != name :: CountAt(r.counter, k) == CountAt(c, k)
    ensures CountAt(r.counter, name) >= CountAt(c, name)
    ensures r.changed <==> CountAt(r.counter, name) > CountAt(c, name)
    decreases |xys|
  {
    if xys == [] then Unchanged(g, c)
    else
      var s1 := OrientStep(g, xys[0].0, xys[0].1, c, name);
      var s2 := OrientsCounted(s1.g, xys[1..], s1.counter, name);
      Then(s1, s2)
  }

  /** networkx's error when a topological sort meets a cycle. */
  const Unfeasible := "NetworkXUnfeasible: Graph contains a cycle."

  /** The chain graph has a cycle: what makes networkx's topological sort fail. */
  function ChainCyclic<V(==,!new)>(ncs: set<NonCollider<V>>): (b: bool)
    ensures b <==> !Digraphs.Acyclic(BothSides(ncs), ChainArcs(BothSides(ncs)))
  {
    var ts := BothSides(ncs);
    Digraphs.PeelDecides(ts, ChainArcs(ts));
    Digraphs.Peel(ts, ChainArcs(ts)) != {}
  }

  /** `run_chained_sncs`: fails when the chain graph has a cycle; otherwise
      orients, for every request in the order `reqs`, y --> x and then
      b --> c, counting each orientation under SNC-R3. */
  function ChainedSncs<V(==,!new)>(g: Pdag<V>, ncs: set<NonCollider<V>>, reqs: seq<(Triple<V>, Triple<V>)>, c: Counter)
    : (r: Result<Step<V>>)
    requires SetOf(reqs) == Requests(ncs)
    ensures r.Err? <==> ChainCyclic(ncs)
    ensures r.Err? ==> r.msg == Unfeasible
    ensures r.Ok? ==> r.value.g == Orients(g, RequestedPairs(reqs)).0 && r.value.changed == Orients(g, RequestedPairs(reqs)).1
    ensures r.Ok? ==> forall k | k != SncR3Name :: CountAt(r.value.counter, k) == CountAt(c, k)
  {
    if ChainCyclic(ncs) then Err(Unfeasible)
    else Ok(OrientsCounted(g, RequestedPairs(reqs), c, SncR3Name))
  }

  /** On a consistent graph the chained rule only orients, and afterwards
      no requested orientation is left undirected. */
  lemma ChainedSettles<V(!new)>(g: Pdag<V>, ncs: set<NonCollider<V>>, reqs: seq<(Triple<V>, Triple<V>)>, c: Counter)
    requires Consistent(g) && SetOf(reqs) == Requests(ncs)
    requires ChainedSncs(g, ncs, reqs, c).Ok?
    ensures Valid(g, ChainedSncs(g, ncs, reqs, c).value)
    ensures Settled(ChainedSncs(g, ncs, reqs, c).value.g.E, AskedAll(Requests(ncs)))
  {
    OrientsConsistent(g, RequestedPairs(reqs));
  }

  // ---------------------------------------------------------------------
  // snc_rules.py: rule_based_orient
  // ---------------------------------------------------------------------

  /** `rule_based_orient`: the chained rule once (failing on a cyclic chain
      graph), then MR2 and the per-non-collider pass until a pass changes
      nothing. The result only orients edges of `g`; every chained request
      is oriented; no pattern of MR2 is left anywhere; and every
      non-collider is either deletable or carries no pattern of MR1, MR3,
      MR4 or SNC rule 2. */
  method RuleBasedOrient<V(==,!new)>(g: Pdag<V>, ncs: set<NonCollider<V>>, c: Counter)
    returns (r: Result<(Pdag<V>, Counter)>)
    requires Consistent(g)
    ensures r.Err? <==> ChainCyclic(ncs)
    ensures r.Err? ==> r.msg == Unfeasible
    ensures r.Ok? ==> Consistent(r.value.0) && Sound(g.E, EdgeOrientation.Pass(r.value.0.E, r.value.0.E != g.E))
    ensures r.Ok? ==> Settled(r.value.0.E, AskedAll(Requests(ncs)))
    ensures r.Ok? ==> Rule2Closed(r.value.0)
    ensures r.Ok? ==> forall y, x, z | (y, (x, z)) in ncs ::
              Deletable(r.value.0, (y, (x, z))) || (MeekClosed(r.value.0.E, x, y, z) && SncR2Closed(r.value.0.E, x, y, z))
  {
    var reqs := Enumerate(Requests(ncs));
    var chained := ChainedSncs(g, ncs, reqs, c);
    if chained.Err? {
      return Err(chained.msg);
    }
    ChainedSettles(g, ncs, reqs, c);
    var h := chained.value.g;
    var cnt := chained.value.counter;
    var live := ncs;
    var changed := true;
    while changed
      invariant Consistent(h) && Sound(g.E, EdgeOrientation.Pass(h.E, h.E != g.E))
      invariant Settled(h.E, AskedAll(Requests(ncs)))
      invariant live <= ncs && forall nc | nc in ncs - live :: Deletable(h, nc)
      invariant !changed ==> Rule2Closed(h) && forall nc | nc in live :: SncInert(h, nc)
      decreases |h.E| + (if changed then 1 else 0)
    {
      var arcs := Enumerate(h.E);
      var s := Rule2(h, arcs, cnt);
      var order := Enumerate(live);
      var (t, kept) := SncPass(s.g, order, s.counter);
      ValidThen(h, s, t);
      var st := EdgeOrientation.Pass(t.g.E, s.changed || t.changed);
      SoundThen(g.E, h.E, h.E != g.E, t.g.E, s.changed || t.changed);
      SettledKept(h.E, st, AskedAll(Requests(ncs)));
      forall nc | nc in ncs - live
        ensures Deletable(t.g, nc)
      {
        DeletableKept(h, Then(s, t), nc);
      }
      changed := s.changed || t.changed;
      if changed {
        SoundShrinks(h.E, st);
      }
      h, cnt, live := t.g, t.counter, kept;
    }
    forall y, x, z | (y, (x, z)) in ncs && !Deletable(h, (y, (x, z)))
      ensures MeekClosed(h.E, x, y, z) && SncR2Closed(h.E, x, y, z)
    {
      SncInertCloses(h, (y, (x, z)));
    }
    r := Ok((h, cnt));
  }
}
