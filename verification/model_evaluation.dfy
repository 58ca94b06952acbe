/** Scoring a learned set of dependencies against a model's true dependencies:
    precision and recall, either over undirected edges (skeleton) or over the
    dependencies learned in one direction only (oriented). */
module Evaluation {
  import opened Wrappers
  import opened RelVars
  import ParserUtil
  import CausalModel
  import opened Collections

  const BadInput := "learnedDependencies must be a list of RelationalDependencies or parseable RelationalDependency strings"

  /** The shapes of argument the scoring functions are handed: a list, a
      string (iterable in Python, but refused), or something not iterable. */
  datatype Learned = Items(xs: seq<Obj>) | Text(s: string) | Scalar

  /** `checkInput`: only a non-string iterable is accepted. */
  function CheckInput(l: Learned): (r: Result<seq<Obj>>)
    ensures r.Ok? <==> l.Items?
    ensures r.Ok? ==> r.value == l.xs
    ensures r.Err? ==> r.msg == BadInput
  {
    match l
    case Items(xs) => Ok(xs)
    case _ => Err(BadInput)
  }

  /** The share of learned values that are true; 1 when nothing was learned. */
  function Precision<T>(trueValues: set<T>, learnedValues: set<T>): (r: real)
    ensures 0.0 <= r <= 1.0
    ensures r == 1.0 <==> learnedValues <= trueValues
    ensures learnedValues != {} ==> r * (|learnedValues| as real) == |learnedValues * trueValues| as real
  {
    if learnedValues == {} then 1.0
    else
      var hits := learnedValues * trueValues;
      SubsetSize(hits, learnedValues);
      (|hits| as real) / (|learnedValues| as real)
  }

  /** The share of true values that were learned; 1 when nothing is true. */
  function Recall<T>(trueValues: set<T>, learnedValues: set<T>): (r: real)
    ensures 0.0 <= r <= 1.0
    ensures r == 1.0 <==> trueValues <= learnedValues
  {
    if trueValues == {} then 1.0
    else
      var hits := learnedValues * trueValues;
      SubsetSize(hits, trueValues);
      (|hits| as real) / (|trueValues| as real)
  }

  /** Recall is precision with the roles of the two sets swapped. */
  lemma RecallIsSwappedPrecision<T>(t: set<T>, l: set<T>)
    ensures Recall(t, l) == Precision(l, t)
  {
    assert l * t == t * l;
  }

  // ---------------------------------------------------------------------------
  // Skeleton scores: orientation is ignored by closing both sides under reversal.

  function Undirected(deps: seq<RelDep>): (r: set<RelDep>)
    ensures forall d :: d in r <==> d in deps || exists e :: e in deps && d == Reverse(e)
  {
    SetOf(deps) + set e | e in deps :: Reverse(e)
  }

  /** Parses every learned entry, after the input check. */
  function ParseLearned(l: Learned): (r: Result<seq<RelDep>>)
    ensures l.Items? ==> r == CausalModel.ParseAll(l.xs)
    ensures !l.Items? ==> r == Err(BadInput)
  {
    var xs :- CheckInput(l);
    CausalModel.ParseAll(xs)
  }

  function SkeletonPrecision(trueDeps: seq<RelDep>, l: Learned): (r: Result<real>)
    ensures r.Ok? <==> ParseLearned(l).Ok?
    ensures r.Ok? ==> (r.value == 1.0 <==> Undirected(ParseLearned(l).value) <= Undirected(trueDeps))
  {
    var learned :- ParseLearned(l);
    Ok(Precision(Undirected(trueDeps), Undirected(learned)))
  }

  function SkeletonRecall(trueDeps: seq<RelDep>, l: Learned): (r: Result<real>)
    ensures r.Ok? <==> ParseLearned(l).Ok?
    ensures r.Ok? ==> (r.value == 1.0 <==> Undirected(trueDeps) <= Undirected(ParseLearned(l).value))
  {
    var learned :- ParseLearned(l);
    Ok(Recall(Undirected(trueDeps), Undirected(learned)))
  }

  /** Learning a canonical dependency or its reverse scores the same on the
      skeleton: the undirected closures agree. */
  lemma {:induction false} SkeletonIgnoresOrientation(learned: seq<RelDep>, d: RelDep)
    requires d.effect.path == [Base(d.cause)]
    ensures Undirected(learned + [d]) == Undirected(learned + [Reverse(d)])
  {
    ReverseInvolution(d);
    forall x | x in Undirected(learned + [d]) ensures x in Undirected(learned + [Reverse(d)]) {
      if x == d {
        assert Reverse(d) in learned + [Reverse(d)];
      } else if x != Reverse(d) {
        if x in learned + [d] {
          assert x in learned + [Reverse(d)];
        } else {
          var e :| e in learned + [d] && x == Reverse(e);
          assert e in learned;
          assert e in learned + [Reverse(d)];
        }
      } else {
        assert x in learned + [Reverse(d)];
      }
    }
    forall x | x in Undirected(learned + [Reverse(d)]) ensures x in Undirected(learned + [d]) {
      if x == Reverse(d) {
        assert d in learned + [d];
      } else if x != d {
        if x in learned + [Reverse(d)] {
          assert x in learned + [d];
        } else {
          var e :| e in learned + [Reverse(d)] && x == Reverse(e);
          assert e in learned;
          assert e in learned + [d];
        }
      } else {
        assert Reverse(d) in learned + [Reverse(d)];
      }
    }
  }

  // ---------------------------------------------------------------------------
  // Oriented scores: a dependency learned in both directions is left unoriented.

  function Oriented(learned: set<RelDep>): (r: set<RelDep>)
    ensures forall d :: d in r <==> d in learned && Reverse(d) !in learned
  {
    set d | d in learned && Reverse(d) !in learned
  }

  /** No two canonical dependencies that reverse each other both count as oriented. */
  lemma OrientedOneWay(learned: set<RelDep>, d: RelDep)
    requires d.effect.path == [Base(d.cause)] && d in Oriented(learned)
    ensures Reverse(d) !in Oriented(learned)
  {
    ReverseInvolution(d);
  }

  function OrientedPrecision(trueDeps: seq<RelDep>, l: Learned): (r: Result<real>)
    ensures r.Ok? <==> ParseLearned(l).Ok?
    ensures r.Ok? ==> (r.value == 1.0 <==>
              forall d :: d in ParseLearned(l).value && Reverse(d) !in ParseLearned(l).value ==> d in trueDeps)
  {
    var learned :- ParseLearned(l);
    Ok(Precision(SetOf(trueDeps), Oriented(SetOf(learned))))
  }

  function OrientedRecall(trueDeps: seq<RelDep>, l: Learned): (r: Result<real>)
    ensures r.Ok? <==> ParseLearned(l).Ok?
    ensures r.Ok? ==> (r.value == 1.0 <==>
              forall d :: d in trueDeps ==> d in ParseLearned(l).value && Reverse(d) !in ParseLearned(l).value)
  {
    var learned :- ParseLearned(l);
    var oriented := Oriented(SetOf(learned));
    OrientedCovers(trueDeps, learned);
    Ok(Recall(SetOf(trueDeps), oriented))
  }

  lemma OrientedCovers(trueDeps: seq<RelDep>, learned: seq<RelDep>)
    ensures SetOf(trueDeps) <= Oriented(SetOf(learned)) <==>
              forall d :: d in trueDeps ==> d in learned && Reverse(d) !in learned
  {
    var oriented := Oriented(SetOf(learned));
    if forall d :: d in trueDeps ==> d in learned && Reverse(d) !in learned {
      forall d | d in SetOf(trueDeps) ensures d in oriented {
        assert d in trueDeps;
        assert d in SetOf(learned) && Reverse(d) !in SetOf(learned);
      }
    }
    if SetOf(trueDeps) <= oriented {
      forall d | d in trueDeps ensures d in learned && Reverse(d) !in learned {
        assert d in SetOf(trueDeps);
      }
    }
  }

  /** Listing a learned dependency twice changes no score. */
  lemma DuplicatesIgnored(learned: seq<RelDep>, i: nat)
    requires i < |learned|
    ensures SetOf(learned + [learned[i]]) == SetOf(learned)
    ensures Undirected(learned + [learned[i]]) == Undirected(learned)
  {
    assert SetOf(learned + [learned[i]]) == SetOf(learned);
  }
}
