/** The separating-set search shared by RCD, RCD-Light and its rewrite.

    The candidate conditioning sets of one size are the subsets of that size
    of the effect's neighbours (`itertools.combinations`, visited in some
    order). Every CI test goes through a cache keyed by the cause, the effect
    and the conditioning set (a sorted tuple of distinct variables, hence a
    set), so the tester is asked at most once per key. The CI tester itself
    is a function parameter. */
module Sepsets {
  import opened Wrappers
  import opened Collections
  import opened RelVars

  type CiTest = (RelVar, RelVar, set<RelVar>) -> bool
  type CiKey = (RelVar, RelVar, set<RelVar>)
  type CiCache = map<CiKey, bool>

  /** Every cached answer is the tester's answer. */
  ghost predicate Agrees(cache: CiCache, ci: CiTest) {
    forall k :: k in cache ==> cache[k] == ci(k.0, k.1, k.2)
  }

  /** The conditioning sets of one size drawn from the neighbours. */
  function Candidates(nb: set<RelVar>, size: nat): set<set<RelVar>> {
    set c | c <= nb && |c| == size
  }

  function Keys(cause: RelVar, effect: RelVar, asked: seq<set<RelVar>>): set<CiKey> {
    set c | c in asked :: (cause, effect, c)
  }

  /** What a search does to the cache: it asks the tester only on keys it
      had not cached, each of them once, and remembers every answer. */
  ghost predicate AskedOnce(cache: CiCache, cache': CiCache, cause: RelVar, effect: RelVar,
                            asked: seq<set<RelVar>>, ci: CiTest) {
    && Agrees(cache', ci)
    && cache'.Keys == cache.Keys + Keys(cause, effect, asked)
    && PairwiseDistinct(asked)
    && (forall i :: 0 <= i < |asked| ==> (cause, effect, asked[i]) !in cache)
  }

  /** A set has a subset of every size up to its own. */
  lemma SubsetOfSize<T>(s: set<T>, k: nat) returns (c: set<T>)
    requires k <= |s|
    ensures c <= s && |c| == k
  {
    if k == 0 {
      c := {};
    } else {
      var x :| x in s;
      c := SubsetOfSize(s - {x}, k - 1);
      c := c + {x};
    }
  }

  /** Two searches in a row over disjoint candidates ask once per key. */
  lemma AskedOnceThen(cache: CiCache, c1: CiCache, c2: CiCache, cause: RelVar, effect: RelVar,
                      a1: seq<set<RelVar>>, a2: seq<set<RelVar>>, ci: CiTest)
    requires AskedOnce(cache, c1, cause, effect, a1, ci) && AskedOnce(c1, c2, cause, effect, a2, ci)
    requires forall i, j :: 0 <= i < |a1| && 0 <= j < |a2| ==> a1[i] != a2[j]
    ensures AskedOnce(cache, c2, cause, effect, a1 + a2, ci)
  {
    var a := a1 + a2;
    assert Keys(cause, effect, a) == Keys(cause, effect, a1) + Keys(cause, effect, a2) by {
      assert forall c :: c in a <==> c in a1 || c in a2;
    }
    forall i, j | 0 <= i < j < |a| ensures a[i] != a[j] {
      if j < |a1| {
        assert a[i] == a1[i] && a[j] == a1[j];
      } else if i >= |a1| {
        assert a[i] == a2[i - |a1|] && a[j] == a2[j - |a1|];
      } else {
        assert a[i] == a1[i] && a[j] == a2[j - |a1|];
      }
    }
    forall i | 0 <= i < |a| ensures (cause, effect, a[i]) !in cache {
      if i >= |a1| {
        assert a[i] == a2[i - |a1|];
      }
    }
  }

  /** Asking the tester on a key not yet cached. */
  lemma AskFresh(cache: CiCache, cache': CiCache, cause: RelVar, effect: RelVar,
                 asked: seq<set<RelVar>>, c: set<RelVar>, ci: CiTest)
    requires AskedOnce(cache, cache', cause, effect, asked, ci) && (cause, effect, c) !in cache'
    ensures AskedOnce(cache, cache'[(cause, effect, c) := ci(cause, effect, c)], cause, effect, asked + [c], ci)
  {
    assert Keys(cause, effect, asked + [c]) == Keys(cause, effect, asked) + {(cause, effect, c)} by {
      assert forall w :: w in asked + [c] <==> w in asked || w == c;
    }
    assert c !in SetOf(asked);
    AppendFresh(asked, c);
    var a := asked + [c];
    forall i | 0 <= i < |a| ensures (cause, effect, a[i]) !in cache {
      if i < |asked| {
        assert a[i] == asked[i];
      }
    }
  }

  /** The size loop's body (`_find_sepset_with_size`, `find_sepset`,
      `findSepset`): tries the conditioning sets of exactly `size` drawn from
      `nb`, and stops at the first one the tester finds independent. It
      reports whether any set was tried, which happens exactly when `size`
      is at most the number of neighbours. */
  method FindSepsetWithSize(cause: RelVar, effect: RelVar, nb: set<RelVar>, size: nat, cache: CiCache, ci: CiTest)
    returns (sepset: Option<set<RelVar>>, tested: bool, cache': CiCache, asked: seq<set<RelVar>>)
    requires Agrees(cache, ci)
    ensures tested <==> size <= |nb|
    ensures sepset.Some? ==> sepset.value in Candidates(nb, size) && ci(cause, effect, sepset.value)
    ensures sepset.None? ==> forall c :: c in Candidates(nb, size) ==> !ci(cause, effect, c)
    ensures AskedOnce(cache, cache', cause, effect, asked, ci)
    ensures forall i :: 0 <= i < |asked| ==> asked[i] in Candidates(nb, size)
  {
    cache', asked, sepset, tested := cache, [], None, false;
    var todo := Candidates(nb, size);
    while todo != {}
      invariant todo <= Candidates(nb, size)
      invariant tested ==> size <= |nb|
      invariant !tested ==> todo == Candidates(nb, size)
      invariant forall c :: c in Candidates(nb, size) - todo ==> !ci(cause, effect, c)
      invariant AskedOnce(cache, cache', cause, effect, asked, ci)
      invariant forall i :: 0 <= i < |asked| ==> asked[i] in Candidates(nb, size) - todo
      decreases |todo|
    {
      var c :| c in todo;
      SubsetNotLarger(c, nb);
      todo := todo - {c};
      tested := true;
      var key := (cause, effect, c);
      if key !in cache' {
        AskFresh(cache, cache', cause, effect, asked, c, ci);
        asked := asked + [c];
        cache' := cache'[key := ci(cause, effect, c)];
      }
      if cache'[key] {
        sepset := Some(c);
        return;
      }
    }
    if size <= |nb| {
      var w := SubsetOfSize(nb, size);
      assert w in Candidates(nb, size);
    }
  }

  /** Whether a size is within an optional depth limit (no limit when None). */
  predicate Within(limit: Option<int>, n: nat) {
    limit.None? || n <= limit.value
  }

  /** Growing the conditioning set from size 0 (`_find_sepset`,
      `find_record_and_return_sepset`, `findRecordAndReturnSepset`): up to
      the depth limit, and stopping early at the first size for which no set
      could be tried. A separating set found is one of the smallest: no
      smaller subset of the neighbours separates. When none is found, no
      subset within the limit separates. */
  method GrowSepset(cause: RelVar, effect: RelVar, nb: set<RelVar>, limit: Option<int>, cache: CiCache, ci: CiTest)
    returns (sepset: Option<set<RelVar>>, cache': CiCache, asked: seq<set<RelVar>>)
    requires Agrees(cache, ci)
    ensures sepset.Some? ==> sepset.value <= nb && ci(cause, effect, sepset.value) && Within(limit, |sepset.value|)
    ensures sepset.Some? ==> forall c :: c <= nb && |c| < |sepset.value| ==> !ci(cause, effect, c)
    ensures sepset.None? ==> forall c :: c <= nb && Within(limit, |c|) ==> !ci(cause, effect, c)
    ensures AskedOnce(cache, cache', cause, effect, asked, ci)
  {
    var d: nat := 0;
    cache', asked, sepset := cache, [], None;
    while Within(limit, d)
      invariant d <= |nb| + 1
      invariant forall c :: c <= nb && |c| < d ==> !ci(cause, effect, c)
      invariant AskedOnce(cache, cache', cause, effect, asked, ci)
      invariant forall i :: 0 <= i < |asked| ==> |asked[i]| < d
      decreases |nb| + 1 - d
    {
      var s, tested, c2, a := FindSepsetWithSize(cause, effect, nb, d, cache', ci);
      AskedOnceThen(cache, cache', c2, cause, effect, asked, a, ci);
      cache', asked := c2, asked + a;
      if s.Some? {
        sepset := s;
        return;
      }
      if !tested {
        forall c | c <= nb ensures |c| < d {
          SubsetNotLarger(c, nb);
        }
        return;
      }
      d := d + 1;
    }
  }
}
