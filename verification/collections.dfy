/** Small facts about finite sequences and sets shared by the rest of the
    model: the distinct elements of a list, and sizes of subsets. */
module Collections {
  import opened Wrappers

  const NotInList := "list.remove(x): x not in list"

  function SetOf<T>(xs: seq<T>): set<T> {
    set x | x in xs
  }

  /** A read of a `defaultdict(set)`: a missing key reads as the empty set. */
  function SetAt<K, V>(m: map<K, set<V>>, k: K): set<V> {
    if k in m then m[k] else {}
  }

  /** Some iteration order of a set: every element exactly once. */
  method Enumerate<T(==)>(s: set<T>) returns (xs: seq<T>)
    ensures SetOf(xs) == s && PairwiseDistinct(xs)
  {
    xs := [];
    var rest := s;
    while rest != {}
      invariant SetOf(xs) + rest == s && SetOf(xs) !! rest
      invariant PairwiseDistinct(xs)
      decreases |rest|
    {
      var x :| x in rest;
      AppendFresh(xs, x);
      xs := xs + [x];
      rest := rest - {x};
    }
  }

  /** Appending an element not yet listed keeps the list distinct. */
  lemma AppendFresh<T>(xs: seq<T>, x: T)
    requires PairwiseDistinct(xs) && x !in SetOf(xs)
    ensures PairwiseDistinct(xs + [x]) && SetOf(xs + [x]) == SetOf(xs) + {x}
  {
    var ys := xs + [x];
    forall i, j | 0 <= i < j < |ys|
      ensures ys[i] != ys[j]
    {
      if j == |xs| {
        assert ys[i] == xs[i] && xs[i] in SetOf(xs);
      }
    }
  }

  /** The duplicate check the source uses: as many distinct elements as entries. */
  predicate NoDuplicates<T(==)>(xs: seq<T>) {
    |SetOf(xs)| == |xs|
  }

  predicate PairwiseDistinct<T(==)>(xs: seq<T>) {
    forall i, j :: 0 <= i < j < |xs| ==> xs[i] != xs[j]
  }

  /** The size check rejects exactly the lists where some entry repeats. */
  lemma {:induction false} NoDuplicatesIff<T>(xs: seq<T>)
    ensures NoDuplicates(xs) <==> PairwiseDistinct(xs)
  {
    if |xs| > 0 {
      var rest := xs[1..];
      NoDuplicatesIff(rest);
      SetCons(xs);
      DistinctCons(xs);
      SetSizeBound(rest);
    }
  }

  lemma SetCons<T>(xs: seq<T>)
    requires |xs| > 0
    ensures |SetOf(xs)| == |SetOf(xs[1..])| + (if xs[0] in xs[1..] then 0 else 1)
  {
    assert SetOf(xs) == {xs[0]} + SetOf(xs[1..]) by {
      assert xs == [xs[0]] + xs[1..];
    }
  }

  lemma DistinctCons<T>(xs: seq<T>)
    requires |xs| > 0
    ensures PairwiseDistinct(xs) <==> xs[0] !in xs[1..] && PairwiseDistinct(xs[1..])
  {
    var rest := xs[1..];
    if xs[0] in rest {
      var k :| 0 <= k < |rest| && rest[k] == xs[0];
      assert xs[k + 1] == xs[0];
    }
    if PairwiseDistinct(xs) {
      forall i, j | 0 <= i < j < |rest| ensures rest[i] != rest[j] {
        assert rest[i] == xs[i + 1] && rest[j] == xs[j + 1];
      }
    }
    if xs[0] !in rest && PairwiseDistinct(rest) {
      forall i, j | 0 <= i < j < |xs| ensures xs[i] != xs[j] {
        assert xs[j] == rest[j - 1];
        if i > 0 { assert xs[i] == rest[i - 1]; }
      }
    }
  }

  /** A list has at most as many distinct elements as entries. */
  lemma {:induction false} SetSizeBound<T>(xs: seq<T>)
    ensures |SetOf(xs)| <= |xs|
  {
    if |xs| > 0 {
      SetSizeBound(xs[1..]);
      assert SetOf(xs) == {xs[0]} + SetOf(xs[1..]) by {
        assert xs == [xs[0]] + xs[1..];
      }
    }
  }

  lemma SubsetSmaller<N>(a: set<N>, b: set<N>)
    requires a < b
    ensures |a| < |b|
  {
    var x :| x in b && x !in a;
    SubsetNotLarger(a, b - {x});
  }

  lemma SubsetNotLarger<N>(a: set<N>, b: set<N>)
    requires a <= b
    ensures |a| <= |b|
    decreases a
  {
    if a != {} {
      var y :| y in a;
      SubsetNotLarger(a - {y}, b - {y});
    }
  }

  /** A subset is no larger, and as large only when it is the whole set. */
  lemma SubsetSize<T>(a: set<T>, b: set<T>)
    requires a <= b
    ensures |a| <= |b|
    ensures |a| == |b| <==> a == b
  {
    SubsetNotLarger(a, b);
    if a != b {
      SubsetSmaller(a, b);
    }
  }

  lemma SetOfConcat<T>(a: seq<T>, b: seq<T>)
    ensures SetOf(a + b) == SetOf(a) + SetOf(b)
  {
    assert forall x :: x in a + b <==> x in a || x in b;
  }

  /** Two duplicate-free lists with no element in common concatenate to a duplicate-free list. */
  lemma DistinctConcat<T>(a: seq<T>, b: seq<T>)
    requires PairwiseDistinct(a) && PairwiseDistinct(b) && SetOf(a) !! SetOf(b)
    ensures PairwiseDistinct(a + b)
  {
    forall i, j | 0 <= i < j < |a + b| ensures (a + b)[i] != (a + b)[j] {
      if i < |a| && j >= |a| {
        assert (a + b)[i] in SetOf(a) && (a + b)[j] in SetOf(b);
      } else if i >= |a| {
        assert (a + b)[i] == b[i - |a|] && (a + b)[j] == b[j - |a|];
      }
    }
  }

  lemma DistinctPrefix<T>(xs: seq<T>, n: nat)
    requires PairwiseDistinct(xs) && n <= |xs|
    ensures PairwiseDistinct(xs[..n])
  {
    forall i, j | 0 <= i < j < n ensures xs[..n][i] != xs[..n][j] {
      assert xs[..n][i] == xs[i] && xs[..n][j] == xs[j];
    }
  }

  /** `list.remove`: drops the first occurrence, refused when there is none. */
  function Remove<T(==,!new)>(xs: seq<T>, x: T): (r: Result<seq<T>>)
    ensures r.Ok? <==> x in xs
    ensures r.Err? ==> r.msg == NotInList
    ensures r.Ok? ==> |r.value| == |xs| - 1 && multiset(r.value) == multiset(xs) - multiset{x}
    ensures r.Ok? ==> forall y :: y != x ==> (y in r.value <==> y in xs)
    ensures r.Ok? ==> SetOf(r.value) <= SetOf(xs)
    ensures r.Ok? && PairwiseDistinct(xs) ==> PairwiseDistinct(r.value) && x !in r.value
  {
    if |xs| == 0 then Err(NotInList)
    else if xs[0] == x then
      RemoveHead(xs, x);
      Ok(xs[1..])
    else
      var rest :- Remove(xs[1..], x);
      RemoveCons(xs, x, rest);
      Ok([xs[0]] + rest)
  }

  /** What removing the first occurrence of `x` from `xs` leaves behind. */
  ghost predicate RemovedOnce<T(!new)>(xs: seq<T>, x: T, ys: seq<T>) {
    && |ys| == |xs| - 1
    && multiset(ys) == multiset(xs) - multiset{x}
    && (forall y :: y != x ==> (y in ys <==> y in xs))
    && SetOf(ys) <= SetOf(xs)
    && (PairwiseDistinct(xs) ==> PairwiseDistinct(ys) && x !in ys)
  }

  lemma RemoveHead<T(!new)>(xs: seq<T>, x: T)
    requires |xs| > 0 && xs[0] == x
    ensures RemovedOnce(xs, x, xs[1..])
  {
    DistinctCons(xs);
    assert xs == [x] + xs[1..];
  }

  lemma RemoveCons<T(!new)>(xs: seq<T>, x: T, rest: seq<T>)
    requires |xs| > 0 && xs[0] != x
    requires RemovedOnce(xs[1..], x, rest)
    ensures RemovedOnce(xs, x, [xs[0]] + rest)
  {
    var ys := [xs[0]] + rest;
    assert xs == [xs[0]] + xs[1..];
    assert multiset(ys) == multiset{xs[0]} + multiset(rest);
    assert multiset(xs) == multiset{xs[0]} + multiset(xs[1..]);
    RemoveConsMembers(xs, x, rest);
    RemoveConsDistinct(xs, x, rest);
  }

  lemma RemoveConsMembers<T>(xs: seq<T>, x: T, rest: seq<T>)
    requires |xs| > 0
    requires forall y :: y != x ==> (y in rest <==> y in xs[1..])
    requires SetOf(rest) <= SetOf(xs[1..])
    ensures forall y :: y != x ==> (y in [xs[0]] + rest <==> y in xs)
    ensures SetOf([xs[0]] + rest) <= SetOf(xs)
  {
    assert forall y :: y in [xs[0]] + rest <==> y == xs[0] || y in rest;
    assert forall y :: y in xs <==> y == xs[0] || y in xs[1..];
    forall y | y in SetOf([xs[0]] + rest)
      ensures y in SetOf(xs)
    {
      if y != xs[0] {
        assert y in SetOf(rest);
      }
    }
  }

  lemma RemoveConsDistinct<T>(xs: seq<T>, x: T, rest: seq<T>)
    requires |xs| > 0
    requires SetOf(rest) <= SetOf(xs[1..])
    requires PairwiseDistinct(xs[1..]) ==> PairwiseDistinct(rest) && x !in rest
    ensures PairwiseDistinct(xs) && xs[0] != x ==> PairwiseDistinct([xs[0]] + rest) && x !in [xs[0]] + rest
  {
    if PairwiseDistinct(xs) && xs[0] != x {
      var ys := [xs[0]] + rest;
      DistinctCons(xs);
      assert xs[0] !in SetOf(xs[1..]);
      assert ys[1..] == rest;
      DistinctCons(ys);
    }
  }
}
