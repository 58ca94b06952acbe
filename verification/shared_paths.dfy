/** Path helpers of the RCD-Light rewrite (RCDLightNew.py): the length of
    the longest relational shared path of two paths from the same base item
    (`LLRSP`), joining two paths at a shared item (`join`), and whether two
    relational paths can give intersecting relational variables
    (`intersectible`). Relationship classes are taken to be binary, as the
    source's `is_binary` does. */
module SharedPaths {
  import opened Wrappers
  import opened Schemas
  import opened RelVars

  /** Indexing an empty list. */
  const IndexError := "IndexError: list index out of range"

  /** A failed `assert`. */
  const AssertionError := "AssertionError"

  function Min(a: nat, b: nat): (r: nat)
    ensures r <= a && r <= b && (r == a || r == b)
  {
    if a <= b then a else b
  }

  /** Whether the step from p[i-1] into p[i] enters a relationship in which
      p[i-1] has cardinality MANY: the point from which two walks along the
      same path may reach different instances. Fails as `getCardinality`
      does when p[i-1] is not an end of that relationship. */
  function ManyStep(s: Schema, p: seq<string>, i: nat): (r: Result<bool>)
    requires WellFormed(s) && 1 <= i < |p|
    ensures r.Err? ==> HasRelationship(s, p[i])
    ensures !HasRelationship(s, p[i]) ==> r == Ok(false)
  {
    if !HasRelationship(s, p[i]) then Ok(false)
    else
      var it := GetRelationship(s, p[i]).value;
      var c :- GetCardinality(it, p[i - 1]);
      Ok(c == Many)
  }

  /** The scan of `LLRSP` from position `i` to `n`. */
  function LlrspFrom(s: Schema, p: seq<string>, q: seq<string>, i: nat, n: nat): (r: Result<nat>)
    requires WellFormed(s) && 1 <= i <= n && n <= |p| && n <= |q|
    ensures r.Ok? ==> i <= r.value <= n
    ensures r.Ok? ==> forall j | i <= j < r.value :: p[j] == q[j] && ManyStep(s, p, j) == Ok(false)
    ensures r.Ok? && r.value < n ==> p[r.value] != q[r.value] || ManyStep(s, p, r.value) == Ok(true)
    decreases n - i
  {
    if i == n then Ok(n)
    else if p[i] != q[i] then Ok(i)
    else
      var many :- ManyStep(s, p, i);
      if many then Ok(i) else LlrspFrom(s, p, q, i + 1, n)
  }

  /** `LLRSP(schema, P, Q)`: for two paths from the same base, the length of
      their longest shared prefix along which no two walks can have
      diverged: it ends at the first position where the paths differ or the
      first step into a MANY end, and is at least 1 (the base) and at most
      the shorter length. An empty path fails with an IndexError, different
      bases with an AssertionError. */
  function LLRSP(s: Schema, p: seq<string>, q: seq<string>): (r: Result<nat>)
    requires WellFormed(s)
    ensures (|p| == 0 || |q| == 0) ==> r == Err(IndexError)
    ensures |p| > 0 && |q| > 0 && p[0] != q[0] ==> r == Err(AssertionError)
    ensures r.Ok? ==> 1 <= r.value <= Min(|p|, |q|) && p[..r.value] == q[..r.value]
    ensures r.Ok? ==> forall j | 1 <= j < r.value :: ManyStep(s, p, j) == Ok(false)
    ensures r.Ok? && r.value < Min(|p|, |q|) ==>
              p[r.value] != q[r.value] || ManyStep(s, p, r.value) == Ok(true)
  {
    if |p| == 0 || |q| == 0 then Err(IndexError)
    else if p[0] != q[0] then Err(AssertionError)
    else
      var r :- LlrspFrom(s, p, q, 1, Min(|p|, |q|));
      assert p[..r] == q[..r] by {
        forall j | 0 <= j < r ensures p[j] == q[j] {
        }
      }
      Ok(r)
  }

  lemma {:induction false} LlrspFromSymmetric(s: Schema, p: seq<string>, q: seq<string>, i: nat, n: nat)
    requires WellFormed(s) && 1 <= i <= n && n <= |p| && n <= |q| && p[..i] == q[..i]
    ensures LlrspFrom(s, p, q, i, n) == LlrspFrom(s, q, p, i, n)
    decreases n - i
  {
    if i < n && p[i] == q[i] {
      assert p[i - 1] == p[..i][i - 1] == q[..i][i - 1] == q[i - 1];
      assert ManyStep(s, p, i) == ManyStep(s, q, i);
      assert p[..i + 1] == p[..i] + [p[i]] && q[..i + 1] == q[..i] + [q[i]];
      LlrspFromSymmetric(s, p, q, i + 1, n);
    }
  }

  /** The shared-path length does not depend on the order of the two paths. */
  lemma LLRSPSymmetric(s: Schema, p: seq<string>, q: seq<string>)
    requires WellFormed(s)
    ensures LLRSP(s, p, q) == LLRSP(s, q, p)
  {
    if |p| > 0 && |q| > 0 && p[0] == q[0] {
      assert p[..1] == q[..1];
      LlrspFromSymmetric(s, p, q, 1, Min(|p|, |q|));
    }
  }

  /** `join(P, Q)`: P followed by Q without its first item, when P ends
      where Q starts; an empty path fails with an IndexError, a mismatch
      with an AssertionError. The result starts with P and ends with Q. */
  function Join(p: seq<string>, q: seq<string>): (r: Result<seq<string>>)
    ensures r.Ok? <==> |p| > 0 && |q| > 0 && p[|p| - 1] == q[0]
    ensures (|p| == 0 || |q| == 0) ==> r == Err(IndexError)
    ensures r.Err? && |p| > 0 && |q| > 0 ==> r.msg == AssertionError
    ensures r.Ok? ==> |r.value| == |p| + |q| - 1 && r.value[..|p|] == p && r.value[|p| - 1..] == q
  {
    if |p| == 0 || |q| == 0 then Err(IndexError)
    else if p[|p| - 1] != q[0] then Err(AssertionError)
    else
      assert (p + q[1..])[|p| - 1..] == [p[|p| - 1]] + q[1..];
      assert q == [q[0]] + q[1..];
      Ok(p + q[1..])
  }

  /** Cutting a path at any item and joining the two halves gives it back. */
  lemma JoinSplit(r: seq<string>, k: nat)
    requires k < |r|
    ensures Join(r[..k + 1], r[k..]) == Ok(r)
  {
    assert r[..k + 1] + r[k..][1..] == r;
  }

  /** Joining is associative. */
  lemma JoinAssociative(p: seq<string>, q: seq<string>, w: seq<string>)
    requires Join(p, q).Ok? && Join(q, w).Ok?
    ensures Join(Join(p, q).value, w) == Join(p, Join(q, w).value)
  {
    var pq := Join(p, q).value;
    var qw := Join(q, w).value;
    assert pq[|pq| - 1] == q[|q| - 1] by {
      assert pq[|p| - 1..][|q| - 1] == q[|q| - 1];
    }
    assert qw[0] == q[0];
    assert (p + q[1..]) + w[1..] == p + (q + w[1..])[1..];
  }

  /** The duplicate-relationship case the source excludes: R, E, R against
      R, E', R through a (binary) relationship R. */
  predicate SameRelationshipTwice(s: Schema, p: seq<string>, q: seq<string>) {
    |p| == 3 && |q| == 3 && p[0] == p[2] && p[2] == q[0] && q[0] == q[2] && p[1] != q[1]
    && HasRelationship(s, p[0])
  }

  /** `intersectible(schema, P, Q)`: two distinct nonempty paths from the
      same base (otherwise an AssertionError) can lead to intersecting
      variables only when they end at the same item, neither is a prefix of
      the other, they are not the R, E, R / R, E', R pair, and their shared
      stretches from the base and from the terminal leave room between
      them. */
  function Intersectible(s: Schema, p: seq<string>, q: seq<string>): (r: Result<bool>)
    requires WellFormed(s)
    ensures r.Err? <==> p == q || |p| == 0 || |q| == 0 || p[0] != q[0]
                        || (p[|p| - 1] == q[|q| - 1] && !IsPrefix(p, q) && !IsPrefix(q, p)
                            && !SameRelationshipTwice(s, p, q)
                            && (LLRSP(s, p, q).Err? || LLRSP(s, Rev(p), Rev(q)).Err?))
    ensures p != q && |p| > 0 && |q| > 0 && p[0] == q[0] && p[|p| - 1] != q[|q| - 1] ==> r == Ok(false)
    ensures p != q && |p| > 0 && |q| > 0 && p[0] == q[0] && (IsPrefix(p, q) || IsPrefix(q, p)) ==> r == Ok(false)
    ensures r == Ok(true) ==>
              && p[|p| - 1] == q[|q| - 1] && !IsPrefix(p, q) && !IsPrefix(q, p)
              && LLRSP(s, p, q).value + LLRSP(s, Rev(p), Rev(q)).value <= Min(|p|, |q|)
  {
    if p == q || |p| == 0 || |q| == 0 || p[0] != q[0] then Err(AssertionError)
    else if p[|p| - 1] != q[|q| - 1] then Ok(false)
    else
      var n := Min(|p|, |q|);
      if p[..n] == q[..n] then
        assert IsPrefix(p, q) || IsPrefix(q, p) by {
          if n == |p| { assert p[..n] == p; } else { assert q[..n] == q; }
        }
        Ok(false)
      else if SameRelationshipTwice(s, p, q) then Ok(false)
      else
        assert !IsPrefix(p, q) && !IsPrefix(q, p) by {
          if n == |p| { assert p[..n] == p; } else { assert q[..n] == q; }
        }
        var a :- LLRSP(s, p, q);
        var b :- LLRSP(s, Rev(p), Rev(q));
        Ok(a + b <= n)
  }

  /** Reversal is its own inverse. */
  lemma RevRev(p: seq<string>)
    ensures Rev(Rev(p)) == p
  {
  }

  /** Intersectibility does not depend on the order of the two paths. */
  lemma IntersectibleSymmetric(s: Schema, p: seq<string>, q: seq<string>)
    requires WellFormed(s)
    ensures Intersectible(s, p, q) == Intersectible(s, q, p)
  {
    LLRSPSymmetric(s, p, q);
    LLRSPSymmetric(s, Rev(p), Rev(q));
  }

  /** Intersectible paths give intersecting variables for any attribute. */
  lemma IntersectibleIntersects(s: Schema, p: Path, q: Path, attr: string)
    requires WellFormed(s) && Intersectible(s, p, q) == Ok(true)
    ensures Intersects(RelVar(p, attr), RelVar(q, attr))
  {
    IntersectsIffNotPrefix(RelVar(p, attr), RelVar(q, attr));
  }
}
