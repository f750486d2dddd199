/**
  Cost matrices, tours and the cost of a path.

  A cost matrix `m` has N+1 rows of N+1 non-negative entries; id 0 is the
  origin and ids 1..N are the coins. A tour starts and ends at the origin
  and visits every coin exactly once in between.
 */
module Tours {

  type Matrix = seq<seq<nat>>

  /** Square, with at least the origin row. */
  predicate IsMatrix(m: Matrix) {
    |m| >= 1 && forall i :: 0 <= i < |m| ==> |m[i]| == |m|
  }

  /** The number of coins N of an (N+1) x (N+1) matrix. */
  function Size(m: Matrix): nat
    requires IsMatrix(m)
  {
    |m| - 1
  }

  /** The coin ids 1..N, as a set (`set(range(1, N + 1))`). */
  function Coins(n: nat): (s: set<nat>)
    ensures forall i :: i in s <==> 1 <= i <= n
  {
    CoinSeqHas(n);
    set x | x in CoinSeq(n)
  }

  /** The coin ids 1..N in increasing order (`range(1, N + 1)`). */
  function CoinSeq(n: nat): seq<nat> {
    seq(n, k => k + 1)
  }

  lemma CoinSeqHas(n: nat)
    ensures forall i :: 1 <= i <= n ==> i in CoinSeq(n)
  {
    forall i | 1 <= i <= n
      ensures i in CoinSeq(n)
    {
      assert CoinSeq(n)[i - 1] == i;
    }
  }

  function Elems(q: seq<nat>): set<nat> {
    set x | x in q
  }

  /** No id occurs twice in `q`. */
  predicate Distinct(q: seq<nat>) {
    forall x :: x in q ==> multiset(q)[x] == 1
  }

  /** Every id of `p` indexes the matrix. */
  predicate InRange(m: Matrix, p: seq<nat>) {
    forall k :: 0 <= k < |p| ==> p[k] < |m|
  }

  /** The sum of `m[p[k-1]][p[k]]` over the consecutive edges of `p`. */
  function PathCost(m: Matrix, p: seq<nat>): nat
    requires IsMatrix(m) && InRange(m, p)
  {
    if |p| <= 1 then 0 else PathCost(m, p[..|p| - 1]) + m[p[|p| - 2]][p[|p| - 1]]
  }

  /** The coins `stack` has not visited yet (the origin is `stack[0]`). */
  function Unvisited(n: nat, stack: seq<nat>): set<nat>
    requires |stack| >= 1
  {
    Coins(n) - Elems(stack[1..])
  }

  /** `t` starts and ends at the origin and visits each of 1..n exactly once in between. */
  predicate IsTour(t: seq<nat>, n: nat) {
    && |t| == n + 2
    && t[0] == 0
    && t[n + 1] == 0
    && Distinct(t[1..n + 1])
    && Elems(t[1..n + 1]) == Coins(n)
  }

  /** The cost of a tour. */
  function TourCost(m: Matrix, t: seq<nat>): nat
    requires IsMatrix(m) && IsTour(t, Size(m))
  {
    TourInRange(t, Size(m));
    PathCost(m, t)
  }

  // ---------------------------------------------------------------------------
  // Lemmas

  lemma {:induction false} CoinSeqElems(n: nat)
    ensures Distinct(CoinSeq(n)) && Elems(CoinSeq(n)) == Coins(n)
  {
    if n > 0 {
      CoinSeqElems(n - 1);
      assert CoinSeq(n) == CoinSeq(n - 1) + [n];
      assert n !in Elems(CoinSeq(n - 1));
      AppendFresh(CoinSeq(n - 1), n);
    }
  }

  lemma {:induction false} DistinctCard(q: seq<nat>)
    requires Distinct(q)
    ensures |Elems(q)| == |q|
  {
    if q != [] {
      var init, x := q[..|q| - 1], q[|q| - 1];
      assert q == init + [x];
      assert multiset(q) == multiset(init) + multiset{x};
      assert Distinct(init) by {
        forall y | y in init
          ensures multiset(init)[y] == 1
        {
          assert y in q && multiset(init)[y] <= multiset(q)[y];
        }
      }
      DistinctCard(init);
      assert x !in Elems(init) by {
        assert multiset(q)[x] == multiset(init)[x] + 1;
      }
      assert Elems(q) == Elems(init) + {x};
    }
  }

  /** A distinct sequence of coins and the coins it misses together number n. */
  lemma DistinctCoinsCard(q: seq<nat>, n: nat)
    requires Distinct(q) && Elems(q) <= Coins(n)
    ensures |q| + |Coins(n) - Elems(q)| == n
  {
    DistinctCard(q);
    CoinSeqElems(n);
    DistinctCard(CoinSeq(n));
    var a, b := Coins(n), Elems(q);
    assert a == (a - b) + b;
    assert (a - b) * b == {};
  }

  /** A distinct sequence holds each of its elements once. */
  lemma DistinctMultiset(q: seq<nat>, x: nat)
    requires Distinct(q)
    ensures multiset(q)[x] == if x in Elems(q) then 1 else 0
  {
  }

  /** Appending an id not yet present keeps a sequence distinct and adds exactly that id. */
  lemma AppendFresh(q: seq<nat>, x: nat)
    requires Distinct(q) && x !in Elems(q)
    ensures Distinct(q + [x]) && Elems(q + [x]) == Elems(q) + {x}
  {
    assert multiset(q + [x]) == multiset(q) + multiset{x};
    assert multiset(q)[x] == 0 by {
      assert x !in q;
    }
  }

  /** In a distinct sequence, the id at position j does not occur before j. */
  lemma DistinctFresh(q: seq<nat>, j: nat)
    requires Distinct(q) && j < |q|
    ensures q[j] !in Elems(q[..j])
  {
    assert q == q[..j] + [q[j]] + q[j + 1..];
    assert multiset(q) == multiset(q[..j]) + multiset{q[j]} + multiset(q[j + 1..]);
    assert multiset(q)[q[j]] >= multiset(q[..j])[q[j]] + 1;
  }

  /** The coin a tour visits at step j is one it has not visited before. */
  lemma TourAt(t: seq<nat>, n: nat, j: nat)
    requires IsTour(t, n) && 1 <= j <= n
    ensures t[j] in Coins(n) && t[j] !in Elems(t[..j][1..])
  {
    var q := t[1..n + 1];
    assert q[j - 1] == t[j];
    DistinctFresh(q, j - 1);
    assert q[..j - 1] == t[..j][1..];
  }

  /** A prefix one id longer. */
  lemma PrefixSnoc(t: seq<nat>, j: nat)
    requires j < |t|
    ensures t[..j] + [t[j]] == t[..j + 1] && t[..j] + [t[j]] <= t
  {
    assert t[..j] + [t[j]] == t[..j + 1];
  }

  /** A tour only uses ids 0..n. */
  lemma TourInRange(t: seq<nat>, n: nat)
    requires IsTour(t, n)
    ensures forall k :: 0 <= k < |t| ==> t[k] <= n
  {
    forall k | 0 <= k < |t|
      ensures t[k] <= n
    {
      if 1 <= k <= n {
        assert t[k] == t[1..n + 1][k - 1];
        assert t[k] in Coins(n);
      }
    }
  }

  /** Appending one id adds exactly the cost of the new last edge. */
  lemma {:induction false} PathCostAppend(m: Matrix, p: seq<nat>, x: nat)
    requires IsMatrix(m) && InRange(m, p) && |p| >= 1 && x < |m|
    ensures InRange(m, p + [x])
    ensures PathCost(m, p + [x]) == PathCost(m, p) + m[p[|p| - 1]][x]
  {
    var q := p + [x];
    assert InRange(m, q) by {
      forall k | 0 <= k < |q|
        ensures q[k] < |m|
      {
        if k < |p| {
          assert q[k] == p[k];
        }
      }
    }
    assert q[..|q| - 1] == p;
    assert q[|q| - 2] == p[|p| - 1] && q[|q| - 1] == x;
  }

  /** With non-negative costs, a prefix never costs more than the whole path. */
  lemma {:induction false} PathCostPrefix(m: Matrix, p: seq<nat>, k: nat)
    requires IsMatrix(m) && InRange(m, p) && k <= |p|
    ensures InRange(m, p[..k]) && PathCost(m, p[..k]) <= PathCost(m, p)
    decreases |p| - k
  {
    if k < |p| {
      PathCostPrefix(m, p[..|p| - 1], k);
      assert p[..|p| - 1][..k] == p[..k];
    } else {
      assert p[..k] == p;
    }
  }
}
