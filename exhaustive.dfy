/**
  The exhaustive agent (`Jocke.get_agent_path`).

  Enumerate every ordering of the coins 1..N in the order of
  `itertools.permutations(range(1, N + 1))`, cost each closed tour, and keep
  the first one whose cost is strictly below the best so far.
 */
module Exhaustive {
  import opened Tours

  /** Put `x` in front of every sequence of `ps`, keeping their order. */
  function Prepend(x: nat, ps: seq<seq<nat>>): seq<seq<nat>> {
    seq(|ps|, k requires 0 <= k < |ps| => [x] + ps[k])
  }

  /** `xs` without its element at position i. */
  function Without(xs: seq<nat>, i: nat): seq<nat>
    requires i < |xs|
  {
    xs[..i] + xs[i + 1..]
  }

  /**
    `itertools.permutations(xs)`: for each position i in turn, the element at
    i followed by every permutation of the others.
   */
  function Permutations(xs: seq<nat>): seq<seq<nat>>
    decreases |xs|, 1
  {
    if xs == [] then [[]] else PermsFrom(xs, 0)
  }

  /** The permutations of `xs` that start with the element at position i or later. */
  function PermsFrom(xs: seq<nat>, i: nat): seq<seq<nat>>
    requires i <= |xs|
    decreases |xs|, 0, |xs| - i
  {
    if i == |xs| then []
    else Prepend(xs[i], Permutations(Without(xs, i))) + PermsFrom(xs, i + 1)
  }

  // ---------------------------------------------------------------------------
  // What the enumeration contains

  lemma MultisetWithout(xs: seq<nat>, i: nat)
    requires i < |xs|
    ensures multiset(xs) == multiset(Without(xs, i)) + multiset{xs[i]}
  {
    assert xs == xs[..i] + [xs[i]] + xs[i + 1..];
  }

  /** Every enumerated sequence is a rearrangement of `xs`. */
  lemma {:induction false} PermutationsSound(xs: seq<nat>, q: seq<nat>)
    requires q in Permutations(xs)
    ensures multiset(q) == multiset(xs)
    decreases |xs|, 1
  {
    if xs != [] {
      PermsFromSound(xs, 0, q);
    }
  }

  lemma {:induction false} PermsFromSound(xs: seq<nat>, i: nat, q: seq<nat>)
    requires i <= |xs| && q in PermsFrom(xs, i)
    ensures multiset(q) == multiset(xs)
    decreases |xs|, 0, |xs| - i
  {
    var head := Prepend(xs[i], Permutations(Without(xs, i)));
    if q in head {
      var k :| 0 <= k < |head| && head[k] == q;
      var tail := Permutations(Without(xs, i))[k];
      PermutationsSound(Without(xs, i), tail);
      MultisetWithout(xs, i);
      assert q == [xs[i]] + tail;
    } else {
      PermsFromSound(xs, i + 1, q);
    }
  }

  /** Every rearrangement of `xs` is enumerated. */
  lemma {:induction false} PermutationsComplete(xs: seq<nat>, q: seq<nat>)
    requires multiset(q) == multiset(xs)
    ensures q in Permutations(xs)
    decreases |xs|
  {
    if xs == [] {
      assert q == [];
    } else {
      assert |q| == |xs| by { assert |multiset(q)| == |multiset(xs)|; }
      assert q[0] in multiset(xs) by { assert q == [q[0]] + q[1..]; }
      var i :| 0 <= i < |xs| && xs[i] == q[0];
      MultisetWithout(xs, i);
      assert q == [q[0]] + q[1..];
      assert multiset(q[1..]) == multiset(q) - multiset{q[0]};
      assert multiset(Without(xs, i)) == multiset(xs) - multiset{xs[i]};
      PermutationsComplete(Without(xs, i), q[1..]);
      var perms := Permutations(Without(xs, i));
      var k :| 0 <= k < |perms| && perms[k] == q[1..];
      assert q == Prepend(xs[i], perms)[k];
      PermsFromHas(xs, 0, i, q);
    }
  }

  lemma {:induction false} PermsFromHas(xs: seq<nat>, j: nat, i: nat, q: seq<nat>)
    requires j <= i < |xs| && q in Prepend(xs[i], Permutations(Without(xs, i)))
    ensures q in PermsFrom(xs, j)
    decreases i - j
  {
    if j < i {
      PermsFromHas(xs, j + 1, i, q);
    }
  }

  /** The enumeration holds exactly the rearrangements of `xs`. */
  lemma {:induction false} PermutationsExactly(xs: seq<nat>, q: seq<nat>)
    ensures q in Permutations(xs) <==> multiset(q) == multiset(xs)
  {
    if q in Permutations(xs) {
      PermutationsSound(xs, q);
    }
    if multiset(q) == multiset(xs) {
      PermutationsComplete(xs, q);
    }
  }

  // ---------------------------------------------------------------------------
  // The order of the enumeration

  /** `a` comes before `b` in lexicographic order; a proper prefix comes first. */
  predicate LexBefore(a: seq<nat>, b: seq<nat>) {
    b != [] && (a == [] || a[0] < b[0] || (a[0] == b[0] && LexBefore(a[1..], b[1..])))
  }

  /** Every element is below every later one. */
  predicate Increasing(xs: seq<nat>) {
    forall i, j :: 0 <= i < j < |xs| ==> xs[i] < xs[j]
  }

  /** Every listed sequence comes before every later one. */
  predicate LexSorted(ps: seq<seq<nat>>) {
    forall i, j :: 0 <= i < j < |ps| ==> LexBefore(ps[i], ps[j])
  }

  /** Putting the same element in front keeps the order of a listing. */
  lemma PrependSorted(x: nat, ps: seq<seq<nat>>)
    requires LexSorted(ps)
    ensures LexSorted(Prepend(x, ps))
  {
    var r := Prepend(x, ps);
    forall i, j | 0 <= i < j < |r|
      ensures LexBefore(r[i], r[j])
    {
      assert r[i][1..] == ps[i] && r[j][1..] == ps[j];
    }
  }

  /** Two sorted listings, the first wholly before the second, are sorted together. */
  lemma SortedAppend(a: seq<seq<nat>>, b: seq<seq<nat>>)
    requires LexSorted(a) && LexSorted(b)
    requires forall i, j :: 0 <= i < |a| && 0 <= j < |b| ==> LexBefore(a[i], b[j])
    ensures LexSorted(a + b)
  {
    var c := a + b;
    forall i, j | 0 <= i < j < |c|
      ensures LexBefore(c[i], c[j])
    {
      if j < |a| {
        assert c[i] == a[i] && c[j] == a[j];
      } else if i < |a| {
        assert c[i] == a[i] && c[j] == b[j - |a|];
      } else {
        assert c[i] == b[i - |a|] && c[j] == b[j - |a|];
      }
    }
  }

  lemma WithoutIncreasing(xs: seq<nat>, i: nat)
    requires Increasing(xs) && i < |xs|
    ensures Increasing(Without(xs, i))
  {
    var w := Without(xs, i);
    forall a, b | 0 <= a < b < |w|
      ensures w[a] < w[b]
    {
      assert w[a] == if a < i then xs[a] else xs[a + 1];
      assert w[b] == if b < i then xs[b] else xs[b + 1];
    }
  }

  /** Every sequence listed from position i on starts with the element at some position k >= i. */
  lemma {:induction false} PermsFromHead(xs: seq<nat>, i: nat, q: seq<nat>) returns (k: nat)
    requires i <= |xs| && q in PermsFrom(xs, i)
    ensures i <= k < |xs| && q != [] && q[0] == xs[k]
    decreases |xs| - i
  {
    var head := Prepend(xs[i], Permutations(Without(xs, i)));
    if q in head {
      var r :| 0 <= r < |head| && head[r] == q;
      k := i;
    } else {
      k := PermsFromHead(xs, i + 1, q);
    }
  }

  /** The permutations of an increasing sequence come in increasing lexicographic order, as itertools documents. */
  lemma {:induction false} PermutationsSorted(xs: seq<nat>)
    requires Increasing(xs)
    ensures LexSorted(Permutations(xs))
    decreases |xs|, 1
  {
    if xs != [] {
      PermsFromSorted(xs, 0);
    }
  }

  lemma {:induction false} PermsFromSorted(xs: seq<nat>, i: nat)
    requires Increasing(xs) && i <= |xs|
    ensures LexSorted(PermsFrom(xs, i))
    decreases |xs|, 0, |xs| - i
  {
    if i < |xs| {
      var w := Without(xs, i);
      WithoutIncreasing(xs, i);
      PermutationsSorted(w);
      var head := Prepend(xs[i], Permutations(w));
      PrependSorted(xs[i], Permutations(w));
      PermsFromSorted(xs, i + 1);
      var tail := PermsFrom(xs, i + 1);
      forall a, b | 0 <= a < |head| && 0 <= b < |tail|
        ensures LexBefore(head[a], tail[b])
      {
        var k := PermsFromHead(xs, i + 1, tail[b]);
        assert head[a] == [xs[i]] + Permutations(w)[a];
      }
      SortedAppend(head, tail);
    }
  }

  /** Appending the same element to two sequences of one length keeps their order. */
  lemma {:induction false} AppendBefore(a: seq<nat>, b: seq<nat>, x: nat)
    requires LexBefore(a, b) && |a| == |b|
    ensures LexBefore(a + [x], b + [x])
  {
    assert (a + [x])[0] == a[0] && (b + [x])[0] == b[0];
    if a[0] == b[0] && LexBefore(a[1..], b[1..]) {
      AppendBefore(a[1..], b[1..], x);
      assert (a + [x])[1..] == a[1..] + [x] && (b + [x])[1..] == b[1..] + [x];
    }
  }

  /** Closing two candidates of one length at the origin keeps their order. */
  lemma CloseBefore(a: seq<nat>, b: seq<nat>)
    requires LexBefore(a, b) && |a| == |b|
    ensures LexBefore([0] + a + [0], [0] + b + [0])
  {
    AppendBefore(a, b, 0);
    assert ([0] + a + [0])[1..] == a + [0] && ([0] + b + [0])[1..] == b + [0];
  }

  // ---------------------------------------------------------------------------
  // Rearrangements of 1..N and tours

  /** The inner part of a tour of N coins is a rearrangement of 1..N. */
  lemma TourIsRearrangement(t: seq<nat>, n: nat)
    requires IsTour(t, n)
    ensures multiset(t[1..n + 1]) == multiset(CoinSeq(n))
  {
    CoinSeqElems(n);
    forall x
      ensures multiset(t[1..n + 1])[x] == multiset(CoinSeq(n))[x]
    {
      DistinctMultiset(t[1..n + 1], x);
      DistinctMultiset(CoinSeq(n), x);
    }
  }

  /** A rearrangement of 1..N closed at the origin is a tour. */
  lemma RearrangementIsTour(q: seq<nat>, n: nat)
    requires multiset(q) == multiset(CoinSeq(n))
    ensures IsTour([0] + q + [0], n)
  {
    CoinSeqElems(n);
    var t := [0] + q + [0];
    assert |q| == n by { assert |multiset(q)| == |multiset(CoinSeq(n))|; }
    assert t[1..n + 1] == q;
    forall x | x in q
      ensures multiset(q)[x] == 1
    {
      DistinctMultiset(CoinSeq(n), x);
    }
    forall x
      ensures x in Elems(q) <==> x in Coins(n)
    {
      assert x in q <==> x in multiset(q);
      assert x in CoinSeq(n) <==> x in multiset(CoinSeq(n));
    }
  }

  // ---------------------------------------------------------------------------
  // The agent

  /** The candidates Jocke enumerates for an N-coin matrix. */
  function Candidates(m: Matrix): seq<seq<nat>>
    requires IsMatrix(m)
  {
    Permutations(CoinSeq(|m| - 1))
  }

  lemma CandidateInRange(m: Matrix, q: seq<nat>)
    requires IsMatrix(m) && q in Candidates(m)
    ensures InRange(m, q) && IsTour([0] + q + [0], |m| - 1)
  {
    PermutationsSound(CoinSeq(|m| - 1), q);
    RearrangementIsTour(q, |m| - 1);
    var t := [0] + q + [0];
    TourInRange(t, |m| - 1);
    forall k | 0 <= k < |q|
      ensures q[k] < |m|
    {
      assert q[k] == t[k + 1];
    }
  }

  /** The loop `for curr in perm: cost += coin_distance[prev][curr]` followed by the return leg. */
  method CostOf(m: Matrix, perm: seq<nat>) returns (cost: nat)
    requires IsMatrix(m) && InRange(m, perm)
    ensures InRange(m, [0] + perm + [0]) && cost == PathCost(m, [0] + perm + [0])
  {
    cost := 0;
    var prev := 0;
    var j := 0;
    while j < |perm|
      invariant 0 <= j <= |perm| && InRange(m, [0] + perm[..j])
      invariant prev == ([0] + perm[..j])[j] && cost == PathCost(m, [0] + perm[..j])
    {
      var curr := perm[j];
      PathCostAppend(m, [0] + perm[..j], curr);
      assert [0] + perm[..j + 1] == ([0] + perm[..j]) + [curr];
      cost := cost + m[prev][curr];
      prev := curr;
      j := j + 1;
    }
    assert [0] + perm[..j] == [0] + perm;
    PathCostAppend(m, [0] + perm, 0);
    cost := cost + m[prev][0];
  }

  /** Jocke's loop invariant after the first p candidates: `best` indexes the first least-cost one. */
  ghost predicate JockeInv(m: Matrix, p: nat, best: nat, path: seq<nat>, minCost: nat)
    requires IsMatrix(m) && p <= |Candidates(m)|
  {
    var perms := Candidates(m);
    && (p == 0 ==> path == [])
    && (p > 0 ==>
          && best < p && path == perms[best]
          && (CandidateInRange(m, path); minCost == TourCost(m, [0] + path + [0]))
          && (forall j :: 0 <= j < p ==> (CandidateInRange(m, perms[j]); minCost <= TourCost(m, [0] + perms[j] + [0])))
          && (forall j :: 0 <= j < best ==> (CandidateInRange(m, perms[j]); minCost < TourCost(m, [0] + perms[j] + [0]))))
  }

  /** `Jocke.get_agent_path(coin_distance)`. */
  method Jocke(m: Matrix) returns (tour: seq<nat>)
    requires IsMatrix(m)
    ensures IsTour(tour, Size(m)) && InRange(m, tour)
    ensures Size(m) == 0 ==> tour == [0, 0]
    ensures forall t :: IsTour(t, Size(m)) ==> PathCost(m, tour) <= TourCost(m, t)
    ensures exists best :: 0 <= best < |Candidates(m)| && tour == [0] + Candidates(m)[best] + [0]
              && forall j :: 0 <= j < best ==> (CandidateInRange(m, Candidates(m)[j]); TourCost(m, [0] + Candidates(m)[j] + [0]) > PathCost(m, tour))
    ensures forall t :: IsTour(t, Size(m)) && TourCost(m, t) == PathCost(m, tour) ==> t == tour || LexBefore(tour, t)
  {
    var perms := Permutations(CoinSeq(|m| - 1));
    var minCost := 0;
    var path: seq<nat> := [];
    ghost var best := 0;
    var p := 0;
    while p < |perms|
      invariant p <= |perms| && JockeInv(m, p, best, path, minCost)
    {
      var perm := perms[p];
      CandidateInRange(m, perm);
      var cost := CostOf(m, perm);
      if |path| == 0 || cost < minCost {
        JockeTake(m, p, best, path, minCost, cost);
        minCost := cost;
        path := perm;
        best := p;
      } else {
        JockeKeep(m, p, best, path, minCost, cost);
      }
      p := p + 1;
    }
    JockeDone(m, best, path, minCost);
    JockeLexFirst(m, best, path);
    tour := [0] + path + [0];
  }

  lemma JockeTake(m: Matrix, p: nat, best: nat, path: seq<nat>, minCost: nat, cost: nat)
    requires IsMatrix(m) && p < |Candidates(m)| && JockeInv(m, p, best, path, minCost)
    requires (CandidateInRange(m, Candidates(m)[p]); cost == TourCost(m, [0] + Candidates(m)[p] + [0]))
    requires |path| == 0 || cost < minCost
    ensures JockeInv(m, p + 1, p, Candidates(m)[p], cost)
  {
    var perms := Candidates(m);
    if p > 0 {
      CandidateInRange(m, path);
      CandidateInRange(m, perms[0]);
      if |path| == 0 {
        CoinSeqLength(m, path);
        assert false;
      }
    }
  }

  lemma JockeKeep(m: Matrix, p: nat, best: nat, path: seq<nat>, minCost: nat, cost: nat)
    requires IsMatrix(m) && p < |Candidates(m)| && JockeInv(m, p, best, path, minCost)
    requires (CandidateInRange(m, Candidates(m)[p]); cost == TourCost(m, [0] + Candidates(m)[p] + [0]))
    requires !(|path| == 0 || cost < minCost)
    ensures JockeInv(m, p + 1, best, path, minCost)
  {
  }

  /** Every candidate has N coins; with no coins there is exactly one, the empty one. */
  lemma CoinSeqLength(m: Matrix, q: seq<nat>)
    requires IsMatrix(m) && q in Candidates(m)
    ensures |q| == |m| - 1 && (|m| == 1 ==> Candidates(m) == [[]])
  {
    PermutationsSound(CoinSeq(|m| - 1), q);
    assert |multiset(q)| == |multiset(CoinSeq(|m| - 1))|;
  }

  /** Every tour is some candidate closed at the origin. */
  lemma TourIsCandidate(m: Matrix, t: seq<nat>) returns (q: seq<nat>)
    requires IsMatrix(m) && IsTour(t, |m| - 1)
    ensures q in Candidates(m) && t == [0] + q + [0]
  {
    var n := |m| - 1;
    q := t[1..n + 1];
    TourIsRearrangement(t, n);
    PermutationsComplete(CoinSeq(n), q);
    assert t == [0] + q + [0];
  }

  /** A cost no candidate undercuts is a cost no tour undercuts. */
  lemma {:induction false} LeastOverAllTours(m: Matrix, minCost: nat)
    requires IsMatrix(m)
    requires forall j :: 0 <= j < |Candidates(m)| ==> (CandidateInRange(m, Candidates(m)[j]); minCost <= TourCost(m, [0] + Candidates(m)[j] + [0]))
    ensures forall t :: IsTour(t, Size(m)) ==> minCost <= TourCost(m, t)
  {
    forall t | IsTour(t, Size(m))
      ensures minCost <= TourCost(m, t)
    {
      var q := TourIsCandidate(m, t);
      var j :| 0 <= j < |Candidates(m)| && Candidates(m)[j] == q;
      CandidateInRange(m, q);
    }
  }

  lemma {:induction false} JockeDone(m: Matrix, best: nat, path: seq<nat>, minCost: nat)
    requires IsMatrix(m) && JockeInv(m, |Candidates(m)|, best, path, minCost)
    ensures var tour := [0] + path + [0];
      && IsTour(tour, Size(m)) && InRange(m, tour)
      && (forall t :: IsTour(t, Size(m)) ==> PathCost(m, tour) <= TourCost(m, t))
      && 0 <= best < |Candidates(m)| && path == Candidates(m)[best]
      && forall j :: 0 <= j < best ==> (CandidateInRange(m, Candidates(m)[j]); TourCost(m, [0] + Candidates(m)[j] + [0]) > PathCost(m, tour))
  {
    var n := |m| - 1;
    PermutationsComplete(CoinSeq(n), CoinSeq(n));
    assert CoinSeq(n) in Candidates(m);
    CandidateInRange(m, path);
    TourInRange([0] + path + [0], n);
    LeastOverAllTours(m, minCost);
  }

  /**
    The earliest least-cost candidate is the lexicographically least
    least-cost tour: a tour of the same cost is that tour or comes after it.
   */
  lemma {:induction false} JockeLexFirst(m: Matrix, best: nat, path: seq<nat>)
    requires IsMatrix(m) && best < |Candidates(m)| && path == Candidates(m)[best]
    requires IsTour([0] + path + [0], Size(m)) && InRange(m, [0] + path + [0])
    requires forall j :: 0 <= j < best ==> (CandidateInRange(m, Candidates(m)[j]); TourCost(m, [0] + Candidates(m)[j] + [0]) > PathCost(m, [0] + path + [0]))
    ensures forall t :: IsTour(t, Size(m)) && TourCost(m, t) == PathCost(m, [0] + path + [0]) ==> t == [0] + path + [0] || LexBefore([0] + path + [0], t)
  {
    var n := Size(m);
    var perms := Candidates(m);
    PermutationsSorted(CoinSeq(n));
    forall t | IsTour(t, n) && TourCost(m, t) == PathCost(m, [0] + path + [0])
      ensures t == [0] + path + [0] || LexBefore([0] + path + [0], t)
    {
      var q := TourIsCandidate(m, t);
      var j :| 0 <= j < |perms| && perms[j] == q;
      CandidateInRange(m, q);
      if j > best {
        CoinSeqLength(m, q);
        CoinSeqLength(m, path);
        CloseBefore(path, q);
      }
    }
  }
}
