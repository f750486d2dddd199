/**
  The MST bound never overestimates on a symmetric matrix.

  The bound is the cost of the tree eager Prim grows. Any set of paths
  starting in the current tree and visiting every remaining node exactly
  once costs at least as much: Prim's least pair (u, v) leaving the tree is
  no dearer than the first edge of the path through v, and on a symmetric
  matrix that path can be cut at v and its first part turned around to start
  at v, losing exactly that first edge. The rest of a tour after any prefix
  is such a path, so the bound is admissible.
 */
module MstLowerBound {
  import opened Tours
  import opened Mst

  /** Travelling i to j costs what j to i costs. */
  predicate Symmetric(m: Matrix)
    requires IsMatrix(m)
  {
    forall i, j :: 0 <= i < |m| && 0 <= j < |m| ==> m[i][j] == m[j][i]
  }

  /** The reversal of a path: its last id first, then the reversal of the rest. */
  function Reverse(q: seq<nat>): (r: seq<nat>)
    ensures |r| == |q|
  {
    if q == [] then [] else [q[|q| - 1]] + Reverse(q[..|q| - 1])
  }

  /** A path without its first id, the one it starts from. */
  function Tail(p: seq<nat>): seq<nat> {
    if p == [] then [] else p[1..]
  }

  /** The ids the paths visit after their starting ids, path after path. */
  function Tails(ps: seq<seq<nat>>): seq<nat> {
    if ps == [] then [] else Tail(ps[0]) + Tails(ps[1..])
  }

  /** Every path indexes the matrix. */
  predicate AllInRange(m: Matrix, ps: seq<seq<nat>>) {
    forall k :: 0 <= k < |ps| ==> InRange(m, ps[k])
  }

  /** Every path is non-empty, starts in `tree` and indexes the matrix. */
  predicate Rooted(m: Matrix, tree: set<nat>, ps: seq<seq<nat>>) {
    && AllInRange(m, ps)
    && forall k :: 0 <= k < |ps| ==> ps[k] != [] && ps[k][0] in tree
  }

  /** The summed cost of the paths. */
  function SumCost(m: Matrix, ps: seq<seq<nat>>): nat
    requires IsMatrix(m) && AllInRange(m, ps)
  {
    if ps == [] then 0 else PathCost(m, ps[0]) + SumCost(m, ps[1..])
  }

  // ---------------------------------------------------------------------------
  // Paths

  /** Cutting a path at position i: the two parts share the id at i and their costs add up. */
  lemma {:induction false} PathCostSplit(m: Matrix, p: seq<nat>, i: nat)
    requires IsMatrix(m) && InRange(m, p) && i < |p|
    ensures InRange(m, p[..i + 1]) && InRange(m, p[i..])
    ensures PathCost(m, p) == PathCost(m, p[..i + 1]) + PathCost(m, p[i..])
    decreases |p|
  {
    assert InRange(m, p[i..]) by {
      forall k | 0 <= k < |p[i..]|
        ensures p[i..][k] < |m|
      {
        assert p[i..][k] == p[i + k];
      }
    }
    if i == |p| - 1 {
      assert p[..i + 1] == p;
    } else {
      var init := p[..|p| - 1];
      PathCostSplit(m, init, i);
      assert init[..i + 1] == p[..i + 1];
      var s := p[i..];
      assert s[..|s| - 1] == init[i..];
      assert s[|s| - 2] == p[|p| - 2] && s[|s| - 1] == p[|p| - 1];
    }
  }

  /** The cost of a path is its first edge plus the cost of the rest. */
  lemma {:induction false} FirstEdge(m: Matrix, p: seq<nat>)
    requires IsMatrix(m) && InRange(m, p) && |p| >= 2
    ensures InRange(m, p[1..]) && PathCost(m, p) == m[p[0]][p[1]] + PathCost(m, p[1..])
  {
    PathCostSplit(m, p, 1);
    assert p[..2][..1] == [p[0]];
  }

  /** Reversal keeps the ids of a path. */
  lemma {:induction false} ReverseMultiset(q: seq<nat>)
    ensures multiset(Reverse(q)) == multiset(q)
  {
    if q != [] {
      var init := q[..|q| - 1];
      ReverseMultiset(init);
      assert q == init + [q[|q| - 1]];
    }
  }

  /** A slice of a path within the matrix is within the matrix. */
  lemma {:induction false} SliceInRange(m: Matrix, p: seq<nat>, i: nat, j: nat)
    requires InRange(m, p) && i <= j <= |p|
    ensures InRange(m, p[i..j])
  {
    forall k | 0 <= k < j - i
      ensures p[i..j][k] < |m|
    {
      assert p[i..j][k] == p[i + k];
    }
  }

  /** Reversal keeps a path within the matrix. */
  lemma {:induction false} ReverseInRange(m: Matrix, q: seq<nat>)
    requires InRange(m, q)
    ensures InRange(m, Reverse(q))
  {
    ReverseMultiset(q);
    var r := Reverse(q);
    forall k | 0 <= k < |r|
      ensures r[k] < |m|
    {
      assert r[k] in multiset(q);
    }
  }

  /** On a symmetric matrix a path costs what its reversal costs. */
  lemma {:induction false} ReverseCost(m: Matrix, q: seq<nat>)
    requires IsMatrix(m) && Symmetric(m) && InRange(m, q)
    ensures InRange(m, Reverse(q)) && PathCost(m, Reverse(q)) == PathCost(m, q)
  {
    if q != [] {
      var init, x := q[..|q| - 1], q[|q| - 1];
      assert InRange(m, init);
      ReverseCost(m, init);
      var r := Reverse(q);
      assert r == [x] + Reverse(init);
      assert InRange(m, r) by {
        forall k | 0 <= k < |r|
          ensures r[k] < |m|
        {
          if k > 0 {
            assert r[k] == Reverse(init)[k - 1];
          }
        }
      }
      if init != [] {
        assert Reverse(init)[0] == init[|init| - 1] == q[|q| - 2];
        FirstEdge(m, r);
        assert r[1..] == Reverse(init);
      }
    }
  }

  // ---------------------------------------------------------------------------
  // Sets of paths

  lemma {:induction false} TailsAppend(x: seq<seq<nat>>, y: seq<seq<nat>>)
    ensures Tails(x + y) == Tails(x) + Tails(y)
  {
    if x == [] {
      assert x + y == y;
    } else {
      var xy := x + y;
      assert xy[0] == x[0] && xy[1..] == x[1..] + y;
      TailsAppend(x[1..], y);
      calc {
        Tails(xy);
        Tail(x[0]) + Tails(x[1..] + y);
        Tail(x[0]) + (Tails(x[1..]) + Tails(y));
        (Tail(x[0]) + Tails(x[1..])) + Tails(y);
      }
    }
  }

  lemma {:induction false} SumCostAppend(m: Matrix, x: seq<seq<nat>>, y: seq<seq<nat>>)
    requires IsMatrix(m)
    requires AllInRange(m, x) && AllInRange(m, y)
    ensures AllInRange(m, x + y)
    ensures SumCost(m, x + y) == SumCost(m, x) + SumCost(m, y)
  {
    assert forall k :: 0 <= k < |x + y| ==> (x + y)[k] == if k < |x| then x[k] else y[k - |x|];
    if x == [] {
      assert x + y == y;
    } else {
      SumCostAppend(m, x[1..], y);
      assert (x + y)[0] == x[0] && (x + y)[1..] == x[1..] + y;
    }
  }

  /** An id the paths visit sits at some position after the start of some path. */
  lemma {:induction false} InTails(ps: seq<seq<nat>>, x: nat) returns (k: nat, i: nat)
    requires x in Tails(ps)
    ensures k < |ps| && 1 <= i < |ps[k]| && ps[k][i] == x
  {
    if x in Tail(ps[0]) {
      k := 0;
      var j :| 0 <= j < |Tail(ps[0])| && Tail(ps[0])[j] == x;
      i := j + 1;
    } else {
      var k', i' := InTails(ps[1..], x);
      k, i := k' + 1, i';
    }
  }

  /**
    Path P = [r, c1, ..., cq] with v = P[i] (i >= 1) is cut into [v, c(i-1), ..., c1]
    and [v, c(i+1), ..., cq]: both start at v and they visit what P visited except v.
   */
  lemma {:induction false} CutTails(p: seq<nat>, i: nat)
    requires 1 <= i < |p|
    ensures Reverse(p[1..i + 1]) != [] && Reverse(p[1..i + 1])[0] == p[i]
    ensures p[i..] != [] && p[i..][0] == p[i]
    ensures multiset(Tail(Reverse(p[1..i + 1]))) + multiset(Tail(p[i..])) + multiset{p[i]} == multiset(Tail(p))
  {
    var q := p[1..i + 1];
    assert q[..|q| - 1] == p[1..i] && q[|q| - 1] == p[i];
    assert Tail(Reverse(q)) == Reverse(p[1..i]);
    ReverseMultiset(p[1..i]);
    assert Tail(p[i..]) == p[i + 1..];
    assert Tail(p) == p[1..i] + [p[i]] + p[i + 1..];
  }

  /** On a symmetric matrix the two parts of the cut cost P's cost minus its first edge. */
  lemma {:induction false} CutCost(m: Matrix, p: seq<nat>, i: nat)
    requires IsMatrix(m) && Symmetric(m) && InRange(m, p) && 1 <= i < |p|
    ensures InRange(m, Reverse(p[1..i + 1])) && InRange(m, p[i..])
    ensures PathCost(m, p) == m[p[0]][p[1]] + PathCost(m, Reverse(p[1..i + 1])) + PathCost(m, p[i..])
  {
    PathCostSplit(m, p, i);
    var pre := p[..i + 1];
    FirstEdge(m, pre);
    assert pre[1..] == p[1..i + 1];
    ReverseCost(m, p[1..i + 1]);
  }

  /**
    Eager Prim from `tree` over `left` costs at most any set of paths that
    start in the tree and visit every node of `left` exactly once.
   */
  lemma {:induction false} PrimBelowPaths(m: Matrix, tree: set<nat>, left: set<nat>, ps: seq<seq<nat>>)
    requires IsMatrix(m) && Symmetric(m) && NodesIn(m, tree) && NodesIn(m, left) && tree != {}
    requires Rooted(m, tree, ps) && multiset(Tails(ps)) == multiset(left)
    ensures PrimFrom(m, tree, left) <= SumCost(m, ps)
    decreases |left|
  {
    if left != {} {
      EdgesNonEmpty(m, tree, left);
      var e := MinEdge(Edges(m, tree, left));
      EdgesIff(m, tree, left, e);
      var ps', cross := CutThrough(m, tree, left, ps, e.node);
      assert EdgeLe(e, cross);
      PrimBelowPaths(m, tree + {e.node}, left - {e.node}, ps');
    }
  }

  /** The paths with `ps[k]` replaced by the two parts of its cut at position i. */
  function Regroup(ps: seq<seq<nat>>, k: nat, i: nat): seq<seq<nat>>
    requires k < |ps| && 1 <= i < |ps[k]|
  {
    ps[..k] + ps[k + 1..] + [Reverse(ps[k][1..i + 1]), ps[k][i..]]
  }

  /**
    Cutting the path through v (a node of `left`) at v gives paths rooted in
    the tree grown by v that visit the rest of `left`; the cut loses the
    first edge of that path, which leads from the tree into `left`.
   */
  lemma {:induction false} CutThrough(m: Matrix, tree: set<nat>, left: set<nat>, ps: seq<seq<nat>>, v: nat)
    returns (ps': seq<seq<nat>>, cross: Edge)
    requires IsMatrix(m) && Symmetric(m) && NodesIn(m, tree) && NodesIn(m, left) && v in left
    requires Rooted(m, tree, ps) && multiset(Tails(ps)) == multiset(left)
    ensures Rooted(m, tree + {v}, ps') && multiset(Tails(ps')) == multiset(left - {v})
    ensures cross in Edges(m, tree, left) && SumCost(m, ps') + cross.cost == SumCost(m, ps)
  {
    var k, i := Locate(ps, left, v);
    var p := ps[k];
    cross := Edge(m[p[0]][p[1]], p[1]);
    EdgesIff(m, tree, left, cross);
    ps' := Regroup(ps, k, i);
    RegroupCovers(m, tree, left, ps, k, i);
    RegroupCost(m, ps, k, i);
  }

  /** The path through v, the position of v on it, and the second id of that path, which is in `left`. */
  lemma {:induction false} Locate(ps: seq<seq<nat>>, left: set<nat>, v: nat) returns (k: nat, i: nat)
    requires multiset(Tails(ps)) == multiset(left) && v in left
    ensures k < |ps| && 1 <= i < |ps[k]| && ps[k][i] == v && ps[k][1] in left
  {
    assert v in multiset(Tails(ps));
    k, i := InTails(ps, v);
    var p := ps[k];
    TailsAround(ps, k);
    assert p[1] in Tail(p);
    assert p[1] in multiset(Tails(ps));
  }

  /** The regrouped paths are rooted in the tree grown by the cut id and visit the rest of `left`. */
  lemma {:induction false} RegroupCovers(m: Matrix, tree: set<nat>, left: set<nat>, ps: seq<seq<nat>>, k: nat, i: nat)
    requires Rooted(m, tree, ps) && multiset(Tails(ps)) == multiset(left)
    requires k < |ps| && 1 <= i < |ps[k]| && ps[k][i] in left
    ensures Rooted(m, tree + {ps[k][i]}, Regroup(ps, k, i))
    ensures multiset(Tails(Regroup(ps, k, i))) == multiset(left - {ps[k][i]})
  {
    RegroupRootedAt(m, tree, ps, k, i);
    RegroupTailsAt(left, ps, k, i);
  }

  /** Both parts of the cut start at the cut id, so the regrouped paths are rooted in the grown tree. */
  lemma {:induction false} RegroupRootedAt(m: Matrix, tree: set<nat>, ps: seq<seq<nat>>, k: nat, i: nat)
    requires Rooted(m, tree, ps) && k < |ps| && 1 <= i < |ps[k]|
    ensures Rooted(m, tree + {ps[k][i]}, Regroup(ps, k, i))
  {
    var p := ps[k];
    CutTails(p, i);
    SliceInRange(m, p, 1, i + 1);
    ReverseInRange(m, p[1..i + 1]);
    SliceInRange(m, p, i, |p|);
    assert p[i..|p|] == p[i..];
    RegroupRooted(m, tree, p[i], ps, k, Reverse(p[1..i + 1]), p[i..]);
  }

  /** The regrouped paths visit what the paths visited, except the cut id. */
  lemma {:induction false} RegroupTailsAt(left: set<nat>, ps: seq<seq<nat>>, k: nat, i: nat)
    requires multiset(Tails(ps)) == multiset(left) && k < |ps| && 1 <= i < |ps[k]| && ps[k][i] in left
    ensures multiset(Tails(Regroup(ps, k, i))) == multiset(left - {ps[k][i]})
  {
    var p, v := ps[k], ps[k][i];
    CutTails(p, i);
    var ps' := Regroup(ps, k, i);
    RegroupTails(v, ps, k, Reverse(p[1..i + 1]), p[i..], ps');
    SetMinusOne(left, v);
    MultisetCancel(multiset(Tails(ps')), multiset(left - {v}), v);
  }

  lemma {:induction false} SetMinusOne(s: set<nat>, v: nat)
    requires v in s
    ensures multiset(s - {v}) + multiset{v} == multiset(s)
  {
    assert s == (s - {v}) + {v};
  }

  lemma {:induction false} MultisetCancel(x: multiset<nat>, y: multiset<nat>, v: nat)
    requires x + multiset{v} == y + multiset{v}
    ensures x == y
  {
    forall z
      ensures x[z] == y[z]
    {
      assert (x + multiset{v})[z] == (y + multiset{v})[z];
    }
  }

  /** Regrouping: p replaced by its two parts, which start at v, keeps every path rooted in the grown tree. */
  lemma {:induction false} RegroupRooted(m: Matrix, tree: set<nat>, v: nat, ps: seq<seq<nat>>, k: nat, a: seq<nat>, b: seq<nat>)
    requires Rooted(m, tree, ps) && k < |ps|
    requires a != [] && a[0] == v && b != [] && b[0] == v && InRange(m, a) && InRange(m, b)
    ensures Rooted(m, tree + {v}, ps[..k] + ps[k + 1..] + [a, b])
  {
    var ps' := ps[..k] + ps[k + 1..] + [a, b];
    forall j | 0 <= j < |ps'|
      ensures ps'[j] != [] && ps'[j][0] in tree + {v} && InRange(m, ps'[j])
    {
      if j < k {
        assert ps'[j] == ps[j];
      } else if j < |ps| - 1 {
        assert ps'[j] == ps[j + 1];
      } else {
        assert ps'[j] == a || ps'[j] == b;
      }
    }
  }

  /** The visited ids of the paths around position k. */
  lemma {:induction false} TailsAround(ps: seq<seq<nat>>, k: nat)
    requires k < |ps|
    ensures Tails(ps) == Tails(ps[..k]) + Tail(ps[k]) + Tails(ps[k + 1..])
  {
    var pre, r := ps[..k], ps[k..];
    assert pre + r == ps;
    TailsAppend(pre, r);
    assert r[0] == ps[k] && r[1..] == ps[k + 1..];
    assert Tails(r) == Tail(ps[k]) + Tails(ps[k + 1..]);
  }

  /** The visited ids of the regrouped paths. */
  lemma {:induction false} TailsRegrouped(pre: seq<seq<nat>>, post: seq<seq<nat>>, a: seq<nat>, b: seq<nat>)
    ensures Tails(pre + post + [a, b]) == Tails(pre) + Tails(post) + (Tail(a) + Tail(b))
  {
    var two: seq<seq<nat>> := [a, b];
    var one: seq<seq<nat>> := [b];
    TailsAppend(pre + post, two);
    TailsAppend(pre, post);
    assert two[0] == a && two[1..] == one;
    assert one[0] == b && one[1..] == [];
    assert Tails(one) == Tail(b);
    assert Tails(two) == Tail(a) + Tails(one);
  }

  /** Regrouping keeps the visited ids, minus v. */
  lemma {:induction false} RegroupTails(v: nat, ps: seq<seq<nat>>, k: nat, a: seq<nat>, b: seq<nat>, ps': seq<seq<nat>>)
    requires k < |ps| && ps' == ps[..k] + ps[k + 1..] + [a, b]
    requires multiset(Tail(a)) + multiset(Tail(b)) + multiset{v} == multiset(Tail(ps[k]))
    ensures multiset(Tails(ps')) + multiset{v} == multiset(Tails(ps))
  {
    TailsAround(ps, k);
    TailsRegrouped(ps[..k], ps[k + 1..], a, b);
    var tp, tq := Tails(ps[..k]), Tails(ps[k + 1..]);
    assert multiset(Tails(ps)) == multiset(tp) + multiset(Tail(ps[k])) + multiset(tq);
    assert multiset(Tails(ps')) == multiset(tp) + multiset(tq) + (multiset(Tail(a)) + multiset(Tail(b)));
  }

  /** The summed cost of the paths around position k. */
  lemma {:induction false} SumCostAround(m: Matrix, ps: seq<seq<nat>>, k: nat)
    requires IsMatrix(m) && AllInRange(m, ps) && k < |ps|
    ensures AllInRange(m, ps[..k]) && AllInRange(m, ps[k + 1..])
    ensures SumCost(m, ps) == SumCost(m, ps[..k]) + PathCost(m, ps[k]) + SumCost(m, ps[k + 1..])
  {
    assert AllInRange(m, ps[..k]) by {
      forall j | 0 <= j < k
        ensures InRange(m, ps[..k][j])
      {
        assert ps[..k][j] == ps[j];
      }
    }
    assert AllInRange(m, ps[k + 1..]) by {
      var q := ps[k + 1..];
      forall j | 0 <= j < |q|
        ensures InRange(m, q[j])
      {
        assert q[j] == ps[k + 1 + j];
      }
    }
    if k == 0 {
      assert ps[..0] == [] && ps[1..] == ps[k + 1..];
    } else {
      var rest := ps[1..];
      assert AllInRange(m, rest) by {
        forall j | 0 <= j < |rest|
          ensures InRange(m, rest[j])
        {
          assert rest[j] == ps[j + 1];
        }
      }
      SumCostAround(m, rest, k - 1);
      assert rest[k - 1] == ps[k];
      assert rest[k..] == ps[k + 1..];
      assert ps[..k][0] == ps[0] && ps[..k][1..] == rest[..k - 1];
    }
  }

  /** The summed cost of the regrouped paths. */
  lemma {:induction false} SumCostRegrouped(m: Matrix, pre: seq<seq<nat>>, post: seq<seq<nat>>, a: seq<nat>, b: seq<nat>)
    requires IsMatrix(m) && AllInRange(m, pre) && AllInRange(m, post) && InRange(m, a) && InRange(m, b)
    ensures AllInRange(m, pre + post + [a, b])
    ensures SumCost(m, pre + post + [a, b]) == SumCost(m, pre) + SumCost(m, post) + PathCost(m, a) + PathCost(m, b)
  {
    var two: seq<seq<nat>> := [a, b];
    var one: seq<seq<nat>> := [b];
    assert AllInRange(m, two);
    SumCostAppend(m, pre, post);
    SumCostAppend(m, pre + post, two);
    assert two[0] == a && two[1..] == one;
    assert one[0] == b && one[1..] == [];
    assert SumCost(m, one) == PathCost(m, b);
    assert SumCost(m, two) == PathCost(m, a) + SumCost(m, one);
  }

  /** On a symmetric matrix, regrouping loses exactly the first edge of the cut path. */
  lemma {:induction false} RegroupCost(m: Matrix, ps: seq<seq<nat>>, k: nat, i: nat)
    requires IsMatrix(m) && Symmetric(m) && AllInRange(m, ps) && k < |ps| && 1 <= i < |ps[k]|
    ensures AllInRange(m, Regroup(ps, k, i))
    ensures SumCost(m, Regroup(ps, k, i)) + m[ps[k][0]][ps[k][1]] == SumCost(m, ps)
  {
    var p := ps[k];
    CutCost(m, p, i);
    SumCostAround(m, ps, k);
    SumCostRegrouped(m, ps[..k], ps[k + 1..], Reverse(p[1..i + 1]), p[i..]);
  }

  // ---------------------------------------------------------------------------
  // The rest of a tour

  /** A sequence without repeats holds each of its ids once. */
  lemma {:induction false} DistinctSet(q: seq<nat>)
    requires Distinct(q)
    ensures multiset(q) == multiset(Elems(q))
  {
    forall x
      ensures multiset(q)[x] == multiset(Elems(q))[x]
    {
      DistinctMultiset(q, x);
    }
  }

  /** The part of a sequence without repeats after position i holds exactly the ids not before i. */
  lemma {:induction false} DistinctRest(q: seq<nat>, i: nat)
    requires Distinct(q) && i <= |q|
    ensures Distinct(q[i..]) && Elems(q[i..]) == Elems(q) - Elems(q[..i])
  {
    assert q == q[..i] + q[i..];
    assert multiset(q) == multiset(q[..i]) + multiset(q[i..]);
    forall x | x in q[i..]
      ensures multiset(q[i..])[x] == 1 && x !in q[..i]
    {
      assert x in q;
    }
  }

  /** Prim from the start of one path over the ids the path visits after it costs at most the path. */
  lemma {:induction false} PrimBelowPath(m: Matrix, p: seq<nat>, left: set<nat>)
    requires IsMatrix(m) && Symmetric(m) && InRange(m, p) && p != [] && NodesIn(m, left)
    requires multiset(Tail(p)) == multiset(left)
    ensures PrimFrom(m, {p[0]}, left) <= PathCost(m, p)
  {
    var ps: seq<seq<nat>> := [p];
    assert ps[1..] == [];
    assert Tails(ps) == Tail(p);
    assert SumCost(m, ps) == PathCost(m, p);
    PrimBelowPaths(m, {p[0]}, left, ps);
  }

  /** The bound of the start entry is at most the cost of any tour. */
  lemma {:induction false} MstBelowTour(m: Matrix, t: seq<nat>)
    requires IsMatrix(m) && Symmetric(m) && IsTour(t, Size(m))
    ensures InRange(m, t) && MstBound(m, Coins(Size(m)), 0) <= PathCost(m, t)
  {
    var n := Size(m);
    TourInRange(t, n);
    var q, p := t[1..n + 1], t[..n + 1];
    assert Tail(p) == q;
    DistinctSet(q);
    PathCostPrefix(m, t, n + 1);
    PrimBelowPath(m, p, Coins(n));
    assert Coins(n) + {0, 0} - {0} == Coins(n);
  }

  /** After its first j ids, a tour visits each coin it has not visited yet once. */
  lemma {:induction false} RestAfter(t: seq<nat>, n: nat, j: nat)
    requires IsTour(t, n) && 2 <= j <= n + 1
    ensures t[j - 1] in Coins(n) && t[j - 1] in Elems(t[1..j])
    ensures Distinct(t[j..n + 1]) && Elems(t[j..n + 1]) == Coins(n) - Elems(t[1..j])
  {
    var q := t[1..n + 1];
    assert q[..j - 1] == t[1..j] && q[j - 1..] == t[j..n + 1];
    assert t[j - 1] == q[j - 2];
    DistinctRest(q, j - 1);
  }

  /** After its first j ids, a tour visits exactly the coins it has not visited yet, then the origin. */
  lemma {:induction false} RestCovers(t: seq<nat>, n: nat, j: nat)
    requires IsTour(t, n) && 2 <= j <= n + 1
    ensures t[j - 1] in Coins(n) && t[j - 1] in Elems(t[1..j])
    ensures multiset(Tail(t[j - 1..])) == multiset((Coins(n) - Elems(t[1..j])) + {0})
  {
    RestAfter(t, n, j);
    var after := t[j..n + 1];
    assert Tail(t[j - 1..]) == after + [0];
    CloseRest(after, Coins(n) - Elems(t[1..j]));
  }

  /** A sequence holding each id of `u` once, then the origin, which `u` lacks, holds `u` and the origin once each. */
  lemma {:induction false} CloseRest(q: seq<nat>, u: set<nat>)
    requires Distinct(q) && Elems(q) == u && 0 !in u
    ensures multiset(q + [0]) == multiset(u + {0})
  {
    AppendFresh(q, 0);
    DistinctSet(q + [0]);
  }

  /** The bound of an entry whose last id starts a path over its unvisited coins and the origin is at most that path. */
  lemma {:induction false} BoundBelowPath(m: Matrix, p: seq<nat>, u: set<nat>)
    requires IsMatrix(m) && Symmetric(m) && InRange(m, p) && p != [] && NodesIn(m, u)
    requires p[0] != 0 && p[0] !in u
    requires multiset(Tail(p)) == multiset(u + {0})
    ensures MstBound(m, u, p[0]) <= PathCost(m, p)
  {
    assert u + {0, p[0]} - {p[0]} == u + {0};
    PrimBelowPath(m, p, u + {0});
  }

  /** A tour without its first j ids is a path within the matrix. */
  lemma {:induction false} SuffixInRange(m: Matrix, t: seq<nat>, j: nat)
    requires IsMatrix(m) && IsTour(t, Size(m)) && 1 <= j <= |m|
    ensures InRange(m, t) && InRange(m, t[j - 1..])
  {
    TourInRange(t, Size(m));
    var rest := t[j - 1..];
    forall k | 0 <= k < |rest|
      ensures rest[k] < |m|
    {
      assert rest[k] == t[j - 1 + k];
    }
  }

  /** For 2 <= j, the bound of the entry for the first j ids of a tour is at most the cost of the rest of the tour. */
  lemma {:induction false} MstBelowSuffix(m: Matrix, t: seq<nat>, j: nat)
    requires IsMatrix(m) && Symmetric(m) && IsTour(t, Size(m)) && 2 <= j <= |m|
    ensures InRange(m, t) && InRange(m, t[j - 1..]) && NodesIn(m, Unvisited(Size(m), t[..j]))
    ensures MstBound(m, Unvisited(Size(m), t[..j]), t[j - 1]) <= PathCost(m, t[j - 1..])
  {
    SuffixInRange(m, t, j);
    RestCovers(t, Size(m), j);
    assert t[..j][1..] == t[1..j];
    BoundBelowPath(m, t[j - 1..], Unvisited(Size(m), t[..j]));
  }

  /** The start entry: its cost is 0 and its bound is at most the cost of the tour. */
  lemma {:induction false} MstBelowFirst(m: Matrix, t: seq<nat>)
    requires IsMatrix(m) && Symmetric(m) && IsTour(t, Size(m))
    ensures InRange(m, t) && InRange(m, t[..1]) && NodesIn(m, Unvisited(Size(m), t[..1]))
    ensures PathCost(m, t[..1]) + MstBound(m, Unvisited(Size(m), t[..1]), t[0]) <= PathCost(m, t)
  {
    assert t[..1][1..] == [];
    assert Unvisited(Size(m), t[..1]) == Coins(Size(m));
    MstBelowTour(m, t);
  }

  /** A later entry: its cost plus its bound is at most the cost of the tour. */
  lemma {:induction false} MstBelowLater(m: Matrix, t: seq<nat>, j: nat)
    requires IsMatrix(m) && Symmetric(m) && IsTour(t, Size(m)) && 2 <= j <= |m|
    ensures InRange(m, t) && InRange(m, t[..j]) && NodesIn(m, Unvisited(Size(m), t[..j]))
    ensures PathCost(m, t[..j]) + MstBound(m, Unvisited(Size(m), t[..j]), t[j - 1]) <= PathCost(m, t)
  {
    MstBelowSuffix(m, t, j);
    PathCostSplit(m, t, j - 1);
  }

  /**
    On a symmetric matrix, the bound of the entry for the first j ids of a
    tour plus their cost is at most the cost of the tour.
   */
  lemma {:induction false} MstBelowRest(m: Matrix, t: seq<nat>, j: nat)
    requires IsMatrix(m) && Symmetric(m) && IsTour(t, Size(m)) && 1 <= j <= |m|
    ensures InRange(m, t) && InRange(m, t[..j]) && NodesIn(m, Unvisited(Size(m), t[..j]))
    ensures PathCost(m, t[..j]) + MstBound(m, Unvisited(Size(m), t[..j]), t[j - 1]) <= PathCost(m, t)
  {
    if j == 1 {
      MstBelowFirst(m, t);
    } else {
      MstBelowLater(m, t, j);
    }
  }
}
