/**
  The two best-first agents: uniform-cost search (`Uki.get_agent_path`) and
  the MST-bounded search (`Micko.get_agent_path`).

  Both keep a priority queue of partial paths from the origin. Each round
  removes an entry that no other entry is served before; a path that has
  returned to the origin ends the search; otherwise the entry is expanded: a
  path that has visited every coin is closed at the origin, and every
  unvisited coin gives a longer path. The two agents differ only in their
  entries: the plain entry is served by its cost, the bounded entry by its
  cost plus the MST bound of what it has left to visit.
 */
module BranchAndBound {
  import opened Tours
  import opened Ordering
  import opened Mst
  import opened MstLowerBound

  /** The order the queue serves entries in: the plain order, or the MST-bounded one. */
  predicate Less(bounded: bool, a: Entity, b: Entity)
    requires a.path != [] && b.path != []
  {
    if bounded then MickoLess(a, b) else EntityLess(a, b)
  }

  /** The key the queue compares entries by. */
  function ServeKey(bounded: bool, e: Entity): Key
    requires e.path != []
  {
    if bounded then MstKey(e) else PlainKey(e)
  }

  /** The MST bound an entry gets when it is made (the plain entry has none). */
  ghost function BoundOf(m: Matrix, bounded: bool, unvisited: set<nat>, path: seq<nat>): nat
    requires IsMatrix(m) && NodesIn(m, unvisited) && path != [] && Last(path) < |m|
  {
    if bounded then MstBound(m, unvisited, Last(path)) else 0
  }

  /**
    `PriorityEntity(cost, path, unvisited)`, or with the bound
    `PriorityEntityMicko(cost, path, unvisited, coin_distance)`, whose
    constructor computes `calcMSTcost`.
   */
  method MakeEntity(m: Matrix, bounded: bool, cost: nat, path: seq<nat>, unvisited: set<nat>) returns (e: Entity)
    requires IsMatrix(m) && NodesIn(m, unvisited) && path != [] && Last(path) < |m|
    ensures e == Entity(cost, path, unvisited, BoundOf(m, bounded, unvisited, path))
  {
    var mst := 0;
    if bounded {
      mst := CalcMstCost(m, unvisited, Last(path));
    }
    e := Entity(cost, path, unvisited, mst);
  }

  // ---------------------------------------------------------------------------
  // Well-formed entries

  /** A path that has not yet returned to the origin. */
  predicate IsOpen(m: Matrix, e: Entity) {
    |e.path| <= |m|
  }

  /**
    The path and unvisited set of an entry: a path from the origin without
    repeated coins whose unvisited coins are exactly the ones it misses, or,
    once it has N+2 ids, a whole tour with nothing left.
   */
  ghost predicate Shape(m: Matrix, path: seq<nat>, unvisited: set<nat>)
    requires IsMatrix(m)
  {
    var n := Size(m);
    && 1 <= |path| <= n + 2 && path[0] == 0 && InRange(m, path)
    && (|path| <= |m| ==>
          Distinct(path[1..]) && Elems(path[1..]) <= Coins(n) && unvisited == Unvisited(n, path))
    && (|path| > |m| ==> IsTour(path, n) && unvisited == {})
  }

  /** Every entry the search makes: its shape, the cost of its path, and the MST bound of what is left. */
  ghost predicate WellFormed(m: Matrix, bounded: bool, e: Entity)
    requires IsMatrix(m)
  {
    && Shape(m, e.path, e.unvisited)
    && e.cost == PathCost(m, e.path)
    && e.mstCost == BoundOf(m, bounded, e.unvisited, e.path)
  }

  /** The entry for coin `c` made from `e`. */
  ghost function Child(m: Matrix, bounded: bool, e: Entity, c: nat): Entity
    requires IsMatrix(m) && WellFormed(m, bounded, e) && IsOpen(m, e) && c in e.unvisited
  {
    var path := e.path + [c];
    Entity(e.cost + m[Last(e.path)][c], path, e.unvisited - {c}, BoundOf(m, bounded, e.unvisited - {c}, path))
  }

  /** The entry that closes `e` at the origin. */
  ghost function Closing(m: Matrix, bounded: bool, e: Entity): Entity
    requires IsMatrix(m) && WellFormed(m, bounded, e)
  {
    var path := e.path + [0];
    Entity(e.cost + m[Last(e.path)][0], path, {}, BoundOf(m, bounded, {}, path))
  }

  /** An open path has visited every coin exactly when nothing is left. */
  lemma OpenCount(m: Matrix, path: seq<nat>, unvisited: set<nat>)
    requires IsMatrix(m) && Shape(m, path, unvisited) && |path| <= |m|
    ensures |path| + |unvisited| == |m|
  {
    var n := Size(m);
    DistinctCoinsCard(path[1..], n);
  }

  lemma SetMinusTwice(a: set<nat>, b: set<nat>, c: nat)
    ensures (a - b) - {c} == a - (b + {c})
  {
  }

  /** Moving to an unvisited coin keeps the shape and leaves one coin fewer. */
  lemma ShapeExtend(m: Matrix, path: seq<nat>, unvisited: set<nat>, c: nat)
    requires IsMatrix(m) && Shape(m, path, unvisited) && |path| <= |m| && c in unvisited
    ensures Shape(m, path + [c], unvisited - {c}) && |path + [c]| <= |m|
    ensures |unvisited - {c}| == |unvisited| - 1
  {
    var n := Size(m);
    OpenCount(m, path, unvisited);
    var p := path + [c];
    assert p[1..] == path[1..] + [c];
    AppendFresh(path[1..], c);
    SetMinusTwice(Coins(n), Elems(path[1..]), c);
  }

  /** Returning to the origin once every coin is visited makes a tour. */
  lemma ShapeClose(m: Matrix, path: seq<nat>)
    requires IsMatrix(m) && Shape(m, path, {}) && |path| <= |m|
    ensures Shape(m, path + [0], {}) && |path + [0]| > |m|
  {
    var n := Size(m);
    OpenCount(m, path, {});
    var p := path + [0];
    assert p[1..n + 1] == path[1..];
  }

  /** The cost of a path grows by the cost of the edge it is extended by. */
  lemma {:induction false} ExtendCost(m: Matrix, p: seq<nat>, cost: nat, c: nat)
    requires IsMatrix(m) && InRange(m, p) && p != [] && c < |m| && cost == PathCost(m, p)
    ensures InRange(m, p + [c]) && cost + m[Last(p)][c] == PathCost(m, p + [c])
  {
    PathCostAppend(m, p, c);
  }

  /** Every entry made for an unvisited coin is well-formed. */
  lemma ChildWellFormed(m: Matrix, bounded: bool, e: Entity, c: nat)
    requires IsMatrix(m) && WellFormed(m, bounded, e) && IsOpen(m, e) && c in e.unvisited
    ensures WellFormed(m, bounded, Child(m, bounded, e, c)) && IsOpen(m, Child(m, bounded, e, c))
    ensures |Child(m, bounded, e, c).unvisited| == |e.unvisited| - 1
  {
    ShapeExtend(m, e.path, e.unvisited, c);
    ExtendCost(m, e.path, e.cost, c);
  }

  /** The closing entry of a path that has visited every coin is well-formed, a tour, and has bound 0. */
  lemma ClosingWellFormed(m: Matrix, bounded: bool, e: Entity)
    requires IsMatrix(m) && WellFormed(m, bounded, e) && IsOpen(m, e) && e.unvisited == {}
    ensures WellFormed(m, bounded, Closing(m, bounded, e)) && !IsOpen(m, Closing(m, bounded, e))
    ensures Closing(m, bounded, e).mstCost == 0
  {
    ShapeClose(m, e.path);
    ExtendCost(m, e.path, e.cost, 0);
    MstOfLoneNode(m, {}, 0);
  }

  /** The first entry: the origin alone, every coin unvisited. */
  lemma StartWellFormed(m: Matrix, bounded: bool)
    requires IsMatrix(m)
    ensures WellFormed(m, bounded, Entity(0, [0], Coins(Size(m)), BoundOf(m, bounded, Coins(Size(m)), [0])))
  {
    assert [0][1..] == [];
  }

  // ---------------------------------------------------------------------------
  // The queue

  /** `RemoveAt(f, i)`: the queue once the entry at i has been taken out. */
  function RemoveAt(f: seq<Entity>, i: nat): (r: seq<Entity>)
    requires i < |f|
    ensures multiset(r) == multiset(f) - multiset{f[i]}
  {
    assert f == f[..i] + [f[i]] + f[i + 1..];
    f[..i] + f[i + 1..]
  }

  /** Nothing in `f` is served before `f[i]`. */
  predicate Least(bounded: bool, f: seq<Entity>, i: nat)
    requires i < |f| && forall k :: 0 <= k < |f| ==> f[k].path != []
  {
    forall j :: 0 <= j < |f| ==> !Less(bounded, f[j], f[i])
  }

  /** Because the order is a strict weak order, every non-empty queue has a least entry. */
  lemma {:induction false} LeastExists(bounded: bool, f: seq<Entity>)
    requires f != [] && forall k :: 0 <= k < |f| ==> f[k].path != []
    ensures exists i :: 0 <= i < |f| && Least(bounded, f, i)
  {
    var last := |f| - 1;
    BeforeIrreflexive(ServeKey(bounded, f[last]));
    if last == 0 {
      assert Least(bounded, f, 0);
    } else {
      var init := f[..last];
      LeastExists(bounded, init);
      var i :| 0 <= i < |init| && Least(bounded, init, i);
      if Less(bounded, f[last], f[i]) {
        forall j | 0 <= j < |f|
          ensures !Less(bounded, f[j], f[last])
        {
          if j < last {
            assert init[j] == f[j];
            BeforeTransitive(ServeKey(bounded, f[j]), ServeKey(bounded, f[last]), ServeKey(bounded, f[i]));
          }
        }
        assert Least(bounded, f, last);
      } else {
        forall j | 0 <= j < |f|
          ensures !Less(bounded, f[j], f[i])
        {
          if j < last {
            assert init[j] == f[j];
          }
        }
        assert Least(bounded, f, i);
      }
    }
  }

  /** `paths.get()`: the index of an entry no other entry is served before. */
  method Get(bounded: bool, f: seq<Entity>) returns (i: nat)
    requires f != [] && forall k :: 0 <= k < |f| ==> f[k].path != []
    ensures i < |f| && Least(bounded, f, i)
  {
    LeastExists(bounded, f);
    i :| 0 <= i < |f| && Least(bounded, f, i);
  }

  // ---------------------------------------------------------------------------
  // What the queue always holds

  /** Every tour of the matrix extends some path in the queue. */
  ghost predicate Covers(m: Matrix, f: seq<Entity>)
    requires IsMatrix(m)
  {
    forall t :: IsTour(t, Size(m)) ==> exists k :: 0 <= k < |f| && f[k].path <= t
  }

  ghost predicate AllWellFormed(m: Matrix, bounded: bool, f: seq<Entity>)
    requires IsMatrix(m)
  {
    forall k :: 0 <= k < |f| ==> WellFormed(m, bounded, f[k])
  }

  /** The loop invariant of both searches. */
  ghost predicate SearchInv(m: Matrix, bounded: bool, f: seq<Entity>)
    requires IsMatrix(m)
  {
    AllWellFormed(m, bounded, f) && Covers(m, f) && f != []
  }

  /** Some tour always exists: the coins in increasing order. */
  lemma SomeTour(n: nat)
    ensures IsTour([0] + CoinSeq(n) + [0], n)
  {
    CoinSeqElems(n);
    assert ([0] + CoinSeq(n) + [0])[1..n + 1] == CoinSeq(n);
  }

  /** A queue that covers every tour is not empty. */
  lemma CoveringNonEmpty(m: Matrix, f: seq<Entity>)
    requires IsMatrix(m) && Covers(m, f)
    ensures f != []
  {
    SomeTour(Size(m));
    var t := [0] + CoinSeq(Size(m)) + [0];
    assert IsTour(t, Size(m));
  }

  lemma StartInv(m: Matrix, bounded: bool, start: Entity)
    requires IsMatrix(m)
    requires start == Entity(0, [0], Coins(Size(m)), BoundOf(m, bounded, Coins(Size(m)), [0]))
    ensures SearchInv(m, bounded, [start])
  {
    StartWellFormed(m, bounded);
    forall t | IsTour(t, Size(m))
      ensures exists k :: 0 <= k < 1 && [start][k].path <= t
    {
      assert [start][0].path <= t;
    }
  }

  // ---------------------------------------------------------------------------
  // Termination: the weight of the queue drops by one every round

  /** The weight of an open entry with r coins left: itself plus everything it can still make. */
  function OpenWeight(r: nat): nat {
    if r == 0 then 2 else 1 + Times(r, OpenWeight(r - 1))
  }

  /** `a * w`, by repeated addition. */
  function Times(a: nat, w: nat): nat {
    if a == 0 then 0 else Times(a - 1, w) + w
  }

  function Weight(m: Matrix, e: Entity): nat {
    if IsOpen(m, e) then OpenWeight(|e.unvisited|) else 1
  }

  function Total(m: Matrix, f: seq<Entity>): nat {
    if f == [] then 0 else Total(m, f[..|f| - 1]) + Weight(m, f[|f| - 1])
  }

  lemma {:induction false} TotalAppend(m: Matrix, f: seq<Entity>, g: seq<Entity>)
    ensures Total(m, f + g) == Total(m, f) + Total(m, g)
    decreases |g|
  {
    if g != [] {
      var init := g[..|g| - 1];
      assert (f + g)[..|f + g| - 1] == f + init;
      TotalAppend(m, f, init);
    } else {
      assert f + g == f;
    }
  }

  lemma {:induction false} TotalRemoveAt(m: Matrix, f: seq<Entity>, i: nat)
    requires i < |f|
    ensures Total(m, f) == Total(m, RemoveAt(f, i)) + Weight(m, f[i])
  {
    assert f == f[..i] + [f[i]] + f[i + 1..];
    TotalAppend(m, f[..i] + [f[i]], f[i + 1..]);
    TotalAppend(m, f[..i], [f[i]]);
    TotalAppend(m, f[..i], f[i + 1..]);
    assert Total(m, [f[i]]) == Weight(m, f[i]) by { assert [f[i]][..0] == []; }
  }

  // ---------------------------------------------------------------------------
  // One expansion

  /** What the expansion of `e` has pushed so far: `kids`, for the coins outside `rest`. */
  ghost predicate Pushed(m: Matrix, bounded: bool, e: Entity, rest: set<nat>, kids: seq<Entity>)
    requires IsMatrix(m) && WellFormed(m, bounded, e) && IsOpen(m, e)
  {
    && rest <= e.unvisited
    && AllWellFormed(m, bounded, kids)
    && HasChildren(m, bounded, e, rest, kids)
    && (e.unvisited == {} ==> Closing(m, bounded, e) in kids)
    && Total(m, kids) == PushedWeight(e, rest)
  }

  /** The entry for every coin outside `rest` is among `kids`. */
  ghost predicate HasChildren(m: Matrix, bounded: bool, e: Entity, rest: set<nat>, kids: seq<Entity>)
    requires IsMatrix(m) && WellFormed(m, bounded, e) && IsOpen(m, e)
  {
    forall c :: c in e.unvisited - rest ==> Child(m, bounded, e, c) in kids
  }

  /** The weight of what the expansion of `e` has pushed once the coins outside `rest` are done. */
  function PushedWeight(e: Entity, rest: set<nat>): nat {
    if e.unvisited == {} then 1 else Times(|e.unvisited - rest|, OpenWeight(|e.unvisited| - 1))
  }

  lemma PushedClosing(m: Matrix, bounded: bool, e: Entity)
    requires IsMatrix(m) && WellFormed(m, bounded, e) && IsOpen(m, e) && e.unvisited == {}
    ensures Pushed(m, bounded, e, {}, [Closing(m, bounded, e)])
  {
    ClosingWellFormed(m, bounded, e);
    var kids := [Closing(m, bounded, e)];
    assert kids[..0] == [];
  }

  lemma PushedNone(m: Matrix, bounded: bool, e: Entity)
    requires IsMatrix(m) && WellFormed(m, bounded, e) && IsOpen(m, e) && e.unvisited != {}
    ensures Pushed(m, bounded, e, e.unvisited, [])
  {
  }

  lemma PushedChild(m: Matrix, bounded: bool, e: Entity, rest: set<nat>, kids: seq<Entity>, c: nat)
    requires IsMatrix(m) && WellFormed(m, bounded, e) && IsOpen(m, e)
    requires Pushed(m, bounded, e, rest, kids) && c in rest
    ensures Pushed(m, bounded, e, rest - {c}, kids + [Child(m, bounded, e, c)])
  {
    var child := Child(m, bounded, e, c);
    ChildWellFormed(m, bounded, e, c);
    AllWellFormedSnoc(m, bounded, kids, child);
    HasChildrenSnoc(m, bounded, e, rest, kids, c);
    WeightSnoc(m, bounded, e, rest, kids, c);
  }

  lemma HasChildrenSnoc(m: Matrix, bounded: bool, e: Entity, rest: set<nat>, kids: seq<Entity>, c: nat)
    requires IsMatrix(m) && WellFormed(m, bounded, e) && IsOpen(m, e)
    requires rest <= e.unvisited && HasChildren(m, bounded, e, rest, kids) && c in rest
    ensures HasChildren(m, bounded, e, rest - {c}, kids + [Child(m, bounded, e, c)])
  {
    var kids' := kids + [Child(m, bounded, e, c)];
    forall d | d in e.unvisited - (rest - {c})
      ensures Child(m, bounded, e, d) in kids'
    {
      if d == c {
        assert kids'[|kids|] == Child(m, bounded, e, c);
      } else {
        assert Child(m, bounded, e, d) in kids;
      }
    }
  }

  lemma {:induction false} WeightSnoc(m: Matrix, bounded: bool, e: Entity, rest: set<nat>, kids: seq<Entity>, c: nat)
    requires IsMatrix(m) && WellFormed(m, bounded, e) && IsOpen(m, e)
    requires rest <= e.unvisited && c in rest && Total(m, kids) == PushedWeight(e, rest)
    ensures Total(m, kids + [Child(m, bounded, e, c)]) == PushedWeight(e, rest - {c})
  {
    var child := Child(m, bounded, e, c);
    ChildWellFormed(m, bounded, e, c);
    var kids' := kids + [child];
    assert Total(m, kids') == Total(m, kids) + Weight(m, child) by {
      assert kids'[..|kids'| - 1] == kids;
    }
    var done, w := |e.unvisited - rest|, OpenWeight(|e.unvisited| - 1);
    DoneGrows(e.unvisited, rest, c);
    assert Weight(m, child) == w;
  }

  /** Taking one more coin out of `rest` adds it to the coins already done. */
  lemma DoneGrows(u: set<nat>, rest: set<nat>, c: nat)
    requires rest <= u && c in rest
    ensures u - (rest - {c}) == (u - rest) + {c} && |u - (rest - {c})| == |u - rest| + 1
  {
    assert u - (rest - {c}) == (u - rest) + {c};
  }


  lemma AllWellFormedSnoc(m: Matrix, bounded: bool, f: seq<Entity>, e: Entity)
    requires IsMatrix(m) && AllWellFormed(m, bounded, f) && WellFormed(m, bounded, e)
    ensures AllWellFormed(m, bounded, f + [e])
  {
    forall k | 0 <= k < |f| + 1
      ensures WellFormed(m, bounded, (f + [e])[k])
    {
      if k < |f| {
        assert (f + [e])[k] == f[k];
      }
    }
  }

  /** A tour through an open path either returns to the origin next or visits one of the path's unvisited coins. */
  lemma TourNext(m: Matrix, path: seq<nat>, unvisited: set<nat>, t: seq<nat>)
    requires IsMatrix(m) && Shape(m, path, unvisited) && |path| <= |m|
    requires IsTour(t, Size(m)) && path <= t
    ensures unvisited == {} ==> t == path + [0]
    ensures unvisited != {} ==> |path| < |t| && t[|path|] in unvisited && path + [t[|path|]] <= t
  {
    var n := Size(m);
    var j := |path|;
    OpenCount(m, path, unvisited);
    assert t[..j] == path;
    PrefixSnoc(t, j);
    if unvisited == {} {
      assert t[..j + 1] == t;
    } else {
      TourAt(t, n, j);
    }
  }

  /** A tour through an open path continues to one of the path's expansions. */
  lemma ExpansionCovers(m: Matrix, bounded: bool, e: Entity, kids: seq<Entity>, t: seq<nat>)
    requires IsMatrix(m) && WellFormed(m, bounded, e) && IsOpen(m, e)
    requires HasChildren(m, bounded, e, {}, kids) && (e.unvisited == {} ==> Closing(m, bounded, e) in kids)
    requires IsTour(t, Size(m)) && e.path <= t
    ensures exists k :: 0 <= k < |kids| && kids[k].path <= t
  {
    TourNext(m, e.path, e.unvisited, t);
    if e.unvisited == {} {
      var k :| 0 <= k < |kids| && kids[k] == Closing(m, bounded, e);
    } else {
      var k :| 0 <= k < |kids| && kids[k] == Child(m, bounded, e, t[|e.path|]);
    }
  }

  /** Replacing an open entry by all of its expansions keeps the invariant and lowers the weight. */
  lemma {:induction false} ExpandKeeps(m: Matrix, bounded: bool, f: seq<Entity>, i: nat, kids: seq<Entity>)
    requires IsMatrix(m) && i < |f| && SearchInv(m, bounded, f) && IsOpen(m, f[i])
    requires Pushed(m, bounded, f[i], {}, kids)
    ensures SearchInv(m, bounded, RemoveAt(f, i) + kids)
    ensures Total(m, RemoveAt(f, i) + kids) < Total(m, f)
  {
    ExpandCovers(m, bounded, f, i, kids);
    ExpandWellFormed(m, bounded, f, i, kids);
    CoveringNonEmpty(m, RemoveAt(f, i) + kids);
    ExpandLighter(m, bounded, f, i, kids);
  }

  /** The entry at position k once the entry at i is replaced by `kids`. */
  lemma ReplacedAt(f: seq<Entity>, i: nat, kids: seq<Entity>, k: nat)
    requires i < |f| && k < |f| - 1 + |kids|
    ensures (RemoveAt(f, i) + kids)[k] == if k < i then f[k] else if k < |f| - 1 then f[k + 1] else kids[k - (|f| - 1)]
  {
  }

  lemma ExpandCovers(m: Matrix, bounded: bool, f: seq<Entity>, i: nat, kids: seq<Entity>)
    requires IsMatrix(m) && i < |f| && WellFormed(m, bounded, f[i]) && IsOpen(m, f[i]) && Covers(m, f)
    requires HasChildren(m, bounded, f[i], {}, kids) && (f[i].unvisited == {} ==> Closing(m, bounded, f[i]) in kids)
    ensures Covers(m, RemoveAt(f, i) + kids)
  {
    var g := RemoveAt(f, i) + kids;
    forall t | IsTour(t, Size(m))
      ensures exists k :: 0 <= k < |g| && g[k].path <= t
    {
      var k :| 0 <= k < |f| && f[k].path <= t;
      if k < i {
        ReplacedAt(f, i, kids, k);
      } else if k > i {
        ReplacedAt(f, i, kids, k - 1);
      } else {
        ExpansionCovers(m, bounded, f[i], kids, t);
        var k' :| 0 <= k' < |kids| && kids[k'].path <= t;
        ReplacedAt(f, i, kids, |f| - 1 + k');
      }
    }
  }

  lemma ExpandWellFormed(m: Matrix, bounded: bool, f: seq<Entity>, i: nat, kids: seq<Entity>)
    requires IsMatrix(m) && i < |f| && AllWellFormed(m, bounded, f) && AllWellFormed(m, bounded, kids)
    ensures AllWellFormed(m, bounded, RemoveAt(f, i) + kids)
  {
    var g := RemoveAt(f, i) + kids;
    forall k | 0 <= k < |g|
      ensures WellFormed(m, bounded, g[k])
    {
      ReplacedAt(f, i, kids, k);
    }
  }

  lemma {:induction false} ExpandLighter(m: Matrix, bounded: bool, f: seq<Entity>, i: nat, kids: seq<Entity>)
    requires IsMatrix(m) && i < |f| && WellFormed(m, bounded, f[i]) && IsOpen(m, f[i])
    requires Total(m, kids) == PushedWeight(f[i], {})
    ensures Total(m, RemoveAt(f, i) + kids) < Total(m, f)
  {
    var e := f[i];
    TotalRemoveAt(m, f, i);
    TotalAppend(m, RemoveAt(f, i), kids);
    assert e.unvisited - {} == e.unvisited;
  }

  // ---------------------------------------------------------------------------
  // Optimality

  /** What the bounded entry for the first j ids of tour t is served by: its cost plus its MST bound. */
  ghost function PrefixEstimate(m: Matrix, t: seq<nat>, j: nat): nat
    requires IsMatrix(m) && IsTour(t, Size(m)) && 1 <= j <= |m|
  {
    var n := Size(m);
    TourInRange(t, n);
    PathCostPrefix(m, t, j);
    PathCost(m, t[..j]) + MstBound(m, Unvisited(n, t[..j]), t[j - 1])
  }

  /**
    The MST bound never overestimates: for every tour and every open prefix
    of it, the prefix's cost plus its bound is at most the tour's cost.
   */
  ghost predicate Admissible(m: Matrix)
    requires IsMatrix(m)
  {
    forall t, j :: IsTour(t, Size(m)) && 1 <= j <= |m| ==> PrefixEstimate(m, t, j) <= TourCost(m, t)
  }

  /** On a symmetric matrix the MST bound is admissible. */
  lemma SymmetricAdmissible(m: Matrix)
    requires IsMatrix(m) && Symmetric(m)
    ensures Admissible(m)
  {
    forall t, j | IsTour(t, Size(m)) && 1 <= j <= |m|
      ensures PrefixEstimate(m, t, j) <= TourCost(m, t)
    {
      MstBelowRest(m, t, j);
    }
  }

  /** The priority of an entry that is a prefix of tour t is at most the tour's cost. */
  lemma PriorityBelowTour(m: Matrix, bounded: bool, e: Entity, t: seq<nat>)
    requires IsMatrix(m) && WellFormed(m, bounded, e) && IsTour(t, Size(m)) && e.path <= t
    requires bounded ==> Admissible(m)
    ensures ServeKey(bounded, e).priority <= TourCost(m, t)
  {
    var n := Size(m);
    var j := |e.path|;
    TourInRange(t, n);
    assert e.path == t[..j];
    if !IsOpen(m, e) {
      assert e.path == t;
      MstOfLoneNode(m, {}, 0);
    } else if bounded {
      assert e.path[1..] == t[1..j];
      assert PrefixEstimate(m, t, j) <= TourCost(m, t);
    } else {
      PathCostPrefix(m, t, j);
    }
  }

  /**
    When the least entry is a whole tour, no tour is cheaper: every tour
    extends some entry, whose priority is at most that tour's cost and at
    least the least entry's priority, which is its cost.
   */
  lemma LeastTourOptimal(m: Matrix, bounded: bool, f: seq<Entity>, i: nat)
    requires IsMatrix(m) && i < |f| && SearchInv(m, bounded, f) && !IsOpen(m, f[i])
    requires forall k :: 0 <= k < |f| ==> f[k].path != []
    requires Least(bounded, f, i)
    requires bounded ==> Admissible(m)
    ensures IsTour(f[i].path, Size(m))
    ensures forall t :: IsTour(t, Size(m)) ==> f[i].cost <= TourCost(m, t)
  {
    MstOfLoneNode(m, {}, 0);
    forall t | IsTour(t, Size(m))
      ensures f[i].cost <= TourCost(m, t)
    {
      var k :| 0 <= k < |f| && f[k].path <= t;
      PriorityBelowTour(m, bounded, f[k], t);
      assert !Less(bounded, f[k], f[i]);
    }
  }

  // ---------------------------------------------------------------------------
  // The searches

  /** The loop of `get_agent_path` shared by Uki (`bounded` false) and Micko (`bounded` true). */
  method Search(m: Matrix, bounded: bool) returns (path: seq<nat>)
    requires IsMatrix(m)
    ensures IsTour(path, Size(m)) && InRange(m, path)
    ensures bounded ==> Admissible(m) ==> forall t :: IsTour(t, Size(m)) ==> PathCost(m, path) <= TourCost(m, t)
    ensures !bounded ==> forall t :: IsTour(t, Size(m)) ==> PathCost(m, path) <= TourCost(m, t)
  {
    path := [0];
    var start := MakeEntity(m, bounded, 0, [0], Coins(Size(m)));
    var paths := [start];
    StartInv(m, bounded, start);
    while paths != []
      invariant SearchInv(m, bounded, paths)
      decreases Total(m, paths)
    {
      assert forall k :: 0 <= k < |paths| ==> paths[k].path != [];
      var i := Get(bounded, paths);
      var exp := paths[i];
      if |exp.path| == |m| + 1 {
        path := exp.path;
        assert IsTour(path, Size(m));
        if !bounded || Admissible(m) {
          LeastTourOptimal(m, bounded, paths, i);
        }
        TourInRange(path, Size(m));
        break;
      }
      var kids := Expand(m, bounded, exp);
      ExpandKeeps(m, bounded, paths, i, kids);
      paths := RemoveAt(paths, i) + kids;
    }
  }

  /**
    One expansion: the closing entry when every coin is visited, and the
    entry for each unvisited coin, taken in an arbitrary order.
   */
  method Expand(m: Matrix, bounded: bool, exp: Entity) returns (kids: seq<Entity>)
    requires IsMatrix(m) && WellFormed(m, bounded, exp) && IsOpen(m, exp)
    ensures Pushed(m, bounded, exp, {}, kids)
  {
    var rest;
    if |exp.unvisited| == 0 {
      var e := MakeEntity(m, bounded, exp.cost + m[Last(exp.path)][0], exp.path + [0], {});
      assert e == Closing(m, bounded, exp);
      kids, rest := [e], {};
      PushedClosing(m, bounded, exp);
    } else {
      kids, rest := [], exp.unvisited;
      PushedNone(m, bounded, exp);
    }
    while rest != {}
      invariant Pushed(m, bounded, exp, rest, kids)
      decreases rest
    {
      var coin :| coin in rest;
      kids := PushChild(m, bounded, exp, rest, kids, coin);
      rest := rest - {coin};
    }
  }

  /** `paths.put(...)` for one unvisited coin. */
  method PushChild(m: Matrix, bounded: bool, exp: Entity, ghost rest: set<nat>, kids: seq<Entity>, coin: nat)
    returns (kids': seq<Entity>)
    requires IsMatrix(m) && WellFormed(m, bounded, exp) && IsOpen(m, exp)
    requires Pushed(m, bounded, exp, rest, kids) && coin in rest
    ensures kids' == kids + [Child(m, bounded, exp, coin)]
    ensures Pushed(m, bounded, exp, rest - {coin}, kids')
  {
    var e := MakeEntity(m, bounded, exp.cost + m[Last(exp.path)][coin], exp.path + [coin], exp.unvisited - {coin});
    assert e == Child(m, bounded, exp, coin);
    PushedChild(m, bounded, exp, rest, kids, coin);
    kids' := kids + [e];
  }

  /** `Uki.get_agent_path(coin_distance)`: a least-cost tour. */
  method Uki(m: Matrix) returns (path: seq<nat>)
    requires IsMatrix(m)
    ensures IsTour(path, Size(m)) && InRange(m, path)
    ensures forall t :: IsTour(t, Size(m)) ==> PathCost(m, path) <= TourCost(m, t)
  {
    path := Search(m, false);
  }

  /**
    `Micko.get_agent_path(coin_distance)`: a least-cost tour whenever the MST
    bound is admissible, which it is on every symmetric matrix.
   */
  method Micko(m: Matrix) returns (path: seq<nat>)
    requires IsMatrix(m)
    ensures IsTour(path, Size(m)) && InRange(m, path)
    ensures Admissible(m) ==> forall t :: IsTour(t, Size(m)) ==> PathCost(m, path) <= TourCost(m, t)
    ensures Symmetric(m) ==> forall t :: IsTour(t, Size(m)) ==> PathCost(m, path) <= TourCost(m, t)
  {
    path := Search(m, true);
    if Symmetric(m) {
      SymmetricAdmissible(m);
    }
  }
}
