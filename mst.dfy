/**
  The MST lower bound of a frontier entry (`calcMSTcost`).

  For an entry whose path ends at `last` and whose unvisited coins are `U`,
  the node set is S = U + {0, last}. The source runs a lazy Prim search: a
  heap of (cost, node) pairs, seeded with (0, last); each pop of a node still
  in S removes it, adds its cost, and pushes (m[node][i], i) for every i still
  in S; a pop of a node already removed is skipped. Pairs compare as Python
  tuples, so among equal costs the smaller node id is popped first.

  The specification is the eager form of the same algorithm: PrimFrom grows
  a tree by the least (cost, node) pair leading from the tree into the rest.
 */
module Mst {
  import opened Tours

  /** A heap entry, the tuple (cost, node) of the source. */
  datatype Edge = Edge(cost: nat, node: nat)

  /** Python's tuple order on heap entries, non-strict: by cost, then by node. */
  predicate EdgeLe(a: Edge, b: Edge) {
    a.cost < b.cost || (a.cost == b.cost && a.node <= b.node)
  }

  /** The least entry of a non-empty set under tuple order. */
  ghost function MinEdge(s: set<Edge>): (e: Edge)
    requires s != {}
    ensures e in s && forall x :: x in s ==> EdgeLe(e, x)
    decreases |s|
  {
    var x :| x in s;
    if s == {x} then
      x
    else
      var y := MinEdge(s - {x});
      assert forall z :: z in s ==> z == x || z in s - {x};
      if EdgeLe(x, y) then x else y
  }

  predicate NodesIn(m: Matrix, s: set<nat>) {
    forall v :: v in s ==> v < |m|
  }

  /** Every pair Edge(m[u][v], v) leading from `tree` into `left`. */
  ghost function Edges(m: Matrix, tree: set<nat>, left: set<nat>): set<Edge>
    requires IsMatrix(m) && NodesIn(m, tree) && NodesIn(m, left)
  {
    set u, v {:trigger Edge(m[u][v], v)} | u in tree && v in left :: Edge(m[u][v], v)
  }

  /** `e` is the pair Edge(m[u][e.node], e.node) of some `u` in `tree`. */
  ghost predicate FromTree(m: Matrix, tree: set<nat>, e: Edge)
    requires IsMatrix(m) && NodesIn(m, tree) && e.node < |m|
  {
    exists u {:trigger m[u][e.node]} :: u in tree && e.cost == m[u][e.node]
  }

  lemma EdgesIff(m: Matrix, tree: set<nat>, left: set<nat>, e: Edge)
    requires IsMatrix(m) && NodesIn(m, tree) && NodesIn(m, left)
    ensures e in Edges(m, tree, left) <==> e.node in left && FromTree(m, tree, e)
  {
    if e.node in left && FromTree(m, tree, e) {
      var u :| u in tree && e.cost == m[u][e.node];
      assert e == Edge(m[u][e.node], e.node);
    }
  }

  lemma EdgesNonEmpty(m: Matrix, tree: set<nat>, left: set<nat>)
    requires IsMatrix(m) && NodesIn(m, tree) && NodesIn(m, left)
    requires tree != {} && left != {}
    ensures Edges(m, tree, left) != {}
  {
    var u :| u in tree;
    var v :| v in left;
    assert Edge(m[u][v], v) in Edges(m, tree, left);
  }

  /** Eager Prim: the total cost of repeatedly taking the least pair from `tree` into `left`. */
  ghost function PrimFrom(m: Matrix, tree: set<nat>, left: set<nat>): nat
    requires IsMatrix(m) && NodesIn(m, tree) && NodesIn(m, left) && tree != {}
    decreases |left|, 1
  {
    if left == {} then 0 else PrimTake(m, tree, left)
  }

  /** One step of eager Prim: take the least pair, then go on from the grown tree. */
  ghost function PrimTake(m: Matrix, tree: set<nat>, left: set<nat>): nat
    requires IsMatrix(m) && NodesIn(m, tree) && NodesIn(m, left) && tree != {} && left != {}
    decreases |left|, 0
  {
    EdgesNonEmpty(m, tree, left);
    var e := MinEdge(Edges(m, tree, left));
    e.cost + PrimFrom(m, tree + {e.node}, left - {e.node})
  }

  /** What `calcMSTcost` returns for an entry with unvisited coins `unvisited` and last id `last`. */
  ghost function MstBound(m: Matrix, unvisited: set<nat>, last: nat): nat
    requires IsMatrix(m) && NodesIn(m, unvisited) && last < |m|
  {
    var all := unvisited + {0, last};
    PrimFrom(m, {last}, all - {last})
  }

  /**
    The lazy heap's invariant: every entry whose node is still in `left` is a
    pair from the tree, and every pair from the tree into `left` is queued.
   */
  ghost predicate HeapFor(m: Matrix, pq: multiset<Edge>, tree: set<nat>, left: set<nat>)
    requires IsMatrix(m) && NodesIn(m, tree) && NodesIn(m, left)
  {
    && (forall e {:trigger pq[e]} :: e in pq && e.node in left ==> FromTree(m, tree, e))
    && (forall u, v {:trigger Edge(m[u][v], v)} :: u in tree && v in left ==> Edge(m[u][v], v) in pq)
  }

  /** `pq.get()`: remove and return a least entry. */
  method PopMin(pq: multiset<Edge>) returns (e: Edge, rest: multiset<Edge>)
    requires pq != multiset{}
    ensures e in pq && forall x :: x in pq ==> EdgeLe(e, x)
    ensures rest == pq - multiset{e}
  {
    ghost var some :| some in pq;
    ghost var s := set x | x in pq;
    assert some in s;
    ghost var least := MinEdge(s);
    assert least in pq && forall x :: x in pq ==> EdgeLe(least, x);
    e :| e in pq && forall x :: x in pq ==> EdgeLe(e, x);
    rest := pq - multiset{e};
  }

  /** A least heap entry whose node is still to be added is exactly the pair eager Prim takes. */
  lemma {:induction false} PopIsPrimStep(m: Matrix, pq: multiset<Edge>, tree: set<nat>, left: set<nat>, top: Edge)
    requires IsMatrix(m) && NodesIn(m, tree) && NodesIn(m, left) && tree != {}
    requires HeapFor(m, pq, tree, left)
    requires top in pq && (forall x :: x in pq ==> EdgeLe(top, x)) && top.node in left
    ensures PrimFrom(m, tree, left) == top.cost + PrimFrom(m, tree + {top.node}, left - {top.node})
  {
    EdgesNonEmpty(m, tree, left);
    var e := MinEdge(Edges(m, tree, left));
    EdgesIff(m, tree, left, top);
    EdgesIff(m, tree, left, e);
    var u :| u in tree && e.cost == m[u][e.node];
    assert e == Edge(m[u][e.node], e.node);
    assert e in pq;
    assert EdgeLe(top, e) && EdgeLe(e, top);
    assert top == e;
  }

  /** After the pop of node v: what is left of the heap still serves the tree, for what is left of the nodes. */
  lemma HeapAfterPop(m: Matrix, pq: multiset<Edge>, top: Edge, tree: set<nat>, left: set<nat>, before: set<nat>)
    requires IsMatrix(m) && NodesIn(m, tree) && NodesIn(m, before) && left <= before
    requires top.node !in left
    requires HeapFor(m, pq, tree, before)
    ensures NodesIn(m, left) && HeapFor(m, pq - multiset{top}, tree, left)
  {
    forall e | e in pq - multiset{top} && e.node in left
      ensures FromTree(m, tree, e)
    {
      assert e in pq && e.node in before;
    }
    forall u, v | u in tree && v in left
      ensures Edge(m[u][v], v) in pq - multiset{top}
    {
      assert Edge(m[u][v], v) in pq;
      assert Edge(m[u][v], v) != top;
    }
  }

  /** Adding node v to the tree and queueing its pairs into `left` restores the heap invariant. */
  lemma HeapAfterPush(m: Matrix, base: multiset<Edge>, pq: multiset<Edge>, v: nat,
                      tree: set<nat>, left: set<nat>)
    requires IsMatrix(m) && NodesIn(m, tree) && NodesIn(m, left) && v < |m|
    requires HeapFor(m, base, tree, left)
    requires forall e {:trigger pq[e]} :: e in pq ==> e in base || (e.node in left && e.cost == m[v][e.node])
    requires forall i :: i in left ==> Edge(m[v][i], i) in pq
    requires base <= pq
    ensures HeapFor(m, pq, tree + {v}, left)
  {
    forall e | e in pq && e.node in left
      ensures FromTree(m, tree + {v}, e)
    {
      if e in base {
        var u :| u in tree && e.cost == m[u][e.node];
        assert u in tree + {v};
      } else {
        assert v in tree + {v} && e.cost == m[v][e.node];
      }
    }
  }

  /** `for i in left: pq.put((coin_distance[v][i], i))`: queue the pair from `v` to every node of `left`. */
  method PushPairs(m: Matrix, pq: multiset<Edge>, v: nat, left: set<nat>) returns (pq': multiset<Edge>)
    requires IsMatrix(m) && NodesIn(m, left) && v < |m|
    ensures pq <= pq'
    ensures forall e {:trigger pq'[e]} :: e in pq' ==> e in pq || (e.node in left && e.cost == m[v][e.node])
    ensures forall i :: i in left ==> Edge(m[v][i], i) in pq'
    ensures |pq'| == |pq| + |left|
    ensures forall e :: pq'[e] == pq[e] + (if e.node in left && e.cost == m[v][e.node] then 1 else 0)
  {
    pq' := pq;
    var rest := left;
    ghost var done: set<nat> := {};
    while rest != {}
      invariant done + rest == left && done !! rest
      invariant |pq'| == |pq| + |done|
      invariant forall e :: pq'[e] == pq[e] + (if e.node in done && e.cost == m[v][e.node] then 1 else 0)
      decreases rest
    {
      var i :| i in rest;
      pq' := pq' + multiset{Edge(m[v][i], i)};
      done := done + {i};
      rest := rest - {i};
    }
    PairsCounted(m, pq, pq', v, left);
  }

  /** Counting one copy of the pair from `v` to each node of `left` keeps the old entries and adds exactly those pairs. */
  lemma PairsCounted(m: Matrix, pq: multiset<Edge>, pq': multiset<Edge>, v: nat, left: set<nat>)
    requires IsMatrix(m) && NodesIn(m, left) && v < |m|
    requires forall e :: pq'[e] == pq[e] + (if e.node in left && e.cost == m[v][e.node] then 1 else 0)
    ensures pq <= pq'
    ensures forall e {:trigger pq'[e]} :: e in pq' ==> e in pq || (e.node in left && e.cost == m[v][e.node])
    ensures forall i :: i in left ==> Edge(m[v][i], i) in pq'
  {
    forall i | i in left
      ensures Edge(m[v][i], i) in pq'
    {
      assert pq'[Edge(m[v][i], i)] >= 1;
    }
  }

  /**
    One pop that adds node `top.node` to the tree: the heap invariant holds
    again for the grown tree once the node's pairs are queued, and (after the
    first pop) the pop took exactly the pair eager Prim takes.
   */
  lemma {:induction false} AddStep(m: Matrix, tree: set<nat>, left: set<nat>, old_pq: multiset<Edge>, top: Edge, pq: multiset<Edge>)
    requires IsMatrix(m) && NodesIn(m, tree) && NodesIn(m, left) && top.node in left
    requires top in old_pq && forall x :: x in old_pq ==> EdgeLe(top, x)
    requires tree == {} ==> old_pq == multiset{top}
    requires tree != {} ==> HeapFor(m, old_pq, tree, left)
    requires old_pq - multiset{top} <= pq
    requires forall e {:trigger pq[e]} :: e in pq ==> e in old_pq - multiset{top} || (e.node in left - {top.node} && e.cost == m[top.node][e.node])
    requires forall i :: i in left - {top.node} ==> Edge(m[top.node][i], i) in pq
    ensures HeapFor(m, pq, tree + {top.node}, left - {top.node})
    ensures tree != {} ==> PrimFrom(m, tree, left) == top.cost + PrimFrom(m, tree + {top.node}, left - {top.node})
  {
    var rest := left - {top.node};
    if tree != {} {
      PopIsPrimStep(m, old_pq, tree, left, top);
      HeapAfterPop(m, old_pq, top, tree, rest, left);
    } else {
      assert old_pq - multiset{top} == multiset{};
    }
    HeapAfterPush(m, old_pq - multiset{top}, pq, top.node, tree, rest);
  }

  /**
    The loop invariant of calcMSTcost: `tree` holds the nodes of `all` already
    removed from `left`; before the first pop the heap is the seed; after it,
    the heap is lazy-valid and the cost so far plus eager Prim on what is left
    is the bound.
   */
  ghost predicate PrimInv(m: Matrix, all: set<nat>, last: nat, target: nat,
                          tree: set<nat>, left: set<nat>, pq: multiset<Edge>, cost: nat)
    requires IsMatrix(m) && NodesIn(m, all)
  {
    && left <= all && tree == all - left
    && (tree == {} ==> left == all && pq == multiset{Edge(0, last)} && cost == 0)
    && (tree != {} ==> HeapFor(m, pq, tree, left) && cost + PrimFrom(m, tree, left) == target)
  }

  /** A skipped pop keeps the invariant. */
  lemma SkipKeeps(m: Matrix, all: set<nat>, last: nat, target: nat,
                  tree: set<nat>, left: set<nat>, pq: multiset<Edge>, cost: nat, top: Edge)
    requires IsMatrix(m) && NodesIn(m, all) && last in all
    requires PrimInv(m, all, last, target, tree, left, pq, cost)
    requires top in pq && top.node !in left
    ensures PrimInv(m, all, last, target, tree, left, pq - multiset{top}, cost)
  {
    HeapAfterPop(m, pq, top, tree, left, left);
  }

  /** A pop that adds a node, once the heap serves the grown tree, keeps the invariant. */
  lemma {:induction false} AddKeeps(m: Matrix, all: set<nat>, last: nat, target: nat,
                 tree: set<nat>, left: set<nat>, old_pq: multiset<Edge>, cost: nat, top: Edge, pq: multiset<Edge>)
    requires IsMatrix(m) && NodesIn(m, all)
    requires PrimInv(m, all, last, target, tree, left, old_pq, cost)
    requires top in old_pq && top.node in left
    requires tree == {} ==> target == PrimFrom(m, {last}, all - {last})
    requires HeapFor(m, pq, tree + {top.node}, left - {top.node})
    requires tree != {} ==> PrimFrom(m, tree, left) == top.cost + PrimFrom(m, tree + {top.node}, left - {top.node})
    ensures PrimInv(m, all, last, target, tree + {top.node}, left - {top.node}, pq, cost + top.cost)
  {
    var tree', left' := tree + {top.node}, left - {top.node};
    assert left' <= all && tree' == all - left';
    if tree == {} {
      FirstAdd(m, all, last, left, old_pq, top);
    }
  }

  /** The first pop takes the seed (0, last) and leaves the tree {last}. */
  lemma FirstAdd(m: Matrix, all: set<nat>, last: nat, left: set<nat>, old_pq: multiset<Edge>, top: Edge)
    requires IsMatrix(m) && NodesIn(m, all) && left == all
    requires old_pq == multiset{Edge(0, last)} && top in old_pq
    ensures top == Edge(0, last) && {} + {top.node} == {last} && left - {top.node} == all - {last}
  {
  }

  /** A non-empty `left` after the first pop means the heap still has an entry. */
  lemma HeapNonEmpty(m: Matrix, all: set<nat>, last: nat, target: nat,
                     tree: set<nat>, left: set<nat>, pq: multiset<Edge>, cost: nat)
    requires IsMatrix(m) && NodesIn(m, all)
    requires PrimInv(m, all, last, target, tree, left, pq, cost) && left != {}
    ensures pq != multiset{}
  {
    if tree != {} {
      var u :| u in tree;
      var v :| v in left;
      assert Edge(m[u][v], v) in pq;
    }
  }

  /**
    One iteration of the `while` loop of calcMSTcost: pop the least entry; if
    its node is still to be added, add its cost and queue its pairs.
   */
  method PrimStep(m: Matrix, ghost all: set<nat>, last: nat, ghost target: nat,
                  ghost tree: set<nat>, left: set<nat>, pq: multiset<Edge>, cost: nat)
    returns (ghost tree': set<nat>, left': set<nat>, pq': multiset<Edge>, cost': nat)
    requires IsMatrix(m) && NodesIn(m, all) && last in all
    requires tree == {} ==> target == PrimFrom(m, {last}, all - {last})
    requires PrimInv(m, all, last, target, tree, left, pq, cost) && left != {}
    ensures PrimInv(m, all, last, target, tree', left', pq', cost')
    ensures |left'| < |left| || (left' == left && |pq'| < |pq|)
    ensures tree' != {} && (tree == {} ==> tree' == {last})
  {
    HeapNonEmpty(m, all, last, target, tree, left, pq, cost);
    var top, rest := PopMin(pq);
    if top.node !in left {
      SkipKeeps(m, all, last, target, tree, left, pq, cost, top);
      tree', left', pq', cost' := tree, left, rest, cost;
    } else {
      pq' := AddNode(m, all, last, target, tree, left, pq, cost, top, rest);
      tree', left', cost' := tree + {top.node}, left - {top.node}, cost + top.cost;
    }
  }

  /** The popped node is still to be added: queue its pairs into what is left. */
  method AddNode(m: Matrix, ghost all: set<nat>, last: nat, ghost target: nat,
                 ghost tree: set<nat>, left: set<nat>, pq: multiset<Edge>, cost: nat,
                 top: Edge, rest: multiset<Edge>)
    returns (pq': multiset<Edge>)
    requires IsMatrix(m) && NodesIn(m, all) && last in all
    requires tree == {} ==> target == PrimFrom(m, {last}, all - {last})
    requires PrimInv(m, all, last, target, tree, left, pq, cost)
    requires top in pq && (forall x :: x in pq ==> EdgeLe(top, x)) && top.node in left
    requires rest == pq - multiset{top}
    ensures PrimInv(m, all, last, target, tree + {top.node}, left - {top.node}, pq', cost + top.cost)
  {
    pq' := PushPairs(m, rest, top.node, left - {top.node});
    AddStep(m, tree, left, pq, top, pq');
    AddKeeps(m, all, last, target, tree, left, pq, cost, top, pq');
  }

  /** `calcMSTcost(node, coin_distance)` for a node with these unvisited coins and this last id. */
  method CalcMstCost(m: Matrix, unvisited: set<nat>, last: nat) returns (currCost: nat)
    requires IsMatrix(m) && NodesIn(m, unvisited) && last < |m|
    ensures currCost == MstBound(m, unvisited, last)
  {
    currCost := 0;
    var left := unvisited + {0, last};
    ghost var all := left;
    ghost var target := MstBound(m, unvisited, last);
    ghost var tree: set<nat> := {};
    var pq := multiset{Edge(0, last)};
    while |left| != 0
      invariant PrimInv(m, all, last, target, tree, left, pq, currCost)
      invariant tree == {} ==> target == PrimFrom(m, {last}, all - {last})
      decreases |left|, |pq|
    {
      tree, left, pq, currCost := PrimStep(m, all, last, target, tree, left, pq, currCost);
    }
    assert tree != {};
  }

  // ---------------------------------------------------------------------------
  // Values in simple cases

  /** Nothing left but the last id itself: the bound is 0 (a closed path ending at the origin). */
  lemma MstOfLoneNode(m: Matrix, unvisited: set<nat>, last: nat)
    requires IsMatrix(m) && NodesIn(m, unvisited) && last < |m|
    requires unvisited + {0, last} == {last}
    ensures MstBound(m, unvisited, last) == 0
  {
  }

  /** With every coin visited and the path at coin k, the bound is the cost of returning from k to the origin. */
  lemma MstOfLastLeg(m: Matrix, k: nat)
    requires IsMatrix(m) && 0 < k < |m|
    ensures MstBound(m, {}, k) == m[k][0]
  {
    var all: set<nat> := {} + {0, k};
    assert all - {k} == {0};
    assert Edges(m, {k}, {0}) == {Edge(m[k][0], 0)};
    assert MinEdge(Edges(m, {k}, {0})) == Edge(m[k][0], 0);
    assert {k} + {0} - {0} == {k, 0} - {0};
  }
}
