/**
  The greedy agent (`Aki.get_agent_path`).

  From the origin, repeatedly move to the unvisited coin that is nearest to
  the current position, breaking ties by the smaller id; when every coin is
  visited, return to the origin.
 */
module Greedy {
  import opened Tours

  /** Coin `i` is strictly preferred to coin `j` from `cur`: nearer, or as near with a smaller id. */
  predicate Nearer(m: Matrix, cur: nat, i: nat, j: nat)
    requires IsMatrix(m) && cur < |m| && i < |m| && j < |m|
  {
    m[cur][i] < m[cur][j] || (m[cur][i] == m[cur][j] && i < j)
  }

  lemma NearerTransitive(m: Matrix, cur: nat, a: nat, b: nat, c: nat)
    requires IsMatrix(m) && cur < |m| && a < |m| && b < |m| && c < |m|
    ensures Nearer(m, cur, a, b) && Nearer(m, cur, b, c) ==> Nearer(m, cur, a, c)
  {
  }

  /** `stack[k]` is the unvisited coin from `stack[k-1]` that no other unvisited coin is preferred to. */
  predicate GreedyStep(m: Matrix, stack: seq<nat>, k: nat)
    requires IsMatrix(m) && InRange(m, stack) && 1 <= k < |stack|
  {
    var cands := Unvisited(|m| - 1, stack[..k]);
    && stack[k] in cands
    && forall i :: i in cands ==> !Nearer(m, stack[k - 1], i, stack[k])
  }

  /** Every coin of `stack` after the origin was a greedy choice. */
  predicate GreedyPath(m: Matrix, stack: seq<nat>)
    requires IsMatrix(m) && InRange(m, stack)
  {
    forall k :: 1 <= k < |stack| && k <= |m| - 1 ==> GreedyStep(m, stack, k)
  }

  /** The scan `for i in unvisited: ...` keeps the preferred coin seen so far. */
  method NearestFrom(m: Matrix, cur: nat, unvisited: set<nat>, first: nat) returns (best: nat)
    requires IsMatrix(m) && cur < |m| && first in unvisited
    requires forall i :: i in unvisited ==> i < |m|
    ensures best in unvisited
    ensures forall i :: i in unvisited ==> !Nearer(m, cur, i, best)
  {
    best := first;
    var bestDist := m[cur][best];
    var rest := unvisited;
    while rest != {}
      invariant rest <= unvisited && best in unvisited && bestDist == m[cur][best]
      invariant forall i :: i in unvisited - rest ==> !Nearer(m, cur, i, best)
      decreases rest
    {
      var i :| i in rest;
      if m[cur][i] < bestDist || (m[cur][i] == bestDist && i < best) {
        forall j | j in unvisited - rest
          ensures !Nearer(m, cur, j, i)
        {
          NearerTransitive(m, cur, j, i, best);
        }
        best := i;
        bestDist := m[cur][i];
      }
      rest := rest - {i};
    }
  }

  /** The loop invariant of Aki: a greedy path from the origin, and the coins it has not visited. */
  predicate AkiInv(m: Matrix, stack: seq<nat>, unvisited: set<nat>)
    requires IsMatrix(m)
  {
    && 1 <= |stack| <= |m| && stack[0] == 0 && InRange(m, stack)
    && Distinct(stack[1..]) && Elems(stack[1..]) <= Coins(|m| - 1)
    && unvisited == Unvisited(|m| - 1, stack)
    && GreedyPath(m, stack)
  }

  /** `Aki.get_agent_path(coin_distance)`. */
  method Aki(m: Matrix) returns (stack: seq<nat>)
    requires IsMatrix(m)
    ensures IsTour(stack, Size(m)) && InRange(m, stack)
    ensures GreedyPath(m, stack)
  {
    stack := [0];
    var unvisited := Coins(Size(m));
    AkiStart(m);
    while |unvisited| > 0
      invariant AkiInv(m, stack, unvisited)
      decreases |unvisited|
    {
      var next := NextCoin(m, stack, unvisited);
      stack := stack + [next];
      unvisited := unvisited - {next};
    }
    AkiDone(m, stack);
    stack := stack + [0];
  }

  /** One round of the loop: the coin nearest to the last one, among the unvisited. */
  method NextCoin(m: Matrix, stack: seq<nat>, unvisited: set<nat>) returns (next: nat)
    requires IsMatrix(m) && AkiInv(m, stack, unvisited) && unvisited != {}
    ensures next in unvisited
    ensures forall i :: i in unvisited ==> !Nearer(m, stack[|stack| - 1], i, next)
    ensures AkiInv(m, stack + [next], unvisited - {next}) && |unvisited - {next}| < |unvisited|
  {
    var curr := stack[|stack| - 1];
    // `unvisited.pop()` followed by `unvisited.add(min)`: some coin, the set unchanged
    var first :| first in unvisited;
    next := NearestFrom(m, curr, unvisited, first);
    AkiStep(m, stack, unvisited, next);
  }

  /** The origin alone, with every coin unvisited, satisfies the invariant. */
  lemma AkiStart(m: Matrix)
    requires IsMatrix(m)
    ensures AkiInv(m, [0], Coins(Size(m)))
  {
    assert [0][1..] == [];
  }

  /** Taking the greedy coin keeps the invariant. */
  lemma AkiStep(m: Matrix, stack: seq<nat>, unvisited: set<nat>, next: nat)
    requires IsMatrix(m) && AkiInv(m, stack, unvisited)
    requires next in unvisited
    requires forall i :: i in unvisited ==> !Nearer(m, stack[|stack| - 1], i, next)
    ensures AkiInv(m, stack + [next], unvisited - {next}) && |unvisited - {next}| < |unvisited|
  {
    var n := |m| - 1;
    DistinctCoinsCard(stack[1..], n);
    GreedyExtend(m, stack, unvisited, next);
    VisitOne(m, stack, unvisited, next);
  }

  /** Visiting one more unvisited coin keeps the path distinct and moves the coin out of the unvisited set. */
  lemma VisitOne(m: Matrix, stack: seq<nat>, unvisited: set<nat>, next: nat)
    requires IsMatrix(m) && 1 <= |stack| && stack[0] == 0 && InRange(m, stack)
    requires Distinct(stack[1..]) && Elems(stack[1..]) <= Coins(|m| - 1)
    requires unvisited == Unvisited(|m| - 1, stack) && next in unvisited
    ensures var s := stack + [next];
      && s[0] == 0 && InRange(m, s)
      && Distinct(s[1..]) && Elems(s[1..]) <= Coins(|m| - 1)
      && unvisited - {next} == Unvisited(|m| - 1, s)
  {
    var s := stack + [next];
    assert s[1..] == stack[1..] + [next];
    AppendFresh(stack[1..], next);
  }

  /** With nothing unvisited, the path holds every coin once. */
  lemma AkiDone(m: Matrix, stack: seq<nat>)
    requires IsMatrix(m) && AkiInv(m, stack, {})
    ensures IsTour(stack + [0], |m| - 1) && InRange(m, stack + [0]) && GreedyPath(m, stack + [0])
  {
    var n := |m| - 1;
    DistinctCoinsCard(stack[1..], n);
    assert Elems(stack[1..]) == Coins(n);
    GreedyClose(m, stack);
  }

  /** Appending a greedy choice keeps every earlier step and makes the new one greedy. */
  lemma GreedyExtend(m: Matrix, stack: seq<nat>, cands: set<nat>, next: nat)
    requires IsMatrix(m) && InRange(m, stack) && 1 <= |stack| <= |m| - 1
    requires GreedyPath(m, stack) && cands == Unvisited(|m| - 1, stack)
    requires next in cands
    requires forall i :: i in cands ==> !Nearer(m, stack[|stack| - 1], i, next)
    ensures InRange(m, stack + [next]) && GreedyPath(m, stack + [next])
  {
    var s := stack + [next];
    forall k | 1 <= k < |s| && k <= |m| - 1
      ensures GreedyStep(m, s, k)
    {
      assert s[..k] == if k < |stack| then stack[..k] else stack;
      if k < |stack| {
        assert GreedyStep(m, stack, k);
      }
    }
  }

  /** Closing the full greedy path at the origin keeps it greedy and makes it a tour. */
  lemma GreedyClose(m: Matrix, stack: seq<nat>)
    requires IsMatrix(m) && InRange(m, stack) && |stack| == |m| && stack[0] == 0
    requires Distinct(stack[1..]) && Elems(stack[1..]) == Coins(|m| - 1)
    requires GreedyPath(m, stack)
    ensures IsTour(stack + [0], |m| - 1) && InRange(m, stack + [0]) && GreedyPath(m, stack + [0])
  {
    var s := stack + [0];
    assert s[1..|m|] == stack[1..];
    forall k | 1 <= k < |s| && k <= |m| - 1
      ensures GreedyStep(m, s, k)
    {
      assert s[..k] == stack[..k];
      assert GreedyStep(m, stack, k);
    }
  }

  /** The greedy choice is unique: two greedy tours of the same matrix are the same tour. */
  lemma GreedyUnique(m: Matrix, s: seq<nat>, t: seq<nat>)
    requires IsMatrix(m) && InRange(m, s) && InRange(m, t)
    requires IsTour(s, |m| - 1) && IsTour(t, |m| - 1)
    requires GreedyPath(m, s) && GreedyPath(m, t)
    ensures s == t
  {
    var n := |m| - 1;
    var k := 1;
    while k <= n
      invariant 1 <= k <= n + 1 && s[..k] == t[..k]
    {
      assert GreedyStep(m, s, k) && GreedyStep(m, t, k);
      var cands := Unvisited(n, s[..k]);
      assert Unvisited(n, t[..k]) == cands;
      if s[k] != t[k] {
        assert false;
      }
      assert s[..k + 1] == s[..k] + [s[k]] && t[..k + 1] == t[..k] + [t[k]];
      k := k + 1;
    }
    assert s == s[..n + 1] + [0] && t == t[..n + 1] + [0];
  }
}
