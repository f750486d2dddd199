/**
  The frontier ordering of the branch-and-bound searches.

  A frontier entry carries its accumulated cost, its path (which starts at
  the origin), the set of coins it has not visited yet, and the MST bound
  computed when the entry was made (left at 0 by the plain search, whose
  entries have no such field). Both entry kinds compare by the same
  three-level rule on a key: lower priority first, then longer path first,
  then smaller last id first. They differ only in the priority: the cost for
  the plain entry, the cost plus the MST bound for the bounded one.
 */
module Ordering {

  datatype Entity = Entity(cost: nat, path: seq<nat>, unvisited: set<nat>, mstCost: nat)

  /** What the comparison looks at: priority, path length and last id. */
  datatype Key = Key(priority: nat, length: nat, last: nat)

  /** The three-level comparison, branch by branch. */
  predicate Before(a: Key, b: Key) {
    if a.priority < b.priority then true
    else if a.priority > b.priority then false
    else if a.length > b.length then true
    else if a.length < b.length then false
    else if a.last < b.last then true
    else false
  }

  function Last(p: seq<nat>): nat
    requires p != []
  {
    p[|p| - 1]
  }

  /** The key of a plain entry: its cost comes first. */
  function PlainKey(e: Entity): Key
    requires e.path != []
  {
    Key(e.cost, |e.path|, Last(e.path))
  }

  /** The key of an MST-bounded entry: cost plus bound comes first. */
  function MstKey(e: Entity): Key
    requires e.path != []
  {
    Key(e.cost + e.mstCost, |e.path|, Last(e.path))
  }

  /** "a is served before b" in the plain search. */
  predicate EntityLess(a: Entity, b: Entity)
    requires a.path != [] && b.path != []
  {
    Before(PlainKey(a), PlainKey(b))
  }

  /** "a is served before b" in the MST-bounded search. */
  predicate MickoLess(a: Entity, b: Entity)
    requires a.path != [] && b.path != []
  {
    Before(MstKey(a), MstKey(b))
  }

  // ---------------------------------------------------------------------------
  // An independent statement of the same order: lexicographic on
  // (priority, -length, last), compared as integers.

  predicate LexLess(x: (int, int, int), y: (int, int, int)) {
    x.0 < y.0 || (x.0 == y.0 && (x.1 < y.1 || (x.1 == y.1 && x.2 < y.2)))
  }

  function Triple(k: Key): (int, int, int) {
    (k.priority as int, -(k.length as int), k.last as int)
  }

  lemma BeforeIsLexicographic(a: Key, b: Key)
    ensures Before(a, b) <==> LexLess(Triple(a), Triple(b))
  {
  }

  lemma BeforeIrreflexive(a: Key)
    ensures !Before(a, a)
  {
  }

  lemma BeforeAsymmetric(a: Key, b: Key)
    ensures Before(a, b) ==> !Before(b, a)
  {
  }

  lemma BeforeTransitive(a: Key, b: Key, c: Key)
    ensures Before(a, b) && Before(b, c) ==> Before(a, c)
  {
  }

  /** Two keys are mutually not-before exactly when they agree on all three levels. */
  lemma BeforeIncomparable(a: Key, b: Key)
    ensures !Before(a, b) && !Before(b, a) <==> a == b
  {
  }

  /** Incomparability is transitive, so the order is a strict weak order. */
  lemma BeforeIncomparableTransitive(a: Key, b: Key, c: Key)
    ensures (!Before(a, b) && !Before(b, a) && !Before(b, c) && !Before(c, b))
            ==> !Before(a, c) && !Before(c, a)
  {
  }

  /** "Not before" is total and transitive: it is the matching non-strict order. */
  lemma NotBeforeTransitive(a: Key, b: Key, c: Key)
    ensures !Before(b, a) && !Before(c, b) ==> !Before(c, a)
  {
  }

  /** The two entry kinds agree whenever the bounds agree. */
  lemma PlainIsMickoWithoutBound(a: Entity, b: Entity)
    requires a.path != [] && b.path != []
    ensures a.mstCost == b.mstCost ==> (EntityLess(a, b) <==> MickoLess(a, b))
  {
  }
}
