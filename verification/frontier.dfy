/** The search frontier: nodes ordered by cost plus heuristic, kept as a
    multiset from which some node of least priority is extracted. Which of
    several equally good nodes comes out is left open, as it is for a
    binary-heap priority queue. */
module Frontier {
  import opened GridWorld

  /** A frontier entry: a cell, the cost of the route that reached it and
      the heuristic estimate from it to the goal. */
  datatype Node = Node(x: int, y: int, cost: int, heuristic: int)

  /** The cell a node stands for. */
  function At(n: Node): Pos {
    Pos(n.x, n.y)
  }

  function Priority(n: Node): int {
    n.cost + n.heuristic
  }

  /** The queue's ordering: a node is greater when its cost plus heuristic is. */
  predicate Greater(a: Node, b: Node) {
    Priority(a) > Priority(b)
  }

  /** The ordering is a strict weak order, as the priority queue requires:
      irreflexive, transitive, and two nodes are incomparable exactly when
      their priorities tie. */
  lemma GreaterIsStrictWeakOrder(a: Node, b: Node, c: Node)
    ensures !Greater(a, a)
    ensures Greater(a, b) && Greater(b, c) ==> Greater(a, c)
    ensures !Greater(a, b) && !Greater(b, a) <==> Priority(a) == Priority(b)
  {
  }

  /** A node that no other node of f is smaller than. */
  predicate IsMinimal(n: Node, f: multiset<Node>) {
    n in f && forall m :: m in f ==> !Greater(n, m)
  }

  /** Every non-empty frontier has a minimal node. */
  lemma {:induction false} MinimumExists(f: multiset<Node>)
    requires |f| > 0
    ensures exists n :: IsMinimal(n, f)
  {
    var a :| a in f;
    var rest := f - multiset{a};
    if |rest| == 0 {
      assert f == multiset{a};
      assert IsMinimal(a, f);
    } else {
      MinimumExists(rest);
      var b :| IsMinimal(b, rest);
      if Greater(a, b) {
        assert IsMinimal(b, f);
      } else {
        assert IsMinimal(a, f);
      }
    }
  }

  /** top() followed by pop(): removes and returns one node of least priority. */
  method PopMin(f: multiset<Node>) returns (n: Node, rest: multiset<Node>)
    requires |f| > 0
    ensures n in f && rest == f - multiset{n}
    ensures forall m :: m in f ==> Priority(n) <= Priority(m)
  {
    MinimumExists(f);
    n :| IsMinimal(n, f);
    rest := f - multiset{n};
  }

  /** A sequence of priorities in non-decreasing order. */
  predicate Ascending(ps: seq<int>) {
    forall k, l :: 0 <= k < l < |ps| ==> ps[k] <= ps[l]
  }

  /** Every priority popped so far is at most `floor`. */
  predicate Below(ps: seq<int>, floor: int) {
    forall k :: 0 <= k < |ps| ==> ps[k] <= floor
  }

  /** Every node still waiting has priority at least `floor`. */
  predicate Above(f: multiset<Node>, floor: int) {
    forall n :: n in f ==> floor <= Priority(n)
  }

  /** The record of a search's pops: the priorities popped so far are in
      order and none lies above `floor`, which no queued node lies below;
      before the first pop the frontier holds just `first`, and the first
      priority popped is that of `first`. */
  predicate PopLog(ps: seq<int>, floor: int, f: multiset<Node>, first: Node) {
    && Ascending(ps) && Below(ps, floor) && Above(f, floor)
    && (|ps| == 0 ==> f == multiset{first})
    && (|ps| > 0 ==> ps[0] == Priority(first))
  }

  /** Popping a node from a frontier none of whose nodes lies below what
      was popped before keeps the popped priorities in order; the first pop
      is `first`. */
  lemma PopAscending(ps: seq<int>, floor: int, f: multiset<Node>, first: Node, n: Node)
    requires PopLog(ps, floor, f, first)
    requires n in f
    ensures Ascending(ps + [Priority(n)]) && Below(ps + [Priority(n)], Priority(n))
    ensures (ps + [Priority(n)])[0] == Priority(first)
  {
  }
}
