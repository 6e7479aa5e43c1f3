/** A* search from a start cell to a goal cell of the grid: the frontier
    loop, the relaxation of the four neighbours, and the backtrace that
    overlays the found path on the grid. */
module AStar {
  import opened GridWorld
  import opened Walks
  import opened Frontier

  /** The cost every cell but the start has before it is reached (the
      search's "infinity"). */
  const Unreached: int := 1_000_000_000

  /** The search's working state as a value: the cost table read in key
      order, the frontier, and the predecessor table keyed by Key. */
  datatype State = State(costs: seq<int>, frontier: multiset<Node>, prev: map<int, Pos>)

  predicate WellSized(s: State) {
    |s.costs| == Width * Height
  }

  /** The recorded cost of a cell. */
  function Cost(s: State, p: Pos): int
    requires WellSized(s) && InBounds(p)
  {
    s.costs[Key(p)]
  }

  /** The cost table read in key order, as the value the invariants speak of. */
  ghost function Flatten(costs: array2<int>): (t: seq<int>)
    reads costs
    requires Shaped(costs)
    ensures |t| == Width * Height
    ensures forall p :: InBounds(p) ==> t[Key(p)] == costs[p.y, p.x]
  {
    seq(Width * Height, k requires 0 <= k < Width * Height reads costs => costs[k / Width, k % Width])
  }

  // ---------------------------------------------------------------------
  // The search invariant, piece by piece.

  /** Costs lie between 0 and the sentinel, and the start costs 0. */
  ghost predicate CostsValid(s: State, start: Pos) {
    && WellSized(s)
    && InBounds(start)
    && Cost(s, start) == 0
    && forall p :: InBounds(p) ==> 0 <= Cost(s, p) <= Unreached
  }

  /** Only the start and free cells are ever given a cost. */
  ghost predicate ReachedAreFree(g: seq<seq<char>>, s: State, start: Pos)
    requires WellSized(s)
  {
    forall p :: InBounds(p) && Cost(s, p) < Unreached ==> p == start || Free(g, p)
  }

  /** Each frontier node is an in-bounds cell whose recorded cost is no
      more than the node's, and carries its true heuristic. */
  ghost predicate FrontierValid(s: State, goal: Pos)
    requires WellSized(s)
  {
    forall n :: n in s.frontier ==>
      && InBounds(At(n))
      && Cost(s, At(n)) <= n.cost < Unreached
      && n.heuristic == Distance(At(n), goal)
  }

  /** Exactly the reached cells other than the start have a predecessor; it
      is a 4-neighbour with a strictly smaller recorded cost. */
  ghost predicate PredValid(s: State, start: Pos)
    requires WellSized(s)
  {
    && (forall k :: k in s.prev ==> 0 <= k < Width * Height)
    && (forall p :: InBounds(p) ==> (Key(p) in s.prev <==> p != start && Cost(s, p) < Unreached))
    && (forall p :: InBounds(p) && Key(p) in s.prev ==>
          && InBounds(s.prev[Key(p)])
          && Adjacent(p, s.prev[Key(p)])
          && Cost(s, s.prev[Key(p)]) < Cost(s, p))
  }

  /** The frontier holds a node for p at p's current recorded cost. */
  ghost predicate Open(s: State, goal: Pos, p: Pos)
    requires WellSized(s) && InBounds(p)
  {
    Node(p.x, p.y, Cost(s, p), Distance(p, goal)) in s.frontier
  }

  /** p has been expanded at its current cost: no free neighbour costs more
      than one move beyond it. */
  ghost predicate Closed(g: seq<seq<char>>, s: State, p: Pos)
    requires WellSized(s) && InBounds(p)
  {
    forall i :: 0 <= i < 4 && Free(g, Step(p, i)) ==> Cost(s, Step(p, i)) <= Cost(s, p) + 1
  }

  /** A reached cell is open or closed; the goal, never expanded, is open. */
  ghost predicate Settled(g: seq<seq<char>>, s: State, goal: Pos, p: Pos)
    requires WellSized(s) && InBounds(p)
  {
    Cost(s, p) < Unreached ==> Open(s, goal, p) || (p != goal && Closed(g, s, p))
  }

  /** The bookkeeping shared by the loop head and the neighbour loop. */
  ghost predicate Tables(g: seq<seq<char>>, s: State, start: Pos, goal: Pos) {
    && CostsValid(s, start)
    && InBounds(goal)
    && ReachedAreFree(g, s, start)
    && FrontierValid(s, goal)
    && PredValid(s, start)
  }

  /** What holds each time the search loop is about to pop a node. */
  ghost predicate SearchInv(g: seq<seq<char>>, s: State, start: Pos, goal: Pos) {
    && Tables(g, s, start, goal)
    && forall p :: InBounds(p) ==> Settled(g, s, goal, p)
  }

  /** The popped node `current` is not the goal, is in bounds, and was
      queued at or above its cell's recorded cost. */
  ghost predicate Popped(s: State, goal: Pos, current: Node)
    requires WellSized(s)
  {
    && InBounds(At(current))
    && At(current) != goal
    && Cost(s, At(current)) <= current.cost < Unreached
    && current.heuristic == Distance(At(current), goal)
  }

  /** What holds while the neighbours of `current` are relaxed: the search
      invariant, except that the popped cell need not be settled when the
      popped node was its open entry. */
  ghost predicate Expanding(g: seq<seq<char>>, s: State, start: Pos, goal: Pos, current: Node) {
    && Tables(g, s, start, goal)
    && Popped(s, goal, current)
    && forall p :: InBounds(p) && (p != At(current) || current.cost != Cost(s, p)) ==>
         Settled(g, s, goal, p)
  }

  /** No recorded cost went up from s to s'. */
  ghost predicate NoIncrease(s: State, s': State)
    requires WellSized(s) && WellSized(s')
  {
    forall p :: InBounds(p) ==> Cost(s', p) <= Cost(s, p)
  }

  // ---------------------------------------------------------------------
  // The termination measure: the sum of the cost table plus the frontier size.

  function Sum(t: seq<int>): int {
    if t == [] then 0 else t[0] + Sum(t[1..])
  }

  lemma {:induction false} SumNonNegative(t: seq<int>)
    requires forall k :: 0 <= k < |t| ==> t[k] >= 0
    ensures Sum(t) >= 0
  {
    if t != [] {
      SumNonNegative(t[1..]);
    }
  }

  lemma {:induction false} SumUpdate(t: seq<int>, k: int, v: int)
    requires 0 <= k < |t|
    ensures Sum(t[k := v]) == Sum(t) - t[k] + v
  {
    if k == 0 {
      assert t[k := v][1..] == t[1..];
    } else {
      SumUpdate(t[1..], k - 1, v);
      assert t[k := v][1..] == t[1..][k - 1 := v];
    }
  }

  ghost function Measure(s: State): int {
    Sum(s.costs) + |s.frontier|
  }

  lemma MeasureNonNegative(s: State, start: Pos)
    requires CostsValid(s, start)
    ensures Measure(s) >= 0
  {
    forall k | 0 <= k < |s.costs|
      ensures s.costs[k] >= 0
    {
      assert Cost(s, CellOfKey(k)) >= 0;
    }
    SumNonNegative(s.costs);
  }

  // ---------------------------------------------------------------------
  // One relaxation, as a function on states, and what it preserves.

  /** Relaxing the neighbour of `current` in direction i: if that neighbour
      is free and reached more cheaply through `current`, its cost is
      lowered to current.cost + 1, a node for it is queued and `current`
      becomes its predecessor; otherwise nothing changes. */
  function Relaxed(g: seq<seq<char>>, s: State, current: Node, i: int, goal: Pos): State
    requires WellSized(s) && 0 <= i < 4
  {
    var q := Step(At(current), i);
    if Free(g, q) && current.cost + 1 < Cost(s, q) then
      State(s.costs[Key(q) := current.cost + 1],
            s.frontier + multiset{Node(q.x, q.y, current.cost + 1, Distance(q, goal))},
            s.prev[Key(q) := At(current)])
    else
      s
  }

  /** s' is s after lowering the cost of the free neighbour q of `current`
      to current.cost + 1, queueing q and recording `current` as q's
      predecessor. */
  ghost predicate IsRelaxation(g: seq<seq<char>>, s: State, s': State, current: Node, q: Pos, goal: Pos) {
    && WellSized(s) && WellSized(s')
    && Free(g, q)
    && Adjacent(At(current), q)
    && Cost(s', q) == current.cost + 1 < Cost(s, q)
    && s'.costs == s.costs[Key(q) := current.cost + 1]
    && (forall p :: InBounds(p) && p != q ==> Cost(s', p) == Cost(s, p))
    && s'.frontier == s.frontier + multiset{Node(q.x, q.y, current.cost + 1, Distance(q, goal))}
    && s'.prev == s.prev[Key(q) := At(current)]
  }

  /** A relaxation that changes anything is an IsRelaxation step. */
  lemma RelaxedIsRelaxation(g: seq<seq<char>>, s: State, current: Node, i: int, goal: Pos)
    requires WellSized(s) && 0 <= i < 4
    ensures var s' := Relaxed(g, s, current, i, goal);
      s' == s || IsRelaxation(g, s, s', current, Step(At(current), i), goal)
  {
    var s' := Relaxed(g, s, current, i, goal);
    var q := Step(At(current), i);
    StepIsAdjacent(At(current), i);
    if s' != s {
      forall p | InBounds(p) && p != q
        ensures Key(p) != Key(q)
      {
        KeyInjective(p, q);
      }
    }
  }

  lemma RelaxKeepsCosts(g: seq<seq<char>>, s: State, s': State, start: Pos, goal: Pos, current: Node, q: Pos)
    requires Expanding(g, s, start, goal, current)
    requires IsRelaxation(g, s, s', current, q, goal)
    ensures CostsValid(s', start) && ReachedAreFree(g, s', start) && NoIncrease(s, s')
  {
  }

  lemma RelaxKeepsFrontier(g: seq<seq<char>>, s: State, s': State, start: Pos, goal: Pos, current: Node, q: Pos)
    requires Expanding(g, s, start, goal, current)
    requires IsRelaxation(g, s, s', current, q, goal)
    ensures FrontierValid(s', goal)
  {
  }

  lemma RelaxKeepsPred(g: seq<seq<char>>, s: State, s': State, start: Pos, goal: Pos, current: Node, q: Pos)
    requires Expanding(g, s, start, goal, current)
    requires IsRelaxation(g, s, s', current, q, goal)
    ensures PredValid(s', start)
  {
    KeyInjective(q, q);
    assert q != start;
    forall p | InBounds(p)
      ensures Key(p) in s'.prev <==> p != start && Cost(s', p) < Unreached
    {
      KeyInjective(p, q);
    }
    forall p | InBounds(p) && Key(p) in s'.prev
      ensures && InBounds(s'.prev[Key(p)])
              && Adjacent(p, s'.prev[Key(p)])
              && Cost(s', s'.prev[Key(p)]) < Cost(s', p)
    {
      KeyInjective(p, q);
      if p == q {
        AdjacentSymmetric(At(current), q);
      } else {
        assert s'.prev[Key(p)] == s.prev[Key(p)];
      }
    }
  }

  /** Every cell settled before a relaxation is settled after it; the
      relaxed cell is open. */
  lemma RelaxKeepsSettled(g: seq<seq<char>>, s: State, s': State, start: Pos, goal: Pos, current: Node, q: Pos)
    requires Expanding(g, s, start, goal, current)
    requires IsRelaxation(g, s, s', current, q, goal)
    ensures Popped(s', goal, current)
    ensures forall p :: InBounds(p) && (p != At(current) || current.cost != Cost(s', p)) ==>
              Settled(g, s', goal, p)
  {
    assert q != At(current);
    forall p | InBounds(p) && (p != At(current) || current.cost != Cost(s', p))
      ensures Settled(g, s', goal, p)
    {
      if p == q {
        assert Open(s', goal, p);
      } else if Cost(s', p) < Unreached {
        assert Settled(g, s, goal, p);
        if !Open(s, goal, p) {
          assert Closed(g, s, p);
          forall j | 0 <= j < 4 && Free(g, Step(p, j))
            ensures Cost(s', Step(p, j)) <= Cost(s', p) + 1
          {
            assert Cost(s, Step(p, j)) <= Cost(s, p) + 1;
          }
        }
      }
    }
  }

  /** A relaxation step keeps the neighbour-loop invariant. */
  lemma RelaxKeepsExpanding(g: seq<seq<char>>, s: State, s': State, start: Pos, goal: Pos, current: Node, q: Pos)
    requires Expanding(g, s, start, goal, current)
    requires IsRelaxation(g, s, s', current, q, goal)
    ensures Expanding(g, s', start, goal, current) && NoIncrease(s, s')
  {
    RelaxKeepsCosts(g, s, s', start, goal, current, q);
    RelaxKeepsFrontier(g, s, s', start, goal, current, q);
    RelaxKeepsPred(g, s, s', start, goal, current, q);
    RelaxKeepsSettled(g, s, s', start, goal, current, q);
  }

  /** A relaxation step queues one node no better than `current`
      (consistency of the heuristic) and does not raise the termination
      measure: the cost drops by at least one while one node is added. */
  lemma RelaxKeepsOrder(g: seq<seq<char>>, s: State, s': State, current: Node, q: Pos, goal: Pos)
    requires IsRelaxation(g, s, s', current, q, goal)
    requires current.heuristic == Distance(At(current), goal)
    ensures forall n :: n in s'.frontier ==> n in s.frontier || Priority(n) >= Priority(current)
    ensures Measure(s') <= Measure(s)
  {
    HeuristicStep(At(current), q, goal);
    KeyInjective(q, q);
    SumUpdate(s.costs, Key(q), current.cost + 1);
  }

  /** A relaxation keeps the neighbour-loop invariant, never raises a cost,
      leaves the relaxed neighbour within one move of `current`, queues only
      nodes no better than `current` and does not increase the termination
      measure. */
  lemma RelaxPreserves(g: seq<seq<char>>, s: State, start: Pos, goal: Pos, current: Node, i: int)
    requires Expanding(g, s, start, goal, current)
    requires 0 <= i < 4
    ensures var s' := Relaxed(g, s, current, i, goal);
      && Expanding(g, s', start, goal, current)
      && NoIncrease(s, s')
      && (Free(g, Step(At(current), i)) ==> Cost(s', Step(At(current), i)) <= current.cost + 1)
      && (forall n :: n in s'.frontier ==> n in s.frontier || Priority(n) >= Priority(current))
      && Measure(s') <= Measure(s)
  {
    var s' := Relaxed(g, s, current, i, goal);
    var q := Step(At(current), i);
    RelaxedIsRelaxation(g, s, current, i, goal);
    if s' != s {
      RelaxKeepsExpanding(g, s, s', start, goal, current, q);
      RelaxKeepsOrder(g, s, s', current, q, goal);
    }
  }

  /** The neighbours of `current` in directions 0 .. i-1 are within one
      move of it. */
  ghost predicate Relaxing(g: seq<seq<char>>, s: State, current: Node, i: int)
    requires WellSized(s)
  {
    forall j :: 0 <= j < i && j < 4 && Free(g, Step(At(current), j)) ==>
      Cost(s, Step(At(current), j)) <= current.cost + 1
  }

  /** From s0 to s no cost went up, every newly queued node is no better
      than `current`, and the termination measure did not grow. */
  ghost predicate Progress(s0: State, s: State, current: Node) {
    && WellSized(s0) && WellSized(s)
    && NoIncrease(s0, s)
    && (forall n :: n in s.frontier ==> n in s0.frontier || Priority(n) >= Priority(current))
    && Measure(s) <= Measure(s0)
  }

  lemma RelaxingStep(g: seq<seq<char>>, s: State, s': State, current: Node, i: int)
    requires WellSized(s) && WellSized(s') && 0 <= i < 4
    requires Relaxing(g, s, current, i) && NoIncrease(s, s')
    requires Free(g, Step(At(current), i)) ==> Cost(s', Step(At(current), i)) <= current.cost + 1
    ensures Relaxing(g, s', current, i + 1)
  {
  }

  /** After expanding a node popped with least priority, no queued node
      has a smaller priority than it. */
  lemma ProgressAbove(s0: State, s: State, current: Node)
    requires Progress(s0, s, current)
    requires Above(s0.frontier, Priority(current))
    ensures Above(s.frontier, Priority(current))
  {
  }

  /** After a non-goal pop and the expansion of the popped node, the record
      of pops holds again, with the popped priority as its floor. */
  lemma ExpansionResumes(s0: State, s: State, current: Node, pops: seq<int>, first: Node)
    requires Progress(s0, s, current) && Above(s0.frontier, Priority(current))
    requires Ascending(pops) && Below(pops, Priority(current))
    requires |pops| > 0 && pops[0] == Priority(first)
    ensures PopLog(pops, Priority(current), s.frontier, first)
  {
    ProgressAbove(s0, s, current);
  }

  lemma ProgressStep(s0: State, s: State, s': State, current: Node)
    requires Progress(s0, s, current) && WellSized(s')
    requires NoIncrease(s, s') && Measure(s') <= Measure(s)
    requires forall n :: n in s'.frontier ==> n in s.frontier || Priority(n) >= Priority(current)
    ensures Progress(s0, s', current)
  {
  }

  // ---------------------------------------------------------------------
  // Popping, and closing the popped cell.

  /** Dropping nodes from the frontier keeps the tables valid. */
  lemma ShrinkKeepsTables(g: seq<seq<char>>, s: State, r: State, start: Pos, goal: Pos)
    requires Tables(g, s, start, goal)
    requires r.costs == s.costs && r.prev == s.prev && r.frontier <= s.frontier
    ensures Tables(g, r, start, goal)
  {
    assert CostsValid(r, start);
    assert ReachedAreFree(g, r, start);
    assert PredValid(r, start);
  }

  /** Taking a minimal node that is not the goal off the frontier leaves
      the neighbour-loop invariant. */
  lemma PopKeepsInvariant(g: seq<seq<char>>, s: State, start: Pos, goal: Pos, current: Node)
    requires SearchInv(g, s, start, goal)
    requires current in s.frontier && At(current) != goal
    ensures Expanding(g, State(s.costs, s.frontier - multiset{current}, s.prev), start, goal, current)
    ensures Measure(State(s.costs, s.frontier - multiset{current}, s.prev)) == Measure(s) - 1
  {
    var r := State(s.costs, s.frontier - multiset{current}, s.prev);
    ShrinkKeepsTables(g, s, r, start, goal);
    forall p | InBounds(p) && (p != At(current) || current.cost != Cost(r, p))
      ensures Settled(g, r, goal, p)
    {
      assert Settled(g, s, goal, p);
      if Cost(s, p) < Unreached && Open(s, goal, p) {
        assert Node(p.x, p.y, Cost(s, p), Distance(p, goal)) != current;
      }
    }
  }

  /** Once all four neighbours are within one move of the popped node, the
      popped cell is closed and the full search invariant is back. */
  lemma ExpandedIsSettled(g: seq<seq<char>>, s: State, start: Pos, goal: Pos, current: Node)
    requires Expanding(g, s, start, goal, current)
    requires Relaxing(g, s, current, 4)
    ensures SearchInv(g, s, start, goal)
  {
    var c := At(current);
    if current.cost == Cost(s, c) {
      assert Closed(g, s, c);
    }
  }

  // ---------------------------------------------------------------------
  // Why the answer is right.

  /** Along a walk from the start on which every cell up to k is reached no
      later than its position, some later cell is open at a cost no more
      than its position. */
  lemma {:induction false} OpenAlongWalk(g: seq<seq<char>>, s: State, start: Pos, goal: Pos,
                                         w: seq<Pos>, k: int)
    requires SearchInv(g, s, start, goal)
    requires IsWalk(g, w, start, goal) && |w| - 1 < Unreached
    requires 0 <= k < |w| && Cost(s, w[k]) <= k
    ensures exists i :: k <= i < |w| && Cost(s, w[i]) <= i && Open(s, goal, w[i])
    decreases |w| - k
  {
    assert InBounds(w[k]);
    assert Settled(g, s, goal, w[k]);
    if !Open(s, goal, w[k]) {
      assert k < |w| - 1;
      var j := DirectionTo(w[k], w[k + 1]);
      assert Free(g, Step(w[k], j));
      OpenAlongWalk(g, s, start, goal, w, k + 1);
    }
  }

  /** When a minimal node for the goal is popped, its cost is at most the
      length of any walk from the start to the goal. */
  lemma GoalPoppedOptimal(g: seq<seq<char>>, s: State, start: Pos, goal: Pos, current: Node, w: seq<Pos>)
    requires SearchInv(g, s, start, goal)
    requires current in s.frontier && At(current) == goal
    requires forall n :: n in s.frontier ==> Priority(current) <= Priority(n)
    requires IsWalk(g, w, start, goal)
    ensures current.cost <= |w| - 1
  {
    if |w| - 1 < Unreached {
      OpenAlongWalk(g, s, start, goal, w, 0);
      var i :| 0 <= i < |w| && Cost(s, w[i]) <= i && Open(s, goal, w[i]);
      DistanceAtMostWalk(g, w, start, goal, i);
      var n := Node(w[i].x, w[i].y, Cost(s, w[i]), Distance(w[i], goal));
      assert Priority(current) <= Priority(n);
    }
  }

  /** When the frontier is empty, no walk leads from the start to the goal. */
  lemma ExhaustedMeansUnreachable(g: seq<seq<char>>, s: State, start: Pos, goal: Pos, w: seq<Pos>)
    requires SearchInv(g, s, start, goal) && s.frontier == multiset{}
    ensures !IsWalk(g, w, start, goal)
  {
    if IsWalk(g, w, start, goal) {
      ShortWalk(g, w, start, goal);
      var v :| IsWalk(g, v, start, goal) && |v| <= Width * Height;
      OpenAlongWalk(g, s, start, goal, v, 0);
      assert false;
    }
  }

  /** The state a search run starts from: only the start is reached, at
      cost 0, and it is the only queued node. */
  lemma InitialState(g: seq<seq<char>>, s: State, start: Pos, goal: Pos)
    requires WellSized(s) && InBounds(start) && InBounds(goal)
    requires forall p :: InBounds(p) ==> Cost(s, p) == if p == start then 0 else Unreached
    requires s.frontier == multiset{Node(start.x, start.y, 0, Distance(start, goal))}
    requires s.prev == map[]
    ensures SearchInv(g, s, start, goal)
  {
    assert Open(s, goal, start);
  }

  // ---------------------------------------------------------------------
  // The search itself.

  /** One pass of the neighbour loop's body: the neighbour of `current` in
      direction i is skipped when it is off the grid or an obstacle, and is
      otherwise relaxed. */
  method Relax(grid: array2<char>, ghost g: seq<seq<char>>, costs: array2<int>,
               frontier: multiset<Node>, prev: map<int, Pos>, current: Node, i: int, goal: Pos)
    returns (frontier': multiset<Node>, prev': map<int, Pos>)
    requires Shaped(grid) && Shaped(costs) && Layout(grid) == g
    requires 0 <= i < 4
    modifies costs
    ensures State(Flatten(costs), frontier', prev') ==
            Relaxed(g, State(old(Flatten(costs)), frontier, prev), current, i, goal)
  {
    var nx := current.x + Dx[i];
    var ny := current.y + Dy[i];
    if nx < 0 || ny < 0 || nx >= Width || ny >= Height || grid[ny, nx] == Obstacle {
      return frontier, prev;
    }
    var newCost := current.cost + 1;
    if newCost < costs[ny, nx] {
      ghost var before := Flatten(costs);
      ghost var q := Pos(nx, ny);
      costs[ny, nx] := newCost;
      frontier' := frontier + multiset{Node(nx, ny, newCost, FindHeuristic(nx, ny, goal.x, goal.y))};
      prev' := prev[ny * Width + nx := Pos(current.x, current.y)];
      forall k | 0 <= k < Width * Height
        ensures Flatten(costs)[k] == before[Key(q) := newCost][k]
      {
        var c := CellOfKey(k);
        KeyInjective(c, q);
      }
    } else {
      return frontier, prev;
    }
  }

  /** The relaxations of directions 0 .. i-1 of `current`, applied in
      order to s. */
  function RelaxUpTo(g: seq<seq<char>>, s: State, current: Node, i: int, goal: Pos): (r: State)
    requires WellSized(s) && 0 <= i <= 4
    ensures WellSized(r)
    decreases i
  {
    if i == 0 then s else Relaxed(g, RelaxUpTo(g, s, current, i - 1, goal), current, i - 1, goal)
  }

  /** Relaxing the first i directions keeps the neighbour-loop invariant,
      brings those neighbours within one move of `current`, and makes
      progress: no cost rises, every new node is no better than `current`,
      and the measure does not grow. */
  lemma {:induction false} RelaxUpToPreserves(g: seq<seq<char>>, s: State, start: Pos, goal: Pos, current: Node, i: int)
    requires Expanding(g, s, start, goal, current)
    requires 0 <= i <= 4
    ensures Expanding(g, RelaxUpTo(g, s, current, i, goal), start, goal, current)
    ensures Relaxing(g, RelaxUpTo(g, s, current, i, goal), current, i)
    ensures Progress(s, RelaxUpTo(g, s, current, i, goal), current)
    decreases i
  {
    if i > 0 {
      RelaxUpToPreserves(g, s, start, goal, current, i - 1);
      var t := RelaxUpTo(g, s, current, i - 1, goal);
      var t' := Relaxed(g, t, current, i - 1, goal);
      RelaxPreserves(g, t, start, goal, current, i - 1);
      RelaxingStep(g, t, t', current, i - 1);
      ProgressStep(s, t, t', current);
    }
  }

  /** Expanding a node touches only its four neighbours: every other cell
      keeps its cost and gains no predecessor entry, and no node for it is
      queued. */
  lemma {:induction false} RelaxUpToIsLocal(g: seq<seq<char>>, s: State, current: Node, i: int, goal: Pos, p: Pos)
    requires WellSized(s) && 0 <= i <= 4
    requires InBounds(p) && !Adjacent(At(current), p)
    ensures Cost(RelaxUpTo(g, s, current, i, goal), p) == Cost(s, p)
    ensures Key(p) in RelaxUpTo(g, s, current, i, goal).prev <==> Key(p) in s.prev
    ensures Key(p) in s.prev ==> RelaxUpTo(g, s, current, i, goal).prev[Key(p)] == s.prev[Key(p)]
    ensures forall n :: At(n) == p ==>
              RelaxUpTo(g, s, current, i, goal).frontier[n] == s.frontier[n]
    decreases i
  {
    if i > 0 {
      RelaxUpToIsLocal(g, s, current, i - 1, goal, p);
      var q := Step(At(current), i - 1);
      StepIsAdjacent(At(current), i - 1);
      if InBounds(q) {
        KeyInjective(p, q);
      }
    }
  }

  /** The neighbour loop: relaxes the four neighbours of the popped node in
      the order left, right, up, down. */
  method Expand(grid: array2<char>, ghost g: seq<seq<char>>, costs: array2<int>,
                frontier: multiset<Node>, prev: map<int, Pos>, current: Node, ghost start: Pos, goal: Pos)
    returns (frontier': multiset<Node>, prev': map<int, Pos>)
    requires Shaped(grid) && Shaped(costs) && Layout(grid) == g
    requires Expanding(g, State(Flatten(costs), frontier, prev), start, goal, current)
    modifies costs
    ensures State(Flatten(costs), frontier', prev') ==
            RelaxUpTo(g, State(old(Flatten(costs)), frontier, prev), current, 4, goal)
    ensures SearchInv(g, State(Flatten(costs), frontier', prev'), start, goal)
    ensures Progress(State(old(Flatten(costs)), frontier, prev), State(Flatten(costs), frontier', prev'), current)
  {
    ghost var s0 := State(Flatten(costs), frontier, prev);
    frontier', prev' := frontier, prev;
    for i := 0 to 4
      invariant State(Flatten(costs), frontier', prev') == RelaxUpTo(g, s0, current, i, goal)
    {
      frontier', prev' := Relax(grid, g, costs, frontier', prev', current, i, goal);
    }
    RelaxUpToPreserves(g, s0, start, goal, current, 4);
    ExpandedIsSettled(g, State(Flatten(costs), frontier', prev'), start, goal, current);
  }

  /** Following predecessors is possible from every reached cell but the
      start: each such cell is free, has a predecessor in the table, and
      that predecessor is an in-bounds 4-neighbour with a smaller cost.
      The start costs 0. */
  ghost predicate Traceable(g: seq<seq<char>>, s: State, start: Pos) {
    && WellSized(s)
    && InBounds(start)
    && Cost(s, start) == 0
    && forall p :: InBounds(p) && p != start && Cost(s, p) < Unreached ==>
         && Free(g, p)
         && Key(p) in s.prev
         && InBounds(s.prev[Key(p)])
         && Adjacent(s.prev[Key(p)], p)
         && 0 <= Cost(s, s.prev[Key(p)]) < Cost(s, p)
  }

  lemma TablesTraceable(g: seq<seq<char>>, s: State, start: Pos, goal: Pos)
    requires Tables(g, s, start, goal)
    ensures Traceable(g, s, start)
  {
    forall p | InBounds(p) && p != start && Cost(s, p) < Unreached
      ensures Adjacent(s.prev[Key(p)], p)
    {
      AdjacentSymmetric(p, s.prev[Key(p)]);
    }
  }

  /** path is the part of the backtrace walked so far, most recent cell
      first: it ends at the goal, its cells after the first are free cells
      other than the start, consecutive cells are 4-neighbours, and each
      step back lowered the recorded cost by at least one. */
  ghost predicate TracePrefix(g: seq<seq<char>>, s: State, start: Pos, goal: Pos, path: seq<Pos>) {
    && WellSized(s)
    && |path| > 0
    && path[|path| - 1] == goal
    && InBounds(goal)
    && InBounds(path[0])
    && Cost(s, path[0]) < Unreached
    && (forall k :: 0 < k < |path| ==> path[k] != start && Free(g, path[k]))
    && (forall k :: 0 <= k < |path| - 1 ==> Adjacent(path[k], path[k + 1]))
    && |path| - 1 + Cost(s, path[0]) <= Cost(s, goal)
  }

  /** Stepping back to the predecessor of the most recent cell extends the
      trace and lowers the cost of its head. */
  lemma ExtendTrace(g: seq<seq<char>>, s: State, start: Pos, goal: Pos, path: seq<Pos>)
    requires Traceable(g, s, start) && TracePrefix(g, s, start, goal, path)
    requires path[0] != start
    ensures Key(path[0]) in s.prev
    ensures var back := s.prev[Key(path[0])];
      && TracePrefix(g, s, start, goal, [back] + path)
      && 0 <= Cost(s, back) < Cost(s, path[0])
  {
    var back := s.prev[Key(path[0])];
    var path' := [back] + path;
    assert forall k :: 0 < k < |path'| ==> path'[k] == path[k - 1];
  }

  /** A trace that has reached the start is a walk from the start to the
      goal no longer than the goal's recorded cost. */
  lemma TraceComplete(g: seq<seq<char>>, s: State, start: Pos, goal: Pos, path: seq<Pos>)
    requires Traceable(g, s, start) && TracePrefix(g, s, start, goal, path)
    requires path[0] == start
    ensures IsWalk(g, path, start, goal)
    ensures |path| - 1 <= Cost(s, goal)
  {
  }

  /** The marking loop of the path reconstruction: from the goal, marks
      each cell with '.' and steps to its predecessor until the start is
      reached. The start itself is left as it was. */
  method MarkPath(grid: array2<char>, ghost g: seq<seq<char>>, ghost s: State,
                  prev: map<int, Pos>, start: Pos, goal: Pos)
    returns (ghost path: seq<Pos>)
    requires Shaped(grid) && Layout(grid) == g
    requires Traceable(g, s, start) && s.prev == prev
    requires InBounds(goal) && Cost(s, goal) < Unreached
    modifies grid
    ensures IsWalk(g, path, start, goal)
    ensures |path| - 1 <= Cost(s, goal)
    ensures forall p :: InBounds(p) ==>
              grid[p.y, p.x] == if p in path[1..] then PathMark else g[p.y][p.x]
  {
    var x, y := goal.x, goal.y;
    path := [goal];
    ghost var marked: seq<Pos> := [];
    while !(x == start.x && y == start.y)
      invariant TracePrefix(g, s, start, goal, path) && path == [Pos(x, y)] + marked
      invariant forall p :: InBounds(p) ==> grid[p.y, p.x] == if p in marked then PathMark else g[p.y][p.x]
      decreases Cost(s, Pos(x, y))
    {
      var cur := Pos(x, y);
      grid[y, x] := PathMark;
      ExtendTrace(g, s, start, goal, path);
      var back := prev[Key(cur)];
      x, y := back.x, back.y;
      marked := [cur] + marked;
      path := [back] + marked;
    }
    TraceComplete(g, s, start, goal, path);
  }

  /** The path reconstruction: marks the traced path with '.', then stamps
      'S' on the start and 'G' on the goal. Every cell the path passes
      through is free, so no obstacle is overwritten. */
  method Backtrace(grid: array2<char>, ghost g: seq<seq<char>>, ghost s: State,
                   prev: map<int, Pos>, start: Pos, goal: Pos)
    returns (ghost path: seq<Pos>)
    requires Shaped(grid) && Layout(grid) == g
    requires Traceable(g, s, start) && s.prev == prev
    requires InBounds(goal) && Cost(s, goal) < Unreached
    modifies grid
    ensures IsWalk(g, path, start, goal)
    ensures |path| - 1 <= Cost(s, goal)
    ensures grid[goal.y, goal.x] == GoalMark
    ensures start != goal ==> grid[start.y, start.x] == StartMark
    ensures forall p :: InBounds(p) && p != start && p != goal ==>
              grid[p.y, p.x] == if p in path then PathMark else g[p.y][p.x]
    ensures forall p :: InBounds(p) && p != start && g[p.y][p.x] == Obstacle ==>
              grid[p.y, p.x] == Obstacle
  {
    path := MarkPath(grid, g, s, prev, start, goal);
    grid[start.y, start.x] := StartMark;
    grid[goal.y, goal.x] := GoalMark;
    forall p | InBounds(p) && p != start && p != goal
      ensures grid[p.y, p.x] == if p in path then PathMark else g[p.y][p.x]
    {
      assert p in path <==> p in path[1..];
    }
  }

  /** The search's starting point: every cost at the sentinel but the
      start's, which is 0, the start queued with its heuristic and no
      predecessors. The search invariant holds of it. */
  method Initialise(ghost g: seq<seq<char>>, start: Pos, goal: Pos)
    returns (costs: array2<int>, nodes: multiset<Node>, previous: map<int, Pos>)
    requires InBounds(start) && InBounds(goal)
    ensures fresh(costs) && Shaped(costs)
    ensures forall p :: InBounds(p) ==> costs[p.y, p.x] == if p == start then 0 else Unreached
    ensures nodes == multiset{Node(start.x, start.y, 0, Distance(start, goal))} && previous == map[]
    ensures SearchInv(g, State(Flatten(costs), nodes, previous), start, goal)
  {
    nodes := multiset{Node(start.x, start.y, 0, FindHeuristic(start.x, start.y, goal.x, goal.y))};
    previous := map[];
    costs := new int[Height, Width]((_, _) => Unreached);
    costs[start.y, start.x] := 0;
    InitialState(g, State(Flatten(costs), nodes, previous), start, goal);
  }

  /** One pass of the frontier loop: takes a node of least priority off
      the frontier and records its priority among the pops; if it stands
      on the goal, reports it and changes nothing else, otherwise expands
      it. A goal node so popped is no costlier than any walk to the goal;
      otherwise the new state is the expansion of the rest of the frontier,
      no cost has gone up, the invariant and the record of pops hold again,
      with the popped priority as floor, and the measure has gone down. */
  method Visit(grid: array2<char>, ghost g: seq<seq<char>>, costs: array2<int>,
               nodes: multiset<Node>, previous: map<int, Pos>, ghost start: Pos, goal: Pos,
               ghost pops: seq<int>, ghost floor: int)
    returns (current: Node, atGoal: bool, nodes': multiset<Node>, previous': map<int, Pos>, ghost pops': seq<int>)
    requires Shaped(grid) && Shaped(costs) && Layout(grid) == g && nodes != multiset{}
    requires SearchInv(g, State(Flatten(costs), nodes, previous), start, goal)
    requires PopLog(pops, floor, nodes, Node(start.x, start.y, 0, Distance(start, goal)))
    modifies costs
    ensures current in nodes && pops' == pops + [Priority(current)]
    ensures forall m :: m in nodes ==> Priority(current) <= Priority(m)
    ensures Ascending(pops') && pops'[0] == Distance(start, goal)
    ensures atGoal <==> At(current) == goal
    ensures atGoal ==> unchanged(costs) && nodes' == nodes - multiset{current} && previous' == previous
    ensures atGoal ==> Tables(g, State(Flatten(costs), nodes', previous'), start, goal)
    ensures atGoal ==> current.cost < Unreached && Cost(State(Flatten(costs), nodes, previous), goal) <= current.cost
    ensures atGoal ==> NoWalkShorter(g, start, goal, current.cost)
    ensures atGoal ==> pops'[|pops'| - 1] == current.cost
    ensures !atGoal ==>
              State(Flatten(costs), nodes', previous') ==
              RelaxUpTo(g, State(old(Flatten(costs)), nodes - multiset{current}, previous), current, 4, goal)
    ensures !atGoal ==> NoIncrease(State(old(Flatten(costs)), nodes, previous), State(Flatten(costs), nodes', previous'))
    ensures !atGoal ==> SearchInv(g, State(Flatten(costs), nodes', previous'), start, goal)
    ensures !atGoal ==> PopLog(pops', Priority(current), nodes', Node(start.x, start.y, 0, Distance(start, goal)))
    ensures !atGoal ==> Measure(State(Flatten(costs), nodes', previous')) < Measure(State(old(Flatten(costs)), nodes, previous))
  {
    ghost var s := State(Flatten(costs), nodes, previous);
    ghost var first := Node(start.x, start.y, 0, Distance(start, goal));
    var rest;
    current, rest := PopMin(nodes);
    PopAscending(pops, floor, nodes, first, current);
    pops' := pops + [Priority(current)];
    atGoal := current.x == goal.x && current.y == goal.y;
    if atGoal {
      forall w | IsWalk(g, w, start, goal)
        ensures current.cost <= |w| - 1
      {
        GoalPoppedOptimal(g, s, start, goal, current, w);
      }
      ShrinkKeepsTables(g, s, State(s.costs, rest, s.prev), start, goal);
      return current, atGoal, rest, previous, pops';
    }
    PopKeepsInvariant(g, s, start, goal, current);
    nodes', previous' := Expand(grid, g, costs, rest, previous, current, start, goal);
    ExpansionResumes(State(s.costs, rest, s.prev), State(Flatten(costs), nodes', previous'), current, pops', first);
  }

  /** The frontier loop: pops a least-priority node until the goal comes
      off the frontier or the frontier runs dry, expanding every other
      popped node. It reads the grid but does not write it. Returns whether
      the goal was popped and the predecessor table at that moment; the
      ghost results are the search state then, the goal node popped and
      the priorities of the popped nodes in the order they were popped. */
  method Search(grid: array2<char>, ghost g: seq<seq<char>>, start: Pos, goal: Pos)
    returns (found: bool, previous: map<int, Pos>, ghost last: State, ghost reached: Node, ghost pops: seq<int>)
    requires Shaped(grid) && Layout(grid) == g
    requires InBounds(start) && InBounds(goal)
    ensures Tables(g, last, start, goal) && last.prev == previous
    ensures !found ==> Unreachable(g, start, goal)
    ensures found ==> reached.cost < Unreached && Cost(last, goal) <= reached.cost
    ensures found ==> NoWalkShorter(g, start, goal, reached.cost)
    ensures Ascending(pops) && |pops| > 0 && pops[0] == Distance(start, goal)
    ensures found ==> pops[|pops| - 1] == reached.cost
  {
    var costs, nodes;
    costs, nodes, previous := Initialise(g, start, goal);

    ghost var floor := 0;
    reached := Node(start.x, start.y, 0, Distance(start, goal));
    pops := [];
    found := false;
    while nodes != multiset{}
      invariant Shaped(costs) && !found
      invariant SearchInv(g, State(Flatten(costs), nodes, previous), start, goal)
      invariant PopLog(pops, floor, nodes, Node(start.x, start.y, 0, Distance(start, goal)))
      decreases Measure(State(Flatten(costs), nodes, previous))
    {
      MeasureNonNegative(State(Flatten(costs), nodes, previous), start);
      var current, atGoal;
      current, atGoal, nodes, previous, pops := Visit(grid, g, costs, nodes, previous, start, goal, pops, floor);
      if atGoal {
        found, reached := true, current;
        break;
      }
      floor := Priority(current);
    }

    last := State(Flatten(costs), nodes, previous);
    if !found {
      forall w
        ensures !IsWalk(g, w, start, goal)
      {
        ExhaustedMeansUnreachable(g, last, start, goal, w);
      }
    }
  }

  /** The search: runs A* from start to goal. On success it overlays the
      found path on the grid, marks its cells '.', re-stamps 'S' and 'G' on
      the endpoints and returns true; when the frontier runs dry it returns
      false and leaves the grid as it was. The ghost `path` is the found
      walk (start first) and `pops` the priorities of the popped nodes in
      the order they were popped: the first is the start's distance to the
      goal, the last, on success, the number of moves along the path. */
  method FindPath(grid: array2<char>, start: Pos, goal: Pos)
    returns (found: bool, ghost path: seq<Pos>, ghost pops: seq<int>)
    requires Shaped(grid)
    requires InBounds(start) && InBounds(goal)
    modifies grid
    ensures !found ==> unchanged(grid)
    ensures !found ==> forall w :: !IsWalk(old(Layout(grid)), w, start, goal)
    ensures found ==> IsWalk(old(Layout(grid)), path, start, goal)
    ensures found ==> forall w :: IsWalk(old(Layout(grid)), w, start, goal) ==> |path| <= |w|
    ensures found ==> grid[goal.y, goal.x] == GoalMark
    ensures found && start != goal ==> grid[start.y, start.x] == StartMark
    ensures found ==> forall p :: InBounds(p) && p != start && p != goal ==>
              grid[p.y, p.x] == if p in path then PathMark else old(Layout(grid))[p.y][p.x]
    ensures found ==> forall p :: InBounds(p) && p != start && old(Layout(grid))[p.y][p.x] == Obstacle ==>
              grid[p.y, p.x] == Obstacle
    ensures Ascending(pops)
    ensures |pops| > 0 && pops[0] == Distance(start, goal)
    ensures found ==> pops[|pops| - 1] == |path| - 1
  {
    ghost var g := Layout(grid);
    var previous;
    ghost var last, reached;
    found, previous, last, reached, pops := Search(grid, g, start, goal);
    if !found {
      return false, [], pops;
    }
    TablesTraceable(g, last, start, goal);
    path := Backtrace(grid, g, last, previous, start, goal);
    assert reached.cost <= |path| - 1 <= Cost(last, goal) <= reached.cost;
  }
}
