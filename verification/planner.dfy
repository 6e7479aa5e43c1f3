/** The program's entry point: locate the 'S' and 'G' markers and run the
    search between them, on the grid the program ships with or any other
    grid of the same size. */
module Planner {
  import opened GridWorld
  import opened Walks
  import opened AStar

  /** The layout the program starts from, row by row. */
  const InitialLayout: seq<seq<char>> := [
    " S   |    ",
    "   ||     ",
    "     |    ",
    "   | |  G ",
    " |   |    ",
    "    ||||  ",
    "||        "
  ]

  /** A route through the initial layout from its 'S' to its 'G', going
      down the left side, along the bottom row and up to the goal. */
  const Route: seq<Pos> := [
    Pos(1, 0), Pos(1, 1), Pos(1, 2), Pos(1, 3), Pos(2, 3), Pos(2, 4), Pos(2, 5),
    Pos(2, 6), Pos(3, 6), Pos(4, 6), Pos(5, 6), Pos(6, 6), Pos(7, 6), Pos(8, 6),
    Pos(8, 5), Pos(8, 4), Pos(8, 3)
  ]

  /** A row of the initial layout holds `c` exactly in the columns of `cols`. */
  predicate RowHolds(y: int, c: char, cols: set<int>)
    requires 0 <= y < |InitialLayout|
  {
    forall x :: 0 <= x < |InitialLayout[y]| ==> (InitialLayout[y][x] == c <==> x in cols)
  }

  /** The initial layout has its only 'S' at (1, 0). */
  lemma InitialStart()
    ensures forall y, x :: 0 <= y < Height && 0 <= x < Width ==>
              (InitialLayout[y][x] == StartMark <==> Pos(x, y) == Pos(1, 0))
  {
    forall y, x | 0 <= y < Height && 0 <= x < Width
      ensures InitialLayout[y][x] == StartMark <==> Pos(x, y) == Pos(1, 0)
    {
      assert RowHolds(y, StartMark, if y == 0 then {1} else {});
    }
  }

  /** The initial layout has its only 'G' at (8, 3). */
  lemma InitialGoal()
    ensures forall y, x :: 0 <= y < Height && 0 <= x < Width ==>
              (InitialLayout[y][x] == GoalMark <==> Pos(x, y) == Pos(8, 3))
  {
    forall y, x | 0 <= y < Height && 0 <= x < Width
      ensures InitialLayout[y][x] == GoalMark <==> Pos(x, y) == Pos(8, 3)
    {
      assert RowHolds(y, GoalMark, if y == 3 then {8} else {});
    }
  }

  /** The goal of the initial layout is reachable from its start. */
  lemma InitialRoute()
    ensures IsWalk(InitialLayout, Route, Pos(1, 0), Pos(8, 3))
  {
    forall i | 0 < i < |Route|
      ensures Free(InitialLayout, Route[i]) && Adjacent(Route[i - 1], Route[i])
    {
    }
  }

  /** main without the final printout: finds the start and goal markers
      (the first of each in row-major order) and runs the search between
      them. Both markers are required. Without an 'S' the program would
      index the cost table at (-1, -1); without a 'G' it would search in
      vain and report failure, a run this model does not cover. */
  method Plan(grid: array2<char>) returns (start: Pos, goal: Pos, found: bool, ghost path: seq<Pos>)
    requires Shaped(grid)
    requires exists y, x :: 0 <= y < Height && 0 <= x < Width && grid[y, x] == StartMark
    requires exists y, x :: 0 <= y < Height && 0 <= x < Width && grid[y, x] == GoalMark
    modifies grid
    ensures InBounds(start) && old(grid[start.y, start.x]) == StartMark
    ensures InBounds(goal) && old(grid[goal.y, goal.x]) == GoalMark
    ensures forall y, x :: 0 <= y < Height && 0 <= x < Width && RowMajorBefore(Pos(x, y), start) ==>
              old(grid[y, x]) != StartMark
    ensures forall y, x :: 0 <= y < Height && 0 <= x < Width && RowMajorBefore(Pos(x, y), goal) ==>
              old(grid[y, x]) != GoalMark
    ensures found <==> exists w :: IsWalk(old(Layout(grid)), w, start, goal)
    ensures found ==> IsWalk(old(Layout(grid)), path, start, goal)
    ensures found ==> forall w :: IsWalk(old(Layout(grid)), w, start, goal) ==> |path| <= |w|
    ensures found ==> grid[goal.y, goal.x] == GoalMark
    ensures found && start != goal ==> grid[start.y, start.x] == StartMark
    ensures found ==> forall p :: InBounds(p) && p != start && p != goal ==>
              grid[p.y, p.x] == if p in path then PathMark else old(Layout(grid))[p.y][p.x]
    ensures !found ==> unchanged(grid)
  {
    ghost var g := Layout(grid);
    start := FindPosition(grid, StartMark);
    goal := FindPosition(grid, GoalMark);
    assert Layout(grid) == g;
    ghost var pops;
    found, path, pops := FindPath(grid, start, goal);
    if found {
      assert IsWalk(g, path, start, goal);
    } else {
      assert forall w :: !IsWalk(g, w, start, goal);
    }
  }

  /** The program as shipped: the initial layout, searched from its 'S' to
      its 'G'. A route exists, so the search succeeds; the marked path is a
      shortest walk, hence no longer than the known route, and the markers
      are back in place. */
  method RunInitial() returns (found: bool, grid: array2<char>, ghost path: seq<Pos>)
    ensures Shaped(grid) && found
    ensures IsWalk(InitialLayout, path, Pos(1, 0), Pos(8, 3)) && |path| <= |Route|
    ensures grid[3, 8] == GoalMark && grid[0, 1] == StartMark
  {
    InitialStart();
    InitialGoal();
    InitialRoute();
    grid := new char[Height, Width]((y, x) requires 0 <= y < Height && 0 <= x < Width =>
      InitialLayout[y][x]);
    forall y | 0 <= y < Height
      ensures Layout(grid)[y] == InitialLayout[y]
    {
      assert |InitialLayout[y]| == Width;
    }
    assert Layout(grid) == InitialLayout;
    assert grid[0, 1] == StartMark && grid[3, 8] == GoalMark;
    var start, goal;
    start, goal, found, path := Plan(grid);
    assert start == Pos(1, 0) && goal == Pos(8, 3);
    assert IsWalk(InitialLayout, Route, start, goal);
  }
}
