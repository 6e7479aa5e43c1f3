/** The planner's world: a fixed 10 x 7 character grid, positions on it, the
    four unit moves, the Manhattan-distance heuristic and the row-major
    marker lookup. */
module GridWorld {

  const Width: int := 10
  const Height: int := 7

  /** The four moves, in the order left, right, up, down. */
  const Dx: seq<int> := [-1, 1, 0, 0]
  const Dy: seq<int> := [0, 0, -1, 1]

  const Obstacle: char := '|'
  const PathMark: char := '.'
  const StartMark: char := 'S'
  const GoalMark: char := 'G'

  /** A cell coordinate: column x, row y. */
  datatype Pos = Pos(x: int, y: int)

  /** What the marker lookup returns when no cell holds the marker. */
  const NotFound: Pos := Pos(-1, -1)

  predicate InBounds(p: Pos) {
    0 <= p.x < Width && 0 <= p.y < Height
  }

  /** A grid (or a table indexed like one) of the fixed dimensions, indexed [y, x]. */
  predicate Shaped<T>(a: array2<T>) {
    a.Length0 == Height && a.Length1 == Width
  }

  /** The neighbour of p in move direction i. */
  function Step(p: Pos, i: int): Pos
    requires 0 <= i < 4
  {
    Pos(p.x + Dx[i], p.y + Dy[i])
  }

  /** The integer key under which the predecessor table files a cell. */
  function Key(p: Pos): int {
    p.y * Width + p.x
  }

  /** Keys of in-bounds cells are distinct and fall in [0, Width * Height). */
  lemma KeyInjective(p: Pos, q: Pos)
    requires InBounds(p) && InBounds(q)
    ensures 0 <= Key(p) < Width * Height
    ensures Key(p) == Key(q) <==> p == q
  {
  }

  /** The cell that a key in range stands for. */
  function CellOfKey(k: int): (p: Pos)
    requires 0 <= k < Width * Height
    ensures InBounds(p) && Key(p) == k
  {
    Pos(k % Width, k / Width)
  }

  function Abs(v: int): nat {
    if v < 0 then -v else v
  }

  /** The Manhattan distance from (x, y) to the goal (gx, gy). */
  function FindHeuristic(x: int, y: int, gx: int, gy: int): (h: int)
    ensures h >= 0
    ensures h == 0 <==> x == gx && y == gy
    ensures h >= gx - x && h >= x - gx && h >= gy - y && h >= y - gy
  {
    Abs(gx - x) + Abs(gy - y)
  }

  function Distance(p: Pos, q: Pos): int {
    FindHeuristic(p.x, p.y, q.x, q.y)
  }

  /** p and q are 4-neighbours. */
  predicate Adjacent(p: Pos, q: Pos) {
    Distance(p, q) == 1
  }

  /** Each move reaches a 4-neighbour, and no move stays in place. */
  lemma StepIsAdjacent(p: Pos, i: int)
    requires 0 <= i < 4
    ensures Adjacent(p, Step(p, i)) && Adjacent(Step(p, i), p)
    ensures Step(p, i) != p
  {
  }

  lemma AdjacentSymmetric(p: Pos, q: Pos)
    requires Adjacent(p, q)
    ensures Adjacent(q, p)
  {
  }

  /** Every 4-neighbour is reached by one of the four moves. */
  function DirectionTo(p: Pos, q: Pos): (i: int)
    requires Adjacent(p, q)
    ensures 0 <= i < 4 && Step(p, i) == q
  {
    if q.x == p.x - 1 then 0
    else if q.x == p.x + 1 then 1
    else if q.y == p.y - 1 then 2
    else 3
  }

  /** Consistency: one move changes the distance to any goal by exactly one. */
  lemma HeuristicStep(p: Pos, q: Pos, goal: Pos)
    requires Adjacent(p, q)
    ensures Distance(q, goal) == Distance(p, goal) + 1 || Distance(q, goal) == Distance(p, goal) - 1
  {
  }

  /** The contents of a grid, row by row. */
  ghost function Layout(grid: array2<char>): (g: seq<seq<char>>)
    reads grid
    ensures |g| == grid.Length0
    ensures forall y :: 0 <= y < |g| ==> |g[y]| == grid.Length1
    ensures forall y, x :: 0 <= y < grid.Length0 && 0 <= x < grid.Length1 ==> g[y][x] == grid[y, x]
  {
    seq(grid.Length0, y requires 0 <= y < grid.Length0 reads grid =>
      seq(grid.Length1, x requires 0 <= x < grid.Length1 reads grid => grid[y, x]))
  }

  /** A cell that may be entered: inside the grid and not an obstacle. */
  predicate Free(g: seq<seq<char>>, p: Pos) {
    InBounds(p) && p.y < |g| && p.x < |g[p.y]| && g[p.y][p.x] != Obstacle
  }

  /** Cell a comes before cell b in row-major order. */
  predicate RowMajorBefore(a: Pos, b: Pos) {
    a.y < b.y || (a.y == b.y && a.x < b.x)
  }

  /** Scans the grid row by row and returns the first cell holding c, or
      NotFound when no cell holds it. */
  method FindPosition(grid: array2<char>, c: char) returns (p: Pos)
    requires Shaped(grid)
    ensures p == NotFound || InBounds(p)
    ensures p == NotFound <==> forall y, x :: 0 <= y < Height && 0 <= x < Width ==> grid[y, x] != c
    ensures InBounds(p) ==> grid[p.y, p.x] == c
    ensures InBounds(p) ==> forall y, x :: 0 <= y < Height && 0 <= x < Width && RowMajorBefore(Pos(x, y), p) ==> grid[y, x] != c
  {
    for y := 0 to Height
      invariant forall yy, xx :: 0 <= yy < y && 0 <= xx < Width ==> grid[yy, xx] != c
    {
      for x := 0 to Width
        invariant forall yy, xx :: 0 <= yy < y && 0 <= xx < Width ==> grid[yy, xx] != c
        invariant forall xx :: 0 <= xx < x ==> grid[y, xx] != c
      {
        if grid[y, x] == c {
          return Pos(x, y);
        }
      }
    }
    return NotFound;
  }
}
