/** The dynamic-programming recurrence of the Fallout shelter optimizer, as pure
    functions. A grid is an n x n matrix of cells: 'B' is a bomb (impassable),
    'R' is a RadAway capsule (worth one point), anything else is an empty cell.
    The player walks from (0, 0) to (n-1, n-1) with at most 2n-1 cardinal moves.
 */
module Recurrence {

  type Grid = seq<seq<char>>

  const Bomb: char := 'B'
  const RadAway: char := 'R'

  /** Up, right, down, left: the order in which the recurrence tries moves. */
  const Directions: seq<(int, int)> := [(-1, 0), (0, 1), (1, 0), (0, -1)]

  /** Every row is as long as the grid is tall. */
  predicate Square(g: Grid) {
    forall i :: 0 <= i < |g| ==> |g[i]| == |g|
  }

  /** The move budget fixed at construction. */
  function MaxSteps(n: int): int {
    2 * n - 1
  }

  function Abs(x: int): nat {
    if x < 0 then -x else x
  }

  /** Bounds check of a position on an n x n grid. */
  predicate IsValidPosition(n: int, x: int, y: int) {
    0 <= x < n && 0 <= y < n
  }

  /** Prune: the Manhattan distance to (n-1, n-1) fits in the moves left after t. */
  predicate IsReachable(n: int, x: int, y: int, t: int) {
    MaxSteps(n) - t >= Abs(n - 1 - x) + Abs(n - 1 - y)
  }

  /** Points for standing on a cell. */
  function CellValue(g: Grid, x: int, y: int): (v: int)
    requires 0 <= x < |g| && 0 <= y < |g[x]|
    ensures v == 0 || v == 1
    ensures v == 1 <==> g[x][y] == RadAway
  {
    if g[x][y] == RadAway then 1 else 0
  }

  /** The result of the recurrence: a score, or "no walk" (minus infinity). */
  datatype Val = Unreachable | Score(k: int)

  /** The order on results: Unreachable lies below every score. */
  predicate Le(v: Val, w: Val) {
    v.Unreachable? || (w.Score? && v.k <= w.k)
  }

  /** The larger of two results; on a tie the first argument is kept. */
  function MaxVal(a: Val, b: Val): (r: Val)
    ensures r == a || r == b
    ensures Le(a, r) && Le(b, r)
    ensures Le(b, a) ==> r == a
  {
    if b.Score? && (a.Unreachable? || a.k < b.k) then b else a
  }

  /** The neighbour of (x, y) in direction j. */
  function Neighbour(x: int, y: int, j: nat): (int, int)
    requires j < |Directions|
  {
    (x + Directions[j].0, y + Directions[j].1)
  }

  /** f(x, y, t): the most capsules collectable from (x, y) after t moves,
      counting the capsule on (x, y) itself, or Unreachable. The base cases
      are tried in the order of the source: bounds/bomb, budget, goal, prune. */
  function F(g: Grid, x: int, y: int, t: nat): (r: Val)
    requires Square(g)
    ensures r.Score? ==> IsValidPosition(|g|, x, y) && g[x][y] != Bomb
                         && t <= MaxSteps(|g|) && IsReachable(|g|, x, y, t)
    decreases MaxSteps(|g|) + 1 - t, 1, 0
  {
    var n := |g|;
    if !IsValidPosition(n, x, y) || g[x][y] == Bomb then Unreachable
    else if t > MaxSteps(n) then Unreachable
    else if x == n - 1 && y == n - 1 then Score(CellValue(g, x, y))
    else if !IsReachable(n, x, y, t) then Unreachable
    else
      var best := Explore(g, x, y, t, |Directions|);
      if best.Unreachable? then Unreachable else Score(CellValue(g, x, y) + best.k)
  }

  /** The running maximum of the loop over the first i directions, starting
      from Unreachable. */
  function Explore(g: Grid, x: int, y: int, t: nat, i: nat): (r: Val)
    requires Square(g) && t <= MaxSteps(|g|) && i <= |Directions|
    ensures forall j :: 0 <= j < i ==> Le(F(g, Neighbour(x, y, j).0, Neighbour(x, y, j).1, t + 1), r)
    decreases MaxSteps(|g|) + 1 - t, 0, i
  {
    if i == 0 then Unreachable
    else
      var (nx, ny) := Neighbour(x, y, i - 1);
      MaxVal(Explore(g, x, y, t, i - 1), F(g, nx, ny, t + 1))
  }

  /** One more turn of the direction loop: the running maximum absorbs the
      neighbour in direction i. */
  lemma ExploreStep(g: Grid, x: int, y: int, t: nat, i: nat)
    requires Square(g) && t <= MaxSteps(|g|) && i < |Directions|
    ensures Explore(g, x, y, t, i + 1)
            == MaxVal(Explore(g, x, y, t, i), F(g, Neighbour(x, y, i).0, Neighbour(x, y, i).1, t + 1))
  {
  }

  /** f at a state past every base case adds the cell's value to the loop's maximum. */
  lemma FInner(g: Grid, x: int, y: int, t: nat)
    requires Square(g) && IsValidPosition(|g|, x, y) && g[x][y] != Bomb && t <= MaxSteps(|g|)
    requires (x, y) != (|g| - 1, |g| - 1) && IsReachable(|g|, x, y, t)
    ensures Explore(g, x, y, t, |Directions|).Unreachable? ==> F(g, x, y, t) == Unreachable
    ensures Explore(g, x, y, t, |Directions|).Score? ==>
              F(g, x, y, t) == Score(CellValue(g, x, y) + Explore(g, x, y, t, |Directions|).k)
  {
  }

  /** The reported score: max(0, f(0, 0, 0)), with minus infinity read as 0. */
  function Report(v: Val): (s: int)
    ensures s >= 0
    ensures v.Score? && v.k >= 0 ==> s == v.k
    ensures v.Unreachable? ==> s == 0
  {
    match v
    case Unreachable => 0
    case Score(k) => if k < 0 then 0 else k
  }

  /** Each level of the recursion adds at most one point, and a score is never negative. */
  lemma {:induction false} FBounds(g: Grid, x: int, y: int, t: nat)
    requires Square(g)
    ensures F(g, x, y, t).Score? ==> 0 <= F(g, x, y, t).k <= MaxSteps(|g|) + 1 - t
    decreases MaxSteps(|g|) + 1 - t, 1, 0
  {
    var n := |g|;
    if IsValidPosition(n, x, y) && g[x][y] != Bomb && t <= MaxSteps(n)
       && !(x == n - 1 && y == n - 1) && IsReachable(n, x, y, t) {
      ExploreBounds(g, x, y, t, |Directions|);
    }
  }

  lemma {:induction false} ExploreBounds(g: Grid, x: int, y: int, t: nat, i: nat)
    requires Square(g) && t <= MaxSteps(|g|) && i <= |Directions|
    ensures Explore(g, x, y, t, i).Score? ==> 0 <= Explore(g, x, y, t, i).k <= MaxSteps(|g|) - t
    decreases MaxSteps(|g|) + 1 - t, 0, i
  {
    if i > 0 {
      var (nx, ny) := Neighbour(x, y, i - 1);
      ExploreBounds(g, x, y, t, i - 1);
      FBounds(g, nx, ny, t + 1);
    }
  }

  /** The reported score lies between 0 and max_steps + 1. */
  lemma ReportBounds(g: Grid)
    requires Square(g)
    ensures 0 <= Report(F(g, 0, 0, 0)) <= MaxSteps(|g|) + 1
    ensures F(g, 0, 0, 0).Score? ==> Report(F(g, 0, 0, 0)) == F(g, 0, 0, 0).k
  {
    FBounds(g, 0, 0, 0);
  }

  /** The running maximum is Unreachable exactly when every direction tried
      so far is, and otherwise one of those directions attains it. */
  lemma {:induction false} ExploreIsMax(g: Grid, x: int, y: int, t: nat, i: nat)
    requires Square(g) && t <= MaxSteps(|g|) && i <= |Directions|
    ensures Explore(g, x, y, t, i).Unreachable? <==>
              forall j :: 0 <= j < i ==> F(g, Neighbour(x, y, j).0, Neighbour(x, y, j).1, t + 1).Unreachable?
    ensures Explore(g, x, y, t, i).Score? ==>
              exists j :: 0 <= j < i && F(g, Neighbour(x, y, j).0, Neighbour(x, y, j).1, t + 1) == Explore(g, x, y, t, i)
  {
    if i > 0 {
      ExploreIsMax(g, x, y, t, i - 1);
    }
  }

  lemma LeTrans(u: Val, v: Val, w: Val)
    requires Le(u, v) && Le(v, w)
    ensures Le(u, w)
  {
  }

  /** A grid h enriches g when it has the same bombs and every cell is worth at least as much. */
  predicate Enriches(g: Grid, h: Grid) {
    Square(g) && Square(h) && |g| == |h| &&
    forall i, j :: 0 <= i < |g| && 0 <= j < |g| ==>
      (g[i][j] == Bomb <==> h[i][j] == Bomb) && CellValue(g, i, j) <= CellValue(h, i, j)
  }

  /** Adding capsules, without adding bombs, never lowers the result. */
  lemma {:induction false} FMonotone(g: Grid, h: Grid, x: int, y: int, t: nat)
    requires Enriches(g, h)
    ensures Le(F(g, x, y, t), F(h, x, y, t))
    decreases MaxSteps(|g|) + 1 - t, 1, 0
  {
    var n := |g|;
    if IsValidPosition(n, x, y) && g[x][y] != Bomb && t <= MaxSteps(n)
       && !(x == n - 1 && y == n - 1) && IsReachable(n, x, y, t) {
      ExploreMonotone(g, h, x, y, t, |Directions|);
    }
  }

  lemma {:induction false} ExploreMonotone(g: Grid, h: Grid, x: int, y: int, t: nat, i: nat)
    requires Enriches(g, h) && t <= MaxSteps(|g|) && i <= |Directions|
    ensures Le(Explore(g, x, y, t, i), Explore(h, x, y, t, i))
    decreases MaxSteps(|g|) + 1 - t, 0, i
  {
    if i > 0 {
      var (nx, ny) := Neighbour(x, y, i - 1);
      ExploreMonotone(g, h, x, y, t, i - 1);
      FMonotone(g, h, nx, ny, t + 1);
      var a, b := Explore(g, x, y, t, i - 1), F(g, nx, ny, t + 1);
      var a', b' := Explore(h, x, y, t, i - 1), F(h, nx, ny, t + 1);
      if MaxVal(a, b) == a {
        LeTrans(a, a', MaxVal(a', b'));
      } else {
        LeTrans(b, b', MaxVal(a', b'));
      }
    }
  }
}
