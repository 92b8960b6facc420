/** The meaning of the recurrence: f(x, y, t) is the best score over all walks
    that start at (x, y) after t moves and reach (n-1, n-1) within the budget.
    A walk stops the first time it stands on the goal, never enters a bomb or
    leaves the grid, and collects one point per visit to an 'R' cell.
 */
module Walks {
  import opened Recurrence

  type Pos = (int, int)

  predicate Open(g: Grid, p: Pos)
    requires Square(g)
  {
    IsValidPosition(|g|, p.0, p.1) && g[p.0][p.1] != Bomb
  }

  /** q is one cardinal move away from p. */
  predicate Step(p: Pos, q: Pos) {
    exists j :: 0 <= j < |Directions| && q == Neighbour(p.0, p.1, j)
  }

  /** Manhattan distance from (x, y) to the goal of an n x n grid. */
  function GoalDistance(n: int, x: int, y: int): nat {
    Abs(n - 1 - x) + Abs(n - 1 - y)
  }

  /** w is a walk from (x, y), entered after t moves, that ends on the goal
      cell and uses no more moves than the budget leaves. */
  predicate IsWalk(g: Grid, w: seq<Pos>, x: int, y: int, t: nat)
    requires Square(g)
  {
    var n := |g|;
    |w| >= 1 && w[0] == (x, y) && w[|w| - 1] == (n - 1, n - 1) && t + |w| - 1 <= MaxSteps(n)
    && (forall i :: 0 <= i < |w| ==> Open(g, w[i]))
    && (forall i :: 0 <= i < |w| - 1 ==> w[i] != (n - 1, n - 1) && Step(w[i], w[i + 1]))
  }

  /** Capsules picked up along w, one per visit to an 'R' cell. */
  function Collected(g: Grid, w: seq<Pos>): int
    requires Square(g)
    requires forall i :: 0 <= i < |w| ==> Open(g, w[i])
  {
    if w == [] then 0
    else
      assert Open(g, w[0]);
      CellValue(g, w[0].0, w[0].1) + Collected(g, w[1..])
  }

  lemma {:induction false} CollectedAtMostLength(g: Grid, w: seq<Pos>)
    requires Square(g)
    requires forall i :: 0 <= i < |w| ==> Open(g, w[i])
    ensures 0 <= Collected(g, w) <= |w|
  {
    if w != [] {
      CollectedAtMostLength(g, w[1..]);
    }
  }

  /** A walk longer than one cell starts with a move off a non-goal cell. */
  lemma WalkUncons(g: Grid, w: seq<Pos>, x: int, y: int, t: nat)
    requires Square(g) && IsWalk(g, w, x, y, t) && |w| >= 2
    ensures Open(g, (x, y)) && (x, y) != (|g| - 1, |g| - 1) && Step((x, y), w[1])
    ensures t + 1 <= MaxSteps(|g|)
    ensures IsWalk(g, w[1..], w[1].0, w[1].1, t + 1)
    ensures Collected(g, w) == CellValue(g, x, y) + Collected(g, w[1..])
  {
  }

  /** Prepending a move from a non-goal open cell extends a walk. */
  lemma WalkCons(g: Grid, w: seq<Pos>, x: int, y: int, t: nat, j: nat)
    requires Square(g) && j < |Directions|
    requires Open(g, (x, y)) && (x, y) != (|g| - 1, |g| - 1)
    requires IsWalk(g, w, Neighbour(x, y, j).0, Neighbour(x, y, j).1, t + 1)
    ensures IsWalk(g, [(x, y)] + w, x, y, t)
    ensures Collected(g, [(x, y)] + w) == CellValue(g, x, y) + Collected(g, w)
  {
    var v := [(x, y)] + w;
    assert v[1..] == w;
    assert Step(v[0], v[1]);
    forall i | 0 <= i < |v| - 1
      ensures v[i] != (|g| - 1, |g| - 1) && Step(v[i], v[i + 1])
    {
      if i > 0 {
        assert v[i] == w[i - 1] && v[i + 1] == w[i];
      }
    }
  }

  /** A move changes the distance to the goal by exactly one. */
  lemma StepDistance(n: int, p: Pos, q: Pos)
    requires Step(p, q)
    ensures GoalDistance(n, p.0, p.1) == GoalDistance(n, q.0, q.1) + 1
         || GoalDistance(n, q.0, q.1) == GoalDistance(n, p.0, p.1) + 1
  {
  }

  /** A walk needs at least as many moves as the Manhattan distance, and the
      surplus is even. */
  lemma {:induction false} WalkLength(g: Grid, w: seq<Pos>, x: int, y: int, t: nat)
    requires Square(g) && IsWalk(g, w, x, y, t)
    ensures |w| - 1 >= GoalDistance(|g|, x, y)
    ensures (|w| - 1 - GoalDistance(|g|, x, y)) % 2 == 0
    decreases |w|
  {
    if |w| >= 2 {
      WalkUncons(g, w, x, y, t);
      WalkLength(g, w[1..], w[1].0, w[1].1, t + 1);
      StepDistance(|g|, (x, y), w[1]);
    }
  }

  /** The prune discards only states from which no walk exists. */
  lemma PruneSound(g: Grid, x: int, y: int, t: nat)
    requires Square(g) && !IsReachable(|g|, x, y, t)
    ensures forall w :: !IsWalk(g, w, x, y, t)
  {
    forall w | IsWalk(g, w, x, y, t)
      ensures false
    {
      WalkLength(g, w, x, y, t);
    }
  }

  /** f bounds the capsules of every walk from the state, and so is a score
      whenever a walk exists. */
  lemma {:induction false} WalkBound(g: Grid, w: seq<Pos>, x: int, y: int, t: nat)
    requires Square(g) && IsWalk(g, w, x, y, t)
    ensures F(g, x, y, t).Score? && Collected(g, w) <= F(g, x, y, t).k
    decreases |w|
  {
    var n := |g|;
    if |w| >= 2 {
      WalkUncons(g, w, x, y, t);
      WalkLength(g, w, x, y, t);
      var j :| 0 <= j < |Directions| && w[1] == Neighbour(x, y, j);
      WalkBound(g, w[1..], w[1].0, w[1].1, t + 1);
      var best := Explore(g, x, y, t, |Directions|);
      assert Le(F(g, w[1].0, w[1].1, t + 1), best);
      FInner(g, x, y, t);
    }
  }

  /** The first direction, in the order up, right, down, left, whose result
      is the running maximum of the first i directions. */
  ghost function BestDirection(g: Grid, x: int, y: int, t: nat, i: nat): (j: nat)
    requires Square(g) && t <= MaxSteps(|g|) && 0 < i <= |Directions|
    requires Explore(g, x, y, t, i).Score?
    ensures j < i
    ensures F(g, Neighbour(x, y, j).0, Neighbour(x, y, j).1, t + 1) == Explore(g, x, y, t, i)
    ensures forall j' :: 0 <= j' < j ==>
              F(g, Neighbour(x, y, j').0, Neighbour(x, y, j').1, t + 1) != Explore(g, x, y, t, i)
  {
    ExploreIsMax(g, x, y, t, i - 1);
    var prev := Explore(g, x, y, t, i - 1);
    var (nx, ny) := Neighbour(x, y, i - 1);
    if i > 1 && prev.Score? && Le(F(g, nx, ny, t + 1), prev) then BestDirection(g, x, y, t, i - 1)
    else i - 1
  }

  /** A walk that attains f: follow the first maximising direction. */
  ghost function BestWalk(g: Grid, x: int, y: int, t: nat): (w: seq<Pos>)
    requires Square(g) && F(g, x, y, t).Score?
    ensures IsWalk(g, w, x, y, t)
    ensures Collected(g, w) == F(g, x, y, t).k
    decreases MaxSteps(|g|) + 1 - t
  {
    var n := |g|;
    if x == n - 1 && y == n - 1 then [(x, y)]
    else
      var j := BestDirection(g, x, y, t, |Directions|);
      var (nx, ny) := Neighbour(x, y, j);
      var rest := BestWalk(g, nx, ny, t + 1);
      WalkCons(g, rest, x, y, t, j);
      [(x, y)] + rest
  }

  /** f is exactly the optimum over walks: Unreachable iff there is no walk,
      and otherwise a score that some walk attains and no walk beats. */
  lemma FIsBestWalk(g: Grid, x: int, y: int, t: nat)
    requires Square(g)
    ensures F(g, x, y, t).Unreachable? <==> forall w :: !IsWalk(g, w, x, y, t)
    ensures F(g, x, y, t).Score? ==>
              (exists w :: IsWalk(g, w, x, y, t) && Collected(g, w) == F(g, x, y, t).k)
    ensures F(g, x, y, t).Score? ==>
              forall w :: IsWalk(g, w, x, y, t) ==> Collected(g, w) <= F(g, x, y, t).k
  {
    forall w | IsWalk(g, w, x, y, t)
      ensures F(g, x, y, t).Score? && Collected(g, w) <= F(g, x, y, t).k
    {
      WalkBound(g, w, x, y, t);
    }
    if F(g, x, y, t).Score? {
      var w := BestWalk(g, x, y, t);
      assert IsWalk(g, w, x, y, t);
    }
  }

  /** The budget of 2n-1 moves has odd slack over the distance 2n-2, so every
      walk from the start uses exactly 2n-2 moves. */
  lemma StartWalksAreShortest(g: Grid, w: seq<Pos>)
    requires Square(g) && IsWalk(g, w, 0, 0, 0)
    ensures |w| == 2 * |g| - 1
  {
    WalkLength(g, w, 0, 0, 0);
  }

  /** Hence the reported score never exceeds 2n-1, the number of cells on a
      shortest walk. */
  lemma ReportAtMostMaxSteps(g: Grid)
    requires Square(g) && |g| >= 1
    ensures Report(F(g, 0, 0, 0)) <= MaxSteps(|g|)
  {
    FBounds(g, 0, 0, 0);
    if F(g, 0, 0, 0).Score? {
      var w := BestWalk(g, 0, 0, 0);
      StartWalksAreShortest(g, w);
      CollectedAtMostLength(g, w);
    }
  }

  lemma {:induction false} CollectedCountsLast(g: Grid, w: seq<Pos>)
    requires Square(g) && |w| >= 1
    requires forall i :: 0 <= i < |w| ==> Open(g, w[i])
    ensures Collected(g, w) >= CellValue(g, w[|w| - 1].0, w[|w| - 1].1)
  {
    if |w| >= 2 {
      assert w[1..][|w| - 2] == w[|w| - 1];
      CollectedCountsLast(g, w[1..]);
      assert Open(g, w[0]);
    } else {
      assert w[1..] == [];
    }
  }

  /** A capsule on the goal is always counted: it is on every walk. */
  lemma GoalCapsuleCounted(g: Grid, x: int, y: int, t: nat)
    requires Square(g) && |g| >= 1 && F(g, x, y, t).Score?
    ensures F(g, x, y, t).k >= CellValue(g, |g| - 1, |g| - 1)
  {
    var w := BestWalk(g, x, y, t);
    CollectedCountsLast(g, w);
  }

  /** No capsule off the goal: a grid whose only possible 'R' is the goal. */
  predicate CapsuleOnlyOnGoal(g: Grid)
    requires Square(g)
  {
    forall i, j :: 0 <= i < |g| && 0 <= j < |g| && (i, j) != (|g| - 1, |g| - 1) ==> g[i][j] != RadAway
  }

  lemma {:induction false} CollectedOffGoal(g: Grid, w: seq<Pos>, x: int, y: int, t: nat)
    requires Square(g) && CapsuleOnlyOnGoal(g) && IsWalk(g, w, x, y, t)
    ensures Collected(g, w) == CellValue(g, |g| - 1, |g| - 1)
    decreases |w|
  {
    if |w| >= 2 {
      WalkUncons(g, w, x, y, t);
      CollectedOffGoal(g, w[1..], w[1].0, w[1].1, t + 1);
    } else {
      assert w[1..] == [];
    }
  }

  /** When the goal holds the only capsule, a reachable state scores exactly
      the goal's value, whatever the route. */
  lemma OnlyGoalCapsule(g: Grid, x: int, y: int, t: nat)
    requires Square(g) && CapsuleOnlyOnGoal(g) && F(g, x, y, t).Score?
    ensures F(g, x, y, t).k == CellValue(g, |g| - 1, |g| - 1)
  {
    var w := BestWalk(g, x, y, t);
    CollectedOffGoal(g, w, x, y, t);
  }
}
