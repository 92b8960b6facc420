/** Small grids worked through the recurrence. */
module Scenarios {
  import opened Recurrence
  import opened Walks

  /** A capsule on the top-right of a 2 x 2 grid is picked up on the way. */
  lemma CapsuleOnTheWay()
    ensures F([".R", ".."], 0, 0, 0) == Score(1)
  {
    var g: Grid := [".R", ".."];
    assert F(g, 1, 1, 2) == Score(0);
    assert F(g, 0, 0, 2) == Unreachable;
    assert F(g, 0, 1, 1) == Score(1);
    assert F(g, 1, 0, 1) == Score(0);
  }

  /** A bomb on the top-right: the move right is unreachable, the move down
      reaches the goal with nothing collected. */
  lemma BombForcesDetour()
    ensures F([".B", ".."], 0, 1, 1) == Unreachable
    ensures F([".B", ".."], 1, 0, 1) == Score(0)
    ensures F([".B", ".."], 0, 0, 0) == Score(0)
  {
    var g: Grid := [".B", ".."];
    assert F(g, 1, 1, 2) == Score(0);
    assert F(g, 0, 0, 2) == Unreachable;
    assert F(g, 0, 1, 1) == Unreachable;
    assert F(g, 1, 0, 1) == Score(0);
  }

  /** With every way to the goal blocked, the optimum is unreachable and the
      reported score is 0. */
  lemma BlockedGoal()
    ensures F([".B", "B."], 0, 0, 0) == Unreachable
    ensures Report(F([".B", "B."], 0, 0, 0)) == 0
  {
  }

  /** On an otherwise empty 3 x 3 grid a capsule on the goal is collected on
      arrival, whatever the route. */
  lemma GoalOnlyCapsule(g: Grid)
    requires g == ["...", "...", "..R"]
    ensures F(g, 0, 0, 0) == Score(1)
  {
    var w: seq<Pos> := [(0, 0), (0, 1), (0, 2), (1, 2), (2, 2)];
    assert Step(w[0], w[1]) by { assert w[1] == Neighbour(0, 0, 1); }
    assert Step(w[1], w[2]) by { assert w[2] == Neighbour(0, 1, 1); }
    assert Step(w[2], w[3]) by { assert w[3] == Neighbour(0, 2, 2); }
    assert Step(w[3], w[4]) by { assert w[4] == Neighbour(1, 2, 2); }
    assert IsWalk(g, w, 0, 0, 0);
    WalkBound(g, w, 0, 0, 0);
    OnlyGoalCapsule(g, 0, 0, 0);
  }
}
