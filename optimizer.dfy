/** The FalloutOptimizer object: it holds the grid, the move budget, the
    direction order and a call counter, and solves the recurrence with either
    a dense three-dimensional memo table or a dictionary keyed by (x, y, t).
    Each solver is a recursive method proved to return F, the recurrence.
 */
module Optimizer {
  import opened Recurrence

  datatype Option<T> = None | Some(value: T)

  /** The dictionary memo of one solve: absent key means "not yet computed". */
  class DictMemo {
    var entries: map<(int, int, nat), Val>

    constructor ()
      ensures entries == map[]
    {
      entries := map[];
    }
  }

  class FalloutOptimizer {
    const grid: Grid
    const n: nat
    const maxSteps: int
    const directions: seq<(int, int)>
    var callsCount: nat

    /** The fields fixed at construction. */
    ghost predicate Valid() {
      Square(grid) && n == |grid| && maxSteps == MaxSteps(n) && directions == Directions
    }

    constructor (grid: Grid)
      requires Square(grid)
      ensures Valid() && this.grid == grid
      ensures maxSteps == 2 * |grid| - 1
      ensures directions == Directions
      ensures callsCount == 0
    {
      this.grid := grid;
      n := |grid|;
      maxSteps := 2 * |grid| - 1;
      directions := Directions;
      callsCount := 0;
    }

    /** A memo entry may exist only for an open, non-goal state inside the
        budget that passes the prune, and holds f of that state. */
    ghost predicate Memoizable(x: int, y: int, t: nat)
      requires Valid()
    {
      IsValidPosition(n, x, y) && grid[x][y] != Bomb && t <= maxSteps
      && !(x == n - 1 && y == n - 1) && IsReachable(n, x, y, t)
    }

    /** Every filled cell of the dense table is f of its state. */
    ghost predicate ArrayMemoSound(dp: array3<Option<Val>>)
      reads dp
      requires Valid()
    {
      dp.Length0 == n && dp.Length1 == n && dp.Length2 == maxSteps + 1 &&
      forall x, y, t :: 0 <= x < n && 0 <= y < n && 0 <= t <= maxSteps && dp[x, y, t].Some? ==>
        Memoizable(x, y, t) && dp[x, y, t].value == F(grid, x, y, t)
    }

    /** Every key of the dictionary is a memoizable state, mapped to its f. */
    ghost predicate DictMemoSound(memo: DictMemo)
      reads memo
      requires Valid()
    {
      forall s :: s in memo.entries ==>
        Memoizable(s.0, s.1, s.2) && memo.entries[s] == F(grid, s.0, s.1, s.2)
    }

    /** Solve with the dense table pre-filled with "not computed". Returns the
        reported score and the number of recurrence calls. */
    method SolveWithArray() returns (score: int, functionCalls: nat)
      requires Valid()
      modifies this
      ensures score == Report(F(grid, 0, 0, 0))
      ensures functionCalls == callsCount && callsCount >= 1
    {
      var dp := new Option<Val>[n, n, maxSteps + 1]((_, _, _) => None);
      callsCount := 0;
      var result := ArrayF(dp, 0, 0, 0);
      score := Report(result);
      functionCalls := callsCount;
    }

    /** The inner f of the dense solver: counts its own call, then the base
        cases, the table lookup, the loop over the four directions, and the
        store. */
    method ArrayF(dp: array3<Option<Val>>, x: int, y: int, t: nat) returns (r: Val)
      requires Valid() && ArrayMemoSound(dp)
      modifies this, dp
      ensures ArrayMemoSound(dp)
      ensures r == F(grid, x, y, t)
      ensures Memoizable(x, y, t) ==> dp[x, y, t].Some?
      ensures forall a, b, c :: 0 <= a < n && 0 <= b < n && 0 <= c <= maxSteps && old(dp[a, b, c]).Some? ==>
                dp[a, b, c].Some?
      ensures callsCount > old(callsCount)
      decreases maxSteps + 1 - t, 1
    {
      callsCount := callsCount + 1;
      if !IsValidPosition(n, x, y) || grid[x][y] == Bomb {
        return Unreachable;
      }
      if t > maxSteps {
        return Unreachable;
      }
      if x == n - 1 && y == n - 1 {
        return Score(CellValue(grid, x, y));
      }
      if !IsReachable(n, x, y, t) {
        return Unreachable;
      }
      if dp[x, y, t].Some? {
        return dp[x, y, t].value;
      }
      var currentValue := CellValue(grid, x, y);
      var maxCapsules := ArrayExplore(dp, x, y, t);
      r := if maxCapsules.Unreachable? then Unreachable else Score(currentValue + maxCapsules.k);
      dp[x, y, t] := Some(r);
    }

    /** The loop of the dense solver's f over the four directions, with the
        running maximum starting at minus infinity. */
    method ArrayExplore(dp: array3<Option<Val>>, x: int, y: int, t: nat) returns (maxCapsules: Val)
      requires Valid() && ArrayMemoSound(dp) && t <= maxSteps
      modifies this, dp
      ensures ArrayMemoSound(dp)
      ensures maxCapsules == Explore(grid, x, y, t, |Directions|)
      ensures forall a, b, c :: 0 <= a < n && 0 <= b < n && 0 <= c <= maxSteps && old(dp[a, b, c]).Some? ==>
                dp[a, b, c].Some?
      ensures callsCount >= old(callsCount) + |Directions|
      decreases maxSteps + 1 - t, 0
    {
      maxCapsules := Unreachable;
      for i := 0 to |directions|
        invariant maxCapsules == Explore(grid, x, y, t, i)
        invariant ArrayMemoSound(dp)
        invariant forall a, b, c :: 0 <= a < n && 0 <= b < n && 0 <= c <= maxSteps && old(dp[a, b, c]).Some? ==>
                    dp[a, b, c].Some?
        invariant callsCount >= old(callsCount) + i
      {
        var (dx, dy) := directions[i];
        var nextCapsules := ArrayF(dp, x + dx, y + dy, t + 1);
        ExploreStep(grid, x, y, t, i);
        maxCapsules := MaxVal(maxCapsules, nextCapsules);
      }
    }

    /** Solve with a fresh, empty dictionary. Returns the reported score and
        the number of recurrence calls. */
    method SolveWithDict() returns (score: int, functionCalls: nat)
      requires Valid()
      modifies this
      ensures score == Report(F(grid, 0, 0, 0))
      ensures functionCalls == callsCount && callsCount >= 1
    {
      var dp := new DictMemo();
      callsCount := 0;
      var result := DictF(dp, 0, 0, 0);
      score := Report(result);
      functionCalls := callsCount;
    }

    /** The inner f of the dictionary solver; the same steps as ArrayF, with
        the state (x, y, t) as the key. */
    method DictF(dp: DictMemo, x: int, y: int, t: nat) returns (r: Val)
      requires Valid() && DictMemoSound(dp)
      modifies this, dp
      ensures DictMemoSound(dp)
      ensures r == F(grid, x, y, t)
      ensures Memoizable(x, y, t) ==> (x, y, t) in dp.entries
      ensures old(dp.entries).Keys <= dp.entries.Keys
      ensures callsCount > old(callsCount)
      decreases maxSteps + 1 - t, 1
    {
      callsCount := callsCount + 1;
      if !IsValidPosition(n, x, y) || grid[x][y] == Bomb {
        return Unreachable;
      }
      if t > maxSteps {
        return Unreachable;
      }
      if x == n - 1 && y == n - 1 {
        return Score(CellValue(grid, x, y));
      }
      if !IsReachable(n, x, y, t) {
        return Unreachable;
      }
      var state := (x, y, t);
      if state in dp.entries {
        return dp.entries[state];
      }
      var currentValue := CellValue(grid, x, y);
      var maxCapsules := DictExplore(dp, x, y, t);
      r := if maxCapsules.Unreachable? then Unreachable else Score(currentValue + maxCapsules.k);
      dp.entries := dp.entries[state := r];
    }

    /** The loop of the dictionary solver's f over the four directions. */
    method DictExplore(dp: DictMemo, x: int, y: int, t: nat) returns (maxCapsules: Val)
      requires Valid() && DictMemoSound(dp) && t <= maxSteps
      modifies this, dp
      ensures DictMemoSound(dp)
      ensures maxCapsules == Explore(grid, x, y, t, |Directions|)
      ensures old(dp.entries).Keys <= dp.entries.Keys
      ensures callsCount >= old(callsCount) + |Directions|
      decreases maxSteps + 1 - t, 0
    {
      maxCapsules := Unreachable;
      for i := 0 to |directions|
        invariant maxCapsules == Explore(grid, x, y, t, i)
        invariant DictMemoSound(dp)
        invariant old(dp.entries).Keys <= dp.entries.Keys
        invariant callsCount >= old(callsCount) + i
      {
        var (dx, dy) := directions[i];
        var nextCapsules := DictF(dp, x + dx, y + dy, t + 1);
        ExploreStep(grid, x, y, t, i);
        maxCapsules := MaxVal(maxCapsules, nextCapsules);
      }
    }
  }

  /** One trial of the experiment driver: both backends on the same grid, each
      solved twice, agree, and the score is never negative. */
  method CompareBackends(grid: Grid) returns (arrayScore: int, dictScore: int, repeated: int)
    requires Square(grid)
    ensures arrayScore == dictScore == repeated
    ensures arrayScore == Report(F(grid, 0, 0, 0)) && arrayScore >= 0
  {
    var optimizer := new FalloutOptimizer(grid);
    var calls;
    arrayScore, calls := optimizer.SolveWithArray();
    dictScore, calls := optimizer.SolveWithDict();
    repeated, calls := optimizer.SolveWithArray();
  }
}
