/** The random-walk carver: starting from a position, it clears the cell
    under the walker, moves it to one of the four neighbouring cells, and
    repeats for a fixed number of steps. The random choice of neighbour is
    an input: choices[i] is the index picked in iteration i. */
module RandomWalk {
  import opened Wrappers
  import opened DungeonGrid

  // ---------------------------------------------------------------------
  // One iteration
  // ---------------------------------------------------------------------

  /** The four candidate moves from p, in the order right, left, above,
      below. All four are present when p is on the grid, none when not. */
  function Directions(d: Dungeon, p: Position): (r: seq<Option<Position>>)
    ensures |r| == 4
    ensures d.InBounds(p) ==> AllSome(r)
    ensures !d.InBounds(p) ==> AllNone(r)
  {
    [d.GetRight(p), d.GetLeft(p), d.GetAbove(p), d.GetBelow(p)]
  }

  predicate AllSome<T>(ds: seq<Option<T>>) {
    forall i :: 0 <= i < |ds| ==> ds[i].Some?
  }

  predicate AllNone<T>(ds: seq<Option<T>>) {
    forall i :: 0 <= i < |ds| ==> ds[i].None?
  }

  /** The candidates that are present, in their original order. */
  function Present(ds: seq<Option<Position>>): (r: seq<Position>)
    ensures |r| <= |ds|
    ensures AllNone(ds) ==> r == []
    ensures AllSome(ds) ==> |r| == |ds| && forall i :: 0 <= i < |ds| ==> r[i] == ds[i].value
  {
    if ds == [] then []
    else if ds[0].Some? then [ds[0].value] + Present(ds[1..])
    else Present(ds[1..])
  }

  /** A choice the random source can make among four candidates. */
  predicate Choices(choices: seq<nat>) {
    forall i :: 0 <= i < |choices| ==> choices[i] < 4
  }

  /** Where one iteration leaves a walker standing at p: on the neighbour
      the choice picks when p is on the grid, and still at p otherwise. */
  function Move(d: Dungeon, p: Position, choice: nat): (q: Position)
    requires choice < 4
    ensures d.InBounds(p) ==> d.InBounds(q)
    ensures !d.InBounds(p) ==> q == p
  {
    if d.InBounds(p) then Directions(d, p)[choice].value else p
  }

  // ---------------------------------------------------------------------
  // Adjacency on the torus, stated without the neighbour functions
  // ---------------------------------------------------------------------

  /** b is one step from a, forwards or backwards, counting modulo n. */
  predicate OneApart(a: int, b: int, n: nat) {
    n > 0 && ((b - a - 1) % n == 0 || (b - a + 1) % n == 0)
  }

  /** q lies next to p on the dungeon seen as a torus: same row and one
      column apart, or same column and one row apart. */
  predicate Adjacent(d: Dungeon, p: Position, q: Position) {
    (q.y == p.y && OneApart(p.x, q.x, d.width)) || (q.x == p.x && OneApart(p.y, q.y, d.height))
  }

  /** Wrapping from the last index to the first, or back, is one step. */
  lemma WrapIsOneApart(n: nat)
    requires n > 0
    ensures OneApart(n - 1, 0, n) && OneApart(0, n - 1, n)
  {
  }

  /** Every candidate from an on-grid position is adjacent to it. */
  lemma NeighboursAdjacent(d: Dungeon, p: Position)
    requires d.InBounds(p)
    ensures forall i :: 0 <= i < 4 ==> Adjacent(d, p, Directions(d, p)[i].value)
  {
    WrapIsOneApart(d.width);
    WrapIsOneApart(d.height);
    assert 0 % d.width == 0 && 0 % d.height == 0;
    var ds := Directions(d, p);
    assert Adjacent(d, p, ds[0].value) by {
      if p.x < d.width - 1 { assert ds[0].value.x - p.x - 1 == 0; }
    }
    assert Adjacent(d, p, ds[1].value) by {
      if p.x > 0 { assert ds[1].value.x - p.x + 1 == 0; }
    }
    assert Adjacent(d, p, ds[2].value) by {
      if p.y > 0 { assert ds[2].value.y - p.y + 1 == 0; }
    }
    assert Adjacent(d, p, ds[3].value) by {
      if p.y < d.height - 1 { assert ds[3].value.y - p.y - 1 == 0; }
    }
  }

  /** One iteration from an on-grid position always moves to an adjacent
      on-grid cell. */
  lemma MoveIsAdjacent(d: Dungeon, p: Position, choice: nat)
    requires choice < 4
    requires d.InBounds(p)
    ensures d.InBounds(Move(d, p, choice)) && Adjacent(d, p, Move(d, p, choice))
  {
    NeighboursAdjacent(d, p);
  }

  // ---------------------------------------------------------------------
  // The whole walk
  // ---------------------------------------------------------------------

  /** How many times the loop body runs for a given step count. */
  function Iterations(steps: int): nat {
    if steps < 0 then 0 else steps
  }

  /** The walker's position after n iterations. */
  function PositionAfter(d: Dungeon, start: Position, choices: seq<nat>, n: nat): Position
    requires Choices(choices) && n <= |choices|
  {
    if n == 0 then start
    else Move(d, PositionAfter(d, start, choices, n - 1), choices[n - 1])
  }

  /** The positions cleared during the first n iterations: the walker's
      position at the start of each of them. */
  function Visited(d: Dungeon, start: Position, choices: seq<nat>, n: nat): set<Position>
    requires Choices(choices) && n <= |choices|
  {
    if n == 0 then {}
    else Visited(d, start, choices, n - 1) + {PositionAfter(d, start, choices, n - 1)}
  }

  /** Carves the dungeon: for each of `steps` iterations, clears the
      walker's cell and moves the walker to the neighbour that choices
      picks. A cell ends up empty when the walker stood on it at the start
      of some iteration; every other cell keeps its old value. */
  method RandomWalkDungeonLimSteps(d: Dungeon, start: Position, steps: int, choices: seq<nat>)
    requires d.Valid()
    requires Choices(choices) && steps <= |choices|
    modifies d.grid
    ensures forall y, x :: 0 <= y < d.height && 0 <= x < d.width ==>
      d.grid[y, x] == if Position(x, y) in Visited(d, start, choices, Iterations(steps)) then Empty
                      else old(d.grid[y, x])
    ensures forall y, x :: 0 <= y < d.height && 0 <= x < d.width && old(d.grid[y, x]) == Empty ==>
      d.grid[y, x] == Empty
    ensures !d.InBounds(start) ==>
      forall y, x :: 0 <= y < d.height && 0 <= x < d.width ==> d.grid[y, x] == old(d.grid[y, x])
  {
    var current := start;
    var i := 0;
    while i < steps
      invariant 0 <= i <= Iterations(steps)
      invariant current == PositionAfter(d, start, choices, i)
      invariant d.InBounds(start) ==> d.InBounds(current)
      invariant forall y, x :: 0 <= y < d.height && 0 <= x < d.width ==>
        d.grid[y, x] == if Position(x, y) in Visited(d, start, choices, i) then Empty
                        else old(d.grid[y, x])
    {
      var _ := d.SetEmpty(current);
      ghost var cleared := Visited(d, start, choices, i + 1);
      assert cleared == Visited(d, start, choices, i) + {current};
      forall y, x | 0 <= y < d.height && 0 <= x < d.width
        ensures d.grid[y, x] == if Position(x, y) in cleared then Empty else old(d.grid[y, x])
      {
      }
      var directions := Directions(d, current);
      var valid := Present(directions);
      FilterKeepsMove(d, current, choices[i]);
      if |valid| > 0 {
        current := valid[choices[i]];
      }
      i := i + 1;
    }
    assert i == Iterations(steps);
    ghost var cleared := Visited(d, start, choices, i);
    forall y, x | 0 <= y < d.height && 0 <= x < d.width && old(d.grid[y, x]) == Empty
      ensures d.grid[y, x] == Empty
    {
    }
    if !d.InBounds(start) {
      VisitedOffGrid(d, start, choices, Iterations(steps));
      forall y, x | 0 <= y < d.height && 0 <= x < d.width
        ensures d.grid[y, x] == old(d.grid[y, x])
      {
        assert Position(x, y) !in cleared;
      }
    }
  }

  /** Filtering out absent candidates and then picking by index is the
      same as the reference move: from an on-grid position all four
      candidates survive the filter, from an off-grid one none does. */
  lemma FilterKeepsMove(d: Dungeon, p: Position, choice: nat)
    requires choice < 4
    ensures var valid := Present(Directions(d, p));
      if d.InBounds(p) then |valid| == 4 && valid[choice] == Move(d, p, choice) else valid == []
  {
  }

  // ---------------------------------------------------------------------
  // Properties of the walk
  // ---------------------------------------------------------------------

  /** From an on-grid start the walker stays on the grid. */
  lemma {:induction false} PositionStaysInBounds(d: Dungeon, start: Position, choices: seq<nat>, n: nat)
    requires Choices(choices) && n <= |choices|
    requires d.InBounds(start)
    ensures d.InBounds(PositionAfter(d, start, choices, n))
  {
    if n > 0 {
      PositionStaysInBounds(d, start, choices, n - 1);
    }
  }

  /** From an on-grid start each iteration moves the walker to an adjacent
      cell: a move always happens, and it is a single step on the torus. */
  lemma WalkMovesToAdjacent(d: Dungeon, start: Position, choices: seq<nat>, k: nat)
    requires Choices(choices) && k < |choices|
    requires d.InBounds(start)
    ensures Adjacent(d, PositionAfter(d, start, choices, k), PositionAfter(d, start, choices, k + 1))
  {
    PositionStaysInBounds(d, start, choices, k);
    MoveIsAdjacent(d, PositionAfter(d, start, choices, k), choices[k]);
  }

  /** From an off-grid start the walker never moves. */
  lemma {:induction false} PositionStuckOffGrid(d: Dungeon, start: Position, choices: seq<nat>, n: nat)
    requires Choices(choices) && n <= |choices|
    requires !d.InBounds(start)
    ensures PositionAfter(d, start, choices, n) == start
    ensures AllNone(Directions(d, PositionAfter(d, start, choices, n)))
  {
    if n > 0 {
      PositionStuckOffGrid(d, start, choices, n - 1);
    }
  }

  /** Every position the walker stands on at the start of one of the first
      n iterations is among the cells those iterations clear. */
  lemma {:induction false} TrailVisited(d: Dungeon, start: Position, choices: seq<nat>, n: nat, k: nat)
    requires Choices(choices) && n <= |choices| && k < n
    ensures PositionAfter(d, start, choices, k) in Visited(d, start, choices, n)
  {
    if k < n - 1 {
      TrailVisited(d, start, choices, n - 1, k);
    }
  }

  /** From an off-grid start nothing on the grid is cleared. */
  lemma {:induction false} VisitedOffGrid(d: Dungeon, start: Position, choices: seq<nat>, n: nat)
    requires Choices(choices) && n <= |choices|
    requires !d.InBounds(start)
    ensures forall q :: q in Visited(d, start, choices, n) ==> q == start
  {
    if n > 0 {
      VisitedOffGrid(d, start, choices, n - 1);
      PositionStuckOffGrid(d, start, choices, n - 1);
    }
  }

  /** From an on-grid start every cleared position is on the grid. */
  lemma {:induction false} VisitedOnGrid(d: Dungeon, start: Position, choices: seq<nat>, n: nat)
    requires Choices(choices) && n <= |choices|
    requires d.InBounds(start)
    ensures forall q :: q in Visited(d, start, choices, n) ==> d.InBounds(q)
  {
    if n > 0 {
      VisitedOnGrid(d, start, choices, n - 1);
      PositionStaysInBounds(d, start, choices, n - 1);
    }
  }

  /** At most one cell per iteration is cleared, and the start is cleared
      as soon as there is one iteration. */
  lemma {:induction false} VisitedCount(d: Dungeon, start: Position, choices: seq<nat>, n: nat)
    requires Choices(choices) && n <= |choices|
    ensures |Visited(d, start, choices, n)| <= n
    ensures n >= 1 ==> start in Visited(d, start, choices, n)
  {
    if n > 0 {
      VisitedCount(d, start, choices, n - 1);
    }
  }

  /** The cell the walker stops on is not cleared unless it was visited
      earlier: on a 3 by 1 dungeon, one step right from the first cell
      clears that cell and leaves the walker on a cell it never cleared. */
  lemma StopCellNotCleared(d: Dungeon)
    requires d.width == 3 && d.height == 1
    ensures PositionAfter(d, Position(0, 0), [0], 1) == Position(1, 0)
    ensures Visited(d, Position(0, 0), [0], 1) == {Position(0, 0)}
  {
  }

  // ---------------------------------------------------------------------
  // Counting the cells of the grid
  // ---------------------------------------------------------------------

  /** The first w cells of row y. */
  function Row(w: nat, y: int): (r: set<Position>)
    ensures forall q :: q in r <==> 0 <= q.x < w && q.y == y
    ensures |r| == w
  {
    if w == 0 then {} else Row(w - 1, y) + {Position(w - 1, y)}
  }

  /** All cells of a w by h grid. */
  function Rect(w: nat, h: nat): (r: set<Position>)
    ensures forall q :: q in r <==> 0 <= q.x < w && 0 <= q.y < h
    ensures |r| == w * h
  {
    if h == 0 then {}
    else
      var upper := Rect(w, h - 1);
      var row := Row(w, h - 1);
      assert upper * row == {};
      upper + row
  }

  /** From an on-grid start the walk clears at most as many cells as the
      grid has. */
  lemma VisitedFitsGrid(d: Dungeon, start: Position, choices: seq<nat>, n: nat)
    requires Choices(choices) && n <= |choices|
    requires d.InBounds(start)
    ensures |Visited(d, start, choices, n)| <= d.width * d.height
  {
    VisitedOnGrid(d, start, choices, n);
    SubsetCard(Visited(d, start, choices, n), Rect(d.width, d.height));
  }

  lemma SubsetCard<T>(a: set<T>, b: set<T>)
    requires a <= b
    ensures |a| <= |b|
  {
    assert b == a + (b - a);
  }

  /** A new dungeon carved by a walk from an on-grid start: a cell is empty
      exactly when the walker stood on it, the start is empty once there is
      a step, and the number of empty cells is at most the step count and
      at most the number of cells. */
  method CarveNewDungeon(width: nat, height: nat, start: Position, steps: int, choices: seq<nat>)
    returns (d: Dungeon)
    requires Choices(choices) && steps <= |choices|
    requires 0 <= start.x < width && 0 <= start.y < height
    ensures d.Valid() && d.width == width && d.height == height && fresh(d.grid)
    ensures forall y, x :: 0 <= y < height && 0 <= x < width ==>
      (d.grid[y, x] == Empty <==> Position(x, y) in Visited(d, start, choices, Iterations(steps)))
    ensures forall q :: q in Visited(d, start, choices, Iterations(steps)) ==> d.InBounds(q)
    ensures steps >= 1 ==> d.grid[start.y, start.x] == Empty
    ensures |Visited(d, start, choices, Iterations(steps))| <= Iterations(steps)
    ensures |Visited(d, start, choices, Iterations(steps))| <= width * height
  {
    d := new Dungeon(width, height);
    RandomWalkDungeonLimSteps(d, start, steps, choices);
    var n := Iterations(steps);
    VisitedCount(d, start, choices, n);
    VisitedFitsGrid(d, start, choices, n);
    VisitedOnGrid(d, start, choices, n);
  }
}
