/** The dungeon of the simple dungeon generator: a fixed-size grid of cells,
    each a wall or empty, with bounds-checked accessors that answer with a
    sentinel instead of failing, and neighbour lookups that wrap around the
    edges of the grid. */
module DungeonGrid {
  import opened Wrappers

  /** A point of the grid, given by column x and row y. Nothing stops a
      position from lying outside the grid; the accessors check. */
  datatype Position = Position(x: int, y: int)

  /** What a cell holds. */
  datatype Cell = Wall | Empty

  /** The string by which the generator names a cell state. */
  function Name(c: Cell): string {
    match c
    case Wall => "wall"
    case Empty => "empty"
  }

  /** The cell state a string names: only "wall" and "empty" name one. */
  function CellOf(value: string): (r: Option<Cell>)
    ensures r.Some? <==> value == "wall" || value == "empty"
    ensures r.Some? ==> Name(r.value) == value
  {
    if value == "wall" then Some(Wall)
    else if value == "empty" then Some(Empty)
    else None
  }

  /** Every cell state is named by exactly one string, and reading that
      string back gives the state. */
  lemma CellOfName(c: Cell)
    ensures CellOf(Name(c)) == Some(c)
    ensures forall v :: CellOf(v) == Some(c) ==> v == Name(c)
  {
  }

  class Dungeon {
    const width: nat
    const height: nat
    /** Row-major storage: grid[y, x] is the cell in column x of row y. */
    const grid: array2<Cell>

    /** The storage has the dungeon's dimensions. */
    predicate Valid() {
      grid.Length0 == height && grid.Length1 == width
    }

    /** A dungeon of the given size with a wall in every cell. */
    constructor (width: nat, height: nat)
      ensures Valid()
      ensures this.width == width && this.height == height
      ensures fresh(grid)
      ensures forall y, x :: 0 <= y < height && 0 <= x < width ==> grid[y, x] == Wall
    {
      this.width := width;
      this.height := height;
      grid := new Cell[height, width];
      new;
      for y := 0 to height
        invariant forall j, i :: 0 <= j < y && 0 <= i < width ==> grid[j, i] == Wall
      {
        for x := 0 to width
          invariant forall j, i :: 0 <= j < y && 0 <= i < width ==> grid[j, i] == Wall
          invariant forall i :: 0 <= i < x ==> grid[y, i] == Wall
        {
          grid[y, x] := Wall;
        }
      }
    }

    /** Whether p names a cell of the grid. Only a grid with at least one
        row and one column has a cell, so the wrap-around arithmetic of
        the neighbour lookups never divides by zero. */
    predicate InBounds(p: Position)
      ensures InBounds(p) ==> width > 0 && height > 0
    {
      0 <= p.x < width && 0 <= p.y < height
    }

    /** The cell at p, or None when p lies outside the grid. */
    function GetCell(p: Position): (r: Option<Cell>)
      requires Valid()
      reads grid
      ensures r.None? <==> !InBounds(p)
      ensures r.Some? ==> r.value == grid[p.y, p.x]
    {
      if !InBounds(p) then None else Some(grid[p.y, p.x])
    }

    /** Writes the state named by value into the cell at p. Fails, and
        changes nothing, when p is outside the grid or value names no state;
        otherwise changes that one cell and no other. */
    method SetCell(p: Position, value: string) returns (ok: bool)
      requires Valid()
      modifies grid
      ensures ok <==> InBounds(p) && (value == "wall" || value == "empty")
      ensures ok ==> GetCell(p) == CellOf(value)
      ensures forall y, x :: 0 <= y < height && 0 <= x < width && (ok ==> x != p.x || y != p.y) ==>
        grid[y, x] == old(grid[y, x])
    {
      var cell := CellOf(value);
      if !InBounds(p) || cell.None? {
        return false;
      }
      grid[p.y, p.x] := cell.value;
      return true;
    }

    /** Puts a wall at p; fails, changing nothing, when p is outside the grid. */
    method SetWall(p: Position) returns (ok: bool)
      requires Valid()
      modifies grid
      ensures ok <==> InBounds(p)
      ensures ok ==> IsWall(p)
      ensures forall y, x :: 0 <= y < height && 0 <= x < width && (ok ==> x != p.x || y != p.y) ==>
        grid[y, x] == old(grid[y, x])
    {
      ok := SetCell(p, "wall");
    }

    /** Clears the cell at p; fails, changing nothing, when p is outside the grid. */
    method SetEmpty(p: Position) returns (ok: bool)
      requires Valid()
      modifies grid
      ensures ok <==> InBounds(p)
      ensures ok ==> IsEmpty(p)
      ensures forall y, x :: 0 <= y < height && 0 <= x < width && (ok ==> x != p.x || y != p.y) ==>
        grid[y, x] == old(grid[y, x])
    {
      ok := SetCell(p, "empty");
    }

    /** Whether there is a wall at p; false outside the grid. */
    function IsWall(p: Position): (r: bool)
      requires Valid()
      reads grid
      ensures r <==> InBounds(p) && grid[p.y, p.x] == Wall
    {
      GetCell(p) == Some(Wall)
    }

    /** Whether the cell at p is empty; false outside the grid. */
    function IsEmpty(p: Position): (r: bool)
      requires Valid()
      reads grid
      ensures r <==> InBounds(p) && grid[p.y, p.x] == Empty
    {
      GetCell(p) == Some(Empty)
    }

    /** The position one column to the right, wrapping from the last column
        to the first; None when p is outside the grid. */
    function GetRight(p: Position): (r: Option<Position>)
      ensures r.None? <==> !InBounds(p)
      ensures r.Some? ==> InBounds(r.value) && r.value.y == p.y
      ensures r.Some? ==> r.value.x == if p.x == width - 1 then 0 else p.x + 1
    {
      if !InBounds(p) then None else Some(Position((p.x + 1) % width, p.y))
    }

    /** The position one column to the left, wrapping from the first column
        to the last; None when p is outside the grid. */
    function GetLeft(p: Position): (r: Option<Position>)
      ensures r.None? <==> !InBounds(p)
      ensures r.Some? ==> InBounds(r.value) && r.value.y == p.y
      ensures r.Some? ==> r.value.x == if p.x == 0 then width - 1 else p.x - 1
    {
      if !InBounds(p) then None else Some(Position((p.x - 1 + width) % width, p.y))
    }

    /** The position one row up, wrapping from the first row to the last;
        None when p is outside the grid. */
    function GetAbove(p: Position): (r: Option<Position>)
      ensures r.None? <==> !InBounds(p)
      ensures r.Some? ==> InBounds(r.value) && r.value.x == p.x
      ensures r.Some? ==> r.value.y == if p.y == 0 then height - 1 else p.y - 1
    {
      if !InBounds(p) then None else Some(Position(p.x, (p.y - 1 + height) % height))
    }

    /** The position one row down, wrapping from the last row to the first;
        None when p is outside the grid. */
    function GetBelow(p: Position): (r: Option<Position>)
      ensures r.None? <==> !InBounds(p)
      ensures r.Some? ==> InBounds(r.value) && r.value.x == p.x
      ensures r.Some? ==> r.value.y == if p.y == height - 1 then 0 else p.y + 1
    {
      if !InBounds(p) then None else Some(Position(p.x, (p.y + 1) % height))
    }

    /** Stepping right and then left comes back to the start. */
    lemma LeftUndoesRight(p: Position)
      requires InBounds(p)
      ensures GetLeft(GetRight(p).value) == Some(p)
    {
    }

    /** Stepping left and then right comes back to the start. */
    lemma RightUndoesLeft(p: Position)
      requires InBounds(p)
      ensures GetRight(GetLeft(p).value) == Some(p)
    {
    }

    /** Stepping down and then up comes back to the start. */
    lemma AboveUndoesBelow(p: Position)
      requires InBounds(p)
      ensures GetAbove(GetBelow(p).value) == Some(p)
    {
    }

    /** Stepping up and then down comes back to the start. */
    lemma BelowUndoesAbove(p: Position)
      requires InBounds(p)
      ensures GetBelow(GetAbove(p).value) == Some(p)
    {
    }
  }
}
