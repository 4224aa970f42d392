/**
 * The simulation state and its operations: the grid of Cell objects, the
 * queue of pending flips and the generation counter, updated in place.
 *
 * Game gathers the state main.js keeps in module-level variables
 * (cellsWide, cellsHigh, currGen, cellGrid, flipQueue). Its ghost field
 * State is the abstract view of the grid, a Life.Grid kept equal to the
 * cells' isAlive flags; Repr is the set of Cell objects the grid uses.
 */
module Simulation {
  import opened Life

  /** The grid's width and height when the page loads. */
  const InitialWide := 60
  const InitialHigh := 40

  class Cell {
    const x: int
    const y: int
    var isAlive: bool

    constructor (x: int, y: int, isAlive: bool)
      ensures this.x == x && this.y == y && this.isAlive == isAlive
    {
      this.x := x;
      this.y := y;
      this.isAlive := isAlive;
    }

    /** Inverts the cell's state and touches nothing else. */
    method FlipState()
      modifies this
      ensures isAlive == !old(isAlive)
    {
      isAlive := !isAlive;
    }

    /**
     * Counts the live cells around this cell's coordinates in game's grid,
     * scanning the 3x3 block around it, skipping the centre and every
     * position that fails the bounds check.
     */
    method CountLivingAdj(game: Game) returns (liveCount: nat)
      requires game.GridValid()
      ensures liveCount == Neighbours(game.State, x, y) && liveCount <= 8
    {
      liveCount := 0;
      for dy := -1 to 2
        invariant liveCount == BlockPrefix(game.State, x, y, dy)
      {
        var yy := y + dy;
        for dx := -1 to 2
          invariant liveCount == BlockPrefix(game.State, x, y, dy) + RowPrefix(game.State, x, y, dy, dx)
        {
          var xx := x + dx;
          if dx == 0 && dy == 0 {
            continue;
          }
          if game.ValidBounds(xx, yy) {
            if game.cellGrid[yy][xx].isAlive {
              liveCount := liveCount + 1;
            }
          }
        }
      }
    }
  }

  /** What the neighbour scan adds for offset (dx, dy): the centre adds nothing. */
  ghost function Offset(g: Grid, x: int, y: int, dx: int, dy: int): nat
  {
    if dx == 0 && dy == 0 then 0 else Live(g, x + dx, y + dy)
  }

  /** What the neighbour scan has added in row offset dy for column offsets -1 .. k-1. */
  ghost function RowPrefix(g: Grid, x: int, y: int, dy: int, k: int): nat
  {
    (if -1 < k then Offset(g, x, y, -1, dy) else 0) +
    (if 0 < k then Offset(g, x, y, 0, dy) else 0) +
    (if 1 < k then Offset(g, x, y, 1, dy) else 0)
  }

  /** What the neighbour scan has added over row offsets -1 .. k-1. */
  ghost function BlockPrefix(g: Grid, x: int, y: int, k: int): nat
  {
    (if -1 < k then RowPrefix(g, x, y, -1, 2) else 0) +
    (if 0 < k then RowPrefix(g, x, y, 0, 2) else 0) +
    (if 1 < k then RowPrefix(g, x, y, 1, 2) else 0)
  }

  class Game {
    var cellsWide: int
    var cellsHigh: int
    var currGen: int
    var cellGrid: seq<seq<Cell>>
    var flipQueue: seq<Coord>

    ghost var State: Grid
    ghost var Repr: set<Cell>

    /**
     * The grid has cellsHigh > 0 rows of cellsWide > 0 cells, the cell at
     * [y][x] records (x, y), and State mirrors the cells' flags.
     */
    ghost predicate GridValid()
      reads this`cellsWide, this`cellsHigh, this`cellGrid, this`State, this`Repr, Repr
    {
      0 < cellsWide && 0 < cellsHigh &&
      |cellGrid| == cellsHigh && |State| == cellsHigh &&
      (forall y :: 0 <= y < cellsHigh ==> |cellGrid[y]| == cellsWide && |State[y]| == cellsWide) &&
      (forall y, x {:trigger cellGrid[y][x]} :: 0 <= y < cellsHigh && 0 <= x < cellsWide ==>
        cellGrid[y][x] in Repr && cellGrid[y][x].x == x && cellGrid[y][x].y == y &&
        cellGrid[y][x].isAlive == State[y][x])
    }

    /** Every queued coordinate is a position of the grid. */
    ghost predicate QueueValid()
      reads this`cellsWide, this`cellsHigh, this`flipQueue
    {
      forall c :: c in flipQueue ==> 0 <= c.x < cellsWide && 0 <= c.y < cellsHigh
    }

    /** The whole invariant: grid, queue, and a generation of at least 1. */
    ghost predicate Valid()
      reads this, Repr
    {
      GridValid() && QueueValid() && 1 <= currGen
    }

    /** Between two steps the flip queue is empty. */
    ghost predicate Idle()
      reads this, Repr
    {
      Valid() && flipQueue == []
    }

    /** The page-load state: a 60 x 40 grid of dead cells at generation 1. */
    constructor ()
      ensures Idle() && fresh(Repr)
      ensures cellsWide == InitialWide && cellsHigh == InitialHigh && currGen == 1
      ensures State == Dead(cellsWide, cellsHigh)
    {
      cellsWide, cellsHigh, currGen := InitialWide, InitialHigh, 1;
      cellGrid, flipQueue := [], [];
      State, Repr := [], {};
      new;
      InitCells();
    }

    /** (x, y) is a position of the grid. */
    function ValidBounds(x: int, y: int): (b: bool)
      reads this, Repr
      ensures GridValid() ==> (b <==> InGrid(State, x, y))
    {
      x >= 0 && x < cellsWide && y >= 0 && y < cellsHigh
    }

    /** Rebuilds the grid as cellsHigh rows of cellsWide fresh dead cells. */
    method InitCells()
      requires 0 < cellsWide && 0 < cellsHigh
      modifies this`cellGrid, this`State, this`Repr
      ensures GridValid() && fresh(Repr)
      ensures State == Dead(cellsWide, cellsHigh)
    {
      cellGrid := [];
      ghost var cells: set<Cell> := {};
      for y := 0 to cellsHigh
        invariant |cellGrid| == y && fresh(cells)
        invariant forall j :: 0 <= j < y ==> |cellGrid[j]| == cellsWide
        invariant forall j, i :: 0 <= j < y && 0 <= i < cellsWide ==>
          cellGrid[j][i] in cells && cellGrid[j][i].x == i && cellGrid[j][i].y == j && !cellGrid[j][i].isAlive
      {
        cellGrid := cellGrid + [[]];
        for x := 0 to cellsWide
          invariant |cellGrid| == y + 1 && fresh(cells)
          invariant |cellGrid[y]| == x
          invariant forall j :: 0 <= j < y ==> |cellGrid[j]| == cellsWide
          invariant forall j, i :: 0 <= j < y && 0 <= i < cellsWide ==>
            cellGrid[j][i] in cells && cellGrid[j][i].x == i && cellGrid[j][i].y == j && !cellGrid[j][i].isAlive
          invariant forall i :: 0 <= i < x ==>
            cellGrid[y][i] in cells && cellGrid[y][i].x == i && cellGrid[y][i].y == y && !cellGrid[y][i].isAlive
        {
          var cell := new Cell(x, y, false);
          cellGrid := cellGrid[y := cellGrid[y] + [cell]];
          cells := cells + {cell};
        }
      }
      State, Repr := Dead(cellsWide, cellsHigh), cells;
    }

    /** A manual edit of one cell: takes effect at once, queue and generation untouched. */
    method ToggleCell(x: int, y: int)
      requires Valid() && ValidBounds(x, y)
      modifies this`State, Repr
      ensures Valid()
      ensures State == Toggle(old(State), Coord(x, y))
    {
      cellGrid[y][x].FlipState();
      State := Toggle(State, Coord(x, y));
    }

    /**
     * The evaluation phase: reads every cell of the unchanged grid and
     * appends, in row-major order, the coordinates the rule changes.
     */
    method HandleCurrentCells()
      requires Valid()
      modifies this`flipQueue
      ensures Valid()
      ensures flipQueue == old(flipQueue) + Flips(State)
    {
      ghost var start, mask := flipQueue, FlipMask(State);
      for y := 0 to cellsHigh
        invariant flipQueue == start + ScanRows(mask, y)
      {
        ghost var done := flipQueue;
        for x := 0 to cellsWide
          invariant flipQueue == done + ScanRow(mask, y, x)
        {
          var cell := cellGrid[y][x];
          var aliveAdj := cell.CountLivingAdj(this);
          FlipMaskAt(State, x, y, cell.isAlive, aliveAdj);
          ScanRowStep(flipQueue, done, mask, y, x);
          if cell.isAlive {
            if aliveAdj <= 1 || aliveAdj >= 4 {
              flipQueue := flipQueue + [Coord(x, y)];
            }
          } else {
            if aliveAdj == 3 {
              flipQueue := flipQueue + [Coord(x, y)];
            }
          }
        }
        ScanRowsStep(start, mask, y);
      }
      FlipsSpec(State);
    }

    /** The apply phase: pops every queued coordinate and flips that cell. */
    method SpawnNextCells()
      requires Valid()
      modifies this`flipQueue, this`State, Repr
      ensures Valid() && flipQueue == []
      ensures State == ApplyFlips(old(State), old(flipQueue))
    {
      while |flipQueue| > 0
        invariant Valid()
        invariant ApplyFlips(State, flipQueue) == ApplyFlips(old(State), old(flipQueue))
        decreases |flipQueue|
      {
        var coord := flipQueue[|flipQueue| - 1];
        flipQueue := flipQueue[..|flipQueue| - 1];
        cellGrid[coord.y][coord.x].FlipState();
        State := Toggle(State, coord);
      }
    }

    /** One generation: evaluate, apply, count. */
    method Update()
      requires Idle()
      modifies this`flipQueue, this`State, this`currGen, Repr
      ensures Idle()
      ensures State == NextState(old(State))
      ensures currGen == old(currGen) + 1
    {
      ghost var g := State;
      HandleCurrentCells();
      assert flipQueue == Flips(g);
      SpawnNextCells();
      StepIsLife(g);
      currGen := currGen + 1;
    }

    /** The clear button: empty queue, generation 1, a fresh dead grid of the same size. */
    method Clear()
      requires Valid()
      modifies this
      ensures Idle() && fresh(Repr)
      ensures cellsWide == old(cellsWide) && cellsHigh == old(cellsHigh)
      ensures currGen == 1 && State == Dead(cellsWide, cellsHigh)
    {
      flipQueue := [];
      currGen := 1;
      InitCells();
    }

    /** The dimension checkbox: width and height exchanged, generation 1, a fresh dead grid. */
    method FlipDimensions()
      requires Idle()
      modifies this
      ensures Idle() && fresh(Repr)
      ensures cellsWide == old(cellsHigh) && cellsHigh == old(cellsWide)
      ensures currGen == 1 && State == Dead(cellsWide, cellsHigh)
    {
      var newWidth, newHeight := cellsHigh, cellsWide;
      cellsHigh := newHeight;
      cellsWide := newWidth;
      currGen := 1;
      InitCells();
    }
  }
}
