/**
 * The rules of the simulation, as pure functions over a snapshot of the grid.
 *
 * A grid is row-major: g[y][x] is true when the cell in column x of row y is
 * alive. The grid is bounded: positions off the grid do not exist, and there
 * is no wrap-around at the edges.
 */
module Life {

  /** A grid position, as the generation step queues it. */
  datatype Coord = Coord(x: int, y: int)

  type Grid = seq<seq<bool>>

  /** Every row of g has w cells. */
  predicate Rect(g: Grid, w: nat)
  {
    forall y :: 0 <= y < |g| ==> |g[y]| == w
  }

  /** Two grids have the same rows and row lengths. */
  predicate SameShape(a: Grid, b: Grid)
  {
    |a| == |b| && forall y :: 0 <= y < |a| ==> |a[y]| == |b[y]|
  }

  /** (x, y) names a cell of g. */
  predicate InGrid(g: Grid, x: int, y: int)
  {
    0 <= y < |g| && 0 <= x < |g[y]|
  }

  predicate AllInGrid(g: Grid, q: seq<Coord>)
  {
    forall c :: c in q ==> InGrid(g, c.x, c.y)
  }

  /** No coordinate occurs twice in q. */
  predicate Distinct(q: seq<Coord>)
  {
    forall i, j :: 0 <= i < j < |q| ==> q[i] != q[j]
  }

  /** The grid of h rows of w dead cells. */
  function Dead(w: nat, h: nat): (g: Grid)
    ensures |g| == h && Rect(g, w)
    ensures forall y, x :: 0 <= y < h && 0 <= x < w ==> !g[y][x]
  {
    seq(h, _ => seq(w, _ => false))
  }

  // ---------------------------------------------------------------------
  // Neighbour count
  // ---------------------------------------------------------------------

  /** 1 when (x, y) is a live cell of g, 0 when it is dead or off the grid. */
  function Live(g: Grid, x: int, y: int): nat
  {
    if InGrid(g, x, y) && g[y][x] then 1 else 0
  }

  /**
   * The number of live cells among the eight Moore neighbours of (x, y).
   * The cell itself is not one of them; neighbours off the grid count 0.
   */
  function Neighbours(g: Grid, x: int, y: int): (n: nat)
    ensures n <= 8
  {
    Live(g, x - 1, y - 1) + Live(g, x, y - 1) + Live(g, x + 1, y - 1) +
    Live(g, x - 1, y)     +                     Live(g, x + 1, y)     +
    Live(g, x - 1, y + 1) + Live(g, x, y + 1) + Live(g, x + 1, y + 1)
  }

  /** The count only looks at the eight cells around (x, y): grids that agree there agree on it. */
  lemma NeighboursLocal(g: Grid, h: Grid, x: int, y: int)
    requires SameShape(g, h)
    requires forall b, a ::
      x - 1 <= a <= x + 1 && y - 1 <= b <= y + 1 && (a, b) != (x, y) && InGrid(g, a, b) ==>
        h[b][a] == g[b][a]
    ensures Neighbours(h, x, y) == Neighbours(g, x, y)
  {
    forall b, a | x - 1 <= a <= x + 1 && y - 1 <= b <= y + 1 && (a, b) != (x, y)
      ensures Live(h, a, b) == Live(g, a, b)
    {
      if InGrid(g, a, b) {
        assert h[b][a] == g[b][a];
      }
    }
  }

  /** Changing the cell at (x, y) itself does not change its own count. */
  lemma NeighboursIgnoreSelf(g: Grid, x: int, y: int, b: bool)
    requires InGrid(g, x, y)
    ensures Neighbours(g[y := g[y][x := b]], x, y) == Neighbours(g, x, y)
  {
    NeighboursLocal(g, g[y := g[y][x := b]], x, y);
  }

  /**
   * No wrap-around: on a grid at least 3 cells wide, a cell in the last
   * column is not a neighbour of any cell in the first column.
   */
  lemma NoWrapAround(g: Grid, w: nat, c: Coord, y: int)
    requires Rect(g, w) && 3 <= w && c.x == w - 1 && 0 <= c.y < |g|
    ensures Neighbours(Toggle(g, c), 0, y) == Neighbours(g, 0, y)
  {
    NeighboursLocal(g, Toggle(g, c), 0, y);
  }

  // ---------------------------------------------------------------------
  // The rule
  // ---------------------------------------------------------------------

  /** Conway's rule: a live cell survives on 2 or 3 neighbours, a dead one is born on 3. */
  predicate LifeRule(alive: bool, n: nat)
  {
    if alive then n == 2 || n == 3 else n == 3
  }

  /** The grid one generation after g, every cell decided from g alone. */
  function NextState(g: Grid): (r: Grid)
    ensures SameShape(r, g)
  {
    seq(|g|, y requires 0 <= y < |g| =>
      seq(|g[y]|, x requires 0 <= x < |g[y]| => LifeRule(g[y][x], Neighbours(g, x, y))))
  }

  /**
   * The condition under which the scan queues (x, y): a live cell with at
   * most 1 or at least 4 live neighbours, or a dead cell with exactly 3.
   */
  predicate MustFlip(g: Grid, x: int, y: int)
    requires InGrid(g, x, y)
  {
    var n := Neighbours(g, x, y);
    if g[y][x] then n <= 1 || n >= 4 else n == 3
  }

  /** The scan's death-or-birth test is exactly "the rule changes this cell". */
  lemma MustFlipIffChanges(g: Grid, x: int, y: int)
    requires InGrid(g, x, y)
    ensures MustFlip(g, x, y) <==> LifeRule(g[y][x], Neighbours(g, x, y)) != g[y][x]
  {
  }

  // ---------------------------------------------------------------------
  // Toggling and draining a queue of flips
  // ---------------------------------------------------------------------

  /** g with the cell at c inverted. */
  function Toggle(g: Grid, c: Coord): (r: Grid)
    requires InGrid(g, c.x, c.y)
    ensures SameShape(r, g)
    ensures r[c.y][c.x] == !g[c.y][c.x]
    ensures forall y, x :: InGrid(g, x, y) && (x, y) != (c.x, c.y) ==> r[y][x] == g[y][x]
  {
    g[c.y := g[c.y][c.x := !g[c.y][c.x]]]
  }

  /** Toggling the same cell twice gives back the grid. */
  lemma ToggleTwice(g: Grid, c: Coord)
    requires InGrid(g, c.x, c.y)
    ensures Toggle(Toggle(g, c), c) == g
  {
    var r := Toggle(Toggle(g, c), c);
    forall y | 0 <= y < |g| ensures r[y] == g[y] {
      assert |r[y]| == |g[y]|;
      forall x | 0 <= x < |g[y]| ensures r[y][x] == g[y][x] {
      }
    }
  }

  /** Drains q as a stack: the last coordinate is toggled first. */
  function ApplyFlips(g: Grid, q: seq<Coord>): (r: Grid)
    requires AllInGrid(g, q)
    ensures SameShape(r, g)
    decreases |q|
  {
    if q == [] then g
    else
      var c := q[|q| - 1];
      var g' := Toggle(g, c);
      assert AllInGrid(g', q[..|q| - 1]) by {
        forall d | d in q[..|q| - 1] ensures InGrid(g', d.x, d.y) {
          assert d in q;
        }
      }
      ApplyFlips(g', q[..|q| - 1])
  }

  /** With no repeated coordinate, a cell ends inverted exactly when it was queued. */
  lemma {:induction false} ApplyFlipsAt(g: Grid, q: seq<Coord>, x: int, y: int)
    requires AllInGrid(g, q) && Distinct(q) && InGrid(g, x, y)
    ensures ApplyFlips(g, q)[y][x] == (g[y][x] != (Coord(x, y) in q))
    decreases |q|
  {
    if q != [] {
      var c := q[|q| - 1];
      var front := q[..|q| - 1];
      var g' := Toggle(g, c);
      assert q == front + [c];
      assert AllInGrid(g', front) by {
        forall d | d in front ensures InGrid(g', d.x, d.y) {
          assert d in q;
        }
      }
      assert Distinct(front);
      ApplyFlipsAt(g', front, x, y);
    }
  }

  /** Order does not matter: two repetition-free queues of the same coordinates agree. */
  lemma ApplyFlipsOrderFree(g: Grid, q1: seq<Coord>, q2: seq<Coord>)
    requires AllInGrid(g, q1) && Distinct(q1)
    requires AllInGrid(g, q2) && Distinct(q2)
    requires forall c :: c in q1 <==> c in q2
    ensures ApplyFlips(g, q1) == ApplyFlips(g, q2)
  {
    var r1, r2 := ApplyFlips(g, q1), ApplyFlips(g, q2);
    forall y | 0 <= y < |g| ensures r1[y] == r2[y] {
      forall x | 0 <= x < |g[y]| ensures r1[y][x] == r2[y][x] {
        ApplyFlipsAt(g, q1, x, y);
        ApplyFlipsAt(g, q2, x, y);
      }
    }
  }

  // ---------------------------------------------------------------------
  // The evaluation scan
  // ---------------------------------------------------------------------

  /** Row y of the flip mask, columns 0 .. n-1: entry x holds when the scan queues (x, y). */
  function MaskRow(g: Grid, y: int, n: nat): (r: seq<bool>)
    requires 0 <= y < |g| && n <= |g[y]|
    ensures |r| == n
  {
    if n == 0 then [] else MaskRow(g, y, n - 1) + [MustFlip(g, n - 1, y)]
  }

  /** Rows 0 .. n-1 of the flip mask. */
  function MaskRows(g: Grid, n: nat): (m: Grid)
    requires n <= |g|
    ensures |m| == n && forall y :: 0 <= y < n ==> |m[y]| == |g[y]|
  {
    if n == 0 then [] else MaskRows(g, n - 1) + [MaskRow(g, n - 1, |g[n - 1]|)]
  }

  /** The scan's decision for every cell of g. */
  function FlipMask(g: Grid): (m: Grid)
    ensures SameShape(m, g)
  {
    MaskRows(g, |g|)
  }

  lemma {:induction false} MaskRowAt(g: Grid, y: int, n: nat, x: int)
    requires 0 <= y < |g| && 0 <= x < n <= |g[y]|
    ensures MaskRow(g, y, n)[x] == MustFlip(g, x, y)
  {
    if x < n - 1 {
      MaskRowAt(g, y, n - 1, x);
    }
  }

  lemma {:induction false} MaskRowsAt(g: Grid, n: nat, x: int, y: int)
    requires 0 <= y < n <= |g| && 0 <= x < |g[y]|
    ensures MaskRows(g, n)[y][x] == MustFlip(g, x, y)
  {
    if y < n - 1 {
      MaskRowsAt(g, n - 1, x, y);
    } else {
      MaskRowAt(g, y, |g[y]|, x);
    }
  }

  /** The coordinates marked in row y of m, columns 0 .. n-1, left to right. */
  function ScanRow(m: Grid, y: int, n: nat): seq<Coord>
    requires 0 <= y < |m| && n <= |m[y]|
  {
    if n == 0 then []
    else ScanRow(m, y, n - 1) + (if m[y][n - 1] then [Coord(n - 1, y)] else [])
  }

  /** The coordinates marked in rows 0 .. n-1 of m, top to bottom. */
  function ScanRows(m: Grid, n: nat): seq<Coord>
    requires n <= |m|
  {
    if n == 0 then [] else ScanRows(m, n - 1) + ScanRow(m, n - 1, |m[n - 1]|)
  }

  /** The scan's decision for one cell, from its state and its count. */
  lemma FlipMaskAt(g: Grid, x: int, y: int, alive: bool, n: nat)
    requires InGrid(g, x, y) && alive == g[y][x] && n == Neighbours(g, x, y)
    ensures FlipMask(g)[y][x] == if alive then n <= 1 || n >= 4 else n == 3
  {
    MaskRowsAt(g, |g|, x, y);
  }

  /** Queueing (x, y) exactly when the mask marks it extends the scan of row y by one column. */
  lemma ScanRowStep(q: seq<Coord>, done: seq<Coord>, m: Grid, y: int, x: nat)
    requires 0 <= y < |m| && x < |m[y]| && q == done + ScanRow(m, y, x)
    ensures m[y][x] ==> q + [Coord(x, y)] == done + ScanRow(m, y, x + 1)
    ensures !m[y][x] ==> q == done + ScanRow(m, y, x + 1)
  {
  }

  /** A completed row extends the scan of rows 0 .. y-1 by row y. */
  lemma ScanRowsStep(start: seq<Coord>, m: Grid, y: nat)
    requires y < |m|
    ensures start + ScanRows(m, y) + ScanRow(m, y, |m[y]|) == start + ScanRows(m, y + 1)
  {
  }

  /** Everything one evaluation pass over g queues, in row-major order. */
  function Flips(g: Grid): seq<Coord>
  {
    ScanRows(FlipMask(g), |g|)
  }

  lemma DistinctConcat(a: seq<Coord>, b: seq<Coord>)
    requires Distinct(a) && Distinct(b)
    requires forall c :: c in a ==> c !in b
    ensures Distinct(a + b)
  {
    forall i, j | 0 <= i < j < |a + b| ensures (a + b)[i] != (a + b)[j] {
      if i < |a| && |a| <= j {
        assert (a + b)[i] in a && (a + b)[j] == b[j - |a|];
      }
    }
  }

  lemma {:induction false} ScanRowSpec(m: Grid, y: int, n: nat)
    requires 0 <= y < |m| && n <= |m[y]|
    ensures Distinct(ScanRow(m, y, n))
    ensures forall c :: c in ScanRow(m, y, n) <==> c.y == y && 0 <= c.x < n && m[y][c.x]
  {
    if n > 0 {
      ScanRowSpec(m, y, n - 1);
      var tail := if m[y][n - 1] then [Coord(n - 1, y)] else [];
      DistinctConcat(ScanRow(m, y, n - 1), tail);
    }
  }

  lemma {:induction false} ScanRowsSpec(m: Grid, n: nat)
    requires n <= |m|
    ensures Distinct(ScanRows(m, n))
    ensures forall c :: c in ScanRows(m, n) <==> 0 <= c.y < n && 0 <= c.x < |m[c.y]| && m[c.y][c.x]
  {
    if n > 0 {
      ScanRowsSpec(m, n - 1);
      ScanRowSpec(m, n - 1, |m[n - 1]|);
      DistinctConcat(ScanRows(m, n - 1), ScanRow(m, n - 1, |m[n - 1]|));
    }
  }

  /**
   * One pass queues every cell the rule changes and nothing else, each at
   * most once.
   */
  lemma FlipsSpec(g: Grid)
    ensures Distinct(Flips(g)) && AllInGrid(g, Flips(g))
    ensures forall c :: c in Flips(g) <==> InGrid(g, c.x, c.y) && MustFlip(g, c.x, c.y)
  {
    ScanRowsSpec(FlipMask(g), |g|);
    forall x, y | InGrid(g, x, y) ensures FlipMask(g)[y][x] == MustFlip(g, x, y) {
      MaskRowsAt(g, |g|, x, y);
    }
  }

  /** Evaluating then applying every queued flip is one synchronous Life generation. */
  lemma StepIsLife(g: Grid)
    ensures AllInGrid(g, Flips(g))
    ensures ApplyFlips(g, Flips(g)) == NextState(g)
  {
    FlipsSpec(g);
    var r, n := ApplyFlips(g, Flips(g)), NextState(g);
    forall y | 0 <= y < |g| ensures r[y] == n[y] {
      forall x | 0 <= x < |g[y]| ensures r[y][x] == n[y][x] {
        ApplyFlipsAt(g, Flips(g), x, y);
        MustFlipIffChanges(g, x, y);
      }
    }
  }

  /** A grid with no live cell stays so: nothing is queued and nothing is born. */
  lemma DeadIsFixedPoint(w: nat, h: nat)
    ensures Flips(Dead(w, h)) == []
    ensures NextState(Dead(w, h)) == Dead(w, h)
  {
    var g := Dead(w, h);
    FlipsSpec(g);
    forall y, x | InGrid(g, x, y) ensures Neighbours(g, x, y) == 0 && !MustFlip(g, x, y) {
      forall a, b ensures Live(g, a, b) == 0 {
        if InGrid(g, a, b) {
          assert |g[b]| == w;
        }
      }
    }
    StepIsLife(g);
  }
}
