/**
 * The generation step of the game of life on a torus.
 *
 * A grid is indexed `g[x][y]`, exactly like the two-dimensional array the
 * game manager keeps: the outer sequence runs along the x axis (the width,
 * 40 cells by default), each inner sequence along the y axis (the height,
 * 30 cells by default). Cells hold integers; a well-formed game only ever
 * holds 0 (dead) and 1 (alive), but nothing stops a loaded file from holding
 * other values. The rules below say what happens to those too, as long as
 * every neighbour sum fits in a signed 64-bit integer: the program's cells
 * are 64-bit and a larger sum wraps there, while it does not wrap here.
 */
module Life {

  type Grid = seq<seq<int>>

  const Dead: int := 0
  const Alive: int := 1

  function Width(g: Grid): nat {
    |g|
  }

  function Height(g: Grid): nat {
    if |g| == 0 then 0 else |g[0]|
  }

  /** Every column has the same length, so the grid has a shape `Width x Height`. */
  predicate IsRect(g: Grid) {
    forall x :: 0 <= x < |g| ==> |g[x]| == Height(g)
  }

  predicate InRange(g: Grid, x: int, y: int) {
    0 <= x < Width(g) && 0 <= y < Height(g)
  }

  predicate SameShape(a: Grid, b: Grid) {
    Width(a) == Width(b) && Height(a) == Height(b)
  }

  /** Every cell is 0 or 1. */
  predicate IsBinary(g: Grid) {
    forall x, y :: 0 <= x < |g| && 0 <= y < |g[x]| ==> g[x][y] == Dead || g[x][y] == Alive
  }

  /**
   * Toroidal coordinate. The manager writes `i % n` with `n > 0`; Python's
   * floored remainder and Dafny's Euclidean remainder agree for a positive
   * divisor, so `(-1) % n` is `n - 1` in both.
   */
  function Wrap(i: int, n: int): (r: int)
    requires n > 0
    ensures 0 <= r < n
  {
    i % n
  }

  /** The cell at `(x mod Width, y mod Height)`. */
  function At(g: Grid, x: int, y: int): int
    requires IsRect(g) && Width(g) > 0 && Height(g) > 0
  {
    g[Wrap(x, Width(g))][Wrap(y, Height(g))]
  }

  /**
   * The sum of the eight cells around `(x, y)`, every coordinate wrapped,
   * all read from `g` itself (the grid before the step).
   */
  function NeighbourCount(g: Grid, x: int, y: int): int
    requires IsRect(g) && InRange(g, x, y)
  {
    At(g, x - 1, y - 1) + At(g, x, y - 1) + At(g, x + 1, y - 1) +
    At(g, x - 1, y)     +                   At(g, x + 1, y)     +
    At(g, x - 1, y + 1) + At(g, x, y + 1) + At(g, x + 1, y + 1)
  }

  /**
   * The fate of one cell with `n` live neighbours. On 0/1 cells this is the
   * standard rule B3/S23: alive next exactly when it has 3 neighbours, or it
   * is alive and has 2. Any other cell value is left as it is.
   */
  function NextCell(cell: int, n: int): (r: int)
    ensures (cell == Dead || cell == Alive) ==> (r == Dead || r == Alive)
    ensures (cell == Dead || cell == Alive) ==> (r == Alive <==> n == 3 || (cell == Alive && n == 2))
    ensures cell != Dead && cell != Alive ==> r == cell
  {
    if cell == Alive && (n < 2 || n > 3) then Dead
    else if cell == Dead && n == 3 then Alive
    else cell
  }

  /** One generation: every cell of the new grid is decided from the old grid only. */
  function Step(g: Grid): (r: Grid)
    requires IsRect(g)
    ensures IsRect(r) && SameShape(r, g)
  {
    seq(Width(g), x requires 0 <= x < Width(g) =>
      seq(Height(g), y requires 0 <= y < Height(g) => NextCell(g[x][y], NeighbourCount(g, x, y))))
  }

  /** Each cell of the new grid is the rule applied to the old cell and its old neighbour count. */
  lemma StepCell(g: Grid, x: int, y: int)
    requires IsRect(g) && InRange(g, x, y)
    ensures Step(g)[x][y] == NextCell(g[x][y], NeighbourCount(g, x, y))
  {
    var col := seq(Height(g), j requires 0 <= j < Height(g) => NextCell(g[x][j], NeighbourCount(g, x, j)));
    assert Step(g)[x] == col;
  }

  /** The rules of the step, cell by cell, in terms of the old grid's neighbour counts. */
  lemma StepRules(g: Grid)
    requires IsRect(g)
    ensures var r := Step(g);
      // birth
      && (forall x, y :: InRange(g, x, y) && g[x][y] == Dead && NeighbourCount(g, x, y) == 3 ==>
            r[x][y] == Alive)
      // survival
      && (forall x, y :: InRange(g, x, y) && g[x][y] == Alive && 2 <= NeighbourCount(g, x, y) <= 3 ==>
            r[x][y] == Alive)
      // death by isolation or overcrowding
      && (forall x, y :: InRange(g, x, y) && g[x][y] == Alive && (NeighbourCount(g, x, y) < 2 || NeighbourCount(g, x, y) > 3) ==>
            r[x][y] == Dead)
      // nothing else changes
      && (forall x, y :: InRange(g, x, y) && r[x][y] != g[x][y] ==>
            (g[x][y] == Alive && r[x][y] == Dead) || (g[x][y] == Dead && r[x][y] == Alive && NeighbourCount(g, x, y) == 3))
  {
    var r := Step(g);
    forall x, y | InRange(g, x, y)
      ensures r[x][y] == NextCell(g[x][y], NeighbourCount(g, x, y))
    {
    }
  }

  /**
   * The nested loops of the manager's update: copy the grid, walk it row by
   * row (y outer, x inner), count neighbours in the OLD grid with the eight
   * wrapped reads, and overwrite a cell of the copy only when it dies or is
   * born. The copy then replaces the grid as a whole.
   */
  method UpdateGrid(g: Grid) returns (r: Grid)
    requires IsRect(g)
    ensures r == Step(g)
  {
    var next := g;
    var w, h := Width(g), Height(g);
    var y := 0;
    while y < h
      invariant 0 <= y <= h
      invariant |next| == w && forall i :: 0 <= i < w ==> |next[i]| == h
      invariant forall i, j :: 0 <= i < w && 0 <= j < h ==>
        next[i][j] == (if j < y then NextCell(g[i][j], NeighbourCount(g, i, j)) else g[i][j])
    {
      var x := 0;
      while x < w
        invariant 0 <= x <= w
        invariant |next| == w && forall i :: 0 <= i < w ==> |next[i]| == h
        invariant forall i, j :: 0 <= i < w && 0 <= j < h ==>
          next[i][j] == (if j < y || (j == y && i < x) then NextCell(g[i][j], NeighbourCount(g, i, j)) else g[i][j])
      {
        var n :=
          g[(x - 1) % w][(y - 1) % h] +
          g[x % w][(y - 1) % h] +
          g[(x + 1) % w][(y - 1) % h] +
          g[(x - 1) % w][y % h] +
          g[(x + 1) % w][y % h] +
          g[(x - 1) % w][(y + 1) % h] +
          g[x % w][(y + 1) % h] +
          g[(x + 1) % w][(y + 1) % h];
        assert n == NeighbourCount(g, x, y);
        if g[x][y] == Alive && (n < 2 || n > 3) {
          next := next[x := next[x][y := Dead]];
        } else if g[x][y] == Dead && n == 3 {
          next := next[x := next[x][y := Alive]];
        }
        x := x + 1;
      }
      y := y + 1;
    }
    var s := Step(g);
    assert forall i :: 0 <= i < w ==> next[i] == s[i];
    r := next;
  }
}
