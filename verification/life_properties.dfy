/**
 * Properties of the generation step: how neighbours are found on the torus,
 * the dead grid as a fixed point, the blinker oscillator, and the fact that
 * the torus has no distinguished edge (shifting commutes with a step).
 */
module LifeProperties {
  import opened Life

  /** The coordinate before `i` on a ring of `n` cells, written without a remainder. */
  function Prev(i: int, n: int): int {
    if i == 0 then n - 1 else i - 1
  }

  /** The coordinate after `i` on a ring of `n` cells, written without a remainder. */
  function Next(i: int, n: int): int {
    if i == n - 1 then 0 else i + 1
  }

  lemma WrapAdjacent(i: int, n: int)
    requires 0 <= i < n
    ensures Wrap(i - 1, n) == Prev(i, n)
    ensures Wrap(i, n) == i
    ensures Wrap(i + 1, n) == Next(i, n)
  {
  }

  /**
   * The eight cells around `(x, y)` on the torus, located without any
   * remainder: one step left/right and up/down, the first column
   * neighbouring the last and the first row neighbouring the last.
   */
  function MooreSum(g: Grid, x: int, y: int): int
    requires IsRect(g) && InRange(g, x, y)
  {
    var w, h := Width(g), Height(g);
    var xl, xr, yu, yd := Prev(x, w), Next(x, w), Prev(y, h), Next(y, h);
    g[xl][yu] + g[x][yu] + g[xr][yu] +
    g[xl][y]  +            g[xr][y]  +
    g[xl][yd] + g[x][yd] + g[xr][yd]
  }

  /** The eight wrapped reads of the step are exactly the Moore neighbourhood on the torus. */
  lemma CountIsMooreNeighbourhood(g: Grid, x: int, y: int)
    requires IsRect(g) && InRange(g, x, y)
    ensures NeighbourCount(g, x, y) == MooreSum(g, x, y)
  {
    WrapAdjacent(x, Width(g));
    WrapAdjacent(y, Height(g));
  }

  /** The grid `g` with the single cell `(x, y)` set to `v`. */
  function SetCell(g: Grid, x: int, y: int, v: int): (r: Grid)
    requires IsRect(g) && InRange(g, x, y)
    ensures IsRect(r) && SameShape(r, g)
    ensures r[x][y] == v
    ensures forall i, j :: InRange(g, i, j) && (i != x || j != y) ==> r[i][j] == g[i][j]
  {
    g[x := g[x][y := v]]
  }

  /**
   * The origin is a diagonal neighbour of the far corner: on a torus of at
   * least 3 x 3 cells, changing cell `(Width - 1, Height - 1)` changes the
   * neighbour count of `(0, 0)` by exactly the same amount.
   */
  lemma OriginCountsFarCorner(g: Grid, v: int)
    requires IsRect(g) && Width(g) >= 3 && Height(g) >= 3
    ensures var cx, cy := Width(g) - 1, Height(g) - 1;
      NeighbourCount(SetCell(g, cx, cy, v), 0, 0) == NeighbourCount(g, 0, 0) - g[cx][cy] + v
  {
    var cx, cy := Width(g) - 1, Height(g) - 1;
    var g' := SetCell(g, cx, cy, v);
    CountIsMooreNeighbourhood(g, 0, 0);
    CountIsMooreNeighbourhood(g', 0, 0);
  }

  /** On a grid of 0/1 cells a neighbour count lies between 0 and 8. */
  lemma CountBounds(g: Grid, x: int, y: int)
    requires IsRect(g) && IsBinary(g) && InRange(g, x, y)
    ensures 0 <= NeighbourCount(g, x, y) <= 8
  {
    CountIsMooreNeighbourhood(g, x, y);
  }

  /** A grid of 0/1 cells steps to a grid of 0/1 cells. */
  lemma StepKeepsBinary(g: Grid)
    requires IsRect(g) && IsBinary(g)
    ensures IsBinary(Step(g))
  {
    var r := Step(g);
    forall x, y | 0 <= x < |r| && 0 <= y < |r[x]|
      ensures r[x][y] == Dead || r[x][y] == Alive
    {
      StepCell(g, x, y);
    }
  }

  predicate AllDead(g: Grid) {
    forall x, y :: 0 <= x < |g| && 0 <= y < |g[x]| ==> g[x][y] == Dead
  }

  /** The empty world stays empty: a grid of dead cells is a fixed point of the step. */
  lemma AllDeadIsFixedPoint(g: Grid)
    requires IsRect(g) && AllDead(g)
    ensures Step(g) == g
  {
    var r := Step(g);
    forall x, y | InRange(g, x, y)
      ensures r[x][y] == g[x][y]
    {
      CountIsMooreNeighbourhood(g, x, y);
    }
    forall x | 0 <= x < Width(g)
      ensures r[x] == g[x]
    {
    }
  }

  /** Three live cells in a row along x, centred on `(2, 2)` of a 5 x 5 torus. */
  function BlinkerHorizontal(): Grid {
    [[0, 0, 0, 0, 0],
     [0, 0, 1, 0, 0],
     [0, 0, 1, 0, 0],
     [0, 0, 1, 0, 0],
     [0, 0, 0, 0, 0]]
  }

  /** The same three cells turned to run along y. */
  function BlinkerVertical(): Grid {
    [[0, 0, 0, 0, 0],
     [0, 0, 0, 0, 0],
     [0, 1, 1, 1, 0],
     [0, 0, 0, 0, 0],
     [0, 0, 0, 0, 0]]
  }

  /** The horizontal blinker becomes the vertical one and back: a period-2 oscillator. */
  lemma BlinkerOscillates()
    ensures Step(BlinkerHorizontal()) == BlinkerVertical()
    ensures Step(BlinkerVertical()) == BlinkerHorizontal()
    ensures Step(Step(BlinkerHorizontal())) == BlinkerHorizontal()
    ensures BlinkerHorizontal() != BlinkerVertical()
  {
    HorizontalToVertical();
    VerticalToHorizontal();
    assert BlinkerHorizontal()[1][2] != BlinkerVertical()[1][2];
  }

  lemma HorizontalToVertical()
    ensures Step(BlinkerHorizontal()) == BlinkerVertical()
  {
    var hz, vt := BlinkerHorizontal(), BlinkerVertical();
    forall x, y | 0 <= x < 5 && 0 <= y < 5
      ensures NextCell(hz[x][y], MooreSum(hz, x, y)) == vt[x][y]
    {
      HorizontalCell(x, y);
    }
    StepOnFiveByFive(hz, vt);
  }

  lemma VerticalToHorizontal()
    ensures Step(BlinkerVertical()) == BlinkerHorizontal()
  {
    var hz, vt := BlinkerHorizontal(), BlinkerVertical();
    forall x, y | 0 <= x < 5 && 0 <= y < 5
      ensures NextCell(vt[x][y], MooreSum(vt, x, y)) == hz[x][y]
    {
      VerticalCell(x, y);
    }
    StepOnFiveByFive(vt, hz);
  }

  /** One cell of the horizontal phase. */
  lemma HorizontalCell(x: int, y: int)
    requires 0 <= x < 5 && 0 <= y < 5
    ensures var hz := BlinkerHorizontal();
      NextCell(hz[x][y], MooreSum(hz, x, y)) == BlinkerVertical()[x][y]
  {
  }

  /** One cell of the vertical phase. */
  lemma VerticalCell(x: int, y: int)
    requires 0 <= x < 5 && 0 <= y < 5
    ensures var vt := BlinkerVertical();
      NextCell(vt[x][y], MooreSum(vt, x, y)) == BlinkerHorizontal()[x][y]
  {
  }

  /** `Step(g) == t` on a 5 x 5 torus, checked one cell at a time from the eight neighbours. */
  lemma StepOnFiveByFive(g: Grid, t: Grid)
    requires IsRect(g) && Width(g) == 5 && Height(g) == 5
    requires IsRect(t) && Width(t) == 5 && Height(t) == 5
    requires forall x, y :: 0 <= x < 5 && 0 <= y < 5 ==> NextCell(g[x][y], MooreSum(g, x, y)) == t[x][y]
    ensures Step(g) == t
  {
    var r := Step(g);
    forall x, y | 0 <= x < 5 && 0 <= y < 5
      ensures r[x][y] == t[x][y]
    {
      CountIsMooreNeighbourhood(g, x, y);
      assert r[x][y] == NextCell(g[x][y], NeighbourCount(g, x, y));
    }
    forall x | 0 <= x < 5
      ensures r[x] == t[x]
    {
    }
  }

  /** The grid moved one column towards lower x, the first column reappearing as the last. */
  function ShiftX(g: Grid): (r: Grid)
    requires IsRect(g)
    ensures IsRect(r) && SameShape(r, g)
    ensures forall x, y :: InRange(g, x, y) ==> r[Prev(x, Width(g))][y] == g[x][y]
  {
    seq(Width(g), x requires 0 <= x < Width(g) => g[Next(x, Width(g))])
  }

  /** The neighbourhood of a cell of the moved grid is the neighbourhood one column further on. */
  lemma ShiftedNeighbourhood(g: Grid, x: int, y: int)
    requires IsRect(g) && InRange(g, x, y)
    ensures var w := Width(g);
      NeighbourCount(ShiftX(g), x, y) == NeighbourCount(g, Next(x, w), y)
  {
    var w, s := Width(g), ShiftX(g);
    CountIsMooreNeighbourhood(s, x, y);
    CountIsMooreNeighbourhood(g, Next(x, w), y);
    assert Prev(Next(x, w), w) == x;
    assert s[Prev(x, w)] == g[x];
    assert s[x] == g[Next(x, w)];
    assert s[Next(x, w)] == g[Next(Next(x, w), w)];
  }

  /**
   * The torus has no edge: moving the whole pattern one column and then
   * stepping gives the same grid as stepping and then moving.
   */
  lemma StepCommutesWithShift(g: Grid)
    requires IsRect(g)
    ensures Step(ShiftX(g)) == ShiftX(Step(g))
  {
    var w := Width(g);
    var s := ShiftX(g);
    var a, b := Step(s), ShiftX(Step(g));
    forall x | 0 <= x < w
      ensures a[x] == b[x]
    {
      forall y | 0 <= y < Height(g)
        ensures a[x][y] == b[x][y]
      {
        ShiftedNeighbourhood(g, x, y);
        assert s[x][y] == g[Next(x, w)][y];
      }
    }
  }
}
