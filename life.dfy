/** Conway's Game of Life (rule B3/S23) on a square toroidal grid, as pure
    values: the meaning of every operation of the canvas in main.py. */
module Life {
  import opened Torus

  /** A cell glyph: "🟩" is Alive, "⬛" is Dead. */
  datatype Cell = Alive | Dead

  /** A matrix of cells stored row by row: g[y][x] is column x of row y. */
  type Grid = seq<seq<Cell>>

  /** `g` has `n` rows of `n` cells each. */
  predicate IsGrid(g: Grid, n: int) {
    |g| == n && forall y :: 0 <= y < |g| ==> |g[y]| == n
  }

  /** The cell seen at any integer coordinates, both wrapped (main.py get). */
  function At(g: Grid, n: int, x: int, y: int): (c: Cell)
    requires n > 0 && IsGrid(g, n)
  {
    g[Wrap(y, n)][Wrap(x, n)]
  }

  /** The grid with the cell at wrapped (x, y) replaced by `v` (main.py set). */
  function SetAt(g: Grid, n: int, x: int, y: int, v: Cell): (r: Grid)
    requires n > 0 && IsGrid(g, n)
    ensures IsGrid(r, n)
  {
    g[Wrap(y, n) := g[Wrap(y, n)][Wrap(x, n) := v]]
  }

  /** The grid the constructor builds when no state is given. */
  function AllDead(n: nat): (r: Grid)
    requires n > 0
    ensures IsGrid(r, n)
    ensures forall x: int, y: int :: At(r, n, x, y) == Dead
  {
    seq(n, i => seq(n, j => Dead))
  }

  /** Coordinates congruent modulo `n` name the same cell. */
  lemma AtCongruent(g: Grid, n: int, x: int, y: int, x': int, y': int)
    requires n > 0 && IsGrid(g, n)
    requires (x - x') % n == 0 && (y - y') % n == 0
    ensures At(g, n, x, y) == At(g, n, x', y')
  {
    WrapCongruent(x, x', n);
    WrapCongruent(y, y', n);
  }

  /** get(x, y) is get(x mod n, y mod n), for every integer x and y. */
  lemma AtWrapped(g: Grid, n: int, x: int, y: int)
    requires n > 0 && IsGrid(g, n)
    ensures At(g, n, Wrap(x, n), Wrap(y, n)) == At(g, n, x, y)
  {
    WrapIdempotent(x, n);
    WrapIdempotent(y, n);
  }

  /** Reading back after a write: the congruent cell holds the new value and
      every other cell its old one. */
  lemma {:induction false} AtSetAt(g: Grid, n: int, x: int, y: int, v: Cell, x': int, y': int)
    requires n > 0 && IsGrid(g, n)
    ensures At(SetAt(g, n, x, y, v), n, x', y') ==
            if (x' - x) % n == 0 && (y' - y) % n == 0 then v else At(g, n, x', y')
  {
    WrapCongruent(x', x, n);
    WrapCongruent(y', y, n);
  }

  /** The offsets (dx, dy) of the eight Moore neighbours, in the order main.py
      visits them: dx outer, dy inner, both from -1 to 1, the centre skipped. */
  const MooreOffsets: seq<(int, int)> :=
    [(-1, -1), (-1, 0), (-1, 1), (0, -1), (0, 1), (1, -1), (1, 0), (1, 1)]

  /** The eight neighbours of (x, y), each coordinate wrapped. */
  function Neighborhood(g: Grid, n: int, x: int, y: int): (r: seq<Cell>)
    requires n > 0 && IsGrid(g, n)
    ensures |r| == 8
  {
    seq(8, k requires 0 <= k < 8 => At(g, n, x + MooreOffsets[k].0, y + MooreOffsets[k].1))
  }

  /** How many cells of `s` are alive, counted from the front as main.py
      accumulates them. */
  function CountAlive(s: seq<Cell>): (k: nat) {
    if s == [] then 0
    else CountAlive(s[..|s| - 1]) + (if s[|s| - 1] == Alive then 1 else 0)
  }

  /** The number of live cells among the eight neighbours of (x, y). */
  function NeighborCount(g: Grid, n: int, x: int, y: int): (k: nat)
    requires n > 0 && IsGrid(g, n)
  {
    CountAlive(Neighborhood(g, n, x, y))
  }

  /** The count is the multiplicity of Alive in `s`, whatever the order. */
  lemma {:induction false} CountAliveIsMultiplicity(s: seq<Cell>)
    ensures CountAlive(s) == multiset(s)[Alive]
  {
    if s != [] {
      var init := s[..|s| - 1];
      assert s == init + [s[|s| - 1]];
      CountAliveIsMultiplicity(init);
    }
  }

  lemma {:induction false} CountAliveAtMostLength(s: seq<Cell>)
    ensures CountAlive(s) <= |s|
  {
    if s != [] {
      CountAliveAtMostLength(s[..|s| - 1]);
    }
  }

  /** A sequence of copies of one cell counts all or nothing. */
  lemma {:induction false} CountAliveUniform(s: seq<Cell>, c: Cell)
    requires forall k :: 0 <= k < |s| ==> s[k] == c
    ensures CountAlive(s) == if c == Alive then |s| else 0
  {
    if s != [] {
      CountAliveUniform(s[..|s| - 1], c);
    }
  }

  /** The offsets are exactly the eight non-zero steps of at most one cell
      in each direction: the centre is never among them. */
  lemma MooreOffsetsAreTheNeighbours(dx: int, dy: int)
    ensures (dx, dy) in MooreOffsets <==> -1 <= dx <= 1 && -1 <= dy <= 1 && (dx, dy) != (0, 0)
  {
  }

  /** A neighbour count lies in 0 .. 8. */
  lemma NeighborCountBounds(g: Grid, n: int, x: int, y: int)
    requires n > 0 && IsGrid(g, n)
    ensures 0 <= NeighborCount(g, n, x, y) <= 8
  {
    CountAliveAtMostLength(Neighborhood(g, n, x, y));
  }

  /** The neighbourhood depends on (x, y) only modulo `n`. */
  lemma NeighborhoodCongruent(g: Grid, n: int, x: int, y: int, x': int, y': int)
    requires n > 0 && IsGrid(g, n)
    requires (x - x') % n == 0 && (y - y') % n == 0
    ensures Neighborhood(g, n, x, y) == Neighborhood(g, n, x', y')
  {
    forall k | 0 <= k < 8
      ensures Neighborhood(g, n, x, y)[k] == Neighborhood(g, n, x', y')[k]
    {
      var (dx, dy) := MooreOffsets[k];
      assert (x + dx) - (x' + dx) == x - x' && (y + dy) - (y' + dy) == y - y';
      AtCongruent(g, n, x + dx, y + dy, x' + dx, y' + dy);
    }
  }

  /** The centre cell never counts as its own neighbour: on a torus of side
      at least 2, rewriting the centre leaves the count unchanged. */
  lemma NeighborCountIgnoresCentre(g: Grid, n: int, x: int, y: int, v: Cell)
    requires n >= 2 && IsGrid(g, n)
    ensures NeighborCount(SetAt(g, n, x, y, v), n, x, y) == NeighborCount(g, n, x, y)
  {
    var g' := SetAt(g, n, x, y, v);
    UnitStepMoves(x, n);
    UnitStepMoves(y, n);
    forall k | 0 <= k < 8
      ensures Neighborhood(g', n, x, y)[k] == Neighborhood(g, n, x, y)[k]
    {
      var (dx, dy) := MooreOffsets[k];
      AtSetAt(g, n, x, y, v, x + dx, y + dy);
      WrapCongruent(x + dx, x, n);
      WrapCongruent(y + dy, y, n);
    }
    assert Neighborhood(g', n, x, y) == Neighborhood(g, n, x, y);
  }

  /** On a 1 x 1 torus all eight neighbours are the one cell itself. */
  lemma NeighborCountSingleCell(g: Grid, x: int, y: int)
    requires IsGrid(g, 1)
    ensures NeighborCount(g, 1, x, y) == if g[0][0] == Alive then 8 else 0
  {
    CountAliveUniform(Neighborhood(g, 1, x, y), g[0][0]);
  }

  /** Rule B3/S23: a cell is alive in the next generation when it has three
      live neighbours, or when it is alive and has two. */
  function Rule(c: Cell, k: nat): (r: Cell)
    ensures c == Alive ==> (r == Alive <==> k == 2 || k == 3)
    ensures c == Dead ==> (r == Alive <==> k == 3)
  {
    if k == 3 || (c == Alive && k == 2) then Alive else Dead
  }

  /** Every cell advanced simultaneously, each from the counts of `g`. */
  function NextGeneration(g: Grid, n: int): (r: Grid)
    requires n > 0 && IsGrid(g, n)
    ensures IsGrid(r, n)
    ensures forall y, x | 0 <= y < n && 0 <= x < n ::
              var k := NeighborCount(g, n, x, y);
              && (g[y][x] == Alive ==> (r[y][x] == Alive <==> k == 2 || k == 3))
              && (g[y][x] == Dead ==> (r[y][x] == Alive <==> k == 3))
  {
    seq(n, y requires 0 <= y < n =>
      seq(n, x requires 0 <= x < n => Rule(g[y][x], NeighborCount(g, n, x, y))))
  }

  /** An empty torus stays empty. */
  lemma AllDeadIsStill(n: nat)
    requires n > 0
    ensures NextGeneration(AllDead(n), n) == AllDead(n)
  {
    var g := AllDead(n);
    var r := NextGeneration(g, n);
    forall y | 0 <= y < n
      ensures r[y] == g[y]
    {
      forall x | 0 <= x < n
        ensures r[y][x] == g[y][x]
      {
        CountAliveUniform(Neighborhood(g, n, x, y), Dead);
      }
    }
  }

  /** The grid moved by (dx, dy) around the torus. */
  function Shift(g: Grid, n: int, dx: int, dy: int): (r: Grid)
    requires n > 0 && IsGrid(g, n)
    ensures IsGrid(r, n)
  {
    seq(n, y requires 0 <= y < n => seq(n, x requires 0 <= x < n => At(g, n, x - dx, y - dy)))
  }

  lemma AtShift(g: Grid, n: int, dx: int, dy: int, x: int, y: int)
    requires n > 0 && IsGrid(g, n)
    ensures At(Shift(g, n, dx, dy), n, x, y) == At(g, n, x - dx, y - dy)
  {
    var wx, wy := Wrap(x, n), Wrap(y, n);
    assert At(Shift(g, n, dx, dy), n, x, y) == At(g, n, wx - dx, wy - dy);
    WrapShift(x, -dx, n);
    WrapShift(y, -dy, n);
  }

  /** The neighbours of a cell of the moved grid are those of the cell it
      came from. */
  lemma NeighborhoodShift(g: Grid, n: int, dx: int, dy: int, x: int, y: int)
    requires n > 0 && IsGrid(g, n)
    ensures Neighborhood(Shift(g, n, dx, dy), n, x, y) ==
            Neighborhood(g, n, Wrap(x - dx, n), Wrap(y - dy, n))
  {
    var s := Shift(g, n, dx, dy);
    var x0, y0 := Wrap(x - dx, n), Wrap(y - dy, n);
    forall k | 0 <= k < 8
      ensures Neighborhood(s, n, x, y)[k] == Neighborhood(g, n, x0, y0)[k]
    {
      var (i, j) := MooreOffsets[k];
      AtShift(g, n, dx, dy, x + i, y + j);
      WrapShift(x - dx, i, n);
      WrapShift(y - dy, j, n);
      assert x + i - dx == x - dx + i && y + j - dy == y - dy + j;
    }
  }

  /** Each generation treats every cell alike: advancing a moved grid is
      moving the advanced grid. */
  lemma NextGenerationShift(g: Grid, n: int, dx: int, dy: int)
    requires n > 0 && IsGrid(g, n)
    ensures NextGeneration(Shift(g, n, dx, dy), n) == Shift(NextGeneration(g, n), n, dx, dy)
  {
    var s := Shift(g, n, dx, dy);
    var left := NextGeneration(s, n);
    var right := Shift(NextGeneration(g, n), n, dx, dy);
    forall y | 0 <= y < n
      ensures left[y] == right[y]
    {
      forall x | 0 <= x < n
        ensures left[y][x] == right[y][x]
      {
        var x0, y0 := Wrap(x - dx, n), Wrap(y - dy, n);
        NeighborhoodShift(g, n, dx, dy, x, y);
        assert s[y][x] == g[y0][x0];
        assert left[y][x] == Rule(g[y0][x0], NeighborCount(g, n, x0, y0));
        assert right[y][x] == NextGeneration(g, n)[y0][x0];
      }
    }
  }

  /** The five cells (x, y) that the glider seed makes alive. */
  const GliderPattern: seq<(int, int)> := [(1, 1), (2, 2), (3, 2), (1, 3), (2, 3)]

  /** Some cell of `cells` wraps onto (x, y). */
  ghost predicate Covers(cells: seq<(int, int)>, n: int, x: int, y: int)
    requires n > 0
  {
    exists k :: 0 <= k < |cells| && (x - cells[k].0) % n == 0 && (y - cells[k].1) % n == 0
  }

  /** The grid after writing `v` at each of `cells`, first to last. */
  function SetAll(g: Grid, n: int, cells: seq<(int, int)>, v: Cell): (r: Grid)
    requires n > 0 && IsGrid(g, n)
    ensures IsGrid(r, n)
    decreases |cells|
  {
    if cells == [] then g
    else SetAll(SetAt(g, n, cells[0].0, cells[0].1, v), n, cells[1..], v)
  }

  /** After a run of writes of one value, exactly the cells that some write
      wrapped onto hold that value; every other cell is as before. */
  lemma {:induction false} SetAllAt(g: Grid, n: int, cells: seq<(int, int)>, v: Cell, x: int, y: int)
    requires n > 0 && IsGrid(g, n)
    ensures At(SetAll(g, n, cells, v), n, x, y) ==
            if Covers(cells, n, x, y) then v else At(g, n, x, y)
    decreases |cells|
  {
    if cells != [] {
      var (cx, cy) := cells[0];
      var g' := SetAt(g, n, cx, cy, v);
      SetAllAt(g', n, cells[1..], v, x, y);
      AtSetAt(g, n, cx, cy, v, x, y);
      if Covers(cells[1..], n, x, y) {
        var k :| 0 <= k < |cells[1..]| && (x - cells[1..][k].0) % n == 0 && (y - cells[1..][k].1) % n == 0;
        assert cells[k + 1] == cells[1..][k];
      } else if !Covers(cells, n, x, y) {
        assert !((x - cells[0].0) % n == 0 && (y - cells[0].1) % n == 0);
      }
    }
  }

  /** A grid with the glider written onto it (main.py seed_glider). */
  function WithGlider(g: Grid, n: int): (r: Grid)
    requires n > 0 && IsGrid(g, n)
    ensures IsGrid(r, n)
  {
    SetAll(g, n, GliderPattern, Alive)
  }

  /** The glider seed makes exactly the cells wrapped from the pattern alive
      and changes no other cell. */
  lemma GliderSeeded(g: Grid, n: int, x: int, y: int)
    requires n > 0 && IsGrid(g, n)
    ensures At(WithGlider(g, n), n, x, y) ==
            if Covers(GliderPattern, n, x, y) then Alive else At(g, n, x, y)
  {
    SetAllAt(g, n, GliderPattern, Alive, x, y);
  }

  /** The random seed: each cell for which the draw `flip` came up is made
      alive, every other cell is left as it was (main.py seed "random"). */
  function RandomFill(g: Grid, n: int, flip: (int, int) -> bool): (r: Grid)
    requires n > 0 && IsGrid(g, n)
    ensures IsGrid(r, n)
    ensures forall y, x | 0 <= y < n && 0 <= x < n :: r[y][x] == Alive || r[y][x] == g[y][x]
  {
    seq(n, y requires 0 <= y < n => seq(n, x requires 0 <= x < n => if flip(x, y) then Alive else g[y][x]))
  }

  /** Draws that never come up leave the grid as it was. */
  lemma RandomFillNever(g: Grid, n: int)
    requires n > 0 && IsGrid(g, n)
    ensures RandomFill(g, n, (x, y) => false) == g
  {
    var r := RandomFill(g, n, (x, y) => false);
    forall y | 0 <= y < n
      ensures r[y] == g[y]
    {
    }
  }

  /** Draws that always come up make every cell alive. */
  lemma RandomFillAlways(g: Grid, n: int)
    requires n > 0 && IsGrid(g, n)
    ensures RandomFill(g, n, (x, y) => true) == seq(n, y => seq(n, x => Alive))
  {
    var r := RandomFill(g, n, (x, y) => true);
    forall y | 0 <= y < n
      ensures r[y] == seq(n, x => Alive)
    {
    }
  }
}
