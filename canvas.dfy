/** The canvas of main.py: a size x size matrix of cells that its methods
    update in place, and the double-buffered generation step. */
module Game {
  import opened Torus
  import opened Life

  class Canvas {
    /** The side of the square torus (main.py `self.size`). */
    const size: int
    /** The cell matrix, row y, column x at state[y][x] (main.py `self.state`). */
    var state: Grid

    /** The matrix is always exactly size x size, with size positive. */
    ghost predicate Valid()
      reads this
    {
      size > 0 && IsGrid(state, size)
    }

    /** A canvas with every cell dead (main.py `Canvas(size)`). */
    constructor (size: int)
      requires size > 0
      ensures Valid() && this.size == size && state == AllDead(size)
    {
      this.size := size;
      state := AllDead(size);
    }

    /** A canvas holding `from` (main.py `Canvas(size, from_state)`). */
    constructor FromState(size: int, from: Grid)
      requires size > 0 && IsGrid(from, size)
      ensures Valid() && this.size == size && state == from
    {
      this.size := size;
      state := from;
    }

    /** The cell at (x mod size, y mod size), for any integers x and y: the
        wrapped read At of the pure model, taken on this canvas's matrix. */
    function Get(x: int, y: int): (c: Cell)
      reads this
      requires Valid()
      ensures c == At(state, size, Wrap(x, size), Wrap(y, size))
    {
      AtWrapped(state, size, x, y);
      At(state, size, x, y)
    }

    /** Overwrites the cell at (x mod size, y mod size). */
    method Set(x: int, y: int, v: Cell)
      requires Valid()
      modifies this
      ensures Valid() && state == SetAt(old(state), size, x, y, v)
    {
      state := SetAt(state, size, x, y, v);
    }

    /** An equal canvas of its own: writes to either leave the other alone. */
    method Copy() returns (c: Canvas)
      requires Valid()
      ensures fresh(c) && c.Valid() && c.size == size && c.state == state
    {
      c := new Canvas.FromState(size, state);
    }

    /** How many of the eight wrapped neighbours of (x, y) are alive. */
    method LivingNeighbors(x: int, y: int) returns (neighbors: nat)
      requires Valid()
      ensures neighbors == NeighborCount(state, size, x, y)
      ensures neighbors <= 8
    {
      ghost var around := Neighborhood(state, size, x, y);
      neighbors := 0;
      for i := -1 to 2
        invariant neighbors == CountAlive(around[..Visited(i, -1)])
      {
        for j := -1 to 2
          invariant neighbors == CountAlive(around[..Visited(i, j)])
        {
          if i == 0 && j == 0 {
            continue;
          }
          ghost var p := Visited(i, j);
          assert MooreOffsets[p] == (i, j);
          assert around[..p + 1][..p] == around[..p];
          neighbors := neighbors + if Get(x + i, y + j) == Alive then 1 else 0;
        }
      }
      assert around[..8] == around;
      NeighborCountBounds(state, size, x, y);
    }

    /** Advances one generation. Every count is taken from the matrix as it
        was before the step, because the new cells are written into a copy
        that replaces the matrix only at the end. */
    method Update()
      requires Valid()
      modifies this
      ensures Valid() && state == NextGeneration(old(state), size)
    {
      ghost var g := state;
      ghost var r := NextGeneration(g, size);
      var next := Copy();
      BlendStart(g, r, size);
      for y := 0 to size
        invariant next.Valid() && next.size == size
        invariant state == g
        invariant next.state == Blend(g, r, size, y, 0)
      {
        for x := 0 to size
          invariant next.Valid() && next.size == size
          invariant state == g
          invariant next.state == Blend(g, r, size, y, x)
        {
          var neighbors := LivingNeighbors(x, y);
          WrapInRange(x, size);
          WrapInRange(y, size);
          BlendStep(g, r, size, y, x);
          assert r[y][x] == Rule(g[y][x], neighbors);
          if next.Get(x, y) == Alive && !(neighbors == 2 || neighbors == 3) {
            next.Set(x, y, Dead);
          } else if next.Get(x, y) == Dead && neighbors == 3 {
            next.Set(x, y, Alive);
          } else {
            BlendSkip(g, r, size, y, x);
          }
        }
        BlendRowDone(g, r, size, y);
      }
      BlendDone(g, r, size);
      state := next.state;
    }

    /** Writes the glider at its fixed place near the origin. */
    method SeedGlider()
      requires Valid()
      modifies this
      ensures Valid() && state == WithGlider(old(state), size)
    {
      Set(1, 1, Alive);
      Set(2, 2, Alive);
      Set(3, 2, Alive);
      Set(1, 3, Alive);
      Set(2, 3, Alive);
    }

    /** Visits the cells row by row and makes alive each one whose draw
        `flip(x, y)` came up. */
    method SeedRandom(flip: (int, int) -> bool)
      requires Valid()
      modifies this
      ensures Valid() && state == RandomFill(old(state), size, flip)
    {
      ghost var g := state;
      ghost var r := RandomFill(g, size, flip);
      BlendStart(g, r, size);
      for y := 0 to size
        invariant Valid()
        invariant state == Blend(g, r, size, y, 0)
      {
        for x := 0 to size
          invariant Valid()
          invariant state == Blend(g, r, size, y, x)
        {
          WrapInRange(x, size);
          WrapInRange(y, size);
          BlendStep(g, r, size, y, x);
          if flip(x, y) {
            Set(x, y, Alive);
          } else {
            BlendSkip(g, r, size, y, x);
          }
        }
        BlendRowDone(g, r, size, y);
      }
      BlendDone(g, r, size);
    }

    /** Seeds by name: "glider" writes the glider, "random" fills at random,
        any other name changes nothing. */
    method Seed(initialState: string, flip: (int, int) -> bool)
      requires Valid()
      modifies this
      ensures Valid()
      ensures initialState == "glider" ==> state == WithGlider(old(state), size)
      ensures initialState == "random" ==> state == RandomFill(old(state), size, flip)
      ensures initialState != "glider" && initialState != "random" ==> state == old(state)
    {
      if initialState == "glider" {
        SeedGlider();
      } else if initialState == "random" {
        SeedRandom(flip);
      }
    }
  }

  /** Writing to a copy leaves the canvas it was taken from as it was: the
      counts that Update reads from the original are never disturbed. */
  method WriteToCopy(c: Canvas, x: int, y: int, v: Cell) returns (d: Canvas)
    requires c.Valid()
    ensures c.state == old(c.state)
    ensures fresh(d) && d.Valid() && d.size == c.size
    ensures d.state == SetAt(c.state, c.size, x, y, v)
  {
    d := c.Copy();
    d.Set(x, y, v);
  }

  /** The position in the neighbour order of offset (i, j): how many
      neighbours the loops of LivingNeighbors visit before it. */
  ghost function Visited(i: int, j: int): int {
    var p := 3 * (i + 1) + (j + 1);
    if p > 4 then p - 1 else p
  }

  /** Halfway through a row-by-row sweep from `g` to `r`: the cells before
      (x, y) in row-major order come from `r`, the others from `g`. */
  ghost function Blend(g: Grid, r: Grid, n: int, y: int, x: int): (b: Grid)
    requires n > 0 && IsGrid(g, n) && IsGrid(r, n)
    ensures IsGrid(b, n)
  {
    seq(n, yy requires 0 <= yy < n =>
      seq(n, xx requires 0 <= xx < n =>
        if yy < y || (yy == y && xx < x) then r[yy][xx] else g[yy][xx]))
  }

  lemma BlendStart(g: Grid, r: Grid, n: int)
    requires n > 0 && IsGrid(g, n) && IsGrid(r, n)
    ensures Blend(g, r, n, 0, 0) == g
  {
    var b := Blend(g, r, n, 0, 0);
    forall yy | 0 <= yy < n ensures b[yy] == g[yy] {}
  }

  /** Writing r's cell at (x, y) moves the sweep on by one cell, and before
      the write the cell still holds its value in `g`. */
  lemma BlendStep(g: Grid, r: Grid, n: int, y: int, x: int)
    requires n > 0 && IsGrid(g, n) && IsGrid(r, n) && 0 <= y < n && 0 <= x < n
    requires Wrap(x, n) == x && Wrap(y, n) == y
    ensures Blend(g, r, n, y, x)[y][x] == g[y][x]
    ensures SetAt(Blend(g, r, n, y, x), n, x, y, r[y][x]) == Blend(g, r, n, y, x + 1)
  {
    var b, b' := SetAt(Blend(g, r, n, y, x), n, x, y, r[y][x]), Blend(g, r, n, y, x + 1);
    forall yy | 0 <= yy < n ensures b[yy] == b'[yy] {}
  }

  /** Where `r` agrees with `g` the sweep moves on without a write. */
  lemma BlendSkip(g: Grid, r: Grid, n: int, y: int, x: int)
    requires n > 0 && IsGrid(g, n) && IsGrid(r, n) && 0 <= y < n && 0 <= x < n
    requires r[y][x] == g[y][x]
    ensures Blend(g, r, n, y, x) == Blend(g, r, n, y, x + 1)
  {
    var b, b' := Blend(g, r, n, y, x), Blend(g, r, n, y, x + 1);
    forall yy | 0 <= yy < n ensures b[yy] == b'[yy] {}
  }

  lemma BlendRowDone(g: Grid, r: Grid, n: int, y: int)
    requires n > 0 && IsGrid(g, n) && IsGrid(r, n)
    ensures Blend(g, r, n, y, n) == Blend(g, r, n, y + 1, 0)
  {
    var b, b' := Blend(g, r, n, y, n), Blend(g, r, n, y + 1, 0);
    forall yy | 0 <= yy < n ensures b[yy] == b'[yy] {}
  }

  lemma BlendDone(g: Grid, r: Grid, n: int)
    requires n > 0 && IsGrid(g, n) && IsGrid(r, n)
    ensures Blend(g, r, n, n, 0) == r
  {
    var b := Blend(g, r, n, n, 0);
    forall yy | 0 <= yy < n ensures b[yy] == r[yy] {}
  }
}
