/** Patterns whose fate is known. A pattern drawn at least one cell away
    from the edges of the torus evolves as it would on the unbounded plane,
    so the classic oscillator, still life and spaceship can be checked on
    the plane, where no coordinate wraps. */
module Patterns {
  import opened Torus
  import opened Life

  /** 1 when `b` holds, 0 otherwise. */
  function Bit(b: bool): nat {
    if b then 1 else 0
  }

  /** The cell for a truth value: alive exactly when it holds. */
  function Of(b: bool): Cell {
    if b then Alive else Dead
  }

  /** A pattern on the unbounded plane: the set of live points, as a
      predicate on (x, y). */
  type Plane = (int, int) -> bool

  /** The eight neighbours of (x, y) on the plane, in the order of
      MooreOffsets. */
  function PlaneNeighborhood(live: Plane, x: int, y: int): (r: seq<Cell>)
    ensures |r| == 8
  {
    seq(8, k requires 0 <= k < 8 => Of(live(x + MooreOffsets[k].0, y + MooreOffsets[k].1)))
  }

  /** How many of the eight neighbours of (x, y) are live on the plane. */
  function PlaneCount(live: Plane, x: int, y: int): nat {
    Bit(live(x - 1, y - 1)) + Bit(live(x - 1, y)) + Bit(live(x - 1, y + 1)) +
    Bit(live(x, y - 1)) + Bit(live(x, y + 1)) +
    Bit(live(x + 1, y - 1)) + Bit(live(x + 1, y)) + Bit(live(x + 1, y + 1))
  }

  /** One generation on the plane turns `live` into `live'`. */
  ghost predicate Evolves(live: Plane, live': Plane) {
    forall x, y {:trigger PlaneCount(live, x, y)} :: Of(live'(x, y)) == Rule(Of(live(x, y)), PlaneCount(live, x, y))
  }

  /** Every live point lies at least one cell away from the torus's edges. */
  ghost predicate Inside(live: Plane, n: int) {
    forall a, b :: live(a, b) ==> 1 <= a <= n - 2 && 1 <= b <= n - 2
  }

  /** The n x n grid whose cell (x, y) is alive exactly where the plane is. */
  function Draw(n: int, live: Plane): (r: Grid)
    requires n > 0
    ensures IsGrid(r, n)
  {
    seq(n, y requires 0 <= y < n => seq(n, x requires 0 <= x < n => Of(live(x, y))))
  }

  /** `k` generations of the torus, one after another. */
  function Generations(g: Grid, n: int, k: nat): (r: Grid)
    requires n > 0 && IsGrid(g, n)
    ensures IsGrid(r, n)
    decreases k
  {
    if k == 0 then g else Generations(NextGeneration(g, n), n, k - 1)
  }

  /** Counting one element further extends the count of the prefix. */
  lemma CountAlivePrefix(s: seq<Cell>, k: int)
    requires 0 <= k < |s|
    ensures CountAlive(s[..k + 1]) == CountAlive(s[..k]) + Bit(s[k] == Alive)
  {
    assert s[..k + 1][..k] == s[..k];
  }

  /** Counting the plane neighbourhood one cell at a time gives the sum of
      the eight reads. */
  lemma PlaneCountIsCount(live: Plane, x: int, y: int)
    ensures CountAlive(PlaneNeighborhood(live, x, y)) == PlaneCount(live, x, y)
  {
    var s := PlaneNeighborhood(live, x, y);
    assert s[..0] == [];
    CountAlivePrefix(s, 0);
    CountAlivePrefix(s, 1);
    CountAlivePrefix(s, 2);
    CountAlivePrefix(s, 3);
    CountAlivePrefix(s, 4);
    CountAlivePrefix(s, 5);
    CountAlivePrefix(s, 6);
    CountAlivePrefix(s, 7);
    assert s[..8] == s;
  }

  /** A read at most one step beyond the grid of a pattern kept away from
      the edges sees what the plane holds there: past an edge, a dead cell. */
  lemma DrawAt(n: int, live: Plane, a: int, b: int)
    requires n >= 3 && Inside(live, n)
    requires -1 <= a <= n && -1 <= b <= n
    ensures At(Draw(n, live), n, a, b) == Of(live(a, b))
  {
    if 0 <= a < n {
      WrapInRange(a, n);
    } else if a < 0 {
      ModUnique(a, n, -1, n - 1);
    } else {
      ModUnique(a, n, 1, 0);
    }
    if 0 <= b < n {
      WrapInRange(b, n);
    } else if b < 0 {
      ModUnique(b, n, -1, n - 1);
    } else {
      ModUnique(b, n, 1, 0);
    }
  }

  /** The k-th neighbour, one offset at a time. */
  lemma DrawNeighbor(n: int, live: Plane, x: int, y: int, k: int)
    requires n >= 3 && Inside(live, n) && 0 <= x < n && 0 <= y < n && 0 <= k < 8
    ensures Neighborhood(Draw(n, live), n, x, y)[k] == PlaneNeighborhood(live, x, y)[k]
  {
    var (dx, dy) := MooreOffsets[k];
    DrawAt(n, live, x + dx, y + dy);
  }

  /** On the torus, a cell of a pattern kept away from the edges has the
      neighbours it has on the plane. */
  lemma DrawNeighborhood(n: int, live: Plane, x: int, y: int)
    requires n >= 3 && Inside(live, n) && 0 <= x < n && 0 <= y < n
    ensures Neighborhood(Draw(n, live), n, x, y) == PlaneNeighborhood(live, x, y)
  {
    forall k | 0 <= k < 8
      ensures Neighborhood(Draw(n, live), n, x, y)[k] == PlaneNeighborhood(live, x, y)[k]
    {
      DrawNeighbor(n, live, x, y, k);
    }
  }

  /** One cell of the next generation of a pattern kept away from the edges. */
  lemma DrawEvolvesAt(n: int, live: Plane, live': Plane, x: int, y: int)
    requires n >= 3 && Inside(live, n) && Evolves(live, live') && 0 <= x < n && 0 <= y < n
    ensures NextGeneration(Draw(n, live), n)[y][x] == Draw(n, live')[y][x]
  {
    DrawNeighborhood(n, live, x, y);
    PlaneCountIsCount(live, x, y);
    assert NeighborCount(Draw(n, live), n, x, y) == PlaneCount(live, x, y);
  }

  /** A pattern kept away from the edges advances on the torus exactly as
      it advances on the plane. */
  lemma DrawEvolves(n: int, live: Plane, live': Plane)
    requires n >= 3 && Inside(live, n) && Evolves(live, live')
    ensures NextGeneration(Draw(n, live), n) == Draw(n, live')
  {
    var r, d := NextGeneration(Draw(n, live), n), Draw(n, live');
    forall y | 0 <= y < n
      ensures r[y] == d[y]
    {
      forall x | 0 <= x < n
        ensures r[y][x] == d[y][x]
      {
        DrawEvolvesAt(n, live, live', x, y);
      }
    }
  }

  /** Three live cells in a row, and the same three standing in a column. */
  predicate Horizontal(x: int, y: int) {
    y == 2 && 1 <= x <= 3
  }

  predicate Vertical(x: int, y: int) {
    x == 2 && 1 <= y <= 3
  }

  /** On the plane the row becomes the column and the column the row. */
  lemma RowBecomesColumn()
    ensures Evolves(Horizontal, Vertical)
  {
  }

  lemma ColumnBecomesRow()
    ensures Evolves(Vertical, Horizontal)
  {
  }

  /** The blinker: on a torus of side at least 5 the row turns into the
      column after one generation and back into the row after two. */
  lemma BlinkerOscillates(n: int)
    requires n >= 5
    ensures Generations(Draw(n, Horizontal), n, 1) == Draw(n, Vertical)
    ensures Generations(Draw(n, Horizontal), n, 2) == Draw(n, Horizontal)
  {
    RowBecomesColumn();
    ColumnBecomesRow();
    DrawEvolves(n, Horizontal, Vertical);
    DrawEvolves(n, Vertical, Horizontal);
    var h, v := Draw(n, Horizontal), Draw(n, Vertical);
    assert Generations(h, n, 1) == Generations(v, n, 0);
    assert Generations(h, n, 2) == Generations(v, n, 1) == Generations(h, n, 0);
  }

  /** The block: a 2 x 2 square of live cells. */
  predicate Block(x: int, y: int) {
    1 <= x <= 2 && 1 <= y <= 2
  }

  /** On the plane the block is its own next generation. */
  lemma BlockEvolves()
    ensures Evolves(Block, Block)
  {
  }

  /** On a torus of side at least 4 the block never changes. */
  lemma {:induction false} BlockIsStill(n: int, k: nat)
    requires n >= 4
    ensures Generations(Draw(n, Block), n, k) == Draw(n, Block)
  {
    if k > 0 {
      BlockEvolves();
      DrawEvolves(n, Block, Block);
      BlockIsStill(n, k - 1);
    }
  }

  /** The glider as seed_glider writes it, and its next three phases. */
  predicate Glider0(x: int, y: int) {
    (x == 1 && y == 1) || (x == 2 && y == 2) || (x == 3 && y == 2) || (x == 1 && y == 3) || (x == 2 && y == 3)
  }

  predicate Glider1(x: int, y: int) {
    (x == 2 && y == 1) || (x == 3 && y == 2) || (x == 3 && y == 3) || (x == 1 && y == 3) || (x == 2 && y == 3)
  }

  predicate Glider2(x: int, y: int) {
    (x == 1 && y == 2) || (x == 3 && y == 2) || (x == 3 && y == 3) || (x == 2 && y == 3) || (x == 2 && y == 4)
  }

  predicate Glider3(x: int, y: int) {
    (x == 3 && y == 2) || (x == 1 && y == 3) || (x == 3 && y == 3) || (x == 2 && y == 4) || (x == 3 && y == 4)
  }

  /** The first phase moved one cell right and one cell down. */
  predicate Glider4(x: int, y: int) {
    Glider0(x - 1, y - 1)
  }

  /** On the plane each phase of the glider turns into the next one. */
  lemma GliderPhase0()
    ensures Evolves(Glider0, Glider1)
  {
  }

  lemma GliderPhase1()
    ensures Evolves(Glider1, Glider2)
  {
  }

  lemma GliderPhase2()
    ensures Evolves(Glider2, Glider3)
  {
  }

  lemma GliderPhase3()
    ensures Evolves(Glider3, Glider4)
  {
  }

  /** On a torus of side at least 6, four generations move the glider one
      cell along each axis. */
  lemma GliderGlides(n: int)
    requires n >= 6
    ensures Generations(Draw(n, Glider0), n, 4) == Draw(n, Glider4)
  {
    GliderPhase0();
    GliderPhase1();
    GliderPhase2();
    GliderPhase3();
    DrawEvolves(n, Glider0, Glider1);
    DrawEvolves(n, Glider1, Glider2);
    DrawEvolves(n, Glider2, Glider3);
    DrawEvolves(n, Glider3, Glider4);
    var g0, g1, g2, g3 := Draw(n, Glider0), Draw(n, Glider1), Draw(n, Glider2), Draw(n, Glider3);
    assert Generations(g0, n, 4) == Generations(g1, n, 3) == Generations(g2, n, 2);
    assert Generations(g2, n, 2) == Generations(g3, n, 1) == Generations(Draw(n, Glider4), n, 0);
  }

  /** Two coordinates already on the torus are congruent only when equal. */
  lemma CongruentInRange(a: int, c: int, n: int)
    requires 0 <= a < n && 0 <= c < n
    ensures (a - c) % n == 0 <==> a == c
  {
    WrapCongruent(a, c, n);
    WrapInRange(a, n);
    WrapInRange(c, n);
  }

  /** A point on the torus is covered by the glider's writes exactly when
      it is one of the glider's first-phase cells. */
  lemma CoversGlider(n: int, x: int, y: int)
    requires n >= 6 && 0 <= x < n && 0 <= y < n
    ensures Covers(GliderPattern, n, x, y) <==> Glider0(x, y)
  {
    CongruentInRange(x, 1, n);
    CongruentInRange(x, 2, n);
    CongruentInRange(x, 3, n);
    CongruentInRange(y, 1, n);
    CongruentInRange(y, 2, n);
    CongruentInRange(y, 3, n);
    if Glider0(x, y) {
      var k := if (x, y) == (1, 1) then 0 else if (x, y) == (2, 2) then 1
               else if (x, y) == (3, 2) then 2 else if (x, y) == (1, 3) then 3 else 4;
      assert GliderPattern[k] == (x, y);
    }
  }

  /** seed_glider on an empty torus of side at least 6 draws the glider's
      first phase. */
  lemma SeededGlider(n: int)
    requires n >= 6
    ensures WithGlider(AllDead(n), n) == Draw(n, Glider0)
  {
    var g, d := WithGlider(AllDead(n), n), Draw(n, Glider0);
    forall y | 0 <= y < n
      ensures g[y] == d[y]
    {
      forall x | 0 <= x < n
        ensures g[y][x] == d[y][x]
      {
        GliderSeeded(AllDead(n), n, x, y);
        CoversGlider(n, x, y);
        WrapInRange(x, n);
        WrapInRange(y, n);
        assert g[y][x] == At(g, n, x, y);
        assert At(AllDead(n), n, x, y) == Dead;
        assert d[y][x] == Of(Glider0(x, y));
      }
    }
  }

  /** Moving the first phase one cell along each axis gives the last. */
  lemma GliderShifted(n: int)
    requires n >= 6
    ensures Shift(Draw(n, Glider0), n, 1, 1) == Draw(n, Glider4)
  {
    var s, d := Shift(Draw(n, Glider0), n, 1, 1), Draw(n, Glider4);
    forall y | 0 <= y < n
      ensures s[y] == d[y]
    {
      forall x | 0 <= x < n
        ensures s[y][x] == d[y][x]
      {
        DrawAt(n, Glider0, x - 1, y - 1);
        assert s[y][x] == At(Draw(n, Glider0), n, x - 1, y - 1);
        assert d[y][x] == Of(Glider4(x, y));
      }
    }
  }

  /** The glider that seed_glider writes on an empty torus of side at least
      6 reappears after four generations, moved one cell right and one down. */
  lemma SeededGliderGlides(n: int)
    requires n >= 6
    ensures Generations(WithGlider(AllDead(n), n), n, 4) == Shift(WithGlider(AllDead(n), n), n, 1, 1)
  {
    SeededGlider(n);
    GliderGlides(n);
    GliderShifted(n);
  }
}
