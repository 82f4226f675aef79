# Game of Life canvas

A model of the `Canvas` class of `main.py`. The class runs Conway's Game of
Life with rule B3/S23 on a square torus of side `size`. The class does five
things:

- It holds the cells in a `size x size` matrix.
- It reads and writes cells with both coordinates reduced modulo `size`.
- It counts a cell's live Moore neighbours with a 3 x 3 loop that skips the
  centre.
- It advances one generation double-buffered. It copies the matrix, takes
  every count from the untouched original, writes each rule outcome into the
  copy, and swaps the copy in at the end.
- It seeds the canvas with a glider, at random, or not at all.

The project has four modules:

- `Torus` (`torus.dfy`): coordinates modulo `n`. Python's `%` with a
  positive divisor agrees with Dafny's Euclidean `%`.
- `Life` (`life.dfy`): the pure meaning of each operation on a
  `seq<seq<Cell>>` grid. It defines:
  - the wrapped read `At` and the wrapped write `SetAt`;
  - the eight wrapped neighbours in the order the source visits them, and
    their live count;
  - the rule;
  - the simultaneous next generation;
  - the glider and random seeds.

  It also holds the lemmas about these definitions.
- `Game` (`canvas.dfy`): class `Canvas`. It has the fields `size` and
  `state`, and methods that change `state` as the source does:
  - `Set` reassigns one cell;
  - `LivingNeighbors` runs the nested loop that accumulates the count;
  - `Update` loops over every cell of a fresh copy and then replaces `state`;
  - `SeedGlider`, `SeedRandom` and `Seed` are the seeding methods.

  Each method is proved against the matching function of `Life`.
- `Patterns` (`patterns.dfy`): the classic patterns.
  - A pattern kept at least one cell away from the edges of the torus
    advances as it would on the unbounded plane (`DrawEvolves`). The plane
    has no wrapping, so each pattern's generation is checked there.
  - On this basis it proves three results: the blinker oscillates with
    period 2, the block is still forever, and the glider written by
    `seed_glider` reappears after four generations moved by (+1, +1).
  - Together with `Life.NextGenerationShift`, these results carry over to
    every position of the pattern on the torus.

A cell is the datatype `Cell`: `Alive` stands for the glyph "🟩" and `Dead`
for "⬛".

The centre cell is left out of its own count only on a torus of side at
least 2 (`Life.NeighborCountIgnoresCentre`). On a 1 x 1 torus the code reads
the single cell eight times, once for each neighbour offset. A live cell
there counts 8 neighbours and dies (`Life.NeighborCountSingleCell`). The
model follows the code here, not the general statement that the centre is
never counted.

## Model

| member | source | states |
|---|---|---|
| Torus.Wrap | main.py:58 | a wrapped coordinate always lies in 0 .. size-1, whatever the sign or size of the input |
| Torus.WrapCongruent | main.py:57-58 | two coordinates wrap to the same index exactly when they are congruent modulo size |
| Game.Canvas.Get | main.py:57-58 | a read at any integers (x, y) is the read at (x mod size, y mod size) of the matrix; `Life.AtCongruent` and `Life.AtWrapped` state what that read means |
| Life.AtCongruent | main.py:57-58 | coordinates congruent modulo size read the same cell |
| Life.AtWrapped | main.py:57-58 | reading at (x mod size, y mod size) gives the same cell as reading at any integers (x, y) |
| Life.AtSetAt | main.py:61-62 | after a write of v at (x, y), every cell congruent to (x, y) reads v and every other cell reads what it read before |
| Life.AllDead | main.py:33-34 | the default matrix is size x size and every cell, at any coordinates, is dead |
| Game.Canvas.constructor | main.py:31-34 | a canvas built without a state has the given size and an all-dead size x size matrix |
| Game.Canvas.FromState | main.py:31-33 | a canvas built from a matrix holds exactly that matrix |
| Game.Canvas.Set | main.py:61-62 | the new matrix is the old one with the wrapped cell (x, y) replaced, and it is still size x size |
| Game.Canvas.Copy | main.py:65-66 | the copy is a new canvas of the same size that holds an equal matrix |
| Game.WriteToCopy | main.py:33 | a write to a copy leaves the original canvas's matrix as it was, and the copy then holds the original with that one cell replaced |
| Game.Canvas.LivingNeighbors | main.py:69-79 | the loop's count equals the number of live cells among the eight wrapped neighbours, and it is at most 8 |
| Life.NeighborCountBounds | main.py:69-79 | a neighbour count lies in 0 .. 8 |
| Life.CountAliveIsMultiplicity | main.py:77 | the accumulated count is the number of occurrences of Alive, so it does not depend on the visiting order |
| Life.MooreOffsetsAreTheNeighbours | main.py:73-75 | the visited offsets are exactly the non-zero steps of at most one cell in each direction, and the centre is never among them |
| Life.NeighborCountIgnoresCentre | main.py:73-77 | on a torus of side at least 2, changing the centre cell never changes its neighbour count |
| Life.NeighborCountSingleCell | main.py:73-77 | on a 1 x 1 torus all eight wrapped neighbours are the centre itself, so the count is 8 or 0 |
| Life.NeighborhoodCongruent | main.py:77 | the neighbours of (x, y) depend on x and y only modulo size |
| Life.Rule | main.py:95-98 | a live cell stays alive iff it has 2 or 3 live neighbours, and a dead cell becomes alive iff it has exactly 3 |
| Life.NextGeneration | main.py:94-98 | the next generation is size x size; a live cell stays alive iff its count is 2 or 3; a dead cell becomes alive iff its count is 3 |
| Game.Canvas.Update | main.py:82-101 | after the step the matrix is still size x size and equals the simultaneous next generation of the matrix before the step, with every count taken from the old matrix |
| Life.AllDeadIsStill | main.py:82-101 | an all-dead grid stays all-dead |
| Life.NextGenerationShift | main.py:88-98 | moving a grid around the torus and then advancing it gives the same grid as advancing it and then moving it |
| Life.SetAllAt | main.py:49-54 | after a series of writes of one value, exactly the cells that some write wraps onto hold that value, and every other cell is unchanged |
| Life.GliderSeeded | main.py:49-54 | the glider seed makes exactly the cells wrapped from (1,1), (2,2), (3,2), (1,3), (2,3) alive and leaves every other cell as it was |
| Game.Canvas.SeedGlider | main.py:49-54 | the five writes leave the matrix holding the glider written onto the old matrix |
| Life.RandomFill | main.py:41-45 | after the random seed, every cell is either alive or as it was |
| Life.RandomFillNever | main.py:41-45 | when no draw comes up, the random seed changes nothing |
| Life.RandomFillAlways | main.py:41-45 | when every draw comes up, the random seed makes every cell alive |
| Game.Canvas.SeedRandom | main.py:41-45 | the row-by-row sweep leaves every cell whose draw came up alive and every other cell as it was |
| Game.Canvas.Seed | main.py:38-45 | "glider" writes the glider, "random" runs the random sweep, and any other name leaves the matrix unchanged |
| Patterns.DrawEvolves | main.py:82-101 | on a torus of side at least 3, a pattern kept one cell away from the edges advances one generation exactly as it does on the plane |
| Patterns.BlinkerOscillates | main.py:82-101 | on a torus of side at least 5, three live cells in a row become three in a column after one generation and the row again after two |
| Patterns.BlockIsStill | main.py:82-101 | on a torus of side at least 4, a 2 x 2 block is unchanged after any number of generations |
| Patterns.SeededGlider | main.py:49-54 | on an empty torus of side at least 6, the glider seed draws exactly the glider's first phase |
| Patterns.SeededGliderGlides | main.py:49-101 | on an empty torus of side at least 6, after four generations the seeded glider is the seeded glider moved one cell right and one cell down |

## Left out

- Console input (`input_int`, `input_str`, main.py:11-24), `render`
  (main.py:104-106) and the animation loop under `__main__` (main.py:108-120)
  are terminal I/O with nothing to prove, so they are not modelled.
- Randomness: the draw `random() < 0.5` (main.py:44) is the parameter
  `flip(x, y)`, an arbitrary boolean for each cell. The model therefore
  covers every possible outcome of the draws.
- Cell glyphs other than "🟩" and "⬛" cannot appear in the model, because a
  cell is a two-valued datatype.
- Game.Canvas.constructor: requires `size > 0`. The source never checks
  this. With size <= 0 the source builds an empty matrix: with size 0 its
  first `get` or `set` divides by zero, and with a negative size it raises
  an index error.
- Game.Canvas.FromState: requires `from` to be a `size x size` matrix, while
  the source accepts any list of lists. The source's fallback to the default
  matrix when `from_state` is an empty list is covered by the plain
  constructor.
- The matrix is modelled as a value, a `seq<seq<Cell>>` that `Set`
  reassigns.
  - The row sharing that Python's nested lists allow is not represented.
  - The deep copy of main.py:33 is modelled by the fact that the copy is a
    separate canvas object holding the value.
  - Row sharing never arises in the source itself, because every matrix
    comes from a comprehension or a `deepcopy`.
