/** Coordinates on a torus of side `n`: every integer coordinate is reduced
    modulo `n`. Python's `%` rounds the quotient down, Dafny's `%` is
    Euclidean; for a positive divisor both give the remainder in [0, n). */
module Torus {

  /** The coordinate `a` wrapped onto 0 .. n-1 (main.py `a % self.size`). */
  function Wrap(a: int, n: int): (r: int)
    requires n > 0
    ensures 0 <= r < n
  {
    a % n
  }

  /** Division with remainder has exactly one answer: any decomposition
      a == q * n + r with 0 <= r < n is the one `/` and `%` give. */
  lemma ModUnique(a: int, n: int, q: int, r: int)
    requires n > 0 && 0 <= r < n && a == q * n + r
    ensures a % n == r && a / n == q
  {
    var d := q - a / n;
    assert a == (a / n) * n + a % n;
    assert d * n == a % n - r;
    MultipleAtLeastOne(d, n);
  }

  /** A non-zero multiple of a positive `n` is at least `n` away from 0. */
  lemma MultipleAtLeastOne(d: int, n: int)
    requires n > 0
    ensures d >= 1 ==> d * n >= n
    ensures d <= -1 ==> d * n <= -n
  {
    assert d * n - n == (d - 1) * n;
    assert d * n + n == (d + 1) * n;
  }

  /** A coordinate already on the torus is left where it is. */
  lemma WrapInRange(a: int, n: int)
    requires 0 <= a < n
    ensures Wrap(a, n) == a
  {
    ModUnique(a, n, 0, a);
  }

  /** Wrapping a wrapped coordinate changes nothing. */
  lemma WrapIdempotent(a: int, n: int)
    requires n > 0
    ensures Wrap(Wrap(a, n), n) == Wrap(a, n)
  {
    ModUnique(a % n, n, 0, a % n);
  }

  /** Adding a whole number of turns around the torus changes nothing. */
  lemma WrapAddMultiple(a: int, k: int, n: int)
    requires n > 0
    ensures Wrap(a + k * n, n) == Wrap(a, n)
  {
    assert a == (a / n) * n + a % n;
    assert a + k * n == (a / n + k) * n + a % n;
    ModUnique(a + k * n, n, a / n + k, a % n);
  }

  /** Wrapping first and then moving by `d` lands where moving first does. */
  lemma WrapShift(a: int, d: int, n: int)
    requires n > 0
    ensures Wrap(Wrap(a, n) + d, n) == Wrap(a + d, n)
  {
    assert a == (a / n) * n + a % n;
    WrapAddMultiple(a % n + d, a / n, n);
    assert a % n + d + (a / n) * n == a + d;
  }

  /** Two coordinates wrap to the same cell exactly when they are congruent
      modulo `n`. */
  lemma WrapCongruent(a: int, b: int, n: int)
    requires n > 0
    ensures Wrap(a, n) == Wrap(b, n) <==> (a - b) % n == 0
  {
    assert a == (a / n) * n + a % n;
    assert b == (b / n) * n + b % n;
    if a % n == b % n {
      ModUnique(a - b, n, a / n - b / n, 0);
    } else if a % n > b % n {
      ModUnique(a - b, n, a / n - b / n, a % n - b % n);
    } else {
      ModUnique(a - b, n, a / n - b / n - 1, a % n - b % n + n);
    }
  }

  /** On a torus of side at least 2 a step of one cell always leaves the
      cell: the neighbours of a cell are never the cell itself. */
  lemma UnitStepMoves(a: int, n: int)
    requires n >= 2
    ensures Wrap(a + 1, n) != Wrap(a, n)
    ensures Wrap(a - 1, n) != Wrap(a, n)
  {
    WrapCongruent(a + 1, a, n);
    WrapCongruent(a - 1, a, n);
    ModUnique(1, n, 0, 1);
    ModUnique(-1, n, -1, n - 1);
  }
}
