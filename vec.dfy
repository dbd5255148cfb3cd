/** Positions and displacements on the game grid (class Vec of model.py). */
module Vectors {

  /** An (x, y) pair: read as (row, column) when it is a position on the grid,
      and as a step along both axes when it is a direction. */
  datatype Vec = Vec(x: int, y: int) {

    /** Vec.__add__: the step `other` taken from this position. */
    function Add(other: Vec): Vec {
      Vec(x + other.x, y + other.y)
    }

    /** Vec.__eq__: both coordinates agree. */
    predicate Equals(other: Vec) {
      x == other.x && y == other.y
    }
  }

  const ZERO := Vec(0, 0)

  /** Componentwise equality of Vec.__eq__ is exactly value equality. */
  lemma EqualsIsEquality(a: Vec, b: Vec)
    ensures a.Equals(b) <==> a == b
  {
  }

  /** A non-zero step always leaves the position it starts from. */
  lemma {:induction false} NonZeroStepMoves(p: Vec, d: Vec)
    ensures p.Add(d) == p <==> d == ZERO
  {
    if p.Add(d) == p {
      assert p.x + d.x == p.x && p.y + d.y == p.y;
    }
  }
}
