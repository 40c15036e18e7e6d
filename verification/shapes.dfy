/**
 * The shape catalogue. The concrete tables of the seven tetrominoes are not
 * part of this model: a tetromino is any value with four rotation states,
 * each a non-empty list of cell offsets relative to the piece's anchor, and
 * one colour.
 */
module Shapes {

  /** The colour tag of a tetromino; only equality is used. */
  type Color(==)

  /** A cell offset (dx, dy) relative to a piece's anchor; y grows downwards. */
  type Offset = (int, int)

  /** One rotation state: the offsets of the cells the piece covers. */
  type Rotation = seq<Offset>

  /** The number of rotation states of every tetromino (one per quarter turn). */
  const RotationCount: nat := 4

  datatype Tetromino = Tetromino(rotations: seq<Rotation>, color: Color) {

    /** Four rotation states, none of them empty. */
    predicate Valid()
    {
      |rotations| == RotationCount &&
      forall r :: 0 <= r < |rotations| ==> |rotations[r]| > 0
    }

    /** No cell of any rotation lies more than `h` rows above the anchor. */
    predicate RisesAtMost(h: nat)
    {
      forall r, k :: 0 <= r < |rotations| && 0 <= k < |rotations[r]| ==> rotations[r][k].1 + h >= 0
    }
  }
}
