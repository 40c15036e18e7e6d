/**
 * A falling piece: a tetromino, a rotation index and an anchor position.
 * Pieces are values; rotating and moving return new pieces.
 */
module Blocks {
  import opened Shapes

  datatype Direction = Left | Right | Down

  /** Where every new piece appears: column 5 of the top row. */
  const SpawnPosition: (int, int) := (5, 0)

  datatype Block = Block(tetromino: Tetromino, rotation: nat, position: (int, int)) {

    /** The rotation index selects one of the tetromino's four states. */
    predicate Valid()
    {
      tetromino.Valid() && rotation < RotationCount
    }

    /** A quarter turn: the next rotation state, modulo four. */
    function Rotate(): (r: Block)
      ensures r.tetromino == tetromino && r.position == position
      ensures Valid() ==> r.Valid()
    {
      this.(rotation := (rotation + 1) % RotationCount)
    }

    /** One step in direction `d`; no bounds are checked here. */
    function Displace(d: Direction): (r: Block)
      ensures r.tetromino == tetromino && r.rotation == rotation
      ensures Valid() ==> r.Valid()
    {
      match d
      case Left => this.(position := (position.0 - 1, position.1))
      case Right => this.(position := (position.0 + 1, position.1))
      case Down => this.(position := (position.0, position.1 + 1))
    }

    /** The colour of the piece, that of its tetromino. */
    function Color(): (c: Shapes.Color)
      ensures c == tetromino.color
    {
      tetromino.color
    }

    /** The offsets of the current rotation state. */
    function Rotation(): (offsets: Shapes.Rotation)
      requires Valid()
      ensures |offsets| > 0
    {
      tetromino.rotations[rotation]
    }

    /** The absolute board cells of the piece: anchor plus each offset. */
    function Cells(): (cs: seq<(int, int)>)
      requires Valid()
      ensures |cs| == |Rotation()|
    {
      var offsets := Rotation();
      seq(|offsets|, k requires 0 <= k < |offsets| => (position.0 + offsets[k].0, position.1 + offsets[k].1))
    }

    /** The same piece with its anchor moved to row `y`. */
    function AtRow(y: int): (r: Block)
      ensures r.tetromino == tetromino && r.rotation == rotation
      ensures r.position == (position.0, y)
    {
      this.(position := (position.0, y))
    }
  }

  /** A freshly spawned piece of tetromino `t` (the random choice is the caller's). */
  function New(t: Tetromino): (b: Block)
    ensures t.Valid() ==> b.Valid()
    ensures b.tetromino == t && b.rotation == 0 && b.position == SpawnPosition
  {
    Block(t, 0, SpawnPosition)
  }

  /** A fresh piece shows rotation state 0 of its tetromino, in its colour. */
  lemma SpawnedBlock(t: Tetromino)
    requires t.Valid()
    ensures New(t).Valid()
    ensures New(t).Rotation() == t.rotations[0] && New(t).Color() == t.color
  {
  }

  /** Four quarter turns give back the same piece. */
  lemma RotateFourTimes(b: Block)
    requires b.Valid()
    ensures b.Rotate().Rotate().Rotate().Rotate() == b
  {
  }

  /** Each direction moves the anchor by exactly one cell along one axis. */
  lemma DisplaceStep(b: Block, d: Direction)
    ensures var p, q := b.position, b.Displace(d).position;
      (d == Left ==> q == (p.0 - 1, p.1)) &&
      (d == Right ==> q == (p.0 + 1, p.1)) &&
      (d == Down ==> q == (p.0, p.1 + 1))
  {
  }

  /** Left and Right undo each other, in either order. */
  lemma LeftRightInverse(b: Block)
    ensures b.Displace(Left).Displace(Right) == b
    ensures b.Displace(Right).Displace(Left) == b
  {
  }

  /** For a piece in `b`'s column, moving down is moving to the next row. */
  lemma DownIsNextRow(b: Block, r: Block)
    requires r == b.AtRow(r.position.1)
    ensures r.Displace(Down) == b.AtRow(r.position.1 + 1)
  {
  }

  /** Moving a piece moves every one of its cells by the same step. */
  lemma DisplaceCells(b: Block, d: Direction, k: nat)
    requires b.Valid() && k < |b.Rotation()|
    ensures b.Displace(d).Valid() && |b.Displace(d).Cells()| == |b.Cells()|
    ensures var c, c' := b.Cells()[k], b.Displace(d).Cells()[k];
      match d
      case Left => c' == (c.0 - 1, c.1)
      case Right => c' == (c.0 + 1, c.1)
      case Down => c' == (c.0, c.1 + 1)
  {
  }
}
