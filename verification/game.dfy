/**
 * The game driver's state and its two discrete steps: what happens when the
 * fall timer fires (a tick) and what happens when a key is pressed. Timing,
 * rendering and the window are not part of this model.
 */
module Game {
  import opened Wrappers
  import opened Shapes
  import opened Blocks
  import opened Boards

  /** Levels stop rising once ten sets of ten lines are cleared. */
  const MaxLevelStep: nat := 10

  /** The level for a number of cleared lines: one more per ten lines, at most 11. */
  function Level(lineCount: nat): (level: nat)
    ensures 1 <= level <= MaxLevelStep + 1
    ensures lineCount < 10 * MaxLevelStep ==> level == lineCount / 10 + 1
    ensures lineCount >= 10 * MaxLevelStep ==> level == MaxLevelStep + 1
  {
    (if lineCount / 10 < MaxLevelStep then lineCount / 10 else MaxLevelStep) + 1
  }

  /** Clearing more lines never lowers the level. */
  lemma LevelMonotone(a: nat, b: nat)
    requires a <= b
    ensures Level(a) <= Level(b)
  {
    assert a / 10 <= b / 10;
  }

  /** The score for landing a piece that fell `freefall` rows on its own. */
  function LandingBonus(level: nat, freefall: nat): (bonus: nat)
    requires freefall <= 21 + 3 * level
    ensures bonus + freefall == 21 + 3 * level
  {
    21 + 3 * level - freefall
  }

  /**
   * How far above its anchor a shape may reach for the landing bonus never to
   * go negative: a piece that has fallen n rows on its own is anchored at row
   * n or lower, and a cell of it at most this far above the anchor must lie
   * on the grid, so n <= 19 + MaxRise = 21 + 3 * 1.
   */
  const MaxRise: nat := 5

  /** A tetromino the game may hand out. */
  predicate Playable(t: Tetromino)
  {
    t.Valid() && t.RisesAtMost(MaxRise)
  }

  /** Part of a drop: `r` is `b` moved down through free rows only. */
  predicate Descending(board: Board, b: Block, r: Block)
    reads board, board.cells
    requires board.Valid() && b.Valid()
  {
    r == b.AtRow(r.position.1) &&
    b.position.1 <= r.position.1 &&
    forall y :: b.position.1 < y <= r.position.1 ==> !board.Overlap(b.AtRow(y))
  }

  /**
   * `r` is where `b` comes to rest when dropped straight down on `board`:
   * the same piece in the same column, every row passed on the way free,
   * and the row below it blocked.
   */
  predicate DropsTo(board: Board, b: Block, r: Block)
    reads board, board.cells
    requires board.Valid() && b.Valid()
  {
    Descending(board, b, r) && board.Overlap(r.Displace(Down))
  }

  /** A dropped piece stops no lower than the first blocked row below it. */
  lemma RestIsFirstBlocked(board: Board, b: Block, r: Block, y: int)
    requires board.Valid() && b.Valid() && Descending(board, b, r)
    requires b.position.1 <= y && board.Overlap(b.AtRow(y + 1))
    ensures r.position.1 <= y
  {
    if r.position.1 > y {
      assert false;
    }
  }

  /** A drop has a single resting place. */
  lemma DropIsUnique(board: Board, b: Block, r1: Block, r2: Block)
    requires board.Valid() && b.Valid()
    requires DropsTo(board, b, r1) && DropsTo(board, b, r2)
    ensures r1 == r2
  {
    DownIsNextRow(b, r1);
    DownIsNextRow(b, r2);
    RestIsFirstBlocked(board, b, r2, r1.position.1);
    RestIsFirstBlocked(board, b, r1, r2.position.1);
  }

  /** A piece that fit before the drop still fits where it lands. */
  lemma DropKeepsFit(board: Board, b: Block, r: Block)
    requires board.Valid() && b.Valid() && Descending(board, b, r)
    requires !board.Overlap(b)
    ensures r.Valid() && !board.Overlap(r)
  {
    if r.position.1 == b.position.1 {
      assert r == b;
    }
  }

  /** One more free row extends a descent; the first cell gets closer to the floor. */
  lemma DescendStep(board: Board, b: Block, r: Block)
    requires board.Valid() && b.Valid() && Descending(board, b, r)
    requires !board.Overlap(r.Displace(Down))
    ensures Descending(board, b, r.Displace(Down))
    ensures r.Valid() && r.position.1 + r.Rotation()[0].1 + 1 < BoardHeight
  {
    var d := r.Displace(Down);
    assert d == b.AtRow(d.position.1);
    assert InBounds(d.Cells()[0]);
  }

  /**
   * The hard drop: moves `b` down one row at a time while the row below is
   * free. It stops because every step brings the piece's first cell closer
   * to the floor.
   */
  method HardDrop(board: Board, b: Block) returns (r: Block)
    requires board.Valid() && b.Valid()
    ensures r.Valid() && DropsTo(board, b, r)
    ensures !board.Overlap(b) ==> !board.Overlap(r)
  {
    r := b;
    while !board.Overlap(r.Displace(Down))
      invariant r.Valid() && Descending(board, b, r)
      decreases BoardHeight - r.position.1 - r.Rotation()[0].1
    {
      DescendStep(board, b, r);
      r := r.Displace(Down);
    }
    if !board.Overlap(b) {
      DropKeepsFit(board, b, r);
    }
  }

  /** A piece fitting a board of that shape keeps a landing bonus that is not negative. */
  lemma FreefallWithinBonus(board: Board, b: Block, freefall: nat, lineCount: nat)
    requires board.Valid() && b.Valid() && b.tetromino.RisesAtMost(MaxRise)
    requires !board.Overlap(b) && freefall <= b.position.1
    ensures freefall <= 21 + 3 * Level(lineCount)
  {
    assert InBounds(b.Cells()[0]);
    assert b.Rotation()[0].1 + MaxRise >= 0;
  }

  datatype Key = ArrowLeft | ArrowRight | ArrowDown | ArrowUp | Space | KeyP | OtherKey

  class Game {
    var board: Board
    var currentBlock: Option<Block>
    var nextBlock: Block
    var lineCount: nat
    var freefallCount: nat
    var score: nat
    var pause: bool
    var gameOver: bool

    /**
     * The falling piece always fits the board and has fallen on its own at
     * most as many rows as its anchor is below the top; the next piece waits
     * at the spawn position.
     */
    ghost predicate Valid()
      reads this, board, board.cells
    {
      board.Valid() &&
      Playable(nextBlock.tetromino) && nextBlock == New(nextBlock.tetromino) &&
      match currentBlock
      case None => freefallCount == 0
      case Some(b) =>
        b.Valid() && b.tetromino.RisesAtMost(MaxRise) &&
        !board.Overlap(b) && freefallCount <= b.position.1
    }

    /**
     * A new game on an empty board; `next` and `first` are the two randomly
     * chosen tetrominoes. The first piece is taken to fit the empty board.
     */
    constructor (next: Tetromino, first: Tetromino)
      requires Playable(next) && Playable(first) && InsideGrid(New(first))
      ensures Valid() && fresh(board) && fresh(board.cells)
      ensures board.Cells() == EmptyGrid
      ensures nextBlock == New(next) && currentBlock == Some(New(first))
      ensures lineCount == 0 && freefallCount == 0 && score == 0
      ensures !pause && !gameOver
    {
      board := new Board();
      nextBlock := New(next);
      currentBlock := Some(New(first));
      lineCount, freefallCount, score := 0, 0, 0;
      pause, gameOver := false, false;
      new;
      EmptyBoardOverlap(board, New(first));
    }

    /**
     * One firing of the fall timer. With a falling piece: it moves down a
     * row if that is free, and otherwise lands (bonus scored, merged, full
     * rows cleared and counted). Without one: the next piece enters, or the
     * game is over if it does not fit. `spawn` is the randomly chosen
     * tetromino for the new next piece.
     */
    method Tick(spawn: Tetromino)
      requires Valid() && Playable(spawn)
      modifies this, board, board.cells
      ensures Valid() && board == old(board) && pause == old(pause)
      ensures old(gameOver) || old(pause) ==>
        board.Cells() == old(board.Cells()) && currentBlock == old(currentBlock) &&
        nextBlock == old(nextBlock) && gameOver == old(gameOver) &&
        lineCount == old(lineCount) && freefallCount == old(freefallCount) && score == old(score)
      ensures !old(gameOver) && !old(pause) && old(currentBlock).Some? ==>
        var b := old(currentBlock).value;
        nextBlock == old(nextBlock) && !gameOver &&
        if !old(board.Overlap(b.Displace(Down))) then
          currentBlock == Some(b.Displace(Down)) && freefallCount == old(freefallCount) + 1 &&
          board.Cells() == old(board.Cells()) && lineCount == old(lineCount) && score == old(score)
        else
          InsideGrid(b) &&
          var merged := Merged(old(board.Cells()), b);
          currentBlock == None && freefallCount == 0 &&
          board.Cells() == Compacted(merged) &&
          lineCount == old(lineCount) + FullRows(merged) &&
          old(freefallCount) <= 21 + 3 * Level(old(lineCount)) &&
          score == old(score) + LandingBonus(Level(old(lineCount)), old(freefallCount))
      ensures !old(gameOver) && !old(pause) && old(currentBlock).None? ==>
        board.Cells() == old(board.Cells()) && lineCount == old(lineCount) &&
        freefallCount == old(freefallCount) && score == old(score) &&
        gameOver == old(board.Overlap(nextBlock)) &&
        if gameOver then currentBlock == None && nextBlock == old(nextBlock)
        else currentBlock == Some(old(nextBlock)) && nextBlock == New(spawn)
    {
      if gameOver || pause {
        return;
      }
      var level := Level(lineCount);
      match currentBlock {
        case Some(b) =>
          if !board.Overlap(b.Displace(Down)) {
            freefallCount := freefallCount + 1;
            currentBlock := Some(b.Displace(Down));
          } else {
            Land(b, level);
          }
        case None =>
          if board.Overlap(nextBlock) {
            gameOver := true;
          } else {
            currentBlock := Some(nextBlock);
            nextBlock := New(spawn);
          }
      }
    }

    /**
     * The falling piece `b` can go no lower: score the landing bonus, write
     * the piece into the board, clear and count the full rows.
     */
    method Land(b: Block, level: nat)
      requires Valid() && currentBlock == Some(b) && level == Level(lineCount)
      modifies this, board, board.cells
      ensures Valid() && board == old(board) && pause == old(pause)
      ensures nextBlock == old(nextBlock) && gameOver == old(gameOver)
      ensures InsideGrid(b) && old(freefallCount) <= 21 + 3 * level
      ensures var merged := Merged(old(board.Cells()), b);
        currentBlock == None && freefallCount == 0 &&
        board.Cells() == Compacted(merged) &&
        lineCount == old(lineCount) + FullRows(merged) &&
        score == old(score) + LandingBonus(level, old(freefallCount))
    {
      FreefallWithinBonus(board, b, freefallCount, lineCount);
      score := score + LandingBonus(level, freefallCount);
      freefallCount := 0;
      board.Merge(b);
      var cleared := board.RemoveLines();
      lineCount := lineCount + cleared;
      currentBlock := None;
    }

    /**
     * A key press. Unless the game is over or paused, Left, Right and Up move
     * or turn the falling piece when the result fits and leave it alone
     * otherwise, and Down or Space drop it. P toggles the pause unless the
     * game is over.
     */
    method Press(key: Key)
      requires Valid()
      modifies this
      ensures Valid() && board == old(board)
      ensures nextBlock == old(nextBlock) && gameOver == old(gameOver)
      ensures lineCount == old(lineCount) && freefallCount == old(freefallCount) && score == old(score)
      ensures pause == if !old(gameOver) && key == KeyP then !old(pause) else old(pause)
      ensures old(gameOver) || old(pause) || old(currentBlock).None? ==> currentBlock == old(currentBlock)
      ensures !old(gameOver) && !old(pause) && old(currentBlock).Some? ==>
        var b := old(currentBlock).value;
        currentBlock.Some? &&
        match key
        case ArrowLeft =>
          currentBlock.value == if board.Overlap(b.Displace(Left)) then b else b.Displace(Left)
        case ArrowRight =>
          currentBlock.value == if board.Overlap(b.Displace(Right)) then b else b.Displace(Right)
        case ArrowUp =>
          currentBlock.value == if board.Overlap(b.Rotate()) then b else b.Rotate()
        case ArrowDown => DropsTo(board, b, currentBlock.value)
        case Space => DropsTo(board, b, currentBlock.value)
        case _ => currentBlock.value == b
    {
      if gameOver {
        return;
      }
      if !pause {
        match currentBlock {
          case Some(b) =>
            if key == ArrowLeft {
              if !board.Overlap(b.Displace(Left)) {
                currentBlock := Some(b.Displace(Left));
              }
            } else if key == ArrowRight {
              if !board.Overlap(b.Displace(Right)) {
                currentBlock := Some(b.Displace(Right));
              }
            } else if key == Space || key == ArrowDown {
              var dropped := HardDrop(board, b);
              currentBlock := Some(dropped);
            } else if key == ArrowUp {
              if !board.Overlap(b.Rotate()) {
                currentBlock := Some(b.Rotate());
              }
            }
          case None =>
        }
      }
      if key == KeyP {
        pause := !pause;
      }
    }
  }
}
