/**
 * The grid of settled cells: 20 rows of 10 cells, each empty or holding the
 * colour of the piece that landed there. Row 0 is the top row; `cells[y][x]`
 * is column x of row y.
 */
module Boards {
  import opened Wrappers
  import opened Shapes
  import opened Blocks

  const BoardWidth: nat := 10
  const BoardHeight: nat := 20

  /** One row of the grid. A row is copied as a whole when rows are shifted. */
  type Row = seq<Option<Color>>
  type Grid = seq<Row>

  const EmptyRow: Row := seq(BoardWidth, _ => None)
  const EmptyGrid: Grid := seq(BoardHeight, _ => EmptyRow)

  predicate WellSized(g: Grid)
  {
    |g| == BoardHeight && forall y :: 0 <= y < |g| ==> |g[y]| == BoardWidth
  }

  /** Inside the walls, above the floor and at or below the top row. */
  predicate InBounds(c: (int, int))
  {
    0 <= c.0 < BoardWidth && 0 <= c.1 < BoardHeight
  }

  /** A cell a piece may not cover: outside the grid, or already settled. */
  predicate Blocked(g: Grid, c: (int, int))
    requires WellSized(g)
  {
    if InBounds(c) then g[c.1][c.0].Some? else true
  }

  /** Every cell of `b` lies inside the grid. */
  predicate InsideGrid(b: Block)
    requires b.Valid()
  {
    forall k :: 0 <= k < |b.Cells()| ==> InBounds(b.Cells()[k])
  }

  /** Whether some offset, placed at anchor (px, py), lands on a blocked cell. */
  function AnyBlocked(g: Grid, px: int, py: int, offsets: seq<Offset>): (r: bool)
    requires WellSized(g)
    ensures r <==> exists k :: 0 <= k < |offsets| && Blocked(g, (px + offsets[k].0, py + offsets[k].1))
  {
    if offsets == [] then false
    else
      var hit := Blocked(g, (px + offsets[0].0, py + offsets[0].1));
      var rest := AnyBlocked(g, px, py, offsets[1..]);
      assert rest ==> exists k :: 1 <= k < |offsets| && Blocked(g, (px + offsets[k].0, py + offsets[k].1));
      hit || rest
  }

  /** The grid `g` with every cell in `cs` set to `c`, written in order. */
  function Paint(g: Grid, cs: seq<(int, int)>, c: Color): (r: Grid)
    requires WellSized(g)
    requires forall k :: 0 <= k < |cs| ==> InBounds(cs[k])
    ensures WellSized(r)
    decreases |cs|
  {
    if cs == [] then g
    else
      var h := Paint(g, cs[..|cs| - 1], c);
      var last := cs[|cs| - 1];
      assert InBounds(last);
      h[last.1 := h[last.1][last.0 := Some(c)]]
  }

  /** A painted cell holds the colour; every other cell is as before. */
  lemma {:induction false} PaintAt(g: Grid, cs: seq<(int, int)>, c: Color, x: int, y: int)
    requires WellSized(g)
    requires forall k :: 0 <= k < |cs| ==> InBounds(cs[k])
    requires InBounds((x, y))
    ensures Paint(g, cs, c)[y][x] == if (x, y) in cs then Some(c) else g[y][x]
    decreases |cs|
  {
    if cs != [] {
      var init := cs[..|cs| - 1];
      PaintAt(g, init, c, x, y);
      assert cs == init + [cs[|cs| - 1]];
    }
  }

  /** The grid after piece `b` has landed on `g`. */
  function Merged(g: Grid, b: Block): (r: Grid)
    requires WellSized(g) && b.Valid() && InsideGrid(b)
    ensures WellSized(r)
  {
    Paint(g, b.Cells(), b.Color())
  }

  /** Merging colours exactly the piece's cells and changes nothing else. */
  lemma MergedAt(g: Grid, b: Block, x: int, y: int)
    requires WellSized(g) && b.Valid() && InsideGrid(b) && InBounds((x, y))
    ensures Merged(g, b)[y][x] == if (x, y) in b.Cells() then Some(b.Color()) else g[y][x]
  {
    PaintAt(g, b.Cells(), b.Color(), x, y);
  }

  /** A row with no empty cell. */
  predicate IsFull(row: Row)
  {
    forall x :: 0 <= x < |row| ==> row[x].Some?
  }

  /** The number of full rows of `g`. */
  function FullRows(g: Grid): (n: nat)
    ensures n <= |g|
  {
    if g == [] then 0 else (if IsFull(g[0]) then 1 else 0) + FullRows(g[1..])
  }

  /** The rows of `g` that are not full, top to bottom. */
  function Survivors(g: Grid): (s: Grid)
    ensures |s| + FullRows(g) == |g|
    ensures forall j :: 0 <= j < |s| ==> s[j] in g && !IsFull(s[j])
  {
    if g == [] then []
    else (if IsFull(g[0]) then [] else [g[0]]) + Survivors(g[1..])
  }

  /** The grid after row clearing: empty rows on top of the surviving rows. */
  function Compacted(g: Grid): (r: Grid)
    ensures |r| == |g|
  {
    seq(FullRows(g), _ => EmptyRow) + Survivors(g)
  }

  /**
   * The indices, from `lo` on, of the rows of `g` that are not full: in
   * ascending order, and an index is listed iff its row is not full.
   */
  function KeptRows(g: Grid, lo: nat): (ks: seq<nat>)
    requires lo <= |g|
    ensures forall j :: 0 <= j < |ks| ==> lo <= ks[j] < |g|
    ensures forall i, j :: 0 <= i < j < |ks| ==> ks[i] < ks[j]
    ensures forall y :: lo <= y < |g| ==> (y in ks <==> !IsFull(g[y]))
    decreases |g| - lo
  {
    if lo == |g| then []
    else (if IsFull(g[lo]) then [] else [lo]) + KeptRows(g, lo + 1)
  }

  /**
   * The survivors are the rows of `g` that are not full, in their original
   * top-to-bottom order: the j-th survivor of `g[lo..]` is row `KeptRows(g, lo)[j]`.
   */
  lemma {:induction false} SurvivorsInOrder(g: Grid, lo: nat)
    requires lo <= |g|
    ensures |KeptRows(g, lo)| == |Survivors(g[lo..])|
    ensures forall j :: 0 <= j < |KeptRows(g, lo)| ==> Survivors(g[lo..])[j] == g[KeptRows(g, lo)[j]]
    decreases |g| - lo
  {
    if lo < |g| {
      SurvivorsInOrder(g, lo + 1);
      assert g[lo..][1..] == g[lo + 1..];
      assert g[lo..][0] == g[lo];
    }
  }

  lemma {:induction false} FullRowsAppend(a: Grid, b: Grid)
    ensures FullRows(a + b) == FullRows(a) + FullRows(b)
  {
    if a != [] {
      FullRowsAppend(a[1..], b);
      assert (a + b)[0] == a[0] && (a + b)[1..] == a[1..] + b;
      assert FullRows(a + b) == (if IsFull(a[0]) then 1 else 0) + FullRows(a[1..] + b);
    } else {
      assert a + b == b;
    }
  }

  lemma {:induction false} NoFullSurvivor(g: Grid)
    ensures FullRows(Survivors(g)) == 0
  {
    if g != [] {
      NoFullSurvivor(g[1..]);
      var head := if IsFull(g[0]) then [] else [g[0]];
      FullRowsAppend(head, Survivors(g[1..]));
    }
  }

  lemma {:induction false} NoFullEmptyRows(n: nat)
    ensures FullRows(seq(n, _ => EmptyRow)) == 0
  {
    if n > 0 {
      assert !IsFull(EmptyRow) by { assert EmptyRow[0] == None; }
      NoFullEmptyRows(n - 1);
      assert seq(n, _ => EmptyRow)[1..] == seq(n - 1, _ => EmptyRow);
    }
  }

  /** After row clearing no row is full, so clearing again removes nothing. */
  lemma CompactedHasNoFullRow(g: Grid)
    ensures FullRows(Compacted(g)) == 0
  {
    FullRowsAppend(seq(FullRows(g), _ => EmptyRow), Survivors(g));
    NoFullEmptyRows(FullRows(g));
    NoFullSurvivor(g);
  }

  /** With no full row, clearing leaves the grid as it was. */
  lemma {:induction false} CompactedWithoutFullRows(g: Grid)
    requires FullRows(g) == 0
    ensures Compacted(g) == g
  {
    if g != [] {
      CompactedWithoutFullRows(g[1..]);
    }
  }

  /** A well-sized grid stays well-sized when its rows are cleared. */
  lemma CompactedWellSized(g: Grid)
    requires WellSized(g)
    ensures WellSized(Compacted(g))
  {
    var r := Compacted(g);
    var k := FullRows(g);
    forall y | 0 <= y < |r|
      ensures |r[y]| == BoardWidth
    {
      if y >= k {
        assert r[y] == Survivors(g)[y - k];
      }
    }
  }

  /**
   * The layout after clearing the k full rows of `g`: the top k rows are
   * empty and below them lie the rows that were not full, in their original
   * order.
   */
  lemma ClearedLayout(g: Grid)
    ensures var k, r, ks := FullRows(g), Compacted(g), KeptRows(g, 0);
      |r| == |g| && k + |ks| == |g| &&
      (forall y :: 0 <= y < k ==> r[y] == EmptyRow) &&
      (forall j :: 0 <= j < |ks| ==> r[k + j] == g[ks[j]]) &&
      (forall i, j :: 0 <= i < j < |ks| ==> ks[i] < ks[j]) &&
      (forall y :: 0 <= y < |g| ==> (y in ks <==> !IsFull(g[y])))
  {
    SurvivorsInOrder(g, 0);
    assert g[0..] == g;
  }

  class Board {
    var cells: array<Row>

    ghost predicate Valid()
      reads this, cells
    {
      WellSized(cells[..])
    }

    /** An empty board. */
    constructor ()
      ensures Valid() && fresh(cells)
      ensures cells[..] == EmptyGrid
    {
      cells := new Row[BoardHeight](_ => EmptyRow);
    }

    /** Read-only view of the grid. */
    function Cells(): (g: Grid)
      reads this, cells
      requires Valid()
      ensures WellSized(g)
    {
      cells[..]
    }

    /**
     * Whether `b` cannot be placed: some cell of it is outside the grid
     * (x < 0, x >= 10, y < 0 or y >= 20) or already settled. When it can be
     * placed, every cell of it is a valid grid index.
     */
    function Overlap(b: Block): (r: bool)
      reads this, cells
      requires Valid() && b.Valid()
      ensures r <==> exists k :: 0 <= k < |b.Cells()| && Blocked(cells[..], b.Cells()[k])
      ensures !r ==> InsideGrid(b)
    {
      var (px, py) := b.position;
      var offsets := b.Rotation();
      var r := AnyBlocked(cells[..], px, py, offsets);
      assert forall k :: 0 <= k < |offsets| ==> b.Cells()[k] == (px + offsets[k].0, py + offsets[k].1);
      r
    }

    /** Writes the piece's colour into each of its cells. */
    method Merge(b: Block)
      requires Valid() && b.Valid() && InsideGrid(b)
      modifies cells
      ensures Valid()
      ensures cells[..] == Merged(old(cells[..]), b)
      ensures forall y, x :: 0 <= y < BoardHeight && 0 <= x < BoardWidth ==>
        cells[y][x] == if (x, y) in b.Cells() then Some(b.Color()) else old(cells[y][x])
    {
      ghost var g := cells[..];
      ghost var cs := b.Cells();
      var (px, py) := b.position;
      var offsets := b.Rotation();
      for k := 0 to |offsets|
        invariant cells[..] == Paint(g, cs[..k], b.Color())
      {
        var (x, y) := (px + offsets[k].0, py + offsets[k].1);
        assert (x, y) == cs[k] && InBounds(cs[k]);
        assert cs[..k + 1] == cs[..k] + [(x, y)];
        cells[y] := cells[y][x := Some(b.Color())];
      }
      assert cs[..|offsets|] == cs;
      forall y, x | 0 <= y < BoardHeight && 0 <= x < BoardWidth
        ensures cells[y][x] == if (x, y) in cs then Some(b.Color()) else g[y][x]
      {
        MergedAt(g, b, x, y);
      }
    }

    /**
     * Removes every full row, shifts the remaining rows down in their order
     * and fills the top with empty rows; returns the number removed.
     */
    method RemoveLines() returns (count: nat)
      requires Valid()
      modifies this
      ensures Valid() && fresh(cells)
      ensures count == FullRows(old(cells[..]))
      ensures cells[..] == Compacted(old(cells[..]))
    {
      var g := cells[..];
      var newCells := new Row[BoardHeight](_ => EmptyRow);
      count := 0;
      var src := BoardHeight;
      var dst := BoardHeight;
      while src > 0
        invariant 0 <= src <= dst <= BoardHeight
        invariant count == FullRows(g[src..])
        invariant dst == src + count
        invariant newCells[dst..] == Survivors(g[src..])
        invariant forall y :: 0 <= y < dst ==> newCells[y] == EmptyRow
      {
        src := src - 1;
        assert g[src..][0] == g[src] && g[src..][1..] == g[src + 1..];
        if IsFull(g[src]) {
          count := count + 1;
        } else {
          dst := dst - 1;
          newCells[dst] := g[src];
        }
      }
      assert g[0..] == g;
      assert newCells[..] == newCells[..dst] + newCells[dst..];
      assert newCells[..dst] == seq(count, _ => EmptyRow);
      cells := newCells;
      CompactedWellSized(g);
    }
  }

  /** On a board with nothing settled, a piece overlaps iff it leaves the grid. */
  lemma EmptyBoardOverlap(board: Board, b: Block)
    requires board.Valid() && b.Valid() && board.cells[..] == EmptyGrid
    ensures board.Overlap(b) <==> !InsideGrid(b)
  {
    if !InsideGrid(b) {
      var k :| 0 <= k < |b.Cells()| && !InBounds(b.Cells()[k]);
      assert Blocked(board.cells[..], b.Cells()[k]);
    }
  }
}
