/**
 * Board topology and construction (`initBoard`, src/Main.tsx:7-28). A board
 * of `height` rows and `width` columns counts its one-cell border: corners are
 * Blank, the rest of the border are Sources, and the interior are Tiles.
 */
module Board {
  import opened Types
  import opened Diffusion

  predicate InBounds(height: int, width: int, i: int, j: int)
  {
    0 <= i < height && 0 <= j < width
  }

  predicate IsCorner(height: int, width: int, i: int, j: int)
  {
    (i == 0 && (j == 0 || j == width - 1)) || (i == height - 1 && (j == 0 || j == width - 1))
  }

  predicate IsBorder(height: int, width: int, i: int, j: int)
  {
    i == 0 || j == 0 || i == height - 1 || j == width - 1
  }

  /** Where the Sources sit: on the border but not in a corner. */
  predicate IsSourcePos(height: int, width: int, i: int, j: int)
  {
    InBounds(height, width, i, j) && IsBorder(height, width, i, j) && !IsCorner(height, width, i, j)
  }

  predicate IsInterior(height: int, width: int, i: int, j: int)
  {
    1 <= i < height - 1 && 1 <= j < width - 1
  }

  /** The variant a cell must have at (i, j); a Source also knows its own place. */
  predicate CellFits(height: int, width: int, i: int, j: int, c: Cell)
  {
    (IsCorner(height, width, i, j) ==> c.Blank?)
    && (IsSourcePos(height, width, i, j) ==> c.Source? && c.row == i && c.col == j)
    && (IsInterior(height, width, i, j) ==> c.Tile?)
  }

  /** Every on-board position is exactly one of corner, source place, interior. */
  lemma Partition(height: int, width: int, i: int, j: int)
    requires InBounds(height, width, i, j)
    ensures IsCorner(height, width, i, j) || IsSourcePos(height, width, i, j) || IsInterior(height, width, i, j)
    ensures !(IsCorner(height, width, i, j) && IsInterior(height, width, i, j))
    ensures !(IsSourcePos(height, width, i, j) && IsInterior(height, width, i, j))
  {
  }

  /**
   * The interior cells a move from the Source at (r, c) recomputes: its row
   * when it sits on the left or right edge, its column otherwise.
   */
  predicate InLine(height: int, width: int, r: int, c: int, i: int, j: int)
  {
    IsInterior(height, width, i, j) && (if r != 0 && r != height - 1 then i == r else j == c)
  }

  /** (k, l) comes strictly before (i, j) in row-major order. */
  predicate RowMajorBefore(k: int, l: int, i: int, j: int)
  {
    k < i || (k == i && l < j)
  }

  /** The closest-match tracker's value: an interior tile, or the off-board black tile. */
  datatype Closest = Sentinel | At(i: int, j: int)

  /** The cell `initBoard` creates at (i, j). */
  function InitCell(width: int, length: int, i: int, j: int): (c: Cell)
    ensures InBounds(length, width, i, j) ==> CellFits(length, width, i, j, c)
    ensures c.rgb == Black
    ensures c.Tile? ==> (c.isClosest <==> i == 1 && j == 1)
  {
    if (i == 0 && (j == 0 || j == width - 1)) || (i == length - 1 && (j == 0 || j == width - 1)) then
      NewBlank(None)
    else if i == 0 || j == 0 || i == length - 1 || j == width - 1 then
      NewSource(i, j, None)
    else
      var tile := NewTile(None);
      if i == 1 && j == 1 then SetClosest(tile, true) else tile
  }

  /**
   * `initBoard(width, length)`: `length` rows of `width` cells with the layout
   * above, every colour black, and the Tile at (1, 1) the only one marked.
   */
  function InitBoard(width: nat, length: nat): (b: seq<seq<Cell>>)
    ensures |b| == length
    ensures forall i :: 0 <= i < length ==> |b[i]| == width
    ensures forall i, j :: InBounds(length, width, i, j) ==> CellFits(length, width, i, j, b[i][j])
    ensures forall i, j :: InBounds(length, width, i, j) ==> b[i][j].rgb == Black
    ensures forall i, j :: InBounds(length, width, i, j) && b[i][j].Tile? ==> (b[i][j].isClosest <==> i == 1 && j == 1)
  {
    seq(length, i => seq(width, j => InitCell(width, length, i, j)))
  }

  /** When the interior is not empty, (1, 1) is a marked Tile of the new board. */
  lemma InitBoardMarksFirst(width: nat, length: nat)
    requires width >= 3 && length >= 3
    ensures InitBoard(width, length)[1][1].Tile? && InitBoard(width, length)[1][1].isClosest
  {
    assert IsInterior(length, width, 1, 1);
  }

  /**
   * The new board is already diffused: each interior Tile has the colour
   * `recalcColor` computes from the sources of its row and column.
   */
  lemma InitBoardDiffused(width: nat, length: nat, i: int, j: int)
    requires width >= 2 && length >= 2 && IsInterior(length, width, i, j)
    ensures var b := InitBoard(width, length);
      b[i][j].rgb == RecalcColor(i, j, width, length, b[i][0].rgb, b[i][width - 1].rgb, b[0][j].rgb, b[length - 1][j].rgb)
  {
    var b := InitBoard(width, length);
    assert InBounds(length, width, i, 0) && InBounds(length, width, i, width - 1);
    assert InBounds(length, width, 0, j) && InBounds(length, width, length - 1, j);
    assert InBounds(length, width, i, j);
    RecalcAllBlack(i, j, width, length);
  }
}
