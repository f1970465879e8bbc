/**
 * One game session (the state of `Main`, src/Main.tsx:31-44, and the event
 * handlers that change it). The board is updated in place; a reset discards
 * the whole session and builds a new one from a fresh provider record.
 */
module Game {
  import opened Types
  import opened Color
  import opened Diffusion
  import opened Board
  import opened Rules

  class Session {
    const userId: string
    /** Board rows and columns, border included. */
    const height: nat
    const width: nat
    const target: RGB
    const board: array2<Cell>
    var moves: int
    var won: bool
    /** The colours still to be handed out by source clicks, to be popped from the end. */
    var queue: seq<RGB>
    var closest: Closest
    /** The colour of the tile being dragged, if any. */
    var selected: Option<RGB>

    /**
     * The success branch of `fetchGame` (src/Main.tsx:56-73): a board with
     * the provider's dimensions plus the border, the provider's budget and
     * target, the three starting colours queued, and the tracker on the Tile
     * at (1, 1) when there is one. The target needs three entries.
     */
    constructor (info: GameInfo)
      requires |info.target| >= 3
      ensures userId == info.userId && height == info.height + 2 && width == info.width + 2
      ensures moves == info.maxMoves && !won
      ensures target == RGB(info.target[0], info.target[1], info.target[2])
      ensures fresh(board) && Shaped()
      ensures forall i, j :: InBounds(height, width, i, j) ==> board[i, j] == InitBoard(width, height)[i][j]
      ensures queue == InitialQueue && selected == None
      ensures closest == if info.width >= 1 && info.height >= 1 then At(1, 1) else Sentinel
      ensures Valid() && Ranged()
    {
      var h, w := info.height + 2, info.width + 2;
      userId := info.userId;
      height, width := h, w;
      moves := info.maxMoves;
      target := RGB(info.target[0], info.target[1], info.target[2]);
      board := new Cell[h, w]((i, j) => InitCell(w, h, i, j));
      queue := InitialQueue;
      won := false;
      selected := None;
      closest := if info.width >= 1 && info.height >= 1 then At(1, 1) else Sentinel;
      new;
      forall i, j | IsInterior(height, width, i, j)
        ensures board[i, j].rgb == RecalcAt(i, j)
      {
        InitBoardDiffused(width, height, i, j);
      }
      forall i, j | InBounds(height, width, i, j)
        ensures board[i, j].rgb == Black
      {
        assert board[i, j] == InitCell(width, height, i, j);
      }
      BlackRanged();
    }

    ghost predicate Shaped()
    {
      board.Length0 == height && board.Length1 == width && height >= 2 && width >= 2
    }

    /** Corners are Blank, other border cells their own Source, the interior Tiles. */
    ghost predicate Layout()
      reads board
      requires Shaped()
    {
      forall i, j :: InBounds(height, width, i, j) ==> CellFits(height, width, i, j, board[i, j])
    }

    /** `recalcColor(i, j, board)` on the current sources, in range when they are. */
    function RecalcAt(i: int, j: int): (r: RGB)
      reads board
      requires Shaped() && InBounds(height, width, i, j)
      ensures InRange(board[i, 0].rgb) && InRange(board[i, width - 1].rgb) && InRange(board[0, j].rgb) && InRange(board[height - 1, j].rgb) ==>
        InRange(r)
    {
      RecalcInRange(i, j, width, height, board[i, 0].rgb, board[i, width - 1].rgb, board[0, j].rgb, board[height - 1, j].rgb);
      RecalcColor(i, j, width, height, board[i, 0].rgb, board[i, width - 1].rgb, board[0, j].rgb, board[height - 1, j].rgb)
    }

    /** Every interior tile has the colour its row's and column's sources give it. */
    ghost predicate Diffused()
      reads board
      requires Shaped()
    {
      forall i, j :: IsInterior(height, width, i, j) ==> board[i, j].rgb == RecalcAt(i, j)
    }

    /** An interior tile carries the marker exactly when it is the closest one. */
    ghost predicate Marked()
      reads this`closest, board
      requires Shaped()
    {
      (closest.At? ==> IsInterior(height, width, closest.i, closest.j))
      && forall i, j :: IsInterior(height, width, i, j) && board[i, j].Tile? ==> (board[i, j].isClosest <==> closest == At(i, j))
    }

    ghost predicate Valid()
      reads this`closest, this`moves, board
    {
      Shaped() && moves >= 0 && Layout() && Diffused() && Marked()
    }

    /**
     * Every colour the session holds outside the interior has its channels
     * in [0, 255]: the border cells, the queued colours and the selection.
     */
    ghost predicate Ranged()
      reads this`queue, this`selected, board
      requires Shaped()
    {
      && (forall i, j :: InBounds(height, width, i, j) && !IsInterior(height, width, i, j) ==> InRange(board[i, j].rgb))
      && (forall k :: 0 <= k < |queue| ==> InRange(queue[k]))
      && (selected.Some? ==> InRange(selected.value))
    }

    /** A black board with the starting colours queued and nothing selected is in range. */
    lemma BlackRanged()
      requires Shaped() && queue == InitialQueue && selected == None
      requires forall i, j :: InBounds(height, width, i, j) ==> board[i, j].rgb == Black
      ensures Ranged()
    { }

    /** With the border in range, so is every diffused interior tile. */
    lemma InteriorInRange(i: int, j: int)
      requires Shaped() && Diffused() && Ranged() && IsInterior(height, width, i, j)
      ensures InRange(board[i, j].rgb)
    {
      assert !IsInterior(height, width, i, 0) && !IsInterior(height, width, i, width - 1);
      assert !IsInterior(height, width, 0, j) && !IsInterior(height, width, height - 1, j);
      RecalcInRange(i, j, width, height, board[i, 0].rgb, board[i, width - 1].rgb, board[0, j].rgb, board[height - 1, j].rgb);
    }

    /** The colour of a tracker value: the tile's, or black for the sentinel. */
    function ColorOf(r: Closest): RGB
      reads board
      requires Shaped() && (r.At? ==> InBounds(height, width, r.i, r.j))
    {
      match r
      case Sentinel => Black
      case At(i, j) => board[i, j].rgb
    }

    /**
     * Among the interior tiles before (i, j) in row-major order, the tile at
     * (bi, bj) is one of the nearest to the target, and every later one is
     * strictly farther.
     */
    ghost predicate LastNearest(bi: int, bj: int, i: int, j: int)
      reads board
      requires Shaped() && InBounds(height, width, bi, bj)
    {
      && (forall k, l :: IsInterior(height, width, k, l) && RowMajorBefore(k, l, i, j) && board[k, l].Tile? ==>
            NoFarther(target, board[bi, bj].rgb, board[k, l].rgb))
      && (forall k, l :: IsInterior(height, width, k, l) && RowMajorBefore(k, l, i, j) && board[k, l].Tile? && RowMajorBefore(bi, bj, k, l) ==>
            !NoFarther(target, board[k, l].rgb, board[bi, bj].rgb))
    }

    /**
     * What the scan of src/Main.tsx:137-144 has found once it reaches (i, j),
     * starting from the off-board black tile: the sentinel when every tile so
     * far is farther from the target than black, else the last nearest tile
     * so far, which is no farther than black.
     */
    ghost predicate ScannedBest(r: Closest, i: int, j: int)
      reads board
      requires Shaped()
    {
      match r
      case Sentinel =>
        forall k, l :: IsInterior(height, width, k, l) && RowMajorBefore(k, l, i, j) && board[k, l].Tile? ==>
          !NoFarther(target, board[k, l].rgb, Black)
      case At(bi, bj) =>
        IsInterior(height, width, bi, bj) && RowMajorBefore(bi, bj, i, j) && board[bi, bj].Tile?
        && NoFarther(target, board[bi, bj].rgb, Black)
        && LastNearest(bi, bj, i, j)
    }

    /** The scan's answer over the whole interior. */
    ghost predicate IsScanResult(r: Closest)
      reads board
      requires Shaped()
    {
      ScannedBest(r, height - 1, 1)
    }

    /** The scan result is determined by the board and the target. */
    lemma ScanResultUnique(r1: Closest, r2: Closest)
      requires Shaped() && IsScanResult(r1) && IsScanResult(r2)
      ensures r1 == r2
    {
      if r1.At? {
        ScanBeats(r2, r1.i, r1.j);
      }
      if r2.At? {
        ScanBeats(r1, r2.i, r2.j);
      }
    }

    /**
     * What the scan result says about any one interior tile: the result is
     * no farther than it, strictly nearer when the tile comes later, and when
     * the result is the sentinel the tile is farther than black.
     */
    lemma ScanBeats(r: Closest, k: int, l: int)
      requires Shaped() && IsScanResult(r) && IsInterior(height, width, k, l) && board[k, l].Tile?
      ensures r.At? ==> IsInterior(height, width, r.i, r.j) && board[r.i, r.j].Tile?
      ensures r.At? ==> NoFarther(target, ColorOf(r), board[k, l].rgb) && NoFarther(target, ColorOf(r), Black)
      ensures r.At? && RowMajorBefore(r.i, r.j, k, l) ==> !NoFarther(target, board[k, l].rgb, ColorOf(r))
      ensures r.Sentinel? ==> !NoFarther(target, board[k, l].rgb, Black)
    {
      assert RowMajorBefore(k, l, height - 1, 1);
    }

    /**
     * With the scan as written, the closest-match test succeeds exactly when
     * some interior Tile is close enough to the target or black itself is:
     * the off-board starting value takes part in the contest.
     */
    lemma ScanDecidesWin(r: Closest)
      requires Shaped() && IsScanResult(r)
      ensures CloseEnough(target, ColorOf(r)) <==>
        CloseEnough(target, Black)
        || exists k, l :: IsInterior(height, width, k, l) && board[k, l].Tile? && CloseEnough(target, board[k, l].rgb)
    {
      if r.At? {
        assert IsInterior(height, width, r.i, r.j) && board[r.i, r.j].Tile?;
      }
      if k, l :| IsInterior(height, width, k, l) && board[k, l].Tile? && CloseEnough(target, board[k, l].rgb) {
        ScanBeats(r, k, l);
      }
    }

    /**
     * On a board with one interior cell, a Tile, the scan keeps its black
     * starting value exactly when that Tile is farther from the target than
     * black is.
     */
    lemma SingleTileScan(r: Closest)
      requires Shaped() && height == 3 && width == 3 && board[1, 1].Tile? && IsScanResult(r)
      ensures r == Sentinel <==> !NoFarther(target, board[1, 1].rgb, Black)
      ensures r != Sentinel ==> r == At(1, 1)
    {
      ScanBeats(r, 1, 1);
    }

    /** The only tile of a 3 x 3 board with red above it and black around it. */
    lemma CentreUnderRed()
      requires Shaped() && Diffused() && height == 3 && width == 3
      requires board[1, 0].rgb == Black && board[1, 2].rgb == Black && board[0, 1].rgb == Red && board[2, 1].rgb == Black
      ensures board[1, 1].rgb == RGB(127.5, 0.0, 0.0)
    {
      assert IsInterior(height, width, 1, 1);
      RecalcTopRed();
    }

    /**
     * A spurious win of the scan as written: target black, a 3 x 3 board
     * whose only tile is (127.5, 0, 0), the colour red above it and black on
     * the other sources give it (CentreUnderRed). That tile is outside the
     * tolerance and farther than black, so the scan keeps black and the
     * closeness test succeeds.
     */
    lemma SpuriousWin(r: Closest)
      requires Shaped() && height == 3 && width == 3 && target == Black
      requires board[1, 1].Tile? && board[1, 1].rgb == RGB(127.5, 0.0, 0.0)
      requires IsScanResult(r)
      ensures r == Sentinel && CloseEnough(target, ColorOf(r))
      ensures !CloseEnough(target, board[1, 1].rgb)
    {
      HalfRedFromBlack();
      TargetBeatsFar(target, board[1, 1].rgb);
      SingleTileScan(r);
    }

    /** On the same board the corrected scan reports the tile, and the move does not win. */
    lemma NoSpuriousWin(r: Closest)
      requires Shaped() && height == 3 && width == 3 && target == Black
      requires board[1, 1].Tile? && board[1, 1].rgb == RGB(127.5, 0.0, 0.0)
      requires IsNearestTile(r)
      ensures r == At(1, 1) && !CloseEnough(target, ColorOf(r))
    {
      HalfRedFromBlack();
      SingleTileNearest(r);
    }

    /** One step of the scan keeps what it has found consistent. */
    lemma ScanStep(r: Closest, i: int, j: int)
      requires Shaped() && IsInterior(height, width, i, j) && ScannedBest(r, i, j)
      ensures var c := board[i, j];
        ScannedBest(if c.Tile? && NoFarther(target, c.rgb, ColorOf(r)) then At(i, j) else r, i, j + 1)
    {
    }

    /** Reaching the end of a row is starting the next one. */
    lemma ScanNextRow(r: Closest, i: int)
      requires Shaped() && ScannedBest(r, i, width - 1)
      ensures ScannedBest(r, i + 1, 1)
    {
      if r.At? {
        assert LastNearest(r.i, r.j, i + 1, 1);
      }
    }

    /**
     * The closest-tile scan: row by row over the interior, keeping the last
     * tile whose delta is at most the best so far, starting from black.
     */
    method FindClosest() returns (r: Closest)
      requires Shaped()
      ensures IsScanResult(r)
    {
      r := Sentinel;
      var i := 1;
      while i < height - 1
        invariant 1 <= i <= height - 1
        invariant ScannedBest(r, i, 1)
      {
        var j := 1;
        while j < width - 1
          invariant 1 <= j <= width - 1
          invariant ScannedBest(r, i, j)
        {
          var c := board[i, j];
          ScanStep(r, i, j);
          if c.Tile? && SqDist(target, c.rgb) <= SqDist(target, ColorOf(r)) {
            r := At(i, j);
          }
          j := j + 1;
        }
        ScanNextRow(r, i);
        i := i + 1;
      }
    }

    /**
     * The scan without the black starting value: the first Tile is always
     * taken, and afterwards a Tile replaces the best so far when it is no
     * farther. Once (i, j) is reached it has found no Tile so far, or the
     * last nearest Tile so far.
     */
    ghost predicate ScannedNearest(r: Closest, i: int, j: int)
      reads board
      requires Shaped()
    {
      match r
      case Sentinel =>
        forall k, l :: IsInterior(height, width, k, l) && RowMajorBefore(k, l, i, j) ==> !board[k, l].Tile?
      case At(bi, bj) =>
        IsInterior(height, width, bi, bj) && RowMajorBefore(bi, bj, i, j) && board[bi, bj].Tile?
        && LastNearest(bi, bj, i, j)
    }

    /** The corrected scan's answer over the whole interior. */
    ghost predicate IsNearestTile(r: Closest)
      reads board
      requires Shaped()
    {
      ScannedNearest(r, height - 1, 1)
    }

    lemma NearestStep(r: Closest, i: int, j: int)
      requires Shaped() && IsInterior(height, width, i, j) && ScannedNearest(r, i, j)
      ensures var c := board[i, j];
        ScannedNearest(if c.Tile? && (r.Sentinel? || NoFarther(target, c.rgb, ColorOf(r))) then At(i, j) else r, i, j + 1)
    {
    }

    lemma NearestNextRow(r: Closest, i: int)
      requires Shaped() && ScannedNearest(r, i, width - 1)
      ensures ScannedNearest(r, i + 1, 1)
    {
      if r.At? {
        assert LastNearest(r.i, r.j, i + 1, 1);
      }
    }

    /**
     * The closest-tile scan as evidently intended: it reports a Tile of the
     * board whenever the interior has one, the last of the nearest.
     */
    method FindClosestTile() returns (r: Closest)
      requires Shaped()
      ensures IsNearestTile(r)
    {
      r := Sentinel;
      var i := 1;
      while i < height - 1
        invariant 1 <= i <= height - 1
        invariant ScannedNearest(r, i, 1)
      {
        var j := 1;
        while j < width - 1
          invariant 1 <= j <= width - 1
          invariant ScannedNearest(r, i, j)
        {
          var c := board[i, j];
          NearestStep(r, i, j);
          if c.Tile? && (r.Sentinel? || SqDist(target, c.rgb) <= SqDist(target, ColorOf(r))) {
            r := At(i, j);
          }
          j := j + 1;
        }
        NearestNextRow(r, i);
        i := i + 1;
      }
    }

    /**
     * On a board whose interior is all Tiles and not empty, the corrected
     * scan always reports a Tile, so after a move exactly one tile is marked.
     */
    lemma NearestIsTile(r: Closest)
      requires Shaped() && Layout() && height >= 3 && width >= 3 && IsNearestTile(r)
      ensures r.At? && IsInterior(height, width, r.i, r.j) && board[r.i, r.j].Tile?
    {
      assert InBounds(height, width, 1, 1) && IsInterior(height, width, 1, 1) && RowMajorBefore(1, 1, height - 1, 1);
    }

    /** On a board with one interior cell, a Tile, the corrected scan reports that Tile. */
    lemma SingleTileNearest(r: Closest)
      requires Shaped() && height == 3 && width == 3 && board[1, 1].Tile? && IsNearestTile(r)
      ensures r == At(1, 1)
    {
      assert IsInterior(height, width, 1, 1) && RowMajorBefore(1, 1, height - 1, 1);
    }

    /**
     * With the corrected scan, the game is won exactly when some interior
     * Tile is close enough to the target.
     */
    lemma NearestDecidesWin(r: Closest)
      requires Shaped() && IsNearestTile(r)
      ensures (r.At? && CloseEnough(target, ColorOf(r))) <==>
        exists k, l :: IsInterior(height, width, k, l) && board[k, l].Tile? && CloseEnough(target, board[k, l].rgb)
    {
      if r.At? {
        assert IsInterior(height, width, r.i, r.j) && board[r.i, r.j].Tile?;
      }
      if k, l :| IsInterior(height, width, k, l) && board[k, l].Tile? && CloseEnough(target, board[k, l].rgb) {
        assert RowMajorBefore(k, l, height - 1, 1);
      }
    }

    /** Recomputes the interior cells of row `r` from the current sources. */
    method RecomputeRow(r: int)
      requires Shaped() && 1 <= r < height - 1
      modifies board
      ensures forall i, j :: InBounds(height, width, i, j) ==>
        board[i, j] == if i == r && 1 <= j < width - 1 then NewTile(Some(RecalcAt(i, j))) else old(board[i, j])
    {
      var j := 1;
      while j < width - 1
        invariant 1 <= j <= width - 1
        invariant forall x, y :: InBounds(height, width, x, y) ==>
          board[x, y] == if x == r && 1 <= y < j then NewTile(Some(RecalcAt(x, y))) else old(board[x, y])
      {
        var c := RecalcAt(r, j);
        board[r, j] := NewTile(Some(RGB(c.red, c.green, c.blue)));
        j := j + 1;
      }
    }

    /** Recomputes the interior cells of column `c` from the current sources. */
    method RecomputeColumn(c: int)
      requires Shaped() && 1 <= c < width - 1
      modifies board
      ensures forall i, j :: InBounds(height, width, i, j) ==>
        board[i, j] == if j == c && 1 <= i < height - 1 then NewTile(Some(RecalcAt(i, j))) else old(board[i, j])
    {
      var i := 1;
      while i < height - 1
        invariant 1 <= i <= height - 1
        invariant forall x, y :: InBounds(height, width, x, y) ==>
          board[x, y] == if y == c && 1 <= x < i then NewTile(Some(RecalcAt(x, y))) else old(board[x, y])
      {
        var k := RecalcAt(i, c);
        board[i, c] := NewTile(Some(RGB(k.red, k.green, k.blue)));
        i := i + 1;
      }
    }

    /** The scan's answer depends only on which interior cells are Tiles and on their colours. */
    twostate lemma ScanFramed(r: Closest)
      requires Shaped() && old(IsScanResult(r))
      requires forall i, j :: IsInterior(height, width, i, j) ==>
        board[i, j].Tile? == old(board[i, j].Tile?) && board[i, j].rgb == old(board[i, j].rgb)
      ensures IsScanResult(r)
    {
      if r.At? {
        assert RowMajorBefore(r.i, r.j, height - 1, 1);
      }
    }

    /** The same for the corrected scan. */
    twostate lemma NearestFramed(r: Closest)
      requires Shaped() && old(IsNearestTile(r))
      requires forall i, j :: IsInterior(height, width, i, j) ==>
        board[i, j].Tile? == old(board[i, j].Tile?) && board[i, j].rgb == old(board[i, j].rgb)
      ensures IsNearestTile(r)
    {
      if r.At? {
        assert RowMajorBefore(r.i, r.j, height - 1, 1);
      }
    }

    /**
     * Unmarks the old closest tile and marks `r`. Needs only that no tile but
     * the old closest one is marked; afterwards exactly `r` is. Colours and
     * cell kinds stay as they were.
     */
    method MoveMarker(r: Closest)
      requires Shaped() && Layout() && Diffused()
      requires closest.At? ==> IsInterior(height, width, closest.i, closest.j)
      requires r.At? ==> IsInterior(height, width, r.i, r.j)
      requires forall i, j :: IsInterior(height, width, i, j) && board[i, j].isClosest ==> closest == At(i, j)
      modifies this`closest, board
      ensures closest == r
      ensures forall i, j :: InBounds(height, width, i, j) ==>
        board[i, j] == if IsInterior(height, width, i, j) then SetClosest(old(board[i, j]), r == At(i, j)) else old(board[i, j])
      ensures Layout() && Diffused() && Marked()
    {
      ghost var previous := closest;
      Mark(closest, false);
      Mark(r, true);
      closest := r;
      forall i, j | InBounds(height, width, i, j)
        ensures board[i, j] == if IsInterior(height, width, i, j) then SetClosest(old(board[i, j]), r == At(i, j)) else old(board[i, j])
      {
        if IsInterior(height, width, i, j) && r != At(i, j) && previous != At(i, j) {
          assert !old(board[i, j]).isClosest;
        }
      }
      forall i, j | IsInterior(height, width, i, j)
        ensures board[i, j].rgb == RecalcAt(i, j)
      {
        assert board[i, 0] == old(board[i, 0]) && board[i, width - 1] == old(board[i, width - 1]);
        assert board[0, j] == old(board[0, j]) && board[height - 1, j] == old(board[height - 1, j]);
      }
    }

    /** Writes the marker of the Tile at `p`, when `p` is one; no other cell changes. */
    method Mark(p: Closest, flag: bool)
      requires Shaped() && Layout()
      requires p.At? ==> IsInterior(height, width, p.i, p.j)
      modifies board
      ensures Layout()
      ensures forall i, j :: InBounds(height, width, i, j) ==>
        board[i, j] == if p == At(i, j) then SetClosest(old(board[i, j]), flag) else old(board[i, j])
    {
      if p.At? {
        board[p.i, p.j] := SetClosest(board[p.i, p.j], flag);
      }
    }

    /** Stores the source and rewrites the interior of the line it feeds; no other cell changes. */
    method StoreSource(src: Cell)
      requires Shaped() && Layout()
      requires src.Source? && IsSourcePos(height, width, src.row, src.col)
      modifies board
      ensures Layout()
      ensures board[src.row, src.col] == src
      ensures forall i, j :: IsInterior(height, width, i, j) ==>
        board[i, j] == if InLine(height, width, src.row, src.col, i, j) then NewTile(Some(RecalcAt(i, j))) else old(board[i, j])
      ensures forall i, j :: InBounds(height, width, i, j) && !IsInterior(height, width, i, j) && (i != src.row || j != src.col) ==>
        board[i, j] == old(board[i, j])
    {
      board[src.row, src.col] := src;
      if src.row != 0 && src.row != height - 1 {
        RecomputeRow(src.row);
      } else {
        RecomputeColumn(src.col);
      }
    }

    /**
     * The first half of a move: stores the source and recomputes the line it
     * feeds. Recomputed tiles come out unmarked, the rest keep their state.
     */
    method ApplySource(src: Cell)
      requires Valid()
      requires src.Source? && IsSourcePos(height, width, src.row, src.col)
      modifies board
      ensures Layout() && Diffused()
      ensures board[src.row, src.col] == src
      ensures forall i, j :: IsInterior(height, width, i, j) ==>
        board[i, j] == if InLine(height, width, src.row, src.col, i, j) then NewTile(Some(RecalcAt(i, j))) else old(board[i, j])
      ensures forall i, j :: InBounds(height, width, i, j) && !IsInterior(height, width, i, j) && (i != src.row || j != src.col) ==>
        board[i, j] == old(board[i, j])
      ensures forall i, j :: IsInterior(height, width, i, j) && board[i, j].isClosest ==> closest == At(i, j)
    {
      StoreSource(src);
      forall i, j | IsInterior(height, width, i, j) && !InLine(height, width, src.row, src.col, i, j)
        ensures board[i, j].rgb == RecalcAt(i, j)
      {
        assert board[i, 0] == old(board[i, 0]) && board[i, width - 1] == old(board[i, width - 1]);
        assert board[0, j] == old(board[0, j]) && board[height - 1, j] == old(board[height - 1, j]);
      }
      forall i, j | IsInterior(height, width, i, j) && board[i, j].isClosest
        ensures closest == At(i, j)
      {
        assert !InLine(height, width, src.row, src.col, i, j);
      }
    }

    /**
     * The second half of a move (src/Main.tsx:135-148): the program's scan,
     * then the marker moves to its answer. Only the markers change. When the
     * scan keeps its black starting value, no tile is marked afterwards.
     */
    method Rescan()
      requires Shaped() && Layout() && Diffused()
      requires closest.At? ==> IsInterior(height, width, closest.i, closest.j)
      requires forall i, j :: IsInterior(height, width, i, j) && board[i, j].isClosest ==> closest == At(i, j)
      modifies this`closest, board
      ensures Layout() && Diffused() && Marked()
      ensures IsScanResult(closest)
      ensures forall i, j :: IsInterior(height, width, i, j) ==> board[i, j] == Tile(old(board[i, j].rgb), closest == At(i, j))
      ensures forall i, j :: InBounds(height, width, i, j) && !IsInterior(height, width, i, j) ==> board[i, j] == old(board[i, j])
    {
      var next := FindClosest();
      if next.At? {
        ScanBeats(next, next.i, next.j);
      }
      label Scanned:
      MoveMarker(next);
      ScanFramed@Scanned(next);
    }

    /** Rescan with the corrected scan, FindClosestTile, in place of the program's. */
    method RescanCorrected()
      requires Shaped() && Layout() && Diffused()
      requires closest.At? ==> IsInterior(height, width, closest.i, closest.j)
      requires forall i, j :: IsInterior(height, width, i, j) && board[i, j].isClosest ==> closest == At(i, j)
      modifies this`closest, board
      ensures Layout() && Diffused() && Marked()
      ensures IsNearestTile(closest)
      ensures forall i, j :: IsInterior(height, width, i, j) ==> board[i, j] == Tile(old(board[i, j].rgb), closest == At(i, j))
      ensures forall i, j :: InBounds(height, width, i, j) && !IsInterior(height, width, i, j) ==> board[i, j] == old(board[i, j])
    {
      var next := FindClosestTile();
      label Scanned:
      MoveMarker(next);
      NearestFramed@Scanned(next);
    }

    /** The board half of MoveDone: what a move does to the cells' colours and kinds. */
    twostate predicate CellsMoved(src: Cell)
      reads board
      requires Shaped() && src.Source? && IsSourcePos(height, width, src.row, src.col)
    {
      && board[src.row, src.col] == src
      && (forall i, j :: IsInterior(height, width, i, j) && !InLine(height, width, src.row, src.col, i, j) ==>
            board[i, j].rgb == old(board[i, j].rgb))
      && (forall i, j :: InBounds(height, width, i, j) && !IsInterior(height, width, i, j) && (i != src.row || j != src.col) ==>
            board[i, j] == old(board[i, j]))
    }

    /**
     * The board part of a move: the source is stored, its line recomputed and
     * the marker moved to the answer of the program's scan, or of the
     * corrected one when `corrected` holds.
     */
    method MoveCells(src: Cell, corrected: bool)
      requires Valid()
      requires src.Source? && IsSourcePos(height, width, src.row, src.col)
      modifies this`closest, board
      ensures Valid()
      ensures if corrected then IsNearestTile(closest) else IsScanResult(closest)
      ensures old(Ranged()) && InRange(src.rgb) ==> Ranged()
      ensures CellsMoved(src)
    {
      ApplySource(src);
      if corrected {
        RescanCorrected();
      } else {
        Rescan();
      }
      if old(Ranged()) && InRange(src.rgb) {
        RangeKept(src);
      }
    }

    /**
     * `processMove`'s post-state (src/Main.tsx:117-170): the source is stored,
     * no other border cell changes, tiles off the recomputed line keep their
     * colours, and the won flag, budget and dialogs follow the end-of-move
     * rules for the tracked tile. Together with Valid() this fixes every cell
     * (see MoveBoard); which tile is tracked is stated beside it.
     */
    twostate predicate MoveDone(src: Cell, acceptWin: bool, acceptLoss: bool, prompt: Prompt, restart: bool)
      reads this, board
      requires Shaped() && src.Source? && IsSourcePos(height, width, src.row, src.col)
    {
      && CellsMoved(src)
      && (closest.At? ==> IsInterior(height, width, closest.i, closest.j))
      && var t := EndTurn(old(won), old(moves), CloseEnough(target, ColorOf(closest)), acceptWin, acceptLoss);
         won == t.won && moves == t.moves && prompt == t.prompt && restart == t.restart
    }

    /**
     * After a move every interior cell is a Tile whose colour is recomputed
     * on the source's line and kept elsewhere, marked exactly when it is the
     * tracked one.
     */
    twostate lemma MoveBoard(src: Cell, acceptWin: bool, acceptLoss: bool, prompt: Prompt, restart: bool, i: int, j: int)
      requires Valid() && src.Source? && IsSourcePos(height, width, src.row, src.col)
      requires MoveDone(src, acceptWin, acceptLoss, prompt, restart)
      requires IsInterior(height, width, i, j)
      ensures board[i, j] == Tile(if InLine(height, width, src.row, src.col, i, j) then RecalcAt(i, j) else old(board[i, j].rgb),
                                  closest == At(i, j))
    {
      assert InBounds(height, width, i, j);
    }

    /**
     * `processMove(src)`: stores the source, recomputes its row or column,
     * rescans for the closest tile, moves the marker, then settles the won
     * flag and the budget. `acceptWin` and `acceptLoss` are the answers to the
     * two dialogs; `restart` asks the caller to start a new session.
     */
    method ProcessMove(src: Cell, acceptWin: bool, acceptLoss: bool) returns (prompt: Prompt, restart: bool)
      requires Valid()
      requires src.Source? && IsSourcePos(height, width, src.row, src.col)
      modifies this`moves, this`won, this`closest, board
      ensures Valid()
      ensures IsScanResult(closest)
      ensures old(Ranged()) && InRange(src.rgb) ==> Ranged()
      ensures MoveDone(src, acceptWin, acceptLoss, prompt, restart)
    {
      MoveCells(src, false);
      prompt, restart := SettleTurn(acceptWin, acceptLoss);
    }

    /** ProcessMove with the corrected scan: the tracker is then the nearest tile. */
    method ProcessMoveCorrected(src: Cell, acceptWin: bool, acceptLoss: bool) returns (prompt: Prompt, restart: bool)
      requires Valid()
      requires src.Source? && IsSourcePos(height, width, src.row, src.col)
      modifies this`moves, this`won, this`closest, board
      ensures Valid()
      ensures IsNearestTile(closest)
      ensures old(Ranged()) && InRange(src.rgb) ==> Ranged()
      ensures MoveDone(src, acceptWin, acceptLoss, prompt, restart)
    {
      MoveCells(src, true);
      prompt, restart := SettleTurn(acceptWin, acceptLoss);
    }

    /** A move that stores an in-range source and keeps the other border cells keeps the colour range. */
    twostate lemma RangeKept(src: Cell)
      requires Shaped() && old(Ranged()) && InRange(src.rgb)
      requires src.Source? && IsSourcePos(height, width, src.row, src.col) && board[src.row, src.col] == src
      requires forall i, j :: InBounds(height, width, i, j) && !IsInterior(height, width, i, j) && (i != src.row || j != src.col) ==>
        board[i, j] == old(board[i, j])
      requires queue == old(queue) && selected == old(selected)
      ensures Ranged()
    {
    }

    /**
     * The end of `processMove`: settles the won flag, the budget and the
     * dialogs from the closest tile's distance.
     */
    method SettleTurn(acceptWin: bool, acceptLoss: bool) returns (prompt: Prompt, restart: bool)
      requires Shaped() && moves >= 0 && (closest.At? ==> IsInterior(height, width, closest.i, closest.j))
      modifies this`moves, this`won
      ensures moves >= 0
      ensures var t := EndTurn(old(won), old(moves), CloseEnough(target, ColorOf(closest)), acceptWin, acceptLoss);
        won == t.won && moves == t.moves && prompt == t.prompt && restart == t.restart
    {
      var t := EndTurn(won, moves, CloseEnough(target, ColorOf(closest)), acceptWin, acceptLoss);
      won, moves := t.won, t.moves;
      prompt, restart := t.prompt, t.restart;
    }

    /**
     * `sourceClick` on the Source at (i, j): pops the next of the three
     * starting colours; with one left, gives it to the source and runs a
     * move, otherwise does nothing at all.
     */
    method SourceClick(i: int, j: int, acceptWin: bool, acceptLoss: bool) returns (prompt: Prompt, restart: bool)
      requires Valid() && IsSourcePos(height, width, i, j)
      modifies this`queue, this`moves, this`won, this`closest, board
      ensures Valid()
      ensures queue == Pop(old(queue)).1
      ensures old(Ranged()) ==> Ranged()
      ensures Pop(old(queue)).0.None? ==>
        unchanged(this) && unchanged(board) && prompt == NoPrompt && !restart
      ensures Pop(old(queue)).0.Some? ==>
        IsScanResult(closest) && MoveDone(SetColors(old(board[i, j]), Pop(old(queue)).0.value), acceptWin, acceptLoss, prompt, restart)
    {
      var (c, rest) := Pop(queue);
      match c
      case None =>
        prompt, restart := NoPrompt, false;
      case Some(rgb) =>
        queue := rest;
        assert InBounds(height, width, i, j);
        prompt, restart := ProcessMove(SetColors(board[i, j], rgb), acceptWin, acceptLoss);
    }

    /**
     * `sourceUpdate` on the Source at (i, j), the drop end of a drag: with a
     * tile selected, clears the selection, gives the source that tile's
     * colour and runs a move; with none, does nothing at all.
     */
    method SourceUpdate(i: int, j: int, acceptWin: bool, acceptLoss: bool) returns (prompt: Prompt, restart: bool)
      requires Valid() && IsSourcePos(height, width, i, j)
      modifies this`selected, this`moves, this`won, this`closest, board
      ensures Valid()
      ensures selected == None
      ensures old(Ranged()) ==> Ranged()
      ensures old(selected).None? ==>
        unchanged(this) && unchanged(board) && prompt == NoPrompt && !restart
      ensures old(selected).Some? ==>
        IsScanResult(closest) && MoveDone(SetColors(old(board[i, j]), old(selected).value), acceptWin, acceptLoss, prompt, restart)
    {
      match selected
      case None =>
        prompt, restart := NoPrompt, false;
      case Some(rgb) =>
        selected := None;
        assert InBounds(height, width, i, j);
        prompt, restart := ProcessMove(SetColors(board[i, j], rgb), acceptWin, acceptLoss);
    }

    /** The start of a drag: remembers the colour of the Tile at (i, j). */
    method SelectTile(i: int, j: int)
      requires Valid() && InBounds(height, width, i, j) && board[i, j].Tile?
      modifies this`selected
      ensures selected == Some(board[i, j].rgb)
      ensures old(Ranged()) ==> Ranged()
    {
      if Ranged() {
        Partition(height, width, i, j);
        assert CellFits(height, width, i, j, board[i, j]);
        InteriorInRange(i, j);
      }
      selected := Some(board[i, j].rgb);
    }

    /** The end of a drag: forgets the selection. */
    method ClearSelection()
      modifies this`selected
      ensures selected == None
      ensures Shaped() ==> (old(Ranged()) ==> Ranged())
    {
      selected := None;
    }
  }
}
