/** check_horizontal_win, check_vertical_win and check_win: early-exit scans over the tile array. */
module WinCheck {
  import opened Tiles
  import opened Lines
  import Arith
  import Boards

  /** The boards the scans are defined on: square, with every counter inside unsigned int. */
  ghost predicate Scannable(b: Boards.Board)
    reads b
  {
    b.Valid() && b.IsSquare() && b.CountersFit()
  }

  /**
   * check_horizontal_win. Row by row, the inner loop runs one step past the row; the
   * step past the last row lands on index tileSize, which reads the sentinel.
   */
  method CheckHorizontalWin(b: Boards.Board, w: Winner) returns (found: bool, w': Winner)
    requires Scannable(b)
    ensures Grid(b.tiles[..], b.rows)
    ensures found <==> exists r :: 0 <= r < b.rows && RowReported(b.tiles[..], b.rows, r)
    ensures found ==>
      w'.kind == Horizontal && w'.index < b.rows &&
      RowReported(b.tiles[..], b.rows, w'.index) &&
      (forall r :: 0 <= r < w'.index ==> !RowReported(b.tiles[..], b.rows, r)) &&
      w'.player == PlayerOf(Cell(b.tiles[..], b.rows, w'.index, 0))
    ensures !found ==> w' == w
  {
    ghost var t := b.tiles[..];
    ghost var n := b.rows;
    assert Grid(t, n);
    var row := 0;
    while row < b.rows
      invariant row <= n
      invariant forall k :: 0 <= k < row ==> !RowReported(t, n, k)
    {
      Arith.CellInGrid(n, row, 0);
      var offset := b.rows * row;
      var firstTile := b.tiles[offset];
      var win := true;
      if firstTile != Unclaimed {
        var column := offset + 1;
        while column <= offset + b.columns
          invariant offset + 1 <= column <= offset + n + 1
          invariant win
          invariant forall j :: offset < j < column ==> TileOrSentinel(t, j) == firstTile
        {
          // the one read past the array's end sees the sentinel
          var tile := if column < b.tiles.Length then b.tiles[column] else Unclaimed;
          if tile == Unclaimed {
            break;
          }
          win := win && tile == firstTile;
          if !win {
            break;
          }
          column := column + 1;
        }
        RowScanVerdict(t, n, row, column);
        if column == offset + b.columns {
          return true, Winner(PlayerOf(firstTile), Horizontal, row);
        }
      }
      row := row + 1;
    }
    return false, w;
  }

  /** Where the inner loop of the row scan stops decides whether row `row` is reported. */
  lemma RowScanVerdict(t: seq<Tile>, n: nat, row: nat, column: nat)
    requires Grid(t, n) && row < n && n * row + n <= |t|
    requires t[n * row] != Unclaimed
    requires n * row + 1 <= column <= n * row + n + 1
    requires forall j :: n * row < j < column ==> TileOrSentinel(t, j) == t[n * row]
    requires column == n * row + n + 1 || TileOrSentinel(t, column) != t[n * row]
    ensures column == n * row + n <==> RowReported(t, n, row)
  {
    assert Cell(t, n, row, 0) == t[n * row];
    assert forall c :: 0 <= c < n ==> Cell(t, n, row, c) == TileOrSentinel(t, n * row + c);
    if column < n * row + n {
      assert Cell(t, n, row, column - n * row) != Cell(t, n, row, 0);
    }
  }

  /**
   * check_vertical_win. Column by column, the inner loop walks down the column with
   * stride `rows`; the column wins when the walk runs past `end_idx` with every tile
   * equal to the column's claimed first tile.
   */
  method CheckVerticalWin(b: Boards.Board, w: Winner) returns (found: bool, w': Winner)
    requires Scannable(b)
    ensures Grid(b.tiles[..], b.rows)
    ensures found <==> exists c :: 0 <= c < b.rows && ColUniform(b.tiles[..], b.rows, c)
    ensures found ==>
      w'.kind == Vertical && w'.index < b.rows &&
      ColUniform(b.tiles[..], b.rows, w'.index) &&
      (forall c :: 0 <= c < w'.index ==> !ColUniform(b.tiles[..], b.rows, c)) &&
      w'.player == PlayerOf(Cell(b.tiles[..], b.rows, 0, w'.index))
    ensures !found ==> w' == w
  {
    ghost var t := b.tiles[..];
    ghost var n := b.rows;
    assert Grid(t, n);
    var column := 0;
    while column < b.columns
      invariant column <= n
      invariant forall k :: 0 <= k < column ==> !ColUniform(t, n, k)
    {
      Arith.CellInGrid(n, 0, column);
      assert Cell(t, n, 0, column) == b.tiles[column];
      var firstTile := b.tiles[column];
      var win := true;
      if firstTile != Unclaimed {
        var endIdx := column + b.rows * (b.columns - 1);
        var row := column + b.rows;
        ghost var k := 1;
        while row <= endIdx
          invariant 1 <= k <= n
          invariant row == column + n * k
          invariant win
          invariant forall i :: 0 <= i < k ==> Cell(t, n, i, column) == firstTile
        {
          ColumnStep(t, n, column, k);
          var tile := b.tiles[row];
          win := win && tile == firstTile;
          if tile == Unclaimed {
            break;
          }
          if !win {
            break;
          }
          row := row + b.rows;
          k := k + 1;
        }
        ColumnScanVerdict(t, n, column, k, win);
        if win && row - b.rows == endIdx {
          return true, Winner(PlayerOf(firstTile), Vertical, column);
        }
      }
      column := column + 1;
    }
    return false, w;
  }

  /** A step of the column walk: while the walk is within the column, `row` is the tile (k, column). */
  lemma ColumnStep(t: seq<Tile>, n: nat, column: nat, k: nat)
    requires Grid(t, n) && column < n && 1 <= k
    ensures column + n * k <= column + n * (n - 1) ==>
              k < n && column + n * k < |t| && Cell(t, n, k, column) == t[column + n * k]
    ensures n * (k + 1) == n * k + n
  {
    Arith.MulLeIff(n, k, n - 1);
    Arith.CellInGridWhenInRange(n, k, column);
  }

  /**
   * Where the column walk stops decides the verdict: it runs past `end_idx` with `win`
   * still set exactly when every tile of the column equals its first.
   */
  lemma ColumnScanVerdict(t: seq<Tile>, n: nat, column: nat, k: nat, win: bool)
    requires Grid(t, n) && column < n && 1 <= k <= n
    requires Cell(t, n, 0, column) != Unclaimed
    requires forall i :: 0 <= i < k ==> Cell(t, n, i, column) == Cell(t, n, 0, column)
    requires column + n * k <= column + n * (n - 1) ==> !win && Cell(t, n, k, column) != Cell(t, n, 0, column)
    requires column + n * k > column + n * (n - 1) ==> win
    ensures win && column + n * k - n == column + n * (n - 1) <==> ColUniform(t, n, column)
  {
    Arith.MulLeIff(n, k, n - 1);
    assert n * k - n == n * (k - 1);
    if k >= 2 { Arith.MulLeIff(n, k - 1, n - 2); }
  }

  /** check_win: the row scan, and the column scan only when the row scan found nothing. */
  method CheckWin(b: Boards.Board, w: Winner) returns (w': Winner)
    requires Scannable(b)
    ensures Grid(b.tiles[..], b.rows)
    ensures w' == CheckWinResult(b.tiles[..], b.rows, w)
  {
    var found;
    found, w' := CheckHorizontalWin(b, w);
    if found {
      return;
    }
    found, w' := CheckVerticalWin(b, w);
  }
}
