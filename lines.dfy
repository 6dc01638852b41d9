/**
 * What the win scans decide, stated over the tile sequence of an n-by-n board laid
 * out with stride n (the layout of `Boards.ToIndex` on a square board).
 */
module Lines {
  import opened Tiles
  import Arith

  predicate Grid(t: seq<Tile>, n: nat) {
    |t| == n * n
  }

  /** The tile at (row, column). */
  function Cell(t: seq<Tile>, n: nat, row: nat, column: nat): Tile
    requires Grid(t, n) && row < n && column < n
  {
    Arith.CellInGrid(n, row, column);
    t[n * row + column]
  }

  /**
   * The tile at flat index i, where the one index past the end (read by the row scan
   * after the last row) yields a sentinel that equals no mark.
   */
  function TileOrSentinel(t: seq<Tile>, i: nat): Tile {
    if i < |t| then t[i] else Unclaimed
  }

  /** Every tile of row r holds the same claimed mark. */
  predicate RowUniform(t: seq<Tile>, n: nat, r: nat)
    requires Grid(t, n) && r < n
  {
    Cell(t, n, r, 0) != Unclaimed && forall c :: 0 <= c < n ==> Cell(t, n, r, c) == Cell(t, n, r, 0)
  }

  /** Every tile of column c holds the same claimed mark. */
  predicate ColUniform(t: seq<Tile>, n: nat, c: nat)
    requires Grid(t, n) && c < n
  {
    Cell(t, n, 0, c) != Unclaimed && forall r :: 0 <= r < n ==> Cell(t, n, r, c) == Cell(t, n, 0, c)
  }

  /**
   * The condition under which the row scan of check_horizontal_win reports row r:
   * its first tile is claimed, the other tiles of the row repeat it, and the tile
   * just after the row (the next row's first tile, or the sentinel) does not.
   */
  predicate RowReported(t: seq<Tile>, n: nat, r: nat)
    requires Grid(t, n) && r < n
  {
    Cell(t, n, r, 0) != Unclaimed &&
    (forall c :: 1 <= c < n ==> Cell(t, n, r, c) == Cell(t, n, r, 0)) &&
    TileOrSentinel(t, n * r + n) != Cell(t, n, r, 0)
  }

  /** The lowest row at or after `from` that the row scan reports. */
  function FirstReportedRow(t: seq<Tile>, n: nat, from: nat): (r: Option)
    requires Grid(t, n)
    decreases n - from
    ensures r.Some? ==> from <= r.value < n && RowReported(t, n, r.value)
    ensures r.Some? ==> forall k :: from <= k < r.value ==> !RowReported(t, n, k)
    ensures r.None? ==> forall k :: from <= k < n ==> !RowReported(t, n, k)
  {
    if from >= n then None
    else if RowReported(t, n, from) then Some(from)
    else FirstReportedRow(t, n, from + 1)
  }

  /** The lowest column at or after `from` whose tiles all hold one claimed mark. */
  function FirstUniformColumn(t: seq<Tile>, n: nat, from: nat): (c: Option)
    requires Grid(t, n)
    decreases n - from
    ensures c.Some? ==> from <= c.value < n && ColUniform(t, n, c.value)
    ensures c.Some? ==> forall k :: from <= k < c.value ==> !ColUniform(t, n, k)
    ensures c.None? ==> forall k :: from <= k < n ==> !ColUniform(t, n, k)
  {
    if from >= n then None
    else if ColUniform(t, n, from) then Some(from)
    else FirstUniformColumn(t, n, from + 1)
  }

  datatype Option = None | Some(value: nat)

  /** check_win on values: the row scan first, then the column scan, else `w` untouched. */
  function CheckWinResult(t: seq<Tile>, n: nat, w: Winner): (r: Winner)
    requires Grid(t, n)
    ensures r == w || (r.player != NoPlayer && r.index < n && (r.kind == Horizontal || r.kind == Vertical))
  {
    match FirstReportedRow(t, n, 0)
    case Some(r) => Winner(PlayerOf(Cell(t, n, r, 0)), Horizontal, r)
    case None =>
      match FirstUniformColumn(t, n, 0)
      case Some(c) => Winner(PlayerOf(Cell(t, n, 0, c)), Vertical, c)
      case None => w
  }

  /** Soundness of the row scan: a reported row is uniform. */
  lemma ReportedRowIsUniform(t: seq<Tile>, n: nat, r: nat)
    requires Grid(t, n) && r < n
    ensures RowReported(t, n, r) ==> RowUniform(t, n, r)
  {
  }

  /**
   * The row scan's exact reach: a uniform row is reported if and only if the tile
   * after it does not carry the same mark.
   */
  lemma UniformRowReportedIff(t: seq<Tile>, n: nat, r: nat)
    requires Grid(t, n) && r < n && RowUniform(t, n, r)
    ensures RowReported(t, n, r) <==> TileOrSentinel(t, n * r + n) != Cell(t, n, r, 0)
  {
  }

  /** The last row is followed by the sentinel, so there the scan is exact. */
  lemma LastRowReportedIffUniform(t: seq<Tile>, n: nat)
    requires Grid(t, n) && n > 0
    ensures RowReported(t, n, n - 1) <==> RowUniform(t, n, n - 1)
  {
    assert n * (n - 1) + n == n * n;
  }

  /**
   * What check_win leaves in a fresh winner record: either nothing (no reported row,
   * no uniform column), or a uniform line with the player its mark stands for.
   */
  lemma {:induction false} CheckWinSound(t: seq<Tile>, n: nat, w: Winner)
    requires Grid(t, n) && w.player == NoPlayer
    ensures var v := CheckWinResult(t, n, w);
      v.player != NoPlayer ==>
        (v.kind == Horizontal && v.index < n && RowUniform(t, n, v.index) &&
         v.player == PlayerOf(Cell(t, n, v.index, 0))) ||
        (v.kind == Vertical && v.index < n && ColUniform(t, n, v.index) &&
         v.player == PlayerOf(Cell(t, n, 0, v.index)))
    ensures var v := CheckWinResult(t, n, w);
      v.player == NoPlayer ==>
        v == w && (forall r :: 0 <= r < n ==> !RowReported(t, n, r)) &&
        (forall c :: 0 <= c < n ==> !ColUniform(t, n, c))
  {
    var v := CheckWinResult(t, n, w);
    if FirstReportedRow(t, n, 0).Some? {
      ReportedRowIsUniform(t, n, v.index);
    }
  }

  /** Completeness for columns: a uniform column always ends the game. */
  lemma {:induction false} CheckWinFindsColumn(t: seq<Tile>, n: nat, w: Winner, c: nat)
    requires Grid(t, n) && c < n && ColUniform(t, n, c)
    ensures CheckWinResult(t, n, w).player != NoPlayer
    ensures FirstReportedRow(t, n, 0).None? ==>
              var v := CheckWinResult(t, n, w);
              v.kind == Vertical && v.index <= c && v.index < n && ColUniform(t, n, v.index) &&
              forall k :: 0 <= k < v.index ==> !ColUniform(t, n, k)
  {
    var first := FirstUniformColumn(t, n, 0);
    assert first.Some?;
  }

  /**
   * The row scan's blind spot: X holds all of row 0, but the tile after it (row 1,
   * column 0) is also X, and check_win finds no winner on this 3x3 board.
   */
  lemma UniformRowMissed()
    ensures var t := [XSpace, XSpace, XSpace, XSpace, OSpace, OSpace, OSpace, XSpace, OSpace];
      Grid(t, 3) && RowUniform(t, 3, 0) &&
      CheckWinResult(t, 3, Winner(NoPlayer, Horizontal, 0)).player == NoPlayer
  {
    var t := [XSpace, XSpace, XSpace, XSpace, OSpace, OSpace, OSpace, XSpace, OSpace];
    assert Cell(t, 3, 1, 1) != Cell(t, 3, 1, 0);
    assert Cell(t, 3, 2, 1) != Cell(t, 3, 2, 0);
    assert FirstReportedRow(t, 3, 0) == None;
    assert Cell(t, 3, 2, 0) != Cell(t, 3, 0, 0);
    assert Cell(t, 3, 1, 1) != Cell(t, 3, 0, 1);
    assert Cell(t, 3, 1, 2) != Cell(t, 3, 0, 2);
    assert FirstUniformColumn(t, 3, 0) == None;
  }

  /**
   * X at (0,0), (0,1), (0,2) and O at (1,1), (2,2): row 0 is reported for X.
   */
  lemma TopRowScenario()
    ensures var t := [XSpace, XSpace, XSpace, Unclaimed, OSpace, Unclaimed, Unclaimed, Unclaimed, OSpace];
      Grid(t, 3) && CheckWinResult(t, 3, Winner(NoPlayer, Horizontal, 0)) == Winner(X, Horizontal, 0)
  {
    var t := [XSpace, XSpace, XSpace, Unclaimed, OSpace, Unclaimed, Unclaimed, Unclaimed, OSpace];
    assert RowReported(t, 3, 0);
  }

  /** On a 1x1 board a claimed tile is a uniform column, and the row scan reports it first. */
  lemma OneByOneBoardWins(m: Tile)
    requires m != Unclaimed
    ensures FirstUniformColumn([m], 1, 0) == Some(0)
    ensures CheckWinResult([m], 1, Winner(NoPlayer, Horizontal, 0)) == Winner(PlayerOf(m), Horizontal, 0)
  {
    assert Cell([m], 1, 0, 0) == m;
    assert RowReported([m], 1, 0);
  }
}
