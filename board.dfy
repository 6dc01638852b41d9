/** The board: a flat array of rows*columns tiles addressed through `ToIndex`. */
module Boards {
  import opened Tiles
  import Arith

  /**
   * to_index: the flat index of (row, column). The stride is `rows`, not `columns`,
   * and the arithmetic is done in unsigned int, so it wraps at 2^32.
   */
  function ToIndex(rows: nat, row: nat, column: nat): (i: nat)
    ensures i < U32
    ensures row < rows && column < rows && rows * rows <= U32 ==>
              i == rows * row + column && i < rows * rows
  {
    Arith.CellInGridWhenInRange(rows, row, column);
    (rows * row + column) % U32
  }

  /** On a square board that fits unsigned int, distinct cells get distinct indices. */
  lemma ToIndexInjective(n: nat, r1: nat, c1: nat, r2: nat, c2: nat)
    requires r1 < n && c1 < n && r2 < n && c2 < n && n * n <= U32
    requires ToIndex(n, r1, c1) == ToIndex(n, r2, c2)
    ensures r1 == r2 && c1 == c2
  {
    assert ToIndex(n, r1, c1) == n * r1 + c1 && ToIndex(n, r2, c2) == n * r2 + c2;
    Arith.FlatIndexInjective(n, r1, c1, r2, c2);
  }

  /** With rows != columns the stride-`rows` layout sends two different cells to one tile. */
  lemma NonSquareIndexCollision()
    ensures ToIndex(2, 0, 2) == ToIndex(2, 1, 0)
  {
  }

  class Board {
    var tiles: array<Tile>
    var tileSize: nat
    var rows: nat
    var columns: nat

    /** rows and columns are unsigned int; the tile array holds exactly rows*columns tiles. */
    ghost predicate Valid()
      reads this
    {
      rows < U32 && columns < U32 && tileSize == rows * columns && tiles.Length == tileSize
    }

    /** The only shape on which the stride-`rows` indexing is correct. */
    predicate IsSquare()
      reads this
    {
      rows == columns
    }

    /** Every unsigned int index and loop counter of the win scans stays below 2^32. */
    predicate CountersFit()
      reads this
    {
      tileSize + rows <= U32
    }

    /** make_board: rows*columns tiles, all unclaimed. */
    constructor (rows: nat, columns: nat)
      requires rows < U32 && columns < U32
      ensures Valid() && fresh(tiles)
      ensures this.rows == rows && this.columns == columns && tileSize == rows * columns
      ensures forall i :: 0 <= i < tiles.Length ==> tiles[i] == Unclaimed
    {
      var size := rows * columns;
      var a := new Tile[size];
      var i := 0;
      while i < size
        invariant i <= size
        invariant forall k :: 0 <= k < i ==> a[k] == Unclaimed
      {
        a[i] := Unclaimed;
        i := i + 1;
      }
      this.rows, this.columns, tileSize, tiles := rows, columns, size, a;
    }

    /** piece_at, read side: the tile at (row, column). */
    function PieceAt(row: nat, column: nat): (t: Tile)
      reads this, tiles
      requires Valid() && IsSquare() && rows * rows <= U32
      requires row < rows && column < columns
      ensures rows * row + column < tiles.Length && t == tiles[rows * row + column]
    {
      assert rows * rows == tileSize;
      Arith.CellInGrid(rows, row, column);
      tiles[ToIndex(rows, row, column)]
    }

    /** piece_at, write side: overwrite the tile at (row, column), whatever it held. */
    method Claim(row: nat, column: nat, mark: Tile)
      requires Valid() && IsSquare() && rows * rows <= U32
      requires row < rows && column < columns
      modifies tiles
      ensures rows * row + column < tiles.Length
      ensures tiles[..] == old(tiles[..])[rows * row + column := mark]
    {
      assert rows * rows == tileSize;
      Arith.CellInGrid(rows, row, column);
      tiles[ToIndex(rows, row, column)] := mark;
    }
  }
}
