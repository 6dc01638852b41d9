/** The keyboard cursor and its clamped, non-wrapping movement. */
module Cursors {
  import opened Tiles
  import Boards

  datatype Position = Position(row: nat, column: nat)

  predicate InBounds(rows: nat, columns: nat, p: Position) {
    p.row < rows && p.column < columns
  }

  function Dist(a: nat, b: nat): nat {
    if a <= b then b - a else a - b
  }

  /**
   * move_cursor_in_direction on values. The `+ 1` is unsigned int arithmetic and is
   * written with its wrap-around; it can only wrap for a cursor already off the grid.
   */
  function Moved(rows: nat, columns: nat, p: Position, move: Direction): (r: Position)
    requires rows < U32 && columns < U32 && p.row < U32 && p.column < U32
    ensures r.row < U32 && r.column < U32
    ensures InBounds(rows, columns, p) ==> InBounds(rows, columns, r)
    ensures move == Confirm || move == Invalid ==> r == p
    ensures move == Up || move == Down ==> r.column == p.column
    ensures move == Left || move == Right ==> r.row == p.row
    ensures InBounds(rows, columns, p) ==> Dist(p.row, r.row) + Dist(p.column, r.column) <= 1
    // never wraps: up/left never increase, down/right never decrease a coordinate
    ensures move == Up ==> r.row <= p.row
    ensures move == Left ==> r.column <= p.column
    ensures InBounds(rows, columns, p) && move == Down ==> r.row >= p.row
    ensures InBounds(rows, columns, p) && move == Right ==> r.column >= p.column
    // a move is refused only at the edge of the grid
    ensures InBounds(rows, columns, p) && r == p ==>
              (move == Up ==> p.row == 0) && (move == Down ==> p.row == rows - 1) &&
              (move == Left ==> p.column == 0) && (move == Right ==> p.column == columns - 1)
  {
    match move
    case Up => if p.row > 0 then p.(row := p.row - 1) else p
    case Down => if (p.row + 1) % U32 < rows then p.(row := (p.row + 1) % U32) else p
    case Left => if p.column > 0 then p.(column := p.column - 1) else p
    case Right => if (p.column + 1) % U32 < columns then p.(column := (p.column + 1) % U32) else p
    case Invalid => p
    case Confirm => p
  }

  /** Opposite moves undo each other whenever the first one is not blocked by an edge. */
  lemma OppositeMovesCancel(rows: nat, columns: nat, p: Position)
    requires rows < U32 && columns < U32 && InBounds(rows, columns, p)
    ensures p.row > 0 ==> Moved(rows, columns, Moved(rows, columns, p, Up), Down) == p
    ensures p.row + 1 < rows ==> Moved(rows, columns, Moved(rows, columns, p, Down), Up) == p
    ensures p.column > 0 ==> Moved(rows, columns, Moved(rows, columns, p, Left), Right) == p
    ensures p.column + 1 < columns ==> Moved(rows, columns, Moved(rows, columns, p, Right), Left) == p
  {
  }

  class Cursor {
    var row: nat
    var column: nat

    function At(): Position
      reads this
    {
      Position(row, column)
    }

    /** The cursor starts on the top-left tile. */
    constructor ()
      ensures At() == Position(0, 0)
    {
      row, column := 0, 0;
    }

    /** move_cursor_in_direction: updates the cursor fields in place. */
    method MoveInDirection(b: Boards.Board, move: Direction)
      requires b.Valid() && row < U32 && column < U32
      modifies this
      ensures At() == Moved(b.rows, b.columns, old(At()), move)
    {
      match move
      case Up =>
        if row > 0 { row := row - 1; }
      case Down =>
        if (row + 1) % U32 < b.rows { row := (row + 1) % U32; }
      case Left =>
        if column > 0 { column := column - 1; }
      case Right =>
        if (column + 1) % U32 < b.columns { column := (column + 1) % U32; }
      case Invalid =>
      case Confirm =>
    }
  }
}
