/** The game loop: its mutable state and the body it runs for each key event. */
module Engine {
  import opened Tiles
  import opened Lines
  import opened Input
  import Boards
  import Cursors
  import WinCheck

  class Game {
    var board: Boards.Board
    var cursor: Cursors.Cursor
    var isOnFirstPlayer: bool
    var maybeWin: Winner

    /** A square board every scan is defined on, with the cursor on one of its tiles. */
    ghost predicate Valid()
      reads this, board, cursor
    {
      WinCheck.Scannable(board) &&
      cursor.row < board.rows && cursor.column < board.columns
    }

    /** The tiles as a sequence. */
    ghost function Cells(): seq<Tile>
      reads this, board, board.tiles
    {
      board.tiles[..]
    }

    /** The whole state of `loop` as a value. */
    ghost function State(): GameState
      reads this, board, board.tiles, cursor
    {
      GameState(board.tiles[..], cursor.At(), isOnFirstPlayer, maybeWin)
    }

    /**
     * The set-up at the head of `loop`: cursor on (0, 0), first player (X) to move,
     * no winner. The source leaves the record's kind uninitialised; here it is Horizontal.
     */
    constructor (b: Boards.Board)
      requires WinCheck.Scannable(b) && b.rows > 0
      ensures Valid() && board == b && fresh(cursor)
      ensures cursor.At() == Cursors.Position(0, 0)
      ensures isOnFirstPlayer && maybeWin == Winner(NoPlayer, Horizontal, 0)
    {
      board := b;
      cursor := new Cursors.Cursor();
      isOnFirstPlayer := true;
      maybeWin := Winner(NoPlayer, Horizontal, 0);
    }

    /**
     * One pass of the loop body for the event `event`. Returns true when the loop
     * breaks, i.e. when check_win has written a player into the winner record.
     */
    method Step(event: Direction) returns (gameOver: bool)
      requires Valid() && maybeWin.player == NoPlayer
      modifies this, board.tiles, cursor
      ensures Valid() && board == old(board) && cursor == old(cursor)
      ensures Grid(Cells(), board.rows)
      // confirm: the mover's mark overwrites the cursor tile, whatever it held
      ensures event == Confirm ==>
        Cells() == old(Cells())[Boards.ToIndex(board.rows, cursor.row, cursor.column) := Mark(old(isOnFirstPlayer))]
      ensures event == Confirm ==> maybeWin == CheckWinResult(Cells(), board.rows, old(maybeWin))
      ensures event == Confirm ==> gameOver == (maybeWin.player != NoPlayer)
      ensures event == Confirm ==> isOnFirstPlayer == (if gameOver then old(isOnFirstPlayer) else !old(isOnFirstPlayer))
      ensures event == Confirm ==> cursor.At() == old(cursor.At())
      // arrows move the cursor; nothing else changes
      ensures event != Confirm ==>
        !gameOver && Cells() == old(Cells()) && isOnFirstPlayer == old(isOnFirstPlayer) &&
        maybeWin == old(maybeWin) &&
        cursor.At() == Cursors.Moved(board.rows, board.columns, old(cursor.At()), event)
      // no takebacks: a claimed tile stays claimed
      ensures forall i :: 0 <= i < |Cells()| && old(Cells())[i] != Unclaimed ==> Cells()[i] != Unclaimed
      ensures State() == NextState(board.rows, old(State()), event)
    {
      gameOver := false;
      if event == Confirm {
        board.Claim(cursor.row, cursor.column, Mark(isOnFirstPlayer));
        maybeWin := WinCheck.CheckWin(board, maybeWin);
        if maybeWin.player != NoPlayer {
          return true;
        }
        isOnFirstPlayer := !isOnFirstPlayer;
      } else if event != Invalid {
        cursor.MoveInDirection(board, event);
      }
    }

    /**
     * The `while (1)` of `loop`, fed from the byte sequence `input`: decode an event,
     * run the body, until a winner is recorded or the input runs out.
     */
    method Run(input: seq<byte>) returns (rest: seq<byte>)
      requires Valid() && maybeWin.player == NoPlayer
      modifies this, board.tiles, cursor
      ensures Valid() && board == old(board) && cursor == old(cursor)
      ensures Outcome(State(), rest) == RunFrom(board.rows, old(State()), input)
    {
      rest := input;
      while rest != []
        invariant Valid() && board == old(board) && cursor == old(cursor)
        invariant maybeWin.player == NoPlayer
        invariant RunFrom(board.rows, old(State()), input) == RunFrom(board.rows, State(), rest)
        decreases |rest|
      {
        var decoded := ReadInput(rest);
        var gameOver := Step(decoded.event);
        rest := if decoded.consumed <= |rest| then rest[decoded.consumed..] else [];
        if gameOver {
          return;
        }
      }
    }
  }

  /** The state `loop` keeps between events. */
  datatype GameState = GameState(cells: seq<Tile>, at: Cursors.Position, isOnFirstPlayer: bool, maybeWin: Winner)

  /** A state of an n-by-n game: the board fits the scans and the cursor is on it. */
  ghost predicate StateFits(n: nat, s: GameState) {
    Grid(s.cells, n) && n < U32 && n * n + n <= U32 && Cursors.InBounds(n, n, s.at)
  }

  /** The loop body on values: what one event does to the state. */
  ghost function NextState(n: nat, s: GameState, event: Direction): (r: GameState)
    requires StateFits(n, s)
    ensures StateFits(n, r)
    ensures forall i :: 0 <= i < |s.cells| && s.cells[i] != Unclaimed ==> r.cells[i] != Unclaimed
    ensures event != Confirm ==>
              r.cells == s.cells && r.isOnFirstPlayer == s.isOnFirstPlayer && r.maybeWin == s.maybeWin
    ensures event == Confirm ==>
              r.at == s.at &&
              (forall i :: 0 <= i < |s.cells| && i != Boards.ToIndex(n, s.at.row, s.at.column) ==>
                 r.cells[i] == s.cells[i]) &&
              (r.isOnFirstPlayer == s.isOnFirstPlayer <==> r.maybeWin.player != NoPlayer)
  {
    if event == Confirm then
      var cells := s.cells[Boards.ToIndex(n, s.at.row, s.at.column) := Mark(s.isOnFirstPlayer)];
      var w := CheckWinResult(cells, n, s.maybeWin);
      GameState(cells, s.at, if w.player != NoPlayer then s.isOnFirstPlayer else !s.isOnFirstPlayer, w)
    else if event == Invalid then s
    else s.(at := Cursors.Moved(n, n, s.at, event))
  }

  /** Where a run stops: the final state and the input left unread. */
  datatype Outcome = Outcome(state: GameState, rest: seq<byte>)

  /** The loop on values: decode and step until a winner is recorded or the input is used up. */
  ghost function RunFrom(n: nat, s: GameState, input: seq<byte>): (r: Outcome)
    requires StateFits(n, s) && s.maybeWin.player == NoPlayer
    decreases |input|
    ensures |r.rest| < |input| || r.rest == input == []
    ensures r.state.maybeWin.player != NoPlayer || r.rest == []
  {
    if input == [] then Outcome(s, [])
    else
      var d := ReadInput(input);
      var next := NextState(n, s, d.event);
      var rest := if d.consumed <= |input| then input[d.consumed..] else [];
      if next.maybeWin.player != NoPlayer then Outcome(next, rest)
      else RunFrom(n, next, rest)
  }

  /**
   * A run ends with a winner recorded or the input used up, leaves a suffix of the
   * input unread, and never unclaims a tile.
   */
  lemma {:induction false} RunFromProperties(n: nat, s: GameState, input: seq<byte>)
    requires StateFits(n, s) && s.maybeWin.player == NoPlayer
    decreases |input|
    ensures var r := RunFrom(n, s, input);
      StateFits(n, r.state) && (r.state.maybeWin.player != NoPlayer || r.rest == []) &&
      |r.rest| <= |input| && input[|input| - |r.rest|..] == r.rest &&
      forall i :: 0 <= i < |s.cells| && s.cells[i] != Unclaimed ==> r.state.cells[i] != Unclaimed
  {
    if input != [] {
      var d := ReadInput(input);
      var next := NextState(n, s, d.event);
      var rest := if d.consumed <= |input| then input[d.consumed..] else [];
      assert input[|input| - |rest|..] == rest;
      if next.maybeWin.player == NoPlayer {
        RunFromProperties(n, next, rest);
        var r := RunFrom(n, next, rest);
        assert input[|input| - |r.rest|..] == rest[|rest| - |r.rest|..];
      }
    }
  }
}
