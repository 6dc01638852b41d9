# Terminal tic-tac-toe: board, cursor, win scans and game step in Dafny

This project models the game logic of `tictactoe.c`, a terminal tic-tac-toe on a
`rows` x `columns` grid (the program itself builds 10 x 10):

- **Board** (`board.dfy`, module `Boards`): the class `Board` holds a flat
  `array<Tile>` of `rows*columns` tiles. `make_board` is its constructor; `to_index`
  is `ToIndex`, the stride-`rows` map from (row, column) to a flat index, computed in
  unsigned int and so written with its wrap at 2^32; `piece_at` is `PieceAt` (read)
  and `Claim` (the write through its pointer).
- **Cursor** (`cursor.dfy`, module `Cursors`): the class `Cursor` with
  `MoveInDirection`, specified by the value function `Moved`, a clamped move that
  never wraps.
- **Win detection** (`wincheck.dfy`, module `WinCheck`): `CheckHorizontalWin`,
  `CheckVerticalWin` and `CheckWin` keep the source's early-exit index loops and
  return the winner record (the source writes it through a pointer, and only on a
  win). What the scans decide is stated over the tile sequence in `lines.dfy`
  (module `Lines`): `RowUniform`, `ColUniform`, `RowReported` (the exact condition
  under which the row scan reports a row), the scan functions `FirstReportedRow` and
  `FirstUniformColumn`, and `CheckWinResult`.
- **Input and game step** (`input.dfy`, `engine.dfy`): `ReadInput` decodes one event
  from a byte sequence that stands for the keyboard (LF is confirm; the CSI
  introducer `ESC [` of ECMA-48, section 5.4, followed by `A`/`B`/`C`/`D` is
  up/down/right/left; everything else is invalid). The class `Game` holds the
  state of `loop` (board, cursor, whose turn, winner record); `Step` is one pass of
  the loop body and `Run` feeds it from the byte sequence. The same loop on values
  is `NextState` (one event) and `RunFrom` (decode and step until a winner or the
  end of the input); `Step` and `Run` are proved to compute exactly these.

Shared value types are in `tiles.dfy` (module `Tiles`), multiplication facts for the
flat layout in `arith.dfy` (module `Arith`).

Behaviour of the code that the model keeps:

- The index stride is `rows`, in `to_index` and in both scans, so the layout is
  only correct on square boards (`NonSquareIndexCollision` shows two cells of a
  2 x 3 board sharing a tile). Everything that indexes requires `rows == columns`.
- The row scan reads one tile past each row, and for the last row one tile past the
  array. The model reads index `tileSize` as a sentinel `Unclaimed`: any value that
  is not the row's mark gives the same verdict. A uniform row is reported only when
  the tile after it (the first tile of the next row) does not carry the same mark
  (`UniformRowReportedIff`); `UniformRowMissed` is a 3 x 3 board where X holds a
  whole row and `check_win` finds no winner. The scan is sound
  (`ReportedRowIsUniform`); the column scan is sound and complete.
- A confirm overwrites the tile under the cursor even when it is already claimed
  (tictactoe.c:285). The values `draw` and `diagonal` are declared
  (tictactoe.c:12-13) but no code path produces them, so no diagonal is checked and
  no draw is ever declared.
- When the input runs out, `getch` returns its zero-initialised buffer, so every
  later `read_input` is `invalid` (`ExhaustedInputIsInvalid`).

## Model

| member | source | states |
|---|---|---|
| Tiles.Mark | tictactoe.c:285 | the mark written on confirm is claimed, and is `x_space` exactly when the first player moves |
| Tiles.PlayerOf | tictactoe.c:221 | a winning line's mark maps to player x exactly when it is `x_space`, to o otherwise, never to none |
| Boards.ToIndex | tictactoe.c:75-77 | the index is an unsigned int value; on a square board that fits unsigned int an in-range (row, column) maps to `rows*row + column`, inside `[0, rows*rows)` |
| Boards.ToIndexInjective | tictactoe.c:75-77 | on a square board distinct in-range cells get distinct indices |
| Boards.NonSquareIndexCollision | tictactoe.c:76 | with 2 rows, cells (0,2) and (1,0) share an index: the stride is wrong off square boards |
| Boards.Board.constructor | tictactoe.c:57-68 | the board has the given rows and columns, `tile_size = rows*columns` tiles, every one unclaimed |
| Boards.Board.PieceAt | tictactoe.c:79-82 | on a square board the tile at (row, column) is the array element `rows*row + column`, which lies inside the array |
| Boards.Board.Claim | tictactoe.c:285 | writing through `piece_at` replaces exactly tile `rows*row + column`, whatever it held, and no other |
| Cursors.Moved | tictactoe.c:163-196 | an in-bounds cursor stays in bounds; up/down change only the row and left/right only the column, by at most one, never wrapping; confirm and invalid change nothing; a move is refused only at the edge |
| Cursors.OppositeMovesCancel | tictactoe.c:170-196 | a move that is not blocked by an edge is undone by the opposite move |
| Cursors.Cursor.constructor | tictactoe.c:276-277 | the cursor starts at (0, 0) |
| Cursors.Cursor.MoveInDirection | tictactoe.c:170-196 | the cursor fields are updated in place to `Moved` of the old position |
| Input.ReadInput | tictactoe.c:144-161 | byte 10 is confirm; 27, 91, then 68/67/65/66 is left/right/up/down; every other prefix is invalid; a second byte is read only after 27 and a third only after 27, 91 |
| Input.ReadInputKeySequence | tictactoe.c:144-161 | decoding an event's key sequence, whatever follows, yields that event and consumes exactly its bytes |
| Input.ExhaustedInputIsInvalid | tictactoe.c:25-43 | with no bytes left getch yields 0, so the event is invalid after one read |
| Lines.FirstReportedRow | tictactoe.c:232-254 | the row found is reported by the row scan and no lower row is; none found means no row is reported |
| Lines.FirstUniformColumn | tictactoe.c:200-227 | the column found is uniform and no lower column is; none found means no column is uniform |
| Lines.ReportedRowIsUniform | tictactoe.c:231-255 | a row the scan reports has every tile claimed by the same mark |
| Lines.UniformRowReportedIff | tictactoe.c:238-246 | a uniform row is reported if and only if the tile after it does not carry the same mark |
| Lines.LastRowReportedIffUniform | tictactoe.c:238-246 | for the last row, followed by the sentinel, reported and uniform coincide |
| Lines.CheckWinSound | tictactoe.c:259-265 | starting from no winner, check_win either records a uniform row or column with the player of its mark, or leaves the record untouched and then no row is reported and no column is uniform |
| Lines.CheckWinResult | tictactoe.c:259-265 | the definition of check_win on values (row scan, then column scan, else the record unchanged); its contract says the record is either unchanged or names a player and a horizontal or vertical line inside the board; `CheckWinSound` and `CheckWinFindsColumn` prove its properties |
| Lines.CheckWinFindsColumn | tictactoe.c:259-265 | a uniform column always produces a winner, and when no row is reported it is the lowest uniform column |
| Lines.UniformRowMissed | tictactoe.c:238-246 | a 3 x 3 board whose top row is all X but whose next tile is X yields no winner |
| Lines.TopRowScenario | tictactoe.c:259-265 | X on the top row with O at (1,1) and (2,2) is reported as X winning horizontally at row 0 |
| Lines.OneByOneBoardWins | tictactoe.c:198-255 | on a 1 x 1 board a claimed tile is a uniform column, and check_win reports it as a row win for its mark |
| WinCheck.CheckHorizontalWin | tictactoe.c:231-255 | returns true exactly when some row is reported, then records the lowest such row with kind horizontal and its mark's player; otherwise the record is unchanged |
| WinCheck.RowScanVerdict | tictactoe.c:238-246 | where the inner row loop stops decides the verdict: at `offset + columns` exactly when the row is reported |
| WinCheck.CheckVerticalWin | tictactoe.c:198-229 | returns true exactly when some column is uniform, then records the lowest such column with kind vertical and its mark's player; otherwise the record is unchanged |
| WinCheck.ColumnScanVerdict | tictactoe.c:205-225 | the column walk ends past `end_idx` with `win` set exactly when the column is uniform |
| WinCheck.CheckWin | tictactoe.c:259-265 | the record after check_win is the row scan's result if it found one, else the column scan's, else the record as it was |
| Engine.Game.constructor | tictactoe.c:268-277 | the loop starts with the cursor at (0, 0), the first player to move and no winner |
| Engine.Game.Step | tictactoe.c:283-293 | confirm writes the mover's mark at the cursor tile and changes no other tile, runs check_win, ends the game exactly when a player was recorded and otherwise passes the turn; arrow and invalid events change only the cursor; claimed tiles stay claimed; the new state is `NextState` of the old |
| Engine.NextState | tictactoe.c:284-293 | one event on the state as a value: claimed tiles stay claimed; confirm keeps the cursor, changes no tile but the cursor's, and keeps the turn exactly when a player is recorded; other events leave tiles, turn and winner record alone |
| Engine.Game.Run | tictactoe.c:279-295 | the final state and the unread input are exactly those of `RunFrom`: each event decoded by `read_input` is stepped in order until a winner is recorded or the input is used up |
| Engine.RunFrom | tictactoe.c:279-295 | the definition of the `while (1)` loop on values: decode with `read_input`, step with `NextState`, stop when a winner is recorded; its contract says every non-empty run reads some input and ends with a winner or the input used up; `RunFromProperties` proves the rest |
| Engine.RunFromProperties | tictactoe.c:279-295 | a run ends with a winner recorded or the input used up, leaves a suffix of the input unread, and never unclaims a tile |

## Left out

- `getch` (tictactoe.c:25-43): raw-mode terminal set-up and `read(2)` are replaced by a byte sequence; a failed or empty read is the byte 0, as the zero-initialised buffer gives.
- `draw_board` and `reset_screen_for_board` (tictactoe.c:84-142): rendering only.
- The debug output to stderr in `make_board` and `check_vertical_win`: no effect on state.
- `malloc`/`free`, `free_board` and `main`: Dafny allocation replaces them; `main`'s 10 x 10 board is one instance of `Board`.
- Diagonal wins and draws: the values are declared (tictactoe.c:12-13) but nothing produces them, so there is nothing to model. An occupied tile is never refused: the code overwrites it (tictactoe.c:285), and so does the model.
- Non-square boards: indexing, the scans, `Claim` and `Game` require `rows == columns`, the only shape on which the code's stride is right.
- Plain `char` may be signed or unsigned depending on the compiler and platform; every comparison in `read_input` is with a value below 128, so modelling bytes as 0..255 gives the same events either way.
- WinCheck.CheckHorizontalWin: requires `tileSize + rows <= 2^32`, so that the unsigned int loop counters cannot wrap; larger boards are not modelled.
- WinCheck.CheckVerticalWin: the same bound on the board size.
- WinCheck.CheckWin: the same bound on the board size.
- Boards.Board.Claim: requires a square board with `rows*rows <= 2^32`, the boards on which `to_index` does not wrap for in-range cells.
- Boards.Board.PieceAt: the same requirement as `Claim`.
- Engine.Game.constructor: requires at least one row, since the cursor starts on tile (0, 0); the source would write outside an empty array.
- Engine.Game.Run: stops when the input is used up; the source keeps calling `read_input`, which then yields only `invalid` events that change nothing.
- The winner record's `kind` is left uninitialised by the source; the model starts it as horizontal, which is never read before a win.
