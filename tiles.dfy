/** The value types shared by the board, the win checks and the game loop. */
module Tiles {

  /** 2^32: unsigned int counters and indices wrap at this value. */
  const U32: int := 0x1_0000_0000

  /** tile_type: what a board cell holds. */
  datatype Tile = Unclaimed | XSpace | OSpace

  /** cursor_move_dir: one decoded key press. */
  datatype Direction = Up | Down | Left | Right | Confirm | Invalid

  /** winning_player: `Draw` is declared by the game but never produced. */
  datatype WinningPlayer = NoPlayer | Draw | X | O

  /** win_type: `Diagonal` is declared by the game but never produced. */
  datatype WinType = Horizontal | Vertical | Diagonal

  /** The `winner` record the win checks write into. */
  datatype Winner = Winner(player: WinningPlayer, kind: WinType, index: nat)

  /** The mark the player to move writes on confirm. */
  function Mark(isOnFirstPlayer: bool): (m: Tile)
    ensures m != Unclaimed
    ensures (m == XSpace) == isOnFirstPlayer
  {
    if isOnFirstPlayer then XSpace else OSpace
  }

  /** The player a winning line's mark stands for (any mark other than x counts as o). */
  function PlayerOf(mark: Tile): (p: WinningPlayer)
    ensures p == X || p == O
    ensures (p == X) == (mark == XSpace)
  {
    if mark == XSpace then X else O
  }
}
