/** The records the game passes around: cells, boards, difficulty configurations
    and the score record produced on a win. */
module Types {

  datatype Option<T> = None | Some(value: T)

  /** The three difficulty names a player can choose. */
  datatype Difficulty = Easy | Medium | Hard

  /** Board dimensions and mine count for one difficulty. */
  datatype DifficultyConfig = DifficultyConfig(rows: nat, cols: nat, mines: nat)

  /** One square of the board. `adjacentMines` is only meaningful on a non-mine cell. */
  datatype Cell = Cell(isMine: bool, isRevealed: bool, isFlagged: bool, adjacentMines: nat)

  /** A board is addressed board[row][col], rows first. */
  type Board = seq<seq<Cell>>

  /** A finished-game record handed to the score store on a win (its timestamp is not modelled). */
  datatype GameScore = GameScore(difficulty: Difficulty, time: nat)
}
