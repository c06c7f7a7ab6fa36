/** Constants, colours and the Option/Result wrappers shared by the game core. */
module Common {

  /** Arena slot that always holds the player. */
  const PLAYER: nat := 0

  /** Size of the map, in tiles. */
  const MAP_WIDTH: nat := 80
  const MAP_HEIGHT: nat := 43

  /** Lines the message log keeps. */
  const MSG_HEIGHT: nat := 6

  /** Parameters of the dungeon generator. */
  const ROOM_MAX_SIZE: int := 15
  const ROOM_MIN_SIZE: int := 5
  const MAX_ROOMS: nat := 30
  const MAX_ROOMS_MONSTERS: int := 3

  /** The colours the core assigns; the palette itself belongs to the renderer. */
  datatype Color = White | DarkRed | DesaturatedGreen | DarkerGreen

  datatype Option<+T> = None | Some(value: T)

  /** The ways the Rust program aborts. */
  datatype Panic =
    | IndicesEqual        // the `first_index != second_index` assertion of mut_two
    | IndexOutOfBounds    // a slice or map index outside its vector
    | SubtractOverflow    // an unsigned subtraction below zero

  datatype Result<+T> = Ok(value: T) | Err(panic: Panic)

  function Min(a: int, b: int): int { if a <= b then a else b }

  function Max(a: int, b: int): int { if a <= b then b else a }
}
