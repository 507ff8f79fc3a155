/**
 * What the autosave code reads from the game it is loaded into: the
 * integer widths of its C++ types, the game-mode identifiers and the
 * simulator's mode and space-context queries. The game itself is not
 * modelled; its answers are plain values handed to the model.
 */
module Host {
  /** A C++ `int` (32 bits on the 32-bit game process). */
  type int32 = x: int | -0x8000_0000 <= x < 0x8000_0000

  /** A C++ `uint32_t`, used for message and window identifiers. */
  type uint32 = x: int | 0 <= x < 0x1_0000_0000

  /** `size_t` is 32 bits wide in the 32-bit game process. */
  const SizeTModulus: int := 0x1_0000_0000

  /**
   * The implicit conversion of an `int` to `size_t`: a non-negative
   * value is kept, a negative one wraps around modulo 2^32.
   */
  function SizeT(m: int32): (r: nat)
    ensures r < SizeTModulus
    ensures 0 <= m ==> r == m
    ensures m < 0 ==> r >= 0x8000_0000 && r % SizeTModulus == m % SizeTModulus
  {
    if m >= 0 then m else m + SizeTModulus
  }

  /**
   * The identifier of a game mode, as handed to `OnModeEntered`. The five
   * playable stages are told apart; every other mode (editors, menus,
   * loading screens, ...) is some other identifier.
   */
  datatype GameMode = Cell | Creature | Tribe | Civ | Space | OtherMode(id: uint32)

  /**
   * The answers of the simulator's queries at one instant:
   * `IsLoadingGameMode`, `IsCellGame`, `IsCreatureGame`, `IsTribeGame`,
   * `IsCivGame`, `IsSpaceGame`, and whether `GetCurrentContext()` is the
   * planet context of the space stage.
   */
  datatype GameStatus = GameStatus(
    isLoading: bool,
    isCell: bool,
    isCreature: bool,
    isTribe: bool,
    isCiv: bool,
    isSpace: bool,
    onPlanet: bool)
}
