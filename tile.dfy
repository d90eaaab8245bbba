/**
 * The `Tile` class of src/tile.ts: one numbered piece with its position on the board,
 * the position it had before the current move and, for a tile made by a merge, the
 * two tiles it was made from.
 */
module Tiles {
  import opened Wrappers

  /** A board coordinate `{x, y}`; also used for direction vectors. */
  datatype Position = Position(x: int, y: int)

  /** `TileState`: the serialised form of a tile. */
  datatype TileState = TileState(position: Position, value: int)

  /**
   * The value a freshly constructed tile takes: `value || 2`. The only falsy
   * integer is 0, so 0 becomes 2 and every other value is kept.
   */
  function InitialValue(value: int): (r: int)
    ensures value != 0 ==> r == value
    ensures r != 0
  {
    if value == 0 then 2 else value
  }

  class Tile {
    var x: int
    var y: int
    /** Assigned once, by the constructor; nothing in the program reassigns it. */
    const value: int
    var previousPosition: Option<Position>
    /** `mergedFrom`: `null`, or the pair of tiles that merged into this one. */
    var mergedFrom: Option<(Tile, Tile)>

    constructor (position: Position, value: int)
      ensures x == position.x && y == position.y
      ensures this.value == InitialValue(value)
      ensures previousPosition == None && mergedFrom == None
    {
      x := position.x;
      y := position.y;
      this.value := InitialValue(value);
      previousPosition := None;
      mergedFrom := None;
    }

    /** Snapshot of the current coordinates into `previousPosition`. */
    method SavePosition()
      modifies this`previousPosition
      ensures previousPosition == Some(Position(x, y))
    {
      previousPosition := Some(Position(x, y));
    }

    /** Moves the tile: only `x` and `y` change. */
    method UpdatePosition(position: Position)
      modifies this`x, this`y
      ensures x == position.x && y == position.y
    {
      x := position.x;
      y := position.y;
    }

    function Serialize(): (s: TileState)
      reads this
      ensures s.position == Position(x, y) && s.value == value
    {
      TileState(Position(x, y), value)
    }
  }

  /**
   * Rebuilding a tile from its serialised form, `new Tile(s.position, s.value)`:
   * the rebuilt tile serialises back to `s` whenever `s.value` is not 0, and a value
   * of 0 comes back as 2.
   */
  method Rebuild(s: TileState) returns (t: Tile)
    ensures t.Serialize() == TileState(s.position, if s.value == 0 then 2 else s.value)
    ensures s.value != 0 ==> t.Serialize() == s
  {
    t := new Tile(s.position, s.value);
  }

  /** Serialising a tile and rebuilding it restores its coordinates and (non-zero) value. */
  method SerializeRoundTrip(t: Tile) returns (u: Tile)
    requires t.value != 0
    ensures u != t
    ensures u.x == t.x && u.y == t.y && u.value == t.value
    ensures u.previousPosition == None && u.mergedFrom == None
  {
    var s := t.Serialize();
    u := new Tile(s.position, s.value);
  }
}
