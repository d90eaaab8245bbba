/**
 * The second copy of the tile class, lib/tile.ts. It has the same fields and behaviour
 * as src/tile.ts; its `updatePosition` is a function-valued property rather than a
 * method, which is modelled here as an ordinary method. It reuses the coordinate and
 * serialised-state types of module Tiles, which have the same shape.
 */
module LibTiles {
  import opened Wrappers
  import opened Tiles

  class Tile {
    var x: int
    var y: int
    /** Assigned once, by the constructor; nothing in the program reassigns it. */
    const value: int
    var previousPosition: Option<Position>
    var mergedFrom: Option<(Tile, Tile)>

    /** `value || 2` as in src/tile.ts: 0 becomes 2, every other value is kept. */
    constructor (position: Position, value: int)
      ensures x == position.x && y == position.y
      ensures this.value == InitialValue(value)
      ensures previousPosition == None && mergedFrom == None
    {
      x := position.x;
      y := position.y;
      this.value := InitialValue(value);
      previousPosition := None;
      mergedFrom := None;
    }

    method SavePosition()
      modifies this`previousPosition
      ensures previousPosition == Some(Position(x, y))
    {
      previousPosition := Some(Position(x, y));
    }

    method UpdatePosition(position: Position)
      modifies this`x, this`y
      ensures x == position.x && y == position.y
    {
      x := position.x;
      y := position.y;
    }

    function Serialize(): (s: TileState)
      reads this
      ensures s.position == Position(x, y) && s.value == value
    {
      TileState(Position(x, y), value)
    }
  }

  /** `new Tile(s.position, s.value)` serialises back to `s` when `s.value` is not 0. */
  method Rebuild(s: TileState) returns (t: Tile)
    ensures t.Serialize() == TileState(s.position, if s.value == 0 then 2 else s.value)
    ensures s.value != 0 ==> t.Serialize() == s
  {
    t := new Tile(s.position, s.value);
  }

  /** Serialising a tile and rebuilding it restores its coordinates and (non-zero) value. */
  method SerializeRoundTrip(t: Tile) returns (u: Tile)
    requires t.value != 0
    ensures u != t
    ensures u.x == t.x && u.y == t.y && u.value == t.value
    ensures u.previousPosition == None && u.mergedFrom == None
  {
    var s := t.Serialize();
    u := new Tile(s.position, s.value);
  }
}
