/**
 This module models the tile enumeration of the game. A grid cell stores the
 integer code of a tile, as the game's level array does, so a cell may in
 principle hold a code that is not one of the four tiles.
 */
module Tiles {
  import opened Wrappers

  /** Integer codes of the four tiles. */
  const EMPTY: int := 0
  const WALL: int := 1
  const TREE: int := 2
  const NPC: int := 3

  /** The static terrain type occupying one grid cell. */
  datatype Tile = Empty | Wall | Tree | Npc {

    /** The integer stored in a grid cell for this tile. */
    function Code(): (c: int)
      ensures 0 <= c < 4
    {
      match this
      case Empty => EMPTY
      case Wall => WALL
      case Tree => TREE
      case Npc => NPC
    }
  }

  /** Reads a cell's code back as a tile; codes outside the enumeration give None. */
  function Decode(code: int): (t: Option<Tile>)
    ensures t.Some? ==> t.value.Code() == code
    ensures t.None? ==> forall tile: Tile :: tile.Code() != code
  {
    if code == EMPTY then Some(Empty)
    else if code == WALL then Some(Wall)
    else if code == TREE then Some(Tree)
    else if code == NPC then Some(Npc)
    else None
  }

  /** Every tile survives the trip through its integer code, so distinct tiles have distinct codes. */
  lemma DecodeCode(t: Tile)
    ensures Decode(t.Code()) == Some(t)
  {
  }
}
