/**
 This module models what one frame shows: one character per cell of the
 current level, with the player's glyph on the player's own cell. The clearing
 of the terminal, the output stream and the status line are not modelled.
 */
module Rendering {
  import opened Wrappers
  import opened Tiles
  import opened Grid
  import opened Movement

  const PlayerSymbol: char := '@'

  /** The character drawn for a tile code; a code outside the enumeration is drawn as '?'. */
  function Glyph(code: int): (c: char)
    ensures c != PlayerSymbol
    ensures c in {'.', '#', '!', 'N', '?'}
  {
    if code == EMPTY then '.'
    else if code == WALL then '#'
    else if code == TREE then '!'
    else if code == NPC then 'N'
    else '?'
  }

  /** Reads a drawn character back as a tile: the inverse of Glyph on the four tiles. */
  function TileOfGlyph(c: char): (t: Option<Tile>)
    ensures t.Some? ==> c in {'.', '#', '!', 'N'}
  {
    match c
    case '.' => Some(Empty)
    case '#' => Some(Wall)
    case '!' => Some(Tree)
    case 'N' => Some(Npc)
    case _ => None
  }

  /** Every drawn cell can be read back: the glyph determines the tile, and '?' marks a code that is no tile. */
  lemma GlyphRoundTrip(code: int)
    ensures TileOfGlyph(Glyph(code)) == Decode(code)
    ensures Glyph(code) == '?' <==> Decode(code).None?
  {
  }

  /**
   The character shown for cell (x, y) of the current level: the player's glyph
   exactly on the player's cell, and elsewhere a glyph that reads back as the tile.
   */
  function CellChar(w: World, st: State, x: int, y: int): (c: char)
    requires WellShaped(w) && ValidLevel(st.level) && InGrid(x, y)
    ensures c == PlayerSymbol <==> x == st.x && y == st.y
    ensures c != PlayerSymbol ==> TileOfGlyph(c) == Decode(w[st.level][y][x])
  {
    if x == st.x && y == st.y then PlayerSymbol
    else Glyph(w[st.level][y][x])
  }

  /**
   One frame: a row of GridWidth characters for each of the GridHeight rows.
   The player's glyph appears on exactly one cell, the player's own, and every
   other cell reads back as the tile stored there.
   */
  function RenderGrid(w: World, st: State): (frame: seq<string>)
    requires WellShaped(w) && ValidLevel(st.level)
    ensures |frame| == GridHeight
    ensures forall y :: 0 <= y < GridHeight ==> |frame[y]| == GridWidth
    ensures forall y, x :: 0 <= y < GridHeight && 0 <= x < GridWidth ==>
      (frame[y][x] == PlayerSymbol <==> x == st.x && y == st.y)
    ensures forall y, x :: 0 <= y < GridHeight && 0 <= x < GridWidth && frame[y][x] != PlayerSymbol ==>
      TileOfGlyph(frame[y][x]) == Decode(w[st.level][y][x])
  {
    seq(GridHeight, y requires 0 <= y < GridHeight =>
      seq(GridWidth, x requires 0 <= x < GridWidth => CellChar(w, st, x, y)))
  }

  /** On the first frame the TREE of the first level shows as '!' at row 5, column 5, and the player as '@' at the centre. */
  lemma FirstFrame()
    ensures RenderGrid(InitialWorld(), InitialState())[5][5] == '!'
    ensures RenderGrid(InitialWorld(), InitialState())[MidRow][GridWidth / 2] == PlayerSymbol
  {
  }
}
