# Console Mania: a Dafny model of the playable core

Console Mania is a terminal toy. A player glyph `@` walks over two 22×22 levels
of tiles (EMPTY, WALL, TREE, NPC). The levels are joined through one open cell
in the middle row of each side wall. This project models the whole playable
core of `src/main.cpp` as a small deterministic state machine:

- **World** (`grid.dfy`, module `Grid`). Two levels of integer tile codes, indexed
  `w[level][y][x]` like the game's `levels` array. The world is built once by
  `InitializeWorld`, a triple loop plus four decorations. Its functional twin is
  `InitialWorld`. Both are proved to have the predicate `Layout`, which fixes every
  cell: a walled border, the two mid-row gaps open, one TREE and one NPC per level,
  and EMPTY everywhere else. `LayoutUnique` shows that `Layout` determines the world.
- **Tiles** (`tiles.dfy`). The `Tile` enumeration and its integer codes. `Decode`
  reads a stored code back as a tile. A code outside the enumeration reads as `None`.
- **Controller** (`movement.dfy`, module `Movement`). The globals `currentLevel`,
  `playerX` and `playerY` become the `State` record. `handleInput` becomes the pure
  function `Step(w, st, c)`, which returns a continue flag and the new state. The
  world is a parameter and is never returned, so no step can change it. `Play`
  is the game loop: it feeds keystrokes to `Step` until the quit key. The keystrokes
  are a parameter. The main result is `GameKeepsInvariant`: from start-up, after any
  keystrokes, the player stands on an EMPTY cell inside the grid of an existing level.
- **Renderer** (`rendering.dfy`, module `Rendering`). `RenderGrid` builds the frame:
  one character per cell of the current level. The frame shows `@` on exactly the
  player's cell. Every other cell reads back, through `TileOfGlyph`, as the tile
  stored there.

## Model

| member | source | states |
|---|---|---|
| Tiles.Decode | src/main.cpp:31-36 | a code reads as a tile only if that tile has this code; codes of no tile read as None |
| Tiles.Tile.Code | src/main.cpp:31-36 | every tile is stored as an integer code in 0..3 |
| Tiles.DecodeCode | src/main.cpp:31-36 | every tile reads back from its own code, so the four codes are distinct |
| Grid.BorderCode | src/main.cpp:74-84 | the border loop writes WALL exactly on border cells that are not one of the two mid-row gaps, and EMPTY on every other cell |
| Grid.SetCell | src/main.cpp:90-95 | one cell assignment sets that cell and leaves every other cell of every level unchanged |
| Grid.Decorate | src/main.cpp:89-95 | TREE at (5,5) and NPC at (10,10) on level 0; TREE at (6,6) and NPC at (8,8) on level 1; no other cell changes |
| Grid.InitialWorld | src/main.cpp:70-96 | the built world has the fixed 2×22×22 shape and the layout: non-gap border cells WALL, both mid-row side cells EMPTY, the four decorations, and every other interior cell EMPTY |
| Grid.InitializeWorld | src/main.cpp:70-96 | the looping builder produces a world with the same shape and layout |
| Grid.LayoutUnique | src/main.cpp:71-95 | the layout fixes every cell, so the builder and the functional world are the same value |
| Grid.InteriorTiles | src/main.cpp:80-95 | off the border, a cell of the built world is non-EMPTY exactly when it is one of the four decorations |
| Movement.InitialState | src/main.cpp:40-44 | the game starts on level 0 at the centre of the grid, in the gap row, off the border |
| Movement.ToLower | src/main.cpp:128 | an upper-case ASCII letter becomes the lower-case letter at the same alphabet position; every other character is left unchanged; no result is upper case |
| Movement.ParseCommand | src/main.cpp:128-138 | w/s/a/d move up/down/left/right and q quits, in either case, and no other character does any of these |
| Movement.QuitKeyIsQuitCommand | src/main.cpp:128-137 | a keystroke ends the game exactly when it parses as the quit command, q or Q |
| Movement.KeyTarget | src/main.cpp:128-136 | for the raw keystroke, w/W aims one row up, s/S one row down, a/A one column left, d/D one column right, and every other key aims at the player's own cell |
| Movement.IsWalkable | src/main.cpp:121-125 | false outside the 22×22 grid; inside it, true exactly when the cell holds the EMPTY tile |
| Movement.Step | src/main.cpp:127-168 | the game continues unless the key is q or Q; the state stays in bounds; within a level the player moves at most one cell; a level change moves by one level, keeps the row, and goes from one side column to the opposite one |
| Movement.StepQuit | src/main.cpp:128-137 | q or Q stops the game and leaves level and position unchanged |
| Movement.StepIgnoresOtherKeys | src/main.cpp:132-167 | any key other than w/a/s/d/q in either case leaves the state unchanged and continues |
| Movement.StepRegularMove | src/main.cpp:161-167 | a move whose target column is in the grid commits to the target on the same level when it is walkable, and otherwise changes nothing; the game continues |
| Movement.StepRightEdge | src/main.cpp:141-149 | moving right from the last column goes to column 0 of the next level in the same row when a next level exists and the current row's last cell is EMPTY; otherwise nothing changes; the game continues |
| Movement.StepLeftEdge | src/main.cpp:151-159 | moving left from column 0 goes to the last column of the previous level in the same row when one exists and the current row's first cell is EMPTY; otherwise nothing changes; the game continues |
| Movement.EdgeTestReadsOwnCell | src/main.cpp:141-159 | under the invariant, an edge move changes level exactly when the adjacent level exists, because the tested cell is the player's own |
| Movement.StepPreservesInvariant | src/main.cpp:141-165 | in a world whose side gaps line up, every keystroke keeps the player on an EMPTY in-bounds cell of an existing level |
| Movement.InitialWorldAligned | src/main.cpp:77-81 | in the built world, level 0's right wall and level 1's left wall are open in the same rows; on every level both side walls are open only in the middle row |
| Movement.InitialInvariant | src/main.cpp:43-44 | the start cell (11,11) is EMPTY on both levels, so the invariant holds at start-up |
| Movement.Play | src/main.cpp:199-211 | the game loop keeps the state in bounds |
| Movement.PlayOneKey | src/main.cpp:199-211 | a single keystroke is handled by exactly one step |
| Movement.PlayConcat | src/main.cpp:199-211 | the loop hands keystrokes to the step in order: until a quit key, running on `pre + rest` is running on `pre`, which keeps the game going, and then on `rest` from the state `pre` reached |
| Movement.PlayPreservesInvariant | src/main.cpp:199-211 | the invariant holds after any sequence of keystrokes |
| Movement.PlayStopsIffQuit | src/main.cpp:199-211 | the loop stops exactly when some keystroke is q or Q |
| Movement.PlayStopsAtQuit | src/main.cpp:199-211 | the loop stops at the first q or Q: the keystrokes after it are never handled, so they change neither the flag nor the state |
| Movement.GameKeepsInvariant | src/main.cpp:196-211 | from start-up, after any keystrokes, the player stands on an EMPTY cell of an existing level |
| Movement.RightGapOpensToNextLevel | src/main.cpp:141-145 | moving right from level 0's right gap lands on level 1's left gap |
| Movement.LeftGapOfFirstLevelIsClosed | src/main.cpp:151-158 | moving left from level 0's left gap changes nothing, since there is no level below 0 |
| Movement.RightGapOfLastLevelIsClosed | src/main.cpp:141-148 | moving right from level 1's right gap changes nothing, since there is no level above 1 |
| Rendering.Glyph | src/main.cpp:106-112 | a tile is drawn as one of '.', '#', '!', 'N' or '?', and never as the player's '@' |
| Rendering.TileOfGlyph | src/main.cpp:106-112 | only the four tile glyphs read back as a tile |
| Rendering.GlyphRoundTrip | src/main.cpp:106-112 | a drawn cell reads back as its tile, and '?' is drawn exactly for codes that are no tile |
| Rendering.CellChar | src/main.cpp:103-112 | a cell shows '@' exactly at the player's coordinates; any other cell shows a glyph that reads back as its tile |
| Rendering.RenderGrid | src/main.cpp:101-116 | the frame is 22 rows of 22 characters; '@' appears exactly at the player's cell; every other cell reads back as its stored tile |
| Rendering.FirstFrame | src/main.cpp:90-113 | on the first frame, level 0's TREE shows as '!' at row 5, column 5, and '@' is at the centre |

## Left out

- The intro text, the name prompt and the `username` buffer are output and input plumbing with no effect on the game state.
- The blocking reads of the game loop (`std::cin`, `_getch`) are left out. `Play` takes the keystrokes as a sequence instead.
- `clearScreen` and its exception handling are left out. It calls the host shell through `std::system`, and its failure only prints a warning.
- `delay` and `sleep_for` are pacing only.
- The output stream and the status-line text are left out. The status line prints `currentLevel + 1`, the 1-based level number.
- `std::tolower` is modelled as the ASCII fold only. C++ `char` is a byte, while Dafny's `char` is a Unicode scalar value. `ToLower` leaves every non-ASCII-letter character unchanged, and the undefined behaviour of `tolower` on negative `char` values is not modelled.
- `Step` requires an in-bounds state because the C++ indexes `levels[currentLevel][playerY]` without a check. The invariant proofs show that such a state is always in bounds from start-up.
- The `int` arithmetic on positions and levels never leaves `[-1, 22]`, so 32-bit overflow cannot occur and is not modelled.
