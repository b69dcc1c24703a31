/**
 This module models the world: two levels of 22 by 22 tile codes, indexed as
 `w[level][y][x]` like the game's global level array, built once at start-up
 and never written again.
 */
module Grid {
  import opened Tiles

  const GridWidth: int := 22
  const GridHeight: int := 22
  const NumLevels: int := 2

  /** The row of the two transition gaps in the side walls. */
  const MidRow: int := GridHeight / 2

  type Level = seq<seq<int>>
  type World = seq<Level>

  predicate InGrid(x: int, y: int) {
    0 <= x < GridWidth && 0 <= y < GridHeight
  }

  predicate ValidLevel(l: int) {
    0 <= l < NumLevels
  }

  /** The fixed dimensions of the level array. */
  predicate WellShaped(w: World) {
    && |w| == NumLevels
    && (forall l :: 0 <= l < |w| ==> |w[l]| == GridHeight)
    && (forall l, y :: 0 <= l < |w| && 0 <= y < |w[l]| ==> |w[l][y]| == GridWidth)
  }

  /** Cells of the outer border: the top and bottom rows and the two side columns. */
  predicate OnBorder(x: int, y: int) {
    y == 0 || y == GridHeight - 1 || x == 0 || x == GridWidth - 1
  }

  /** The two mid-row cells of the side walls, left open for level transitions. */
  predicate IsGap(x: int, y: int) {
    (x == 0 || x == GridWidth - 1) && y == MidRow
  }

  /** The cells that carry a decoration on a level. */
  predicate IsDecoration(l: int, x: int, y: int) {
    || (l == 0 && x == 5 && y == 5)
    || (l == 0 && x == 10 && y == 10)
    || (l == 1 && x == 6 && y == 6)
    || (l == 1 && x == 8 && y == 8)
  }

  /**
   The layout every level has once the world is built: a walled border with
   the two gaps open, one TREE and one NPC per level, and nothing else. The
   clauses fix every cell, so a world with this layout is unique (LayoutUnique).
   */
  ghost predicate Layout(w: World)
    requires WellShaped(w)
  {
    && (forall l, y, x :: ValidLevel(l) && InGrid(x, y) && OnBorder(x, y) && !IsGap(x, y) ==> w[l][y][x] == WALL)
    && (forall l :: ValidLevel(l) ==> w[l][MidRow][0] == EMPTY && w[l][MidRow][GridWidth - 1] == EMPTY)
    && w[0][5][5] == TREE && w[0][10][10] == NPC
    && w[1][6][6] == TREE && w[1][8][8] == NPC
    && (forall l, y, x :: ValidLevel(l) && InGrid(x, y) && !OnBorder(x, y) && !IsDecoration(l, x, y) ==> w[l][y][x] == EMPTY)
  }

  /** The code the border loop writes into one cell, before any decoration. */
  function BorderCode(x: int, y: int): (code: int)
    ensures code == WALL <==> OnBorder(x, y) && !IsGap(x, y)
    ensures code == EMPTY <==> !OnBorder(x, y) || IsGap(x, y)
  {
    if (x == 0 || x == GridWidth - 1) && y == MidRow then EMPTY
    else if OnBorder(x, y) then WALL
    else EMPTY
  }

  function BareRow(y: int): seq<int> {
    seq(GridWidth, x => BorderCode(x, y))
  }

  function BareLevel(): Level {
    seq(GridHeight, y => BareRow(y))
  }

  /** One assignment `levels[l][y][x] = code`: that cell takes the code and nothing else changes. */
  function SetCell(w: World, l: int, x: int, y: int, code: int): (r: World)
    requires WellShaped(w) && ValidLevel(l) && InGrid(x, y)
    ensures WellShaped(r)
    ensures r[l][y][x] == code
    ensures forall l', y', x' :: ValidLevel(l') && InGrid(x', y') && (l', x', y') != (l, x, y) ==> r[l'][y'][x'] == w[l'][y'][x']
  {
    w[l := w[l][y := w[l][y][x := code]]]
  }

  /** The decorations placed on a bare world: a TREE and an NPC on each level. */
  function Decorate(w: World): (r: World)
    requires WellShaped(w)
    ensures WellShaped(r)
    ensures r[0][5][5] == TREE && r[0][10][10] == NPC
    ensures r[1][6][6] == TREE && r[1][8][8] == NPC
    ensures forall l, y, x :: ValidLevel(l) && InGrid(x, y) && !IsDecoration(l, x, y) ==> r[l][y][x] == w[l][y][x]
  {
    var w1 := SetCell(w, 0, 5, 5, TREE);
    var w2 := SetCell(w1, 0, 10, 10, NPC);
    var w3 := SetCell(w2, 1, 6, 6, TREE);
    SetCell(w3, 1, 8, 8, NPC)
  }

  /** The world as it stands after start-up, as a value. */
  function InitialWorld(): (w: World)
    ensures WellShaped(w) && Layout(w)
  {
    Decorate(seq(NumLevels, _ => BareLevel()))
  }

  /** The start-up builder: a triple loop writes the border and the gaps, then the decorations are placed. */
  method InitializeWorld() returns (w: World)
    ensures WellShaped(w) && Layout(w)
  {
    w := [];
    var l := 0;
    while l < NumLevels
      invariant 0 <= l <= NumLevels
      invariant |w| == l
      invariant forall i :: 0 <= i < l ==> w[i] == BareLevel()
    {
      var level: Level := [];
      var y := 0;
      while y < GridHeight
        invariant 0 <= y <= GridHeight
        invariant |level| == y
        invariant forall j :: 0 <= j < y ==> level[j] == BareRow(j)
      {
        var row: seq<int> := [];
        var x := 0;
        while x < GridWidth
          invariant 0 <= x <= GridWidth
          invariant |row| == x
          invariant forall k :: 0 <= k < x ==> row[k] == BorderCode(k, y)
        {
          var isBorder := y == 0 || y == GridHeight - 1;
          var isSideWall := x == 0 || x == GridWidth - 1;
          var code: int;
          if (x == 0 || x == GridWidth - 1) && y == GridHeight / 2 {
            code := EMPTY;
          } else if isBorder || isSideWall {
            code := WALL;
          } else {
            code := EMPTY;
          }
          row := row + [code];
          x := x + 1;
        }
        assert row == BareRow(y);
        level := level + [row];
        y := y + 1;
      }
      assert level == BareLevel();
      w := w + [level];
      l := l + 1;
    }
    assert w == seq(NumLevels, _ => BareLevel());
    w := Decorate(w);
    assert w == InitialWorld();
  }

  /** The layout fixes every cell, so any two worlds with it are the same world. */
  lemma LayoutUnique(a: World, b: World)
    requires WellShaped(a) && Layout(a)
    requires WellShaped(b) && Layout(b)
    ensures a == b
  {
    forall l, y | 0 <= l < NumLevels && 0 <= y < GridHeight
      ensures a[l][y] == b[l][y]
    {
      forall x | 0 <= x < GridWidth
        ensures a[l][y][x] == b[l][y][x]
      {
        if IsDecoration(l, x, y) {
        } else if OnBorder(x, y) && !IsGap(x, y) {
        } else if IsGap(x, y) {
        }
      }
    }
    forall l | 0 <= l < NumLevels
      ensures a[l] == b[l]
    {
    }
  }

  /** In the built world, the only non-EMPTY cells off the border are the four decorations. */
  lemma InteriorTiles(l: int, x: int, y: int)
    requires ValidLevel(l) && InGrid(x, y) && !OnBorder(x, y)
    ensures InitialWorld()[l][y][x] != EMPTY <==> IsDecoration(l, x, y)
  {
  }
}
