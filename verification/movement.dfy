/**
 This module models the per-keystroke controller: the walkability test, the
 step that moves the player or switches level, and the play loop that feeds
 keystrokes to it until the quit key. The game's globals `currentLevel`,
 `playerX` and `playerY` become the `State` record; the world is a parameter
 and no step returns a new one, so it never changes after start-up.
 */
module Movement {
  import opened Wrappers
  import opened Tiles
  import opened Grid

  /** The mutable part of the game: the current level and the player's position. */
  datatype State = State(level: int, x: int, y: int)

  /** The game starts on the first level at the centre of the grid, on the gap row. */
  function InitialState(): (st: State)
    ensures st.level == 0 && st.y == MidRow
    ensures st.x == GridWidth / 2 && !OnBorder(st.x, st.y)
  {
    State(0, GridWidth / 2, GridHeight / 2)
  }

  /** The level exists and the player is inside its grid. */
  predicate InBounds(st: State) {
    ValidLevel(st.level) && InGrid(st.x, st.y)
  }

  /** The global invariant: the player stands on an EMPTY cell of an existing level. */
  predicate Invariant(w: World, st: State)
    requires WellShaped(w)
  {
    InBounds(st) && w[st.level][st.y][st.x] == EMPTY
  }

  /** What a keystroke asks for, after folding it to lower case. */
  datatype Command = Up | Down | Left | Right | Quit | Ignore

  /** ASCII lower-case folding; every other character is left as it is. */
  function ToLower(c: char): (r: char)
    ensures !('A' <= r <= 'Z')
    ensures 'a' <= r <= 'z' <==> 'a' <= c <= 'z' || 'A' <= c <= 'Z'
    ensures 'A' <= c <= 'Z' ==> r as int - 'a' as int == c as int - 'A' as int
    ensures !('A' <= c <= 'Z') ==> r == c
  {
    if 'A' <= c <= 'Z' then (c as int - 'A' as int + 'a' as int) as char else c
  }

  /** The keys: w, s, a, d move, q quits, in either case; anything else is ignored. */
  function ParseCommand(c: char): (cmd: Command)
    ensures cmd == Up <==> c == 'w' || c == 'W'
    ensures cmd == Down <==> c == 's' || c == 'S'
    ensures cmd == Left <==> c == 'a' || c == 'A'
    ensures cmd == Right <==> c == 'd' || c == 'D'
    ensures cmd == Quit <==> c == 'q' || c == 'Q'
  {
    match ToLower(c)
    case 'w' => Up
    case 's' => Down
    case 'a' => Left
    case 'd' => Right
    case 'q' => Quit
    case _ => Ignore
  }

  /** A keystroke that ends the game. */
  predicate IsQuitKey(c: char) {
    c == 'q' || c == 'Q'
  }

  /** The quit keys are exactly the keystrokes that parse as the Quit command. */
  lemma QuitKeyIsQuitCommand(c: char)
    ensures IsQuitKey(c) <==> ParseCommand(c) == Quit
  {
  }

  /** The cell a command aims at: one step up, down, left or right, or the player's own cell. */
  function Destination(st: State, cmd: Command): (int, int) {
    match cmd
    case Up => (st.x, st.y - 1)
    case Down => (st.x, st.y + 1)
    case Left => (st.x - 1, st.y)
    case Right => (st.x + 1, st.y)
    case _ => (st.x, st.y)
  }

  /** The target of a raw keystroke: w/s/a/d in either case step up/down/left/right; any other key aims at the player's own cell. */
  lemma KeyTarget(st: State, c: char)
    ensures Destination(st, ParseCommand(c)) ==
      if c == 'w' || c == 'W' then (st.x, st.y - 1)
      else if c == 's' || c == 'S' then (st.x, st.y + 1)
      else if c == 'a' || c == 'A' then (st.x - 1, st.y)
      else if c == 'd' || c == 'D' then (st.x + 1, st.y)
      else (st.x, st.y)
  {
  }

  /** A cell can be entered exactly when it is inside the grid and EMPTY. */
  function IsWalkable(w: World, level: int, x: int, y: int): (r: bool)
    requires WellShaped(w) && ValidLevel(level)
    ensures !InGrid(x, y) ==> !r
    ensures InGrid(x, y) ==> (r <==> Decode(w[level][y][x]) == Some(Empty))
  {
    if x < 0 || x >= GridWidth || y < 0 || y >= GridHeight then false
    else w[level][y][x] == EMPTY
  }

  /** The outcome of one keystroke: whether the game goes on, and the new state. */
  datatype StepResult = StepResult(running: bool, state: State)

  /**
   One keystroke. Only the quit key stops the game. Within a level the player
   moves at most one cell; a level changes only by one, in the same row, from
   one side column to the opposite one.
   */
  function Step(w: World, st: State, c: char): (r: StepResult)
    requires WellShaped(w) && InBounds(st)
    ensures r.running <==> !IsQuitKey(c)
    ensures InBounds(r.state)
    ensures r.state.level == st.level ==>
      (r.state.x == st.x && (r.state.y - st.y) * (r.state.y - st.y) <= 1) ||
      (r.state.y == st.y && (r.state.x - st.x) * (r.state.x - st.x) <= 1)
    ensures r.state.level != st.level ==>
      && r.state.y == st.y
      && ((r.state.level == st.level + 1 && st.x == GridWidth - 1 && r.state.x == 0) ||
          (r.state.level == st.level - 1 && st.x == 0 && r.state.x == GridWidth - 1))
  {
    var cmd := ParseCommand(c);
    if cmd == Quit then StepResult(false, st)
    else
      var (newX, newY) := Destination(st, cmd);
      if newX >= GridWidth then
        if st.level < NumLevels - 1 && w[st.level][st.y][GridWidth - 1] == EMPTY then
          StepResult(true, State(st.level + 1, 0, st.y))
        else
          StepResult(true, st)
      else if newX < 0 then
        if st.level > 0 && w[st.level][st.y][0] == EMPTY then
          StepResult(true, State(st.level - 1, GridWidth - 1, st.y))
        else
          StepResult(true, st)
      else if IsWalkable(w, st.level, newX, newY) then
        StepResult(true, State(st.level, newX, newY))
      else
        StepResult(true, st)
  }

  /** The quit key, in either case, stops the game and leaves the state as it was. */
  lemma StepQuit(w: World, st: State, c: char)
    requires WellShaped(w) && InBounds(st)
    requires c == 'q' || c == 'Q'
    ensures Step(w, st, c) == StepResult(false, st)
  {
  }

  /** A key that is not a command changes nothing and the game goes on. */
  lemma StepIgnoresOtherKeys(w: World, st: State, c: char)
    requires WellShaped(w) && InBounds(st)
    requires c !in ['w', 'W', 's', 'S', 'a', 'A', 'd', 'D', 'q', 'Q']
    ensures Step(w, st, c) == StepResult(true, st)
  {
  }

  /** A move whose target column is inside the grid is taken exactly when the target is walkable. */
  lemma StepRegularMove(w: World, st: State, c: char, newX: int, newY: int)
    requires WellShaped(w) && InBounds(st) && !IsQuitKey(c)
    requires (newX, newY) == Destination(st, ParseCommand(c)) && 0 <= newX < GridWidth
    ensures Step(w, st, c).running
    ensures IsWalkable(w, st.level, newX, newY) ==> Step(w, st, c).state == State(st.level, newX, newY)
    ensures !IsWalkable(w, st.level, newX, newY) ==> Step(w, st, c).state == st
  {
  }

  /**
   Moving right from the last column goes to the first column of the next
   level in the same row, provided there is a next level and the current
   level's last cell in that row is EMPTY; otherwise nothing changes.
   */
  lemma StepRightEdge(w: World, st: State, c: char)
    requires WellShaped(w) && InBounds(st)
    requires (c == 'd' || c == 'D') && st.x == GridWidth - 1
    ensures Step(w, st, c).running
    ensures st.level + 1 < NumLevels && w[st.level][st.y][GridWidth - 1] == EMPTY ==>
      Step(w, st, c).state == State(st.level + 1, 0, st.y)
    ensures st.level + 1 == NumLevels || w[st.level][st.y][GridWidth - 1] != EMPTY ==>
      Step(w, st, c).state == st
  {
  }

  /** The mirror image of StepRightEdge: moving left from the first column goes to the previous level. */
  lemma StepLeftEdge(w: World, st: State, c: char)
    requires WellShaped(w) && InBounds(st)
    requires (c == 'a' || c == 'A') && st.x == 0
    ensures Step(w, st, c).running
    ensures st.level > 0 && w[st.level][st.y][0] == EMPTY ==>
      Step(w, st, c).state == State(st.level - 1, GridWidth - 1, st.y)
    ensures st.level == 0 || w[st.level][st.y][0] != EMPTY ==>
      Step(w, st, c).state == st
  {
  }

  /**
   The property of a world that keeps a transition on EMPTY ground: a row is
   open on the right of a level exactly when it is open on the left of the next.
   */
  ghost predicate GapsAligned(w: World)
    requires WellShaped(w)
  {
    forall l :: 0 <= l < NumLevels - 1 ==> LevelsJoin(w, l)
  }

  /** Level `l` is open on the right in exactly the rows where level `l + 1` is open on the left. */
  ghost predicate LevelsJoin(w: World, l: int)
    requires WellShaped(w) && 0 <= l < NumLevels - 1
  {
    forall y :: 0 <= y < GridHeight ==> (w[l][y][GridWidth - 1] == EMPTY <==> w[l + 1][y][0] == EMPTY)
  }

  /** Every keystroke keeps the player on an EMPTY cell of an existing level. */
  lemma StepPreservesInvariant(w: World, st: State, c: char)
    requires WellShaped(w) && GapsAligned(w) && Invariant(w, st)
    ensures Invariant(w, Step(w, st, c).state)
  {
    var cmd := ParseCommand(c);
    var (newX, newY) := Destination(st, cmd);
    if cmd != Quit && newX >= GridWidth && st.level < NumLevels - 1 && w[st.level][st.y][GridWidth - 1] == EMPTY {
      assert LevelsJoin(w, st.level);
      assert w[st.level + 1][st.y][0] == EMPTY;
    } else if cmd != Quit && newX < 0 && st.level > 0 && w[st.level][st.y][0] == EMPTY {
      assert LevelsJoin(w, st.level - 1);
      assert w[st.level - 1][st.y][GridWidth - 1] == EMPTY;
    }
  }

  /**
   The right-edge test reads the player's own cell, which the invariant keeps
   EMPTY, so from the last column a right move changes level exactly when a
   next level exists; the same holds on the left for a previous level.
   */
  lemma EdgeTestReadsOwnCell(w: World, st: State, c: char)
    requires WellShaped(w) && Invariant(w, st)
    requires (ParseCommand(c) == Right && st.x == GridWidth - 1) || (ParseCommand(c) == Left && st.x == 0)
    ensures Step(w, st, c).state.level != st.level <==>
      (if ParseCommand(c) == Right then st.level + 1 < NumLevels else st.level > 0)
  {
  }

  /** The built world has its gaps aligned: both side walls are open in the middle row only. */
  lemma InitialWorldAligned()
    ensures GapsAligned(InitialWorld())
    ensures forall l, y :: ValidLevel(l) && 0 <= y < GridHeight && InitialWorld()[l][y][GridWidth - 1] == EMPTY ==> y == MidRow
    ensures forall l, y :: ValidLevel(l) && 0 <= y < GridHeight && InitialWorld()[l][y][0] == EMPTY ==> y == MidRow
  {
  }

  /** The start cell is EMPTY on both levels, so the invariant holds at start-up. */
  lemma InitialInvariant()
    ensures Invariant(InitialWorld(), InitialState())
    ensures InitialWorld()[1][InitialState().y][InitialState().x] == EMPTY
  {
  }

  /**
   The play loop: each keystroke is handled in turn until one of them stops
   the game or the keystrokes run out.
   */
  function Play(w: World, st: State, keys: seq<char>): (r: StepResult)
    requires WellShaped(w) && InBounds(st)
    ensures InBounds(r.state)
    decreases |keys|
  {
    if |keys| == 0 then StepResult(true, st)
    else
      var next := Step(w, st, keys[0]);
      if !next.running then next else Play(w, next.state, keys[1..])
  }

  /** The invariant holds after any run of keystrokes. */
  lemma {:induction false} PlayPreservesInvariant(w: World, st: State, keys: seq<char>)
    requires WellShaped(w) && GapsAligned(w) && Invariant(w, st)
    ensures Invariant(w, Play(w, st, keys).state)
    decreases |keys|
  {
    if |keys| > 0 {
      StepPreservesInvariant(w, st, keys[0]);
      var next := Step(w, st, keys[0]);
      if next.running {
        PlayPreservesInvariant(w, next.state, keys[1..]);
      }
    }
  }

  /** The loop ends exactly when some keystroke is the quit key. */
  lemma {:induction false} PlayStopsIffQuit(w: World, st: State, keys: seq<char>)
    requires WellShaped(w) && InBounds(st)
    ensures !Play(w, st, keys).running <==> exists i :: 0 <= i < |keys| && IsQuitKey(keys[i])
    decreases |keys|
  {
    if |keys| > 0 {
      var next := Step(w, st, keys[0]);
      if next.running {
        PlayStopsIffQuit(w, next.state, keys[1..]);
        if exists i :: 0 <= i < |keys| && IsQuitKey(keys[i]) {
          var i :| 0 <= i < |keys| && IsQuitKey(keys[i]);
          assert i > 0;
          assert IsQuitKey(keys[1..][i - 1]);
        }
        if exists i :: 0 <= i < |keys| - 1 && IsQuitKey(keys[1..][i]) {
          var i :| 0 <= i < |keys| - 1 && IsQuitKey(keys[1..][i]);
          assert IsQuitKey(keys[i + 1]);
        }
      }
    }
  }

  /** The loop ends at the first quit key: the keystrokes after it are never handled. */
  lemma {:induction false} PlayStopsAtQuit(w: World, st: State, pre: seq<char>, k: char, rest: seq<char>)
    requires WellShaped(w) && InBounds(st)
    requires forall i :: 0 <= i < |pre| ==> !IsQuitKey(pre[i])
    requires IsQuitKey(k)
    ensures Play(w, st, pre + [k] + rest) == Play(w, st, pre + [k])
    ensures !Play(w, st, pre + [k]).running
    decreases |pre|
  {
    var long := pre + [k] + rest;
    var short := pre + [k];
    if |pre| == 0 {
      assert long[0] == k && short[0] == k;
      StepQuit(w, st, k);
    } else {
      assert long[0] == pre[0] && short[0] == pre[0];
      assert !IsQuitKey(pre[0]);
      var next := Step(w, st, pre[0]);
      assert long[1..] == pre[1..] + [k] + rest;
      assert short[1..] == pre[1..] + [k];
      PlayStopsAtQuit(w, next.state, pre[1..], k, rest);
    }
  }

  /** A single keystroke is handled by exactly one step. */
  lemma PlayOneKey(w: World, st: State, c: char)
    requires WellShaped(w) && InBounds(st)
    ensures Play(w, st, [c]) == Step(w, st, c)
  {
  }

  /**
   The loop hands the keystrokes to Step in order: as long as no quit key has
   been seen, running on `pre + rest` is running on `pre` and then on `rest`
   from the state `pre` reached.
   */
  lemma {:induction false} PlayConcat(w: World, st: State, pre: seq<char>, rest: seq<char>)
    requires WellShaped(w) && InBounds(st)
    requires forall i :: 0 <= i < |pre| ==> !IsQuitKey(pre[i])
    ensures Play(w, st, pre).running
    ensures Play(w, st, pre + rest) == Play(w, Play(w, st, pre).state, rest)
    decreases |pre|
  {
    if |pre| == 0 {
      assert pre + rest == rest;
    } else {
      var keys := pre + rest;
      assert keys[0] == pre[0];
      assert !IsQuitKey(pre[0]);
      var next := Step(w, st, pre[0]);
      assert keys[1..] == pre[1..] + rest;
      PlayConcat(w, next.state, pre[1..], rest);
    }
  }

  /** From start-up, every run of keystrokes leaves the player on an EMPTY cell of an existing level. */
  lemma GameKeepsInvariant(keys: seq<char>)
    ensures Invariant(InitialWorld(), Play(InitialWorld(), InitialState(), keys).state)
  {
    InitialWorldAligned();
    InitialInvariant();
    PlayPreservesInvariant(InitialWorld(), InitialState(), keys);
  }

  /** From the right gap of the first level, moving right enters the second level at its left gap. */
  lemma RightGapOpensToNextLevel()
    ensures Step(InitialWorld(), State(0, GridWidth - 1, MidRow), 'd') == StepResult(true, State(1, 0, MidRow))
  {
  }

  /** From the left gap of the first level, moving left goes nowhere: there is no level below the first. */
  lemma LeftGapOfFirstLevelIsClosed()
    ensures Step(InitialWorld(), State(0, 0, MidRow), 'a') == StepResult(true, State(0, 0, MidRow))
  {
  }

  /** From the right gap of the last level, moving right goes nowhere. */
  lemma RightGapOfLastLevelIsClosed()
    ensures Step(InitialWorld(), State(1, GridWidth - 1, MidRow), 'd') == StepResult(true, State(1, GridWidth - 1, MidRow))
  {
  }
}
