/**
 * The fog-of-war maze: a grid walk with a bounds check, a wall check, goal
 * detection, a sticky `won` flag and a growing set of visited cells. Cell
 * keys (`"r,c"` strings in the component) are modelled as `Pos` pairs.
 */
module Maze {
  import opened Common

  /** A map cell: a number (1 is a wall, 0 a corridor) or a marker such as "S" or "G". */
  datatype Cell = Num(n: int) | Tag(name: string)

  datatype Pos = Pos(r: int, c: int)

  type Grid = seq<seq<Cell>>

  const MAZE_MAP: Grid := [
    [Tag("S"), Num(0), Num(1), Num(0), Num(0), Num(0), Num(1), Num(0)],
    [Num(1), Num(0), Num(1), Num(0), Num(1), Num(0), Num(1), Num(0)],
    [Num(1), Num(0), Num(0), Num(0), Num(1), Num(0), Num(0), Num(0)],
    [Num(1), Num(1), Num(1), Num(0), Num(1), Num(1), Num(1), Num(0)],
    [Num(0), Num(0), Num(0), Num(0), Num(0), Num(0), Num(1), Num(0)],
    [Num(0), Num(1), Num(1), Num(1), Num(1), Num(0), Num(1), Num(0)],
    [Num(0), Num(0), Num(0), Num(0), Num(1), Num(0), Num(0), Tag("G")]
  ]

  const FOG_RADIUS: int := 1

  // ---------------------------------------------------------------------------
  // Looking at the map

  /**
   * `map[r][c]`, which is `undefined` (here `None`) past the end of a row. The
   * contract is that lookup rule itself: present exactly inside the row.
   */
  function CellAt(m: Grid, r: int, c: int): (o: Option<Cell>)
    requires 0 <= r < |m|
    ensures o.Some? <==> 0 <= c < |m[r]|
  {
    if 0 <= c < |m[r]| then Some(m[r][c]) else None
  }

  /** The number of columns `findCell` scans: the length of the first row. */
  function Width(m: Grid): nat
  {
    if |m| == 0 then 0 else |m[0]|
  }

  /** `(r, c)` is inside the area `findCell` scans and holds `target`. */
  predicate Hit(m: Grid, target: Cell, r: int, c: int)
  {
    0 <= r < |m| && 0 <= c < Width(m) && CellAt(m, r, c) == Some(target)
  }

  /** Row-major order. */
  predicate Before(p: Pos, q: Pos)
  {
    p.r < q.r || (p.r == q.r && p.c < q.c)
  }

  /** `p` is the first cell in row-major order that holds `target`. */
  ghost predicate IsFirst(m: Grid, target: Cell, p: Pos)
  {
    Hit(m, target, p.r, p.c) &&
    forall r, c :: Before(Pos(r, c), p) ==> !Hit(m, target, r, c)
  }

  /** No scanned cell holds `target`. */
  ghost predicate Absent(m: Grid, target: Cell)
  {
    forall r, c :: !Hit(m, target, r, c)
  }

  /** There is at most one first occurrence. */
  lemma FirstIsUnique(m: Grid, target: Cell, p: Pos, q: Pos)
    requires IsFirst(m, target, p) && IsFirst(m, target, q)
    ensures p == q
  {
  }

  /** `findCell`: scan rows, then columns, and stop at the first match. */
  method FindCell(m: Grid, target: Cell) returns (p: Option<Pos>)
    ensures p.Some? ==> IsFirst(m, target, p.value)
    ensures p.None? <==> Absent(m, target)
  {
    var r := 0;
    while r < |m|
      invariant 0 <= r <= |m|
      invariant forall r', c' :: Hit(m, target, r', c') ==> r' >= r
    {
      var c := 0;
      while c < Width(m)
        invariant 0 <= c <= Width(m)
        invariant forall r', c' :: Hit(m, target, r', c') ==> r' > r || (r' == r && c' >= c)
      {
        if CellAt(m, r, c) == Some(target) {
          return Some(Pos(r, c));
        }
        c := c + 1;
      }
      r := r + 1;
    }
    return None;
  }

  /** The start marker of MAZE_MAP is its top-left corner. */
  lemma StartOfMazeMap()
    ensures IsFirst(MAZE_MAP, Tag("S"), Pos(0, 0))
  {
  }

  /** The goal marker of MAZE_MAP is its bottom-right corner, and it appears nowhere else. */
  lemma GoalOfMazeMap()
    ensures IsFirst(MAZE_MAP, Tag("G"), Pos(6, 7))
    ensures forall r, c :: Hit(MAZE_MAP, Tag("G"), r, c) ==> r == 6 && c == 7
  {
    forall r, c | Hit(MAZE_MAP, Tag("G"), r, c)
      ensures r == 6 && c == 7
    {
      assert 0 <= r < 7 && 0 <= c < 8;
      if r < 6 || c < 7 {
        NoGoalBefore(r, c);
      }
    }
  }

  lemma NoGoalBefore(r: int, c: int)
    requires 0 <= r < 7 && 0 <= c < 8 && (r < 6 || c < 7)
    ensures MAZE_MAP[r][c] != Tag("G")
  {
    var row := MAZE_MAP[r];
    assert row[c].Num? || row[c] == Tag("S");
  }

  /** `isWall`: only the number 1 is a wall. */
  predicate IsWall(cell: Option<Cell>)
  {
    cell == Some(Num(1))
  }

  // ---------------------------------------------------------------------------
  // Fog

  function Abs(x: int): nat
  {
    if x < 0 then -x else x
  }

  /** `isInRadius`: both coordinate distances are within `radius`. */
  predicate InRadius(pos: Pos, r: int, c: int, radius: int)
  {
    Abs(pos.r - r) <= radius && Abs(pos.c - c) <= radius
  }

  /** The Chebyshev (king-move) distance between two cells. */
  function Chebyshev(p: Pos, q: Pos): (d: nat)
    ensures d == Abs(p.r - q.r) || d == Abs(p.c - q.c)
    ensures d >= Abs(p.r - q.r) && d >= Abs(p.c - q.c)
  {
    var dr := Abs(p.r - q.r);
    var dc := Abs(p.c - q.c);
    if dr < dc then dc else dr
  }

  /** The radius test is a Chebyshev ball: symmetric, and it always holds of one's own cell. */
  lemma InRadiusIsChebyshevBall(pos: Pos, r: int, c: int, radius: int)
    ensures InRadius(pos, r, c, radius) <==> Chebyshev(pos, Pos(r, c)) <= radius
    ensures InRadius(pos, r, c, radius) <==> InRadius(Pos(r, c), pos.r, pos.c, radius)
    ensures radius >= 0 ==> InRadius(pos, pos.r, pos.c, radius)
  {
  }

  /** A cell is drawn without fog when it is near the player or already explored. */
  predicate Visible(pos: Pos, visited: set<Pos>, r: int, c: int)
  {
    InRadius(pos, r, c, FOG_RADIUS) || Pos(r, c) in visited
  }

  // ---------------------------------------------------------------------------
  // The reducer

  datatype State = State(pos: Pos, moves: nat, won: bool, visited: set<Pos>)

  datatype Action =
    | Reset(start: Pos)
    | Move(dr: int, dc: int, m: Grid, rows: int, cols: int, goal: Pos)
      /** Any other action type, which the reducer ignores. */
    | Other

  /**
   * A MOVE reads `map[nr]` for every row number below `rows`, so the map must
   * have at least that many rows.
   */
  predicate ValidAction(a: Action)
  {
    a.Move? ==> 0 <= a.rows <= |a.m|
  }

  /**
   * `createInitialState({ start })`. The contract spells out the state literal
   * the component builds, which is all the source promises about it.
   */
  function Initial(start: Pos): (s: State)
    ensures s.pos == start && s.moves == 0 && !s.won && s.visited == {start}
  {
    State(start, 0, false, {start})
  }

  /** `reducer(state, action)`; explored cells are always kept. */
  function Reduce(s: State, a: Action): State
    requires ValidAction(a)
  {
    match a
    case Reset(start) => Initial(start)
    case Move(dr, dc, m, rows, cols, goal) =>
      if s.won then s
      else
        var nr := s.pos.r + dr;
        var nc := s.pos.c + dc;
        if nr < 0 || nr >= rows || nc < 0 || nc >= cols then s
        else if IsWall(CellAt(m, nr, nc)) then s
        else
          var nextPos := Pos(nr, nc);
          s.(pos := nextPos, moves := s.moves + 1, won := nextPos == goal,
             visited := s.visited + {nextPos})
    case Other => s
  }

  /** A MOVE that is refused leaves the whole state as it was. */
  lemma MoveRefused(s: State, dr: int, dc: int, m: Grid, rows: int, cols: int, goal: Pos)
    requires 0 <= rows <= |m|
    requires var nr, nc := s.pos.r + dr, s.pos.c + dc;
      s.won || !(0 <= nr < rows && 0 <= nc < cols) || IsWall(CellAt(m, nr, nc))
    ensures Reduce(s, Move(dr, dc, m, rows, cols, goal)) == s
  {
  }

  /**
   * A MOVE that is accepted steps to the neighbouring cell, counts one move,
   * wins exactly on the goal and adds the new cell to the visited set.
   */
  lemma MoveAccepted(s: State, dr: int, dc: int, m: Grid, rows: int, cols: int, goal: Pos)
    requires 0 <= rows <= |m|
    requires var nr, nc := s.pos.r + dr, s.pos.c + dc;
      !s.won && 0 <= nr < rows && 0 <= nc < cols && !IsWall(CellAt(m, nr, nc))
    ensures var r := Reduce(s, Move(dr, dc, m, rows, cols, goal));
      r.pos == Pos(s.pos.r + dr, s.pos.c + dc) && r.moves == s.moves + 1 &&
      (r.won <==> r.pos == goal) && r.visited == s.visited + {r.pos} &&
      s.visited <= r.visited && |r.visited| <= |s.visited| + 1
  {
    var r := Reduce(s, Move(dr, dc, m, rows, cols, goal));
    assert r.visited == s.visited + {r.pos};
    if r.pos in s.visited {
      assert r.visited == s.visited;
    }
  }

  /** Once won, only RESET changes the state. */
  lemma WonIsSticky(s: State, a: Action)
    requires ValidAction(a) && s.won && !a.Reset?
    ensures Reduce(s, a) == s
  {
  }

  /** A cell the player may stand on: inside `rows` x `cols` and not a wall. */
  predicate Open(m: Grid, rows: int, cols: int, p: Pos)
    requires 0 <= rows <= |m|
  {
    0 <= p.r < rows && 0 <= p.c < cols && !IsWall(CellAt(m, p.r, p.c))
  }

  /** The shape of every state reached from RESET by MOVEs on one map towards one goal. */
  ghost predicate Inv(s: State, m: Grid, rows: int, cols: int, goal: Pos)
    requires 0 <= rows <= |m|
  {
    && Open(m, rows, cols, s.pos)
    && s.pos in s.visited
    && (forall p :: p in s.visited ==> Open(m, rows, cols, p))
    && |s.visited| <= s.moves + 1
    && (s.won ==> s.pos == goal)
  }

  /** RESET to an open start cell establishes the invariant. */
  lemma ResetEstablishesInv(s: State, start: Pos, m: Grid, rows: int, cols: int, goal: Pos)
    requires 0 <= rows <= |m| && Open(m, rows, cols, start)
    ensures Inv(Reduce(s, Reset(start)), m, rows, cols, goal)
  {
  }

  /** Every MOVE on the same map towards the same goal keeps the invariant. */
  lemma MovePreservesInv(s: State, dr: int, dc: int, m: Grid, rows: int, cols: int, goal: Pos)
    requires 0 <= rows <= |m| && Inv(s, m, rows, cols, goal)
    ensures Inv(Reduce(s, Move(dr, dc, m, rows, cols, goal)), m, rows, cols, goal)
  {
    var nr, nc := s.pos.r + dr, s.pos.c + dc;
    if !s.won && 0 <= nr < rows && 0 <= nc < cols && !IsWall(CellAt(m, nr, nc)) {
      MoveAccepted(s, dr, dc, m, rows, cols, goal);
    }
  }

  /** Under the invariant the player's cell and every explored cell are free of fog. */
  lemma ExploredIsVisible(s: State, m: Grid, rows: int, cols: int, goal: Pos, p: Pos)
    requires 0 <= rows <= |m| && Inv(s, m, rows, cols, goal)
    requires p in s.visited || p == s.pos
    ensures Visible(s.pos, s.visited, p.r, p.c)
  {
  }

  // ---------------------------------------------------------------------------
  // The component's landmarks

  /** `start` and `goal`: the marker cells, with the corners as fallbacks. */
  method Landmarks(m: Grid) returns (start: Pos, goal: Pos)
    requires |m| > 0
    ensures Absent(m, Tag("S")) ==> start == Pos(0, 0)
    ensures !Absent(m, Tag("S")) ==> IsFirst(m, Tag("S"), start)
    ensures Absent(m, Tag("G")) ==> goal == Pos(|m| - 1, |m[0]| - 1)
    ensures !Absent(m, Tag("G")) ==> IsFirst(m, Tag("G"), goal)
  {
    var s := FindCell(m, Tag("S"));
    start := s.GetOr(Pos(0, 0));
    var g := FindCell(m, Tag("G"));
    goal := g.GetOr(Pos(|m| - 1, |m[0]| - 1));
  }

  /** On MAZE_MAP the player starts in the top-left corner, the goal is bottom-right, and the start is open. */
  method MazeLandmarks() returns (start: Pos, goal: Pos)
    ensures start == Pos(0, 0) && goal == Pos(6, 7)
    ensures Open(MAZE_MAP, |MAZE_MAP|, |MAZE_MAP[0]|, start)
  {
    start, goal := Landmarks(MAZE_MAP);
    StartOfMazeMap();
    GoalOfMazeMap();
    FirstIsUnique(MAZE_MAP, Tag("S"), start, Pos(0, 0));
    FirstIsUnique(MAZE_MAP, Tag("G"), goal, Pos(6, 7));
  }

  // ---------------------------------------------------------------------------
  // Playing a sequence of key presses

  /** What a MOVE action carries besides the step: the map, its size and the goal. */
  datatype Layout = Layout(m: Grid, rows: int, cols: int, goal: Pos)

  predicate ValidLayout(l: Layout)
  {
    0 <= l.rows <= |l.m|
  }

  /** The layout the component passes with every MOVE. */
  const MAZE: Layout := Layout(MAZE_MAP, 7, 8, Pos(6, 7))

  /** `tryMove(dr, dc)`: the MOVE dispatched for a key press `d`. */
  function TryMove(l: Layout, d: Pos): Action
  {
    Move(d.r, d.c, l.m, l.rows, l.cols, l.goal)
  }

  /**
   * A key press moves the player one step in its direction exactly when the
   * game is not won and the target cell is open; the step counts one move,
   * wins exactly on the goal and explores the target. Otherwise nothing changes.
   */
  lemma TryMoveOutcome(l: Layout, s: State, d: Pos)
    requires ValidLayout(l)
    ensures var r, target := Reduce(s, TryMove(l, d)), Pos(s.pos.r + d.r, s.pos.c + d.c);
      if !s.won && Open(l.m, l.rows, l.cols, target) then
        r.pos == target && r.moves == s.moves + 1 && (r.won <==> target == l.goal)
        && r.visited == s.visited + {target}
      else r == s
  {
  }

  /** The state after pressing the arrow keys `steps` in order. */
  function Play(l: Layout, s: State, steps: seq<Pos>): State
    requires ValidLayout(l)
    decreases |steps|
  {
    if steps == [] then s else Play(l, Reduce(s, TryMove(l, steps[0])), steps[1..])
  }

  /** Any sequence of key presses keeps the invariant. */
  lemma {:induction false} PlayPreservesInv(l: Layout, s: State, steps: seq<Pos>)
    requires ValidLayout(l) && Inv(s, l.m, l.rows, l.cols, l.goal)
    ensures Inv(Play(l, s, steps), l.m, l.rows, l.cols, l.goal)
    decreases |steps|
  {
    if steps != [] {
      MovePreservesInv(s, steps[0].r, steps[0].c, l.m, l.rows, l.cols, l.goal);
      PlayPreservesInv(l, Reduce(s, TryMove(l, steps[0])), steps[1..]);
    }
  }

  /** Once won, no sequence of key presses changes the state. */
  lemma {:induction false} PlayAfterWin(l: Layout, s: State, steps: seq<Pos>)
    requires ValidLayout(l) && s.won
    ensures Play(l, s, steps) == s
    decreases |steps|
  {
    if steps != [] {
      WonIsSticky(s, TryMove(l, steps[0]));
      PlayAfterWin(l, s, steps[1..]);
    }
  }

  /** Every game on MAZE_MAP, from its start and whatever keys are pressed, stays in the invariant. */
  lemma MazeGamesKeepInv(steps: seq<Pos>)
    ensures Inv(Play(MAZE, Initial(Pos(0, 0)), steps), MAZE_MAP, 7, 8, Pos(6, 7))
  {
    assert Open(MAZE_MAP, 7, 8, Pos(0, 0));
    ResetEstablishesInv(Initial(Pos(0, 0)), Pos(0, 0), MAZE_MAP, 7, 8, Pos(6, 7));
    PlayPreservesInv(MAZE, Initial(Pos(0, 0)), steps);
  }
}
