/**
 * The maze and the rules every step shares: the grid of cells, one-step
 * movement with wraparound and wall blocking (`makeMove`), clearing an eaten
 * cell (`removeDot`), and the in-memory scan of `loadMaze` that finds the
 * spawns and counts the dots.
 */
module Grid {
  import opened Keys

  datatype Option<T> = None | Some(value: T)

  /** The maze as the lines of the maze file, one character per cell (ASCII). */
  type Maze = seq<seq<char>>

  const WALL := '#'
  const DOT := '.'
  const PILL := 'X'
  const SPACE := ' '
  const PLAYER := 'P'
  const GHOST := 'G'

  /** A row/column pair; also the two-field `sprite` of steps 03 and 07. */
  datatype Pos = Pos(row: int, col: int)

  /** The four-field `sprite` of steps 08 and 10: current cell and spawn cell. */
  datatype Sprite = Sprite(row: int, col: int, startRow: int, startCol: int) {
    function At(): Pos { Pos(row, col) }
    function Start(): Pos { Pos(startRow, startCol) }
    /** The same sprite standing on `p` (`s.row, s.col = p.row, p.col`). */
    function MoveTo(p: Pos): Sprite { this.(row := p.row, col := p.col) }
  }

  /** The sprite `loadMaze` creates for a spawn cell: `sprite{row, col, row, col}`. */
  function Spawn(p: Pos): Sprite {
    Sprite(p.row, p.col, p.row, p.col)
  }

  /** Every row as long as the first, the shape column wraparound relies on. */
  predicate Rectangular(m: Maze) {
    forall i :: 0 <= i < |m| ==> |m[i]| == |m[0]|
  }

  /** A maze the game can run on: at least one cell, and rectangular. */
  predicate Playable(m: Maze) {
    |m| > 0 && |m[0]| > 0 && Rectangular(m)
  }

  /** The same number of rows, each as long as before: eating never changes the shape. */
  predicate SameShape(a: Maze, b: Maze) {
    |a| == |b| && forall i :: 0 <= i < |a| ==> |a[i]| == |b[i]|
  }

  predicate InBounds(m: Maze, p: Pos) {
    0 <= p.row < |m| && 0 <= p.col < |m[p.row]|
  }

  function CellAt(m: Maze, p: Pos): char
    requires InBounds(m, p)
  {
    m[p.row][p.col]
  }

  // ---------------------------------------------------------------- movement

  /**
   * The cell `makeMove` tries before looking at walls: one step in direction
   * `k`, where stepping off the top or the left edge re-enters at the last
   * row / at column `len(maze[0])-1`, and stepping to row `len(maze)` or
   * column `len(maze[0])` re-enters at 0. Any other token leaves `p`.
   */
  function Target(m: Maze, p: Pos, k: Key): Pos
    requires |m| > 0
  {
    match k
    case Up => Pos(if p.row - 1 < 0 then |m| - 1 else p.row - 1, p.col)
    case Down => Pos(if p.row + 1 == |m| then 0 else p.row + 1, p.col)
    case Right => Pos(p.row, if p.col + 1 == |m[0]| then 0 else p.col + 1)
    case Left => Pos(p.row, if p.col - 1 < 0 then |m[0]| - 1 else p.col - 1)
    case _ => p
  }

  /**
   * `makeMove`: the tried cell unless it is a wall, in which case the move is
   * cancelled. The precondition is exactly what keeps `maze[newRow][newCol]`
   * from panicking.
   */
  function MakeMove(m: Maze, p: Pos, k: Key): (r: Pos)
    requires |m| > 0 && InBounds(m, Target(m, p, k))
    ensures CellAt(m, Target(m, p, k)) == WALL ==> r == p
    ensures CellAt(m, Target(m, p, k)) != WALL ==> r == Target(m, p, k)
    ensures r == p || (InBounds(m, r) && CellAt(m, r) != WALL)
    ensures !IsMove(k) ==> r == p
  {
    var t := Target(m, p, k);
    if m[t.row][t.col] == WALL then p else t
  }

  /** An in-bounds start stays in bounds, and a start off the walls stays off them. */
  lemma MoveStaysInBounds(m: Maze, p: Pos, k: Key)
    requires Rectangular(m) && InBounds(m, p)
    ensures InBounds(m, Target(m, p, k))
    ensures InBounds(m, MakeMove(m, p, k))
    ensures CellAt(m, p) != WALL ==> CellAt(m, MakeMove(m, p, k)) != WALL
  {
  }

  function RowStep(k: Key): int {
    if k == Up then -1 else if k == Down then 1 else 0
  }

  function ColStep(k: Key): int {
    if k == Left then -1 else if k == Right then 1 else 0
  }

  /**
   * The edge tests of `makeMove` are toroidal movement: from an in-bounds
   * start the tried cell is the step taken modulo the row count and modulo
   * the length of the first row.
   */
  lemma TargetIsToroidal(m: Maze, p: Pos, k: Key)
    requires Rectangular(m) && InBounds(m, p)
    ensures Target(m, p, k) == Pos((p.row + RowStep(k)) % |m|, (p.col + ColStep(k)) % |m[0]|)
  {
  }

  /** The four wraparound cases: leaving one edge re-enters at the opposite one. */
  lemma WrapAround(m: Maze, p: Pos)
    requires Rectangular(m) && InBounds(m, p)
    ensures p.row == 0 && m[|m| - 1][p.col] != WALL ==> MakeMove(m, p, Up) == Pos(|m| - 1, p.col)
    ensures p.row == |m| - 1 && m[0][p.col] != WALL ==> MakeMove(m, p, Down) == Pos(0, p.col)
    ensures p.col == |m[0]| - 1 && m[p.row][0] != WALL ==> MakeMove(m, p, Right) == Pos(p.row, 0)
    ensures p.col == 0 && m[p.row][|m[0]| - 1] != WALL ==> MakeMove(m, p, Left) == Pos(p.row, |m[0]| - 1)
  {
  }

  function Opposite(k: Key): Key {
    match k
    case Up => Down
    case Down => Up
    case Right => Left
    case Left => Right
    case _ => k
  }

  /** A move that was not cancelled is undone by the opposite move. */
  lemma MoveThenBack(m: Maze, p: Pos, k: Key)
    requires Rectangular(m) && InBounds(m, p) && CellAt(m, p) != WALL
    requires MakeMove(m, p, k) != p
    ensures MakeMove(m, MakeMove(m, p, k), Opposite(k)) == p
  {
  }

  // ------------------------------------------------------------ eating cells

  /**
   * `removeDot`: row `p.row` becomes `row[0:col] + " " + row[col+1:]`, so
   * exactly that one cell turns into a space and nothing else changes.
   */
  function ClearCell(m: Maze, p: Pos): (r: Maze)
    requires InBounds(m, p)
    ensures |r| == |m|
    ensures forall i :: 0 <= i < |m| ==> |r[i]| == |m[i]|
    ensures r[p.row][p.col] == SPACE
    ensures forall i, j :: 0 <= i < |m| && 0 <= j < |m[i]| && (i != p.row || j != p.col) ==> r[i][j] == m[i][j]
  {
    m[p.row := m[p.row][..p.col] + [SPACE] + m[p.row][p.col + 1..]]
  }

  /** The number of cells of a line holding `ch`. */
  function Count(line: seq<char>, ch: char): nat {
    if line == [] then 0
    else Count(line[..|line| - 1], ch) + (if line[|line| - 1] == ch then 1 else 0)
  }

  /** The number of cells of the maze holding `ch`. */
  function CountAll(m: Maze, ch: char): nat {
    if m == [] then 0
    else CountAll(m[..|m| - 1], ch) + Count(m[|m| - 1], ch)
  }

  lemma {:induction false} CountConcat(a: seq<char>, b: seq<char>, ch: char)
    ensures Count(a + b, ch) == Count(a, ch) + Count(b, ch)
    decreases |b|
  {
    if b == [] {
      assert a + b == a;
    } else {
      assert (a + b)[..|a + b| - 1] == a + b[..|b| - 1];
      CountConcat(a, b[..|b| - 1], ch);
    }
  }

  lemma {:induction false} CountAllUpdate(m: Maze, r: nat, line: seq<char>, ch: char)
    requires r < |m|
    ensures CountAll(m[r := line], ch) == CountAll(m, ch) - Count(m[r], ch) + Count(line, ch)
    decreases |m|
  {
    var n := |m| - 1;
    if r == n {
      assert m[r := line][..n] == m[..n];
    } else {
      assert m[r := line][..n] == m[..n][r := line];
      CountAllUpdate(m[..n], r, line, ch);
    }
  }

  /** Clearing a cell removes it from the count of its old symbol and no other (but space). */
  lemma ClearCellCount(m: Maze, p: Pos, ch: char)
    requires InBounds(m, p) && ch != SPACE
    ensures CountAll(ClearCell(m, p), ch) == CountAll(m, ch) - (if CellAt(m, p) == ch then 1 else 0)
  {
    var line := m[p.row];
    var before, after := line[..p.col], line[p.col + 1..];
    assert line == before + [line[p.col]] + after;
    CountConcat(before + [line[p.col]], after, ch);
    CountConcat(before, [line[p.col]], ch);
    CountConcat(before + [SPACE], after, ch);
    CountConcat(before, [SPACE], ch);
    assert Count([SPACE], ch) == 0 by { assert [SPACE][..0] == []; }
    assert Count([line[p.col]], ch) == (if line[p.col] == ch then 1 else 0) by { assert [line[p.col]][..0] == []; }
    CountAllUpdate(m, p.row, before + [SPACE] + after, ch);
  }

  // --------------------------------------------------------- the maze scan

  /** The cells of one line holding `ch`, left to right, as positions in row `row`. */
  function LineHits(line: seq<char>, row: int, ch: char): seq<Pos> {
    if line == [] then []
    else LineHits(line[..|line| - 1], row, ch) + (if line[|line| - 1] == ch then [Pos(row, |line| - 1)] else [])
  }

  /** The cells of the maze holding `ch`, in row-major order. */
  function Hits(m: Maze, ch: char): seq<Pos> {
    if m == [] then []
    else Hits(m[..|m| - 1], ch) + LineHits(m[|m| - 1], |m| - 1, ch)
  }

  function Last(s: seq<Pos>): Option<Pos> {
    if s == [] then None else Some(s[|s| - 1])
  }

  /** The last cell holding `ch` in row-major order, if any. */
  function LastHit(m: Maze, ch: char): Option<Pos> {
    Last(Hits(m, ch))
  }

  /** Strictly earlier in row-major order. */
  predicate Before(a: Pos, b: Pos) {
    a.row < b.row || (a.row == b.row && a.col < b.col)
  }

  lemma {:induction false} LineHitsSound(line: seq<char>, row: int, ch: char)
    ensures |LineHits(line, row, ch)| == Count(line, ch)
    ensures forall i :: 0 <= i < |LineHits(line, row, ch)| ==>
      LineHits(line, row, ch)[i].row == row && 0 <= LineHits(line, row, ch)[i].col < |line| &&
      line[LineHits(line, row, ch)[i].col] == ch
    ensures forall i, j :: 0 <= i < j < |LineHits(line, row, ch)| ==>
      LineHits(line, row, ch)[i].col < LineHits(line, row, ch)[j].col
    decreases |line|
  {
    if line != [] {
      var init := line[..|line| - 1];
      LineHitsSound(init, row, ch);
      var h := LineHits(init, row, ch);
      assert forall i :: 0 <= i < |h| ==> h[i].col < |init| && line[h[i].col] == init[h[i].col];
    }
  }

  lemma {:induction false} LineHitsComplete(line: seq<char>, row: int, ch: char, c: int)
    requires 0 <= c < |line| && line[c] == ch
    ensures Pos(row, c) in LineHits(line, row, ch)
    decreases |line|
  {
    if c < |line| - 1 {
      var init := line[..|line| - 1];
      assert init[c] == ch;
      LineHitsComplete(init, row, ch, c);
    }
  }

  /**
   * What the scan order means: the positions `Hits` lists are exactly the
   * cells holding `ch`, there are `CountAll` of them, and they come in
   * strictly increasing row-major order (so each cell appears once).
   */
  lemma {:induction false} HitsSound(m: Maze, ch: char)
    ensures |Hits(m, ch)| == CountAll(m, ch)
    ensures forall i :: 0 <= i < |Hits(m, ch)| ==> InBounds(m, Hits(m, ch)[i]) && CellAt(m, Hits(m, ch)[i]) == ch
    ensures forall i, j :: 0 <= i < j < |Hits(m, ch)| ==> Before(Hits(m, ch)[i], Hits(m, ch)[j])
    decreases |m|
  {
    if m != [] {
      var n := |m| - 1;
      var init := m[..n];
      HitsSound(init, ch);
      LineHitsSound(m[n], n, ch);
      var a, b := Hits(init, ch), LineHits(m[n], n, ch);
      assert forall i :: 0 <= i < |a| ==> a[i].row < n && m[a[i].row] == init[a[i].row];
      assert Hits(m, ch) == a + b;
    }
  }

  lemma {:induction false} HitsComplete(m: Maze, ch: char, p: Pos)
    requires InBounds(m, p) && CellAt(m, p) == ch
    ensures p in Hits(m, ch)
    decreases |m|
  {
    var n := |m| - 1;
    if p.row == n {
      LineHitsComplete(m[n], n, ch, p.col);
    } else {
      assert m[..n][p.row] == m[p.row];
      HitsComplete(m[..n], ch, p);
    }
  }

  /**
   * The player spawn the scan keeps is the last `ch` cell in row-major order:
   * it holds `ch` and no `ch` cell comes after it; with no such cell there is none.
   */
  lemma LastHitIsLast(m: Maze, ch: char)
    ensures LastHit(m, ch).None? ==> forall q :: InBounds(m, q) ==> CellAt(m, q) != ch
    ensures LastHit(m, ch).Some? ==>
      var p := LastHit(m, ch).value;
      InBounds(m, p) && CellAt(m, p) == ch &&
      forall q :: InBounds(m, q) && Before(p, q) ==> CellAt(m, q) != ch
  {
    HitsSound(m, ch);
    var h := Hits(m, ch);
    forall q | InBounds(m, q) && CellAt(m, q) == ch
      ensures h != [] && !Before(h[|h| - 1], q)
    {
      HitsComplete(m, ch, q);
      var k :| 0 <= k < |h| && h[k] == q;
      assert k == |h| - 1 || Before(q, h[|h| - 1]);
    }
  }

  /**
   * The inner loops of `loadMaze` once the lines are in memory: visiting the
   * cells row by row, each `P` overwrites the player spawn, each `G` appends
   * a ghost spawn, each `.` adds a dot. Other characters (`X` included) are skipped.
   */
  method ScanMaze(m: Maze) returns (spawn: Option<Pos>, ghostCells: seq<Pos>, dots: nat)
    ensures spawn == LastHit(m, PLAYER)
    ensures ghostCells == Hits(m, GHOST)
    ensures dots == CountAll(m, DOT)
  {
    spawn, ghostCells, dots := None, [], 0;
    var row := 0;
    while row < |m|
      invariant 0 <= row <= |m|
      invariant spawn == LastHit(m[..row], PLAYER)
      invariant ghostCells == Hits(m[..row], GHOST)
      invariant dots == CountAll(m[..row], DOT)
    {
      var line := m[row];
      ghost var players := Hits(m[..row], PLAYER);
      var col := 0;
      while col < |line|
        invariant 0 <= col <= |line|
        invariant spawn == Last(players + LineHits(line[..col], row, PLAYER))
        invariant ghostCells == Hits(m[..row], GHOST) + LineHits(line[..col], row, GHOST)
        invariant dots == CountAll(m[..row], DOT) + Count(line[..col], DOT)
      {
        assert line[..col + 1][..col] == line[..col];
        match line[col] {
          case 'P' =>
            spawn := Some(Pos(row, col));
          case 'G' =>
            ghostCells := ghostCells + [Pos(row, col)];
          case '.' =>
            dots := dots + 1;
          case _ =>
        }
        col := col + 1;
      }
      assert line[..|line|] == line;
      assert m[..row + 1][..row] == m[..row];
      row := row + 1;
    }
    assert m[..|m|] == m;
  }

  /** No cell of the maze holds `ch` exactly when the count of `ch` cells is zero. */
  lemma CountZeroIffAbsent(m: Maze, ch: char)
    ensures CountAll(m, ch) == 0 <==> forall q :: InBounds(m, q) ==> CellAt(m, q) != ch
  {
    HitsSound(m, ch);
    forall q | InBounds(m, q) && CellAt(m, q) == ch
      ensures CountAll(m, ch) > 0
    {
      HitsComplete(m, ch, q);
    }
    if CountAll(m, ch) > 0 {
      var h := Hits(m, ch);
      assert InBounds(m, h[0]) && CellAt(m, h[0]) == ch;
    }
  }

  // ------------------------------------------------------------- game rules

  /** Points for eating a dot and for eating a power pill (`score++`, `score += 10`). */
  const DOT_SCORE := 1
  const PILL_SCORE := 10

  /** The test that ends the game loop of steps 07 to 10: `numDots == 0 || lives <= 0`. */
  predicate GameOver(numDots: int, lives: int) {
    numDots == 0 || lives <= 0
  }
}
