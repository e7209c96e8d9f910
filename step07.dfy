/**
 * Step 07: ghosts and dots. Sprites are row/column only, the player eats
 * dots (`X` cells are ignored), ghosts wander at random, every ghost on the
 * player's cell costs a life and there is no respawn.
 */
module Step07 {
  import opened Keys
  import opened Grid

  /** `var lives = 1`. */
  const INITIAL_LIVES := 1

  /**
   * The collision loop of `main`: `player == *ghost` on two-field sprites,
   * so each ghost standing on the player's cell takes one life.
   */
  method Collide(player: Pos, ghosts: seq<Pos>, lives: int) returns (remaining: int)
    ensures remaining == lives - multiset(ghosts)[player]
    ensures remaining == lives <==> player !in ghosts
    ensures lives - |ghosts| <= remaining <= lives
  {
    remaining := lives;
    for i := 0 to |ghosts|
      invariant remaining == lives - multiset(ghosts[..i])[player]
      invariant lives - i <= remaining <= lives
    {
      assert ghosts[..i + 1] == ghosts[..i] + [ghosts[i]];
      if player == ghosts[i] {
        remaining := remaining - 1;
      }
    }
    assert ghosts[..|ghosts|] == ghosts;
  }

  // ------------------------------------------------------ the state as a value

  /** The globals of step 07 taken together as one value. */
  datatype State = State(maze: Maze, player: Pos, ghosts: seq<Pos>, score: int, numDots: int, lives: int)

  /**
   * The shape every step-07 state keeps: the maze is rectangular and
   * non-empty, every sprite is inside it, and `numDots` is the number of `.`
   * cells left.
   */
  predicate Consistent(s: State) {
    && Playable(s.maze)
    && InBounds(s.maze, s.player)
    && (forall i :: 0 <= i < |s.ghosts| ==> InBounds(s.maze, s.ghosts[i]))
    && s.numDots == CountAll(s.maze, DOT)
  }

  /** The score plus what the dots still on the board are worth. */
  function Worth(s: State): int {
    s.score + DOT_SCORE * CountAll(s.maze, DOT)
  }

  /**
   * `movePlayer`: the player moves by `makeMove`; landing on `.` eats the
   * dot for one point and `removeDot` clears that cell. `X` is not food yet.
   */
  function PlayerMoved(s: State, k: Key): (t: State)
    requires Consistent(s)
    ensures Consistent(t) && Worth(t) == Worth(s) && t.score >= s.score
    ensures t.player == MakeMove(s.maze, s.player, k)
    ensures t.ghosts == s.ghosts && t.lives == s.lives
    ensures SameShape(t.maze, s.maze)
  {
    MoveStaysInBounds(s.maze, s.player, k);
    var p := MakeMove(s.maze, s.player, k);
    ClearCellCount(s.maze, p, DOT);
    if CellAt(s.maze, p) == DOT then
      s.(player := p, maze := ClearCell(s.maze, p), numDots := s.numDots - 1, score := s.score + DOT_SCORE)
    else
      s.(player := p)
  }

  /**
   * What `movePlayer` does to the board, cell by cell: a `.` under the
   * player becomes a space, scores one point and takes one from `numDots`;
   * any other cell under the player, and every other cell, stays as it was.
   */
  lemma PlayerMovedEats(s: State, k: Key)
    requires Consistent(s)
    ensures var t := PlayerMoved(s, k); var was := CellAt(s.maze, t.player);
      && CellAt(t.maze, t.player) == (if was == DOT then SPACE else was)
      && t.score == s.score + (if was == DOT then DOT_SCORE else 0)
      && t.numDots == s.numDots - (if was == DOT then 1 else 0)
      && forall q :: InBounds(s.maze, q) && q != t.player ==> CellAt(t.maze, q) == CellAt(s.maze, q)
  {
  }

  /** `moveGhosts`: ghost `i` moves by `makeMove` in the direction drawn from `draws[i]`. */
  function GhostsMoved(s: State, draws: seq<int>): (t: State)
    requires Consistent(s) && |draws| == |s.ghosts|
    ensures Consistent(t) && t == s.(ghosts := t.ghosts) && |t.ghosts| == |s.ghosts|
  {
    s.(ghosts := seq(|s.ghosts|, i requires 0 <= i < |s.ghosts| =>
      MakeMove(s.maze, s.ghosts[i], DrawDirection(draws[i]))))
  }

  /** The collision loop of `main`: each ghost on the player's cell takes a life. */
  function Collided(s: State): State {
    s.(lives := s.lives - multiset(s.ghosts)[s.player])
  }

  /**
   * The key phase of a tick: no key changes nothing; ESC forces lives to 0
   * and then, like any other key, moves the player.
   */
  function KeyHandled(s: State, input: Option<Key>): (t: State)
    requires Consistent(s)
    ensures Consistent(t) && Worth(t) == Worth(s) && t.score >= s.score
    ensures t.ghosts == s.ghosts && SameShape(t.maze, s.maze)
    ensures t.lives == (if input == Some(Esc) then 0 else s.lives)
    ensures input.None? ==> t == s
  {
    if input.None? then s
    else PlayerMoved(if input.value == Esc then s.(lives := 0) else s, input.value)
  }

  /**
   * One pass of the game loop: a key, if one arrived, first forces lives to
   * 0 when it is ESC and then moves the player; the ghosts move; then the
   * collisions. The state stays consistent, the score plus the board's
   * worth is kept, the score never falls, and lives end no higher than
   * before or than the 0 that ESC forces; after ESC the game is over.
   */
  function AfterTick(s: State, input: Option<Key>, draws: seq<int>): (t: State)
    requires Consistent(s) && |draws| == |s.ghosts|
    ensures Consistent(t) && Worth(t) == Worth(s) && t.score >= s.score
    ensures SameShape(t.maze, s.maze) && |t.ghosts| == |s.ghosts|
    ensures t.lives <= s.lives || t.lives <= 0
    ensures input == Some(Esc) ==> GameOver(t.numDots, t.lives)
  {
    Collided(GhostsMoved(KeyHandled(s, input), draws))
  }

  /**
   * A tick costs exactly one life per ghost that ends it on the player's
   * cell, counted from the lives left after the key (0 after ESC).
   */
  lemma TickLosesOnePerGhost(s: State, input: Option<Key>, draws: seq<int>)
    requires Consistent(s) && |draws| == |s.ghosts|
    ensures var t := AfterTick(s, input, draws);
      && t.lives == (if input == Some(Esc) then 0 else s.lives) - multiset(t.ghosts)[t.player]
      && (t.lives == (if input == Some(Esc) then 0 else s.lives) <==> t.player !in t.ghosts)
  {
  }

  /**
   * `trace` is a run of the game loop: each state is consistent and comes
   * from the one before by a tick on that tick's key and draws, and
   * `overs[t]` is the loop's end test after tick `t`.
   */
  predicate IsRun(trace: seq<State>, inputs: seq<Option<Key>>, draws: seq<seq<int>>, overs: seq<bool>) {
    && |trace| == |overs| + 1 && |overs| <= |inputs| && |overs| <= |draws|
    && (forall t :: 0 <= t < |overs| ==>
          && Consistent(trace[t]) && |draws[t]| == |trace[t].ghosts|
          && trace[t + 1] == AfterTick(trace[t], inputs[t], draws[t])
          && overs[t] == GameOver(trace[t + 1].numDots, trace[t + 1].lives))
  }

  /** A run followed by one more tick from its last state is a run. */
  lemma RunExtend(trace: seq<State>, inputs: seq<Option<Key>>, draws: seq<seq<int>>, overs: seq<bool>, over: bool)
    requires IsRun(trace, inputs, draws, overs) && |overs| < |inputs| && |overs| < |draws|
    requires Consistent(trace[|overs|]) && |draws[|overs|]| == |trace[|overs|].ghosts|
    requires over == GameOver(AfterTick(trace[|overs|], inputs[|overs|], draws[|overs|]).numDots,
                              AfterTick(trace[|overs|], inputs[|overs|], draws[|overs|]).lives)
    ensures IsRun(trace + [AfterTick(trace[|overs|], inputs[|overs|], draws[|overs|])], inputs, draws, overs + [over])
  {
    var run := trace + [AfterTick(trace[|overs|], inputs[|overs|], draws[|overs|])];
    var ends := overs + [over];
    forall t | 0 <= t < |ends|
      ensures && Consistent(run[t]) && |draws[t]| == |run[t].ghosts|
              && run[t + 1] == AfterTick(run[t], inputs[t], draws[t])
              && ends[t] == GameOver(run[t + 1].numDots, run[t + 1].lives)
    {
      assert run[t] == trace[t];
      if t < |overs| {
        assert run[t + 1] == trace[t + 1] && ends[t] == overs[t];
      }
    }
  }

  /**
   * Across a run the score never falls, lives end no higher than at the
   * start or than 0, the ghosts stay as many and the maze keeps its shape.
   */
  lemma {:induction false} RunKeeps(trace: seq<State>, inputs: seq<Option<Key>>, draws: seq<seq<int>>, overs: seq<bool>)
    requires IsRun(trace, inputs, draws, overs)
    ensures trace[|overs|].score >= trace[0].score
    ensures trace[|overs|].lives <= trace[0].lives || trace[|overs|].lives <= 0
    ensures |trace[|overs|].ghosts| == |trace[0].ghosts| && SameShape(trace[|overs|].maze, trace[0].maze)
    decreases |overs|
  {
    if |overs| > 0 {
      var n := |overs| - 1;
      var init := trace[..n + 1];
      assert forall t :: 0 <= t <= n ==> init[t] == trace[t];
      assert IsRun(init, inputs, draws, overs[..n]);
      RunKeeps(init, inputs, draws, overs[..n]);
    }
  }

  // -------------------------------------------------------------- the game

  /**
   * The global state of step 07. `pointsAtLoad` is the score the maze holds
   * at load time: one per dot.
   */
  class Game {
    var maze: Maze
    var player: Pos
    var ghosts: seq<Pos>
    var score: int
    var numDots: int
    var lives: int
    ghost const pointsAtLoad: int

    ghost function Snapshot(): State
      reads this
    {
      State(maze, player, ghosts, score, numDots, lives)
    }

    /** The fields are `Consistent`, and every dot gone has been scored. */
    ghost predicate Valid()
      reads this
    {
      Consistent(Snapshot()) && Worth(Snapshot()) == pointsAtLoad
    }

    /** `loadMaze` after the file is read: last `P`, every `G` in row-major order, the `.` count. */
    constructor Load(lines: Maze)
      ensures maze == lines
      ensures player == (if LastHit(lines, PLAYER).Some? then LastHit(lines, PLAYER).value else Pos(0, 0))
      ensures ghosts == Hits(lines, GHOST)
      ensures numDots == CountAll(lines, DOT) && score == 0 && lives == INITIAL_LIVES
      ensures Playable(lines) ==> Valid()
    {
      var spawn, cells, dots := ScanMaze(lines);
      maze := lines;
      player := if spawn.Some? then spawn.value else Pos(0, 0);
      ghosts := cells;
      score, numDots, lives := 0, dots, INITIAL_LIVES;
      pointsAtLoad := DOT_SCORE * dots;
      new;
      LastHitIsLast(lines, PLAYER);
      HitsSound(lines, GHOST);
    }

    /** `movePlayer`, proved against `PlayerMoved`. */
    method MovePlayer(k: Key)
      requires Valid()
      modifies this
      ensures Snapshot() == PlayerMoved(old(Snapshot()), k)
      ensures Valid()
    {
      MoveStaysInBounds(maze, player, k);
      player := MakeMove(maze, player, k);
      if CellAt(maze, player) == DOT {
        numDots := numDots - 1;
        score := score + DOT_SCORE;
        maze := ClearCell(maze, player);
      }
    }

    /** `moveGhosts`, proved against `GhostsMoved`. */
    method MoveGhosts(draws: seq<int>)
      requires Valid() && |draws| == |ghosts|
      modifies this`ghosts
      ensures Snapshot() == GhostsMoved(old(Snapshot()), draws)
      ensures Valid()
    {
      var i := 0;
      while i < |ghosts|
        invariant 0 <= i <= |ghosts| == |old(ghosts)|
        invariant forall j :: 0 <= j < i ==> ghosts[j] == MakeMove(maze, old(ghosts[j]), DrawDirection(draws[j]))
        invariant forall j :: i <= j < |ghosts| ==> ghosts[j] == old(ghosts[j])
      {
        ghosts := ghosts[i := MakeMove(maze, ghosts[i], DrawDirection(draws[i]))];
        i := i + 1;
      }
      assert ghosts == GhostsMoved(old(Snapshot()), draws).ghosts;
    }

    /** The "process movement" block of the loop, proved against `KeyHandled`. */
    method ProcessMovement(input: Option<Key>)
      requires Valid()
      modifies this
      ensures Snapshot() == KeyHandled(old(Snapshot()), input)
      ensures Valid()
    {
      if input.Some? {
        if input.value == Esc {
          lives := 0;
        }
        assert Snapshot() == (if input.value == Esc then old(Snapshot()).(lives := 0) else old(Snapshot()));
        MovePlayer(input.value);
      }
    }

    /** The "process collisions" block of the loop, proved against `Collided`. */
    method ProcessCollisions()
      requires Valid()
      modifies this`lives
      ensures Snapshot() == Collided(old(Snapshot()))
      ensures Valid()
    {
      ghost var s := Snapshot();
      var remaining := Collide(player, ghosts, lives);
      assert remaining == Collided(s).lives;
      lives := remaining;
      assert Snapshot() == s.(lives := remaining);
    }

    /** One pass of the game loop, proved against `AfterTick`; `over` is the loop's end test. */
    method Tick(input: Option<Key>, draws: seq<int>) returns (over: bool)
      requires Valid() && |draws| == |ghosts|
      modifies this
      ensures Snapshot() == AfterTick(old(Snapshot()), input, draws)
      ensures over <==> GameOver(numDots, lives)
      ensures Valid()
    {
      ProcessMovement(input);
      MoveGhosts(draws);
      ProcessCollisions();
      over := numDots == 0 || lives <= 0;
    }

    /**
     * The game loop over the keys and draws of successive ticks: `trace` is
     * the run it makes, from the state it starts in to the one it leaves,
     * and it stops after the first tick that reports game over, or when the
     * inputs run out.
     */
    method Play(inputs: seq<Option<Key>>, draws: seq<seq<int>>)
      returns (ticks: nat, over: bool, ghost trace: seq<State>, ghost overs: seq<bool>)
      requires Valid() && |draws| == |inputs|
      requires forall t :: 0 <= t < |draws| ==> |draws[t]| == |ghosts|
      modifies this
      ensures Valid()
      ensures IsRun(trace, inputs, draws, overs) && |overs| == ticks
      ensures trace[0] == old(Snapshot()) && trace[ticks] == Snapshot()
      ensures forall t :: 0 <= t < ticks ==> (overs[t] <==> t == ticks - 1 && over)
      ensures over ==> ticks > 0
      ensures !over ==> ticks == |inputs|
      ensures score >= old(score) && (lives <= old(lives) || lives <= 0)
      ensures |ghosts| == |old(ghosts)| && SameShape(maze, old(maze))
    {
      ticks, over, trace, overs := 0, false, [Snapshot()], [];
      while ticks < |inputs| && !over
        invariant Valid() && |ghosts| == |old(ghosts)|
        invariant IsRun(trace, inputs, draws, overs) && |overs| == ticks
        invariant trace[0] == old(Snapshot()) && trace[ticks] == Snapshot()
        invariant forall t :: 0 <= t < ticks ==> (overs[t] <==> t == ticks - 1 && over)
        invariant over ==> ticks > 0
      {
        over := Tick(inputs[ticks], draws[ticks]);
        RunExtend(trace, inputs, draws, overs, over);
        trace, overs := trace + [Snapshot()], overs + [over];
        ticks := ticks + 1;
      }
      RunKeeps(trace, inputs, draws, overs);
    }
  }
}
