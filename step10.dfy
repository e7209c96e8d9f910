/**
 * Step 10: the finished game. Ghosts carry a status shared by all of them
 * (Normal, or Blue while a power pill is active), collisions compare cells
 * only, a lost life sends the player back to its spawn, the player has three
 * lives, and lives can be drawn as repeated player glyphs.
 */
module Step10 {
  import opened Keys
  import opened Grid

  /** `var lives = 3`. */
  const INITIAL_LIVES := 3

  /** `GhostStatusNormal` and `GhostStatusBlue`. */
  datatype GhostStatus = Normal | Blue

  /** The `ghost` struct: a sprite and its status. */
  datatype Ghost = Ghost(position: Sprite, status: GhostStatus)

  /** All ghosts have one and the same status. */
  predicate SharedStatus(ghosts: seq<Ghost>) {
    forall i, j :: 0 <= i < |ghosts| && 0 <= j < |ghosts| ==> ghosts[i].status == ghosts[j].status
  }

  /** The number of ghosts standing on cell `p`. */
  function GhostsOn(ghosts: seq<Ghost>, p: Pos): nat {
    if ghosts == [] then 0
    else GhostsOn(ghosts[..|ghosts| - 1], p) + (if ghosts[|ghosts| - 1].position.At() == p then 1 else 0)
  }

  // ------------------------------------------------------------ collisions

  /**
   * The collision loop of `main`, ghost by ghost: a ghost on the player's
   * current cell takes a life and, unless lives is then exactly 0, puts the
   * player back on its spawn; later ghosts are compared with that new cell.
   */
  function Collisions(player: Sprite, ghosts: seq<Ghost>, lives: int): (Sprite, int) {
    if ghosts == [] then (player, lives)
    else
      var (p, l) := Collisions(player, ghosts[..|ghosts| - 1], lives);
      if p.At() == ghosts[|ghosts| - 1].position.At() then
        (if l - 1 != 0 then p.MoveTo(p.Start()) else p, l - 1)
      else (p, l)
  }

  /**
   * What the collision phase can do: the spawn never changes, the player
   * ends where it was or on its spawn, each ghost costs at most one life,
   * no lost life means nothing changed, and a lost life with lives left
   * leaves the player on its spawn.
   */
  lemma {:induction false} CollisionsShape(player: Sprite, ghosts: seq<Ghost>, lives: int)
    ensures var (p, l) := Collisions(player, ghosts, lives);
      && p.Start() == player.Start()
      && (p.At() == player.At() || p.At() == player.Start())
      && lives - |ghosts| <= l <= lives
      && (l == lives ==> p == player)
      && (l != lives && l != 0 ==> p.At() == player.Start())
    decreases |ghosts|
  {
    if ghosts != [] {
      CollisionsShape(player, ghosts[..|ghosts| - 1], lives);
    }
  }

  /** A life is lost in the collision phase exactly when some ghost stands on the player's cell. */
  lemma {:induction false} CollisionsLoseLife(player: Sprite, ghosts: seq<Ghost>, lives: int)
    ensures Collisions(player, ghosts, lives).1 < lives <==> GhostsOn(ghosts, player.At()) > 0
    decreases |ghosts|
  {
    if ghosts != [] {
      var init := ghosts[..|ghosts| - 1];
      CollisionsLoseLife(player, init, lives);
      CollisionsShape(player, init, lives);
    }
  }

  /**
   * When the player stands on its own spawn, resetting does not move it, so
   * every ghost on that cell costs a life: two overlapping ghosts cost two.
   */
  lemma {:induction false} CollisionsAtSpawn(player: Sprite, ghosts: seq<Ghost>, lives: int)
    requires player.At() == player.Start()
    ensures Collisions(player, ghosts, lives) == (player, lives - GhostsOn(ghosts, player.At()))
    decreases |ghosts|
  {
    if ghosts != [] {
      CollisionsAtSpawn(player, ghosts[..|ghosts| - 1], lives);
    }
  }

  /**
   * Away from its spawn, the first of two ghosts on the player's cell sends
   * the player home, and the second, still on the old cell, costs nothing.
   */
  lemma ResetShieldsFromSecondGhost(player: Sprite, g: Ghost, lives: int)
    requires g.position.At() == player.At() && player.At() != player.Start() && lives != 1
    ensures Collisions(player, [g, g], lives) == (player.MoveTo(player.Start()), lives - 1)
  {
    assert [g, g][..1] == [g];
    assert [g][..0] == [];
    assert Collisions(player, [], lives) == (player, lives);
    assert Collisions(player, [g], lives) == (player.MoveTo(player.Start()), lives - 1);
  }

  /**
   * A hit that leaves lives at exactly 0 does not send the player home: on
   * its last life the player stays on the ghost's cell.
   */
  lemma LastLifeNoReset(player: Sprite, g: Ghost)
    requires g.position.At() == player.At()
    ensures Collisions(player, [g], 1) == (player, 0)
  {
    assert [g][..0] == [];
    assert Collisions(player, [], 1) == (player, 1);
  }

  /**
   * So a second ghost on that cell still matches, wherever the spawn is:
   * lives go to -1, and since that is not 0 the player is then sent home.
   */
  lemma LastLifeSecondGhost(player: Sprite, g: Ghost)
    requires g.position.At() == player.At()
    ensures Collisions(player, [g, g], 1) == (player.MoveTo(player.Start()), -1)
  {
    assert [g, g][..1] == [g];
    LastLifeNoReset(player, g);
  }

  /** The collision loop as the source runs it. */
  method Collide(player: Sprite, ghosts: seq<Ghost>, lives: int) returns (p: Sprite, remaining: int)
    ensures (p, remaining) == Collisions(player, ghosts, lives)
    ensures remaining < lives <==> GhostsOn(ghosts, player.At()) > 0
    ensures p.Start() == player.Start()
  {
    p, remaining := player, lives;
    for i := 0 to |ghosts|
      invariant (p, remaining) == Collisions(player, ghosts[..i], lives)
    {
      assert ghosts[..i + 1][..i] == ghosts[..i];
      if p.row == ghosts[i].position.row && p.col == ghosts[i].position.col {
        remaining := remaining - 1;
        if remaining != 0 {
          p := p.MoveTo(p.Start());
        }
      }
    }
    assert ghosts[..|ghosts|] == ghosts;
    CollisionsShape(player, ghosts, lives);
    CollisionsLoseLife(player, ghosts, lives);
  }

  // ----------------------------------------------------------- lives glyphs

  /** `s` written `n` times. */
  function Repeat(s: string, n: nat): string {
    if n == 0 then [] else Repeat(s, n - 1) + s
  }

  lemma {:induction false} RepeatLength(s: string, n: nat)
    ensures |Repeat(s, n)| == n * |s|
  {
    if n > 0 {
      RepeatLength(s, n - 1);
      assert n * |s| == (n - 1) * |s| + |s|;
    }
  }

  /** `getLivesAsEmoji`: the player glyph once per remaining life, nothing when lives is 0 or less. */
  method LivesAsEmoji(glyph: string, lives: int) returns (r: string)
    ensures r == Repeat(glyph, if lives > 0 then lives else 0)
    ensures |r| == (if lives > 0 then lives else 0) * |glyph|
  {
    r := [];
    var i := lives;
    while i > 0
      invariant i <= lives && (lives > 0 ==> i >= 0) && (lives <= 0 ==> i == lives)
      invariant r == Repeat(glyph, lives - i)
    {
      r := r + glyph;
      i := i - 1;
    }
    RepeatLength(glyph, if lives > 0 then lives else 0);
  }

  // ------------------------------------------------------ the state as a value

  /** The globals of step 10 taken together as one value. */
  datatype State = State(maze: Maze, player: Sprite, ghosts: seq<Ghost>, score: int, numDots: int, lives: int)

  /**
   * The shape every step-10 state keeps: the maze is rectangular and
   * non-empty, every sprite and the player's spawn are inside it, the ghosts
   * share one status, and `numDots` is the number of `.` cells left.
   */
  predicate Consistent(s: State) {
    && Playable(s.maze)
    && InBounds(s.maze, s.player.At())
    && InBounds(s.maze, s.player.Start())
    && (forall i :: 0 <= i < |s.ghosts| ==> InBounds(s.maze, s.ghosts[i].position.At()))
    && SharedStatus(s.ghosts)
    && s.numDots == CountAll(s.maze, DOT)
  }

  /** The score plus what the dots and pills still on the board are worth. */
  function Worth(s: State): int {
    s.score + DOT_SCORE * CountAll(s.maze, DOT) + PILL_SCORE * CountAll(s.maze, PILL)
  }

  /** `updateGhosts`: the same ghosts in the same places, all with `status`. */
  function WithStatus(ghosts: seq<Ghost>, status: GhostStatus): (r: seq<Ghost>)
    ensures |r| == |ghosts| && SharedStatus(r)
    ensures forall i :: 0 <= i < |r| ==> r[i].position == ghosts[i].position && r[i].status == status
  {
    seq(|ghosts|, i requires 0 <= i < |ghosts| => ghosts[i].(status := status))
  }

  /**
   * The `switch` of `movePlayer` on the cell under the player: `.` eats a
   * dot for one point, `X` scores ten, leaves `numDots` alone and turns
   * every ghost Blue (`processPill`); either way `removeDot` clears that
   * one cell. Any other cell changes nothing.
   */
  function Eat(s: State): (t: State)
    requires Consistent(s)
    ensures Consistent(t) && Worth(t) == Worth(s) && t.score >= s.score
    ensures t.player == s.player && t.lives == s.lives && |t.ghosts| == |s.ghosts|
    ensures forall i :: 0 <= i < |t.ghosts| ==> t.ghosts[i].position == s.ghosts[i].position
    ensures SameShape(t.maze, s.maze)
  {
    var here := s.player.At();
    ClearCellCount(s.maze, here, DOT);
    ClearCellCount(s.maze, here, PILL);
    if CellAt(s.maze, here) == DOT then
      s.(maze := ClearCell(s.maze, here), numDots := s.numDots - 1, score := s.score + DOT_SCORE)
    else if CellAt(s.maze, here) == PILL then
      s.(maze := ClearCell(s.maze, here), score := s.score + PILL_SCORE, ghosts := WithStatus(s.ghosts, Blue))
    else
      s
  }

  /** `movePlayer`: the player moves by `makeMove`, then eats what it lands on. */
  function PlayerMoved(s: State, k: Key): (t: State)
    requires Consistent(s)
    ensures Consistent(t) && Worth(t) == Worth(s) && t.score >= s.score
    ensures t.player == s.player.MoveTo(MakeMove(s.maze, s.player.At(), k))
    ensures t.lives == s.lives && |t.ghosts| == |s.ghosts|
    ensures forall i :: 0 <= i < |t.ghosts| ==> t.ghosts[i].position == s.ghosts[i].position
    ensures SameShape(t.maze, s.maze)
  {
    MoveStaysInBounds(s.maze, s.player.At(), k);
    Eat(s.(player := s.player.MoveTo(MakeMove(s.maze, s.player.At(), k))))
  }

  /**
   * What `movePlayer` does, cell by cell: a `.` under the player becomes a
   * space, scores one point and takes one from `numDots`; an `X` becomes a
   * space, scores ten and turns every ghost Blue; any other cell under the
   * player, every other cell and otherwise the ghosts stay as they were.
   */
  lemma PlayerMovedEats(s: State, k: Key)
    requires Consistent(s)
    ensures var t := PlayerMoved(s, k); var was := CellAt(s.maze, t.player.At());
      && CellAt(t.maze, t.player.At()) == (if was == DOT || was == PILL then SPACE else was)
      && t.score == s.score + (if was == DOT then DOT_SCORE else if was == PILL then PILL_SCORE else 0)
      && t.numDots == s.numDots - (if was == DOT then 1 else 0)
      && t.ghosts == (if was == PILL then WithStatus(s.ghosts, Blue) else s.ghosts)
      && forall q :: InBounds(s.maze, q) && q != t.player.At() ==> CellAt(t.maze, q) == CellAt(s.maze, q)
  {
  }

  /** `moveGhosts`: ghost `i` moves by `makeMove` in the direction drawn from `draws[i]`, keeping its spawn and status. */
  function GhostsMoved(s: State, draws: seq<int>): (t: State)
    requires Consistent(s) && |draws| == |s.ghosts|
    ensures Consistent(t) && t == s.(ghosts := t.ghosts) && |t.ghosts| == |s.ghosts|
    ensures forall i :: 0 <= i < |t.ghosts| ==>
      t.ghosts[i].status == s.ghosts[i].status && t.ghosts[i].position.Start() == s.ghosts[i].position.Start()
  {
    var r := seq(|s.ghosts|, i requires 0 <= i < |s.ghosts| =>
      s.ghosts[i].(position := s.ghosts[i].position.MoveTo(
        MakeMove(s.maze, s.ghosts[i].position.At(), DrawDirection(draws[i])))));
    assert forall i :: 0 <= i < |r| ==> r[i].status == s.ghosts[i].status;
    s.(ghosts := r)
  }

  /** The collision loop of `main` on a state: `Collisions` sets the player and lives. */
  function Collided(s: State): (t: State)
    requires Consistent(s)
    ensures Consistent(t) && t == s.(player := t.player, lives := t.lives)
    ensures t.player.Start() == s.player.Start() && s.lives - |s.ghosts| <= t.lives <= s.lives
  {
    CollisionsShape(s.player, s.ghosts, s.lives);
    var after := Collisions(s.player, s.ghosts, s.lives);
    s.(player := after.0, lives := after.1)
  }

  /**
   * The key phase of a tick: no key changes nothing; ESC forces lives to 0
   * and then, like any other key, moves the player.
   */
  function KeyHandled(s: State, input: Option<Key>): (t: State)
    requires Consistent(s)
    ensures Consistent(t) && Worth(t) == Worth(s) && t.score >= s.score
    ensures |t.ghosts| == |s.ghosts| && SameShape(t.maze, s.maze) && t.player.Start() == s.player.Start()
    ensures t.lives == (if input == Some(Esc) then 0 else s.lives)
    ensures input.None? ==> t == s
  {
    if input.None? then s
    else PlayerMoved(if input.value == Esc then s.(lives := 0) else s, input.value)
  }

  /**
   * One pass of the game loop: a key, if one arrived, first forces lives to
   * 0 when it is ESC and then moves the player; the ghosts move; then the
   * collisions. The state stays consistent, the score plus the board's
   * worth is kept, the score never falls, the player keeps its spawn, and
   * lives end no higher than before or than the 0 that ESC forces; after
   * ESC the game is over.
   */
  function AfterTick(s: State, input: Option<Key>, draws: seq<int>): (t: State)
    requires Consistent(s) && |draws| == |s.ghosts|
    ensures Consistent(t) && Worth(t) == Worth(s) && t.score >= s.score
    ensures SameShape(t.maze, s.maze) && |t.ghosts| == |s.ghosts| && t.player.Start() == s.player.Start()
    ensures t.lives <= s.lives || t.lives <= 0
    ensures input == Some(Esc) ==> GameOver(t.numDots, t.lives)
  {
    Collided(GhostsMoved(KeyHandled(s, input), draws))
  }

  /**
   * The collisions of a tick, from the lives left after the key: a life is
   * lost exactly when some moved ghost stands on the moved player's cell, a
   * lost life that leaves lives other than 0 puts the player on its spawn,
   * and without a lost life the player stays where the key put it.
   */
  lemma TickCollisions(s: State, input: Option<Key>, draws: seq<int>)
    requires Consistent(s) && |draws| == |s.ghosts|
    ensures var k := KeyHandled(s, input); var t := AfterTick(s, input, draws);
      && (t.lives < k.lives <==> GhostsOn(GhostsMoved(k, draws).ghosts, k.player.At()) > 0)
      && (t.lives != k.lives && t.lives != 0 ==> t.player.At() == s.player.Start())
      && (t.lives == k.lives ==> t.player == k.player)
  {
    var k := KeyHandled(s, input);
    var g := GhostsMoved(k, draws);
    CollisionsLoseLife(k.player, g.ghosts, k.lives);
    CollisionsShape(k.player, g.ghosts, k.lives);
  }

  /**
   * `trace` is a run of the game loop: each state is consistent and comes
   * from the one before by a tick on that tick's key and draws, and
   * `overs[t]` is the loop's end test after tick `t`.
   */
  predicate IsRun(trace: seq<State>, inputs: seq<Option<Key>>, draws: seq<seq<int>>, overs: seq<bool>) {
    && |trace| == |overs| + 1 && |overs| <= |inputs| && |overs| <= |draws|
    && (forall t :: 0 <= t < |overs| ==>
          && Consistent(trace[t]) && |draws[t]| == |trace[t].ghosts|
          && trace[t + 1] == AfterTick(trace[t], inputs[t], draws[t])
          && overs[t] == GameOver(trace[t + 1].numDots, trace[t + 1].lives))
  }

  /** A run followed by one more tick from its last state is a run. */
  lemma RunExtend(trace: seq<State>, inputs: seq<Option<Key>>, draws: seq<seq<int>>, overs: seq<bool>, over: bool)
    requires IsRun(trace, inputs, draws, overs) && |overs| < |inputs| && |overs| < |draws|
    requires Consistent(trace[|overs|]) && |draws[|overs|]| == |trace[|overs|].ghosts|
    requires over == GameOver(AfterTick(trace[|overs|], inputs[|overs|], draws[|overs|]).numDots,
                              AfterTick(trace[|overs|], inputs[|overs|], draws[|overs|]).lives)
    ensures IsRun(trace + [AfterTick(trace[|overs|], inputs[|overs|], draws[|overs|])], inputs, draws, overs + [over])
  {
    var run := trace + [AfterTick(trace[|overs|], inputs[|overs|], draws[|overs|])];
    var ends := overs + [over];
    forall t | 0 <= t < |ends|
      ensures && Consistent(run[t]) && |draws[t]| == |run[t].ghosts|
              && run[t + 1] == AfterTick(run[t], inputs[t], draws[t])
              && ends[t] == GameOver(run[t + 1].numDots, run[t + 1].lives)
    {
      assert run[t] == trace[t];
      if t < |overs| {
        assert run[t + 1] == trace[t + 1] && ends[t] == overs[t];
      }
    }
  }

  /**
   * Across a run the score never falls, lives end no higher than at the
   * start or than 0, the ghosts stay as many, the maze keeps its shape and
   * the player its spawn.
   */
  lemma {:induction false} RunKeeps(trace: seq<State>, inputs: seq<Option<Key>>, draws: seq<seq<int>>, overs: seq<bool>)
    requires IsRun(trace, inputs, draws, overs)
    ensures trace[|overs|].score >= trace[0].score
    ensures trace[|overs|].lives <= trace[0].lives || trace[|overs|].lives <= 0
    ensures |trace[|overs|].ghosts| == |trace[0].ghosts| && SameShape(trace[|overs|].maze, trace[0].maze)
    ensures trace[|overs|].player.Start() == trace[0].player.Start()
    decreases |overs|
  {
    if |overs| > 0 {
      var n := |overs| - 1;
      var init := trace[..n + 1];
      assert forall t :: 0 <= t <= n ==> init[t] == trace[t];
      assert IsRun(init, inputs, draws, overs[..n]);
      RunKeeps(init, inputs, draws, overs[..n]);
    }
  }

  // -------------------------------------------------------------- the game

  /**
   * The global state of step 10. `pointsAtLoad` is the score the maze holds
   * at load time: one per dot and ten per pill.
   */
  class Game {
    var maze: Maze
    var player: Sprite
    var ghosts: seq<Ghost>
    var score: int
    var numDots: int
    var lives: int
    ghost const pointsAtLoad: int

    ghost function Snapshot(): State
      reads this
    {
      State(maze, player, ghosts, score, numDots, lives)
    }

    /** The fields are `Consistent`, and every dot or pill gone has been scored. */
    ghost predicate Valid()
      reads this
    {
      Consistent(Snapshot()) && Worth(Snapshot()) == pointsAtLoad
    }

    /**
     * `loadMaze` after the file is read: the last `P` becomes the player and
     * every `G`, in row-major order, a Normal ghost, each with its own cell
     * as spawn; `numDots` counts `.` only.
     */
    constructor Load(lines: Maze)
      ensures maze == lines
      ensures player == (if LastHit(lines, PLAYER).Some? then Spawn(LastHit(lines, PLAYER).value) else Sprite(0, 0, 0, 0))
      ensures |ghosts| == |Hits(lines, GHOST)|
      ensures forall i :: 0 <= i < |ghosts| ==> ghosts[i] == Ghost(Spawn(Hits(lines, GHOST)[i]), Normal)
      ensures numDots == CountAll(lines, DOT) && score == 0 && lives == INITIAL_LIVES
      ensures Playable(lines) ==> Valid()
    {
      var spawn, cells, dots := ScanMaze(lines);
      maze := lines;
      player := if spawn.Some? then Spawn(spawn.value) else Sprite(0, 0, 0, 0);
      ghosts := seq(|cells|, i requires 0 <= i < |cells| => Ghost(Spawn(cells[i]), Normal));
      score, numDots, lives := 0, dots, INITIAL_LIVES;
      pointsAtLoad := DOT_SCORE * dots + PILL_SCORE * CountAll(lines, PILL);
      new;
      LastHitIsLast(lines, PLAYER);
      HitsSound(lines, GHOST);
    }

    /** `updateGhosts`, proved against `WithStatus`. */
    method UpdateGhosts(status: GhostStatus)
      modifies this`ghosts
      ensures ghosts == WithStatus(old(ghosts), status)
      ensures old(Valid()) ==> Valid()
    {
      var i := 0;
      while i < |ghosts|
        invariant 0 <= i <= |ghosts| == |old(ghosts)|
        invariant forall j :: 0 <= j < i ==> ghosts[j] == old(ghosts[j]).(status := status)
        invariant forall j :: i <= j < |ghosts| ==> ghosts[j] == old(ghosts[j])
      {
        ghosts := ghosts[i := ghosts[i].(status := status)];
        i := i + 1;
      }
      assert ghosts == WithStatus(old(ghosts), status);
    }

    /** The start of `processPill`: the ghosts turn Blue (the countdown itself is not modelled). */
    method ProcessPill()
      modifies this`ghosts
      ensures ghosts == WithStatus(old(ghosts), Blue)
      ensures old(Valid()) ==> Valid()
    {
      UpdateGhosts(Blue);
    }

    /** The end of `processPill`, when the pill timer fires: the ghosts turn Normal again. */
    method PillTimerFired()
      modifies this`ghosts
      ensures ghosts == WithStatus(old(ghosts), Normal)
      ensures old(Valid()) ==> Valid()
    {
      UpdateGhosts(Normal);
    }

    /** `movePlayer`, proved against `PlayerMoved`. */
    method MovePlayer(k: Key)
      requires Valid()
      modifies this
      ensures Snapshot() == PlayerMoved(old(Snapshot()), k)
      ensures Valid()
    {
      MoveStaysInBounds(maze, player.At(), k);
      player := player.MoveTo(MakeMove(maze, player.At(), k));
      ghost var moved := Snapshot();
      assert Consistent(moved) && Eat(moved) == PlayerMoved(old(Snapshot()), k);
      var here := player.At();
      match CellAt(maze, here) {
        case '.' =>
          numDots := numDots - 1;
          score := score + DOT_SCORE;
          maze := ClearCell(maze, here);
          assert Snapshot() == Eat(moved);
        case 'X' =>
          score := score + PILL_SCORE;
          maze := ClearCell(maze, here);
          ProcessPill();
          assert Snapshot() == Eat(moved);
        case _ =>
          assert Snapshot() == Eat(moved);
      }
    }

    /** `moveGhosts`, proved against `GhostsMoved`. */
    method MoveGhosts(draws: seq<int>)
      requires Valid() && |draws| == |ghosts|
      modifies this`ghosts
      ensures Snapshot() == GhostsMoved(old(Snapshot()), draws)
      ensures Valid()
    {
      var i := 0;
      while i < |ghosts|
        invariant 0 <= i <= |ghosts| == |old(ghosts)|
        invariant forall j :: 0 <= j < i ==>
          ghosts[j] == old(ghosts[j]).(position := old(ghosts[j]).position.MoveTo(
            MakeMove(maze, old(ghosts[j]).position.At(), DrawDirection(draws[j]))))
        invariant forall j :: i <= j < |ghosts| ==> ghosts[j] == old(ghosts[j])
      {
        var g := ghosts[i];
        ghosts := ghosts[i := g.(position := g.position.MoveTo(MakeMove(maze, g.position.At(), DrawDirection(draws[i]))))];
        i := i + 1;
      }
      assert ghosts == GhostsMoved(old(Snapshot()), draws).ghosts;
    }

    /** The "process movement" block of the loop, proved against `KeyHandled`. */
    method ProcessMovement(input: Option<Key>)
      requires Valid()
      modifies this
      ensures Snapshot() == KeyHandled(old(Snapshot()), input)
      ensures Valid()
    {
      if input.Some? {
        if input.value == Esc {
          lives := 0;
        }
        assert Snapshot() == (if input.value == Esc then old(Snapshot()).(lives := 0) else old(Snapshot()));
        MovePlayer(input.value);
      }
    }

    /** The "process collisions" block of the loop, proved against `Collided`. */
    method ProcessCollisions()
      requires Valid()
      modifies this`player, this`lives
      ensures Snapshot() == Collided(old(Snapshot()))
      ensures Valid()
    {
      ghost var s := Snapshot();
      var p, remaining := Collide(player, ghosts, lives);
      assert (p, remaining) == Collisions(s.player, s.ghosts, s.lives);
      player, lives := p, remaining;
      assert Snapshot() == s.(player := p, lives := remaining);
    }

    /** One pass of the game loop, proved against `AfterTick`; `over` is the loop's end test. */
    method Tick(input: Option<Key>, draws: seq<int>) returns (over: bool)
      requires Valid() && |draws| == |ghosts|
      modifies this
      ensures Snapshot() == AfterTick(old(Snapshot()), input, draws)
      ensures over <==> GameOver(numDots, lives)
      ensures Valid()
    {
      ProcessMovement(input);
      MoveGhosts(draws);
      ProcessCollisions();
      over := numDots == 0 || lives <= 0;
    }

    /**
     * The game loop over the keys and draws of successive ticks: `trace` is
     * the run it makes, from the state it starts in to the one it leaves,
     * and it stops after the first tick that reports game over, or when the
     * inputs run out.
     */
    method Play(inputs: seq<Option<Key>>, draws: seq<seq<int>>)
      returns (ticks: nat, over: bool, ghost trace: seq<State>, ghost overs: seq<bool>)
      requires Valid() && |draws| == |inputs|
      requires forall t :: 0 <= t < |draws| ==> |draws[t]| == |ghosts|
      modifies this
      ensures Valid()
      ensures IsRun(trace, inputs, draws, overs) && |overs| == ticks
      ensures trace[0] == old(Snapshot()) && trace[ticks] == Snapshot()
      ensures forall t :: 0 <= t < ticks ==> (overs[t] <==> t == ticks - 1 && over)
      ensures over ==> ticks > 0
      ensures !over ==> ticks == |inputs|
      ensures score >= old(score) && (lives <= old(lives) || lives <= 0)
      ensures |ghosts| == |old(ghosts)| && SameShape(maze, old(maze)) && player.Start() == old(player).Start()
    {
      ticks, over, trace, overs := 0, false, [Snapshot()], [];
      while ticks < |inputs| && !over
        invariant Valid() && |ghosts| == |old(ghosts)|
        invariant IsRun(trace, inputs, draws, overs) && |overs| == ticks
        invariant trace[0] == old(Snapshot()) && trace[ticks] == Snapshot()
        invariant forall t :: 0 <= t < ticks ==> (overs[t] <==> t == ticks - 1 && over)
        invariant over ==> ticks > 0
      {
        over := Tick(inputs[ticks], draws[ticks]);
        RunExtend(trace, inputs, draws, overs, over);
        trace, overs := trace + [Snapshot()], overs + [over];
        ticks := ticks + 1;
      }
      RunKeeps(trace, inputs, draws, overs);
    }
  }
}
