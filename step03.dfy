/**
 * Step 03: a maze with a player only. Loading keeps the last `P`; the loop
 * draws, reads one key and stops on ESC or on a read error. `movePlayer`
 * exists but the loop never calls it.
 */
module Step03 {
  import opened Keys
  import opened Grid

  /** Why the main loop stopped; InputExhausted stands for a read that never returns. */
  datatype Exit = InputError | Quit | InputExhausted

  /** The global state of step 03: `maze` and the two-field `player` sprite. */
  class Game {
    var maze: Maze
    var player: Pos

    ghost predicate Valid()
      reads this
    {
      Playable(maze) && InBounds(maze, player)
    }

    /**
     * `loadMaze` after the file is read: the player is the last `P` in
     * row-major order, or stays the zero sprite when there is none.
     */
    constructor Load(lines: Maze)
      ensures maze == lines
      ensures player == (if LastHit(lines, PLAYER).Some? then LastHit(lines, PLAYER).value else Pos(0, 0))
      ensures Playable(lines) ==> Valid()
    {
      var spawn, _, _ := ScanMaze(lines);
      maze := lines;
      player := if spawn.Some? then spawn.value else Pos(0, 0);
      new;
      LastHitIsLast(lines, PLAYER);
    }

    /** `movePlayer`: only the player's position changes, by `makeMove`. */
    method MovePlayer(k: Key)
      requires Valid()
      modifies this`player
      ensures Valid()
      ensures player == MakeMove(maze, old(player), k)
    {
      MoveStaysInBounds(maze, player, k);
      player := MakeMove(maze, player, k);
    }
  }

  /** The reads that end the step-03 loop: a failed read, or a lone ESC. */
  predicate Stops(r: ReadResult) {
    r.ReadFailed? || Decode(r.bytes) == Esc
  }

  /**
   * The step-03 main loop over the reads the terminal delivers: `n` reads
   * are handled without effect (no move, no state change), and the loop
   * breaks at `inputs[n]`, the first read that fails or decodes to ESC.
   */
  method MainLoop(inputs: seq<ReadResult>) returns (n: nat, exit: Exit)
    ensures n <= |inputs|
    ensures forall i :: 0 <= i < n ==> !Stops(inputs[i])
    ensures exit == InputExhausted <==> n == |inputs|
    ensures n < |inputs| ==> Stops(inputs[n]) && (exit == InputError <==> inputs[n].ReadFailed?)
  {
    n := 0;
    while n < |inputs|
      invariant n <= |inputs|
      invariant forall i :: 0 <= i < n ==> !Stops(inputs[i])
    {
      match inputs[n] {
        case ReadFailed =>
          return n, InputError;
        case Read(bytes) =>
          if Decode(bytes) == Esc {
            return n, Quit;
          }
      }
      n := n + 1;
    }
    exit := InputExhausted;
  }
}
