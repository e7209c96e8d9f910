# Pac-Man game engine in Dafny

This project models the game logic of a small terminal Pac-Man written in
Go, in the four versions the tutorial repository builds up: step 03
(a player on the maze, and quitting on ESC or a read error), step 07 (ghosts and dots), step 08
(spawn-aware sprites and power pills) and step 10 (ghost status,
respawn, three lives). Rendering, the terminal, files and timers are
not part of it.

- `keys.dfy`, module `Keys`: how `readInput` turns the bytes of one
  terminal read into a token (`Decode`), the bytes each key sends
  (`KeyBytes`, whose round trip `Decode` completes), what the input
  goroutine forwards per read (`Forwarded`), and `drawDirection`.
- `grid.dfy`, module `Grid`: the maze as `seq<seq<char>>`, positions and
  sprites, `makeMove` (`Target` tries one step with wraparound,
  `MakeMove` cancels it on `#`), `removeDot` (`ClearCell`), cell counts,
  and the in-memory scan of `loadMaze` (`ScanMaze`). `Grid` also holds the
  scoring constants and the end-of-game test.
- `step03.dfy`: module `Step03`. Its `Game` class holds only `maze` and
  the two-field `player`, with `loadMaze` (the constructor `Load`) and
  `movePlayer`. Its invariant `Valid()` says only that the maze is
  rectangular and non-empty and the player is inside it. The game loop
  of `main` is the module-level method `MainLoop`, which never moves the
  player.
- `step07.dfy`, `step08.dfy`, `step10.dfy`: one module per later step.
  Each models that step's globals twice. First as a value, `State`
  (`maze`, `player`, `ghosts`, `score`, `numDots`, `lives`), with one
  function per phase of a tick:
  - `PlayerMoved` is `movePlayer`;
  - `GhostsMoved` is `moveGhosts`;
  - `Collided` is the collision loop;
  - `KeyHandled` is the "process movement" block;
  - `AfterTick` composes them into one pass of the game loop.

  `IsRun` says what a sequence of states produced by the loop is, and
  `RunKeeps` proves what stays true along one. Then as a `Game` class
  whose fields are those globals:
  - `Load` is `loadMaze`;
  - `MovePlayer`, `MoveGhosts`, `ProcessMovement`, `ProcessCollisions`
    and `Tick` are each proved to leave the fields equal to their
    function applied to the old fields;
  - `Play`, the loop itself, returns the run it made as a ghost trace.

  The collision loop of `main` is also a method on values (`Collide`).

`makeMove` and the decoder are the same text in all four files, so each
is defined once. `movePlayer`, the collision test and the initial lives
differ between steps, and each module follows its own file.

In steps 07, 08 and 10, every `State` the game reaches is `Consistent`:
the maze is rectangular and non-empty, every sprite is inside it (from
step 10 also the player's spawn), and `numDots` is the number of `.`
cells left. In step 10 the ghosts also share one status. Each `Game` keeps
`Valid()`: its fields form a `Consistent` state, and their `Worth` (the
score plus the points still on the board: 1 per dot; from step 08, also
10 per pill) equals what the board held at load time. Every method keeps
`Valid()`. Together with `Grid.CountZeroIffAbsent`, this shows that the
loop's win condition `numDots == 0` holds exactly when no dot is left on
the board.

Behaviour of the code that may look unintended, kept as written:

- A failed read becomes "ESC". The goroutine then also forwards the `""`
  that `readInput` returned, because it does not skip the second send
  (`Keys.Forwarded`).
- In step 08, collisions compare the whole four-field sprite, spawn
  included. Any maze with a `P` gives the player a spawn cell that holds
  `P` and each ghost a spawn cell that holds `G`. So in step 08 a ghost
  never costs a life. `Step08.Game.Load` establishes `SpawnsApart`,
  `Step08.TickKeepsSpawnsApart` shows a tick keeps it, and then only ESC
  changes lives (`Step08.RunKeeps`, `Step08.Game.Play`).
  Step 10 compares only row and column.
- In step 10 the player returns to its spawn when lives is not exactly 0
  after a hit. After ESC (lives 0), a hit makes lives -1 and still
  resets the player. Later ghosts in the same loop are compared with the
  reset position (`Step10.ResetShieldsFromSecondGhost`). So two ghosts on
  one cell cost two lives only when the player stands on its spawn
  (`Step10.CollisionsAtSpawn`), or when the first hit leaves lives at
  exactly 0, so that the player is not moved (`Step10.LastLifeNoReset`):
  the second ghost then takes lives to -1 and only that hit sends the
  player home (`Step10.LastLifeSecondGhost`).
- Collisions in step 10 ignore the ghosts' status: a Blue ghost takes a
  life like a Normal one.
- Column wraparound uses the length of the first row for every row; the
  source never checks that rows have equal length.

## Model

| member | source | states |
|---|---|---|
| `Keys.Decode` | step10/main.go:191-209 | "ESC" exactly for one byte 0x1b; UP/DOWN/RIGHT/LEFT exactly for a buffer of at least 3 bytes starting ESC '[' with A/B/C/D; otherwise ""; two bytes always give ""; never an error |
| `Keys.KeyBytes` | step08/main.go:156-174 | decoding the byte sequence of each key gives back that key; only "" has no bytes |
| `Keys.DecodeIgnoresTail` | step07/main.go:146-164 | once three bytes are present, the bytes after them do not change the token |
| `Keys.Forwarded` | step10/main.go:346-355 | a read sends at least one token; the first is "ESC" exactly when the read failed or was a lone ESC; a good read sends exactly its decoded token; anything after the first is "" |
| `Keys.DrawDirection` | step10/main.go:297-306 | indices 0..3 give the four directions; any other index gives "" (map miss) |
| `Keys.DrawDirectionBijective` | step08/main.go:232-241 | each direction is drawn by exactly one of the four indices |
| `Grid.MakeMove` | step10/main.go:212-246 | a `#` target returns the start; any other target is returned; the result is the start or a non-wall cell; non-direction tokens ("", "ESC") are no-ops |
| `Grid.MoveStaysInBounds` | step10/main.go:215-237 | on a rectangular maze an in-bounds start gives an in-bounds target and result, and a start off the walls stays off them |
| `Grid.TargetIsToroidal` | step03/main.go:121-143 | the tried cell is the step taken modulo `len(maze)` for rows and modulo `len(maze[0])` for columns |
| `Grid.WrapAround` | step08/main.go:177-211 | UP from row 0 gives the last row, DOWN from the last row gives row 0, RIGHT from the last column gives column 0, LEFT from column 0 gives the last column, when the destination is not `#` |
| `Grid.MoveThenBack` | step07/main.go:167-201 | from a cell that is not a wall, a move that is not cancelled is undone by the opposite direction |
| `Grid.ClearCell` | step10/main.go:252-254 | `removeDot` keeps the row count and every row length, makes the one cell a space and leaves every other cell unchanged |
| `Grid.ClearCellCount` | step08/main.go:216-219 | clearing a cell lowers the count of its old symbol by one and leaves the count of every other non-space symbol alone |
| `Grid.HitsSound` | step10/main.go:98-109 | the scan's list of `ch` cells has `CountAll` entries, each in bounds and holding `ch`, in strictly increasing row-major order |
| `Grid.HitsComplete` | step08/main.go:81-92 | every cell holding `ch` is in the scan's list |
| `Grid.LastHitIsLast` | step03/main.go:36-43 | the spawn kept is a `P` cell with no `P` after it in row-major order; none is kept only when the maze has no `P` |
| `Grid.ScanMaze` | step07/main.go:73-84 | the nested loop yields the last `P`, the `G` cells in row-major order, and the number of `.` cells (`X` not counted) |
| `Grid.CountZeroIffAbsent` | step10/main.go:389 | the dot count is zero exactly when no `.` cell is left |
| `Step03.Game.Load` | step03/main.go:36-43 | the player is the last `P` (or stays at 0,0); the maze is the lines read; nothing else is set |
| `Step03.Game.MovePlayer` | step03/main.go:154-156 | only the player's position changes, to `makeMove` of it; the maze is untouched |
| `Step03.MainLoop` | step03/main.go:171-192 | the loop stops at the first read that fails (error exit) or decodes to ESC (quit); every earlier read changes nothing; `movePlayer` is never called |
| `Step07.Collide` | step07/main.go:278-282 | lives drop by the number of ghosts on the player's cell, so two overlapping ghosts cost two; lives are unchanged exactly when no ghost is there |
| `Step07.PlayerMoved` | step07/main.go:203-212 | `movePlayer` keeps the state consistent and its worth, never lowers the score, puts the player at `makeMove` of its cell, leaves ghosts and lives alone and keeps the maze's shape |
| `Step07.PlayerMovedEats` | step07/main.go:203-212 | a `.` under the player becomes a space, scores one and takes one from `numDots`; any other cell under it (`X` included) and every other cell stay as they were |
| `Step07.GhostsMoved` | step07/main.go:225-230 | `moveGhosts` changes only the ghosts, keeps their number and keeps every ghost inside the maze |
| `Step07.KeyHandled` | step07/main.go:265-273 | no key changes nothing; ESC sets lives to 0 before the move; the key phase keeps consistency and worth, never lowers the score and leaves the ghosts alone |
| `Step07.AfterTick` | step07/main.go:264-290 | a tick keeps consistency, worth, the maze's shape and the ghost count, never lowers the score, leaves lives no higher than before or than 0, and ends the game after ESC |
| `Step07.TickLosesOnePerGhost` | step07/main.go:277-282 | a tick costs exactly one life per ghost that ends it on the player's cell, counted from the lives after the key; none is lost exactly when no ghost is there |
| `Step07.RunKeeps` | step07/main.go:264-294 | across any run of the loop the score never falls, lives end no higher than at the start or than 0, and the ghost count and maze shape are kept |
| `Step07.Game.Load` | step07/main.go:73-84 | player is the last `P`, ghosts are the `G` cells in row-major order, `numDots` is the `.` count, score 0, lives 1; a playable maze gives a valid game |
| `Step07.Game.MovePlayer` | step07/main.go:203-212 | the fields afterwards are `PlayerMoved` of the fields before, and `Valid()` is kept |
| `Step07.Game.MoveGhosts` | step07/main.go:225-230 | the fields afterwards are `GhostsMoved` of the fields before, each ghost moving by `makeMove` with its own draw |
| `Step07.Game.ProcessMovement` | step07/main.go:265-273 | the fields afterwards are `KeyHandled` of the fields before |
| `Step07.Game.ProcessCollisions` | step07/main.go:277-282 | the fields afterwards are `Collided` of the fields before: lives drop by the number of ghosts on the player's cell |
| `Step07.Game.Tick` | step07/main.go:264-290 | the fields afterwards are `AfterTick` of the fields before, and `over` holds exactly when `numDots == 0` or `lives <= 0` |
| `Step07.Game.Play` | step07/main.go:264-294 | the loop's trace is a run from the fields it starts with to those it leaves; it stops right after the first tick that reports game over, or when the inputs run out; score never falls, lives never rise above the start or 0, and the ghost count and maze shape are kept |
| `Step08.Collide` | step08/main.go:307-311 | lives drop by the number of ghosts equal to the whole player sprite; a life is lost iff some ghost matches row, col, startRow and startCol; with spawns apart no life is lost |
| `Step08.PlayerMoved` | step08/main.go:213-230 | `movePlayer` keeps the state consistent and its worth, never lowers the score, moves the player and its spawn-carrying sprite by `makeMove`, leaves ghosts and lives alone and keeps the maze's shape |
| `Step08.PlayerMovedEats` | step08/main.go:213-230 | a `.` under the player becomes a space, scores one and takes one from `numDots`; an `X` becomes a space and scores ten with `numDots` unchanged; any other cell under it, and every other cell, stay as they were |
| `Step08.GhostsMoved` | step08/main.go:243-248 | `moveGhosts` changes only the ghosts, keeps their number and spawns and keeps every ghost inside the maze |
| `Step08.KeyHandled` | step08/main.go:294-302 | no key changes nothing; ESC sets lives to 0 before the move; the key phase keeps consistency, worth, the ghosts and the player's spawn, and never lowers the score |
| `Step08.AfterTick` | step08/main.go:293-319 | a tick keeps consistency, worth, the maze's shape, the ghost count and the player's spawn, never lowers the score, leaves lives no higher than before or than 0, and ends the game after ESC |
| `Step08.TickKeepsSpawnsApart` | step08/main.go:306-312 | while no ghost shares the player's spawn a tick keeps it so, and its lives are then 0 after ESC and unchanged otherwise |
| `Step08.RunKeeps` | step08/main.go:293-328 | across any run the score never falls, lives end no higher than at the start or than 0, the ghost count and maze shape are kept, and with spawns apart and no ESC lives never change |
| `Step08.Game.Load` | step08/main.go:81-92 | player and each ghost start with spawn equal to their cell; `numDots` counts only `.`; with a `P` present no ghost shares the player's spawn |
| `Step08.Game.MovePlayer` | step08/main.go:213-230 | the fields afterwards are `PlayerMoved` of the fields before, and `Valid()` is kept |
| `Step08.Game.MoveGhosts` | step08/main.go:243-248 | the fields afterwards are `GhostsMoved` of the fields before, each ghost moving by `makeMove` with its own draw |
| `Step08.Game.ProcessMovement` | step08/main.go:294-302 | the fields afterwards are `KeyHandled` of the fields before |
| `Step08.Game.ProcessCollisions` | step08/main.go:306-312 | the fields afterwards are `Collided` of the fields before: lives drop by the number of ghosts equal to the whole player sprite |
| `Step08.Game.Tick` | step08/main.go:293-319 | the fields afterwards are `AfterTick` of the fields before, and `over` holds exactly when `numDots == 0` or `lives <= 0` |
| `Step08.Game.Play` | step08/main.go:293-328 | the loop's trace is a run from the fields it starts with to those it leaves; it stops right after the first tick that reports game over, or when the inputs run out; score never falls, lives never rise above the start or 0, ghost count and maze shape are kept, and with spawns apart and no ESC lives are unchanged |
| `Step10.CollisionsShape` | step10/main.go:372-383 | the spawn never changes; the player ends where it was or on its spawn; each ghost costs at most one life; no lost life means nothing changed; a lost life with lives not 0 leaves the player on its spawn |
| `Step10.CollisionsLoseLife` | step10/main.go:372-383 | a life is lost exactly when some ghost stands on the player's cell |
| `Step10.CollisionsAtSpawn` | step10/main.go:372-383 | a player standing on its spawn loses one life per ghost on that cell and stays there |
| `Step10.ResetShieldsFromSecondGhost` | step10/main.go:374-381 | away from the spawn, with lives other than 1, of two ghosts on the player's cell only the first costs a life, because the second is compared with the reset position |
| `Step10.LastLifeNoReset` | step10/main.go:374-381 | a hit that leaves lives at exactly 0 does not reset the player, which stays on the ghost's cell |
| `Step10.LastLifeSecondGhost` | step10/main.go:372-383 | on the last life, two ghosts on the player's cell cost two lives (lives -1) wherever the spawn is, and only the second hit resets the player |
| `Step10.Collide` | step10/main.go:372-383 | the collision loop computes the collision phase, loses a life iff a ghost is on the player's cell and keeps the spawn |
| `Step10.RepeatLength` | step10/main.go:165-171 | the glyph repeated `n` times is `n` times as long as the glyph |
| `Step10.LivesAsEmoji` | step10/main.go:165-171 | `getLivesAsEmoji` is the player glyph repeated `max(lives, 0)` times |
| `Step10.WithStatus` | step10/main.go:289-295 | `updateGhosts` keeps the ghosts and their positions and gives all of them the one status |
| `Step10.Eat` | step10/main.go:256-265 | the `switch` of `movePlayer` keeps the state consistent and its worth, never lowers the score, and leaves the player, lives, the ghost positions and the maze's shape alone |
| `Step10.PlayerMoved` | step10/main.go:248-266 | `movePlayer` keeps the state consistent and its worth, never lowers the score, moves the player by `makeMove`, leaves lives and ghost positions alone and keeps the maze's shape |
| `Step10.PlayerMovedEats` | step10/main.go:248-266 | a `.` under the player becomes a space, scores one and takes one from `numDots`; an `X` becomes a space, scores ten and turns every ghost Blue; any other cell under it, every other cell, and otherwise the ghosts stay as they were |
| `Step10.GhostsMoved` | step10/main.go:308-313 | `moveGhosts` changes only the ghosts, keeps their number, spawns and statuses and keeps every ghost inside the maze |
| `Step10.Collided` | step10/main.go:371-383 | the collision phase changes only the player and lives, keeps the state consistent and the spawn, and costs at most one life per ghost |
| `Step10.KeyHandled` | step10/main.go:359-367 | no key changes nothing; ESC sets lives to 0 before the move; the key phase keeps consistency, worth and the player's spawn, and never lowers the score |
| `Step10.AfterTick` | step10/main.go:358-396 | a tick keeps consistency, worth, the maze's shape, the ghost count and the player's spawn, never lowers the score, leaves lives no higher than before or than 0, and ends the game after ESC |
| `Step10.TickCollisions` | step10/main.go:371-383 | in a tick a life is lost exactly when a moved ghost stands on the moved player's cell; a loss that leaves lives other than 0 puts the player on its spawn; no loss leaves the player where the key put it |
| `Step10.RunKeeps` | step10/main.go:357-400 | across any run the score never falls, lives end no higher than at the start or than 0, and the ghost count, maze shape and player's spawn are kept |
| `Step10.Game.Load` | step10/main.go:98-109 | the last `P` becomes the player, every `G` becomes a Normal ghost in row-major order, spawns equal positions, `numDots` is the `.` count, lives 3 |
| `Step10.Game.UpdateGhosts` | step10/main.go:289-295 | the ghosts afterwards are `WithStatus` of the ghosts before, and a valid game stays valid |
| `Step10.Game.ProcessPill` | step10/main.go:270-274 | a pill makes the ghosts `WithStatus` Blue of what they were |
| `Step10.Game.PillTimerFired` | step10/main.go:283-284 | expiry makes the ghosts `WithStatus` Normal of what they were |
| `Step10.Game.MovePlayer` | step10/main.go:248-266 | the fields afterwards are `PlayerMoved` of the fields before, and `Valid()` is kept |
| `Step10.Game.MoveGhosts` | step10/main.go:308-313 | the fields afterwards are `GhostsMoved` of the fields before, each ghost moving by `makeMove` with its own draw |
| `Step10.Game.ProcessMovement` | step10/main.go:359-367 | the fields afterwards are `KeyHandled` of the fields before |
| `Step10.Game.ProcessCollisions` | step10/main.go:371-383 | the fields afterwards are `Collided` of the fields before, computed by the loop over the ghosts |
| `Step10.Game.Tick` | step10/main.go:358-396 | the fields afterwards are `AfterTick` of the fields before, and `over` holds exactly when `numDots == 0` or `lives <= 0` |
| `Step10.Game.Play` | step10/main.go:357-400 | the loop's trace is a run from the fields it starts with to those it leaves; it stops right after the first tick that reports game over, or when the inputs run out; score never falls, lives never rise above the start or 0, and the ghost count, maze shape and player's spawn are kept |

## Left out

- Terminal set-up and tear-down (`initialise`, `cleanup` via `stty`) and all drawing (`printScreen`, `moveCursor`, the death glyph, the score line): they are external processes and screen output.
- Reading the maze and configuration files, JSON decoding and flag parsing: `Load` starts from the lines already in memory, and a load failure stops the program before any tick.
- The input goroutine, its channel and the non-blocking `select`: each tick takes an optional key, and `Keys.Forwarded` gives what one iteration of the goroutine sends.
- The 100-byte read buffer: `Decode` takes the `cnt` bytes read, and the bound of 100 is not modelled because decoding looks at no more than three bytes.
- `processPill`'s `time.Timer`, its goroutine and `ghostsStatusMx`: concurrency and timing. `ProcessPill` is run at once inside `MovePlayer` rather than at some later moment, and `PillTimerFired` stands for the timer firing. The restart of a running timer is not modelled.
- `PillTimerFired`: neither `Tick` nor `Play` calls it, because the timer fires in its own goroutine at a wall-clock moment outside the ticks of the loop. So in a modelled run the ghosts stay Blue once a pill is eaten. Nothing else in the state depends on the status, since step 10's collisions ignore it.
- `rand.Intn`: each ghost's draw is a parameter of `MoveGhosts`.
- `time.Sleep` pauses.
- step01 and step02: they only read a file and print it.
- Non-rectangular mazes: every `Game` requires a rectangular maze with a non-empty first row. The source does not check this. `MakeMove` itself requires only what keeps its indexing from panicking.
- The `[]*ghost` pointers: ghosts are values in a sequence field, which the methods reassign. In the source each ghost is a separate allocation reached only through the slice, so no aliasing is lost.
- Go strings are byte strings ranged over by rune: the maze is taken to be ASCII, so a column is an index into the row.
- Go's 64-bit `int`: integers are unbounded, since no counter here gets anywhere near the limit.
- `Step03.MainLoop`: a read that never returns is modelled as the list of reads running out (`InputExhausted`).
- `Play`: the game loop runs over a finite list of ticks, the same way.
