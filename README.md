# Snake game: a verified model of the game-state machine

This project models the game logic of a single-player Snake game on a fixed
20 x 20 board of cells. The game keeps these fields:

- the snake's body, a sequence of cells with the head first;
- one food cell;
- the current direction (`U`, `D`, `L`, `R`);
- a FIFO of pending turns;
- a `running` flag, a `won` flag and a score.

A timer tick advances the snake by one cell while the game runs. Arrow keys
queue turns. Space on a stopped game starts a new one.

The model has three modules:

- `Board` (board.dfy): cells (`Point`), directions and their opposites, the
  one-cell `Step`, the wall test, and the counting facts about the board. The
  board holds exactly 400 cells. A body shorter than that leaves a free cell. A
  body of distinct in-bounds cells never exceeds 400 cells, and one of exactly
  400 cells covers the board.
- `Rules` (rules.dfy): a `State` value that mirrors the fields, and the
  invariant `Inv` that every reachable state keeps. It also holds one relation
  per operation: `IsStart`, `MoveStep`, `TickStep` and `KeyStep`, with the
  turn-acceptance rule `Offer`. Lemmas prove that the operations keep `Inv`,
  both for one step and for whole runs (`RunKeepsInv`). They also prove that a
  stopped game stays frozen until Space is pressed (`FrozenUntilRestart`) and
  that a won game fills the board.
- `Game` (game.dfy): the class `SnakeGame`, whose fields are updated in
  place. `Snapshot()` gives its fields as one `State` value.
  - `Move`, `Tick` (the timer handler's `running` gate) and `KeyPressed`
    are proved to keep `Valid()` and to carry out `MoveStep`, `TickStep`
    and `KeyStep` on `Snapshot()`.
  - `StartGame` and the constructor establish `Valid()` and `IsStart`.
  - `SpawnFood` may change only `food`. It ensures the food is an in-bounds
    cell off the body.

`Inv` states:

- the body is non-empty, its cells are distinct and inside the board;
- `score == |snake| - 1`;
- if the game is won, it is stopped, the body fills all 400 cells, and the
  food is still on the head (it is not cleared);
- otherwise the body is shorter than 400 and the food is an in-bounds cell off
  the body.

### Behaviour of the code worth knowing

- **Turn reference.** A new turn is checked against the *front* of the
  queue, that is the oldest pending turn. The comment at SnakeGame.java:171
  says "last", but `directionQueue.peek()` (SnakeGame.java:172) returns the
  oldest pending turn. As a result, when heading right, the keys Up, Left
  and Right are all accepted, giving the queue `[U, L, R]`
  (`Rules.FrontReferenceAdmitsReversal`). The snake then goes left and
  straight back right on consecutive steps. With a body of two or more
  cells, that second step bites its own neck and stops the game
  (`Rules.QueuedReversalBitesNeck`).
- **Turns while stopped.** Arrow keys are still queued while the game is
  stopped: there is no `running` check before SnakeGame.java:171. A restart
  clears the queue, so this is harmless. `Rules.KeyStep` reproduces it.
- **Food on a win.** Food is not cleared on a win: `food` keeps its old
  value, which is now the head's cell (SnakeGame.java:101-104).
- **Tick gate.** The "no step unless running" check lives in the timer
  handler (SnakeGame.java:156), not in `move`. `SnakeGame.Move` therefore
  requires `running`, and `SnakeGame.Tick` holds the gate.

## Model

| member | source | states |
|---|---|---|
| Board.Step | SnakeGame.java:71-79 | the new head is a different cell, at distance exactly one from the old head |
| Board.StepOppositeReturns | SnakeGame.java:74-79 | a step followed by a step in the opposite direction returns to the starting cell |
| Board.RectSize | SnakeGame.java:10-11 | a w x h board has exactly w * h cells |
| Board.FreeCellExists | SnakeGame.java:56-61 | a body shorter than Width * Height leaves a free in-bounds cell, which the retry loop of spawnFood needs in order to stop |
| Board.BodyFitsBoard | SnakeGame.java:101 | a body of distinct in-bounds cells has at most Width * Height cells |
| Board.FullBodyCoversBoard | SnakeGame.java:101-104 | a body of distinct in-bounds cells of length Width * Height occupies every board cell, so no free cell is left |
| Rules.OfferRule | SnakeGame.java:171-184 | a non-arrow key leaves the queue unchanged; an arrow equal or opposite to the reference (queue front, else direction) is rejected; any other arrow is appended at the back |
| Rules.QueuedReversalBitesNeck | SnakeGame.java:67-92 | with pending turns [L, R] and a body that still runs and has two or more cells after the first step, the second step lands on the neck: the game stops with body and score unchanged |
| Rules.FrontReferenceAdmitsReversal | SnakeGame.java:171-184 | heading right with an empty queue, Up, Left and Right are all accepted, giving [U, L, R], which holds a reversal pair |
| Rules.StartValid | SnakeGame.java:39-47 | the state a (re)start leaves satisfies the game invariant |
| Rules.SlideKeepsBody | SnakeGame.java:108-110 | adding a free in-bounds head and dropping the tail keeps the body distinct, in bounds and of the same length |
| Rules.GrowKeepsBody | SnakeGame.java:94 | adding a free in-bounds head keeps the body distinct and in bounds |
| Rules.MoveScoreAndLength | SnakeGame.java:66-111 | a step pops at most the oldest turn and makes it the direction; score and length change together; eating adds exactly one cell (the new head, in front of the old body) and one point; any other step keeps the length |
| Rules.MovePreservesInv | SnakeGame.java:66-111 | a step from a valid running state leads to a valid state (distinct in-bounds body, score equal to length minus one, food off the body unless won) |
| Rules.TransitionPreservesInv | SnakeGame.java:155-185 | a tick or a key press keeps the game invariant |
| Rules.RunKeepsInv | SnakeGame.java:39-185 | every state of a run of ticks and key presses that starts in a valid state is valid |
| Rules.RunKeepsFrozen | SnakeGame.java:155-158 | a tick or a non-Space key on a stopped game changes nothing except the pending turns |
| Rules.FrozenUntilRestart | SnakeGame.java:155-185 | a lost or won game keeps its body, food, direction, score and flags through any events until Space is pressed |
| Rules.WonBoardFull | SnakeGame.java:100-104 | in a won game every board cell is occupied by the body |
| Rules.NotWonHasFreeCell | SnakeGame.java:107 | in any valid game that is not won, a free cell exists for new food |
| Game.SnakeGame.constructor | SnakeGame.java:24-37 | creating the game and calling init leaves a valid freshly started state |
| Game.SnakeGame.StartGame | SnakeGame.java:39-47 | body [(10,10)], direction R, empty queue, score 0, not won, running, food in bounds and not (10,10); the invariant holds |
| Game.SnakeGame.SpawnFood | SnakeGame.java:56-64 | given a free cell exists, food becomes an in-bounds cell off the body; nothing else changes |
| Game.SnakeGame.Move | SnakeGame.java:66-111 | the fields change exactly as MoveStep relates them (turn pop, wall check, self check including the tail, grow, eat/win/respawn or drop the tail) and the invariant is kept |
| Game.SnakeGame.Tick | SnakeGame.java:155-158 | while running, one Move; while stopped, no field changes; the invariant is kept |
| Game.SnakeGame.KeyPressed | SnakeGame.java:162-185 | Space on a stopped game restarts; otherwise only the queue changes, to Offer of the old queue, direction and key; the invariant is kept |

## Left out

- Painting (`paintComponent`, SnakeGame.java:113-152): colours, fonts and text centring are presentation only.
- Swing and AWT plumbing: the panel setup in the constructor, `Timer` creation, stop and start, `repaint`, `addKeyListener`, the empty `keyTyped` and `keyReleased` handlers, and `main`'s window setup. These are event-loop and windowing I/O.
- `java.util.Random`: `SnakeGame.SpawnFood` picks any free cell nondeterministically. The uniform distribution is not modelled.
- Game.SnakeGame.SpawnFood: requires that a free cell exists, and does not model the termination of the rejection loop, which the code does not bound. Every caller proves the free cell exists (`Board.FreeCellExists`).
- `KeyEvent` key codes: replaced by the `Key` datatype. `KeyOther` stands for every key the handler ignores.
- Threading: Swing delivers timer and key events on one event thread. The model is sequential.
- Integer width: the score and the coordinates are Java `int`s. They never leave a small range (score at most 399, coordinates from -1 to 20), so no wrap-around is modelled.
- No invariant forbids a reversal pair inside the queue, because the code does not prevent one (see `Rules.FrontReferenceAdmitsReversal`).
