/** The game object: its fields are updated in place by startGame, spawnFood,
    move, the timer handler and the key handler. Move, Tick and KeyPressed are
    proved to perform the matching relation of module Rules on a snapshot of
    the fields while keeping the invariant Rules.Inv; StartGame establishes
    that invariant and a start state; SpawnFood changes only the food. */
module Game {
  import opened Board
  import opened Rules

  class SnakeGame {
    var snake: seq<Point>
    var food: Point
    var direction: Dir
    var queue: seq<Dir>
    var running: bool
    var won: bool
    var score: int

    /** The fields as a value. */
    ghost function Snapshot(): State
      reads this
    {
      State(snake, food, direction, queue, running, won, score)
    }

    ghost predicate Valid()
      reads this
    {
      Inv(Snapshot())
    }

    /** Creating the panel and calling init(): the game starts at once. */
    constructor ()
      ensures Valid() && IsStart(Snapshot())
    {
      new;
      StartGame();
    }

    /** Resets every field for a new game and places the first food. */
    method StartGame()
      modifies this
      ensures Valid() && IsStart(Snapshot())
    {
      snake := [Start];
      direction := R;
      queue := [];
      score := 0;
      won := false;
      FreeCellExists(snake);
      SpawnFood();
      running := true;
    }

    /** Places the food on a cell the body does not occupy. spawnFood draws
        random coordinates until one is free; here the pick is any free
        cell, and a free cell must exist for the draw to ever stop. */
    method SpawnFood()
      requires HasFreeCell(snake)
      modifies this`food
      ensures InBounds(food) && food !in snake
    {
      ghost var free :| InBounds(free) && free !in snake;
      assert 0 <= free.x < Width && 0 <= free.y < Height && Point(free.x, free.y) !in snake;
      var x: int, y: int :| 0 <= x < Width && 0 <= y < Height && Point(x, y) !in snake;
      food := Point(x, y);
    }

    /** One simulation step; only ever called while the game runs. */
    method Move()
      requires Valid() && running
      modifies this
      ensures Valid()
      ensures MoveStep(old(Snapshot()), Snapshot())
    {
      ghost var s := Snapshot();
      if queue != [] {
        direction := queue[0];
        queue := queue[1..];
      }
      var newHead := Step(snake[0], direction);
      if !InBounds(newHead) {
        running := false;
        return;
      }
      if newHead in snake {
        running := false;
        return;
      }
      GrowKeepsBody(snake, newHead);
      snake := [newHead] + snake;
      if newHead == food {
        score := score + 1;
        if |snake| == Width * Height {
          running := false;
          won := true;
          return;
        }
        BodyFitsBoard(snake);
        FreeCellExists(snake);
        SpawnFood();
      } else {
        snake := snake[..|snake| - 1];
        SlideKeepsBody(s.snake, newHead);
      }
    }

    /** The timer handler: a step while running, nothing otherwise (the
        repaint that follows is not modelled). */
    method Tick()
      requires Valid()
      modifies this
      ensures Valid()
      ensures TickStep(old(Snapshot()), Snapshot())
    {
      if running {
        Move();
      }
    }

    /** The key handler: Space on a stopped game restarts it; otherwise an
        arrow key is queued when it neither repeats nor reverses the front
        of the queue (or the current direction when the queue is empty). */
    method KeyPressed(k: Key)
      requires Valid()
      modifies this
      ensures Valid()
      ensures KeyStep(old(Snapshot()), k, Snapshot())
    {
      if !running && k == KeySpace {
        StartGame();
        return;
      }
      var last := if queue != [] then queue[0] else direction;
      if k == KeyUp && last != D && last != U {
        queue := queue + [U];
      } else if k == KeyDown && last != U && last != D {
        queue := queue + [D];
      } else if k == KeyLeft && last != R && last != L {
        queue := queue + [L];
      } else if k == KeyRight && last != L && last != R {
        queue := queue + [R];
      }
    }
  }
}
