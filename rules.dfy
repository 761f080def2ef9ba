/** The rules of the game as relations between snapshots of its state: what a
    restart, a simulation step, a timer tick and a key press may turn one state
    into, the invariant every reachable state keeps, and what follows from it. */
module Rules {
  import opened Board

  /** The keys the game reacts to; every other key code is KeyOther. */
  datatype Key = KeyUp | KeyDown | KeyLeft | KeyRight | KeySpace | KeyOther {
    predicate IsArrow() {
      KeyUp? || KeyDown? || KeyLeft? || KeyRight?
    }

    /** The direction an arrow key asks for. */
    function Heading(): Dir
      requires IsArrow()
    {
      match this
      case KeyUp => U
      case KeyDown => D
      case KeyLeft => L
      case KeyRight => R
    }
  }

  /** The game's fields: the body (head first), the food cell, the current
      direction, the pending turns (oldest first), the two flags and the score. */
  datatype State = State(snake: seq<Point>, food: Point, direction: Dir, queue: seq<Dir>,
                         running: bool, won: bool, score: int)

  /** The cell a new game starts on, the board's centre (10, 10). */
  const Start: Point := Point(Width / 2, Height / 2)

  /** The invariant of every state the game reaches: a non-empty body of
      distinct in-bounds cells, one point per cell grown, and either a food
      cell off the body (the game is not won) or a full board with the food
      left on the head (the game is won and stopped). */
  ghost predicate Inv(s: State) {
    && 1 <= |s.snake|
    && Distinct(s.snake)
    && AllInBounds(s.snake)
    && s.score == |s.snake| - 1
    && (s.won ==> !s.running && |s.snake| == Width * Height && s.food == s.snake[0])
    && (!s.won ==> |s.snake| < Width * Height && InBounds(s.food) && s.food !in s.snake)
  }

  /** The state a (re)start leaves: one cell at the centre heading right, no
      pending turns, score 0, not won, running, and food on some free cell. */
  ghost predicate IsStart(t: State) {
    && t.snake == [Start]
    && t.direction == R
    && t.queue == []
    && t.score == 0
    && !t.won
    && t.running
    && InBounds(t.food)
    && t.food !in t.snake
  }

  /** The direction a new turn is checked against: the oldest pending turn
      (the queue's front), or the current direction when none is pending. */
  function Reference(queue: seq<Dir>, direction: Dir): Dir {
    if queue != [] then queue[0] else direction
  }

  /** A turn to `d` is accepted against `ref` when it neither repeats nor reverses it. */
  predicate Turns(d: Dir, ref: Dir) {
    d != ref && d != ref.Opposite()
  }

  /** The pending turns after key `k`: an arrow key whose heading turns
      against the reference joins the back of the queue; anything else leaves
      the queue as it is. */
  function Offer(queue: seq<Dir>, direction: Dir, k: Key): seq<Dir> {
    if k.IsArrow() && Turns(k.Heading(), Reference(queue, direction))
    then queue + [k.Heading()]
    else queue
  }

  /** One simulation step. The oldest pending turn, if any, becomes the
      direction; the head advances one cell. A step into a wall or onto any
      body cell (the tail included) only stops the game. Otherwise the new
      head is added; on the food the score goes up and either the board is
      full (won, stopped, food kept) or new food lands on a free cell; off the
      food the tail cell is dropped. */
  ghost predicate MoveStep(s: State, t: State)
    requires s.snake != []
  {
    var dir := if s.queue != [] then s.queue[0] else s.direction;
    var queue := if s.queue != [] then s.queue[1..] else s.queue;
    var turned := s.(direction := dir, queue := queue);
    var head := Step(s.snake[0], dir);
    if !InBounds(head) || head in s.snake then
      t == turned.(running := false)
    else if head == s.food then
      var grown := [head] + s.snake;
      if |grown| == Width * Height then
        t == turned.(snake := grown, score := s.score + 1, running := false, won := true)
      else
        && t == turned.(snake := grown, score := s.score + 1, food := t.food)
        && InBounds(t.food)
        && t.food !in grown
    else
      t == turned.(snake := [head] + s.snake[..|s.snake| - 1])
  }

  /** A timer tick: a step while running, nothing at all otherwise. */
  ghost predicate TickStep(s: State, t: State)
    requires s.snake != []
  {
    if s.running then MoveStep(s, t) else t == s
  }

  /** A key press: Space on a stopped game restarts it; any other press
      (Space on a running game included) only offers a turn, whether or not
      the game is running. */
  ghost predicate KeyStep(s: State, k: Key, t: State) {
    if !s.running && k == KeySpace then IsStart(t)
    else t == s.(queue := Offer(s.queue, s.direction, k))
  }

  datatype Event = Tick | Press(key: Key)

  ghost predicate Transition(s: State, e: Event, t: State)
    requires s.snake != []
  {
    match e
    case Tick => TickStep(s, t)
    case Press(k) => KeyStep(s, k, t)
  }

  /** `states` is a run driven by `events`: each state follows from the one
      before by the event between them. */
  ghost predicate Run(states: seq<State>, events: seq<Event>) {
    && |states| == |events| + 1
    && (forall i :: 0 <= i < |events| ==> states[i].snake != [] && Transition(states[i], events[i], states[i + 1]))
  }

  /** A turn equal or opposite to the reference is never queued; a
      perpendicular one goes to the back; other keys change nothing. */
  lemma OfferRule(queue: seq<Dir>, direction: Dir, k: Key)
    ensures !k.IsArrow() ==> Offer(queue, direction, k) == queue
    ensures k.IsArrow() && k.Heading() in {Reference(queue, direction), Reference(queue, direction).Opposite()}
            ==> Offer(queue, direction, k) == queue
    ensures k.IsArrow() && Turns(k.Heading(), Reference(queue, direction))
            ==> Offer(queue, direction, k) == queue + [k.Heading()]
  {
  }

  /** Because the reference is the oldest pending turn, a reversal can be
      queued: heading right, Up, Left and Right are all accepted, so the
      snake will go left and then straight back right on consecutive steps. */
  lemma FrontReferenceAdmitsReversal()
    ensures Offer(Offer(Offer([], R, KeyUp), R, KeyLeft), R, KeyRight) == [U, L, R]
  {
  }

  /** The reversal such a queue holds is fatal: after a step left that leaves
      a body of two or more cells, the step right lands on the neck, where
      the head just was, and the game stops with body and score unchanged. */
  lemma QueuedReversalBitesNeck(s: State, t1: State, t2: State)
    requires Inv(s) && s.running && s.queue == [L, R] && MoveStep(s, t1)
    requires t1.running && |t1.snake| >= 2 && MoveStep(t1, t2)
    ensures !t2.running && t2.snake == t1.snake && t2.score == t1.score
  {
    StepOppositeReturns(s.snake[0], L);
  }

  lemma StartValid(t: State)
    requires IsStart(t)
    ensures Inv(t)
  {
  }

  /** Dropping the tail and adding a fresh in-bounds head keeps the body
      distinct, in bounds and of the same length. */
  lemma SlideKeepsBody(s: seq<Point>, head: Point)
    requires s != [] && Distinct(s) && AllInBounds(s)
    requires InBounds(head) && head !in s
    ensures |[head] + s[..|s| - 1]| == |s|
    ensures Distinct([head] + s[..|s| - 1]) && AllInBounds([head] + s[..|s| - 1])
  {
    var t := [head] + s[..|s| - 1];
    forall i, j | 0 <= i < j < |t| ensures t[i] != t[j] {
      if i == 0 {
        assert t[j] == s[j - 1];
      } else {
        assert t[i] == s[i - 1] && t[j] == s[j - 1];
      }
    }
  }

  /** Adding a fresh in-bounds head keeps the body distinct and in bounds. */
  lemma GrowKeepsBody(s: seq<Point>, head: Point)
    requires Distinct(s) && AllInBounds(s)
    requires InBounds(head) && head !in s
    ensures Distinct([head] + s) && AllInBounds([head] + s)
  {
    var t := [head] + s;
    forall i, j | 0 <= i < j < |t| ensures t[i] != t[j] {
      if i == 0 {
        assert t[j] == s[j - 1];
      } else {
        assert t[i] == s[i - 1] && t[j] == s[j - 1];
      }
    }
  }

  /** A simulation step keeps the invariant: collisions leave the body and
      score alone, sliding keeps length and score, eating adds one cell and
      one point and then either wins on a full board or leaves a free food
      cell. */
  lemma MovePreservesInv(s: State, t: State)
    requires Inv(s) && s.running && MoveStep(s, t)
    ensures Inv(t)
  {
    var dir := if s.queue != [] then s.queue[0] else s.direction;
    var head := Step(s.snake[0], dir);
    if InBounds(head) && head !in s.snake {
      if head == s.food {
        GrowKeepsBody(s.snake, head);
        BodyFitsBoard([head] + s.snake);
      } else {
        SlideKeepsBody(s.snake, head);
      }
    }
  }

  /** Per step, the body grows by exactly one cell and the score by exactly
      one point when the head lands on the food, and neither changes
      otherwise; the pending turns lose at most their oldest element. */
  lemma MoveScoreAndLength(s: State, t: State)
    requires Inv(s) && s.running && MoveStep(s, t)
    ensures t.score - s.score == |t.snake| - |s.snake|
    ensures var dir := if s.queue != [] then s.queue[0] else s.direction;
            var head := Step(s.snake[0], dir);
            if InBounds(head) && head !in s.snake && head == s.food
            then |t.snake| == |s.snake| + 1 && t.snake[0] == head && t.snake[1..] == s.snake
            else |t.snake| == |s.snake|
    ensures s.queue != [] ==> t.direction == s.queue[0] && t.queue == s.queue[1..]
    ensures s.queue == [] ==> t.direction == s.direction && t.queue == []
  {
  }

  lemma TransitionPreservesInv(s: State, e: Event, t: State)
    requires Inv(s) && Transition(s, e, t)
    ensures Inv(t)
  {
    match e
    case Tick =>
      if s.running { MovePreservesInv(s, t); }
    case Press(k) =>
      if !s.running && k == KeySpace { StartValid(t); }
  }

  /** Every state of a run that starts in a valid state (a started game, by
      StartValid) is valid: the body stays distinct and in bounds, the score
      is the body's length minus one, and unless the game is won the food
      lies on a free cell. */
  lemma {:induction false} RunKeepsInv(states: seq<State>, events: seq<Event>)
    requires Run(states, events) && Inv(states[0])
    ensures forall i :: 0 <= i < |states| ==> Inv(states[i])
  {
    if events != [] {
      var n := |events| - 1;
      assert Run(states[..n + 1], events[..n]);
      RunKeepsInv(states[..n + 1], events[..n]);
      assert Inv(states[n]) by { assert states[..n + 1][n] == states[n]; }
      assert Transition(states[n], events[n], states[n + 1]);
      TransitionPreservesInv(states[n], events[n], states[n + 1]);
      forall i | 0 <= i < |states| ensures Inv(states[i]) {
        if i <= n { assert states[..n + 1][i] == states[i]; }
      }
    }
  }

  /** `t` is `s` with at most the pending turns changed. */
  ghost predicate FrozenAs(t: State, s: State) {
    t == s.(queue := t.queue)
  }

  /** A stopped game (lost or won) stays exactly as it is, apart from the
      pending turns that arrow keys still add, until Space restarts it. */
  lemma {:induction false} FrozenUntilRestart(states: seq<State>, events: seq<Event>)
    requires Run(states, events) && states[0].snake != [] && !states[0].running
    requires forall i :: 0 <= i < |events| ==> events[i] != Press(KeySpace)
    ensures forall i :: 0 <= i < |states| ==> FrozenAs(states[i], states[0])
  {
    if events != [] {
      var n := |events| - 1;
      assert Run(states[..n + 1], events[..n]);
      FrozenUntilRestart(states[..n + 1], events[..n]);
      assert FrozenAs(states[n], states[0]) by { assert states[..n + 1][n] == states[n]; }
      RunKeepsFrozen(states, events, n);
      forall i | 0 <= i < |states| ensures FrozenAs(states[i], states[0]) {
        if i <= n { assert states[..n + 1][i] == states[i]; }
      }
    }
  }

  lemma RunKeepsFrozen(states: seq<State>, events: seq<Event>, n: nat)
    requires Run(states, events) && n < |events|
    requires states[n].snake != [] && !states[n].running && events[n] != Press(KeySpace)
    ensures FrozenAs(states[n + 1], states[n])
  {
    assert Transition(states[n], events[n], states[n + 1]);
  }

  /** A won game has no free cell left: the body covers the whole board. */
  lemma WonBoardFull(s: State)
    requires Inv(s) && s.won
    ensures forall p :: InBounds(p) ==> p in s.snake
  {
    FullBodyCoversBoard(s.snake);
  }

  /** A game that is not won always has a free cell for the food picker. */
  lemma NotWonHasFreeCell(s: State)
    requires Inv(s) && !s.won
    ensures HasFreeCell(s.snake)
  {
    FreeCellExists(s.snake);
  }
}
