/** The window as a source of events: start-button clicks, timer ticks and key
    presses, applied to the engine state one at a time. The random template choice
    travels inside the event. */
module Session {
  import opened Board
  import opened Pieces
  import opened Engine

  datatype Event = StartClicked(shape: int) | TimerTick(shape: int) | KeyPressed(key: Key)

  /** Whether the event can happen in state `g`. A click is always possible. The timer
      runs from a start until the game ends, so a tick needs a running game. The four
      handled keys dereference the piece, which is absent before the first start. */
  predicate Enabled(g: Game, e: Event)
  {
    match e
    case StartClicked(k) => IsShapeIndex(k)
    case TimerTick(k) => Running(g) && IsShapeIndex(k)
    case KeyPressed(key) => g.isGameOver || key == Other || g.piece.Some?
  }

  /** One event handler run to completion. */
  function Step(g: Game, e: Event): (r: Game)
    requires Valid(g) && Enabled(g, e)
    ensures Valid(r)
    ensures !e.StartClicked? ==> g.score <= r.score
    ensures g.isGameOver && !e.StartClicked? ==> r == g
  {
    match e
    case StartClicked(k) => Start(g, k)
    case TimerTick(k) => Tick(g, k)
    case KeyPressed(key) => KeyDown(g, key)
  }

  /** The events applied in order; None as soon as one of them cannot happen in the
      state reached so far. */
  function Run(g: Game, events: seq<Event>): (r: Option<Game>)
    requires Valid(g)
    ensures r.Some? ==> Valid(r.value)
    decreases |events|
  {
    if |events| == 0 then Some(g)
    else if Enabled(g, events[0]) then Run(Step(g, events[0]), events[1..])
    else None
  }

  /** The newly constructed window is in a valid state with no game running. */
  lemma InitialIsValid()
    ensures Valid(Initial()) && !Running(Initial())
  {
    EmptyGridFacts();
  }

  /** Every state reachable from the new window satisfies the invariant: the grid is a
      0/1 grid of the fixed size, the score a non-negative multiple of 100, and a
      running piece lies on the board over empty cells. */
  lemma ReachableStatesAreValid(events: seq<Event>)
    ensures Valid(Initial()) && (Run(Initial(), events).Some? ==> Valid(Run(Initial(), events).value))
  {
    InitialIsValid();
  }

  /** Without a click on start the score never goes down. */
  lemma {:induction false} ScoreNeverDecreases(g: Game, events: seq<Event>)
    requires Valid(g)
    requires forall i :: 0 <= i < |events| ==> !events[i].StartClicked?
    ensures Run(g, events).Some? ==> Run(g, events).value.score >= g.score
    decreases |events|
  {
    if |events| > 0 && Enabled(g, events[0]) {
      ScoreNeverDecreases(Step(g, events[0]), events[1..]);
    }
  }

  /** After the game ends, nothing but a click on start changes the state. */
  lemma {:induction false} GameOverUntilStart(g: Game, events: seq<Event>)
    requires Valid(g) && g.isGameOver
    requires forall i :: 0 <= i < |events| ==> !events[i].StartClicked?
    ensures Run(g, events).Some? ==> Run(g, events).value == g
    decreases |events|
  {
    if |events| > 0 && Enabled(g, events[0]) {
      GameOverUntilStart(Step(g, events[0]), events[1..]);
    }
  }
}
