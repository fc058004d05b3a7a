/**
 * The session state machine of the Asteroids game: which of the Game's
 * transition methods a released key or a window event triggers in each state,
 * what each transition does to the state and to the running flag, and what a
 * run of events does to them.
 */
module Session {

  datatype GameState = TitleScreen | InGame | Paused | GameOver

  /** The keys the menu logic tells apart; every other key is OtherKey. */
  datatype Key = Enter | Escape | OtherKey

  /** The window events the input handler tells apart. */
  datatype Event = Closed | LostFocus | Resized | KeyReleased(key: Key) | OtherEvent

  /**
   * The transition methods of the Game: start_game, pause_game, resume_game,
   * game_over, reset_game and close_game; Ignore stands for calling none.
   */
  datatype Transition = Start | Pause | Resume | ToGameOver | Reset | Close | Ignore

  /** The state and the running flag of a session. */
  datatype Phase = Phase(state: GameState, running: bool)

  /** What a transition does to the state and the running flag. */
  function Apply(t: Transition, p: Phase): Phase
  {
    match t
    case Start => p.(state := InGame)
    case Pause => p.(state := Paused)
    case Resume => p.(state := InGame)
    case ToGameOver => p.(state := GameOver)
    case Reset => p.(state := TitleScreen)
    case Close => p.(running := false)
    case Ignore => p
  }

  /**
   * The transition a released key triggers. The table: on the title screen
   * Enter starts and Escape closes; in game Escape pauses; when paused Escape
   * resets and Enter resumes; after game over Enter resets. Every other pair
   * triggers nothing.
   */
  function MenuTransition(s: GameState, k: Key): (t: Transition)
    ensures t == Start <==> s == TitleScreen && k == Enter
    ensures t == Close <==> s == TitleScreen && k == Escape
    ensures t == Pause <==> s == InGame && k == Escape
    ensures t == Resume <==> s == Paused && k == Enter
    ensures t == Reset <==> (s == Paused && k == Escape) || (s == GameOver && k == Enter)
    ensures t != ToGameOver
  {
    match s
    case TitleScreen => if k == Enter then Start else if k == Escape then Close else Ignore
    case InGame => if k == Escape then Pause else Ignore
    case Paused => if k == Escape then Reset else if k == Enter then Resume else Ignore
    case GameOver => if k == Enter then Reset else Ignore
  }

  /**
   * The transition a window event triggers: Closed closes from any state;
   * LostFocus and Resized pause, but only in game; a released key goes to the
   * menu table; anything else triggers nothing. No event ends the game: only
   * a destroyed ship does that, in update.
   */
  function EventTransition(s: GameState, e: Event): (t: Transition)
    ensures e == Closed ==> t == Close
    ensures t == Close ==> e == Closed || (s == TitleScreen && e == KeyReleased(Escape))
    ensures (e == LostFocus || e == Resized) ==> t in {Pause, Ignore} && (t == Pause <==> s == InGame)
    ensures e == OtherEvent || e == KeyReleased(OtherKey) ==> t == Ignore
    ensures t == Pause ==> s == InGame
    ensures t == Resume ==> s == Paused
    ensures t == Start ==> s == TitleScreen
    ensures t != ToGameOver
    ensures e.KeyReleased? ==> t == MenuTransition(s, e.key)
  {
    match e
    case Closed => Close
    case LostFocus => if s == InGame then Pause else Ignore
    case Resized => if s == InGame then Pause else Ignore
    case KeyReleased(k) => MenuTransition(s, k)
    case OtherEvent => Ignore
  }

  /**
   * The phase after handling a run of events in order, as the polling loop
   * does. Closing the game closes the window, and a closed window yields no
   * more events, so the events after a close are never handled: a closed
   * session comes out unchanged, and the running flag can only drop.
   */
  function AfterEvents(p: Phase, events: seq<Event>): (r: Phase)
    ensures !p.running ==> r == p
    ensures r.running ==> p.running
    decreases |events|
  {
    if events == [] || !p.running then p
    else AfterEvents(Apply(EventTransition(p.state, events[0]), p), events[1..])
  }

  /** Handling a run of events is handling its two halves in turn. */
  lemma {:induction false} AfterEventsAppend(p: Phase, a: seq<Event>, b: seq<Event>)
    ensures AfterEvents(p, a + b) == AfterEvents(AfterEvents(p, a), b)
    decreases |a|
  {
    if a == [] {
      assert a + b == b;
    } else if !p.running {
    } else {
      assert (a + b)[0] == a[0] && (a + b)[1..] == a[1..] + b;
      AfterEventsAppend(Apply(EventTransition(p.state, a[0]), p), a[1..], b);
    }
  }

  /**
   * A Closed event anywhere in a run ends the session, from any state, and no
   * event after it is handled.
   */
  lemma CloseEndsSession(p: Phase, events: seq<Event>, i: nat)
    requires i < |events| && events[i] == Closed
    ensures !AfterEvents(p, events).running
    ensures AfterEvents(p, events) == AfterEvents(p, events[..i + 1])
  {
    assert events == events[..i + 1] + events[i + 1..];
    AfterEventsAppend(p, events[..i + 1], events[i + 1..]);
    assert events[..i + 1] == events[..i] + [Closed];
    AfterEventsAppend(p, events[..i], [Closed]);
    var q := AfterEvents(p, events[..i]);
    assert [Closed][1..] == [];
    assert !AfterEvents(q, [Closed]).running;
  }

  /**
   * A run of events none of which moves the state away from s leaves the
   * state at s; the running flag may only drop.
   */
  lemma {:induction false} StateHolds(p: Phase, events: seq<Event>)
    requires forall i :: 0 <= i < |events| ==> EventTransition(p.state, events[i]) in {Ignore, Close}
    ensures AfterEvents(p, events).state == p.state
    ensures AfterEvents(p, events).running ==> p.running
    decreases |events|
  {
    if events != [] {
      var q := Apply(EventTransition(p.state, events[0]), p);
      assert q.state == p.state;
      assert forall i :: 0 <= i < |events[1..]| ==> events[1..][i] == events[i + 1];
      StateHolds(q, events[1..]);
    }
  }

  /** Only a released Enter key leaves the title screen for a game. */
  lemma TitleWaitsForEnter(p: Phase, events: seq<Event>)
    requires p.state == TitleScreen
    requires KeyReleased(Enter) !in events
    ensures AfterEvents(p, events).state == TitleScreen
  {
    StateHolds(p, events);
  }

  /** After game over, the state stays GameOver until a released Enter key. */
  lemma GameOverWaitsForEnter(p: Phase, events: seq<Event>)
    requires p.state == GameOver
    requires KeyReleased(Enter) !in events
    ensures AfterEvents(p, events).state == GameOver
  {
    StateHolds(p, events);
  }

  /**
   * A paused game stays paused, whatever focus and resize events arrive, until
   * a released Enter or Escape key.
   */
  lemma PausedWaitsForKey(p: Phase, events: seq<Event>)
    requires p.state == Paused
    requires KeyReleased(Enter) !in events && KeyReleased(Escape) !in events
    ensures AfterEvents(p, events).state == Paused
  {
    StateHolds(p, events);
  }
}
