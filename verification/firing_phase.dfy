/**
 * The graphical firing phase: two players take turns aiming a crosshair
 * with the arrow keys and firing with Space.  A hit or a sunk ship lets
 * the same player fire again and asks the manager whether somebody has
 * won; a miss passes the turn to the other player.
 */
module FiringPhase {
  import opened Grid

  /**
   * The events the firing screen reacts to.  Space carries what the shot
   * animation reported ("hit", "miss", "sunk:<name>", ...) and what
   * check_win answers after that shot.
   */
  datatype Event = Move(d: Direction) | Space(result: Option<string>, check: Option<PlayerId>) | Close | Other

  /** The loop variables of the phase, and whether the window was closed. */
  datatype State = State(current: PlayerId, other: PlayerId, cursor: Cell, running: bool,
                         winner: Option<PlayerId>, exited: bool)

  /** Player 1 starts, aiming at (0, 0), with no winner. */
  const Initial := State(1, 2, (0, 0), true, None, false)

  predicate StartsWith(s: string, prefix: string) {
    |prefix| <= |s| && s[..|prefix|] == prefix
  }

  /** A result that lets the player fire again: "hit" or "sunk:<name>". */
  predicate ScoresHit(result: Option<string>) {
    result == Some("hit") || (result.Some? && StartsWith(result.value, "sunk:"))
  }

  /** The players are 1 and 2 in some order, and the crosshair is on the board. */
  ghost predicate Sane(rows: int, cols: int, s: State) {
    s.current != s.other && {s.current, s.other} == {1, 2} && InGrid(rows, cols, s.cursor)
  }

  /**
   * One event of the phase.  Arrow keys move the crosshair, clamped to
   * the board.  After a hit or a sunk ship the same player keeps the turn,
   * the check_win answer becomes the winner and the loop stops exactly
   * when there is one.  A miss swaps the two players.  Any other result,
   * such as a repeat, and any other event change nothing.  Closing the
   * window ends the program, after which nothing changes.
   */
  function Step(rows: int, cols: int, s: State, e: Event): (s': State)
    ensures Sane(rows, cols, s) ==> Sane(rows, cols, s')
    ensures s.exited ==> s' == s
    ensures !s.exited && e.Move? ==> s' == s.(cursor := MoveCursor(rows, cols, s.cursor, e.d))
    ensures !s.exited && e.Space? && ScoresHit(e.result) ==>
              s'.current == s.current && s'.other == s.other && s'.cursor == s.cursor &&
              s'.winner == e.check && (s'.running <==> s.running && e.check.None?) && !s'.exited
    ensures !s.exited && e.Space? && !ScoresHit(e.result) && e.result == Some("miss") ==>
              s' == s.(current := s.other, other := s.current)
    ensures !s.exited && e.Space? && !ScoresHit(e.result) && e.result != Some("miss") ==> s' == s
    ensures !s.exited && e == Close ==> s'.exited && !s'.running
    ensures !s.exited && e == Other ==> s' == s
  {
    if s.exited then s
    else
      match e
      case Close => s.(running := false, exited := true)
      case Move(d) =>
        var (row, col) := s.cursor;
        var cursor := match d
          case Up => (Max(0, row - 1), col)
          case Down => (Min(rows - 1, row + 1), col)
          case Left => (row, Max(0, col - 1))
          case Right => (row, Min(cols - 1, col + 1));
        s.(cursor := cursor)
      case Space(result, check) =>
        if ScoresHit(result) then
          s.(winner := check, running := if check.Some? then false else s.running)
        else if result == Some("miss") then
          s.(current := s.other, other := s.current)
        else s
      case Other => s
  }

  /** The events of one frame, in order. */
  function Steps(rows: int, cols: int, s: State, events: seq<Event>): State
    decreases |events|
  {
    if |events| == 0 then s
    else Step(rows, cols, Steps(rows, cols, s, events[..|events| - 1]), events[|events| - 1])
  }

  /**
   * The frames of the phase: the loop checks `running` before each frame
   * and handles every event of a frame once it has started.
   */
  function Play(rows: int, cols: int, s: State, frames: seq<seq<Event>>): State
    decreases |frames|
  {
    if |frames| == 0 || !s.running then s
    else Play(rows, cols, Steps(rows, cols, s, frames[0]), frames[1..])
  }

  lemma {:induction false} StepsSane(rows: int, cols: int, s: State, events: seq<Event>)
    requires Sane(rows, cols, s)
    ensures Sane(rows, cols, Steps(rows, cols, s, events))
    decreases |events|
  {
    if |events| > 0 {
      StepsSane(rows, cols, s, events[..|events| - 1]);
    }
  }

  lemma {:induction false} PlaySane(rows: int, cols: int, s: State, frames: seq<seq<Event>>)
    requires Sane(rows, cols, s)
    ensures Sane(rows, cols, Play(rows, cols, s, frames))
    decreases |frames|
  {
    if |frames| > 0 && s.running {
      StepsSane(rows, cols, s, frames[0]);
      PlaySane(rows, cols, Steps(rows, cols, s, frames[0]), frames[1..]);
    }
  }

  /**
   * On a board with at least one cell, throughout the phase the two
   * players are 1 and 2 in some order and the crosshair stays on the board.
   */
  lemma PhaseSane(rows: int, cols: int, frames: seq<seq<Event>>)
    requires 1 <= rows && 1 <= cols
    ensures Sane(rows, cols, Play(rows, cols, Initial, frames))
  {
    PlaySane(rows, cols, Initial, frames);
  }

  /** Once the window is closed, further events change nothing. */
  lemma {:induction false} StepsExited(rows: int, cols: int, s: State, events: seq<Event>)
    requires s.exited
    ensures Steps(rows, cols, s, events) == s
    decreases |events|
  {
    if |events| > 0 {
      StepsExited(rows, cols, s, events[..|events| - 1]);
    }
  }

  /** Handling a frame's events in two parts is handling them all. */
  lemma {:induction false} StepsAppend(rows: int, cols: int, s: State, a: seq<Event>, b: seq<Event>)
    ensures Steps(rows, cols, s, a + b) == Steps(rows, cols, Steps(rows, cols, s, a), b)
    decreases |b|
  {
    if |b| == 0 {
      assert a + b == a;
    } else {
      assert (a + b)[..|a + b| - 1] == a + b[..|b| - 1];
      StepsAppend(rows, cols, s, a, b[..|b| - 1]);
    }
  }

  /**
   * The return value: "Player 1" or "Player 2" for a winner, nothing
   * otherwise.
   */
  function Announce(winner: Option<PlayerId>): (r: Option<string>)
    ensures r.Some? <==> winner.Some?
    ensures r.Some? ==>
              |r.value| == 8 && r.value[..7] == "Player " && r.value[7] as int - '0' as int == winner.value
  {
    match winner
    case None => None
    case Some(p) => Some("Player " + [if p == 1 then '1' else '2'])
  }

  /**
   * firing_phase: frames of events until a winner stops the loop, the
   * window is closed or the frames run out.  The outcome is that of
   * playing the frames from the initial state; `pending` says the frames
   * ran out while the loop was still running.
   */
  method RunFiringPhase(rows: nat, cols: nat, frames: seq<seq<Event>>)
    returns (exited: bool, outcome: Option<string>, pending: bool)
    ensures exited == Play(rows, cols, Initial, frames).exited
    ensures !exited ==> outcome == Announce(Play(rows, cols, Initial, frames).winner)
    ensures pending == Play(rows, cols, Initial, frames).running
    ensures exited ==> !pending
  {
    var current: PlayerId, other: PlayerId := 1, 2;
    var cursorRow, cursorCol := 0, 0;
    var running := true;
    var winner: Option<PlayerId> := None;
    var f := 0;
    while running && f < |frames|
      invariant 0 <= f <= |frames|
      invariant Play(rows, cols, Initial, frames) ==
                Play(rows, cols, State(current, other, (cursorRow, cursorCol), running, winner, false), frames[f..])
    {
      var events := frames[f];
      ghost var s0 := State(current, other, (cursorRow, cursorCol), running, winner, false);
      assert frames[f..][1..] == frames[f + 1..];
      for e := 0 to |events|
        invariant State(current, other, (cursorRow, cursorCol), running, winner, false) ==
                  Steps(rows, cols, s0, events[..e])
      {
        assert events[..e + 1][..e] == events[..e];
        match events[e] {
          case Close =>
            ghost var s1 := Steps(rows, cols, s0, events[..e + 1]);
            StepsAppend(rows, cols, s0, events[..e + 1], events[e + 1..]);
            assert events[..e + 1] + events[e + 1..] == events;
            StepsExited(rows, cols, s1, events[e + 1..]);
            return true, None, false;
          case Move(d) =>
            match d {
              case Up => cursorRow := Max(0, cursorRow - 1);
              case Down => cursorRow := Min(rows - 1, cursorRow + 1);
              case Left => cursorCol := Max(0, cursorCol - 1);
              case Right => cursorCol := Min(cols - 1, cursorCol + 1);
            }
          case Space(result, check) =>
            if ScoresHit(result) {
              winner := check;
              if winner.Some? {
                running := false;
              }
            } else if result == Some("miss") {
              current, other := other, current;
            }
          case Other =>
        }
      }
      assert events[..|events|] == events;
      f := f + 1;
    }
    return false, Announce(winner), running;
  }
}
