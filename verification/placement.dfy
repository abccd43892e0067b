/**
 * Ship placement with the mouse and the alternating terminal firing turns
 * that follow it.  Each frame the ship being placed is previewed at the
 * cell under the mouse; a left click places it when the preview is valid,
 * and R turns it between horizontal and vertical.
 */
module Placement {
  import opened Grid
  import opened Arrangement
  import opened Settings
  import opened TerminalFiring

  /** The "S" cells of a board. */
  ghost function ShipCells(b: array2<Mark>): (s: set<Cell>)
    reads b
    ensures forall x :: x in s <==> ShipAt(b, x)
  {
    set r, c | 0 <= r < b.Length0 && 0 <= c < b.Length1 && b[r, c] == Ship :: (r, c)
  }

  /** Only water and ship cells: a board before any shot. */
  ghost predicate Unshot(b: array2<Mark>)
    reads b
  {
    forall r, c :: 0 <= r < b.Length0 && 0 <= c < b.Length1 ==> b[r, c] == Water || b[r, c] == Ship
  }

  /** The flattened ship list: each name repeated count times, in dictionary order. */
  method ExpandShipList(counts: Counts) returns (list: seq<string>)
    ensures list == ShipList(counts)
  {
    list := [];
    for k := 0 to |counts|
      invariant list == ShipList(counts[..k])
    {
      var (name, count) := counts[k];
      var j := 0;
      while j < count
        invariant 0 <= j <= Max(count, 0)
        invariant list == ShipList(counts[..k]) + Repeat(name, j)
      {
        assert Repeat(name, j + 1) == Repeat(name, j) + [name];
        list := list + [name];
        j := j + 1;
      }
      assert Repeat(name, j) == Repeat(name, count);
      assert counts[..k + 1][..k] == counts[..k];
    }
    assert counts[..|counts|] == counts;
  }

  /** The catalog lengths of a list of known ship names. */
  ghost function LengthsOf(names: seq<string>): (ls: seq<int>)
    requires forall i :: 0 <= i < |names| ==> Known(names[i])
    ensures |ls| == |names| && forall i :: 0 <= i < |names| ==> ls[i] == ShipLength(names[i])
  {
    seq(|names|, i requires 0 <= i < |names| => ShipLength(names[i]) as int)
  }

  /** A segment that lies on the board and covers no "S" cell. */
  ghost predicate Placeable(b: array2<Mark>, p: Segment)
    reads b
  {
    InBounds(b.Length0, b.Length1, p) && forall i :: 0 <= i < p.len ==> !ShipAt(b, CellAt(p, i))
  }

  /**
   * The preview of a ship of length `len` at (row, col) in orientation o:
   * the covered cells are collected in order until one runs past the
   * bottom or right edge or is already "S".  The preview is valid exactly
   * when the ship lies on the board and covers no "S" cell, and then all
   * of its cells are collected.
   */
  method Preview(board: array2<Mark>, row: int, col: int, len: int, o: Orientation)
    returns (valid: bool, cells: seq<Cell>)
    requires InGrid(board.Length0, board.Length1, (row, col))
    ensures valid <==> Placeable(board, Segment(row, col, len, o))
    ensures forall i :: 0 <= i < |cells| ==> cells[i] == CellAt(Segment(row, col, len, o), i)
    ensures valid ==> |cells| == Max(len, 0)
    ensures !valid ==>
              |cells| < len &&
              !(InGrid(board.Length0, board.Length1, CellAt(Segment(row, col, len, o), |cells|)) &&
                !ShipAt(board, CellAt(Segment(row, col, len, o), |cells|)))
  {
    ghost var p := Segment(row, col, len, o);
    cells := [];
    var i := 0;
    while i < len
      invariant 0 <= i <= Max(len, 0) && |cells| == i
      invariant forall k :: 0 <= k < i ==>
                  cells[k] == CellAt(p, k) && InGrid(board.Length0, board.Length1, cells[k]) && !ShipAt(board, cells[k])
    {
      var r := if o == V then row + i else row;
      var c := if o == H then col + i else col;
      assert CellAt(p, i) == (r, c);
      if r >= board.Length0 || c >= board.Length1 || board[r, c] == Ship {
        return false, cells;
      }
      cells := cells + [(r, c)];
      i := i + 1;
    }
    if len > 0 {
      assert InGrid(board.Length0, board.Length1, cells[len - 1]);
    }
    return true, cells;
  }

  /** The commit of a click: every preview cell becomes "S", no other cell changes. */
  method Commit(board: array2<Mark>, cells: seq<Cell>)
    requires forall i :: 0 <= i < |cells| ==> InGrid(board.Length0, board.Length1, cells[i])
    modifies board
    ensures forall r, c :: 0 <= r < board.Length0 && 0 <= c < board.Length1 ==>
              board[r, c] == if (r, c) in cells then Ship else old(board[r, c])
  {
    for i := 0 to |cells|
      invariant forall r, c :: 0 <= r < board.Length0 && 0 <= c < board.Length1 ==>
                  board[r, c] == if (r, c) in cells[..i] then Ship else old(board[r, c])
    {
      var (r, c) := cells[i];
      board[r, c] := Ship;
      assert cells[..i + 1] == cells[..i] + [cells[i]];
    }
    assert cells[..|cells|] == cells;
  }

  /** Placing a segment on cells that hold no "S" adds exactly its cells to the "S" cells. */
  lemma PlacedCells(before: set<Cell>, after: set<Cell>, p: Segment)
    requires p.len >= 0
    requires forall x :: Covers(p, x) ==> x !in before
    requires forall x :: x in after <==> x in before || Covers(p, x)
    ensures |after| == |before| + p.len
  {
    CellsCard(p);
    assert after == before + Cells(p);
  }

  /**
   * A left click with the mouse on (row, col) while ship `index` of
   * `names` is being placed in orientation o.  A valid placement sets
   * exactly the covered cells to "S" and moves on to the next ship; any
   * other click changes nothing.
   */
  method Click(board: array2<Mark>, names: seq<string>, index: nat, o: Orientation, mouse: Cell)
    returns (index': nat)
    requires index <= |names| && forall i :: 0 <= i < |names| ==> Known(names[i])
    modifies board
    ensures var placing := index < |names| && InGrid(board.Length0, board.Length1, mouse) &&
                           old(Placeable(board, Segment(mouse.0, mouse.1, ShipLength(names[index]), o)));
      && index' == (if placing then index + 1 else index)
      && (forall r, c :: 0 <= r < board.Length0 && 0 <= c < board.Length1 ==>
            board[r, c] ==
            if placing && Covers(Segment(mouse.0, mouse.1, ShipLength(names[index]), o), (r, c)) then Ship
            else old(board[r, c]))
      && |ShipCells(board)| == old(|ShipCells(board)|) + (if placing then ShipLength(names[index]) else 0)
    ensures var s := Place(board.Length0, board.Length1, names, mouse, Progress(old(ShipCells(board)), index, o, false));
      ShipCells(board) == s.ships && index' == s.index
  {
    index' := index;
    if index < |names| && InGrid(board.Length0, board.Length1, mouse) {
      var len := ShipLength(names[index]);
      ghost var p := Segment(mouse.0, mouse.1, len, o);
      ghost var before := ShipCells(board);
      PlaceableAmong(board, p);
      var valid, cells := Preview(board, mouse.0, mouse.1, len, o);
      if valid {
        forall x ensures x in cells <==> Covers(p, x) {
          CoversCellAt(p, x);
        }
        Commit(board, cells);
        index' := index + 1;
        forall x | Covers(p, x) ensures x !in before {
          CoversCellAt(p, x);
        }
        PlacedCells(before, ShipCells(board), p);
        assert ShipCells(board) == before + Cells(p);
      }
    }
  }

  /** Placement progress as the frame loop sees it: the "S" cells, the ship index, the orientation, and whether the window was closed. */
  datatype Progress = Progress(ships: set<Cell>, index: nat, o: Orientation, quit: bool)

  /** The segment lies on the board and covers none of the cells `ships`. */
  ghost predicate FitsAmong(rows: int, cols: int, ships: set<Cell>, p: Segment) {
    InBounds(rows, cols, p) && forall x :: Covers(p, x) ==> x !in ships
  }

  /** A placement is valid on a board exactly when it fits among the board's "S" cells. */
  lemma PlaceableAmong(b: array2<Mark>, p: Segment)
    ensures Placeable(b, p) <==> FitsAmong(b.Length0, b.Length1, ShipCells(b), p)
  {
    forall x | Covers(p, x) ensures Placeable(b, p) ==> x !in ShipCells(b) {
      CoversCellAt(p, x);
    }
    forall i | 0 <= i < p.len ensures FitsAmong(b.Length0, b.Length1, ShipCells(b), p) ==> !ShipAt(b, CellAt(p, i)) {
      CoversCellAt(p, CellAt(p, i));
    }
  }

  /** A click on `mouse`: the current ship is placed there when it fits, and nothing changes otherwise. */
  ghost function Place(rows: int, cols: int, names: seq<string>, mouse: Cell, s: Progress): Progress
    requires forall i :: 0 <= i < |names| ==> Known(names[i])
  {
    if s.index < |names| && InGrid(rows, cols, mouse) &&
       FitsAmong(rows, cols, s.ships, Segment(mouse.0, mouse.1, ShipLength(names[s.index]), s.o))
    then s.(ships := s.ships + Cells(Segment(mouse.0, mouse.1, ShipLength(names[s.index]), s.o)), index := s.index + 1)
    else s
  }

  /**
   * The events of one frame handled one after another, each click judged
   * against the current ship cells, ship and orientation, until the
   * window is closed.
   */
  ghost function HandleAll(rows: int, cols: int, names: seq<string>, mouse: Cell, s: Progress, events: seq<Event>): Progress
    requires forall i :: 0 <= i < |names| ==> Known(names[i])
    decreases |events|
  {
    if |events| == 0 then s
    else
      match events[0]
      case QuitEvent => s.(quit := true)
      case RotateKey => HandleAll(rows, cols, names, mouse, s.(o := Rotate(s.o)), events[1..])
      case LeftClick => HandleAll(rows, cols, names, mouse, Place(rows, cols, names, mouse, s), events[1..])
      case OtherEvent => HandleAll(rows, cols, names, mouse, s, events[1..])
  }

  /** The orientation after n presses of R. */
  function Turned(o: Orientation, n: nat): (o': Orientation)
    ensures o' == o <==> n % 2 == 0
  {
    if n % 2 == 0 then o else Rotate(o)
  }

  /** The window is closed during a frame exactly when a close event is among its events. */
  lemma {:induction false} HandleQuit(rows: int, cols: int, names: seq<string>, mouse: Cell, s: Progress, events: seq<Event>)
    requires forall i :: 0 <= i < |names| ==> Known(names[i])
    ensures HandleAll(rows, cols, names, mouse, s, events).quit <==> s.quit || QuitBefore(events, |events|)
    decreases |events|
  {
    if |events| > 0 && events[0] != QuitEvent {
      var s' := match events[0]
        case RotateKey => s.(o := Rotate(s.o))
        case LeftClick => Place(rows, cols, names, mouse, s)
        case OtherEvent => s;
      HandleQuit(rows, cols, names, mouse, s', events[1..]);
      assert QuitBefore(events, |events|) <==> QuitBefore(events[1..], |events| - 1) by {
        if QuitBefore(events, |events|) {
          var k :| 0 <= k < |events| && events[k] == QuitEvent;
          assert events[1..][k - 1] == QuitEvent;
        }
        if QuitBefore(events[1..], |events| - 1) {
          var k :| 0 <= k < |events| - 1 && events[1..][k] == QuitEvent;
          assert events[k + 1] == QuitEvent;
        }
      }
    } else if |events| > 0 {
      assert events[0] == QuitEvent;
    }
  }

  /** The orientation at the end of a frame is the start one turned once per R before the window is closed. */
  lemma {:induction false} HandleTurns(rows: int, cols: int, names: seq<string>, mouse: Cell, s: Progress, events: seq<Event>)
    requires forall i :: 0 <= i < |names| ==> Known(names[i])
    ensures HandleAll(rows, cols, names, mouse, s, events).o == Turned(s.o, Tally(events, RotateKey))
    decreases |events|
  {
    if |events| > 0 && events[0] != QuitEvent {
      match events[0]
      case RotateKey =>
        HandleTurns(rows, cols, names, mouse, s.(o := Rotate(s.o)), events[1..]);
      case LeftClick =>
        HandleTurns(rows, cols, names, mouse, Place(rows, cols, names, mouse, s), events[1..]);
      case OtherEvent =>
        HandleTurns(rows, cols, names, mouse, s, events[1..]);
    }
  }

  /**
   * Over a frame, the ships placed only advance, the "S" cells only grow,
   * and their number stays equal to the lengths of the ships placed.
   */
  lemma {:induction false} HandlePlaced(rows: int, cols: int, names: seq<string>, mouse: Cell, s: Progress, events: seq<Event>)
    requires forall i :: 0 <= i < |names| ==> Known(names[i])
    requires s.index <= |names| && |s.ships| == Sum(LengthsOf(names)[..s.index])
    ensures var s' := HandleAll(rows, cols, names, mouse, s, events);
      s.index <= s'.index <= |names| && s.ships <= s'.ships && |s'.ships| == Sum(LengthsOf(names)[..s'.index])
    decreases |events|
  {
    if |events| > 0 && events[0] != QuitEvent {
      match events[0]
      case RotateKey =>
        HandlePlaced(rows, cols, names, mouse, s.(o := Rotate(s.o)), events[1..]);
      case LeftClick =>
        var s' := Place(rows, cols, names, mouse, s);
        if s'.index > s.index {
          var p := Segment(mouse.0, mouse.1, ShipLength(names[s.index]), s.o);
          PlacedCells(s.ships, s'.ships, p);
          PrefixSum(LengthsOf(names), s.index);
        }
        HandlePlaced(rows, cols, names, mouse, s', events[1..]);
      case OtherEvent =>
        HandlePlaced(rows, cols, names, mouse, s, events[1..]);
    }
  }

  /** The input of one frame: the board cell under the mouse and the events of the frame. */
  datatype Event = RotateKey | LeftClick | QuitEvent | OtherEvent
  datatype Frame = Frame(mouse: Cell, events: seq<Event>)

  /**
   * The event handling of one frame, each click judged against the
   * current board, ship and orientation: R toggles the orientation, a
   * click places the current ship where valid, closing the window stops
   * everything.  The frame ends as HandleAll says, only new "S" cells
   * appear, and the "S" count keeps equal to the lengths placed so far.
   */
  method HandleFrame(board: array2<Mark>, names: seq<string>, index: nat, o: Orientation, frame: Frame)
    returns (index': nat, o': Orientation, quit: bool)
    requires index <= |names| && forall i :: 0 <= i < |names| ==> Known(names[i])
    requires |ShipCells(board)| == Sum(LengthsOf(names)[..index])
    modifies board
    ensures var s := HandleAll(board.Length0, board.Length1, names, frame.mouse,
                               Progress(old(ShipCells(board)), index, o, false), frame.events);
      ShipCells(board) == s.ships && index' == s.index && o' == s.o && quit == s.quit
    ensures quit <==> QuitBefore(frame.events, |frame.events|)
    ensures o' == Turned(o, Tally(frame.events, RotateKey))
    ensures forall r, c :: 0 <= r < board.Length0 && 0 <= c < board.Length1 ==>
              board[r, c] == old(board[r, c]) || board[r, c] == Ship
    ensures index <= index' <= |names|
    ensures |ShipCells(board)| == Sum(LengthsOf(names)[..index'])
    ensures old(ShipCells(board)) <= ShipCells(board)
    ensures old(Unshot(board)) ==> Unshot(board)
  {
    ghost var rows, cols := board.Length0, board.Length1;
    var events := frame.events;
    ghost var start := Progress(ShipCells(board), index, o, false);
    HandleQuit(rows, cols, names, frame.mouse, start, events);
    HandleTurns(rows, cols, names, frame.mouse, start, events);
    HandlePlaced(rows, cols, names, frame.mouse, start, events);
    index', o', quit := index, o, false;
    for e := 0 to |events|
      invariant HandleAll(rows, cols, names, frame.mouse, start, events) ==
                HandleAll(rows, cols, names, frame.mouse, Progress(ShipCells(board), index', o', false), events[e..])
      invariant forall r, c :: 0 <= r < rows && 0 <= c < cols ==> board[r, c] == old(board[r, c]) || board[r, c] == Ship
      invariant index' <= |names|
    {
      assert events[e..][1..] == events[e + 1..];
      match events[e] {
        case QuitEvent =>
          return index', o', true;
        case RotateKey =>
          o' := Rotate(o');
        case LeftClick =>
          index' := Click(board, names, index', o', frame.mouse);
        case OtherEvent =>
      }
    }
    assert events[|events|..] == [];
  }

  /** Helper of HandlePlaced: extending a prefix by one element adds that element to its sum. */
  lemma PrefixSum(s: seq<int>, k: nat)
    requires k < |s|
    ensures Sum(s[..k + 1]) == Sum(s[..k]) + s[k]
  {
    assert s[..k + 1] == s[..k] + [s[k]];
    SumAppend(s[..k], [s[k]]);
  }

  /** The frame contains a window-close event. */
  predicate Closes(frame: Frame) {
    QuitBefore(frame.events, |frame.events|)
  }

  /**
   * The frames of one player's placement: before each frame the loop
   * checks that a ship is left to place, and a frame that closes the
   * window ends the phase.
   */
  ghost function Phase(rows: int, cols: int, names: seq<string>, s: Progress, frames: seq<Frame>): Progress
    requires forall i :: 0 <= i < |names| ==> Known(names[i])
    decreases |frames|
  {
    if |frames| == 0 || s.index >= |names| then s
    else
      var s' := HandleAll(rows, cols, names, frames[0].mouse, s, frames[0].events);
      if s'.quit then s' else Phase(rows, cols, names, s', frames[1..])
  }

  /**
   * How the placement ends: the "S" cells number the lengths of the ships
   * placed; the window was closed only if some frame closes it; and while
   * a ship is left unplaced, it was closed exactly when some frame closes
   * it, so otherwise every frame was handled.
   */
  lemma {:induction false} PhaseOutcome(rows: int, cols: int, names: seq<string>, s: Progress, frames: seq<Frame>)
    requires forall i :: 0 <= i < |names| ==> Known(names[i])
    requires s.index <= |names| && |s.ships| == Sum(LengthsOf(names)[..s.index]) && !s.quit
    ensures var r := Phase(rows, cols, names, s, frames);
      && s.index <= r.index <= |names|
      && |r.ships| == Sum(LengthsOf(names)[..r.index])
      && (r.quit ==> exists f :: 0 <= f < |frames| && Closes(frames[f]))
      && (r.index < |names| ==> (r.quit <==> exists f :: 0 <= f < |frames| && Closes(frames[f])))
    decreases |frames|
  {
    if |frames| > 0 && s.index < |names| {
      var s' := HandleAll(rows, cols, names, frames[0].mouse, s, frames[0].events);
      HandleQuit(rows, cols, names, frames[0].mouse, s, frames[0].events);
      HandlePlaced(rows, cols, names, frames[0].mouse, s, frames[0].events);
      if s'.quit {
        assert Closes(frames[0]);
      } else {
        PhaseOutcome(rows, cols, names, s', frames[1..]);
        assert !Closes(frames[0]);
        forall f | 0 <= f < |frames| && Closes(frames[f]) ensures 0 <= f - 1 < |frames[1..]| && Closes(frames[1..][f - 1]) {
          assert f != 0;
        }
        forall f | 0 <= f < |frames[1..]| && Closes(frames[1..][f]) ensures Closes(frames[f + 1]) {
        }
      }
    }
  }

  /**
   * placement_phase for one player: a fresh board of water, the ship list
   * in dictionary order, and frames until every ship is placed, the
   * window is closed, or the frames run out.  The board and the ships
   * placed are what Phase makes of the frames, so the board holds only
   * water and ship cells and its "S" cells number exactly the lengths of
   * the ships placed.
   */
  method PlacementPhase(rows: nat, cols: nat, counts: Counts, frames: seq<Frame>)
    returns (board: array2<Mark>, placed: nat, exited: bool)
    requires AllKnown(counts)
    ensures fresh(board) && board.Length0 == rows && board.Length1 == cols
    ensures forall i :: 0 <= i < |ShipList(counts)| ==> Known(ShipList(counts)[i])
    ensures var s := Phase(rows, cols, ShipList(counts), Progress({}, 0, H, false), frames);
      ShipCells(board) == s.ships && placed == s.index && exited == s.quit
    ensures exited ==> exists f :: 0 <= f < |frames| && Closes(frames[f])
    ensures placed < |ShipList(counts)| ==> (exited <==> exists f :: 0 <= f < |frames| && Closes(frames[f]))
    ensures placed <= |ShipList(counts)| && placed <= |FleetLengths(counts)|
    ensures |ShipCells(board)| == Sum(FleetLengths(counts)[..placed])
    ensures Unshot(board)
  {
    board := CreateEmptyBoard(rows, cols);
    var names := ExpandShipList(counts);
    FleetLengthsOfShipList(counts);
    assert LengthsOf(names) == FleetLengths(counts);
    assert ShipCells(board) == {};
    ghost var start := Progress({}, 0, H, false);
    PhaseOutcome(rows, cols, names, start, frames);
    placed, exited := 0, false;
    var o := H;
    var f := 0;
    while placed < |names| && f < |frames|
      invariant 0 <= f <= |frames| && placed <= |names|
      invariant Phase(rows, cols, names, start, frames) ==
                Phase(rows, cols, names, Progress(ShipCells(board), placed, o, false), frames[f..])
      invariant |ShipCells(board)| == Sum(LengthsOf(names)[..placed])
      invariant Unshot(board)
    {
      assert frames[f..][1..] == frames[f + 1..];
      placed, o, exited := HandleFrame(board, names, placed, o, frames[f]);
      if exited {
        return;
      }
      f := f + 1;
    }
  }

  // ---------------------------------------------------------------------
  // The frame as written: one preview per frame for all of its clicks

  /** The number of `ev` events before the window is closed. */
  function Tally(events: seq<Event>, ev: Event): (n: nat)
    ensures n <= |events|
  {
    if |events| == 0 || events[0] == QuitEvent then 0
    else (if events[0] == ev then 1 else 0) + Tally(events[1..], ev)
  }

  /**
   * The frame as the placement loop runs it: the preview is computed once,
   * before the events, and every click of the frame commits that same
   * preview when it was valid.  With the mouse off the board there is no
   * preview for this frame, and a click then places nothing.
   */
  method HandleFrameAsWritten(board: array2<Mark>, names: seq<string>, index: nat, o: Orientation, frame: Frame)
    returns (index': nat, o': Orientation, quit: bool)
    requires index < |names| && forall i :: 0 <= i < |names| ==> Known(names[i])
    modifies board
    ensures var valid := InGrid(board.Length0, board.Length1, frame.mouse) &&
                         old(Placeable(board, Segment(frame.mouse.0, frame.mouse.1, ShipLength(names[index]), o)));
      && index' == index + (if valid then Tally(frame.events, LeftClick) else 0)
      && (forall r, c :: 0 <= r < board.Length0 && 0 <= c < board.Length1 ==>
            board[r, c] ==
            if valid && Tally(frame.events, LeftClick) > 0 &&
               Covers(Segment(frame.mouse.0, frame.mouse.1, ShipLength(names[index]), o), (r, c))
            then Ship
            else old(board[r, c]))
    ensures quit <==> QuitBefore(frame.events, |frame.events|)
    ensures o' == Turned(o, Tally(frame.events, RotateKey))
  {
    var len := ShipLength(names[index]);
    ghost var p := Segment(frame.mouse.0, frame.mouse.1, len, o);
    var valid, cells := false, [];
    if InGrid(board.Length0, board.Length1, frame.mouse) {
      valid, cells := Preview(board, frame.mouse.0, frame.mouse.1, len, o);
    }
    forall x ensures valid ==> (x in cells <==> Covers(p, x)) {
      CoversCellAt(p, x);
    }
    index', o', quit := EventsAsWritten(board, cells, valid, index, o, frame.events);
  }

  /**
   * The event loop of a frame as written: every click commits the one
   * preview computed before the loop, when it was valid.
   */
  method EventsAsWritten(board: array2<Mark>, cells: seq<Cell>, valid: bool, index: nat, o: Orientation, events: seq<Event>)
    returns (index': nat, o': Orientation, quit: bool)
    requires valid ==> forall i :: 0 <= i < |cells| ==> InGrid(board.Length0, board.Length1, cells[i])
    modifies board
    ensures index' == index + (if valid then Tally(events, LeftClick) else 0)
    ensures forall r, c :: 0 <= r < board.Length0 && 0 <= c < board.Length1 ==>
              board[r, c] == if valid && Tally(events, LeftClick) > 0 && (r, c) in cells then Ship else old(board[r, c])
    ensures quit <==> QuitBefore(events, |events|)
    ensures o' == Turned(o, Tally(events, RotateKey))
  {
    index', o', quit := index, o, false;
    ghost var committed := false;
    var e := 0;
    while e < |events|
      invariant 0 <= e <= |events|
      invariant !QuitBefore(events, e)
      invariant index' == index + (if valid then Tally(events[..e], LeftClick) else 0)
      invariant o' == Turned(o, Tally(events[..e], RotateKey))
      invariant committed <==> valid && Tally(events[..e], LeftClick) > 0
      invariant forall r, c :: 0 <= r < board.Length0 && 0 <= c < board.Length1 ==>
                  board[r, c] == if committed && (r, c) in cells then Ship else old(board[r, c])
    {
      TallySnoc(events, e, LeftClick);
      TallySnoc(events, e, RotateKey);
      match events[e] {
        case QuitEvent =>
          TallyAtQuit(events, e, LeftClick);
          TallyAtQuit(events, e, RotateKey);
          return index', o', true;
        case RotateKey =>
          o' := Rotate(o');
        case LeftClick =>
          if valid {
            Commit(board, cells);
            index' := index' + 1;
            committed := true;
          }
        case OtherEvent =>
      }
      e := e + 1;
    }
    assert events[..e] == events;
  }

  /** A window-close event occurs among the first e events. */
  predicate QuitBefore(events: seq<Event>, e: int) {
    exists k :: 0 <= k < e && k < |events| && events[k] == QuitEvent
  }

  /** Counting the `ev` events of a prefix one event further. */
  lemma {:induction false} TallySnoc(events: seq<Event>, e: nat, ev: Event)
    requires e < |events| && !QuitBefore(events, e)
    ensures events[e] != QuitEvent ==>
              Tally(events[..e + 1], ev) == Tally(events[..e], ev) + (if events[e] == ev then 1 else 0)
    ensures events[e] != QuitEvent ==> !QuitBefore(events, e + 1)
    decreases e
  {
    if e > 0 {
      assert events[..e + 1][1..] == events[1..][..e];
      assert events[..e][1..] == events[1..][..e - 1];
      if events[0] != QuitEvent {
        TallySnoc(events[1..], e - 1, ev);
      } else {
        assert false;
      }
    }
  }

  /** The `ev` events counted over all events are those before the first window-close event. */
  lemma {:induction false} TallyAtQuit(events: seq<Event>, e: nat, ev: Event)
    requires e < |events| && !QuitBefore(events, e) && events[e] == QuitEvent
    ensures Tally(events, ev) == Tally(events[..e], ev)
    decreases e
  {
    if e > 0 {
      assert events[..e][1..] == events[1..][..e - 1];
      if events[0] != QuitEvent {
        TallyAtQuit(events[1..], e - 1, ev);
      } else {
        assert false;
      }
    }
  }

  /**
   * Two clicks in one frame, on an empty 1 x 5 board with two destroyers
   * to place and the mouse on (0, 0): both ships count as placed, but the
   * board holds only the two "S" cells of the first instead of the four
   * cells of two destroyers.
   */
  method StaleDoubleClick() returns (board: array2<Mark>, placed: nat)
    ensures placed == 2 && |ShipCells(board)| == 2
  {
    board := CreateEmptyBoard(1, 5);
    var names := ["destroyer", "destroyer"];
    assert Known(names[0]) by { assert Catalog[4].0 == "destroyer"; }
    assert ShipLength("destroyer") == 2;
    assert Placeable(board, Segment(0, 0, 2, H));
    var o, quit;
    placed, o, quit := HandleFrameAsWritten(board, names, 0, H, Frame((0, 0), [LeftClick, LeftClick]));
    assert [LeftClick, LeftClick][1..] == [LeftClick];
    assert Tally([LeftClick, LeftClick], LeftClick) == 2;
    assert ShipCells(board) == {(0, 0), (0, 1)};
  }

  // ---------------------------------------------------------------------
  // start_game: the terminal firing turns after both placements

  /** Some turn of the log was `player` firing at x. */
  ghost predicate ShotBy(log: seq<(PlayerId, Cell)>, player: PlayerId, x: Cell) {
    exists i :: 0 <= i < |log| && log[i] == (player, x)
  }

  /**
   * firing_loop: turns alternate starting with player 1, who fires at
   * player 2's board; every turn that does not end in quit counts one
   * more turn.  The log records each finished turn's attacker and target,
   * and a cell of a board changes only where the opponent fired.
   */
  method FiringLoop(board1: array2<Mark>, board2: array2<Mark>, history1: array2<Mark>, history2: array2<Mark>,
                    keys: seq<Key>)
    returns (turn: nat, log: seq<(PlayerId, Cell)>, quit: bool)
    requires board1 != board2 && history1 != history2
    requires board1 != history1 && board1 != history2 && board2 != history1 && board2 != history2
    requires 1 <= history1.Length0 && 1 <= history1.Length1
    requires forall a: array2<Mark> | a in {board1, board2, history2} ::
               a.Length0 == history1.Length0 && a.Length1 == history1.Length1
    modifies board1, board2, history1, history2
    ensures turn == |log|
    ensures forall i :: 0 <= i < |log| ==> log[i].0 == if i % 2 == 0 then 1 else 2
    ensures forall r, c :: 0 <= r < board2.Length0 && 0 <= c < board2.Length1 && !ShotBy(log, 1, (r, c)) ==>
              board2[r, c] == old(board2[r, c]) && history1[r, c] == old(history1[r, c])
    ensures forall r, c :: 0 <= r < board1.Length0 && 0 <= c < board1.Length1 && !ShotBy(log, 2, (r, c)) ==>
              board1[r, c] == old(board1[r, c]) && history2[r, c] == old(history2[r, c])
  {
    turn, log, quit := 0, [], false;
    var pos := 0;
    while true
      invariant 0 <= pos <= |keys| && turn == |log|
      invariant forall i :: 0 <= i < |log| ==> log[i].0 == if i % 2 == 0 then 1 else 2
      invariant forall r, c :: 0 <= r < board2.Length0 && 0 <= c < board2.Length1 && !ShotBy(log, 1, (r, c)) ==>
                  board2[r, c] == old(board2[r, c]) && history1[r, c] == old(history1[r, c])
      invariant forall r, c :: 0 <= r < board1.Length0 && 0 <= c < board1.Length1 && !ShotBy(log, 2, (r, c)) ==>
                  board1[r, c] == old(board1[r, c]) && history2[r, c] == old(history2[r, c])
      decreases |keys| - pos
    {
      var attacker: PlayerId := if turn % 2 == 0 then 1 else 2;
      var res, shot, next;
      if attacker == 1 {
        res, shot, next := FiringPhaseForTurn(board2, history1, keys, pos);
      } else {
        res, shot, next := FiringPhaseForTurn(board1, history2, keys, pos);
      }
      if res == TurnQuit {
        return turn, log, true;
      } else if res == TurnPending {
        return turn, log, false;
      }
      ShotBySnoc(log, (attacker, shot.value));
      log := log + [(attacker, shot.value)];
      turn := turn + 1;
      pos := next;
    }
  }

  lemma ShotBySnoc(log: seq<(PlayerId, Cell)>, e: (PlayerId, Cell))
    ensures forall p: PlayerId, x :: ShotBy(log + [e], p, x) <==> ShotBy(log, p, x) || e == (p, x)
  {
    forall p: PlayerId, x | ShotBy(log + [e], p, x) ensures ShotBy(log, p, x) || e == (p, x) {
      var i :| 0 <= i < |log + [e]| && (log + [e])[i] == (p, x);
      if i < |log| {
        assert log[i] == (p, x);
      }
    }
    forall p: PlayerId, x | ShotBy(log, p, x) ensures ShotBy(log + [e], p, x) {
      var i :| 0 <= i < |log| && log[i] == (p, x);
      assert (log + [e])[i] == (p, x);
    }
    forall p: PlayerId, x | e == (p, x) ensures ShotBy(log + [e], p, x) {
      assert (log + [e])[|log|] == (p, x);
    }
  }
}
