/**
 * The terminal firing screen: the attacker moves a cursor with the arrow
 * keys, fires with Enter, and the shot is written into the defender's
 * board and the attacker's firing history.  Unlike the manager's shot
 * there is no sunk detection.
 */
module TerminalFiring {
  import opened Grid
  import opened BoatManagement

  /** The keys the targeting loop tells apart; every other key is ignored. */
  datatype Key = Arrow(d: Direction) | EnterKey | QuitKey | OtherKey

  predicate Stops(k: Key) {
    k == EnterKey || k == QuitKey
  }

  /** The position of the first Enter or q in `keys`, or |keys| when there is none. */
  function FirstStop(keys: seq<Key>): (i: nat)
    ensures i <= |keys|
    ensures forall j :: 0 <= j < i ==> !Stops(keys[j])
    ensures i < |keys| ==> Stops(keys[i])
  {
    if |keys| == 0 then 0
    else if Stops(keys[0]) then 0
    else 1 + FirstStop(keys[1..])
  }

  /**
   * Where the cursor is after the keys, starting from x: each arrow key
   * takes one clamped step, every other key leaves it in place.  From a
   * cell of the board the cursor never leaves the board.
   */
  function Aimed(rows: int, cols: int, x: Cell, keys: seq<Key>): (y: Cell)
    ensures InGrid(rows, cols, x) ==> InGrid(rows, cols, y)
    decreases |keys|
  {
    if |keys| == 0 then x
    else
      var y := Aimed(rows, cols, x, keys[..|keys| - 1]);
      match keys[|keys| - 1]
      case Arrow(d) => MoveCursor(rows, cols, y, d)
      case _ => y
  }

  /** What the targeting loop ends with: a chosen cell, a quit, or the keys ran out first. */
  datatype Aim = Target(cell: Cell) | Quit | OutOfKeys

  /**
   * choose_target_with_arrows, reading keys from position `start` on: the
   * cursor starts at (0, 0) and moves with the arrow keys until q quits
   * or Enter picks the cell under the cursor.  `next` is the position
   * after the last key read.
   */
  method ChooseTarget(rows: nat, cols: nat, keys: seq<Key>, start: nat) returns (aim: Aim, next: nat)
    requires 1 <= rows && 1 <= cols && start <= |keys|
    ensures var stop := start + FirstStop(keys[start..]);
      && (aim == Quit <==> stop < |keys| && keys[stop] == QuitKey)
      && (aim.Target? <==> stop < |keys| && keys[stop] == EnterKey)
      && (aim.Target? ==> aim.cell == Aimed(rows, cols, (0, 0), keys[start..stop]))
      && (aim == OutOfKeys <==> stop == |keys|)
      && next == (if stop < |keys| then stop + 1 else stop)
    ensures aim.Target? ==> InGrid(rows, cols, aim.cell)
  {
    var row, col := 0, 0;
    var j := start;
    while j < |keys|
      invariant start <= j <= |keys|
      invariant forall i :: start <= i < j ==> !Stops(keys[i])
      invariant (row, col) == Aimed(rows, cols, (0, 0), keys[start..j])
    {
      assert keys[start..j + 1][..j - start] == keys[start..j];
      match keys[j] {
        case QuitKey =>
          StopAt(keys, start, j);
          return Quit, j + 1;
        case Arrow(d) =>
          match d {
            case Up => row := Max(0, row - 1);
            case Down => row := Min(rows - 1, row + 1);
            case Left => col := Max(0, col - 1);
            case Right => col := Min(cols - 1, col + 1);
          }
        case EnterKey =>
          StopAt(keys, start, j);
          return Target((row, col)), j + 1;
        case OtherKey =>
      }
      j := j + 1;
    }
    StopAt(keys, start, j);
    return OutOfKeys, j;
  }

  /** A stop at position j with no stop before it, from `start` on, is the first stop. */
  lemma {:induction false} StopAt(keys: seq<Key>, start: nat, j: nat)
    requires start <= j <= |keys|
    requires forall i :: start <= i < j ==> !Stops(keys[i])
    requires j < |keys| ==> Stops(keys[j])
    ensures start + FirstStop(keys[start..]) == j
    decreases j - start
  {
    if start < j {
      assert keys[start..][1..] == keys[start + 1..];
      StopAt(keys, start + 1, j);
    }
  }

  /**
   * apply_shot_and_update_history: a cell already marked "X" or "O" in
   * the history is a repeat and nothing changes.  A ship cell becomes "X"
   * on both boards.  Anything else is a miss: the history gets "O", and
   * the enemy cell gets "O" only if it was water.  No other cell changes.
   */
  method ApplyShot(enemy: array2<Mark>, history: array2<Mark>, row: int, col: int) returns (res: ShotResult)
    requires InGrid(enemy.Length0, enemy.Length1, (row, col))
    requires InGrid(history.Length0, history.Length1, (row, col))
    modifies enemy, history
    ensures res == RepeatShot <==> old(history[row, col]) == Hit || old(history[row, col]) == Miss
    ensures res == RepeatShot ==> unchanged(enemy, history)
    ensures res == HitShot <==> res != RepeatShot && old(enemy[row, col]) == Ship
    ensures res == HitShot ==> enemy[row, col] == Hit && history[row, col] == Hit
    ensures res == MissShot ==>
              history[row, col] == Miss &&
              enemy[row, col] == (if old(enemy[row, col]) == Water then Miss else old(enemy[row, col]))
    ensures !res.SunkShot?
    ensures forall r, c :: 0 <= r < enemy.Length0 && 0 <= c < enemy.Length1 && (r, c) != (row, col) ==>
              enemy[r, c] == old(enemy[r, c])
    ensures forall r, c :: 0 <= r < history.Length0 && 0 <= c < history.Length1 && (r, c) != (row, col) ==>
              history[r, c] == old(history[r, c])
    ensures (enemy != history && enemy.Length0 == history.Length0 && enemy.Length1 == history.Length1 &&
             old(Agree(enemy, history))) ==> Agree(enemy, history)
  {
    if history[row, col] == Hit || history[row, col] == Miss {
      return RepeatShot;
    }
    var cell := enemy[row, col];
    if cell == Ship {
      enemy[row, col] := Hit;
      history[row, col] := Hit;
      return HitShot;
    } else {
      if cell == Water {
        enemy[row, col] := Miss;
      }
      history[row, col] := Miss;
      return MissShot;
    }
  }

  /** How one player's terminal turn ends; Pending when the keys run out first. */
  datatype TurnResult = TurnHit | TurnMiss | TurnQuit | TurnPending

  /**
   * firing_phase_for_turn, reading keys from position `start` on: prompt
   * for a target until q quits or a shot is not a repeat; a repeat
   * changes nothing and prompts again.  After each shot one key is read
   * to acknowledge the message.  The turn ends with a hit or a miss at
   * `shot`, and no cell but `shot` changes on either board.
   */
  method FiringPhaseForTurn(enemy: array2<Mark>, history: array2<Mark>, keys: seq<Key>, start: nat)
    returns (res: TurnResult, shot: Option<Cell>, next: nat)
    requires 1 <= history.Length0 && 1 <= history.Length1
    requires enemy.Length0 == history.Length0 && enemy.Length1 == history.Length1
    requires start <= |keys|
    modifies enemy, history
    ensures start <= next <= |keys| && (res != TurnPending ==> start < next)
    ensures shot.Some? <==> res == TurnHit || res == TurnMiss
    ensures shot.Some? ==>
              var (row, col) := shot.value;
              InGrid(enemy.Length0, enemy.Length1, (row, col)) &&
              old(history[row, col]) != Hit && old(history[row, col]) != Miss &&
              (res == TurnHit <==> old(enemy[row, col]) == Ship) &&
              (res == TurnHit ==> enemy[row, col] == Hit && history[row, col] == Hit) &&
              (res == TurnMiss ==>
                 (history[row, col] == Miss &&
                  enemy[row, col] == (if old(enemy[row, col]) == Water then Miss else old(enemy[row, col]))))
    ensures forall r, c :: 0 <= r < enemy.Length0 && 0 <= c < enemy.Length1 && shot != Some((r, c)) ==>
              enemy[r, c] == old(enemy[r, c]) && history[r, c] == old(history[r, c])
  {
    var pos := start;
    while true
      invariant start <= pos <= |keys|
      invariant forall r, c :: 0 <= r < enemy.Length0 && 0 <= c < enemy.Length1 ==>
                  enemy[r, c] == old(enemy[r, c]) && history[r, c] == old(history[r, c])
      decreases |keys| - pos
    {
      var aim, after := ChooseTarget(history.Length0, history.Length1, keys, pos);
      if aim == Quit {
        return TurnQuit, None, after;
      } else if aim == OutOfKeys {
        return TurnPending, None, after;
      }
      var (row, col) := aim.cell;
      var result := ApplyShot(enemy, history, row, col);
      // the acknowledgement key after the message
      if after < |keys| {
        after := after + 1;
      }
      if result == HitShot {
        return TurnHit, Some((row, col)), after;
      } else if result == MissShot {
        return TurnMiss, Some((row, col)), after;
      }
      pos := after;
    }
  }
}
