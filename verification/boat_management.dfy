/**
 * The per-player game state: each player's board, the board of shots each
 * player has fired, the ships found on a board by 4-connected flood fill
 * and named from the catalog, and the list of ships sunk so far.
 */
module BoatManagement {
  import opened Grid
  import opened Settings

  /** The recorded ships of one player: (name, cells) pairs in recording order. */
  type Fleet = seq<(string, seq<Cell>)>

  // ---------------------------------------------------------------------
  // Ship components

  ghost predicate Distinct<T>(s: seq<T>) {
    forall i, j :: 0 <= i < j < |s| ==> s[i] != s[j]
  }

  /** Every cell after the first touches an earlier one: the cells form one 4-connected piece. */
  ghost predicate Connected(cells: seq<Cell>) {
    forall i :: 0 < i < |cells| ==> Touches(cells, i)
  }

  /** Cell i touches one of the cells before it. */
  ghost predicate Touches(cells: seq<Cell>, i: int)
    requires 0 <= i < |cells|
  {
    exists j :: 0 <= j < i && Adjacent(cells[i], cells[j])
  }

  /**
   * A ship as the flood fill finds it: a non-empty, duplicate-free,
   * connected set of "S" cells that no further "S" cell touches.
   */
  ghost predicate Component(b: array2<Mark>, cells: seq<Cell>)
    reads b
  {
    |cells| > 0 && Distinct(cells) && Connected(cells) &&
    (forall i :: 0 <= i < |cells| ==> ShipAt(b, cells[i])) &&
    (forall i, y :: 0 <= i < |cells| && Adjacent(cells[i], y) && ShipAt(b, y) ==> y in cells)
  }

  ghost predicate DisjointCells(a: seq<Cell>, b: seq<Cell>) {
    forall x :: x in a ==> x !in b
  }

  /** The "S" cells neither visited before the fill nor collected by it. */
  ghost function Remaining(b: array2<Mark>, v0: set<Cell>, cells: seq<Cell>): set<Cell>
    reads b
  {
    set r, c | 0 <= r < b.Length0 && 0 <= c < b.Length1 && b[r, c] == Ship && (r, c) !in v0 && (r, c) !in cells :: (r, c)
  }

  lemma RemainingShrinks(b: array2<Mark>, v0: set<Cell>, cells: seq<Cell>, x: Cell)
    requires ShipAt(b, x) && x !in v0 && x !in cells
    ensures Remaining(b, v0, cells + [x]) < Remaining(b, v0, cells)
  {
    assert x in Remaining(b, v0, cells) && x !in Remaining(b, v0, cells + [x]);
  }

  /** The cells marked visited. */
  ghost function VisitedCells(visited: array2<bool>): (s: set<Cell>)
    reads visited
    ensures forall x :: x in s <==> InGrid(visited.Length0, visited.Length1, x) && visited[x.0, x.1]
  {
    set r, c | 0 <= r < visited.Length0 && 0 <= c < visited.Length1 && visited[r, c] :: (r, c)
  }

  /** The four orthogonal neighbours, in the order they are pushed. */
  function Neighbours(x: Cell): (ns: seq<Cell>)
    ensures forall y :: Adjacent(x, y) <==> y in ns
  {
    [(x.0 + 1, x.1), (x.0 - 1, x.1), (x.0, x.1 + 1), (x.0, x.1 - 1)]
  }

  /** Every cell on the stack is the start cell or a neighbour of a collected cell. */
  ghost predicate Linked(stack: seq<Cell>, cells: seq<Cell>, start: Cell) {
    forall k :: 0 <= k < |stack| ==>
      stack[k] == start || exists j :: 0 <= j < |cells| && Adjacent(stack[k], cells[j])
  }

  /** Every "S" neighbour of a collected cell is collected, was visited before, or is still on the stack. */
  ghost predicate Closed(b: array2<Mark>, cells: seq<Cell>, v0: set<Cell>, stack: seq<Cell>)
    reads b
  {
    forall i, y :: 0 <= i < |cells| && Adjacent(cells[i], y) && ShipAt(b, y) ==>
      y in cells || y in v0 || y in stack
  }

  lemma LinkedTake(stack: seq<Cell>, cells: seq<Cell>, start: Cell, x: Cell)
    requires Linked(stack, cells, start)
    ensures Linked(stack + Neighbours(x), cells + [x], start)
  {
    var s', c' := stack + Neighbours(x), cells + [x];
    forall k | 0 <= k < |s'|
      ensures s'[k] == start || exists j :: 0 <= j < |c'| && Adjacent(s'[k], c'[j])
    {
      if k < |stack| {
        if s'[k] != start {
          var j :| 0 <= j < |cells| && Adjacent(stack[k], cells[j]);
          assert c'[j] == cells[j];
        }
      } else {
        assert s'[k] in Neighbours(x) && c'[|cells|] == x;
      }
    }
  }

  lemma ConnectedSnoc(cells: seq<Cell>, x: Cell)
    requires Connected(cells)
    requires |cells| == 0 || exists j :: 0 <= j < |cells| && Adjacent(x, cells[j])
    ensures Connected(cells + [x])
  {
    var c' := cells + [x];
    forall i | 0 < i < |c'| ensures Touches(c', i) {
      if i < |cells| {
        assert Touches(cells, i);
        var j :| 0 <= j < i && Adjacent(cells[i], cells[j]);
        assert c'[i] == cells[i] && c'[j] == cells[j];
        assert 0 <= j < i && Adjacent(c'[i], c'[j]);
      } else {
        assert c'[i] == x;
        var j :| 0 <= j < |cells| && Adjacent(x, cells[j]);
        assert c'[j] == cells[j];
        assert 0 <= j < i && Adjacent(c'[i], c'[j]);
      }
    }
  }

  lemma ClosedSkip(b: array2<Mark>, cells: seq<Cell>, v0: set<Cell>, stack: seq<Cell>)
    requires |stack| > 0 && Closed(b, cells, v0, stack)
    requires var x := stack[|stack| - 1]; !ShipAt(b, x) || x in v0 || x in cells
    ensures Closed(b, cells, v0, stack[..|stack| - 1])
  {
    var x := stack[|stack| - 1];
    assert forall y :: y in stack ==> y == x || y in stack[..|stack| - 1] by {
      assert stack == stack[..|stack| - 1] + [x];
    }
  }

  lemma ClosedTake(b: array2<Mark>, cells: seq<Cell>, v0: set<Cell>, stack: seq<Cell>)
    requires |stack| > 0 && Closed(b, cells, v0, stack)
    ensures var x := stack[|stack| - 1];
      Closed(b, cells + [x], v0, stack[..|stack| - 1] + Neighbours(x))
  {
    var x := stack[|stack| - 1];
    var c', s' := cells + [x], stack[..|stack| - 1] + Neighbours(x);
    assert stack == stack[..|stack| - 1] + [x];
    forall i, y | 0 <= i < |c'| && Adjacent(c'[i], y) && ShipAt(b, y) ensures y in c' || y in v0 || y in s' {
      if i < |cells| {
        assert c'[i] == cells[i];
      } else {
        assert y in Neighbours(x);
      }
    }
  }

  /** The facts of the fill that do not depend on the visited array. */
  ghost predicate FillState(b: array2<Mark>, v0: set<Cell>, cells: seq<Cell>, stack: seq<Cell>, start: Cell)
    reads b
  {
    (forall i :: 0 <= i < |cells| ==> ShipAt(b, cells[i]) && cells[i] !in v0) &&
    Distinct(cells) && Connected(cells) && Linked(stack, cells, start) &&
    (|cells| > 0 ==> cells[0] == start) &&
    (ShipAt(b, start) && start !in v0 ==> start in stack || start in cells) &&
    Closed(b, cells, v0, stack)
  }

  /** Popping an unvisited "S" cell: collect it and push its neighbours. */
  lemma FillTake(b: array2<Mark>, v0: set<Cell>, cells: seq<Cell>, stack: seq<Cell>, start: Cell)
    requires |stack| > 0 && FillState(b, v0, cells, stack, start)
    requires var x := stack[|stack| - 1]; ShipAt(b, x) && x !in v0 && x !in cells
    ensures var x := stack[|stack| - 1];
      FillState(b, v0, cells + [x], stack[..|stack| - 1] + Neighbours(x), start)
  {
    var x := stack[|stack| - 1];
    ConnectedSnoc(cells, x);
    ClosedTake(b, cells, v0, stack);
    LinkedTake(stack[..|stack| - 1], cells, start, x);
    var c' := cells + [x];
    assert Distinct(c');
    assert stack == stack[..|stack| - 1] + [x];
  }

  /** Popping anything else: drop it. */
  lemma FillSkip(b: array2<Mark>, v0: set<Cell>, cells: seq<Cell>, stack: seq<Cell>, start: Cell)
    requires |stack| > 0 && FillState(b, v0, cells, stack, start)
    requires var x := stack[|stack| - 1]; !ShipAt(b, x) || x in v0 || x in cells
    ensures FillState(b, v0, cells, stack[..|stack| - 1], start)
  {
    ClosedSkip(b, cells, v0, stack);
    assert stack == stack[..|stack| - 1] + [stack[|stack| - 1]];
  }

  /** Collect the unvisited "S" cell on top of the stack: mark it visited and push its neighbours. */
  method Collect(board: array2<Mark>, visited: array2<bool>, ghost v0: set<Cell>, cells: seq<Cell>, stack: seq<Cell>,
                 ghost start: Cell)
    returns (cells': seq<Cell>, stack': seq<Cell>)
    requires visited.Length0 == board.Length0 && visited.Length1 == board.Length1
    requires |stack| > 0 && FillState(board, v0, cells, stack, start)
    requires forall i, j :: 0 <= i < board.Length0 && 0 <= j < board.Length1 ==>
               visited[i, j] == ((i, j) in v0 || (i, j) in cells)
    requires var x := stack[|stack| - 1]; ShipAt(board, x) && !visited[x.0, x.1]
    modifies visited
    ensures FillState(board, v0, cells', stack', start)
    ensures forall i, j :: 0 <= i < board.Length0 && 0 <= j < board.Length1 ==>
              visited[i, j] == ((i, j) in v0 || (i, j) in cells')
    ensures Remaining(board, v0, cells') < Remaining(board, v0, cells)
  {
    var x := stack[|stack| - 1];
    FillTake(board, v0, cells, stack, start);
    RemainingShrinks(board, v0, cells, x);
    visited[x.0, x.1] := true;
    cells' := cells + [x];
    stack' := stack[..|stack| - 1] + Neighbours(x);
  }

  /**
   * _flood_fill_ship: pops cells from an explicit stack, collecting each
   * unvisited "S" cell of the board once and pushing its four orthogonal
   * neighbours.  The cells collected are exactly the unvisited part of the
   * start cell's ship, start cell first.
   */
  method FloodFillShip(board: array2<Mark>, r: int, c: int, visited: array2<bool>) returns (cells: seq<Cell>)
    requires visited.Length0 == board.Length0 && visited.Length1 == board.Length1
    modifies visited
    ensures forall i :: 0 <= i < |cells| ==> ShipAt(board, cells[i]) && !old(visited[cells[i].0, cells[i].1])
    ensures Distinct(cells) && Connected(cells)
    ensures forall i, j :: 0 <= i < board.Length0 && 0 <= j < board.Length1 ==>
              visited[i, j] == (old(visited[i, j]) || (i, j) in cells)
    ensures ShipAt(board, (r, c)) && !old(visited[r, c]) ==> |cells| > 0 && cells[0] == (r, c)
    ensures !(ShipAt(board, (r, c)) && !old(visited[r, c])) ==> cells == []
    ensures forall i, y :: 0 <= i < |cells| && Adjacent(cells[i], y) && ShipAt(board, y) ==>
              y in cells || old(visited[y.0, y.1])
  {
    ghost var v0 := VisitedCells(visited);
    var stack := [(r, c)];
    cells := [];
    while |stack| > 0
      invariant FillState(board, v0, cells, stack, (r, c))
      invariant forall i, j :: 0 <= i < board.Length0 && 0 <= j < board.Length1 ==>
                  visited[i, j] == ((i, j) in v0 || (i, j) in cells)
      decreases Remaining(board, v0, cells), |stack|
    {
      var x := stack[|stack| - 1];
      if 0 <= x.0 < board.Length0 && 0 <= x.1 < board.Length1 && board[x.0, x.1] == Ship && !visited[x.0, x.1] {
        cells, stack := Collect(board, visited, v0, cells, stack, (r, c));
      } else {
        FillSkip(board, v0, cells, stack, (r, c));
        stack := stack[..|stack| - 1];
      }
    }
  }

  // ---------------------------------------------------------------------
  // Naming the ships

  /** The ship names already recorded. */
  function Names(fleet: Fleet): (s: set<string>)
    ensures forall i :: 0 <= i < |fleet| ==> fleet[i].0 in s
    ensures forall n :: n in s ==> exists i :: 0 <= i < |fleet| && fleet[i].0 == n
  {
    set i | 0 <= i < |fleet| :: fleet[i].0
  }

  /**
   * `name` is the first catalog entry, in declaration order, whose length
   * is `length` and which is not in `taken`.
   */
  ghost predicate FirstFree(length: int, taken: set<string>, name: string) {
    exists k :: 0 <= k < |Catalog| && Catalog[k].0 == name && Catalog[k].1 == length && name !in taken &&
      forall k' :: 0 <= k' < k && Catalog[k'].1 == length ==> Catalog[k'].0 in taken
  }

  /** Every catalog entry of this length is taken. */
  ghost predicate NoneFree(length: int, taken: set<string>) {
    forall k :: 0 <= k < |Catalog| && Catalog[k].1 == length ==> Catalog[k].0 in taken
  }

  /** The first catalog entry from position k on whose length is `length` and which is not in `taken`. */
  function FirstFreeFrom(length: int, taken: set<string>, k: nat): (n: Option<string>)
    decreases |Catalog| - k
    ensures n.None? <==> forall j :: k <= j < |Catalog| && Catalog[j].1 == length ==> Catalog[j].0 in taken
    ensures n.Some? ==>
              exists j :: k <= j < |Catalog| && Catalog[j].0 == n.value && Catalog[j].1 == length &&
                n.value !in taken && forall j' :: k <= j' < j && Catalog[j'].1 == length ==> Catalog[j'].0 in taken
  {
    if k >= |Catalog| then None
    else if Catalog[k].1 == length && Catalog[k].0 !in taken then Some(Catalog[k].0)
    else FirstFreeFrom(length, taken, k + 1)
  }

  /** The name a ship of `length` cells gets when the names in `taken` are already recorded. */
  function FirstFreeName(length: int, taken: set<string>): (n: Option<string>)
    ensures n.Some? ==> FirstFree(length, taken, n.value)
    ensures n.None? <==> NoneFree(length, taken)
  {
    FirstFreeFrom(length, taken, 0)
  }

  /** The catalog scan that picks a name for a ship of `length` cells. */
  method ChooseName(length: int, fleet: Fleet) returns (name: Option<string>)
    ensures name.Some? ==> FirstFree(length, Names(fleet), name.value)
    ensures name.None? <==> NoneFree(length, Names(fleet))
    ensures name == FirstFreeName(length, Names(fleet))
  {
    var k := 0;
    while k < |Catalog|
      invariant 0 <= k <= |Catalog|
      invariant forall k' :: 0 <= k' < k && Catalog[k'].1 == length ==> Catalog[k'].0 in Names(fleet)
      invariant FirstFreeFrom(length, Names(fleet), k) == FirstFreeName(length, Names(fleet))
    {
      var (n, l) := Catalog[k];
      if l == length && n !in Names(fleet) {
        return Some(n);
      }
      k := k + 1;
    }
    return None;
  }

  // ---------------------------------------------------------------------
  // Labelling a whole board

  function FleetCells(fleet: Fleet): (s: seq<seq<Cell>>)
    ensures |s| == |fleet| && forall i :: 0 <= i < |fleet| ==> s[i] == fleet[i].1
  {
    seq(|fleet|, i requires 0 <= i < |fleet| => fleet[i].1)
  }

  /** Cell x lies in one of the groups. */
  ghost predicate InSome(groups: seq<seq<Cell>>, x: Cell) {
    exists g :: 0 <= g < |groups| && x in groups[g]
  }

  /** Every group is a component of the board. */
  ghost predicate AllComponents(b: array2<Mark>, groups: seq<seq<Cell>>)
    reads b
  {
    forall g :: 0 <= g < |groups| ==> Component(b, groups[g])
  }

  /** No two groups share a cell. */
  ghost predicate Apart(groups: seq<seq<Cell>>) {
    forall g, h :: 0 <= g < h < |groups| ==> DisjointCells(groups[g], groups[h])
  }

  /** No group of the first list shares a cell with a group of the second. */
  ghost predicate ApartFrom(groups: seq<seq<Cell>>, others: seq<seq<Cell>>) {
    forall g, h :: 0 <= g < |groups| && 0 <= h < |others| ==> DisjointCells(groups[g], others[h])
  }

  /** Each recorded ship carries the first free catalog name of its length at the time it was found. */
  ghost predicate Named(fleet: Fleet) {
    forall i :: 0 <= i < |fleet| ==> FirstFree(|fleet[i].1|, Names(fleet[..i]), fleet[i].0)
  }

  /** Each dropped ship has no catalog name of its length left. */
  ghost predicate Unnamed(fleet: Fleet, dropped: seq<seq<Cell>>) {
    forall k :: 0 <= k < |dropped| ==> NoneFree(|dropped[k]|, Names(fleet))
  }

  /**
   * The ships found so far: each recorded one under the first free
   * catalog name of its length, each dropped one with no name of its
   * length left, all of them distinct components of the board.
   */
  ghost predicate Scanned(b: array2<Mark>, fleet: Fleet, dropped: seq<seq<Cell>>)
    reads b
  {
    Named(fleet) && Unnamed(fleet, dropped) &&
    AllComponents(b, FleetCells(fleet)) && AllComponents(b, dropped) &&
    Apart(FleetCells(fleet)) && Apart(dropped) && ApartFrom(FleetCells(fleet), dropped)
  }

  /** x comes before y in the row-major order of the scan. */
  predicate Before(x: Cell, y: Cell) {
    x.0 < y.0 || (x.0 == y.0 && x.1 < y.1)
  }

  /**
   * The groups in the order the scan meets them: each group starts with
   * its row-major first cell, and these first cells strictly increase.
   */
  ghost predicate ScanOrder(groups: seq<seq<Cell>>) {
    (forall k :: 0 <= k < |groups| ==> |groups[k]| > 0) &&
    (forall k, x :: 0 <= k < |groups| && x in groups[k] ==> x == groups[k][0] || Before(groups[k][0], x)) &&
    (forall i, j :: 0 <= i < j < |groups| ==> Before(groups[i][0], groups[j][0]))
  }

  /**
   * The naming loop run over the components in the order they are found:
   * each gets the first catalog name of its length not recorded before
   * it, or is dropped when there is none.
   */
  ghost function Labelled(groups: seq<seq<Cell>>): (Fleet, seq<seq<Cell>>)
    decreases |groups|
  {
    if |groups| == 0 then ([], [])
    else
      var (fleet, dropped) := Labelled(groups[..|groups| - 1]);
      var g := groups[|groups| - 1];
      match FirstFreeName(|g|, Names(fleet))
      case Some(name) => (fleet + [(name, g)], dropped)
      case None => (fleet, dropped + [g])
  }

  /** Labelling one more group: it is named against the names recorded for the groups before it. */
  lemma LabelledSnoc(groups: seq<seq<Cell>>, g: seq<Cell>)
    ensures var (fleet, dropped) := Labelled(groups);
      Labelled(groups + [g]) ==
      match FirstFreeName(|g|, Names(fleet))
      case Some(name) => (fleet + [(name, g)], dropped)
      case None => (fleet, dropped + [g])
  {
    assert (groups + [g])[..|groups|] == groups;
  }

  /** The names recorded for a single ship. */
  lemma NamesOne(name: string, g: seq<Cell>)
    ensures Names([(name, g)]) == {name}
  {
    var fleet := [(name, g)];
    forall n | n in Names(fleet) ensures n == name {
      var i :| 0 <= i < |fleet| && fleet[i].0 == n;
    }
    assert fleet[0].0 in Names(fleet);
  }

  /** The first ship found is named against no recorded names. */
  lemma LabelledOne(g: seq<Cell>)
    ensures Labelled([g]) ==
            match FirstFreeName(|g|, {})
            case Some(name) => ([(name, g)], [])
            case None => ([], [g])
  {
    var none: seq<seq<Cell>>, nobody: Fleet := [], [];
    assert Names(nobody) == {};
    assert Labelled(none) == (nobody, none);
    LabelledSnoc(none, g);
    assert none + [g] == [g];
    match FirstFreeName(|g|, {}) {
      case Some(name) => assert nobody + [(name, g)] == [(name, g)];
      case None =>
    }
  }

  /** The catalog names for three-cell ships, in order: "cruiser", then "submarine". */
  lemma ThreeCellNames()
    ensures FirstFreeName(3, {}) == Some("cruiser")
    ensures FirstFreeName(3, {"cruiser"}) == Some("submarine")
  {
    assert FirstFreeFrom(3, {}, 2) == Some("cruiser");
    assert FirstFreeFrom(3, {}, 1) == FirstFreeFrom(3, {}, 2);
    assert FirstFreeFrom(3, {"cruiser"}, 3) == Some("submarine");
    assert FirstFreeFrom(3, {"cruiser"}, 2) == FirstFreeFrom(3, {"cruiser"}, 3);
    assert FirstFreeFrom(3, {"cruiser"}, 1) == FirstFreeFrom(3, {"cruiser"}, 2);
  }

  /** The only catalog name for two-cell ships is "destroyer". */
  lemma TwoCellNames()
    ensures FirstFreeName(2, {}) == Some("destroyer")
    ensures FirstFreeName(2, {"destroyer"}) == None
  {
    assert FirstFreeFrom(2, {}, 4) == Some("destroyer");
    assert FirstFreeFrom(2, {}, 3) == FirstFreeFrom(2, {}, 4);
    assert FirstFreeFrom(2, {}, 2) == FirstFreeFrom(2, {}, 3);
    assert FirstFreeFrom(2, {}, 1) == FirstFreeFrom(2, {}, 2);
    assert FirstFreeFrom(2, {"destroyer"}, 4) == None;
    assert FirstFreeFrom(2, {"destroyer"}, 3) == FirstFreeFrom(2, {"destroyer"}, 4);
    assert FirstFreeFrom(2, {"destroyer"}, 2) == FirstFreeFrom(2, {"destroyer"}, 3);
    assert FirstFreeFrom(2, {"destroyer"}, 1) == FirstFreeFrom(2, {"destroyer"}, 2);
  }

  /**
   * Two ships of three cells, found in this order: the first takes
   * "cruiser" and the second "submarine", the catalog's next free name of
   * that length.
   */
  lemma LabelledTwoThrees(first: seq<Cell>, second: seq<Cell>)
    requires |first| == 3 && |second| == 3
    ensures Labelled([first, second]) == ([("cruiser", first), ("submarine", second)], [])
  {
    var fleet: Fleet := [("cruiser", first)];
    CruiserFirst(first);
    SubmarineNext(first, second);
    LabelledSnoc([first], second);
    assert [first] + [second] == [first, second];
    assert fleet + [("submarine", second)] == [("cruiser", first), ("submarine", second)];
  }

  /** The first ship of three cells takes "cruiser". */
  lemma CruiserFirst(first: seq<Cell>)
    requires |first| == 3
    ensures Labelled([first]) == ([("cruiser", first)], [])
  {
    ThreeCellNames();
    LabelledOne(first);
  }

  /** With "cruiser" recorded, the next ship of three cells takes "submarine". */
  lemma SubmarineNext(first: seq<Cell>, second: seq<Cell>)
    requires |second| == 3
    ensures FirstFreeName(|second|, Names([("cruiser", first)])) == Some("submarine")
  {
    ThreeCellNames();
    NamesOne("cruiser", first);
  }

  /**
   * Two ships of two cells, found in this order: the first takes the only
   * two-cell name, "destroyer", and the second is dropped.
   */
  lemma LabelledTwoTwos(first: seq<Cell>, second: seq<Cell>)
    requires |first| == 2 && |second| == 2
    ensures Labelled([first, second]) == ([("destroyer", first)], [second])
  {
    var fleet: Fleet := [("destroyer", first)];
    assert Labelled([first]) == (fleet, []) by {
      TwoCellNames();
      LabelledOne(first);
    }
    assert FirstFreeName(|second|, Names(fleet)) == None by {
      TwoCellNames();
      NamesOne("destroyer", first);
    }
    LabelledSnoc([first], second);
    assert [first] + [second] == [first, second];
    assert [] + [second] == [second];
  }

  /**
   * The ships of "SSS~SSS" and of "SS~SS" can only be listed left one
   * first: the scan meets the left one first.
   */
  lemma RowScanOrder(left: seq<Cell>, right: seq<Cell>)
    requires (left == [(0, 0), (0, 1), (0, 2)] && right == [(0, 4), (0, 5), (0, 6)]) ||
             (left == [(0, 0), (0, 1)] && right == [(0, 3), (0, 4)])
    ensures ScanOrder([left, right]) && !ScanOrder([right, left])
  {
    var swapped := [right, left];
    assert !Before(swapped[0][0], swapped[1][0]);
  }

  /**
   * What set_player_ships records for a board: `found` lists every ship
   * component of the board once, in row-major order of first cells, and
   * the recorded and dropped ships are what the naming loop makes of that
   * list.  Every "S" cell lies in a recorded or a dropped ship, and the
   * facts of Scanned hold.
   */
  ghost predicate Labelling(b: array2<Mark>, found: seq<seq<Cell>>, fleet: Fleet, dropped: seq<seq<Cell>>)
    reads b
  {
    AllComponents(b, found) && Apart(found) && ScanOrder(found) &&
    (fleet, dropped) == Labelled(found) &&
    Scanned(b, fleet, dropped) &&
    forall r, c :: 0 <= r < b.Length0 && 0 <= c < b.Length1 && b[r, c] == Ship ==>
      InSome(FleetCells(fleet), (r, c)) || InSome(dropped, (r, c))
  }

  /** Some scan of the board labels it with `fleet`. */
  ghost predicate Labels(b: array2<Mark>, fleet: Fleet)
    reads b
  {
    exists found, dropped :: Labelling(b, found, fleet, dropped)
  }

  /** A labelling found by the scan witnesses Labels. */
  lemma LabelsOf(b: array2<Mark>, found: seq<seq<Cell>>, fleet: Fleet, dropped: seq<seq<Cell>>)
    requires Labelling(b, found, fleet, dropped)
    ensures Labels(b, fleet)
  {
  }

  /** The scan invariant tying the components found so far to the recorded and dropped ships. */
  ghost predicate Found(b: array2<Mark>, found: seq<seq<Cell>>, fleet: Fleet, dropped: seq<seq<Cell>>)
    reads b
  {
    AllComponents(b, found) && Apart(found) && ScanOrder(found) &&
    (fleet, dropped) == Labelled(found) && Scanned(b, fleet, dropped) &&
    forall x :: InSome(found, x) <==> InSome(FleetCells(fleet), x) || InSome(dropped, x)
  }

  /** The scan of set_player_ships: flood fill from every unvisited "S" cell in row-major order. */
  method LabelShips(board: array2<Mark>) returns (fleet: Fleet, ghost found: seq<seq<Cell>>, ghost dropped: seq<seq<Cell>>)
    ensures Labelling(board, found, fleet, dropped)
    ensures forall i, j :: 0 <= i < j < |fleet| ==> fleet[i].0 != fleet[j].0
    ensures forall i :: 0 <= i < |fleet| ==> Known(fleet[i].0) && ShipLength(fleet[i].0) == |fleet[i].1|
  {
    var rows, cols := board.Length0, board.Length1;
    var visited := new bool[rows, cols]((i, j) => false);
    fleet, found, dropped := [], [], [];
    FoundNone(board);
    var r := 0;
    while r < rows
      invariant 0 <= r <= rows
      invariant Found(board, found, fleet, dropped)
      invariant forall i, j :: 0 <= i < rows && 0 <= j < cols ==>
                  (visited[i, j] <==> InSome(FleetCells(fleet), (i, j)) || InSome(dropped, (i, j)))
      invariant forall i, j :: 0 <= i < r && 0 <= j < cols && board[i, j] == Ship ==> visited[i, j]
      invariant forall k :: 0 <= k < |found| ==> found[k][0].0 < r
    {
      fleet, found, dropped := ScanRow(board, visited, fleet, found, dropped, r);
      r := r + 1;
    }
    FoundAll(board, found, fleet, dropped);
    FleetNames(fleet);
  }

  /** Before the scan nothing is found. */
  lemma FoundNone(b: array2<Mark>)
    ensures Found(b, [], [], [])
  {
  }

  /** When the found ships cover every "S" cell, the scan is a complete labelling. */
  lemma FoundAll(b: array2<Mark>, found: seq<seq<Cell>>, fleet: Fleet, dropped: seq<seq<Cell>>)
    requires Found(b, found, fleet, dropped)
    requires forall r, c :: 0 <= r < b.Length0 && 0 <= c < b.Length1 && b[r, c] == Ship ==>
               InSome(FleetCells(fleet), (r, c)) || InSome(dropped, (r, c))
    ensures Labelling(b, found, fleet, dropped)
  {
  }

  /** The scan of row r, left to right. */
  method ScanRow(board: array2<Mark>, visited: array2<bool>, fleet: Fleet, ghost found: seq<seq<Cell>>,
                 ghost dropped: seq<seq<Cell>>, r: int)
    returns (fleet': Fleet, ghost found': seq<seq<Cell>>, ghost dropped': seq<seq<Cell>>)
    requires visited.Length0 == board.Length0 && visited.Length1 == board.Length1
    requires 0 <= r < board.Length0
    requires Found(board, found, fleet, dropped)
    requires forall i, j :: 0 <= i < board.Length0 && 0 <= j < board.Length1 ==>
               (visited[i, j] <==> InSome(FleetCells(fleet), (i, j)) || InSome(dropped, (i, j)))
    requires forall i, j :: 0 <= i < r && 0 <= j < board.Length1 && board[i, j] == Ship ==> visited[i, j]
    requires forall k :: 0 <= k < |found| ==> found[k][0].0 < r
    modifies visited
    ensures Found(board, found', fleet', dropped')
    ensures forall i, j :: 0 <= i < board.Length0 && 0 <= j < board.Length1 ==>
              (visited[i, j] <==> InSome(FleetCells(fleet'), (i, j)) || InSome(dropped', (i, j)))
    ensures forall i, j :: 0 <= i < r + 1 && 0 <= j < board.Length1 && board[i, j] == Ship ==> visited[i, j]
    ensures forall k :: 0 <= k < |found'| ==> found'[k][0].0 < r + 1
  {
    fleet', found', dropped' := fleet, found, dropped;
    var c := 0;
    while c < board.Length1
      invariant 0 <= c <= board.Length1
      invariant Found(board, found', fleet', dropped')
      invariant forall i, j :: 0 <= i < board.Length0 && 0 <= j < board.Length1 ==>
                  (visited[i, j] <==> InSome(FleetCells(fleet'), (i, j)) || InSome(dropped', (i, j)))
      invariant forall i, j :: 0 <= i < board.Length0 && 0 <= j < board.Length1 && Before((i, j), (r, c)) && board[i, j] == Ship ==>
                  visited[i, j]
      invariant forall k :: 0 <= k < |found'| ==> Before(found'[k][0], (r, c))
    {
      fleet', found', dropped' := ScanCell(board, visited, fleet', found', dropped', r, c);
      c := c + 1;
    }
  }

  /** The scan at (r, c): a ship cell not yet visited starts a new ship. */
  method ScanCell(board: array2<Mark>, visited: array2<bool>, fleet: Fleet, ghost found: seq<seq<Cell>>,
                  ghost dropped: seq<seq<Cell>>, r: int, c: int)
    returns (fleet': Fleet, ghost found': seq<seq<Cell>>, ghost dropped': seq<seq<Cell>>)
    requires visited.Length0 == board.Length0 && visited.Length1 == board.Length1
    requires 0 <= r < board.Length0 && 0 <= c < board.Length1
    requires Found(board, found, fleet, dropped)
    requires forall i, j :: 0 <= i < board.Length0 && 0 <= j < board.Length1 ==>
               (visited[i, j] <==> InSome(FleetCells(fleet), (i, j)) || InSome(dropped, (i, j)))
    requires forall i, j :: 0 <= i < board.Length0 && 0 <= j < board.Length1 && Before((i, j), (r, c)) && board[i, j] == Ship ==>
               visited[i, j]
    requires forall k :: 0 <= k < |found| ==> Before(found[k][0], (r, c))
    modifies visited
    ensures Found(board, found', fleet', dropped')
    ensures forall i, j :: 0 <= i < board.Length0 && 0 <= j < board.Length1 ==>
              (visited[i, j] <==> InSome(FleetCells(fleet'), (i, j)) || InSome(dropped', (i, j)))
    ensures forall i, j :: 0 <= i < board.Length0 && 0 <= j < board.Length1 && Before((i, j), (r, c + 1)) && board[i, j] == Ship ==>
              visited[i, j]
    ensures forall k :: 0 <= k < |found'| ==> Before(found'[k][0], (r, c + 1))
  {
    fleet', found', dropped' := fleet, found, dropped;
    if board[r, c] == Ship && !visited[r, c] {
      fleet', found', dropped' := LabelShipAt(board, visited, fleet, found, dropped, r, c);
    }
    VisitedThrough(board, visited, r, c);
    HeadsThrough(found, found', r, c);
  }

  /** Once (r, c) is scanned, every "S" cell up to and including it is visited. */
  lemma VisitedThrough(board: array2<Mark>, visited: array2<bool>, r: int, c: int)
    requires visited.Length0 == board.Length0 && visited.Length1 == board.Length1
    requires 0 <= r < board.Length0 && 0 <= c < board.Length1
    requires forall i, j :: 0 <= i < board.Length0 && 0 <= j < board.Length1 && Before((i, j), (r, c)) && board[i, j] == Ship ==>
               visited[i, j]
    requires board[r, c] == Ship ==> visited[r, c]
    ensures forall i, j :: 0 <= i < board.Length0 && 0 <= j < board.Length1 && Before((i, j), (r, c + 1)) && board[i, j] == Ship ==>
              visited[i, j]
  {
    forall i, j | 0 <= i < board.Length0 && 0 <= j < board.Length1 && Before((i, j), (r, c + 1)) && board[i, j] == Ship
      ensures visited[i, j]
    {
      assert Before((i, j), (r, c)) || (i, j) == (r, c);
    }
  }

  /** Once (r, c) is scanned, every ship found so far starts at or before it. */
  lemma HeadsThrough(found: seq<seq<Cell>>, found': seq<seq<Cell>>, r: int, c: int)
    requires forall k :: 0 <= k < |found| ==> |found[k]| > 0 && Before(found[k][0], (r, c))
    requires found' == found || (|found'| == |found| + 1 && found'[..|found|] == found && |found'[|found|]| > 0 && found'[|found|][0] == (r, c))
    ensures forall k :: 0 <= k < |found'| ==> |found'[k]| > 0 && Before(found'[k][0], (r, c + 1))
  {
    forall k | 0 <= k < |found'|
      ensures |found'[k]| > 0 && Before(found'[k][0], (r, c + 1))
    {
      if k < |found| {
        assert found'[k] == found[k];
      }
    }
  }

  /**
   * One step of the scan: flood fill the unvisited ship at (r, c) and
   * record it under the first free name of its length, or drop it.  Every
   * "S" cell before (r, c) is visited, so (r, c) is the row-major first
   * cell of the new component.
   */
  method LabelShipAt(board: array2<Mark>, visited: array2<bool>, fleet: Fleet, ghost found: seq<seq<Cell>>,
                     ghost dropped: seq<seq<Cell>>, r: int, c: int)
    returns (fleet': Fleet, ghost found': seq<seq<Cell>>, ghost dropped': seq<seq<Cell>>)
    requires visited.Length0 == board.Length0 && visited.Length1 == board.Length1
    requires Found(board, found, fleet, dropped)
    requires forall i, j :: 0 <= i < board.Length0 && 0 <= j < board.Length1 ==>
               (visited[i, j] <==> InSome(FleetCells(fleet), (i, j)) || InSome(dropped, (i, j)))
    requires forall i, j :: 0 <= i < board.Length0 && 0 <= j < board.Length1 && Before((i, j), (r, c)) && board[i, j] == Ship ==>
               visited[i, j]
    requires forall k :: 0 <= k < |found| ==> Before(found[k][0], (r, c))
    requires ShipAt(board, (r, c)) && !visited[r, c]
    modifies visited
    ensures Found(board, found', fleet', dropped')
    ensures forall i, j :: 0 <= i < board.Length0 && 0 <= j < board.Length1 ==>
              (visited[i, j] <==> InSome(FleetCells(fleet'), (i, j)) || InSome(dropped', (i, j)))
    ensures forall i, j :: 0 <= i < board.Length0 && 0 <= j < board.Length1 && old(visited[i, j]) ==> visited[i, j]
    ensures visited[r, c]
    ensures |found'| == |found| + 1 && found'[..|found|] == found && found'[|found|][0] == (r, c)
  {
    var shipCells := NewShipAt(board, visited, FleetCells(fleet), dropped, r, c);
    found' := found + [shipCells];
    var shipName := ChooseName(|shipCells|, fleet);
    if shipName.Some? {
      fleet', dropped' := fleet + [(shipName.value, shipCells)], dropped;
    } else {
      fleet', dropped' := fleet, dropped + [shipCells];
    }
    FoundSnoc(board, found, fleet, dropped, shipCells, fleet', dropped');
  }

  /**
   * The flood fill of one scan step: the unvisited ship at (r, c) is a new
   * component, apart from those found before, and (r, c) is its row-major
   * first cell because every "S" cell before it is visited.
   */
  method NewShipAt(board: array2<Mark>, visited: array2<bool>, ghost named: seq<seq<Cell>>,
                   ghost dropped: seq<seq<Cell>>, r: int, c: int) returns (cells: seq<Cell>)
    requires visited.Length0 == board.Length0 && visited.Length1 == board.Length1
    requires AllComponents(board, named) && AllComponents(board, dropped)
    requires forall i, j :: 0 <= i < board.Length0 && 0 <= j < board.Length1 ==>
               (visited[i, j] <==> InSome(named, (i, j)) || InSome(dropped, (i, j)))
    requires forall i, j :: 0 <= i < board.Length0 && 0 <= j < board.Length1 && Before((i, j), (r, c)) && board[i, j] == Ship ==>
               visited[i, j]
    requires ShipAt(board, (r, c)) && !visited[r, c]
    modifies visited
    ensures Component(board, cells) && cells[0] == (r, c)
    ensures forall g :: 0 <= g < |named| ==> DisjointCells(named[g], cells)
    ensures forall g :: 0 <= g < |dropped| ==> DisjointCells(dropped[g], cells)
    ensures forall x :: x in cells ==> x == cells[0] || Before(cells[0], x)
    ensures forall i, j :: 0 <= i < board.Length0 && 0 <= j < board.Length1 ==>
              visited[i, j] == (old(visited[i, j]) || (i, j) in cells)
  {
    cells := FloodFillShip(board, r, c, visited);
    NewComponent(board, named, dropped, cells);
    forall x | x in cells ensures x == cells[0] || Before(cells[0], x) {
      var i :| 0 <= i < |cells| && cells[i] == x;
      assert !Before(x, (r, c));
    }
  }

  /**
   * A new component met by the scan after every earlier one: appending it
   * to the components found keeps the scan invariant, and the naming loop
   * records it under the first free name of its length or drops it.
   */
  lemma FoundSnoc(b: array2<Mark>, found: seq<seq<Cell>>, fleet: Fleet, dropped: seq<seq<Cell>>, cells: seq<Cell>,
                  fleet': Fleet, dropped': seq<seq<Cell>>)
    requires Found(b, found, fleet, dropped) && Component(b, cells)
    requires forall g :: 0 <= g < |fleet| ==> DisjointCells(FleetCells(fleet)[g], cells)
    requires forall g :: 0 <= g < |dropped| ==> DisjointCells(dropped[g], cells)
    requires forall x :: x in cells ==> x == cells[0] || Before(cells[0], x)
    requires forall k :: 0 <= k < |found| ==> Before(found[k][0], cells[0])
    requires (fleet', dropped') ==
             match FirstFreeName(|cells|, Names(fleet))
             case Some(name) => (fleet + [(name, cells)], dropped)
             case None => (fleet, dropped + [cells])
    ensures Found(b, found + [cells], fleet', dropped')
    ensures forall x :: InSome(FleetCells(fleet'), x) || InSome(dropped', x) <==>
              InSome(FleetCells(fleet), x) || InSome(dropped, x) || x in cells
  {
    var gs := found + [cells];
    assert gs[..|gs| - 1] == found;
    forall i | 0 <= i < |cells| ensures !InSome(found, cells[i]) {
      OutsideApart(FleetCells(fleet), cells);
      OutsideApart(dropped, cells);
      assert !InSome(FleetCells(fleet), cells[i]) && !InSome(dropped, cells[i]);
    }
    ScanOrderSnoc(found, cells);
    OutsideApart(found, cells);
    ComponentsSnoc(b, found, cells);
    ApartSnoc(found, cells);
    InSomeSnoc(found, cells);
    match FirstFreeName(|cells|, Names(fleet))
    case Some(name) =>
      RecordShip(b, fleet, dropped, name, cells);
    case None =>
      DropShip(b, fleet, dropped, cells);
  }

  /** Appending a group that starts after every earlier group's first cell keeps the scan order. */
  lemma ScanOrderSnoc(groups: seq<seq<Cell>>, cells: seq<Cell>)
    requires ScanOrder(groups) && |cells| > 0
    requires forall x :: x in cells ==> x == cells[0] || Before(cells[0], x)
    requires forall k :: 0 <= k < |groups| ==> Before(groups[k][0], cells[0])
    ensures ScanOrder(groups + [cells])
  {
    var gs := groups + [cells];
    forall k | 0 <= k < |gs| ensures |gs[k]| > 0 {
      if k < |groups| {
        assert gs[k] == groups[k];
      }
    }
    forall k, x | 0 <= k < |gs| && x in gs[k] ensures x == gs[k][0] || Before(gs[k][0], x) {
      if k < |groups| {
        assert gs[k] == groups[k];
      }
    }
    forall i, j | 0 <= i < j < |gs| ensures Before(gs[i][0], gs[j][0]) {
      assert gs[i] == groups[i];
      if j < |groups| {
        assert gs[j] == groups[j];
      }
    }
  }

  /**
   * A flood fill started outside the ships found so far yields a new
   * component, apart from them: any "S" neighbour it did not collect
   * would lie in an earlier, closed component, which would then contain
   * the collected cell too.
   */
  lemma NewComponent(b: array2<Mark>, named: seq<seq<Cell>>, dropped: seq<seq<Cell>>, cells: seq<Cell>)
    requires AllComponents(b, named) && AllComponents(b, dropped)
    requires forall i :: 0 <= i < |cells| ==> ShipAt(b, cells[i]) && !InSome(named, cells[i]) && !InSome(dropped, cells[i])
    requires Distinct(cells) && Connected(cells) && |cells| > 0
    requires forall i, y :: 0 <= i < |cells| && Adjacent(cells[i], y) && ShipAt(b, y) ==>
               y in cells || InSome(named, y) || InSome(dropped, y)
    ensures Component(b, cells)
    ensures forall g :: 0 <= g < |named| ==> DisjointCells(named[g], cells)
    ensures forall g :: 0 <= g < |dropped| ==> DisjointCells(dropped[g], cells)
  {
    OutsideClosed(b, named, cells);
    OutsideClosed(b, dropped, cells);
    forall i, y | 0 <= i < |cells| && Adjacent(cells[i], y) && ShipAt(b, y) ensures y in cells {
      assert !InSome(named, y) && !InSome(dropped, y);
    }
    OutsideApart(named, cells);
    OutsideApart(dropped, cells);
  }

  /** The "S" neighbours of cells outside closed components are outside them too. */
  lemma OutsideClosed(b: array2<Mark>, groups: seq<seq<Cell>>, cells: seq<Cell>)
    requires AllComponents(b, groups)
    requires forall i :: 0 <= i < |cells| ==> ShipAt(b, cells[i]) && !InSome(groups, cells[i])
    ensures forall i, y :: 0 <= i < |cells| && Adjacent(cells[i], y) && ShipAt(b, y) ==> !InSome(groups, y)
  {
    forall i, y, g | 0 <= i < |cells| && Adjacent(cells[i], y) && ShipAt(b, y) && 0 <= g < |groups|
      ensures y !in groups[g]
    {
      assert Component(b, groups[g]);
      assert cells[i] !in groups[g];
      assert forall k :: 0 <= k < |groups[g]| && groups[g][k] == y ==> Adjacent(groups[g][k], cells[i]);
    }
  }

  lemma OutsideApart(groups: seq<seq<Cell>>, cells: seq<Cell>)
    requires forall i :: 0 <= i < |cells| ==> !InSome(groups, cells[i])
    ensures forall g :: 0 <= g < |groups| ==> DisjointCells(groups[g], cells)
  {
    forall g | 0 <= g < |groups| ensures DisjointCells(groups[g], cells) {
      forall i | 0 <= i < |cells| ensures cells[i] !in groups[g] {
        assert !InSome(groups, cells[i]);
      }
    }
  }

  lemma InSomeSnoc(groups: seq<seq<Cell>>, cells: seq<Cell>)
    ensures forall x :: InSome(groups + [cells], x) <==> InSome(groups, x) || x in cells
  {
    var gs := groups + [cells];
    forall x ensures InSome(gs, x) <==> InSome(groups, x) || x in cells {
      if InSome(gs, x) {
        var g :| 0 <= g < |gs| && x in gs[g];
        if g < |groups| {
          assert x in groups[g];
        }
      }
      if InSome(groups, x) {
        var g :| 0 <= g < |groups| && x in groups[g];
        assert x in gs[g];
      }
      if x in cells {
        assert x in gs[|groups|];
      }
    }
  }

  lemma ApartSnoc(groups: seq<seq<Cell>>, cells: seq<Cell>)
    requires Apart(groups) && forall g :: 0 <= g < |groups| ==> DisjointCells(groups[g], cells)
    ensures Apart(groups + [cells])
  {
    var gs := groups + [cells];
    forall g, h | 0 <= g < h < |gs| ensures DisjointCells(gs[g], gs[h]) {
      if h < |groups| {
        assert gs[g] == groups[g] && gs[h] == groups[h];
      }
    }
  }

  lemma ComponentsSnoc(b: array2<Mark>, groups: seq<seq<Cell>>, cells: seq<Cell>)
    requires AllComponents(b, groups) && Component(b, cells)
    ensures AllComponents(b, groups + [cells])
  {
    var gs := groups + [cells];
    forall g | 0 <= g < |gs| ensures Component(b, gs[g]) {
      if g < |groups| {
        assert gs[g] == groups[g];
      }
    }
  }

  lemma FleetCellsSnoc(fleet: Fleet, name: string, cells: seq<Cell>)
    ensures FleetCells(fleet + [(name, cells)]) == FleetCells(fleet) + [cells]
  {
  }

  /** Recording a new component under its first free name keeps the scan's invariant. */
  lemma RecordShip(b: array2<Mark>, fleet: Fleet, dropped: seq<seq<Cell>>, name: string, cells: seq<Cell>)
    requires Scanned(b, fleet, dropped) && Component(b, cells)
    requires forall g :: 0 <= g < |fleet| ==> DisjointCells(FleetCells(fleet)[g], cells)
    requires forall g :: 0 <= g < |dropped| ==> DisjointCells(dropped[g], cells)
    requires FirstFree(|cells|, Names(fleet), name)
    ensures Scanned(b, fleet + [(name, cells)], dropped)
    ensures forall x :: InSome(FleetCells(fleet + [(name, cells)]), x) <==> InSome(FleetCells(fleet), x) || x in cells
  {
    var f := fleet + [(name, cells)];
    var groups := FleetCells(fleet);
    FleetCellsSnoc(fleet, name, cells);
    NamesSnoc(fleet, name, cells);
    forall i | 0 <= i < |f| ensures FirstFree(|f[i].1|, Names(f[..i]), f[i].0) {
      if i < |fleet| {
        assert f[..i] == fleet[..i];
      } else {
        assert f[..i] == fleet;
      }
    }
    ComponentsSnoc(b, groups, cells);
    ApartSnoc(groups, cells);
    var gs := groups + [cells];
    forall g, h | 0 <= g < |gs| && 0 <= h < |dropped| ensures DisjointCells(gs[g], dropped[h]) {
      if g == |groups| {
        assert forall x :: x in dropped[h] ==> x !in cells;
      } else {
        assert gs[g] == groups[g];
      }
    }
    InSomeSnoc(groups, cells);
  }

  /** Dropping a new component for which no name is left keeps the scan's invariant. */
  lemma DropShip(b: array2<Mark>, fleet: Fleet, dropped: seq<seq<Cell>>, cells: seq<Cell>)
    requires Scanned(b, fleet, dropped) && Component(b, cells)
    requires forall g :: 0 <= g < |fleet| ==> DisjointCells(FleetCells(fleet)[g], cells)
    requires forall g :: 0 <= g < |dropped| ==> DisjointCells(dropped[g], cells)
    requires NoneFree(|cells|, Names(fleet))
    ensures Scanned(b, fleet, dropped + [cells])
    ensures forall x :: InSome(dropped + [cells], x) <==> InSome(dropped, x) || x in cells
  {
    var groups := FleetCells(fleet);
    var ds := dropped + [cells];
    ComponentsSnoc(b, dropped, cells);
    ApartSnoc(dropped, cells);
    forall g, h | 0 <= g < |groups| && 0 <= h < |ds| ensures DisjointCells(groups[g], ds[h]) {
      if h < |dropped| {
        assert ds[h] == dropped[h];
      }
    }
    forall k | 0 <= k < |ds| ensures NoneFree(|ds[k]|, Names(fleet)) {
      if k < |dropped| {
        assert ds[k] == dropped[k];
      }
    }
    InSomeSnoc(dropped, cells);
  }

  lemma NamesSnoc(fleet: Fleet, name: string, cells: seq<Cell>)
    ensures Names(fleet + [(name, cells)]) == Names(fleet) + {name}
  {
    var f := fleet + [(name, cells)];
    forall n ensures n in Names(f) <==> n in Names(fleet) + {name} {
      if n in Names(f) {
        var i :| 0 <= i < |f| && f[i].0 == n;
        if i < |fleet| {
          assert fleet[i].0 == n;
        }
      }
      if n in Names(fleet) {
        var i :| 0 <= i < |fleet| && fleet[i].0 == n;
        assert f[i].0 == n;
      }
      if n == name {
        assert f[|fleet|].0 == name;
      }
    }
  }

  /** First-free naming never repeats a name and gives each ship its catalog length. */
  lemma FleetNames(fleet: Fleet)
    requires forall i :: 0 <= i < |fleet| ==> FirstFree(|fleet[i].1|, Names(fleet[..i]), fleet[i].0)
    ensures forall i, j :: 0 <= i < j < |fleet| ==> fleet[i].0 != fleet[j].0
    ensures forall i :: 0 <= i < |fleet| ==> Known(fleet[i].0) && ShipLength(fleet[i].0) == |fleet[i].1|
  {
    forall i, j | 0 <= i < j < |fleet| ensures fleet[i].0 != fleet[j].0 {
      assert fleet[..j][i] == fleet[i];
    }
    forall i | 0 <= i < |fleet| ensures Known(fleet[i].0) && ShipLength(fleet[i].0) == |fleet[i].1| {
      var k :| 0 <= k < |Catalog| && Catalog[k].0 == fleet[i].0 && Catalog[k].1 == |fleet[i].1|;
      CatalogEntry(k);
    }
  }

  // ---------------------------------------------------------------------
  // Shots and the end of the game

  /** Every cell of the ship is "X" on the board. */
  predicate AllHit(b: array2<Mark>, cells: seq<Cell>)
    reads b
  {
    forall j :: 0 <= j < |cells| ==> InGrid(b.Length0, b.Length1, cells[j]) && b[cells[j].0, cells[j].1] == Hit
  }

  /** Ship i of the fleet contains x and has every cell hit. */
  ghost predicate SunkEntry(fleet: Fleet, b: array2<Mark>, x: Cell, i: int)
    reads b
  {
    0 <= i < |fleet| && x in fleet[i].1 && AllHit(b, fleet[i].1)
  }

  /** No ship from entry i on contains x and has every cell hit. */
  ghost predicate NoneSunk(fleet: Fleet, b: array2<Mark>, x: Cell, i: int)
    reads b
  {
    forall j :: i <= j < |fleet| ==> !SunkEntry(fleet, b, x, j)
  }

  /** `name` names the first ship from entry i on that contains x and has every cell hit. */
  ghost predicate FirstSunk(fleet: Fleet, b: array2<Mark>, x: Cell, i: int, name: string)
    reads b
  {
    exists j :: i <= j < |fleet| && SunkEntry(fleet, b, x, j) && fleet[j].0 == name &&
      forall j' :: i <= j' < j ==> !SunkEntry(fleet, b, x, j')
  }

  /**
   * _is_ship_sunk, scanning the fleet from entry i on: the name of the
   * first recorded ship that contains x and has every cell hit, if any.
   */
  function SunkShipFrom(fleet: Fleet, b: array2<Mark>, x: Cell, i: nat): (n: Option<string>)
    reads b
    decreases |fleet| - i
    ensures n.None? <==> NoneSunk(fleet, b, x, i)
    ensures n.Some? ==> FirstSunk(fleet, b, x, i, n.value)
  {
    if i >= |fleet| then None
    else if x in fleet[i].1 && AllHit(b, fleet[i].1) then
      assert SunkEntry(fleet, b, x, i);
      Some(fleet[i].0)
    else SunkShipFrom(fleet, b, x, i + 1)
  }

  /** No cell of the board is "S". */
  ghost predicate ShipFree(b: array2<Mark>)
    reads b
  {
    forall r, c :: 0 <= r < b.Length0 && 0 <= c < b.Length1 ==> b[r, c] != Ship
  }

  /** The all() scan of check_win over one board. */
  method NoShipLeft(b: array2<Mark>) returns (none: bool)
    ensures none <==> ShipFree(b)
  {
    var r := 0;
    while r < b.Length0
      invariant 0 <= r <= b.Length0
      invariant forall i, j :: 0 <= i < r && 0 <= j < b.Length1 ==> b[i, j] != Ship
    {
      var c := 0;
      while c < b.Length1
        invariant 0 <= c <= b.Length1
        invariant forall j :: 0 <= j < c ==> b[r, j] != Ship
      {
        if b[r, c] == Ship {
          return false;
        }
        c := c + 1;
      }
      r := r + 1;
    }
    return true;
  }

  /**
   * The hit board agrees with the defender's board: a cell the attacker
   * has not fired at holds water or ship, a cell fired at holds the same
   * "X" or "O" on both boards.
   */
  ghost predicate Agree(board: array2<Mark>, hits: array2<Mark>)
    reads board, hits
    requires board.Length0 == hits.Length0 && board.Length1 == hits.Length1
  {
    forall r, c :: 0 <= r < board.Length0 && 0 <= c < board.Length1 ==>
      (hits[r, c] == Water && (board[r, c] == Water || board[r, c] == Ship)) ||
      ((hits[r, c] == Hit || hits[r, c] == Miss) && board[r, c] == hits[r, c])
  }

  /**
   * Write the shot's mark into the defender's board and the attacker's hit
   * board.  Writing "X" on a ship cell or "O" elsewhere into a cell not
   * yet fired at keeps the two boards in agreement.
   */
  method Strike(board: array2<Mark>, hits: array2<Mark>, row: int, col: int, m: Mark)
    requires board != hits && board.Length0 == hits.Length0 && board.Length1 == hits.Length1
    requires InGrid(board.Length0, board.Length1, (row, col))
    modifies board, hits
    ensures board[row, col] == m && hits[row, col] == m
    ensures forall r, c :: 0 <= r < board.Length0 && 0 <= c < board.Length1 && (r, c) != (row, col) ==>
              board[r, c] == old(board[r, c]) && hits[r, c] == old(hits[r, c])
    ensures (old(Agree(board, hits)) && old(hits[row, col]) != Hit && old(hits[row, col]) != Miss &&
             m == (if old(board[row, col]) == Ship then Hit else Miss)) ==> Agree(board, hits)
  {
    board[row, col] := m;
    hits[row, col] := m;
  }

  /**
   * The board part of fire_at: the shot at (row, col) of `board`, recorded
   * on the attacker's `hits`, with the sunk test run over `fleet`.
   */
  method Shoot(board: array2<Mark>, hits: array2<Mark>, fleet: Fleet, row: int, col: int) returns (res: ShotResult)
    requires board != hits && board.Length0 == hits.Length0 && board.Length1 == hits.Length1
    requires InGrid(board.Length0, board.Length1, (row, col))
    modifies board, hits
    ensures res == RepeatShot <==> old(hits[row, col]) == Hit || old(hits[row, col]) == Miss
    ensures res == RepeatShot ==> unchanged(board, hits)
    ensures res != RepeatShot ==>
              board[row, col] == hits[row, col] == (if old(board[row, col]) == Ship then Hit else Miss)
    ensures res == MissShot <==> res != RepeatShot && old(board[row, col]) != Ship
    ensures forall r, c :: 0 <= r < board.Length0 && 0 <= c < board.Length1 && (r, c) != (row, col) ==>
              board[r, c] == old(board[r, c]) && hits[r, c] == old(hits[r, c])
    ensures res == HitShot ==> NoneSunk(fleet, board, (row, col), 0)
    ensures res.SunkShot? ==> FirstSunk(fleet, board, (row, col), 0, res.name)
    ensures forall r, c :: 0 <= r < board.Length0 && 0 <= c < board.Length1 && board[r, c] == Ship ==>
              old(board[r, c]) == Ship
    ensures old(Agree(board, hits)) ==> Agree(board, hits)
  {
    if hits[row, col] == Hit || hits[row, col] == Miss {
      return RepeatShot;
    }
    if board[row, col] == Ship {
      Strike(board, hits, row, col, Hit);
      var sunkShip := SunkShipFrom(fleet, board, (row, col), 0);
      if sunkShip.Some? {
        return SunkShot(sunkShip.value);
      }
      return HitShot;
    } else {
      Strike(board, hits, row, col, Miss);
      return MissShot;
    }
  }

  // ---------------------------------------------------------------------
  // The manager

  class BoatManager {
    const rows: nat
    const cols: nat
    /** The configured ship counts, kept as given. */
    const ships: Counts
    var board1: array2<Mark>
    var board2: array2<Mark>
    var hits1: array2<Mark>
    var hits2: array2<Mark>
    var fleet1: Fleet
    var fleet2: Fleet
    var sunk1: seq<string>
    var sunk2: seq<string>

    function Board(p: PlayerId): array2<Mark>
      reads this
    {
      if p == 1 then board1 else board2
    }

    function Hits(p: PlayerId): array2<Mark>
      reads this
    {
      if p == 1 then hits1 else hits2
    }

    function FleetOf(p: PlayerId): Fleet
      reads this
    {
      if p == 1 then fleet1 else fleet2
    }

    function Sunk(p: PlayerId): seq<string>
      reads this
    {
      if p == 1 then sunk1 else sunk2
    }

    /** Four distinct rows x cols boards. */
    ghost predicate Valid()
      reads this
    {
      board1.Length0 == rows && board1.Length1 == cols &&
      board2.Length0 == rows && board2.Length1 == cols &&
      hits1.Length0 == rows && hits1.Length1 == cols &&
      hits2.Length0 == rows && hits2.Length1 == cols &&
      board1 != board2 && hits1 != hits2 &&
      board1 != hits1 && board1 != hits2 && board2 != hits1 && board2 != hits2
    }

    /** __init__: two empty boards and two empty hit boards, no ships recorded, none sunk. */
    constructor(rows: nat, cols: nat, ships: Counts)
      ensures Valid() && this.rows == rows && this.cols == cols && this.ships == ships
      ensures fresh(board1) && fresh(board2) && fresh(hits1) && fresh(hits2)
      ensures forall p: PlayerId, r, c :: 0 <= r < rows && 0 <= c < cols ==>
                Board(p)[r, c] == Water && Hits(p)[r, c] == Water
      ensures fleet1 == [] && fleet2 == [] && sunk1 == [] && sunk2 == []
    {
      this.rows, this.cols, this.ships := rows, cols, ships;
      var b1 := CreateEmptyBoard(rows, cols);
      var b2 := CreateEmptyBoard(rows, cols);
      var h1 := CreateEmptyBoard(rows, cols);
      var h2 := CreateEmptyBoard(rows, cols);
      board1, board2, hits1, hits2 := b1, b2, h1, h2;
      fleet1, fleet2, sunk1, sunk2 := [], [], [], [];
    }

    /**
     * set_player_ships: adopts `board` as the player's board, forgets the
     * player's ships and sunk list, and records the ships found on it.
     * The other player's state and both hit boards stay as they were.
     */
    method SetPlayerShips(player: PlayerId, board: array2<Mark>)
      requires Valid() && board.Length0 == rows && board.Length1 == cols
      requires board != hits1 && board != hits2 && board != Board(Opponent(player))
      modifies this
      ensures Valid()
      ensures Board(player) == board && Sunk(player) == []
      ensures Labels(board, FleetOf(player))
      ensures forall i, j :: 0 <= i < j < |FleetOf(player)| ==> FleetOf(player)[i].0 != FleetOf(player)[j].0
      ensures Board(Opponent(player)) == old(Board(Opponent(player)))
      ensures FleetOf(Opponent(player)) == old(FleetOf(Opponent(player)))
      ensures Sunk(Opponent(player)) == old(Sunk(Opponent(player)))
      ensures hits1 == old(hits1) && hits2 == old(hits2)
    {
      var fleet, found, dropped := LabelShips(board);
      LabelsOf(board, found, fleet, dropped);
      Adopt(player, board, fleet);
    }

    /** The field updates of set_player_ships: the player's board, ships and an empty sunk list. */
    method Adopt(player: PlayerId, board: array2<Mark>, fleet: Fleet)
      requires Valid() && board.Length0 == rows && board.Length1 == cols
      requires board != hits1 && board != hits2 && board != Board(Opponent(player))
      modifies this
      ensures Valid()
      ensures Board(player) == board && FleetOf(player) == fleet && Sunk(player) == []
      ensures Board(Opponent(player)) == old(Board(Opponent(player)))
      ensures FleetOf(Opponent(player)) == old(FleetOf(Opponent(player)))
      ensures Sunk(Opponent(player)) == old(Sunk(Opponent(player)))
      ensures hits1 == old(hits1) && hits2 == old(hits2)
    {
      if player == 1 {
        board1, fleet1, sunk1 := board, fleet, [];
      } else {
        board2, fleet2, sunk2 := board, fleet, [];
      }
    }

    /**
     * fire_at: the attacker fires at (row, col) of the defender's board.
     * A cell the attacker has fired at before is a repeat and changes
     * nothing; otherwise both boards get "X" on a ship cell and "O"
     * elsewhere, and a hit that completes a recorded ship is reported as
     * sunk and appended to the defender's sunk list.
     */
    method FireAt(attacker: PlayerId, defender: PlayerId, row: int, col: int) returns (res: ShotResult)
      requires Valid() && InGrid(rows, cols, (row, col))
      modifies Board(defender), Hits(attacker), this`sunk1, this`sunk2
      ensures Valid()
      ensures res == RepeatShot <==> old(Hits(attacker)[row, col]) == Hit || old(Hits(attacker)[row, col]) == Miss
      ensures res == RepeatShot ==> unchanged(Board(defender), Hits(attacker))
      ensures res != RepeatShot ==>
                Board(defender)[row, col] == Hits(attacker)[row, col] ==
                (if old(Board(defender)[row, col]) == Ship then Hit else Miss)
      ensures res == MissShot <==> res != RepeatShot && old(Board(defender)[row, col]) != Ship
      ensures forall r, c :: 0 <= r < rows && 0 <= c < cols && (r, c) != (row, col) ==>
                Board(defender)[r, c] == old(Board(defender)[r, c]) &&
                Hits(attacker)[r, c] == old(Hits(attacker)[r, c])
      ensures res == HitShot ==> NoneSunk(FleetOf(defender), Board(defender), (row, col), 0)
      ensures res.SunkShot? ==> FirstSunk(FleetOf(defender), Board(defender), (row, col), 0, res.name)
      ensures Sunk(defender) == old(Sunk(defender)) + (if res.SunkShot? then [res.name] else [])
      ensures defender != attacker ==> Sunk(attacker) == old(Sunk(attacker))
      ensures forall r, c :: 0 <= r < rows && 0 <= c < cols && Board(defender)[r, c] == Ship ==>
                old(Board(defender)[r, c]) == Ship
      ensures old(Agree(Board(defender), Hits(attacker))) ==> Agree(Board(defender), Hits(attacker))
    {
      var board, fleet := Board(defender), FleetOf(defender);
      res := Shoot(board, Hits(attacker), fleet, row, col);
      if res.SunkShot? {
        if defender == 1 {
          sunk1 := sunk1 + [res.name];
        } else {
          sunk2 := sunk2 + [res.name];
        }
      }
    }

    /**
     * check_win: player 2 wins when player 1's board has no "S" left,
     * otherwise player 1 wins when player 2's board has none, otherwise
     * nobody has won yet.
     */
    method CheckWin() returns (winner: Option<PlayerId>)
      ensures winner == Some(2) <==> ShipFree(board1)
      ensures winner == Some(1) <==> !ShipFree(board1) && ShipFree(board2)
      ensures winner == None <==> !ShipFree(board1) && !ShipFree(board2)
    {
      var player := 1;
      while player <= 2
        invariant 1 <= player <= 3
        invariant player > 1 ==> !ShipFree(board1)
        invariant player > 2 ==> !ShipFree(board2)
      {
        var none := NoShipLeft(Board(player));
        if none {
          return Some(Opponent(player));
        }
        player := player + 1;
      }
      return None;
    }
  }
}
