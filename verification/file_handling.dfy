/**
 * Validation of the game settings: the catalog check, the two fast
 * rejects (area and longest side) and the exhaustive backtracking search
 * that decides whether the fleet can be arranged without overlap.
 * Reading and parsing the settings file is not part of this model.
 */
module FileHandling {
  import opened Grid
  import opened Arrangement
  import opened Settings

  // ---------------------------------------------------------------------
  // The search grid: 0 is a free cell, anything else is occupied

  /** The free cells of the search grid. */
  ghost function Free(g: array2<int>): (s: set<Cell>)
    reads g
    ensures forall x :: x in s <==> InGrid(g.Length0, g.Length1, x) && g[x.0, x.1] == 0
  {
    set r, c | 0 <= r < g.Length0 && 0 <= c < g.Length1 && g[r, c] == 0 :: (r, c)
  }

  /**
   * The test made before laying a ship at an origin of the grid: the ship
   * must not run past the right (horizontal) or bottom (vertical) edge and
   * every cell it covers must be 0.
   */
  predicate Vacant(g: array2<int>, p: Segment)
    reads g
    requires 0 <= p.row < g.Length0 && 0 <= p.col < g.Length1
    ensures Vacant(g, p) <==> InBounds(g.Length0, g.Length1, p) && Cells(p) <= Free(g)
  {
    if p.dir == H then
      var ok := p.col + p.len <= g.Length1 && forall c :: p.col <= c < p.col + p.len ==> g[p.row, c] == 0;
      assert ok <==> InBounds(g.Length0, g.Length1, p) && Cells(p) <= Free(g) by {
        if InBounds(g.Length0, g.Length1, p) && Cells(p) <= Free(g) {
          forall c | p.col <= c < p.col + p.len ensures g[p.row, c] == 0 {
            assert (p.row, c) in Cells(p);
          }
        }
      }
      ok
    else
      var ok := p.row + p.len <= g.Length0 && forall r :: p.row <= r < p.row + p.len ==> g[r, p.col] == 0;
      assert ok <==> InBounds(g.Length0, g.Length1, p) && Cells(p) <= Free(g) by {
        if InBounds(g.Length0, g.Length1, p) && Cells(p) <= Free(g) {
          forall r | p.row <= r < p.row + p.len ensures g[r, p.col] == 0 {
            assert (r, p.col) in Cells(p);
          }
        }
      }
      ok
  }

  /** Write v into every cell the segment covers: the marking and the un-marking loops. */
  method Paint(g: array2<int>, p: Segment, v: int)
    requires InBounds(g.Length0, g.Length1, p)
    modifies g
    ensures forall r, c :: 0 <= r < g.Length0 && 0 <= c < g.Length1 ==>
              g[r, c] == if Covers(p, (r, c)) then v else old(g[r, c])
  {
    var i := 0;
    while i < p.len
      invariant 0 <= i && (i <= p.len || i == 0)
      invariant forall r, c :: 0 <= r < g.Length0 && 0 <= c < g.Length1 ==>
                  g[r, c] == if Covers(p.(len := i), (r, c)) then v else old(g[r, c])
    {
      var x := CellAt(p, i);
      g[x.0, x.1] := v;
      i := i + 1;
    }
  }

  /**
   * Backtracking placement of ships[index..] on the free cells of the grid,
   * trying every origin in row-major order, horizontal before vertical.
   *
   * It succeeds exactly when those ships can be arranged on the cells that
   * were free on entry.  On failure every mark it made has been undone, so
   * the grid is exactly as it was; on success it has only turned free cells
   * into 1s.
   */
  method PlaceShip(grid: array2<int>, ships: seq<int>, index: nat) returns (ok: bool)
    requires index <= |ships|
    modifies grid
    decreases |ships| - index
    ensures ok <==> CanArrange(grid.Length0, grid.Length1, old(Free(grid)), ships[index..])
    ensures !ok ==> forall r, c :: 0 <= r < grid.Length0 && 0 <= c < grid.Length1 ==>
                      grid[r, c] == old(grid[r, c])
    ensures ok ==> forall r, c :: 0 <= r < grid.Length0 && 0 <= c < grid.Length1 ==>
                     grid[r, c] == old(grid[r, c]) || (old(grid[r, c]) == 0 && grid[r, c] == 1)
  {
    var rows, cols := grid.Length0, grid.Length1;
    ghost var free := Free(grid);
    if index == |ships| {
      assert Lengths([]) == ships[index..];
      return true;
    }
    var shipLen := ships[index];
    ghost var rest := ships[index + 1..];
    assert ships[index..][0] == shipLen && ships[index..][1..] == rest;
    var r := 0;
    while r < rows
      invariant 0 <= r <= rows
      invariant forall i, j :: 0 <= i < rows && 0 <= j < cols ==> grid[i, j] == old(grid[i, j])
      invariant forall p: Segment :: p.len == shipLen && p.row < r && InBounds(rows, cols, p) && Cells(p) <= free ==>
                  !CanArrange(rows, cols, free - Cells(p), rest)
    {
      var c := 0;
      while c < cols
        invariant 0 <= c <= cols
        invariant forall i, j :: 0 <= i < rows && 0 <= j < cols ==> grid[i, j] == old(grid[i, j])
        invariant forall p: Segment ::
                    (p.len == shipLen && (p.row < r || (p.row == r && p.col < c)) &&
                     InBounds(rows, cols, p) && Cells(p) <= free) ==>
                    !CanArrange(rows, cols, free - Cells(p), rest)
      {
        var h := Segment(r, c, shipLen, H);
        ok := TryAt(grid, ships, index, h, free);
        if ok {
          return;
        }
        var v := Segment(r, c, shipLen, V);
        ok := TryAt(grid, ships, index, v, free);
        if ok {
          return;
        }
        c := c + 1;
      }
      r := r + 1;
    }
    if CanArrange(rows, cols, free, ships[index..]) {
      var p := ArrangeSplit(rows, cols, free, ships[index..]);
      assert false;
    }
    return false;
  }

  /**
   * One attempt of the search: if the segment is vacant, mark it, recurse
   * on the next ship, and un-mark it when the recursion fails.
   */
  method TryAt(grid: array2<int>, ships: seq<int>, index: nat, p: Segment, ghost free: set<Cell>)
    returns (ok: bool)
    requires index < |ships| && p.len == ships[index]
    requires 0 <= p.row < grid.Length0 && 0 <= p.col < grid.Length1
    requires free == Free(grid)
    modifies grid
    decreases |ships| - index, 0
    ensures ok ==> CanArrange(grid.Length0, grid.Length1, free, ships[index..])
    ensures ok ==> InBounds(grid.Length0, grid.Length1, p) && Cells(p) <= free &&
                   CanArrange(grid.Length0, grid.Length1, free - Cells(p), ships[index + 1..])
    ensures ok ==> InBounds(grid.Length0, grid.Length1, p) &&
                   forall x :: x in Cells(p) ==> grid[x.0, x.1] == 1
    ensures !ok ==> InBounds(grid.Length0, grid.Length1, p) && Cells(p) <= free ==>
                      !CanArrange(grid.Length0, grid.Length1, free - Cells(p), ships[index + 1..])
    ensures !ok ==> forall r, c :: 0 <= r < grid.Length0 && 0 <= c < grid.Length1 ==>
                      grid[r, c] == old(grid[r, c])
    ensures ok ==> forall r, c :: 0 <= r < grid.Length0 && 0 <= c < grid.Length1 ==>
                     grid[r, c] == old(grid[r, c]) || (old(grid[r, c]) == 0 && grid[r, c] == 1)
  {
    var rows, cols := grid.Length0, grid.Length1;
    ok := false;
    if Vacant(grid, p) {
      Paint(grid, p, 1);
      assert Free(grid) == free - Cells(p);
      ok := PlaceShip(grid, ships, index + 1);
      if ok {
        assert ships[index..][0] == p.len && ships[index..][1..] == ships[index + 1..];
        ArrangeFirst(rows, cols, free, ships[index..], p);
        return;
      }
      Paint(grid, p, 0);
    }
  }

  /** can_place_all_ships: search an empty grid for the lengths taken largest first. */
  method CanPlaceAllShips(rows: nat, cols: nat, shipLengths: seq<int>) returns (ok: bool)
    ensures ok <==> Arrangeable(rows, cols, shipLengths)
  {
    var grid := new int[rows, cols]((r, c) => 0);
    var sorted := SortDesc(shipLengths);
    assert Free(grid) == AllCells(rows, cols);
    ok := PlaceShip(grid, sorted, 0);
    assert sorted[0..] == sorted;
    ArrangeableIffSorted(rows, cols, shipLengths);
  }

  // ---------------------------------------------------------------------
  // validate_settings

  datatype ConfigError =
    | UnknownShip(name: string)
    | AreaExceeded(required: int, available: int)
    | ShipTooLong(name: string, length: int)
    | NoArrangement

  datatype Verdict = Accepted | Rejected(error: ConfigError)

  /** `name` is the first name of the settings that is not in the catalog. */
  ghost predicate FirstUnknown(counts: Counts, name: string) {
    exists i :: 0 <= i < |counts| && counts[i].0 == name && !Known(name) &&
      forall j :: 0 <= j < i ==> Known(counts[j].0)
  }

  /** Catalog entry k is asked for at least once and is longer than the board's longest side. */
  predicate TooLong(rows: int, cols: int, counts: Counts, k: int)
    requires 0 <= k < |Catalog|
  {
    CountOf(counts, Catalog[k].0) > 0 && Catalog[k].1 > Max(rows, cols)
  }

  /** (name, length) is the first catalog entry, in declaration order, that is too long. */
  ghost predicate FirstTooLong(rows: int, cols: int, counts: Counts, name: string, length: int) {
    exists k :: 0 <= k < |Catalog| && Catalog[k] == (name, length) && TooLong(rows, cols, counts, k) &&
      forall k' :: 0 <= k' < k ==> !TooLong(rows, cols, counts, k')
  }

  /** The name check of validate_settings: the first name of the settings that is not in the catalog, if any. */
  method UnknownName(counts: Counts) returns (name: Option<string>)
    ensures name.None? <==> AllKnown(counts)
    ensures name.Some? ==> FirstUnknown(counts, name.value)
  {
    var i := 0;
    while i < |counts|
      invariant 0 <= i <= |counts|
      invariant forall j :: 0 <= j < i ==> Known(counts[j].0)
    {
      if !Known(counts[i].0) {
        return Some(counts[i].0);
      }
      i := i + 1;
    }
    return None;
  }

  /**
   * The length check of validate_settings: the first catalog entry, in
   * declaration order, that is asked for and longer than the board's
   * longest side, if any.
   */
  method TooLongShip(rows: nat, cols: nat, counts: Counts) returns (entry: Option<(string, int)>)
    ensures entry.None? <==> forall k :: 0 <= k < |Catalog| ==> !TooLong(rows, cols, counts, k)
    ensures entry.Some? ==> FirstTooLong(rows, cols, counts, entry.value.0, entry.value.1)
  {
    var maxDim := Max(rows, cols);
    var k := 0;
    while k < |Catalog|
      invariant 0 <= k <= |Catalog|
      invariant forall k' :: 0 <= k' < k ==> !TooLong(rows, cols, counts, k')
    {
      var (name, length) := Catalog[k];
      if CountOf(counts, name) > 0 && length > maxDim {
        assert TooLong(rows, cols, counts, k);
        return Some((name, length));
      }
      k := k + 1;
    }
    return None;
  }

  /**
   * The lengths list of validate_settings, name by name in dictionary
   * order: the catalog length of each name, repeated count times.
   */
  method LengthsList(counts: Counts) returns (lengths: seq<int>)
    requires AllKnown(counts)
    ensures lengths == FleetLengths(counts)
  {
    lengths := [];
    var i := 0;
    while i < |counts|
      invariant 0 <= i <= |counts|
      invariant lengths == FleetLengths(counts[..i])
    {
      assert counts[..i + 1][..i] == counts[..i];
      lengths := lengths + Repeat(ShipLength(counts[i].0) as int, counts[i].1);
      i := i + 1;
    }
    assert counts[..i] == counts;
  }

  /**
   * validate_settings: accepts exactly the settings whose ships are all in
   * the catalog and can be arranged on the board; otherwise reports the
   * first check that fails, in the order the checks are made.
   */
  method ValidateSettings(rows: nat, cols: nat, counts: Counts) returns (v: Verdict)
    ensures v == Accepted <==> AllKnown(counts) && Arrangeable(rows, cols, FleetLengths(counts))
    ensures (v.Rejected? && v.error.UnknownShip?) <==> !AllKnown(counts)
    ensures v.Rejected? && v.error.UnknownShip? ==> FirstUnknown(counts, v.error.name)
    ensures (v.Rejected? && v.error.AreaExceeded?) <==> AllKnown(counts) && AreaRequired(counts) > rows * cols
    ensures v.Rejected? && v.error.AreaExceeded? ==>
              v.error == AreaExceeded(AreaRequired(counts), rows * cols)
    ensures (v.Rejected? && v.error.ShipTooLong?) <==>
              AllKnown(counts) && AreaRequired(counts) <= rows * cols &&
              exists k :: 0 <= k < |Catalog| && TooLong(rows, cols, counts, k)
    ensures v.Rejected? && v.error.ShipTooLong? ==>
              FirstTooLong(rows, cols, counts, v.error.name, v.error.length)
  {
    // every ship name must be in the catalog
    var unknown := UnknownName(counts);
    if unknown.Some? {
      return Rejected(UnknownShip(unknown.value));
    }

    // the ships' area against the board's
    var areaRequired := AreaRequired(counts);
    var boardSize := rows * cols;
    if areaRequired > boardSize {
      FitFleetBounds(rows, cols, counts);
      return Rejected(AreaExceeded(areaRequired, boardSize));
    }

    // no ship asked for may be longer than the board's longest side
    var tooLong := TooLongShip(rows, cols, counts);
    if tooLong.Some? {
      FitFleetBounds(rows, cols, counts);
      return Rejected(ShipTooLong(tooLong.value.0, tooLong.value.1));
    }

    var lengths := LengthsList(counts);
    var ok := CanPlaceAllShips(rows, cols, lengths);
    if !ok {
      return Rejected(NoArrangement);
    }
    return Accepted;
  }

  /**
   * The two fast rejects never turn away a fleet that could be arranged:
   * an arrangeable fleet fits the board's area and has no ship longer than
   * the board's longest side.
   */
  lemma FitFleetBounds(rows: nat, cols: nat, counts: Counts)
    requires AllKnown(counts)
    ensures Arrangeable(rows, cols, FleetLengths(counts)) ==> AreaRequired(counts) <= rows * cols
    ensures Arrangeable(rows, cols, FleetLengths(counts)) ==>
              forall k :: 0 <= k < |Catalog| ==> !TooLong(rows, cols, counts, k)
  {
    if Arrangeable(rows, cols, FleetLengths(counts)) {
      FleetFitsArea(rows, cols, counts);
      forall k | 0 <= k < |Catalog| ensures !TooLong(rows, cols, counts, k) {
        CatalogEntryFits(rows, cols, counts, k);
      }
    }
  }

  lemma FleetFitsArea(rows: nat, cols: nat, counts: Counts)
    requires AllKnown(counts) && Arrangeable(rows, cols, FleetLengths(counts))
    ensures AreaRequired(counts) <= rows * cols
  {
    var lengths := FleetLengths(counts);
    forall j | 0 <= j < |lengths| ensures lengths[j] >= 0 {
      FleetLengthsFrom(counts, j);
    }
    AreaBound(rows, cols, lengths);
  }

  lemma CatalogEntryFits(rows: nat, cols: nat, counts: Counts, k: int)
    requires AllKnown(counts) && Arrangeable(rows, cols, FleetLengths(counts))
    requires 0 <= k < |Catalog|
    ensures !TooLong(rows, cols, counts, k)
  {
    var name := Catalog[k].0;
    if CountOf(counts, name) > 0 {
      var lengths := FleetLengths(counts);
      var i := CountedEntry(counts, name);
      FleetLengthsHas(counts, i);
      var j :| 0 <= j < |lengths| && lengths[j] == ShipLength(name) as int;
      LengthBound(rows, cols, lengths, j);
      CatalogEntry(k);
    }
  }

  /** A name with a positive count is a key of the settings. */
  lemma {:induction false} CountedEntry(counts: Counts, name: string) returns (i: int)
    requires CountOf(counts, name) > 0
    ensures 0 <= i < |counts| && counts[i].0 == name && counts[i].1 > 0
    decreases |counts|
  {
    if counts[0].0 == name {
      i := 0;
    } else {
      i := CountedEntry(counts[1..], name);
      i := i + 1;
    }
  }
}
