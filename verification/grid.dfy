/**
 * Vocabulary shared by every part of the game: the board symbols, cells,
 * straight ship segments, the fixed ship catalog, shot results and the
 * clamped cursor step used by both firing screens.
 */
module Grid {

  datatype Option<+T> = None | Some(value: T)

  /** The four board symbols: "~" water, "S" ship, "X" hit, "O" miss. */
  datatype Mark = Water | Ship | Hit | Miss

  /** A (row, col) coordinate. */
  type Cell = (int, int)

  /** The two players, numbered as in the game. */
  type PlayerId = p: int | p == 1 || p == 2 witness 1

  function Opponent(p: PlayerId): (q: PlayerId)
    ensures q != p && {p, q} == {1, 2}
  {
    3 - p
  }

  predicate InGrid(rows: int, cols: int, x: Cell) {
    0 <= x.0 < rows && 0 <= x.1 < cols
  }

  /** 4-neighbourhood: the cells share an edge; diagonal cells never touch. */
  predicate Adjacent(x: Cell, y: Cell) {
    (x.0 == y.0 && (x.1 - y.1 == 1 || y.1 - x.1 == 1)) ||
    (x.1 == y.1 && (x.0 - y.0 == 1 || y.0 - x.0 == 1))
  }

  /** Is cell `x` of board `b` a ship cell? */
  predicate ShipAt(b: array2<Mark>, x: Cell)
    reads b
  {
    InGrid(b.Length0, b.Length1, x) && b[x.0, x.1] == Ship
  }

  /** A fresh `rows` x `cols` board of water. */
  method CreateEmptyBoard(rows: nat, cols: nat) returns (b: array2<Mark>)
    ensures fresh(b) && b.Length0 == rows && b.Length1 == cols
    ensures forall r, c :: 0 <= r < rows && 0 <= c < cols ==> b[r, c] == Water
  {
    b := new Mark[rows, cols]((r, c) => Water);
  }

  // ---------------------------------------------------------------------
  // Straight ship segments

  datatype Orientation = H | V

  /** Toggle between horizontal and vertical, as the R key does. */
  function Rotate(o: Orientation): (o': Orientation)
    ensures o' != o
  {
    if o == H then V else H
  }

  /** A straight segment of `len` cells starting at (row, col). */
  datatype Segment = Segment(row: int, col: int, len: int, dir: Orientation)

  /** The i-th cell of a segment: to the right when horizontal, downwards when vertical. */
  function CellAt(p: Segment, i: int): Cell {
    if p.dir == H then (p.row, p.col + i) else (p.row + i, p.col)
  }

  /** Does the segment cover cell `x`?  A segment with len <= 0 covers nothing. */
  predicate Covers(p: Segment, x: Cell) {
    if p.dir == H then x.0 == p.row && p.col <= x.1 < p.col + p.len
    else x.1 == p.col && p.row <= x.0 < p.row + p.len
  }

  lemma CoversCellAt(p: Segment, x: Cell)
    ensures Covers(p, x) <==> exists i :: 0 <= i < p.len && CellAt(p, i) == x
  {
    if Covers(p, x) {
      var i := if p.dir == H then x.1 - p.col else x.0 - p.row;
      assert CellAt(p, i) == x;
    }
  }

  /**
   * The segment lies on a rows x cols board: its origin is a cell of the
   * board and it does not run past the right edge (horizontal) or the
   * bottom edge (vertical).
   */
  predicate InBounds(rows: int, cols: int, p: Segment) {
    0 <= p.row < rows && 0 <= p.col < cols &&
    (if p.dir == H then p.col + p.len <= cols else p.row + p.len <= rows)
  }

  lemma InBoundsCovers(rows: int, cols: int, p: Segment, x: Cell)
    requires InBounds(rows, cols, p) && Covers(p, x)
    ensures InGrid(rows, cols, x)
  {
  }

  // ---------------------------------------------------------------------
  // The ship catalog, in declaration order

  const Catalog: seq<(string, nat)> :=
    [("carrier", 5), ("battleship", 4), ("cruiser", 3), ("submarine", 3), ("destroyer", 2)]

  predicate Known(name: string) {
    exists k :: 0 <= k < |Catalog| && Catalog[k].0 == name
  }

  /** The catalog length of a known ship name. */
  function ShipLength(name: string): (l: nat)
    requires Known(name)
    ensures exists k :: 0 <= k < |Catalog| && Catalog[k] == (name, l)
    ensures 2 <= l <= 5
  {
    if name == "carrier" then 5
    else if name == "battleship" then 4
    else if name == "cruiser" then 3
    else if name == "submarine" then 3
    else assert Catalog[4].0 == name; 2
  }

  /** Every catalog entry is known and its length is the one ShipLength gives. */
  lemma CatalogEntry(k: int)
    requires 0 <= k < |Catalog|
    ensures Known(Catalog[k].0) && ShipLength(Catalog[k].0) == Catalog[k].1
  {
    assert Catalog[0].0 == "carrier" && Catalog[1].0 == "battleship" && Catalog[2].0 == "cruiser";
    assert Catalog[3].0 == "submarine" && Catalog[4].0 == "destroyer";
  }

  // ---------------------------------------------------------------------
  // Shots

  /** What a shot reports: "repeat", "miss", "hit" or "sunk:<name>". */
  datatype ShotResult = RepeatShot | MissShot | HitShot | SunkShot(name: string)

  // ---------------------------------------------------------------------
  // Cursor

  datatype Direction = Up | Down | Left | Right

  /** The cell one step from (row, col) in direction d, ignoring the edges. */
  function Neighbour(x: Cell, d: Direction): Cell {
    match d
    case Up => (x.0 - 1, x.1)
    case Down => (x.0 + 1, x.1)
    case Left => (x.0, x.1 - 1)
    case Right => (x.0, x.1 + 1)
  }

  function Max(a: int, b: int): int { if a >= b then a else b }
  function Min(a: int, b: int): int { if a <= b then a else b }

  /**
   * One arrow-key move of the aiming cursor, clamped with max/min to the
   * board.  From a cell of the board the cursor takes the step when the
   * neighbouring cell is on the board and stays put at an edge.
   */
  function MoveCursor(rows: int, cols: int, x: Cell, d: Direction): (y: Cell)
    ensures InGrid(rows, cols, x) ==>
              InGrid(rows, cols, y) &&
              y == (if InGrid(rows, cols, Neighbour(x, d)) then Neighbour(x, d) else x)
  {
    match d
    case Up => (Max(0, x.0 - 1), x.1)
    case Down => (Min(rows - 1, x.0 + 1), x.1)
    case Left => (x.0, Max(0, x.1 - 1))
    case Right => (x.0, Min(cols - 1, x.1 + 1))
  }
}
