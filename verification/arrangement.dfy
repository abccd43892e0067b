/**
 * What it means for a fleet to fit on a board.  This is the specification
 * of the feasibility question that the backtracking search answers: ships
 * are straight segments that lie on the board and never share a cell.
 */
module Arrangement {
  import opened Grid

  /** The cells a segment covers, as a set. */
  ghost function Cells(p: Segment): (s: set<Cell>)
    ensures forall x :: x in s <==> Covers(p, x)
  {
    if p.dir == H then set c | p.col <= c < p.col + p.len :: (p.row, c)
    else set r | p.row <= r < p.row + p.len :: (r, p.col)
  }

  /** Every cell of a rows x cols board. */
  ghost function AllCells(rows: int, cols: int): (s: set<Cell>)
    ensures forall x :: x in s <==> InGrid(rows, cols, x)
  {
    set r, c | 0 <= r < rows && 0 <= c < cols :: (r, c)
  }

  /** The lengths of a sequence of segments, in order. */
  function Lengths(ps: seq<Segment>): (ls: seq<int>)
    ensures |ls| == |ps| && forall i :: 0 <= i < |ps| ==> ls[i] == ps[i].len
  {
    if |ps| == 0 then [] else [ps[0].len] + Lengths(ps[1..])
  }

  /**
   * The segments can be laid one after another on the cells of `free`:
   * the first lies on the board and inside `free`, and the rest fit in
   * what it leaves free.
   */
  ghost predicate Fits(rows: int, cols: int, free: set<Cell>, ps: seq<Segment>)
    decreases |ps|
  {
    |ps| == 0 ||
    (InBounds(rows, cols, ps[0]) && Cells(ps[0]) <= free &&
     Fits(rows, cols, free - Cells(ps[0]), ps[1..]))
  }

  /** The ships, in this order, can be given segments that fit in `free`. */
  ghost predicate CanArrange(rows: int, cols: int, free: set<Cell>, ships: seq<int>) {
    exists ps :: Lengths(ps) == ships && Fits(rows, cols, free, ps)
  }

  /** Some arrangement of a fleet of these lengths fits on an empty board. */
  ghost predicate Arrangeable(rows: int, cols: int, lengths: seq<int>) {
    exists ps :: multiset(Lengths(ps)) == multiset(lengths) && Fits(rows, cols, AllCells(rows, cols), ps)
  }

  /** No two segments share a cell. */
  ghost predicate Disjoint(ps: seq<Segment>) {
    forall i, j :: 0 <= i < j < |ps| ==> Cells(ps[i]) !! Cells(ps[j])
  }

  /**
   * Fitting one after another is the same as: every segment lies on the
   * board inside `free`, and the segments are pairwise disjoint.
   */
  lemma {:induction false} FitsIffPlaced(rows: int, cols: int, free: set<Cell>, ps: seq<Segment>)
    ensures Fits(rows, cols, free, ps) <==>
              (forall i :: 0 <= i < |ps| ==> InBounds(rows, cols, ps[i]) && Cells(ps[i]) <= free) &&
              Disjoint(ps)
    decreases |ps|
  {
    if |ps| > 0 {
      var p, rest := ps[0], ps[1..];
      var free' := free - Cells(p);
      FitsIffPlaced(rows, cols, free', rest);
      var placed := (forall i :: 0 <= i < |ps| ==> InBounds(rows, cols, ps[i]) && Cells(ps[i]) <= free) && Disjoint(ps);
      if Fits(rows, cols, free, ps) {
        forall i, j | 0 <= i < j < |ps| ensures Cells(ps[i]) !! Cells(ps[j]) {
          if i > 0 {
            assert ps[i] == rest[i - 1] && ps[j] == rest[j - 1];
          } else {
            assert ps[j] == rest[j - 1];
            assert Cells(rest[j - 1]) <= free';
          }
        }
        forall i | 0 <= i < |ps| ensures InBounds(rows, cols, ps[i]) && Cells(ps[i]) <= free {
          if i > 0 {
            assert ps[i] == rest[i - 1];
          }
        }
      }
      if placed {
        forall i | 0 <= i < |rest| ensures InBounds(rows, cols, rest[i]) && Cells(rest[i]) <= free' {
          assert rest[i] == ps[i + 1];
          assert Cells(ps[0]) !! Cells(ps[i + 1]);
        }
        forall i, j | 0 <= i < j < |rest| ensures Cells(rest[i]) !! Cells(rest[j]) {
          assert rest[i] == ps[i + 1] && rest[j] == ps[j + 1];
        }
        assert Fits(rows, cols, free', rest);
      }
    }
  }

  /** Laying a first ship and arranging the rest in what it leaves arranges them all. */
  lemma ArrangeFirst(rows: int, cols: int, free: set<Cell>, ships: seq<int>, p: Segment)
    requires |ships| > 0 && p.len == ships[0]
    requires InBounds(rows, cols, p) && Cells(p) <= free
    requires CanArrange(rows, cols, free - Cells(p), ships[1..])
    ensures CanArrange(rows, cols, free, ships)
  {
    var ps :| Lengths(ps) == ships[1..] && Fits(rows, cols, free - Cells(p), ps);
    var qs := [p] + ps;
    assert qs[1..] == ps;
    assert Lengths(qs) == ships;
    assert Fits(rows, cols, free, qs);
  }

  /** Every arrangement starts with a first ship that lies on the board inside `free`. */
  lemma ArrangeSplit(rows: int, cols: int, free: set<Cell>, ships: seq<int>) returns (p: Segment)
    requires |ships| > 0 && CanArrange(rows, cols, free, ships)
    ensures p.len == ships[0] && InBounds(rows, cols, p) && Cells(p) <= free
    ensures CanArrange(rows, cols, free - Cells(p), ships[1..])
  {
    var ps :| Lengths(ps) == ships && Fits(rows, cols, free, ps);
    p := ps[0];
    assert Lengths(ps[1..]) == ships[1..];
  }

  // ---------------------------------------------------------------------
  // Largest-first order

  ghost predicate Descending(s: seq<int>) {
    forall i, j :: 0 <= i < j < |s| ==> s[i] >= s[j]
  }

  function Insert(x: int, s: seq<int>): (r: seq<int>)
    ensures |r| == |s| + 1 && (r[0] == x || (|s| > 0 && r[0] == s[0]))
    ensures multiset(r) == multiset(s) + multiset{x}
    ensures Descending(s) ==> Descending(r)
  {
    if |s| == 0 || x >= s[0] then
      ConsDescending(x, s);
      [x] + s
    else
      assert s == [s[0]] + s[1..];
      var t := Insert(x, s[1..]);
      ConsDescending(s[0], t);
      [s[0]] + t
  }

  /** Putting a head no smaller than the first element before a largest-first sequence keeps it largest-first. */
  lemma ConsDescending(h: int, t: seq<int>)
    ensures Descending(t) && (|t| == 0 || h >= t[0]) ==> Descending([h] + t)
  {
    if Descending(t) && (|t| == 0 || h >= t[0]) {
      var r := [h] + t;
      forall i, j | 0 <= i < j < |r| ensures r[i] >= r[j] {
        if i > 0 {
          assert r[i] == t[i - 1] && r[j] == t[j - 1];
        } else {
          assert r[j] == t[j - 1] && t[0] >= t[j - 1];
        }
      }
    }
  }

  /** sorted(lengths, reverse=True): the same lengths, largest first. */
  function SortDesc(s: seq<int>): (r: seq<int>)
    ensures multiset(r) == multiset(s) && Descending(r)
  {
    if |s| == 0 then []
    else
      assert s == [s[0]] + s[1..];
      Insert(s[0], SortDesc(s[1..]))
  }

  /** The first element of a largest-first sequence is its largest. */
  lemma HeadIsLargest(s: seq<int>, x: int)
    requires Descending(s) && x in multiset(s)
    ensures |s| > 0 && x <= s[0]
  {
    var j :| 0 <= j < |s| && s[j] == x;
    if j > 0 {
      assert s[0] >= s[j];
    }
  }

  /** Two largest-first orderings of the same lengths are the same sequence. */
  lemma {:induction false} DescendingUnique(a: seq<int>, b: seq<int>)
    requires Descending(a) && Descending(b) && multiset(a) == multiset(b)
    ensures a == b
    decreases |a|
  {
    if |a| == 0 {
      assert multiset(b) == multiset{};
    } else {
      HeadIsLargest(b, a[0]);
      HeadIsLargest(a, b[0]);
      var ta, tb := a[1..], b[1..];
      assert a == [a[0]] + ta;
      assert b == [b[0]] + tb;
      assert a[0] == b[0];
      assert multiset(a) == multiset{a[0]} + multiset(ta);
      assert multiset(b) == multiset{b[0]} + multiset(tb);
      forall y ensures multiset(ta)[y] == multiset(tb)[y] {
        assert multiset(a)[y] == multiset(b)[y];
      }
      assert multiset(ta) == multiset(tb);
      assert Descending(ta) && Descending(tb);
      DescendingUnique(ta, tb);
    }
  }

  ghost function InsertSeg(p: Segment, qs: seq<Segment>): seq<Segment> {
    if |qs| == 0 || p.len >= qs[0].len then [p] + qs else [qs[0]] + InsertSeg(p, qs[1..])
  }

  ghost function SortSegs(ps: seq<Segment>): seq<Segment> {
    if |ps| == 0 then [] else InsertSeg(ps[0], SortSegs(ps[1..]))
  }

  lemma {:induction false} InsertSegFits(rows: int, cols: int, free: set<Cell>, p: Segment, qs: seq<Segment>)
    requires Fits(rows, cols, free, [p] + qs)
    ensures Fits(rows, cols, free, InsertSeg(p, qs))
    ensures Lengths(InsertSeg(p, qs)) == Insert(p.len, Lengths(qs))
    decreases |qs|
  {
    assert ([p] + qs)[1..] == qs;
    if |qs| > 0 && p.len < qs[0].len {
      var q, rest := qs[0], qs[1..];
      assert qs[1..] == rest;
      // p then q then rest fits; so q then (p then rest) fits
      var freeQ := free - Cells(q);
      assert Fits(rows, cols, free - Cells(p) - Cells(q), rest);
      assert free - Cells(p) - Cells(q) == freeQ - Cells(p);
      assert ([p] + rest)[1..] == rest;
      assert Fits(rows, cols, freeQ, [p] + rest);
      InsertSegFits(rows, cols, freeQ, p, rest);
      var r := InsertSeg(p, rest);
      assert ([q] + r)[1..] == r;
      assert Fits(rows, cols, free, [q] + r);
      assert Lengths([q] + r) == [q.len] + Lengths(r);
    }
  }

  lemma {:induction false} SortSegsFits(rows: int, cols: int, free: set<Cell>, ps: seq<Segment>)
    ensures Lengths(SortSegs(ps)) == SortDesc(Lengths(ps))
    ensures Fits(rows, cols, free, ps) ==> Fits(rows, cols, free, SortSegs(ps))
    decreases |ps|
  {
    if |ps| > 0 {
      var p, rest := ps[0], ps[1..];
      assert Lengths(ps)[1..] == Lengths(rest);
      var freeP := free - Cells(p);
      SortSegsFits(rows, cols, freeP, rest);
      var sorted := SortSegs(rest);
      assert ([p] + sorted)[1..] == sorted;
      if Fits(rows, cols, free, ps) {
        assert Fits(rows, cols, free, [p] + sorted);
      }
      if !Fits(rows, cols, free, [p] + sorted) {
        // only the lengths matter in this case; re-establish them on a fitting-free path
        LengthsInsert(p, sorted);
      } else {
        InsertSegFits(rows, cols, free, p, sorted);
      }
    }
  }

  lemma {:induction false} LengthsInsert(p: Segment, qs: seq<Segment>)
    ensures Lengths(InsertSeg(p, qs)) == Insert(p.len, Lengths(qs))
    decreases |qs|
  {
    if |qs| > 0 && p.len < qs[0].len {
      LengthsInsert(p, qs[1..]);
      assert Lengths(qs)[1..] == Lengths(qs[1..]);
    }
  }

  /**
   * A fleet can be arranged in some order exactly when its lengths, taken
   * largest first, can be laid one after another on an empty board.
   */
  lemma ArrangeableIffSorted(rows: int, cols: int, lengths: seq<int>)
    ensures Arrangeable(rows, cols, lengths) <==> CanArrange(rows, cols, AllCells(rows, cols), SortDesc(lengths))
  {
    var all := AllCells(rows, cols);
    if Arrangeable(rows, cols, lengths) {
      var ps :| multiset(Lengths(ps)) == multiset(lengths) && Fits(rows, cols, all, ps);
      SortSegsFits(rows, cols, all, ps);
      DescendingUnique(SortDesc(Lengths(ps)), SortDesc(lengths));
      assert Lengths(SortSegs(ps)) == SortDesc(lengths);
    }
    if CanArrange(rows, cols, all, SortDesc(lengths)) {
      var ps :| Lengths(ps) == SortDesc(lengths) && Fits(rows, cols, all, ps);
      assert multiset(Lengths(ps)) == multiset(lengths);
    }
  }

  // ---------------------------------------------------------------------
  // Area and length bounds of a fitting fleet

  function Sum(s: seq<int>): int {
    if |s| == 0 then 0 else s[0] + Sum(s[1..])
  }

  lemma {:induction false} SumInsert(x: int, s: seq<int>)
    ensures Sum(Insert(x, s)) == x + Sum(s)
    decreases |s|
  {
    if |s| > 0 && x < s[0] {
      SumInsert(x, s[1..]);
      assert Insert(x, s)[1..] == Insert(x, s[1..]);
    }
  }

  lemma {:induction false} SumSortDesc(s: seq<int>)
    ensures Sum(SortDesc(s)) == Sum(s)
    decreases |s|
  {
    if |s| > 0 {
      SumSortDesc(s[1..]);
      SumInsert(s[0], SortDesc(s[1..]));
    }
  }

  /** A segment of length n >= 0 covers exactly n cells. */
  lemma {:induction false} CellsCard(p: Segment)
    requires p.len >= 0
    ensures |Cells(p)| == p.len
    decreases p.len
  {
    if p.len == 0 {
      assert Cells(p) == {};
    } else {
      var q := p.(len := p.len - 1);
      CellsCard(q);
      assert Cells(p) == Cells(q) + {CellAt(p, p.len - 1)};
    }
  }

  /** A rows x cols board has rows * cols cells. */
  lemma {:induction false} AllCellsCard(rows: nat, cols: nat)
    ensures |AllCells(rows, cols)| == rows * cols
    decreases rows
  {
    if rows == 0 {
      assert AllCells(rows, cols) == {};
    } else {
      AllCellsCard(rows - 1, cols);
      var lastRow := Segment(rows - 1, 0, cols, H);
      CellsCard(lastRow);
      assert AllCells(rows, cols) == AllCells(rows - 1, cols) + Cells(lastRow);
      assert AllCells(rows - 1, cols) !! Cells(lastRow);
      assert rows * cols == (rows - 1) * cols + cols;
    }
  }

  /** Segments of non-negative length that fit in `free` use no more cells than it has. */
  lemma {:induction false} FitsArea(rows: int, cols: int, free: set<Cell>, ps: seq<Segment>)
    requires Fits(rows, cols, free, ps)
    requires forall i :: 0 <= i < |ps| ==> ps[i].len >= 0
    ensures Sum(Lengths(ps)) <= |free|
    decreases |ps|
  {
    if |ps| > 0 {
      var p := ps[0];
      CellsCard(p);
      FitsArea(rows, cols, free - Cells(p), ps[1..]);
      assert Lengths(ps)[1..] == Lengths(ps[1..]);
      assert |free - Cells(p)| == |free| - |Cells(p)|;
    }
  }

  /** The area of an arrangeable fleet of non-negative lengths is at most the board's. */
  lemma AreaBound(rows: nat, cols: nat, lengths: seq<int>)
    requires Arrangeable(rows, cols, lengths)
    requires forall i :: 0 <= i < |lengths| ==> lengths[i] >= 0
    ensures Sum(lengths) <= rows * cols
  {
    ArrangeableIffSorted(rows, cols, lengths);
    var all := AllCells(rows, cols);
    var ps: seq<Segment> :| Lengths(ps) == SortDesc(lengths) && Fits(rows, cols, all, ps);
    forall i | 0 <= i < |ps| ensures ps[i].len >= 0 {
      assert ps[i].len in multiset(lengths);
    }
    FitsArea(rows, cols, all, ps);
    SumSortDesc(lengths);
    AllCellsCard(rows, cols);
  }

  /** No ship of an arrangeable fleet is longer than the board's longest side. */
  lemma LengthBound(rows: int, cols: int, lengths: seq<int>, k: int)
    requires Arrangeable(rows, cols, lengths)
    requires 0 <= k < |lengths|
    ensures lengths[k] <= Max(rows, cols)
  {
    var all := AllCells(rows, cols);
    var ps :| multiset(Lengths(ps)) == multiset(lengths) && Fits(rows, cols, all, ps);
    var ls := Lengths(ps);
    assert lengths[k] in multiset(lengths);
    assert lengths[k] in ls;
    var i :| 0 <= i < |ls| && ls[i] == lengths[k];
    FitsInBounds(rows, cols, all, ps, i);
  }

  /** Each segment of an arrangement that fits lies on the board. */
  lemma {:induction false} FitsInBounds(rows: int, cols: int, free: set<Cell>, ps: seq<Segment>, i: int)
    requires Fits(rows, cols, free, ps) && 0 <= i < |ps|
    ensures InBounds(rows, cols, ps[i])
    decreases i
  {
    if i > 0 {
      FitsInBounds(rows, cols, free - Cells(ps[0]), ps[1..], i - 1);
    }
  }
}
