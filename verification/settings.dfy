/**
 * The fleet part of the game settings: an ordered dictionary from ship
 * name to count, and the lists derived from it.
 */
module Settings {
  import opened Grid
  import opened Arrangement

  /** The "ships" entry of the settings: (name, count) pairs in dictionary order. */
  type Counts = seq<(string, int)>

  /** A dictionary never holds the same key twice. */
  predicate DistinctNames(counts: Counts) {
    forall i, j :: 0 <= i < j < |counts| ==> counts[i].0 != counts[j].0
  }

  predicate AllKnown(counts: Counts) {
    forall i :: 0 <= i < |counts| ==> Known(counts[i].0)
  }

  /** ship_counts.get(name, 0) */
  function CountOf(counts: Counts, name: string): (n: int)
    ensures (forall i :: 0 <= i < |counts| ==> counts[i].0 != name) ==> n == 0
    ensures DistinctNames(counts) ==>
              forall i :: 0 <= i < |counts| && counts[i].0 == name ==> n == counts[i].1
  {
    if |counts| == 0 then 0
    else if counts[0].0 == name then counts[0].1
    else CountOf(counts[1..], name)
  }

  /** Python's [x] * n: n copies of x, none at all when n <= 0. */
  function Repeat<T>(x: T, n: int): (s: seq<T>)
    ensures |s| == Max(n, 0) && forall i :: 0 <= i < |s| ==> s[i] == x
  {
    if n <= 0 then [] else [x] + Repeat(x, n - 1)
  }

  /** Each ship name repeated count times, in dictionary order (the placement order). */
  function ShipList(counts: Counts): seq<string> {
    if |counts| == 0 then []
    else ShipList(counts[..|counts| - 1]) + Repeat(counts[|counts| - 1].0, counts[|counts| - 1].1)
  }

  /** The list of ship lengths handed to the feasibility search, in dictionary order. */
  function FleetLengths(counts: Counts): seq<int>
    requires AllKnown(counts)
  {
    if |counts| == 0 then []
    else
      var last := counts[|counts| - 1];
      FleetLengths(counts[..|counts| - 1]) + Repeat(ShipLength(last.0) as int, last.1)
  }

  /**
   * sum(SHIP_LENGTHS[name] * count for name, count in ship_counts.items()).
   * It never exceeds the total length of the fleet that is searched for
   * (a negative count lowers the area but adds no ship), and equals it
   * when no count is negative.
   */
  function AreaRequired(counts: Counts): (a: int)
    requires AllKnown(counts)
    ensures a <= Sum(FleetLengths(counts))
    ensures (forall i :: 0 <= i < |counts| ==> counts[i].1 >= 0) ==> a == Sum(FleetLengths(counts))
  {
    if |counts| == 0 then 0
    else
      var front, last := counts[..|counts| - 1], counts[|counts| - 1];
      var l := ShipLength(last.0) as int;
      SumAppend(FleetLengths(front), Repeat(l, last.1));
      SumRepeat(l, last.1);
      assert l * last.1 <= l * Max(last.1, 0);
      AreaRequired(front) + ShipLength(last.0) * last.1
  }

  /** The ship list holds each name exactly as many times as its (non-negative) count. */
  lemma {:induction false} ShipListCounts(counts: Counts, name: string)
    requires DistinctNames(counts)
    ensures multiset(ShipList(counts))[name] == Max(CountOf(counts, name), 0)
    decreases |counts|
  {
    if |counts| > 0 {
      var front, last := counts[..|counts| - 1], counts[|counts| - 1];
      assert counts == front + [last];
      assert DistinctNames(front) by {
        forall i, j | 0 <= i < j < |front| ensures front[i].0 != front[j].0 {
          assert front[i] == counts[i] && front[j] == counts[j];
        }
      }
      ShipListCounts(front, name);
      var rep := Repeat(last.0, last.1);
      RepeatCount(last.0, last.1, name);
      assert ShipList(counts) == ShipList(front) + rep;
      assert multiset(ShipList(counts))[name] == multiset(ShipList(front))[name] + multiset(rep)[name];
      CountOfSnoc(front, last, name);
    }
  }

  lemma {:induction false} RepeatCount<T>(x: T, n: int, y: T)
    ensures multiset(Repeat(x, n))[y] == if x == y then Max(n, 0) else 0
    decreases Max(n, 0)
  {
    if n > 0 {
      RepeatCount(x, n - 1, y);
      assert Repeat(x, n) == [x] + Repeat(x, n - 1);
    }
  }

  lemma {:induction false} CountOfSnoc(front: Counts, last: (string, int), name: string)
    requires DistinctNames(front + [last])
    ensures CountOf(front + [last], name) ==
              if last.0 == name then last.1 else CountOf(front, name)
    decreases |front|
  {
    var all := front + [last];
    if |front| == 0 {
      assert all == [last];
    } else {
      assert all[0] == front[0] && all[|all| - 1] == last;
      assert all[1..] == front[1..] + [last];
      if front[0].0 != name {
        CountOfSnoc(front[1..], last, name);
      }
    }
  }

  /** The lengths handed to the search are, position by position, the catalog lengths of the placement list. */
  lemma {:induction false} FleetLengthsOfShipList(counts: Counts)
    requires AllKnown(counts)
    ensures |FleetLengths(counts)| == |ShipList(counts)|
    ensures forall i :: 0 <= i < |ShipList(counts)| ==>
              Known(ShipList(counts)[i]) && FleetLengths(counts)[i] == ShipLength(ShipList(counts)[i])
    decreases |counts|
  {
    if |counts| > 0 {
      FleetLengthsOfShipList(counts[..|counts| - 1]);
    }
  }

  lemma {:induction false} SumAppend(a: seq<int>, b: seq<int>)
    ensures Sum(a + b) == Sum(a) + Sum(b)
    decreases |a|
  {
    if |a| == 0 {
      assert a + b == b;
    } else {
      assert (a + b)[1..] == a[1..] + b;
      SumAppend(a[1..], b);
    }
  }

  lemma {:induction false} SumRepeat(x: int, n: int)
    ensures Sum(Repeat(x, n)) == x * Max(n, 0)
    decreases Max(n, 0)
  {
    if n > 0 {
      SumRepeat(x, n - 1);
      assert Repeat(x, n)[1..] == Repeat(x, n - 1);
      assert x * n == x + x * (n - 1);
    }
  }

  /** Every length in the fleet list is a catalog length of a ship with a positive count. */
  lemma {:induction false} FleetLengthsFrom(counts: Counts, k: int)
    requires AllKnown(counts) && 0 <= k < |FleetLengths(counts)|
    ensures exists i :: 0 <= i < |counts| && counts[i].1 > 0 &&
              FleetLengths(counts)[k] == ShipLength(counts[i].0)
    decreases |counts|
  {
    var front, last := counts[..|counts| - 1], counts[|counts| - 1];
    if k < |FleetLengths(front)| {
      FleetLengthsFrom(front, k);
      var i :| 0 <= i < |front| && front[i].1 > 0 && FleetLengths(front)[k] == ShipLength(front[i].0);
      assert counts[i] == front[i];
    } else {
      assert counts[|counts| - 1] == last;
    }
  }

  /** A ship with a positive count contributes its length to the fleet list. */
  lemma {:induction false} FleetLengthsHas(counts: Counts, i: int)
    requires AllKnown(counts) && 0 <= i < |counts| && counts[i].1 > 0
    ensures ShipLength(counts[i].0) as int in FleetLengths(counts)
    decreases |counts|
  {
    var front, last := counts[..|counts| - 1], counts[|counts| - 1];
    if i < |front| {
      assert front[i] == counts[i];
      FleetLengthsHas(front, i);
    } else {
      var rep := Repeat(ShipLength(last.0) as int, last.1);
      assert rep[0] in rep;
    }
  }
}
