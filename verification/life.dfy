/**
 Conway's Game of Life on the unbounded integer plane, stated over finite sets
 of live cells. This is the abstract world the sparse engine (module Engine)
 is proved against: neighbour counts, the kill and birth sets one generation
 produces, and the B3/S23 rule.
 */
module Life {

  /** A cell coordinate (x, y); any pair of integers is valid. */
  type Cell = (int, int)

  /** The eight Moore offsets, in the order in which the two nested loops over
      (1, 0, -1) visit them once (0, 0) is skipped. */
  const Offsets: seq<(int, int)> :=
    [(1, 1), (1, 0), (1, -1), (0, 1), (0, -1), (-1, 1), (-1, 0), (-1, -1)]

  function Shift(c: Cell, o: (int, int)): Cell {
    (c.0 + o.0, c.1 + o.1)
  }

  /** a and b are distinct and at Chebyshev distance 1. */
  predicate Adjacent(a: Cell, b: Cell) {
    a != b && -1 <= a.0 - b.0 <= 1 && -1 <= a.1 - b.1 <= 1
  }

  /** The cells the neighbour loops visit around c. */
  function Ring(c: Cell): set<Cell> {
    set i | 0 <= i < |Offsets| :: Shift(c, Offsets[i])
  }

  /** The cells of C that are Moore neighbours of c. */
  function LiveNeighbors(C: set<Cell>, c: Cell): set<Cell> {
    set d | d in C && Adjacent(d, c)
  }

  /** The number of cells of C found at the offsets `offs` around c, summed
      one offset at a time. */
  function CountAt(C: set<Cell>, c: Cell, offs: seq<(int, int)>): (n: nat)
    ensures n <= |offs|
  {
    if |offs| == 0 then 0
    else CountAt(C, c, offs[..|offs| - 1]) + (if Shift(c, offs[|offs| - 1]) in C then 1 else 0)
  }

  /** The live-neighbour count of c in C. */
  function Neighbors(C: set<Cell>, c: Cell): (n: nat)
    ensures n <= 8
  {
    CountAt(C, c, Offsets)
  }

  /** B3/S23: a live cell survives with two or three live neighbours, a dead
      cell comes alive with exactly three. */
  predicate LifeRule(C: set<Cell>, c: Cell) {
    var n := Neighbors(C, c);
    if c in C then n == 2 || n == 3 else n == 3
  }

  /** The dead cells among the first k neighbours of v that have exactly
      three live neighbours: what the dead-neighbour scan has birthed after
      visiting k offsets. */
  function DeadBirthsUpTo(C: set<Cell>, v: Cell, k: nat): (r: set<Cell>)
    requires k <= |Offsets|
    ensures r !! C
  {
    set i | 0 <= i < k && Shift(v, Offsets[i]) !in C && Neighbors(C, Shift(v, Offsets[i])) == 3
      :: Shift(v, Offsets[i])
  }

  lemma DeadBirthsUpToStep(C: set<Cell>, v: Cell, k: nat)
    requires k < |Offsets|
    ensures var n := Shift(v, Offsets[k]);
      DeadBirthsUpTo(C, v, k + 1) == DeadBirthsUpTo(C, v, k) + (if n !in C && Neighbors(C, n) == 3 then {n} else {})
  {
  }

  /** The dead neighbours of v that have exactly three live neighbours. */
  function DeadBirths(C: set<Cell>, v: Cell): (r: set<Cell>)
    ensures r !! C
    ensures r <= Ring(v)
  {
    DeadBirthsUpTo(C, v, |Offsets|)
  }

  /** The cells of V that die of isolation (< 2) or overcrowding (> 3). */
  function Kills(C: set<Cell>, V: set<Cell>): (r: set<Cell>)
    ensures r <= V
  {
    set c | c in V && (Neighbors(C, c) < 2 || Neighbors(C, c) > 3)
  }

  /** The cells born while the dead neighbours of every cell of V are scanned. */
  function Births(C: set<Cell>, V: set<Cell>): (r: set<Cell>)
    ensures r !! C
  {
    set v, d | v in V && d in DeadBirths(C, v) :: d
  }

  /** The grid one tick commits when the committed grid is C and the pending
      grid is P on entry: P loses the dying cells of C and gains the births.
      Survival is implicit: a cell of P that nothing kills stays. */
  function TickCells(C: set<Cell>, P: set<Cell>): set<Cell> {
    (P - Kills(C, C)) + Births(C, C)
  }

  /** One generation of a synchronised engine (pending equal to committed). */
  function Next(C: set<Cell>): set<Cell> {
    TickCells(C, C)
  }

  predicate Distinct(offs: seq<(int, int)>) {
    forall i, j :: 0 <= i < j < |offs| ==> offs[i] != offs[j]
  }

  /** The cells of C at the offsets `offs` around c. */
  function FoundAt(C: set<Cell>, c: Cell, offs: seq<(int, int)>): set<Cell> {
    set i | 0 <= i < |offs| && Shift(c, offs[i]) in C :: Shift(c, offs[i])
  }

  lemma CountAtSnoc(C: set<Cell>, c: Cell, offs: seq<(int, int)>, k: nat)
    requires k < |offs|
    ensures CountAt(C, c, offs[..k + 1]) == CountAt(C, c, offs[..k]) + (if Shift(c, offs[k]) in C then 1 else 0)
  {
    assert offs[..k + 1][..k] == offs[..k];
  }

  /** Summing over distinct offsets counts every live cell found exactly once. */
  lemma {:induction false} CountAtIsCardinality(C: set<Cell>, c: Cell, offs: seq<(int, int)>)
    requires Distinct(offs)
    ensures CountAt(C, c, offs) == |FoundAt(C, c, offs)|
    decreases |offs|
  {
    if |offs| == 0 {
      assert FoundAt(C, c, offs) == {};
    } else {
      var k := |offs| - 1;
      var front := offs[..k];
      var last := Shift(c, offs[k]);
      CountAtIsCardinality(C, c, front);
      forall i | 0 <= i < |front| ensures Shift(c, front[i]) != last {
        assert front[i] == offs[i] != offs[k];
      }
      if last in C {
        assert FoundAt(C, c, offs) == FoundAt(C, c, front) + {last};
      } else {
        assert FoundAt(C, c, offs) == FoundAt(C, c, front);
      }
    }
  }

  /** The neighbour loops visit exactly the Moore neighbours. */
  lemma RingIsAdjacency(c: Cell, d: Cell)
    ensures d in Ring(c) <==> Adjacent(d, c)
  {
    if Adjacent(d, c) {
      var dx, dy := d.0 - c.0, d.1 - c.1;
      var i := if dx == 1 then 1 - dy else if dx == 0 then (if dy == 1 then 3 else 4) else 6 - dy;
      assert Offsets[i] == (dx, dy);
      assert d == Shift(c, Offsets[i]);
    }
  }

  lemma RingDisplay(c: Cell)
    ensures Ring(c) == {(c.0 + 1, c.1 + 1), (c.0 + 1, c.1), (c.0 + 1, c.1 - 1), (c.0, c.1 + 1),
                        (c.0, c.1 - 1), (c.0 - 1, c.1 + 1), (c.0 - 1, c.1), (c.0 - 1, c.1 - 1)}
  {
    var display := {(c.0 + 1, c.1 + 1), (c.0 + 1, c.1), (c.0 + 1, c.1 - 1), (c.0, c.1 + 1),
                    (c.0, c.1 - 1), (c.0 - 1, c.1 + 1), (c.0 - 1, c.1), (c.0 - 1, c.1 - 1)};
    forall d | d in display ensures d in Ring(c) {
      RingIsAdjacency(c, d);
    }
  }

  /** The summed count is the number of live Moore neighbours, so it is at most 8. */
  lemma NeighborsIsCardinality(C: set<Cell>, c: Cell)
    ensures Neighbors(C, c) == |LiveNeighbors(C, c)|
  {
    CountAtIsCardinality(C, c, Offsets);
    forall d ensures d in FoundAt(C, c, Offsets) <==> d in LiveNeighbors(C, c) {
      RingIsAdjacency(c, d);
    }
    assert FoundAt(C, c, Offsets) == LiveNeighbors(C, c);
  }

  /** Kills lie inside the visited cells and births outside C, so the two are
      disjoint: killing first or birthing first gives the same grid. */
  lemma TickOrderIndependent(C: set<Cell>, P: set<Cell>)
    ensures Kills(C, C) !! Births(C, C)
    ensures TickCells(C, P) == (P + Births(C, C)) - Kills(C, C)
  {
  }

  /** Visiting one more committed cell v: kill it if its count is outside 2..3,
      then birth its qualifying dead neighbours. */
  lemma VisitStep(C: set<Cell>, P0: set<Cell>, done: set<Cell>, v: Cell)
    requires v in C
    ensures
      var before := (P0 - Kills(C, done)) + Births(C, done);
      var killed := if Neighbors(C, v) < 2 || Neighbors(C, v) > 3 then before - {v} else before;
      killed + DeadBirths(C, v) == (P0 - Kills(C, done + {v})) + Births(C, done + {v})
  {
    var n := Neighbors(C, v);
    assert Kills(C, done + {v}) == Kills(C, done) + (if n < 2 || n > 3 then {v} else {});
    assert Births(C, done + {v}) == Births(C, done) + DeadBirths(C, v);
  }

  /** Every cell the scan can birth around a cell of C is a Moore neighbour of it. */
  lemma BirthsAreNearby(C: set<Cell>, d: Cell)
    requires d in Births(C, C)
    ensures d !in C && Neighbors(C, d) == 3
    ensures exists v :: v in C && Adjacent(d, v)
  {
    var v :| v in C && d in DeadBirths(C, v);
    RingIsAdjacency(v, d);
  }

  /** Under a synchronised pending grid, a tick is exactly B3/S23. */
  lemma TickIsLife(C: set<Cell>, c: Cell)
    ensures c in Next(C) <==> LifeRule(C, c)
  {
    if c in Births(C, C) {
      BirthsAreNearby(C, c);
    }
    if c !in C && Neighbors(C, c) == 3 {
      NeighborsIsCardinality(C, c);
      var d :| d in LiveNeighbors(C, c);
      RingIsAdjacency(d, c);
      assert c in Ring(d);
      var i :| 0 <= i < |Offsets| && Shift(d, Offsets[i]) == c;
      assert c in DeadBirthsUpTo(C, d, |Offsets|);
      assert d in C && c in DeadBirths(C, d);
      assert c in Births(C, C);
    }
  }

  /** Every cell alive after a tick was pending already, or is a Moore neighbour
      of a committed cell; under synchronisation, every live cell is within
      Chebyshev distance 1 of a previously live one. */
  lemma Locality(C: set<Cell>, P: set<Cell>, c: Cell)
    requires c in TickCells(C, P)
    ensures c in P || exists v :: v in C && Adjacent(c, v)
  {
    if c !in P {
      BirthsAreNearby(C, c);
    }
  }

  /** Cells that are only pending are never examined: they pass through the tick
      unchanged, on top of the generation computed from C. */
  lemma StalePendingCarried(C: set<Cell>, X: set<Cell>)
    requires X !! C
    ensures TickCells(C, C + X) == Next(C) + X
  {
  }

  /** An empty world stays empty. */
  lemma EmptyStaysEmpty()
    ensures Next({}) == {}
  {
  }

  /** To evaluate one generation of a concrete pattern it suffices to check the
      rule on a finite set of candidates that covers C and all its neighbours. */
  lemma NextFromCandidates(C: set<Cell>, D: set<Cell>, cands: set<Cell>)
    requires C <= cands && D <= cands
    requires forall v | v in C :: Ring(v) <= cands
    requires forall c | c in cands :: (c in D <==> LifeRule(C, c))
    ensures Next(C) == D
  {
    forall c | c in Next(C) ensures c in D {
      TickIsLife(C, c);
      if c !in C {
        BirthsAreNearby(C, c);
        var v :| v in C && Adjacent(c, v);
        RingIsAdjacency(v, c);
      }
    }
    forall c | c in D ensures c in Next(C) {
      TickIsLife(C, c);
    }
  }
}
