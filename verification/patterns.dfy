/**
 The seeding helpers, which place a named pattern by a fixed sequence of
 births relative to an anchor, and concrete generations of those patterns.
 */
module Patterns {
  import opened Life
  import opened SparseGrid
  import opened Engine
  import Render

  /** The cells listed in a sequence. */
  function Elems(s: seq<Cell>): set<Cell> {
    set c | c in s
  }

  /** The births of the glider helper, in order, for the anchor (x, y). */
  function Glider(x: int, y: int): seq<Cell> {
    [(x + 1, y), (x + 2, y + 1), (x, y + 2), (x + 1, y + 2), (x + 2, y + 2)]
  }

  /** The births of the lightweight-spaceship helper, in order. */
  function Lwss(x: int, y: int): seq<Cell> {
    [(x + 1, y), (x + 2, y), (x + 3, y), (x + 4, y), (x + 4, y + 1), (x + 4, y + 2),
     (x + 3, y + 3), (x, y + 1), (x, y + 3)]
  }

  /** The births of the block helper, in order. */
  function Block(x: int, y: int): seq<Cell> {
    [(x, y), (x, y + 1), (x + 1, y), (x + 1, y + 1)]
  }

  /** Births the cells of `cells` one after the other, in order. */
  function BirthEach(g: Game, cells: seq<Cell>): (r: Game)
    ensures r.committed == g.committed
    ensures Cells(r.pending) == Cells(g.pending) + Elems(cells)
    ensures Valid(g) ==> Valid(r)
    decreases |cells|
  {
    if |cells| == 0 then g
    else BirthEach(Birth(g, cells[0].0, cells[0].1), cells[1..])
  }

  /** Five births, then a commit: the glider and everything else pending
      become visible. */
  function SpawnGlider(g: Game, x: int, y: int): (r: Game)
    ensures Synchronized(r)
    ensures Cells(r.committed) == Cells(g.pending) + Elems(Glider(x, y))
    ensures Valid(g) ==> Valid(r)
  {
    ApplyChanges(BirthEach(g, Glider(x, y)))
  }

  /** Nine births and no commit: the ship stays pending. */
  function SpawnLWSS(g: Game, x: int, y: int): (r: Game)
    ensures r.committed == g.committed
    ensures Cells(r.pending) == Cells(g.pending) + Elems(Lwss(x, y))
    ensures Valid(g) ==> Valid(r)
  {
    BirthEach(g, Lwss(x, y))
  }

  /** Four births and no commit: the block stays pending. */
  function SpawnBlock(g: Game, x: int, y: int): (r: Game)
    ensures r.committed == g.committed
    ensures Cells(r.pending) == Cells(g.pending) + Elems(Block(x, y))
    ensures Valid(g) ==> Valid(r)
  {
    BirthEach(g, Block(x, y))
  }

  /** 1 when p is a Moore neighbour of c. */
  function Near(p: Cell, c: Cell): nat {
    if Adjacent(p, c) then 1 else 0
  }

  /** The number of cells of s that are Moore neighbours of c. */
  function CountNear(s: seq<Cell>, c: Cell): nat
    decreases |s|
  {
    if |s| == 0 then 0 else CountNear(s[..|s| - 1], c) + Near(s[|s| - 1], c)
  }

  function NearAt(s: seq<Cell>, i: nat, c: Cell): nat {
    if i < |s| then Near(s[i], c) else 0
  }

  /** For a short sequence the count is a sum of five terms. */
  lemma {:induction false} CountNearUnrolled(s: seq<Cell>, c: Cell)
    requires |s| <= 5
    ensures CountNear(s, c) == NearAt(s, 0, c) + NearAt(s, 1, c) + NearAt(s, 2, c) + NearAt(s, 3, c) + NearAt(s, 4, c)
    decreases |s|
  {
    if |s| > 0 {
      var t := s[..|s| - 1];
      CountNearUnrolled(t, c);
      assert forall i | 0 <= i < |t| :: t[i] == s[i];
    }
  }

  /** Counting the neighbours among the listed cells of a pattern without
      repetitions gives the number of its live neighbours. */
  lemma {:induction false} CountNearIsCardinality(s: seq<Cell>, c: Cell)
    requires Distinct(s)
    ensures CountNear(s, c) == |LiveNeighbors(Elems(s), c)|
    decreases |s|
  {
    if |s| == 0 {
      assert LiveNeighbors(Elems(s), c) == {};
    } else {
      var t, p := s[..|s| - 1], s[|s| - 1];
      SplitLast(s);
      CountNearIsCardinality(t, c);
      NeighborsAddOne(Elems(t), p, c);
    }
  }

  /** Dropping the last cell of a repetition-free sequence. */
  lemma SplitLast(s: seq<Cell>)
    requires Distinct(s) && |s| > 0
    ensures Distinct(s[..|s| - 1])
    ensures s[|s| - 1] !in Elems(s[..|s| - 1])
    ensures Elems(s) == Elems(s[..|s| - 1]) + {s[|s| - 1]}
  {
    var t, p := s[..|s| - 1], s[|s| - 1];
    assert s == t + [p];
    assert forall i | 0 <= i < |t| :: t[i] == s[i];
  }

  /** Adding one new cell adds one live neighbour exactly when it is adjacent. */
  lemma NeighborsAddOne(E: set<Cell>, p: Cell, c: Cell)
    requires p !in E
    ensures |LiveNeighbors(E + {p}, c)| == |LiveNeighbors(E, c)| + Near(p, c)
  {
    if Adjacent(p, c) {
      assert LiveNeighbors(E + {p}, c) == LiveNeighbors(E, c) + {p};
    } else {
      assert LiveNeighbors(E + {p}, c) == LiveNeighbors(E, c);
    }
  }

  /** The B3/S23 rule with the count taken over the listed cells. */
  predicate RuleNear(s: seq<Cell>, c: Cell) {
    var n := CountNear(s, c);
    if c in s then n == 2 || n == 3 else n == 3
  }

  lemma RuleNearIsLifeRule(s: seq<Cell>, c: Cell)
    requires Distinct(s)
    ensures RuleNear(s, c) <==> LifeRule(Elems(s), c)
  {
    CountNearIsCardinality(s, c);
    NeighborsIsCardinality(Elems(s), c);
  }

  /** v and its eight neighbours lie in `cands`. */
  predicate Around(v: Cell, cands: set<Cell>) {
    && v in cands
    && (v.0 + 1, v.1 + 1) in cands && (v.0 + 1, v.1) in cands && (v.0 + 1, v.1 - 1) in cands
    && (v.0, v.1 + 1) in cands && (v.0, v.1 - 1) in cands
    && (v.0 - 1, v.1 + 1) in cands && (v.0 - 1, v.1) in cands && (v.0 - 1, v.1 - 1) in cands
  }

  /** The rule applied to the pattern s gives the pattern d on every cell of W. */
  predicate DecidesOn(s: seq<Cell>, d: seq<Cell>, W: set<Cell>) {
    forall c | c in W :: (c in d <==> RuleNear(s, c))
  }

  /** W holds the pattern s with all its neighbours, and the pattern d. */
  predicate Frames(s: seq<Cell>, d: seq<Cell>, W: set<Cell>) {
    && Distinct(s)
    && (forall v | v in s :: Around(v, W))
    && (forall v | v in d :: v in W)
  }

  /** One generation of a concrete pattern, checked cell by cell over a finite
      window that holds the pattern and all its neighbours. */
  lemma NextByWindow(s: seq<Cell>, d: seq<Cell>, W: set<Cell>)
    requires Frames(s, d, W)
    requires DecidesOn(s, d, W)
    ensures Next(Elems(s)) == Elems(d)
  {
    forall v | v in Elems(s) ensures Ring(v) <= W {
      RingDisplay(v);
    }
    forall c | c in W ensures c in Elems(d) <==> LifeRule(Elems(s), c) {
      RuleNearIsLifeRule(s, c);
    }
    NextFromCandidates(Elems(s), Elems(d), W);
  }

  /** All cells with x0 <= x < x0 + 4 and y0 <= y < y0 + 4. */
  function Window4(x0: int, y0: int): set<Cell> {
    {(x0, y0), (x0, y0 + 1), (x0, y0 + 2), (x0, y0 + 3),
     (x0 + 1, y0), (x0 + 1, y0 + 1), (x0 + 1, y0 + 2), (x0 + 1, y0 + 3),
     (x0 + 2, y0), (x0 + 2, y0 + 1), (x0 + 2, y0 + 2), (x0 + 2, y0 + 3),
     (x0 + 3, y0), (x0 + 3, y0 + 1), (x0 + 3, y0 + 2), (x0 + 3, y0 + 3)}
  }

  /** All cells with x0 <= x < x0 + 5 and y0 <= y < y0 + 5. */
  function Window5(x0: int, y0: int): set<Cell> {
    {(x0, y0), (x0, y0 + 1), (x0, y0 + 2), (x0, y0 + 3), (x0, y0 + 4),
     (x0 + 1, y0), (x0 + 1, y0 + 1), (x0 + 1, y0 + 2), (x0 + 1, y0 + 3), (x0 + 1, y0 + 4),
     (x0 + 2, y0), (x0 + 2, y0 + 1), (x0 + 2, y0 + 2), (x0 + 2, y0 + 3), (x0 + 2, y0 + 4),
     (x0 + 3, y0), (x0 + 3, y0 + 1), (x0 + 3, y0 + 2), (x0 + 3, y0 + 3), (x0 + 3, y0 + 4),
     (x0 + 4, y0), (x0 + 4, y0 + 1), (x0 + 4, y0 + 2), (x0 + 4, y0 + 3), (x0 + 4, y0 + 4)}
  }

  // Each generation below is split into a `...Framed` lemma (the window holds
  // the pattern, its neighbours and its successor) and a `...Decided` lemma
  // (the rule, cell by cell over the window). Proved inside the step lemma
  // itself, the two facts together exceed the verifier's resource budget.

  /** The 2x2 block is a still life. */
  lemma BlockStillLife(x: int, y: int)
    ensures Next(Elems(Block(x, y))) == Elems(Block(x, y))
  {
    BlockFramed(x, y);
    BlockDecided(x, y);
    NextByWindow(Block(x, y), Block(x, y), Window4(x - 1, y - 1));
  }

  lemma BlockFramed(x: int, y: int)
    ensures Frames(Block(x, y), Block(x, y), Window4(x - 1, y - 1))
  {
  }

  lemma BlockDecided(x: int, y: int)
    ensures DecidesOn(Block(x, y), Block(x, y), Window4(x - 1, y - 1))
  {
    forall c | c in Window4(x - 1, y - 1) ensures c in Block(x, y) <==> RuleNear(Block(x, y), c) {
      CountNearUnrolled(Block(x, y), c);
    }
  }

  function BlinkerRow(x: int, y: int): seq<Cell> {
    [(x, y), (x + 1, y), (x + 2, y)]
  }

  function BlinkerColumn(x: int, y: int): seq<Cell> {
    [(x + 1, y - 1), (x + 1, y), (x + 1, y + 1)]
  }

  /** The blinker alternates between a row and a column of three cells, so it
      has period 2. */
  lemma BlinkerOscillates(x: int, y: int)
    ensures Next(Elems(BlinkerRow(x, y))) == Elems(BlinkerColumn(x, y))
    ensures Next(Next(Elems(BlinkerRow(x, y)))) == Elems(BlinkerRow(x, y))
  {
    BlinkerRowFramed(x, y);
    BlinkerRowDecided(x, y);
    BlinkerColumnFramed(x, y);
    BlinkerColumnDecided(x, y);
    NextByWindow(BlinkerRow(x, y), BlinkerColumn(x, y), Window5(x - 1, y - 2));
    NextByWindow(BlinkerColumn(x, y), BlinkerRow(x, y), Window5(x - 1, y - 2));
  }

  lemma BlinkerRowFramed(x: int, y: int)
    ensures Frames(BlinkerRow(x, y), BlinkerColumn(x, y), Window5(x - 1, y - 2))
  {
  }

  lemma BlinkerRowDecided(x: int, y: int)
    ensures DecidesOn(BlinkerRow(x, y), BlinkerColumn(x, y), Window5(x - 1, y - 2))
  {
    forall c | c in Window5(x - 1, y - 2) ensures c in BlinkerColumn(x, y) <==> RuleNear(BlinkerRow(x, y), c) {
      CountNearUnrolled(BlinkerRow(x, y), c);
    }
  }

  lemma BlinkerColumnFramed(x: int, y: int)
    ensures Frames(BlinkerColumn(x, y), BlinkerRow(x, y), Window5(x - 1, y - 2))
  {
  }

  lemma BlinkerColumnDecided(x: int, y: int)
    ensures DecidesOn(BlinkerColumn(x, y), BlinkerRow(x, y), Window5(x - 1, y - 2))
  {
    forall c | c in Window5(x - 1, y - 2) ensures c in BlinkerRow(x, y) <==> RuleNear(BlinkerColumn(x, y), c) {
      CountNearUnrolled(BlinkerColumn(x, y), c);
    }
  }

  /** The phases of the glider placed at (x, y), one generation apart. */
  function GliderPhase1(x: int, y: int): seq<Cell> {
    [(x, y + 1), (x + 1, y + 2), (x + 1, y + 3), (x + 2, y + 1), (x + 2, y + 2)]
  }

  function GliderPhase2(x: int, y: int): seq<Cell> {
    [(x, y + 2), (x + 1, y + 3), (x + 2, y + 1), (x + 2, y + 2), (x + 2, y + 3)]
  }

  function GliderPhase3(x: int, y: int): seq<Cell> {
    [(x + 1, y + 1), (x + 1, y + 3), (x + 2, y + 2), (x + 2, y + 3), (x + 3, y + 2)]
  }

  lemma GliderStep0(x: int, y: int)
    ensures Next(Elems(Glider(x, y))) == Elems(GliderPhase1(x, y))
  {
    GliderStep0Framed(x, y);
    GliderStep0Decided(x, y);
    NextByWindow(Glider(x, y), GliderPhase1(x, y), Window5(x - 1, y - 1));
  }

  lemma GliderStep0Framed(x: int, y: int)
    ensures Frames(Glider(x, y), GliderPhase1(x, y), Window5(x - 1, y - 1))
  {
  }

  lemma GliderStep0Decided(x: int, y: int)
    ensures DecidesOn(Glider(x, y), GliderPhase1(x, y), Window5(x - 1, y - 1))
  {
    forall c | c in Window5(x - 1, y - 1) ensures c in GliderPhase1(x, y) <==> RuleNear(Glider(x, y), c) {
      CountNearUnrolled(Glider(x, y), c);
    }
  }

  lemma GliderStep1(x: int, y: int)
    ensures Next(Elems(GliderPhase1(x, y))) == Elems(GliderPhase2(x, y))
  {
    GliderStep1Framed(x, y);
    GliderStep1Decided(x, y);
    NextByWindow(GliderPhase1(x, y), GliderPhase2(x, y), Window5(x - 1, y));
  }

  lemma GliderStep1Framed(x: int, y: int)
    ensures Frames(GliderPhase1(x, y), GliderPhase2(x, y), Window5(x - 1, y))
  {
  }

  lemma GliderStep1Decided(x: int, y: int)
    ensures DecidesOn(GliderPhase1(x, y), GliderPhase2(x, y), Window5(x - 1, y))
  {
    forall c | c in Window5(x - 1, y) ensures c in GliderPhase2(x, y) <==> RuleNear(GliderPhase1(x, y), c) {
      CountNearUnrolled(GliderPhase1(x, y), c);
    }
  }

  lemma GliderStep2(x: int, y: int)
    ensures Next(Elems(GliderPhase2(x, y))) == Elems(GliderPhase3(x, y))
  {
    GliderStep2Framed(x, y);
    GliderStep2Decided(x, y);
    NextByWindow(GliderPhase2(x, y), GliderPhase3(x, y), Window5(x - 1, y));
  }

  lemma GliderStep2Framed(x: int, y: int)
    ensures Frames(GliderPhase2(x, y), GliderPhase3(x, y), Window5(x - 1, y))
  {
  }

  lemma GliderStep2Decided(x: int, y: int)
    ensures DecidesOn(GliderPhase2(x, y), GliderPhase3(x, y), Window5(x - 1, y))
  {
    forall c | c in Window5(x - 1, y) ensures c in GliderPhase3(x, y) <==> RuleNear(GliderPhase2(x, y), c) {
      CountNearUnrolled(GliderPhase2(x, y), c);
    }
  }

  lemma GliderStep3(x: int, y: int)
    ensures Next(Elems(GliderPhase3(x, y))) == Elems(Glider(x + 1, y + 1))
  {
    GliderStep3Framed(x, y);
    GliderStep3Decided(x, y);
    NextByWindow(GliderPhase3(x, y), Glider(x + 1, y + 1), Window5(x, y));
  }

  lemma GliderStep3Framed(x: int, y: int)
    ensures Frames(GliderPhase3(x, y), Glider(x + 1, y + 1), Window5(x, y))
  {
  }

  lemma GliderStep3Decided(x: int, y: int)
    ensures DecidesOn(GliderPhase3(x, y), Glider(x + 1, y + 1), Window5(x, y))
  {
    forall c | c in Window5(x, y) ensures c in Glider(x + 1, y + 1) <==> RuleNear(GliderPhase3(x, y), c) {
      CountNearUnrolled(GliderPhase3(x, y), c);
    }
  }

  /** After four generations the glider is the same shape moved by (+1, +1). */
  lemma GliderGlides(x: int, y: int)
    ensures Next(Next(Next(Next(Elems(Glider(x, y)))))) == Elems(Glider(x + 1, y + 1))
  {
    GliderStep0(x, y);
    GliderStep1(x, y);
    GliderStep2(x, y);
    GliderStep3(x, y);
  }

  /** The script's start-up sequence on its freshly constructed engine. The
      ship and the two blocks are only birthed; the glider's commit publishes
      the ship along with the glider, but the blocks stay pending and are
      invisible to queries. */
  function DriverSetup(g0: Game): (g: Game)
    requires Valid(g0) && Cells(g0.committed) == {} && Cells(g0.pending) == {}
    ensures Valid(g)
    ensures Cells(g.committed) == Elems(Lwss(0, 10)) + Elems(Glider(0, 0))
    ensures Cells(g.pending) == Cells(g.committed) + Elems(Block(15, 15)) + Elems(Block(90, 20))
  {
    SeedSequence(g0, (0, 10), (0, 0), (15, 15), (90, 20))
  }

  /** The start-up sequence with its four anchors left open: a ship, then a
      glider and its commit, then two blocks. */
  function SeedSequence(g0: Game, ship: Cell, glider: Cell, block1: Cell, block2: Cell): (g: Game)
    requires Valid(g0) && Cells(g0.pending) == {}
    ensures Valid(g)
    ensures Cells(g.committed) == Elems(Lwss(ship.0, ship.1)) + Elems(Glider(glider.0, glider.1))
    ensures Cells(g.pending) == Cells(g.committed) + Elems(Block(block1.0, block1.1)) + Elems(Block(block2.0, block2.1))
  {
    var g2 := ShipAndGlider(g0, ship, glider);
    SpawnBlock(SpawnBlock(g2, block1.0, block1.1), block2.0, block2.1)
  }

  /** The ship is birthed and then published by the glider's commit. */
  function ShipAndGlider(g0: Game, ship: Cell, glider: Cell): (g: Game)
    requires Valid(g0) && Cells(g0.pending) == {}
    ensures Valid(g) && Synchronized(g)
    ensures Cells(g.committed) == Elems(Lwss(ship.0, ship.1)) + Elems(Glider(glider.0, glider.1))
  {
    SpawnGlider(SpawnLWSS(g0, ship.0, ship.1), glider.0, glider.1)
  }

  /** Under Python 3 the script's first frame, rendered before any tick, fails:
      the ship and glider are committed, so the box computation as written
      raises a TypeError and the script stops before its first tick. */
  lemma DriverFirstFrameFails(g0: Game)
    requires Valid(g0) && Cells(g0.committed) == {} && Cells(g0.pending) == {}
    ensures Render.BoundingBoxAsWritten(DriverSetup(g0).committed).TypeError?
  {
    var g := DriverSetup(g0);
    var C := Cells(g.committed);
    GliderCommitted(C, (0, 10), (0, 0));
    Render.AsWrittenFailsOnLiveGrid(g.committed);
  }

  /** The glider's first cell is among the cells the glider's commit publishes. */
  lemma GliderCommitted(C: set<Cell>, ship: Cell, glider: Cell)
    requires C == Elems(Lwss(ship.0, ship.1)) + Elems(Glider(glider.0, glider.1))
    ensures C != {}
  {
    assert Glider(glider.0, glider.1)[0] in C;
  }

  /** The tick that follows the script's first frame once that frame renders
      (under Python 2, where `keys()` gives a list, or with the intended box of
      Render.BoundingBox), from the grids DriverSetup leaves: it commits the
      next generation of the ship and glider together with the two blocks,
      which that tick never examines. */
  lemma DriverFirstTick(C: set<Cell>, P: set<Cell>)
    requires C == Elems(Lwss(0, 10)) + Elems(Glider(0, 0))
    requires P == C + Elems(Block(15, 15)) + Elems(Block(90, 20))
    ensures TickCells(C, P) == Next(C) + Elems(Block(15, 15)) + Elems(Block(90, 20))
  {
    BlocksCarried(C, P, (0, 10), (0, 0), (15, 15), (90, 20));
  }

  /** Blocks left pending to the right of the committed ship and glider are
      carried through a tick unchanged. */
  lemma BlocksCarried(C: set<Cell>, P: set<Cell>, ship: Cell, glider: Cell, block1: Cell, block2: Cell)
    requires C == Elems(Lwss(ship.0, ship.1)) + Elems(Glider(glider.0, glider.1))
    requires P == C + Elems(Block(block1.0, block1.1)) + Elems(Block(block2.0, block2.1))
    requires ship.0 + 4 < block1.0 && ship.0 + 4 < block2.0
    requires glider.0 + 2 < block1.0 && glider.0 + 2 < block2.0
    ensures TickCells(C, P) == Next(C) + Elems(Block(block1.0, block1.1)) + Elems(Block(block2.0, block2.1))
  {
    var X := Elems(Block(block1.0, block1.1)) + Elems(Block(block2.0, block2.1));
    LwssSpan(ship.0, ship.1);
    GliderSpan(glider.0, glider.1);
    BlockSpan(block1.0, block1.1);
    BlockSpan(block2.0, block2.1);
    assert X !! C;
    StalePendingCarried(C, X);
  }

  lemma LwssSpan(x: int, y: int)
    ensures forall c | c in Elems(Lwss(x, y)) :: x <= c.0 <= x + 4
  {
  }

  lemma GliderSpan(x: int, y: int)
    ensures forall c | c in Elems(Glider(x, y)) :: x <= c.0 <= x + 2
  {
  }

  lemma BlockSpan(x: int, y: int)
    ensures forall c | c in Elems(Block(x, y)) :: x <= c.0 <= x + 1
  {
  }
}
