/**
 The engine: two sparse grids, the committed generation that every query and
 neighbour count reads, and the pending one that births and kills write. A
 tick kills and births on top of whatever the pending grid holds and then
 commits it.
 */
module Engine {
  import opened Life
  import opened SparseGrid

  /** `committed` is the generation queries see; `pending` collects writes. */
  datatype Game = Game(committed: Grid, pending: Grid)

  predicate Valid(g: Game) {
    WellFormed(g.committed) && WellFormed(g.pending)
  }

  /** Pending equals committed, as right after a commit. */
  predicate Synchronized(g: Game) {
    g.committed == g.pending
  }

  /** A new engine: both grids empty. */
  function NewGame(): (g: Game)
    ensures Valid(g) && Synchronized(g)
    ensures Cells(g.committed) == {}
  {
    Game(map[], map[])
  }

  /** The state of (x, y) in the committed grid: 1 if alive, 0 if not. The
      pending grid plays no part. */
  function Get(g: Game, x: int, y: int): (r: int)
    requires Valid(g)
    ensures r == 0 || r == 1
    ensures r == 1 <==> (x, y) in Cells(g.committed)
  {
    Lookup(g.committed, x, y)
  }

  /** Marks (x, y) alive in the pending grid. */
  function Birth(g: Game, x: int, y: int): (r: Game)
    ensures r.committed == g.committed
    ensures Cells(r.pending) == Cells(g.pending) + {(x, y)}
    ensures Valid(g) ==> Valid(r)
  {
    g.(pending := SetCell(g.pending, x, y, 1))
  }

  /** Removes (x, y) from the pending grid; nothing happens if it is absent. */
  function Kill(g: Game, x: int, y: int): (r: Game)
    ensures r.committed == g.committed
    ensures Cells(r.pending) == Cells(g.pending) - {(x, y)}
    ensures (x, y) !in Cells(g.pending) ==> r == g
    ensures Valid(g) ==> Valid(r)
  {
    g.(pending := SetCell(g.pending, x, y, 0))
  }

  /** Publishes the pending grid: the committed grid becomes a copy of it. */
  function ApplyChanges(g: Game): (r: Game)
    ensures Synchronized(r)
    ensures r.pending == g.pending
    ensures Valid(g) ==> Valid(r) && forall x, y :: Get(r, x, y) == 1 <==> (x, y) in Cells(g.pending)
  {
    Game(g.pending, g.pending)
  }

  lemma BirthIdempotent(g: Game, x: int, y: int)
    ensures Birth(Birth(g, x, y), x, y) == Birth(g, x, y)
  {
    var column := if x in g.pending then g.pending[x] else map[];
    assert column[y := 1][y := 1] == column[y := 1];
  }

  lemma KillIdempotent(g: Game, x: int, y: int)
    ensures Kill(Kill(g, x, y), x, y) == Kill(g, x, y)
  {
  }

  /** A write issued by a caller between commits. */
  datatype Edit = BirthAt(x: int, y: int) | KillAt(x: int, y: int)

  function ApplyEdit(g: Game, e: Edit): Game {
    match e
    case BirthAt(x, y) => Birth(g, x, y)
    case KillAt(x, y) => Kill(g, x, y)
  }

  /** Any sequence of births and kills leaves the committed grid, and so every
      query answer, as it was. */
  function ApplyEdits(g: Game, edits: seq<Edit>): (r: Game)
    ensures r.committed == g.committed
    ensures Valid(g) ==> Valid(r)
    decreases |edits|
  {
    if |edits| == 0 then g else ApplyEdits(ApplyEdit(g, edits[0]), edits[1..])
  }

  /** After a commit, writes to the pending grid are invisible to queries
      until the next commit. */
  lemma CommitIsolation(g: Game, edits: seq<Edit>, x: int, y: int)
    requires Valid(g)
    ensures Get(ApplyEdits(ApplyChanges(g), edits), x, y) == 1 <==> (x, y) in Cells(g.pending)
  {
  }

  /** Sums the states of the eight neighbours of (x, y) in grid `grid`. */
  method CountNeighbors(grid: Grid, x: int, y: int) returns (total: int)
    requires WellFormed(grid)
    ensures total == Neighbors(Cells(grid), (x, y))
    ensures 0 <= total <= 8
  {
    total := 0;
    var i := 0;
    while i < |Offsets|
      invariant 0 <= i <= |Offsets|
      invariant total == CountAt(Cells(grid), (x, y), Offsets[..i])
    {
      CountAtSnoc(Cells(grid), (x, y), Offsets, i);
      var (dx, dy) := Offsets[i];
      total := total + Lookup(grid, x + dx, y + dy);
      i := i + 1;
    }
    assert Offsets[..i] == Offsets;
  }

  /** One step of the dead-neighbour scan: births (nx, ny) if it is dead in
      the committed grid and has exactly three live neighbours there. */
  method BirthIfThree(g: Game, nx: int, ny: int) returns (r: Game)
    requires Valid(g)
    ensures Valid(r) && r.committed == g.committed
    ensures var C := Cells(g.committed);
      Cells(r.pending) == Cells(g.pending) + (if (nx, ny) !in C && Neighbors(C, (nx, ny)) == 3 then {(nx, ny)} else {})
  {
    r := g;
    if Get(g, nx, ny) != 1 {
      var count := CountNeighbors(g.committed, nx, ny);
      if count == 3 {
        r := Birth(g, nx, ny);
      }
    }
  }

  /** Births every dead neighbour of (x, y) that has exactly three live
      neighbours in the committed grid. */
  method CheckDeadNeighbors(g: Game, x: int, y: int) returns (r: Game)
    requires Valid(g)
    ensures Valid(r) && r.committed == g.committed
    ensures Cells(r.pending) == Cells(g.pending) + DeadBirths(Cells(g.committed), (x, y))
  {
    ghost var C := Cells(g.committed);
    r := g;
    var i := 0;
    assert DeadBirthsUpTo(C, (x, y), 0) == {};
    while i < |Offsets|
      invariant 0 <= i <= |Offsets|
      invariant Valid(r) && r.committed == g.committed
      invariant Cells(r.pending) == Cells(g.pending) + DeadBirthsUpTo(C, (x, y), i)
    {
      var n := Shift((x, y), Offsets[i]);
      DeadBirthsUpToStep(C, (x, y), i);
      r := BirthIfThree(r, n.0, n.1);
      i := i + 1;
    }
  }

  /** One generation. Every committed cell, in whatever order the columns and
      rows are visited, is killed in the pending grid when its count is below 2
      or above 3, and then has its qualifying dead neighbours birthed; finally
      the pending grid is committed. The pending grid is not reset first. */
  method Tick(g: Game) returns (r: Game)
    requires Valid(g)
    ensures Valid(r) && Synchronized(r)
    ensures Cells(r.committed) == TickCells(Cells(g.committed), Cells(g.pending))
    ensures Synchronized(g) ==> forall c :: c in Cells(r.committed) <==> LifeRule(Cells(g.committed), c)
  {
    ghost var C := Cells(g.committed);
    ghost var P0 := Cells(g.pending);
    ghost var done: set<Cell> := {};
    var cur := g;
    var columns := g.committed.Keys;
    while columns != {}
      invariant columns <= g.committed.Keys
      invariant Valid(cur) && cur.committed == g.committed
      invariant done <= C
      invariant forall c | c in C :: c in done <==> c.0 !in columns
      invariant Cells(cur.pending) == (P0 - Kills(C, done)) + Births(C, done)
      decreases columns
    {
      var x := Pick(columns);
      var rows := g.committed[x].Keys;
      while rows != {}
        invariant rows <= g.committed[x].Keys
        invariant Valid(cur) && cur.committed == g.committed
        invariant done <= C
        invariant forall c | c in C :: c in done <==> (c.0 !in columns || (c.0 == x && c.1 !in rows))
        invariant Cells(cur.pending) == (P0 - Kills(C, done)) + Births(C, done)
        decreases rows
      {
        var y := Pick(rows);
        CellsMember(g.committed, x, y);
        VisitStep(C, P0, done, (x, y));
        var count := CountNeighbors(g.committed, x, y);
        if count < 2 || count > 3 {
          cur := Kill(cur, x, y);
        }
        cur := CheckDeadNeighbors(cur, x, y);
        done := done + {(x, y)};
        rows := rows - {y};
      }
      columns := columns - {x};
    }
    assert done == C;
    r := ApplyChanges(cur);
    if Synchronized(g) {
      forall c ensures c in Cells(r.committed) <==> LifeRule(C, c) {
        TickIsLife(C, c);
      }
    }
  }
}
