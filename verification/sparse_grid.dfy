/**
 The sparse storage of one grid of the engine: a nested map from column x to
 row y to the stored state. Only live cells are stored, so a well-formed grid
 holds no 0 and no empty column; its meaning is the set of live coordinates.
 */
module SparseGrid {
  import opened Life

  type Column = map<int, int>
  type Grid = map<int, Column>

  /** Every stored state is 1, and a column is removed once it becomes empty. */
  predicate WellFormed(g: Grid) {
    && (forall x | x in g :: g[x] != map[])
    && (forall x, y | x in g && y in g[x] :: g[x][y] == 1)
  }

  /** The live coordinates a grid stores. */
  function Cells(g: Grid): set<Cell> {
    set x, y | x in g && y in g[x] :: (x, y)
  }

  lemma CellsMember(g: Grid, x: int, y: int)
    ensures (x, y) in Cells(g) <==> x in g && y in g[x]
  {
  }

  /** The stored state at (x, y), 0 when there is none. On a well-formed grid
      this is 1 exactly for the live cells. */
  function Lookup(g: Grid, x: int, y: int): (r: int)
    ensures WellFormed(g) ==> (r == 1 <==> (x, y) in Cells(g))
    ensures WellFormed(g) ==> (r == 0 <==> (x, y) !in Cells(g))
  {
    if x !in g then 0
    else if y !in g[x] then 0
    else g[x][y]
  }

  /** Stores `state` at (x, y), or removes (x, y) when `state` is 0, dropping
      its column if that leaves the column empty. */
  function SetCell(g: Grid, x: int, y: int, state: int): (r: Grid)
    ensures state == 0 ==> Cells(r) == Cells(g) - {(x, y)}
    ensures state != 0 ==> Cells(r) == Cells(g) + {(x, y)} && Lookup(r, x, y) == state
    ensures forall a, b :: (a, b) != (x, y) ==> Lookup(r, a, b) == Lookup(g, a, b)
    ensures WellFormed(g) && (state == 0 || state == 1) ==> WellFormed(r)
  {
    if state == 0 then
      if x in g && y in g[x] then
        var column := g[x] - {y};
        if |column.Keys| == 0 then g - {x} else g[x := column]
      else g
    else
      var column := if x in g then g[x] else map[];
      g[x := column[y := state]]
  }

  function ColumnsOf(S: set<Cell>): set<int> {
    set c | c in S :: c.0
  }

  function RowsOf(S: set<Cell>, x: int): set<int> {
    set c | c in S && c.0 == x :: c.1
  }

  function ColumnOf(S: set<Cell>, x: int): Column {
    map y | y in RowsOf(S, x) :: 1
  }

  /** The canonical grid storing exactly the cells of S. */
  function FromCells(S: set<Cell>): (g: Grid)
    ensures WellFormed(g)
    ensures Cells(g) == S
  {
    var g := map x | x in ColumnsOf(S) :: ColumnOf(S, x);
    assert forall x | x in g :: g[x] != map[] by {
      forall x | x in g ensures g[x] != map[] {
        var c :| c in S && c.0 == x;
        assert c.1 in g[x];
      }
    }
    assert Cells(g) == S by {
      forall c | c in S ensures c in Cells(g) {
        assert c.0 in ColumnsOf(S) && c.1 in RowsOf(S, c.0);
        CellsMember(g, c.0, c.1);
      }
      forall c | c in Cells(g) ensures c in S {
        var d :| d in S && d.0 == c.0 && d.1 == c.1;
      }
    }
    g
  }

  lemma AnyKey<K, V>(m: map<K, V>) returns (k: K)
    requires m != map[]
    ensures k in m
  {
    k :| k in m;
  }

  /** Some element of a non-empty set; which one is left open, as the
      iteration order of a dictionary is. */
  method Pick<T>(s: set<T>) returns (e: T)
    requires s != {}
    ensures e in s
  {
    e :| e in s;
  }

  lemma EmptyCellsEmptyGrid(g: Grid)
    requires WellFormed(g)
    ensures Cells(g) == {} <==> g == map[]
  {
    if g != map[] {
      var x := AnyKey(g);
      var y := AnyKey(g[x]);
      assert (x, y) in Cells(g);
    }
  }

  /** A well-formed grid is determined by its live cells: the nested map is a
      canonical representation of the set. */
  lemma CellsDetermineGrid(g: Grid, h: Grid)
    requires WellFormed(g) && WellFormed(h)
    requires Cells(g) == Cells(h)
    ensures g == h
  {
    forall x | x in g ensures x in h && g[x] == h[x] {
      var y := AnyKey(g[x]);
      assert (x, y) in Cells(h);
      forall y' ensures y' in g[x] <==> y' in h[x] {
        assert y' in g[x] ==> (x, y') in Cells(g);
        assert y' in h[x] ==> (x, y') in Cells(h);
      }
      assert g[x].Keys == h[x].Keys;
      assert forall y' | y' in g[x] :: g[x][y'] == 1 == h[x][y'];
    }
    forall x | x in h ensures x in g {
      var y := AnyKey(h[x]);
      assert (x, y) in Cells(g);
    }
    assert g.Keys == h.Keys;
  }

  /** Abstraction after concretisation is the identity on well-formed grids. */
  lemma FromCellsRoundTrip(g: Grid)
    requires WellFormed(g)
    ensures FromCells(Cells(g)) == g
  {
    CellsDetermineGrid(FromCells(Cells(g)), g);
  }
}
