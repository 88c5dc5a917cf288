/**
 The rendering support of the engine: the rectangle of the committed grid
 that a frame shows. It is the smallest axis-aligned box that covers every
 live cell and the origin.
 */
module Render {
  import opened Life
  import opened SparseGrid

  datatype Box = Box(lowX: int, lowY: int, highX: int, highY: int)

  predicate Covers(b: Box, c: Cell) {
    b.lowX <= c.0 <= b.highX && b.lowY <= c.1 <= b.highY
  }

  /** The smaller of `start` and every element of `s`, as Python's `min`
      over a list holding `start` and the elements of `s`. */
  method MinWith(start: int, s: set<int>) returns (m: int)
    ensures m <= start && forall k | k in s :: m <= k
    ensures m == start || m in s
  {
    m := start;
    var rest := s;
    while rest != {}
      invariant rest <= s
      invariant m <= start && forall k | k in s && k !in rest :: m <= k
      invariant m == start || m in s
      decreases rest
    {
      var k := Pick(rest);
      if k < m {
        m := k;
      }
      rest := rest - {k};
    }
  }

  /** The larger of `start` and every element of `s`, as Python's `max`. */
  method MaxWith(start: int, s: set<int>) returns (m: int)
    ensures m >= start && forall k | k in s :: m >= k
    ensures m == start || m in s
  {
    m := start;
    var rest := s;
    while rest != {}
      invariant rest <= s
      invariant m >= start && forall k | k in s && k !in rest :: m >= k
      invariant m == start || m in s
      decreases rest
    {
      var k := Pick(rest);
      if k > m {
        m := k;
      }
      rest := rest - {k};
    }
  }

  /** The box the frame covers: it starts as the single cell (0, 0) and widens
      over the columns of the committed grid and the rows each column holds.
      Every bound is 0 or is reached by a stored column or live cell, so the
      box is the smallest one covering the origin and all live cells. */
  method BoundingBox(g: Grid) returns (b: Box)
    ensures Covers(b, (0, 0))
    ensures forall c | c in Cells(g) :: Covers(b, c)
    ensures forall x | x in g :: b.lowX <= x <= b.highX
    ensures b.lowX == 0 || b.lowX in g
    ensures b.highX == 0 || b.highX in g
    ensures b.lowY == 0 || exists c :: c in Cells(g) && c.1 == b.lowY
    ensures b.highY == 0 || exists c :: c in Cells(g) && c.1 == b.highY
    ensures WellFormed(g) && Cells(g) == {} ==> b == Box(0, 0, 0, 0)
  {
    var lowX, lowY, highX, highY := 0, 0, 0, 0;
    var columns := g.Keys;
    while columns != {}
      invariant columns <= g.Keys
      invariant lowX <= 0 <= highX && lowY <= 0 <= highY
      invariant forall x | x in g && x !in columns :: lowX <= x <= highX
      invariant forall c | c in Cells(g) && c.0 !in columns :: lowY <= c.1 <= highY
      invariant lowX == 0 || lowX in g
      invariant highX == 0 || highX in g
      invariant lowY == 0 || exists c :: c in Cells(g) && c.1 == lowY
      invariant highY == 0 || exists c :: c in Cells(g) && c.1 == highY
      invariant columns == g.Keys ==> lowX == lowY == highX == highY == 0
      decreases columns
    {
      var x := Pick(columns);
      if x > highX {
        highX := x;
      }
      if x < lowX {
        lowX := x;
      }
      var oldLowY, oldHighY := lowY, highY;
      lowY := MinWith(lowY, g[x].Keys);
      highY := MaxWith(highY, g[x].Keys);
      if lowY != oldLowY {
        CellsMember(g, x, lowY);
      }
      if highY != oldHighY {
        CellsMember(g, x, highY);
      }
      forall c | c in Cells(g) && c.0 == x ensures lowY <= c.1 <= highY {
        CellsMember(g, c.0, c.1);
      }
      columns := columns - {x};
    }
    b := Box(lowX, lowY, highX, highY);
    if WellFormed(g) && Cells(g) == {} {
      EmptyCellsEmptyGrid(g);
    }
  }

  /** The outcome of the box computation as the script runs it: a box, or the
      exception that aborts the frame. */
  datatype Rendering = Framed(box: Box) | TypeError(message: string)

  /** What lines 87-97 of gol.py do under Python 3, the interpreter the script
      names: the first column visited runs the x updates and then the row
      minimum, which adds a list to the column's key view; Python 3 refuses
      that with a TypeError. Only an empty grid gets through, with the origin
      box. */
  function BoundingBoxAsWritten(g: Grid): (r: Rendering)
    ensures r.Framed? ==> r.box == Box(0, 0, 0, 0)
  {
    if g == map[] then Framed(Box(0, 0, 0, 0))
    else TypeError("can only concatenate list (not \"dict_keys\") to list")
  }

  /** Any committed grid with a live cell makes the code as written fail,
      where the intended box exists for every grid (BoundingBox). */
  lemma AsWrittenFailsOnLiveGrid(g: Grid)
    requires WellFormed(g) && Cells(g) != {}
    ensures BoundingBoxAsWritten(g).TypeError?
  {
    EmptyCellsEmptyGrid(g);
  }

  /** The concrete witness: the grid holding the single live cell (0, 0). */
  lemma AsWrittenCounterexample()
    ensures var g := map[0 := map[0 := 1]];
      WellFormed(g) && Cells(g) == {(0, 0)} && BoundingBoxAsWritten(g).TypeError?
  {
    var g := map[0 := map[0 := 1]];
    CellsMember(g, 0, 0);
    assert Cells(g) == {(0, 0)};
  }
}
