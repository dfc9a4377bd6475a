/**
 * Geometry of the 3x3 gesture grid: the hard-coded size constants, the
 * row-major placement of the nine circle centres, and the "point strictly
 * inside a circle" test used by hit-testing.
 */
module Layout {

  /** Diameter of one circle (DEFAULT_CELL_WIDTH). */
  const CellWidth: int := 200
  /** Border thickness of every circle (DEFAULT_CELL_STROKE_WIDTH). */
  const CellStrokeWidth: int := 10
  /** Blank space around and between circles (DEFAULT_SPACE). */
  const Space: int := 100
  /** The radius is the diameter shifted right by one bit; on a non-negative int that halves it. */
  const CellRadius: int := CellWidth / 2

  /** The grid has nine cells, numbered left to right, top to bottom. */
  type CellIndex = i: int | 0 <= i < 9

  function Column(i: CellIndex): (c: int)
    ensures 0 <= c < 3
  {
    i % 3
  }

  function Row(i: CellIndex): (r: int)
    ensures 0 <= r < 3
  {
    i / 3
  }

  /**
   * Horizontal centre of cell i, as computed by the initialisation loop: with
   * the default constants the columns sit 300 apart, the first 200 in.
   */
  function CenterX(i: CellIndex): (x: int)
    ensures x == 200 + 300 * Column(i)
  {
    Space * (Column(i) + 1) + CellRadius + CellWidth * Column(i)
  }

  /** Vertical centre of cell i, as computed by the initialisation loop: rows 300 apart, the first 200 in. */
  function CenterY(i: CellIndex): (y: int)
    ensures y == 200 + 300 * Row(i)
  {
    Space * (Row(i) + 1) + CellRadius + CellWidth * Row(i)
  }

  /**
   * The lattice the centres sit on (CenterX, CenterY) is indexed row-major:
   * the index is recovered as 3 * row + column, and the radius is 100.
   */
  lemma CentreLattice(i: CellIndex)
    ensures i == 3 * Row(i) + Column(i)
    ensures CellRadius == 100
  {
  }

  /** The three reference points: the corners and the middle of the grid. */
  lemma CentreExamples()
    ensures CenterX(0) == 200 && CenterY(0) == 200
    ensures CenterX(4) == 500 && CenterY(4) == 500
    ensures CenterX(8) == 800 && CenterY(8) == 800
  {
  }

  /** One cell of the grid: a fixed centre and a selection flag. */
  datatype Cell = Cell(centerX: real, centerY: real, selected: bool)

  /** The cell that initialisation places at index i: centred per the layout, not selected. */
  function InitialCell(i: CellIndex): (c: Cell)
  {
    Cell(CenterX(i) as real, CenterY(i) as real, false)
  }

  /**
   * (x, y) lies strictly inside the circle centred at (cx, cy): the distance
   * test sqrt(dx*dx + dy*dy) < radius, squared. Such a point is less than one
   * radius from the centre on both axes.
   */
  predicate Inside(cx: real, cy: real, x: real, y: real)
    ensures Inside(cx, cy, x, y) ==> -(CellRadius as real) < cx - x < CellRadius as real
    ensures Inside(cx, cy, x, y) ==> -(CellRadius as real) < cy - y < CellRadius as real
  {
    var dx := cx - x;
    var dy := cy - y;
    if dx * dx + dy * dy < (CellRadius as real) * (CellRadius as real) then
      WithinRadius(dx, dy);
      true
    else
      false
  }

  /** An offset within the circle's squared radius is within one radius of the centre on both axes. */
  lemma WithinRadius(dx: real, dy: real)
    requires dx * dx + dy * dy < (CellRadius as real) * (CellRadius as real)
    ensures -(CellRadius as real) < dx < CellRadius as real
    ensures -(CellRadius as real) < dy < CellRadius as real
  {
    var r := CellRadius as real;
    assert dx * dx >= 0.0 && dy * dy >= 0.0;
    assert (r - dx) * (r + dx) > 0.0;
    assert (r - dy) * (r + dy) > 0.0;
  }

  /** Two cells whose centres are closer than a diameter in both directions are the same cell. */
  lemma {:induction false} CloseCentres(i: CellIndex, j: CellIndex)
    requires -2.0 * (CellRadius as real) < (CenterX(i) as real) - (CenterX(j) as real) < 2.0 * (CellRadius as real)
    requires -2.0 * (CellRadius as real) < (CenterY(i) as real) - (CenterY(j) as real) < 2.0 * (CellRadius as real)
    ensures i == j
  {
    CentreLattice(i);
    CentreLattice(j);
  }

  /**
   * With the default constants no point lies inside two circles: the
   * centres are 300 apart and the radius is 100.
   */
  lemma {:induction false} CirclesDisjoint(i: CellIndex, j: CellIndex, x: real, y: real)
    requires Inside(CenterX(i) as real, CenterY(i) as real, x, y)
    requires Inside(CenterX(j) as real, CenterY(j) as real, x, y)
    ensures i == j
  {
    CloseCentres(i, j);
  }

  /** A point at least one radius left or right of a centre is outside that circle. */
  lemma FarOutside(cx: real, cy: real, x: real, y: real)
    requires cx - x >= CellRadius as real || x - cx >= CellRadius as real
    ensures !Inside(cx, cy, x, y)
  {
    var r := CellRadius as real;
    var dx, dy := cx - x, cy - y;
    assert (dx - r) * (dx + r) >= 0.0;
    assert dy * dy >= 0.0;
  }
}
