/**
 * What one frame draws, as values: a circle per cell with the paint its
 * selection flag calls for, and the line segments of the trace.
 */
module Render {
  import opened Layout

  datatype Color = White | Cyan

  /** A stroke paint; both paints of the grid are outlined and anti-aliased. */
  datatype Paint = Paint(color: Color, strokeWidth: int)

  /** The paint of an unselected circle. */
  const NormalPaint: Paint := Paint(White, CellStrokeWidth)
  /** The paint of a selected circle and of every line segment. */
  const SelectedPaint: Paint := Paint(Cyan, CellStrokeWidth)

  /** A straight line from (fromX, fromY) to (toX, toY), drawn with the selected paint. */
  datatype Segment = Segment(fromX: real, fromY: real, toX: real, toY: real)

  /** A circle outline of the given radius and paint. */
  datatype Circle = Circle(centerX: real, centerY: real, radius: real, paint: Paint)

  /** The segment between the centres of cells a and b. */
  function Join(a: CellIndex, b: CellIndex): (seg: Segment)
  {
    Segment(CenterX(a) as real, CenterY(a) as real, CenterX(b) as real, CenterY(b) as real)
  }

  /** The polyline through the centres of the cells of t, one segment per consecutive pair. */
  function Chain(t: seq<CellIndex>): (segs: seq<Segment>)
    ensures |segs| == if t == [] then 0 else |t| - 1
  {
    if |t| < 2 then [] else Chain(t[..|t| - 1]) + [Join(t[|t| - 2], t[|t| - 1])]
  }

  /** Segment j of the polyline joins the centres of the j-th and (j+1)-th traced cells. */
  lemma {:induction false} ChainAt(t: seq<CellIndex>, j: nat)
    requires j + 1 < |t|
    ensures Chain(t)[j] == Join(t[j], t[j + 1])
  {
    if j + 2 < |t| {
      var p := t[..|t| - 1];
      ChainAt(p, j);
      assert p[j] == t[j] && p[j + 1] == t[j + 1];
    }
  }

  /** Extending a trace prefix by one index extends its polyline by the join to that index. */
  lemma ChainStep(t: seq<CellIndex>, i: nat)
    requires 1 <= i < |t|
    ensures Chain(t[..i + 1]) == Chain(t[..i]) + [Join(t[i - 1], t[i])]
  {
    assert t[..i + 1][..i] == t[..i];
  }

  /**
   * The lines of one frame: nothing for an empty trace; otherwise the
   * polyline through the traced centres and, while the gesture is not
   * finished, a last segment from the final traced centre to the cursor.
   */
  function Lines(t: seq<CellIndex>, finish: bool, curX: real, curY: real): (segs: seq<Segment>)
    ensures |segs| == if t == [] then 0 else if finish then |t| - 1 else |t|
  {
    if t == [] then []
    else
      var last := t[|t| - 1];
      Chain(t) + (if finish then [] else [Segment(CenterX(last) as real, CenterY(last) as real, curX, curY)])
  }

  /**
   * A proof step for the line pass: the frame's lines for a non-empty trace,
   * unfolded into the polyline and the optional segment to the cursor.
   */
  lemma LinesOfTrace(t: seq<CellIndex>, finish: bool, curX: real, curY: real)
    requires t != []
    ensures finish ==> Lines(t, finish, curX, curY) == Chain(t)
    ensures !finish ==>
      Lines(t, finish, curX, curY) ==
      Chain(t) + [Segment(CenterX(t[|t| - 1]) as real, CenterY(t[|t| - 1]) as real, curX, curY)]
  {
  }

  /**
   * The shape of the frame's lines: nothing for an empty trace; otherwise
   * |t| - 1 joins in trace order, then the rubber band to the cursor exactly
   * when the gesture is not finished.
   */
  lemma LinesShape(t: seq<CellIndex>, finish: bool, curX: real, curY: real)
    ensures t == [] ==> Lines(t, finish, curX, curY) == []
    ensures t != [] ==>
      var segs := Lines(t, finish, curX, curY);
      |segs| == (if finish then |t| - 1 else |t|) &&
      (forall j :: 0 <= j < |t| - 1 ==> segs[j] == Join(t[j], t[j + 1])) &&
      (!finish ==> segs[|t| - 1] == Segment(CenterX(t[|t| - 1]) as real, CenterY(t[|t| - 1]) as real, curX, curY))
  {
    var segs := Lines(t, finish, curX, curY);
    forall j | 0 <= j < |t| - 1
      ensures segs[j] == Join(t[j], t[j + 1])
    {
      ChainAt(t, j);
    }
  }

  /** The paint a circle gets from its cell's selection flag. */
  function PaintFor(selected: bool): (p: Paint)
    ensures p == SelectedPaint <==> selected
    ensures p.strokeWidth == CellStrokeWidth
  {
    if selected then SelectedPaint else NormalPaint
  }
}
