/**
 * The gesture-unlock widget itself: the nine cells, the text buffer of the
 * trace, the cursor and the finished flag, updated by touch events and read
 * by the draw pass.
 */
module GestureView {
  import opened Layout
  import opened TraceText
  import opened Grid
  import opened Render

  /** The kinds of touch action the widget tells apart. */
  datatype Action = Down | Move | Up | Other

  class DrawCircle {
    /** The nine cells; the array itself is fixed for the widget's lifetime. */
    const cells: array<Cell>
    /** The selection buffer: "i," appended per selected cell. */
    var buffer: string
    /** The indices the buffer spells out, in selection order. */
    ghost var trace: seq<CellIndex>
    /** The last pointer position seen by a press or move. */
    var curX: real
    var curY: real
    /** The gesture-finished flag; nothing ever sets it to true. */
    var finish: bool
    /** How many redraws have been requested. */
    ghost var redraws: nat

    /**
     * The object invariant: the cells sit at their layout centres, the trace
     * has no repeats and names exactly the selected cells, and the buffer is
     * the text of the trace.
     */
    ghost predicate Valid()
      reads this, cells
    {
      Placed(cells[..]) && Consistent(cells[..], trace) && buffer == Encode(trace)
    }

    /** Initialisation: nine unselected cells laid out in row-major order, an empty trace. */
    constructor ()
      ensures Valid() && fresh(cells)
      ensures cells[..] == InitialGrid()
      ensures trace == [] && buffer == [] && !finish
      ensures curX == 0.0 && curY == 0.0 && redraws == 0
    {
      var a := new Cell[9];
      for i := 0 to 9
        invariant forall j :: 0 <= j < i ==> a[j] == InitialCell(j)
      {
        a[i] := Cell(CenterX(i) as real, CenterY(i) as real, false);
      }
      cells := a;
      buffer := [];
      trace := [];
      curX, curY := 0.0, 0.0;
      finish := false;
      redraws := 0;
    }

    /**
     * The hit-test: scans the cells in index order, skips selected ones, and
     * stops at the first whose circle strictly contains (x, y).
     */
    method FindCellIndex(x: real, y: real) returns (index: int)
      requires Valid()
      ensures index == FirstHit(cells[..], x, y)
      ensures index == -1 || 0 <= index < 9
    {
      index := -1;
      ghost var s := cells[..];
      var i := 0;
      while i < 9
        invariant 0 <= i <= 9
        invariant index == -1
        invariant forall j :: 0 <= j < i ==> !Hit(s[j], x, y)
      {
        assert s[i] == cells[i];
        if cells[i].selected {
          assert !Hit(s[i], x, y);
          i := i + 1;
          continue;
        }
        var dx := cells[i].centerX - x;
        var dy := cells[i].centerY - y;
        var inside := dx * dx + dy * dy < (CellRadius as real) * (CellRadius as real);
        assert inside == Hit(s[i], x, y);
        if inside {
          index := i;
          break;
        }
        i := i + 1;
      }
    }

    /**
     * A press or move at (x, y): on a hit the cell is selected and "index,"
     * appended to the buffer; in every case a redraw is requested and the
     * cursor moves to (x, y).
     */
    method DrawLineTo(x: real, y: real)
      requires Valid()
      modifies this, cells
      ensures Valid()
      ensures (cells[..], trace) == Press(old(cells[..]), old(trace), x, y)
      ensures var h := FirstHit(old(cells[..]), x, y);
        if h == -1 then buffer == old(buffer) else buffer == old(buffer) + [Digit(h), ',']
      ensures curX == x && curY == y
      ensures finish == old(finish) && redraws == old(redraws) + 1
    {
      var index := FindCellIndex(x, y);
      PressKeepsConsistent(cells[..], trace, x, y);
      if index != -1 {
        cells[index] := cells[index].(selected := true);
        EncodeAppend(trace, index);
        buffer := buffer + [Digit(index), ','];
        trace := trace + [index];
      }
      redraws := redraws + 1;
      curX := x;
      curY := y;
    }

    /**
     * The touch entry point. Press and move run the hit-and-append step and
     * report the event consumed; release clears every cell, empties the
     * buffer, resets the finished flag and reports it not consumed; any
     * other action changes nothing and reports it consumed.
     */
    method OnTouchEvent(action: Action, x: real, y: real) returns (consumed: bool)
      requires Valid()
      modifies this, cells
      ensures Valid()
      ensures consumed <==> !action.Up?
      ensures action.Down? || action.Move? ==>
        (cells[..], trace) == Press(old(cells[..]), old(trace), x, y) &&
        curX == x && curY == y && finish == old(finish) && redraws == old(redraws) + 1
      ensures action.Up? ==>
        cells[..] == Release(old(cells[..])) && trace == [] && buffer == [] && !finish &&
        curX == old(curX) && curY == old(curY) && redraws == old(redraws) + 1
      ensures action.Other? ==> unchanged(this) && unchanged(cells)
      ensures old(!finish) ==> !finish
      ensures |SelectedSet(cells[..])| == |trace| <= 9
    {
      match action {
        case Down =>
          DrawLineTo(x, y);
          consumed := true;
        case Move =>
          DrawLineTo(x, y);
          consumed := true;
        case Up =>
          for i := 0 to 9
            modifies cells
            invariant forall j :: 0 <= j < i ==> cells[j] == old(cells[j]).(selected := false)
            invariant forall j :: i <= j < 9 ==> cells[j] == old(cells[j])
          {
            cells[i] := cells[i].(selected := false);
          }
          finish := false;
          buffer := [];
          trace := [];
          redraws := redraws + 1;
          ReleaseConsistent(old(cells[..]));
          assert cells[..] == Release(old(cells[..]));
          consumed := false;
        case Other =>
          consumed := true;
      }
      SelectedCount(cells[..], trace);
    }

    /**
     * The line pass of a frame: an empty buffer draws nothing; otherwise the
     * buffer is split and parsed back into indices, consecutive centres are
     * joined, and while not finished a last segment runs to the cursor.
     */
    method DrawLine() returns (segs: seq<Segment>)
      requires Valid()
      ensures segs == Lines(trace, finish, curX, curY)
    {
      if buffer == [] {
        assert trace == [];
        return [];
      }
      ParseEncode(trace);
      var indexes := Parse(buffer).value;
      assert indexes == trace;
      var cell;
      segs, cell := JoinCentres(indexes);
      LinesOfTrace(indexes, finish, curX, curY);
      if !finish {
        segs := segs + [Segment(cell.centerX, cell.centerY, curX, curY)];
      }
    }

    /**
     * The loop of the line pass: one segment from each traced cell's centre
     * to the next one's, and the last traced cell, where the rubber band starts.
     */
    method JoinCentres(indexes: seq<CellIndex>) returns (segs: seq<Segment>, cell: Cell)
      requires Placed(cells[..])
      requires indexes != []
      ensures segs == Chain(indexes)
      ensures cell.centerX == CenterX(indexes[|indexes| - 1]) as real
      ensures cell.centerY == CenterY(indexes[|indexes| - 1]) as real
    {
      ghost var s := cells[..];
      cell := cells[indexes[0]];
      segs := [];
      if |indexes| > 1 {
        var i := 1;
        while i < |indexes|
          invariant 1 <= i <= |indexes|
          invariant cell == s[indexes[i - 1]]
          invariant segs == Chain(indexes[..i])
        {
          var next := cells[indexes[i]];
          assert next == s[indexes[i]];
          ChainStep(indexes, i);
          segs := segs + [Segment(cell.centerX, cell.centerY, next.centerX, next.centerY)];
          cell := next;
          i := i + 1;
        }
      }
      assert indexes[..|indexes|] == indexes;
    }

    /** The circle pass of a frame: every cell's circle, selected paint exactly on selected cells. */
    method DrawCell() returns (circles: seq<Circle>)
      requires Valid()
      ensures |circles| == 9
      ensures forall i :: 0 <= i < 9 ==>
        circles[i] == Circle(CenterX(i) as real, CenterY(i) as real, CellRadius as real, PaintFor(cells[i].selected))
      ensures forall i: CellIndex :: circles[i].paint == SelectedPaint <==> i in trace
    {
      circles := [];
      for i := 0 to 9
        invariant |circles| == i
        invariant forall j :: 0 <= j < i ==>
          circles[j] == Circle(CenterX(j) as real, CenterY(j) as real, CellRadius as real, PaintFor(cells[j].selected))
      {
        circles := circles + [Circle(cells[i].centerX, cells[i].centerY, CellRadius as real,
                                     if cells[i].selected then SelectedPaint else NormalPaint)];
      }
    }

    /** One frame: the circles first, then the lines. */
    method OnDraw() returns (circles: seq<Circle>, segs: seq<Segment>)
      requires Valid()
      ensures |circles| == 9
      ensures forall i :: 0 <= i < 9 ==>
        circles[i] == Circle(CenterX(i) as real, CenterY(i) as real, CellRadius as real, PaintFor(cells[i].selected))
      ensures forall i: CellIndex :: circles[i].paint == SelectedPaint <==> i in trace
      ensures segs == Lines(trace, finish, curX, curY)
    {
      circles := DrawCell();
      segs := DrawLine();
    }
  }
}
