/**
 * Client gestures on the widget, checked through its contracts alone: whole gestures
 * as the host would deliver them.
 */
module Scenarios {
  import opened Layout
  import opened Grid
  import opened GestureView

  /** Press inside cell 0, move into cell 1, release. */
  method PressMoveRelease()
  {
    var v := new DrawCircle();
    CentreExamples();
    HitIsUnique(v.cells[..], 200.0, 200.0, 0);
    var consumed := v.OnTouchEvent(Down, 200.0, 200.0);
    assert consumed && v.trace == [0] && v.cells[0].selected;
    assert v.buffer == "0,";

    HitIsUnique(v.cells[..], 500.0, 200.0, 1);
    consumed := v.OnTouchEvent(Move, 500.0, 200.0);
    assert consumed && v.trace == [0, 1] && v.cells[1].selected;

    consumed := v.OnTouchEvent(Up, 510.0, 220.0);
    assert !consumed && v.trace == [] && v.buffer == [];
    assert forall i :: 0 <= i < 9 ==> !v.cells[i].selected;
  }

  /** Press inside cell 0, then move to another point inside cell 0: the trace stays [0]. */
  method RevisitIgnored()
  {
    var v := new DrawCircle();
    CentreExamples();
    HitIsUnique(v.cells[..], 200.0, 200.0, 0);
    var consumed := v.OnTouchEvent(Down, 200.0, 200.0);
    assert v.trace == [0];

    InsideSelectedMisses(v.cells[..], 250.0, 210.0, 0);
    consumed := v.OnTouchEvent(Move, 250.0, 210.0);
    assert v.trace == [0];
    assert v.curX == 250.0 && v.curY == 210.0;
  }

  /** Press outside every circle: nothing is selected, but the cursor follows the pointer. */
  method PressOutside()
  {
    var v := new DrawCircle();
    PlacedClearOfMargin(v.cells[..]);
    LeftMarginMisses(v.cells[..], 50.0, 700.0);
    var consumed := v.OnTouchEvent(Down, 50.0, 700.0);
    assert v.trace == [] && v.buffer == [];
    assert v.curX == 50.0 && v.curY == 700.0;
    var circles, segs := v.OnDraw();
    assert segs == [];
  }
}
