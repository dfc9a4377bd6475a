# Gesture-unlock grid (DrawCircle) in Dafny

A verified model of the 3×3 gesture-unlock widget `DrawCircle`. The widget lays
out nine circles in row-major order. A press or a drag over an unselected circle
selects it and appends `index,` to a text buffer. Releasing clears every
selection and the buffer. Each frame draws the nine circles, each with the
selected or the normal paint. It then draws the trace: the buffer is split at the
commas and parsed back into indices, consecutive centres are joined, and while
the gesture is not finished a "rubber band" segment runs from the last centre to
the finger.

Modules, one concern each:

- `Layout` (`layout.dfy`): the constants (diameter 200, radius `200 >> 1` = 100,
  spacing 100, stroke 10), the centre formula, the `Cell` value and the
  strict inside-the-circle test. It proves that the circles never overlap.
- `TraceText` (`trace.dfy`): the comma-terminated buffer text (`Encode`), Java's
  `String.split(",")` (trailing empty fields dropped, whole input returned when
  there is no comma), `Integer.valueOf` on decimal fields, and the round trip.
- `Grid` (`grid.dfy`): the selection state as values. It holds the hit-test
  specification (`FirstHit`), the press/move step (`Press`), the release step
  (`Release`) and the gesture invariant (`Consistent`: no repeats in the trace,
  and a cell is selected exactly when its index is in the trace).
- `Render` (`render.dfy`): paints, segments and circles as values; the polyline
  through the trace and the frame's lines (`Lines`).
- `GestureView` (`view.dfy`): the class `DrawCircle`. It has a constant
  `cells: array<Cell>`, the text `buffer`, a ghost `trace` of indices kept
  equal to what the buffer spells, the cursor `curX`/`curY`, the `finish` flag
  and a ghost counter of redraw requests. Touch handling modifies the object;
  the draw pass only reads it.
- `Scenarios` (`scenarios.dfy`): client gestures, whole ones, checked through
  the contracts alone. They cover: press in cell 0, move into cell 1, release;
  revisiting cell 0 is ignored; a press outside every circle only moves the cursor.

Two behaviours of the code shape the model:
- An action other than press, move or release requests no redraw, because the
  code calls `invalidate()` only on those three paths.
- The finished flag is never set to true. The model keeps the flag and its test
  in the draw pass. `OnTouchEvent` proves that a false flag stays false.

## Model

| member | source | states |
|---|---|---|
| Layout.CentreLattice | app/src/main/java/com/example/xjs20221002gesturepassworddemo/DrawCircle.java:53-83 | the centres are indexed row-major, i = 3·row + column, and the radius is 100 |
| Layout.CentreExamples | app/src/main/java/com/example/xjs20221002gesturepassworddemo/DrawCircle.java:76-82 | cell 0 is centred at (200,200), cell 4 at (500,500), cell 8 at (800,800) |
| Layout.CenterX | app/src/main/java/com/example/xjs20221002gesturepassworddemo/DrawCircle.java:77 | the horizontal centre of cell i is 200 + 300·column: the columns sit 300 apart, the first 200 in |
| Layout.CenterY | app/src/main/java/com/example/xjs20221002gesturepassworddemo/DrawCircle.java:78 | the vertical centre of cell i is 200 + 300·row |
| Layout.Inside | app/src/main/java/com/example/xjs20221002gesturepassworddemo/DrawCircle.java:189-194 | the strict squared-distance test; a point that passes it is less than one radius from the centre on both axes |
| Layout.CirclesDisjoint | app/src/main/java/com/example/xjs20221002gesturepassworddemo/DrawCircle.java:185-194 | with the default constants no point lies strictly inside two circles |
| Grid.CentreHits | app/src/main/java/com/example/xjs20221002gesturepassworddemo/DrawCircle.java:179-197 | touching the very centre of an unselected cell makes the hit-test return that cell |
| Grid.HitFrom | app/src/main/java/com/example/xjs20221002gesturepassworddemo/DrawCircle.java:179-198 | the scan from index `from` returns -1 or an index at or after `from`; the index is unselected and contains the point; no earlier scanned cell does |
| Grid.FirstHit | app/src/main/java/com/example/xjs20221002gesturepassworddemo/DrawCircle.java:174-201 | the hit-test returns -1 or a cell index; that cell is unselected and strictly contains the point, no lower-indexed cell is such a hit, and -1 is returned exactly when no unselected cell contains the point |
| Grid.HitIsUnique | app/src/main/java/com/example/xjs20221002gesturepassworddemo/DrawCircle.java:179-197 | on the laid-out grid, any unselected cell containing the point is the one the hit-test returns |
| Grid.InsideSelectedMisses | app/src/main/java/com/example/xjs20221002gesturepassworddemo/DrawCircle.java:180-182 | a point inside an already-selected circle is no hit at all, so no duplicate can be added |
| Grid.PlacedClearOfMargin | app/src/main/java/com/example/xjs20221002gesturepassworddemo/DrawCircle.java:76-82 | every centre the initialisation loop places is at least two radii from the left edge |
| Grid.LeftMarginMisses | app/src/main/java/com/example/xjs20221002gesturepassworddemo/DrawCircle.java:189-197 | a point within one radius of the left edge misses every circle whose centre is two radii in, so on the laid-out grid the hit-test finds nothing |
| Grid.Press | app/src/main/java/com/example/xjs20221002gesturepassworddemo/DrawCircle.java:162-166 | the press step keeps nine cells and every centre, and the trace only grows, by at most one index at its end |
| Grid.PressEffect | app/src/main/java/com/example/xjs20221002gesturepassworddemo/DrawCircle.java:162-166 | on a hit exactly the found cell becomes selected (it was not before) and its index is appended to the end of the trace; on a miss cells and trace are unchanged; no other cell changes and no centre moves |
| Grid.PressKeepsConsistent | app/src/main/java/com/example/xjs20221002gesturepassworddemo/DrawCircle.java:162-166 | the cell a press selects is not already in the trace, and the trace stays free of repeats and names exactly the selected cells |
| Grid.InitialGrid | app/src/main/java/com/example/xjs20221002gesturepassworddemo/DrawCircle.java:76-82 | the cells the initialisation loop creates are laid out, and with the empty trace they satisfy the gesture invariant (none is selected) |
| Grid.Release | app/src/main/java/com/example/xjs20221002gesturepassworddemo/DrawCircle.java:136-138 | after release every cell is unselected and otherwise unchanged |
| Grid.ReleaseConsistent | app/src/main/java/com/example/xjs20221002gesturepassworddemo/DrawCircle.java:135-142 | released cells with the empty trace satisfy the gesture invariant, and the centres stay in place |
| Grid.SelectedCount | app/src/main/java/com/example/xjs20221002gesturepassworddemo/DrawCircle.java:135-166 | under the gesture invariant the number of selected cells equals the trace length, which is at most 9 |
| TraceText.Encode | app/src/main/java/com/example/xjs20221002gesturepassworddemo/DrawCircle.java:165 | the buffer text has two characters per index and contains a comma whenever the trace is non-empty |
| TraceText.EncodeAppend | app/src/main/java/com/example/xjs20221002gesturepassworddemo/DrawCircle.java:165 | appending an index to the trace appends its digit and a comma to the text |
| TraceText.EncodeEmpty | app/src/main/java/com/example/xjs20221002gesturepassworddemo/DrawCircle.java:94-96 | the text is empty exactly when the trace is empty |
| TraceText.Fields | app/src/main/java/com/example/xjs20221002gesturepassworddemo/DrawCircle.java:97 | cutting at commas gives at least one field, no field contains a comma, and text without a comma is its own single field |
| TraceText.Split | app/src/main/java/com/example/xjs20221002gesturepassworddemo/DrawCircle.java:97 | splitting at the commas gives fields without commas, returns comma-free text whole, and otherwise never ends in an empty field |
| TraceText.DropTrailingEmpty | app/src/main/java/com/example/xjs20221002gesturepassworddemo/DrawCircle.java:97 | the result is a prefix of the fields, does not end in an empty field, and only empty fields were removed |
| TraceText.ValueOf | app/src/main/java/com/example/xjs20221002gesturepassworddemo/DrawCircle.java:98 | a field is read as a number exactly when it is a non-empty run of decimal digits, and the number is non-negative |
| TraceText.ParseFields | app/src/main/java/com/example/xjs20221002gesturepassworddemo/DrawCircle.java:97-104 | a successful parse yields one index per field |
| TraceText.Parse | app/src/main/java/com/example/xjs20221002gesturepassworddemo/DrawCircle.java:97-104 | parsing the buffer gives one index per split field and never an empty list, since line 98 reads the first field unconditionally; the empty text never parses |
| TraceText.FieldsEncode | app/src/main/java/com/example/xjs20221002gesturepassworddemo/DrawCircle.java:97 | cutting the buffer text at the commas gives one single-digit field per index, then one empty field |
| TraceText.ParseDigitFields | app/src/main/java/com/example/xjs20221002gesturepassworddemo/DrawCircle.java:98-104 | reading single-digit fields gives back the indices they were written from |
| TraceText.ParseEncode | app/src/main/java/com/example/xjs20221002gesturepassworddemo/DrawCircle.java:94-104 | round trip: for a non-empty trace, splitting its text drops the trailing empty field, and parsing gives back exactly the trace in order |
| TraceText.ParseEmptyFails | app/src/main/java/com/example/xjs20221002gesturepassworddemo/DrawCircle.java:94-98 | the empty buffer splits into one empty field, which cannot be parsed; this is why the draw pass checks for it first |
| TraceText.CommasOnlyFail | app/src/main/java/com/example/xjs20221002gesturepassworddemo/DrawCircle.java:97-98 | text made only of commas splits into no fields at all, so reading the first field fails and the text does not parse |
| Render.Chain | app/src/main/java/com/example/xjs20221002gesturepassworddemo/DrawCircle.java:101-109 | the polyline has one segment fewer than the trace has indices |
| Render.ChainAt | app/src/main/java/com/example/xjs20221002gesturepassworddemo/DrawCircle.java:101-109 | segment j joins the centres of trace[j] and trace[j+1] |
| Render.Lines | app/src/main/java/com/example/xjs20221002gesturepassworddemo/DrawCircle.java:93-115 | the frame's lines number none for an empty trace, otherwise one fewer than the trace when finished and as many as the trace when not |
| Render.LinesShape | app/src/main/java/com/example/xjs20221002gesturepassworddemo/DrawCircle.java:93-115 | an empty trace draws nothing; otherwise the frame draws the k-1 joins in trace order, then a segment from the last centre to the cursor exactly when not finished |
| Render.PaintFor | app/src/main/java/com/example/xjs20221002gesturepassworddemo/DrawCircle.java:119-120 | the selected paint is chosen exactly for a selected cell, and both paints have the stroke width 10 |
| GestureView.DrawCircle.constructor | app/src/main/java/com/example/xjs20221002gesturepassworddemo/DrawCircle.java:37-83 | initialisation places nine unselected cells at their layout centres, with an empty buffer and trace and an unfinished gesture; the object invariant holds |
| GestureView.DrawCircle.FindCellIndex | app/src/main/java/com/example/xjs20221002gesturepassworddemo/DrawCircle.java:174-201 | the scan loop with early exit returns the hit-test's result, -1 or an index below 9 |
| GestureView.DrawCircle.DrawLineTo | app/src/main/java/com/example/xjs20221002gesturepassworddemo/DrawCircle.java:161-171 | a press or move performs the press step on cells and trace, appends the found index's digit and a comma to the buffer on a hit, moves the cursor to (x, y), requests one redraw, and keeps the invariant |
| GestureView.DrawCircle.OnTouchEvent | app/src/main/java/com/example/xjs20221002gesturepassworddemo/DrawCircle.java:127-159 | press and move perform the press step and return true; release clears every cell, the buffer and the trace, resets the finished flag and returns false; any other action changes nothing and returns true; every action keeps the invariant, keeps a false finished flag false, and leaves the selected count equal to the trace length (at most 9) |
| GestureView.DrawCircle.DrawLine | app/src/main/java/com/example/xjs20221002gesturepassworddemo/DrawCircle.java:93-115 | the line pass checks for the empty buffer, parses the rest back into indices, and draws exactly the frame's lines for the current trace, flag and cursor |
| GestureView.DrawCircle.JoinCentres | app/src/main/java/com/example/xjs20221002gesturepassworddemo/DrawCircle.java:98-109 | the loop of the line pass yields exactly the polyline through the parsed indices and ends at the centre of the last one |
| GestureView.DrawCircle.DrawCell | app/src/main/java/com/example/xjs20221002gesturepassworddemo/DrawCircle.java:117-123 | nine circles at the layout centres with radius 100; circle i has the selected paint exactly when cell i is selected, and so exactly when i is in the trace |
| GestureView.DrawCircle.OnDraw | app/src/main/java/com/example/xjs20221002gesturepassworddemo/DrawCircle.java:85-90 | a frame draws the nine circles at the layout centres with radius 100 and the selection-dependent paint, then the frame's lines |

## Left out

- The Android view machinery is not modelled. This covers the `Context` and `AttributeSet` constructor arguments, `super.onDraw` and the `Canvas` calls. The model returns circle and segment values instead of drawing them. `invalidate()` becomes a ghost counter of redraw requests.
- `MotionEvent` decoding is abstracted to an action kind (`Down`, `Move`, `Up`, `Other`) and the two coordinates. `ACTION_CANCEL` and every other action code fall under `Other`.
- `handleDownEvent` and `handleMoveEvent` are one-line forwarders to `drawLine(x, y)`; `OnTouchEvent` calls `DrawLineTo` directly.
- Float arithmetic is not modelled: coordinates are exact reals. The test `sqrt(dx² + dy²) < radius` becomes `dx² + dy² < radius²`, the same comparison without rounding.
- Segments carry no paint: every line of the trace is drawn with the selected paint, so the model leaves it implicit.
- `Paint` objects are reduced to a colour and a stroke width. Both paints are outlined and anti-aliased, so those two settings are not represented.
- TraceText.ValueOf: reads only unsigned decimal fields. The signed forms and `int` overflow that `Integer.valueOf` also handles never occur in the buffer, which holds only the digits 0 to 8.
- TraceText.Split: only splitting at a comma is modelled, not general regular-expression splitting.
- TraceText.Parse: `None` stands for the exceptions the drawing code would raise on a malformed buffer (`NumberFormatException`, an index outside the cell array, and the index 0 into a zero-length split of a text made only of commas). `ParseEncode` shows that a buffer the widget wrote never takes that path.
- The initial capacity (20) of the `StringBuffer` is not modelled; it affects no behaviour.
- The unused setters `setCenterX` and `setCenterY` are not modelled. No centre changes after initialisation, and `Valid()` states this.
