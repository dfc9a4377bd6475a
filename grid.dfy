/**
 * The selection state of the grid as plain values: the nine cells, the
 * trace of selected indices, the hit-test that maps a pointer position to a
 * cell, and the two state changes a gesture makes (select on press or move,
 * clear on release).
 */
module Grid {
  import opened Layout

  /** The cell accepts the pointer at (x, y): not yet selected, and the point is strictly inside its circle. */
  predicate Hit(c: Cell, x: real, y: real)
  {
    !c.selected && Inside(c.centerX, c.centerY, x, y)
  }

  /** The nine cells sit at the centres the layout gives them. */
  ghost predicate Placed(cells: seq<Cell>)
  {
    |cells| == 9 &&
    forall i :: 0 <= i < 9 ==> cells[i].centerX == CenterX(i) as real && cells[i].centerY == CenterY(i) as real
  }

  /** No index occurs twice in t. */
  predicate Distinct(t: seq<CellIndex>)
  {
    forall a, b :: 0 <= a < b < |t| ==> t[a] != t[b]
  }

  /**
   * The invariant of a gesture: the trace has no repeated index, and a cell
   * is selected exactly when its index occurs in the trace.
   */
  ghost predicate Consistent(cells: seq<Cell>, t: seq<CellIndex>)
  {
    |cells| == 9 && Distinct(t) &&
    forall i: CellIndex :: cells[i].selected <==> i in t
  }

  /**
   * The scan of cells from index `from` on: the first cell that accepts
   * (x, y), or -1 when none does.
   */
  function HitFrom(cells: seq<Cell>, x: real, y: real, from: nat): (r: int)
    requires from <= |cells|
    ensures r == -1 || from <= r < |cells|
    ensures r != -1 ==> Hit(cells[r], x, y)
    ensures forall j :: from <= j < |cells| && (r == -1 || j < r) ==> !Hit(cells[j], x, y)
    decreases |cells| - from
  {
    if from == |cells| then -1
    else if Hit(cells[from], x, y) then from
    else HitFrom(cells, x, y, from + 1)
  }

  /**
   * The hit-test: the lowest-indexed unselected cell whose circle holds
   * (x, y), or -1 exactly when there is none.
   */
  function FirstHit(cells: seq<Cell>, x: real, y: real): (r: int)
    ensures r == -1 || 0 <= r < |cells|
    ensures r != -1 ==> !cells[r].selected && Inside(cells[r].centerX, cells[r].centerY, x, y)
    ensures r != -1 ==> forall j :: 0 <= j < r ==> !Hit(cells[j], x, y)
    ensures r == -1 <==> forall j :: 0 <= j < |cells| ==> !Hit(cells[j], x, y)
  {
    HitFrom(cells, x, y, 0)
  }

  /**
   * On the laid-out grid the circles do not overlap, so the scan order never
   * decides anything: any unselected cell that holds the point is the one found.
   */
  lemma HitIsUnique(cells: seq<Cell>, x: real, y: real, i: CellIndex)
    requires Placed(cells)
    requires Hit(cells[i], x, y)
    ensures FirstHit(cells, x, y) == i
  {
    var r := FirstHit(cells, x, y);
    assert r != -1;
    CirclesDisjoint(r, i, x, y);
  }

  /** Touching the very centre of an unselected cell selects that cell. */
  lemma CentreHits(cells: seq<Cell>, i: CellIndex)
    requires Placed(cells)
    requires !cells[i].selected
    ensures FirstHit(cells, CenterX(i) as real, CenterY(i) as real) == i
  {
    var c := CenterX(i) as real;
    var d := CenterY(i) as real;
    assert Inside(c, d, c, d);
    HitIsUnique(cells, c, d, i);
  }

  /**
   * A point inside an already-selected circle is not a hit at all: no other
   * circle holds it, and the selected one is skipped.
   */
  lemma {:induction false} InsideSelectedMisses(cells: seq<Cell>, x: real, y: real, i: CellIndex)
    requires Placed(cells)
    requires cells[i].selected
    requires Inside(CenterX(i) as real, CenterY(i) as real, x, y)
    ensures FirstHit(cells, x, y) == -1
  {
    var r := FirstHit(cells, x, y);
    if r != -1 {
      CirclesDisjoint(r, i, x, y);
      assert false;
    }
  }

  /** Every laid-out centre is at least two radii from the left edge. */
  lemma PlacedClearOfMargin(cells: seq<Cell>)
    requires Placed(cells)
    ensures forall j :: 0 <= j < 9 ==> cells[j].centerX >= 2.0 * (CellRadius as real)
  {
    forall j | 0 <= j < 9
      ensures cells[j].centerX >= 2.0 * (CellRadius as real)
    {
      CentreLattice(j);
    }
  }

  /**
   * A point in the left margin (at most one radius from the edge) is outside
   * every circle whose centre is two radii in, which by PlacedClearOfMargin
   * is every circle of the laid-out grid.
   */
  lemma {:induction false} LeftMarginMisses(cells: seq<Cell>, x: real, y: real)
    requires |cells| == 9
    requires forall j :: 0 <= j < 9 ==> cells[j].centerX >= 2.0 * (CellRadius as real)
    requires x <= CellRadius as real
    ensures FirstHit(cells, x, y) == -1
  {
    forall j | 0 <= j < 9
      ensures !Hit(cells[j], x, y)
    {
      FarOutside(cells[j].centerX, cells[j].centerY, x, y);
    }
  }

  /**
   * The cells and trace after a press or move at (x, y). The grid keeps its
   * nine cells and their centres, and the trace only ever grows, by at most
   * one index at its end.
   */
  function Press(cells: seq<Cell>, t: seq<CellIndex>, x: real, y: real): (r: (seq<Cell>, seq<CellIndex>))
    requires |cells| == 9
    ensures |r.0| == 9
    ensures forall i :: 0 <= i < 9 ==> r.0[i].centerX == cells[i].centerX && r.0[i].centerY == cells[i].centerY
    ensures |t| <= |r.1| <= |t| + 1 && r.1[..|t|] == t
  {
    var h := FirstHit(cells, x, y);
    if h == -1 then (cells, t)
    else (cells[h := cells[h].(selected := true)], t + [h])
  }

  /**
   * A press or move selects exactly the cell the hit-test found and appends
   * its index to the end of the trace; on a miss nothing changes. No other
   * cell changes, and centres never move.
   */
  lemma PressEffect(cells: seq<Cell>, t: seq<CellIndex>, x: real, y: real)
    requires |cells| == 9
    ensures var (cells', t') := Press(cells, t, x, y);
      var h := FirstHit(cells, x, y);
      |cells'| == 9 &&
      (h == -1 ==> cells' == cells && t' == t) &&
      (h != -1 ==> cells'[h].selected && !cells[h].selected && t' == t + [h]) &&
      (forall i :: 0 <= i < 9 && i != h ==> cells'[i] == cells[i]) &&
      (forall i :: 0 <= i < 9 ==> cells'[i].centerX == cells[i].centerX && cells'[i].centerY == cells[i].centerY)
  {
  }

  /**
   * Press keeps the gesture invariant: the cell it selects was not in the
   * trace, so the trace stays free of repeats and still names exactly the
   * selected cells.
   */
  lemma {:induction false} PressKeepsConsistent(cells: seq<Cell>, t: seq<CellIndex>, x: real, y: real)
    requires Consistent(cells, t)
    ensures FirstHit(cells, x, y) !in t
    ensures Consistent(Press(cells, t, x, y).0, Press(cells, t, x, y).1)
  {
    var h := FirstHit(cells, x, y);
    if h != -1 {
      assert !cells[h].selected;
      var cells', t' := Press(cells, t, x, y).0, Press(cells, t, x, y).1;
      assert t' == t + [h];
      forall i: CellIndex
        ensures cells'[i].selected <==> i in t'
      {
        assert i in t' <==> i in t || i == h;
      }
      forall a, b | 0 <= a < b < |t'|
        ensures t'[a] != t'[b]
      {
        if b == |t| {
          assert t'[a] == t[a];
        }
      }
    }
  }

  /**
   * The nine cells the initialisation loop creates: laid out, and with the
   * empty trace they satisfy the gesture invariant (nothing is selected).
   */
  function InitialGrid(): (cells: seq<Cell>)
    ensures Placed(cells)
    ensures Consistent(cells, [])
  {
    seq(9, i requires 0 <= i < 9 => InitialCell(i))
  }

  /** The cells after a release: every flag cleared, centres kept. */
  function Release(cells: seq<Cell>): (cells': seq<Cell>)
    ensures |cells'| == |cells|
    ensures forall i :: 0 <= i < |cells| ==> !cells'[i].selected
    ensures forall i :: 0 <= i < |cells| ==> cells'[i] == cells[i].(selected := false)
  {
    seq(|cells|, i requires 0 <= i < |cells| => cells[i].(selected := false))
  }

  /** After a release the empty trace again names exactly the selected cells (none). */
  lemma ReleaseConsistent(cells: seq<Cell>)
    requires |cells| == 9
    ensures Consistent(Release(cells), [])
    ensures Placed(cells) ==> Placed(Release(cells))
  {
  }

  /** The set of selected cell indices. */
  function SelectedSet(cells: seq<Cell>): (sel: set<int>)
  {
    set i | 0 <= i < |cells| && cells[i].selected
  }

  /** The set of indices occurring in t. */
  function Elements(t: seq<CellIndex>): (es: set<int>)
  {
    set k | 0 <= k < |t| :: t[k] as int
  }

  /** A trace without repeats has as many distinct elements as entries. */
  lemma {:induction false} DistinctElements(t: seq<CellIndex>)
    requires Distinct(t)
    ensures |Elements(t)| == |t|
  {
    if t != [] {
      var n := |t| - 1;
      var p := t[..n];
      assert Distinct(p);
      DistinctElements(p);
      assert Elements(t) == Elements(p) + {t[n] as int} by {
        forall e | e in Elements(t) ensures e in Elements(p) + {t[n] as int} {
          var k :| 0 <= k < |t| && e == t[k] as int;
          if k < n {
            assert p[k] == t[k];
          }
        }
      }
      assert t[n] as int !in Elements(p);
    }
  }

  /**
   * Under the gesture invariant the number of selected cells equals the
   * length of the trace, and so the trace never holds more than nine entries.
   */
  lemma {:induction false} SelectedCount(cells: seq<Cell>, t: seq<CellIndex>)
    requires Consistent(cells, t)
    ensures |SelectedSet(cells)| == |t|
    ensures |t| <= 9
  {
    assert SelectedSet(cells) == Elements(t) by {
      forall e | e in Elements(t) ensures e in SelectedSet(cells) {
        var k :| 0 <= k < |t| && e == t[k] as int;
        assert t[k] in t;
      }
      forall i | i in SelectedSet(cells) ensures i in Elements(t) {
        assert cells[i].selected;
        var k :| 0 <= k < |t| && t[k] == i;
      }
    }
    DistinctElements(t);
    var all := {0, 1, 2, 3, 4, 5, 6, 7, 8};
    assert SelectedSet(cells) <= all;
    SubsetSize(SelectedSet(cells), all);
  }

  /** A subset is no larger than the set that contains it. */
  lemma SubsetSize(a: set<int>, b: set<int>)
    requires a <= b
    ensures |a| <= |b|
  {
    assert b == a + (b - a);
  }
}
