/** The month outline of `get_month_outline` (src/july/helpers.py): the
    cells of a month on the calendar grid are found row by row, and a closed
    nine-vertex staircase polygon is drawn around them. Vertices are (x, y)
    points, x along the weekday axis and y along the week axis of the
    vertical layout, swapped to (y, x) for a horizontal calendar. */
module Outline {
  import opened Base
  import opened Order
  import opened Calendar
  import opened Grids

  type Point = (int, int)

  /** The day grid holds a date at (row y, column x). */
  predicate CellOk(dg: Grid<Date>, y: int, x: int) {
    InGrid(dg, (y, x)) && dg[y][x].Some?
  }

  /** What reading `day_grid[y, x].month` raises when CellOk fails: numpy's
      IndexError outside the array, AttributeError on None. */
  function CellError(dg: Grid<Date>, y: int, x: int): Error {
    if InGrid(dg, (y, x)) then AttributeError else IndexError
  }

  /** The month grid has a finite value at (y, x) that the day grid cannot
      back with a date. */
  predicate Bad(mg: Grid<real>, dg: Grid<Date>, y: int, x: int) {
    0 <= y < |mg| && 0 <= x < |mg[y]| && mg[y][x].Some? && !CellOk(dg, y, x)
  }

  /** (x, y) is a cell with a finite value whose date falls in the month. */
  predicate Selected(mg: Grid<real>, dg: Grid<Date>, month: int, p: Point) {
    0 <= p.1 < |mg| && 0 <= p.0 < |mg[p.1]| && mg[p.1][p.0].Some?
    && CellOk(dg, p.1, p.0) && MonthOf(dg[p.1][p.0].value) == month
  }

  /** Points listed row by row, left to right within a row. */
  predicate RowMajor(ps: seq<Point>) {
    forall i, j :: 0 <= i < j < |ps| ==> Less((ps[i].1, ps[i].0), (ps[j].1, ps[j].0))
  }

  /** The inner loop `for x in range(ncols)` of row y, from column x on. */
  function ScanRow(mg: Grid<real>, dg: Grid<Date>, month: int, y: nat, x: nat): (r: Result<seq<Point>, Error>)
    requires y < |mg| && x <= |mg[y]|
    ensures r.Success? <==> forall x' :: x <= x' < |mg[y]| ==> !Bad(mg, dg, y, x')
    ensures r.Success? ==> forall p :: p in r.value <==> p.1 == y && x <= p.0 && Selected(mg, dg, month, p)
    ensures r.Success? ==> RowMajor(r.value)
    decreases |mg[y]| - x
  {
    if x == |mg[y]| then Success([])
    else if mg[y][x].None? then ScanRow(mg, dg, month, y, x + 1)
    else if !InGrid(dg, (y, x)) then
      assert Bad(mg, dg, y, x);
      Failure(IndexError)
    else match dg[y][x]
      case None =>
        assert Bad(mg, dg, y, x);
        Failure(AttributeError)
      case Some(d) =>
        match ScanRow(mg, dg, month, y, x + 1)
        case Failure(e) => Failure(e)
        case Success(rest) => Success((if MonthOf(d) == month then [(x, y)] else []) + rest)
  }

  /** The outer loop `for y in range(nrows)`, from row y on. */
  function ScanRows(mg: Grid<real>, dg: Grid<Date>, month: int, y: nat): (r: Result<seq<Point>, Error>)
    requires y <= |mg|
    ensures r.Success? <==> forall y', x' :: y <= y' ==> !Bad(mg, dg, y', x')
    ensures r.Success? ==> forall p :: p in r.value <==> y <= p.1 && Selected(mg, dg, month, p)
    ensures r.Success? ==> RowMajor(r.value)
    decreases |mg| - y
  {
    if y == |mg| then Success([])
    else match ScanRow(mg, dg, month, y, 0)
      case Failure(e) => Failure(e)
      case Success(a) =>
        match ScanRows(mg, dg, month, y + 1)
        case Failure(e) => Failure(e)
        case Success(b) =>
          assert forall i :: 0 <= i < |b| ==> b[i] in b;
          Success(a + b)
  }

  /** A failing row scan stops at the first bad cell from x on and raises
      the error of reading that cell's month. */
  lemma {:induction false} ScanRowFailure(mg: Grid<real>, dg: Grid<Date>, month: int, y: nat, x: nat)
    requires y < |mg| && x <= |mg[y]|
    requires ScanRow(mg, dg, month, y, x).Failure?
    ensures exists x' :: (x <= x' < |mg[y]| && Bad(mg, dg, y, x')
      && ScanRow(mg, dg, month, y, x).error == CellError(dg, y, x')
      && forall x'' :: x <= x'' < x' ==> !Bad(mg, dg, y, x''))
    decreases |mg[y]| - x
  {
    if mg[y][x].Some? && !CellOk(dg, y, x) {
      assert Bad(mg, dg, y, x);
    } else {
      ScanRowFailure(mg, dg, month, y, x + 1);
      var x' :| x + 1 <= x' < |mg[y]| && Bad(mg, dg, y, x')
        && ScanRow(mg, dg, month, y, x + 1).error == CellError(dg, y, x')
        && forall x'' :: x + 1 <= x'' < x' ==> !Bad(mg, dg, y, x'');
      assert !Bad(mg, dg, y, x);
    }
  }

  /** A failing scan stops at the first bad cell in row-major order from row
      y on and raises the error of reading that cell's month. */
  lemma {:induction false} ScanRowsFailure(mg: Grid<real>, dg: Grid<Date>, month: int, y: nat)
    requires y <= |mg|
    requires ScanRows(mg, dg, month, y).Failure?
    ensures exists y', x' :: (y <= y' && Bad(mg, dg, y', x')
      && ScanRows(mg, dg, month, y).error == CellError(dg, y', x')
      && forall y'', x'' :: y <= y'' && (y'' < y' || (y'' == y' && x'' < x')) ==> !Bad(mg, dg, y'', x''))
    decreases |mg| - y
  {
    if ScanRow(mg, dg, month, y, 0).Failure? {
      ScanRowFailure(mg, dg, month, y, 0);
      var x' :| 0 <= x' < |mg[y]| && Bad(mg, dg, y, x')
        && ScanRow(mg, dg, month, y, 0).error == CellError(dg, y, x')
        && forall x'' :: 0 <= x'' < x' ==> !Bad(mg, dg, y, x'');
      assert Bad(mg, dg, y, x');
    } else {
      ScanRowsFailure(mg, dg, month, y + 1);
      var y', x' :| y + 1 <= y' && Bad(mg, dg, y', x')
        && ScanRows(mg, dg, month, y + 1).error == CellError(dg, y', x')
        && forall y'', x'' :: y + 1 <= y'' && (y'' < y' || (y'' == y' && x'' < x')) ==> !Bad(mg, dg, y'', x'');
      assert Bad(mg, dg, y', x');
    }
  }

  /** The second coordinates of the points. */
  function Ys(ps: seq<Point>): (ys: seq<int>)
    ensures |ys| == |ps| && forall i :: 0 <= i < |ps| ==> ys[i] == ps[i].1
  {
    seq(|ps|, i requires 0 <= i < |ps| => ps[i].1)
  }

  /** The nine vertices built from the month's cells, in the order the
      source lists them. `lower_right1` keeps the source's comparison with
      `lower_right`. */
  function Vertices(cs: seq<Point>): (v: seq<Point>)
    requires |cs| > 0
    ensures |v| == 9 && v[0] == v[8] == cs[0]
  {
    var minY := Min(Ys(cs));
    var maxY := Max(Ys(cs));
    var upperLeft := cs[0];
    var upperRight := (7, minY);
    var lowerRight := (7, maxY);
    var lowerRight2 := (cs[|cs| - 1].0 + 1, cs[|cs| - 1].1 + 1);
    var lowerRight1 := if lowerRight == lowerRight2 then lowerRight2 else (lowerRight2.0, lowerRight2.1 - 1);
    var lowerLeft := (0, maxY + 1);
    var cornerLast := (upperLeft.0, upperLeft.1 + 1);
    var secondLast := (0, cornerLast.1);
    [upperLeft, upperRight, lowerRight, lowerRight1, lowerRight2, lowerLeft, secondLast, cornerLast, upperLeft]
  }

  /** `coords[:, [1, 0]]`. */
  function Swap(v: seq<Point>): (w: seq<Point>)
    ensures |w| == |v| && forall i :: 0 <= i < |v| ==> w[i] == (v[i].1, v[i].0)
  {
    seq(|v|, i requires 0 <= i < |v| => (v[i].1, v[i].0))
  }

  /** Swapping is its own inverse, so distinct outlines stay distinct. */
  lemma SwapTwice(v: seq<Point>, w: seq<Point>)
    ensures Swap(Swap(v)) == v
    ensures Swap(v) == Swap(w) <==> v == w
  {
    assert Swap(Swap(w)) == w;
  }

  /** `get_month_outline(dates, month_grid, horizontal, month)`. The day grid
      is built from the dates in the vertical layout; a horizontal month grid
      is transposed back first. A month with no cell leaves the coordinate
      array empty, and indexing its columns raises IndexError. */
  function MonthOutline(dates: seq<Date>, monthGrid: Grid<real>, horizontal: bool, month: int): (r: Result<seq<Point>, Error>)
    requires IsRect(monthGrid)
    ensures |dates| == 0 ==> r == Failure(IndexError)
    ensures r.Success? ==> |r.value| == 9 && r.value[0] == r.value[8]
  {
    match DateGrid(dates, dates, false)
    case Failure(e) => Failure(e)
    case Success(dg) =>
      var mg := if horizontal then Transpose(monthGrid) else monthGrid;
      match ScanRows(mg, dg, month, 0)
      case Failure(e) => Failure(e)
      case Success(cs) =>
        if |cs| == 0 then Failure(IndexError)
        else if horizontal then Success(Swap(Vertices(cs)))
        else Success(Vertices(cs))
  }

  /** In row-major order the first point has the least y and the last the
      greatest. */
  lemma RowMajorEnds(cs: seq<Point>)
    requires |cs| > 0 && RowMajor(cs)
    ensures Min(Ys(cs)) == cs[0].1 && Max(Ys(cs)) == cs[|cs| - 1].1
  {
    var ys := Ys(cs);
    forall y | y in ys ensures cs[0].1 <= y <= cs[|cs| - 1].1 {
      var i :| 0 <= i < |ys| && ys[i] == y;
      if 0 < i { assert Less((cs[0].1, cs[0].0), (cs[i].1, cs[i].0)); }
      if i < |cs| - 1 { assert Less((cs[i].1, cs[i].0), (cs[|cs| - 1].1, cs[|cs| - 1].0)); }
    }
    assert ys[0] in ys && ys[|cs| - 1] in ys;
    assert Min(ys) in ys && Max(ys) in ys;
  }

  /** The polygon of row-major cells: its `lower_right1` always takes the
      second branch, since the last cell lies on the last row and so one
      below it is never that row; and every edge is horizontal or vertical. */
  lemma VerticesShape(cs: seq<Point>)
    requires |cs| > 0 && RowMajor(cs)
    ensures var v := Vertices(cs); var last := cs[|cs| - 1];
      && v[1] == (7, cs[0].1)
      && v[2] == (7, last.1)
      && v[3] == (last.0 + 1, last.1)
      && v[4] == (last.0 + 1, last.1 + 1)
      && v[5] == (0, last.1 + 1)
      && v[6] == (0, cs[0].1 + 1)
      && v[7] == (cs[0].0, cs[0].1 + 1)
    ensures var v := Vertices(cs);
      forall i :: 0 <= i < 8 ==> v[i].0 == v[i + 1].0 || v[i].1 == v[i + 1].1
  {
    RowMajorEnds(cs);
  }

  /** Every outline is a closed polygon whose edges are all horizontal or
      vertical, in either layout. */
  lemma OutlineRectilinear(dates: seq<Date>, monthGrid: Grid<real>, horizontal: bool, month: int)
    requires IsRect(monthGrid)
    ensures var r := MonthOutline(dates, monthGrid, horizontal, month);
      r.Success? ==> (|r.value| == 9 && r.value[0] == r.value[8]
        && forall i :: 0 <= i < 8 ==> r.value[i].0 == r.value[i + 1].0 || r.value[i].1 == r.value[i + 1].1)
  {
    if |dates| > 0 {
      var dg := DateGrid(dates, dates, false).value;
      var mg := if horizontal then Transpose(monthGrid) else monthGrid;
      var s := ScanRows(mg, dg, month, 0);
      if s.Success? && |s.value| > 0 {
        VerticesShape(s.value);
      }
    }
  }

  /** A horizontal outline is the vertical outline of the transposed month
      grid with every vertex swapped to (y, x). */
  lemma OutlineHorizontal(dates: seq<Date>, g: Grid<real>, month: int)
    requires IsRect(g) && Width(g) > 0
    ensures IsRect(Transpose(g))
    ensures var v := MonthOutline(dates, g, false, month);
      var h := MonthOutline(dates, Transpose(g), true, month);
      && (h.Success? <==> v.Success?)
      && (h.Success? ==> h.value == Swap(v.value))
      && (h.Failure? ==> h.error == v.error)
  {
    TransposeTwice(g);
  }

  /** The day grid holds each date in the date's own cell. */
  lemma DayGridHoldsDate(dates: seq<Date>, i: int)
    requires 0 <= i < |dates|
    ensures var (r, c) := CellOf(dates, i);
      0 <= r < |DistinctWeeks(dates)| && 0 <= c < 7
      && DateGrid(dates, dates, false).value[r][c] == Some(dates[i])
  {
    var (r, c) := CellOf(dates, i);
    CellIsRankAndWeekday(dates, i);
    WeekGridContents(dates, dates, r, c);
    var h := LastHit(Cells(dates), (r, c));
    assert Cells(dates)[i] == (r, c);
    CellsInjective(dates, i, h);
  }

  /** A finite cell of the calendar grid is backed by a date of the day grid. */
  lemma CalendarCell(dates: seq<Date>, data: seq<real>, y: int, x: int)
    requires |data| == |dates| > 0
    requires var mg := DateGrid(dates, data, false).value;
      0 <= y < |mg| && 0 <= x < |mg[y]| && mg[y][x].Some?
    ensures var dg := DateGrid(dates, dates, false).value;
      CellOk(dg, y, x) && exists i :: 0 <= i < |dates| && CellOf(dates, i) == (y, x) && dg[y][x] == Some(dates[i])
  {
    var mg: Grid<real> := DateGrid(dates, data, false).value;
    var dg: Grid<Date> := DateGrid(dates, dates, false).value;
    assert |mg| == |DistinctWeeks(dates)| && |mg[y]| == 7;
    DateGridCoverage(dates, data, y, x);
    var i :| 0 <= i < |dates| && CellOf(dates, i) == (y, x);
    DayGridHoldsDate(dates, i);
    assert |dg| == |DistinctWeeks(dates)| && |dg[y]| == 7;
    assert dg[y][x] == Some(dates[i]);
  }

  /** Each date's cell is finite in the calendar grid and holds the date in
      the day grid. */
  lemma DateCell(dates: seq<Date>, data: seq<real>, i: int)
    requires |data| == |dates| && 0 <= i < |dates|
    ensures var mg := DateGrid(dates, data, false).value;
      var dg := DateGrid(dates, dates, false).value;
      var (y, x) := CellOf(dates, i);
      0 <= y < |mg| && 0 <= x < |mg[y]| && mg[y][x].Some? && CellOk(dg, y, x) && dg[y][x] == Some(dates[i])
  {
    var (y, x) := CellOf(dates, i);
    DayGridHoldsDate(dates, i);
    DateGridCoverage(dates, data, y, x);
  }

  /** On the calendar grid of the same dates the scan never fails. */
  lemma CalendarScanSucceeds(dates: seq<Date>, data: seq<real>, month: int)
    requires |data| == |dates| > 0
    ensures ScanRows(DateGrid(dates, data, false).value, DateGrid(dates, dates, false).value, month, 0).Success?
  {
    var mg: Grid<real> := DateGrid(dates, data, false).value;
    var dg: Grid<Date> := DateGrid(dates, dates, false).value;
    forall y, x | 0 <= y ensures !Bad(mg, dg, y, x) {
      if 0 <= y < |mg| && 0 <= x < |mg[y]| && mg[y][x].Some? {
        CalendarCell(dates, data, y, x);
      }
    }
  }

  /** On the calendar grid of the same dates the scan selects exactly the
      cells of the dates in the month. */
  lemma CalendarScan(dates: seq<Date>, data: seq<real>, month: int)
    requires |data| == |dates| > 0
    ensures var s := ScanRows(DateGrid(dates, data, false).value, DateGrid(dates, dates, false).value, month, 0);
      && s.Success?
      && forall p :: p in s.value <==> exists i :: 0 <= i < |dates| && MonthOf(dates[i]) == month && CellOf(dates, i) == (p.1, p.0)
  {
    CalendarScanSucceeds(dates, data, month);
    var mg: Grid<real> := DateGrid(dates, data, false).value;
    var dg: Grid<Date> := DateGrid(dates, dates, false).value;
    var s := ScanRows(mg, dg, month, 0).value;
    forall p: Point | p in s
      ensures exists i :: 0 <= i < |dates| && MonthOf(dates[i]) == month && CellOf(dates, i) == (p.1, p.0)
    {
      ScannedIsMonthDate(dates, data, month, p);
    }
    forall p: Point | exists i :: 0 <= i < |dates| && MonthOf(dates[i]) == month && CellOf(dates, i) == (p.1, p.0)
      ensures p in s
    {
      var i :| 0 <= i < |dates| && MonthOf(dates[i]) == month && CellOf(dates, i) == (p.1, p.0);
      MonthDateIsScanned(dates, data, month, i);
    }
  }

  /** A cell the calendar scan selects is the cell of a date in the month. */
  lemma ScannedIsMonthDate(dates: seq<Date>, data: seq<real>, month: int, p: Point)
    requires |data| == |dates| > 0
    requires var s := ScanRows(DateGrid(dates, data, false).value, DateGrid(dates, dates, false).value, month, 0);
      s.Success? && p in s.value
    ensures exists i :: 0 <= i < |dates| && MonthOf(dates[i]) == month && CellOf(dates, i) == (p.1, p.0)
  {
    var mg: Grid<real> := DateGrid(dates, data, false).value;
    var dg: Grid<Date> := DateGrid(dates, dates, false).value;
    assert Selected(mg, dg, month, p);
    CalendarCell(dates, data, p.1, p.0);
    var i :| 0 <= i < |dates| && CellOf(dates, i) == (p.1, p.0) && dg[p.1][p.0] == Some(dates[i]);
    assert MonthOf(dates[i]) == month;
  }

  /** The cell of a date in the month is selected by the calendar scan. */
  lemma MonthDateIsScanned(dates: seq<Date>, data: seq<real>, month: int, i: int)
    requires |data| == |dates| > 0 && 0 <= i < |dates| && MonthOf(dates[i]) == month
    ensures var s := ScanRows(DateGrid(dates, data, false).value, DateGrid(dates, dates, false).value, month, 0);
      s.Success? && (CellOf(dates, i).1, CellOf(dates, i).0) in s.value
  {
    CalendarScanSucceeds(dates, data, month);
    var mg: Grid<real> := DateGrid(dates, data, false).value;
    var dg: Grid<Date> := DateGrid(dates, dates, false).value;
    DateCell(dates, data, i);
    var (y, x) := CellOf(dates, i);
    assert Selected(mg, dg, month, (x, y));
  }

  /** When the scan succeeds, the outline exists exactly when it selected
      some cell. */
  lemma OutlineOfScan(dates: seq<Date>, monthGrid: Grid<real>, month: int)
    requires IsRect(monthGrid) && |dates| > 0
    requires ScanRows(monthGrid, DateGrid(dates, dates, false).value, month, 0).Success?
    ensures var r := MonthOutline(dates, monthGrid, false, month);
      && (r.Success? <==> |ScanRows(monthGrid, DateGrid(dates, dates, false).value, month, 0).value| > 0)
      && (r.Failure? ==> r.error == IndexError)
  {
  }

  /** The vertical calendar has seven columns. */
  lemma CalendarShape<T>(dates: seq<Date>, data: seq<T>)
    requires |data| == |dates| > 0
    ensures IsRect(DateGrid(dates, data, false).value) && Width(DateGrid(dates, data, false).value) == 7
  {
    assert IsoKey(dates[0]) in DistinctWeeks(dates);
  }

  /** The scan of the calendar selects some cell exactly when some date
      falls in the month. */
  lemma CalendarScanNonempty(dates: seq<Date>, data: seq<real>, month: int)
    requires |data| == |dates| > 0
    ensures var s := ScanRows(DateGrid(dates, data, false).value, DateGrid(dates, dates, false).value, month, 0);
      s.Success? && (|s.value| > 0 <==> exists i :: 0 <= i < |dates| && MonthOf(dates[i]) == month)
  {
    CalendarScan(dates, data, month);
    SelectedSomewhere(ScanRows(DateGrid(dates, data, false).value, DateGrid(dates, dates, false).value, month, 0).value, dates, month);
  }

  /** A list of exactly the cells of the dates in the month is non-empty
      exactly when some date falls in the month. */
  lemma SelectedSomewhere(s: seq<Point>, dates: seq<Date>, month: int)
    requires forall p :: p in s <==> exists i :: 0 <= i < |dates| && MonthOf(dates[i]) == month && CellOf(dates, i) == (p.1, p.0)
    ensures |s| > 0 <==> exists i :: 0 <= i < |dates| && MonthOf(dates[i]) == month
  {
    if exists i :: 0 <= i < |dates| && MonthOf(dates[i]) == month {
      var i :| 0 <= i < |dates| && MonthOf(dates[i]) == month;
      SomeDateSelected(s, dates, month, i);
    }
    if |s| > 0 {
      SelectedHasDate(s, dates, month);
    }
  }

  lemma SomeDateSelected(s: seq<Point>, dates: seq<Date>, month: int, i: int)
    requires forall p :: p in s <==> exists i :: 0 <= i < |dates| && MonthOf(dates[i]) == month && CellOf(dates, i) == (p.1, p.0)
    requires 0 <= i < |dates| && MonthOf(dates[i]) == month
    ensures |s| > 0
  {
    var (y, x) := CellOf(dates, i);
    assert (x, y) in s;
  }

  lemma SelectedHasDate(s: seq<Point>, dates: seq<Date>, month: int)
    requires forall p :: p in s <==> exists i :: 0 <= i < |dates| && MonthOf(dates[i]) == month && CellOf(dates, i) == (p.1, p.0)
    requires |s| > 0
    ensures exists i :: 0 <= i < |dates| && MonthOf(dates[i]) == month
  {
    assert s[0] in s;
  }

  /** The vertical calendar of the same dates has the outline of a month
      exactly when some date falls in that month. */
  lemma CalendarOutlineVertical(dates: seq<Date>, data: seq<real>, month: int)
    requires |data| == |dates| > 0
    ensures IsRect(DateGrid(dates, data, false).value) && Width(DateGrid(dates, data, false).value) == 7
    ensures var r := MonthOutline(dates, DateGrid(dates, data, false).value, false, month);
      && (r.Success? <==> exists i :: 0 <= i < |dates| && MonthOf(dates[i]) == month)
      && (r.Failure? ==> r.error == IndexError)
  {
    CalendarShape(dates, data);
    CalendarScanNonempty(dates, data, month);
    OutlineOfScan(dates, DateGrid(dates, data, false).value, month);
  }

  /** `add_month_grid` on the calendar of the same dates: the outline of a
      month exists exactly when some date falls in that month, in either
      layout, and otherwise reading the empty coordinate array raises
      IndexError. */
  lemma CalendarOutline(dates: seq<Date>, data: seq<real>, horizontal: bool, month: int)
    requires |data| == |dates| > 0
    ensures IsRect(DateGrid(dates, data, horizontal).value)
    ensures var r := MonthOutline(dates, DateGrid(dates, data, horizontal).value, horizontal, month);
      && (r.Success? <==> exists i :: 0 <= i < |dates| && MonthOf(dates[i]) == month)
      && (r.Failure? ==> r.error == IndexError)
  {
    CalendarOutlineVertical(dates, data, month);
    if horizontal {
      var g := DateGrid(dates, data, false).value;
      assert DateGrid(dates, data, true).value == Transpose(g);
      OutlineHorizontal(dates, g, month);
    }
  }
}
