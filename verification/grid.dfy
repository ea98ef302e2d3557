/** The grid mapper `date_grid` (src/july/helpers.py): every date goes to
    the row of its (ISO year, ISO week) among the sorted distinct pairs of
    all the dates, and to the column of its ISO weekday minus one. A
    horizontal grid is the transpose. */
module Grids {
  import opened Base
  import opened Order
  import opened Calendar

  /** A 2-D array of cells; None is an empty cell (NaN or None in numpy). */
  type Grid<T> = seq<seq<Option<T>>>

  /** A (row, column) position in a grid. */
  type Cell = (int, int)

  predicate HasShape<T>(g: seq<seq<T>>, rows: int, cols: int) {
    |g| == rows && forall r :: 0 <= r < |g| ==> |g[r]| == cols
  }

  /** A numpy 2-D array: every row has the same length. */
  predicate IsRect<T>(g: seq<seq<T>>) {
    |g| == 0 || HasShape(g, |g|, |g[0]|)
  }

  function Width<T>(g: seq<seq<T>>): nat {
    if |g| == 0 then 0 else |g[0]|
  }

  predicate InGrid<T>(g: seq<seq<T>>, cell: Cell) {
    0 <= cell.0 < |g| && 0 <= cell.1 < |g[cell.0]|
  }

  /** A grid of the given shape with every cell empty. */
  function Blank<T>(rows: nat, cols: nat): (g: Grid<T>)
    ensures HasShape(g, rows, cols)
    ensures forall r, c :: 0 <= r < rows && 0 <= c < cols ==> g[r][c] == None
  {
    seq(rows, _ => seq(cols, _ => None))
  }

  /** numpy's `.T`. */
  function Transpose<T>(g: seq<seq<T>>): (t: seq<seq<T>>)
    requires IsRect(g)
    ensures HasShape(t, Width(g), |g|)
    ensures forall c, r :: 0 <= c < Width(g) && 0 <= r < |g| ==> t[c][r] == g[r][c]
  {
    seq(Width(g), c requires 0 <= c < Width(g) => seq(|g|, r requires 0 <= r < |g| => g[r][c]))
  }

  /** Transposing twice gives back a grid that has at least one column. */
  lemma TransposeTwice<T>(g: seq<seq<T>>)
    requires IsRect(g) && Width(g) > 0
    ensures Transpose(Transpose(g)) == g
  {
    var t := Transpose(Transpose(g));
    assert |t| == |g|;
    forall r | 0 <= r < |g| ensures t[r] == g[r] {
      assert |t[r]| == |g[r]|;
    }
  }

  /** The index of the last occurrence of x in cells, or -1. */
  function LastHit(cells: seq<Cell>, x: Cell): (i: int)
    ensures -1 <= i < |cells|
    ensures i >= 0 ==> cells[i] == x && forall j :: i < j < |cells| ==> cells[j] != x
    ensures i < 0 ==> x !in cells
  {
    if |cells| == 0 then -1
    else if cells[|cells| - 1] == x then |cells| - 1
    else LastHit(cells[..|cells| - 1], x)
  }

  function Write<T>(g: Grid<T>, cell: Cell, v: T): Grid<T>
    requires InGrid(g, cell)
  {
    g[cell.0 := g[cell.0][cell.1 := Some(v)]]
  }

  /** numpy's `grid[rows, cols] = data`, taken as writes in input order, so
      on a repeated cell the last value stays. numpy leaves the order of
      repeated writes unspecified; this model fixes it. */
  function Scatter<T>(g: Grid<T>, cells: seq<Cell>, data: seq<T>): (r: Grid<T>)
    requires |cells| == |data|
    requires forall i :: 0 <= i < |cells| ==> InGrid(g, cells[i])
    ensures |r| == |g| && forall k :: 0 <= k < |g| ==> |r[k]| == |g[k]|
    decreases |cells|
  {
    if |cells| == 0 then g
    else
      var n := |cells| - 1;
      assert forall i :: 0 <= i < n ==> cells[..n][i] == cells[i];
      var s := Scatter(g, cells[..n], data[..n]);
      assert InGrid(g, cells[n]);
      Write(s, cells[n], data[n])
  }

  /** After the scatter a cell holds the value of the last write to it, and
      a cell nobody wrote to keeps its old content. */
  lemma {:induction false} ScatterContents<T>(g: Grid<T>, cells: seq<Cell>, data: seq<T>)
    requires |cells| == |data|
    requires forall i :: 0 <= i < |cells| ==> InGrid(g, cells[i])
    ensures forall r, c :: 0 <= r < |g| && 0 <= c < |g[r]| ==>
      Scatter(g, cells, data)[r][c]
        == (if LastHit(cells, (r, c)) < 0 then g[r][c] else Some(data[LastHit(cells, (r, c))]))
    decreases |cells|
  {
    if |cells| > 0 {
      var n := |cells| - 1;
      ScatterContents(g, cells[..n], data[..n]);
      forall r, c | 0 <= r < |g| && 0 <= c < |g[r]|
        ensures Scatter(g, cells, data)[r][c]
          == (if LastHit(cells, (r, c)) < 0 then g[r][c] else Some(data[LastHit(cells, (r, c))]))
      {
        if cells[n] != (r, c) {
          assert LastHit(cells, (r, c)) == LastHit(cells[..n], (r, c));
        }
      }
    }
  }

  /** One cell of a scatter. */
  lemma ScatterCell<T>(g: Grid<T>, cells: seq<Cell>, data: seq<T>, r: int, c: int)
    requires |cells| == |data|
    requires forall i :: 0 <= i < |cells| ==> InGrid(g, cells[i])
    requires 0 <= r < |g| && 0 <= c < |g[r]|
    ensures Scatter(g, cells, data)[r][c]
      == (if LastHit(cells, (r, c)) < 0 then g[r][c] else Some(data[LastHit(cells, (r, c))]))
  {
    ScatterContents(g, cells, data);
  }

  /** The (ISO year, ISO week) pair of every date, in input order. */
  function IsoKeys(dates: seq<Date>): (ks: seq<Key>)
    ensures |ks| == |dates|
    ensures forall i :: 0 <= i < |dates| ==> ks[i] == IsoKey(dates[i])
  {
    seq(|dates|, i requires 0 <= i < |dates| => IsoKey(dates[i]))
  }

  /** The distinct (ISO year, ISO week) pairs among the dates. */
  ghost function DistinctWeeks(dates: seq<Date>): set<Key> {
    set d | d in dates :: IsoKey(d)
  }

  /** The week axis of the grid: the distinct week pairs, sorted. */
  function Weeks(dates: seq<Date>): (w: seq<Key>)
    ensures StrictlySorted(w)
    ensures forall k :: k in w <==> k in DistinctWeeks(dates)
    ensures |w| == |DistinctWeeks(dates)|
  {
    var ks := IsoKeys(dates);
    assert (set k | k in ks) == DistinctWeeks(dates) by {
      forall k | k in DistinctWeeks(dates) ensures k in ks {
        var d :| d in dates && IsoKey(d) == k;
        var i :| 0 <= i < |dates| && dates[i] == d;
        assert ks[i] == k;
      }
    }
    SortedUnique(ks)
  }

  /** The grid row (vertical layout) of dates[i]. */
  function WeekIndex(dates: seq<Date>, i: int): (row: nat)
    requires 0 <= i < |dates|
    ensures row < |Weeks(dates)| && Weeks(dates)[row] == IsoKey(dates[i])
  {
    assert IsoKey(dates[i]) in DistinctWeeks(dates);
    IndexOf(Weeks(dates), IsoKey(dates[i]))
  }

  /** The (row, column) cell of dates[i] in the vertical grid. */
  function CellOf(dates: seq<Date>, i: int): (cell: Cell)
    requires 0 <= i < |dates|
  {
    (WeekIndex(dates, i), Weekday(dates[i]))
  }

  function Cells(dates: seq<Date>): (cells: seq<Cell>)
    ensures |cells| == |dates|
    ensures forall i :: 0 <= i < |dates| ==> cells[i] == CellOf(dates, i)
  {
    seq(|dates|, i requires 0 <= i < |dates| => CellOf(dates, i))
  }

  lemma CellsInGrid<T>(dates: seq<Date>, g: seq<seq<T>>)
    requires HasShape(g, |Weeks(dates)|, 7)
    ensures forall i :: 0 <= i < |dates| ==> InGrid(g, Cells(dates)[i])
  {
    forall i | 0 <= i < |dates| ensures InGrid(g, Cells(dates)[i]) {
      var (r, c) := CellOf(dates, i);
      assert r < |Weeks(dates)|;
      assert 0 <= c < 7;
    }
  }

  /** The vertical grid: one row per distinct ISO week, seven columns. */
  function WeekGrid<T>(dates: seq<Date>, data: seq<T>): (g: Grid<T>)
    requires |data| == |dates|
    ensures HasShape(g, |DistinctWeeks(dates)|, 7)
  {
    var cells := Cells(dates);
    var blank := Blank(|Weeks(dates)|, 7);
    CellsInGrid(dates, blank);
    Scatter(blank, cells, data)
  }

  /** `date_grid(dates, data, horizontal)`. An empty `dates` fails with
      IndexError, as slicing numpy's empty ISO-date array does. */
  function DateGrid<T>(dates: seq<Date>, data: seq<T>, horizontal: bool): (r: Result<Grid<T>, Error>)
    requires |data| == |dates|
    ensures r.Failure? <==> |dates| == 0
    ensures r.Failure? ==> r.error == IndexError
    ensures r.Success? && !horizontal ==> HasShape(r.value, |DistinctWeeks(dates)|, 7)
    ensures r.Success? && horizontal ==> HasShape(r.value, 7, |DistinctWeeks(dates)|)
    ensures r.Success? && horizontal ==>
      forall c, w :: 0 <= c < 7 && 0 <= w < |DistinctWeeks(dates)| ==>
        r.value[c][w] == WeekGrid(dates, data)[w][c]
  {
    if |dates| == 0 then Failure(IndexError)
    else
      var g := WeekGrid(dates, data);
      assert IsoKey(dates[0]) in DistinctWeeks(dates);
      assert Width(g) == 7;
      if horizontal then Success(Transpose(g)) else Success(g)
  }

  /** Distinct dates land in distinct cells. */
  lemma CellsInjective(dates: seq<Date>, i: int, j: int)
    requires 0 <= i < |dates| && 0 <= j < |dates|
    ensures CellOf(dates, i) == CellOf(dates, j) <==> dates[i] == dates[j]
  {
    if CellOf(dates, i) == CellOf(dates, j) {
      IndexOfMonotone(Weeks(dates), IsoKey(dates[i]), IsoKey(dates[j]));
      IsoCellDeterminesDate(dates[i], dates[j]);
    }
  }

  /** Every date's row is the rank of its (ISO year, ISO week) among the
      distinct pairs, and its column is the ISO weekday minus one. */
  lemma CellIsRankAndWeekday(dates: seq<Date>, i: int)
    requires 0 <= i < |dates|
    ensures CellOf(dates, i).0 == |set k | k in DistinctWeeks(dates) && Less(k, IsoKey(dates[i]))|
    ensures CellOf(dates, i).1 == IsoCalendar(dates[i]).weekday - 1
    ensures 0 <= CellOf(dates, i).1 <= 6
  {
    var w := Weeks(dates);
    RankIsIndex(w, IsoKey(dates[i]));
    assert (set k | k in w && Less(k, IsoKey(dates[i])))
        == (set k | k in DistinctWeeks(dates) && Less(k, IsoKey(dates[i])));
  }

  /** Rows never decrease as dates increase. */
  lemma WeekIndexMonotone(dates: seq<Date>, i: int, j: int)
    requires 0 <= i < |dates| && 0 <= j < |dates|
    requires dates[i] <= dates[j]
    ensures WeekIndex(dates, i) <= WeekIndex(dates, j)
  {
    var a, b := IsoKey(dates[i]), IsoKey(dates[j]);
    IsoKeyMonotone(dates[i], dates[j]);
    assert Less(a, b) || a == b;
    assert a in Weeks(dates) && b in Weeks(dates) by {
      assert a in DistinctWeeks(dates) && b in DistinctWeeks(dates);
    }
    IndexOfMonotone(Weeks(dates), a, b);
  }

  /** The vertical grid's cells: a cell holds a value exactly when some date
      maps to it, and then it holds the value of the last such date. */
  lemma WeekGridContents<T>(dates: seq<Date>, data: seq<T>, r: int, c: int)
    requires |data| == |dates|
    requires 0 <= r < |DistinctWeeks(dates)| && 0 <= c < 7
    ensures WeekGrid(dates, data)[r][c].Some? <==> exists i :: 0 <= i < |dates| && CellOf(dates, i) == (r, c)
    ensures LastHit(Cells(dates), (r, c)) >= 0 ==>
      WeekGrid(dates, data)[r][c] == Some(data[LastHit(Cells(dates), (r, c))])
  {
    var cells := Cells(dates);
    var blank: Grid<T> := Blank(|Weeks(dates)|, 7);
    CellsInGrid(dates, blank);
    var h := LastHit(cells, (r, c));
    ScatterCell(blank, cells, data, r, c);
    if h >= 0 {
      assert CellOf(dates, h) == (r, c);
    } else {
      forall i | 0 <= i < |dates| ensures CellOf(dates, i) != (r, c) {
        assert cells[i] == CellOf(dates, i);
      }
    }
  }

  /** Placement: the value of a date that is not repeated later in the input
      sits in the date's cell, in either orientation. */
  lemma DateGridPlacement<T>(dates: seq<Date>, data: seq<T>, i: int)
    requires |data| == |dates| && 0 <= i < |dates|
    requires forall j :: i < j < |dates| ==> dates[j] != dates[i]
    ensures var (row, col) := CellOf(dates, i);
      && DateGrid(dates, data, false).value[row][col] == Some(data[i])
      && DateGrid(dates, data, true).value[col][row] == Some(data[i])
  {
    var cells := Cells(dates);
    var (row, col) := CellOf(dates, i);
    forall j | i < j < |dates| ensures cells[j] != (row, col) {
      CellsInjective(dates, i, j);
    }
    assert LastHit(cells, (row, col)) == i;
    WeekGridContents(dates, data, row, col);
  }

  /** Covered cells: in the vertical grid a cell is empty exactly when no
      date maps to it; the horizontal grid is the same with the axes swapped. */
  lemma DateGridCoverage<T>(dates: seq<Date>, data: seq<T>, r: int, c: int)
    requires |data| == |dates| && |dates| > 0
    requires 0 <= r < |DistinctWeeks(dates)| && 0 <= c < 7
    ensures DateGrid(dates, data, false).value[r][c].Some?
        <==> exists i :: 0 <= i < |dates| && CellOf(dates, i) == (r, c)
    ensures DateGrid(dates, data, true).value[c][r] == DateGrid(dates, data, false).value[r][c]
  {
    WeekGridContents(dates, data, r, c);
  }
}
