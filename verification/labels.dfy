/** The label positions of `add_month_label` and `add_year_label`
    (src/july/helpers.py): the dates are laid out on a grid whose cells hold
    each date's (year, month), or year, and every distinct key gets the
    position (max + 1 + min) / 2 over the long-axis indices of its cells. */
module Labels {
  import opened Base
  import opened Order
  import opened Calendar
  import opened Grids

  /** Month labels key on `(day.year, day.month)`, year labels on `day.year`. */
  datatype LabelKind = MonthLabel | YearLabel

  /** The key a date contributes. A year is written (year, 0), so that
      both kinds of key sort as Python sorts years and (year, month) tuples. */
  function LabelKey(kind: LabelKind, d: Date): Key {
    match kind
    case MonthLabel => (YearOf(d), MonthOf(d))
    case YearLabel => (YearOf(d), 0)
  }

  function LabelKeys(kind: LabelKind, dates: seq<Date>): (ks: seq<Key>)
    ensures |ks| == |dates|
    ensures forall i :: 0 <= i < |dates| ==> ks[i] == LabelKey(kind, dates[i])
  {
    seq(|dates|, i requires 0 <= i < |dates| => LabelKey(kind, dates[i]))
  }

  /** The cells of row y, from column x on, that hold k, left to right. */
  function RowHits<T(==)>(row: seq<Option<T>>, k: T, y: int, x: nat): (hits: seq<Cell>)
    requires x <= |row|
    ensures forall p :: p in hits <==> p.0 == y && x <= p.1 < |row| && row[p.1] == Some(k)
    decreases |row| - x
  {
    if x == |row| then []
    else (if row[x] == Some(k) then [(y, x)] else []) + RowHits(row, k, y, x + 1)
  }

  /** `np.nonzero(grid == k)` from row y on: the cells holding k, row by row. */
  function GridHits<T(==)>(g: Grid<T>, k: T, y: nat): (hits: seq<Cell>)
    requires y <= |g|
    ensures forall p :: p in hits <==> y <= p.0 < |g| && 0 <= p.1 < |g[p.0]| && g[p.0][p.1] == Some(k)
    decreases |g| - y
  {
    if y == |g| then [] else RowHits(g[y], k, y, 0) + GridHits(g, k, y + 1)
  }

  /** The long-axis index of every cell holding k: the column when the grid
      is horizontal (`xx`), the row otherwise (`yy`). */
  function LongCoords<T(==)>(g: Grid<T>, k: T, horizontal: bool): (cs: seq<int>)
    ensures forall x :: x in cs <==> exists p :: p in GridHits(g, k, 0) && x == (if horizontal then p.1 else p.0)
  {
    var hits := GridHits(g, k, 0);
    var cs := seq(|hits|, i requires 0 <= i < |hits| => if horizontal then hits[i].1 else hits[i].0);
    assert forall p :: p in hits ==> (if horizontal then p.1 else p.0) in cs by {
      forall p | p in hits ensures (if horizontal then p.1 else p.0) in cs {
        var i :| 0 <= i < |hits| && hits[i] == p;
        assert cs[i] == (if horizontal then p.1 else p.0);
      }
    }
    cs
  }

  /** `(xx.max() + 1 + xx.min()) / 2`, exactly. */
  function Centroid(cs: seq<int>): (c: real)
    requires |cs| > 0
    ensures Min(cs) as real + 0.5 <= c <= Max(cs) as real + 0.5
    ensures c - Min(cs) as real == (Max(cs) + 1) as real - c
  {
    (Max(cs) + 1 + Min(cs)) as real / 2.0
  }

  /** The loop over the sorted keys: one position per key, the centre of
      the key's coordinates, or numpy's error for a key with none. */
  function Locate(coords: Key -> seq<int>, keys: seq<Key>): (r: Result<seq<(Key, real)>, Error>)
    ensures r.Success? ==> Labelled(r.value) == keys
    ensures r.Success? <==> forall k :: k in keys ==> |coords(k)| > 0
    ensures r.Failure? ==> r.error == EmptyReduction
  {
    if |keys| == 0 then Success([])
    else
      var cs := coords(keys[0]);
      if |cs| == 0 then Failure(EmptyReduction)
      else
        var rest := Locate(coords, keys[1..]);
        assert forall k :: k in keys <==> k == keys[0] || k in keys[1..];
        match rest
        case Failure(e) => Failure(e)
        case Success(ps) =>
          assert Labelled([(keys[0], Centroid(cs))] + ps) == [keys[0]] + Labelled(ps);
          Success([(keys[0], Centroid(cs))] + ps)
  }

  /** Each located key sits at the centre of its coordinates. */
  lemma {:induction false} LocateCentroids(coords: Key -> seq<int>, keys: seq<Key>)
    requires Locate(coords, keys).Success?
    ensures var ps := Locate(coords, keys).value;
      forall i :: 0 <= i < |ps| ==> ps[i].1 == Centroid(coords(ps[i].0))
  {
    if |keys| > 0 {
      LocateCentroids(coords, keys[1..]);
    }
  }

  /** The body of `add_month_label` and `add_year_label` up to the tick
      positions, for any keys, one per date: the sorted distinct keys, each
      with its position along the long axis. */
  function Positions(dates: seq<Date>, keys: seq<Key>, horizontal: bool): (r: Result<seq<(Key, real)>, Error>)
    requires |keys| == |dates|
    ensures |dates| == 0 ==> r == Failure(IndexError)
    ensures r.Success? ==> StrictlySorted(Labelled(r.value))
    ensures r.Success? ==> forall k :: k in keys <==> k in Labelled(r.value)
    ensures |dates| > 0 ==>
      (r.Success? <==> forall k :: k in keys ==> |LongCoords(DateGrid(dates, keys, horizontal).value, k, horizontal)| > 0)
  {
    match DateGrid(dates, keys, horizontal)
    case Failure(e) => Failure(e)
    case Success(g) =>
      var sorted := SortedUnique(keys);
      Locate(k => LongCoords(g, k, horizontal), sorted)
  }

  /** Each label sits at the centre of the long-axis indices of its key's
      cells. */
  lemma PositionsAtCentroids(dates: seq<Date>, keys: seq<Key>, horizontal: bool)
    requires |keys| == |dates|
    requires Positions(dates, keys, horizontal).Success?
    ensures var r := Positions(dates, keys, horizontal).value;
      forall i :: 0 <= i < |r| ==>
        r[i].1 == Centroid(LongCoords(DateGrid(dates, keys, horizontal).value, r[i].0, horizontal))
  {
    var g := DateGrid(dates, keys, horizontal).value;
    LocateCentroids(k => LongCoords(g, k, horizontal), SortedUnique(keys));
  }

  /** The keys of a list of positions, in order. */
  function Labelled(r: seq<(Key, real)>): (ks: seq<Key>)
    ensures |ks| == |r| && forall i :: 0 <= i < |r| ==> ks[i] == r[i].0
  {
    seq(|r|, i requires 0 <= i < |r| => r[i].0)
  }

  /** `add_month_label` (MonthLabel) or `add_year_label` (YearLabel) up to
      the tick positions. */
  function LabelPositions(kind: LabelKind, dates: seq<Date>, horizontal: bool): (r: Result<seq<(Key, real)>, Error>)
    ensures |dates| == 0 ==> r == Failure(IndexError)
    ensures r.Success? ==> StrictlySorted(Labelled(r.value))
    ensures r.Success? ==> forall k :: k in LabelKeys(kind, dates) <==> k in Labelled(r.value)
  {
    Positions(dates, LabelKeys(kind, dates), horizontal)
  }

  /** The rows of the entries whose key is k, from index j on. */
  function KeyRows(rows: seq<int>, keys: seq<Key>, k: Key, j: nat): (r: seq<int>)
    requires |rows| == |keys| && j <= |keys|
    ensures forall x :: x in r <==> exists i :: j <= i < |keys| && keys[i] == k && rows[i] == x
    decreases |keys| - j
  {
    if j == |keys| then []
    else (if keys[j] == k then [rows[j]] else []) + KeyRows(rows, keys, k, j + 1)
  }

  /** The grid row (week index) of every date, in input order. */
  function WeekRows(dates: seq<Date>): (rows: seq<int>)
    ensures |rows| == |dates| && forall i :: 0 <= i < |dates| ==> rows[i] == WeekIndex(dates, i)
  {
    seq(|dates|, i requires 0 <= i < |dates| => WeekIndex(dates, i))
  }

  /** Equal dates carry equal keys, as keys computed from the dates do. */
  predicate KeyedByDate(dates: seq<Date>, keys: seq<Key>)
    requires |keys| == |dates|
  {
    forall i, j :: 0 <= i < |dates| && 0 <= j < |dates| && dates[i] == dates[j] ==> keys[i] == keys[j]
  }

  /** A grid cell holds key k exactly when some date with key k sits there. */
  lemma CellHoldsKey(dates: seq<Date>, keys: seq<Key>, k: Key, w: int, c: int)
    requires |keys| == |dates| > 0 && KeyedByDate(dates, keys)
    requires 0 <= w < |DistinctWeeks(dates)| && 0 <= c < 7
    ensures WeekGrid(dates, keys)[w][c] == Some(k)
        <==> exists i :: 0 <= i < |dates| && CellOf(dates, i) == (w, c) && keys[i] == k
  {
    WeekGridContents(dates, keys, w, c);
    var h := LastHit(Cells(dates), (w, c));
    if h >= 0 {
      forall i | 0 <= i < |dates| && CellOf(dates, i) == (w, c)
        ensures keys[i] == keys[h]
      {
        CellsInjective(dates, i, h);
      }
    }
  }

  /** Where a cell of the oriented grid sits in the vertical grid. */
  function Unorient(p: Cell, horizontal: bool): Cell {
    if horizontal then (p.1, p.0) else p
  }

  /** A cell of the grid that holds k lies on the row of some date with key k. */
  lemma HitIsKeyRow(dates: seq<Date>, keys: seq<Key>, horizontal: bool, k: Key, p: Cell)
    requires |keys| == |dates| > 0 && KeyedByDate(dates, keys)
    requires p in GridHits(DateGrid(dates, keys, horizontal).value, k, 0)
    ensures Unorient(p, horizontal).0 in KeyRows(WeekRows(dates), keys, k, 0)
  {
    var g := DateGrid(dates, keys, horizontal).value;
    var (w, c) := Unorient(p, horizontal);
    assert 0 <= p.0 < |g| && 0 <= p.1 < |g[p.0]| && g[p.0][p.1] == Some(k);
    assert 0 <= w < |DistinctWeeks(dates)| && 0 <= c < 7;
    DateGridCoverage(dates, keys, w, c);
    assert WeekGrid(dates, keys)[w][c] == Some(k);
    CellHoldsKey(dates, keys, k, w, c);
    var i :| 0 <= i < |dates| && CellOf(dates, i) == (w, c) && keys[i] == k;
    assert WeekRows(dates)[i] == w;
  }

  /** The cell of a date with key k holds k. */
  lemma KeyRowIsHit(dates: seq<Date>, keys: seq<Key>, horizontal: bool, k: Key, i: int)
    requires |keys| == |dates| && KeyedByDate(dates, keys) && 0 <= i < |dates| && keys[i] == k
    ensures var (w, c) := CellOf(dates, i);
      (if horizontal then (c, w) else (w, c)) in GridHits(DateGrid(dates, keys, horizontal).value, k, 0)
  {
    var (w, c) := CellOf(dates, i);
    CellIsRankAndWeekday(dates, i);
    DateGridCoverage(dates, keys, w, c);
    CellHoldsKey(dates, keys, k, w, c);
  }

  /** The long-axis indices of key k's cells are the rows of the dates with
      key k, in either orientation. */
  lemma LongCoordsAreKeyRows(dates: seq<Date>, keys: seq<Key>, horizontal: bool, k: Key)
    requires |keys| == |dates| > 0 && KeyedByDate(dates, keys)
    ensures var g := DateGrid(dates, keys, horizontal).value;
      forall x :: x in LongCoords(g, k, horizontal) <==> x in KeyRows(WeekRows(dates), keys, k, 0)
  {
    var g := DateGrid(dates, keys, horizontal).value;
    forall x | x in LongCoords(g, k, horizontal) ensures x in KeyRows(WeekRows(dates), keys, k, 0) {
      var p :| p in GridHits(g, k, 0) && x == (if horizontal then p.1 else p.0);
      HitIsKeyRow(dates, keys, horizontal, k, p);
    }
    forall x | x in KeyRows(WeekRows(dates), keys, k, 0) ensures x in LongCoords(g, k, horizontal) {
      KeyRowInLongCoords(dates, keys, horizontal, k, x);
    }
  }

  lemma KeyRowInLongCoords(dates: seq<Date>, keys: seq<Key>, horizontal: bool, k: Key, x: int)
    requires |keys| == |dates| > 0 && KeyedByDate(dates, keys)
    requires x in KeyRows(WeekRows(dates), keys, k, 0)
    ensures x in LongCoords(DateGrid(dates, keys, horizontal).value, k, horizontal)
  {
    var i :| 0 <= i < |dates| && keys[i] == k && WeekRows(dates)[i] == x;
    KeyRowIsHit(dates, keys, horizontal, k, i);
  }

  /** The position of one key: its cells' long-axis centre is the centre of
      the rows of its dates. */
  lemma KeyCentroid(dates: seq<Date>, keys: seq<Key>, horizontal: bool, k: Key)
    requires |keys| == |dates| > 0 && KeyedByDate(dates, keys) && k in keys
    ensures var cs := LongCoords(DateGrid(dates, keys, horizontal).value, k, horizontal);
      var rows := KeyRows(WeekRows(dates), keys, k, 0);
      |cs| > 0 && |rows| > 0 && Centroid(cs) == Centroid(rows)
  {
    var rows := KeyRows(WeekRows(dates), keys, k, 0);
    var j :| 0 <= j < |keys| && keys[j] == k;
    assert WeekRows(dates)[j] in rows;
    LongCoordsAreKeyRows(dates, keys, horizontal, k);
    SameCentroid(LongCoords(DateGrid(dates, keys, horizontal).value, k, horizontal), rows);
  }

  /** The centre depends only on which values occur. */
  lemma SameCentroid(a: seq<int>, b: seq<int>)
    requires |b| > 0
    requires forall x :: x in a <==> x in b
    ensures |a| > 0 && Centroid(a) == Centroid(b)
  {
    var y := b[0];
    assert y in b;
    assert y in a;
    MinMaxSameElements(a, b);
  }

  /** Every key of a non-empty input gets a label. */
  lemma PositionsSucceed(dates: seq<Date>, keys: seq<Key>, horizontal: bool)
    requires |keys| == |dates| > 0 && KeyedByDate(dates, keys)
    ensures Positions(dates, keys, horizontal).Success?
  {
    forall k | k in keys
      ensures |LongCoords(DateGrid(dates, keys, horizontal).value, k, horizontal)| > 0
    {
      KeyCentroid(dates, keys, horizontal, k);
    }
  }

  /** Every key of a non-empty input gets a label, placed at
      (max + 1 + min) / 2 over the grid rows (week indices) of the dates with
      that key, whichever way the grid is oriented. */
  lemma PositionsCentroids(dates: seq<Date>, keys: seq<Key>, horizontal: bool)
    requires |keys| == |dates| > 0 && KeyedByDate(dates, keys)
    ensures Positions(dates, keys, horizontal).Success?
    ensures var r := Positions(dates, keys, horizontal).value;
      forall i :: 0 <= i < |r| ==>
        |KeyRows(WeekRows(dates), keys, r[i].0, 0)| > 0 &&
        r[i].1 == Centroid(KeyRows(WeekRows(dates), keys, r[i].0, 0))
  {
    PositionsSucceed(dates, keys, horizontal);
    PositionsAtCentroids(dates, keys, horizontal);
    var r := Positions(dates, keys, horizontal).value;
    forall i | 0 <= i < |r|
      ensures |KeyRows(WeekRows(dates), keys, r[i].0, 0)| > 0
      ensures r[i].1 == Centroid(KeyRows(WeekRows(dates), keys, r[i].0, 0))
    {
      assert r[i].0 in Labelled(r);
      KeyCentroid(dates, keys, horizontal, r[i].0);
    }
  }

  /** Month and year labels: every (year, month) or year present gets a
      label at the centre of the week rows of its dates. */
  lemma LabelCentroids(kind: LabelKind, dates: seq<Date>, horizontal: bool)
    requires |dates| > 0
    ensures LabelPositions(kind, dates, horizontal).Success?
    ensures var r := LabelPositions(kind, dates, horizontal).value;
      var keys := LabelKeys(kind, dates);
      forall i :: 0 <= i < |r| ==>
        |KeyRows(WeekRows(dates), keys, r[i].0, 0)| > 0 &&
        r[i].1 == Centroid(KeyRows(WeekRows(dates), keys, r[i].0, 0))
  {
    PositionsCentroids(dates, LabelKeys(kind, dates), horizontal);
  }
}
