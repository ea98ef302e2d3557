# july, the calendar-heatmap layout core, in Dafny

`july` draws calendar heatmaps with matplotlib. Before anything is drawn, a
pure layout step decides where every day goes. This project models that
step and proves what it promises:

- **Day-range fill** (`date_range`, `preprocess_inputs`). The input dates
  and values are re-emitted over every day from the first input date to the
  last one. A repeated date keeps its last value, and a missing day gets 0.
- **The ISO-week grid** (`date_grid`). Each date goes to row "rank of its
  (ISO year, ISO week) among the distinct pairs" and to column "ISO weekday
  minus one", in a W x 7 grid. The horizontal layout is the transpose.
- **Label positions** (`add_month_label`, `add_year_label`). Each distinct
  (year, month) or year gets the position (max + 1 + min) / 2 over the
  long-axis indices of its cells, as an exact `real`.
- **The month outline** (`get_month_outline`). A month's cells are found
  row by row. A closed nine-vertex staircase polygon is drawn around them.
- **The calendar title** (`get_calendar_title`). One year gives
  "Calendar 2020" and two give "Calendar 2020 and 2021". From three years on,
  the source doubles the separator before the last year, giving
  "Calendar 2020, 2021, , and 2022" (see "## Findings"). The model has both
  this as-written title and the corrected "Calendar 2020, 2021, and 2022".
- **The option checks** of `cal_heatmap` and `add_value_label`.
- **`ConfigDict.__setitem__`**. This is a dictionary whose key set cannot
  grow through item assignment.

Dates are proleptic Gregorian ordinals, as Python's `date.toordinal`
numbers them (0001-01-01 is day 1). The `Calendar` module rebuilds the
parts of Python's `datetime` the core relies on from that number:
`date.year`, `date.month` and `date.isocalendar()`. The ISO week date is
the one of section 4.1.4 of ISO 8601:2004 (weeks run Monday to Sunday).

A grid is a `seq<seq<Option<T>>>`. `None` stands for numpy's NaN in a
float64 grid and for `None` in an object grid. Python exceptions become the
`Failure` side of `Base.Result`, with the exception kind in `Base.Error`.

Modules, one per file: `Base` (result types), `Calendar` (dates), `Order`
(tuple order, `sorted(set(...))`, `min`/`max`), `Grids` (`date_grid`),
`Utils` (`src/july/utils.py`), `Labels`, `Outline`, `Title` and `Options`
(`src/july/helpers.py`), and `RcMod` (`src/july/rcmod.py`).

## Model

| member | source | states |
|---|---|---|
| Utils.DateRange | src/july/utils.py:12-13 | the range is strictly increasing and holds exactly the days d with start <= d <= end |
| Utils.DateRangeShape | src/july/utils.py:12-13 | the length is end - start + 1, or 0 when end < start; element i is start + i; the first element is start and the last is end |
| Utils.ZipUnzip | src/july/utils.py:20 | unzipping `zip(dates, data)` gives back both lists cut to the shorter length, so no pair is lost or reordered |
| Utils.InsertByDate | src/july/utils.py:20 | inserting into a date-sorted list keeps it sorted, adds one element and keeps every old element |
| Utils.SortByDate | src/july/utils.py:20 | `sorted(..., key=date)` returns a date-sorted list of the same length |
| Utils.SortByDateStable | src/july/utils.py:20 | the sort is stable: the pairs of each date keep their input order |
| Utils.DictOfLastWins | src/july/utils.py:22 | `dict(pairs)` holds a date exactly when some pair has it, with the value of the last such pair |
| Utils.DictOfSorted | src/july/utils.py:20-22 | building the dict after the stable sort gives the same dict as building it from the input |
| Utils.LastValueIsDict | src/july/utils.py:20-22 | the reference "last value of the date among the zipped pairs" is exactly the dict lookup |
| Utils.PreprocessInputs | src/july/utils.py:16-28 | empty input fails with IndexError; otherwise the dates are `date_range(dates[0], dates[-1])` in input order, values and dates have equal length, and each day carries the last value given for it or 0 |
| Utils.PreprocessKeepsSpan | src/july/utils.py:24 | an input date is in the output exactly when it lies between the first and the last input date; dates outside that span are dropped |
| Utils.PreprocessSortedInput | src/july/utils.py:16-28 | for date-sorted input the output is strictly ascending, has one day per day from first to last, and every input date carries its last value |
| Utils.LastValueDistinct | src/july/utils.py:20-22 | with no repeated date, every date's value is its own input value |
| Utils.PreprocessIdempotent | src/july/utils.py:16-28 | filling an already filled series returns it unchanged |
| Calendar.DaysBeforeYearClosedForm | src/july/helpers.py:16 | counting the days of the years before y agrees with the closed form 365(y-1) + (y-1)/4 - (y-1)/100 + (y-1)/400 of Python's `datetime` |
| Calendar.ToCivil | src/july/helpers.py:147 | `day.year`, `day.month`, `day.day` form a valid calendar date whose ordinal is the day itself |
| Calendar.CivilRoundTrip | src/july/helpers.py:147 | calendar dates and ordinals are in one-to-one correspondence |
| Calendar.IsoYearLength | src/july/helpers.py:16 | consecutive ISO years start 364 or 371 days apart, so an ISO year has 52 or 53 weeks |
| Calendar.IsoCalendar | src/july/helpers.py:16 | `day.isocalendar()` gives the ISO year whose week-1 Monday is the last on or before the day, a week in 1..53 and a weekday in 1..7, and the day is week-1 Monday + 7(week-1) + (weekday-1) |
| Calendar.IsoYearUnique | src/july/helpers.py:16 | only one ISO year contains a given day |
| Calendar.IsoKeyMonotone | src/july/helpers.py:16-18 | a later date never has an earlier (ISO year, ISO week) |
| Calendar.IsoCellDeterminesDate | src/july/helpers.py:16-23 | two dates with the same (ISO year, ISO week) and the same weekday are the same date |
| Order.Insert | src/july/helpers.py:18 | inserting into a strictly sorted tuple list keeps it strictly sorted and adds exactly the new element |
| Order.SortedUnique | src/july/helpers.py:18 | `sorted(set(ks))` is strictly increasing, holds exactly the elements of ks, and has as many elements as their set |
| Order.RankIsIndex | src/july/helpers.py:21-22 | the `enumerate` index of a key in the sorted unique list is the number of distinct keys below it |
| Order.IndexOfMonotone | src/july/helpers.py:21-22 | indices in the sorted unique list follow the tuple order, and equal indices mean equal keys |
| Order.Min | src/july/helpers.py:158 | numpy's `min()` of a non-empty array is one of its elements and below all of them |
| Order.Max | src/july/helpers.py:158 | numpy's `max()` of a non-empty array is one of its elements and above all of them |
| Grids.TransposeTwice | src/july/helpers.py:34-35 | transposing twice gives the grid back |
| Grids.Scatter | src/july/helpers.py:32 | `grid[rows, cols] = data` keeps the grid's shape |
| Grids.ScatterContents | src/july/helpers.py:30-32 | with the writes taken in input order, each cell holds the value of the last write to it, and an unwritten cell keeps its NaN |
| Grids.Weeks | src/july/helpers.py:18 | the week axis is strictly sorted and holds exactly the distinct (ISO year, ISO week) pairs of the dates |
| Grids.WeekIndex | src/july/helpers.py:21-22 | each date's row is a valid index whose week pair is the date's own |
| Grids.WeekGrid | src/july/helpers.py:25-32 | the vertical grid has one row per distinct (ISO year, ISO week) pair and seven columns |
| Grids.DateGrid | src/july/helpers.py:12-37 | empty dates fail with IndexError; otherwise the grid has shape (W, 7), where W is the number of distinct week pairs, or (7, W) when horizontal, and the horizontal grid is exactly the transpose of the vertical one |
| Grids.CellIsRankAndWeekday | src/july/helpers.py:16-23 | a date's row is the rank of its (ISO year, ISO week) among the distinct pairs, and its column is ISO weekday - 1, within 0..6 |
| Grids.CellsInjective | src/july/helpers.py:16-23 | two dates share a cell exactly when they are the same date |
| Grids.WeekIndexMonotone | src/july/helpers.py:18-22 | the row never decreases as the date increases |
| Grids.WeekGridContents | src/july/helpers.py:29-32 | a cell holds a value exactly when some date maps to it, and then it holds the value of the last such date |
| Grids.DateGridPlacement | src/july/helpers.py:16-35 | the value of a date that is not repeated later sits in the date's cell, at (row, col) in the vertical grid and at (col, row) in the horizontal one |
| Grids.DateGridCoverage | src/july/helpers.py:29-35 | a cell is NaN exactly when no date maps to it, and the horizontal grid holds the same cell with the axes swapped |
| Labels.RowHits | src/july/helpers.py:156 | the cells of one row equal to the key are found, and only those |
| Labels.GridHits | src/july/helpers.py:156-179 | `np.nonzero(grid == key)` finds exactly the cells holding the key |
| Labels.LongCoords | src/july/helpers.py:151-182 | the long-axis indices are exactly the columns (horizontal) or rows (vertical) of the key's cells |
| Labels.Centroid | src/july/helpers.py:157-159 | `(xx.max() + 1 + xx.min()) / 2` as an exact real: the midpoint of the span from the least index to one past the greatest, so it lies between min + 0.5 and max + 0.5 |
| Labels.Locate | src/july/helpers.py:151-182 | the loop labels exactly the given keys, in their order; it fails exactly when some key has no cell, and then with numpy's empty-reduction error |
| Labels.LocateCentroids | src/july/helpers.py:151-182 | each located key sits at (max + 1 + min) / 2 of its coordinates |
| Labels.Positions | src/july/helpers.py:146-182 | empty dates fail with IndexError; labels come out in strictly increasing key order and cover exactly the keys present; for non-empty dates the loop succeeds exactly when every key has a cell |
| Labels.PositionsAtCentroids | src/july/helpers.py:151-182 | each label sits at (max + 1 + min) / 2 of the long-axis indices of its key's cells |
| Labels.LabelPositions | src/july/helpers.py:146-182 | month or year labels: sorted keys, exactly the keys of the dates, IndexError on empty input |
| Labels.CellHoldsKey | src/july/helpers.py:146-175 | a cell of the key grid holds key k exactly when some date with key k sits there |
| Labels.LongCoordsAreKeyRows | src/july/helpers.py:151-182 | the long-axis indices of a key's cells are exactly the week rows of the dates with that key, in either layout |
| Labels.KeyCentroid | src/july/helpers.py:151-182 | a present key has cells, and its position equals the centre of the week rows of its dates |
| Labels.PositionsSucceed | src/july/helpers.py:151-182 | for non-empty input every key has a cell, so the loop never raises |
| Labels.PositionsCentroids | src/july/helpers.py:146-182 | for non-empty input every label sits at (max + 1 + min) / 2 over the week rows of its dates, whichever way the grid is oriented |
| Labels.LabelCentroids | src/july/helpers.py:146-182 | the same for month and year labels |
| Outline.ScanRow | src/july/helpers.py:236-239 | a row scan succeeds exactly when no finite cell lacks a date; it then collects exactly that row's finite cells whose date has the month number, left to right |
| Outline.ScanRowFailure | src/july/helpers.py:236-238 | a failing row scan raises the error of the first finite cell without a date: IndexError outside the day grid, AttributeError on a None cell |
| Outline.ScanRows | src/july/helpers.py:233-239 | the scan succeeds exactly when no finite cell lacks a date; it then collects exactly the selected cells, in row-major order |
| Outline.ScanRowsFailure | src/july/helpers.py:233-238 | a failing scan raises the error of the first such cell in row-major order |
| Outline.Vertices | src/july/helpers.py:241-271 | nine vertices, the first and last both being the month's first cell |
| Outline.SwapTwice | src/july/helpers.py:273 | swapping twice gives the vertices back, and distinct vertex lists stay distinct |
| Outline.MonthOutline | src/july/helpers.py:227-273 | empty dates fail with IndexError; a success has nine vertices, first equal to last |
| Outline.RowMajorEnds | src/july/helpers.py:235-243 | in row-major order the first cell has the least y and the last cell the greatest |
| Outline.VerticesShape | src/july/helpers.py:242-271 | every vertex is given in terms of the first and last cells; `lower_right1` is always the last cell + (1, 0), so the `array_equal` branch never fires; every edge is horizontal or vertical |
| Outline.OutlineRectilinear | src/july/helpers.py:241-273 | every outline is closed and all its edges are axis-aligned, in either layout |
| Outline.OutlineHorizontal | src/july/helpers.py:227-273 | a horizontal outline is the vertical outline of the transposed grid with every vertex swapped to (y, x); both fail or succeed together, with the same error |
| Outline.CalendarScan | src/july/helpers.py:229-239 | on the calendar grid of the same dates the scan never fails and selects exactly the cells of the dates whose month number matches, whatever their year |
| Outline.CalendarOutlineVertical | src/july/helpers.py:227-273 | on the vertical calendar an outline exists exactly when some date has the month number, and otherwise the failure is IndexError |
| Outline.CalendarOutline | src/july/helpers.py:227-282 | the same in either layout, for the calendar grid `add_month_grid` passes in |
| Title.NatToString | src/july/helpers.py:297-304 | `str` of a non-negative int is a non-empty string of digits |
| Title.IntToString | src/july/helpers.py:297-304 | `str` of an int is non-empty and comma-free, a minus sign or digit followed by digits |
| Title.IntToStringRoundTrip | src/july/helpers.py:297-304 | `int(str(i)) == i` |
| Title.SplitJoin | src/july/helpers.py:300-304 | splitting a ", "-join of comma-free items at ", " gives the items back |
| Title.AccumulateIsJoin | src/july/helpers.py:301-303 | the loop builds the join of the years followed by one more ", " |
| Title.CalendarTitleAsWritten | src/july/helpers.py:295-304 | `get_calendar_title` as written: None exactly for no years, otherwise a string starting with "Calendar " |
| Title.CalendarTitle | src/july/helpers.py:295-304 | the corrected title: None exactly for no years, otherwise a string starting with "Calendar " |
| Title.CalendarTitleAsWrittenItems | src/july/helpers.py:295-304 | as written, the title agrees with the corrected title on one or two years; from three years on its ", "-separated items are the years but the last, an empty item, and "and <last>" |
| Title.DoubledSeparatorExample | src/july/helpers.py:300-304 | as written, [2020, 2021, 2022] gives the items "2020", "2021", "", "and 2022", that is "Calendar 2020, 2021, , and 2022" |
| Title.CalendarTitleItems | src/july/helpers.py:295-304 | the corrected title is None exactly for no years, and no item of its list is empty |
| Title.CalendarTitleItemsMany | src/july/helpers.py:300-304 | from three years on, the corrected title's items are the years but the last, then "and <last>" |
| Title.CalendarTitleItemsFew | src/july/helpers.py:296-299 | one year makes the single item str(Y) ("Calendar Y"), two years the single item "A and B" ("Calendar A and B") |
| Title.SingleSeparatorExample | src/july/helpers.py:300-304 | corrected, [2020, 2021, 2022] gives the items "2020", "2021", "and 2022" |
| Options.ValueFormatSpec | src/july/helpers.py:105-114 | the value format is accepted exactly when it is "int" or "decimal", and otherwise fails with ValueError carrying the value |
| Options.ValueFormatSpecRoundTrip | src/july/helpers.py:106-109 | distinct accepted formats get distinct format strings, and the format string gives its format back |
| Options.CheckOptions | src/july/helpers.py:69-83 | on success a format string is returned exactly when value labels are requested |
| Options.CheckOptionsAccepts | src/july/helpers.py:69-114 | options are accepted exactly when not both labels are set and a labelled value has a known format; the label clash is reported first, whatever the format; an unknown format fails with its own ValueError |
| Options.FormatUnusedWithoutValueLabel | src/july/helpers.py:82-83 | without value labels the format is never checked |
| RcMod.SetItem | src/july/rcmod.py:8-17 | assignment keeps the key set and key order; it fails exactly for a missing key, leaves the dictionary unchanged and reports the key and the current valid keys; otherwise only the assigned key changes, to the new value |
| RcMod.SetItems | src/july/rcmod.py:5-17 | a run of assignments never enlarges the key set, succeeds exactly when every key exists, and otherwise reports a missing key with the valid keys |
| RcMod.SetItemsValues | src/july/rcmod.py:16-17 | after successful assignments every key holds the last value assigned to it, or its old value |
| RcMod.SetItemTwice | src/july/rcmod.py:16-17 | assigning a key twice is the same as assigning the second value |
| RcMod.SetItemSame | src/july/rcmod.py:16-17 | assigning a key its current value changes nothing |

## Left out

- String dates: `date_range` parses strings with `strptime`. The model
  takes dates as day numbers only. Mixed string and date inputs are out.
- The `datetime` range limit (years 1 to 9999) is not modelled: any
  ordinal >= 1 is a date.
- `date_grid`'s `data` must have one value per date (`|data| == |dates|`).
  numpy would also broadcast a single value, which is not modelled.
- Grids.Scatter: numpy does not specify which value stays when
  `grid[rows, cols] = data` writes one cell twice. The model takes the
  writes in input order, so the last value stays. This matters only for
  repeated input dates.
- NaN or infinite input values: the grids carry values as `Option`, and a
  finite check on a stored value is taken to be true.
- Drawing and figure management: every matplotlib call, tick and text
  placement, the weekday labels, the colour bar, the colour limits, the
  axis limits, and the year annotation's axes-fraction coordinates. The
  figure that `cal_heatmap` creates before the option check is not
  modelled.
- The month abbreviations of the month labels (`calendar.month_abbr`) are
  not modelled, only the positions.
- Labels.Positions: month keys are compared in the source through their
  `str` renderings; the model compares the (year, month) tuples directly.
  The two agree, because `str` of an int tuple is injective.
- Options.CheckOptions: the `cmaps_dict[cmap]` lookup, which may raise
  KeyError before the option checks, is not modelled.
- Options.ValueFormatSpec: the ValueError message names 'float' while the
  code accepts "decimal". The message is modelled as written.
- RcMod.SetItem: the KeyError carries the key and the list of valid keys.
  The text that renders them with `repr` is not modelled.
- `update_rcparams` and the global `mpl.rcParams` are not modelled. This
  includes `rcmod.update(...)`, which goes through `dict.update` and
  bypasses the overridden `__setitem__`.
- `src/july/colormaps.py`, `src/july/plot.py`, `src/july/__init__.py` and
  `setup.py` are not part of this model.
- Title.IntToStringRoundTrip: `int` is modelled only on what `str`
  produces, with no whitespace, sign `+` or underscores.
- Title.DoubledSeparatorExample: the examples are stated through the
  title's ", "-separated items. `TitleItems` splits exactly as Python's
  `split(", ")` does, so the items determine the title.

## Findings

| source | as written | input that shows it | evidently intended | confidence | as-written member | corrected member |
|---|---|---|---|---|---|---|
| src/july/helpers.py:301-304 | the loop appends ", " after every year but the last, and then ", and " is appended, so the separator before "and" is doubled | [2020, 2021, 2022] gives "Calendar 2020, 2021, , and 2022" | "Calendar 2020, 2021, and 2022" | not executed | Title.CalendarTitleAsWritten (Title.DoubledSeparatorExample, Title.CalendarTitleAsWrittenItems) | Title.CalendarTitle (Title.SingleSeparatorExample, Title.CalendarTitleItems) |
