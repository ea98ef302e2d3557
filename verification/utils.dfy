/** The day-range fill of src/july/utils.py: `date_range` lists every day
    between two dates, and `preprocess_inputs` re-emits (date, value) pairs
    over the range between the first and the last input date, with 0 for
    the days that have no value. */
module Utils {
  import opened Base
  import opened Calendar

  /** A (date, value) pair, as `zip(dates, data)` produces. */
  type Entry = (Date, real)

  /** `date_range(start, end)`: the days start, start + 1, ..., end; empty
      when end is before start. */
  function DateRange(start: Date, end: Date): (r: seq<Date>)
    ensures forall i, j :: 0 <= i < j < |r| ==> r[i] < r[j]
    ensures forall d :: d in r <==> start <= d <= end
  {
    var r := seq(if end < start then 0 else end - start + 1, i => start + i);
    assert forall d :: start <= d <= end ==> d in r by {
      forall d | start <= d <= end ensures d in r {
        assert r[d - start] == d;
      }
    }
    r
  }

  /** The range has one day per day between its ends, each one day after
      the previous. */
  lemma DateRangeShape(start: Date, end: Date)
    ensures |DateRange(start, end)| == if end < start then 0 else end - start + 1
    ensures forall i :: 0 <= i < |DateRange(start, end)| ==> DateRange(start, end)[i] == start + i
    ensures start <= end ==> DateRange(start, end)[0] == start
    ensures start <= end ==> DateRange(start, end)[|DateRange(start, end)| - 1] == end
  {
  }

  /** `zip(dates, data)`, which stops at the shorter list. */
  function Zip(dates: seq<Date>, data: seq<real>): (z: seq<Entry>)
    ensures |z| == if |dates| < |data| then |dates| else |data|
    ensures forall i :: 0 <= i < |z| ==> z[i] == (dates[i], data[i])
  {
    seq(if |dates| < |data| then |dates| else |data|, i requires 0 <= i < |dates| && 0 <= i < |data| => (dates[i], data[i]))
  }

  /** The dates of a list of pairs. */
  function Firsts(z: seq<Entry>): (ds: seq<Date>)
    ensures |ds| == |z| && forall i :: 0 <= i < |z| ==> ds[i] == z[i].0
  {
    seq(|z|, i requires 0 <= i < |z| => z[i].0)
  }

  /** The values of a list of pairs. */
  function Seconds(z: seq<Entry>): (vs: seq<real>)
    ensures |vs| == |z| && forall i :: 0 <= i < |z| ==> vs[i] == z[i].1
  {
    seq(|z|, i requires 0 <= i < |z| => z[i].1)
  }

  /** Unzipping gives back the two lists, cut to the shorter one's length. */
  lemma ZipUnzip(dates: seq<Date>, data: seq<real>)
    ensures var n := if |dates| < |data| then |dates| else |data|;
      Firsts(Zip(dates, data)) == dates[..n] && Seconds(Zip(dates, data)) == data[..n]
  {
  }

  predicate SortedByDate(s: seq<Entry>) {
    forall i, j :: 0 <= i < j < |s| ==> s[i].0 <= s[j].0
  }

  /** The entries of s dated d, in their order in s. */
  function Filter(s: seq<Entry>, d: Date): seq<Entry> {
    if |s| == 0 then []
    else (if s[0].0 == d then [s[0]] else []) + Filter(s[1..], d)
  }

  lemma {:induction false} FilterAppend(a: seq<Entry>, b: seq<Entry>, d: Date)
    ensures Filter(a + b, d) == Filter(a, d) + Filter(b, d)
    decreases |a|
  {
    if |a| > 0 {
      assert (a + b)[0] == a[0];
      assert (a + b)[1..] == a[1..] + b;
      FilterAppend(a[1..], b, d);
      assert Filter(a + b, d) == (if a[0].0 == d then [a[0]] else []) + Filter(a[1..] + b, d);
    } else {
      assert a + b == b;
    }
  }

  /** The last entry of s, split off, is filtered on its own. */
  lemma FilterSnoc(s: seq<Entry>, d: Date)
    requires |s| > 0
    ensures Filter(s, d) == Filter(s[..|s| - 1], d) + (if s[|s| - 1].0 == d then [s[|s| - 1]] else [])
  {
    var n := |s| - 1;
    assert s == s[..n] + [s[n]];
    FilterAppend(s[..n], [s[n]], d);
  }

  /** Inserts e after every entry dated no later than e. */
  function InsertByDate(s: seq<Entry>, e: Entry): (r: seq<Entry>)
    requires SortedByDate(s)
    ensures SortedByDate(r)
    ensures |r| == |s| + 1
    ensures forall x :: x in r <==> x in s || x == e
  {
    if |s| == 0 then [e]
    else if e.0 < s[0].0 then [e] + s
    else
      var t := InsertByDate(s[1..], e);
      assert forall x :: x in s[1..] ==> s[0].0 <= x.0;
      [s[0]] + t
  }

  /** Python's `sorted(pairs, key=lambda x: x[0])`: a stable sort by date. */
  function SortByDate(s: seq<Entry>): (r: seq<Entry>)
    ensures SortedByDate(r)
    ensures |r| == |s|
  {
    if |s| == 0 then []
    else
      var n := |s| - 1;
      InsertByDate(SortByDate(s[..n]), s[n])
  }

  /** Inserting keeps the entries of each date in order, e after the others. */
  lemma {:induction false} InsertByDateStable(s: seq<Entry>, e: Entry, d: Date)
    requires SortedByDate(s)
    ensures Filter(InsertByDate(s, e), d) == Filter(s, d) + (if e.0 == d then [e] else [])
    decreases |s|
  {
    if |s| == 0 {
    } else if e.0 < s[0].0 {
      var r := InsertByDate(s, e);
      assert r[1..] == s;
      if e.0 == d {
        NoneDated(s, d);
      }
    } else {
      InsertByDateStable(s[1..], e, d);
      var r := InsertByDate(s, e);
      assert r[0] == s[0] && r[1..] == InsertByDate(s[1..], e);
    }
  }

  lemma {:induction false} NoneDated(s: seq<Entry>, d: Date)
    requires forall i :: 0 <= i < |s| ==> s[i].0 != d
    ensures Filter(s, d) == []
    decreases |s|
  {
    if |s| > 0 {
      NoneDated(s[1..], d);
    }
  }

  /** The sort is stable: the entries of each date keep their input order. */
  lemma {:induction false} SortByDateStable(s: seq<Entry>, d: Date)
    ensures Filter(SortByDate(s), d) == Filter(s, d)
    decreases |s|
  {
    if |s| > 0 {
      var n := |s| - 1;
      SortByDateStable(s[..n], d);
      InsertByDateStable(SortByDate(s[..n]), s[n], d);
      FilterSnoc(s, d);
    }
  }

  /** Python's `dict(pairs)`: each pair is assigned in turn, so a later pair
      overwrites an earlier one with the same date. */
  function DictOf(s: seq<Entry>): map<Date, real> {
    if |s| == 0 then map[]
    else DictOf(s[..|s| - 1])[s[|s| - 1].0 := s[|s| - 1].1]
  }

  /** A dict holds a date exactly when some pair has it, with the value of
      the last such pair. */
  lemma {:induction false} DictOfLastWins(s: seq<Entry>, d: Date)
    ensures d in DictOf(s) <==> Filter(s, d) != []
    ensures d in DictOf(s) ==> DictOf(s)[d] == Filter(s, d)[|Filter(s, d)| - 1].1
    decreases |s|
  {
    if |s| > 0 {
      DictOfLastWins(s[..|s| - 1], d);
      FilterSnoc(s, d);
    }
  }

  /** Sorting before building the dict does not change it. */
  lemma DictOfSorted(s: seq<Entry>)
    ensures DictOf(SortByDate(s)) == DictOf(s)
  {
    var a, b := DictOf(SortByDate(s)), DictOf(s);
    forall d ensures (d in a <==> d in b) && (d in a ==> a[d] == b[d]) {
      SortByDateStable(s, d);
      DictOfLastWins(SortByDate(s), d);
      DictOfLastWins(s, d);
    }
  }

  /** Reference meaning of the fill: the value of the last input pair dated
      d, among the pairs `zip` forms. */
  function LastValue(dates: seq<Date>, data: seq<real>, d: Date): Option<real>
    decreases |dates|
  {
    var n := if |dates| < |data| then |dates| else |data|;
    if n == 0 then None
    else if dates[n - 1] == d then Some(data[n - 1])
    else LastValue(dates[..n - 1], data[..n - 1], d)
  }

  lemma {:induction false} LastValueIsDict(dates: seq<Date>, data: seq<real>, d: Date)
    ensures LastValue(dates, data, d).Some? <==> d in DictOf(Zip(dates, data))
    ensures d in DictOf(Zip(dates, data)) ==> LastValue(dates, data, d).value == DictOf(Zip(dates, data))[d]
    decreases |dates|
  {
    var z := Zip(dates, data);
    var n := |z|;
    if n > 0 {
      assert z[..n - 1] == Zip(dates[..n - 1], data[..n - 1]);
      LastValueIsDict(dates[..n - 1], data[..n - 1], d);
    }
  }

  /** `preprocess_inputs(dates, data)`: the days from the FIRST input date to
      the LAST one (in input order, not the earliest and latest), each with
      the value of its last input pair or 0. An empty input fails with
      IndexError at `dates[0]`. */
  function PreprocessInputs(dates: seq<Date>, data: seq<real>): (r: Result<(seq<Date>, seq<real>), Error>)
    ensures r.Failure? <==> |dates| == 0
    ensures r.Failure? ==> r.error == IndexError
    ensures r.Success? ==> r.value.0 == DateRange(dates[0], dates[|dates| - 1])
    ensures r.Success? ==> |r.value.1| == |r.value.0|
    ensures r.Success? ==> forall i :: 0 <= i < |r.value.0| ==>
      r.value.1[i] == (match LastValue(dates, data, r.value.0[i])
                       case Some(v) => v
                       case None => 0.0)
  {
    if |dates| == 0 then Failure(IndexError)
    else
      var dict := DictOf(SortByDate(Zip(dates, data)));
      var out := DateRange(dates[0], dates[|dates| - 1]);
      DictOfSorted(Zip(dates, data));
      assert forall d :: LastValue(dates, data, d).Some? <==> d in dict by {
        forall d ensures LastValue(dates, data, d).Some? <==> d in dict {
          LastValueIsDict(dates, data, d);
        }
      }
      var values := seq(|out|, i requires 0 <= i < |out| => if out[i] in dict then dict[out[i]] else 0.0);
      assert forall i :: 0 <= i < |out| ==>
        values[i] == (match LastValue(dates, data, out[i]) case Some(v) => v case None => 0.0) by {
        forall i | 0 <= i < |out| ensures values[i] == (match LastValue(dates, data, out[i]) case Some(v) => v case None => 0.0) {
          LastValueIsDict(dates, data, out[i]);
        }
      }
      Success((out, values))
  }

  /** A date between the first and last input date keeps its last value; an
      input date outside that span is dropped. */
  lemma PreprocessKeepsSpan(dates: seq<Date>, data: seq<real>, j: int)
    requires 0 <= j < |dates|
    ensures var r := PreprocessInputs(dates, data).value;
      (dates[0] <= dates[j] <= dates[|dates| - 1] <==> dates[j] in r.0)
  {
  }

  /** For input sorted by date, the output is strictly ascending, holds
      every day from the first to the last input date, and every input date
      carries its last value. */
  lemma PreprocessSortedInput(dates: seq<Date>, data: seq<real>)
    requires |dates| > 0 && |data| == |dates|
    requires forall i, j :: 0 <= i < j < |dates| ==> dates[i] <= dates[j]
    ensures var r := PreprocessInputs(dates, data).value;
      && (forall i, j :: 0 <= i < j < |r.0| ==> r.0[i] < r.0[j])
      && |r.0| == (dates[|dates| - 1] as int) - (dates[0] as int) + 1
      && (forall j :: 0 <= j < |dates| ==>
            (exists i :: 0 <= i < |r.0| && r.0[i] == dates[j] && LastValue(dates, data, dates[j]) == Some(r.1[i])))
  {
    var r := PreprocessInputs(dates, data).value;
    DateRangeShape(dates[0], dates[|dates| - 1]);
    forall j | 0 <= j < |dates|
      ensures exists i :: 0 <= i < |r.0| && r.0[i] == dates[j] && LastValue(dates, data, dates[j]) == Some(r.1[i])
    {
      assert dates[0] <= dates[j] <= dates[|dates| - 1];
      var i := (dates[j] as int) - (dates[0] as int);
      assert r.0[i] == dates[j];
      LastValueFound(dates, data, j);
    }
  }

  lemma {:induction false} LastValueFound(dates: seq<Date>, data: seq<real>, j: int)
    requires 0 <= j < |dates| && j < |data|
    ensures LastValue(dates, data, dates[j]).Some?
    decreases |dates|
  {
    var n := if |dates| < |data| then |dates| else |data|;
    if dates[n - 1] != dates[j] {
      LastValueFound(dates[..n - 1], data[..n - 1], j);
    }
  }

  /** With no repeated date, the last value of a date is its only value. */
  lemma {:induction false} LastValueDistinct(dates: seq<Date>, data: seq<real>, j: int)
    requires |data| == |dates| && 0 <= j < |dates|
    requires forall a, b :: 0 <= a < b < |dates| ==> dates[a] != dates[b]
    ensures LastValue(dates, data, dates[j]) == Some(data[j])
    decreases |dates|
  {
    if j < |dates| - 1 {
      LastValueDistinct(dates[..|dates| - 1], data[..|data| - 1], j);
    }
  }

  /** Filling an already filled series changes nothing. */
  lemma PreprocessIdempotent(dates: seq<Date>, data: seq<real>)
    requires |dates| > 0 && dates[0] <= dates[|dates| - 1]
    ensures PreprocessInputs(dates, data).Success?
    ensures var r := PreprocessInputs(dates, data).value;
      PreprocessInputs(r.0, r.1) == Success(r)
  {
    var r := PreprocessInputs(dates, data).value;
    DateRangeShape(dates[0], dates[|dates| - 1]);
    assert r.0[0] == dates[0] && r.0[|r.0| - 1] == dates[|dates| - 1];
    var again := PreprocessInputs(r.0, r.1).value;
    assert again.0 == r.0;
    forall i | 0 <= i < |r.0| ensures again.1[i] == r.1[i] {
      LastValueDistinct(r.0, r.1, i);
    }
    assert again.1 == r.1;
  }
}
