/** The calendar title of `get_calendar_title` (src/july/helpers.py): the
    years joined into English prose after the word "Calendar". */
module Title {
  import opened Base

  /** The decimal digit of 0 <= d < 10. */
  function DigitChar(d: int): char
    requires 0 <= d < 10
  {
    "0123456789"[d]
  }

  predicate IsDigit(c: char) {
    '0' <= c <= '9'
  }

  /** Python's `str` of a non-negative int. */
  function NatToString(n: nat): (s: string)
    ensures |s| > 0 && forall i :: 0 <= i < |s| ==> IsDigit(s[i])
    decreases n
  {
    if n < 10 then [DigitChar(n)] else NatToString(n / 10) + [DigitChar(n % 10)]
  }

  /** Python's `str` of an int: a minus sign before the digits of a negative. */
  function IntToString(i: int): (s: string)
    ensures |s| > 0 && CommaFree(s)
    ensures s[0] == '-' || IsDigit(s[0])
    ensures forall k :: 0 < k < |s| ==> IsDigit(s[k])
  {
    if i < 0 then "-" + NatToString(-i) else NatToString(i)
  }

  /** The value of a string of decimal digits. */
  function DigitsValue(s: string): int
    requires forall i :: 0 <= i < |s| ==> IsDigit(s[i])
  {
    if |s| == 0 then 0 else 10 * DigitsValue(s[..|s| - 1]) + (s[|s| - 1] as int - '0' as int)
  }

  /** `int(s)` on what `str` produces. */
  function ParseInt(s: string): int
    requires |s| > 0 && forall k :: 0 < k < |s| ==> IsDigit(s[k])
    requires s[0] == '-' || IsDigit(s[0])
  {
    if s[0] == '-' then 0 - DigitsValue(s[1..]) else DigitsValue(s)
  }

  lemma {:induction false} NatToStringRoundTrip(n: nat)
    ensures DigitsValue(NatToString(n)) == n
    decreases n
  {
    if n >= 10 {
      NatToStringRoundTrip(n / 10);
      var s := NatToString(n);
      assert s[..|s| - 1] == NatToString(n / 10);
    }
  }

  /** `int(str(i)) == i`. */
  lemma IntToStringRoundTrip(i: int)
    ensures ParseInt(IntToString(i)) == i
  {
    if i < 0 {
      NatToStringRoundTrip(-i);
      assert IntToString(i)[1..] == NatToString(-i);
    } else {
      NatToStringRoundTrip(i);
    }
  }

  /** `", ".join(items)`. */
  function Join(items: seq<string>): string
    requires |items| > 0
  {
    if |items| == 1 then items[0] else items[0] + ", " + Join(items[1..])
  }

  /** Python's `s.split(", ")`: cut at each occurrence, left to right. */
  function Split(s: string): (items: seq<string>)
    ensures |items| > 0
    decreases |s|
  {
    if |s| < 2 then [s]
    else if s[..2] == ", " then [""] + Split(s[2..])
    else
      var rest := Split(s[1..]);
      [[s[0]] + rest[0]] + rest[1..]
  }

  predicate CommaFree(s: string) {
    forall i :: 0 <= i < |s| ==> s[i] != ','
  }

  lemma {:induction false} SplitCommaFree(a: string)
    requires CommaFree(a)
    ensures Split(a) == [a]
    decreases |a|
  {
    if |a| >= 2 {
      assert a[..2] != ", " by { assert a[..2][0] == a[0]; }
      SplitCommaFree(a[1..]);
      assert [a[0]] + a[1..] == a;
    }
  }

  lemma {:induction false} SplitAfter(a: string, t: string)
    requires CommaFree(a)
    ensures Split(a + ", " + t) == [a] + Split(t)
    decreases |a|
  {
    var s := a + ", " + t;
    if |a| == 0 {
      assert s[..2] == ", ";
      assert s[2..] == t;
    } else {
      assert s[..2] != ", " by { assert s[..2][0] == a[0]; }
      assert s[1..] == a[1..] + ", " + t;
      SplitAfter(a[1..], t);
      assert [a[0]] + a[1..] == a;
    }
  }

  /** Splitting a join of comma-free items gives the items back. */
  lemma {:induction false} SplitJoin(items: seq<string>)
    requires |items| > 0 && forall i :: 0 <= i < |items| ==> CommaFree(items[i])
    ensures Split(Join(items)) == items
  {
    if |items| == 1 {
      SplitCommaFree(items[0]);
    } else {
      SplitJoin(items[1..]);
      SplitAfter(items[0], Join(items[1..]));
      assert [items[0]] + items[1..] == items;
    }
  }

  /** The years as strings. */
  function Strs(years: seq<int>): (ss: seq<string>)
    ensures |ss| == |years| && forall i :: 0 <= i < |years| ==> ss[i] == IntToString(years[i])
  {
    seq(|years|, i requires 0 <= i < |years| => IntToString(years[i]))
  }

  /** The loop `for year in years[:-1]: word_str += f"{year}, "`. */
  function Accumulate(years: seq<int>): string {
    if |years| == 0 then "" else Accumulate(years[..|years| - 1]) + IntToString(years[|years| - 1]) + ", "
  }

  /** The loop leaves a separator after every year, so it is the joined
      years followed by one more ", ". */
  lemma {:induction false} AccumulateIsJoin(years: seq<int>)
    requires |years| > 0
    ensures Accumulate(years) == Join(Strs(years)) + ", "
  {
    var n := |years|;
    var init := years[..n - 1];
    var last := IntToString(years[n - 1]);
    if n > 1 {
      AccumulateIsJoin(init);
      JoinSnoc(Strs(init), last);
      StrsInit(years);
      assert Accumulate(years) == Join(Strs(init)) + ", " + last + ", ";
    }
  }

  /** The strings of all years: those of all but the last, then the last. */
  lemma StrsInit(years: seq<int>)
    requires |years| > 0
    ensures Strs(years) == Strs(years[..|years| - 1]) + [IntToString(years[|years| - 1])]
  {
  }

  lemma {:induction false} JoinSnoc(items: seq<string>, x: string)
    requires |items| > 0
    ensures Join(items + [x]) == Join(items) + ", " + x
  {
    if |items| > 1 {
      JoinSnoc(items[1..], x);
      assert (items + [x])[1..] == items[1..] + [x];
    }
  }

  /** `get_calendar_title(years)` as written: from three years on, the loop's
      trailing ", " meets the literal ", and ", doubling the separator. No
      years fall through to None. */
  function CalendarTitleAsWritten(years: seq<int>): (r: Option<string>)
    ensures r.None? <==> |years| == 0
    ensures r.Some? ==> |r.value| > 9 && r.value[..9] == "Calendar "
  {
    if |years| == 1 then Some("Calendar " + IntToString(years[0]))
    else if |years| == 2 then Some("Calendar " + IntToString(years[0]) + " and " + IntToString(years[1]))
    else if |years| > 2 then Some("Calendar " + Accumulate(years[..|years| - 1]) + ", and " + IntToString(years[|years| - 1]))
    else None
  }

  /** The title with one separator before "and", as in "Calendar 2020, 2021,
      and 2022". */
  function CalendarTitle(years: seq<int>): (r: Option<string>)
    ensures r.None? <==> |years| == 0
    ensures r.Some? ==> |r.value| > 9 && r.value[..9] == "Calendar "
  {
    if |years| == 1 then Some("Calendar " + IntToString(years[0]))
    else if |years| == 2 then Some("Calendar " + IntToString(years[0]) + " and " + IntToString(years[1]))
    else if |years| > 2 then Some("Calendar " + Join(Strs(years[..|years| - 1])) + ", and " + IntToString(years[|years| - 1]))
    else None
  }

  /** The list items of a title: what follows "Calendar ", split at ", ". */
  function TitleItems(title: string): seq<string> {
    if |title| >= 9 && title[..9] == "Calendar " then Split(title[9..]) else []
  }

  /** The items of "Calendar " followed by a body are the body's pieces. */
  lemma TitleItemsOf(body: string)
    ensures TitleItems("Calendar " + body) == Split(body)
    ensures ("Calendar " + body)[9..] == body
  {
    var t := "Calendar " + body;
    assert t[..9] == "Calendar ";
    assert t[9..] == body;
  }

  /** From three years on, the corrected title lists every year but the
      last as its own item and ends with the item "and <last>". */
  lemma CalendarTitleItemsMany(years: seq<int>)
    requires |years| > 2
    ensures CalendarTitle(years).Some?
    ensures TitleItems(CalendarTitle(years).value) == Strs(years[..|years| - 1]) + ["and " + IntToString(years[|years| - 1])]
  {
    var n := |years|;
    var init := Strs(years[..n - 1]);
    var last := IntToString(years[n - 1]);
    var items := init + ["and " + last];
    JoinSnoc(init, "and " + last);
    assert CalendarTitle(years).value == "Calendar " + Join(items) by {
      Regroup("Calendar ", Join(init), last);
    }
    TitleItemsOf(Join(items));
    SplitJoin(items);
  }

  /** `c + j + ", and " + l`, regrouped as the join of j with "and " + l. */
  lemma Regroup(c: string, j: string, l: string)
    ensures c + j + ", and " + l == c + (j + ", " + ("and " + l))
  {
  }

  /** One year makes the single item "Y", two years the single item "A and B". */
  lemma CalendarTitleItemsFew(years: seq<int>)
    requires 0 < |years| <= 2
    ensures CalendarTitle(years).Some?
    ensures TitleItems(CalendarTitle(years).value) == [CalendarTitle(years).value[9..]]
    ensures |years| == 1 ==> TitleItems(CalendarTitle(years).value) == [IntToString(years[0])]
    ensures |years| == 2 ==>
      TitleItems(CalendarTitle(years).value) == [IntToString(years[0]) + " and " + IntToString(years[1])]
  {
    var body := FewBody(years);
    FewTitle(years);
    SplitCommaFree(body);
    TitleItemsOf(body);
  }

  /** What follows "Calendar " for one or two years. */
  function FewBody(years: seq<int>): (b: string)
    requires 0 < |years| <= 2
    ensures CommaFree(b)
  {
    if |years| == 1 then IntToString(years[0]) else IntToString(years[0]) + " and " + IntToString(years[1])
  }

  lemma FewTitle(years: seq<int>)
    requires 0 < |years| <= 2
    ensures CalendarTitle(years) == Some("Calendar " + FewBody(years))
  {
    if |years| == 2 {
      assert "Calendar " + IntToString(years[0]) + " and " + IntToString(years[1])
        == "Calendar " + (IntToString(years[0]) + " and " + IntToString(years[1]));
    }
  }

  /** The corrected title: None without years, and otherwise a list whose
      items are never empty. */
  lemma CalendarTitleItems(years: seq<int>)
    ensures |years| == 0 <==> CalendarTitle(years).None?
    ensures |years| > 0 ==> forall i :: 0 <= i < |TitleItems(CalendarTitle(years).value)| ==> TitleItems(CalendarTitle(years).value)[i] != ""
  {
    if |years| > 2 {
      CalendarTitleItemsMany(years);
    } else if |years| > 0 {
      CalendarTitleItemsFew(years);
    }
  }

  /** `c + (j + ", ") + ", and " + l`, regrouped as the join of j, the empty
      string and "and " + l. */
  lemma RegroupDoubled(c: string, j: string, l: string)
    ensures c + (j + ", ") + ", and " + l == c + (j + ", " + "" + ", " + ("and " + l))
  {
  }

  /** The source agrees with the corrected title on up to two years, and from
      three years on its item list has an extra empty item before "and". */
  lemma CalendarTitleAsWrittenItems(years: seq<int>)
    ensures |years| <= 2 ==> CalendarTitleAsWritten(years) == CalendarTitle(years)
    ensures |years| > 2 ==>
      TitleItems(CalendarTitleAsWritten(years).value)
        == Strs(years[..|years| - 1]) + ["", "and " + IntToString(years[|years| - 1])]
  {
    if |years| > 2 {
      CalendarTitleAsWrittenMany(years);
    }
  }

  /** From three years on the title as written is "Calendar " and the join
      of the years but the last, an empty item and "and <last>". */
  lemma CalendarTitleAsWrittenMany(years: seq<int>)
    requires |years| > 2
    ensures TitleItems(CalendarTitleAsWritten(years).value)
      == Strs(years[..|years| - 1]) + ["", "and " + IntToString(years[|years| - 1])]
  {
    var n := |years|;
    var last := IntToString(years[n - 1]);
    var extra := ["", "and " + last];
    AsWrittenJoin(years[..n - 1], last);
    AndCommaFree(last);
    StrsCommaFree(years[..n - 1], extra);
    TitleItemsOfJoin(Strs(years[..n - 1]) + extra);
  }

  /** A title made of comma-free items gives the items back. */
  lemma TitleItemsOfJoin(items: seq<string>)
    requires |items| > 0 && forall i :: 0 <= i < |items| ==> CommaFree(items[i])
    ensures TitleItems("Calendar " + Join(items)) == items
  {
    TitleItemsOf(Join(items));
    SplitJoin(items);
  }

  lemma AndCommaFree(last: string)
    requires CommaFree(last)
    ensures CommaFree("and " + last)
  {
  }

  /** The years' strings followed by comma-free items are all comma-free. */
  lemma StrsCommaFree(years: seq<int>, extra: seq<string>)
    requires forall i :: 0 <= i < |extra| ==> CommaFree(extra[i])
    ensures forall i :: 0 <= i < |Strs(years) + extra| ==> CommaFree((Strs(years) + extra)[i])
  {
  }

  /** The loop's output followed by ", and <last>" is a join with an empty
      item before "and <last>". */
  lemma AsWrittenJoin(init: seq<int>, last: string)
    requires |init| > 0
    ensures "Calendar " + Accumulate(init) + ", and " + last
      == "Calendar " + Join(Strs(init) + ["", "and " + last])
  {
    var ss := Strs(init);
    var items := ss + ["", "and " + last];
    AccumulateIsJoin(init);
    assert ss + [""] + ["and " + last] == items;
    JoinSnoc(ss, "");
    JoinSnoc(ss + [""], "and " + last);
    AsWrittenShape(Accumulate(init), Join(ss), Join(ss + [""]), Join(items), last);
  }

  /** The string regrouping behind AsWrittenJoin. */
  lemma AsWrittenShape(a: string, j: string, j1: string, j2: string, l: string)
    requires a == j + ", " && j1 == j + ", " + "" && j2 == j1 + ", " + ("and " + l)
    ensures "Calendar " + a + ", and " + l == "Calendar " + j2
  {
    RegroupDoubled("Calendar ", j, l);
  }

  /** The decimal form of a four-digit number. */
  lemma FourDigits(n: nat)
    requires 1000 <= n < 10000
    ensures IntToString(n) == [DigitChar(n / 1000), DigitChar(n / 100 % 10), DigitChar(n / 10 % 10), DigitChar(n % 10)]
  {
    assert n / 10 / 10 == n / 100 && n / 100 / 10 == n / 1000;
    assert NatToString(n / 1000) == [DigitChar(n / 1000)];
    assert NatToString(n / 100) == [DigitChar(n / 1000), DigitChar(n / 100 % 10)];
    assert NatToString(n / 10) == [DigitChar(n / 1000), DigitChar(n / 100 % 10), DigitChar(n / 10 % 10)];
  }

  lemma Years2020s()
    ensures IntToString(2020) == "2020" && IntToString(2021) == "2021" && IntToString(2022) == "2022"
  {
    Year202x(2020);
    Year202x(2021);
    Year202x(2022);
    assert DigitChar(0) == '0' && DigitChar(1) == '1' && DigitChar(2) == '2';
  }

  lemma Year202x(n: nat)
    requires 2020 <= n <= 2029
    ensures IntToString(n) == ['2', '0', '2', DigitChar(n % 10)]
  {
    FourDigits(n);
    assert n / 1000 == 2 && n / 100 % 10 == 0 && n / 10 % 10 == 2;
    assert DigitChar(2) == '2' && DigitChar(0) == '0';
  }

  /** The pieces both example titles are made of. */
  lemma ExampleParts(years: seq<int>)
    requires years == [2020, 2021, 2022]
    ensures Strs(years[..|years| - 1]) == ["2020", "2021"]
    ensures "and " + IntToString(years[|years| - 1]) == "and 2022"
  {
    Years2020s();
    assert years[..2] == [2020, 2021];
    PairStrs(years[..2]);
  }

  lemma PairStrs(ys: seq<int>)
    requires |ys| == 2
    ensures Strs(ys) == [IntToString(ys[0]), IntToString(ys[1])]
  {
  }

  /** The input [2020, 2021, 2022] gives "Calendar 2020, 2021, , and 2022",
      whose items are "2020", "2021", an empty one and "and 2022". */
  lemma DoubledSeparatorExample(years: seq<int>)
    requires years == [2020, 2021, 2022]
    ensures TitleItems(CalendarTitleAsWritten(years).value) == ["2020", "2021", "", "and 2022"]
  {
    CalendarTitleAsWrittenMany(years);
    ExampleParts(years);
  }

  /** The corrected title of [2020, 2021, 2022], "Calendar 2020, 2021, and
      2022", has the items "2020", "2021" and "and 2022". */
  lemma SingleSeparatorExample(years: seq<int>)
    requires years == [2020, 2021, 2022]
    ensures TitleItems(CalendarTitle(years).value) == ["2020", "2021", "and 2022"]
  {
    CalendarTitleItemsMany(years);
    ExampleParts(years);
  }
}
