/** The `publicationDateOrYear` filter sent with the search: the month `pastMonths`
    months before today, and today's month, each written `YYYY-MM`, joined and
    ended by `:`. `Date` is the calendar part of a JavaScript `Date` in local time. */
module DateRange {
  import opened Wrappers
  import opened Text

  /** A calendar date as `getFullYear()`, `getMonth()` (0 = January) and `getDate()`. */
  datatype Date = Date(year: int, month: int, day: int)

  predicate IsLeapYear(y: int)
  {
    y % 4 == 0 && (y % 100 != 0 || y % 400 == 0)
  }

  /** Days in month `m` (0-based) of year `y`, in the proleptic Gregorian calendar. */
  function DaysIn(y: int, m: int): (n: int)
    ensures 28 <= n <= 31
  {
    if m == 1 then (if IsLeapYear(y) then 29 else 28)
    else if m == 3 || m == 5 || m == 8 || m == 10 then 30
    else 31
  }

  predicate ValidDate(d: Date)
  {
    0 <= d.month < 12 && 1 <= d.day <= DaysIn(d.year, d.month)
  }

  /** Months since January of year 0. */
  function MonthIndex(year: int, month: int): int
  {
    12 * year + month
  }

  /** `d.setMonth(m)`: month `m` counted from January of `d`'s year (any integer, so
      it may leave the year in either direction), keeping the day of the month; a day
      past the end of the target month runs over into the next month. */
  function SetMonth(d: Date, m: int): (r: Date)
    requires ValidDate(d)
    ensures ValidDate(r)
    ensures var target := MonthIndex(d.year, m);
      if d.day <= DaysIn(target / 12, target % 12) then
        MonthIndex(r.year, r.month) == target && r.day == d.day
      else
        MonthIndex(r.year, r.month) == target + 1 && r.day == d.day - DaysIn(target / 12, target % 12)
  {
    var target := MonthIndex(d.year, m);
    var y, mo := target / 12, target % 12;
    if d.day <= DaysIn(y, mo) then Date(y, mo, d.day)
    else if mo < 11 then Date(y, mo + 1, d.day - DaysIn(y, mo))
    else Date(y + 1, 0, d.day - DaysIn(y, mo))
  }

  /** `today.setMonth(today.getMonth() - pastMonths)`. */
  function MonthsBack(today: Date, pastMonths: int): Date
    requires ValidDate(today)
  {
    SetMonth(today, today.month - pastMonths)
  }

  /** The start date does not fit in the target month, so `setMonth` ran over. */
  predicate DayOverflows(today: Date, pastMonths: int)
  {
    var target := MonthIndex(today.year, today.month - pastMonths);
    today.day > DaysIn(target / 12, target % 12)
  }

  /** Going back `p >= 0` months lands `p` months earlier, or `p - 1` when the day ran
      over; a day that fits is kept, and going back 0 months stays put. */
  lemma MonthsBackSpan(today: Date, p: int)
    requires ValidDate(today)
    ensures var s := MonthsBack(today, p);
      && ValidDate(s)
      && MonthIndex(today.year, today.month) - MonthIndex(s.year, s.month)
         == (if DayOverflows(today, p) then p - 1 else p)
      && (!DayOverflows(today, p) ==> s.day == today.day)
      && (p == 0 ==> s == today)
  {
    var target := MonthIndex(today.year, today.month - p);
    if p == 0 {
      assert target / 12 == today.year && target % 12 == today.month;
    }
  }

  /** A month as written in the filter: the year and the 1-based month. */
  datatype YearMonth = YearMonth(year: int, month: int)

  /** A `start:end` window of the filter. */
  datatype Window = Window(start: YearMonth, end: YearMonth)

  predicate ValidMonth(ym: YearMonth)
  {
    1 <= ym.month <= 12
  }

  /** `a` is not later than `b`. */
  predicate NotAfter(a: YearMonth, b: YearMonth)
  {
    MonthIndex(a.year, a.month) <= MonthIndex(b.year, b.month)
  }

  /** `n.toString().padStart(2, '0')`. */
  function Pad2(n: int): string
  {
    PadStart(IntToString(n), 2, '0')
  }

  /** `${year}-${MM}`. */
  function EndpointText(ym: YearMonth): string
  {
    IntToString(ym.year) + "-" + Pad2(ym.month)
  }

  /** `${start}:${end}:`. */
  function WindowText(w: Window): string
  {
    EndpointText(w.start) + ":" + EndpointText(w.end) + ":"
  }

  /** Lines 20-24, 30 as written: both endpoints carry the year of the start month. */
  function WindowAsWritten(today: Date, pastMonths: int): (w: Window)
    requires ValidDate(today)
    ensures ValidMonth(w.start) && ValidMonth(w.end)
    ensures w.start.year == w.end.year
    ensures w.start == IntendedWindow(today, pastMonths).start
    ensures w.end.month == today.month + 1
  {
    var s := MonthsBack(today, pastMonths);
    Window(YearMonth(s.year, s.month + 1), YearMonth(s.year, today.month + 1))
  }

  function DateFilterAsWritten(today: Date, pastMonths: int): string
    requires ValidDate(today)
  {
    WindowText(WindowAsWritten(today, pastMonths))
  }

  /** The window the filter is meant to name: from the start month to today's month. */
  function IntendedWindow(today: Date, pastMonths: int): (w: Window)
    requires ValidDate(today)
    ensures ValidMonth(w.start) && ValidMonth(w.end)
  {
    var s := MonthsBack(today, pastMonths);
    Window(YearMonth(s.year, s.month + 1), YearMonth(today.year, today.month + 1))
  }

  function DateFilter(today: Date, pastMonths: int): string
    requires ValidDate(today)
  {
    WindowText(IntendedWindow(today, pastMonths))
  }

  // Reading the filter back.

  /** Decimal digits, with a leading minus sign or without. */
  predicate IsIntText(s: string)
  {
    (s != [] && AllDigits(s)) || (|s| >= 2 && s[0] == '-' && AllDigits(s[1..]))
  }

  function ParseInt(s: string): int
    requires IsIntText(s)
  {
    if s[0] == '-' then -(DigitsValue(s[1..]) as int) else DigitsValue(s)
  }

  /** The first position of `c` in `s`. */
  function IndexOf(s: string, c: char): (r: Option<nat>)
    ensures r.Some? ==> r.value < |s| && s[r.value] == c && c !in s[..r.value]
    ensures r.None? ==> c !in s
  {
    if s == [] then None
    else if s[0] == c then Some(0)
    else match IndexOf(s[1..], c)
      case None => None
      case Some(i) =>
        assert s[..i + 1] == [s[0]] + s[1..][..i];
        Some(i + 1)
  }

  /** `YYYY-MM`, where the year is any integer text. */
  function ParseEndpoint(e: string): Option<YearMonth>
  {
    if |e| < 4 || e[|e| - 3] != '-' then None
    else
      var yearText, monthText := e[..|e| - 3], e[|e| - 2..];
      if IsIntText(yearText) && AllDigits(monthText) then
        Some(YearMonth(ParseInt(yearText), DigitsValue(monthText)))
      else None
  }

  /** `start:end:`, split at the first `:`. */
  function ParseWindow(s: string): Option<Window>
  {
    match IndexOf(s, ':')
    case None => None
    case Some(i) =>
      var rest := s[i + 1..];
      if rest == [] || rest[|rest| - 1] != ':' then None
      else match (ParseEndpoint(s[..i]), ParseEndpoint(rest[..|rest| - 1]))
        case (Some(a), Some(b)) => Some(Window(a, b))
        case _ => None
  }

  lemma IntToStringRoundTrip(n: int)
    ensures IsIntText(IntToString(n))
    ensures ParseInt(IntToString(n)) == n
    ensures ':' !in IntToString(n)
  {
    if n < 0 {
      NatToStringRoundTrip(-n);
      assert IntToString(n)[1..] == NatToString(-n);
    } else {
      NatToStringRoundTrip(n);
    }
  }

  lemma Pad2RoundTrip(m: int)
    requires 1 <= m <= 12
    ensures |Pad2(m)| == 2 && AllDigits(Pad2(m))
    ensures DigitsValue(Pad2(m)) == m
  {
    var digits := NatToString(m);
    NatToStringRoundTrip(m);
    if m < 10 {
      Pad2OneDigit(m);
      LeadingZero(digits);
    } else {
      Pad2TwoDigits(m);
    }
  }

  lemma Pad2OneDigit(m: int)
    requires 1 <= m < 10
    ensures Pad2(m) == ['0'] + NatToString(m)
    ensures |NatToString(m)| == 1
  {
    var digits := NatToString(m);
    assert IntToString(m) == digits;
    assert digits == [DigitChar(m)];
    PadOneDigit(digits);
  }

  lemma Pad2TwoDigits(m: int)
    requires 10 <= m <= 12
    ensures Pad2(m) == NatToString(m)
    ensures |NatToString(m)| == 2
  {
    var digits := NatToString(m);
    assert IntToString(m) == digits;
    assert digits == NatToString(m / 10) + [DigitChar(m % 10)];
    PadWide(digits);
  }

  lemma PadOneDigit(s: string)
    requires |s| == 1
    ensures PadStart(s, 2, '0') == ['0'] + s
  {
  }

  lemma PadWide(s: string)
    requires |s| >= 2
    ensures PadStart(s, 2, '0') == s
  {
  }

  lemma LeadingZero(s: string)
    requires AllDigits(s)
    ensures AllDigits(['0'] + s)
    ensures DigitsValue(['0'] + s) == DigitsValue(s)
    decreases |s|
  {
    if s != [] {
      var t := ['0'] + s;
      assert t[..|t| - 1] == ['0'] + s[..|s| - 1];
      LeadingZero(s[..|s| - 1]);
    } else {
      assert ['0'] + s == ['0'];
      assert ['0'][..0] == [];
    }
  }

  lemma EndpointRoundTrip(ym: YearMonth)
    requires ValidMonth(ym)
    ensures ParseEndpoint(EndpointText(ym)) == Some(ym)
    ensures ':' !in EndpointText(ym)
  {
    IntToStringRoundTrip(ym.year);
    Pad2RoundTrip(ym.month);
    ParseEndpointOf(IntToString(ym.year), Pad2(ym.month));
  }

  lemma ParseEndpointOf(yearText: string, monthText: string)
    requires IsIntText(yearText) && |monthText| == 2 && AllDigits(monthText)
    ensures ParseEndpoint(yearText + "-" + monthText)
            == Some(YearMonth(ParseInt(yearText), DigitsValue(monthText)))
    ensures ':' !in yearText + "-" + monthText
  {
    var e := yearText + "-" + monthText;
    assert e[..|e| - 3] == yearText;
    assert e[|e| - 2..] == monthText;
  }

  /** The filter text names exactly the window it was built from. */
  lemma WindowRoundTrip(w: Window)
    requires ValidMonth(w.start) && ValidMonth(w.end)
    ensures ParseWindow(WindowText(w)) == Some(w)
  {
    EndpointRoundTrip(w.start);
    EndpointRoundTrip(w.end);
    ParseWindowOf(EndpointText(w.start), EndpointText(w.end));
  }

  lemma ParseWindowOf(a: string, b: string)
    requires ':' !in a
    requires ParseEndpoint(a).Some? && ParseEndpoint(b).Some?
    ensures ParseWindow(a + ":" + b + ":") == Some(Window(ParseEndpoint(a).value, ParseEndpoint(b).value))
  {
    var s := a + ":" + b + ":";
    FirstColon(a, b + ":");
    assert s == a + [':'] + (b + ":");
    assert s[..|a|] == a;
    assert s[|a| + 1..] == b + ":";
    assert (b + ":")[..|b|] == b;
  }

  lemma FirstColon(a: string, rest: string)
    requires ':' !in a
    ensures IndexOf(a + [':'] + rest, ':') == Some(|a|)
  {
    var s := a + [':'] + rest;
    assert s[|a|] == ':';
    assert s[..|a|] == a;
  }

  /** Lines 20-30, intended reading: for `p >= 0` the filter reads back as a window
      that ends at today's month, starts `p` months earlier (`p - 1` when the day ran
      over), and never starts after it ends. */
  lemma DateFilterWindow(today: Date, p: int)
    requires ValidDate(today) && p >= 0
    ensures var w := IntendedWindow(today, p);
      && ParseWindow(DateFilter(today, p)) == Some(w)
      && w.end == YearMonth(today.year, today.month + 1)
      && MonthIndex(w.end.year, w.end.month) - MonthIndex(w.start.year, w.start.month)
         == (if DayOverflows(today, p) then p - 1 else p)
      && NotAfter(w.start, w.end)
  {
    var w := IntendedWindow(today, p);
    WindowRoundTrip(w);
    assert DateFilter(today, p) == WindowText(w);
    IntendedWindowSpan(today, p);
  }

  /** The month arithmetic behind the window, apart from its text. */
  lemma IntendedWindowSpan(today: Date, p: int)
    requires ValidDate(today) && p >= 0
    ensures var w := IntendedWindow(today, p);
      && w.end == YearMonth(today.year, today.month + 1)
      && MonthIndex(w.end.year, w.end.month) - MonthIndex(w.start.year, w.start.month)
         == (if DayOverflows(today, p) then p - 1 else p)
      && NotAfter(w.start, w.end)
  {
    MonthsBackSpan(today, p);
    if p == 0 {
      assert !DayOverflows(today, p);
    }
  }

  /** The filter as written and the intended one differ exactly when the start month
      lies in another year than today. */
  lemma AsWrittenRightOnlyWithinYear(today: Date, p: int)
    requires ValidDate(today)
    ensures DateFilterAsWritten(today, p) == DateFilter(today, p)
            <==> MonthsBack(today, p).year == today.year
  {
    var wa, wi := WindowAsWritten(today, p), IntendedWindow(today, p);
    if DateFilterAsWritten(today, p) == DateFilter(today, p) {
      WindowRoundTrip(wa);
      WindowRoundTrip(wi);
      assert wa == wi;
    }
  }

  /** With `0 <= p < 12`, a window as written that starts in an earlier year than
      today reads back with its start after its end. */
  lemma AsWrittenInvertedAcrossYear(today: Date, p: int)
    requires ValidDate(today) && 0 <= p < 12
    requires MonthsBack(today, p).year != today.year
    ensures var w := WindowAsWritten(today, p);
      && ParseWindow(DateFilterAsWritten(today, p)) == Some(w)
      && !NotAfter(w.start, w.end)
  {
    WindowRoundTrip(WindowAsWritten(today, p));
    MonthsBackSpan(today, p);
  }

  /** On 15 March 2026, ten months back, the filter as written asks for May 2025 to
      March 2025, an empty window, instead of May 2025 to March 2026. */
  lemma AsWrittenExample()
    ensures DateFilterAsWritten(Date(2026, 2, 15), 10) == "2025-05:2025-03:"
    ensures DateFilter(Date(2026, 2, 15), 10) == "2025-05:2026-03:"
  {
    var today := Date(2026, 2, 15);
    assert MonthsBack(today, 10) == Date(2025, 4, 15);
    YearTexts();
    Pad2OneDigit(5);
    Pad2OneDigit(3);
    assert Pad2(5) == "05" && Pad2(3) == "03";
  }

  lemma YearTexts()
    ensures IntToString(2025) == "2025" && IntToString(2026) == "2026"
  {
    assert NatToString(2) == "2";
    assert NatToString(20) == "20";
    assert NatToString(202) == "202";
  }
}
