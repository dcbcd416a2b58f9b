/** Calendar dates as the views handle them: ISO `YYYY-MM-DD` strings (document
    submission dates and the date inputs), the `YYYY-MM` value of a month input,
    and an ordering key that compares two dates as comparing their
    `Date.prototype.getTime()` values does. */
module Dates {
  import opened Seqs
  import opened Text

  datatype Date = Date(year: int, month: int, day: int)

  datatype YearMonth = YearMonth(year: int, month: int)

  predicate IsLeapYear(y: int)
  {
    (y % 4 == 0 && y % 100 != 0) || y % 400 == 0
  }

  function DaysInMonth(y: int, m: int): int
    requires 1 <= m <= 12
  {
    if m == 2 then (if IsLeapYear(y) then 29 else 28)
    else if m == 4 || m == 6 || m == 9 || m == 11 then 30
    else 31
  }

  predicate IsValidDate(d: Date)
  {
    1 <= d.month <= 12 && 1 <= d.day <= DaysInMonth(d.year, d.month)
  }

  /** Parses an ISO calendar date `YYYY-MM-DD`. None stands for JavaScript's
      Invalid Date: a malformed string or a day the month does not have. */
  function ParseIsoDate(s: string): (r: Option<Date>)
    ensures r.Some? ==> IsValidDate(r.value)
  {
    if |s| == 10 && AllDigits(s[..4]) && s[4] == '-' && AllDigits(s[5..7]) && s[7] == '-' && AllDigits(s[8..]) then
      var d := Date(DigitsValue(s[..4]), DigitsValue(s[5..7]), DigitsValue(s[8..]));
      if IsValidDate(d) then Some(d) else None
    else None
  }

  /** Calendar order: by year, then month, then day. */
  predicate CalendarLe(a: Date, b: Date)
  {
    a.year < b.year || (a.year == b.year && (a.month < b.month || (a.month == b.month && a.day <= b.day)))
  }

  /** An integer key for a date. It is not a count of days, but it orders valid
      dates exactly as the calendar does, which is all the views use getTime() for. */
  function DayKey(d: Date): int
  {
    d.year * 372 + (d.month - 1) * 31 + (d.day - 1)
  }

  /** DayKey is an order embedding of the valid dates: it compares as the calendar,
      in both directions, and distinct dates have distinct keys. */
  lemma DayKeyOrder(a: Date, b: Date)
    requires IsValidDate(a) && IsValidDate(b)
    ensures DayKey(a) <= DayKey(b) <==> CalendarLe(a, b)
    ensures DayKey(a) == DayKey(b) ==> a == b
  {
    var ra := (a.month - 1) * 31 + (a.day - 1);
    var rb := (b.month - 1) * 31 + (b.day - 1);
    assert 0 <= ra < 372 && 0 <= rb < 372;
    if a.year < b.year {
      assert a.year * 372 + 372 <= b.year * 372;
    } else if a.year > b.year {
      assert b.year * 372 + 372 <= a.year * 372;
    }
  }

  /** Whether `s` has the shape of a month input's value, `YYYY-MM`. */
  predicate IsMonthValue(s: string)
  {
    |s| == 7 && AllDigits(s[..4]) && s[4] == '-' && AllDigits(s[5..])
  }

  /** `s.split('-').map(Number)` for a month value. Only the month input writes
      this filter, so any other shape is treated as matching no date. */
  function ParseYearMonth(s: string): (r: Option<YearMonth>)
    ensures r.Some? <==> IsMonthValue(s)
  {
    if IsMonthValue(s) then Some(YearMonth(DigitsValue(s[..4]), DigitsValue(s[5..]))) else None
  }

  predicate InMonth(d: Date, ym: YearMonth)
  {
    d.year == ym.year && d.month == ym.month
  }

  /** A month, seen as the inclusive range from its first to its last day: a valid
      date is in the month exactly when its key lies between theirs. */
  lemma MonthIsDayRange(d: Date, ym: YearMonth)
    requires IsValidDate(d) && 1 <= ym.month <= 12
    ensures var first, last := Date(ym.year, ym.month, 1), Date(ym.year, ym.month, DaysInMonth(ym.year, ym.month));
            InMonth(d, ym) <==> DayKey(first) <= DayKey(d) <= DayKey(last)
  {
    var first, last := Date(ym.year, ym.month, 1), Date(ym.year, ym.month, DaysInMonth(ym.year, ym.month));
    DayKeyOrder(first, d);
    DayKeyOrder(d, last);
  }

  /** `String(m).padStart(2, '0')`. */
  function PadStart2(s: string): string
  {
    if |s| == 0 then "00" else if |s| == 1 then ['0'] + s else s
  }

  /** The first day that handleMonthChange writes into dateFrom:
      `${y}-${String(m).padStart(2, '0')}-01` with y and m read by Number. */
  function FirstDayOfMonth(ym: string): string
    requires IsMonthValue(ym)
  {
    var y, m := DigitsValue(ym[..4]), DigitsValue(ym[5..]);
    DecimalString(y) + "-" + PadStart2(DecimalString(m)) + "-01"
  }

  /** The month's true last day as `YYYY-MM-dd`: the day `new Date(y, m, 0)`
      denotes, written as `toISOString` writes it on a host at or west of UTC. */
  function LastDayOfMonth(ym: string): string
    requires IsMonthValue(ym) && 1 <= ParseYearMonth(ym).value.month <= 12
  {
    var m := ParseYearMonth(ym).value;
    ym + "-" + PadStart2(DecimalString(DaysInMonth(m.year, m.month)))
  }

  /** What `new Date(y, m, 0).toISOString().slice(0, 10)` writes on a host east of
      UTC: the local midnight that starts the last day is still the day before in
      UTC, so the string names the day before the last day. */
  function LastDayOfMonthEastOfUtc(ym: string): string
    requires IsMonthValue(ym) && 1 <= ParseYearMonth(ym).value.month <= 12
  {
    var m := ParseYearMonth(ym).value;
    ym + "-" + PadStart2(DecimalString(DaysInMonth(m.year, m.month) - 1))
  }

  /** Two digit strings of the same length and value are the same string. */
  lemma {:induction false} DigitsValueInjective(a: string, b: string)
    requires AllDigits(a) && AllDigits(b) && |a| == |b|
    requires DigitsValue(a) == DigitsValue(b)
    ensures a == b
  {
    if a != [] {
      var n := |a| - 1;
      var da, db := a[n] as int - '0' as int, b[n] as int - '0' as int;
      assert DigitsValue(a) == DigitsValue(a[..n]) * 10 + da;
      assert DigitsValue(b) == DigitsValue(b[..n]) * 10 + db;
      assert da == db && DigitsValue(a[..n]) == DigitsValue(b[..n]);
      DigitsValueInjective(a[..n], b[..n]);
      assert a == a[..n] + [a[n]] && b == b[..n] + [b[n]];
    }
  }

  /** The padded month is the two-digit field the month input gave. */
  lemma PaddedMonth(mm: string)
    requires |mm| == 2 && AllDigits(mm)
    ensures PadStart2(DecimalString(DigitsValue(mm))) == mm
  {
    var m := DigitsValue(mm);
    var p := PadStart2(DecimalString(m));
    assert m == DigitsValue(mm[..1]) * 10 + (mm[1] as int - '0' as int);
    assert m < 100;
    if m < 10 {
      LeadingZero(DecimalString(m));
    } else {
      DecimalStringLength2(m);
    }
    DigitsValueInjective(p, mm);
  }

  /** For a four-digit year without leading zero the first day is the month value
      followed by `-01`, and it parses back as day 1 of that month. */
  lemma FirstDayOfMonthRoundTrip(ym: string)
    requires IsMonthValue(ym)
    requires ParseYearMonth(ym).value.year >= 1000 && 1 <= ParseYearMonth(ym).value.month <= 12
    ensures FirstDayOfMonth(ym) == ym + "-01"
    ensures var ym' := ParseYearMonth(ym).value;
            ParseIsoDate(FirstDayOfMonth(ym)) == Some(Date(ym'.year, ym'.month, 1))
  {
    var y, m := DigitsValue(ym[..4]), DigitsValue(ym[5..]);
    assert y <= 9999 by {
      DigitsBound4(ym[..4]);
    }
    DecimalStringLength4(y);
    DigitsValueInjective(DecimalString(y), ym[..4]);
    PaddedMonth(ym[5..]);
    assert ym == ym[..4] + "-" + ym[5..];
    var s := ym + "-01";
    assert s[..4] == ym[..4] && s[5..7] == ym[5..] && s[8..] == "01";
    assert DigitsValue("01") == 1 by {
      assert "01"[..1] == "0";
      assert "0"[..0] == "";
    }
  }

  lemma DigitsBound4(s: string)
    requires |s| == 4 && AllDigits(s)
    ensures DigitsValue(s) <= 9999
  {
    assert s[..1][..0] == [] && s[..2][..1] == s[..1] && s[..3][..2] == s[..2];
    assert DigitsValue(s[..1]) <= 9;
    assert DigitsValue(s[..2]) <= 99;
    assert DigitsValue(s[..3]) <= 999;
  }
}
