/** The document view's list: the search, department, proposer and permission
    filters of the main list, an optional "pending only" restriction, and a date
    filter in which a month takes precedence over a date range, which takes
    precedence over a single date. Dates are compared by calendar day, as they
    are on a host clock at or east of UTC. */
module DocumentsView {
  import opened Seqs
  import opened Text
  import opened Dates
  import opened Sorting
  import opened Pagination
  import opened Status
  import opened Documents
  import opened Search
  import opened FilterRecord
  import opened FilterPanel
  import AppDocuments

  /** `docTime >= new Date(dateFrom).getTime()`: false when either side is not a date. */
  predicate OnOrAfter(d: Document, from: string)
  {
    match (ParseIsoDate(d.submissionDate), ParseIsoDate(from))
    case (Some(x), Some(y)) => DayKey(x) >= DayKey(y)
    case _ => false
  }

  /** `docTime <= new Date(dateTo + 'T23:59:59').getTime()`: on or before that day. */
  predicate OnOrBefore(d: Document, to: string)
  {
    match (ParseIsoDate(d.submissionDate), ParseIsoDate(to))
    case (Some(x), Some(y)) => DayKey(x) <= DayKey(y)
    case _ => false
  }

  /** The year and month of the document's date equal those of the month filter. */
  predicate InMonthFilter(d: Document, month: string)
  {
    match (ParseIsoDate(d.submissionDate), ParseYearMonth(month))
    case (Some(x), Some(ym)) => InMonth(x, ym)
    case _ => false
  }

  /** The date filter, updated step by step as the view does: the month if set,
      else the range bounds that are set, else the exact date if set. */
  method DateMatch(d: Document, f: Filters) returns (dateMatch: bool)
    ensures dateMatch == DateMatches(d, f)
  {
    var dateFrom, dateTo, monthFilter := Get(f, "dateFrom"), Get(f, "dateTo"), Get(f, "monthFilter");
    dateMatch := true;
    if monthFilter != "" {
      dateMatch := InMonthFilter(d, monthFilter);
    } else if dateFrom != "" || dateTo != "" {
      if dateFrom != "" {
        dateMatch := dateMatch && OnOrAfter(d, dateFrom);
      }
      if dateTo != "" {
        dateMatch := dateMatch && OnOrBefore(d, dateTo);
      }
    } else if Get(f, "date") != "" {
      dateMatch := d.submissionDate == Get(f, "date");
    }
  }

  /** The date filter as one condition per precedence level. */
  predicate DateMatches(d: Document, f: Filters)
  {
    var dateFrom, dateTo, monthFilter := Get(f, "dateFrom"), Get(f, "dateTo"), Get(f, "monthFilter");
    if monthFilter != "" then InMonthFilter(d, monthFilter)
    else if dateFrom != "" || dateTo != "" then
      (dateFrom == "" || OnOrAfter(d, dateFrom)) && (dateTo == "" || OnOrBefore(d, dateTo))
    else Get(f, "date") == "" || d.submissionDate == Get(f, "date")
  }

  /** Whether a document is listed. */
  predicate ViewMatches(d: Document, f: Filters, onlyPending: bool)
  {
    (!onlyPending || GetStatusInfo(Permission, d.permission).text == "กำลังดำเนินการ") &&
    GuardedSearch(d, Get(f, "search")) &&
    DateMatches(d, f) &&
    (Get(f, "group") == "" || d.department == Get(f, "group")) &&
    (Get(f, "proposer") == "" || d.proposerName == Get(f, "proposer")) &&
    (Get(f, "permission") == "" || GetStatusInfo(Permission, d.permission).text == Get(f, "permission"))
  }

  function ViewMatchesFilters(f: Filters, onlyPending: bool): Document -> bool
  {
    d => ViewMatches(d, f, onlyPending)
  }

  /** The listed documents, newest first. */
  function ViewFilteredDocuments(docs: seq<Document>, f: Filters, onlyPending: bool): seq<Document>
  {
    SortDesc(Filter(docs, ViewMatchesFilters(f, onlyPending)), SubmissionKey)
  }

  /** The page shown, with `itemsPerPage` documents per page. */
  function ViewPage(docs: seq<Document>, f: Filters, onlyPending: bool, page: int, itemsPerPage: nat): seq<Document>
  {
    PageSlice(ViewFilteredDocuments(docs, f, onlyPending), page, itemsPerPage)
  }

  /** The list holds exactly the matching documents with their multiplicities,
      newest first, and same-date documents in input order. */
  lemma ViewFilteredDocumentsSpec(docs: seq<Document>, f: Filters, onlyPending: bool)
    ensures forall d :: multiset(ViewFilteredDocuments(docs, f, onlyPending))[d]
                        == if ViewMatches(d, f, onlyPending) then multiset(docs)[d] else 0
    ensures forall d :: d in ViewFilteredDocuments(docs, f, onlyPending) <==> d in docs && ViewMatches(d, f, onlyPending)
    ensures AppDocuments.NewestFirst(ViewFilteredDocuments(docs, f, onlyPending))
    ensures forall k :: Filter(ViewFilteredDocuments(docs, f, onlyPending), HasKey(SubmissionKey, k))
                     == Filter(Filter(docs, ViewMatchesFilters(f, onlyPending)), HasKey(SubmissionKey, k))
  {
    var p := ViewMatchesFilters(f, onlyPending);
    var r := ViewFilteredDocuments(docs, f, onlyPending);
    SortDescSpec(Filter(docs, p), SubmissionKey);
    forall d
      ensures multiset(r)[d] == if ViewMatches(d, f, onlyPending) then multiset(docs)[d] else 0
    {
      FilterMultiplicity(docs, p, d);
    }
    forall d
      ensures d in r <==> d in docs && ViewMatches(d, f, onlyPending)
    {
      assert d in r <==> multiset(r)[d] > 0;
      assert d in docs <==> multiset(docs)[d] > 0;
    }
  }

  /** With "pending only", every listed document is canonically pending. */
  lemma OnlyPendingKeepsPending(docs: seq<Document>, f: Filters)
    ensures forall i :: 0 <= i < |ViewFilteredDocuments(docs, f, true)| ==>
              GetStatusInfo(Permission, ViewFilteredDocuments(docs, f, true)[i].permission) == PermissionDescriptor(Pending)
  {
    ViewFilteredDocumentsSpec(docs, f, true);
    forall i | 0 <= i < |ViewFilteredDocuments(docs, f, true)|
      ensures GetStatusInfo(Permission, ViewFilteredDocuments(docs, f, true)[i].permission) == PermissionDescriptor(Pending)
    {
      var d := ViewFilteredDocuments(docs, f, true)[i];
      assert ViewMatches(d, f, true);
      GetStatusInfoTotal(Permission, d.permission);
      var k :| GetStatusInfo(Permission, d.permission) == PermissionDescriptor(k);
      PermissionTextsDistinct(k, Pending);
    }
  }

  /** A month filter decides alone: the range and the exact date are ignored. */
  lemma MonthTakesPrecedence(d: Document, f: Filters, from: string, to: string, date: string)
    requires Get(f, "monthFilter") != ""
    ensures DateMatches(d, f) == InMonthFilter(d, Get(f, "monthFilter"))
    ensures DateMatches(d, f) == DateMatches(d, f["dateFrom" := from]["dateTo" := to]["date" := date])
  {
  }

  /** Without a month, a range decides alone: the exact date is ignored, and a
      document matches iff its date is a date within the bounds that are set. */
  lemma RangeTakesPrecedence(d: Document, f: Filters, date: string)
    requires Get(f, "monthFilter") == "" && (Get(f, "dateFrom") != "" || Get(f, "dateTo") != "")
    ensures DateMatches(d, f) == DateMatches(d, f["date" := date])
    ensures DateMatches(d, f) ==> HasValidDate(d)
    ensures DateMatches(d, f) <==>
              (Get(f, "dateFrom") == "" || OnOrAfter(d, Get(f, "dateFrom"))) &&
              (Get(f, "dateTo") == "" || OnOrBefore(d, Get(f, "dateTo")))
  {
  }

  /** With neither month nor range, only the exact date, if set, constrains. */
  lemma ExactDateLast(d: Document, f: Filters)
    requires Get(f, "monthFilter") == "" && Get(f, "dateFrom") == "" && Get(f, "dateTo") == ""
    ensures DateMatches(d, f) <==> Get(f, "date") == "" || d.submissionDate == Get(f, "date")
  {
  }

  /** The range the month picker writes selects the same documents as its month
      when dateTo is the month's true last day: the month filter and the range
      from the first to the last day then agree on every document. */
  lemma MonthAgreesWithItsRange(d: Document, f: Filters, ym: string)
    requires IsMonthValue(ym)
    requires ParseYearMonth(ym).value.year >= 1000 && 1 <= ParseYearMonth(ym).value.month <= 12
    ensures var g := MonthChangeFilters(f, ym, LastDayOfMonth(ym));
            DateMatches(d, g) == DateMatches(d, g["monthFilter" := ""])
  {
    var m := ParseYearMonth(ym).value;
    var last := DaysInMonth(m.year, m.month);
    var g := MonthChangeFilters(f, ym, LastDayOfMonth(ym));
    MonthChangeSpec(f, ym, LastDayOfMonth(ym));
    FirstDayOfMonthRoundTrip(ym);
    LastDayParses(ym, last);
    var x := ParseIsoDate(d.submissionDate);
    if x.Some? {
      MonthIsDayRange(x.value, m);
    }
  }

  /** As written, on a host east of UTC dateTo is the day before the last day: a
      document dated the month's last day matches the month, and stops matching
      once the month is cleared and the range it wrote decides alone. */
  lemma MonthRangeDropsLastDay(d: Document, f: Filters, ym: string)
    requires IsMonthValue(ym)
    requires ParseYearMonth(ym).value.year >= 1000 && 1 <= ParseYearMonth(ym).value.month <= 12
    requires d.submissionDate == LastDayOfMonth(ym)
    ensures var g := MonthChangeFilters(f, ym, LastDayOfMonthEastOfUtc(ym));
            DateMatches(d, g) && !DateMatches(d, g["monthFilter" := ""])
  {
    var m := ParseYearMonth(ym).value;
    var last := DaysInMonth(m.year, m.month);
    MonthChangeSpec(f, ym, LastDayOfMonthEastOfUtc(ym));
    LastDayParses(ym, last);
    LastDayParses(ym, last - 1);
  }

  /** `YYYY-MM-dd` for a two-digit day of the month parses as that day. */
  lemma LastDayParses(ym: string, day: int)
    requires IsMonthValue(ym)
    requires 1 <= ParseYearMonth(ym).value.month <= 12
    requires 10 <= day <= DaysInMonth(ParseYearMonth(ym).value.year, ParseYearMonth(ym).value.month)
    ensures var m := ParseYearMonth(ym).value;
            ParseIsoDate(ym + "-" + PadStart2(DecimalString(day))) == Some(Date(m.year, m.month, day))
  {
    var dd := PadStart2(DecimalString(day));
    DecimalStringLength2(day);
    var s := ym + "-" + dd;
    assert s[..4] == ym[..4] && s[5..7] == ym[5..] && s[8..] == dd;
  }

  /** Without date-range or month keys and without "pending only", the view lists
      exactly what the main list lists. */
  lemma AgreesWithMainList(d: Document, f: Filters)
    requires Get(f, "monthFilter") == "" && Get(f, "dateFrom") == "" && Get(f, "dateTo") == ""
    ensures ViewMatches(d, f, false) <==> AppDocuments.Matches(d, f)
  {
    SearchFormsAgree(d, Get(f, "search"));
  }

  /** After the reset button every document is listed (unless only pending ones are). */
  lemma ResetListsEverything(d: Document, f: Filters)
    ensures ViewMatches(d, ResetFilters(f), false)
  {
    EmptySearchMatchesAll(d);
  }

  /** Every view page holds at most `itemsPerPage` documents, and pages 1..totalPages
      together are the whole list. */
  lemma ViewPagesSpec(docs: seq<Document>, f: Filters, onlyPending: bool, page: int, itemsPerPage: nat)
    requires itemsPerPage > 0
    ensures |ViewPage(docs, f, onlyPending, page, itemsPerPage)| <= itemsPerPage
    ensures var r := ViewFilteredDocuments(docs, f, onlyPending);
            Pages(r, TotalPages(|r|, itemsPerPage), itemsPerPage) == r
  {
    var r := ViewFilteredDocuments(docs, f, onlyPending);
    PageSliceBounded(r, page, itemsPerPage);
    PagesCoverList(r, itemsPerPage);
  }
}
