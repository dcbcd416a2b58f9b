/** The filter and page state a document list keeps, and the handlers of the
    document view that overwrite it: the filter inputs, the month picker, the
    reset button, the search button and the page buttons. */
module FilterPanel {
  import opened FilterRecord
  import opened Dates
  import opened Pagination

  /** The eight keys the reset button blanks. */
  const ViewKeys: set<string> := {"search", "date", "dateFrom", "dateTo", "monthFilter", "group", "proposer", "permission"}

  /** `{ ...f, search: '', date: '', dateFrom: '', dateTo: '', monthFilter: '', group: '', proposer: '', permission: '' }`. */
  function ResetFilters(f: Filters): (r: Filters)
    ensures forall k :: k in ViewKeys ==> Get(r, k) == ""
    ensures forall k :: k !in ViewKeys ==> Get(r, k) == Get(f, k)
  {
    f["search" := ""]["date" := ""]["dateFrom" := ""]["dateTo" := ""]["monthFilter" := ""]
     ["group" := ""]["proposer" := ""]["permission" := ""]
  }

  /** The record handleMonthChange writes. An empty value clears the month and the
      range; a month value sets the month, its first day and the given last day. */
  function MonthChangeFilters(f: Filters, ym: string, lastDay: string): Filters
    requires ym == "" || IsMonthValue(ym)
  {
    if ym == "" then f["monthFilter" := ""]["dateFrom" := ""]["dateTo" := ""]
    else f["monthFilter" := ym]["dateFrom" := FirstDayOfMonth(ym)]["dateTo" := lastDay]
  }

  /** The month picker touches only the month and the two range keys; a month from
      year 1000 on starts its range at its own `-01` day. */
  lemma MonthChangeSpec(f: Filters, ym: string, lastDay: string)
    requires ym == "" || IsMonthValue(ym)
    ensures var r := MonthChangeFilters(f, ym, lastDay);
            Get(r, "monthFilter") == ym &&
            (ym == "" ==> Get(r, "dateFrom") == "" && Get(r, "dateTo") == "") &&
            (forall k :: k !in {"monthFilter", "dateFrom", "dateTo"} ==> Get(r, k) == Get(f, k))
    ensures ym != "" && ParseYearMonth(ym).value.year >= 1000 && 1 <= ParseYearMonth(ym).value.month <= 12 ==>
              Get(MonthChangeFilters(f, ym, lastDay), "dateFrom") == ym + "-01" &&
              Get(MonthChangeFilters(f, ym, lastDay), "dateTo") == lastDay
  {
    if ym != "" && ParseYearMonth(ym).value.year >= 1000 && 1 <= ParseYearMonth(ym).value.month <= 12 {
      FirstDayOfMonthRoundTrip(ym);
    }
  }

  class Panel {
    var filters: Filters
    var currentPage: int

    /** The page is always a page number the buttons can show. */
    predicate Valid()
      reads this
    {
      currentPage >= 1
    }

    constructor (initial: Filters)
      ensures Valid()
      ensures filters == initial && currentPage == 1
    {
      filters := initial;
      currentPage := 1;
    }

    /** The search box, the department and the permission selects:
        `setFilters({ ...filters, key: value })`. */
    method SetFilter(key: string, value: string)
      requires key == "search" || key == "group" || key == "permission"
      modifies this
      ensures filters == old(filters)[key := value]
      ensures Get(filters, key) == value && forall k :: k != key ==> Get(filters, k) == Get(old(filters), k)
      ensures currentPage == old(currentPage)
    {
      filters := filters[key := value];
    }

    /** Editing either end of the date range also clears the month filter, so the
        range governs from then on. */
    method SetDateBound(key: string, value: string)
      requires key == "dateFrom" || key == "dateTo"
      modifies this
      ensures filters == old(filters)[key := value]["monthFilter" := ""]
      ensures Get(filters, key) == value && Get(filters, "monthFilter") == ""
      ensures forall k :: k != key && k != "monthFilter" ==> Get(filters, k) == Get(old(filters), k)
      ensures currentPage == old(currentPage)
    {
      filters := filters[key := value]["monthFilter" := ""];
    }

    /** handleMonthChange; `lastDay` is the last day of the month as the host's
        clock formats it. */
    method MonthChange(ym: string, lastDay: string)
      requires ym == "" || IsMonthValue(ym)
      modifies this
      ensures filters == MonthChangeFilters(old(filters), ym, lastDay)
      ensures Get(filters, "monthFilter") == ym
      ensures forall k :: k !in {"monthFilter", "dateFrom", "dateTo"} ==> Get(filters, k) == Get(old(filters), k)
      ensures currentPage == old(currentPage)
    {
      MonthChangeSpec(filters, ym, lastDay);
      filters := MonthChangeFilters(filters, ym, lastDay);
    }

    /** resetFilters: the eight filter keys blank, any other key kept, back to page 1. */
    method Reset()
      requires Valid()
      modifies this
      ensures Valid()
      ensures filters == ResetFilters(old(filters)) && currentPage == 1
    {
      filters := ResetFilters(filters);
      currentPage := 1;
    }

    /** The search button only returns to the first page. */
    method SearchButton()
      modifies this
      ensures Valid()
      ensures filters == old(filters) && currentPage == 1
    {
      currentPage := 1;
    }

    /** A numbered page button. */
    method GoToPage(page: int)
      requires 1 <= page
      modifies this
      ensures Valid()
      ensures filters == old(filters) && currentPage == page
    {
      currentPage := page;
    }

    /** The previous button: `Math.max(1, currentPage - 1)`. */
    method Prev()
      requires Valid()
      modifies this
      ensures Valid()
      ensures filters == old(filters) && currentPage == PrevPage(old(currentPage))
      ensures currentPage == if old(currentPage) == 1 then 1 else old(currentPage) - 1
    {
      currentPage := PrevPage(currentPage);
    }

    /** The next button: `Math.min(totalPages, currentPage + 1)`. It is only shown
        when there is more than one page. */
    method Next(totalPages: int)
      requires Valid() && totalPages > 1
      modifies this
      ensures Valid()
      ensures filters == old(filters) && currentPage == NextPage(old(currentPage), totalPages)
      ensures old(currentPage) <= totalPages ==> 1 <= currentPage <= totalPages
    {
      currentPage := NextPage(currentPage, totalPages);
    }
  }
}
