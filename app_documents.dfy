/** The main document list: the documents that pass every active filter, newest
    first, cut into pages of ten; and the proposer names the visitor page offers. */
module AppDocuments {
  import opened Seqs
  import opened Text
  import opened Dates
  import opened Sorting
  import opened Pagination
  import opened Status
  import opened Documents
  import opened Search
  import opened FilterRecord

  const ItemsPerPage: nat := 10

  /** A document passes the five filters: search, exact date, department,
      proposer and the canonical permission text. An empty filter accepts all. */
  predicate Matches(d: Document, f: Filters)
  {
    AnyFieldMatches(d, Get(f, "search")) &&
    (Get(f, "date") == "" || d.submissionDate == Get(f, "date")) &&
    (Get(f, "group") == "" || d.department == Get(f, "group")) &&
    (Get(f, "proposer") == "" || d.proposerName == Get(f, "proposer")) &&
    (Get(f, "permission") == "" || GetStatusInfo(Permission, d.permission).text == Get(f, "permission"))
  }

  function MatchesFilters(f: Filters): Document -> bool
  {
    d => Matches(d, f)
  }

  /** filteredDocuments: the matching documents sorted by submission date, newest first. */
  function FilteredDocuments(docs: seq<Document>, f: Filters): seq<Document>
  {
    SortDesc(Filter(docs, MatchesFilters(f)), SubmissionKey)
  }

  /** paginatedDocuments: page `page` of the filtered list. */
  function PaginatedDocuments(docs: seq<Document>, f: Filters, page: int): seq<Document>
  {
    PageSlice(FilteredDocuments(docs, f), page, ItemsPerPage)
  }

  /** Newest first: keys never increase along r. */
  predicate NewestFirst(r: seq<Document>)
  {
    forall i, j :: 0 <= i < j < |r| ==> SubmissionKey(r[i]) >= SubmissionKey(r[j])
  }

  /** For two parseable dates the key order is the calendar order. */
  lemma SubmissionKeyIsCalendarOrder(a: Document, b: Document)
    requires HasValidDate(a) && HasValidDate(b)
    ensures SubmissionKey(a) >= SubmissionKey(b) <==>
            CalendarLe(ParseIsoDate(b.submissionDate).value, ParseIsoDate(a.submissionDate).value)
  {
    DayKeyOrder(ParseIsoDate(b.submissionDate).value, ParseIsoDate(a.submissionDate).value);
  }

  /** The filtered list holds each matching document as often as the input does
      and nothing else, newest first, with documents of the same date in their
      input order. */
  lemma FilteredDocumentsSpec(docs: seq<Document>, f: Filters)
    ensures forall d :: multiset(FilteredDocuments(docs, f))[d] == if Matches(d, f) then multiset(docs)[d] else 0
    ensures forall d :: d in FilteredDocuments(docs, f) <==> d in docs && Matches(d, f)
    ensures NewestFirst(FilteredDocuments(docs, f))
    ensures forall k :: Filter(FilteredDocuments(docs, f), HasKey(SubmissionKey, k))
                     == Filter(Filter(docs, MatchesFilters(f)), HasKey(SubmissionKey, k))
  {
    var m := Filter(docs, MatchesFilters(f));
    var r := FilteredDocuments(docs, f);
    SortDescSpec(m, SubmissionKey);
    forall d
      ensures multiset(r)[d] == if Matches(d, f) then multiset(docs)[d] else 0
    {
      FilterMultiplicity(docs, MatchesFilters(f), d);
    }
    forall d
      ensures d in r <==> d in docs && Matches(d, f)
    {
      assert d in r <==> multiset(r)[d] > 0;
      assert d in docs <==> multiset(docs)[d] > 0;
    }
  }

  /** When every date parses, the list is in calendar order, newest first. */
  lemma FilteredDocumentsByCalendar(docs: seq<Document>, f: Filters)
    requires AllDatesValid(docs)
    ensures var r := FilteredDocuments(docs, f);
            AllDatesValid(r) &&
            forall i, j :: 0 <= i < j < |r| ==>
              CalendarLe(ParseIsoDate(r[j].submissionDate).value, ParseIsoDate(r[i].submissionDate).value)
  {
    var r := FilteredDocuments(docs, f);
    FilteredDocumentsSpec(docs, f);
    forall i | 0 <= i < |r|
      ensures HasValidDate(r[i])
    {
      assert r[i] in docs;
    }
    forall i, j | 0 <= i < j < |r|
      ensures CalendarLe(ParseIsoDate(r[j].submissionDate).value, ParseIsoDate(r[i].submissionDate).value)
    {
      SubmissionKeyIsCalendarOrder(r[i], r[j]);
    }
  }

  /** With every filter empty, the list holds every document. */
  lemma NoFiltersShowEverything(docs: seq<Document>, f: Filters)
    requires forall key :: key in f ==> f[key] == ""
    ensures multiset(FilteredDocuments(docs, f)) == multiset(docs)
  {
    forall d ensures Matches(d, f) {
      EmptySearchMatchesAll(d);
    }
    FilterAll(docs, MatchesFilters(f));
    SortDescSpec(docs, SubmissionKey);
  }

  /** A page holds at most ten documents, and every page past the last is empty. */
  lemma PaginatedDocumentsBounds(docs: seq<Document>, f: Filters, page: int)
    ensures |PaginatedDocuments(docs, f, page)| <= ItemsPerPage
    ensures page > TotalPages(|FilteredDocuments(docs, f)|, ItemsPerPage) ==> PaginatedDocuments(docs, f, page) == []
  {
    PageSliceBounded(FilteredDocuments(docs, f), page, ItemsPerPage);
    PageSliceContents(FilteredDocuments(docs, f), page, ItemsPerPage);
  }

  function FullName(s: Staff): string
  {
    s.fullName
  }

  function InDepartment(department: string): Staff -> bool
  {
    (s: Staff) => s.department == department
  }

  /** proposersForVisitorFilter: with no department chosen, every staff name once;
      otherwise the names of that department's staff. Either way sorted. */
  function ProposersForVisitorFilter(staff: seq<Staff>, department: string): seq<string>
  {
    if department == "" then SortStrings(Distinct(Map(staff, FullName)))
    else SortStrings(Map(Filter(staff, InDepartment(department)), FullName))
  }

  /** The names are in ascending order; with no department each staff name appears
      exactly once, otherwise each name of the department's staff as often as it occurs. */
  lemma ProposersForVisitorFilterSpec(staff: seq<Staff>, department: string)
    ensures var r := ProposersForVisitorFilter(staff, department);
            forall i, j :: 0 <= i < j < |r| ==> LexLe(r[i], r[j])
    ensures department == "" ==>
              var r := ProposersForVisitorFilter(staff, department);
              NoDuplicates(r) && forall n :: n in r <==> exists i :: 0 <= i < |staff| && staff[i].fullName == n
    ensures department != "" ==>
              multiset(ProposersForVisitorFilter(staff, department))
                == multiset(Map(Filter(staff, InDepartment(department)), FullName))
  {
    if department == "" {
      var d := Distinct(Map(staff, FullName));
      var r := SortStrings(d);
      SortStringsSpec(d);
      NoDuplicatesPermutation(d, r);
      forall n
        ensures n in r <==> exists i :: 0 <= i < |staff| && staff[i].fullName == n
      {
        assert n in r <==> n in multiset(d);
        if n in d {
          var k :| 0 <= k < |d| && d[k] == n;
          var i :| 0 <= i < |staff| && Map(staff, FullName)[i] == n;
        }
        if exists i :: 0 <= i < |staff| && staff[i].fullName == n {
          var i :| 0 <= i < |staff| && staff[i].fullName == n;
          assert Map(staff, FullName)[i] == n;
        }
      }
    } else {
      SortStringsSpec(Map(Filter(staff, InDepartment(department)), FullName));
    }
  }
}
