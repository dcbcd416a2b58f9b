/** The older views kept under `components/`: a document list that only
    searches and pages, without sorting, and a dashboard with three counters
    over a document list that may be absent. */
module Legacy {
  import opened Seqs
  import opened Documents
  import opened Tally
  import opened Search
  import opened Pagination
  import opened StatsOverview

  function SearchFilter(search: string): Document -> bool
  {
    (d: Document) => GuardedSearch(d, search)
  }

  /** filtered: no sort, only the search. */
  function Filtered(documents: seq<Document>, search: string): seq<Document>
  {
    Filter(documents, SearchFilter(search))
  }

  /** An empty search gives the documents unchanged; otherwise the list keeps, in
      input order and as often as in the input, exactly the documents one of whose
      three search fields contains the term. */
  lemma FilteredSpec(documents: seq<Document>, search: string)
    ensures search == "" ==> Filtered(documents, search) == documents
    ensures IsSubsequence(Filtered(documents, search), documents)
    ensures forall d :: d in Filtered(documents, search) <==> d in documents && AnyFieldMatches(d, search)
    ensures forall d :: multiset(Filtered(documents, search))[d]
                        == if AnyFieldMatches(d, search) then multiset(documents)[d] else 0
  {
    var p := SearchFilter(search);
    if search == "" {
      FilterAll(documents, p);
    }
    FilterIsSubsequence(documents, p);
    forall d
      ensures multiset(Filtered(documents, search))[d] == if AnyFieldMatches(d, search) then multiset(documents)[d] else 0
    {
      FilterMultiplicity(documents, p, d);
      SearchFormsAgree(d, search);
    }
    forall d
      ensures d in Filtered(documents, search) <==> d in documents && AnyFieldMatches(d, search)
    {
      FilterMultiplicity(documents, p, d);
      SearchFormsAgree(d, search);
      assert d in Filtered(documents, search) <==> multiset(Filtered(documents, search))[d] > 0;
      assert d in documents <==> multiset(documents)[d] > 0;
    }
  }

  /** paginated. */
  function Paginated(documents: seq<Document>, search: string, currentPage: int, itemsPerPage: nat): seq<Document>
  {
    PageSlice(Filtered(documents, search), currentPage, itemsPerPage)
  }

  /** A page holds at most a page's worth of documents: the consecutive run of the
      filtered list that the page number selects, and nothing past the last page. */
  lemma PaginatedSpec(documents: seq<Document>, search: string, currentPage: int, itemsPerPage: nat)
    requires itemsPerPage > 0
    ensures |Paginated(documents, search, currentPage, itemsPerPage)| <= itemsPerPage
    ensures var f := Filtered(documents, search);
            var lo, hi := (currentPage - 1) * itemsPerPage, if currentPage * itemsPerPage < |f| then currentPage * itemsPerPage else |f|;
            1 <= currentPage <= TotalPages(|f|, itemsPerPage) ==>
              0 <= lo < hi <= |f| && Paginated(documents, search, currentPage, itemsPerPage) == f[lo..hi]
    ensures currentPage > TotalPages(|Filtered(documents, search)|, itemsPerPage) ==>
              Paginated(documents, search, currentPage, itemsPerPage) == []
  {
    var f := Filtered(documents, search);
    PageSliceBounded(f, currentPage, itemsPerPage);
    PageSliceContents(f, currentPage, itemsPerPage);
    if 1 <= currentPage <= TotalPages(|f|, itemsPerPage) {
      var lo, hi := (currentPage - 1) * itemsPerPage, if currentPage * itemsPerPage < |f| then currentPage * itemsPerPage else |f|;
      MulMonotone(0, currentPage - 1, itemsPerPage);
      assert PageSlice(f, currentPage, itemsPerPage) == f[lo..hi] != [];
    }
  }

  /** `documents?.length || 0`. */
  function Total(documents: Option<seq<Document>>): nat
  {
    match documents
    case Some(s) => |s|
    case None => 0
  }

  /** `documents?.filter(d => d.permission === text).length || 0`. */
  function CountWith(documents: Option<seq<Document>>, text: string): nat
  {
    match documents
    case Some(s) => Count(s, PermissionIs(text))
    case None => 0
  }

  function Approved(documents: Option<seq<Document>>): nat
  {
    CountWith(documents, ApprovedText)
  }

  function InProgress(documents: Option<seq<Document>>): nat
  {
    CountWith(documents, PendingText)
  }

  /** The counters: all zero without a list; otherwise the list's length and the
      numbers of documents whose permission is exactly 'อนุมัติ' and exactly
      'กำลังดำเนินการ', which together never exceed the total. */
  lemma CountersSpec(documents: Option<seq<Document>>)
    ensures documents.None? ==> Total(documents) == 0 && Approved(documents) == 0 && InProgress(documents) == 0
    ensures documents.Some? ==>
              Total(documents) == |documents.value| &&
              Approved(documents) == |Filter(documents.value, PermissionIs(ApprovedText))| &&
              InProgress(documents) == |Filter(documents.value, PermissionIs(PendingText))|
    ensures Approved(documents) + InProgress(documents) <= Total(documents)
  {
    if documents.Some? {
      TextsDistinct();
      CountDisjoint3(documents.value, PermissionIs(ApprovedText), PermissionIs(PendingText), PermissionIs(RejectedText));
    }
  }

  /** Only the exact text counts as approved: a document saved as 'อนุมัติแล้ว'
      adds nothing to the approved counter. */
  lemma ApprovedSpellingNotCounted(d: Document, rest: seq<Document>)
    requires d.permission == "อนุมัติแล้ว"
    ensures Approved(Some([d] + rest)) == Approved(Some(rest))
  {
    assert |d.permission| != |ApprovedText|;
    CountCons(d, rest, PermissionIs(ApprovedText));
  }
}
