/** The statistics dashboard: the year selector, the documents of the selected
    Buddhist-era year, the permission counts, the per-department summary and the
    five most recent documents. The current year is a parameter. */
module Dashboard {
  import opened Seqs
  import opened Text
  import opened Dates
  import opened Sorting
  import opened Status
  import opened Documents
  import opened Tally
  import opened AppDocuments

  /** The Buddhist era is 543 years ahead of the common era. */
  const EraOffset: int := 543

  /** The year selector: six years counting down from the current Buddhist year,
      pushed one at a time. */
  method Years(currentBuddhistYear: int) returns (list: seq<int>)
    ensures |list| == 6
    ensures forall i :: 0 <= i < |list| ==> list[i] == currentBuddhistYear - i
  {
    list := [];
    var start := currentBuddhistYear;
    for i := 0 to 6
      invariant |list| == i
      invariant forall j :: 0 <= j < i ==> list[j] == start - j
    {
      list := list + [start - i];
    }
  }

  /** The year of the document's date plus 543 is the selected year; an unparseable
      date belongs to no year. */
  predicate InBuddhistYear(d: Document, selectedYear: int)
  {
    match ParseIsoDate(d.submissionDate)
    case Some(x) => x.year + EraOffset == selectedYear
    case None => false
  }

  function InSelectedYear(selectedYear: int): Document -> bool
  {
    (d: Document) => InBuddhistYear(d, selectedYear)
  }

  /** docsForYear. */
  function DocsForYear(documents: seq<Document>, selectedYear: int): seq<Document>
  {
    Filter(documents, InSelectedYear(selectedYear))
  }

  /** The documents of the year, each as often as in the input, in input order,
      and no other document. */
  lemma DocsForYearSpec(documents: seq<Document>, selectedYear: int)
    ensures IsSubsequence(DocsForYear(documents, selectedYear), documents)
    ensures forall d :: multiset(DocsForYear(documents, selectedYear))[d]
                        == if InBuddhistYear(d, selectedYear) then multiset(documents)[d] else 0
    ensures forall d :: d in DocsForYear(documents, selectedYear) <==> d in documents && InBuddhistYear(d, selectedYear)
  {
    var r := DocsForYear(documents, selectedYear);
    FilterIsSubsequence(documents, InSelectedYear(selectedYear));
    forall d
      ensures multiset(r)[d] == if InBuddhistYear(d, selectedYear) then multiset(documents)[d] else 0
    {
      FilterMultiplicity(documents, InSelectedYear(selectedYear), d);
    }
    forall d
      ensures d in r <==> d in documents && InBuddhistYear(d, selectedYear)
    {
      assert d in r <==> multiset(r)[d] > 0;
      assert d in documents <==> multiset(documents)[d] > 0;
    }
  }

  const ApprovedCategory: string := "approved"
  const PendingCategory: string := "pending"
  const RejectedCategory: string := "rejected"

  /** normalizePermission as written: the substring tests in the order 'อนุ',
      'กำลัง', 'ไม่'; any other non-empty value is returned unchanged. */
  function NormalizePermissionAsWritten(p: string): string
  {
    if p == "" then ""
    else if Contains(p, "อนุ") then ApprovedCategory
    else if Contains(p, "กำลัง") then PendingCategory
    else if Contains(p, "ไม่") then RejectedCategory
    else p
  }

  /** normalizePermission as evidently intended: 'ไม่' (not) is tested first, so
      'ไม่อนุมัติ' (not approved) is a rejection. */
  function NormalizePermission(p: string): string
  {
    if p == "" then ""
    else if Contains(p, "ไม่") then RejectedCategory
    else if Contains(p, "อนุ") then ApprovedCategory
    else if Contains(p, "กำลัง") then PendingCategory
    else p
  }

  /** The category name of a canonical permission. */
  function CategoryOf(k: PermissionKey): string
  {
    match k
    case Pending => PendingCategory
    case Approved => ApprovedCategory
    case Rejected => RejectedCategory
  }

  /** Both forms map the empty value to the empty value and every other value to
      one of the three categories or to itself. */
  lemma NormalizeCases(p: string)
    ensures NormalizePermissionAsWritten(p) == "" <==> p == ""
    ensures NormalizePermission(p) == "" <==> p == ""
    ensures NormalizePermissionAsWritten(p) in {ApprovedCategory, PendingCategory, RejectedCategory, p}
    ensures NormalizePermission(p) in {ApprovedCategory, PendingCategory, RejectedCategory, p}
  {
  }

  /** The stored spelling 'ไม่อนุมัติ' means rejected to the status table, but the
      dashboard as written counts it as approved. */
  lemma RejectedCountedAsApproved(p: string)
    requires p == "ไม่อนุมัติ"
    ensures GetStatusInfo(Permission, p) == PermissionDescriptor(Rejected)
    ensures NormalizePermissionAsWritten(p) == ApprovedCategory
  {
    AsWrittenApprovesRejection(p);
    assert p == "" + PermissionInputMap[3].0 + "";
    PermissionSpellingsResolve(3, "", "");
  }

  lemma AsWrittenApprovesRejection(p: string)
    requires p == "ไม่อนุมัติ"
    ensures NormalizePermissionAsWritten(p) == ApprovedCategory
  {
    assert p == "ไม่" + "อนุ" + "มัติ";
    ContainsMiddle("ไม่", "อนุ", "มัติ");
  }

  /** With 'ไม่' tested first, each Thai spelling the status table accepts is
      counted in the category the table gives it. */
  lemma ThaiSpellingsNormalize(i: nat, p: string)
    requires i < 4 && p == PermissionInputMap[i].0
    ensures NormalizePermission(p) == CategoryOf(PermissionInputMap[i].1)
    ensures GetStatusInfo(Permission, p) == PermissionDescriptor(PermissionInputMap[i].1)
  {
    NormalizeThaiSpelling(i, p);
    assert p == "" + p + "";
    PermissionSpellingsResolve(i, "", "");
  }

  lemma NormalizeThaiSpelling(i: nat, p: string)
    requires i < 4 && p == PermissionInputMap[i].0
    ensures NormalizePermission(p) == CategoryOf(PermissionInputMap[i].1)
  {
    if i == 0 {
      NormalizeInProgress(p);
    } else if i == 1 {
      NormalizeApproved(p, "");
    } else if i == 2 {
      assert p == "อนุมัติ" + "แล้ว";
      NormalizeApproved(p, "แล้ว");
    } else {
      NormalizeNotApproved(p);
    }
  }

  lemma NormalizeInProgress(p: string)
    requires p == "กำลังดำเนินการ"
    ensures NormalizePermission(p) == PendingCategory
  {
    MissingFirstChar(p, "ไม่");
    MissingFirstChar(p, "อนุ");
    ContainsMiddle("", "กำลัง", "ดำเนินการ");
    assert p == "" + "กำลัง" + "ดำเนินการ";
  }

  lemma NormalizeApproved(p: string, suffix: string)
    requires p == "อนุมัติ" + suffix && suffix in {"", "แล้ว"}
    ensures NormalizePermission(p) == ApprovedCategory
  {
    MissingFirstChar(p, "ไม่");
    ContainsMiddle("", "อนุ", "มัติ" + suffix);
    assert p == "" + "อนุ" + ("มัติ" + suffix);
  }

  lemma NormalizeNotApproved(p: string)
    requires p == "ไม่อนุมัติ"
    ensures NormalizePermission(p) == RejectedCategory
  {
    ContainsMiddle("", "ไม่", "อนุมัติ");
    assert p == "" + "ไม่" + "อนุมัติ";
  }

  /** The documents a normaliser puts in the category. The dashboard as written
      passes `NormalizePermissionAsWritten`; the corrected dashboard passes
      `NormalizePermission`. */
  function NormalizesTo(norm: string -> string, category: string): Document -> bool
  {
    (d: Document) => norm(d.permission) == category
  }

  datatype YearStats = YearStats(total: nat, approved: nat, pending: nat, rejected: nat)

  /** stats, counted with the given normaliser. */
  function Stats(docsForYear: seq<Document>, norm: string -> string): YearStats
  {
    YearStats(|docsForYear|,
      Count(docsForYear, NormalizesTo(norm, ApprovedCategory)),
      Count(docsForYear, NormalizesTo(norm, PendingCategory)),
      Count(docsForYear, NormalizesTo(norm, RejectedCategory)))
  }

  /** Whatever the normaliser, the total is the number of documents of the year,
      and no document is counted in two categories. */
  lemma StatsBounded(docsForYear: seq<Document>, norm: string -> string)
    ensures Stats(docsForYear, norm).total == |docsForYear|
    ensures Stats(docsForYear, norm).approved + Stats(docsForYear, norm).pending + Stats(docsForYear, norm).rejected
              <= Stats(docsForYear, norm).total
  {
    CountDisjoint3(docsForYear, NormalizesTo(norm, ApprovedCategory), NormalizesTo(norm, PendingCategory),
      NormalizesTo(norm, RejectedCategory));
  }

  /** A year holding one 'ไม่อนุมัติ' document: the dashboard as written counts it
      as approved, the corrected one as rejected. */
  lemma StatsCountRejection(d: Document)
    requires d.permission == "ไม่อนุมัติ"
    ensures Stats([d], NormalizePermissionAsWritten) == YearStats(1, 1, 0, 0)
    ensures Stats([d], NormalizePermission) == YearStats(1, 0, 0, 1)
  {
    AsWrittenApprovesRejection(d.permission);
    NormalizeNotApproved(d.permission);
    CountCons(d, [], NormalizesTo(NormalizePermissionAsWritten, ApprovedCategory));
    CountCons(d, [], NormalizesTo(NormalizePermissionAsWritten, PendingCategory));
    CountCons(d, [], NormalizesTo(NormalizePermissionAsWritten, RejectedCategory));
    CountCons(d, [], NormalizesTo(NormalizePermission, ApprovedCategory));
    CountCons(d, [], NormalizesTo(NormalizePermission, PendingCategory));
    CountCons(d, [], NormalizesTo(NormalizePermission, RejectedCategory));
    assert [d] + [] == [d];
  }

  datatype DeptStatus = DeptStatus(total: nat, approved: nat)

  function DepartmentOf(d: Document): string
  {
    d.department
  }

  /** `[...new Set(docsForYear.map(d => d.department))]`. */
  function Departments(docs: seq<Document>): seq<string>
  {
    Distinct(Map(docs, DepartmentOf))
  }

  /** The entry the reducer writes for one department. */
  function DeptSummary(docs: seq<Document>, dept: string, norm: string -> string): DeptStatus
  {
    var deptDocs := Filter(docs, KeyIs(DepartmentOf, dept));
    DeptStatus(|deptDocs|, Count(deptDocs, NormalizesTo(norm, ApprovedCategory)))
  }

  /** The accumulator after the reducer has visited the first n departments of ds. */
  function Accumulated(docs: seq<Document>, ds: seq<string>, n: nat, norm: string -> string): map<string, DeptStatus>
    requires n <= |ds|
  {
    if n == 0 then map[] else Accumulated(docs, ds, n - 1, norm)[ds[n - 1] := DeptSummary(docs, ds[n - 1], norm)]
  }

  /** The accumulator holds an entry for exactly the departments visited, each the
      department's summary. */
  lemma {:induction false} AccumulatedEntries(docs: seq<Document>, ds: seq<string>, n: nat, norm: string -> string)
    requires n <= |ds|
    ensures forall dept :: dept in Accumulated(docs, ds, n, norm) <==> dept in ds[..n]
    ensures forall dept :: dept in Accumulated(docs, ds, n, norm) ==>
              Accumulated(docs, ds, n, norm)[dept] == DeptSummary(docs, dept, norm)
  {
    if n > 0 {
      AccumulatedEntries(docs, ds, n - 1, norm);
      assert ds[..n] == ds[..n - 1] + [ds[n - 1]];
    }
  }

  /** statusByDepartment: the reducer adds one entry per distinct department to
      the accumulator object. `order` is the order the entries were added in,
      which is the order `Object.entries` renders them in. */
  method StatusByDepartment(docsForYear: seq<Document>, norm: string -> string)
    returns (order: seq<string>, acc: map<string, DeptStatus>)
    ensures order == Departments(docsForYear) && NoDuplicates(order)
    ensures forall dept :: dept in acc <==> dept in order
    ensures forall dept :: dept in acc ==> acc[dept] == DeptSummary(docsForYear, dept, norm)
  {
    var departments := Departments(docsForYear);
    order := [];
    acc := map[];
    for i := 0 to |departments|
      invariant |order| == i && forall j :: 0 <= j < i ==> order[j] == departments[j]
      invariant acc == Accumulated(docsForYear, departments, i, norm)
    {
      acc := acc[departments[i] := DeptSummary(docsForYear, departments[i], norm)];
      order := order + [departments[i]];
    }
    assert order == departments;
    AccumulatedAll(docsForYear, departments, norm);
  }

  /** After visiting every department of ds, the accumulator holds exactly their
      summaries. */
  lemma AccumulatedAll(docs: seq<Document>, ds: seq<string>, norm: string -> string)
    ensures forall dept :: dept in Accumulated(docs, ds, |ds|, norm) <==> dept in ds
    ensures forall dept :: dept in Accumulated(docs, ds, |ds|, norm) ==>
              Accumulated(docs, ds, |ds|, norm)[dept] == DeptSummary(docs, dept, norm)
  {
    AccumulatedEntries(docs, ds, |ds|, norm);
    assert ds[..|ds|] == ds;
  }

  function DeptTotal(docs: seq<Document>, norm: string -> string): string -> int
  {
    (dept: string) => DeptSummary(docs, dept, norm).total
  }

  /** Whatever the normaliser, every department listed has at least one document
      and no more approvals than documents, and the department totals add up to
      the year's documents. */
  lemma StatusByDepartmentSpec(docs: seq<Document>, norm: string -> string)
    ensures forall dept :: dept in Departments(docs) ==>
              1 <= DeptSummary(docs, dept, norm).total &&
              DeptSummary(docs, dept, norm).approved <= DeptSummary(docs, dept, norm).total
    ensures SumOf(Departments(docs), DeptTotal(docs, norm)) == |docs|
  {
    var ds := Departments(docs);
    forall dept | dept in ds
      ensures 1 <= DeptSummary(docs, dept, norm).total
    {
      DeptTotalPositive(docs, dept, norm);
    }
    SumDeptTotals(docs, ds, norm);
    forall i | 0 <= i < |docs|
      ensures DepartmentOf(docs[i]) in ds
    {
      assert Map(docs, DepartmentOf)[i] == DepartmentOf(docs[i]);
    }
    SumCountsCover(docs, DepartmentOf, ds);
  }

  lemma DeptTotalPositive(docs: seq<Document>, dept: string, norm: string -> string)
    requires dept in Departments(docs)
    ensures 1 <= DeptSummary(docs, dept, norm).total
  {
    var i :| 0 <= i < |docs| && Map(docs, DepartmentOf)[i] == dept;
    assert KeyIs(DepartmentOf, dept)(docs[i]);
    assert docs[i] in Filter(docs, KeyIs(DepartmentOf, dept));
  }

  lemma {:induction false} SumDeptTotals(docs: seq<Document>, ks: seq<string>, norm: string -> string)
    ensures SumOf(ks, DeptTotal(docs, norm)) == SumCounts(docs, DepartmentOf, ks)
  {
    if ks != [] {
      SumDeptTotals(docs, ks[1..], norm);
    }
  }

  /** The recent list: a copy of all documents sorted newest first, cut to five. */
  function RecentDocuments(documents: seq<Document>): seq<Document>
  {
    Slice(SortDesc(documents, SubmissionKey), 0, 5)
  }

  /** At most five documents, newest first, taken from the input, and every
      document left out is no newer than every one shown. */
  lemma RecentDocumentsSpec(documents: seq<Document>)
    ensures |RecentDocuments(documents)| == if |documents| < 5 then |documents| else 5
    ensures NewestFirst(RecentDocuments(documents))
    ensures multiset(RecentDocuments(documents)) <= multiset(documents)
    ensures forall d :: multiset(RecentDocuments(documents))[d] < multiset(documents)[d] ==>
              forall j :: 0 <= j < |RecentDocuments(documents)| ==>
                SubmissionKey(d) <= SubmissionKey(RecentDocuments(documents)[j])
  {
    var sorted := SortDesc(documents, SubmissionKey);
    SortDescOrdered(documents, SubmissionKey);
    assert |sorted| == |multiset(sorted)| == |documents|;
    var m := if |documents| < 5 then |documents| else 5;
    SliceFromZero(sorted, 5);
    assert RecentDocuments(documents) == sorted[..m];
    PrefixOfNewestFirst(sorted, m);
  }

  /** A prefix of a newest-first list takes each document at most as often as the
      list has it, and whatever it leaves out is no newer than what it takes. */
  lemma PrefixOfNewestFirst(sorted: seq<Document>, m: nat)
    requires m <= |sorted|
    requires forall i, j :: 0 <= i < j < |sorted| ==> SubmissionKey(sorted[i]) >= SubmissionKey(sorted[j])
    ensures multiset(sorted[..m]) <= multiset(sorted)
    ensures forall d :: multiset(sorted[..m])[d] < multiset(sorted)[d] ==>
              forall j :: 0 <= j < m ==> SubmissionKey(d) <= SubmissionKey(sorted[..m][j])
  {
    var r, rest := sorted[..m], sorted[m..];
    assert sorted == r + rest;
    assert multiset(sorted) == multiset(r) + multiset(rest);
    forall d | multiset(r)[d] < multiset(sorted)[d]
      ensures forall j :: 0 <= j < m ==> SubmissionKey(d) <= SubmissionKey(r[j])
    {
      assert d in multiset(rest);
      OmittedAreOlder(sorted, m, d);
    }
  }

  /** In a newest-first list, whatever comes after position m is no newer than
      anything before it. */
  lemma OmittedAreOlder(sorted: seq<Document>, m: nat, d: Document)
    requires m <= |sorted|
    requires forall i, j :: 0 <= i < j < |sorted| ==> SubmissionKey(sorted[i]) >= SubmissionKey(sorted[j])
    requires d in sorted[m..]
    ensures forall j :: 0 <= j < m ==> SubmissionKey(d) <= SubmissionKey(sorted[j])
  {
    var k :| 0 <= k < |sorted| - m && sorted[m..][k] == d;
    assert sorted[m + k] == d;
  }
}
