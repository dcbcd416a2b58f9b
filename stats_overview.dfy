/** The statistics overview over all documents: the number of documents with each
    of the three exact permission texts, the doughnut chart built from those
    numbers, and a table of the same counts per department, largest first. */
module StatsOverview {
  import opened Seqs
  import opened Sorting
  import opened Documents
  import opened Tally

  const ApprovedText: string := "อนุมัติ"
  const PendingText: string := "กำลังดำเนินการ"
  const RejectedText: string := "ไม่อนุมัติ"

  /** The documents whose permission is exactly the text p. */
  function PermissionIs(p: string): Document -> bool
  {
    (d: Document) => d.permission == p
  }

  datatype Overview = Overview(total: int, approved: int, pending: int, rejected: int)

  /** stats: exact matches only; any other spelling is counted in no category. */
  function OverviewOf(documents: seq<Document>): Overview
  {
    Overview(|documents|, Count(documents, PermissionIs(ApprovedText)),
             Count(documents, PermissionIs(PendingText)), Count(documents, PermissionIs(RejectedText)))
  }

  /** The three texts differ, so no document is counted twice. */
  lemma TextsDistinct()
    ensures ApprovedText != PendingText && ApprovedText != RejectedText && PendingText != RejectedText
  {
    assert |ApprovedText| == 7 && |PendingText| == 14 && |RejectedText| == 10;
  }

  /** The three counts never exceed the total. */
  lemma OverviewBounded(documents: seq<Document>)
    ensures var o := OverviewOf(documents);
            o.total == |documents| && 0 <= o.approved && 0 <= o.pending && 0 <= o.rejected &&
            o.approved + o.pending + o.rejected <= o.total
  {
    TextsDistinct();
    CountDisjoint3(documents, PermissionIs(ApprovedText), PermissionIs(PendingText), PermissionIs(RejectedText));
  }

  datatype Chart = Chart(labels: seq<string>, data: seq<int>)

  /** chartData: one slice per label. */
  function ChartData(o: Overview): Chart
  {
    Chart([ApprovedText, PendingText, RejectedText], [o.approved, o.pending, o.rejected])
  }

  /** Each slice of the chart is the number of documents whose permission is its label. */
  lemma ChartMatchesLabels(documents: seq<Document>)
    ensures var c := ChartData(OverviewOf(documents));
            |c.labels| == |c.data| == 3 &&
            forall i :: 0 <= i < 3 ==> c.data[i] == Count(documents, PermissionIs(c.labels[i]))
  {
  }

  datatype DeptRow = DeptRow(department: string, total: int, approved: int, pending: int, rejected: int)

  function DeptName(d: Document): string
  {
    d.department
  }

  function NonEmpty(s: string): bool
  {
    s != ""
  }

  /** The departments in order of first appearance, without the empty one. */
  function Depts(documents: seq<Document>): seq<string>
  {
    Filter(Distinct(Map(documents, DeptName)), NonEmpty)
  }

  /** A department's row: its documents and their three exact-permission counts. */
  function RowOf(documents: seq<Document>): string -> DeptRow
  {
    dept =>
      var deptDocs := Filter(documents, KeyIs(DeptName, dept));
      DeptRow(dept, |deptDocs|, Count(deptDocs, PermissionIs(ApprovedText)),
              Count(deptDocs, PermissionIs(PendingText)), Count(deptDocs, PermissionIs(RejectedText)))
  }

  function RowTotal(r: DeptRow): int
  {
    r.total
  }

  /** The rows before sorting. */
  function Rows(documents: seq<Document>): seq<DeptRow>
  {
    Map(Depts(documents), RowOf(documents))
  }

  /** byDepartment: one row per department, largest first. */
  function ByDepartment(documents: seq<Document>): seq<DeptRow>
  {
    SortDesc(Rows(documents), RowTotal)
  }

  /** A row is the row of a named department that has documents, and its three
      counts fit in its total. */
  lemma RowFacts(documents: seq<Document>, r: DeptRow)
    requires r in Rows(documents)
    ensures r == RowOf(documents)(r.department)
    ensures r.department != "" && r.department in Map(documents, DeptName)
    ensures r.total >= 1 && r.approved + r.pending + r.rejected <= r.total
  {
    var k :| 0 <= k < |Rows(documents)| && Rows(documents)[k] == r;
    var dept := Depts(documents)[k];
    assert dept in Distinct(Map(documents, DeptName));
    RowOfListed(documents, dept);
    RowCountsFit(documents, dept);
  }

  lemma RowOfListed(documents: seq<Document>, dept: string)
    requires dept in Distinct(Map(documents, DeptName))
    ensures dept in Map(documents, DeptName)
    ensures RowOf(documents)(dept).total >= 1
  {
    var j :| 0 <= j < |documents| && Map(documents, DeptName)[j] == dept;
    assert KeyIs(DeptName, dept)(documents[j]);
  }

  /** In any department's row the three counts fit in the total. */
  lemma RowCountsFit(documents: seq<Document>, dept: string)
    ensures var r := RowOf(documents)(dept);
            r.approved + r.pending + r.rejected <= r.total
  {
    TextsDistinct();
    CountDisjoint3(Filter(documents, KeyIs(DeptName, dept)),
                   PermissionIs(ApprovedText), PermissionIs(PendingText), PermissionIs(RejectedText));
  }

  /** Sorting only reorders the rows and ranks them by total. */
  lemma ByDepartmentReorders(documents: seq<Document>)
    ensures multiset(ByDepartment(documents)) == multiset(Rows(documents))
    ensures forall i :: 0 <= i < |ByDepartment(documents)| ==> ByDepartment(documents)[i] in Rows(documents)
    ensures forall i, j :: 0 <= i < j < |ByDepartment(documents)| ==> ByDepartment(documents)[i].total >= ByDepartment(documents)[j].total
  {
    SortDescOrdered(Rows(documents), RowTotal);
    var r := ByDepartment(documents);
    forall i | 0 <= i < |r| ensures r[i] in Rows(documents) {
      assert r[i] in multiset(r);
    }
  }

  /** Every row is the row of a named department of the documents, with at least
      one document and counts within its total, and the rows are ranked by total. */
  lemma ByDepartmentRows(documents: seq<Document>)
    ensures var r := ByDepartment(documents);
            forall i :: 0 <= i < |r| ==>
              r[i] == RowOf(documents)(r[i].department) && r[i].department != "" &&
              r[i].department in Map(documents, DeptName) &&
              r[i].total >= 1 && r[i].approved + r[i].pending + r[i].rejected <= r[i].total
    ensures var r := ByDepartment(documents);
            forall i, j :: 0 <= i < j < |r| ==> r[i].total >= r[j].total
  {
    var r := ByDepartment(documents);
    ByDepartmentReorders(documents);
    forall i | 0 <= i < |r|
      ensures r[i] == RowOf(documents)(r[i].department) && r[i].department != "" &&
              r[i].department in Map(documents, DeptName) &&
              r[i].total >= 1 && r[i].approved + r[i].pending + r[i].rejected <= r[i].total
    {
      RowFacts(documents, r[i]);
    }
  }

  /** Every document with a department has its department's row. */
  lemma ByDepartmentCover(documents: seq<Document>)
    ensures var r := ByDepartment(documents);
            forall d :: d in documents && d.department != "" ==> exists i :: 0 <= i < |r| && r[i].department == d.department
  {
    var r := ByDepartment(documents);
    var rows := Rows(documents);
    ByDepartmentReorders(documents);
    forall d | d in documents && d.department != ""
      ensures exists i :: 0 <= i < |r| && r[i].department == d.department
    {
      DeptHasRow(documents, d);
      var k :| 0 <= k < |rows| && rows[k].department == d.department;
      assert rows[k] in multiset(r);
    }
  }

  /** No department has two rows. */
  lemma ByDepartmentDistinct(documents: seq<Document>)
    ensures var r := ByDepartment(documents);
            forall i, j :: 0 <= i < j < |r| ==> r[i].department != r[j].department
  {
    var r := ByDepartment(documents);
    var rows := Rows(documents);
    ByDepartmentReorders(documents);
    RowsDistinct(documents);
    NoDuplicatesPermutation(rows, r);
    forall i, j | 0 <= i < j < |r|
      ensures r[i].department != r[j].department
    {
      RowIsOf(documents, r[i]);
      RowIsOf(documents, r[j]);
    }
  }

  lemma RowsDistinct(documents: seq<Document>)
    ensures NoDuplicates(Rows(documents))
  {
    var rows := Rows(documents);
    FilterNoDuplicates(Distinct(Map(documents, DeptName)), NonEmpty);
    forall i, j | 0 <= i < j < |rows| ensures rows[i] != rows[j] {
      assert rows[i].department == Depts(documents)[i];
    }
  }

  lemma RowIsOf(documents: seq<Document>, r: DeptRow)
    requires r in Rows(documents)
    ensures r == RowOf(documents)(r.department)
  {
    var k :| 0 <= k < |Rows(documents)| && Rows(documents)[k] == r;
  }

  lemma DeptHasRow(documents: seq<Document>, d: Document)
    requires d in documents && d.department != ""
    ensures exists k :: 0 <= k < |Rows(documents)| && Rows(documents)[k].department == d.department
  {
    var j :| 0 <= j < |documents| && documents[j] == d;
    DeptIsListed(documents, j);
    var depts := Depts(documents);
    var m :| 0 <= m < |depts| && depts[m] == d.department;
    assert Rows(documents)[m] == RowOf(documents)(depts[m]);
  }

  function HasDepartment(d: Document): bool
  {
    d.department != ""
  }

  /** The row totals add up to the number of documents that name a department. */
  lemma ByDepartmentSum(documents: seq<Document>)
    ensures SumOf(ByDepartment(documents), RowTotal) == Count(documents, HasDepartment)
  {
    var depts := Depts(documents);
    ByDepartmentReorders(documents);
    SumOfPermutation(ByDepartment(documents), Rows(documents), RowTotal);
    SumRowTotals(documents, depts);
    FilterNoDuplicates(Distinct(Map(documents, DeptName)), NonEmpty);
    SumCountsPartition(documents, DeptName, depts);
    forall i | 0 <= i < |documents|
      ensures InKeys(DeptName, depts)(documents[i]) == HasDepartment(documents[i])
    {
      if HasDepartment(documents[i]) {
        DeptIsListed(documents, i);
      }
    }
    FilterAgree(documents, InKeys(DeptName, depts), HasDepartment);
  }

  lemma DeptIsListed(documents: seq<Document>, i: nat)
    requires i < |documents| && documents[i].department != ""
    ensures documents[i].department in Depts(documents)
  {
    assert Map(documents, DeptName)[i] == documents[i].department;
    var k :| 0 <= k < |Distinct(Map(documents, DeptName))| && Distinct(Map(documents, DeptName))[k] == documents[i].department;
    assert NonEmpty(Distinct(Map(documents, DeptName))[k]);
  }

  lemma {:induction false} SumRowTotals(documents: seq<Document>, depts: seq<string>)
    ensures SumOf(Map(depts, RowOf(documents)), RowTotal) == SumCounts(documents, DeptName, depts)
  {
    if depts != [] {
      SumRowTotals(documents, depts[1..]);
      assert Map(depts, RowOf(documents))[1..] == Map(depts[1..], RowOf(documents));
    }
  }
}
