/** The proposer report for the configured Buddhist-era year: the documents of
    that year, the number of documents per proposer with the proposer's
    department, and the staff and the proposers grouped by department in the
    order of the school's list of subject groups. */
module ProposerReport {
  import opened Seqs
  import opened Dates
  import opened Sorting
  import opened Documents
  import opened Tally
  import opened Grouping
  import Dashboard

  /** The label of a document without a proposer. */
  const Unnamed: string := "ไม่ระบุ"
  /** The label of a missing department. */
  const OtherDepartment: string := "อื่นๆ"

  /** A document with a submission date whose common-era year is the report year
      less 543. */
  predicate InReportYear(d: Document, reportYear: int)
  {
    d.submissionDate != "" &&
    match ParseIsoDate(d.submissionDate)
    case Some(x) => x.year == reportYear - Dashboard.EraOffset
    case None => false
  }

  function InReportYearOf(reportYear: int): Document -> bool
  {
    (d: Document) => InReportYear(d, reportYear)
  }

  /** docsInYear. */
  function DocsInYear(documents: seq<Document>, reportYear: int): seq<Document>
  {
    Filter(documents, InReportYearOf(reportYear))
  }

  /** The report's year filter selects the same documents as the dashboard's for
      the same year: an empty date never parses. */
  lemma DocsInYearIsDashboardYear(documents: seq<Document>, reportYear: int)
    ensures DocsInYear(documents, reportYear) == Dashboard.DocsForYear(documents, reportYear)
  {
    forall i | 0 <= i < |documents|
      ensures InReportYearOf(reportYear)(documents[i]) == Dashboard.InSelectedYear(reportYear)(documents[i])
    {
    }
    FilterAgree(documents, InReportYearOf(reportYear), Dashboard.InSelectedYear(reportYear));
  }

  /** `doc.proposer_name || 'ไม่ระบุ'`. */
  function ProposerName(d: Document): string
  {
    if d.proposerName != "" then d.proposerName else Unnamed
  }

  /** `doc.department || 'อื่นๆ'`. */
  function DeptOrOther(d: Document): string
  {
    if d.department != "" then d.department else OtherDepartment
  }

  /** The running record of one proposer. */
  datatype ProposerEntry = ProposerEntry(count: int, department: string)

  /** A row of the report. */
  datatype ProposerStat = ProposerStat(name: string, count: int, department: string)

  /** The department recorded for a proposer: that of their first document. */
  function FirstDept(docs: seq<Document>, name: string): string
  {
    var f := Filter(docs, KeyIs(ProposerName, name));
    if f == [] then OtherDepartment else DeptOrOther(f[0])
  }

  /** The row of a proposer: their number of documents and their first document's
      department. */
  function StatOf(docs: seq<Document>): string -> ProposerStat
  {
    name => ProposerStat(name, Count(docs, KeyIs(ProposerName, name)), FirstDept(docs, name))
  }

  /** The proposers in the order their first document appears. */
  function Names(docs: seq<Document>): seq<string>
  {
    Distinct(Map(docs, ProposerName))
  }

  function StatCount(p: ProposerStat): int
  {
    p.count
  }

  /** The rows before sorting, one per proposer in order of first appearance. */
  function Entries(docs: seq<Document>): seq<ProposerStat>
  {
    Map(Names(docs), StatOf(docs))
  }

  /** proposerStats: one row per proposer, by decreasing count. */
  function ProposerStats(docs: seq<Document>): seq<ProposerStat>
  {
    SortDesc(Entries(docs), StatCount)
  }

  /** `byProposer` after the forEach has seen the first n documents. */
  function Tallied(s: seq<Document>, n: nat): map<string, ProposerEntry>
    requires n <= |s|
  {
    if n == 0 then map[]
    else
      var m := Tallied(s, n - 1);
      var name := ProposerName(s[n - 1]);
      var e := if name in m then m[name] else ProposerEntry(0, DeptOrOther(s[n - 1]));
      m[name := e.(count := e.count + 1)]
  }

  /** After n documents a proposer has an entry exactly when one of their documents
      has been seen; it counts those documents and keeps the department of the
      first one. */
  lemma TalliedAt(s: seq<Document>, n: nat, name: string)
    requires n <= |s|
    ensures name in Tallied(s, n) <==> name in Map(s[..n], ProposerName)
    ensures name in Tallied(s, n) ==>
              Tallied(s, n)[name] == ProposerEntry(Count(s[..n], KeyIs(ProposerName, name)), FirstDept(s[..n], name))
  {
    TalliedKeys(s, n, name);
    TalliedValue(s, n, name);
  }

  lemma {:induction false} TalliedKeys(s: seq<Document>, n: nat, name: string)
    requires n <= |s|
    ensures name in Tallied(s, n) <==> name in Map(s[..n], ProposerName)
  {
    if n > 0 {
      TalliedKeys(s, n - 1, name);
      assert s[..n] == s[..n - 1] + [s[n - 1]];
      MapSnoc(s[..n - 1], s[n - 1], ProposerName);
    }
  }

  lemma {:induction false} TalliedValue(s: seq<Document>, n: nat, name: string)
    requires n <= |s|
    ensures name in Tallied(s, n) ==>
              Tallied(s, n)[name] == ProposerEntry(Count(s[..n], KeyIs(ProposerName, name)), FirstDept(s[..n], name))
  {
    if n > 0 {
      var prev, x := s[..n - 1], s[n - 1];
      TalliedKeys(s, n - 1, name);
      TalliedValue(s, n - 1, name);
      assert s[..n] == prev + [x];
      FilterSnoc(prev, x, KeyIs(ProposerName, name));
      FirstDeptSnoc(prev, x, name);
      if name == ProposerName(x) && name !in Tallied(s, n - 1) {
        NoMembers(prev, ProposerName, name);
      }
    }
  }

  /** One more document leaves a seen proposer's first department alone and gives
      a new proposer the document's department. */
  lemma FirstDeptSnoc(prev: seq<Document>, x: Document, name: string)
    ensures FirstDept(prev + [x], name)
              == if name in Map(prev, ProposerName) then FirstDept(prev, name)
                 else if ProposerName(x) == name then DeptOrOther(x) else OtherDepartment
  {
    FilterSnoc(prev, x, KeyIs(ProposerName, name));
    if name in Map(prev, ProposerName) {
      var j :| 0 <= j < |prev| && Map(prev, ProposerName)[j] == name;
      assert KeyIs(ProposerName, name)(prev[j]);
    } else {
      NoMembers(prev, ProposerName, name);
    }
  }

  /** A proposer has an entry exactly when they have been seen. */
  lemma TalliedStep(s: seq<Document>, i: nat)
    requires i < |s|
    ensures ProposerName(s[i]) in Tallied(s, i) <==> ProposerName(s[i]) in FirstSeen(s, ProposerName, i)
  {
    var name := ProposerName(s[i]);
    TalliedAt(s, i, name);
    FirstSeenDistinct(s, ProposerName, i);
    if name in Map(s[..i], ProposerName) {
      var j :| 0 <= j < |Map(s[..i], ProposerName)| && Map(s[..i], ProposerName)[j] == name;
    }
  }

  /** The row `Object.entries` yields for a name. */
  function EntryFrom(m: map<string, ProposerEntry>): string -> ProposerStat
  {
    name => if name in m then ProposerStat(name, m[name].count, m[name].department)
            else ProposerStat(name, 0, OtherDepartment)
  }

  /** Once every document is seen, each proposer's entry is their row. */
  lemma EntryFromAgrees(s: seq<Document>, name: string)
    ensures EntryFrom(Tallied(s, |s|))(name) == StatOf(s)(name)
  {
    assert s[..|s|] == s;
    TalliedAt(s, |s|, name);
    if name !in Map(s, ProposerName) {
      NoMembers(s, ProposerName, name);
    }
  }

  lemma EntriesFromTallied(s: seq<Document>)
    ensures Map(Names(s), EntryFrom(Tallied(s, |s|))) == Map(Names(s), StatOf(s))
  {
    var names := Names(s);
    forall i | 0 <= i < |names|
      ensures EntryFrom(Tallied(s, |s|))(names[i]) == StatOf(s)(names[i])
    {
      EntryFromAgrees(s, names[i]);
    }
    MapAgree(names, EntryFrom(Tallied(s, |s|)), StatOf(s));
  }

  /** The forEach over the year's documents: a proposer's entry is created with
      count 0 and the document's department on first sight, then counted. */
  method TallyProposers(docsInYear: seq<Document>) returns (byProposer: map<string, ProposerEntry>, order: seq<string>)
    ensures byProposer == Tallied(docsInYear, |docsInYear|)
    ensures order == Names(docsInYear)
  {
    byProposer := map[];
    order := [];
    for i := 0 to |docsInYear|
      invariant byProposer == Tallied(docsInYear, i)
      invariant order == FirstSeen(docsInYear, ProposerName, i)
    {
      var name := ProposerName(docsInYear[i]);
      TalliedStep(docsInYear, i);
      ghost var before := byProposer;
      if name !in byProposer {
        byProposer := byProposer[name := ProposerEntry(0, DeptOrOther(docsInYear[i]))];
        order := order + [name];
      }
      byProposer := byProposer[name := byProposer[name].(count := byProposer[name].count + 1)];
      assert byProposer == before[name := (if name in before then before[name] else ProposerEntry(0, DeptOrOther(docsInYear[i]))).(count := (if name in before then before[name] else ProposerEntry(0, DeptOrOther(docsInYear[i]))).count + 1)];
    }
    FirstSeenDistinct(docsInYear, ProposerName, |docsInYear|);
    assert docsInYear[..|docsInYear|] == docsInYear;
  }

  /** `p.department || 'อื่นๆ'`, the department a row is grouped under. */
  function StatDept(p: ProposerStat): string
  {
    if p.department != "" then p.department else OtherDepartment
  }

  /** `s.Department || 'อื่นๆ'`. */
  function StaffDept(s: Staff): string
  {
    if s.department != "" then s.department else OtherDepartment
  }

  /** The report's three derived lists: proposerStats, staffByDept and byDepartment. */
  method BuildReport(documents: seq<Document>, staff: seq<Staff>, reportYear: int, subjectGroups: seq<string>)
    returns (proposerStats: seq<ProposerStat>, staffByDept: seq<Group<Staff>>, byDepartment: seq<Group<ProposerStat>>)
    ensures proposerStats == ProposerStats(DocsInYear(documents, reportYear))
    ensures staffByDept == Arranged(staff, StaffDept, subjectGroups)
    ensures byDepartment == Arranged(proposerStats, StatDept, subjectGroups)
  {
    var docsInYear := DocsInYear(documents, reportYear);
    var byProposer, order := TallyProposers(docsInYear);
    var entries := Map(order, EntryFrom(byProposer));
    EntriesFromTallied(docsInYear);
    proposerStats := SortDesc(entries, StatCount);
    staffByDept := GroupByCatalogue(staff, StaffDept, subjectGroups);
    byDepartment := GroupByCatalogue(proposerStats, StatDept, subjectGroups);
  }

  /** A row is the row of a proposer of the year: their document count, at least
      one, and the department of their first document. */
  lemma EntryRow(docs: seq<Document>, p: ProposerStat)
    requires p in Entries(docs)
    ensures p.name in Map(docs, ProposerName)
    ensures p.count == Count(docs, KeyIs(ProposerName, p.name)) && p.count >= 1
    ensures p.department == FirstDept(docs, p.name)
  {
    var k :| 0 <= k < |Entries(docs)| && Entries(docs)[k] == p;
    var name := Names(docs)[k];
    var j :| 0 <= j < |docs| && Map(docs, ProposerName)[j] == name;
    assert KeyIs(ProposerName, name)(docs[j]);
  }

  /** Sorting only reorders the rows. */
  lemma RowsAreEntries(docs: seq<Document>)
    ensures multiset(ProposerStats(docs)) == multiset(Entries(docs))
    ensures forall i :: 0 <= i < |ProposerStats(docs)| ==> ProposerStats(docs)[i] in Entries(docs)
    ensures forall i, j :: 0 <= i < j < |ProposerStats(docs)| ==> ProposerStats(docs)[i].count >= ProposerStats(docs)[j].count
  {
    SortDescOrdered(Entries(docs), StatCount);
    var r := ProposerStats(docs);
    forall i | 0 <= i < |r| ensures r[i] in Entries(docs) {
      assert r[i] in multiset(r);
    }
  }

  /** Every row is a proposer of the year with their document count, at least one,
      and the department of their first document, and the rows are ordered by
      decreasing count. */
  lemma ProposerStatsRows(docs: seq<Document>)
    ensures var r := ProposerStats(docs);
            forall i :: 0 <= i < |r| ==>
              r[i].name in Map(docs, ProposerName) && r[i].count == Count(docs, KeyIs(ProposerName, r[i].name)) &&
              r[i].count >= 1 && r[i].department == FirstDept(docs, r[i].name)
    ensures var r := ProposerStats(docs);
            forall i, j :: 0 <= i < j < |r| ==> r[i].count >= r[j].count
  {
    var r := ProposerStats(docs);
    RowsAreEntries(docs);
    forall i | 0 <= i < |r|
      ensures r[i].name in Map(docs, ProposerName) && r[i].count == Count(docs, KeyIs(ProposerName, r[i].name)) &&
              r[i].count >= 1 && r[i].department == FirstDept(docs, r[i].name)
    {
      EntryRow(docs, r[i]);
    }
  }

  /** Every document's proposer has a row. */
  lemma ProposerStatsCover(docs: seq<Document>)
    ensures var r := ProposerStats(docs);
            forall d :: d in docs ==> exists i :: 0 <= i < |r| && r[i].name == ProposerName(d)
  {
    var r := ProposerStats(docs);
    RowsAreEntries(docs);
    forall d | d in docs
      ensures exists i :: 0 <= i < |r| && r[i].name == ProposerName(d)
    {
      ProposerHasEntry(docs, d);
      var k :| 0 <= k < |Entries(docs)| && Entries(docs)[k].name == ProposerName(d);
      assert Entries(docs)[k] in multiset(r);
    }
  }

  lemma ProposerHasEntry(docs: seq<Document>, d: Document)
    requires d in docs
    ensures exists k :: 0 <= k < |Entries(docs)| && Entries(docs)[k].name == ProposerName(d)
  {
    var j :| 0 <= j < |docs| && docs[j] == d;
    assert Map(docs, ProposerName)[j] == ProposerName(d);
    var k :| 0 <= k < |Names(docs)| && Names(docs)[k] == ProposerName(d);
    assert Entries(docs)[k].name == ProposerName(d);
  }

  /** No proposer has two rows. */
  lemma ProposerStatsDistinct(docs: seq<Document>)
    ensures var r := ProposerStats(docs);
            forall i, j :: 0 <= i < j < |r| ==> r[i].name != r[j].name
  {
    var entries := Entries(docs);
    var r := ProposerStats(docs);
    RowsAreEntries(docs);
    assert NoDuplicates(entries) by {
      forall i, j | 0 <= i < j < |entries| ensures entries[i] != entries[j] {
        assert entries[i].name == Names(docs)[i];
      }
    }
    NoDuplicatesPermutation(entries, r);
    forall i, j | 0 <= i < j < |r|
      ensures r[i].name != r[j].name
    {
      EntryRow(docs, r[i]);
      EntryRow(docs, r[j]);
    }
  }

  /** The counts add up to the number of documents of the year. */
  lemma ProposerStatsSum(docs: seq<Document>)
    ensures SumOf(ProposerStats(docs), StatCount) == |docs|
  {
    var names := Names(docs);
    RowsAreEntries(docs);
    SumOfPermutation(ProposerStats(docs), Entries(docs), StatCount);
    SumRowCounts(docs, names);
    forall i | 0 <= i < |docs| ensures ProposerName(docs[i]) in names {
      assert Map(docs, ProposerName)[i] == ProposerName(docs[i]);
    }
    SumCountsCover(docs, ProposerName, names);
  }

  lemma {:induction false} SumRowCounts(docs: seq<Document>, names: seq<string>)
    ensures SumOf(Map(names, StatOf(docs)), StatCount) == SumCounts(docs, ProposerName, names)
  {
    if names != [] {
      SumRowCounts(docs, names[1..]);
      assert Map(names, StatOf(docs))[1..] == Map(names[1..], StatOf(docs));
    }
  }

  /** Proposers with the same count keep the order in which their first document
      appears. */
  lemma ProposerStatsTies(docs: seq<Document>, k: int)
    ensures Filter(ProposerStats(docs), HasKey(StatCount, k)) == Filter(Entries(docs), HasKey(StatCount, k))
  {
    SortDescStableAt(Entries(docs), StatCount, k);
  }

  /** byDepartment: each department's list holds exactly the rows of that
      department, by decreasing count; every row is listed under its department;
      and with a list of subject groups without repeats no department appears twice
      and no row is listed twice. */
  lemma ByDepartmentSpec(docs: seq<Document>, subjectGroups: seq<string>)
    ensures var r := Arranged(ProposerStats(docs), StatDept, subjectGroups);
            forall g :: 0 <= g < |r| ==>
              r[g].list == Filter(ProposerStats(docs), KeyIs(StatDept, r[g].dept)) && r[g].list != [] &&
              forall i, j :: 0 <= i < j < |r[g].list| ==> r[g].list[i].count >= r[g].list[j].count
    ensures var r := Arranged(ProposerStats(docs), StatDept, subjectGroups);
            forall p :: p in ProposerStats(docs) ==> exists g :: 0 <= g < |r| && r[g].dept == StatDept(p) && p in r[g].list
    ensures NoDuplicates(subjectGroups) ==>
              var r := Arranged(ProposerStats(docs), StatDept, subjectGroups);
              (forall g, h :: 0 <= g < h < |r| ==> r[g].dept != r[h].dept) && SumOf(r, GroupSize) == |ProposerStats(docs)|
  {
    var stats := ProposerStats(docs);
    RowsAreEntries(docs);
    ArrangedPartition(stats, StatDept, subjectGroups);
    GroupsRanked(stats, subjectGroups);
  }

  /** Grouping rows ranked by decreasing count keeps each group ranked. */
  lemma GroupsRanked(stats: seq<ProposerStat>, subjectGroups: seq<string>)
    requires forall i, j :: 0 <= i < j < |stats| ==> stats[i].count >= stats[j].count
    ensures var r := Arranged(stats, StatDept, subjectGroups);
            forall g :: 0 <= g < |r| ==>
              forall i, j :: 0 <= i < j < |r[g].list| ==> r[g].list[i].count >= r[g].list[j].count
  {
    var r := Arranged(stats, StatDept, subjectGroups);
    var ks := ArrangedKeys(stats, StatDept, subjectGroups);
    forall g | 0 <= g < |r|
      ensures forall i, j :: 0 <= i < j < |r[g].list| ==> r[g].list[i].count >= r[g].list[j].count
    {
      assert r[g].list == Filter(stats, KeyIs(StatDept, ks[g]));
      FilterDescending(stats, StatCount, KeyIs(StatDept, ks[g]));
    }
  }

  /** staffByDept: each department's list holds exactly its staff in input order;
      staff without a department are listed under 'อื่นๆ'; every member of staff
      is listed; and with a list of subject groups without repeats no department
      appears twice and the lists add up to the whole staff. */
  lemma StaffByDeptSpec(staff: seq<Staff>, subjectGroups: seq<string>)
    ensures var r := Arranged(staff, StaffDept, subjectGroups);
            forall g :: 0 <= g < |r| ==>
              r[g].list == Filter(staff, KeyIs(StaffDept, r[g].dept)) && r[g].list != [] && IsSubsequence(r[g].list, staff)
    ensures var r := Arranged(staff, StaffDept, subjectGroups);
            forall s :: s in staff ==> exists g :: 0 <= g < |r| && r[g].dept == StaffDept(s) && s in r[g].list
    ensures var r := Arranged(staff, StaffDept, subjectGroups);
            forall g, s :: 0 <= g < |r| && s in r[g].list && s.department == "" ==> r[g].dept == OtherDepartment
    ensures NoDuplicates(subjectGroups) ==>
              var r := Arranged(staff, StaffDept, subjectGroups);
              (forall g, h :: 0 <= g < h < |r| ==> r[g].dept != r[h].dept) && SumOf(r, GroupSize) == |staff|
  {
    var r := Arranged(staff, StaffDept, subjectGroups);
    ArrangedPartition(staff, StaffDept, subjectGroups);
    forall g, s | 0 <= g < |r| && s in r[g].list && s.department == ""
      ensures r[g].dept == OtherDepartment
    {
      var k :| 0 <= k < |r[g].list| && r[g].list[k] == s;
    }
  }
}
