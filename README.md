# Document-tracking dashboard: a verified model of its logic

The dashboard is a React application that tracks school documents as they pass
through approval. Each document has a submission date, a department, a proposer,
four stage statuses and a final permission. Most of the application renders
markup and calls a remote script. This project models the pure and sequential
logic inside the components and proves what that logic promises:

- **Status canonicaliser** (`getStatusInfo`, module `Status`). It trims a stored
  status and looks it up, exactly, in the permission table or the four-stage
  table. It falls back to "pending" or "not started".
- **Document lists.**
  - `AppDocuments`: the main list filters on search, date, department, proposer
    and canonical permission. It sorts newest first and slices a page of ten.
    This module also lists proposers for the visitor search form.
  - `DocumentsView`: the administrator's list adds month, date-range and
    exact-date filters with a precedence order, and an "only pending" switch.
  - `Legacy`: the older search-only list has no sort.
- **Filter state.**
  - `AppState.AppController` holds the logout, show-all and visitor-search
    handlers.
  - `FilterPanel.Panel` holds the document view's filter record and page:
    field edits, month change, reset and the page buttons.
  - Both are classes whose methods update the record and the page in place.
- **Save payload** (`submitDoc`, module `AppPayload`): defaults, fallbacks and
  the approval-date rule.
- **Aggregations.**
  - `Dashboard`: year list, documents of a year, permission categories,
    per-department summary, five most recent documents. The category counts
    take the permission normaliser as a parameter: the source's as-written
    order or the corrected one.
  - `ProposerReport`: documents of the report year, per-proposer counts,
    staff and proposers grouped by department in catalogue order.
    `Grouping` holds the generic in-place grouping loop and the catalogue
    arrangement.
  - `StatsOverview`: exact-text counts, the chart series and the department
    table.
  - `AdminMenu`: the ten-day, thirty-entry activity window.
  - `Legacy`: the older dashboard's counters.

JavaScript's `filter`, `map`, `slice`, `[...new Set(...)]` and stable `sort` are
the functions `Filter`, `Map`, `Slice`, `Distinct` and `SortDesc` of modules
`Seqs` and `Sorting`.

The loops that update a local accumulator are methods with loop invariants. Each
is proved equal to a recursive specification function:

- the `for` loop of the year list;
- the `reduce` over departments;
- the `forEach` loops that tally proposers and push into groups.

The rest of the model states its properties about those functions.

A document field that is missing is the empty string. Dates are ISO `YYYY-MM-DD`
strings. A date that parses is ordered by a day key that embeds calendar order.

## Model

| member | source | states |
|---|---|---|
| Text.Trim | src/components/App.tsx:197 | The trimmed value has no whitespace at either end and is no longer than the input |
| Text.TrimPadded | src/components/App.tsx:197 | Trimming a trimmed word padded with any whitespace on both sides gives back the word |
| Text.AllWhitespaceTrimsToEmpty | src/components/App.tsx:197 | A blank value trims to the empty string |
| Text.Lower | src/components/App.tsx:402-406 | Lower-casing keeps the length and maps each character on its own |
| Text.LowerProperties | src/components/App.tsx:402-406 | Lower-casing is idempotent and keeps only the empty string empty |
| Text.ContainsIff | src/components/App.tsx:404-406 | `includes` holds exactly when the term occurs at some position |
| Text.ContainsEmpty | src/components/views/DocumentsView.tsx:56-59 | Every text includes the empty term; the empty text includes only the empty term |
| Text.DecimalString | src/components/views/DocumentsView.tsx:90 | `String(n)` consists of digits, reads back as n, and has one digit exactly when n < 10 |
| Status.FindKey | src/components/App.tsx:199-202 | `find` returns the first entry whose key equals the value, or reports that none does |
| Status.GetStatusInfoTotal | src/components/App.tsx:196-205 | Every value, including the empty one, resolves to one of the family's fixed descriptors |
| Status.UnknownFallsBack | src/components/App.tsx:199-203 | A value whose trimmed form is no accepted spelling gets pending or not started |
| Status.PermissionSpellingsDistinct | src/components/App.tsx:40-52 | No permission spelling is listed twice: the first entry with a key is that entry |
| Status.StageSpellingsDistinct | src/components/App.tsx:54-65 | No stage spelling is listed twice |
| Status.PermissionSpellingsResolve | src/components/App.tsx:40-52 | Every permission spelling, padded with any whitespace, resolves to the descriptor of its canonical key |
| Status.StageSpellingsResolve | src/components/App.tsx:54-65 | Every stage spelling, padded with any whitespace, resolves to the descriptor of its canonical key |
| Status.DisplayTextsResolveToThemselves | src/components/App.tsx:66-67 | Each display text the forms offer resolves to a descriptor with that same text |
| Status.PermissionTextResolves | src/components/App.tsx:34-38 | The text of each permission descriptor resolves back to that descriptor |
| Status.StageTextResolves | src/components/App.tsx:53 | The text of each stage descriptor resolves back to that descriptor |
| Status.PermissionTextsDistinct | src/components/App.tsx:34-38 | Two permission descriptors have the same text exactly when their keys are equal |
| Status.ResolveIsIdempotent | src/components/App.tsx:196-205 | Resolving the text of a resolved value gives the same descriptor |
| Status.PaddedApprovalExample | src/components/App.tsx:197-200 | `' อนุมัติ '` resolves to approved |
| Status.LowerCaseExample | src/components/App.tsx:199 | Matching is case-sensitive: `'approved'` resolves to pending |
| Status.BlankValueFallsBack | src/components/App.tsx:197 | A missing or blank value gets the family's default |
| Status.NoEmptySpelling | src/components/App.tsx:40-65 | The empty string is no accepted spelling in either table |
| Dates.ParseIsoDate | src/components/views/DocumentsView.tsx:68-74 | A string that parses as `YYYY-MM-DD` is a valid calendar date |
| Dates.DayKeyOrder | src/components/App.tsx:413 | Day keys order valid dates exactly as the calendar does, and equal keys mean equal dates |
| Dates.ParseYearMonth | src/components/views/DocumentsView.tsx:69 | A `YYYY-MM` value parses exactly when it has that shape |
| Dates.MonthIsDayRange | src/components/views/DocumentsView.tsx:67-74 | A date lies in a month exactly when its key lies between the keys of the month's first and last days |
| Dates.PaddedMonth | src/components/views/DocumentsView.tsx:90 | Padding a two-digit month's value to two digits gives back the same two digits |
| Dates.FirstDayOfMonthRoundTrip | src/components/views/DocumentsView.tsx:87-90 | For a month value whose year is 1000 or later, the first day built from it is `ym + "-01"` and parses to day 1 of that month |
| Documents.SubmissionKeyOfValid | src/components/App.tsx:413 | A document whose date parses sorts by the day key of that date |
| Sorting.SortBy | src/components/App.tsx:413 | Sorting is a permutation of its input |
| Sorting.SortBySorted | src/components/App.tsx:413 | Insertion sort under a total preorder gives a sorted sequence |
| Sorting.SortByStable | src/components/App.tsx:413 | Elements that compare equal keep their input order |
| Sorting.SortDescSpec | src/components/App.tsx:413 | The descending sort by an integer key is a permutation, non-increasing, and stable for each key |
| Sorting.FilterDescending | src/components/views/ProposerReportView.tsx:72-75 | Filtering a non-increasing sequence leaves it non-increasing |
| Sorting.LexLeIsPreorder | src/components/App.tsx:422 | The default string order of `sort()` is a total preorder |
| Sorting.SortStringsSpec | src/components/App.tsx:422-424 | `sort()` of names is a permutation in non-decreasing string order |
| Pagination.TotalPages | src/components/views/DocumentsView.tsx:96 | `ceil(count / n)`: the last page is partly or fully used, and an empty list has no pages |
| Pagination.PageSliceBounded | src/components/App.tsx:416-418 | A page holds at most the page size |
| Pagination.PageSliceContents | src/components/views/DocumentsView.tsx:97-100 | Page p of an existing page range is the non-empty slice from `(p-1)*n`; any later page is empty |
| Pagination.PagesCoverList | src/components/views/DocumentsView.tsx:96-100 | Pages 1 to the page count, concatenated, give back the whole list |
| Pagination.NavigationStaysInRange | src/components/views/DocumentsView.tsx:350-372 | The previous and next buttons keep the page within 1 and the page count |
| Search.SearchFormsAgree | src/components/views/DocumentsView.tsx:55-59 | The guarded search (`!term \|\| …`) accepts exactly the documents the unguarded search of the main list accepts |
| Search.EmptySearchMatchesAll | src/components/App.tsx:402-406 | An empty search accepts every document |
| Search.EmptyFieldNeverMatches | src/components/views/DocumentsView.tsx:57-59 | A missing field never matches a non-empty term |
| AppDocuments.SubmissionKeyIsCalendarOrder | src/components/App.tsx:413 | The sort key of two dated documents compares them as the calendar does |
| AppDocuments.FilteredDocumentsSpec | src/components/App.tsx:399-414 | Each document appears as often as in the input if it passes all five filters and never otherwise; the list is newest first; documents with equal dates keep their input order |
| AppDocuments.FilteredDocumentsByCalendar | src/components/App.tsx:413 | When every date parses, the list is in non-increasing calendar order |
| AppDocuments.NoFiltersShowEverything | src/components/App.tsx:399-414 | With every filter blank the list is a permutation of all documents |
| AppDocuments.PaginatedDocumentsBounds | src/components/App.tsx:416-418 | A page holds at most ten documents and a page past the last is empty |
| AppDocuments.ProposersForVisitorFilterSpec | src/components/App.tsx:420-425 | Names in string order: without a department, each staff name once; with one, a permutation of the names of that department's staff |
| AppPayload.PayloadDefaults | src/components/App.tsx:267-278 | The department defaults to 'ยังไม่ระบุ'; the permission is the form's, else the edited document's, else 'กำลังดำเนินการ'; the document number is sent exactly when an edited document has one; every other form field is sent unchanged |
| AppPayload.ApprovalDateAsWritten | src/components/App.tsx:275 | An edit keeps its approval date; a new document gets today's date when its permission is exactly 'อนุมัติ', and '' otherwise |
| AppPayload.ApprovedNewDocumentUndated | src/components/App.tsx:275 | A new document saved with 'อนุมัติแล้ว', which resolves to approved, gets no approval date |
| AppPayload.ApprovalDateCorrected | src/components/App.tsx:275 | Corrected rule: a new document is dated exactly when its permission resolves to approved; an edit keeps its date |
| AppPayload.CorrectedDatesApprovedSpelling | src/components/App.tsx:275 | Under the corrected rule, 'อนุมัติแล้ว' dates a new document |
| AppPayload.CorrectionOnlyWidensApprovalDate | src/components/App.tsx:267-278 | The correction changes only the approval date, and nothing for 'อนุมัติ' |
| AppState.VisitorSearchMatches | src/components/App.tsx:368-378 | After a visitor search, a document is listed exactly when its fields match the search and it has the chosen department and proposer, whatever its date or permission |
| AppState.AppController.Logout | src/components/App.tsx:229-234 | No user; results hidden; all five filters blank; page unchanged; the list then shows every document |
| AppState.AppController.ShowAllDocs | src/components/App.tsx:362-366 | All filters and the visitor selectors blank; page 1; results shown |
| AppState.AppController.VisitorSearch | src/components/App.tsx:368-378 | The form's three fields are copied, date and permission are blank, and the page is 1 |
| FilterPanel.MonthChangeSpec | src/components/views/DocumentsView.tsx:82-94 | An empty month clears the month and the range; a month sets the month, the first day and the last day; no other key changes |
| FilterPanel.Panel.SetFilter | src/components/views/DocumentsView.tsx:196-218 | Sets one field and leaves every other key and the page unchanged |
| FilterPanel.Panel.SetDateBound | src/components/views/DocumentsView.tsx:230-239 | Sets one range bound and clears the month; every other key and the page are unchanged |
| FilterPanel.Panel.MonthChange | src/components/views/DocumentsView.tsx:82-94 | The new record is the month change of the old one; the page is unchanged |
| FilterPanel.Panel.Reset | src/components/views/DocumentsView.tsx:102-105 | The eight view filters are blank, other keys are kept, and the page is 1 |
| FilterPanel.Panel.SearchButton | src/components/views/DocumentsView.tsx:258 | The page goes back to 1 and the filters are unchanged |
| FilterPanel.Panel.GoToPage | src/components/views/DocumentsView.tsx:360 | The page becomes the chosen number and the filters are unchanged |
| FilterPanel.Panel.Prev | src/components/views/DocumentsView.tsx:350 | The page becomes `max(1, p - 1)` |
| FilterPanel.Panel.Next | src/components/views/DocumentsView.tsx:372 | The page becomes `min(totalPages, p + 1)` and stays in range |
| DocumentsView.DateMatch | src/components/views/DocumentsView.tsx:65-77 | The step-by-step `dateMatch` computation equals the date-precedence predicate |
| DocumentsView.ViewFilteredDocumentsSpec | src/components/views/DocumentsView.tsx:53-80 | Each document appears as often as in the input if it passes every filter and never otherwise; the list is newest first and stable within a date |
| DocumentsView.OnlyPendingKeepsPending | src/components/views/DocumentsView.tsx:54 | With "only pending", every listed document resolves to pending |
| DocumentsView.MonthTakesPrecedence | src/components/views/DocumentsView.tsx:67-70 | With a month set, a document matches exactly when it is in that month, whatever the range and the exact date |
| DocumentsView.RangeTakesPrecedence | src/components/views/DocumentsView.tsx:71-74 | Without a month but with a bound, a document matches exactly when it is within the bounds that are set, whatever the exact date |
| DocumentsView.ExactDateLast | src/components/views/DocumentsView.tsx:75-77 | Without month or range, the date filter is exact string equality or absent |
| DocumentsView.MonthAgreesWithItsRange | src/components/views/DocumentsView.tsx:87-93 | When the month change writes the month's true last day as dateTo, matching by the month and by the range agree on every document, for years from 1000 on |
| DocumentsView.MonthRangeDropsLastDay | src/components/views/DocumentsView.tsx:91-93 | On a host east of UTC, dateTo is the day before the last day: a document dated the last day matches the month but not the range once the month is cleared |
| DocumentsView.LastDayParses | src/components/views/DocumentsView.tsx:91-93 | Any last-day string for the month parses to that day of that month |
| DocumentsView.AgreesWithMainList | src/components/views/DocumentsView.tsx:53-79 | Without month, range or "only pending", the view filters exactly as the main list does |
| DocumentsView.ResetListsEverything | src/components/views/DocumentsView.tsx:102-105 | After a reset every document passes the filters |
| DocumentsView.ViewPagesSpec | src/components/views/DocumentsView.tsx:96-100 | A page holds at most the page size, and the pages concatenate back to the filtered list |
| Dashboard.Years | src/components/views/DashboardView.tsx:12-17 | Six years counting down by one from the current Buddhist year |
| Dashboard.DocsForYearSpec | src/components/views/DashboardView.tsx:19-27 | An order-preserving subsequence holding exactly the documents whose CE year + 543 is the selected year, each as often as in the input |
| Dashboard.NormalizeCases | src/components/views/DashboardView.tsx:29-35 | Only the empty value normalises to empty; any other value becomes a category or stays unchanged |
| Dashboard.RejectedCountedAsApproved | src/components/views/DashboardView.tsx:31-33 | 'ไม่อนุมัติ' resolves to rejected, but the written order of tests puts it in the approved category |
| Dashboard.ThaiSpellingsNormalize | src/components/views/DashboardView.tsx:29-35 | Under the corrected order, each Thai permission spelling falls in the category of the key it resolves to |
| Dashboard.NormalizeNotApproved | src/components/views/DashboardView.tsx:29-35 | Under the corrected order, 'ไม่อนุมัติ' is rejected |
| Dashboard.StatsBounded | src/components/views/DashboardView.tsx:37-44 | For any normaliser, including the as-written one the source uses, the total is the number of the year's documents and the three category counts add up to at most the total |
| Dashboard.StatsCountRejection | src/components/views/DashboardView.tsx:29-44 | A year of one 'ไม่อนุมัติ' document has stats 1 total, 1 approved, 0 rejected as written, and 1 rejected, 0 approved when corrected |
| Dashboard.StatusByDepartment | src/components/views/DashboardView.tsx:46-56 | The `reduce` adds entries in first-appearance order of the departments, with no repeats. It holds an entry for exactly those departments, each with its document count and its count of documents the given normaliser calls approved |
| Dashboard.StatusByDepartmentSpec | src/components/views/DashboardView.tsx:46-56 | For any normaliser, including the as-written one, every entry has total at least 1 and approved at most total, and the totals add up to the number of the year's documents |
| Dashboard.RecentDocumentsSpec | src/components/views/DashboardView.tsx:209 | At most five documents, newest first, drawn from the documents, and none left out is newer than one shown |
| AdminMenu.FilteredLogSpec | src/components/views/AdminMenuView.tsx:30-39 | The first min(30, k) of the k entries from the last ten days, in log order, each with a parsable timestamp no older than the cutoff |
| AdminMenu.UnparseableNeverShown | src/components/views/AdminMenuView.tsx:33-37 | An entry whose timestamp does not parse is never shown |
| AdminMenu.FewRecentAllShown | src/components/views/AdminMenuView.tsx:39 | With at most 30 recent entries, all of them are shown |
| Grouping.GroupInOrder | src/components/views/ProposerReportView.tsx:55-60 | The `forEach` push loop yields, per department, exactly its elements in input order, and the departments in order of first appearance |
| Grouping.GroupByCatalogue | src/components/views/ProposerReportView.tsx:54-67 | The groups equal the catalogue-ordered arrangement |
| Grouping.ArrangedPartition | src/components/views/ProposerReportView.tsx:61-66 | Every group is the non-empty, order-preserving list of its department's elements; every element is in its department's group; with a repeat-free catalogue, no department has two groups and the sizes add up to the input length |
| Grouping.ArrangedOrder | src/components/views/ProposerReportView.tsx:61-66 | Catalogue departments come first, in catalogue order; the others follow in order of first appearance |
| ProposerReport.DocsInYearIsDashboardYear | src/components/views/ProposerReportView.tsx:29-36 | The report year's documents are exactly those the dashboard selects for that Buddhist year, since an empty date never parses |
| ProposerReport.TallyProposers | src/components/views/ProposerReportView.tsx:40-47 | The `forEach` tally gives each proposer their document count and the department of their first document; names are in order of first appearance |
| ProposerReport.TalliedAt | src/components/views/ProposerReportView.tsx:41-47 | After n documents, a name is tallied exactly when it occurred, with its count so far and its first department |
| ProposerReport.BuildReport | src/components/views/ProposerReportView.tsx:29-84 | The three report lists equal the specification's per-proposer rows and the two arrangements |
| ProposerReport.ProposerStatsRows | src/components/views/ProposerReportView.tsx:39-51 | Each row's name occurs, its count is its number of documents (at least 1), its department is its first document's; rows are in non-increasing count order |
| ProposerReport.ProposerStatsCover | src/components/views/ProposerReportView.tsx:41-47 | Every document's proposer, 'ไม่ระบุ' when missing, has a row |
| ProposerReport.ProposerStatsDistinct | src/components/views/ProposerReportView.tsx:43-45 | No proposer has two rows |
| ProposerReport.ProposerStatsSum | src/components/views/ProposerReportView.tsx:39-51 | The counts add up to the number of the year's documents |
| ProposerReport.ProposerStatsTies | src/components/views/ProposerReportView.tsx:48-50 | Proposers with equal counts keep their first-appearance order |
| ProposerReport.ByDepartmentSpec | src/components/views/ProposerReportView.tsx:70-84 | byDepartment partitions the rows into non-empty department groups, each in non-increasing count order |
| ProposerReport.StaffByDeptSpec | src/components/views/ProposerReportView.tsx:54-67 | Every staff member is in exactly their department's group, 'อื่นๆ' when missing, in input order; groups are non-empty and, with a repeat-free catalogue, distinct and of total size the staff count |
| StatsOverview.OverviewBounded | src/components/views/StatsOverviewView.tsx:10-16 | The total is the number of documents, and the three exact-text counts add up to at most the total |
| StatsOverview.ChartMatchesLabels | src/components/views/StatsOverviewView.tsx:18-25 | Each chart value is the number of documents whose permission is exactly its label |
| StatsOverview.RowFacts | src/components/views/StatsOverviewView.tsx:28-37 | Every row is its named, present department's row, with total at least 1 and the three counts adding up to at most the total |
| StatsOverview.ByDepartmentRows | src/components/views/StatsOverviewView.tsx:27-39 | Every row of the table has those row facts, and the rows are in non-increasing total order |
| StatsOverview.ByDepartmentCover | src/components/views/StatsOverviewView.tsx:28 | Every document with a department has that department's row |
| StatsOverview.ByDepartmentDistinct | src/components/views/StatsOverviewView.tsx:28 | No department has two rows |
| StatsOverview.ByDepartmentSum | src/components/views/StatsOverviewView.tsx:27-39 | The row totals add up to the number of documents that name a department |
| Legacy.FilteredSpec | components/views/DocumentsView.tsx:4-9 | An empty search returns the documents unchanged; otherwise exactly the matching documents in input order |
| Legacy.PaginatedSpec | components/views/DocumentsView.tsx:11 | A page holds at most the page size; an existing page is the slice from `(p-1)*n` of the filtered list; later pages are empty |
| Legacy.CountersSpec | components/views/DashboardView.tsx:10-18 | Without documents all three counters are 0; otherwise the total is the length and the others count the exact texts, approved + pending ≤ total |
| Legacy.ApprovedSpellingNotCounted | components/views/DashboardView.tsx:14 | A document marked 'อนุมัติแล้ว' does not raise the approved counter |

## Left out

- Network and backend calls are not modelled: the initial fetch, saving, deleting, importing, exporting and the staff handlers. The model stops at the payload `submitDoc` builds.
- Browser effects are not modelled: attachments and their size check, windows, printing, confirmations, toasts and timers.
- Rendering is not modelled: all markup and the Chart.js set-up.
  - Only the computed chart series is modelled.
  - The views that only render (guide, forms, import, manage-documents tab, document card) have no logic of their own. The import views' `JSON.parse` is not modelled.
- `formatDate` and `formatActivityDate` format dates for display. They are not modelled.
- Dates:
  - Dates are modelled as ISO `YYYY-MM-DD` strings. A string that does not parse gets sort key -1. In the source its time is `NaN`, which makes the comparator inconsistent and the order unspecified, so the calendar-order results require every date to parse.
  - Other date formats that the host's `Date` parser accepts are not modelled.
  - Time zones are not modelled. The source mixes UTC and local-time parsing. The model takes a document's year, month and day from its ISO string.
- FilterPanel.Panel.MonthChange: the last day of the month is a parameter, because `toISOString` of a local midnight depends on the host's time zone. At or west of UTC it is the true last day, `Dates.LastDayOfMonth`. East of UTC it is the day before, `Dates.LastDayOfMonthEastOfUtc`. Both are listed under "## Findings".
- DocumentsView.MonthAgreesWithItsRange: proved for the true last day only. On a host east of UTC the source writes the day before, and `DocumentsView.MonthRangeDropsLastDay` shows the two filters then disagree.
- Dates.FirstDayOfMonthRoundTrip: years below 1000 are left out. `Number` drops the leading zero, so '0999-05' gives '999-05-01' (`Dates.FirstDayOfMonth` models that), which is not the month value followed by `-01`.
- AdminMenu.FilteredLogSpec:
  - The clock's "now" and the timestamp parser are parameters.
  - The cutoff is exactly ten days of milliseconds. A daylight-saving change within those ten days is not modelled.
- Dashboard.Years: the current Buddhist year is a parameter. The default year taken from the configuration is left out too.
- Sorting.LexLe: characters are compared as code points, while `sort()` compares UTF-16 code units. The two orders differ only between a character above U+FFFF and one from U+E000 to U+FFFF.
- Text.Lower: lower-casing covers ASCII letters only. Unicode case mapping is left out; Thai has no case.
- Missing fields and objects:
  - A missing document or staff field is modelled as the empty string. This differs from the source in three places:
    - `toLowerCase` on a missing field in the main list would throw.
    - Dashboard.StatusByDepartment: the source keeps a missing department as `undefined`, and `acc[undefined]` makes the key "undefined". That entry is kept apart from the entry for "". The model gives both kinds of document the one entry "".
    - AppDocuments.ProposersForVisitorFilter: `sort()` puts an `undefined` staff name last without comparing it. The model's "" sorts first.
  - Negative page numbers are not modelled beyond what `slice` does with them.
- Object key order: `Object.entries` lists keys in insertion order. The model keeps that order as a sequence beside each map, such as the `order` output of `Dashboard.StatusByDepartment`. Keys that look like array indices are listed first in JavaScript, and inherited prototype keys such as `constructor` would read as present. Both are left out.

## Findings

| source | as written | input that shows it | evidently intended | confidence | as-written member | corrected member |
|---|---|---|---|---|---|---|
| src/components/App.tsx:275 | A new document gets an approval date only when its permission is exactly 'อนุมัติ' | A new document saved from the administrator's form with permission 'อนุมัติแล้ว' (the form's approve option, src/components/App.tsx:684) gets an empty approval date | Date a new document whenever its permission resolves to approved | not executed | AppPayload.ApprovedNewDocumentUndated | AppPayload.CorrectedDatesApprovedSpelling |
| src/components/views/DashboardView.tsx:29-35 | normalizePermission tests 'อนุ' before 'ไม่' | 'ไม่อนุมัติ' (not approved) contains 'อนุ' and is counted as approved | Test 'ไม่' first, so rejections are counted as rejected | not executed | Dashboard.AsWrittenApprovesRejection | Dashboard.NormalizeNotApproved |
| src/components/views/DocumentsView.tsx:91-92 | dateTo is `toISOString` of local midnight on the month's last day, which on a host east of UTC (such as UTC+7) names the day before | Month '2024-05' gives dateTo '2024-05-30'. After the month is cleared, a document dated '2024-05-31' no longer matches the range | Write the month's true last day, as `${y}-${mm}-${days}` | not executed | DocumentsView.MonthRangeDropsLastDay | DocumentsView.MonthAgreesWithItsRange |

The corrected definitions stand beside the code as written:

- `AppPayload.BuildPayloadCorrected` is the corrected payload rule, next to `AppPayload.BuildPayload`. No other part of the model consumes a payload.
- `Dates.LastDayOfMonth` is the month's true last day. `DocumentsView.MonthAgreesWithItsRange` is stated over it.

The dashboard's statistics take the normaliser as a parameter. Their bounds are proved for every normaliser, so they hold both for the source's `Dashboard.NormalizePermissionAsWritten` and for the corrected `Dashboard.NormalizePermission`. `Dashboard.StatsCountRejection` shows where the two differ.
