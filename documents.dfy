/** The records the dashboard works on, as the backend returns them. A field the
    backend leaves out is modelled as the empty string: every view treats an
    absent field and an empty one alike. */
module Documents {
  import opened Seqs
  import opened Dates

  datatype Attachment = Attachment(fileId: string, fileName: string, fileUrl: string)

  datatype Document = Document(
    docNumber: string,
    submissionDate: string,
    department: string,
    proposerName: string,
    objective: string,
    planningStatus: string,
    procurementStatus: string,
    financeStatus: string,
    budgetStatus: string,
    notes1: string,
    permission: string,
    approvalDate: string,
    notes2: string,
    workGroup: string,
    attachment: Option<Attachment>)

  datatype Staff = Staff(id: string, fullName: string, department: string, email: string)

  datatype ActivityLog = ActivityLog(timestamp: string, user: string, action: string, details: string)

  datatype Role = Admin | Director

  datatype User = User(username: string, fullName: string, role: Role)

  /** Whether the submission date parses, i.e. `new Date(submission_date)` is not Invalid Date. */
  predicate HasValidDate(d: Document)
  {
    ParseIsoDate(d.submissionDate).Some?
  }

  predicate AllDatesValid(docs: seq<Document>)
  {
    forall i :: 0 <= i < |docs| ==> HasValidDate(docs[i])
  }

  /** The sort key of `new Date(submission_date).getTime()`. An unparseable date
      has no time value in JavaScript; the model gives it a key below every valid
      date. */
  function SubmissionKey(d: Document): int
  {
    match ParseIsoDate(d.submissionDate)
    case Some(date) => DayKey(date)
    case None => -1
  }

  /** Keys of valid dates are never negative, so the unparseable key stays below them. */
  lemma SubmissionKeyOfValid(d: Document)
    requires HasValidDate(d)
    ensures SubmissionKey(d) >= 0
    ensures SubmissionKey(d) == DayKey(ParseIsoDate(d.submissionDate).value)
  {
  }
}
