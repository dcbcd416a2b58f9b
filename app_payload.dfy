/** The record the document form sends to be saved (submitDoc), built from the
    submitted form fields and, when editing, the document being edited. The
    current date is a parameter: the ISO date of the host clock in UTC. */
module AppPayload {
  import opened Seqs
  import opened Status
  import opened Documents
  import opened FilterRecord

  /** The submitted form fields by name; a field the form lacks reads as empty. */
  type Form = map<string, string>

  datatype Payload = Payload(
    submissionDate: string,
    department: string,
    proposerName: string,
    objective: string,
    planningStatus: string,
    procurementStatus: string,
    financeStatus: string,
    budgetStatus: string,
    notes1: string,
    notes2: string,
    workGroup: string,
    permission: string,
    approvalDate: string,
    docNumber: Option<string>)

  const Unspecified: string := "ยังไม่ระบุ"
  const InProgress: string := "กำลังดำเนินการ"

  /** `a || b` on strings. */
  function Or(a: string, b: string): string
  {
    if a != "" then a else b
  }

  /** The fields common to both approval-date rules. */
  function PayloadWith(form: Form, editing: Option<Document>, approvalDate: string): Payload
  {
    Payload(
      Get(form, "submission_date"),
      Or(Get(form, "department"), Unspecified),
      Get(form, "proposer_name"),
      Get(form, "objective"),
      Get(form, "planning_status"),
      Get(form, "procurement_status"),
      Get(form, "finance_status"),
      Get(form, "budget_status"),
      Get(form, "notes1"),
      Get(form, "notes2"),
      Get(form, "work_group"),
      Or(Get(form, "permission"), Or(if editing.Some? then editing.value.permission else "", InProgress)),
      approvalDate,
      if editing.Some? && editing.value.docNumber != "" then Some(editing.value.docNumber) else None)
  }

  /** submitDoc as written: a new document is dated only when the submitted
      permission is exactly 'อนุมัติ'. */
  function BuildPayload(form: Form, editing: Option<Document>, today: string): Payload
  {
    PayloadWith(form, editing,
      if editing.Some? then editing.value.approvalDate
      else if Get(form, "permission") == "อนุมัติ" then today else "")
  }

  /** submitDoc as evidently intended: a new document is dated when its submitted
      permission means approved, in any accepted spelling. */
  function BuildPayloadCorrected(form: Form, editing: Option<Document>, today: string): Payload
  {
    PayloadWith(form, editing,
      if editing.Some? then editing.value.approvalDate
      else if GetStatusInfo(Permission, Get(form, "permission")) == PermissionDescriptor(Approved) then today else "")
  }

  /** The defaults and fallbacks: the department and the permission are never
      empty, the document number is sent exactly when an edited document has one,
      and the form's fields pass through. */
  lemma PayloadDefaults(form: Form, editing: Option<Document>, today: string)
    ensures var p := BuildPayload(form, editing, today);
            p.department != "" &&
            (Get(form, "department") != "" ==> p.department == Get(form, "department")) &&
            (Get(form, "department") == "" ==> p.department == Unspecified)
    ensures var p := BuildPayload(form, editing, today);
            p.permission != "" &&
            (Get(form, "permission") != "" ==> p.permission == Get(form, "permission")) &&
            (Get(form, "permission") == "" && editing.Some? && editing.value.permission != "" ==>
               p.permission == editing.value.permission) &&
            (Get(form, "permission") == "" && (editing.None? || editing.value.permission == "") ==>
               p.permission == InProgress)
    ensures var p := BuildPayload(form, editing, today);
            (p.docNumber.Some? <==> editing.Some? && editing.value.docNumber != "") &&
            (p.docNumber.Some? ==> p.docNumber.value == editing.value.docNumber)
    ensures var p := BuildPayload(form, editing, today);
            p.submissionDate == Get(form, "submission_date") && p.proposerName == Get(form, "proposer_name") &&
            p.objective == Get(form, "objective") &&
            p.planningStatus == Get(form, "planning_status") && p.procurementStatus == Get(form, "procurement_status") &&
            p.financeStatus == Get(form, "finance_status") && p.budgetStatus == Get(form, "budget_status") &&
            p.notes1 == Get(form, "notes1") && p.notes2 == Get(form, "notes2") &&
            p.workGroup == Get(form, "work_group")
  {
  }

  /** An edit keeps the edited document's approval date; a new document gets
      today's date when the submitted permission is exactly 'อนุมัติ', and the
      empty date otherwise. */
  lemma ApprovalDateAsWritten(form: Form, editing: Option<Document>, today: string)
    ensures editing.Some? ==> BuildPayload(form, editing, today).approvalDate == editing.value.approvalDate
    ensures editing.None? ==>
              BuildPayload(form, editing, today).approvalDate == if Get(form, "permission") == "อนุมัติ" then today else ""
  {
  }

  /** The administrator's form offers 'อนุมัติแล้ว' for approval, which is an
      accepted spelling of approved, yet a new document saved with it gets no
      approval date. */
  lemma ApprovedNewDocumentUndated(form: Form, today: string)
    requires Get(form, "permission") == "อนุมัติแล้ว"
    ensures GetStatusInfo(Permission, Get(form, "permission")) == PermissionDescriptor(Approved)
    ensures BuildPayload(form, None, today).approvalDate == ""
  {
    assert "อนุมัติแล้ว" == "" + PermissionInputMap[2].0 + "";
    PermissionSpellingsResolve(2, "", "");
  }

  /** With the corrected rule a new document is dated exactly when its permission
      means approved, whichever spelling the form sent, and an edit still keeps
      its date. */
  lemma ApprovalDateCorrected(form: Form, editing: Option<Document>, today: string)
    ensures editing.Some? ==> BuildPayloadCorrected(form, editing, today).approvalDate == editing.value.approvalDate
    ensures editing.None? ==>
              BuildPayloadCorrected(form, editing, today).approvalDate
                == if GetStatusInfo(Permission, Get(form, "permission")) == PermissionDescriptor(Approved) then today else ""
  {
  }

  /** The corrected rule dates a new document saved as 'อนุมัติแล้ว'. */
  lemma CorrectedDatesApprovedSpelling(form: Form, today: string)
    requires Get(form, "permission") == "อนุมัติแล้ว"
    ensures BuildPayloadCorrected(form, None, today).approvalDate == today
  {
    ApprovedNewDocumentUndated(form, today);
  }

  /** The correction changes nothing but the approval date, and nothing at all for
      the one spelling the written rule recognises. */
  lemma CorrectionOnlyWidensApprovalDate(form: Form, editing: Option<Document>, today: string)
    ensures BuildPayloadCorrected(form, editing, today).(approvalDate := "") == BuildPayload(form, editing, today).(approvalDate := "")
    ensures Get(form, "permission") == "อนุมัติ" ==>
              BuildPayloadCorrected(form, editing, today) == BuildPayload(form, editing, today)
  {
    if Get(form, "permission") == "อนุมัติ" {
      assert "อนุมัติ" == "" + PermissionInputMap[1].0 + "";
      PermissionSpellingsResolve(1, "", "");
    }
  }
}
