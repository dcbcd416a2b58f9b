/** The application-level handlers that reset the main list's filter state:
    logging out, "show all documents" and the visitor search form. The main list
    and the administrator's list each keep their own filter record and page. */
module AppState {
  import opened Seqs
  import opened Documents
  import opened FilterRecord
  import opened FilterPanel
  import opened AppDocuments

  /** `formData.get(name) as string || ''`: a missing form field reads as empty. */
  function FormValue(v: Option<string>): string
  {
    match v
    case Some(s) => s
    case None => ""
  }

  /** The record the visitor search form writes: three fields from the form,
      the exact date and the permission blank. */
  function VisitorSearchFilters(search: Option<string>, department: Option<string>, proposer: Option<string>): Filters
  {
    map["search" := FormValue(search), "group" := FormValue(department), "proposer" := FormValue(proposer),
        "date" := "", "permission" := ""]
  }

  /** A visitor search lists the documents whose search fields match and whose
      department and proposer agree with the form's choices, whatever their date
      or permission. */
  lemma VisitorSearchMatches(d: Document, search: Option<string>, department: Option<string>, proposer: Option<string>)
    ensures Matches(d, VisitorSearchFilters(search, department, proposer)) <==>
              Search.AnyFieldMatches(d, FormValue(search)) &&
              (FormValue(department) == "" || d.department == FormValue(department)) &&
              (FormValue(proposer) == "" || d.proposerName == FormValue(proposer))
  {
  }

  class AppController {
    /** The main list's filters and page (visitors and directors). */
    const main: Panel
    /** The administrator's list's filters and page. */
    const admin: Panel
    var currentUser: Option<User>
    var showResults: bool
    var visitorDepartmentFilter: string
    var visitorProposerFilter: string

    predicate Valid()
      reads this, main, admin
    {
      main != admin && main.Valid() && admin.Valid()
    }

    constructor ()
      ensures Valid() && fresh(main) && fresh(admin)
      ensures main.filters == Cleared && admin.filters == Cleared
      ensures currentUser == None && !showResults
      ensures visitorDepartmentFilter == "" && visitorProposerFilter == ""
    {
      main := new Panel(Cleared);
      admin := new Panel(Cleared);
      currentUser := None;
      showResults := false;
      visitorDepartmentFilter := "";
      visitorProposerFilter := "";
    }

    /** handleLogout: no user, results hidden, the five main filters blank and
        any range or month key dropped; the page stays where it was. */
    method Logout()
      requires Valid()
      modifies this, main
      ensures Valid()
      ensures currentUser == None && !showResults
      ensures main.filters == Cleared && main.currentPage == old(main.currentPage)
      ensures visitorDepartmentFilter == old(visitorDepartmentFilter) && visitorProposerFilter == old(visitorProposerFilter)
      ensures forall docs :: multiset(FilteredDocuments(docs, main.filters)) == multiset(docs)
    {
      currentUser := None;
      showResults := false;
      main.filters := Cleared;
      forall docs ensures multiset(FilteredDocuments(docs, Cleared)) == multiset(docs) {
        NoFiltersShowEverything(docs, Cleared);
      }
    }

    /** handleShowAllDocs: every filter blank, back to page 1, results shown; the
        list then holds every document. */
    method ShowAllDocs()
      requires Valid()
      modifies this, main
      ensures Valid()
      ensures main.filters == Cleared && main.currentPage == 1 && showResults
      ensures visitorDepartmentFilter == "" && visitorProposerFilter == ""
      ensures currentUser == old(currentUser)
      ensures forall docs :: multiset(FilteredDocuments(docs, main.filters)) == multiset(docs)
    {
      main.filters := Cleared;
      visitorDepartmentFilter := "";
      visitorProposerFilter := "";
      main.currentPage := 1;
      showResults := true;
      forall docs ensures multiset(FilteredDocuments(docs, Cleared)) == multiset(docs) {
        NoFiltersShowEverything(docs, Cleared);
      }
    }

    /** handleVisitorSearch: the form's search, department and proposer, no date
        and no permission filter, back to page 1, results shown. */
    method VisitorSearch(search: Option<string>, department: Option<string>, proposer: Option<string>)
      requires Valid()
      modifies this, main
      ensures Valid()
      ensures main.filters == VisitorSearchFilters(search, department, proposer)
      ensures Get(main.filters, "date") == "" && Get(main.filters, "permission") == ""
      ensures main.currentPage == 1 && showResults
      ensures currentUser == old(currentUser)
      ensures visitorDepartmentFilter == old(visitorDepartmentFilter) && visitorProposerFilter == old(visitorProposerFilter)
    {
      main.filters := VisitorSearchFilters(search, department, proposer);
      main.currentPage := 1;
      showResults := true;
    }
  }
}
