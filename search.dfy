/** The free-text search every document list offers: the lower-cased term must
    occur in the lower-cased objective, proposer name or document number. */
module Search {
  import opened Text
  import opened Documents

  /** `field.toLowerCase().includes(term.toLowerCase())`. */
  predicate TextMatches(field: string, term: string)
  {
    Contains(Lower(field), Lower(term))
  }

  /** The search as the main list writes it, without a guard for the empty term. */
  predicate AnyFieldMatches(d: Document, term: string)
  {
    TextMatches(d.objective, term) || TextMatches(d.proposerName, term) || TextMatches(d.docNumber, term)
  }

  /** The search as the document views write it: an empty term matches everything. */
  predicate GuardedSearch(d: Document, term: string)
  {
    term == [] || AnyFieldMatches(d, term)
  }

  /** The guard changes nothing, because every string includes the empty string:
      both forms accept exactly the same documents. */
  lemma SearchFormsAgree(d: Document, term: string)
    ensures GuardedSearch(d, term) <==> AnyFieldMatches(d, term)
  {
    if term == [] {
      ContainsEmpty(Lower(d.objective), []);
    }
  }

  /** An empty search accepts every document. */
  lemma EmptySearchMatchesAll(d: Document)
    ensures AnyFieldMatches(d, "") && GuardedSearch(d, "")
  {
    ContainsEmpty(Lower(d.objective), []);
  }

  /** A missing (empty) field never satisfies a non-empty search. */
  lemma EmptyFieldNeverMatches(term: string)
    requires term != []
    ensures !TextMatches("", term)
  {
    LowerProperties(term);
    ContainsEmpty([], Lower(term));
  }
}
