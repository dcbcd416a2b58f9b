/** The filter record the document lists share. It is a plain object: the main
    list writes five keys, the document view spreads it and adds the date-range
    and month keys, and reading a key it does not hold gives the empty string. */
module FilterRecord {

  type Filters = map<string, string>

  /** `filters[key] || ''`. */
  function Get(f: Filters, key: string): string
  {
    if key in f then f[key] else ""
  }

  /** `{ search: '', date: '', group: '', proposer: '', permission: '' }`. */
  const Cleared: Filters := map["search" := "", "date" := "", "group" := "", "proposer" := "", "permission" := ""]

  /** Every key reads as empty in the cleared record. */
  lemma ClearedIsEmpty(key: string)
    ensures Get(Cleared, key) == ""
  {
  }
}
