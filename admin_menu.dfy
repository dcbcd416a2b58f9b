/** The administrator's activity panel: the log entries of the last ten days,
    at most thirty, in log order. The clock and the parsing of a timestamp into
    milliseconds are parameters. */
module AdminMenu {
  import opened Seqs
  import opened Documents

  const MsPerDay: int := 86400000
  /** How many entries the panel shows at most. */
  const MaxEntries: int := 30

  /** The cutoff: ten days before now, in milliseconds. */
  function TenDaysBefore(now: int): int
  {
    now - 10 * MsPerDay
  }

  /** `new Date(a.timestamp) >= tenDaysAgo`: an unparseable timestamp is an
      Invalid Date, and comparing it with anything is false. */
  function IsRecent(cutoff: int, instantOf: string -> Option<int>): ActivityLog -> bool
  {
    (a: ActivityLog) =>
      match instantOf(a.timestamp)
      case Some(t) => t >= cutoff
      case None => false
  }

  /** filteredLog. */
  function FilteredLog(log: seq<ActivityLog>, now: int, instantOf: string -> Option<int>): seq<ActivityLog>
  {
    Slice(Filter(log, IsRecent(TenDaysBefore(now), instantOf)), 0, MaxEntries)
  }

  /** The panel shows the first min(30, k) of the k recent entries, in log order:
      each has a timestamp that parses to an instant no earlier than ten days ago,
      and no recent entry is skipped in favour of a later one. */
  lemma FilteredLogSpec(log: seq<ActivityLog>, now: int, instantOf: string -> Option<int>)
    ensures var recent := Filter(log, IsRecent(TenDaysBefore(now), instantOf));
            var r := FilteredLog(log, now, instantOf);
            |r| <= MaxEntries &&
            |r| == (if |recent| < MaxEntries then |recent| else MaxEntries) &&
            r == recent[..|r|]
    ensures var r := FilteredLog(log, now, instantOf);
            forall i :: 0 <= i < |r| ==>
              instantOf(r[i].timestamp).Some? && instantOf(r[i].timestamp).value >= now - 10 * MsPerDay
    ensures IsSubsequence(FilteredLog(log, now, instantOf), log)
  {
    var p := IsRecent(TenDaysBefore(now), instantOf);
    var recent := Filter(log, p);
    var r := FilteredLog(log, now, instantOf);
    SliceFromZero(recent, MaxEntries);
    forall i | 0 <= i < |r|
      ensures instantOf(r[i].timestamp).Some? && instantOf(r[i].timestamp).value >= now - 10 * MsPerDay
    {
      assert r[i] == recent[i];
      assert p(recent[i]);
    }
    FilterIsSubsequence(log, p);
    PrefixOfSubsequence(recent, log, |r|);
  }

  /** An entry whose timestamp does not parse is never shown. */
  lemma UnparseableNeverShown(log: seq<ActivityLog>, now: int, instantOf: string -> Option<int>, a: ActivityLog)
    requires instantOf(a.timestamp).None?
    ensures a !in FilteredLog(log, now, instantOf)
  {
    FilteredLogSpec(log, now, instantOf);
  }

  /** With thirty or fewer recent entries, all of them are shown. */
  lemma FewRecentAllShown(log: seq<ActivityLog>, now: int, instantOf: string -> Option<int>)
    requires |Filter(log, IsRecent(TenDaysBefore(now), instantOf))| <= MaxEntries
    ensures FilteredLog(log, now, instantOf) == Filter(log, IsRecent(TenDaysBefore(now), instantOf))
  {
    FilteredLogSpec(log, now, instantOf);
  }
}
