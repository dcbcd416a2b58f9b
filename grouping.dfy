/** Grouping by department as the proposer report does it: a `forEach` pushes
    each element into `grouped[key]`, creating the list on first sight; the groups
    are then listed in catalogue order for the catalogue's departments, followed
    by the other departments in the order they were first seen. */
module Grouping {
  import opened Seqs
  import opened Tally

  datatype Group<T> = Group(dept: string, list: seq<T>)

  /** `grouped` after the first n elements have been pushed. */
  function Grouped<T>(s: seq<T>, key: T -> string, n: nat): map<string, seq<T>>
    requires n <= |s|
  {
    if n == 0 then map[]
    else
      var m := Grouped(s, key, n - 1);
      var k := key(s[n - 1]);
      m[k := (if k in m then m[k] else []) + [s[n - 1]]]
  }

  /** No element has a key that is not among the keys. */
  lemma NoMembers<T>(s: seq<T>, key: T -> string, k: string)
    requires k !in Map(s, key)
    ensures Filter(s, KeyIs(key, k)) == []
  {
  }

  /** After n pushes there is a list for key k exactly when k has been seen, and
      it holds the elements with key k in their input order. */
  lemma {:induction false} GroupedAt<T>(s: seq<T>, key: T -> string, n: nat, k: string)
    requires n <= |s|
    ensures k in Grouped(s, key, n) <==> k in Map(s[..n], key)
    ensures k in Grouped(s, key, n) ==> Grouped(s, key, n)[k] == Filter(s[..n], KeyIs(key, k))
  {
    if n > 0 {
      var prev, x := s[..n - 1], s[n - 1];
      GroupedAt(s, key, n - 1, k);
      assert s[..n] == prev + [x];
      MapSnoc(prev, x, key);
      FilterSnoc(prev, x, KeyIs(key, k));
      if k == key(x) && k !in Grouped(s, key, n - 1) {
        NoMembers(prev, key, k);
      }
    }
  }

  /** The group of department g: g and the elements whose key is g. */
  function GroupOf<T>(s: seq<T>, key: T -> string): string -> Group<T>
  {
    g => Group(g, Filter(s, KeyIs(key, g)))
  }

  /** Some element has key g. */
  function KeyOccurs<T>(s: seq<T>, key: T -> string): string -> bool
  {
    g => g in Map(s, key)
  }

  function NotListed(catalogue: seq<string>): string -> bool
  {
    k => k !in catalogue
  }

  /** The departments in the order they are listed: the catalogue's departments
      that occur, in catalogue order, then the others in order of first sight. */
  function ArrangedKeys<T>(s: seq<T>, key: T -> string, catalogue: seq<string>): seq<string>
  {
    Filter(catalogue, KeyOccurs(s, key)) + Filter(Distinct(Map(s, key)), NotListed(catalogue))
  }

  /** The groups, as the report lists them. */
  function Arranged<T>(s: seq<T>, key: T -> string, catalogue: seq<string>): seq<Group<T>>
  {
    Map(ArrangedKeys(s, key, catalogue), GroupOf(s, key))
  }

  function InGroups<T>(grouped: map<string, seq<T>>): string -> bool
  {
    g => g in grouped
  }

  function GroupFrom<T>(grouped: map<string, seq<T>>): string -> Group<T>
  {
    g => Group(g, if g in grouped then grouped[g] else [])
  }

  /** Groups the elements of s by key with a forEach, then lists the catalogue's
      groups in catalogue order followed by the remaining groups in the order
      their keys were first seen (the order of `Object.entries`). */
  method GroupByCatalogue<T>(s: seq<T>, key: T -> string, catalogue: seq<string>) returns (groups: seq<Group<T>>)
    ensures groups == Arranged(s, key, catalogue)
  {
    var grouped, order := GroupInOrder(s, key);
    var known := Filter(catalogue, InGroups(grouped));
    var others := Filter(order, NotListed(catalogue));
    groups := Map(known, GroupFrom(grouped)) + Map(others, GroupFrom(grouped));
    ArrangedFromGrouped(s, key, catalogue);
  }

  /** The forEach: pushes every element onto the list of its key, creating the
      list on first sight, and keeps the keys in the order they were first seen. */
  method GroupInOrder<T>(s: seq<T>, key: T -> string) returns (grouped: map<string, seq<T>>, order: seq<string>)
    ensures grouped == Grouped(s, key, |s|)
    ensures order == Distinct(Map(s, key))
  {
    grouped := map[];
    order := [];
    for i := 0 to |s|
      invariant grouped == Grouped(s, key, i)
      invariant order == FirstSeen(s, key, i)
    {
      var k := key(s[i]);
      GroupedStep(s, key, i);
      ghost var before := grouped;
      if k !in grouped {
        grouped := grouped[k := []];
        order := order + [k];
      }
      grouped := grouped[k := grouped[k] + [s[i]]];
      assert grouped == before[k := (if k in before then before[k] else []) + [s[i]]];
    }
    FirstSeenDistinct(s, key, |s|);
    assert s[..|s|] == s;
  }

  /** The keys of the first n elements in the order they were first seen. */
  function FirstSeen<T>(s: seq<T>, key: T -> string, n: nat): seq<string>
    requires n <= |s|
  {
    if n == 0 then []
    else
      var o := FirstSeen(s, key, n - 1);
      if key(s[n - 1]) in o then o else o + [key(s[n - 1])]
  }

  /** The order of first sight is `[...new Set(keys)]`. */
  lemma {:induction false} FirstSeenDistinct<T>(s: seq<T>, key: T -> string, n: nat)
    requires n <= |s|
    ensures FirstSeen(s, key, n) == Distinct(Map(s[..n], key))
  {
    if n > 0 {
      FirstSeenDistinct(s, key, n - 1);
      DistinctPrefixStep(s, key, n);
    }
  }

  lemma DistinctPrefixStep<T>(s: seq<T>, key: T -> string, n: nat)
    requires 0 < n <= |s|
    ensures var d := Distinct(Map(s[..n - 1], key));
            Distinct(Map(s[..n], key)) == if key(s[n - 1]) in d then d else d + [key(s[n - 1])]
  {
    assert s[..n] == s[..n - 1] + [s[n - 1]];
    DistinctMapSnoc(s[..n - 1], s[n - 1], key);
  }

  lemma DistinctMapSnoc<T>(p: seq<T>, x: T, key: T -> string)
    ensures var d := Distinct(Map(p, key));
            Distinct(Map(p + [x], key)) == if key(x) in d then d else d + [key(x)]
  {
    MapSnoc(p, x, key);
    DistinctSnoc(Map(p, key), key(x));
  }

  /** A key has a list exactly when it has been seen. */
  lemma GroupedStep<T>(s: seq<T>, key: T -> string, i: nat)
    requires i < |s|
    ensures key(s[i]) in Grouped(s, key, i) <==> key(s[i]) in FirstSeen(s, key, i)
  {
    var k := key(s[i]);
    GroupedAt(s, key, i, k);
    FirstSeenDistinct(s, key, i);
    if k in Map(s[..i], key) {
      var j :| 0 <= j < |Map(s[..i], key)| && Map(s[..i], key)[j] == k;
    }
  }

  /** Once every element is pushed, each key's list, or the empty list for a key
      never seen, is the key's group. */
  lemma GroupFromAgrees<T>(s: seq<T>, key: T -> string, g: string)
    ensures GroupFrom(Grouped(s, key, |s|))(g) == GroupOf(s, key)(g)
    ensures InGroups(Grouped(s, key, |s|))(g) == KeyOccurs(s, key)(g)
  {
    assert s[..|s|] == s;
    GroupedAt(s, key, |s|, g);
    if g !in Map(s, key) {
      NoMembers(s, key, g);
    }
  }

  /** Reading the groups out of the finished map gives the arranged groups. */
  lemma ArrangedFromGrouped<T>(s: seq<T>, key: T -> string, catalogue: seq<string>)
    ensures var grouped := Grouped(s, key, |s|);
            Map(Filter(catalogue, InGroups(grouped)), GroupFrom(grouped))
              + Map(Filter(Distinct(Map(s, key)), NotListed(catalogue)), GroupFrom(grouped))
              == Arranged(s, key, catalogue)
  {
    var grouped := Grouped(s, key, |s|);
    var known := Filter(catalogue, InGroups(grouped));
    var others := Filter(Distinct(Map(s, key)), NotListed(catalogue));
    forall i | 0 <= i < |catalogue|
      ensures InGroups(grouped)(catalogue[i]) == KeyOccurs(s, key)(catalogue[i])
    {
      GroupFromAgrees(s, key, catalogue[i]);
    }
    FilterAgree(catalogue, InGroups(grouped), KeyOccurs(s, key));
    MapAppend(known, others, GroupFrom(grouped));
    var ks := known + others;
    forall i | 0 <= i < |ks|
      ensures GroupFrom(grouped)(ks[i]) == GroupOf(s, key)(ks[i])
    {
      GroupFromAgrees(s, key, ks[i]);
    }
    MapAgree(ks, GroupFrom(grouped), GroupOf(s, key));
  }

  /** The listed departments are distinct when the catalogue's are, and every
      element's department is listed. */
  lemma ArrangedKeysSpec<T>(s: seq<T>, key: T -> string, catalogue: seq<string>)
    ensures forall i :: 0 <= i < |s| ==> key(s[i]) in ArrangedKeys(s, key, catalogue)
    ensures NoDuplicates(catalogue) ==> NoDuplicates(ArrangedKeys(s, key, catalogue))
  {
    var known := Filter(catalogue, KeyOccurs(s, key));
    var others := Filter(Distinct(Map(s, key)), NotListed(catalogue));
    forall i | 0 <= i < |s|
      ensures key(s[i]) in known + others
    {
      var k := key(s[i]);
      assert Map(s, key)[i] == k;
      if k !in catalogue {
        assert k in others;
      } else {
        var j :| 0 <= j < |catalogue| && catalogue[j] == k;
        assert k in known;
      }
    }
    if NoDuplicates(catalogue) {
      FilterNoDuplicates(catalogue, KeyOccurs(s, key));
      FilterNoDuplicates(Distinct(Map(s, key)), NotListed(catalogue));
      NoDuplicatesAppend(known, others);
    }
  }

  function GroupSize<T>(g: Group<T>): int
  {
    |g.list|
  }

  lemma {:induction false} SumGroupSizes<T>(s: seq<T>, key: T -> string, ks: seq<string>)
    ensures SumOf(Map(ks, GroupOf(s, key)), GroupSize) == SumCounts(s, key, ks)
  {
    if ks != [] {
      SumGroupSizes(s, key, ks[1..]);
      assert Map(ks, GroupOf(s, key))[1..] == Map(ks[1..], GroupOf(s, key));
    }
  }

  /** The groups partition the input: each group is non-empty and holds exactly the
      elements of its department in input order, and with a catalogue without
      repeats the departments are distinct and the group sizes add up to |s|. */
  lemma ArrangedPartition<T>(s: seq<T>, key: T -> string, catalogue: seq<string>)
    ensures var r := Arranged(s, key, catalogue);
            forall i :: 0 <= i < |r| ==>
              r[i].list == Filter(s, KeyIs(key, r[i].dept)) && r[i].list != [] && IsSubsequence(r[i].list, s)
    ensures var r := Arranged(s, key, catalogue);
            forall x :: x in s ==> exists i :: 0 <= i < |r| && r[i].dept == key(x) && x in r[i].list
    ensures NoDuplicates(catalogue) ==>
              var r := Arranged(s, key, catalogue);
              (forall i, j :: 0 <= i < j < |r| ==> r[i].dept != r[j].dept) && SumOf(r, GroupSize) == |s|
  {
    ArrangedGroups(s, key, catalogue);
    ArrangedCover(s, key, catalogue);
    if NoDuplicates(catalogue) {
      ArrangedDistinct(s, key, catalogue);
    }
  }

  lemma ArrangedGroups<T>(s: seq<T>, key: T -> string, catalogue: seq<string>)
    ensures var r := Arranged(s, key, catalogue);
            forall i :: 0 <= i < |r| ==>
              r[i].list == Filter(s, KeyIs(key, r[i].dept)) && r[i].list != [] && IsSubsequence(r[i].list, s)
  {
    var ks := ArrangedKeys(s, key, catalogue);
    var r := Arranged(s, key, catalogue);
    forall i | 0 <= i < |r|
      ensures r[i].list == Filter(s, KeyIs(key, r[i].dept)) && r[i].list != [] && IsSubsequence(r[i].list, s)
    {
      KeyOccursNonEmpty(s, key, catalogue, i);
      FilterIsSubsequence(s, KeyIs(key, ks[i]));
    }
  }

  lemma ArrangedCover<T>(s: seq<T>, key: T -> string, catalogue: seq<string>)
    ensures var r := Arranged(s, key, catalogue);
            forall x :: x in s ==> exists i :: 0 <= i < |r| && r[i].dept == key(x) && x in r[i].list
  {
    var ks := ArrangedKeys(s, key, catalogue);
    var r := Arranged(s, key, catalogue);
    ArrangedKeysSpec(s, key, catalogue);
    forall x | x in s
      ensures exists i :: 0 <= i < |r| && r[i].dept == key(x) && x in r[i].list
    {
      var j :| 0 <= j < |s| && s[j] == x;
      var i :| 0 <= i < |ks| && ks[i] == key(x);
      assert r[i].dept == key(x);
      assert KeyIs(key, key(x))(s[j]);
    }
  }

  lemma ArrangedDistinct<T>(s: seq<T>, key: T -> string, catalogue: seq<string>)
    requires NoDuplicates(catalogue)
    ensures var r := Arranged(s, key, catalogue);
            (forall i, j :: 0 <= i < j < |r| ==> r[i].dept != r[j].dept) && SumOf(r, GroupSize) == |s|
  {
    var ks := ArrangedKeys(s, key, catalogue);
    ArrangedKeysSpec(s, key, catalogue);
    SumGroupSizes(s, key, ks);
    SumCountsCover(s, key, ks);
  }

  /** Every listed department occurs in the input. */
  lemma KeyOccursNonEmpty<T>(s: seq<T>, key: T -> string, catalogue: seq<string>, i: nat)
    requires i < |ArrangedKeys(s, key, catalogue)|
    ensures Filter(s, KeyIs(key, ArrangedKeys(s, key, catalogue)[i])) != []
  {
    var known := Filter(catalogue, KeyOccurs(s, key));
    var others := Filter(Distinct(Map(s, key)), NotListed(catalogue));
    var k := ArrangedKeys(s, key, catalogue)[i];
    if i < |known| {
      assert k == known[i];
    } else {
      assert k == others[i - |known|];
      assert k in Distinct(Map(s, key));
    }
    var j :| 0 <= j < |s| && Map(s, key)[j] == k;
    assert KeyIs(key, k)(s[j]);
  }

  /** The number of catalogue groups listed. */
  function CatalogueGroupCount<T>(s: seq<T>, key: T -> string, catalogue: seq<string>): nat
  {
    |Filter(catalogue, KeyOccurs(s, key))|
  }

  /** The catalogue's departments come first, in catalogue order; the others follow
      in the order they first appear in the input. */
  lemma ArrangedOrder<T>(s: seq<T>, key: T -> string, catalogue: seq<string>)
    ensures var r := Arranged(s, key, catalogue);
            var c := CatalogueGroupCount(s, key, catalogue);
            c <= |r| && forall i :: 0 <= i < |r| ==> (i < c <==> r[i].dept in catalogue)
    ensures IsSubsequence(ArrangedKeys(s, key, catalogue)[..CatalogueGroupCount(s, key, catalogue)], catalogue)
    ensures IsSubsequence(ArrangedKeys(s, key, catalogue)[CatalogueGroupCount(s, key, catalogue)..], Distinct(Map(s, key)))
  {
    var known := Filter(catalogue, KeyOccurs(s, key));
    var others := Filter(Distinct(Map(s, key)), NotListed(catalogue));
    var ks := known + others;
    assert ks[..|known|] == known && ks[|known|..] == others;
    FilterIsSubsequence(catalogue, KeyOccurs(s, key));
    FilterIsSubsequence(Distinct(Map(s, key)), NotListed(catalogue));
    forall i | 0 <= i < |ks|
      ensures i < |known| <==> ks[i] in catalogue
    {
      if i >= |known| {
        assert ks[i] == others[i - |known|];
      }
    }
  }
}
