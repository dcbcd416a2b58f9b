/** Counting and summing over sequences: `s.filter(p).length`, counts per key,
    and sums of a numeric field. The aggregations of the dashboard, the proposer
    report and the statistics view are built from these. */
module Tally {
  import opened Seqs

  /** `s.filter(p).length`. */
  function Count<T>(s: seq<T>, p: T -> bool): (n: nat)
    ensures n <= |s|
  {
    |Filter(s, p)|
  }

  /** The first element adds one to the count exactly when it satisfies p. */
  lemma CountCons<T>(x: T, s: seq<T>, p: T -> bool)
    ensures Count([x] + s, p) == (if p(x) then 1 else 0) + Count(s, p)
  {
    assert ([x] + s)[0] == x && ([x] + s)[1..] == s;
  }

  /** Three predicates no element satisfies two of count at most the whole sequence. */
  lemma {:induction false} CountDisjoint3<T>(s: seq<T>, p: T -> bool, q: T -> bool, r: T -> bool)
    requires forall i :: 0 <= i < |s| ==> (p(s[i]) ==> !q(s[i]) && !r(s[i])) && (q(s[i]) ==> !r(s[i]))
    ensures Count(s, p) + Count(s, q) + Count(s, r) <= |s|
  {
    if s != [] {
      CountDisjoint3(s[1..], p, q, r);
      assert s == [s[0]] + s[1..];
      CountCons(s[0], s[1..], p);
      CountCons(s[0], s[1..], q);
      CountCons(s[0], s[1..], r);
    }
  }

  /** The elements whose key is k. */
  function KeyIs<T, K(==)>(key: T -> K, k: K): T -> bool
  {
    x => key(x) == k
  }

  /** The elements whose key is one of ks. */
  function InKeys<T, K(==)>(key: T -> K, ks: seq<K>): T -> bool
  {
    x => key(x) in ks
  }

  /** The number of elements of s with key k, summed over the keys ks. */
  function SumCounts<T, K(==)>(s: seq<T>, key: T -> K, ks: seq<K>): nat
  {
    if ks == [] then 0 else Count(s, KeyIs(key, ks[0])) + SumCounts(s, key, ks[1..])
  }

  /** One more element adds one for every occurrence of its key among ks. */
  lemma {:induction false} SumCountsCons<T, K>(x: T, s: seq<T>, key: T -> K, ks: seq<K>)
    ensures SumCounts([x] + s, key, ks) == SumCounts(s, key, ks) + multiset(ks)[key(x)]
  {
    if ks != [] {
      SumCountsCons(x, s, key, ks[1..]);
      CountCons(x, s, KeyIs(key, ks[0]));
      assert ks == [ks[0]] + ks[1..];
    }
  }

  /** Counting per distinct key and adding up counts every element whose key is
      among the keys exactly once. */
  lemma {:induction false} SumCountsPartition<T, K>(s: seq<T>, key: T -> K, ks: seq<K>)
    requires NoDuplicates(ks)
    ensures SumCounts(s, key, ks) == Count(s, InKeys(key, ks))
  {
    if s == [] {
      SumCountsEmpty(key, ks);
    } else {
      var x := s[0];
      assert s == [x] + s[1..];
      SumCountsPartition(s[1..], key, ks);
      SumCountsCons(x, s[1..], key, ks);
      CountCons(x, s[1..], InKeys(key, ks));
      NoDuplicatesMultiplicity(ks, key(x));
      assert key(x) in ks <==> multiset(ks)[key(x)] > 0;
    }
  }

  lemma {:induction false} SumCountsEmpty<T, K>(key: T -> K, ks: seq<K>)
    ensures SumCounts([], key, ks) == 0
  {
    if ks != [] {
      SumCountsEmpty(key, ks[1..]);
    }
  }

  /** When the distinct keys ks cover every element, the counts per key add up to |s|. */
  lemma SumCountsCover<T, K>(s: seq<T>, key: T -> K, ks: seq<K>)
    requires NoDuplicates(ks)
    requires forall i :: 0 <= i < |s| ==> key(s[i]) in ks
    ensures SumCounts(s, key, ks) == |s|
  {
    SumCountsPartition(s, key, ks);
    FilterAll(s, InKeys(key, ks));
  }

  /** The sum of f over s. */
  function SumOf<T>(s: seq<T>, f: T -> int): int
  {
    if s == [] then 0 else f(s[0]) + SumOf(s[1..], f)
  }

  lemma {:induction false} SumOfAppend<T>(a: seq<T>, b: seq<T>, f: T -> int)
    ensures SumOf(a + b, f) == SumOf(a, f) + SumOf(b, f)
  {
    if a != [] {
      assert (a + b)[0] == a[0] && (a + b)[1..] == a[1..] + b;
      SumOfAppend(a[1..], b, f);
    } else {
      assert a + b == b;
    }
  }

  /** Reordering does not change a sum. */
  lemma {:induction false} SumOfPermutation<T>(a: seq<T>, b: seq<T>, f: T -> int)
    requires multiset(a) == multiset(b)
    ensures SumOf(a, f) == SumOf(b, f)
    decreases |a|
  {
    if a == [] {
      assert |b| == |multiset(b)| == 0;
    } else {
      var x := a[0];
      assert x in multiset(b);
      var j :| 0 <= j < |b| && b[j] == x;
      var rest := b[..j] + b[j + 1..];
      assert b == b[..j] + [x] + b[j + 1..];
      assert a == [x] + a[1..];
      assert multiset(b) == multiset(b[..j]) + multiset{x} + multiset(b[j + 1..]);
      assert multiset(rest) == multiset(b[..j]) + multiset(b[j + 1..]);
      assert multiset(a) == multiset{x} + multiset(a[1..]);
      assert multiset(a[1..]) == multiset(a) - multiset{x};
      assert multiset(rest) == multiset(b) - multiset{x};
      SumOfPermutation(a[1..], rest, f);
      SumOfAppend(b[..j] + [x], b[j + 1..], f);
      SumOfAppend(b[..j], [x], f);
      SumOfAppend(b[..j], b[j + 1..], f);
      assert SumOf([x], f) == f(x);
    }
  }
}
