/** Array.prototype.sort with a comparator, which ECMAScript requires to be
    stable: elements the comparator finds equal keep their input order.
    The sort is given by the "may come before" relation of its comparator
    (`le(a, b)` when `compare(a, b) <= 0`) and built by insertion. */
module Sorting {
  import opened Seqs

  /** le is a total preorder: any two elements compare, and comparison chains. */
  ghost predicate TotalPreorder<T(!new)>(le: (T, T) -> bool)
  {
    (forall a, b :: le(a, b) || le(b, a)) &&
    (forall a, b, c :: le(a, b) && le(b, c) ==> le(a, c))
  }

  predicate SortedBy<T>(s: seq<T>, le: (T, T) -> bool)
  {
    forall i, j :: 0 <= i < j < |s| ==> le(s[i], s[j])
  }

  /** Inserts x before the first element it may precede: ahead of the elements
      that compare equal to it, which is what keeps the sort stable. */
  function Insert<T>(x: T, s: seq<T>, le: (T, T) -> bool): (r: seq<T>)
    ensures multiset(r) == multiset(s) + multiset{x}
  {
    if s == [] || le(x, s[0]) then [x] + s
    else
      assert s == [s[0]] + s[1..];
      [s[0]] + Insert(x, s[1..], le)
  }

  /** The sorted copy of s: each element in turn, from the back, inserted into the sorted rest. */
  function SortBy<T>(s: seq<T>, le: (T, T) -> bool): (r: seq<T>)
    ensures multiset(r) == multiset(s)
  {
    if s == [] then []
    else
      assert s == [s[0]] + s[1..];
      Insert(s[0], SortBy(s[1..], le), le)
  }

  lemma {:induction false} InsertSorted<T(!new)>(x: T, s: seq<T>, le: (T, T) -> bool)
    requires TotalPreorder(le) && SortedBy(s, le)
    ensures SortedBy(Insert(x, s, le), le)
  {
    if s != [] && !le(x, s[0]) {
      var t := Insert(x, s[1..], le);
      InsertSorted(x, s[1..], le);
      forall j | 0 <= j < |t|
        ensures le(s[0], t[j])
      {
        assert t[j] in multiset(t);
        if t[j] != x {
          assert t[j] in multiset(s[1..]);
          var k :| 0 <= k < |s[1..]| && s[1..][k] == t[j];
          assert s[k + 1] == t[j];
        }
      }
      assert Insert(x, s, le) == [s[0]] + t;
    }
  }

  /** For a total preorder the result is sorted. */
  lemma {:induction false} SortBySorted<T(!new)>(s: seq<T>, le: (T, T) -> bool)
    requires TotalPreorder(le)
    ensures SortedBy(SortBy(s, le), le)
  {
    if s != [] {
      SortBySorted(s[1..], le);
      InsertSorted(s[0], SortBy(s[1..], le), le);
    }
  }

  /** The elements that compare equal to k. */
  function EquivTo<T>(le: (T, T) -> bool, k: T): T -> bool
  {
    y => le(y, k) && le(k, y)
  }

  lemma {:induction false} InsertFilterEquiv<T>(x: T, s: seq<T>, le: (T, T) -> bool, k: T)
    requires forall i :: 0 <= i < |s| ==> le(x, k) && le(k, s[i]) ==> le(x, s[i])
    ensures Filter(Insert(x, s, le), EquivTo(le, k))
         == (if EquivTo(le, k)(x) then [x] else []) + Filter(s, EquivTo(le, k))
  {
    var p := EquivTo(le, k);
    var hx := if p(x) then [x] else [];
    if s == [] || le(x, s[0]) {
      assert Insert(x, s, le) == [x] + s;
      assert ([x] + s)[1..] == s;
      assert Filter([x] + s, p) == hx + Filter(s, p);
    } else {
      var t := Insert(x, s[1..], le);
      InsertFilterEquiv(x, s[1..], le, k);
      assert Insert(x, s, le) == [s[0]] + t;
      var h0 := if p(s[0]) then [s[0]] else [];
      assert ([s[0]] + t)[1..] == t;
      assert Filter([s[0]] + t, p) == h0 + Filter(t, p);
      assert Filter(s, p) == h0 + Filter(s[1..], p);
      SwapExclusive(s[0], x, Filter(s[1..], p), p);
    }
  }

  /** Two elements that do not both pass p can pass the filter in either order. */
  lemma SwapExclusive<T>(a: T, b: T, rest: seq<T>, p: T -> bool)
    requires !(p(a) && p(b))
    ensures (if p(a) then [a] else []) + ((if p(b) then [b] else []) + rest)
         == (if p(b) then [b] else []) + ((if p(a) then [a] else []) + rest)
  {
  }

  /** Stability: within every class of elements the comparator finds equal, the
      sorted sequence lists them in their input order. */
  lemma {:induction false} SortByStable<T(!new)>(s: seq<T>, le: (T, T) -> bool, k: T)
    requires TotalPreorder(le)
    ensures Filter(SortBy(s, le), EquivTo(le, k)) == Filter(s, EquivTo(le, k))
  {
    if s != [] {
      SortByStable(s[1..], le, k);
      InsertFilterEquiv(s[0], SortBy(s[1..], le), le, k);
    }
  }

  /** The "may come before" relation of the comparator `(a, b) => key(b) - key(a)`. */
  function ByKeyDesc<T>(key: T -> int): (T, T) -> bool
  {
    (a, b) => key(a) >= key(b)
  }

  /** The elements whose key is k. */
  function HasKey<T>(key: T -> int, k: int): T -> bool
  {
    y => key(y) == k
  }

  /** Sorting by a key in descending order, as `sort((a, b) => key(b) - key(a))` does. */
  function SortDesc<T>(s: seq<T>, key: T -> int): seq<T>
  {
    SortBy(s, ByKeyDesc(key))
  }

  lemma ByKeyDescIsPreorder<T(!new)>(key: T -> int)
    ensures TotalPreorder(ByKeyDesc(key))
  {
  }

  /** The descending sort is a permutation, its keys never increase, and the
      elements sharing a key keep their input order. */
  lemma SortDescSpec<T(!new)>(s: seq<T>, key: T -> int)
    ensures multiset(SortDesc(s, key)) == multiset(s)
    ensures forall i, j :: 0 <= i < j < |SortDesc(s, key)| ==> key(SortDesc(s, key)[i]) >= key(SortDesc(s, key)[j])
    ensures forall k :: Filter(SortDesc(s, key), HasKey(key, k)) == Filter(s, HasKey(key, k))
  {
    SortDescOrdered(s, key);
    SortDescStable(s, key);
  }

  /** The descending sort is a permutation whose keys never increase. */
  lemma SortDescOrdered<T(!new)>(s: seq<T>, key: T -> int)
    ensures multiset(SortDesc(s, key)) == multiset(s)
    ensures forall i, j :: 0 <= i < j < |SortDesc(s, key)| ==> key(SortDesc(s, key)[i]) >= key(SortDesc(s, key)[j])
  {
    ByKeyDescIsPreorder(key);
    SortBySorted(s, ByKeyDesc(key));
  }

  /** The descending sort keeps the elements sharing a key in their input order. */
  lemma SortDescStable<T(!new)>(s: seq<T>, key: T -> int)
    ensures forall k :: Filter(SortDesc(s, key), HasKey(key, k)) == Filter(s, HasKey(key, k))
  {
    forall k
      ensures Filter(SortDesc(s, key), HasKey(key, k)) == Filter(s, HasKey(key, k))
    {
      SortDescStableAt(s, key, k);
    }
  }

  lemma SortDescStableAt<T(!new)>(s: seq<T>, key: T -> int, k: int)
    ensures Filter(SortDesc(s, key), HasKey(key, k)) == Filter(s, HasKey(key, k))
  {
    SortDescOrdered(s, key);
    if x :| x in s && key(x) == k {
      SortDescStableWitness(s, key, x);
    } else {
      var r := SortDesc(s, key);
      NoneHasKey(s, key, k);
      assert forall i :: 0 <= i < |r| ==> r[i] in multiset(s);
      NoneHasKey(r, key, k);
    }
  }

  /** Stability for the key of an element x of s, through the equivalence class of x. */
  lemma SortDescStableWitness<T(!new)>(s: seq<T>, key: T -> int, x: T)
    requires x in s
    ensures Filter(SortDesc(s, key), HasKey(key, key(x))) == Filter(s, HasKey(key, key(x)))
  {
    var le := ByKeyDesc(key);
    var r := SortDesc(s, key);
    ByKeyDescIsPreorder(key);
    SortBySorted(s, le);
    SortByStable(s, le, x);
    assert |r| == |multiset(r)| == |s|;
    forall i | 0 <= i < |r| ensures EquivTo(le, x)(r[i]) == HasKey(key, key(x))(r[i]) {}
    FilterAgree(r, EquivTo(le, x), HasKey(key, key(x)));
    FilterAgree(s, EquivTo(le, x), HasKey(key, key(x)));
  }

  lemma {:induction false} NoneHasKey<T>(s: seq<T>, key: T -> int, k: int)
    requires forall i :: 0 <= i < |s| ==> key(s[i]) != k
    ensures Filter(s, HasKey(key, k)) == []
  {
    if s != [] {
      NoneHasKey(s[1..], key, k);
    }
  }

  /** Filtering keeps a descending order by key. */
  lemma {:induction false} FilterDescending<T>(s: seq<T>, key: T -> int, p: T -> bool)
    requires forall i, j :: 0 <= i < j < |s| ==> key(s[i]) >= key(s[j])
    ensures forall i, j :: 0 <= i < j < |Filter(s, p)| ==> key(Filter(s, p)[i]) >= key(Filter(s, p)[j])
  {
    if s != [] {
      FilterDescending(s[1..], key, p);
      if p(s[0]) {
        HeadBoundsRest(s, key, p);
        ConsDescending(s[0], Filter(s[1..], p), key);
      }
    }
  }

  lemma HeadBoundsRest<T>(s: seq<T>, key: T -> int, p: T -> bool)
    requires s != []
    requires forall i, j :: 0 <= i < j < |s| ==> key(s[i]) >= key(s[j])
    ensures forall j :: 0 <= j < |Filter(s[1..], p)| ==> key(s[0]) >= key(Filter(s[1..], p)[j])
  {
    var rest := Filter(s[1..], p);
    forall j | 0 <= j < |rest|
      ensures key(s[0]) >= key(rest[j])
    {
      var k :| 0 <= k < |s[1..]| && s[1..][k] == rest[j];
      assert s[k + 1] == rest[j];
    }
  }

  lemma ConsDescending<T>(x: T, rest: seq<T>, key: T -> int)
    requires forall j :: 0 <= j < |rest| ==> key(x) >= key(rest[j])
    requires forall i, j :: 0 <= i < j < |rest| ==> key(rest[i]) >= key(rest[j])
    ensures forall i, j :: 0 <= i < j < |[x] + rest| ==> key(([x] + rest)[i]) >= key(([x] + rest)[j])
  {
    var r := [x] + rest;
    forall i, j | 0 <= i < j < |r| ensures key(r[i]) >= key(r[j]) {
      assert r[j] == rest[j - 1];
      if i > 0 {
        assert r[i] == rest[i - 1];
      }
    }
  }

  /** Lexicographic order on strings by character, the order of the default
      `sort()`. A `char` is a code point, while `sort()` compares UTF-16 code
      units; the two orders differ only between a character above U+FFFF and one
      from U+E000 to U+FFFF. */
  predicate LexLe(a: string, b: string)
  {
    a == [] || (b != [] && (a[0] < b[0] || (a[0] == b[0] && LexLe(a[1..], b[1..]))))
  }

  lemma {:induction false} LexLeTotal(a: string, b: string)
    ensures LexLe(a, b) || LexLe(b, a)
  {
    if a != [] && b != [] && a[0] == b[0] {
      LexLeTotal(a[1..], b[1..]);
    }
  }

  lemma {:induction false} LexLeTransitive(a: string, b: string, c: string)
    requires LexLe(a, b) && LexLe(b, c)
    ensures LexLe(a, c)
  {
    if a != [] && b != [] && c != [] && a[0] == b[0] && b[0] == c[0] {
      LexLeTransitive(a[1..], b[1..], c[1..]);
    }
  }

  /** Two strings each ordered before the other are the same string. */
  lemma {:induction false} LexLeAntisymmetric(a: string, b: string)
    requires LexLe(a, b) && LexLe(b, a)
    ensures a == b
  {
    if a != [] && b != [] {
      LexLeAntisymmetric(a[1..], b[1..]);
      assert a == [a[0]] + a[1..] && b == [b[0]] + b[1..];
    }
  }

  lemma LexLeIsPreorder()
    ensures TotalPreorder(LexLe)
  {
    forall a, b ensures LexLe(a, b) || LexLe(b, a) {
      LexLeTotal(a, b);
    }
    forall a, b, c | LexLe(a, b) && LexLe(b, c) ensures LexLe(a, c) {
      LexLeTransitive(a, b, c);
    }
  }

  /** The default `sort()` of an array of strings: ascending by character code. */
  function SortStrings(s: seq<string>): seq<string>
  {
    SortBy(s, LexLe)
  }

  /** The sorted strings are a permutation of the input, in ascending order. */
  lemma SortStringsSpec(s: seq<string>)
    ensures multiset(SortStrings(s)) == multiset(s)
    ensures forall i, j :: 0 <= i < j < |SortStrings(s)| ==> LexLe(SortStrings(s)[i], SortStrings(s)[j])
  {
    LexLeIsPreorder();
    SortBySorted(s, LexLe);
  }
}
