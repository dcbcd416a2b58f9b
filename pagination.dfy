/** Page slicing as the document lists do it: page p of size n is
    `list.slice((p - 1) * n, p * n)`, the page count is `Math.ceil(length / n)`
    and the previous/next buttons clamp the page to [1, totalPages]. */
module Pagination {
  import opened Seqs

  function PageSlice<T>(s: seq<T>, page: int, n: nat): seq<T>
  {
    Slice(s, (page - 1) * n, page * n)
  }

  /** `Math.ceil(count / n)` for a positive page size. */
  function TotalPages(count: nat, n: nat): (t: nat)
    requires n > 0
    ensures (t - 1) * n < count <= t * n || (count == 0 && t == 0)
  {
    (count + n - 1) / n
  }

  /** A page never holds more than n elements, whatever the page number. */
  lemma PageSliceBounded<T>(s: seq<T>, page: int, n: nat)
    ensures |PageSlice(s, page, n)| <= n
  {
    SliceLength(s, (page - 1) * n, page * n);
  }

  /** The pages that exist are exactly 1..TotalPages: each is a non-empty run of
      consecutive elements; every page after the last, and page 0, is empty. (A
      negative page would count from the end, as slice does; no handler sets one.) */
  lemma PageSliceContents<T>(s: seq<T>, page: int, n: nat)
    requires n > 0
    ensures 1 <= page <= TotalPages(|s|, n) ==>
              PageSlice(s, page, n) == s[(page - 1) * n .. if page * n < |s| then page * n else |s|] &&
              PageSlice(s, page, n) != []
    ensures (page > TotalPages(|s|, n) || page == 0) ==> PageSlice(s, page, n) == []
  {
    var t := TotalPages(|s|, n);
    if page > t {
      MulMonotone(t, page - 1, n);
    } else if page >= 1 {
      MulMonotone(page - 1, t - 1, n);
      assert page * n == (page - 1) * n + n;
    } else if page == 0 {
      assert page * n == 0;
    }
  }

  lemma MulMonotone(a: int, b: int, n: nat)
    requires a <= b
    ensures a * n <= b * n
  {
    assert b * n - a * n == (b - a) * n;
  }

  /** Pages 1..k one after another. */
  function Pages<T>(s: seq<T>, k: nat, n: nat): seq<T>
  {
    if k == 0 then [] else Pages(s, k - 1, n) + PageSlice(s, k, n)
  }

  lemma {:induction false} PagesPrefix<T>(s: seq<T>, k: nat, n: nat)
    requires n > 0
    ensures Pages(s, k, n) == s[..if k * n < |s| then k * n else |s|]
  {
    if k > 0 {
      PagesPrefix(s, k - 1, n);
      var lo := if (k - 1) * n < |s| then (k - 1) * n else |s|;
      var hi := if k * n < |s| then k * n else |s|;
      assert (k - 1) * n <= k * n;
      if (k - 1) * n < |s| {
        assert PageSlice(s, k, n) == s[lo..hi];
      } else {
        assert PageSlice(s, k, n) == [];
      }
      assert s[..lo] + s[lo..hi] == s[..hi];
    }
  }

  /** The pages 1..TotalPages concatenate back to the whole list. */
  lemma PagesCoverList<T>(s: seq<T>, n: nat)
    requires n > 0
    ensures Pages(s, TotalPages(|s|, n), n) == s
  {
    PagesPrefix(s, TotalPages(|s|, n), n);
  }

  /** The previous button: `Math.max(1, p - 1)`. */
  function PrevPage(p: int): int
  {
    if p - 1 < 1 then 1 else p - 1
  }

  /** The next button: `Math.min(totalPages, p + 1)`. */
  function NextPage(p: int, totalPages: int): int
  {
    if totalPages < p + 1 then totalPages else p + 1
  }

  /** Starting on an existing page, both buttons land on an existing page, and
      move by one unless already at the first or last page. */
  lemma NavigationStaysInRange(p: int, totalPages: int)
    requires 1 <= p <= totalPages
    ensures 1 <= PrevPage(p) <= totalPages && 1 <= NextPage(p, totalPages) <= totalPages
    ensures PrevPage(p) == (if p == 1 then 1 else p - 1)
    ensures NextPage(p, totalPages) == (if p == totalPages then p else p + 1)
  {
  }
}
