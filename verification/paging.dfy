/** The index page's pagination (app.py:42-44, 50, 57): a Python slice of
    the ordered key list, and the page count shown with it. */
module Paging {

  /** The index page always asks for ten tales per page. */
  const PerPage: nat := 10

  /** How Python clamps one bound of `s[start:stop]` against `len(s) == n`:
      a negative bound counts from the end. */
  function SliceBound(i: int, n: nat): (b: nat)
    ensures b <= n
    ensures 0 <= i <= n ==> b == i
    ensures i > n ==> b == n
    ensures i < 0 ==> b == if n + i < 0 then 0 else n + i
  {
    if i < 0 then (if n + i < 0 then 0 else n + i)
    else if i > n then n
    else i
  }

  function Min(a: int, b: int): int {
    if a <= b then a else b
  }

  /** Python's `s[start:stop]` (step 1). With non-negative bounds it is
      the part of `s` between them, cut off at the end of `s`. */
  function PySlice<T>(s: seq<T>, start: int, stop: int): (r: seq<T>)
    ensures |r| <= |s|
    ensures 0 <= start <= stop ==> r == s[Min(start, |s|)..Min(stop, |s|)]
  {
    var a, b := SliceBound(start, |s|), SliceBound(stop, |s|);
    if a < b then s[a..b] else []
  }

  /** The first item of page `page`. */
  function PageStart(page: int, perPage: int): (s: int)
    ensures page >= 1 && perPage >= 0 ==> s >= 0
  {
    (page - 1) * perPage
  }

  lemma PageStartStep(page: int, perPage: int)
    requires page >= 1 && perPage >= 0
    ensures PageStart(page, perPage) >= 0
    ensures PageStart(page + 1, perPage) == PageStart(page, perPage) + perPage
  {
  }

  /** `paginate(items, page, per_page)`: for a page from 1 on, the items
      from `(page - 1) * perPage` on, at most `perPage` of them. */
  function Paginate<T>(items: seq<T>, page: int, perPage: int): (r: seq<T>)
    ensures page >= 1 && perPage >= 0 ==> |r| <= perPage
    ensures page >= 1 && perPage >= 0 ==>
      var start := PageStart(page, perPage);
      r == items[Min(start, |items|)..Min(start + perPage, |items|)]
  {
    var start := PageStart(page, perPage);
    PySlice(items, start, start + perPage)
  }

  /** `(TOTAL_TALES + 9) // 10`: the least number of ten-tale pages holding
      every tale. */
  function PageCount(total: nat): (p: nat)
    ensures p * PerPage >= total
    ensures p == 0 || (p - 1) * PerPage < total
  {
    (total + 9) / 10
  }

  /** Pages 1..k of `items`, concatenated. */
  function Pages<T>(items: seq<T>, perPage: nat, k: nat): seq<T> {
    if k == 0 then [] else Pages(items, perPage, k - 1) + Paginate(items, k, perPage)
  }

  /** The first `k` pages are the first `k * perPage` items (or all of them):
      page `k + 1` starts at `k * perPage`. */
  lemma {:induction false} PagesArePrefix<T>(items: seq<T>, perPage: nat, k: nat)
    ensures Pages(items, perPage, k) == items[..Min(PageStart(k + 1, perPage), |items|)]
  {
    PageStartStep(1, perPage);
    if k > 0 {
      PagesArePrefix(items, perPage, k - 1);
      PageStartStep(k, perPage);
      var lo := Min(PageStart(k, perPage), |items|);
      var hi := Min(PageStart(k + 1, perPage), |items|);
      assert items[..lo] + items[lo..hi] == items[..hi];
    }
  }

  /** Pages 1..PageCount(n) together hold every tale exactly once, in index
      order. */
  lemma AllPagesReproduce<T>(items: seq<T>)
    ensures Pages(items, PerPage, PageCount(|items|)) == items
  {
    var p := PageCount(|items|);
    PagesArePrefix(items, PerPage, p);
    assert PageStart(p + 1, PerPage) == p * PerPage;
  }

  /** Page 0 is always empty; a negative page number wraps around through
      Python's negative slice bounds instead of failing. */
  lemma NonPositivePages<T>(items: seq<T>)
    ensures Paginate(items, 0, PerPage) == []
    ensures |items| == 25 ==> Paginate(items, -1, PerPage) == items[5..15]
  {
  }
}
