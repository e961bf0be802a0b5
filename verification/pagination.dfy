/**
 * The paginated flat list: the flats are shown five at a time with
 * `flats.slice((page - 1) * 5, page * 5)`, and the pager offers
 * `Math.ceil(flats.length / 5)` pages.
 */
module Pagination {

  const ItemsPerPage: nat := 5

  /**
   * How JavaScript's `slice` reads an index into a sequence of length `n`:
   * a negative index counts from the end, and the result is clamped to `[0, n]`.
   */
  function ClampIndex(i: int, n: nat): (r: nat)
    ensures r <= n
    ensures 0 <= i <= n ==> r == i
    ensures i > n ==> r == n
    ensures i < 0 && n + i >= 0 ==> r == n + i
    ensures n + i < 0 ==> r == 0
  {
    if i < 0 then (if n + i >= 0 then n + i else 0)
    else if i <= n then i
    else n
  }

  /** JavaScript `s.slice(start, end)`: empty when the clamped start is not before the clamped end. */
  function Slice<T>(s: seq<T>, start: int, end: int): (r: seq<T>)
    ensures |r| <= |s|
    ensures 0 <= start <= end ==> |r| <= end - start
    ensures 0 <= start <= end <= |s| ==> r == s[start..end]
    ensures 0 <= start && |s| <= start ==> r == []
  {
    var a, b := ClampIndex(start, |s|), ClampIndex(end, |s|);
    if a < b then s[a..b] else []
  }

  /** `displayedFlats` for the 1-based `page`. */
  function PageItems<T>(items: seq<T>, page: int): (r: seq<T>)
    ensures page >= 1 ==> |r| <= ItemsPerPage
  {
    Slice(items, (page - 1) * ItemsPerPage, page * ItemsPerPage)
  }

  /** `Math.ceil(n / itemsPerPage)`: the fewest pages that hold `n` items. */
  function PageCount(n: nat): (c: nat)
    ensures c * ItemsPerPage >= n
    ensures c == 0 || (c - 1) * ItemsPerPage < n
  {
    (n + ItemsPerPage - 1) / ItemsPerPage
  }

  function Min(a: int, b: int): int
  {
    if a <= b then a else b
  }

  /** Page `p` holds exactly the items at indices `(p-1)*5` up to `min(p*5, n)`, in order. */
  lemma PageContents<T>(items: seq<T>, page: int)
    requires page >= 1
    ensures var lo := Min((page - 1) * ItemsPerPage, |items|);
      PageItems(items, page) == items[lo..Min(page * ItemsPerPage, |items|)]
  {
  }

  lemma PageCountOfEmpty()
    ensures PageCount(0) == 0
  {
  }

  /** Every page the pager offers is non-empty. */
  lemma PagesInRangeNonEmpty<T>(items: seq<T>, page: int)
    requires 1 <= page <= PageCount(|items|)
    ensures |PageItems(items, page)| > 0
  {
    assert (page - 1) * ItemsPerPage <= (PageCount(|items|) - 1) * ItemsPerPage;
  }

  /** A page past the last one is empty. */
  lemma PagesBeyondEmpty<T>(items: seq<T>, page: int)
    requires page > PageCount(|items|)
    ensures PageItems(items, page) == []
  {
    assert (page - 1) * ItemsPerPage >= PageCount(|items|) * ItemsPerPage;
  }

  /** Item `j` is on page `j / 5 + 1`, at position `j % 5`. */
  lemma ItemPlacement<T>(items: seq<T>, j: nat)
    requires j < |items|
    ensures var page := j / ItemsPerPage + 1;
      page <= PageCount(|items|) && j % ItemsPerPage < |PageItems(items, page)|
      && PageItems(items, page)[j % ItemsPerPage] == items[j]
  {
    var page := j / ItemsPerPage + 1;
    PageContents(items, page);
    assert (page - 1) * ItemsPerPage + j % ItemsPerPage == j;
  }

  /** Pages 1 through `k`, one after another. */
  function PagesUpTo<T>(items: seq<T>, k: nat): seq<T>
  {
    if k == 0 then [] else PagesUpTo(items, k - 1) + PageItems(items, k)
  }

  lemma {:induction false} PagesUpToPrefix<T>(items: seq<T>, k: nat)
    ensures PagesUpTo(items, k) == items[..Min(k * ItemsPerPage, |items|)]
  {
    if k > 0 {
      PagesUpToPrefix(items, k - 1);
      PageContents(items, k);
      var lo := Min((k - 1) * ItemsPerPage, |items|);
      var hi := Min(k * ItemsPerPage, |items|);
      assert items[..lo] + items[lo..hi] == items[..hi];
    }
  }

  /** Reading every page in order gives back the whole list: no item is lost or repeated. */
  lemma PagesPartition<T>(items: seq<T>)
    ensures PagesUpTo(items, PageCount(|items|)) == items
  {
    PagesUpToPrefix(items, PageCount(|items|));
    assert items[..|items|] == items;
  }
}
