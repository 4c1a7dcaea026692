/** The pagination arithmetic shared by the `Pager` component and the
    application component's inline pager: the page count, the rows of the
    current page, the `goto` clamp, the window of page buttons, the
    "Showing lo–hi of total" line and the reset on a page-size change.
    Page numbers are `int`s because `goto` is called with `page - 1` and
    `page + 1`; page sizes are positive, as the page-size selector only
    offers 10, 25, 50 and 100. */
module Paging {

  function Min(a: int, b: int): int { if a <= b then a else b }
  function Max(a: int, b: int): int { if a >= b then a else b }

  /** `Math.max(1, Math.ceil(totalRows / pageSize))`. */
  function PageCount(totalRows: nat, pageSize: nat): int
    requires pageSize > 0
  {
    Max(1, (totalRows + pageSize - 1) / pageSize)
  }

  /** There is always a page; the pages hold every row, and one page fewer
      would not. */
  lemma PageCountMeaning(totalRows: nat, pageSize: nat)
    requires pageSize > 0
    ensures var n := PageCount(totalRows, pageSize);
      n >= 1 && totalRows <= n * pageSize && (n == 1 || (n - 1) * pageSize < totalRows)
  {
    var c := (totalRows + pageSize - 1) / pageSize;
    assert pageSize * c <= totalRows + pageSize - 1 < pageSize * c + pageSize;
  }

  /** `goto(n)`: `Math.min(Math.max(1, n), pageCount)`. */
  function Goto(n: int, pageCount: int): (r: int)
    ensures pageCount >= 1 ==> 1 <= r <= pageCount
    ensures 1 <= n <= pageCount ==> r == n
  {
    Min(Max(1, n), pageCount)
  }

  /** Going to a page twice is going to it once, and `goto` moves towards
      `n` as far as the pages allow. */
  lemma GotoClamp(n: int, pageCount: int)
    requires pageCount >= 1
    ensures Goto(Goto(n, pageCount), pageCount) == Goto(n, pageCount)
    ensures n < 1 ==> Goto(n, pageCount) == 1
    ensures n > pageCount ==> Goto(n, pageCount) == pageCount
  {
  }

  /** `if (page > pageCount) setPage(pageCount)`: the page after the rows
      shrank. */
  function Settle(page: int, pageCount: int): (r: int)
    ensures 1 <= page && 1 <= pageCount ==> 1 <= r <= pageCount
    ensures page <= pageCount ==> r == page
  {
    if page > pageCount then pageCount else page
  }

  /** `Array.prototype.slice(b, e)`: a negative bound counts from the end,
      and both bounds are clamped to the list. */
  function JsSlice<T>(s: seq<T>, b: int, e: int): (r: seq<T>)
  {
    var lo := if b < 0 then Max(0, |s| + b) else Min(b, |s|);
    var hi := if e < 0 then Max(0, |s| + e) else Min(e, |s|);
    if lo < hi then s[lo..hi] else []
  }

  /** `currentRows`: `top.slice(start, start + pageSize)` with
      `start = (page - 1) * pageSize`. */
  function CurrentRows<T>(top: seq<T>, page: int, pageSize: nat): seq<T> {
    var start := (page - 1) * pageSize;
    JsSlice(top, start, start + pageSize)
  }

  /** On a page from 1 on the rows are the next `pageSize` rows from
      `(page - 1) * pageSize`, fewer at the end of the list, none past it. */
  lemma CurrentRowsMeaning<T>(top: seq<T>, page: int, pageSize: nat)
    requires page >= 1
    ensures var start := (page - 1) * pageSize;
      var r := CurrentRows(top, page, pageSize);
      |r| == Max(0, Min(pageSize, |top| - start))
      && forall i :: 0 <= i < |r| ==> r[i] == top[start + i]
  {
    var start := (page - 1) * pageSize;
    assert start >= 0 by {
      NonNegativeProduct(page - 1, pageSize);
    }
  }

  lemma NonNegativeProduct(a: int, b: nat)
    requires a >= 0
    ensures a * b >= 0
  {
  }

  /** The pages cover the list: row `k` is on page `k / pageSize + 1`, a
      page that exists, at position `k % pageSize`. */
  lemma PagesCover<T>(top: seq<T>, pageSize: nat, k: nat)
    requires pageSize > 0 && k < |top|
    ensures var page := k / pageSize + 1;
      var rows := CurrentRows(top, page, pageSize);
      1 <= page <= PageCount(|top|, pageSize) && k % pageSize < |rows| && rows[k % pageSize] == top[k]
  {
    var page := k / pageSize + 1;
    var start := (page - 1) * pageSize;
    assert start + k % pageSize == k;
    assert start <= k;
    CurrentRowsMeaning(top, page, pageSize);
    PageCountMeaning(|top|, pageSize);
    var n := PageCount(|top|, pageSize);
    assert (page - 1) * pageSize <= k < n * pageSize;
    MulCancel(page - 1, n, pageSize);
  }

  lemma MulCancel(a: int, b: int, c: nat)
    requires a * c < b * c
    ensures a < b
  {
    if a >= b {
      MulMonotone(b, a, c);
    }
  }

  lemma MulMonotone(a: int, b: int, c: nat)
    requires a <= b
    ensures a * c <= b * c
  {
  }

  /** `pageWindow` / `windowPages`: the page numbers from
      `start = Math.max(1, page - 2)` to `end = Math.min(pageCount, start + 4)`,
      none when `end < start`. */
  function PageWindow(page: int, pageCount: int): seq<int> {
    var start := Max(1, page - 2);
    var end := Min(pageCount, start + 4);
    var len := end - start + 1;
    if len <= 0 then [] else seq(len, i requires 0 <= i < len => start + i)
  }

  /** The window is a run of at most five consecutive page numbers from
      `start` up to `min(pageCount, start + 4)`, each a page that exists;
      and it shows the current page when that is a page that exists. */
  lemma PageWindowMeaning(page: int, pageCount: int)
    ensures var w := PageWindow(page, pageCount);
      var start := Max(1, page - 2);
      |w| <= 5 && |w| == Max(0, Min(pageCount, start + 4) - start + 1)
      && (forall i :: 0 <= i < |w| ==> w[i] == start + i && 1 <= w[i] <= pageCount)
      && (w != [] <==> start <= pageCount)
      && (1 <= page <= pageCount ==> page in w)
  {
    var w := PageWindow(page, pageCount);
    var start := Max(1, page - 2);
    if 1 <= page <= pageCount {
      assert w[page - start] == page;
    }
  }

  /** The "Showing lo–hi of total" line. */
  function Showing(page: int, pageSize: nat, totalRows: nat): (int, int) {
    (Min((page - 1) * pageSize + 1, totalRows), Min(page * pageSize, totalRows))
  }

  /** Neither bound exceeds the number of rows; on a page that exists they
      number exactly the rows on show, from the first, counting from 1; an
      empty list shows 0–0 on any page from 1. */
  lemma ShowingMeaning<T>(top: seq<T>, page: int, pageSize: nat)
    requires pageSize > 0
    ensures var (lo, hi) := Showing(page, pageSize, |top|);
      lo <= |top| && hi <= |top|
      && (top == [] && page >= 1 ==> lo == 0 && hi == 0)
      && (top != [] && 1 <= page <= PageCount(|top|, pageSize) ==>
            lo == (page - 1) * pageSize + 1 && lo <= hi && hi - lo + 1 == |CurrentRows(top, page, pageSize)|)
  {
    if top != [] && 1 <= page <= PageCount(|top|, pageSize) {
      PageCountMeaning(|top|, pageSize);
      CurrentRowsMeaning(top, page, pageSize);
      var n := PageCount(|top|, pageSize);
      assert page * pageSize == (page - 1) * pageSize + pageSize;
      if page > 1 {
        assert (page - 1) * pageSize < |top| by {
          MulMonotone(page - 1, n - 1, pageSize);
        }
      }
    }
  }

  /** What the pager keeps: the current page and the page size. */
  datatype PagerState = PagerState(page: int, pageSize: nat)

  /** The page-size selector: `setPageSize(n); setPage(1)`. */
  function ChangePageSize(st: PagerState, n: nat): (r: PagerState)
  {
    PagerState(1, n)
  }

  /** A new page size always lands on page 1, which exists for every
      number of rows and shows the first rows. */
  lemma ChangePageSizeMeaning<T>(st: PagerState, n: nat, top: seq<T>)
    requires n > 0
    ensures var r := ChangePageSize(st, n);
      r.page == 1 && r.pageSize == n && 1 <= r.page <= PageCount(|top|, n)
      && CurrentRows(top, r.page, n) == top[..Min(n, |top|)]
  {
    PageCountMeaning(|top|, n);
  }
}
