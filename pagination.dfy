/** The `usePagination` composable and the slicing it shares with the store's paginated view. */
module Pagination {

  function Min(a: int, b: int): int { if a <= b then a else b }

  function Max(a: int, b: int): int { if a >= b then a else b }

  /** `s.slice(start, end)`: a negative bound counts from the end, and both bounds
      are clipped to `[0, |s|]`; nothing is returned when they cross. */
  function Slice<T>(s: seq<T>, start: int, end: int): (r: seq<T>)
    ensures |r| <= |s|
    ensures 0 <= start <= end ==> |r| == Max(0, Min(end, |s|) - start)
    ensures 0 <= start <= end ==> forall k :: 0 <= k < |r| ==> r[k] == s[start + k]
  {
    var from := if start < 0 then Max(|s| + start, 0) else Min(start, |s|);
    var to := if end < 0 then Max(|s| + end, 0) else Min(end, |s|);
    if from < to then s[from..to] else []
  }

  /** The index of the first item of a 1-based page. */
  function PageStart(page: int, size: nat): (start: int)
    ensures page >= 1 ==> start >= 0
  {
    NonNegativeProduct(if page >= 1 then page - 1 else 0, size);
    (page - 1) * size
  }

  /** `items.slice(start, start + size)` with `start = (page - 1) * size`: the items of one page. */
  function Page<T>(items: seq<T>, page: int, size: nat): (r: seq<T>)
    ensures |r| <= |items|
    ensures page >= 1 ==> |r| <= size
    ensures page >= 1 ==> |r| == Min(size, Max(0, |items| - PageStart(page, size)))
    ensures page >= 1 ==> forall k :: 0 <= k < |r| ==> r[k] == items[PageStart(page, size) + k]
  {
    var start := PageStart(page, size);
    Slice(items, start, start + size)
  }

  lemma NonNegativeProduct(a: nat, b: nat)
    ensures a * b >= 0
  {
  }

  /** `Math.ceil(total / size)`: the fewest pages of `size` items that hold `total` items. */
  function PageCount(total: nat, size: nat): (n: nat)
    requires size > 0
    ensures n * size >= total
    ensures n == 0 || (n - 1) * size < total
  {
    var n := (total + size - 1) / size;
    var rem := (total + size - 1) % size;
    assert total + size - 1 == n * size + rem;
    assert (n - 1) * size == n * size - size;
    n
  }

  /** A page after the last one is empty. */
  lemma PageBeyondLastIsEmpty<T>(items: seq<T>, page: int, size: nat)
    requires size > 0
    requires page > PageCount(|items|, size)
    ensures Page(items, page, size) == []
  {
    var n := PageCount(|items|, size);
    assert (page - 1 - n) * size >= 0 by { NonNegativeProduct(page - 1 - n, size); }
    assert PageStart(page, size) == (page - 1 - n) * size + n * size;
  }

  /** Pages `1..n` laid end to end. */
  function AllPages<T>(items: seq<T>, size: nat, n: nat): seq<T>
  {
    if n == 0 then [] else AllPages(items, size, n - 1) + Page(items, n, size)
  }

  /** Page `n` starts where the first `n - 1` pages end. */
  lemma PageBoundaries(n: nat, size: nat)
    requires n > 0
    ensures PageStart(n, size) == (n - 1) * size
    ensures 0 <= PageStart(n, size) && n * size == PageStart(n, size) + size
  {
    NonNegativeProduct(n - 1, size);
  }

  /** With both bounds non-negative, `slice` is the clipped sub-sequence. */
  lemma SliceClipped<T>(s: seq<T>, start: int, end: int)
    requires 0 <= start <= end
    ensures Slice(s, start, end) == s[Min(start, |s|)..Min(end, |s|)]
  {
  }

  /** Adding page `n` to the first `n - 1` pages extends the prefix they cover by one page. */
  lemma AllPagesStep<T>(items: seq<T>, size: nat, n: nat, start: int)
    requires n > 0 && start == PageStart(n, size) && start >= 0
    requires AllPages(items, size, n - 1) == items[..Min(start, |items|)]
    ensures AllPages(items, size, n) == items[..Min(start + size, |items|)]
  {
    SliceClipped(items, start, start + size);
    var a, b := Min(start, |items|), Min(start + size, |items|);
    assert items[..a] + items[a..b] == items[..b];
  }

  /** The first `n` pages are the first `n * size` items (or all of them). */
  lemma {:induction false} AllPagesPrefix<T>(items: seq<T>, size: nat, n: nat)
    ensures AllPages(items, size, n) == items[..Min(n * size, |items|)]
  {
    if n > 0 {
      AllPagesPrefix(items, size, n - 1);
      PageBoundaries(n, size);
      AllPagesStep(items, size, n, PageStart(n, size));
    }
  }

  /** Paging through every page visits every item exactly once, in order. */
  lemma PagesCoverItems<T>(items: seq<T>, size: nat)
    requires size > 0
    ensures AllPages(items, size, PageCount(|items|, size)) == items
  {
    var n := PageCount(|items|, size);
    AllPagesPrefix(items, size, n);
    assert items[..|items|] == items;
  }

  /** `goToPage(page)` as a transition of `currentPage`: the page is taken only when it is in range. */
  function NextPage(current: int, page: int, totalPages: nat): (r: int)
    ensures 1 <= page <= totalPages ==> r == page
    ensures !(1 <= page <= totalPages) ==> r == current
  {
    if page >= 1 && page <= totalPages then page else current
  }

  /** `goToPage` keeps the current page a valid 1-based page number. */
  lemma NextPageKeepsPositive(current: int, page: int, totalPages: nat)
    requires current >= 1
    ensures NextPage(current, page, totalPages) >= 1
  {
  }

  /** Going to the same page twice is going there once. */
  lemma NextPageIdempotent(current: int, page: int, totalPages: nat)
    ensures NextPage(NextPage(current, page, totalPages), page, totalPages) == NextPage(current, page, totalPages)
  {
  }

  /** On an empty list there is no page to go to. */
  lemma NextPageOnEmpty(current: int, page: int, size: nat)
    requires size > 0
    ensures NextPage(current, page, PageCount(0, size)) == current
  {
  }

  /** The state of one `usePagination(items, itemsPerPage)` call. */
  class Paginator<T> {
    const items: seq<T>
    const itemsPerPage: nat
    var currentPage: int

    ghost predicate Valid()
      reads this
    {
      itemsPerPage > 0 && currentPage >= 1
    }

    constructor (items: seq<T>, itemsPerPage: nat)
      requires itemsPerPage > 0
      ensures Valid()
      ensures this.items == items && this.itemsPerPage == itemsPerPage
      ensures currentPage == 1
    {
      this.items := items;
      this.itemsPerPage := itemsPerPage;
      currentPage := 1;
    }

    /** `total`: the number of items. */
    function Total(): nat
    {
      |items|
    }

    /** `totalPages`. */
    function TotalPages(): (n: nat)
      requires itemsPerPage > 0
      ensures n * itemsPerPage >= |items|
      ensures n == 0 || (n - 1) * itemsPerPage < |items|
    {
      PageCount(Total(), itemsPerPage)
    }

    /** `paginatedItems`: the items on the current page. */
    function PaginatedItems(): (r: seq<T>)
      reads this
      ensures currentPage >= 1 ==> |r| <= itemsPerPage
      ensures currentPage >= 1 ==> |r| == Min(itemsPerPage, Max(0, |items| - PageStart(currentPage, itemsPerPage)))
      ensures currentPage >= 1 ==>
                forall k :: 0 <= k < |r| ==> r[k] == items[PageStart(currentPage, itemsPerPage) + k]
    {
      Page(items, currentPage, itemsPerPage)
    }

    /** `goToPage(page)`: move to `page` when it is between 1 and `totalPages`. */
    method GoToPage(page: int)
      requires itemsPerPage > 0
      modifies this
      ensures old(currentPage) >= 1 ==> Valid()
      ensures currentPage == NextPage(old(currentPage), page, TotalPages())
      ensures 1 <= page <= TotalPages() ==> currentPage == page
      ensures !(1 <= page <= TotalPages()) ==> currentPage == old(currentPage)
    {
      if page >= 1 && page <= TotalPages() {
        currentPage := page;
      }
    }
  }
}
