/**
 * Pagination of a result list: the page count fixed at construction, the page slices,
 * and the page-size selector that reassigns the page size afterwards.
 */
module Pagination {
  import opened Wrappers

  /**
   * The page number input refuses its range: its value starts at `min_value`, and a
   * value above `max_value` is an error of the widget.
   */
  datatype WidgetError = ValueAboveMax(value: nat, maxValue: nat)

  /** `(n + pageSize - 1) // pageSize`: the number of pages for `n` items. */
  function TotalPages(n: nat, pageSize: nat): nat
    requires pageSize > 0
  {
    (n + pageSize - 1) / pageSize
  }

  /** The page count is the ceiling of `n / pageSize`: the last page is the one holding item `n - 1`. */
  lemma TotalPagesIsCeiling(n: nat, pageSize: nat)
    requires pageSize > 0
    ensures (TotalPages(n, pageSize) - 1) * pageSize < n <= TotalPages(n, pageSize) * pageSize || n == 0
    ensures TotalPages(n, pageSize) == 0 <==> n == 0
  {
    var t := TotalPages(n, pageSize);
    var r := (n + pageSize - 1) % pageSize;
    assert n + pageSize - 1 == t * pageSize + r && 0 <= r < pageSize;
    if n > 0 {
      assert t * pageSize >= n by {
        assert t * pageSize == n + pageSize - 1 - r;
      }
      assert (t - 1) * pageSize < n by {
        assert (t - 1) * pageSize == n - 1 - r;
      }
    }
  }

  /** Python's clipping of a non-negative slice bound to a sequence of length `n`. */
  function Clip(k: nat, n: nat): (i: nat)
    ensures i <= n && (i == k || i == n)
  {
    if k > n then n else k
  }

  class Paginate<T> {
    var data: seq<T>
    var pageSize: nat
    var pageSizeOptions: seq<nat>
    var totalPages: nat

    /** The page count agrees with the current data and page size. */
    predicate Consistent()
      reads this
    {
      pageSize > 0 && totalPages == TotalPages(|data|, pageSize)
    }

    /**
     * `Paginate.__init__`. `pageSize` is the page size kept in the session state (25
     * until the selector changes it); the page count is computed here, once.
     */
    constructor(data: seq<T>, pageSize: nat, pageSizeOptions: seq<nat>)
      requires pageSize > 0
      ensures this.data == data && this.pageSize == pageSize && this.pageSizeOptions == pageSizeOptions
      ensures totalPages == TotalPages(|data|, pageSize)
      ensures Consistent()
    {
      this.data := data;
      this.pageSize := pageSize;
      this.pageSizeOptions := pageSizeOptions;
      this.totalPages := (|data| + pageSize - 1) / pageSize;
    }

    /** `Paginate.get_page`: `data[(n - 1) * pageSize : n * pageSize]`, clipped to the data. */
    function GetPage(n: nat): (page: seq<T>)
      reads this
      requires n >= 1
      ensures |page| <= pageSize
      ensures page == [] <==> pageSize == 0 || (n - 1) * pageSize >= |data|
    {
      data[Clip((n - 1) * pageSize, |data|)..Clip((n - 1) * pageSize + pageSize, |data|)]
    }

    /**
     * `Paginate.incremental`: the selector's choice becomes the page size; the page count
     * computed at construction is left as it was. The page number input spans 1 to the
     * page count, so with no data (no page) it fails on its own default of 1; otherwise
     * the page it returns (`currentPage`, the user's choice) is within that range.
     */
    method Incremental(selectedSize: nat, currentPage: nat) returns (page: Result<nat, WidgetError>)
      requires selectedSize in pageSizeOptions
      requires totalPages > 0 ==> 1 <= currentPage <= totalPages
      modifies this`pageSize
      ensures pageSize == selectedSize && totalPages == old(totalPages) && data == old(data)
      ensures page.Failure? <==> totalPages == 0
      ensures page.Failure? ==> page.error == ValueAboveMax(1, 0)
      ensures page.Success? ==> page.value == currentPage && 1 <= page.value <= totalPages
      ensures Consistent() <==> selectedSize > 0 && TotalPages(|data|, selectedSize) == totalPages
    {
      pageSize := selectedSize;
      if totalPages < 1 {
        return Failure(ValueAboveMax(1, totalPages));
      }
      page := Success(currentPage);
    }

    /** Pages `1..k`, one after the other. */
    ghost function Pages(k: nat): seq<T>
      reads this
    {
      if k == 0 then [] else Pages(k - 1) + GetPage(k)
    }

    /** The first `k` pages are the first `k * pageSize` items (or all of them). */
    lemma {:induction false} PagesPrefix(k: nat)
      ensures Pages(k) == data[..Clip(k * pageSize, |data|)]
    {
      if k > 0 {
        PagesPrefix(k - 1);
        assert (k - 1) * pageSize + pageSize == k * pageSize;
        var a := Clip((k - 1) * pageSize, |data|);
        var b := Clip(k * pageSize, |data|);
        assert a <= b;
        assert data[..a] + data[a..b] == data[..b];
      }
    }

    /** Pages `1..totalPages` put together are exactly the data, in order. */
    lemma PagesCoverData()
      requires Consistent()
      ensures Pages(totalPages) == data
    {
      PagesPrefix(totalPages);
      TotalPagesIsCeiling(|data|, pageSize);
    }

    /** Every page from 1 to the page count has at least one item. */
    lemma PageInRangeNonEmpty(n: nat)
      requires Consistent() && 1 <= n <= totalPages
      ensures GetPage(n) != []
    {
      TotalPagesIsCeiling(|data|, pageSize);
      assert (n - 1) * pageSize <= (totalPages - 1) * pageSize;
    }

    /** Every page past the page count is empty. */
    lemma PageBeyondEmpty(n: nat)
      requires Consistent() && n > totalPages
      ensures GetPage(n) == []
    {
      TotalPagesIsCeiling(|data|, pageSize);
      assert (n - 1) * pageSize >= totalPages * pageSize;
    }

    /**
     * Whatever the page size now is, the pages the indicator offers (1 to the page count
     * fixed at construction) hold all the data exactly when that many pages of the
     * current size reach the last item; after a smaller size is selected they may not.
     */
    lemma OfferedPagesCover()
      ensures Pages(totalPages) == data <==> |data| <= totalPages * pageSize
    {
      PagesPrefix(totalPages);
      if Pages(totalPages) == data {
        assert |data[..Clip(totalPages * pageSize, |data|)]| == |data|;
      }
    }
  }
}
