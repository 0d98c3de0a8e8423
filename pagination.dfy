/** The page-window arithmetic of the list pager (components/Pagination.tsx):
    how many pages there are, which run of at most five page numbers is shown
    around the current page, when the first/last page buttons and the
    ellipses appear, and when the navigation buttons are disabled. */
module Pagination {
  import opened Types

  /** `maxPagesToShow`. */
  const MAX_PAGES_TO_SHOW: nat := 5

  function Max(a: int, b: int): int { if a >= b then a else b }

  function Min(a: int, b: int): int { if a <= b then a else b }

  /** `Math.ceil(totalItems / itemsPerPage)`: the least page count whose pages hold every item. */
  function TotalPages(itemsPerPage: nat, totalItems: nat): (t: nat)
    requires itemsPerPage > 0
    ensures totalItems <= t * itemsPerPage
    ensures t > 0 ==> (t - 1) * itemsPerPage < totalItems
  {
    var q := totalItems / itemsPerPage;
    var r := totalItems % itemsPerPage;
    assert totalItems == q * itemsPerPage + r && 0 <= r < itemsPerPage;
    if r == 0 then q
    else
      assert (q + 1) * itemsPerPage == q * itemsPerPage + itemsPerPage;
      q + 1
  }

  /** The pager renders nothing exactly when every item fits on one page. */
  lemma OnePageIffFits(itemsPerPage: nat, totalItems: nat)
    requires itemsPerPage > 0
    ensures TotalPages(itemsPerPage, totalItems) <= 1 <==> totalItems <= itemsPerPage
  {
    var t := TotalPages(itemsPerPage, totalItems);
    if t >= 2 {
      assert (t - 1) * itemsPerPage >= itemsPerPage;
    } else {
      assert t * itemsPerPage <= itemsPerPage;
    }
  }

  /** What the pager draws: the window of page buttons and the flags of the
      conditional elements around it. */
  datatype Nav = Nav(
    totalPages: nat,
    startPage: int,
    endPage: int,
    pageNumbers: seq<int>,
    /** The separate "1" button before the window. */
    showFirstPage: bool,
    /** The "..." after that button. */
    showLeadingEllipsis: bool,
    /** The separate last-page button after the window. */
    showLastPage: bool,
    /** The "..." before that button. */
    showTrailingEllipsis: bool,
    /** The "<<" and "<" buttons are disabled. */
    firstPrevDisabled: bool,
    /** The ">" and ">>" buttons are disabled. */
    nextLastDisabled: bool)

  /** The pager for `totalItems` items, `itemsPerPage` to a page, at page
      `currentPage` (any integer; the component does not clamp it). */
  method Render(itemsPerPage: nat, totalItems: nat, currentPage: int) returns (nav: Option<Nav>)
    requires itemsPerPage > 0
    ensures nav.None? <==> totalItems <= itemsPerPage
    ensures nav.Some? ==> nav.value.totalPages == TotalPages(itemsPerPage, totalItems) >= 2
    ensures nav.Some? ==> 1 <= nav.value.startPage <= nav.value.endPage <= nav.value.totalPages
    // the buttons are the contiguous ascending run startPage..endPage, five of them when there are that many pages
    ensures nav.Some? ==>
      |nav.value.pageNumbers| == nav.value.endPage - nav.value.startPage + 1 == Min(MAX_PAGES_TO_SHOW, nav.value.totalPages)
    ensures nav.Some? ==>
      forall k :: 0 <= k < |nav.value.pageNumbers| ==> nav.value.pageNumbers[k] == nav.value.startPage + k
    // a real current page is always inside the window, and centred when it can be
    ensures (nav.Some? && 1 <= currentPage <= nav.value.totalPages) ==>
      nav.value.startPage <= currentPage <= nav.value.endPage
    ensures (nav.Some? && 3 <= currentPage <= nav.value.totalPages - 2) ==>
      nav.value.startPage == currentPage - 2 && nav.value.endPage == currentPage + 2
    // the extra first/last buttons appear exactly when their page is outside the window,
    // and an ellipsis exactly when the page next to it is outside the window too
    ensures nav.Some? ==> (nav.value.showFirstPage <==> 1 !in nav.value.pageNumbers)
    ensures nav.Some? ==> (nav.value.showLeadingEllipsis <==> 2 !in nav.value.pageNumbers)
    ensures nav.Some? ==> (nav.value.showLastPage <==> nav.value.totalPages !in nav.value.pageNumbers)
    ensures nav.Some? ==>
      (nav.value.showTrailingEllipsis <==> nav.value.totalPages - 1 !in nav.value.pageNumbers)
    // every page is reachable: in the window, behind an extra button, or elided by an ellipsis
    ensures nav.Some? ==>
      forall p :: 1 <= p <= nav.value.totalPages ==>
        p in nav.value.pageNumbers ||
        (p == 1 && nav.value.showFirstPage) ||
        (p == nav.value.totalPages && nav.value.showLastPage) ||
        (1 < p < nav.value.startPage && nav.value.showLeadingEllipsis) ||
        (nav.value.endPage < p < nav.value.totalPages && nav.value.showTrailingEllipsis)
    ensures nav.Some? ==> (nav.value.firstPrevDisabled <==> currentPage == 1)
    ensures nav.Some? ==> (nav.value.nextLastDisabled <==> currentPage == nav.value.totalPages)
  {
    var totalPages := TotalPages(itemsPerPage, totalItems);
    OnePageIffFits(itemsPerPage, totalItems);
    if totalPages <= 1 {
      return None;
    }
    var startPage := Max(1, currentPage - MAX_PAGES_TO_SHOW / 2);
    var endPage := Min(totalPages, startPage + MAX_PAGES_TO_SHOW - 1);
    if endPage - startPage < MAX_PAGES_TO_SHOW - 1 {
      startPage := Max(1, endPage - MAX_PAGES_TO_SHOW + 1);
    }
    var pageNumbers: seq<int> := [];
    var i := startPage;
    while i <= endPage
      invariant startPage <= i <= endPage + 1
      invariant |pageNumbers| == i - startPage
      invariant forall k :: 0 <= k < |pageNumbers| ==> pageNumbers[k] == startPage + k
      decreases endPage - i
    {
      pageNumbers := pageNumbers + [i];
      i := i + 1;
    }
    assert forall p :: p in pageNumbers <==> startPage <= p <= endPage by {
      forall p ensures p in pageNumbers <==> startPage <= p <= endPage {
        if startPage <= p <= endPage {
          assert pageNumbers[p - startPage] == p;
        }
      }
    }
    nav := Some(Nav(
      totalPages, startPage, endPage, pageNumbers,
      startPage > 1, startPage > 2,
      endPage < totalPages, endPage < totalPages - 1,
      currentPage == 1, currentPage == totalPages));
  }
}
