/**
 * The pager's page-window generator and page-bounds questions
 * (web/src/util/pagination.ts).
 */
module Pagination {
  import opened Wrappers

  /** Current pagination state of a result set. */
  datatype Pageable = Pageable(page: int, pageSize: int, count: int)

  /** One entry of the pager: a page number or a gap marker. */
  datatype PageItem = Page(page: int) | Ellipses

  /** The error both bounds questions raise on a non-positive field. */
  datatype PageError = InvalidArgument

  predicate ValidPageable(p: Pageable)
    ensures ValidPageable(p) ==> p.pageSize > 0 && CountPages(p.pageSize, p.count) >= 1
  {
    p.page > 0 && p.pageSize > 0 && p.count > 0
  }

  // ---------------------------------------------------------------------
  // Page counting and bounds
  // ---------------------------------------------------------------------

  /** Pages needed to hold `count` items, `pageSize` to a page: ceiling division. */
  function CountPages(pageSize: int, count: int): (n: int)
    requires pageSize > 0
    ensures (n - 1) * pageSize < count <= n * pageSize
  {
    var q := count / pageSize;
    assert count == q * pageSize + count % pageSize;
    if count % pageSize == 0 then q else q + 1
  }

  /** The bounds of CountPages determine it: no other number of pages fits. */
  lemma CountPagesUnique(pageSize: int, count: int, n: int)
    requires pageSize > 0
    requires (n - 1) * pageSize < count <= n * pageSize
    ensures n == CountPages(pageSize, count)
  {
    var m := CountPages(pageSize, count);
    if n < m {
      MulMonotone(n, m - 1, pageSize);
    } else if m < n {
      MulMonotone(m, n - 1, pageSize);
    }
  }

  lemma MulMonotone(a: int, b: int, c: int)
    requires a <= b && c > 0
    ensures a * c <= b * c
  {
    var k := b - a;
    assert b * c == a * c + k * c;
    assert k * c >= 0;
  }

  function HasPreviousPage(p: Pageable): (r: Result<bool, PageError>)
    ensures r.Failure? <==> !ValidPageable(p)
    ensures r.Success? ==> (r.value <==> p.page != 1)
  {
    if p.count <= 0 || p.pageSize <= 0 || p.page <= 0 then Failure(InvalidArgument)
    else Success(p.page > 1)
  }

  /** There is a next page exactly when the current page is not the last one. */
  function HasNextPage(p: Pageable): (r: Result<bool, PageError>)
    ensures r.Failure? <==> !ValidPageable(p)
    ensures r.Success? ==> (r.value <==> p.page < CountPages(p.pageSize, p.count))
  {
    if p.count <= 0 || p.pageSize <= 0 || p.page <= 0 then Failure(InvalidArgument)
    else
      NextPageIffBeforeLast(p.page, p.pageSize, p.count);
      Success(p.page * p.pageSize < p.count)
  }

  lemma NextPageIffBeforeLast(page: int, pageSize: int, count: int)
    requires page > 0 && pageSize > 0
    ensures page * pageSize < count <==> page < CountPages(pageSize, count)
  {
    var n := CountPages(pageSize, count);
    if page < n {
      MulMonotone(page, n - 1, pageSize);
    } else {
      MulMonotone(n, page, pageSize);
    }
  }

  // ---------------------------------------------------------------------
  // The page window
  // ---------------------------------------------------------------------

  /** `Page(first)`, `Page(first + 1)`, ..., `n` pages in a row. */
  function Run(first: int, n: nat): seq<PageItem> {
    seq(n, i => Page(first + i))
  }

  /**
   * The window the pager shows for the current `page` of `pages`, using at
   * most `maxItems` entries, branch by branch as the generator decides.
   */
  function Window(page: int, pages: nat, maxItems: nat): (r: seq<PageItem>)
    ensures r == [] <==> pages == 0 || maxItems == 0
    ensures |r| <= maxItems
    ensures 0 < pages <= maxItems ==> r == Run(1, pages)
  {
    if pages == 0 || maxItems == 0 then []
    else if maxItems >= pages then Run(1, pages)
    else if maxItems <= 2 then [Page(page)]
    else if page < maxItems - 3 then Run(1, maxItems - 2) + [Ellipses, Page(pages)]
    else if page > pages - maxItems + 3 then [Page(1), Ellipses] + Run(pages - maxItems + 3, maxItems - 2)
    else if maxItems <= 4 then
      (if page == 1 || page == pages then [Page(page), Ellipses, Page(pages)]
       else [Ellipses, Page(page), Ellipses])
    else
      var half := (maxItems - 5) / 2;
      [Page(1), Ellipses] + Run(page - half, 2 * half + 1) + [Ellipses, Page(pages)]
  }

  /** The generator as the source writes it: arrays filled by pushes inside loops. */
  method GeneratePages(page: int, pages: nat, maxItems: nat) returns (result: seq<PageItem>)
    ensures result == Window(page, pages, maxItems)
  {
    if pages == 0 || maxItems == 0 {
      return [];
    }

    if maxItems >= pages {
      result := [];
      var i := 0;
      while i < pages
        invariant 0 <= i <= pages
        invariant result == Run(1, i)
      {
        result := result + [Page(i + 1)];
        i := i + 1;
      }
      return;
    }

    if maxItems <= 2 {
      return [Page(page)];
    }

    if page < maxItems - 3 {
      result := [Page(1)];
      var i := 1;
      while i < maxItems - 2
        invariant 1 <= i <= maxItems - 2
        invariant result == Run(1, i)
      {
        result := result + [Page(i + 1)];
        i := i + 1;
      }
      result := result + [Ellipses];
      result := result + [Page(pages)];
      return;
    }

    if page > pages - maxItems + 3 {
      result := [Page(1)];
      result := result + [Ellipses];
      var i := pages - maxItems + 3;
      while i < pages + 1
        invariant pages - maxItems + 3 <= i <= pages + 1
        invariant result == [Page(1), Ellipses] + Run(pages - maxItems + 3, i - (pages - maxItems + 3))
      {
        result := result + [Page(i)];
        i := i + 1;
      }
      return;
    }

    if maxItems <= 4 {
      if page == 1 || page == pages {
        return [Page(page), Ellipses, Page(pages)];
      }
      return [Ellipses, Page(page), Ellipses];
    }

    result := [Page(1)];
    result := result + [Ellipses];
    var itemsLeft := maxItems - 5;
    var leftStart := page - itemsLeft / 2;
    var rightEnd := page + itemsLeft / 2;
    var i := leftStart;
    while i <= rightEnd
      invariant leftStart <= i <= rightEnd + 1
      invariant result == [Page(1), Ellipses] + Run(leftStart, i - leftStart)
    {
      result := result + [Page(i)];
      i := i + 1;
    }
    result := result + [Ellipses];
    result := result + [Page(pages)];
  }

  // ---------------------------------------------------------------------
  // Properties of the window
  // ---------------------------------------------------------------------

  /** Whether `n` is one of the page numbers shown. */
  predicate Shows(r: seq<PageItem>, n: int) {
    Page(n) in r
  }

  /** The page numbers of a window, in order, with the gap markers dropped. */
  function PageNumbers(r: seq<PageItem>): (ns: seq<int>)
  {
    if r == [] then []
    else if r[0].Page? then [r[0].page] + PageNumbers(r[1..])
    else PageNumbers(r[1..])
  }

  lemma {:induction false} PageNumbersAppend(a: seq<PageItem>, b: seq<PageItem>)
    ensures PageNumbers(a + b) == PageNumbers(a) + PageNumbers(b)
  {
    if a != [] {
      assert (a + b)[1..] == a[1..] + b;
      PageNumbersAppend(a[1..], b);
    } else {
      assert a + b == b;
    }
  }

  predicate StrictlyIncreasing(ns: seq<int>) {
    forall i, j :: 0 <= i < j < |ns| ==> ns[i] < ns[j]
  }

  /**
   * For a current page that exists, every shown page number is a real page
   * and the current page is always among them.
   */
  lemma WindowShowsCurrentPageInRange(page: int, pages: nat, maxItems: nat)
    requires 1 <= page <= pages && maxItems > 0
    ensures Shows(Window(page, pages, maxItems), page)
    ensures forall n :: Shows(Window(page, pages, maxItems), n) ==> 1 <= n <= pages
  {
    var r := Window(page, pages, maxItems);
    if maxItems >= pages {
      assert r[page - 1] == Page(page);
    } else if maxItems <= 2 {
    } else if page < maxItems - 3 {
      assert r[page - 1] == Page(page);
    } else if page > pages - maxItems + 3 {
      assert r[2 + page - (pages - maxItems + 3)] == Page(page);
    } else if maxItems <= 4 {
    } else {
      var half := (maxItems - 5) / 2;
      GeneralRunInside(page, pages, maxItems);
      assert r[2 + half] == Page(page);
    }
  }

  /**
   * In the general branch the run centred on the current page never reaches
   * the first or the last page, whatever `page` is: the two guards before it
   * keep `page` at least `maxItems - 3` and at most `pages - maxItems + 3`.
   */
  lemma GeneralRunInside(page: int, pages: nat, maxItems: nat)
    requires 5 <= maxItems < pages
    requires maxItems - 3 <= page <= pages - maxItems + 3
    ensures 2 <= page - (maxItems - 5) / 2
    ensures page + (maxItems - 5) / 2 <= pages - 2
  {
  }

  /** How many entries each branch emits. */
  lemma WindowLength(page: int, pages: nat, maxItems: nat)
    requires 0 < maxItems < pages
    ensures |Window(page, pages, maxItems)| ==
      if maxItems <= 2 then 1
      else if page < maxItems - 3 || page > pages - maxItems + 3 then maxItems
      else if maxItems <= 4 then 3
      else 5 + 2 * ((maxItems - 5) / 2)
  {
  }

  lemma PageNumbersOfItems(x: PageItem, y: PageItem, z: PageItem)
    ensures PageNumbers([x]) == (if x.Page? then [x.page] else [])
    ensures PageNumbers([x, y]) == PageNumbers([x]) + PageNumbers([y])
    ensures PageNumbers([x, y, z]) == PageNumbers([x]) + PageNumbers([y]) + PageNumbers([z])
  {
    assert [x][1..] == [];
    assert [y][1..] == [];
    assert [z][1..] == [];
    PageNumbersAppend([x], [y]);
    PageNumbersAppend([x, y], [z]);
    assert [x] + [y] == [x, y];
    assert [x, y] + [z] == [x, y, z];
  }

  /** Consecutive numbers `first`, `first + 1`, ..., `n` of them. */
  function Consecutive(first: int, n: nat): seq<int> {
    seq(n, i => first + i)
  }

  lemma {:induction false} PageNumbersOfRun(first: int, n: nat)
    ensures PageNumbers(Run(first, n)) == Consecutive(first, n)
    decreases n
  {
    if n > 0 {
      PageNumbersOfRun(first + 1, n - 1);
      assert Run(first, n) == [Page(first)] + Run(first + 1, n - 1);
      assert Consecutive(first, n) == [first] + Consecutive(first + 1, n - 1);
    }
  }

  lemma IncreasingAppend(a: seq<int>, b: seq<int>)
    requires StrictlyIncreasing(a) && StrictlyIncreasing(b)
    requires a != [] && b != [] ==> a[|a| - 1] < b[0]
    ensures StrictlyIncreasing(a + b)
  {
    forall i, j | 0 <= i < j < |a + b| ensures (a + b)[i] < (a + b)[j] {
      if i < |a| && j >= |a| {
        assert a[i] <= a[|a| - 1] && b[0] <= b[j - |a|];
      }
    }
  }

  lemma OrderedNearStart(page: int, pages: nat, maxItems: nat)
    requires 3 <= maxItems < pages && page < maxItems - 3
    ensures PageNumbers(Window(page, pages, maxItems)) == Consecutive(1, maxItems - 2) + [pages]
    ensures StrictlyIncreasing(PageNumbers(Window(page, pages, maxItems)))
  {
    PageNumbersAppend(Run(1, maxItems - 2), [Ellipses, Page(pages)]);
    PageNumbersOfRun(1, maxItems - 2);
    PageNumbersOfItems(Ellipses, Page(pages), Ellipses);
    PageNumbersOfItems(Page(pages), Ellipses, Ellipses);
    IncreasingAppend(Consecutive(1, maxItems - 2), [pages]);
  }

  lemma OrderedNearEnd(page: int, pages: nat, maxItems: nat)
    requires 3 <= maxItems < pages && maxItems - 3 <= page && page > pages - maxItems + 3
    ensures PageNumbers(Window(page, pages, maxItems)) == [1] + Consecutive(pages - maxItems + 3, maxItems - 2)
    ensures StrictlyIncreasing(PageNumbers(Window(page, pages, maxItems)))
  {
    PageNumbersAppend([Page(1), Ellipses], Run(pages - maxItems + 3, maxItems - 2));
    PageNumbersOfRun(pages - maxItems + 3, maxItems - 2);
    PageNumbersOfItems(Page(1), Ellipses, Ellipses);
    PageNumbersOfItems(Ellipses, Ellipses, Ellipses);
    IncreasingAppend([1], Consecutive(pages - maxItems + 3, maxItems - 2));
  }

  lemma OrderedGeneral(page: int, pages: nat, maxItems: nat)
    requires 5 <= maxItems < pages && maxItems - 3 <= page <= pages - maxItems + 3
    ensures PageNumbers(Window(page, pages, maxItems)) ==
      [1] + Consecutive(page - (maxItems - 5) / 2, 2 * ((maxItems - 5) / 2) + 1) + [pages]
    ensures StrictlyIncreasing(PageNumbers(Window(page, pages, maxItems)))
  {
    var half := (maxItems - 5) / 2;
    GeneralRunInside(page, pages, maxItems);
    var run := Run(page - half, 2 * half + 1);
    assert Window(page, pages, maxItems) == [Page(1), Ellipses] + run + [Ellipses, Page(pages)];
    PageNumbersOfRun(page - half, 2 * half + 1);
    FramedNumbers(run, Consecutive(page - half, 2 * half + 1), pages);
    ConsecutiveIncreasing(page - half, 2 * half + 1);
    FramedIncreasing(Consecutive(page - half, 2 * half + 1), pages);
  }

  /** A run between the first page and a gap on the left, a gap and the last page on the right. */
  lemma FramedNumbers(run: seq<PageItem>, middle: seq<int>, last: int)
    requires PageNumbers(run) == middle
    ensures PageNumbers([Page(1), Ellipses] + run + [Ellipses, Page(last)]) == [1] + middle + [last]
  {
    PageNumbersAppend([Page(1), Ellipses] + run, [Ellipses, Page(last)]);
    PageNumbersAppend([Page(1), Ellipses], run);
    PageNumbersOfItems(Page(1), Ellipses, Ellipses);
    PageNumbersOfItems(Ellipses, Page(last), Ellipses);
    PageNumbersOfItems(Ellipses, Ellipses, Ellipses);
    PageNumbersOfItems(Page(last), Ellipses, Ellipses);
  }

  lemma ConsecutiveIncreasing(first: int, n: nat)
    ensures StrictlyIncreasing(Consecutive(first, n))
  {
  }

  lemma FramedIncreasing(middle: seq<int>, last: int)
    requires StrictlyIncreasing(middle) && middle != []
    requires 1 < middle[0] && middle[|middle| - 1] < last
    ensures StrictlyIncreasing([1] + middle + [last])
  {
    IncreasingAppend([1], middle);
    IncreasingAppend([1] + middle, [last]);
  }

  /** Three or four entries around an inner page: only the first and the last page repeat. */
  lemma OrderedSmall(page: int, pages: nat, maxItems: nat)
    requires 3 <= maxItems <= 4 && maxItems < pages && 1 <= page <= pages
    requires maxItems - 3 <= page <= pages - maxItems + 3
    ensures StrictlyIncreasing(PageNumbers(Window(page, pages, maxItems))) <==> page != pages
  {
    var r := Window(page, pages, maxItems);
    PageNumbersOfItems(Page(page), Ellipses, Page(pages));
    PageNumbersOfItems(Ellipses, Page(page), Ellipses);
    PageNumbersOfItems(Ellipses, Ellipses, Ellipses);
    PageNumbersOfItems(Page(pages), Ellipses, Ellipses);
    if page == pages {
      var ns := PageNumbers(r);
      assert ns == [pages, pages] && !(ns[0] < ns[1]);
    } else if page == 1 {
      assert PageNumbers(r) == [1, pages];
    }
  }

  /**
   * For a current page that exists, the page numbers shown increase strictly
   * from left to right, except in one case: a budget of three entries on the
   * last page, which shows the last page twice.
   */
  lemma WindowOrdered(page: int, pages: nat, maxItems: nat)
    requires 1 <= page <= pages
    ensures StrictlyIncreasing(PageNumbers(Window(page, pages, maxItems)))
        <==> !(maxItems == 3 && page == pages && pages > 3)
  {
    var r := Window(page, pages, maxItems);
    if maxItems == 0 {
      assert r == [];
    } else if maxItems >= pages {
      PageNumbersOfRun(1, pages);
    } else if maxItems <= 2 {
      PageNumbersOfItems(Page(page), Ellipses, Ellipses);
    } else if page < maxItems - 3 {
      OrderedNearStart(page, pages, maxItems);
    } else if page > pages - maxItems + 3 {
      OrderedNearEnd(page, pages, maxItems);
    } else if maxItems <= 4 {
      OrderedSmall(page, pages, maxItems);
    } else {
      OrderedGeneral(page, pages, maxItems);
    }
  }

  /** The windows the source's own tests expect. */
  lemma WindowExamples()
    ensures Window(1, 0, 5) == []
    ensures Window(1, 3, 2) == [Page(1)]
    ensures Window(3, 3, 2) == [Page(3)]
    ensures Window(1, 3, 5) == [Page(1), Page(2), Page(3)]
    ensures Window(1, 10, 3) == [Page(1), Ellipses, Page(10)]
    ensures Window(2, 10, 3) == [Ellipses, Page(2), Ellipses]
    ensures Window(1, 10, 5) == [Page(1), Page(2), Page(3), Ellipses, Page(10)]
    ensures Window(3, 10, 5) == [Page(1), Ellipses, Page(3), Ellipses, Page(10)]
    ensures Window(4, 10, 5) == [Page(1), Ellipses, Page(4), Ellipses, Page(10)]
    ensures Window(17, 20, 6) == [Page(1), Ellipses, Page(17), Ellipses, Page(20)]
    ensures Window(20, 20, 6) == [Page(1), Ellipses, Page(17), Page(18), Page(19), Page(20)]
    ensures Window(11, 19, 8) == [Page(1), Ellipses, Page(10), Page(11), Page(12), Ellipses, Page(19)]
    ensures Window(14, 19, 8) == [Page(1), Ellipses, Page(13), Page(14), Page(15), Ellipses, Page(19)]
  {
    assert Run(1, 3) == [Page(1), Page(2), Page(3)];
    assert Run(3, 1) == [Page(3)];
    assert Run(4, 1) == [Page(4)];
    assert Run(17, 1) == [Page(17)];
    assert Run(17, 4) == [Page(17), Page(18), Page(19), Page(20)];
    assert Run(10, 3) == [Page(10), Page(11), Page(12)];
    assert Run(13, 3) == [Page(13), Page(14), Page(15)];
  }

  /**
   * A gap marker can hide nothing: with five entries, page 2 of 10 is shown
   * as 1, gap, 2, gap, 10, although no page lies between 1 and 2.
   */
  lemma WindowEmptyGap()
    ensures Window(2, 10, 5) == [Page(1), Ellipses, Page(2), Ellipses, Page(10)]
  {
    assert Run(2, 1) == [Page(2)];
  }

  /**
   * What the pager component shows, the window over `CountPages` pages,
   * agrees with its previous and next links.
   */
  lemma PagerWindowInRange(p: Pageable, maxItems: nat)
    requires ValidPageable(p) && maxItems > 0
    requires p.page <= CountPages(p.pageSize, p.count)
    ensures Shows(Window(p.page, CountPages(p.pageSize, p.count), maxItems), p.page)
    ensures Shows(Window(p.page, CountPages(p.pageSize, p.count), maxItems), p.page + 1) ==> HasNextPage(p) == Success(true)
    ensures Shows(Window(p.page, CountPages(p.pageSize, p.count), maxItems), p.page - 1) ==> HasPreviousPage(p) == Success(true)
  {
    var pages := CountPages(p.pageSize, p.count);
    WindowShowsCurrentPageInRange(p.page, pages, maxItems);
  }
}
