/**
 * The paginators of the helpers module: `BasePagination`, which pages an
 * in-memory list, and the id-list fast path of the domain-driven
 * `Pagination`. Page numbers start at 1; `perPage` is the page size.
 */
module Pagination {
  import opened Arith
  import opened Text
  import opened Wrappers
  import opened StripShape

  type RecordId = int

  /** `BasePagination(page, per_page, data)`. */
  datatype Paginator<T> = Paginator(page: int, perPage: int, data: seq<T>) {

    /** `count`: the number of items, which is the length of `all_items()`. */
    function Count(): (r: nat)
      ensures r == |AllItems()|
    {
      |data|
    }

    /** `all_items()`: the whole data. */
    function AllItems(): seq<T> { data }

    /** `offset`: the index of the first item of the current page. */
    function Offset(): (r: int)
      ensures page >= 1 && perPage >= 0 ==> r >= 0
    {
      MulNonNegative(page - 1, perPage);
      (page - 1) * perPage
    }

    /**
     * `items()`: the slice `data[offset:offset + per_page]`. For a page
     * number of at least 1 it is the run of at most `perPage` items that
     * starts at `Offset()`.
     */
    function Items(): (r: seq<T>)
      ensures page >= 1 && perPage >= 0 ==> |r| <= perPage
      ensures page >= 1 && perPage >= 0 && |r| > 0 ==> Offset() + |r| <= |data|
      ensures page >= 1 && perPage >= 0 ==>
        forall k :: 0 <= k < |r| ==> r[k] == data[Offset() + k]
      ensures page >= 1 && perPage >= 0 && Offset() < |data| ==>
        |r| == Min(perPage, |data| - Offset())
    {
      PySlice(data, Offset(), Offset() + perPage)
    }

    /** `pages`: the number of pages, `ceil(count / per_page)`. */
    function Pages(): (r: nat)
      requires perPage > 0
      ensures r == 0 <==> data == []
      ensures |data| <= perPage ==> r <= 1
    {
      CeilDiv(Count(), perPage)
    }

    /** `prev_num`: the page whose items end where this page's begin. */
    function PrevNum(): (r: int)
      ensures Paginator(r, perPage, data).Offset() + perPage == Offset()
    {
      NextMultiple(page - 1, perPage);
      page - 1
    }

    /** `next_num`: the page whose items begin where this page's end. */
    function NextNum(): (r: int)
      ensures Paginator(r, perPage, data).Offset() == Offset() + perPage
    {
      NextMultiple(page, perPage);
      page + 1
    }

    /**
     * `has_prev`: for a page from 1 up to one past the last, there is a
     * previous page exactly when it holds items.
     */
    predicate HasPrev()
      ensures perPage > 0 && 1 <= page <= Pages() + 1 ==> (HasPrev() <==> |Prev().Items()| > 0)
    {
      PrevPageHasItems(this);
      page > 1
    }

    /**
     * `has_next`: for a page number of at least 0, there is a next page
     * exactly when it holds items.
     */
    predicate HasNext()
      requires perPage > 0
      ensures page >= 0 ==> (HasNext() <==> |Next().Items()| > 0)
    {
      NextPageHasItems(this);
      page < Pages()
    }

    /** `prev`: the same data and page size, one page back. */
    function Prev(): (r: Paginator<T>)
      ensures r.page == PrevNum() && r.perPage == perPage && r.data == data
    {
      Paginator(PrevNum(), perPage, data)
    }

    /** `next`: the same data and page size, one page on. */
    function Next(): (r: Paginator<T>)
      ensures r.page == NextNum() && r.perPage == perPage && r.data == data
    {
      Paginator(NextNum(), perPage, data)
    }

    /**
     * `begin_count`: the 1-based position of the first item of the page,
     * capped at the count.
     */
    function BeginCount(): (r: int)
      ensures r <= Count()
      ensures page >= 1 && perPage >= 0 && data == [] ==> r == 0
      ensures page == 1 && data != [] ==> r == 1
    {
      Min(Offset() + 1, Count())
    }

    /**
     * `end_count`: the 1-based position of the last item of the page,
     * capped at the count.
     */
    function EndCount(): (r: int)
      ensures r <= Count()
      ensures page >= 1 && perPage >= 1 && data == [] ==> r == 0
    {
      Min(BeginCount() + perPage - 1, Count())
    }

    /** The page-number filter of `iter_pages`. */
    predicate ShowsPage(num: int, leftEdge: int, leftCurrent: int, rightCurrent: int, rightEdge: int)
      requires perPage > 0
    {
      Shown(num, page, Pages(), leftEdge, leftCurrent, rightCurrent, rightEdge)
    }

    /**
     * `iter_pages`: the page-number strip for navigation. Every page number
     * the filter keeps appears, in increasing order, among them always the
     * first `leftEdge` and the last `rightEdge` pages; a `None` stands in
     * front of a number exactly when that number does not follow the
     * previous one (or, at the start, is not 1).
     */
    method IterPages(leftEdge: int := 2, leftCurrent: int := 2, rightCurrent: int := 2, rightEdge: int := 2)
      returns (strip: seq<Option<int>>)
      requires perPage > 0
      ensures Pages() == 0 ==> strip == []
      ensures forall i :: 0 <= i < |strip| && strip[i].Some? ==>
        1 <= strip[i].value <= Pages() && ShowsPage(strip[i].value, leftEdge, leftCurrent, rightCurrent, rightEdge)
      ensures forall num :: 1 <= num <= Pages() && ShowsPage(num, leftEdge, leftCurrent, rightCurrent, rightEdge) ==>
        Some(num) in strip
      ensures forall num :: 1 <= num <= Pages() && (num <= leftEdge || num > Pages() - rightEdge) ==>
        Some(num) in strip
      ensures GapsMarked(strip)
    {
      var pages := Pages();
      var last;
      strip, last := PageStrip(page, pages, leftEdge, leftCurrent, rightCurrent, rightEdge);
      StripDone(strip, last, page, pages, leftEdge, leftCurrent, rightCurrent, rightEdge);
    }
  }

  /**
   * The loop of `iter_pages` for current page `page` out of `pages`: it
   * goes through the page numbers in order, keeps those the filter shows,
   * puts a `None` in front of each one that does not follow the last
   * number kept, and ends with every page considered.
   */
  method PageStrip(page: int, pages: nat, leftEdge: int, leftCurrent: int, rightCurrent: int, rightEdge: int)
    returns (strip: seq<Option<int>>, last: int)
    ensures StripSoFar(strip, last, pages + 1, page, pages, leftEdge, leftCurrent, rightCurrent, rightEdge)
  {
    strip := [];
    last := 0;
    var num := 1;
    StripStarts(page, pages, leftEdge, leftCurrent, rightCurrent, rightEdge);
    while num <= pages
      invariant 1 <= num <= pages + 1
      // Written `== true` so that the invariant is checked as one fact, the
      // conclusion of `StripAdvances`, rather than conjunct by conjunct.
      invariant StripSoFar(strip, last, num, page, pages, leftEdge, leftCurrent, rightCurrent, rightEdge) == true
    {
      ghost var before, lastBefore := strip, last;
      var shown := Shown(num, page, pages, leftEdge, leftCurrent, rightCurrent, rightEdge);
      if shown {
        if last + 1 != num {
          strip := strip + [None];
        }
        strip := strip + [Some(num)];
        last := num;
      }
      StripAdvances(before, strip, lastBefore, last, num, shown, page, pages, leftEdge, leftCurrent, rightCurrent, rightEdge);
      num := num + 1;
    }
  }

  /** `pages` is the ceiling of `count / per_page`: the fewest pages that hold every item. */
  lemma PagesIsCeiling<T>(p: Paginator<T>)
    requires p.perPage > 0
    ensures (p.Pages() - 1) * p.perPage < p.Count() <= p.Pages() * p.perPage
  {
    CeilDivBrackets(p.Count(), p.perPage);
  }

  /**
   * When the page number is in range, `begin_count` and `end_count` are the
   * 1-based positions of the first and last item of `items()`: the page is
   * exactly `data[begin_count - 1 .. end_count]`, and it is not empty.
   */
  lemma CountsFrameItems<T>(p: Paginator<T>)
    requires p.perPage > 0
    requires 1 <= p.page <= p.Pages()
    ensures p.BeginCount() == p.Offset() + 1
    ensures p.EndCount() == p.Offset() + |p.Items()|
    ensures |p.Items()| > 0
    ensures p.Items() == p.data[p.BeginCount() - 1 .. p.EndCount()]
  {
    PagesIsCeiling(p);
    MulLess(p.Pages() - 1, p.page - 1, p.perPage);
    assert p.Offset() < p.Count();
  }

  /** From page 1 up to one past the last, the previous page holds items exactly when `page > 1`. */
  lemma PrevPageHasItems<T>(p: Paginator<T>)
    ensures p.perPage > 0 && 1 <= p.page <= p.Pages() + 1 ==> (p.page > 1 <==> |p.Prev().Items()| > 0)
  {
    if p.perPage > 0 && 1 < p.page <= p.Pages() + 1 {
      CountsFrameItems(p.Prev());
    } else if p.perPage > 0 && p.page == 1 {
      assert p.Prev().Offset() + p.perPage == 0;
      assert p.Prev().Items() == PySlice(p.data, p.Prev().Offset(), 0);
    }
  }

  /** From page 0 on, the next page holds items exactly when `page < pages`. */
  lemma NextPageHasItems<T>(p: Paginator<T>)
    requires p.perPage > 0
    ensures p.page >= 0 ==> (p.page < p.Pages() <==> |p.Next().Items()| > 0)
  {
    if p.page >= 0 {
      var n, pages: int, count := p.Next(), p.Pages(), p.Count();
      NextMultiple(p.page, p.perPage);
      assert n.Offset() == p.page * p.perPage;
      PagesIsCeiling(p);
      MulLess(p.page, pages, p.perPage);
      MulLess(pages - 1, p.page, p.perPage);
      assert p.page < pages <==> n.Offset() < count;
      assert n.page >= 1;
    }
  }

  /** From page 1 on, the current page is the run of `all_items()` that starts at `offset`. */
  lemma PageInAllItems<T>(p: Paginator<T>)
    requires p.page >= 1 && p.perPage >= 0
    ensures forall k :: 0 <= k < |p.Items()| ==>
      p.Offset() + k < |p.AllItems()| && p.Items()[k] == p.AllItems()[p.Offset() + k]
  {
    assert p.AllItems() == p.data;
    assert |p.Items()| > 0 ==> p.Offset() + |p.Items()| <= |p.data|;
    forall k | 0 <= k < |p.Items()|
      ensures p.Offset() + k < |p.data| && p.Items()[k] == p.data[p.Offset() + k]
    {
    }
  }

  /** `prev` and `next` undo each other. */
  lemma PrevNext<T>(p: Paginator<T>)
    ensures p.Next().Prev() == p && p.Prev().Next() == p
  {
  }

  /** The items of pages 1 to `k` of `data`, one page after the other. */
  function PagesUpTo<T>(data: seq<T>, perPage: int, k: nat): seq<T> {
    if k == 0 then [] else PagesUpTo(data, perPage, k - 1) + Paginator(k, perPage, data).Items()
  }

  /** The first `k` pages together are the first `k * perPage` items. */
  lemma {:induction false} PagesUpToIsPrefix<T>(data: seq<T>, perPage: int, k: nat)
    requires perPage > 0
    ensures PagesUpTo(data, perPage, k) == data[..Min(k * perPage, |data|)]
  {
    if k > 0 {
      PagesUpToIsPrefix(data, perPage, k - 1);
      PageSpan(data, perPage, k);
      SliceAppend(data, Min((k - 1) * perPage, |data|), Min(k * perPage, |data|));
    }
  }

  /** Page `k` runs from the end of page `k - 1` to `k * perPage`, clamped to the data. */
  lemma PageSpan<T>(data: seq<T>, perPage: int, k: nat)
    requires perPage > 0 && k > 0
    ensures Min((k - 1) * perPage, |data|) <= Min(k * perPage, |data|)
    ensures Paginator(k, perPage, data).Items() ==
      data[Min((k - 1) * perPage, |data|) .. Min(k * perPage, |data|)]
  {
    var p := Paginator(k, perPage, data);
    NextMultiple(k, perPage);
    PageIsSlice(p);
    assert p.Offset() == (k - 1) * perPage;
  }

  /** For a page number of at least 1, `items()` is a plain slice clamped to the data. */
  lemma PageIsSlice<T>(p: Paginator<T>)
    requires p.page >= 1 && p.perPage > 0
    ensures p.Offset() >= 0
    ensures Min(p.Offset(), |p.data|) <= Min(p.Offset() + p.perPage, |p.data|)
    ensures p.Items() == p.data[Min(p.Offset(), |p.data|) .. Min(p.Offset() + p.perPage, |p.data|)]
  {
    var off := p.Offset();
    MulLess(-1, p.page - 1, p.perPage);
    assert off >= 0;
    assert p.Items() == PySlice(p.data, off, off + p.perPage);
  }

  /** The pages partition the data: read in order, pages 1 to `pages` give back `all_items()`. */
  lemma PagesPartitionData<T>(p: Paginator<T>)
    requires p.perPage > 0
    ensures PagesUpTo(p.data, p.perPage, p.Pages()) == p.AllItems()
  {
    PagesUpToIsPrefix(p.data, p.perPage, p.Pages());
    PagesIsCeiling(p);
  }

  /** The empty-list example of the `BasePagination` docstring. */
  lemma EmptyListExample()
    ensures var p: Paginator<int> := Paginator(1, 3, []);
      p.Count() == 0 && p.Pages() == 0 && p.BeginCount() == 0 && p.EndCount() == 0
  {
  }

  /** The nine-item example of the `BasePagination` docstring. */
  lemma NineItemsExample()
    ensures var p := Paginator(1, 3, [1, 2, 3, 4, 5, 6, 7, 8, 9]);
      p.Count() == 9 && p.AllItems() == [1, 2, 3, 4, 5, 6, 7, 8, 9] &&
      p.Pages() == 3 && p.BeginCount() == 1 && p.EndCount() == 3
  {
  }

  // ---------------------------------------------------------------------
  // The domain-driven `Pagination` and its id-list fast path.

  /** An operand of a search clause: a list of record ids, or any other value. */
  datatype Operand = IdList(ids: seq<RecordId>) | Scalar(text: string)

  /** A search clause `(field, operator, operand)`. */
  datatype Clause = Clause(field: string, operator: string, operand: Operand)

  type Domain = seq<Clause>

  /**
   * `Pagination(obj, domain, page, per_page, order)`; `cachedCount` is the
   * class attribute `_count` a caller may set to skip the count search.
   */
  datatype DomainPagination = DomainPagination(
    domain: Domain, page: int, perPage: int, order: Option<string>, cachedCount: Option<nat>)
  {
    /** On the fast path, the search engine's rule that an `id in` clause takes a list of ids. */
    predicate WellFormed() {
      IdsDomain() ==> domain[0].operand.IdList?
    }

    /**
     * `ids_domain()`: the domain is the single clause `('id', 'in', ids)` and
     * no order is requested, so the ids can be paged without a search.
     */
    predicate IdsDomain() {
      |domain| == 1 && domain[0].field == "id" && domain[0].operator == "in" && order.None?
    }

    /**
     * The inherited `BasePagination` state: `Pagination.__init__` passes no
     * data to it, so only the page number and size matter (for `offset`).
     */
    function Base(): Paginator<RecordId> {
      Paginator(page, perPage, [])
    }

    /** The list paginator over the id list of the fast path. */
    function IdPages(): Paginator<RecordId>
      requires WellFormed() && IdsDomain()
    {
      Paginator(page, perPage, domain[0].operand.ids)
    }

    /**
     * `count`: the length of the id list on the fast path; otherwise the
     * cached count if one was set, else the search engine's count.
     */
    function Count(searchCount: Domain -> nat): (r: nat)
      requires WellFormed()
      ensures IdsDomain() ==> r == IdPages().Count()
      ensures !IdsDomain() && cachedCount.Some? ==> r == cachedCount.value
      ensures !IdsDomain() && cachedCount.None? ==> r == searchCount(domain)
    {
      if IdsDomain() then |domain[0].operand.ids|
      else if cachedCount.Some? then cachedCount.value
      else searchCount(domain)
    }

    /**
     * `items()`: on the fast path the slice of the id list for the page;
     * otherwise what the search engine returns for this offset and limit.
     * Records are represented by their ids.
     */
    function Items(search: (Domain, int, int, Option<string>) -> seq<RecordId>): (r: seq<RecordId>)
      requires WellFormed()
      ensures IdsDomain() ==> r == IdPages().Items()
      ensures !IdsDomain() ==> r == search(domain, Base().Offset(), perPage, order)
    {
      var offset := Base().Offset();
      if IdsDomain() then PySlice(domain[0].operand.ids, offset, offset + perPage)
      else search(domain, offset, perPage, order)
    }

    /** `all_items()`: the id list on the fast path, else the full search result. */
    function AllItems(searchAll: Domain -> seq<RecordId>): (r: seq<RecordId>)
      requires WellFormed()
      ensures IdsDomain() ==> r == IdPages().AllItems()
      ensures !IdsDomain() ==> r == searchAll(domain)
    {
      if IdsDomain() then domain[0].operand.ids else searchAll(domain)
    }
  }

  /** On the fast path, page `k` of the domain paginator is page `k` of the id list. */
  lemma DomainPageIsIdPage(d: DomainPagination, search: (Domain, int, int, Option<string>) -> seq<RecordId>, k: int)
    requires d.WellFormed() && d.IdsDomain()
    ensures d.(page := k).WellFormed()
    ensures d.(page := k).Items(search) == Paginator(k, d.perPage, d.domain[0].operand.ids).Items()
  {
    var dk := d.(page := k);
    assert dk.domain == d.domain && dk.order == d.order;
    assert dk.IdsDomain();
  }

  /**
   * `ids_domain()` is the test for skipping the search: on the id-list
   * path the page does not depend on the search engine, and off it two
   * engines that answer differently give different pages.
   */
  lemma IdsDomainSkipsSearch(d: DomainPagination)
    requires d.WellFormed()
    ensures d.IdsDomain() <==>
      forall s1: (Domain, int, int, Option<string>) -> seq<RecordId>,
             s2: (Domain, int, int, Option<string>) -> seq<RecordId> :: d.Items(s1) == d.Items(s2)
  {
    if !d.IdsDomain() {
      var none := (dom: Domain, offset: int, limit: int, order: Option<string>) => [];
      var one := (dom: Domain, offset: int, limit: int, order: Option<string>) => [0];
      assert d.Items(none) != d.Items(one);
    }
  }

  /**
   * On the fast path the domain paginator pages the id list without a
   * search: every page of it is that page of `all_items()`, and read in
   * order pages 1 to `pages` give back `all_items()`, whatever the search
   * engine would have answered.
   */
  lemma IdsDomainPagesPartition(
    d: DomainPagination,
    search: (Domain, int, int, Option<string>) -> seq<RecordId>,
    searchAll: Domain -> seq<RecordId>)
    requires d.WellFormed() && d.IdsDomain() && d.perPage > 0
    ensures forall k ::
      d.(page := k).WellFormed() &&
      d.(page := k).Items(search) == Paginator(k, d.perPage, d.AllItems(searchAll)).Items()
    ensures PagesUpTo(d.AllItems(searchAll), d.perPage, d.IdPages().Pages()) == d.AllItems(searchAll)
  {
    forall k
      ensures d.(page := k).WellFormed() &&
              d.(page := k).Items(search) == Paginator(k, d.perPage, d.AllItems(searchAll)).Items()
    {
      DomainPageIsIdPage(d, search, k);
    }
    PagesPartitionData(d.IdPages());
  }
}
