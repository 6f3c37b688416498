# Nereid helpers in Dafny

A model of the framework-independent core of `nereid/helpers.py` from
Nereid, the web framework built on the Tryton ERP. The model covers:

- **Pagination** (`Pagination` module). `BasePagination` pages an in-memory
  list: `count`, `all_items`, `items`, `offset`, `pages`, `begin_count`,
  `end_count`, `has_prev`/`has_next`, `prev`/`next` and the navigation strip
  `iter_pages`, whose loop invariant and strip shape live in the
  `StripShape` module. The domain-driven `Pagination` is modelled on its id-list fast
  path (`ids_domain`), where it pages the id list exactly as `BasePagination`
  does; the search engine is a function parameter.
- **Sitemap batching** (`Sitemap` module). `SitemapIndex.page_count` and the
  id window `(min_id, max_id]` of a `SitemapSection`.
- **Breadcrumbs** (`Crumbs` module). `make_crumbs` walks the parent chain of a
  record through a store of records keyed by id. `url_for` is a function
  parameter.
- **Flash messages** (`Flashes` module). `flash` and `get_flashed_messages`,
  as a class holding the session's `_flashes` entry and the request
  context's `flashes` cache.
- **Host names** (`Hosts` module). `get_website_from_host`.
- **Static files** (`StaticFiles` module). The path rejection in
  `send_from_directory`, applied to an already normalised file name.

`Text` models Python's slicing (`PySlice`, with negative indices and
clamping) and `str.split` on one character (`Split`/`Join`, with both
round trips proved). `Arith` holds the exact integer ceiling `CeilDiv` that
stands for `int(ceil(a / float(b)))`, with lemmas on its brackets.

Main results:

- The pages of a list partition it: read in order, pages `1..pages` give
  back the whole list.
- `begin_count`/`end_count` frame exactly the items of an in-range page.
  For a page from 1 to `pages + 1`, `has_prev` holds exactly when the
  previous page has items; from page 0 on, `has_next` holds exactly when
  the next page has items.
- `iter_pages` lists every page number its filter keeps, in increasing
  order. A `None` marks exactly the places where the numbers jump.
- The sitemap sections tile the positive ids. `page_count` sections cover
  every id up to the largest.
- `make_crumbs` yields the ancestor chain, root-most first, with Home first
  when requested. It stops at a root, a missing parent or the depth budget,
  and only there.
- The flash queue is drained once per request and then read from the cache.
- The host name has its port removed. The file-name check rejects exactly
  absolute names and names whose first segment is `..` and that have a
  further segment; the bare name `..` passes it.

## Model

| member | source | states |
|---|---|---|
| Text.PySlice | nereid/helpers.py:472 | Python slice `s[lo:hi]`: never longer than `s`; for a non-negative start it is the run of `s` from `lo`, of length `min(hi, len) - lo` when positive |
| Text.Split | nereid/helpers.py:1035 | `s.split(sep)` has at least one part, and no part contains the separator |
| Text.JoinSplit | nereid/helpers.py:1035 | joining the parts of `s.split(sep)` with `sep` gives back `s` |
| Text.SplitJoin | nereid/helpers.py:1035 | splitting the join of separator-free parts gives back the parts |
| Text.FirstPart | nereid/helpers.py:1035 | `s.split(sep)[0]` is the longest separator-free prefix of `s` |
| Arith.CeilDiv | nereid/helpers.py:536 | `ceil(a / b)` for a positive divisor: zero exactly for `a == 0`, at most 1 when `a <= b` |
| Pagination.Paginator.Count | nereid/helpers.py:460-463 | `count` is the length of `all_items()` |
| Pagination.PageInAllItems | nereid/helpers.py:465-472 | from page 1 on, the current page is the run of `all_items()` that starts at `offset` |
| Pagination.Paginator.PrevNum | nereid/helpers.py:530 | `prev_num` is the page whose offset is one page size before this one's |
| Pagination.Paginator.NextNum | nereid/helpers.py:533 | `next_num` is the page whose offset is one page size after this one's, where this page ends |
| Pagination.Paginator.HasPrev | nereid/helpers.py:531 | for a page from 1 to `pages + 1`, `has_prev` holds exactly when the previous page has items |
| Pagination.Paginator.HasNext | nereid/helpers.py:534 | for a page number of at least 0, `has_next` holds exactly when the next page has items |
| Pagination.Paginator.Offset | nereid/helpers.py:528 | `offset` is non-negative for a page number of at least 1 |
| Pagination.Paginator.Items | nereid/helpers.py:469-472 | `items()` holds at most `per_page` items, each the data item at `offset + k`, and exactly `min(per_page, count - offset)` of them when the offset is inside the data |
| Pagination.Paginator.Pages | nereid/helpers.py:536 | `pages` is 0 exactly for empty data and at most 1 when the data fit in one page |
| Pagination.Paginator.Prev | nereid/helpers.py:481-484 | `prev` is the paginator one page back over the same data and page size |
| Pagination.Paginator.Next | nereid/helpers.py:486-488 | `next` is the paginator one page on over the same data and page size |
| Pagination.Paginator.BeginCount | nereid/helpers.py:538-540 | `begin_count` never exceeds `count`; it is 0 on empty data and 1 on the first page of non-empty data |
| Pagination.Paginator.EndCount | nereid/helpers.py:541-542 | `end_count` never exceeds `count` and is 0 on empty data |
| Pagination.Paginator.IterPages | nereid/helpers.py:492-526 | every number yielded is a page the filter keeps, every kept page is yielded (the first `left_edge` and last `right_edge` pages always), nothing is yielded when `pages == 0`, numbers increase, a `None` stands before a number exactly when it does not follow the previous one, and the strip never ends in `None` |
| Pagination.PageStrip | nereid/helpers.py:517-526 | the loop of `iter_pages` ends with every page number considered: the strip has the shape below and lists exactly the page numbers the filter keeps |
| StripShape.StripAdvances | nereid/helpers.py:518-526 | one round of the loop keeps the strip's invariant: shape, last number kept, and exactly the kept numbers seen so far |
| StripShape.StripDone | nereid/helpers.py:517-526 | once every page is considered, the strip is empty for zero pages, yields only kept pages in `1..pages`, yields every kept page (the edges always), and has the gap-marker shape |
| StripShape.ExtendStrip | nereid/helpers.py:523-526 | appending `None` (when `num` does not follow `last`) and then `num` keeps the gap-marker shape, and `num` becomes the last number |
| Pagination.PagesIsCeiling | nereid/helpers.py:536 | `pages` is the fewest pages that hold every item: `(pages - 1) * per_page < count <= pages * per_page` |
| Pagination.CountsFrameItems | nereid/helpers.py:538-542 | for a page in `1..pages`, `begin_count = offset + 1`, `end_count = offset + len(items())`, the page is non-empty and is `data[begin_count - 1:end_count]` |
| Pagination.PrevPageHasItems | nereid/helpers.py:531 | from page 1 to `pages + 1`, the previous page holds items exactly when `page > 1` |
| Pagination.NextPageHasItems | nereid/helpers.py:534 | from page 0 on, the next page holds items exactly when `page < pages` |
| Pagination.PrevNext | nereid/helpers.py:481-488 | `prev` and `next` undo each other |
| Pagination.PageIsSlice | nereid/helpers.py:469-472 | for a page of at least 1, `items()` is the plain slice of the data between the clamped offsets |
| Pagination.PagesUpToIsPrefix | nereid/helpers.py:469-472 | pages `1..k` read in order are the first `k * per_page` items |
| Pagination.PageSpan | nereid/helpers.py:469-472 | page `k` is the slice of the data from `(k - 1) * per_page` to `k * per_page`, both clamped |
| Pagination.PagesPartitionData | nereid/helpers.py:465-472 | pages `1..pages` read in order are exactly `all_items()` |
| Pagination.EmptyListExample | nereid/helpers.py:424-433 | the docstring's empty-list example: count, pages, begin and end counts are 0 |
| Pagination.NineItemsExample | nereid/helpers.py:435-446 | the docstring's nine-item example: count 9, all items, 3 pages, begin 1, end 3 |
| Pagination.DomainPagination.Count | nereid/helpers.py:573-582 | on the id-list path `count` is the list paginator's count over the ids; otherwise the cached `_count` when set, else the search count |
| Pagination.DomainPagination.Items | nereid/helpers.py:601-609 | on the id-list path `items()` is the list paginator's page over the ids; otherwise the search with the inherited offset, the page size as limit, and the order |
| Pagination.DomainPagination.AllItems | nereid/helpers.py:584-590 | on the id-list path `all_items()` is the id list; otherwise the full search result |
| Pagination.IdsDomainSkipsSearch | nereid/helpers.py:592-609 | `ids_domain()` holds exactly when `items()` does not depend on the search engine: on the id-list path every engine gives the same page, and off it two engines that answer differently give different pages |
| Pagination.DomainPageIsIdPage | nereid/helpers.py:601-605 | on the id-list path, page `k` of the domain paginator is page `k` of the list paginator over the ids |
| Pagination.IdsDomainPagesPartition | nereid/helpers.py:573-609 | on the id-list path, every page of the domain paginator is that page of `all_items()`, and pages `1..pages` read in order give back `all_items()`, whatever the search engine answers |
| Sitemap.PageCount | nereid/helpers.py:806-830 | the number of sitemap sections: absent (the source raises) exactly when the table is empty and `max(id)` is `None`; otherwise 0 exactly when the largest id is 0, and at most 1 when it fits in one batch |
| Sitemap.MinId | nereid/helpers.py:928 | section 1 starts at id 0 and every later section above it |
| Sitemap.MaxId | nereid/helpers.py:929 | a section is `batch_size` ids wide and ends where the next one starts |
| Sitemap.SectionsTile | nereid/helpers.py:928-940 | a positive id passes section `page`'s filter `(min_id, max_id]` iff `page == ceil(id / batch_size)`, so each positive id lies in exactly one section |
| Sitemap.IndexCoversIds | nereid/helpers.py:816-830 | every id from 1 to the largest falls in a listed section, and the last listed section holds the largest id |
| Sitemap.PageCountExamples | nereid/helpers.py:819-828 | the docstring's five `ceil` examples |
| Sitemap.DefaultBatches | nereid/helpers.py:926-929 | with the default batch size 1000: 1000 ids make one section, 1001 make two, an empty table has no page count (the source raises), section 1 is `(0, 1000]` and id 1001 is in section 2 |
| Hosts.GetWebsiteFromHost | nereid/helpers.py:1033-1035 | the result is a colon-free prefix of the host, followed in it by `:` or by nothing |
| Hosts.StripsPort | nereid/helpers.py:1033-1035 | a colon-free name with any port appended gives back the name |
| Hosts.KeepsBareHost | nereid/helpers.py:1033-1035 | a host without a port is kept as is, and the function is idempotent |
| StaticFiles.CheckFilename | nereid/helpers.py:173-175 | a normalised name is refused iff its first `/`-segment is empty (absolute) or `..` with more to follow; an accepted name is kept unchanged |
| StaticFiles.RejectedPrefixes | nereid/helpers.py:174 | the prefix test `startswith(('/', '../'))` is the first-segment test above |
| StaticFiles.AcceptedHasNoParentStep | nereid/helpers.py:172-175 | an accepted normalised name other than `..` has no `..` segment at all, so it stays inside the directory |
| StaticFiles.ParentNameIsAccepted | nereid/helpers.py:174-175 | the bare name `..` passes the prefix test |
| Crumbs.Recurse | nereid/helpers.py:395-407 | `recurse` returns at most as many crumbs as the depth budget left at `level`, and the first is the crumb of `node` itself |
| Crumbs.RecurseWalksChain | nereid/helpers.py:395-407 | `recurse` yields the crumbs of the start and its ancestors, nearest first, within the depth budget; it passes no root and stops only at a root, a missing node or the budget |
| Crumbs.Reversed | nereid/helpers.py:415 | `items.reverse()`: same length, item `k` is item `len - 1 - k` of the input |
| Crumbs.MakeCrumbs | nereid/helpers.py:365-417 | Home first when requested; counted from the end, crumb `i` is the `i`-th ancestor of the record; at most `max_depth` crumbs; no root before the last; the walk stopped for one of its three reasons |
| Crumbs.CrumbsOfWalk | nereid/helpers.py:409-417 | the crumbs after Home number at most `max_depth`; Home is first when requested; the walk stopped at a root, a missing parent or the depth limit |
| Crumbs.CrumbsFollowChain | nereid/helpers.py:409-417 | after the reversal, crumb `len - 1 - i` is that of the `i`-th ancestor of the record |
| Crumbs.CrumbsPassNoRoot | nereid/helpers.py:402-407 | no crumb but the root-most one is a root |
| Crumbs.HomeFirstStartLast | nereid/helpers.py:409-417 | with Home and a present record, Home is first and the record's own crumb is last |
| Flashes.MessagesOf | nereid/helpers.py:145 | `[x[1] for x in flashes]`: the message texts, same length and order |
| Flashes.MessagesOfAppend | nereid/helpers.py:145 | taking the texts commutes with appending to the queue |
| Flashes.RequestContext.Queued | nereid/helpers.py:120-143 | the session queue, with an absent `_flashes` key read as the empty queue |
| Flashes.RequestContext.Flash | nereid/helpers.py:108-120 | `flash` appends `(category, message)` at the end of the session queue, creating it if absent; the request's cache is untouched |
| Flashes.RequestContext.GetFlashedMessages | nereid/helpers.py:123-146 | the first call moves the session queue (or `[]`) into the cache and removes it from the session; later calls change nothing; the result is the cached pairs, or their texts |
| Flashes.FlashThenRead | nereid/helpers.py:108-146 | in one request, repeated reads return the queued messages plus the new one, in order; a message flashed after the first read is not returned and waits in the session |

## Left out

- `url_for`, `secure`, `login_required`, `route`, `template_filter` and the rest of the request machinery. `url_for` is a function parameter of `MakeCrumbs`.
- `send_file` and the `os.path.isfile` test of `send_from_directory`. `posixpath.normpath` is not modelled: `CheckFilename` takes the already normalised name.
- StaticFiles.CheckFilename: accepts the bare name `..`, as the code does. Only the later `isfile` test refuses it, and that test is not part of this model.
- `QueryPagination`, `SphinxPagination`, `SitemapSectionSQL` and the SQL behind `SitemapIndex.count`. `PageCount` takes the result of `SELECT max(id)` as input.
- Sitemap.PageCount: on an empty table `float(None)` raises `TypeError`; the model returns `None` instead of raising.
- Crumbs.MakeCrumbs: `recurse` is Python recursion, so a walk deeper than the interpreter's recursion limit (a long or cyclic chain with a large `max_depth`) raises `RuntimeError`. The model has no recursion limit and returns the walk.
- Crumbs.Recurse: the same recursion limit as `MakeCrumbs` is not modelled.
- Sitemap XML rendering, `slugify`, the reStructuredText filter, `key_from_list` and the other helpers outside pagination, sitemaps, crumbs, flashes, hosts and static files.
- Arith.CeilDiv: `int(ceil(a / float(b)))` is modelled as exact integer division. Floating-point rounding for counts above 2^53 is not modelled.
- Pagination.Paginator.Pages: requires a positive page size. With 0 the source raises `ZeroDivisionError`; a negative page size is not modelled.
- Pagination.Paginator.Prev: models the evidently intended `BasePagination(page - 1, per_page, data)`. As written, the call goes to the subclass constructor `Pagination(obj, domain, page, per_page)` with three arguments. The docstring examples call `Pagination(1, 3, ...)` the same way; `EmptyListExample` and `NineItemsExample` check them for the `BasePagination` they describe.
- Pagination.Paginator.Next: the same as `Prev`, one page on.
- `Pagination.prev`/`Pagination.next`, which call `obj.paginate`. That code is not part of this model.
- Pagination.DomainPagination.Count: the search engine is a parameter. `cached_property` caching is not modelled, since the value does not change within one object.
- Pagination.DomainPagination.Items: records are their ids. `browse` is not modelled.
- Pagination.DomainPagination.AllItems: records are their ids, as for `Items`.
- Domains are flat lists of clauses. Nested and/or domains are not modelled. `WellFormed` states the search engine's rule that the `id in` clause of the id-list path carries a list.
- `make_crumbs`' `field_map_changes` only renames the attributes read. The model reads fixed `uri`, `title` and `parent` fields. Records are a map from id to record, and a missing parent is an id absent from the map or `None`.
- Sessions and request contexts are one `RequestContext` object. Concurrent requests sharing a session are not modelled.
- `unicode(message)` in `flash` is not modelled. Messages are strings already.
