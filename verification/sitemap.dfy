/**
 * The batching of the sitemap: `SitemapIndex` lists one section per batch
 * of record ids, and `SitemapSection` number `page` covers the ids in the
 * half-open window `(min_id, max_id]`.
 */
module Sitemap {
  import opened Arith
  import opened Wrappers

  /** `SitemapIndex.batch_size` and `SitemapSection.batch_size`. */
  const BatchSize := 1000

  /**
   * `SitemapIndex.page_count`: `ceil(count / batch_size)`, where `count`
   * is `SELECT max(id)` over the model's table. On an empty table that is
   * `None`, and `float(None)` raises: the model answers `None`.
   */
  function PageCount(maxId: Option<nat>, batchSize: int): (r: Option<nat>)
    requires batchSize > 0
    ensures r.None? <==> maxId.None?
    ensures maxId.Some? ==> (r.value == 0 <==> maxId.value == 0)
    ensures maxId.Some? && maxId.value <= batchSize ==> r.value <= 1
  {
    if maxId.None? then None else Some(CeilDiv(maxId.value, batchSize))
  }

  /** `SitemapSection.min_id`: section 1 starts at 0, every later one above it. */
  function MinId(page: int, batchSize: int): (r: int)
    ensures page >= 1 && batchSize > 0 ==> r >= 0 && (r == 0 <==> page == 1)
  {
    (page - 1) * batchSize
  }

  /**
   * `SitemapSection.max_id`: a section is `batch_size` ids wide and ends
   * where the next one starts.
   */
  function MaxId(page: int, batchSize: int): (r: int)
    ensures r - MinId(page, batchSize) == batchSize
    ensures r == MinId(page + 1, batchSize)
  {
    MinId(page, batchSize) + batchSize
  }

  /** The id filter `[('id', '>', min_id), ('id', '<=', max_id)]` of a section. */
  predicate InSection(id: int, page: int, batchSize: int) {
    MinId(page, batchSize) < id <= MaxId(page, batchSize)
  }

  /**
   * The sections tile the positive ids: a positive id passes the filter of
   * exactly one section, the one numbered `ceil(id / batch_size)`.
   */
  lemma SectionsTile(id: int, page: int, batchSize: int)
    requires batchSize > 0 && id >= 1
    ensures InSection(id, page, batchSize) <==> page == CeilDiv(id, batchSize)
  {
    NextMultiple(page, batchSize);
    CeilDivBrackets(id, batchSize);
    if InSection(id, page, batchSize) {
      CeilDivUnique(id, batchSize, page);
    }
  }

  /**
   * The index lists enough sections and no more: every id up to the
   * largest falls in a listed section, and the last listed section holds
   * the largest id.
   */
  lemma IndexCoversIds(maxId: nat, batchSize: int)
    requires batchSize > 0
    ensures forall id :: 1 <= id <= maxId ==> 1 <= CeilDiv(id, batchSize) <= PageCount(Some(maxId), batchSize).value
    ensures maxId > 0 ==> InSection(maxId, PageCount(Some(maxId), batchSize).value, batchSize)
  {
    forall id | 1 <= id <= maxId
      ensures CeilDiv(id, batchSize) <= PageCount(Some(maxId), batchSize).value
    {
      CeilDivBrackets(id, batchSize);
      CeilDivBrackets(maxId, batchSize);
      MulLess(CeilDiv(maxId, batchSize), CeilDiv(id, batchSize) - 1, batchSize);
    }
  }

  /** The examples of the `page_count` docstring, which divide by 50000. */
  lemma PageCountExamples()
    ensures PageCount(Some(1), 50000) == Some(1)
    ensures PageCount(Some(50000), 50000) == Some(1)
    ensures PageCount(Some(50001), 50000) == Some(2)
    ensures PageCount(Some(100000), 50000) == Some(2)
    ensures PageCount(Some(100001), 50000) == Some(3)
  {
  }

  /**
   * With the default batch size of 1000, ids 1 to 1000 are in section 1,
   * id 1001 opens section 2, and an empty table has no page count.
   */
  lemma DefaultBatches()
    ensures PageCount(Some(1000), BatchSize) == Some(1)
    ensures PageCount(Some(1001), BatchSize) == Some(2)
    ensures PageCount(None, BatchSize) == None
    ensures MinId(1, BatchSize) == 0 && MaxId(1, BatchSize) == 1000
    ensures InSection(1001, 2, BatchSize)
  {
  }
}
