/**
 * The shape of the page strip that `iter_pages` yields: which page numbers
 * it lists, where the `None` gap markers go, and the loop invariant that
 * builds it one page number at a time.
 */
module StripShape {
  import opened Wrappers

  /** The loop invariant of `Pagination.PageStrip` before page `num` is considered. */
  ghost predicate StripSoFar(strip: seq<Option<int>>, last: int, num: int, page: int, pages: int,
                             leftEdge: int, leftCurrent: int, rightCurrent: int, rightEdge: int)
  {
    last < num && EndsWith(strip, last) && GapsMarked(strip) &&
    Lists(strip, num, page, pages, leftEdge, leftCurrent, rightCurrent, rightEdge)
  }

  /** Before the loop, the empty strip lists no page and has the right shape. */
  lemma StripStarts(page: int, pages: int, leftEdge: int, leftCurrent: int, rightCurrent: int, rightEdge: int)
    ensures StripSoFar([], 0, 1, page, pages, leftEdge, leftCurrent, rightCurrent, rightEdge)
  {
  }

  /** One round of the loop: page `num` is added when shown, and the invariant moves on. */
  lemma StripAdvances(before: seq<Option<int>>, after: seq<Option<int>>, last: int, newLast: int, num: int, shown: bool,
                      page: int, pages: int, leftEdge: int, leftCurrent: int, rightCurrent: int, rightEdge: int)
    requires num >= 1
    requires StripSoFar(before, last, num, page, pages, leftEdge, leftCurrent, rightCurrent, rightEdge)
    requires shown == Shown(num, page, pages, leftEdge, leftCurrent, rightCurrent, rightEdge)
    requires !shown ==> after == before && newLast == last
    requires shown ==> after == (if last + 1 != num then before + [None] else before) + [Some(num)] && newLast == num
    ensures StripSoFar(after, newLast, num + 1, page, pages, leftEdge, leftCurrent, rightCurrent, rightEdge)
  {
    if shown {
      assert after == before + Step(last, num);
      ExtendStrip(before, last, num);
      ExtendLists(before, last, num, page, pages, leftEdge, leftCurrent, rightCurrent, rightEdge);
    } else {
      SkipLists(before, num, page, pages, leftEdge, leftCurrent, rightCurrent, rightEdge);
    }
  }

  /** When the loop has passed the last page, the strip is complete. */
  lemma StripDone(strip: seq<Option<int>>, last: int, page: int, pages: int,
                  leftEdge: int, leftCurrent: int, rightCurrent: int, rightEdge: int)
    requires StripSoFar(strip, last, pages + 1, page, pages, leftEdge, leftCurrent, rightCurrent, rightEdge)
    ensures pages == 0 ==> strip == []
    ensures forall i :: 0 <= i < |strip| && strip[i].Some? ==>
      1 <= strip[i].value <= pages && Shown(strip[i].value, page, pages, leftEdge, leftCurrent, rightCurrent, rightEdge)
    ensures forall num :: 1 <= num <= pages && Shown(num, page, pages, leftEdge, leftCurrent, rightCurrent, rightEdge) ==>
      Some(num) in strip
    ensures forall num :: 1 <= num <= pages && (num <= leftEdge || num > pages - rightEdge) ==>
      Some(num) in strip
    ensures GapsMarked(strip)
  {
  }

  /** The condition under which `iter_pages` shows page `num`. */
  predicate Shown(num: int, page: int, pages: int,
                  leftEdge: int, leftCurrent: int, rightCurrent: int, rightEdge: int)
  {
    num <= leftEdge ||
    (num > page - leftCurrent - 1 && num < page + rightCurrent) ||
    num > pages - rightEdge
  }

  /**
   * The strip holds exactly the shown page numbers below `upto`, each of
   * them at least 1.
   */
  ghost predicate Lists(strip: seq<Option<int>>, upto: int, page: int, pages: int,
                  leftEdge: int, leftCurrent: int, rightCurrent: int, rightEdge: int)
  {
    (forall i :: 0 <= i < |strip| && strip[i].Some? ==>
       1 <= strip[i].value < upto && Shown(strip[i].value, page, pages, leftEdge, leftCurrent, rightCurrent, rightEdge)) &&
    (forall n :: 1 <= n < upto && Shown(n, page, pages, leftEdge, leftCurrent, rightCurrent, rightEdge) ==>
       Some(n) in strip)
  }

  /** Moving past a page that is not shown keeps the listing exact. */
  lemma SkipLists(strip: seq<Option<int>>, num: int, page: int, pages: int,
                  leftEdge: int, leftCurrent: int, rightCurrent: int, rightEdge: int)
    requires Lists(strip, num, page, pages, leftEdge, leftCurrent, rightCurrent, rightEdge)
    requires !Shown(num, page, pages, leftEdge, leftCurrent, rightCurrent, rightEdge)
    ensures Lists(strip, num + 1, page, pages, leftEdge, leftCurrent, rightCurrent, rightEdge)
  {
  }

  /** Adding one that is shown keeps the listing exact. */
  lemma ExtendLists(strip: seq<Option<int>>, last: int, num: int, page: int, pages: int,
                    leftEdge: int, leftCurrent: int, rightCurrent: int, rightEdge: int)
    requires num >= 1
    requires Lists(strip, num, page, pages, leftEdge, leftCurrent, rightCurrent, rightEdge)
    requires Shown(num, page, pages, leftEdge, leftCurrent, rightCurrent, rightEdge)
    ensures Lists(strip + Step(last, num), num + 1, page, pages, leftEdge, leftCurrent, rightCurrent, rightEdge)
  {
    var next := strip + Step(last, num);
    forall n | 1 <= n < num + 1 && Shown(n, page, pages, leftEdge, leftCurrent, rightCurrent, rightEdge)
      ensures Some(n) in next
    {
      if n < num {
        assert Some(n) in strip;
      } else {
        assert next[|next| - 1] == Some(n);
      }
    }
  }

  /**
   * The shape of a page strip: the numbers increase; every `None` is
   * followed by a number; a number directly follows 1 less than itself
   * (or starts the strip as 1) and a number after a `None` does not.
   */
  ghost predicate GapsMarked(strip: seq<Option<int>>) {
    Increasing(strip) && NoneBeforeNumber(strip) && StartsAtOne(strip) &&
    RunsConsecutive(strip) && GapsSkip(strip)
  }

  ghost predicate Increasing(strip: seq<Option<int>>) {
    forall i, j :: 0 <= i < j < |strip| && strip[i].Some? && strip[j].Some? ==>
      strip[i].value < strip[j].value
  }

  ghost predicate NoneBeforeNumber(strip: seq<Option<int>>) {
    (|strip| > 0 ==> strip[|strip| - 1].Some?) &&
    (forall i, j :: 0 <= i && j == i + 1 < |strip| && strip[i].None? ==> strip[j].Some?)
  }

  ghost predicate StartsAtOne(strip: seq<Option<int>>) {
    (|strip| > 0 && strip[0].Some? ==> strip[0].value == 1) &&
    (|strip| > 1 && strip[0].None? ==> strip[1] != Some(1))
  }

  ghost predicate RunsConsecutive(strip: seq<Option<int>>) {
    forall i, j :: 0 <= i && j == i + 1 < |strip| && strip[i].Some? && strip[j].Some? ==>
      strip[j].value == strip[i].value + 1
  }

  ghost predicate GapsSkip(strip: seq<Option<int>>) {
    forall i, j, k :: 0 <= i && j == i + 1 && k == j + 1 < |strip| && strip[j].None? ==>
      strip[i].Some? && strip[k] != Some(strip[i].value + 1)
  }

  /** What one shown page adds to the strip, given the last page shown (0 for none). */
  function Step(last: int, num: int): seq<Option<int>> {
    if last + 1 != num then [None, Some(num)] else [Some(num)]
  }

  /** The strip so far ends with `last`, the largest number in it (0 when it is empty). */
  ghost predicate EndsWith(strip: seq<Option<int>>, last: int) {
    ((strip == [] && last == 0) || (|strip| > 0 && strip[|strip| - 1] == Some(last) && 1 <= last)) &&
    (forall i :: 0 <= i < |strip| && strip[i].Some? ==> 1 <= strip[i].value <= last)
  }

  /** Adding a page beyond the last one keeps the strip's shape. */
  lemma ExtendStrip(strip: seq<Option<int>>, last: int, num: int)
    requires GapsMarked(strip) && EndsWith(strip, last) && last < num
    ensures GapsMarked(strip + Step(last, num))
    ensures EndsWith(strip + Step(last, num), num)
  {
    ExtendEnds(strip, last, num);
    ExtendIncreasing(strip, last, num);
    ExtendNoneBeforeNumber(strip, last, num);
    ExtendRuns(strip, last, num);
    ExtendGaps(strip, last, num);
  }

  /** After the step for `num`, the strip ends with `num`, its new largest number. */
  lemma ExtendEnds(strip: seq<Option<int>>, last: int, num: int)
    requires EndsWith(strip, last) && last < num
    ensures EndsWith(strip + Step(last, num), num)
  {
    var t := strip + Step(last, num);
    assert t[|t| - 1] == Some(num);
    forall i | 0 <= i < |t| && t[i].Some?
      ensures 1 <= t[i].value <= num
    {
      if i < |strip| { assert t[i] == strip[i]; }
    }
  }

  lemma ExtendIncreasing(strip: seq<Option<int>>, last: int, num: int)
    requires Increasing(strip) && EndsWith(strip, last) && last < num
    ensures Increasing(strip + Step(last, num))
  {
    var t := strip + Step(last, num);
    forall i, j | 0 <= i < j < |t| && t[i].Some? && t[j].Some?
      ensures t[i].value < t[j].value
    {
      if j >= |strip| {
        assert t[j] == Some(num);
        if i < |strip| { assert t[i] == strip[i]; }
      } else {
        assert t[i] == strip[i] && t[j] == strip[j];
      }
    }
  }

  lemma ExtendNoneBeforeNumber(strip: seq<Option<int>>, last: int, num: int)
    requires NoneBeforeNumber(strip) && EndsWith(strip, last)
    ensures NoneBeforeNumber(strip + Step(last, num))
  {
    var t := strip + Step(last, num);
    forall i | 0 <= i < |t| && t[i].None?
      ensures i + 1 < |t| && t[i + 1].Some?
    {
      if i < |strip| {
        assert t[i] == strip[i];
        if i + 1 < |strip| { assert t[i + 1] == strip[i + 1]; }
      }
    }
  }

  lemma ExtendRuns(strip: seq<Option<int>>, last: int, num: int)
    requires RunsConsecutive(strip) && StartsAtOne(strip) && EndsWith(strip, last) && last < num
    ensures RunsConsecutive(strip + Step(last, num)) && StartsAtOne(strip + Step(last, num))
  {
    var t := strip + Step(last, num);
    forall i | 0 < i < |t| && t[i - 1].Some? && t[i].Some?
      ensures t[i].value == t[i - 1].value + 1
    {
      if i < |strip| {
        assert t[i - 1] == strip[i - 1] && t[i] == strip[i];
      } else {
        assert i == |strip| && t[i - 1] == Some(last);
      }
    }
    if |strip| > 0 {
      assert t[0] == strip[0];
      if |strip| > 1 { assert t[1] == strip[1]; }
    }
  }

  lemma ExtendGaps(strip: seq<Option<int>>, last: int, num: int)
    requires GapsSkip(strip) && NoneBeforeNumber(strip) && EndsWith(strip, last) && last < num
    ensures GapsSkip(strip + Step(last, num))
  {
    var t := strip + Step(last, num);
    forall i | 0 < i < |t| - 1 && t[i].None?
      ensures t[i - 1].Some? && t[i + 1] != Some(t[i - 1].value + 1)
    {
      if i < |strip| {
        assert t[i] == strip[i] && t[i - 1] == strip[i - 1];
        if i + 1 < |strip| { assert t[i + 1] == strip[i + 1]; }
      } else {
        assert i == |strip| && t[i - 1] == Some(last);
      }
    }
  }
}
