/**
 The pager of the request handler (`getPagingSlice`): the 1-based page of a
 directory listing, at a fixed page size.
 */
module Pager {

  /** `pagingLimit`: entries per page. */
  const PagingLimit := 5

  function Min(a: int, b: int): int {
    if a <= b then a else b
  }

  /**
   The slice expressions of `getPagingSlice` stay within bounds: the page is
   positive and does not start beyond the end of the listing. Outside this the
   Go code panics.
   */
  predicate PageInRange(count: int, pageNum: int) {
    pageNum >= 1 && (pageNum - 1) * PagingLimit <= count
  }

  /**
   The page as a half-open window `[(n-1)*5, n*5)` cut off at the end of the
   listing: at most five entries, exactly five when the window fits, and each one
   the entry at its position in the listing.
   */
  function Page<T>(entries: seq<T>, pageNum: int): (page: seq<T>)
    requires PageInRange(|entries|, pageNum)
    ensures |page| <= PagingLimit
    ensures pageNum * PagingLimit <= |entries| ==> |page| == PagingLimit
    ensures pageNum * PagingLimit > |entries| ==> |page| == |entries| - (pageNum - 1) * PagingLimit
    ensures forall i :: 0 <= i < |page| ==> page[i] == entries[(pageNum - 1) * PagingLimit + i]
  {
    entries[(pageNum - 1) * PagingLimit .. Min(pageNum * PagingLimit, |entries|)]
  }

  /** `getPagingSlice(targetDir, pageNum)`, reassigning `targetDir` on one of two branches. */
  method GetPagingSlice<T>(targetDir: seq<T>, pageNum: int) returns (page: seq<T>)
    requires PageInRange(|targetDir|, pageNum)
    ensures page == Page(targetDir, pageNum)
  {
    page := targetDir;
    var sliceLen := |page|;
    if pageNum * PagingLimit <= sliceLen {
      page := page[(pageNum - 1) * PagingLimit .. pageNum * PagingLimit];
    } else {
      page := page[(pageNum - 1) * PagingLimit .. sliceLen];
    }
  }

  /**
   The accepted page numbers are 1 through `count / 5 + 1`; the last of these is
   empty when the count is a multiple of five.
   */
  lemma PageRange(count: nat, pageNum: int)
    ensures PageInRange(count, pageNum) <==> 1 <= pageNum <= count / PagingLimit + 1
  {
    if 1 <= pageNum {
      var q, m := count / PagingLimit, count % PagingLimit;
      assert count == PagingLimit * q + m && 0 <= m < PagingLimit;
      if (pageNum - 1) * PagingLimit <= count {
        assert pageNum - 1 <= q;
      }
      if pageNum - 1 <= q {
        assert (pageNum - 1) * PagingLimit <= q * PagingLimit;
      }
    }
  }

  /** Pages 1 through `k`, one after another. */
  function FirstPages<T>(entries: seq<T>, k: nat): seq<T>
    requires k == 0 || PageInRange(|entries|, k)
  {
    if k == 0 then [] else FirstPages(entries, k - 1) + Page(entries, k)
  }

  /** The first `k` pages together are the first `5k` entries (or all of them): nothing is skipped or repeated. */
  lemma {:induction false} FirstPagesArePrefix<T>(entries: seq<T>, k: nat)
    requires k == 0 || PageInRange(|entries|, k)
    ensures FirstPages(entries, k) == entries[..Min(k * PagingLimit, |entries|)]
  {
    if k > 0 {
      assert k - 1 == 0 || PageInRange(|entries|, k - 1);
      FirstPagesArePrefix(entries, k - 1);
      var lo := (k - 1) * PagingLimit;
      assert Min(lo, |entries|) == lo;
      assert entries[..lo] + entries[lo .. Min(k * PagingLimit, |entries|)]
          == entries[..Min(k * PagingLimit, |entries|)];
    }
  }

  /** Every entry appears on page `j / 5 + 1`, at position `j % 5`. */
  lemma EntryOnItsPage<T>(entries: seq<T>, j: int)
    requires 0 <= j < |entries|
    ensures PageInRange(|entries|, j / PagingLimit + 1)
    ensures j % PagingLimit < |Page(entries, j / PagingLimit + 1)|
    ensures Page(entries, j / PagingLimit + 1)[j % PagingLimit] == entries[j]
  {
    var q, m := j / PagingLimit, j % PagingLimit;
    assert j == q * PagingLimit + m;
  }

  /** Twelve entries: page 1 is the first five, page 3 the last two, page 4 is past the end. */
  lemma TwelveEntries<T>(entries: seq<T>)
    requires |entries| == 12
    ensures Page(entries, 1) == entries[0..5]
    ensures Page(entries, 3) == entries[10..12]
    ensures !PageInRange(|entries|, 4)
  {
  }
}
