/**
 * The pagination service used by the course listing: given an ordered
 * collection and an optional page number and page size, it computes the
 * window of items for that page and the metadata describing it.
 *
 * A service instance fixes its page and page size once, at construction,
 * and `paginate` only reads them, so the instance is a value here and every
 * operation a function of it.
 */
module Pagination {
  import opened Wrappers

  const DefaultPage: int := 1
  const DefaultPerPage: int := 10
  const MaxPerPage: int := 100

  /** The state of a service instance: the collection and the effective page and page size. */
  datatype Service<T> = Service(collection: seq<T>, page: int, perPage: int)

  /** The `pagination` part of the answer. */
  datatype Meta = Meta(
    page: int,
    perPage: int,
    totalCount: nat,
    totalPages: nat,
    hasNext: bool,
    hasPrev: bool)

  /** The answer of `paginate`: the items of the page and the metadata. */
  datatype PageResult<T> = PageResult(data: seq<T>, pagination: Meta)

  /**
   * Why `paginate` gives no answer in the model. A page size of zero makes the
   * float division of the page count produce Infinity or NaN, whose ceiling
   * raises. A page below 1 or a negative page size yields a negative offset or
   * limit, whose meaning depends on the database.
   */
  datatype Failure = ZeroPerPage | WindowOutsideModel

  function Min(a: int, b: int): int
  {
    if a <= b then a else b
  }

  /** Construction: defaults for absent parameters, and the upper clamp on the page size. */
  function New<T>(collection: seq<T>, page: Option<int>, perPage: Option<int>): (s: Service<T>)
    ensures s.collection == collection
    ensures page.None? ==> s.page == DefaultPage
    ensures page.Some? ==> s.page == page.value
    ensures perPage.None? ==> s.perPage == DefaultPerPage
    ensures s.perPage <= MaxPerPage
    ensures perPage.Some? && perPage.value <= MaxPerPage ==> s.perPage == perPage.value
    ensures perPage.Some? && perPage.value > MaxPerPage ==> s.perPage == MaxPerPage
  {
    Service(collection, page.GetOr(DefaultPage), Min(perPage.GetOr(DefaultPerPage), MaxPerPage))
  }

  /** A service whose window the model describes: page and page size at least 1. */
  predicate Valid<T>(s: Service<T>)
  {
    s.page >= 1 && s.perPage >= 1
  }

  /** `r` is the ceiling of count / perPage: the fewest pages of perPage items that hold count items. */
  ghost predicate IsCeiling(r: int, count: nat, perPage: int)
    requires perPage >= 1
  {
    (r - 1) * perPage < count <= r * perPage
  }

  lemma CeilDivIsCeiling(count: nat, perPage: int)
    requires perPage >= 1
    ensures (count + perPage - 1) / perPage >= 0
    ensures IsCeiling((count + perPage - 1) / perPage, count, perPage)
  {
    var q, m := (count + perPage - 1) / perPage, (count + perPage - 1) % perPage;
    assert count + perPage - 1 == q * perPage + m && 0 <= m < perPage;
    assert q * perPage == count + perPage - 1 - m;
    assert (q - 1) * perPage == q * perPage - perPage;
  }

  /** The number of pages: the ceiling of the item count over the page size. */
  function TotalPages(count: nat, perPage: int): (r: nat)
    requires perPage >= 1
    ensures IsCeiling(r, count, perPage)
    ensures r == 0 <==> count == 0
  {
    CeilDivIsCeiling(count, perPage);
    (count + perPage - 1) / perPage
  }

  /** Multiplying by a non-negative page size keeps the order of page numbers. */
  lemma MulMonotonic(a: int, b: int, perPage: int)
    requires a <= b && perPage >= 0
    ensures a * perPage <= b * perPage
  {
    var d := b - a;
    assert d * perPage >= 0;
    assert b * perPage == a * perPage + d * perPage;
  }

  /** The ceiling is unique, so TotalPages is exactly ceil(count / perPage). */
  lemma TotalPagesIsTheCeiling(count: nat, perPage: int, r: int)
    requires perPage >= 1
    requires IsCeiling(r, count, perPage)
    ensures r == TotalPages(count, perPage)
  {
    var t := TotalPages(count, perPage);
    if r < t {
      MulMonotonic(r, t - 1, perPage);
    } else if r > t {
      MulMonotonic(t, r - 1, perPage);
    }
  }

  /** The number of items skipped before the page. */
  function Offset<T>(s: Service<T>): (r: int)
    requires Valid(s)
    ensures r >= 0
  {
    MulMonotonic(0, s.page - 1, s.perPage);
    (s.page - 1) * s.perPage
  }

  function TotalCount<T>(s: Service<T>): nat
  {
    |s.collection|
  }

  /** `next?`: a page after this one exists. */
  predicate HasNext<T>(s: Service<T>)
    requires s.perPage >= 1
  {
    s.page < TotalPages(TotalCount(s), s.perPage)
  }

  /** `prev?`: a page before this one exists. */
  predicate HasPrev<T>(s: Service<T>)
  {
    s.page > 1
  }

  /**
   * `paginate`: the items from the offset on, at most a page size of them,
   * and the metadata. A page past the end holds fewer items, or none.
   */
  function Paginate<T>(s: Service<T>): (r: Result<PageResult<T>, Failure>)
    ensures r.Success? <==> Valid(s)
    ensures s.perPage == 0 ==> r == Failure(ZeroPerPage)
    ensures r.Success? ==> |r.value.data| <= s.perPage
    ensures r.Success? ==>
      forall i :: 0 <= i < |r.value.data| ==>
        Offset(s) + i < |s.collection| && r.value.data[i] == s.collection[Offset(s) + i]
    ensures r.Success? ==>
      |r.value.data| == if Offset(s) >= |s.collection| then 0 else Min(s.perPage, |s.collection| - Offset(s))
    ensures r.Success? ==>
      && r.value.pagination.page == s.page
      && r.value.pagination.perPage == s.perPage
      && r.value.pagination.totalCount == |s.collection|
      && IsCeiling(r.value.pagination.totalPages, |s.collection|, s.perPage)
      && (r.value.pagination.hasNext <==> s.page < r.value.pagination.totalPages)
      && (r.value.pagination.hasPrev <==> s.page > 1)
  {
    if s.perPage == 0 then
      Failure(ZeroPerPage)
    else if !Valid(s) then
      Failure(WindowOutsideModel)
    else
      var n := |s.collection|;
      var offset := Offset(s);
      var lo, hi := Min(offset, n), Min(offset + s.perPage, n);
      Success(PageResult(
        s.collection[lo..hi],
        Meta(s.page, s.perPage, TotalCount(s), TotalPages(n, s.perPage), HasNext(s), HasPrev(s))))
  }

  /** The items of page `page` of `c` at page size `perPage`. */
  function PageData<T>(c: seq<T>, page: int, perPage: int): seq<T>
    requires page >= 1 && perPage >= 1
  {
    Paginate(Service(c, page, perPage)).value.data
  }

  /** A page holds items exactly when its number is between 1 and the page count. */
  lemma NonEmptyIffWithinTotalPages<T>(s: Service<T>)
    requires Valid(s)
    ensures Paginate(s).value.data != [] <==> s.page <= TotalPages(|s.collection|, s.perPage)
  {
    var n, t := |s.collection|, TotalPages(|s.collection|, s.perPage);
    if s.page <= t {
      MulMonotonic(s.page - 1, t - 1, s.perPage);
    } else {
      MulMonotonic(t, s.page - 1, s.perPage);
    }
  }

  /** `has_next` holds exactly when the following page holds items. */
  lemma HasNextIffNextPageNonEmpty<T>(s: Service<T>)
    requires Valid(s)
    ensures Paginate(s).value.pagination.hasNext <==> PageData(s.collection, s.page + 1, s.perPage) != []
  {
    NonEmptyIffWithinTotalPages(Service(s.collection, s.page + 1, s.perPage));
  }

  /** On a page between 1 and the page count, the item count is min(perPage, total - offset). */
  lemma PageSizeWithinRange<T>(s: Service<T>)
    requires Valid(s) && s.page <= TotalPages(|s.collection|, s.perPage)
    ensures |Paginate(s).value.data| == Min(s.perPage, |s.collection| - Offset(s))
    ensures |Paginate(s).value.data| > 0
  {
    NonEmptyIffWithinTotalPages(s);
  }

  /** Pages 1 to k, one after the other. */
  function PagesUpTo<T>(c: seq<T>, perPage: int, k: nat): seq<T>
    requires perPage >= 1
  {
    if k == 0 then [] else PagesUpTo(c, perPage, k - 1) + PageData(c, k, perPage)
  }

  /** Page k is the slice from the offset of page k to the offset of page k + 1, cut at the end of the collection. */
  lemma PageDataIsSlice<T>(c: seq<T>, k: int, perPage: int)
    requires k >= 1 && perPage >= 1
    ensures 0 <= (k - 1) * perPage
    ensures PageData(c, k, perPage) == c[Min((k - 1) * perPage, |c|)..Min((k - 1) * perPage + perPage, |c|)]
  {
    MulMonotonic(0, k - 1, perPage);
  }

  lemma NextOffset(k: int, perPage: int)
    ensures k * perPage == (k - 1) * perPage + perPage
  {
  }

  lemma AppendSlice<T>(c: seq<T>, prefix: seq<T>, slice: seq<T>, before: int, after: int)
    requires 0 <= before <= after <= |c|
    requires prefix == c[..before] && slice == c[before..after]
    ensures prefix + slice == c[..after]
  {
    assert c[..before] + c[before..after] == c[..after];
  }

  /** Pages 1 to k, put together, are the collection up to `end`, the offset of page k + 1. */
  lemma {:induction false} PagesUpToIsPrefix<T>(c: seq<T>, perPage: int, k: nat, end: int)
    requires perPage >= 1 && end == k * perPage
    ensures end >= 0
    ensures PagesUpTo(c, perPage, k) == c[..Min(end, |c|)]
  {
    if k == 0 {
      assert end == 0;
    } else {
      var lo := (k - 1) * perPage;
      NextOffset(k, perPage);
      PagesUpToIsPrefix(c, perPage, k - 1, lo);
      PageDataIsSlice(c, k, perPage);
      AppendSlice(c, PagesUpTo(c, perPage, k - 1), PageData(c, k, perPage), Min(lo, |c|), Min(end, |c|));
    }
  }

  /** The pages 1 to the page count, put together, are the whole collection: nothing skipped, nothing repeated. */
  lemma PagesCoverCollection<T>(c: seq<T>, perPage: int)
    requires perPage >= 1
    ensures PagesUpTo(c, perPage, TotalPages(|c|, perPage)) == c
  {
    var t := TotalPages(|c|, perPage);
    PagesUpToIsPrefix(c, perPage, t, t * perPage);
  }

  /** Default request over 25 items: page 1 of 3, 10 items, a next page and no previous one. */
  lemma DefaultRequestOverTwentyFive<T>(c: seq<T>)
    requires |c| == 25
    ensures var r := Paginate(New(c, None, None));
      && r.Success?
      && |r.value.data| == 10
      && r.value.pagination == Meta(1, 10, 25, 3, true, false)
  {
  }

  /** Page 2 at size 5 over 25 items: 5 items, 5 pages, both neighbours. */
  lemma SecondPageOfFiveOverTwentyFive<T>(c: seq<T>)
    requires |c| == 25
    ensures var r := Paginate(New(c, Some(2), Some(5)));
      && r.Success?
      && |r.value.data| == 5
      && r.value.pagination == Meta(2, 5, 25, 5, true, true)
  {
  }

  /** Page 3 at size 10 over 25 items: the last 5 items, no next page. */
  lemma LastPageOverTwentyFive<T>(c: seq<T>)
    requires |c| == 25
    ensures var r := Paginate(New(c, Some(3), Some(10)));
      && r.Success?
      && r.value.data == c[20..]
      && r.value.pagination == Meta(3, 10, 25, 3, false, true)
  {
  }

  /** An empty collection: no items, no pages, no neighbours. */
  lemma EmptyCollection<T>(c: seq<T>)
    requires c == []
    ensures var r := Paginate(New(c, None, None));
      && r.Success?
      && r.value.data == []
      && r.value.pagination == Meta(1, 10, 0, 0, false, false)
  {
  }

  /** A page size of 150 is clamped to exactly 100. */
  lemma PerPageClampedToHundred<T>(c: seq<T>, page: Option<int>)
    ensures New(c, page, Some(150)).perPage == 100
  {
  }
}
