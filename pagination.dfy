/**
 * The pagination arithmetic of `NewsController.getNews`
 * (controller/news.controller.js, lines 16-33): raw query values become a page,
 * a limit, a skip offset and a total page count.
 */
module Pagination {
  import opened Wrappers

  /** The message of the TypeError that a reassignment of a `const` binding throws. */
  const CONST_ASSIGNMENT: string := "Assignment to constant variable."

  /** The largest limit the handler accepts without touching its `const` binding. */
  const MAX_LIMIT: int := 100

  /** The normalised pagination of one listing request. */
  datatype Paging = Paging(page: int, limit: int, skip: int, totalPages: int)

  /**
   * `Number(raw) || 1`: a raw value that is absent or not a number (`NaN`) or
   * zero is falsy and becomes 1; any other number is kept, negative ones too.
   */
  function OrOne(raw: Option<int>): (r: int)
    ensures r != 0
    ensures raw.Some? && raw.value != 0 ==> r == raw.value
    ensures raw.None? || raw.value == 0 ==> r == 1
  {
    match raw
    case None => 1
    case Some(n) => if n == 0 then 1 else n
  }

  /**
   * `Math.ceil(n / d)` for a non-negative count and a positive divisor,
   * characterised as the least `r` with `n <= r * d`.
   */
  function CeilDiv(n: nat, d: int): (r: nat)
    requires d > 0
    ensures n <= r * d
    ensures (r - 1) * d < n
  {
    var q := (n + d - 1) / d;
    assert q * d + (n + d - 1) % d == n + d - 1;
    q
  }

  /** A raw page passes the guard at line 20 exactly when it is absent, `NaN` or non-negative. */
  predicate PageAccepted(rawPage: Option<int>)
    ensures PageAccepted(rawPage) <==> OrOne(rawPage) >= 1
  {
    rawPage.None? || rawPage.value >= 0
  }

  /** A raw limit passes the guard at line 24 exactly when it is absent, `NaN` or in 0..100. */
  predicate LimitAccepted(rawLimit: Option<int>)
    ensures LimitAccepted(rawLimit) <==> 1 <= OrOne(rawLimit) <= MAX_LIMIT
  {
    rawLimit.None? || 0 <= rawLimit.value <= MAX_LIMIT
  }

  /**
   * Lines 16-33. `page` and `limit` are `const`, so the "corrections" at lines 21
   * and 25 throw instead of assigning: a negative page, or a negative limit or one
   * above 100, ends in a TypeError. `count` is the number of stored records.
   */
  function Paginate(rawPage: Option<int>, rawLimit: Option<int>, count: nat): (r: Result<Paging, string>)
    ensures r.Success? <==> PageAccepted(rawPage) && LimitAccepted(rawLimit)
    ensures r.Failure? ==> r.error == CONST_ASSIGNMENT
    ensures r.Success? ==>
      && r.value.page == OrOne(rawPage) >= 1
      && r.value.limit == OrOne(rawLimit)
      && 1 <= r.value.limit <= MAX_LIMIT
      && r.value.skip == (r.value.page - 1) * r.value.limit >= 0
      && count <= r.value.totalPages * r.value.limit
      && (r.value.totalPages - 1) * r.value.limit < count
  {
    var page := OrOne(rawPage);
    var limit := OrOne(rawLimit);
    if page <= 0 then Failure(CONST_ASSIGNMENT)
    else if limit <= 0 || limit > MAX_LIMIT then Failure(CONST_ASSIGNMENT)
    else Success(Paging(page, limit, (page - 1) * limit, CeilDiv(count, limit)))
  }

  /** An empty collection has no pages at all, whatever the limit. */
  lemma NoRecordsNoPages(rawPage: Option<int>, rawLimit: Option<int>)
    requires Paginate(rawPage, rawLimit, 0).Success?
    ensures Paginate(rawPage, rawLimit, 0).value.totalPages == 0
  {
    CeilDivOfZero(OrOne(rawLimit));
  }

  lemma CeilDivOfZero(d: int)
    requires d > 0
    ensures CeilDiv(0, d) == 0
  {
    assert (d - 1) / d == 0;
  }

  /**
   * A missing or zero limit falls back to 1 (not 10): with no query at all every
   * record gets a page of its own.
   */
  lemma DefaultLimitIsOne(rawPage: Option<int>, rawLimit: Option<int>, count: nat)
    requires PageAccepted(rawPage)
    requires rawLimit.None? || rawLimit.value == 0
    ensures Paginate(rawPage, rawLimit, count).Success?
    ensures Paginate(rawPage, rawLimit, count).value.limit == 1
    ensures Paginate(rawPage, rawLimit, count).value.totalPages == count
  {
  }

  /**
   * Every record position `i` lies on exactly one page between 1 and `totalPages`:
   * the page `i / limit + 1`.
   */
  lemma PageOfPosition(count: nat, limit: int, i: int)
    requires 1 <= limit
    requires 0 <= i < count
    ensures 1 <= i / limit + 1 <= CeilDiv(count, limit)
    ensures (i / limit) * limit <= i < (i / limit + 1) * limit
    ensures forall p :: (p - 1) * limit <= i < p * limit ==> p == i / limit + 1
  {
    var q := i / limit;
    DivBounds(i, limit);
    var t := CeilDiv(count, limit);
    if q + 1 > t {
      MulMonotone(t, q, limit);
    }
    forall p | (p - 1) * limit <= i < p * limit
      ensures p == q + 1
    {
      if p < q + 1 {
        MulMonotone(p, q, limit);
      } else if p > q + 1 {
        MulMonotone(q + 1, p - 1, limit);
      }
    }
  }

  lemma DivBounds(i: int, d: int)
    requires d >= 1
    ensures (i / d) * d <= i < (i / d + 1) * d
  {
    assert (i / d) * d + i % d == i;
    assert (i / d + 1) * d == (i / d) * d + d;
  }

  /** A page past `totalPages` starts at or after the last record, so it lists nothing. */
  lemma PastLastPage(count: nat, limit: int, page: int)
    requires 1 <= limit
    requires page > CeilDiv(count, limit)
    ensures (page - 1) * limit >= count
  {
    MulMonotone(CeilDiv(count, limit), page - 1, limit);
  }

  lemma MulMonotone(a: int, b: int, c: int)
    requires a <= b
    requires c >= 0
    ensures a * c <= b * c
  {
    assert b * c - a * c == (b - a) * c;
  }

  /** With no usable `page` and `limit` (both 0) and 25 records: page 1, limit 1, skip 0, 25 pages. */
  lemma ZeroQueryOverTwentyFive()
    ensures Paginate(Some(0), Some(0), 25) == Success(Paging(1, 1, 0, 25))
  {
  }

  /** `page=-1` throws at line 21 instead of becoming page 1. */
  lemma NegativePageThrows(rawLimit: Option<int>, count: nat)
    ensures Paginate(Some(-1), rawLimit, count) == Failure(CONST_ASSIGNMENT)
  {
  }
}
