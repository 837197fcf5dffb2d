/** Offset pagination as the list handlers compute it from the `page` and
    `limit` query parameters: rows `from ..= to` of the ordered result, and
    `totalPages = ceil(total / limit)`. */
module Pagination {
  import opened Wrappers

  type Positive = n: int | n >= 1 witness 1

  const DEFAULT_PAGE: Positive := 1
  const DEFAULT_LIMIT: Positive := 10

  function Min(a: int, b: int): int { if a <= b then a else b }

  datatype Paging = Paging(page: Positive, limit: Positive) {

    /** Position of the first row of the page (`(page - 1) * limit`): the
        first page starts at row 0, and no later page does. */
    function From(): (f: nat)
      ensures f == 0 <==> page == 1
      ensures f >= page - 1
    {
      (page - 1) * limit
    }

    /** Position of the last row of the page, inclusive (`from + limit - 1`):
        the range holds `limit` positions and the next page starts right
        after it. */
    function To(): (t: nat)
      ensures t + 1 - From() == limit
      ensures t + 1 == Paging(page + 1, limit).From()
    {
      From() + limit - 1
    }
  }

  /** `page` and `limit` from the query string, each defaulting when absent. */
  function FromQuery(page: Option<Positive>, limit: Option<Positive>): (p: Paging)
    ensures page.None? ==> p.page == DEFAULT_PAGE
    ensures limit.None? ==> p.limit == DEFAULT_LIMIT
    ensures page.Some? ==> p.page == page.value
    ensures limit.Some? ==> p.limit == limit.value
  {
    Paging(page.GetOr(DEFAULT_PAGE), limit.GetOr(DEFAULT_LIMIT))
  }

  /** `.range(from, to)` on an ordered result: the rows at positions
      `from ..= to` that exist. */
  function Slice<T>(rows: seq<T>, p: Paging): (r: seq<T>)
    ensures |r| <= p.limit
    ensures |r| == if |rows| <= p.From() then 0 else Min(p.limit, |rows| - p.From())
    ensures forall k :: 0 <= k < |r| ==> p.From() + k <= p.To() && r[k] == rows[p.From() + k]
  {
    if |rows| <= p.From() then [] else rows[p.From() .. Min(p.To() + 1, |rows|)]
  }

  /** `Math.ceil(total / limit)`: the least page count whose pages hold
      `total` rows. */
  function TotalPages(total: nat, limit: Positive): (n: nat)
    ensures n * limit >= total
    ensures n > 0 ==> (n - 1) * limit < total
    ensures n == 0 <==> total == 0
  {
    var q := (total + limit - 1) / limit;
    var m := (total + limit - 1) % limit;
    assert total + limit - 1 == q * limit + m && 0 <= m < limit;
    assert q * limit - limit == (q - 1) * limit;
    q
  }

  /** Whether the data store serves `.range(from, to)` on a query that also
      asks for the exact count: it refuses a range starting past the last
      row, while a range starting right at the end returns no rows. */
  predicate RangeSatisfiable(total: nat, p: Paging) {
    p.From() <= total
  }

  /** The first page and every page up to `totalPages` can be asked for; a
      page two or more past `totalPages` cannot. */
  lemma SatisfiablePages(total: nat, p: Paging)
    ensures p.page == 1 ==> RangeSatisfiable(total, p)
    ensures p.page <= TotalPages(total, p.limit) ==> RangeSatisfiable(total, p)
    ensures p.page > TotalPages(total, p.limit) + 1 ==> !RangeSatisfiable(total, p)
  {
    var n := TotalPages(total, p.limit);
    if 1 <= p.page <= n {
      MulMonotone(p.page - 1, n - 1, p.limit);
    } else if p.page > n + 1 {
      MulMonotone(n + 1, p.page - 1, p.limit);
    }
  }

  /** The `meta` object of a paginated response. */
  datatype Meta = Meta(total: nat, page: Positive, limit: Positive, totalPages: nat)

  function MetaFor(total: nat, p: Paging): (m: Meta)
    ensures m.total == total && m.page == p.page && m.limit == p.limit
    ensures m.totalPages * p.limit >= total
    ensures m.totalPages > 0 ==> (m.totalPages - 1) * p.limit < total
  {
    Meta(total, p.page, p.limit, TotalPages(total, p.limit))
  }

  lemma MulMonotone(a: int, b: int, c: nat)
    requires a <= b
    ensures a * c <= b * c
  {
  }

  /** A page holds rows exactly when its number is at most `totalPages`. */
  lemma PageNonEmptyIff<T>(rows: seq<T>, p: Paging)
    ensures Slice(rows, p) != [] <==> p.page <= TotalPages(|rows|, p.limit)
  {
    var n := TotalPages(|rows|, p.limit);
    if p.page <= n {
      MulMonotone(p.page - 1, n - 1, p.limit);
    } else {
      MulMonotone(n, p.page - 1, p.limit);
    }
  }

  /** Pages 1 to `n` with page size `limit`, one after another. */
  function FirstPages<T>(rows: seq<T>, limit: Positive, n: nat): seq<T> {
    if n == 0 then [] else FirstPages(rows, limit, n - 1) + Slice(rows, Paging(n, limit))
  }

  lemma {:induction false} FirstPagesArePrefix<T>(rows: seq<T>, limit: Positive, n: nat)
    ensures FirstPages(rows, limit, n) == rows[..Min(n * limit, |rows|)]
  {
    if n > 0 {
      FirstPagesArePrefix(rows, limit, n - 1);
      var p := Paging(n, limit);
      assert p.From() == (n - 1) * limit == n * limit - limit;
      var page := Slice(rows, p);
      if |rows| <= p.From() {
        MulMonotone(n - 1, n, limit);
      } else {
        assert rows[..Min(n * limit, |rows|)] == rows[..p.From()] + page;
      }
    }
  }

  /** Reading pages 1 to `totalPages` in turn returns every row exactly
      once, in order. */
  lemma PagesCoverRows<T>(rows: seq<T>, limit: Positive)
    ensures FirstPages(rows, limit, TotalPages(|rows|, limit)) == rows
  {
    FirstPagesArePrefix(rows, limit, TotalPages(|rows|, limit));
  }
}
