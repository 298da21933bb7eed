/**
 * The response shape of `WriteJSON` once the rows are read: the pagination
 * block and its page count, the navigation links, and the notice that a
 * result was cut short by the safety limit.
 */
module Paging {
  import opened Wrappers
  import opened Decimal
  import opened Hateoas

  // ----- 64-bit integers -----

  const MinInt64: int := -0x8000_0000_0000_0000
  const MaxInt64: int := 0x7FFF_FFFF_FFFF_FFFF

  predicate IsInt64(x: int) {
    MinInt64 <= x <= MaxInt64
  }

  /** Two's-complement wrap-around of Go's `int64` arithmetic. */
  function Wrap64(x: int): (r: int)
    ensures IsInt64(r)
    ensures IsInt64(x) ==> r == x
  {
    (x - MinInt64) % 0x1_0000_0000_0000_0000 + MinInt64
  }

  /** Go's integer division, which truncates toward zero. */
  function Quot(a: int, b: int): (q: int)
    requires b != 0
    ensures a >= 0 && b > 0 ==> q == a / b
  {
    if (a >= 0) == (b > 0) then
      (if a >= 0 then a else -a) / (if b > 0 then b else -b)
    else
      -((if a >= 0 then a else -a) / (if b > 0 then b else -b))
  }

  // ----- page count -----

  /**
   * `totalPages` as written: `(totalRows + int64(limit) - 1) / int64(limit)`
   * when there are rows, evaluated in wrapping 64-bit arithmetic.
   */
  function TotalPagesAsWritten(totalRows: int, limit: int): int
    requires IsInt64(totalRows) && IsInt64(limit) && limit > 0
  {
    if totalRows > 0 then Quot(Wrap64(Wrap64(totalRows + limit) - 1), limit) else 0
  }

  /**
   * The number of pages of `limit` rows that hold `totalRows` rows: zero
   * without rows, otherwise the ceiling of `totalRows / limit`.
   */
  function TotalPages(totalRows: int, limit: int): (p: int)
    requires limit > 0
    ensures totalRows <= 0 ==> p == 0
    ensures totalRows > 0 ==> (p - 1) * limit < totalRows <= p * limit
  {
    if totalRows > 0 then (totalRows - 1) / limit + 1 else 0
  }

  /** `TotalPages` is the least page count that holds all rows. */
  lemma TotalPagesLeast(totalRows: int, limit: int, q: int)
    requires limit > 0 && q >= 0 && q * limit >= totalRows
    ensures TotalPages(totalRows, limit) <= q
  {
    var p := TotalPages(totalRows, limit);
    if totalRows > 0 {
      assert (p - 1 - q) * limit < 0;
      NegativeFactor(p - 1 - q, limit);
    }
  }

  /** There are never more pages than rows, so the count fits wherever the row count does. */
  lemma TotalPagesBounded(totalRows: int, limit: int)
    requires limit > 0
    ensures 0 <= TotalPages(totalRows, limit)
    ensures totalRows > 0 ==> TotalPages(totalRows, limit) <= totalRows
  {
    if totalRows > 0 {
      TotalPagesLeast(totalRows, limit, totalRows);
    }
  }

  /** Without overflow the written expression computes the page count. */
  lemma TotalPagesAsWrittenAgrees(totalRows: int, limit: int)
    requires IsInt64(totalRows) && IsInt64(limit) && limit > 0
    requires totalRows + limit - 1 <= MaxInt64
    ensures TotalPagesAsWritten(totalRows, limit) == TotalPages(totalRows, limit)
  {
    if totalRows > 0 {
      DivShift(totalRows - 1, limit);
      assert totalRows - 1 + limit == totalRows + limit - 1;
    }
  }

  lemma NegativeFactor(m: int, d: int)
    requires d > 0 && m * d < 0
    ensures m < 0
  {
  }

  lemma BoundedMultiple(m: int, d: int)
    requires d > 0 && -d < m * d < d
    ensures m == 0
  {
  }

  /** Euclidean division is determined by its quotient-remainder decomposition. */
  lemma DivUnique(a: int, d: int, q: int, r: int)
    requires d > 0 && 0 <= r < d && a == q * d + r
    ensures a / d == q
  {
    assert (q - a / d) * d == a % d - r;
    BoundedMultiple(q - a / d, d);
  }

  lemma DivShift(n: int, d: int)
    requires d > 0
    ensures (n + d) / d == n / d + 1
  {
    DivUnique(n + d, d, n / d + 1, n % d);
  }

  /**
   * The written expression wraps, and yields a negative page count, as soon
   * as `totalRows + limit - 1` passes the top of the `int64` range: with a
   * row count near it, or with a huge limit and only two rows.
   */
  lemma TotalPagesOverflow()
    ensures TotalPagesAsWritten(MaxInt64, 2) == -0x4000_0000_0000_0000
    ensures TotalPages(MaxInt64, 2) == 0x4000_0000_0000_0000
    ensures TotalPagesAsWritten(2, MaxInt64) == -1
    ensures TotalPages(2, MaxInt64) == 1
  {
  }

  // ----- response -----

  /** The `pagination` object of a response. */
  datatype Pagination = Pagination(page: int, limit: int, totalRows: int, totalPages: int)

  /** The `truncated`, `message` and `total_available` entries of a response. */
  datatype Truncation = Truncation(message: string, totalAvailable: int)

  /** `LinksConfig`. */
  datatype LinksConfig = LinksConfig(enabled: bool, basePath: string, query: Query)

  /** The entries of the response object besides `data`. */
  datatype Response = Response(
    pagination: Option<Pagination>,
    links: Option<map<string, Link>>,
    truncation: Option<Truncation>)

  /** The result was cut short by the safety limit: the limit was reached and more rows exist. */
  predicate Truncated(rowCount: nat, totalRows: int, safetyLimit: int) {
    safetyLimit > 0 && rowCount >= safetyLimit && rowCount < totalRows
  }

  /** The notice of a truncated result. */
  function LimitMessage(safetyLimit: int): string {
    "Results limited to " + Itoa(safetyLimit)
      + " rows by safety limit. Use pagination (?limit=X&page=Y) to access more data."
  }

  /**
   * The response `WriteJSON` builds after reading `rowCount` rows: the
   * pagination block (with links when configured) for a paginated request
   * with a positive limit, and the truncation notice for an unpaginated
   * request the safety limit cut short.
   */
  function BuildResponse(rowCount: nat, page: int, limit: int, totalRows: int, paginationRequested: bool,
                         safetyLimit: int, linksConfig: Option<LinksConfig>): (r: Response)
    ensures r.pagination.Some? <==> paginationRequested && limit > 0
    ensures r.pagination.Some? ==>
      r.pagination.value == Pagination(page, limit, totalRows, TotalPages(totalRows, limit))
    ensures r.links.Some? <==> r.pagination.Some? && linksConfig.Some? && linksConfig.value.enabled
    ensures r.links.Some? ==>
      r.links.value == GenerateLinks(linksConfig.value.basePath, linksConfig.value.query, page, limit, r.pagination.value.totalPages)
    ensures r.truncation.Some? <==> !paginationRequested && Truncated(rowCount, totalRows, safetyLimit)
    ensures r.truncation.Some? ==> r.truncation.value == Truncation(LimitMessage(safetyLimit), totalRows)
  {
    if paginationRequested && limit > 0 then
      var totalPages := TotalPages(totalRows, limit);
      var links :=
        if linksConfig.Some? && linksConfig.value.enabled
        then Some(GenerateLinks(linksConfig.value.basePath, linksConfig.value.query, page, limit, totalPages))
        else None;
      Response(Some(Pagination(page, limit, totalRows, totalPages)), links, None)
    else if !paginationRequested then
      var truncation :=
        if Truncated(rowCount, totalRows, safetyLimit)
        then Some(Truncation(LimitMessage(safetyLimit), totalRows))
        else None;
      Response(None, None, truncation)
    else
      Response(None, None, None)
  }

  /** A response never carries both a pagination block and a truncation notice. */
  lemma PaginationExcludesTruncation(rowCount: nat, page: int, limit: int, totalRows: int,
                                     paginationRequested: bool, safetyLimit: int, linksConfig: Option<LinksConfig>)
    ensures var r := BuildResponse(rowCount, page, limit, totalRows, paginationRequested, safetyLimit, linksConfig);
      !(r.pagination.Some? && r.truncation.Some?)
  {
  }

  /** A truncation notice means rows were held back: fewer were read than exist. */
  lemma TruncationMeansRowsHeldBack(rowCount: nat, page: int, limit: int, totalRows: int,
                                    paginationRequested: bool, safetyLimit: int, linksConfig: Option<LinksConfig>)
    ensures var r := BuildResponse(rowCount, page, limit, totalRows, paginationRequested, safetyLimit, linksConfig);
      r.truncation.Some? ==> rowCount < r.truncation.value.totalAvailable && safetyLimit <= rowCount
  {
  }

  /** The notice names the safety limit, which can be read back from it. */
  lemma LimitMessageNamesLimit(safetyLimit: int)
    ensures var m := LimitMessage(safetyLimit);
      var k := |"Results limited to "|;
      exists j :: k <= j <= |m| && ParseInt(m[k..j]) == Some(safetyLimit)
  {
    var m := LimitMessage(safetyLimit);
    var k := |"Results limited to "|;
    var j := k + |Itoa(safetyLimit)|;
    assert m[k..j] == Itoa(safetyLimit);
    ItoaRoundTrip(safetyLimit);
  }

  /**
   * On a page within range of a configured paginated response, every link
   * points at a page between 1 and the page count.
   */
  lemma ResponseLinksInRange(rowCount: nat, page: int, limit: int, totalRows: int, safetyLimit: int, config: LinksConfig)
    requires limit > 0 && config.enabled
    requires 1 <= page <= TotalPages(totalRows, limit)
    ensures var r := BuildResponse(rowCount, page, limit, totalRows, true, safetyLimit, Some(config));
      && r.links.Some?
      && forall name :: name in r.links.value ==>
           Target(r.links.value[name]).Some? && 1 <= Target(r.links.value[name]).value <= TotalPages(totalRows, limit)
  {
    LinksStayInRange(config.basePath, config.query, page, limit, TotalPages(totalRows, limit));
  }
}
