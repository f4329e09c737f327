/** The list-pagination engine of src/utils/pagination.rs: a generic `paginate_query` that
    counts the rows of a query fragment, decides from `page` and `limit` whether the
    requested window lies inside them, and fetches that window; and
    `add_pagination_headers`, which writes the window onto a response.

    The database is a snapshot. `rows` is what the database returns for the builder's
    fragment as it stands when the engine receives it; the count round trip either fails
    or returns |rows|, and the data round trip either fails or returns `rows` cut by the
    LIMIT and OFFSET the engine appends. The count is sent as bare text, without the
    values the fragment binds, so PostgreSQL refuses it whenever the fragment has a
    placeholder. */
module Pagination {
  import opened Common
  import opened Decimal
  import opened Http

  /** `PaginateResult<T>` */
  datatype PaginateResult<T> = Success(records: seq<T>) | NotFound

  /** Why the data round trip failed: PostgreSQL refuses a negative OFFSET and a negative
      LIMIT ("OFFSET must not be negative", checked first, then "LIMIT must not be
      negative"); FetchFailed is any other failure of the store. */
  datatype DbError = NegativeOffset | NegativeLimit | FetchFailed

  /** `Result<_, sqlx::Error>` */
  datatype Outcome<T> = Ok(value: T) | Err(error: DbError)

  /** sqlx's `QueryBuilder<Postgres>`: SQL text and the values bound to its placeholders.
      Only i64 values are ever bound by the engine (LIMIT and OFFSET). */
  class QueryBuilder {
    var sql: string
    var args: seq<i64>

    /** `QueryBuilder::new(init)` */
    constructor (init: string)
      ensures sql == init && args == []
    {
      sql := init;
      args := [];
    }

    /** `push`: appends text. */
    method Push(text: string)
      modifies this
      ensures sql == old(sql) + text && args == old(args)
    {
      sql := sql + text;
    }

    /** `push_bind`: binds the value and writes its PostgreSQL placeholder `$n`, where n is
        the number of bound values including this one. */
    method PushBind(v: i64)
      modifies this
      ensures sql == old(sql) + Placeholder(|old(args)| + 1)
      ensures args == old(args) + [v]
    {
      args := args + [v];
      sql := sql + Placeholder(|args|);
    }
  }

  function Placeholder(n: nat): string {
    "$" + NatToDecimal(n)
  }

  /** The data query: the fragment followed by `LIMIT` and `OFFSET`, bound in that order
      after the `n` values the fragment already binds. */
  function WindowedSql(fragment: string, n: nat): string {
    fragment + " LIMIT " + Placeholder(n + 1) + " OFFSET " + Placeholder(n + 2)
  }

  lemma FirstPlaceholders()
    ensures Placeholder(1) == "$1" && Placeholder(2) == "$2"
  {
    assert NatToDecimal(1) == "1" && NatToDecimal(2) == "2";
  }

  const COUNT_OPEN := "SELECT COUNT(*) FROM ("
  const COUNT_CLOSE := ") AS subquery"

  /** The count query the engine derives from a fragment: the fragment, verbatim, as a
      subquery of `COUNT(*)`. */
  function CountSql(fragment: string): (r: string)
    ensures |r| == |COUNT_OPEN| + |fragment| + |COUNT_CLOSE|
    ensures r[..|COUNT_OPEN|] == COUNT_OPEN
    ensures r[|COUNT_OPEN|..|COUNT_OPEN| + |fragment|] == fragment
    ensures r[|COUNT_OPEN| + |fragment|..] == COUNT_CLOSE
  {
    COUNT_OPEN + fragment + COUNT_CLOSE
  }

  /** `total_count`: the count query's answer, or 0 when it fails (`unwrap_or(0)`). */
  function TotalCount<T>(rows: seq<T>, countFails: bool): (r: nat)
    ensures r <= |rows|
    ensures r == |rows| <==> !countFails || rows == []
  {
    if countFails then 0 else |rows|
  }

  /** `(page - 1) * limit` on i64, wrapping as the release profile does: congruent to the
      exact product modulo 2^64, and equal to it whenever it fits. */
  function Offset(page: i64, limit: i64): (r: i64)
    ensures (r - (page - 1) * limit) % 0x1_0000_0000_0000_0000 == 0
    ensures I64_MIN <= (page - 1) * limit <= I64_MAX ==> r == (page - 1) * limit
  {
    Wrap64((page - 1) * limit)
  }

  /** `LIMIT limit OFFSET offset` as PostgreSQL applies it to an ordered row sequence. */
  function LimitOffset<T>(rows: seq<T>, limit: int, offset: int): (r: Outcome<seq<T>>)
    ensures r.Ok? <==> 0 <= offset && 0 <= limit
    ensures offset < 0 ==> r == Err(NegativeOffset)
    ensures r.Ok? ==> |r.value| == if offset >= |rows| then 0 else Min(limit, |rows| - offset)
    ensures r.Ok? ==> forall i :: 0 <= i < |r.value| ==> r.value[i] == rows[offset + i]
  {
    if offset < 0 then Err(NegativeOffset)
    else if limit < 0 then Err(NegativeLimit)
    else if offset >= |rows| then Ok([])
    else Ok(rows[offset .. Min(offset + limit, |rows|)])
  }

  /** What `paginate_query` returns, as a function of the snapshot and the parameters.
      Windowing applies only when both `page` and `limit` are given. */
  function Paginate<T>(rows: seq<T>, countFails: bool, fetchFails: bool,
                       page: Option<i64>, limit: Option<i64>): (r: Outcome<PaginateResult<T>>)
    ensures r == Ok(NotFound) ==> page.Some? && limit.Some?
    ensures r.Err? ==> fetchFails || (page.Some? && limit.Some? && (Offset(page.value, limit.value) < 0 || limit.value < 0))
    ensures r.Ok? && r.value.Success? ==>
      |r.value.records| <= |rows| && forall i :: 0 <= i < |r.value.records| ==> r.value.records[i] in rows
  {
    if page.Some? && limit.Some? then
      var offset := Offset(page.value, limit.value);
      if offset >= TotalCount(rows, countFails) then Ok(NotFound)
      else if fetchFails then Err(FetchFailed)
      else match LimitOffset(rows, limit.value, offset)
        case Ok(window) => Ok(Success(window))
        case Err(e) => Err(e)
    else if fetchFails then Err(FetchFailed)
    else Ok(Success(rows))
  }

  /** Whether `paginate_query` pushes LIMIT and OFFSET onto the fragment. */
  predicate Windows<T>(rows: seq<T>, countFails: bool, page: Option<i64>, limit: Option<i64>) {
    page.Some? && limit.Some? && Offset(page.value, limit.value) < TotalCount(rows, countFails)
  }

  /** `paginate_query`. Besides the result, it returns the text of the count query it
      sends; the builder ends as the text and bindings of the data query. `countFails`
      says whether the count fails for a reason of the store's; it also fails, as
      written, whenever the fragment binds a value, since the count carries no bindings. */
  method PaginateQuery<T>(builder: QueryBuilder, rows: seq<T>, countFails: bool, fetchFails: bool,
                          page: Option<i64>, limit: Option<i64>)
    returns (countSql: string, result: Outcome<PaginateResult<T>>)
    modifies builder
    ensures countSql == CountSql(old(builder.sql))
    ensures result == Paginate(rows, countFails || |old(builder.args)| > 0, fetchFails, page, limit)
    ensures Windows(rows, countFails || |old(builder.args)| > 0, page, limit) ==>
      && builder.sql == WindowedSql(old(builder.sql), |old(builder.args)|)
      && builder.args == old(builder.args) + [limit.value, Offset(page.value, limit.value)]
    ensures !Windows(rows, countFails || |old(builder.args)| > 0, page, limit) ==>
      builder.sql == old(builder.sql) && builder.args == old(builder.args)
  {
    countSql := COUNT_OPEN + builder.sql + COUNT_CLOSE;
    var totalCount: int := if countFails || |builder.args| > 0 then 0 else |rows|;

    var fetched: Outcome<seq<T>>;
    if page.Some? && limit.Some? {
      var offset := Wrap64((page.value - 1) * limit.value);
      if offset >= totalCount {
        return countSql, Ok(NotFound);
      }
      builder.Push(" LIMIT ");
      builder.PushBind(limit.value);
      builder.Push(" OFFSET ");
      builder.PushBind(offset);
      fetched := if fetchFails then Err(FetchFailed) else LimitOffset(rows, limit.value, offset);
    } else {
      fetched := if fetchFails then Err(FetchFailed) else Ok(rows);
    }

    match fetched
    case Ok(records) => result := Ok(Success(records));
    case Err(e) => result := Err(e);
  }

  // ---------------------------------------------------------------------------------
  // Response headers

  /** Header names as HeaderMap stores them ("X-Total-Count", "X-Page", "X-Per-Page"). */
  const X_TOTAL_COUNT := "x-total-count"
  const X_PAGE := "x-page"
  const X_PER_PAGE := "x-per-page"

  const DEFAULT_PAGE: i64 := 1
  const DEFAULT_PER_PAGE: i64 := 10

  /** The header map `add_pagination_headers` leaves behind. */
  function PaginationHeaders(h: HeaderMap, totalCount: i64, page: Option<i64>, limit: Option<i64>): HeaderMap {
    var h1 := Insert(h, X_TOTAL_COUNT, IntToDecimal(totalCount));
    var h2 := Insert(h1, X_PAGE, IntToDecimal(page.GetOr(DEFAULT_PAGE)));
    Insert(h2, X_PER_PAGE, IntToDecimal(limit.GetOr(DEFAULT_PER_PAGE)))
  }

  /** Every `to_string` of an integer is a valid header value. */
  lemma {:induction false} DecimalIsHeaderValue(n: int)
    ensures HeaderValueFromStr(IntToDecimal(n)) == Some(IntToDecimal(n))
  {
    var s := IntToDecimal(n);
    forall i | 0 <= i < |s| ensures FieldChar(s[i]) {
      assert IsDigit(s[i]) || s[i] == '-';
    }
  }

  /** `add_pagination_headers`: since every decimal is a valid header value, each of the
      three `if let Ok` branches is taken. */
  method AddPaginationHeaders<B>(response: Response<B>, totalCount: i64,
                                 page: Option<i64>, limit: Option<i64>) returns (r: Response<B>)
    ensures r.status == response.status && r.body == response.body
    ensures r.headers == PaginationHeaders(response.headers, totalCount, page, limit)
  {
    r := response;

    DecimalIsHeaderValue(totalCount);
    var countHeader := HeaderValueFromStr(IntToDecimal(totalCount));
    if countHeader.Some? {
      r := r.(headers := Insert(r.headers, X_TOTAL_COUNT, countHeader.value));
    }

    DecimalIsHeaderValue(page.GetOr(DEFAULT_PAGE));
    var pageHeader := HeaderValueFromStr(IntToDecimal(page.GetOr(DEFAULT_PAGE)));
    if pageHeader.Some? {
      r := r.(headers := Insert(r.headers, X_PAGE, pageHeader.value));
    }

    DecimalIsHeaderValue(limit.GetOr(DEFAULT_PER_PAGE));
    var limitHeader := HeaderValueFromStr(IntToDecimal(limit.GetOr(DEFAULT_PER_PAGE)));
    if limitHeader.Some? {
      r := r.(headers := Insert(r.headers, X_PER_PAGE, limitHeader.value));
    }
  }

  /** Each pagination header holds exactly one value, which reads back as the total, the
      page (1 if absent) and the limit (10 if absent); every other header is untouched. */
  lemma PaginationHeadersMeaning(h: HeaderMap, totalCount: i64, page: Option<i64>, limit: Option<i64>)
    ensures var r := PaginationHeaders(h, totalCount, page, limit);
      && r.Keys == h.Keys + {X_TOTAL_COUNT, X_PAGE, X_PER_PAGE}
      && |r[X_TOTAL_COUNT]| == 1 && ParseDecimal(r[X_TOTAL_COUNT][0]) == Some(totalCount as int)
      && |r[X_PAGE]| == 1 && ParseDecimal(r[X_PAGE][0]) == Some(if page.Some? then page.value as int else 1)
      && |r[X_PER_PAGE]| == 1 && ParseDecimal(r[X_PER_PAGE][0]) == Some(if limit.Some? then limit.value as int else 10)
      && forall k :: k in h && k !in {X_TOTAL_COUNT, X_PAGE, X_PER_PAGE} ==> r[k] == h[k]
  {
    DecimalRoundTrip(totalCount);
    DecimalRoundTrip(page.GetOr(DEFAULT_PAGE));
    DecimalRoundTrip(limit.GetOr(DEFAULT_PER_PAGE));
  }

  // ---------------------------------------------------------------------------------
  // Properties of the engine

  /** Beyond that the product wraps: a page far past the end can land on the first rows. */
  lemma OffsetWrapsAround()
    ensures Offset(0x4000_0000_0000_0001, 4) == 0
  {
  }

  /** NotFound exactly when both parameters are given and the offset is at or past the
      count; a failed count counts as 0. */
  lemma NotFoundIff<T>(rows: seq<T>, countFails: bool, fetchFails: bool, page: Option<i64>, limit: Option<i64>)
    ensures Paginate(rows, countFails, fetchFails, page, limit) == Ok(NotFound) <==>
      page.Some? && limit.Some? && Offset(page.value, limit.value) >= (if countFails then 0 else |rows|)
  {
  }

  /** Without both parameters the fragment runs unchanged and every row comes back. */
  lemma UnwindowedReturnsAll<T>(rows: seq<T>, countFails: bool, page: Option<i64>, limit: Option<i64>)
    requires page.None? || limit.None?
    ensures Paginate(rows, countFails, false, page, limit) == Ok(Success(rows))
  {
  }

  /** An empty set with a non-negative window is NotFound, not an empty success. */
  lemma EmptySetIsNotFound<T>(rows: seq<T>, countFails: bool, fetchFails: bool, page: i64, limit: i64)
    requires rows == [] && Offset(page, limit) >= 0
    ensures Paginate(rows, countFails, fetchFails, Some(page), Some(limit)) == Ok(NotFound)
  {
  }

  /** A failed count hides every row from a windowed request. */
  lemma FailedCountIsNotFound<T>(rows: seq<T>, fetchFails: bool, page: i64, limit: i64)
    requires Offset(page, limit) >= 0
    ensures Paginate(rows, true, fetchFails, Some(page), Some(limit)) == Ok(NotFound)
  {
  }

  /** A fragment that binds a value (a filter such as `WHERE textbook_id = $1`) loses its
      count, since the count is sent without bindings: page 1 of a non-empty set is then
      NotFound, where a count that carried the bindings gives the set's first rows. */
  lemma BoundFragmentLosesFirstPage<T>(rows: seq<T>, limit: i64)
    requires |rows| > 0 && limit > 0
    ensures Paginate(rows, true, false, Some(1), Some(limit)) == Ok(NotFound)
    ensures Paginate(rows, false, false, Some(1), Some(limit)) == Ok(Success(rows[..Min(limit, |rows|)]))
  {
    assert Offset(1, limit) == 0;
  }

  /** Inside the set, the page is the rows from the offset on, at most `limit` of them. */
  lemma WindowIsSlice<T>(rows: seq<T>, page: i64, limit: i64)
    requires 0 <= Offset(page, limit) < |rows| && 0 <= limit
    ensures var offset := Offset(page, limit);
      Paginate(rows, false, false, Some(page), Some(limit))
        == Ok(Success(rows[offset .. Min(offset + limit, |rows|)]))
  {
  }

  /** `limit = 0` is not rejected: on a non-empty set it is a success with no records. */
  lemma ZeroLimitIsEmptySuccess<T>(rows: seq<T>, page: i64)
    requires |rows| > 0
    ensures Paginate(rows, false, false, Some(page), Some(0)) == Ok(Success([]))
  {
  }

  /** `page = 0` is not rejected either: the offset is -limit, which is below the count,
      so the query is sent and the database refuses the negative OFFSET. */
  lemma PageZeroIsDatabaseError<T>(rows: seq<T>, countFails: bool, limit: i64)
    requires 0 < limit
    ensures Paginate(rows, countFails, false, Some(0), Some(limit)) == Err(NegativeOffset)
  {
  }

  // ---------------------------------------------------------------------------------
  // Pages concatenate to the whole set

  /** The records of page `p` with `limit` rows per page, or none. Page numbers beyond
      i64 cannot be requested and have none. */
  function PageRecords<T>(rows: seq<T>, limit: i64, p: nat): seq<T> {
    if p > I64_MAX then []
    else match Paginate(rows, false, false, Some(p), Some(limit))
      case Ok(Success(records)) => records
      case _ => []
  }

  /** Pages 1..k of any numbering of pages, concatenated in order. */
  function Concat<T>(page: nat -> seq<T>, k: nat): seq<T> {
    if k == 0 then [] else Concat(page, k - 1) + page(k)
  }

  /** The records of pages 1..k, in order. */
  function PagesUpTo<T>(rows: seq<T>, limit: i64, k: nat): seq<T> {
    Concat((p: nat) => PageRecords(rows, limit, p), k)
  }

  /** The number of pages of `n` rows, `limit` per page: ceil(n / limit). */
  function PageCount(n: nat, limit: nat): nat
    requires limit > 0
  {
    (n + limit - 1) / limit
  }

  lemma {:induction false} PageCountBounds(n: nat, limit: nat)
    requires limit > 0
    ensures PageCount(n, limit) * limit >= n
    ensures PageCount(n, limit) > 0 ==> (PageCount(n, limit) - 1) * limit < n
    ensures PageCount(n, limit) <= n
  {
    var c := PageCount(n, limit);
    var q := n + limit - 1;
    assert q == c * limit + q % limit;
    MulSucc(c - 1, limit);
    MulMono(1, limit, n);
    MulSucc(n, limit);
    if c > n {
      MulMono(n + 1, c, limit);
    }
  }

  lemma MulSucc(a: int, m: int)
    ensures (a + 1) * m == a * m + m
  {
  }

  lemma {:induction false} MulMono(a: nat, b: nat, m: nat)
    requires a <= b
    ensures a * m <= b * m
  {
    if a < b {
      MulMono(a, b - 1, m);
      MulSucc(b - 1, m);
    }
  }

  /** k * m by repeated addition, which keeps the page arithmetic below linear. */
  function Times(k: nat, m: nat): nat {
    if k == 0 then 0 else Times(k - 1, m) + m
  }

  lemma {:induction false} TimesIsProduct(k: nat, m: nat)
    ensures Times(k, m) == k * m
  {
    if k > 0 {
      TimesIsProduct(k - 1, m);
      MulSucc(k - 1, m);
    }
  }

  lemma {:induction false} TimesAtLeast(k: nat, m: nat)
    requires m >= 1
    ensures Times(k, m) >= k
  {
    if k > 0 {
      TimesAtLeast(k - 1, m);
    }
  }

  /** Page k, while its first row (k-1)*limit is inside the set, holds the rows from there
      up to k*limit. */
  lemma PageIsSlice<T>(rows: seq<T>, limit: i64, k: nat)
    requires 0 < limit && |rows| <= I64_MAX
    requires 1 <= k && Times(k - 1, limit) < |rows|
    ensures 0 <= Times(k - 1, limit) < Min(Times(k, limit), |rows|) <= |rows|
    ensures PageRecords(rows, limit, k) == rows[Times(k - 1, limit) .. Min(Times(k, limit), |rows|)]
  {
    TimesAtLeast(k - 1, limit);
    TimesIsProduct(k - 1, limit);
    PageOffsetExact(k, limit, k - 1);
    WindowIsSlice(rows, k, limit);
  }

  /** Pages that are consecutive slices of `limit` rows concatenate to the first k*limit
      rows. */
  lemma {:induction false} ConcatOfSlices<T>(page: nat -> seq<T>, rows: seq<T>, limit: nat, k: nat)
    requires forall j :: 1 <= j <= k ==>
      Times(j - 1, limit) <= Min(Times(j, limit), |rows|) &&
      page(j) == rows[Times(j - 1, limit) .. Min(Times(j, limit), |rows|)]
    ensures Concat(page, k) == rows[..Min(Times(k, limit), |rows|)]
  {
    if k > 0 {
      ConcatOfSlices(page, rows, limit, k - 1);
      var lo := Times(k - 1, limit);
      var hi := Min(Times(k, limit), |rows|);
      assert lo <= hi && page(k) == rows[lo .. hi];
      assert rows[..lo] + rows[lo .. hi] == rows[..hi];
    }
  }

  /** For N rows and limit L > 0, pages 1..ceil(N/L) concatenate to the whole ordered set,
      so no row is missed and none is repeated. */
  lemma PagesConcatenate<T>(rows: seq<T>, limit: i64)
    requires 0 < limit && |rows| <= I64_MAX
    ensures PageCount(|rows|, limit) <= I64_MAX
    ensures PagesUpTo(rows, limit, PageCount(|rows|, limit)) == rows
  {
    var c := PageCount(|rows|, limit);
    PageCountBounds(|rows|, limit);
    var page := (p: nat) => PageRecords(rows, limit, p);
    forall j | 1 <= j <= c
      ensures Times(j - 1, limit) <= Min(Times(j, limit), |rows|)
      ensures page(j) == rows[Times(j - 1, limit) .. Min(Times(j, limit), |rows|)]
    {
      TimesIsProduct(j - 1, limit);
      MulMono(j - 1, c - 1, limit);
      PageIsSlice(rows, limit, j);
    }
    ConcatOfSlices(page, rows, limit, c);
    TimesIsProduct(c, limit);
  }

  /** For a page up to one past the page count, the product (page-1)*limit stays within
      i64, so the offset is exact. */
  lemma PageOffsetExact(k: i64, limit: i64, c: nat)
    requires 0 < limit && 1 <= k <= c + 1 && c * limit <= I64_MAX
    ensures 0 <= (k - 1) * limit <= c * limit
    ensures Offset(k, limit) == (k - 1) * limit
  {
    MulMono(k - 1, c, limit);
    MulMono(0, k - 1, limit);
  }

  /** Every page up to ceil(N/L) is a non-empty success; the page after it is NotFound. */
  lemma {:induction false} LastPageThenNotFound<T>(rows: seq<T>, limit: i64, p: i64)
    requires 0 < limit && |rows| <= I64_MAX && PageCount(|rows|, limit) * limit <= I64_MAX
    requires 1 <= p <= PageCount(|rows|, limit) + 1
    ensures p <= PageCount(|rows|, limit) ==>
      Paginate(rows, false, false, Some(p), Some(limit)).Ok? &&
      Paginate(rows, false, false, Some(p), Some(limit)).value.Success? &&
      |Paginate(rows, false, false, Some(p), Some(limit)).value.records| > 0
    ensures p == PageCount(|rows|, limit) + 1 ==>
      Paginate(rows, false, false, Some(p), Some(limit)) == Ok(NotFound)
  {
    var c := PageCount(|rows|, limit);
    PageCountBounds(|rows|, limit);
    PageOffsetExact(p, limit, c);
    if p <= c {
      MulMono(p - 1, c - 1, limit);
      WindowIsSlice(rows, p, limit);
    } else {
      NotFoundIff(rows, false, false, Some(p), Some(limit));
    }
  }

  /** 25 rows at 10 per page: pages 1, 2 and 3 hold 10, 10 and 5 records, rows 0-9, 10-19
      and 20-24; page 4 (offset 30) is NotFound. */
  lemma TwentyFiveRowsAtTenPerPage<T>(rows: seq<T>)
    requires |rows| == 25
    ensures Paginate(rows, false, false, Some(1), Some(10)) == Ok(Success(rows[0..10]))
    ensures Paginate(rows, false, false, Some(2), Some(10)) == Ok(Success(rows[10..20]))
    ensures Paginate(rows, false, false, Some(3), Some(10)) == Ok(Success(rows[20..25]))
    ensures Paginate(rows, false, false, Some(4), Some(10)) == Ok(NotFound)
  {
    WindowIsSlice(rows, 1, 10);
    WindowIsSlice(rows, 2, 10);
    WindowIsSlice(rows, 3, 10);
  }
}
