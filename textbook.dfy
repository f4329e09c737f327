/** The textbook listing of src/handlers/textbook.rs: `TextbookQuery`, whose page and
    limit feed the pagination engine, and `get_all_textbooks`, which pages the textbook
    table ordered by id and puts the pagination headers on a successful reply. */
module Textbooks {
  import opened Common
  import opened Http
  import opened Pagination

  /** A row of table `textbook`. */
  datatype Textbook = Textbook(id: int, title: string, description: string)

  /** The query string of the listing (`?page=&limit=`, each optional). Its `HasPagination`
      methods hand the fields to the engine as they are: no default and no range check. */
  datatype TextbookQuery = TextbookQuery(page: Option<i64>, limit: Option<i64>) {
    function Page(): (p: Option<i64>)
      ensures p == page
    {
      page
    }

    function Limit(): (l: Option<i64>)
      ensures l == limit
    {
      limit
    }
  }

  /** The fragment the handler builds: every textbook, no filter, then the ordering. */
  const TEXTBOOK_BASE := "SELECT * FROM textbook WHERE 1=1"
  const ORDER_BY_ID := " ORDER BY id"
  /** The separate, unfiltered count behind X-Total-Count. */
  const TEXTBOOK_COUNT := "SELECT COUNT(*) FROM textbook"

  predicate SortedById(s: seq<Textbook>) {
    forall i, j :: 0 <= i < j < |s| ==> s[i].id <= s[j].id
  }

  lemma SortedCons(a: Textbook, t: seq<Textbook>)
    requires SortedById(t) && (|t| > 0 ==> a.id <= t[0].id)
    ensures SortedById([a] + t)
  {
    forall i, j | 0 <= i < j < |t| + 1 ensures ([a] + t)[i].id <= ([a] + t)[j].id {
      if i == 0 {
        assert ([a] + t)[j] == t[j - 1];
      } else {
        assert ([a] + t)[i] == t[i - 1] && ([a] + t)[j] == t[j - 1];
      }
    }
  }

  /** One step of the ordering: `x` placed before the first row with a larger id. */
  function InsertById(x: Textbook, s: seq<Textbook>): (r: seq<Textbook>)
    requires SortedById(s)
    ensures |r| == |s| + 1 && (r[0] == x || (|s| > 0 && r[0] == s[0]))
    ensures SortedById(r)
    ensures multiset(r) == multiset(s) + multiset{x}
  {
    if s == [] then [x]
    else if x.id <= s[0].id then
      SortedCons(x, s);
      [x] + s
    else
      assert s == [s[0]] + s[1..];
      SliceSortedById(s, 1, |s|);
      var rest := InsertById(x, s[1..]);
      SortedCons(s[0], rest);
      [s[0]] + rest
  }

  /** `ORDER BY id` over the rows of the table, in whatever order the table keeps them. */
  function OrderById(table: seq<Textbook>): (r: seq<Textbook>)
    ensures SortedById(r)
    ensures multiset(r) == multiset(table)
  {
    if table == [] then []
    else
      assert table == [table[0]] + table[1..];
      InsertById(table[0], OrderById(table[1..]))
  }

  /** `get_all_textbooks`. `countFails`, `fetchFails` and `headerCountFails` say which of
      its three round trips fail (the engine's count, the engine's data query and the
      header count). `statements` is the SQL text it sends, in order. */
  method GetAllTextbooks(table: seq<Textbook>, params: TextbookQuery,
                         countFails: bool, fetchFails: bool, headerCountFails: bool)
    returns (r: Response<seq<Textbook>>, ghost statements: seq<string>)
    requires |table| <= I64_MAX
    ensures match Paginate(OrderById(table), countFails, fetchFails, params.page, params.limit)
      case Ok(Success(records)) =>
        var headerTotal := if headerCountFails then 0 else |table|;
        r == JsonReply(OK, records).(headers := PaginationHeaders(JsonReply(OK, records).headers,
                                                                  headerTotal, params.page, params.limit))
      case Ok(NotFound) => r == StatusOnly(NOT_FOUND)
      case Err(_) => r == StatusOnly(INTERNAL_SERVER_ERROR)
    ensures |statements| >= 1 && statements[0] == CountSql(TEXTBOOK_BASE + ORDER_BY_ID)
    ensures r.status == NOT_FOUND ==> |statements| == 1
    ensures r.status == OK ==> |statements| == 3 && statements[2] == TEXTBOOK_COUNT
    ensures r.status == OK && params.page.Some? && params.limit.Some? ==>
      statements[1] == WindowedSql(TEXTBOOK_BASE + ORDER_BY_ID, 0)
    ensures r.status == OK && (params.page.None? || params.limit.None?) ==>
      statements[1] == TEXTBOOK_BASE + ORDER_BY_ID
  {
    var builder := new QueryBuilder(TEXTBOOK_BASE);
    builder.Push(ORDER_BY_ID);
    ghost var fragment := builder.sql;
    assert fragment == TEXTBOOK_BASE + ORDER_BY_ID && builder.args == [];

    var countSql, result := PaginateQuery(builder, OrderById(table), countFails, fetchFails,
                                          params.Page(), params.Limit());
    statements := [countSql];

    match result
    case Ok(Success(records)) =>
      if params.page.Some? && params.limit.Some? {
        assert Windows(OrderById(table), countFails, params.page, params.limit);
        assert builder.sql == WindowedSql(fragment, 0);
      } else {
        assert builder.sql == fragment;
      }
      statements := statements + [builder.sql, TEXTBOOK_COUNT];
      r := JsonReply(OK, records);
      var totalCount: i64 := if headerCountFails then 0 else |table|;
      r := AddPaginationHeaders(r, totalCount, params.Page(), params.Limit());
    case Ok(NotFound) =>
      r := StatusOnly(NOT_FOUND);
    case Err(_) =>
      statements := statements + [builder.sql];
      r := StatusOnly(INTERNAL_SERVER_ERROR);
  }

  /** With both counts answered, X-Total-Count equals the engine's own count: the
      fragment has no filter, so counting it and counting the table agree. */
  lemma HeaderCountIsEngineCount(table: seq<Textbook>)
    ensures TotalCount(OrderById(table), false) == |table|
  {
    assert |multiset(OrderById(table))| == |multiset(table)|;
  }

  lemma SliceSortedById(rows: seq<Textbook>, lo: nat, hi: nat)
    requires SortedById(rows) && lo <= hi <= |rows|
    ensures SortedById(rows[lo..hi])
  {
    forall i, j | 0 <= i < j < hi - lo ensures rows[lo..hi][i].id <= rows[lo..hi][j].id {
      assert rows[lo..hi][i] == rows[lo + i] && rows[lo..hi][j] == rows[lo + j];
    }
  }

  /** Every page the listing returns is in ascending id order. */
  lemma PagesSortedById(table: seq<Textbook>, countFails: bool, params: TextbookQuery)
    ensures var result := Paginate(OrderById(table), countFails, false, params.page, params.limit);
      result.Ok? && result.value.Success? ==> SortedById(result.value.records)
  {
    var rows := OrderById(table);
    if params.page.Some? && params.limit.Some? {
      var offset := Offset(params.page.value, params.limit.value);
      var limit := params.limit.value;
      if 0 <= offset < |rows| && 0 <= limit {
        SliceSortedById(rows, offset, Min(offset + limit, |rows|));
      }
    }
  }

  /** For limit L > 0, pages 1..ceil(N/L) of the listing concatenate to the whole table in
      id order: every textbook appears, exactly as often as in the table. */
  lemma TextbookPagesConcatenate(table: seq<Textbook>, limit: i64)
    requires 0 < limit && |table| <= I64_MAX
    ensures PageCount(|table|, limit) <= I64_MAX
    ensures var all := PagesUpTo(OrderById(table), limit, PageCount(|table|, limit));
      SortedById(all) && multiset(all) == multiset(table)
  {
    HeaderCountIsEngineCount(table);
    PagesConcatenate(OrderById(table), limit);
  }
}
