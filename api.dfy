/**
 * The read endpoints: `GET /messages` (`list_messages`) and `GET /stats`
 * (`stats`).
 *
 * `list_messages` checks its query parameters (`limit` in [1, 100], default
 * 50; `offset` at least 0, default 0) and answers a failing request with a
 * validation error listing every bad parameter; otherwise it forwards the
 * `from` parameter as the `from_msisdn` filter, `since` and `q` unchanged,
 * and answers `data` and `total` from `fetch_messages` together with the
 * `limit` and `offset` it used. An `offset` that passes the bound but does
 * not fit a 64-bit SQLite INTEGER makes the data query fail, and the request
 * ends in a server error. `stats` answers `get_stats` unchanged.
 */
module Api {
  import opened Wrappers
  import opened Schemas
  import opened MessageTable
  import opened MessageQuery
  import opened MessageStats

  const DEFAULT_LIMIT: int := 50
  const MIN_LIMIT: int := 1
  const MAX_LIMIT: int := 100
  const DEFAULT_OFFSET: int := 0
  const MIN_OFFSET: int := 0

  /** The largest value sqlite3 binds as an INTEGER parameter; a larger Python int raises `OverflowError`. */
  const MAX_SQLITE_INTEGER: int := 0x7FFF_FFFF_FFFF_FFFF

  /** The query parameters of `GET /messages`, absent ones as None. */
  datatype ListParams = ListParams(
    limit: Option<int>,
    offset: Option<int>,
    from: Option<string>,
    since: Option<string>,
    q: Option<string>)

  /** A query parameter outside its bounds (the framework answers 422). */
  datatype ParamError =
    | LimitBelowMinimum(limit: int)
    | LimitAboveMaximum(limit: int)
    | OffsetBelowMinimum(offset: int)

  /** Why a listing is not served: bad parameters (422), or a failing query (500). */
  datatype ListError =
    | Unprocessable(errors: seq<ParamError>)
    | ServerError

  /** `{"data": ..., "total": ..., "limit": ..., "offset": ...}`. */
  datatype ListResponse = ListResponse(data: seq<JsonObject>, total: nat, limit: nat, offset: nat)

  function LimitErrors(limit: int): seq<ParamError> {
    if limit < MIN_LIMIT then [LimitBelowMinimum(limit)]
    else if limit > MAX_LIMIT then [LimitAboveMaximum(limit)]
    else []
  }

  function OffsetErrors(offset: int): seq<ParamError> {
    if offset < MIN_OFFSET then [OffsetBelowMinimum(offset)] else []
  }

  /** The filters `list_messages` passes on: the query name `from` becomes `from_msisdn`. */
  function FilterOf(params: ListParams): (f: Filter)
    ensures Given(params.from) <==> FromEquals(params.from.GetOr("")) in Conditions(f)
    ensures Given(params.since) <==> TsAtLeast(params.since.GetOr("")) in Conditions(f)
    ensures Given(params.q) <==> TextLike(params.q.GetOr("")) in Conditions(f)
  {
    Filter(params.from, params.since, params.q)
  }

  /** The bounds the query parameters must meet, after defaults. */
  predicate InBounds(params: ListParams) {
    MIN_LIMIT <= params.limit.GetOr(DEFAULT_LIMIT) <= MAX_LIMIT && params.offset.GetOr(DEFAULT_OFFSET) >= MIN_OFFSET
  }

  /** The parameters pass their bounds and the offset can be bound as an SQLite INTEGER. */
  predicate Served(params: ListParams) {
    InBounds(params) && params.offset.GetOr(DEFAULT_OFFSET) <= MAX_SQLITE_INTEGER
  }

  /**
   * `list_messages`. Parameters are checked first; the offset then goes to
   * the data query of `fetch_messages` as a bound parameter.
   */
  function ListMessages(rows: seq<Row>, params: ListParams): (r: Result<ListResponse, ListError>)
    ensures r.Ok? <==> Served(params)
    ensures r.Err? && r.error.Unprocessable? <==> !InBounds(params)
    ensures r == Err(ServerError) <==> InBounds(params) && params.offset.GetOr(DEFAULT_OFFSET) > MAX_SQLITE_INTEGER
    ensures r.Ok? ==>
      && r.value.limit == params.limit.GetOr(DEFAULT_LIMIT)
      && r.value.offset == params.offset.GetOr(DEFAULT_OFFSET)
      && r.value.data == FetchMessages(rows, r.value.limit, r.value.offset, FilterOf(params)).0
      && r.value.total == FetchMessages(rows, r.value.limit, r.value.offset, FilterOf(params)).1
      && |r.value.data| <= r.value.limit <= MAX_LIMIT
    ensures r.Err? && r.error.Unprocessable? ==>
      && |r.error.errors| >= 1
      && (params.limit.GetOr(DEFAULT_LIMIT) < MIN_LIMIT ==> LimitBelowMinimum(params.limit.value) in r.error.errors)
      && (params.limit.GetOr(DEFAULT_LIMIT) > MAX_LIMIT ==> LimitAboveMaximum(params.limit.value) in r.error.errors)
      && (params.offset.GetOr(DEFAULT_OFFSET) < MIN_OFFSET ==> OffsetBelowMinimum(params.offset.value) in r.error.errors)
  {
    var limit := params.limit.GetOr(DEFAULT_LIMIT);
    var offset := params.offset.GetOr(DEFAULT_OFFSET);
    var errors := LimitErrors(limit) + OffsetErrors(offset);
    if errors != [] then Err(Unprocessable(errors))
    else if offset > MAX_SQLITE_INTEGER then Err(ServerError)
    else
      var (data, total) := FetchMessages(rows, limit, offset, FilterOf(params));
      Ok(ListResponse(data, total, limit, offset))
  }

  /** Without parameters the first 50 messages of the whole table are listed, and the total is the row count. */
  lemma ListDefaults(rows: seq<Row>)
    ensures var r := ListMessages(rows, ListParams(None, None, None, None, None));
      && r.Ok? && r.value.limit == 50 && r.value.offset == 0
      && r.value.total == |rows|
      && r.value.data == Items(Page(SortByKey(rows), 50, 0))
  {
    var f := Filter(None, None, None);
    assert Conditions(f) == [];
    WhereAll(rows);
  }

  lemma {:induction false} WhereAll(rows: seq<Row>)
    ensures Where(rows, []) == rows
    decreases |rows|
  {
    if rows != [] {
      calc {
        Where(rows, []);
      == { assert Satisfies(rows[0], []); }
        [rows[0]] + Where(rows[1..], []);
      == { WhereAll(rows[1..]); }
        [rows[0]] + rows[1..];
      ==
        rows;
      }
    }
  }

  /**
   * A successful listing over a table with unique `message_id`s: `total`
   * counts the rows meeting every supplied filter, and `data` holds
   * `min(limit, max(0, total - offset))` of them, in `(ts, message_id)`
   * order, each once.
   */
  lemma ListResponseSpec(rows: seq<Row>, params: ListParams)
    requires UniqueIds(rows)
    requires Served(params)
    ensures var resp := ListMessages(rows, params).value;
      var page := Page(Ordered(rows, FilterOf(params)), resp.limit, resp.offset);
      && resp.total == |set r | r in rows && Selected(FilterOf(params), r)|
      && resp.data == Items(page)
      && |resp.data| == Min(resp.limit, Max(0, resp.total - resp.offset))
      && SortedByKey(page) && UniqueIds(page)
      && (forall r :: r in page ==> r in rows && Selected(FilterOf(params), r))
  {
    var resp := ListMessages(rows, params).value;
    FetchSpec(rows, resp.limit, resp.offset, FilterOf(params));
  }

  /**
   * When every stored message passed the validator, every listed item is a
   * payload the validator accepts, and it gives back a message of the table.
   */
  lemma ListItemsParseBack(rows: seq<Row>, params: ListParams)
    requires AllWellFormed(rows)
    requires Served(params)
    ensures forall item :: item in ListMessages(rows, params).value.data ==>
      Parse(item).Ok? && exists r :: r in rows && Parse(item).value == MessageOf(r)
  {
    var resp := ListMessages(rows, params).value;
    var f := FilterOf(params);
    var page := Page(Ordered(rows, f), resp.limit, resp.offset);
    OrderedSelected(rows, f);
    PageKeeps(Ordered(rows, f), resp.limit, resp.offset);
    ItemsParseBack(rows, page);
  }

  /** Every item of stored validated rows is accepted by the validator and gives back a stored message. */
  lemma ItemsParseBack(rows: seq<Row>, page: seq<Row>)
    requires AllWellFormed(rows)
    requires forall r :: r in page ==> r in rows
    ensures forall item :: item in Items(page) ==>
      Parse(item).Ok? && exists r :: r in rows && Parse(item).value == MessageOf(r)
  {
    var data := Items(page);
    forall item | item in data
      ensures Parse(item).Ok? && exists r :: r in rows && Parse(item).value == MessageOf(r)
    {
      var i :| 0 <= i < |data| && data[i] == item;
      assert page[i] in page;
      ItemRoundTrip(page[i]);
    }
  }

  /** The listing's total for one sender equals that sender's count in the statistics. */
  lemma SenderTotalMatchesStats(rows: seq<Row>, sender: string)
    requires sender != ""
    ensures ListMessages(rows, ListParams(None, None, Some(sender), None, None)).value.total == CountFrom(rows, sender)
  {
    var params := ListParams(None, None, Some(sender), None, None);
    var f := FilterOf(params);
    calc {
      ListMessages(rows, params).value.total;
      FetchMessages(rows, DEFAULT_LIMIT, DEFAULT_OFFSET, f).1;
      |Where(rows, Conditions(f))|;
    == { assert Conditions(f) == [FromEquals(sender)]; }
      |Where(rows, [FromEquals(sender)])|;
    == { WhereCountsSender(rows, sender); }
      CountFrom(rows, sender);
    }
  }

  lemma {:induction false} WhereCountsSender(rows: seq<Row>, sender: string)
    ensures |Where(rows, [FromEquals(sender)])| == CountFrom(rows, sender)
    decreases |rows|
  {
    if rows != [] {
      WhereCountsSender(rows[1..], sender);
      assert Satisfies(rows[0], [FromEquals(sender)]) <==> rows[0].fromMsisdn == sender by {
        assert FromEquals(sender) in [FromEquals(sender)];
      }
    }
  }

  /** `stats`: the statistics of `get_stats`, passed through unchanged. */
  function StatsEndpoint(rows: seq<Row>): (st: Stats)
    ensures st == GetStats(rows)
    ensures st.totalMessages == |rows| && IsTopSenders(rows, st.messagesPerSender, TOP_SENDERS)
  {
    StatsSpec(rows);
    GetStats(rows)
  }
}
