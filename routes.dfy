/** The REST layer of the dashboard: the route table, the JSON response
    helpers and the request-parameter handling of each handler.

    A handler either answers at once (`Respond`) or calls one bridge
    operation (`Call`); `Complete` turns the outcome of that call into the
    response the handler returns (the call's data with status 200, or the
    exception's text with status 500). The bridge operations themselves
    are the other modules of this model; here they are named, not run. */
module Routes {
  import opened Common

  // -----------------------------------------------------------------------
  // responses

  /** The bridge operation a handler calls, with the arguments it passes. */
  datatype BridgeCall =
    | GetDirectoryTree
    | GetDirectoryContents(path: string)
    | GetTableMetadata(path: string)
    | GetTableData(path: string, offset: int, limit: int, orderBy: Option<string>, orderDesc: bool)
    | GetColumnLineage(path: string)
    | GetInformationSchema
    | SearchCall(query: string, limit: int)

  /** The JSON document of a response: `{'error': message}`, the health
      reply `{'status': 'ok'}`, the fixed reply to an empty search, or what
      a bridge call returned. */
  datatype Body = ErrorBody(error: string) | HealthBody | EmptySearchBody | CallResult(call: BridgeCall)

  datatype Response = Response(status: int, contentType: string, headers: seq<(string, string)>, body: Body)

  const CorsHeaders: seq<(string, string)> := [
    ("Access-Control-Allow-Origin", "*"),
    ("Access-Control-Allow-Methods", "GET, POST, OPTIONS"),
    ("Access-Control-Allow-Headers", "Content-Type")]

  /** `json_response`: a JSON body with the CORS headers. */
  function JsonResponse(body: Body, status: int): (r: Response)
    ensures r.status == status && r.body == body && r.contentType == "application/json"
    ensures |r.headers| == 3 && ("Access-Control-Allow-Origin", "*") in r.headers
  {
    Response(status, "application/json", CorsHeaders, body)
  }

  /** `error_response`: `{'error': message}` as a JSON response. */
  function ErrorResponse(message: string, status: int): (r: Response)
    ensures r.status == status && r.body.ErrorBody? && r.body.error == message
    ensures r.contentType == "application/json" && r.headers == CorsHeaders
  {
    JsonResponse(ErrorBody(message), status)
  }

  const TablePathRequired := "Table path is required"

  /** What a handler does with a request. */
  datatype Action = Respond(response: Response) | Call(call: BridgeCall)

  /** The handler's reply once the bridge call has run: `outcome` is `None`
      when it returned and `Some(text)` when it raised with that text. */
  function Complete(action: Action, outcome: Option<string>): Response
  {
    match action
    case Respond(r) => r
    case Call(c) =>
      match outcome
      case None => JsonResponse(CallResult(c), 200)
      case Some(e) => ErrorResponse(e, 500)
  }

  // -----------------------------------------------------------------------
  // query parameters

  type Query = map<string, string>

  /** `request.query.get(key, default)`. */
  function QueryGet(query: Query, key: string, default: string): string
  {
    if key in query then query[key] else default
  }

  /** The ASCII characters Python's `str.isspace` accepts. */
  predicate IsSpace(c: char)
  {
    c == ' ' || c == '\t' || c == '\n' || c == '\r' || c == '\U{B}' || c == '\U{C}'
    || ('\U{1C}' <= c <= '\U{1F}')
  }

  function StripLeft(s: string): (r: string)
    ensures |r| <= |s|
  {
    if |s| > 0 && IsSpace(s[0]) then StripLeft(s[1..]) else s
  }

  function StripRight(s: string): (r: string)
    ensures |r| <= |s|
  {
    if |s| > 0 && IsSpace(s[|s| - 1]) then StripRight(s[..|s| - 1]) else s
  }

  predicate IsDigits(s: string)
  {
    |s| > 0 && forall i :: 0 <= i < |s| ==> '0' <= s[i] <= '9'
  }

  /** Python's `int(text)` in base 10: surrounding whitespace, then an
      optional sign and at least one decimal digit; `None` where `int`
      raises `ValueError`. */
  function ParseInt(text: string): (r: Option<int>)
    ensures r.Some? ==> |StripRight(StripLeft(text))| > 0
    ensures r.Some? && r.value < 0 ==> '-' in text
  {
    StripKeepsChars(text);
    var s := StripRight(StripLeft(text));
    if IsDigits(s) then Some(DigitsValue(s))
    else if |s| > 1 && (s[0] == '-' || s[0] == '+') && IsDigits(s[1..]) then
      Some(if s[0] == '-' then -(DigitsValue(s[1..]) as int) else DigitsValue(s[1..]))
    else None
  }

  /** The text of the `ValueError` that `int(text)` raises. */
  function IntError(text: string): string
  {
    "invalid literal for int() with base 10: '" + text + "'"
  }

  /** Text without surrounding whitespace is left as it is by stripping. */
  lemma StripUnspaced(s: string)
    requires |s| > 0 && !IsSpace(s[0]) && !IsSpace(s[|s| - 1])
    ensures StripRight(StripLeft(s)) == s
  {
  }

  lemma ParseIntOfDigits(s: string)
    requires IsDigits(s)
    ensures ParseInt(s) == Some(DigitsValue(s))
  {
    StripUnspaced(s);
  }

  lemma ParseIntOfNegative(s: string)
    requires IsDigits(s)
    ensures ParseInt("-" + s) == Some(-(DigitsValue(s) as int))
  {
    var t := "-" + s;
    assert t[|t| - 1] == s[|s| - 1];
    StripUnspaced(t);
    assert t[1..] == s;
    assert !IsDigits(t) by { assert t[0] == '-'; }
  }

  /** Decimal text read back by `ParseInt` gives the number it renders. */
  lemma ParseIntRoundTrip(n: int)
    ensures ParseInt(IntToString(n)) == Some(n)
  {
    var m: nat := if n < 0 then -n else n;
    var t := NatToString(m);
    assert IsDigits(t);
    DigitsValueOfNatToString(m);
    if n < 0 {
      assert IntToString(n) == "-" + t;
      ParseIntOfNegative(t);
    } else {
      assert IntToString(n) == t;
      ParseIntOfDigits(t);
    }
  }

  lemma ParseIntDefaults()
    ensures ParseInt("0") == Some(0) && ParseInt("50") == Some(50)
  {
    ParseIntOfDigits("0");
    ParseIntOfDigits("50");
    assert "50"[..1] == "5";
  }

  /** `ParseInt` accepts only text with at least one digit, and rejects the
      empty string and text with a letter. */
  lemma ParseIntRejects(text: string)
    ensures (forall i :: 0 <= i < |text| ==> !('0' <= text[i] <= '9')) ==> ParseInt(text).None?
  {
    var s := StripRight(StripLeft(text));
    if forall i :: 0 <= i < |text| ==> !('0' <= text[i] <= '9') {
      StripKeepsChars(text);
      if |s| > 0 {
        assert s[0] in text;
      }
      if |s| > 1 {
        assert s[1] in text;
        assert s[1..][0] == s[1];
      }
    }
  }

  /** Every character that survives stripping is a character of the text. */
  lemma {:induction false} StripKeepsChars(text: string)
    ensures forall c :: c in StripRight(StripLeft(text)) ==> c in text
  {
    StripLeftKeepsChars(text);
    StripRightKeepsChars(StripLeft(text));
  }

  lemma {:induction false} StripLeftKeepsChars(s: string)
    ensures forall c :: c in StripLeft(s) ==> c in s
  {
    if |s| > 0 && IsSpace(s[0]) {
      StripLeftKeepsChars(s[1..]);
    }
  }

  lemma {:induction false} StripRightKeepsChars(s: string)
    ensures forall c :: c in StripRight(s) ==> c in s
  {
    if |s| > 0 && IsSpace(s[|s| - 1]) {
      StripRightKeepsChars(s[..|s| - 1]);
    }
  }

  // -----------------------------------------------------------------------
  // handlers

  datatype Handler =
    | HealthHandler
    | DirsHandler
    | DirContentsHandler
    | TableHandler
    | TableDataHandler
    | TableLineageHandler
    | SchemaHandler
    | SearchHandler

  const DataLimitCap := 500
  const SearchLimitCap := 100

  /** `handle_get_table_data` after the empty-path check: `offset` is read
      first, then `limit` (default 50, capped at 500, no lower bound), the
      optional `order_by`, and `order_desc`, which is true exactly when its
      text lower-cases to `true`. */
  function TableDataAction(path: string, query: Query): Action
  {
    var offsetText := QueryGet(query, "offset", "0");
    var limitText := QueryGet(query, "limit", "50");
    match ParseInt(offsetText)
    case None => Respond(ErrorResponse(IntError(offsetText), 500))
    case Some(offset) =>
      match ParseInt(limitText)
      case None => Respond(ErrorResponse(IntError(limitText), 500))
      case Some(limit) =>
        var orderBy := if "order_by" in query then Some(query["order_by"]) else None;
        var orderDesc := Lower(QueryGet(query, "order_desc", "false")) == "true";
        Call(GetTableData(path, offset, Min(limit, DataLimitCap), orderBy, orderDesc))
  }

  /** `handle_search`: an empty or missing `q` is answered at once; the
      `limit` defaults to 50 and is capped at 100. */
  function SearchAction(query: Query): Action
  {
    var q := QueryGet(query, "q", "");
    if q == "" then Respond(JsonResponse(EmptySearchBody, 200))
    else
      var limitText := QueryGet(query, "limit", "50");
      match ParseInt(limitText)
      case None => Respond(ErrorResponse(IntError(limitText), 500))
      case Some(limit) => Call(SearchCall(q, Min(limit, SearchLimitCap)))
  }

  /** What handler `h` does with the route's `path` parameter and the
      query parameters. */
  function Handle(h: Handler, path: string, query: Query): (a: Action)
    ensures a.Respond? ==> a.response.headers == CorsHeaders && a.response.contentType == "application/json"
    ensures a.Respond? && a.response.status == 400 <==>
      (h == TableHandler || h == TableDataHandler || h == TableLineageHandler) && path == ""
    ensures a.Call? && a.call.GetTableData? ==> h == TableDataHandler && a.call.path == path && a.call.limit <= DataLimitCap
    ensures a.Call? && a.call.SearchCall? ==> h == SearchHandler && a.call.query != "" && a.call.limit <= SearchLimitCap
  {
    match h
    case HealthHandler => Respond(JsonResponse(HealthBody, 200))
    case DirsHandler => Call(GetDirectoryTree)
    case DirContentsHandler => Call(GetDirectoryContents(path))
    case TableHandler =>
      if path == "" then Respond(ErrorResponse(TablePathRequired, 400)) else Call(GetTableMetadata(path))
    case TableDataHandler =>
      if path == "" then Respond(ErrorResponse(TablePathRequired, 400)) else TableDataAction(path, query)
    case TableLineageHandler =>
      if path == "" then Respond(ErrorResponse(TablePathRequired, 400)) else Call(GetColumnLineage(path))
    case SchemaHandler => Call(GetInformationSchema)
    case SearchHandler => SearchAction(query)
  }

  /** The three table handlers answer an empty path with status 400 and
      the fixed message, without calling the bridge; with a path they call
      the bridge with that path (or fail parsing a number, status 500). */
  lemma EmptyTablePath(h: Handler, path: string, query: Query)
    requires h == TableHandler || h == TableDataHandler || h == TableLineageHandler
    ensures path == "" <==> Handle(h, path, query) == Respond(Response(400, "application/json", CorsHeaders, ErrorBody(TablePathRequired)))
    ensures path != "" && Handle(h, path, query).Call? ==> Handle(h, path, query).call.path == path
    ensures path != "" && Handle(h, path, query).Respond? ==>
      h == TableDataHandler && Handle(h, path, query).response.status == 500
  {
  }

  /** The data handler's parameters: absent parameters give offset 0,
      limit 50 and ascending order; a given limit is capped at 500 but
      never raised; `order_desc` is true exactly when it reads `true` in
      any letter case; a number that does not parse is a 500. */
  lemma TableDataParameters(path: string, query: Query)
    requires path != ""
    ensures "offset" !in query && "limit" !in query && "order_by" !in query && "order_desc" !in query ==>
      Handle(TableDataHandler, path, query) == Call(GetTableData(path, 0, 50, None, false))
    ensures Handle(TableDataHandler, path, query).Call? ==>
      var c := Handle(TableDataHandler, path, query).call;
      && c.limit <= DataLimitCap
      && ("limit" in query ==> c.limit == Min(ParseInt(query["limit"]).value, DataLimitCap))
      && ("offset" in query ==> c.offset == ParseInt(query["offset"]).value)
      && (c.orderDesc <==> "order_desc" in query && Lower(query["order_desc"]) == "true")
      && (c.orderBy.Some? <==> "order_by" in query)
    ensures ParseInt(QueryGet(query, "offset", "0")).None? ==>
      Handle(TableDataHandler, path, query) == Respond(ErrorResponse(IntError(QueryGet(query, "offset", "0")), 500))
  {
    ParseIntDefaults();
    if "order_desc" !in query {
      assert Lower("false") == "false";
    }
  }

  /** The data handler's call once both numbers parse. */
  lemma TableDataCall(path: string, query: Query, offset: int, limit: int)
    requires ParseInt(QueryGet(query, "offset", "0")) == Some(offset)
    requires ParseInt(QueryGet(query, "limit", "50")) == Some(limit)
    ensures TableDataAction(path, query) == Call(GetTableData(path, offset, Min(limit, DataLimitCap),
      if "order_by" in query then Some(query["order_by"]) else None,
      Lower(QueryGet(query, "order_desc", "false")) == "true"))
  {
  }

  /** A number sent as its decimal text reaches the bridge unchanged (the
      limit capped at 500). */
  lemma TableDataNumbers(path: string, offset: int, limit: int)
    requires path != ""
    ensures Handle(TableDataHandler, path, map["offset" := IntToString(offset), "limit" := IntToString(limit)])
      == Call(GetTableData(path, offset, Min(limit, DataLimitCap), None, false))
  {
    var query := map["offset" := IntToString(offset), "limit" := IntToString(limit)];
    assert query.Keys == {"offset", "limit"};
    assert "order_by" !in query && "order_desc" !in query;
    ParseIntRoundTrip(offset);
    ParseIntRoundTrip(limit);
    TableDataCall(path, query, offset, limit);
    assert |Lower("false")| != |"true"|;
  }

  /** An empty or missing search query is answered with the fixed empty
      result without searching; otherwise the search runs with the query
      as given and a limit of at most 100 (50 when absent). */
  lemma SearchParameters(query: Query)
    ensures QueryGet(query, "q", "") == "" <==> Handle(SearchHandler, "", query) == Respond(JsonResponse(EmptySearchBody, 200))
    ensures Handle(SearchHandler, "", query).Call? ==>
      && Handle(SearchHandler, "", query).call == SearchCall(query["q"], Handle(SearchHandler, "", query).call.limit)
      && Handle(SearchHandler, "", query).call.limit <= SearchLimitCap
    ensures QueryGet(query, "q", "") != "" && "limit" !in query ==> Handle(SearchHandler, "", query) == Call(SearchCall(query["q"], 50))
  {
    ParseIntDefaults();
  }

  /** Every reply is JSON with the three CORS headers; a bridge call that
      raises becomes status 500 carrying the exception's text. */
  lemma RepliesCarryCors(h: Handler, path: string, query: Query, outcome: Option<string>)
    ensures Complete(Handle(h, path, query), outcome).headers == CorsHeaders
    ensures Complete(Handle(h, path, query), outcome).contentType == "application/json"
    ensures Handle(h, path, query).Call? && outcome.Some? ==>
      Complete(Handle(h, path, query), outcome) == Response(500, "application/json", CorsHeaders, ErrorBody(outcome.value))
  {
  }

  // -----------------------------------------------------------------------
  // the route table

  /** A route pattern: a fixed path, or `prefix{path:.*}suffix`, whose
      parameter is any text without a line break (`.` of a regular
      expression does not match one). */
  datatype Pattern = Exact(text: string) | Param(prefix: string, suffix: string)

  datatype RouteDef = RouteDef(pattern: Pattern, handler: Handler)

  /** `create_routes`, in order. */
  const ApiRoutes: seq<RouteDef> := [
    RouteDef(Exact("/api/dirs"), DirsHandler),
    RouteDef(Param("/api/dirs/", "/contents"), DirContentsHandler),
    RouteDef(Param("/api/tables/", "/data"), TableDataHandler),
    RouteDef(Param("/api/tables/", "/lineage"), TableLineageHandler),
    RouteDef(Param("/api/tables/", ""), TableHandler),
    RouteDef(Exact("/api/schema"), SchemaHandler),
    RouteDef(Exact("/api/search"), SearchHandler),
    RouteDef(Exact("/api/health"), HealthHandler)]

  /** The `path` parameter when `url` matches the pattern (the empty string
      for a fixed path, which has none). */
  function MatchPattern(p: Pattern, url: string): Option<string>
  {
    match p
    case Exact(text) => if url == text then Some("") else None
    case Param(prefix, suffix) =>
      if |prefix| + |suffix| <= |url| && StartsWith(url, prefix) && EndsWith(url, suffix)
         && '\n' !in url[|prefix|..|url| - |suffix|]
      then Some(url[|prefix|..|url| - |suffix|])
      else None
  }

  /** First-match dispatch: the handler of the first route whose pattern
      matches, with its parameter. */
  function Dispatch(routes: seq<RouteDef>, url: string): (r: Option<(Handler, string)>)
    ensures r.Some? ==> |r.value.1| <= |url| && '\n' !in r.value.1
  {
    if |routes| == 0 then None
    else
      match MatchPattern(routes[0].pattern, url)
      case Some(path) => Some((routes[0].handler, path))
      case None =>
        Dispatch(routes[1..], url)
  }

  /** `Dispatch` picks route `i` exactly when route `i` matches and no
      earlier route does. */
  lemma {:induction false} DispatchIsFirstMatch(routes: seq<RouteDef>, url: string, i: nat)
    requires i < |routes|
    ensures (MatchPattern(routes[i].pattern, url).Some? && forall j :: 0 <= j < i ==> MatchPattern(routes[j].pattern, url).None?)
      ==> Dispatch(routes, url) == Some((routes[i].handler, MatchPattern(routes[i].pattern, url).value))
    ensures Dispatch(routes, url).None? <==> forall j :: 0 <= j < |routes| ==> MatchPattern(routes[j].pattern, url).None?
  {
    if i > 0 {
      DispatchIsFirstMatch(routes[1..], url, i - 1);
      if MatchPattern(routes[0].pattern, url).None? {
        assert forall j :: 0 <= j < |routes| - 1 ==> routes[1..][j] == routes[j + 1];
      }
    } else if |routes| > 1 {
      DispatchIsFirstMatch(routes[1..], url, 0);
      assert forall j :: 0 <= j < |routes| - 1 ==> routes[1..][j] == routes[j + 1];
    }
  }

  /** A request: the handler's action, or `None` when no route matches. */
  function HandleRequest(url: string, query: Query): (r: Option<Action>)
    ensures r.Some? && r.value.Respond? ==>
      r.value.response.headers == CorsHeaders && r.value.response.contentType == "application/json"
    ensures r.Some? && r.value.Call? && r.value.call.GetTableData? ==>
      '\n' !in r.value.call.path && r.value.call.path != "" && r.value.call.limit <= DataLimitCap
  {
    match Dispatch(ApiRoutes, url)
    case None => None
    case Some((h, path)) => Some(Handle(h, path, query))
  }

  /** A parameterised pattern matches exactly the URLs made of its prefix,
      a parameter without a line break, and its suffix. */
  lemma ParamMatch(prefix: string, suffix: string, url: string)
    ensures MatchPattern(Param(prefix, suffix), url).Some? ==>
      && url == prefix + MatchPattern(Param(prefix, suffix), url).value + suffix
      && '\n' !in MatchPattern(Param(prefix, suffix), url).value
  {
    if MatchPattern(Param(prefix, suffix), url).Some? {
      var p := url[|prefix|..|url| - |suffix|];
      assert url == url[..|prefix|] + p + url[|url| - |suffix|..];
    }
  }

  lemma ParamBuild(prefix: string, suffix: string, p: string)
    requires '\n' !in p
    ensures MatchPattern(Param(prefix, suffix), prefix + p + suffix) == Some(p)
  {
    var url := prefix + p + suffix;
    assert url[..|prefix|] == prefix;
    assert url[|url| - |suffix|..] == suffix;
    assert url[|prefix|..|url| - |suffix|] == p;
  }

  /** `/api/tables/{p}/data` reaches the data handler with `p`: it is not
      taken by the catch-all table route listed after it. */
  lemma DataRoute(p: string)
    requires '\n' !in p
    ensures Dispatch(ApiRoutes, "/api/tables/" + p + "/data") == Some((TableDataHandler, p))
  {
    var url := "/api/tables/" + p + "/data";
    ParamBuild("/api/tables/", "/data", p);
    assert url[5] != "/api/dirs/"[5];
    assert MatchPattern(ApiRoutes[0].pattern, url).None?;
    assert MatchPattern(ApiRoutes[1].pattern, url).None?;
    DispatchIsFirstMatch(ApiRoutes, url, 2);
  }

  /** `/api/tables/{p}/lineage` reaches the lineage handler with `p`. */
  lemma LineageRoute(p: string)
    requires '\n' !in p
    ensures Dispatch(ApiRoutes, "/api/tables/" + p + "/lineage") == Some((TableLineageHandler, p))
  {
    var url := "/api/tables/" + p + "/lineage";
    ParamBuild("/api/tables/", "/lineage", p);
    LineageSkipsEarlier(url);
    DispatchIsFirstMatch(ApiRoutes, url, 3);
  }

  /** No route listed before the lineage route matches a lineage URL. */
  lemma LineageSkipsEarlier(url: string)
    requires EndsWith(url, "/lineage") && StartsWith(url, "/api/tables/")
    ensures forall j :: 0 <= j < 3 ==> MatchPattern(ApiRoutes[j].pattern, url).None?
  {
    assert url[5] != "/api/dirs/"[5];
    assert url[|url| - 1] != "/data"[4];
    assert MatchPattern(ApiRoutes[0].pattern, url).None?;
    assert MatchPattern(ApiRoutes[1].pattern, url).None?;
    assert MatchPattern(ApiRoutes[2].pattern, url).None?;
  }

  /** The route dispatch picks matches the URL with the parameter it
      passes on. */
  lemma {:induction false} DispatchMatches(routes: seq<RouteDef>, url: string, h: Handler, p: string)
    requires Dispatch(routes, url) == Some((h, p))
    ensures exists i :: 0 <= i < |routes| && routes[i].handler == h && MatchPattern(routes[i].pattern, url) == Some(p)
  {
    if MatchPattern(routes[0].pattern, url).None? {
      DispatchMatches(routes[1..], url, h, p);
      var i :| 0 <= i < |routes[1..]| && routes[1..][i].handler == h && MatchPattern(routes[1..][i].pattern, url) == Some(p);
      assert routes[i + 1] == routes[1..][i];
    }
  }

  /** What reaches the catch-all table route is `/api/tables/` and the
      path. */
  lemma TableRouteUrl(url: string, p: string)
    requires Dispatch(ApiRoutes, url) == Some((TableHandler, p))
    ensures url == "/api/tables/" + p && '\n' !in p
  {
    DispatchMatches(ApiRoutes, url, TableHandler, p);
    var i :| 0 <= i < |ApiRoutes| && ApiRoutes[i].handler == TableHandler && MatchPattern(ApiRoutes[i].pattern, url) == Some(p);
    assert i == 4;
    ParamMatch("/api/tables/", "", url);
  }

  /** A path with a final segment `suffix` is the text before it, that
      segment, and no line break in the text before it. */
  lemma SplitSuffix(p: string, suffix: string) returns (q: string)
    requires EndsWith(p, suffix) && '\n' !in p
    ensures p == q + suffix && '\n' !in q
  {
    q := p[..|p| - |suffix|];
    assert p == q + suffix;
    forall k | 0 <= k < |q| ensures q[k] != '\n' { assert q[k] == p[k]; }
  }

  /** The catch-all table route never receives a path ending in `/data` or
      `/lineage`: such a request goes to the route listed before it. */
  lemma TableRouteExcludesSuffixes(url: string, p: string)
    requires Dispatch(ApiRoutes, url) == Some((TableHandler, p))
    ensures !EndsWith(p, "/data") && !EndsWith(p, "/lineage")
  {
    TableRouteUrl(url, p);
    if EndsWith(p, "/data") {
      var q := SplitSuffix(p, "/data");
      assert url == "/api/tables/" + q + "/data";
      DataRoute(q);
    }
    if EndsWith(p, "/lineage") {
      var q := SplitSuffix(p, "/lineage");
      assert url == "/api/tables/" + q + "/lineage";
      LineageRoute(q);
    }
  }

  /** `/api/tables/data` is too short for the data route (its parameter
      would have to sit between `/api/tables/` and `/data`), so it reaches
      the table-metadata handler with the path `data`. */
  lemma BareDataPath()
    ensures HandleRequest("/api/tables/data", map[]) == Some(Call(GetTableMetadata("data")))
  {
    var url := "/api/tables/data";
    assert url == "/api/tables/" + "data" + "";
    ParamBuild("/api/tables/", "", "data");
    BareDataSkipsEarlier(url);
    DispatchIsFirstMatch(ApiRoutes, url, 4);
    assert Dispatch(ApiRoutes, url) == Some((TableHandler, "data"));
    assert Handle(TableHandler, "data", map[]) == Call(GetTableMetadata("data"));
  }

  /** No route listed before the catch-all table route matches
      `/api/tables/data`. */
  lemma BareDataSkipsEarlier(url: string)
    requires url == "/api/tables/data"
    ensures forall j :: 0 <= j < 4 ==> MatchPattern(ApiRoutes[j].pattern, url).None?
  {
    assert url[5] != "/api/dirs/"[5];
    assert MatchPattern(ApiRoutes[0].pattern, url).None?;
    assert MatchPattern(ApiRoutes[1].pattern, url).None?;
    assert MatchPattern(ApiRoutes[2].pattern, url).None?;
    assert MatchPattern(ApiRoutes[3].pattern, url).None?;
  }
}
