/** The dispatcher of `HttpServer`: `__strip_params`, `__parse_return_data`,
    `__handle_get_request`, `__receive_http_request` and `__handle_client`. */
module Dispatch {
  import opened Wrappers
  import opened Text
  import opened Paths
  import opened Constants
  import opened Routes
  import opened RequestParsing
  import opened RequestFraming
  import opened ServerState
  import opened Access
  import opened Responses

  // Query strings

  /** `[param.split("=") for param in params]` unpacked into `k, v`: a piece
      that does not split into exactly two raises. */
  function ParamPairs(params: seq<string>): (r: Outcome<seq<(string, string)>>)
    ensures r.Ok? ==> |r.value| == |params|
  {
    if |params| == 0 then Ok([])
    else
      var kv := Split(params[0], "=");
      if |kv| != 2 then Crash
      else
        var rest :- ParamPairs(params[1..]);
        Ok([(kv[0], kv[1])] + rest)
  }

  /** `__strip_params` on `str(path)`, with `__make_path` on a string
      (`StrPath`). Without `?` the path is only parsed again; otherwise the
      text must split at `?` into exactly two parts, the second a
      `&`-separated list of `k=v` pieces. Later keys overwrite earlier
      ones. */
  function StripQuery(root: Path, s: string): Outcome<(Path, map<string, string>)> {
    if '?' !in s then
      Ok((StrPath(root, s), map[]))
    else
      var parts := Split(s, "?");
      if |parts| != 2 then Crash
      else
        var pairs :- ParamPairs(Split(parts[1], "&"));
        Ok((StrPath(root, parts[0]), BuildMap(pairs)))
  }

  /** `HttpServer.__strip_params` */
  function StripParams(v: ServerView, path: Path): Outcome<(Path, map<string, string>)> {
    StripQuery(v.root, PathString(path))
  }

  /** A piece raises exactly when it does not hold exactly one `=`. */
  lemma ParamPairsCrash(params: seq<string>)
    ensures ParamPairs(params).Crash? <==> exists k :: 0 <= k < |params| && |Split(params[k], "=")| != 2
  {
    if |params| > 0 {
      ParamPairsCrash(params[1..]);
      if exists k :: 0 <= k < |params[1..]| && |Split(params[1..][k], "=")| != 2 {
        var k :| 0 <= k < |params[1..]| && |Split(params[1..][k], "=")| != 2;
        assert params[k + 1] == params[1..][k];
      }
      if exists k :: 0 <= k < |params| && |Split(params[k], "=")| != 2 {
        var k :| 0 <= k < |params| && |Split(params[k], "=")| != 2;
        if k > 0 {
          assert params[1..][k - 1] == params[k];
        }
      }
    }
  }

  /** A query as a client writes it: `k=v` pieces joined by `&`. */
  function QueryString(pairs: seq<(string, string)>): string {
    Join(ParamStrings(pairs), "&")
  }

  function ParamStrings(pairs: seq<(string, string)>): (r: seq<string>)
    ensures |r| == |pairs| && forall k :: 0 <= k < |r| ==> r[k] == pairs[k].0 + "=" + pairs[k].1
  {
    if |pairs| == 0 then [] else [pairs[0].0 + "=" + pairs[0].1] + ParamStrings(pairs[1..])
  }

  /** Keys and values a query can carry: no `?`, `&` or `=`. */
  predicate QueryText(s: string) {
    '?' !in s && '&' !in s && '=' !in s
  }

  predicate QueryPairs(pairs: seq<(string, string)>) {
    forall k :: 0 <= k < |pairs| ==> QueryText(pairs[k].0) && QueryText(pairs[k].1)
  }

  lemma {:induction false} ParamPairsOfStrings(pairs: seq<(string, string)>)
    requires QueryPairs(pairs)
    ensures ParamPairs(ParamStrings(pairs)) == Ok(pairs)
  {
    if |pairs| > 0 {
      SplitPair(pairs[0].0, pairs[0].1, '=');
      ParamPairsOfStrings(pairs[1..]);
      assert ParamStrings(pairs)[1..] == ParamStrings(pairs[1..]);
      assert [pairs[0]] + pairs[1..] == pairs;
    }
  }

  /** A joined piece holds neither `&` nor `?`. */
  lemma ParamStringsFree(pairs: seq<(string, string)>)
    requires QueryPairs(pairs)
    ensures forall k :: 0 <= k < |pairs| ==> NoOccurrence(ParamStrings(pairs)[k], "&") && '?' !in ParamStrings(pairs)[k]
  {
    forall k | 0 <= k < |pairs|
      ensures NoOccurrence(ParamStrings(pairs)[k], "&") && '?' !in ParamStrings(pairs)[k]
    {
      NoCharOccurrence(ParamStrings(pairs)[k], '&');
    }
  }

  /** No `?` in a joined query. */
  lemma {:induction false} JoinKeepsOut(parts: seq<string>, c: char, sep: string)
    requires c !in sep && forall k :: 0 <= k < |parts| ==> c !in parts[k]
    ensures c !in Join(parts, sep)
  {
    if |parts| > 1 {
      JoinKeepsOut(parts[1..], c, sep);
    }
  }

  /** The query a client writes comes back as the parameters: the base path
      parsed, and for each key the value written last. */
  lemma StripQueryRoundTrip(root: Path, base: string, pairs: seq<(string, string)>)
    requires IsAbs(base) && '?' !in base
    requires |pairs| > 0 && QueryPairs(pairs)
    ensures StripQuery(root, base + "?" + QueryString(pairs)) == Ok((PurePath(base), BuildMap(pairs)))
  {
    var strs := ParamStrings(pairs);
    var q := QueryString(pairs);
    ParamStringsFree(pairs);
    JoinKeepsOut(strs, '?', "&");
    SplitPair(base, q, '?');
    assert '?' in base + "?" + q by {
      assert (base + "?" + q)[|base|] == '?';
    }
    assert NoBorder("&");
    SplitJoin(strs, "&");
    ParamPairsOfStrings(pairs);
  }

  /** A path without `?` keeps its segments and gets no parameters. */
  lemma StripParamsPlain(v: ServerView, p: Path)
    requires forall k :: 0 <= k < |p| ==> IsSegment(p[k]) && '?' !in p[k]
    ensures StripParams(v, p) == Ok((p, map[]))
  {
    JoinKeepsOut(p, '?', "/");
    assert '?' !in PathString(p) by {
      assert PathString(p) == "/" + Join(p, "/");
    }
    PurePathOfString(p);
  }

  /** A second `?` raises. */
  lemma TwoQuestionMarks(root: Path, a: string, b: string, c: string)
    ensures StripQuery(root, a + "?" + b + "?" + c).Crash?
  {
    var s := a + "?" + b + "?" + c;
    assert s == a + "?" + (b + "?" + c);
    assert NoBorder("?");
    SplitConcat(a, b + "?" + c, "?");
    SplitConcat(b, c, "?");
    assert s[|a|] == '?';
  }

  /** A piece without `=` raises. */
  lemma PieceWithoutEquals(root: Path, base: string, piece: string)
    requires '?' !in base && '?' !in piece && '&' !in piece && '=' !in piece
    ensures StripQuery(root, base + "?" + piece).Crash?
  {
    var s := base + "?" + piece;
    SplitPair(base, piece, '?');
    assert s[|base|] == '?';
    SplitNoChar(piece, '&');
    SplitNoChar(piece, '=');
  }

  // Handler results

  /** What a handler returns: `None`, an `int`, a `dict` with any of the keys
      `status_code`, `content_type` and `body`, or another value. */
  datatype Ret =
    | NoneRet
    | IntRet(code: int)
    | DictRet(status: Option<int>, contentType: Option<string>, body: Option<Payload>)
    | ValueRet(value: Payload)

  /** The normalised result: a status, a content type and a body. */
  datatype RetData = RetData(status: int, contentType: string, body: Payload)

  /** `__parse_return_data`: `None` stays `None`; a `dict` keeps its fields
      and gets the missing ones; an `int` is a status; anything else is a body
      served with 200. */
  function ParseReturnData(ret: Ret): (r: Option<RetData>)
    ensures r.None? <==> ret.NoneRet?
  {
    match ret
    case NoneRet => None
    case DictRet(s, t, b) =>
      Some(RetData(s.GetOr(OK), t.GetOr(DefaultContentType), b.GetOr(Body(""))))
    case IntRet(c) => Some(RetData(c, DefaultContentType, Body("")))
    case ValueRet(x) => Some(RetData(OK, DefaultContentType, x))
  }

  /** The normalised result written back as a `dict` normalises to itself. */
  function AsDict(d: RetData): Ret {
    DictRet(Some(d.status), Some(d.contentType), Some(d.body))
  }

  lemma ParseReturnDataIdempotent(ret: Ret)
    requires !ret.NoneRet?
    ensures ParseReturnData(AsDict(ParseReturnData(ret).value)) == ParseReturnData(ret)
  {
  }

  /** A field the `dict` gives is kept; a missing one takes its default. An
      `int` and a plain value agree with the `dict` that spells them out. */
  lemma ParseReturnDataFields(ret: Ret)
    ensures ret.DictRet? ==> var d := ParseReturnData(ret).value;
      (ret.status.Some? ==> d.status == ret.status.value) && (ret.status.None? ==> d.status == OK) &&
      (ret.contentType.Some? ==> d.contentType == ret.contentType.value) && (ret.contentType.None? ==> d.contentType == DefaultContentType) &&
      (ret.body.Some? ==> d.body == ret.body.value) && (ret.body.None? ==> d.body == Body(""))
    ensures ret.IntRet? ==> ParseReturnData(ret) == ParseReturnData(DictRet(Some(ret.code), None, None))
    ensures ret.ValueRet? ==> ParseReturnData(ret) == ParseReturnData(DictRet(None, None, Some(ret.value)))
  {
  }

  // Handling a request

  /** A user handler, called with the request, the parameters and the body
      (which travels inside the request): what it returns, or the exception
      it raises. Its code is not modelled. */
  type HandlerRun = (HandlerId, Request, map<string, string>) -> Outcome<Ret>

  /** Lines 160-168 and 175-182: the file's status, then its error page, or
      the file itself. */
  function ServeFile(v: ServerView, fs: FileSystem, req: Request, p: Path): Outcome<Bytes> {
    var code :- GetFileCode(v, fs, p);
    if code != OK then
      var page :- GetErrorPage(v, fs, code);
      SendPage(v, Some(req), code, Body(page), Some("text/html"))
    else
      var data :- ReadFile(fs, p);
      SendPage(v, Some(req), OK, Body(data), None)
  }

  /** `__handle_get_request`. A path with no route is served from disk when
      it is accessible; otherwise `route.handler` is looked up on `None` and
      raises. A handler that returns `None` has its route's path served. */
  function HandleGetRequest(v: ServerView, fs: FileSystem, req: Request, run: HandlerRun): Outcome<Bytes> {
    var requested :- MakePath(v.root, req.path);
    var (path, params) :- StripParams(v, requested);
    var req := req.(path := PObj(path));
    if path !in v.routes then
      if IsFileAccessible(v, path) then ServeFile(v, fs, req, path)
      else Crash
    else
      var route := v.routes[path];
      var ret :- run(route.handler, req, params);
      match ParseReturnData(ret)
      case None =>
        var target :- MakePath(v.root, route.path);
        ServeFile(v, fs, req, target)
      case Some(d) =>
        if d.status != OK then
          var page :- GetErrorPage(v, fs, d.status);
          SendPage(v, Some(req), d.status, Body(page), Some("text/html"))
        else SendPage(v, Some(req), d.status, d.body, Some(d.contentType))
  }

  /** `__receive_http_request`: a read error is passed on; otherwise the
      bytes are parsed, which may raise. The working directory is the server
      root, as `set_root` changes into it. */
  function ReceiveHttpRequest(v: ServerView, r: ReadResult): Outcome<Reading> {
    match r
    case ReadError(code) => Ok(ReadFailed(code))
    case Received(data) =>
      var req :- ParseBytes(data, v.root);
      Ok(Parsed(req))
  }

  datatype Reading = ReadFailed(code: int) | Parsed(req: Request)

  /** The methods `__handle_client` dispatches. */
  predicate Dispatched(verb: string) {
    verb == "GET" || verb == "POST"
  }

  /** `__handle_client` after the read: the bytes sent, or the exception. A
      read error is answered by `__send_page(req, client, page, ...)` with
      the page where the status belongs and no content type, so `req.path`
      is looked up on `None` and raises. */
  function Respond(v: ServerView, fs: FileSystem, r: ReadResult, run: HandlerRun): Outcome<Bytes> {
    var reading :- ReceiveHttpRequest(v, r);
    match reading
    case ReadFailed(code) =>
      var page :- GetErrorPage(v, fs, code);
      SendPage(v, None, code, Body(IntToString(code)), None)
    case Parsed(req) =>
      if !Dispatched(req.verb) then
        var page :- GetErrorPage(v, fs, MethodNotAllowed);
        SendPage(v, Some(req), MethodNotAllowed, Body(page), None)
      else HandleGetRequest(v, fs, req, run)
  }

  /** What a connection sees: the responses sent on it, and whether the
      server shut it down and closed it. An exception escapes the worker
      before either. */
  datatype Exchange = Exchange(sent: seq<Bytes>, closed: bool)

  function Conclude(out: Outcome<Bytes>): (e: Exchange)
    ensures e.closed <==> out.Ok?
    ensures |e.sent| <= 1 && (e.closed ==> e.sent == [out.value])
  {
    match out
    case Ok(b) => Exchange([b], true)
    case Crash => Exchange([], false)
  }

  /** One connection, from the first byte read to the close. */
  function Serve(v: ServerView, fs: FileSystem, input: seq<RecvEvent>, run: HandlerRun): Exchange {
    Conclude(Respond(v, fs, ExpectedReceive(input).result, run))
  }

  // Properties of the dispatcher

  /** A read error never gets an answer: the connection is left to the
      exception. */
  lemma ReadErrorUnanswered(v: ServerView, fs: FileSystem, code: int, run: HandlerRun)
    ensures Respond(v, fs, ReadError(code), run).Crash?
  {
  }

  /** GET and POST take the same path: a parsed request with either method
      goes to `__handle_get_request` (a handler still sees the method). */
  lemma PostHandledAsGet(v: ServerView, fs: FileSystem, data: Bytes, req: Request, run: HandlerRun)
    requires ParseBytes(data, v.root) == Ok(req) && (req.verb == "GET" || req.verb == "POST")
    ensures Respond(v, fs, Received(data), run) == HandleGetRequest(v, fs, req, run)
  {
  }

  /** Only GET and POST reach a handler: any other method is answered with
      405 whatever the handlers do, with the error page as the body. */
  lemma OtherMethodsRefused(v: ServerView, fs: FileSystem, data: Bytes, req: Request, run1: HandlerRun, run2: HandlerRun)
    requires ParseBytes(data, v.root) == Ok(req) && !Dispatched(req.verb)
    ensures Respond(v, fs, Received(data), run1) == Respond(v, fs, Received(data), run2)
    ensures GetErrorPage(v, fs, MethodNotAllowed).Ok? ==>
      Respond(v, fs, Received(data), run1) == SendPage(v, Some(req), MethodNotAllowed, Body(GetErrorPage(v, fs, MethodNotAllowed).value), None)
  {
  }

  /** The 405 answer is sent, and its status line says so. */
  lemma MethodNotAllowedSent(v: ServerView, fs: FileSystem, data: Bytes, req: Request, run: HandlerRun)
    requires ParseBytes(data, v.root) == Ok(req) && !Dispatched(req.verb)
    requires GetErrorPage(v, fs, MethodNotAllowed).Ok?
    ensures Respond(v, fs, Received(data), run).Ok?
    ensures StartsWith(Respond(v, fs, Received(data), run).value, req.protocol + " 405 Method Not Allowed" + CRLF)
  {
    var page := GetErrorPage(v, fs, MethodNotAllowed).value;
    var ct := PageContentType(v, Some(req)).value;
    var headers := PageHeaders(|page|, ct);
    var sl := StatusLine(Some(req), MethodNotAllowed);
    OtherMethodsRefused(v, fs, data, req, run, run);
    SendPageBuilds(v, Some(req), MethodNotAllowed, page, None, ct, headers);
    MethodNotAllowedStatusLine(req);
    ResponseStartsWithStatusLine(sl, headers, page);
  }

  /** A refused method gets exactly one send, the 405 answer, and the
      connection is closed. */
  lemma MethodNotAllowedServed(v: ServerView, fs: FileSystem, input: seq<RecvEvent>, data: Bytes, req: Request, run: HandlerRun)
    requires ExpectedReceive(input).result == Received(data)
    requires ParseBytes(data, v.root) == Ok(req) && !Dispatched(req.verb)
    requires GetErrorPage(v, fs, MethodNotAllowed).Ok?
    ensures Serve(v, fs, input, run).closed && |Serve(v, fs, input, run).sent| == 1
    ensures StartsWith(Serve(v, fs, input, run).sent[0], req.protocol + " 405 Method Not Allowed" + CRLF)
  {
    MethodNotAllowedSent(v, fs, data, req, run);
  }

  /** A path with no route that is not accessible, whatever its query
      string, reaches `route.handler` with no route, which raises. */
  lemma UnroutedInaccessibleRaises(v: ServerView, fs: FileSystem, req: Request, run: HandlerRun,
                                   path: Path, params: map<string, string>)
    requires MakePath(v.root, req.path).Ok?
    requires StripParams(v, MakePath(v.root, req.path).value) == Ok((path, params))
    requires path !in v.routes && !IsFileAccessible(v, path)
    ensures HandleGetRequest(v, fs, req, run).Crash?
  {
  }

  /** A path with no route is served from disk without consulting any
      handler. */
  lemma UnroutedIgnoresHandlers(v: ServerView, fs: FileSystem, req: Request, run1: HandlerRun, run2: HandlerRun)
    requires MakePath(v.root, req.path).Ok?
    requires StripParams(v, MakePath(v.root, req.path).value).Ok?
    requires StripParams(v, MakePath(v.root, req.path).value).value.0 !in v.routes
    ensures HandleGetRequest(v, fs, req, run1) == HandleGetRequest(v, fs, req, run2)
  {
  }

  /** A path with no route that is accessible is served as a file; the
      query string is stripped first and plays no part. */
  lemma UnroutedServedAsFile(v: ServerView, fs: FileSystem, req: Request, run: HandlerRun, p: Path, params: map<string, string>)
    requires MakePath(v.root, req.path).Ok?
    requires StripParams(v, MakePath(v.root, req.path).value) == Ok((p, params))
    requires p !in v.routes && IsFileAccessible(v, p)
    ensures HandleGetRequest(v, fs, req, run) == ServeFile(v, fs, req.(path := PObj(p)), p)
  {
  }

  /** A file that passes the chain is sent with 200 and its contents, typed
      by its name. */
  lemma ReadableFileServed(v: ServerView, fs: FileSystem, req: Request, p: Path)
    requires MovedStatuses(v.moved) && Coherent(fs)
    requires req.path == PObj(p) && p !in v.routes && FileCode(v, fs, p) == OK
    ensures p in fs.contents
    ensures ServeFile(v, fs, req, p) == Ok(ResponseBytes(StatusLine(Some(req), OK),
      PageHeaders(|fs.contents[p]|, GetContentType(PathString(p))), fs.contents[p]))
  {
    ReadableAfterOk(v, fs, p);
  }

  /** An answer built from a one-line status line and well-formed headers
      reads back as its parts. */
  lemma ReadBack(out: Outcome<Bytes>, statusLine: string, headers: seq<(string, string)>, body: Bytes)
    requires out == Ok(ResponseBytes(statusLine, headers, body))
    requires SingleLine(statusLine) && WellFormedFields(headers)
    ensures out.Ok? && ReadResponse(out.value) == Some(ResponseParts(statusLine, headers, body))
  {
    ReadConstructed(statusLine, headers, body);
  }

  /** A readable file under the allow-list, with no route, is answered with
      200 and its contents, whatever query string the target carries. */
  lemma AccessibleFileAnswered(v: ServerView, fs: FileSystem, req: Request, run: HandlerRun, p: Path, params: map<string, string>)
    requires MovedStatuses(v.moved) && Coherent(fs)
    requires MakePath(v.root, req.path).Ok?
    requires StripParams(v, MakePath(v.root, req.path).value) == Ok((p, params))
    requires p !in v.routes && FileCode(v, fs, p) == OK
    ensures p in fs.contents
    ensures HandleGetRequest(v, fs, req, run) == Ok(ResponseBytes(req.protocol + " 200 OK",
      PageHeaders(|fs.contents[p]|, GetContentType(PathString(p))), fs.contents[p]))
  {
    var r := req.(path := PObj(p));
    assert IsFileAccessible(v, p) by {
      FileCodeOk(v, fs, p);
      assert !Fires(v, fs, p, Chain[1]);
    }
    UnroutedServedAsFile(v, fs, req, run, p, params);
    ReadableFileServed(v, fs, r, p);
    OkStatusLine(r);
  }

  /** A readable file under the allow-list, with no route, is sent with 200,
      its contents as the body, a `Content-Length` of its size and the type
      its name gives. */
  lemma AccessibleFileSent(v: ServerView, fs: FileSystem, req: Request, run: HandlerRun, p: Path, params: map<string, string>)
    requires MovedStatuses(v.moved) && Coherent(fs)
    requires SingleLine(req.protocol)
    requires MakePath(v.root, req.path).Ok?
    requires StripParams(v, MakePath(v.root, req.path).value) == Ok((p, params))
    requires p !in v.routes && FileCode(v, fs, p) == OK
    ensures p in fs.contents && HandleGetRequest(v, fs, req, run).Ok?
    ensures ReadResponse(HandleGetRequest(v, fs, req, run).value)
      == Some(ResponseParts(req.protocol + " 200 OK", PageHeaders(|fs.contents[p]|, GetContentType(PathString(p))), fs.contents[p]))
  {
    AccessibleFileAnswered(v, fs, req, run, p, params);
    OkPageReadsBack(HandleGetRequest(v, fs, req, run), req.protocol, GetContentType(PathString(p)), fs.contents[p]);
  }

  /** A 200 page with a one-line protocol reads back as its parts. */
  lemma OkPageReadsBack(out: Outcome<Bytes>, protocol: string, ct: string, body: Bytes)
    requires out == Ok(ResponseBytes(protocol + " 200 OK", PageHeaders(|body|, ct), body))
    requires SingleLine(protocol) && IsMediaType(ct)
    ensures out.Ok? && ReadResponse(out.value) == Some(ResponseParts(protocol + " 200 OK", PageHeaders(|body|, ct), body))
  {
    PageHeadersWellFormed(|body|, ct);
    ReadBack(out, protocol + " 200 OK", PageHeaders(|body|, ct), body);
  }

  /** On a path with a route, of all the handlers only the route's own,
      called with the request and its parameters, decides the answer. */
  lemma RoutedOnlyHandlerMatters(v: ServerView, fs: FileSystem, req: Request, run1: HandlerRun, run2: HandlerRun,
                                 p: Path, params: map<string, string>)
    requires MakePath(v.root, req.path).Ok?
    requires StripParams(v, MakePath(v.root, req.path).value) == Ok((p, params)) && p in v.routes
    requires run1(v.routes[p].handler, req.(path := PObj(p)), params) == run2(v.routes[p].handler, req.(path := PObj(p)), params)
    ensures HandleGetRequest(v, fs, req, run1) == HandleGetRequest(v, fs, req, run2)
  {
  }

  /** A handler that returns bytes has them sent with 200, typed as plain
      text. */
  lemma HandlerBytesSent(v: ServerView, fs: FileSystem, req: Request, run: HandlerRun,
                         p: Path, params: map<string, string>, b: Bytes)
    requires MakePath(v.root, req.path).Ok?
    requires StripParams(v, MakePath(v.root, req.path).value) == Ok((p, params)) && p in v.routes
    requires run(v.routes[p].handler, req.(path := PObj(p)), params) == Ok(ValueRet(Body(b)))
    ensures HandleGetRequest(v, fs, req, run)
      == Ok(ResponseBytes(StatusLine(Some(req.(path := PObj(p))), OK), PageHeaders(|b|, DefaultContentType), b))
  {
    SendPageBuilds(v, Some(req.(path := PObj(p))), OK, b, Some(DefaultContentType), DefaultContentType, PageHeaders(|b|, DefaultContentType));
  }

  /** A handler that returns a status other than 200 has the error page for
      that status sent, typed as HTML (the reason phrase when no page is
      registered); when the page's file cannot be read, the request raises. */
  lemma HandlerCodeAnswered(v: ServerView, fs: FileSystem, req: Request, run: HandlerRun,
                            p: Path, params: map<string, string>, code: int)
    requires MakePath(v.root, req.path).Ok?
    requires StripParams(v, MakePath(v.root, req.path).value) == Ok((p, params)) && p in v.routes
    requires run(v.routes[p].handler, req.(path := PObj(p)), params) == Ok(IntRet(code)) && code != OK
    ensures GetErrorPage(v, fs, code).Crash? ==> HandleGetRequest(v, fs, req, run).Crash?
    ensures GetErrorPage(v, fs, code).Ok? ==>
      HandleGetRequest(v, fs, req, run) == SendPage(v, Some(req.(path := PObj(p))), code, Body(GetErrorPage(v, fs, code).value), Some("text/html"))
  {
  }

  /** A moved path with no route is redirected, whatever its query string:
      its stored status, and a `Location` naming the new path. */
  lemma MovedPathRedirected(v: ServerView, fs: FileSystem, req: Request, run: HandlerRun, p: Path, params: map<string, string>)
    requires MovedStatuses(v.moved)
    requires MakePath(v.root, req.path).Ok?
    requires StripParams(v, MakePath(v.root, req.path).value) == Ok((p, params))
    requires p !in v.routes && p !in v.blacklisted && IsFileAccessible(v, p) && p in v.moved
    requires GetErrorPage(v, fs, v.moved[p].status).Ok?
    ensures var page := GetErrorPage(v, fs, v.moved[p].status).value;
      HandleGetRequest(v, fs, req, run)
      == Ok(ResponseBytes(StatusLine(Some(req.(path := PObj(p))), v.moved[p].status),
                          PageHeaders(|page|, "text/html") + [("Location", PathString(v.moved[p].newPath))], page))
  {
    MovedBeforeDisk(v, fs, p);
  }

  /** An exception from a handler escapes `__handle_client`: nothing is sent
      and the connection is neither shut down nor closed. */
  lemma HandlerRaisesUnanswered(v: ServerView, fs: FileSystem, input: seq<RecvEvent>, data: Bytes, req: Request,
                                run: HandlerRun, p: Path, params: map<string, string>)
    requires ExpectedReceive(input).result == Received(data)
    requires ParseBytes(data, v.root) == Ok(req) && Dispatched(req.verb)
    requires MakePath(v.root, req.path).Ok?
    requires StripParams(v, MakePath(v.root, req.path).value) == Ok((p, params)) && p in v.routes
    requires run(v.routes[p].handler, req.(path := PObj(p)), params).Crash?
    ensures Serve(v, fs, input, run) == Exchange([], false)
  {
    assert HandleGetRequest(v, fs, req, run).Crash?;
  }
}
