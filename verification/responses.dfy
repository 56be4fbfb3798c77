/** What the server writes back: `HttpServer.__get_content_type`,
    `__construct_http_response`, `__send_page` and `__get_error_page`. */
module Responses {
  import opened Wrappers
  import opened Text
  import opened Paths
  import opened Constants
  import opened RequestParsing
  import opened ServerState

  /** A body handed to `__send_page`: bytes or a `str` (the same octets
      here), or a value of another type, on which `len` or `.encode()`
      raises. */
  datatype Payload = Body(b: Bytes) | Other

  // Content types

  /** `__get_content_type`: the text after the last dot, looked up among the
      known extensions, `plain/text` otherwise. */
  function GetContentType(path: string): (r: string)
    ensures IsMediaType(r)
  {
    ContentTypeValues();
    var pieces := Split(path, ".");
    var ext := pieces[|pieces| - 1];
    if ext in ContentTypes then ContentTypes[ext] else DefaultContentType
  }

  /** The type of `<base>.<ext>` is the one registered for `ext`, whatever
      dots `base` holds. */
  lemma ContentTypeOfName(base: string, ext: string)
    requires '.' !in ext
    ensures GetContentType(base + "." + ext) == if ext in ContentTypes then ContentTypes[ext] else DefaultContentType
  {
    assert NoBorder(".");
    SplitConcat(base, ext, ".");
    SplitNoChar(ext, '.');
  }

  /** A name without a dot is looked up whole: `str(None)` is `"None"`, which
      is served as `plain/text`. */
  lemma ContentTypeWithoutDot(path: string)
    requires '.' !in path
    ensures GetContentType(path) == if path in ContentTypes then ContentTypes[path] else DefaultContentType
    ensures GetContentType("None") == DefaultContentType
  {
    SplitNoChar(path, '.');
    SplitNoChar("None", '.');
  }

  /** `/srv/site/index.html` is served as `text/html`. */
  lemma HtmlFileType()
    ensures GetContentType("/srv/site/index.html") == "text/html"
  {
    assert "/srv/site/index.html" == "/srv/site/index" + "." + "html";
    ContentTypeOfName("/srv/site/index", "html");
  }

  // The response bytes

  /** `<protocol or HTTP/1.1> <code> <reason or Unknown Error>` */
  function StatusLine(req: Option<Request>, status: int): string {
    (if req.Some? then req.value.protocol else "HTTP/1.1") + " " + IntToString(status) + " " + Reason(status)
  }

  /** The status line, one `k: v` line per header, an empty element and the
      body, joined by CRLF. */
  function ResponseBytes(statusLine: string, headers: seq<(string, string)>, body: Bytes): Bytes {
    Join([statusLine] + FieldLines(headers) + ["", body], CRLF)
  }

  /** `__construct_http_response` */
  function ConstructHttpResponse(req: Option<Request>, status: int, headers: seq<(string, string)>, body: Bytes): Bytes {
    ResponseBytes(StatusLine(req, status), headers, body)
  }

  /** The response is a head of CRLF-terminated lines, a blank line and the
      body. */
  lemma ResponseLayout(statusLine: string, headers: seq<(string, string)>, body: Bytes)
    ensures ResponseBytes(statusLine, headers, body)
      == statusLine + CRLF + HeaderBlockOf(headers) + CRLF + body
  {
    ResponseHead(statusLine, headers, body);
    if |headers| > 0 {
      HeadLines(statusLine, headers);
      HeaderBlockJoin(headers);
    }
  }

  /** The head lines, joined, then the first blank line, then the body. */
  lemma ResponseHead(statusLine: string, headers: seq<(string, string)>, body: Bytes)
    ensures ResponseBytes(statusLine, headers, body)
      == Join([statusLine] + FieldLines(headers), CRLF) + BlankLine + body
  {
    var lines := [statusLine] + FieldLines(headers);
    assert ResponseBytes(statusLine, headers, body) == Join(lines + ["", body], CRLF);
    JoinEmptyThen(lines, body, CRLF);
    assert CRLF + CRLF == BlankLine;
  }

  /** The status line, then the header lines. */
  lemma HeadLines(statusLine: string, headers: seq<(string, string)>)
    requires |headers| > 0
    ensures Join([statusLine] + FieldLines(headers), CRLF) == statusLine + CRLF + Join(FieldLines(headers), CRLF)
  {
    assert ([statusLine] + FieldLines(headers))[1..] == FieldLines(headers);
  }

  /** An empty element and `x` after the lines: two separators, then `x`. */
  lemma {:induction false} JoinEmptyThen(lines: seq<string>, x: string, sep: string)
    requires |lines| > 0
    ensures Join(lines + ["", x], sep) == Join(lines, sep) + (sep + sep) + x
    decreases |lines|
  {
    if |lines| == 1 {
      assert lines + ["", x] == [lines[0], "", x];
      assert [lines[0], "", x][1..] == ["", x];
      assert ["", x][1..] == [x];
      assert Join(["", x], sep) == "" + sep + x;
      assert Join(lines + ["", x], sep) == lines[0] + sep + ("" + sep + x);
    } else {
      assert (lines + ["", x])[1..] == lines[1..] + ["", x];
      JoinEmptyThen(lines[1..], x, sep);
    }
  }

  /** Every response begins with its status line and a CRLF. */
  lemma ResponseStartsWithStatusLine(statusLine: string, headers: seq<(string, string)>, body: Bytes)
    ensures StartsWith(ResponseBytes(statusLine, headers, body), statusLine + CRLF)
  {
    ResponseLayout(statusLine, headers, body);
    var r := ResponseBytes(statusLine, headers, body);
    assert r[0..|statusLine| + |CRLF|] == statusLine + CRLF;
  }

  /** A response taken apart by a client. */
  datatype ResponseParts = ResponseParts(statusLine: string, fields: seq<(string, string)>, body: Bytes)

  /** How a client reads a response: the head runs to the first blank line,
      its first line is the status line and every other line a `k: v` field;
      the rest is the body. */
  function ReadResponse(r: Bytes): Option<ResponseParts> {
    match Find(r, BlankLine, 0)
    case None => None
    case Some(i) =>
      var lines := Split(r[..i], CRLF);
      match ParseHeaderLines(lines[1..])
      case Crash => None
      case Ok(fields) => Some(ResponseParts(lines[0], fields, r[i + |BlankLine|..]))
  }

  /** Field lines read back as the fields they were written from. */
  lemma {:induction false} ParseFieldLines(fields: seq<(string, string)>)
    requires WellFormedFields(fields)
    ensures ParseHeaderLines(FieldLines(fields)) == Ok(fields)
  {
    if |fields| > 0 {
      ParseFieldLine(fields[0]);
      ParseFieldLines(fields[1..]);
      assert FieldLines(fields)[1..] == FieldLines(fields[1..]);
      assert [fields[0]] + fields[1..] == fields;
    }
  }

  /** The status line of a 200 answer. */
  lemma OkStatusLine(req: Request)
    ensures StatusLine(Some(req), OK) == req.protocol + " 200 OK"
  {
    DispatcherCodes();
    DispatcherPhrases();
  }

  /** The status line of a 405 answer. */
  lemma MethodNotAllowedStatusLine(req: Request)
    ensures StatusLine(Some(req), MethodNotAllowed) == req.protocol + " 405 Method Not Allowed"
  {
    DispatcherCodes();
    DispatcherPhrases();
  }

  /** The decimal forms of the codes the dispatcher answers with itself. */
  lemma DispatcherCodes()
    ensures IntToString(OK) == "200" && IntToString(MethodNotAllowed) == "405"
  {
    ThreeDigits(OK);
    assert [DigitChar(2), DigitChar(0), DigitChar(0)] == "200";
    ThreeDigits(MethodNotAllowed);
    assert [DigitChar(4), DigitChar(0), DigitChar(5)] == "405";
  }

  /** A status line holds no line break when the protocol holds none. */
  lemma StatusLineSingle(req: Option<Request>, status: int)
    requires req.Some? ==> SingleLine(req.value.protocol)
    ensures SingleLine(StatusLine(req, status))
  {
    ReasonsAreSingleLine(status);
  }

  /** Lines without a line break, all but the first non-empty, then a blank
      line: the reader finds the lines and the rest. */
  lemma ReadHead(lines: seq<string>, fields: seq<(string, string)>, body: Bytes)
    requires |lines| > 0
    requires forall k :: 0 <= k < |lines| ==> NoOccurrence(lines[k], CRLF)
    requires forall k :: 0 < k < |lines| ==> lines[k] != ""
    requires ParseHeaderLines(lines[1..]) == Ok(fields)
    ensures ReadResponse(Join(lines, CRLF) + BlankLine + body) == Some(ResponseParts(lines[0], fields, body))
  {
    var head := Join(lines, CRLF);
    FirstBlankLine(lines, body);
    assert Split(head, CRLF) == lines by {
      SeparatorsHaveNoBorder();
      SplitJoin(lines, CRLF);
    }
    ReadAt(head, body, lines, fields);
  }

  /** The reader's steps, once the first blank line and the lines are known. */
  lemma ReadAt(head: Bytes, body: Bytes, lines: seq<string>, fields: seq<(string, string)>)
    requires Find(head + BlankLine + body, BlankLine, 0) == Some(|head|)
    requires Split(head, CRLF) == lines && ParseHeaderLines(lines[1..]) == Ok(fields)
    ensures ReadResponse(head + BlankLine + body) == Some(ResponseParts(lines[0], fields, body))
  {
    var r := head + BlankLine + body;
    assert r[..|head|] == head;
    assert r[|head| + |BlankLine|..] == body;
  }

  /** A client reads back the status line, the header fields in order and
      the body of every response the server builds. */
  lemma ReadConstructed(statusLine: string, headers: seq<(string, string)>, body: Bytes)
    requires SingleLine(statusLine)
    requires WellFormedFields(headers)
    ensures ReadResponse(ResponseBytes(statusLine, headers, body))
      == Some(ResponseParts(statusLine, headers, body))
  {
    var lines := [statusLine] + FieldLines(headers);
    ResponseHead(statusLine, headers, body);
    SingleLineNoCRLF(statusLine);
    forall k | 0 <= k < |lines|
      ensures NoOccurrence(lines[k], CRLF) && (k > 0 ==> lines[k] != "")
    {
      if k > 0 {
        FieldLineIsSingleLine(headers[k - 1]);
      }
    }
    assert lines[1..] == FieldLines(headers);
    ParseFieldLines(headers);
    ReadHead(lines, headers, body);
  }

  // Sending a page

  const ServerName := "K9Server"

  /** The content type `__send_page` derives when none is given: from the
      route's own path when the request path is a route key, from the request
      path otherwise. A missing request raises on `req.path`. */
  function PageContentType(v: ServerView, req: Option<Request>): (r: Outcome<string>)
    ensures r.Ok? ==> IsMediaType(r.value)
    ensures r.Crash? <==> req.None? || req.value.path.PNone?
  {
    if req.None? then Crash
    else
      var p :- MakePath(v.root, req.value.path);
      Ok(GetContentType(if p in v.routes then ValueString(v.routes[p].path) else PathString(p)))
  }

  /** The `Location` of a redirect: the new path stored for the request
      path. `moved_routes[...]` raises when the request path is not moved. */
  function Location(v: ServerView, req: Option<Request>): (r: Outcome<string>)
    ensures r.Ok? ==> req.Some? && exists p :: MakePath(v.root, req.value.path) == Ok(p) && p in v.moved && r.value == PathString(v.moved[p].newPath)
  {
    if req.None? then Crash
    else
      var p :- MakePath(v.root, req.value.path);
      if p in v.moved then Ok(PathString(v.moved[p].newPath)) else Crash
  }

  /** The three headers of every page, in insertion order. */
  function PageHeaders(length: nat, contentType: string): seq<(string, string)> {
    [("Content-Length", NatToString(length)), ("Content-Type", contentType), ("Server", ServerName)]
  }

  /** The first header announces the body's length in decimal. */
  lemma ContentLengthAnnounces(length: nat, contentType: string)
    ensures PageHeaders(length, contentType)[0].0 == "Content-Length"
    ensures IsDigits(PageHeaders(length, contentType)[0].1)
    ensures ParseNat(PageHeaders(length, contentType)[0].1) == length
  {
    ParseNatToString(length);
  }

  predicate IsRedirect(status: int) {
    status == MovedPermanently || status == MovedTemporarily
  }

  /** The headers of a page; a redirect adds `Location`. */
  function ResponseHeaders(v: ServerView, req: Option<Request>, status: int, length: nat, contentType: string): (r: Outcome<seq<(string, string)>>)
    ensures r.Ok? ==> |r.value| >= 3 && r.value[..3] == PageHeaders(length, contentType)
    ensures !IsRedirect(status) ==> r == Ok(PageHeaders(length, contentType))
    ensures IsRedirect(status) ==> (r.Ok? <==> Location(v, req).Ok?)
    ensures IsRedirect(status) && r.Ok? ==> r.value == PageHeaders(length, contentType) + [("Location", Location(v, req).value)]
  {
    if IsRedirect(status) then
      var loc :- Location(v, req);
      Ok(PageHeaders(length, contentType) + [("Location", loc)])
    else Ok(PageHeaders(length, contentType))
  }

  /** The type given to `__send_page`, or the one it derives. */
  function ChosenType(v: ServerView, req: Option<Request>, contentType: Option<string>): Outcome<string> {
    if contentType.Some? then Ok(contentType.value) else PageContentType(v, req)
  }

  /** `__send_page`: the bytes `sendall` is given, or the exception raised
      on the way. */
  function SendPage(v: ServerView, req: Option<Request>, status: int, html: Payload, contentType: Option<string>): Outcome<Bytes> {
    var ct :- ChosenType(v, req, contentType);
    var body :- if html.Body? then Ok(html.b) else Crash;
    var headers :- ResponseHeaders(v, req, status, |body|, ct);
    Ok(ConstructHttpResponse(req, status, headers, body))
  }

  /** Text without a space or a line break is a header field the reader
      takes back unchanged. */
  lemma PlainFieldText(s: string)
    requires forall k :: 0 <= k < |s| ==> s[k] != ' ' && s[k] != '\r' && s[k] != '\n'
    ensures FieldText(s)
  {
    forall j: nat
      ensures !OccursAt(s, ": ", j)
    {
      if j + 2 <= |s| {
        assert s[j..j + 2][1] == s[j + 1];
      }
    }
  }

  lemma DigitsFieldText(s: string)
    requires IsDigits(s)
    ensures FieldText(s)
  {
    PlainFieldText(s);
  }

  lemma PageHeadersWellFormed(length: nat, contentType: string)
    requires IsMediaType(contentType)
    ensures WellFormedFields(PageHeaders(length, contentType))
  {
    PlainFieldText("Content-Length");
    PlainFieldText("Content-Type");
    PlainFieldText("Server");
    PlainFieldText(ServerName);
    PlainFieldText(contentType);
    DigitsFieldText(NatToString(length));
  }

  /** The bytes of a page whose type and headers are known. */
  lemma SendPageBuilds(v: ServerView, req: Option<Request>, status: int, b: Bytes, contentType: Option<string>,
                       ct: string, headers: seq<(string, string)>)
    requires ChosenType(v, req, contentType) == Ok(ct)
    requires ResponseHeaders(v, req, status, |b|, ct) == Ok(headers)
    ensures SendPage(v, req, status, Body(b), contentType) == Ok(ResponseBytes(StatusLine(req, status), headers, b))
  {
  }

  /** Every page the server sends can be read back: its status line, its
      headers and its body. */
  lemma SentPageReadsBack(v: ServerView, req: Option<Request>, status: int, b: Bytes, contentType: Option<string>)
    requires req.Some? ==> SingleLine(req.value.protocol)
    requires contentType.Some? ==> IsMediaType(contentType.value)
    requires contentType.None? ==> req.Some? && !req.value.path.PNone?
    requires IsRedirect(status) ==> Location(v, req).Ok? && FieldText(Location(v, req).value)
    ensures ChosenType(v, req, contentType).Ok?
    ensures ResponseHeaders(v, req, status, |b|, ChosenType(v, req, contentType).value).Ok?
    ensures SendPage(v, req, status, Body(b), contentType).Ok?
    ensures ReadResponse(SendPage(v, req, status, Body(b), contentType).value)
      == Some(ResponseParts(StatusLine(req, status), ResponseHeaders(v, req, status, |b|, ChosenType(v, req, contentType).value).value, b))
  {
    var ct := ChosenType(v, req, contentType).value;
    var headers := ResponseHeaders(v, req, status, |b|, ct).value;
    SentHeadersWellFormed(v, req, status, |b|, ct);
    SendPageBuilds(v, req, status, b, contentType, ct, headers);
    StatusLineSingle(req, status);
    ReadConstructed(StatusLine(req, status), headers, b);
  }

  lemma SentHeadersWellFormed(v: ServerView, req: Option<Request>, status: int, length: nat, ct: string)
    requires IsMediaType(ct)
    requires IsRedirect(status) ==> Location(v, req).Ok? && FieldText(Location(v, req).value)
    ensures ResponseHeaders(v, req, status, length, ct).Ok?
    ensures WellFormedFields(ResponseHeaders(v, req, status, length, ct).value)
  {
    PageHeadersWellFormed(length, ct);
    if IsRedirect(status) {
      PlainFieldText("Location");
    }
  }

  /** The `Content-Length` a page announces is the length of its body; the
      type and the server name follow, and a redirect ends with `Location`. */
  lemma SentPageAnnouncesLength(v: ServerView, req: Option<Request>, status: int, b: Bytes, contentType: Option<string>)
    requires req.Some? ==> SingleLine(req.value.protocol)
    requires contentType.Some? ==> IsMediaType(contentType.value)
    requires contentType.None? ==> req.Some? && !req.value.path.PNone?
    requires IsRedirect(status) ==> Location(v, req).Ok? && FieldText(Location(v, req).value)
    ensures SendPage(v, req, status, Body(b), contentType).Ok?
    ensures var parts := ReadResponse(SendPage(v, req, status, Body(b), contentType).value);
      parts.Some? && parts.value.body == b &&
      |parts.value.fields| == (if IsRedirect(status) then 4 else 3) &&
      parts.value.fields[0].0 == "Content-Length" && IsDigits(parts.value.fields[0].1) &&
      ParseNat(parts.value.fields[0].1) == |b| &&
      parts.value.fields[1].0 == "Content-Type" &&
      (contentType.Some? ==> parts.value.fields[1].1 == contentType.value) &&
      parts.value.fields[2] == ("Server", ServerName) &&
      (IsRedirect(status) ==> parts.value.fields[3] == ("Location", Location(v, req).value))
  {
    SentPageReadsBack(v, req, status, b, contentType);
    var ct := ChosenType(v, req, contentType).value;
    var headers := ResponseHeaders(v, req, status, |b|, ct).value;
    assert headers[..3] == PageHeaders(|b|, ct);
    assert headers[0] == ("Content-Length", NatToString(|b|));
    ParseNatToString(|b|);
  }

  // Error pages

  const Placeholder := "{{status_code}}"

  /** `__get_error_page`: the page registered for the code; else the default
      page with every `{{status_code}}` replaced by the code; else the reason
      phrase. Opening a page that cannot be read raises. */
  function GetErrorPage(v: ServerView, fs: FileSystem, status: int): Outcome<Bytes> {
    if status in v.errorPages then
      var p :- MakePath(v.root, v.errorPages[status].path);
      ReadFile(fs, p)
    else if v.defaultErrorPage.Some? then
      var p :- MakePath(v.root, v.defaultErrorPage.value.path);
      var raw :- ReadFile(fs, p);
      Ok(ReplaceAll(raw, Placeholder, IntToString(status)))
    else Ok(Reason(status))
  }

  /** A page registered for the code wins over the default page, whatever
      the default is. */
  lemma ExactPageWins(v: ServerView, fs: FileSystem, status: int, d: Option<Routes.RouteView>)
    requires status in v.errorPages
    ensures GetErrorPage(v, fs, status) == GetErrorPage(v.(defaultErrorPage := d), fs, status)
    ensures forall p :: MakePath(v.root, v.errorPages[status].path) == Ok(p) ==> GetErrorPage(v, fs, status) == ReadFile(fs, p)
  {
  }

  /** Without any page, the body is the reason phrase: "Unknown Error" for
      408 and 499. */
  lemma ReasonAsPage(v: ServerView, fs: FileSystem, status: int)
    requires status !in v.errorPages && v.defaultErrorPage.None?
    ensures GetErrorPage(v, fs, status) == Ok(Reason(status))
    ensures status in {RequestTimeout, ClientClosedRequest} ==> GetErrorPage(v, fs, status) == Ok(UnknownError)
  {
    UnnamedCodes();
  }

  lemma PlaceholderHasNoBorder()
    ensures NoBorder(Placeholder)
  {
    var p := Placeholder;
    forall d | 0 < d < |p|
      ensures p[d..] != p[..|p| - d]
    {
      if d == 1 {
        assert p[1..][1] != p[..|p| - 1][1];
      } else {
        assert p[d..][0] != p[..|p| - d][0];
      }
    }
  }

  /** The decimal code shares no character with the placeholder. */
  lemma CodeOutsidePlaceholder(status: int)
    ensures forall c :: c in IntToString(status) ==> c !in Placeholder
  {
    forall c | c in IntToString(status)
      ensures c !in Placeholder
    {
      var k :| 0 <= k < |IntToString(status)| && IntToString(status)[k] == c;
      assert IsDigit(c) || c == '-';
    }
  }

  /** No placeholder survives in a default page. */
  lemma DefaultPageFilled(v: ServerView, fs: FileSystem, status: int)
    requires status !in v.errorPages && v.defaultErrorPage.Some?
    requires GetErrorPage(v, fs, status).Ok?
    ensures NoOccurrence(GetErrorPage(v, fs, status).value, Placeholder)
  {
    var p := MakePath(v.root, v.defaultErrorPage.value.path).value;
    CodeOutsidePlaceholder(status);
    ReplaceAllRemoves(ReadFile(fs, p).value, Placeholder, IntToString(status));
  }

  /** A placeholder is replaced where it stands, and the text around it is
      kept. */
  lemma PlaceholderFilled(pre: Bytes, post: Bytes, status: int)
    requires NoOccurrence(pre, Placeholder) && NoOccurrence(post, Placeholder)
    ensures ReplaceAll(pre + Placeholder + post, Placeholder, IntToString(status))
      == pre + IntToString(status) + post
  {
    var s := pre + Placeholder + post;
    PlaceholderHasNoBorder();
    FindAfterPrefix(pre, post, Placeholder);
    assert s[..|pre|] == pre;
    assert s[|pre| + |Placeholder|..] == post;
    ReplaceAllAbsent(post, Placeholder, IntToString(status));
  }

  /** The default page with one placeholder becomes the page with the code
      in its place. */
  lemma DefaultPageWithCode(v: ServerView, fs: FileSystem, status: int, pre: Bytes, post: Bytes)
    requires status !in v.errorPages && v.defaultErrorPage.Some?
    requires MakePath(v.root, v.defaultErrorPage.value.path).Ok?
    requires ReadFile(fs, MakePath(v.root, v.defaultErrorPage.value.path).value) == Ok(pre + Placeholder + post)
    requires NoOccurrence(pre, Placeholder) && NoOccurrence(post, Placeholder)
    ensures GetErrorPage(v, fs, status) == Ok(pre + IntToString(status) + post)
  {
    PlaceholderFilled(pre, post, status);
  }
}
