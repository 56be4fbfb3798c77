# K9Server request pipeline in Dafny

This project models the per-connection core of a small Python HTTP/1.x server
(`HttpServer`, `HttpRequest`, `Route` and the constant tables) and proves
properties of the model. It covers:

- the framing of one request, as the byte-at-a-time loop of
  `HttpRequest.receive_http` does it over a sequence of receive events;
- the parsing of the request line, the header lines and the body. The
  `HTTP_SPLIT_REGEX` pattern becomes an explicit tokenizer, proved to pick the
  same (leftmost, shortest) match the pattern's lazy groups pick;
- lexical path handling: `pathlib.Path(...)`, `.absolute().resolve()` and
  `__make_path`;
- the `HttpServer` object, a class whose registration methods update its
  route, moved-route, allow-list, blacklist and error-page tables;
- the dispatcher:
  - the query string, the access chain and the handler results;
  - error pages, response serialisation, `__handle_get_request` and
    `__handle_client`.

The program's failure modes are modelled as they are written. A Python
exception is the `Crash` outcome. A `Content-Length: N` reads N - 1 body
octets. Only the first allowed directory is consulted. An inaccessible path
with no route raises. A failed read raises instead of being answered. Lemmas
exhibit each of these.

Modules, in dependency order:

- `Wrappers`: `Option` and the `Outcome` of a Python call (a value or an
  exception).
- `Text`: `bytes`/`str` operations the source relies on, including
  `find`, `split`, `join`, `replace`, `lower`, `isdigit`, `int()`, `str()`
  and dict comprehensions.
- `Constants`: `STATUS_CODES`, `StatusCode` and `CONTENT_TYPES`.
- `Paths`: paths as segment sequences, `resolve()` as lexical collapse, and
  `__make_path`.
- `Routes`: the `Route` class.
- `RequestParsing`: `HttpRequest.__init__`, the request grammar and
  `parse_bytes`.
- `RequestFraming`: `__find_header_value` and `receive_http`, a method with
  a loop proved against the function `ExpectedReceive`.
- `ServerState`: a value snapshot of the server's tables and an abstract
  filesystem.
- `Access`: `__is_file_accessible` and `__get_file_code`.
- `Responses`: `__get_content_type`, `__construct_http_response`,
  `__send_page` and `__get_error_page`, together with a client-side reader
  used for the round-trip lemmas.
- `Dispatch`: `__strip_params`, `__parse_return_data`,
  `__handle_get_request`, `__receive_http_request` and `__handle_client`
  after the read.
- `Server`: the `HttpServer` class, its registration methods, and
  `HandleClient`.

Octets are characters (`Bytes = string`), and `decode`/`encode` are the
identity. The working directory is the server root, because `set_root`
changes into it. The disk is a `FileSystem` record:

- `exists`, `is_file` and `os.access(R_OK)` are sets of paths;
- `open().read()` is a contents map.

## Model

| member | source | states |
|---|---|---|
| Wrappers.Option.GetOr | http_server.py:143-145 | `d.get(key, default)`: the stored value when present, the default otherwise |
| Text.Find | http_request.py:37 | `find` returns the first index at or after the start where the pattern occurs, and no earlier one; `None` (-1) exactly when there is none |
| Text.Split | http_server.py:76 | `split` on a non-empty separator always yields at least one piece |
| Text.SplitRejoins | http_server.py:136 | joining the pieces of a split with the separator gives the string back |
| Text.SplitPiecesFree | http_request.py:30 | no piece of a split holds the separator |
| Text.SplitJoin | http_server.py:73 | splitting a CRLF join of separator-free lines gives the lines back |
| Text.Join | http_server.py:73 | `sep.join(parts)`: splitting it again at the separator gives the parts back when none holds the separator (`SplitJoin`), and a split rejoins to its string (`SplitRejoins`) |
| Text.ReplaceAllAbsent | http_server.py:102 | `replace` leaves text without the pattern unchanged |
| Text.ReplaceAllRemoves | http_server.py:102 | after `replace` with a text that shares no character with the pattern, no occurrence of the pattern is left |
| Text.ReplaceAll | http_server.py:102 | `str.replace`: text without the pattern is unchanged (`ReplaceAllAbsent`), no occurrence survives a replacement sharing no character with it (`ReplaceAllRemoves`), and the text around a replaced placeholder is kept (`Responses.PlaceholderFilled`) |
| Text.ParseNatToString | http_request.py:61 | `int(str(n)) == n` |
| Text.IntToString | http_server.py:102 | `str(code)` is a non-empty string of digits and `-` |
| Text.ThreeDigits | http_server.py:68 | `str` of a three-digit code is its three decimal digits |
| Text.Lower | http_request.py:35-36 | `lower()` keeps the length |
| Text.NoCapitalsLower | http_request.py:35 | lower-casing text without capitals changes nothing |
| Text.BuildMap | http_request.py:30 | the dict built from pairs has exactly the pairs' keys |
| Text.BuildMapLastWins | http_server.py:137 | a key's value is the one from its last pair: later duplicates overwrite earlier ones |
| Constants.Reason | http_server.py:66 | `STATUS_CODES.get(code, "Unknown Error")`: the table's phrase when the code is in it, "Unknown Error" otherwise |
| Constants.UnnamedCodes | constants.py:3-28 | of the `StatusCode` values exactly 408 and 499 have no phrase, and both render as "Unknown Error" |
| Constants.TemporaryMoveIsFound | constants.py:21-23 | `MOVED_TEMPORARILY` and `FOUND` are both 302 ("Found"); 301 is "Moved Permanently" |
| Constants.DispatcherPhrases | constants.py:3 | 200 is "OK" and 405 is "Method Not Allowed" |
| Constants.ReasonsAreSingleLine | constants.py:3 | no reason phrase holds a CR or an LF |
| Constants.ContentTypeKeys | constants.py:30-54 | every key of `CONTENT_TYPES` is a non-empty lower-case extension without the dot |
| Constants.ExtensionIsLowerCase | constants.py:30-54 | such a key is its own lower-case form and holds no dot |
| Constants.ContentTypeValues | constants.py:30-54 | every type in the table, and the default `plain/text`, is a one-line, space-free media type |
| Constants.JpegSpellings | constants.py:36-37 | "jpg" and "jpeg" both map to "image/jpeg" |
| Paths.MakePath | http_server.py:26-31 | `__make_path` raises exactly on `None`, and returns a `Path` unchanged |
| Paths.PurePath | http_server.py:29-30 | `pathlib.Path(s)` of an absolute string: `str()` of a plain path parses back to it (`PurePathOfString`), and exactly two leading slashes give the separate root `//` (`DoubleSlashKept`) |
| Paths.Resolve | http_server.py:31 | `(base / s).absolute().resolve()`: canonical below a canonical base whatever `s` is (`ResolveCanonical`), under the base when `s` has no `..` (`CollapseStaysUnder`), and able to leave it through `..` (`ResolveCanLeaveBase`) |
| Paths.StrPath | http_server.py:28-31 | `__make_path` of a string: absolute strings are parsed, relative ones resolved below the root; `str(p)` of a canonical `p` gives `p` back (`MakePathOfString`) |
| Paths.IsUnder | http_server.py:126 | `relative_to` succeeds iff the roots agree and the directory's segments begin the path; `//a` is never under `/` (`DoubleRootedNotUnderSlash`) |
| Paths.DoubleRootedNotUnderSlash | http_server.py:126 | a path with the root `//` is not under `/`, and is under `//` |
| Paths.KeepSegments | http_server.py:30 | after the root, `pathlib` parsing drops empty and `.` parts and keeps at most the parts it was given |
| Paths.CollapseCanonical | http_request.py:12 | `resolve()` leaves no empty, `.` or `..` segment |
| Paths.CollapseStaysUnder | http_server.py:31 | without a `..` part, resolving stays under the starting directory |
| Paths.ResolveCanonical | http_server.py:31 | a path resolved below a canonical root is canonical, whatever the string |
| Paths.PurePathOfString | http_server.py:30 | `pathlib.Path(str(p)) == p` for plain segments, and `str(p)` never begins with the `//` root |
| Paths.DoubleSlashKept | http_server.py:29-30 | `pathlib.Path` keeps exactly two leading slashes as a root of its own: `//a/b` is neither `/a/b` nor any resolved (canonical) path, while `///a/b` is `/a/b` |
| Paths.MakePathOfString | http_server.py:26-31 | `__make_path(str(p))` gives back a canonical `p` |
| Paths.ResolveCanLeaveBase | http_request.py:12 | resolving does not confine a path to its base: `./../etc` below `/srv` is `/etc` |
| Routes.Route.constructor | route.py:2-6 | the constructor stores method, handler, path and aliases as given; `path` defaults to `None` and `aliases` to `[]` |
| Routes.Route.HasAlias | route.py:11-12 | `has_alias(a)` holds iff `a` is an element of `aliases` |
| Routes.Route.ToString | route.py:8-9 | `str(route)` is `Route(<method>, <path>)` |
| RequestParsing.RequestPathResolved | http_request.py:12 | the stored path is absolute and canonical, and `__make_path` turns it back into the resolved path |
| RequestParsing.NewRequest | http_request.py:10-15 | `HttpRequest(...)` stores the fields as given and `str()` of the target resolved below the working directory, an absolute canonical path (`RequestPathResolved`) |
| RequestParsing.MatchMethod | constants.py:1 | the method is one of the nine tokens followed by a space; with none, no token begins the data |
| RequestParsing.MethodIsUnique | constants.py:1 | at most one method token can begin a request line, so alternative order is irrelevant |
| RequestParsing.FirstProtocol | constants.py:1 | the target ends at the leftmost ` HTTP/d.d\r\n` |
| RequestParsing.HeaderEnd | constants.py:1 | the header group ends at the first blank line |
| RequestParsing.TokenizeSound | constants.py:1 | the five groups put the request back together: `METHOD SP target SP HTTP/d.d CRLF headers CRLF body` |
| RequestParsing.TokenizeLeftmost | constants.py:1 | the tokenizer returns the match the pattern's lazy groups reach first, and fails exactly when the pattern has no match |
| RequestParsing.Tokenize | constants.py:1 | `re.match(HTTP_SPLIT_REGEX, ...)`: its groups reassemble the data (`TokenizeSound`), with a known method and protocol; after a matching method it takes the pattern's leftmost target and header block, and fails exactly when no candidate exists (`TokenizeLeftmost`) |
| RequestParsing.SplitRequestLeftmost | constants.py:1 | after the method there is no match iff no candidate exists, and a found split is the leftmost candidate |
| RequestParsing.HeaderLineShape | http_request.py:30 | a header line without `": "` raises; otherwise the key is before the first `": "` and the value runs to the second |
| RequestParsing.ParseHeaderLine | http_request.py:30 | `line.split(": ")[0]` and `[1]`: raises without `": "`, otherwise the key runs to the first `": "` and the value to the second (`HeaderLineShape`) |
| RequestParsing.ParseHeaderLines | http_request.py:30 | parsing header lines gives one pair per line, or raises |
| RequestParsing.ParseBytes | http_request.py:25-31 | a request line the pattern does not match raises; otherwise parsing raises iff a header line lacks `": "`; a parsed request holds the match's method, protocol and body, the dict of its header lines, and `str()` of the target resolved below the working directory |
| RequestParsing.HeaderFieldsOf | http_request.py:30 | reading a header block back gives its fields in order |
| RequestParsing.ParseRendered | http_request.py:25-31 | parsing what a client wrote gives back the method, resolved path, protocol, header map and body |
| RequestParsing.RenderedFieldValue | http_request.py:30 | a header's value is the one written last under its key |
| RequestFraming.FindHeaderValueShape | http_request.py:34-42 | the lookup is `None` iff the lower-cased name does not occur anywhere in the lower-cased data; a found value spans no line break |
| RequestFraming.FindHeaderValue | http_request.py:34-42 | `None` iff the lower-cased name occurs nowhere in the lower-cased data (`FindHeaderValueShape`); a field whose name does not occur earlier yields its lower-cased value (`FieldValueFound`); the request line is searched too (`TargetNamingTheField`) |
| RequestFraming.ValueAfterName | http_request.py:34-42 | the first occurrence of the name, in any case, followed by two characters and a line gives that line's text, lower-cased |
| RequestFraming.FieldValueFound | http_request.py:34-42 | a field `Name: value` whose name does not occur earlier yields its lower-cased value |
| RequestFraming.ExpectedReceive | http_request.py:45-81 | a successful read returns exactly the octets consumed, a prefix of the delivered stream |
| RequestFraming.ReceiveHttp | http_request.py:45-81 | the byte loop returns what `ExpectedReceive` specifies and consumes as many events |
| RequestFraming.ReadsAnnouncedBody | http_request.py:51-68 | once the head announces n more octets, exactly those are read and reading stops |
| RequestFraming.ContentLengthOffByOne | http_request.py:61-68 | `Content-Length: N` with N >= 1 stops after N - 1 body octets |
| RequestFraming.NoBodyStopsAtHead | http_request.py:57-67 | with no `Content-Length`, an empty one or `0`, reading stops right at the blank line |
| RequestFraming.BadLengthRejected | http_request.py:60-65 | a value that is not all digits gives 400 with nothing read past the head |
| RequestFraming.InterruptedRead | http_request.py:52-54 | an incomplete request gives 499 when the peer closes, 408 on a timeout and 500 on another fault |
| RequestFraming.FramingOfField | http_request.py:59-61 | a client's `Content-Length: N` with N >= 1 announces N - 1 more octets |
| RequestFraming.Framing | http_request.py:57-67 | the body a head announces: N - 1 octets for `Content-Length: N` (`FramingOfField`, `ContentLengthOffByOne`), none for a missing, empty or zero value (`NoBodyStopsAtHead`), a bad length for anything else (`BadLengthRejected`) |
| RequestFraming.TargetNamingTheField | http_request.py:36-37 | the lookup searches the request line too: a target naming the field is taken for it, giving 400 |
| Access.AccessibleSound | http_server.py:122-130 | an accessible path is under an allowed directory, or a route key when there is none; exact with a single allowed directory |
| Access.SecondDirectoryIgnored | http_server.py:124-126 | with `/pub` and `/static` allowed, `/static/app.js` is under an allowed directory yet refused |
| Access.IsFileAccessible | http_server.py:122-130 | only the first allowed directory is consulted, and route keys only when none is allowed (`AccessibleSound`, `SecondDirectoryIgnored`) |
| Access.DoubleRootedRefused | http_server.py:105-130 | with `/` allowed first, a route whose path has the root `//` is not accessible and answers 403 |
| Access.RouteTarget | http_server.py:106-107 | a route key is replaced by its route's path, which raises when `None`; other paths are kept |
| Access.GetFileCode | http_server.py:105-120 | the status is the check chain's answer on the substituted path; it raises exactly for a route key whose path is `None` |
| Access.FileCode | http_server.py:108-120 | equals the six-rule table where the first rule that fires decides (`FileCodeIsFirstHit`); 200 iff no check fires, and always one of six statuses (`FileCodeOk`) |
| Access.FileCodeIsFirstHit | http_server.py:108-120 | the chain equals a table of six rules (blacklisted, inaccessible, moved, missing, not a file, unreadable) where the first that fires decides |
| Access.FirstHitAt | http_server.py:108-120 | in a rule table, the first rule that fires decides the answer |
| Access.FirstHitNone | http_server.py:120 | when no rule fires, the answer is 200 |
| Access.FileCodeFirstHitWins | http_server.py:105-120 | the first check of the chain that fires decides the status |
| Access.BlacklistFirst | http_server.py:108-109 | a blacklisted path gets 403 even when it is also moved, missing or unreadable |
| Access.MovedBeforeDisk | http_server.py:112-113 | a moved, accessible, non-blacklisted path gets its stored status whatever the disk holds |
| Access.FileCodeOk | http_server.py:105-120 | 200 iff no check fires, and the status is one of 200, 301, 302, 403, 404 and 501 |
| Access.ReadableAfterOk | http_server.py:160-167 | after a 200 the read of the file does not raise |
| Responses.GetContentType | http_server.py:75-77 | the type is always a one-line, space-free media type |
| Responses.ContentTypeOfName | http_server.py:75-77 | `<base>.<ext>` is typed by `ext` from the table, `plain/text` when unknown, whatever dots `base` holds |
| Responses.ContentTypeWithoutDot | http_server.py:76-77 | a name without a dot is looked up whole; `"None"` is `plain/text` |
| Responses.HtmlFileType | http_server.py:75-77 | `/srv/site/index.html` is `text/html` |
| Responses.StatusLine | http_server.py:66-68 | `<protocol> <code> <reason>`: `<protocol> 200 OK` and `<protocol> 405 Method Not Allowed` (`OkStatusLine`, `MethodNotAllowedStatusLine`), one line when the protocol is (`StatusLineSingle`) |
| Responses.ConstructHttpResponse | http_server.py:65-73 | status line, one line per header, blank line, body (`ResponseLayout`), and a client reads back exactly those parts (`ReadConstructed`) |
| Responses.ResponseLayout | http_server.py:65-73 | a response is status line, CRLF, one CRLF-terminated line per header, CRLF, body |
| Responses.ResponseStartsWithStatusLine | http_server.py:67-68 | every response begins with its status line and a CRLF |
| Responses.OkStatusLine | http_server.py:68 | a 200 answer's status line is `<protocol> 200 OK` |
| Responses.MethodNotAllowedStatusLine | http_server.py:68 | a 405 answer's status line is `<protocol> 405 Method Not Allowed` |
| Responses.StatusLineSingle | http_server.py:68 | a status line holds no line break when the protocol holds none |
| Responses.ReadConstructed | http_server.py:65-73 | a client reads back the status line, the header fields in order, and the body of every response built (round trip) |
| Responses.PageContentType | http_server.py:80-84 | the derived type is a media type; it raises exactly when there is no request or its path is `None` |
| Responses.Location | http_server.py:91-92 | a `Location` is the stored new path of the request path, which must be a moved route |
| Responses.ContentLengthAnnounces | http_server.py:86-87 | the first header is `Content-Length`, digits that parse to the body length |
| Responses.ResponseHeaders | http_server.py:86-92 | the three page headers in order, plus `Location` exactly for 301 and 302, which raises when the path is not moved |
| Responses.SendPageBuilds | http_server.py:79-93 | the bytes sent are the constructed response for the chosen type and headers |
| Responses.SentPageReadsBack | http_server.py:79-93 | every page sent can be read back: status line, headers and body |
| Responses.SentPageAnnouncesLength | http_server.py:86-93 | the `Content-Length` read back from a sent page is its body length, followed by the type and `Server: K9Server` |
| Responses.SendPage | http_server.py:79-93 | sends the constructed response for the chosen type and headers (`SendPageBuilds`), which reads back with its length, type and server fields (`SentPageReadsBack`, `SentPageAnnouncesLength`) |
| Responses.ExactPageWins | http_server.py:96-99 | a page registered for the code wins over any default page and is the file's contents |
| Responses.ReasonAsPage | http_server.py:103 | with no page the body is the reason phrase, "Unknown Error" for 408 and 499 |
| Responses.DefaultPageFilled | http_server.py:100-102 | no `{{status_code}}` survives in a default page |
| Responses.PlaceholderFilled | http_server.py:102 | a placeholder is replaced where it stands and the text around it is kept |
| Responses.DefaultPageWithCode | http_server.py:100-102 | a default page with one placeholder is sent with the decimal code in its place |
| Responses.GetErrorPage | http_server.py:95-103 | the page registered for the code wins (`ExactPageWins`); else the default page with the code in place of every placeholder (`DefaultPageFilled`, `DefaultPageWithCode`); else the reason phrase (`ReasonAsPage`) |
| Dispatch.ParamPairs | http_server.py:137 | unpacking gives one pair per piece, or raises |
| Dispatch.ParamPairsCrash | http_server.py:137 | unpacking raises iff some piece does not hold exactly one `=` |
| Dispatch.StripQueryRoundTrip | http_server.py:132-137 | the query a client writes comes back as the parameters, with the base path parsed |
| Dispatch.StripParamsPlain | http_server.py:134-135 | a path without `?` keeps its segments and gets empty parameters |
| Dispatch.TwoQuestionMarks | http_server.py:136 | a second `?` raises |
| Dispatch.PieceWithoutEquals | http_server.py:137 | a piece without `=` raises |
| Dispatch.StripQuery | http_server.py:132-137 | a client's query comes back as the parameters (`StripQueryRoundTrip`); a second `?` or a piece without exactly one `=` raises (`TwoQuestionMarks`, `PieceWithoutEquals`, `ParamPairsCrash`) |
| Dispatch.StripParams | http_server.py:132-137 | `__strip_params` on `str(path)`: a path without `?` keeps its segments and gets no parameters (`StripParamsPlain`) |
| Dispatch.ParseReturnData | http_server.py:139-149 | the result is `None` exactly when the handler returned `None` |
| Dispatch.ParseReturnDataFields | http_server.py:142-149 | a dict keeps its given fields and defaults the missing ones to 200, `plain/text` and empty bytes; an int and a plain value equal the dicts that spell them out |
| Dispatch.ParseReturnDataIdempotent | http_server.py:139-149 | normalising an already normalised result changes nothing |
| Dispatch.Conclude | http_server.py:199-223 | a connection is closed exactly when the handling did not raise, and at most one send happens |
| Dispatch.ReadErrorUnanswered | http_server.py:199-201 | a read error is never answered: the swapped arguments make `__send_page` dereference `req = None` |
| Dispatch.OtherMethodsRefused | http_server.py:213-215 | a method other than GET or POST is answered with 405 and the error page, whatever the handlers do |
| Dispatch.MethodNotAllowedSent | http_server.py:213-215 | the 405 answer is sent and begins `<protocol> 405 Method Not Allowed` |
| Dispatch.MethodNotAllowedServed | http_server.py:194-219 | a refused method gets exactly one send, the 405 answer, and the connection is closed |
| Dispatch.UnroutedInaccessibleRaises | http_server.py:158-171 | a path with no route that is not accessible reaches `route.handler` on `None` and raises |
| Dispatch.UnroutedIgnoresHandlers | http_server.py:158-169 | a path with no route is answered without any handler |
| Dispatch.UnroutedServedAsFile | http_server.py:159-169 | an accessible path with no route is served from disk |
| Dispatch.ReadableFileServed | http_server.py:160-168 | a file that passes the chain is sent with 200, its contents and the type its name gives |
| Dispatch.AccessibleFileAnswered | http_server.py:154-168 | a readable accessible file with no route is answered `<protocol> 200 OK` with its contents |
| Dispatch.AccessibleFileSent | http_server.py:154-168 | the client reads that answer back as 200, `Content-Length` of the file's size, its type, and the contents |
| Dispatch.RoutedOnlyHandlerMatters | http_server.py:158-188 | on a routed path only the route's handler, given the request and its parameters, decides the answer |
| Dispatch.HandlerBytesSent | http_server.py:171-188 | a handler returning bytes has them sent with 200 as `plain/text` |
| Dispatch.HandlerCodeAnswered | http_server.py:184-186 | a handler returning a non-200 status has that status's error page sent as `text/html` (the reason phrase when no page is registered), and raises when the error page's file cannot be read |
| Dispatch.HandlerRaisesUnanswered | http_server.py:171 | an exception from a handler escapes `__handle_client` (lines 221-223): nothing is sent and the connection is neither shut down nor closed |
| Dispatch.MovedPathRedirected | http_server.py:159-163 | a moved path with no route is answered with its stored status and a `Location` naming the new path |
| Dispatch.ServeFile | http_server.py:160-168 | a file passing the chain is sent with 200, its contents and its type (`ReadableFileServed`); a moved path is redirected (`MovedPathRedirected`) |
| Dispatch.HandleGetRequest | http_server.py:151-188 | an unrouted path is served from disk when accessible and raises otherwise, for any query (`UnroutedServedAsFile`, `UnroutedInaccessibleRaises`); on a routed path only the handler's result decides (`RoutedOnlyHandlerMatters`, `HandlerBytesSent`, `HandlerCodeAnswered`) |
| Dispatch.ReceiveHttpRequest | http_server.py:59-63 | a read error is passed on and the received bytes are parsed; a read error is then never answered (`ReadErrorUnanswered`) |
| Dispatch.Respond | http_server.py:194-221 | a method other than GET or POST gets 405 (`OtherMethodsRefused`, `MethodNotAllowedSent`); GET and POST both go to `__handle_get_request` (`PostHandledAsGet`) |
| Dispatch.PostHandledAsGet | http_server.py:194-198 | a parsed POST is answered by `__handle_get_request`, exactly like a GET |
| Dispatch.Serve | http_server.py:192-223 | a refused method gets one send and a close (`MethodNotAllowedServed`); a raising handler leaves nothing sent and the connection open (`HandlerRaisesUnanswered`); `HttpServer.HandleClient` equals it |
| Server.AliasPaths | http_server.py:34-35 | one key per alias, in order |
| Server.InsertAllEntries | http_server.py:34-36 | after inserting keys, they map to the value; no other key is added and no other entry changes |
| Server.RegisteredEntries | http_server.py:33-36 | after `add_route(r)` every alias key, and `r.path`'s key when it resolves, maps to `r`; nothing else changes |
| Server.HttpServer.constructor | http_server.py:15-24 | a new server has empty tables, is rooted at the working directory, and holds the class invariant `Valid()` (every moved route answers 301 or 302) that every registration method keeps |
| Server.HttpServer.View | http_server.py:17-24 | the dispatcher sees every table, each route through its current fields |
| Server.HttpServer.AddRoute | http_server.py:33-37 | the alias loop, then the route's path: `routes` becomes `Registered(...)`; raises iff the path is `None`, after the aliases are in |
| Server.HttpServer.AddErrorCodePage | http_server.py:39-41 | the route's path is resolved in place (seen by every table holding it) and the route answers for the code; `None` raises before either |
| Server.HttpServer.SetDefaultErrorCodePage | http_server.py:43-44 | the default error page is set; nothing else changes |
| Server.HttpServer.AllowDirectory | http_server.py:46-47 | the resolved directory is appended; nothing else changes |
| Server.HttpServer.AddMovedRoute | http_server.py:49-50 | the resolved path maps to the resolved new path with 301 for `"perm"` and 302 otherwise; the class invariant is kept |
| Server.HttpServer.SetRoot | http_server.py:52-54 | the root is resolved against the old root; nothing else changes |
| Server.HttpServer.DisallowFile | http_server.py:56-57 | the resolved path is appended to the blacklist; nothing else changes |
| Server.HttpServer.HandleClient | http_server.py:192-223 | one connection: the read, then the answer, is what `Serve` specifies on the current tables; closed iff exactly one send |
| Server.ServerFileCodes | http_server.py:105-120 | on a server built by its registration methods the file check answers with 200, 301, 302, 403, 404 or 501 |

## Left out

- Logging: every `Logger.*` call is treated as doing nothing. `HttpRequest.log` and `__repr__` are not modelled.
- `HttpServer.start` and `__print_box` are not modelled. They cover socket bind/listen/accept, the thread pool and the banner, which are concurrency and terminal output.
- `os.system("cls"/"clear")` in `__init__` and `os.chdir` in `set_root` are process side effects. They are reflected only by taking the working directory to be the root.
- Sockets: `recv` is a sequence of events (an octet, a timeout, another fault) and end of input is the empty read. `sendall`, `shutdown` and `close` become the `Exchange` a connection ends with.
- Dispatch.Conclude: a send always completes. `receive_http` leaves the socket non-blocking (http_request.py:71), so a `sendall` larger than the kernel's send buffer can raise `BlockingIOError` after a partial send and leave the connection open. Partial sends are not modelled.
- The real filesystem is abstract sets and a contents map. Symbolic links are not followed by the lexical `resolve()`.
- User handlers are foreign code. What one returns, or the exception it raises, is an input (`Outcome<Ret>`). Anything a handler sends on the client socket itself is not modelled.
- A handler result of an unexpected type is not modelled. `Payload.Other` stands for a body that is neither bytes nor `str`, which raises when sent.
- `__parse_return_data` fills defaults into the handler's dict in place. The model returns a new value, because the dict is not used afterwards.
- `__handle_get_request` assigns `req.path` in place. The model passes the updated request value on, because the request object is not used after the call.
- `Route` aliases default to one shared list object. Nothing mutates it, so the sharing is not observable and is not modelled.
- UTF-8 decoding failures are not modelled. `str.isdigit` accepting non-ASCII digits and `lower()` beyond ASCII are not modelled either.
- `len()` of a `str` body counting characters rather than bytes is not modelled, because octets and characters are one type here.
- Regex backtracking cost is not modelled.
- Unreachable code is not modelled. This covers the `continue_to < 0` branch, the `len(groups) < 5` branch and the `req is None` branch of `__handle_client`, because a parse failure raises before that branch.
- Code over prose, where the two disagree:
  - The body read is N - 1 octets for `Content-Length: N`, not N.
  - Accessibility consults only the first allowed directory, and route keys only when no directory is allowed.
  - A duplicate header overwrites the earlier one.
  - A malformed request line, header line or query raises; it is not answered with 400.
  - A failed read raises; it is not answered.
- Dispatch.ReadErrorUnanswered: the read-error branch is modelled as the crash the swapped arguments cause. The page it would have sent is not.
