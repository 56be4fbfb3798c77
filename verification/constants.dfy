/** The server's fixed tables: status codes, their reason phrases and the
    content type of each file extension. */
module Constants {
  import opened Text

  // The `StatusCode` class: one name per code the server uses.
  const BadRequest := 400
  const Unauthorized := 401
  const Forbidden := 403
  const NotFound := 404
  const MethodNotAllowed := 405
  const RequestTimeout := 408
  const ClientClosedRequest := 499
  const InternalServerError := 500
  const NotImplemented := 501
  const BadGateway := 502
  const ServiceUnavailable := 503
  const GatewayTimeout := 504
  const HttpVersionNotSupported := 505
  const MovedPermanently := 301
  const MovedTemporarily := 302
  const Found := 302
  const SeeOther := 303
  const NotModified := 304
  const TemporaryRedirect := 307
  const PermanentRedirect := 308
  const OK := 200

  /** Every value the `StatusCode` class names. */
  const StatusCodeValues: seq<int> := [
    BadRequest, Unauthorized, Forbidden, NotFound, MethodNotAllowed, RequestTimeout,
    ClientClosedRequest, InternalServerError, NotImplemented, BadGateway,
    ServiceUnavailable, GatewayTimeout, HttpVersionNotSupported, MovedPermanently,
    MovedTemporarily, Found, SeeOther, NotModified, TemporaryRedirect,
    PermanentRedirect, OK]

  /** `STATUS_CODES`: the reason phrase of each code that has one. */
  const StatusCodes: map<int, string> := map[
    400 := "Bad Request", 401 := "Unauthorized", 403 := "Forbidden",
    404 := "Not Found", 405 := "Method Not Allowed",
    500 := "Internal Server Error", 501 := "Not Implemented",
    502 := "Bad Gateway", 503 := "Service Unavailable",
    504 := "Gateway Timeout", 505 := "HTTP Version Not Supported",
    301 := "Moved Permanently", 302 := "Found", 303 := "See Other",
    304 := "Not Modified", 307 := "Temporary Redirect",
    308 := "Permanent Redirect", 200 := "OK"]

  const UnknownError := "Unknown Error"

  /** `STATUS_CODES.get(code, "Unknown Error")` */
  function Reason(code: int): (r: string)
    ensures r != ""
    ensures code in StatusCodes ==> r == StatusCodes[code]
    ensures code !in StatusCodes ==> r == UnknownError
  {
    if code in StatusCodes then StatusCodes[code] else UnknownError
  }

  /** `CONTENT_TYPES`: the media type served for each file extension. */
  const ContentTypes: map<string, string> := map[
    "html" := "text/html", "css" := "text/css",
    "js" := "application/javascript", "json" := "application/json",
    "png" := "image/png", "jpg" := "image/jpeg", "jpeg" := "image/jpeg",
    "gif" := "image/gif", "svg" := "image/svg+xml", "ico" := "image/x-icon",
    "txt" := "text/plain", "xml" := "application/xml",
    "pdf" := "application/pdf", "zip" := "application/zip",
    "tar" := "application/x-tar", "gz" := "application/gzip",
    "mp3" := "audio/mpeg", "mp4" := "video/mp4", "webm" := "video/webm",
    "ogg" := "audio/ogg", "webp" := "image/webp", "flac" := "audio/flac",
    "wav" := "audio/wav"]

  /** The content type used when nothing better is known. */
  const DefaultContentType := "plain/text"

  /** Of the codes `StatusCode` names, only 408 and 499 have no reason
      phrase and are rendered as "Unknown Error". */
  lemma UnnamedCodes()
    ensures forall c :: c in StatusCodeValues ==> (c in StatusCodes <==> c != RequestTimeout && c != ClientClosedRequest)
    ensures Reason(RequestTimeout) == UnknownError && Reason(ClientClosedRequest) == UnknownError
  {
  }

  /** Two names for one code: a temporary move is sent as "302 Found". */
  lemma TemporaryMoveIsFound()
    ensures MovedTemporarily == Found == 302
    ensures Reason(MovedTemporarily) == "Found"
    ensures Reason(MovedPermanently) == "Moved Permanently"
  {
  }

  /** The phrases of the answers the dispatcher builds itself. */
  lemma DispatcherPhrases()
    ensures Reason(OK) == "OK" && Reason(MethodNotAllowed) == "Method Not Allowed"
  {
  }

  /** The 2xx codes of the table, each with a one-line phrase. */
  lemma SuccessPhrases(code: int)
    requires code in {200}
    ensures code in StatusCodes && SingleLine(StatusCodes[code])
  {
  }

  /** The 3xx codes of the table, each with a one-line phrase. */
  lemma RedirectionPhrases(code: int)
    requires code in {301, 302, 303, 304, 307, 308}
    ensures code in StatusCodes && SingleLine(StatusCodes[code])
  {
  }

  /** The 4xx codes of the table, each with a one-line phrase. */
  lemma ClientErrorPhrases(code: int)
    requires code in {400, 401, 403, 404, 405}
    ensures code in StatusCodes && SingleLine(StatusCodes[code])
  {
  }

  /** The first 5xx codes of the table, each with a one-line phrase. */
  lemma ServerErrorPhrases(code: int)
    requires code in {500, 501, 502}
    ensures code in StatusCodes && SingleLine(StatusCodes[code])
  {
  }

  /** The other 5xx codes: a server that is down, late or on another version. */
  lemma UnavailablePhrases(code: int)
    requires code in {503, 504, 505}
    ensures code in StatusCodes && SingleLine(StatusCodes[code])
  {
  }

  /** No reason phrase breaks a status line: none holds a CR or an LF. */
  lemma ReasonsAreSingleLine(code: int)
    ensures SingleLine(Reason(code))
  {
    if code !in StatusCodes {
    } else if code < 300 {
      SuccessPhrases(code);
    } else if code < 400 {
      RedirectionPhrases(code);
    } else if code < 500 {
      ClientErrorPhrases(code);
    } else if code < 503 {
      ServerErrorPhrases(code);
    } else {
      UnavailablePhrases(code);
    }
  }

  /** A lower-case file extension without the dot. */
  predicate IsExtension(e: string) {
    e != "" && forall k :: 0 <= k < |e| ==> 'a' <= e[k] <= 'z' || '0' <= e[k] <= '9'
  }

  /** An extension is its own lower-case form and holds no dot. */
  lemma ExtensionIsLowerCase(e: string)
    requires IsExtension(e)
    ensures Lower(e) == e && '.' !in e
  {
    NoCapitalsLower(e);
  }

  /** The table is keyed by lower-case extensions without the dot. */
  lemma ContentTypeKeys()
    ensures forall e :: e in ContentTypes ==> IsExtension(e)
  {
    forall e | e in ContentTypes
      ensures IsExtension(e)
    {
      TableEntry(e);
    }
  }

  /** A media type the server sends: one line, no space. */
  predicate IsMediaType(t: string) {
    t != "" && forall k :: 0 <= k < |t| ==> t[k] != ' ' && t[k] != '\r' && t[k] != '\n'
  }

  /** Every type the table or the default gives fits on a header line. */
  lemma ContentTypeValues()
    ensures forall e :: e in ContentTypes ==> IsMediaType(ContentTypes[e])
    ensures IsMediaType(DefaultContentType)
  {
    forall e | e in ContentTypes
      ensures IsMediaType(ContentTypes[e])
    {
      TableEntry(e);
    }
  }

  /** Each entry of the table. The entries are checked a few at a time, in
      groups named after their keys, only to keep each proof small. */
  lemma TableEntry(e: string)
    requires e in ContentTypes
    ensures IsExtension(e) && IsMediaType(ContentTypes[e])
  {
    if e in {"html", "css", "png", "jpg"} {
      EntriesHtmlCssPngJpg(e);
    } else if e in {"js", "json"} {
      EntriesJsJson(e);
    } else if e in {"jpeg", "gif", "svg"} {
      EntriesJpegGifSvg(e);
    } else if e in {"ico", "txt", "xml"} {
      EntriesIcoTxtXml(e);
    } else if e in {"pdf", "zip", "tar", "gz", "mp3", "mp4"} {
      EntriesPdfToMp4(e);
    } else {
      EntriesWebmToWav(e);
    }
  }

  lemma EntriesHtmlCssPngJpg(e: string)
    requires e in {"html", "css", "png", "jpg"}
    ensures e in ContentTypes && IsExtension(e) && IsMediaType(ContentTypes[e])
  {
  }

  lemma EntriesJsJson(e: string)
    requires e in {"js", "json"}
    ensures e in ContentTypes && IsExtension(e) && IsMediaType(ContentTypes[e])
  {
  }

  lemma EntriesJpegGifSvg(e: string)
    requires e in {"jpeg", "gif", "svg"}
    ensures e in ContentTypes && IsExtension(e) && IsMediaType(ContentTypes[e])
  {
  }

  lemma EntriesIcoTxtXml(e: string)
    requires e in {"ico", "txt", "xml"}
    ensures e in ContentTypes && IsExtension(e) && IsMediaType(ContentTypes[e])
  {
  }

  lemma EntriesPdfToMp4(e: string)
    requires e in {"pdf", "zip", "tar", "gz", "mp3", "mp4"}
    ensures e in ContentTypes && IsExtension(e) && IsMediaType(ContentTypes[e])
  {
  }

  lemma EntriesWebmToWav(e: string)
    requires e in {"webm", "ogg", "webp", "flac", "wav"}
    ensures e in ContentTypes && IsExtension(e) && IsMediaType(ContentTypes[e])
  {
  }

  /** Both spellings of JPEG give the same type. */
  lemma JpegSpellings()
    ensures ContentTypes["jpg"] == ContentTypes["jpeg"] == "image/jpeg"
  {
  }
}
