/** `HttpRequest.receive_http`: reading one request off a connection, one
    octet at a time, up to the blank line that ends the head and then as many
    body octets as its `Content-Length` field asks for (less one). */
module RequestFraming {
  import opened Wrappers
  import opened Text
  import Constants

  // Looking up a header field in the raw head

  /** `HttpRequest.__find_header_value`: the first occurrence of the name,
      ignoring case, anywhere in the data; the value runs from two characters
      after the name up to the next CRLF. With no CRLF after it, Python's
      `data[start:-1]` drops the last character. The value is lower-cased. */
  function FindHeaderValue(data: Bytes, header: string): Option<string>
  {
    var name := Lower(header);
    var d := Lower(data);
    match Find(d, name, 0)
    case None => None
    case Some(i) => Some(ValueFrom(d, i + |name| + 2))
  }

  /** `d[start:end]` with `end = d.find("\r\n", start)`: up to the next
      CRLF, or, when there is none, up to the last character (`end` is -1). */
  function ValueFrom(d: string, start: nat): (v: string)
    ensures NoOccurrence(v, CRLF)
  {
    var end := match Find(d, CRLF, start)
      case Some(e) => e
      case None => if |d| == 0 then 0 else |d| - 1;
    var v := if start < end then d[start..end] else "";
    assert NoOccurrence(v, CRLF) by {
      forall j: nat
        ensures !OccursAt(v, CRLF, j)
      {
        if start < end {
          CRLFAt(v, j);
          CRLFAt(d, start + j);
          if j + 2 <= |v| {
            assert v[j] == d[start + j] && v[j + 1] == d[start + j + 1];
          }
        }
      }
    }
    v
  }

  /** The lookup fails exactly when the name does not occur, and a value it
      returns never spans a line break. */
  lemma FindHeaderValueShape(data: Bytes, header: string)
    ensures var r := FindHeaderValue(data, header);
      (r.None? <==> NoOccurrence(Lower(data), Lower(header))) &&
      (r.Some? ==> NoOccurrence(r.value, CRLF))
  {
  }

  /** Lower-casing a name, two characters, a value and a line end piece by
      piece. */
  lemma LowerField(pre: Bytes, name: string, sep: string, value: string, post: Bytes)
    ensures Lower(pre + name + sep + value + CRLF + post)
      == Lower(pre) + Lower(name) + Lower(sep) + Lower(value) + CRLF + Lower(post)
  {
    LowerAppend(pre + name + sep + value + CRLF, post);
    LowerAppend(pre + name + sep + value, CRLF);
    LowerAppend(pre + name + sep, value);
    LowerAppend(pre + name, sep);
    LowerAppend(pre, name);
    NoCapitalsLower(CRLF);
  }

  /** The value slice after the first occurrence `i` of the name `n`: the
      text up to the first CRLF, which here ends a single-line `v`. */
  lemma ValueSlice(d: string, n: string, i: nat, v: string)
    requires n != "" && SingleLine(v)
    requires OccursAt(d, n, i) && forall j: nat :: j < i ==> !OccursAt(d, n, j)
    requires OccursAt(d, v + CRLF, i + |n| + 2)
    ensures Find(d, n, 0) == Some(i) && ValueFrom(d, i + |n| + 2) == v
  {
    FindIs(d, n, 0, i);
    var start := i + |n| + 2;
    assert d[start..start + |v|] == (v + CRLF)[..|v|];
    forall j: nat | start <= j < start + |v|
      ensures !OccursAt(d, CRLF, j)
    {
      CRLFAt(d, j);
      assert d[j] == v[j - start];
    }
    assert d[start + |v|..start + |v| + 2] == (v + CRLF)[|v|..];
    FindIs(d, CRLF, start, start + |v|);
  }

  /** Where the pieces of a field line sit in the data around it. */
  lemma FieldLineAt(a: string, n: string, sep: string, v: string, b: string)
    requires |sep| == 2
    ensures var d := a + n + sep + v + CRLF + b;
      OccursAt(d, n, |a|) && OccursAt(d, v + CRLF, |a| + |n| + 2)
  {
    var d := a + n + sep + v + CRLF + b;
    var x := v + CRLF;
    assert d == (a + n) + (sep + (x + b));
    assert d[|a|..|a| + |n|] == (a + n)[|a|..];
    assert d[|a| + |n| + 2..|a| + |n| + 2 + |x|] == (x + b)[..|x|];
  }

  /** The lookup finds the value `v` when the name first occurs at `i` and
      `v` and a CRLF follow it after two characters. */
  lemma ValueFoundAt(data: Bytes, header: string, i: nat, v: string)
    requires Lower(header) != "" && SingleLine(v)
    requires OccursAt(Lower(data), Lower(header), i)
    requires forall j: nat :: j < i ==> !OccursAt(Lower(data), Lower(header), j)
    requires OccursAt(Lower(data), v + CRLF, i + |Lower(header)| + 2)
    ensures FindHeaderValue(data, header) == Some(v)
  {
    ValueSlice(Lower(data), Lower(header), i, v);
  }

  /** The name (in any case) followed by any two characters and a line:
      when the name does not occur earlier, the lookup returns the line,
      lower-cased. */
  lemma ValueAfterName(pre: Bytes, name: string, sep: string, value: string, post: Bytes, header: string)
    requires Lower(name) == Lower(header) && name != "" && |sep| == 2
    requires SingleLine(value)
    requires forall j: nat :: j < |pre| ==> !OccursAt(Lower(pre + name + sep + value + CRLF + post), Lower(name), j)
    ensures FindHeaderValue(pre + name + sep + value + CRLF + post, header) == Some(Lower(value))
  {
    LowerField(pre, name, sep, value, post);
    LowerSingleLine(value);
    FieldLineAt(Lower(pre), Lower(name), Lower(sep), Lower(value), Lower(post));
    ValueFoundAt(pre + name + sep + value + CRLF + post, header, |pre|, Lower(value));
  }

  /** A field `name: value` read back: when the name (in any case) does not
      occur earlier in the data, the lookup returns the value, lower-cased. */
  lemma FieldValueFound(pre: Bytes, name: string, value: string, post: Bytes, header: string)
    requires Lower(name) == Lower(header) && name != ""
    requires SingleLine(value)
    requires forall j: nat :: j < |pre| ==> !OccursAt(Lower(pre + name + ": " + value + CRLF + post), Lower(name), j)
    ensures FindHeaderValue(pre + name + ": " + value + CRLF + post, header) == Some(Lower(value))
  {
    ValueAfterName(pre, name, ": ", value, post, header);
  }

  // The receive loop

  /** What one `client.recv(1)` does: deliver an octet, raise `TimeoutError`,
      or raise anything else. An empty read (the peer closed) is the end of
      the event sequence. */
  datatype RecvEvent = Data(b: char) | TimedOut | Failed

  /** `(data, StatusCode.OK)` or `(None, code)`. */
  datatype ReadResult = Received(data: Bytes) | ReadError(code: int)

  /** What a read returns, with the number of events it consumed. */
  datatype Receipt = Receipt(result: ReadResult, consumed: nat)

  /** The events delivering the octets of `s`, in order. */
  function DataEvents(s: Bytes): (r: seq<RecvEvent>)
    ensures |r| == |s| && forall k :: 0 <= k < |s| ==> r[k] == Data(s[k])
  {
    seq(|s|, k requires 0 <= k < |s| => Data(s[k]))
  }

  /** The octets delivered before the first event that is not an octet. */
  function Stream(input: seq<RecvEvent>): (r: Bytes)
    ensures |r| <= |input|
    ensures forall k :: 0 <= k < |r| ==> input[k] == Data(r[k])
    ensures |r| < |input| ==> !input[|r|].Data?
  {
    if |input| == 0 || !input[0].Data? then [] else [input[0].b] + Stream(input[1..])
  }

  /** Octets followed by more events: the stream is the octets, then the
      stream of what follows. */
  lemma StreamAppend(s: Bytes, later: seq<RecvEvent>)
    ensures Stream(DataEvents(s) + later) == s + Stream(later)
  {
    var input := DataEvents(s) + later;
    var r := Stream(input);
    var x := s + Stream(later);
    assert forall k :: 0 <= k < |x| ==> input[k] == Data(x[k]);
    if |x| < |input| {
      assert input[|x|] == later[|Stream(later)|];
    }
    assert |r| == |x|;
  }

  /** How much body the head announces: `continue_to` after the head has
      been seen, or a field value that is not a number. */
  datatype Frame = BodyBytes(n: nat) | BadLength

  /** The `found_body` step: a value of digits N sets `continue_to` to N and
      the same iteration takes one off, so N - 1 octets follow (none for
      N = 0); a missing or empty value means no body. */
  function Framing(head: Bytes): Frame
  {
    var value := FindHeaderValue(head, "Content-Length");
    if value.Some? && value.value != "" && IsDigits(value.value) then
      var n := ParseNat(value.value);
      BodyBytes(if n == 0 then 0 else n - 1)
    else if value.Some? && value.value != "" then BadLength
    else BodyBytes(0)
  }

  /** Where the head ends: just after the first blank line. */
  function HeadEnd(s: Bytes): (r: Option<nat>)
    ensures r.Some? ==> 4 <= r.value <= |s| && EndsWith(s[..r.value], BlankLine)
    ensures r.None? <==> NoOccurrence(s, BlankLine)
  {
    match Find(s, BlankLine, 0)
    case None => None
    case Some(q) =>
      assert s[..q + 4][q..q + 4] == s[q..q + 4];
      Some(q + 4)
  }

  /** How reading ends when the octets run out at index `k`: an empty read,
      a timeout, or another fault, which is consumed as well. */
  function Stop(input: seq<RecvEvent>, k: nat): (r: Receipt)
    requires k <= |input|
  {
    if k == |input| then Receipt(ReadError(Constants.ClientClosedRequest), k)
    else if input[k].TimedOut? then Receipt(ReadError(Constants.RequestTimeout), k + 1)
    else Receipt(ReadError(Constants.InternalServerError), k + 1)
  }

  /** What `receive_http` returns on `input`, with the number of events it
      consumes. */
  function ExpectedReceive(input: seq<RecvEvent>): (r: Receipt)
    ensures r.consumed <= |input|
    ensures r.result.Received? ==> r.consumed <= |Stream(input)| && r.result.data == Stream(input)[..r.consumed]
  {
    var s := Stream(input);
    match HeadEnd(s)
    case None => Stop(input, |s|)
    case Some(t) =>
      match Framing(s[..t])
      case BadLength => Receipt(ReadError(Constants.BadRequest), t)
      case BodyBytes(n) => if t + n <= |s| then Receipt(Received(s[..t + n]), t + n) else Stop(input, |s|)
  }

  /** `continue_to`: infinite until the head is complete. */
  datatype Bound = Infinity | Finite(n: int) {
    predicate Positive() {
      Infinity? || n > 0
    }

    function Dec(): Bound {
      if Infinity? then Infinity else Finite(n - 1)
    }
  }

  /** No blank line ends within the first `i` octets. */
  ghost predicate HeadPending(s: Bytes, i: nat) {
    forall j: nat :: j + 4 <= i ==> !OccursAt(s, BlankLine, j)
  }

  /** The head ends within the first `i` octets, and `continue_to` counts
      the body octets still to come. */
  ghost predicate BodyPending(s: Bytes, i: nat, continueTo: Bound) {
    match HeadEnd(s)
    case None => false
    case Some(t) =>
      t <= i &&
      match Framing(s[..t])
      case BadLength => false
      case BodyBytes(n) =>
        continueTo.Finite? && continueTo.n >= -1 &&
        i + (if continueTo.n > 0 then continueTo.n else 0) == t + n
  }

  lemma EndsWithPrefix(s: Bytes, i: nat, p: string)
    requires |p| <= i <= |s|
    ensures EndsWith(s[..i], p) <==> OccursAt(s, p, i - |p|)
  {
    assert s[..i][i - |p|..i] == s[i - |p|..i];
  }

  /** One more octet that does not complete a blank line keeps the head
      pending; one that does ends the head there. */
  lemma HeadStep(s: Bytes, i: nat)
    requires 0 < i <= |s| && HeadPending(s, i - 1)
    ensures !EndsWith(s[..i], BlankLine) ==> HeadPending(s, i)
    ensures EndsWith(s[..i], BlankLine) ==> HeadEnd(s) == Some(i)
  {
    if i >= 4 {
      EndsWithPrefix(s, i, BlankLine);
      if EndsWith(s[..i], BlankLine) {
        FindIs(s, BlankLine, 0, i - 4);
      }
    }
  }

  /** The counter set from the head, less one, starts the body count. */
  lemma BodyStart(s: Bytes, i: nat, c: Bound)
    requires HeadEnd(s) == Some(i)
    requires Framing(s[..i]).BodyBytes?
    requires var v := FindHeaderValue(s[..i], "Content-Length");
      c == if v.Some? && v.value != "" && IsDigits(v.value) then Finite(ParseNat(v.value)) else Finite(0)
    ensures BodyPending(s, i, c.Dec())
  {
  }

  lemma BodyStep(s: Bytes, i: nat, c: Bound)
    requires BodyPending(s, i, c) && c.Positive()
    ensures BodyPending(s, i + 1, c.Dec())
  {
  }

  /** Running out of octets before the end of the announced body stops the
      read the way the next event says. */
  lemma StopsEarly(input: seq<RecvEvent>, i: nat, c: Bound)
    requires i == |Stream(input)|
    requires (c == Infinity && HeadPending(Stream(input), i)) || (BodyPending(Stream(input), i, c) && c.Positive())
    ensures ExpectedReceive(input) == Stop(input, i)
  {
  }

  /** A head ending at `t` that announces `n` octets, all of them delivered. */
  lemma ReceivedAt(input: seq<RecvEvent>, t: nat, n: nat)
    requires var s := Stream(input);
      HeadEnd(s) == Some(t) && Framing(s[..t]) == BodyBytes(n) && t + n <= |s|
    ensures ExpectedReceive(input) == Receipt(Received(Stream(input)[..t + n]), t + n)
  {
  }

  /** The counter ran out: the data read so far is the request. */
  lemma StopsAtEnd(input: seq<RecvEvent>, i: nat, c: Bound)
    requires i <= |Stream(input)|
    requires BodyPending(Stream(input), i, c) && !c.Positive()
    ensures ExpectedReceive(input) == Receipt(Received(Stream(input)[..i]), i)
  {
    var t, n := BodyDone(Stream(input), i, c);
    ReceivedAt(input, t, n);
  }

  /** With the counter at zero, the head ends at `t` and announced the `n`
      octets read after it. */
  lemma BodyDone(s: Bytes, i: nat, c: Bound) returns (t: nat, n: nat)
    requires BodyPending(s, i, c) && !c.Positive()
    ensures HeadEnd(s) == Some(t) && Framing(s[..t]) == BodyBytes(n) && i == t + n
  {
    t := HeadEnd(s).value;
    n := Framing(s[..t]).n;
  }

  /** `HttpRequest.receive_http`: `continue_to` starts infinite; each octet
      is appended, and the first time the data ends in a blank line the
      `Content-Length` value is looked up once. */
  method ReceiveHttp(input: seq<RecvEvent>) returns (r: ReadResult, consumed: nat)
    ensures Receipt(r, consumed) == ExpectedReceive(input)
  {
    ghost var s := Stream(input);
    var data: Bytes := [];
    var continueTo: Bound := Infinity;
    var foundBody := false;
    var i := 0;
    while continueTo.Positive()
      invariant i <= |s| && data == s[..i]
      invariant !foundBody ==> continueTo == Infinity && HeadPending(s, i)
      invariant foundBody ==> BodyPending(s, i, continueTo)
      decreases |input| - i
    {
      if i == |input| {
        StopsEarly(input, i, continueTo);
        return ReadError(Constants.ClientClosedRequest), i;
      }
      match input[i]
      case TimedOut =>
        StopsEarly(input, i, continueTo);
        return ReadError(Constants.RequestTimeout), i + 1;
      case Failed =>
        StopsEarly(input, i, continueTo);
        return ReadError(Constants.InternalServerError), i + 1;
      case Data(b) =>
        data := data + [b];
        i := i + 1;
        assert data == s[..i];
        if !foundBody {
          HeadStep(s, i);
        } else {
          BodyStep(s, i - 1, continueTo);
        }
        if EndsWith(data, BlankLine) && !foundBody {
          foundBody := true;
          var value := FindHeaderValue(data, "Content-Length");
          if value.Some? && value.value != "" && IsDigits(value.value) {
            continueTo := Finite(ParseNat(value.value));
          } else if value.Some? && value.value != "" {
            return ReadError(Constants.BadRequest), i;
          } else {
            continueTo := Finite(0);
          }
          BodyStart(s, i, continueTo);
        }
        continueTo := continueTo.Dec();
    }
    StopsAtEnd(input, i, continueTo);
    return Received(data), i;
  }

  // What the loop reads

  /** `head` ends at its first blank line. */
  predicate IsHead(head: Bytes) {
    HeadEnd(head) == Some(|head|)
  }

  lemma HeadOfLonger(head: Bytes, rest: Bytes)
    requires IsHead(head)
    ensures HeadEnd(head + rest) == Some(|head|) && (head + rest)[..|head|] == head
  {
    FindInPrefix(head, rest, BlankLine, |head| - 4);
  }

  /** Once the head announces `n` more octets, exactly those are read,
      whatever they hold (a blank line in the body included) and whatever
      follows them. */
  lemma ReadsAnnouncedBody(head: Bytes, body: Bytes, later: seq<RecvEvent>)
    requires IsHead(head) && Framing(head) == BodyBytes(|body|)
    ensures ExpectedReceive(DataEvents(head + body) + later) == Receipt(Received(head + body), |head| + |body|)
  {
    var input := DataEvents(head + body) + later;
    StreamAppend(head + body, later);
    var s := Stream(input);
    assert s == head + (body + Stream(later));
    HeadOfLonger(head, body + Stream(later));
    assert s[..|head| + |body|] == head + body;
    ReceivedAt(input, |head|, |body|);
  }

  /** `Content-Length: N` with N >= 1 reads N - 1 body octets, not N. */
  lemma ContentLengthOffByOne(head: Bytes, body: Bytes, later: seq<RecvEvent>)
    requires IsHead(head)
    requires var v := FindHeaderValue(head, "Content-Length");
      v.Some? && IsDigits(v.value) && ParseNat(v.value) == |body| + 1
    ensures ExpectedReceive(DataEvents(head + body) + later) == Receipt(Received(head + body), |head| + |body|)
  {
    ReadsAnnouncedBody(head, body, later);
  }

  /** Without the field, with an empty value or with the value `0`, reading
      stops right after the blank line. */
  lemma NoBodyStopsAtHead(head: Bytes, later: seq<RecvEvent>)
    requires IsHead(head)
    requires var v := FindHeaderValue(head, "Content-Length");
      v.None? || v.value == "" || (IsDigits(v.value) && ParseNat(v.value) == 0)
    ensures ExpectedReceive(DataEvents(head) + later) == Receipt(Received(head), |head|)
  {
    assert head + [] == head;
    ReadsAnnouncedBody(head, [], later);
  }

  /** A value that is not all digits (`-5`, `abc`) gives 400 with nothing read
      past the head. */
  lemma BadLengthRejected(head: Bytes, later: seq<RecvEvent>)
    requires IsHead(head)
    requires var v := FindHeaderValue(head, "Content-Length"); v.Some? && v.value != "" && !IsDigits(v.value)
    ensures ExpectedReceive(DataEvents(head) + later) == Receipt(ReadError(Constants.BadRequest), |head|)
  {
    var input := DataEvents(head) + later;
    StreamAppend(head, later);
    HeadOfLonger(head, Stream(later));
  }

  /** The octets `x` run out before the request is complete: no blank line
      yet, or fewer body octets than announced. */
  ghost predicate Incomplete(x: Bytes) {
    match HeadEnd(x)
    case None => true
    case Some(t) => Framing(x[..t]).BodyBytes? && t + Framing(x[..t]).n > |x|
  }

  /** An incomplete request ends with 499 when the peer closes, 408 on a
      timeout and 500 on any other fault; the failing read is consumed. */
  lemma InterruptedRead(x: Bytes, tail: seq<RecvEvent>)
    requires Incomplete(x) && (tail == [] || !tail[0].Data?)
    ensures var e := ExpectedReceive(DataEvents(x) + tail);
      (tail == [] ==> e == Receipt(ReadError(Constants.ClientClosedRequest), |x|)) &&
      (tail != [] && tail[0].TimedOut? ==> e == Receipt(ReadError(Constants.RequestTimeout), |x| + 1)) &&
      (tail != [] && tail[0].Failed? ==> e == Receipt(ReadError(Constants.InternalServerError), |x| + 1))
  {
    var input := DataEvents(x) + tail;
    StreamAppend(x, tail);
    assert Stream(tail) == [];
    assert Stream(input) == x;
    if tail != [] {
      assert input[|x|] == tail[0];
    }
    var e := ExpectedReceive(input);
    assert e == Stop(input, |x|);
  }

  /** The field as a client writes it: `Content-Length: N` with N >= 1, the
      name not occurring earlier, announces N - 1 more octets. */
  lemma FramingOfField(pre: Bytes, name: string, value: string, post: Bytes)
    requires Lower(name) == "content-length" && IsDigits(value) && ParseNat(value) >= 1
    requires forall j: nat :: j < |pre| ==> !OccursAt(Lower(pre + name + ": " + value + CRLF + post), Lower(name), j)
    ensures Framing(pre + name + ": " + value + CRLF + post) == BodyBytes(ParseNat(value) - 1)
  {
    LowerOfFieldName();
    FieldValueFound(pre, name, value, post, "Content-Length");
    NoCapitalsLower(value);
  }

  /** A request whose target holds the field name: `GET /content-length
      HTTP/1.1` and no header. It is written in the pieces the lookup sees:
      the text before the name, the name, the two characters it skips
      (` H`), and the rest of the line, which it returns as the value. */
  const TargetNamingRequest := "GET /" + "content-length" + " H" + "TTP/1.1" + CRLF + CRLF

  lemma LowerOfProtocolTail()
    ensures Lower("TTP/1.1") == "ttp/1.1"
  {
    var lv := Lower("TTP/1.1");
    assert |lv| == 7 && lv[0] == 't' && lv[1] == 't' && lv[2] == 'p';
    assert lv[3] == '/' && lv[4] == '1' && lv[5] == '.' && lv[6] == '1';
  }

  lemma LowerOfMethodPart()
    ensures Lower("GET /") == "get /"
  {
  }

  lemma NameNotInMethod(x: Bytes)
    requires x == "GET /" + "content-length" + " H" + "TTP/1.1" + CRLF + CRLF
    ensures forall j: nat :: j < 5 ==> !OccursAt(Lower(x), Lower("content-length"), j)
  {
    LowerOfFieldName();
    LowerOfMethodPart();
    LowerField("GET /", "content-length", " H", "TTP/1.1", CRLF);
    var lx := Lower(x);
    assert lx[..5] == "get /";
    forall j: nat | j < 5
      ensures !OccursAt(lx, "content-length", j)
    {
      assert lx[j] == "get /"[j];
    }
  }

  lemma LowerOfFieldName()
    ensures Lower("Content-Length") == "content-length" == Lower("content-length")
  {
  }

  lemma LookupInSpelled(x: Bytes)
    requires x == "GET /" + "content-length" + " H" + "TTP/1.1" + CRLF + CRLF
    ensures FindHeaderValue(x, "Content-Length") == Some("ttp/1.1")
  {
    NameNotInMethod(x);
    LowerOfFieldName();
    ValueAfterName("GET /", "content-length", " H", "TTP/1.1", CRLF, "Content-Length");
    LowerOfProtocolTail();
  }

  lemma LookupInTarget()
    ensures FindHeaderValue(TargetNamingRequest, "Content-Length") == Some("ttp/1.1")
  {
    LookupInSpelled(TargetNamingRequest);
  }

  lemma TargetNamingLine(line: string)
    requires line == "GET /" + "content-length" + " H" + "TTP/1.1"
    ensures NoOccurrence(line, CRLF)
  {
    assert SingleLine(line);
    SingleLineNoCRLF(line);
  }

  lemma TargetNamingIsHead()
    ensures IsHead(TargetNamingRequest)
  {
    var line := "GET /" + "content-length" + " H" + "TTP/1.1";
    TargetNamingLine(line);
    assert Join([line], CRLF) == line;
    assert TargetNamingRequest == Join([line], CRLF) + BlankLine + "";
    FirstBlankLine([line], "");
  }

  /** The lookup searches the whole head, request line included: a target
      holding the field name is taken for the field, so a request with no
      `Content-Length` at all is rejected with 400. */
  lemma TargetNamingTheField(later: seq<RecvEvent>)
    ensures ExpectedReceive(DataEvents(TargetNamingRequest) + later)
      == Receipt(ReadError(Constants.BadRequest), |TargetNamingRequest|)
  {
    LookupInTarget();
    assert !IsDigit("ttp/1.1"[0]);
    TargetNamingIsHead();
    BadLengthRejected(TargetNamingRequest, later);
  }
}
