/** `HttpRequest.parse_bytes`: the request-line pattern `HTTP_SPLIT_REGEX`,
    replaced by an explicit tokenizer, and the header fields it yields. */
module RequestParsing {
  import opened Wrappers
  import opened Text
  import opened Paths

  /** The method alternatives of the pattern, in the pattern's order. */
  const Methods: seq<string> := ["GET", "POST", "HEAD", "PUT", "DELETE", "CONNECT", "OPTIONS", "TRACE", "PATCH"]

  /** An `HttpRequest`. Its `path` holds `str` of the resolved target until
      the dispatcher stores the `Path` it derived from it. */
  datatype Request = Request(
    verb: string,
    path: PathValue,
    protocol: string,
    headers: map<string, string>,
    body: Bytes)

  /** `HttpRequest(method, path, ...)`: the target is resolved below the
      working directory `cwd` as `pathlib.Path('.' + path).absolute().resolve()`. */
  function NewRequest(verb: string, target: string, protocol: string, headers: map<string, string>,
                      body: Bytes, cwd: Path): Request
  {
    Request(verb, PStr(PathString(Resolve(cwd, "." + target))), protocol, headers, body)
  }

  /** The stored path is absolute and canonical, and `__make_path` turns it
      back into the resolved `Path`. */
  lemma RequestPathResolved(verb: string, target: string, protocol: string, headers: map<string, string>,
                            body: Bytes, cwd: Path)
    requires Canonical(cwd)
    ensures var req := NewRequest(verb, target, protocol, headers, body, cwd);
      Canonical(Resolve(cwd, "." + target)) &&
      IsAbs(ValueString(req.path)) &&
      MakePath(cwd, req.path) == Ok(Resolve(cwd, "." + target))
  {
    ResolveCanonical(cwd, "." + target);
    MakePathOfString(cwd, Resolve(cwd, "." + target));
  }

  // The request line

  /** The first method of the pattern that, followed by a space, begins `data`. */
  function MatchMethod(data: Bytes): (r: Option<string>)
    ensures r.Some? ==> r.value in Methods && StartsWith(data, r.value + " ")
    ensures r.None? ==> forall m :: m in Methods ==> !StartsWith(data, m + " ")
  {
    MatchMethodFrom(data, 0)
  }

  function MatchMethodFrom(data: Bytes, k: nat): (r: Option<string>)
    requires k <= |Methods|
    ensures r.Some? ==> r.value in Methods && StartsWith(data, r.value + " ")
    ensures r.None? ==> forall i :: k <= i < |Methods| ==> !StartsWith(data, Methods[i] + " ")
    decreases |Methods| - k
  {
    if k == |Methods| then None
    else if StartsWith(data, Methods[k] + " ") then Some(Methods[k])
    else MatchMethodFrom(data, k + 1)
  }

  lemma MethodsHaveNoSpace()
    ensures forall m :: m in Methods ==> ' ' !in m
  {
  }

  /** A space-free word that begins `data` reaches no further than the first
      space of `data`. */
  lemma WordEndsAtSpace(data: Bytes, a: string, b: string)
    requires ' ' !in b
    requires StartsWith(data, a + " ") && StartsWith(data, b)
    ensures |b| <= |a|
  {
    var pa := data[..|a| + 1];
    assert pa == a + " ";
    assert data[|a|] == pa[|a|] == ' ';
    assert forall k :: 0 <= k < |b| ==> data[k] == b[k];
  }

  /** Two space-free words that each begin `data` followed by a space are the
      same word. */
  lemma WordBeforeSpace(data: Bytes, a: string, b: string)
    requires ' ' !in a && ' ' !in b
    requires StartsWith(data, a + " ") && StartsWith(data, b + " ")
    ensures a == b
  {
    var pa, pb := data[..|a| + 1], data[..|b| + 1];
    assert pa == a + " " && pb == b + " ";
    assert StartsWith(data, a) && StartsWith(data, b) by {
      assert data[..|a|] == pa[..|a|] && data[..|b|] == pb[..|b|];
    }
    WordEndsAtSpace(data, a, b);
    WordEndsAtSpace(data, b, a);
    assert a == pa[..|a|] && b == pb[..|b|];
  }

  /** At most one method token can begin a request line, so the order of the
      alternatives does not matter. */
  lemma MethodIsUnique(data: Bytes, a: string, b: string)
    requires a in Methods && b in Methods
    requires StartsWith(data, a + " ") && StartsWith(data, b + " ")
    ensures a == b
  {
    MethodsHaveNoSpace();
    WordBeforeSpace(data, a, b);
  }

  /** `HTTP/<digit>.<digit>` */
  predicate IsProtocol(p: string) {
    |p| == 8 && p[..5] == "HTTP/" && IsDigit(p[5]) && p[6] == '.' && IsDigit(p[7])
  }

  /** ` HTTP/d.d\r\n` at `i`: where the pattern's lazy target may end. */
  predicate ProtocolAt(rest: string, i: nat) {
    i + 11 <= |rest| && rest[i] == ' ' && IsProtocol(rest[i + 1..i + 9]) && OccursAt(rest, CRLF, i + 9)
  }

  /** The leftmost end of a request line at or after `from`. */
  function FirstProtocol(rest: string, from: nat): (r: Option<nat>)
    ensures r.Some? ==> from <= r.value && ProtocolAt(rest, r.value)
    ensures forall i: nat :: from <= i && (r.None? || i < r.value) ==> !ProtocolAt(rest, i)
    decreases |rest| - from
  {
    if |rest| < from + 11 then None
    else if ProtocolAt(rest, from) then Some(from)
    else FirstProtocol(rest, from + 1)
  }

  /** The end of a request line holds no space after its first character. */
  lemma ProtocolHasNoSpace(rest: string, i: nat)
    requires ProtocolAt(rest, i)
    ensures forall k :: i + 1 <= k < i + 11 ==> rest[k] != ' '
  {
    var p := rest[i + 1..i + 9];
    CRLFAt(rest, i + 9);
    forall k | i + 1 <= k < i + 9
      ensures rest[k] != ' '
    {
      assert rest[k] == p[k - i - 1];
      if k - i - 1 < 5 {
        assert p[k - i - 1] == p[..5][k - i - 1];
      }
    }
  }

  // The header block

  /** A blank line at `q` in the text after the request line: a CRLF that
      starts the text or follows another CRLF. */
  predicate BlankAt(tail: string, q: nat) {
    OccursAt(tail, CRLF, q) && (q == 0 || (q >= 2 && OccursAt(tail, CRLF, q - 2)))
  }

  lemma BlankAtIff(tail: string, q: nat)
    ensures OccursAt(CRLF + tail, BlankLine, q) <==> BlankAt(tail, q)
  {
    var x := CRLF + tail;
    BlankLineAt(x, q);
    CRLFAt(tail, q);
    if q >= 2 {
      CRLFAt(tail, q - 2);
      if q + 2 <= |tail| {
        assert x[q] == tail[q - 2] && x[q + 1] == tail[q - 1];
      }
    }
  }

  /** Where the pattern's lazy header group ends: the first blank line. */
  function HeaderEnd(tail: string): (r: Option<nat>)
    ensures r.Some? ==> BlankAt(tail, r.value) && r.value + 2 <= |tail|
    ensures forall q: nat :: (r.None? || q < r.value) ==> !BlankAt(tail, q)
  {
    var r := Find(CRLF + tail, BlankLine, 0);
    assert forall q: nat :: OccursAt(CRLF + tail, BlankLine, q) <==> BlankAt(tail, q) by {
      forall q: nat {
        BlankAtIff(tail, q);
      }
    }
    r
  }

  /** The five groups of the pattern. */
  datatype RequestParts = RequestParts(
    verb: string,
    target: string,
    protocol: string,
    headerBlock: string,
    body: Bytes)

  /** `re.match(HTTP_SPLIT_REGEX, data, re.DOTALL)`: the method, the target up
      to the first ` HTTP/d.d\r\n`, the header lines up to the first blank
      line after it, and everything else as the body; `None` when no match. */
  function Tokenize(data: Bytes): (r: Option<RequestParts>)
  {
    match MatchMethod(data)
    case None => None
    case Some(m) => SplitRequest(m, data[|m| + 1..])
  }

  /** The groups after the method `m`, found in the text `rest` after it. */
  function SplitRequest(m: string, rest: string): (r: Option<RequestParts>)
  {
    match FirstProtocol(rest, 0)
    case None => None
    case Some(i) =>
      var tail := rest[i + 11..];
      match HeaderEnd(tail)
      case None => None
      case Some(q) => Some(RequestParts(m, rest[..i], rest[i + 1..i + 9], tail[..q], tail[q + 2..]))
  }

  /** The shape of a request line as the pattern describes it. */
  function RequestLine(verb: string, target: string, protocol: string): string {
    verb + " " + target + " " + protocol + CRLF
  }

  /** What the tokenizer returns puts the request back together: request
      line, header block (empty, or lines each ending in CRLF), blank line,
      body. */
  lemma TokenizeSound(data: Bytes)
    requires Tokenize(data).Some?
    ensures var p := Tokenize(data).value;
      p.verb in Methods && IsProtocol(p.protocol) &&
      (p.headerBlock == "" || EndsWith(p.headerBlock, CRLF)) &&
      data == RequestLine(p.verb, p.target, p.protocol) + p.headerBlock + CRLF + p.body
  {
    var m := MatchMethod(data).value;
    var rest := data[|m| + 1..];
    SplitRequestSound(m, rest);
    var p := SplitRequest(m, rest).value;
    StartsWithSplit(data, m + " ");
    Regroup(m, p.target, p.protocol, p.headerBlock, p.body);
  }

  /** The groups after the method put `rest` back together. */
  lemma SplitRequestSound(m: string, rest: string)
    requires SplitRequest(m, rest).Some?
    ensures var p := SplitRequest(m, rest).value;
      p.verb == m && IsProtocol(p.protocol) &&
      (p.headerBlock == "" || EndsWith(p.headerBlock, CRLF)) &&
      rest == p.target + " " + p.protocol + CRLF + (p.headerBlock + CRLF + p.body)
  {
    var i := FirstProtocol(rest, 0).value;
    var tail := rest[i + 11..];
    var q := HeaderEnd(tail).value;
    ProtocolAtSplit(rest, i);
    BlankAtSplit(tail, q);
  }

  lemma Regroup(m: string, a: string, b: string, c: string, d: string)
    ensures m + " " + (a + " " + b + CRLF + (c + CRLF + d)) == RequestLine(m, a, b) + c + CRLF + d
  {
  }

  lemma ProtocolAtSplit(rest: string, i: nat)
    requires ProtocolAt(rest, i)
    ensures rest == rest[..i] + " " + rest[i + 1..i + 9] + CRLF + rest[i + 11..]
  {
    assert rest[i + 9..i + 11] == CRLF;
    assert rest == rest[..i] + [rest[i]] + rest[i + 1..i + 9] + rest[i + 9..i + 11] + rest[i + 11..];
  }

  lemma BlankAtSplit(tail: string, q: nat)
    requires BlankAt(tail, q)
    ensures tail == tail[..q] + CRLF + tail[q + 2..]
    ensures q == 0 || EndsWith(tail[..q], CRLF)
  {
    assert tail[q..q + 2] == CRLF;
    assert tail == tail[..q] + tail[q..q + 2] + tail[q + 2..];
    if q > 0 {
      assert tail[..q][q - 2..] == tail[q - 2..q];
    }
  }

  /** A candidate match of the pattern: the target ends at `i` and the header
      block at `q`, counted in the text after the request line. */
  predicate Candidate(rest: string, i: nat, q: nat) {
    ProtocolAt(rest, i) && BlankAt(rest[i + 11..], q)
  }

  /** A match with a later request-line end leaves a blank line after an
      earlier one: the later end's CRLF, or its blank line, is visible there. */
  lemma LaterCandidate(rest: string, i: nat, i2: nat, q2: nat)
    requires ProtocolAt(rest, i) && i < i2 && Candidate(rest, i2, q2)
    ensures BlankAt(rest[i + 11..], i2 - i + q2)
  {
    ProtocolHasNoSpace(rest, i);
    assert i2 >= i + 11;
    var t := rest[i + 11..];
    var t2 := rest[i2 + 11..];
    var p := i2 - i + q2;
    CRLFAt(t, p);
    CRLFAt(t2, q2);
    CRLFAt(t, p - 2);
    assert t[p] == t2[q2] && t[p + 1] == t2[q2 + 1];
    if q2 == 0 {
      CRLFAt(rest, i2 + 9);
      assert t[p - 2] == rest[i2 + 9] && t[p - 1] == rest[i2 + 10];
    } else {
      CRLFAt(t2, q2 - 2);
      assert t[p - 2] == t2[q2 - 2] && t[p - 1] == t2[q2 - 1];
    }
  }

  ghost predicate NoCandidate(rest: string) {
    forall i: nat, q: nat :: !Candidate(rest, i, q)
  }

  /** The candidate the lazy groups reach first: the shortest target, then
      the shortest header block. */
  ghost predicate Leftmost(rest: string, i: nat, q: nat) {
    Candidate(rest, i, q) &&
    forall i2: nat, q2: nat :: Candidate(rest, i2, q2) ==> i < i2 || (i == i2 && q <= q2)
  }

  /** When the first request-line end has no blank line after it, no later
      one has either, so the pattern does not match at all. */
  lemma NoBlankAfterFirst(rest: string, i: nat, tail: string)
    requires ProtocolAt(rest, i) && tail == rest[i + 11..]
    requires forall i2: nat :: i2 < i ==> !ProtocolAt(rest, i2)
    requires forall q: nat :: !BlankAt(tail, q)
    ensures NoCandidate(rest)
  {
    forall i2: nat, q2: nat
      ensures !Candidate(rest, i2, q2)
    {
      if i < i2 && Candidate(rest, i2, q2) {
        LaterCandidate(rest, i, i2, q2);
      }
    }
  }

  /** The first request-line end with the first blank line after it beats
      every other candidate. */
  lemma FirstIsLeftmost(rest: string, i: nat, q: nat)
    requires FirstProtocol(rest, 0) == Some(i) && HeaderEnd(rest[i + 11..]) == Some(q)
    ensures Leftmost(rest, i, q)
  {
    var tail := rest[i + 11..];
    forall i2: nat, q2: nat | Candidate(rest, i2, q2)
      ensures i < i2 || (i == i2 && q <= q2)
    {
      if i2 == i {
        assert BlankAt(tail, q2);
      }
    }
  }

  /** The tokenizer finds what the pattern's backtracking finds: a match
      exists exactly when it returns one, and it returns the match with the
      shortest target and, for that target, the shortest header block (both
      groups are lazy). */
  lemma TokenizeLeftmost(data: Bytes)
    requires MatchMethod(data).Some?
    ensures var rest := data[|MatchMethod(data).value| + 1..];
      (Tokenize(data).None? <==> NoCandidate(rest)) &&
      (Tokenize(data).Some? ==>
        Leftmost(rest, |Tokenize(data).value.target|, |Tokenize(data).value.headerBlock|))
  {
    var m := MatchMethod(data).value;
    SplitRequestLeftmost(m, data[|m| + 1..]);
  }

  lemma SplitRequestLeftmost(m: string, rest: string)
    ensures SplitRequest(m, rest).None? <==> NoCandidate(rest)
    ensures SplitRequest(m, rest).Some? ==>
      Leftmost(rest, |SplitRequest(m, rest).value.target|, |SplitRequest(m, rest).value.headerBlock|)
  {
    match FirstProtocol(rest, 0)
    case None =>
      assert forall i: nat :: !ProtocolAt(rest, i);
    case Some(i) =>
      var tail := rest[i + 11..];
      match HeaderEnd(tail)
      case None =>
        NoBlankAfterFirst(rest, i, tail);
      case Some(q) =>
        assert |rest[..i]| == i && |tail[..q]| == q;
        FirstIsLeftmost(rest, i, q);
  }

  // Header fields

  /** `header.split(": ")[0]` and `header.split(": ")[1]`: indexing raises
      when the line has no `": "`. */
  function ParseHeaderLine(line: string): Outcome<(string, string)> {
    var pieces := Split(line, ": ");
    if |pieces| < 2 then Crash else Ok((pieces[0], pieces[1]))
  }

  /** A line without `": "` raises; otherwise the key is the text before the
      first `": "` and the value runs up to the second one. */
  lemma HeaderLineShape(line: string)
    ensures ParseHeaderLine(line).Crash? <==> NoOccurrence(line, ": ")
    ensures ParseHeaderLine(line).Ok? ==>
      var (k, v) := ParseHeaderLine(line).value;
      StartsWith(line, k + ": " + v) && NoOccurrence(k, ": ") && NoOccurrence(v, ": ")
  {
    var pieces := Split(line, ": ");
    SplitPiecesFree(line, ": ");
    match Find(line, ": ", 0)
    case None =>
      FindNone(line, ": ") by {
        forall j: nat ensures !OccursAt(line, ": ", j) { }
      }
    case Some(i) =>
      SplitAt(line, ": ", i);
      var after := line[i + 2..];
      SplitHead(after, ": ");
      var v := Split(after, ": ")[0];
      assert pieces[1] == v;
      assert line[..i + 2 + |v|] == line[..i] + ": " + v;
  }

  /** `"k: v"` */
  function FieldLine(f: (string, string)): string {
    f.0 + ": " + f.1
  }

  /** A header field the server can read back: one line, no `": "` inside. */
  ghost predicate FieldText(s: string) {
    SingleLine(s) && NoOccurrence(s, ": ")
  }

  lemma ParseFieldLine(f: (string, string))
    requires FieldText(f.0) && FieldText(f.1)
    ensures ParseHeaderLine(FieldLine(f)) == Ok(f)
  {
    SeparatorsHaveNoBorder();
    SplitConcat(f.0, f.1, ": ");
    SplitSingle(f.0, ": ");
    SplitSingle(f.1, ": ");
  }

  /** The non-empty pieces (`if header`). */
  function NonEmpty(lines: seq<string>): (r: seq<string>)
    ensures forall k :: 0 <= k < |r| ==> r[k] != ""
  {
    if |lines| == 0 then []
    else (if lines[0] == "" then [] else [lines[0]]) + NonEmpty(lines[1..])
  }

  function ParseHeaderLines(lines: seq<string>): (r: Outcome<seq<(string, string)>>)
    ensures r.Ok? ==> |r.value| == |lines|
  {
    if |lines| == 0 then Ok([])
    else
      var f :- ParseHeaderLine(lines[0]);
      var fs :- ParseHeaderLines(lines[1..]);
      Ok([f] + fs)
  }

  /** The header list of `parse_bytes`: every non-empty line of the block. */
  function HeaderFields(block: string): Outcome<seq<(string, string)>> {
    ParseHeaderLines(NonEmpty(Split(block, CRLF)))
  }

  /** `HttpRequest.parse_bytes`: a request line the pattern does not match
      makes `.groups()` raise on `None`; so does a header line without
      `": "`. Later duplicate keys overwrite earlier ones. */
  function ParseBytes(data: Bytes, cwd: Path): (r: Outcome<Request>)
    ensures Tokenize(data).None? ==> r.Crash?
    ensures Tokenize(data).Some? ==> (r.Crash? <==> HeaderFields(Tokenize(data).value.headerBlock).Crash?)
    ensures r.Ok? ==>
      Tokenize(data).Some? &&
      var p := Tokenize(data).value;
      r.value.verb == p.verb && r.value.protocol == p.protocol && r.value.body == p.body &&
      r.value.path == PStr(PathString(Resolve(cwd, "." + p.target))) &&
      r.value.headers == BuildMap(HeaderFields(p.headerBlock).value)
  {
    match Tokenize(data)
    case None => Crash
    case Some(p) =>
      var fields :- HeaderFields(p.headerBlock);
      Ok(NewRequest(p.verb, p.target, p.protocol, BuildMap(fields), p.body, cwd))
  }

  // Rendering, for the round trip

  /** The header lines, each followed by CRLF. */
  function HeaderBlockOf(fields: seq<(string, string)>): string {
    if |fields| == 0 then "" else FieldLine(fields[0]) + CRLF + HeaderBlockOf(fields[1..])
  }

  function FieldLines(fields: seq<(string, string)>): (r: seq<string>)
    ensures |r| == |fields| && forall k :: 0 <= k < |r| ==> r[k] == FieldLine(fields[k])
  {
    if |fields| == 0 then [] else [FieldLine(fields[0])] + FieldLines(fields[1..])
  }

  /** A request as a client writes it. */
  function RenderRequest(verb: string, target: string, protocol: string,
                         fields: seq<(string, string)>, body: Bytes): Bytes {
    RequestLine(verb, target, protocol) + HeaderBlockOf(fields) + CRLF + body
  }

  ghost predicate WellFormedFields(fields: seq<(string, string)>) {
    forall k :: 0 <= k < |fields| ==> FieldText(fields[k].0) && FieldText(fields[k].1)
  }

  lemma FieldLineIsSingleLine(f: (string, string))
    requires FieldText(f.0) && FieldText(f.1)
    ensures SingleLine(FieldLine(f)) && NoOccurrence(FieldLine(f), CRLF) && FieldLine(f) != ""
  {
    var l := FieldLine(f);
    forall i | 0 <= i < |l|
      ensures l[i] != '\r' && l[i] != '\n'
    {
      if i < |f.0| {
        assert l[i] == f.0[i];
      } else if i >= |f.0| + 2 {
        assert l[i] == f.1[i - |f.0| - 2];
      }
    }
    SingleLineNoCRLF(l);
  }

  /** The block is the lines joined by CRLF, with a final CRLF. */
  lemma {:induction false} HeaderBlockJoin(fields: seq<(string, string)>)
    requires |fields| > 0
    ensures HeaderBlockOf(fields) == Join(FieldLines(fields), CRLF) + CRLF
  {
    if |fields| > 1 {
      HeaderBlockJoin(fields[1..]);
      assert FieldLines(fields)[1..] == FieldLines(fields[1..]);
    }
  }

  /** Reading the header block back gives the fields, in order. */
  lemma {:induction false} HeaderFieldsOf(fields: seq<(string, string)>)
    requires WellFormedFields(fields)
    ensures HeaderFields(HeaderBlockOf(fields)) == Ok(fields)
  {
    if |fields| == 0 {
      SplitSingle("", CRLF) by {
        forall j: nat ensures !OccursAt("", CRLF, j) { }
      }
      assert [""][1..] == [];
      assert NonEmpty([""]) == [];
    } else {
      var l := FieldLine(fields[0]);
      var rest := HeaderBlockOf(fields[1..]);
      FieldLineIsSingleLine(fields[0]);
      SeparatorsHaveNoBorder();
      SplitConcat(l, rest, CRLF);
      SplitSingle(l, CRLF);
      var tail := Split(rest, CRLF);
      assert Split(HeaderBlockOf(fields), CRLF) == [l] + tail;
      assert ([l] + tail)[1..] == tail;
      assert NonEmpty([l] + tail) == [l] + NonEmpty(tail);
      HeaderFieldsOf(fields[1..]);
      ParseFieldLine(fields[0]);
      assert ([l] + NonEmpty(tail))[1..] == NonEmpty(tail);
      assert [fields[0]] + fields[1..] == fields;
    }
  }

  /** The first blank line after the request line is the one that ends the
      rendered header block. */
  lemma RenderedHeaderEnd(fields: seq<(string, string)>, body: Bytes)
    requires WellFormedFields(fields)
    ensures HeaderEnd(HeaderBlockOf(fields) + CRLF + body) == Some(|HeaderBlockOf(fields)|)
  {
    var hb := HeaderBlockOf(fields);
    var x := CRLF + (hb + CRLF + body);
    if |fields| == 0 {
      assert x == BlankLine + body;
      assert x[0..4] == BlankLine;
      FindIs(x, BlankLine, 0, 0);
    } else {
      var lines := [""] + FieldLines(fields);
      HeaderBlockJoin(fields);
      assert lines[1..] == FieldLines(fields);
      assert Join(lines, CRLF) == CRLF + Join(FieldLines(fields), CRLF);
      assert x == Join(lines, CRLF) + BlankLine + body;
      forall k | 0 <= k < |lines|
        ensures NoOccurrence(lines[k], CRLF)
      {
        if k == 0 {
          forall j: nat ensures !OccursAt(lines[0], CRLF, j) { }
        } else {
          FieldLineIsSingleLine(fields[k - 1]);
        }
      }
      forall k | 0 < k < |lines|
        ensures lines[k] != ""
      {
        FieldLineIsSingleLine(fields[k - 1]);
      }
      FirstBlankLine(lines, body);
    }
  }

  lemma MatchRendered(verb: string, rest: string)
    requires verb in Methods
    ensures MatchMethod(verb + " " + rest) == Some(verb)
  {
    var data := verb + " " + rest;
    assert data[..|verb| + 1] == verb + " ";
    var mm := MatchMethod(data);
    MethodIsUnique(data, mm.value, verb);
  }

  lemma FirstProtocolRendered(target: string, protocol: string, tail: string)
    requires IsProtocol(protocol) && ' ' !in target
    ensures FirstProtocol(target + " " + protocol + CRLF + tail, 0) == Some(|target|)
  {
    var rest := target + " " + protocol + CRLF + tail;
    var i := |target|;
    assert rest[i + 1..i + 9] == protocol;
    CRLFAt(rest, i + 9);
    assert ProtocolAt(rest, i);
    forall j: nat | j < i
      ensures !ProtocolAt(rest, j)
    {
      assert rest[j] == target[j];
    }
  }

  lemma SplitRendered(verb: string, target: string, protocol: string, hb: string, body: Bytes)
    requires IsProtocol(protocol) && ' ' !in target
    requires HeaderEnd(hb + CRLF + body) == Some(|hb|)
    ensures SplitRequest(verb, target + " " + protocol + CRLF + (hb + CRLF + body))
      == Some(RequestParts(verb, target, protocol, hb, body))
  {
    var tail := hb + CRLF + body;
    var rest := target + " " + protocol + CRLF + tail;
    FirstProtocolRendered(target, protocol, tail);
    var i := |target|;
    assert rest[i + 11..] == tail;
    assert tail[..|hb|] == hb && tail[|hb| + 2..] == body;
    assert rest[..i] == target && rest[i + 1..i + 9] == protocol;
  }

  /** The tokenizer splits what a client wrote back into its parts. */
  lemma TokenizeRendered(verb: string, target: string, protocol: string,
                         fields: seq<(string, string)>, body: Bytes)
    requires verb in Methods && IsProtocol(protocol) && ' ' !in target
    requires WellFormedFields(fields)
    ensures Tokenize(RenderRequest(verb, target, protocol, fields, body))
      == Some(RequestParts(verb, target, protocol, HeaderBlockOf(fields), body))
  {
    var hb := HeaderBlockOf(fields);
    var rest := target + " " + protocol + CRLF + (hb + CRLF + body);
    var data := RenderRequest(verb, target, protocol, fields, body);
    Regroup(verb, target, protocol, hb, body);
    assert data == verb + " " + rest;
    MatchRendered(verb, rest);
    assert data[|verb| + 1..] == rest;
    RenderedHeaderEnd(fields, body);
    SplitRendered(verb, target, protocol, hb, body);
  }

  /** Parsing what a client wrote gives the request back: the method, the
      resolved target, the protocol, the fields (later keys overwrite) and
      the body, whatever the body holds. */
  lemma ParseRendered(verb: string, target: string, protocol: string,
                      fields: seq<(string, string)>, body: Bytes, cwd: Path)
    requires verb in Methods && IsProtocol(protocol) && ' ' !in target
    requires WellFormedFields(fields)
    ensures ParseBytes(RenderRequest(verb, target, protocol, fields, body), cwd)
      == Ok(NewRequest(verb, target, protocol, BuildMap(fields), body, cwd))
  {
    TokenizeRendered(verb, target, protocol, fields, body);
    HeaderFieldsOf(fields);
  }

  /** The value read for a field is the one written last under its key. */
  lemma RenderedFieldValue(verb: string, target: string, protocol: string,
                           fields: seq<(string, string)>, body: Bytes, cwd: Path, k: nat)
    requires verb in Methods && IsProtocol(protocol) && ' ' !in target
    requires WellFormedFields(fields)
    requires k < |fields| && forall j :: k < j < |fields| ==> fields[j].0 != fields[k].0
    ensures var r := ParseBytes(RenderRequest(verb, target, protocol, fields, body), cwd);
      r.Ok? && fields[k].0 in r.value.headers && r.value.headers[fields[k].0] == fields[k].1
  {
    ParseRendered(verb, target, protocol, fields, body, cwd);
    BuildMapLastWins(fields, k);
  }
}
