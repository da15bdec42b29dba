/** What src/http/request.c makes of the bytes received so far. */
module Requests {
  import opened Texts
  import opened Numbers

  const MAX_HEADER_BYTES: nat := 16 * 1024
  const MAX_REQUEST_BODY: nat := 1024 * 1024
  const MAX_HEADERS: nat := 64

  const CRLF: Text := "\r\n"
  const BLANK_LINE: Text := "\r\n\r\n"

  datatype Verb = UNKNOWN | GET | POST | PATCH | PUT | DELETE

  datatype Header = Header(name: Text, value: Text)

  datatype Request = Request(
    verb: Verb,
    path: Text,
    query: Text,
    headers: seq<Header>,
    contentType: Text,
    contentLength: nat,
    body: Text)

  datatype ParseResult = Complete(request: Request) | Incomplete | BadRequest | PayloadTooLarge | Unsupported

  // ---------- lines ----------

  /** The lines of a header section, without their line ends. */
  function Lines(head: Text): (r: seq<Text>)
    ensures r != []
    decreases |head|
  {
    var end := FindFrom(head, CRLF, 0);
    if end.None? then [head] else [head[..end.value]] + Lines(head[end.value + 2..])
  }

  function VerbOf(word: Text): Verb {
    if word == "GET" then GET
    else if word == "POST" then POST
    else if word == "PATCH" then PATCH
    else if word == "PUT" then PUT
    else if word == "DELETE" then DELETE
    else UNKNOWN
  }

  /** The first `c` splits a text in two (stringv_split_once_char). */
  function SplitAt(s: Text, c: char): Option<(Text, Text)> {
    var i := FindChar(s, c);
    if i.None? then None else Some((s[..i.value], s[i.value + 1..]))
  }

  function PathAndQuery(target: Text): (Text, Text) {
    match SplitAt(target, '?')
    case None => (target, "")
    case Some(parts) => parts
  }

  /** A request line is a verb, a target that starts with a slash and the version. */
  function RequestLine(line: Text): (r: Option<Request>)
    ensures r.Some? ==> r.value.headers == []
  {
    match SplitAt(line, ' ')
    case None => None
    case Some((word, rest)) =>
      match SplitAt(rest, ' ')
      case None => None
      case Some((target, version)) =>
        if version != "HTTP/1.1" || target == "" || target[0] != '/' then None
        else
          var (path, query) := PathAndQuery(target);
          Some(Request(VerbOf(word), path, query, [], "", 0, ""))
  }

  function HeaderLine(line: Text): Option<Header> {
    match SplitAt(line, ':')
    case None => None
    case Some((name, value)) => if Trim(name) == "" then None else Some(Header(Trim(name), Trim(value)))
  }

  /** The header fields of the remaining lines after those in `found`; an empty line ends them. */
  function HeaderFields(lines: seq<Text>, found: seq<Header>): Option<seq<Header>>
    decreases |lines|
  {
    if lines == [] || lines[0] == "" then Some(found)
    else if |found| >= MAX_HEADERS then None
    else
      match HeaderLine(lines[0])
      case None => None
      case Some(h) => HeaderFields(lines[1..], found + [h])
  }

  // ---------- header fields ----------

  /** request_header and request_has_header: the first field of that name, in any case. */
  function Field(headers: seq<Header>, name: Text): (r: Option<Text>)
    ensures r.None? <==> forall h :: h in headers ==> !EqualIgnoreCase(h.name, name)
  {
    if headers == [] then None
    else if EqualIgnoreCase(headers[0].name, name) then Some(headers[0].value)
    else Field(headers[1..], name)
  }

  /** request_transfer_is_chunked: some comma-separated word is `chunked`. */
  function IsChunked(value: Text): bool
    decreases |value|
  {
    if value == "" then false
    else
      match SplitAt(value, ',')
      case None => EqualIgnoreCase(Trim(value), "chunked")
      case Some((word, rest)) => EqualIgnoreCase(Trim(word), "chunked") || IsChunked(rest)
  }

  function FieldOrEmpty(headers: seq<Header>, name: Text): Text {
    match Field(headers, name)
    case None => ""
    case Some(value) => value
  }

  /** What the header fields say about the body: its length, or why it is refused. */
  function BodyLength(headers: seq<Header>): Result<nat, ParseResult> {
    if IsChunked(FieldOrEmpty(headers, "Transfer-Encoding")) then Failure(Unsupported)
    else
      match Field(headers, "Content-Length")
      case None => Success(0)
      case Some(value) =>
        match SizeOf(value)
        case None => Failure(BadRequest)
        case Some(length) => if length > MAX_REQUEST_BODY then Failure(PayloadTooLarge) else Success(length)
  }

  /** The request that a header section describes, still without its body. */
  function ParseHead(head: Text): Result<Request, ParseResult> {
    var lines := Lines(head);
    match RequestLine(lines[0])
    case None => Failure(BadRequest)
    case Some(start) =>
      match HeaderFields(lines[1..], [])
      case None => Failure(BadRequest)
      case Some(headers) =>
        match BodyLength(headers)
        case Failure(refused) => Failure(refused)
        case Success(length) =>
          Success(start.(headers := headers, contentType := FieldOrEmpty(headers, "Content-Type"),
                         contentLength := length))
  }

  /** request_parse: the verdict on the bytes received so far. */
  function ParseRequest(raw: Text): ParseResult {
    match FindFrom(raw, BLANK_LINE, 0)
    case None => if |raw| >= MAX_HEADER_BYTES then BadRequest else Incomplete
    case Some(end) =>
      if end + 4 > MAX_HEADER_BYTES then BadRequest
      else
        match ParseHead(raw[..end])
        case Failure(refused) => refused
        case Success(request) =>
          if |raw| < end + 4 + request.contentLength then Incomplete
          else Complete(request.(body := raw[end + 4..end + 4 + request.contentLength]))
  }

  // ---------- stability ----------

  lemma {:induction false} HeadBounds(head: Text)
    ensures ParseHead(head).Failure? ==> ParseHead(head).error in {BadRequest, Unsupported, PayloadTooLarge}
    ensures ParseHead(head).Success? ==> ParseHead(head).value.contentLength <= MAX_REQUEST_BODY
  {
    hide Lines, RequestLine, HeaderFields, IsChunked, Field, SizeOf;
  }

  /** Once the parser has reached a verdict, more bytes never change it: same result, and for
      a complete request the same verb, target, header fields and body. */
  lemma {:induction false} VerdictStable(raw: Text, extra: Text)
    requires !ParseRequest(raw).Incomplete?
    ensures ParseRequest(raw + extra) == ParseRequest(raw)
  {
    hide ParseHead, FindFrom;
    var found := FindFrom(raw, BLANK_LINE, 0);
    if found.Some? {
      FindInExtension(raw, extra, BLANK_LINE, 0);
      assert (raw + extra)[..found.value] == raw[..found.value];
      HeadBounds(raw[..found.value]);
      if ParseRequest(raw).Complete? {
        var stop := found.value + 4 + ParseHead(raw[..found.value]).value.contentLength;
        assert (raw + extra)[found.value + 4..stop] == raw[found.value + 4..stop];
      }
    } else {
      var later := FindFrom(raw + extra, BLANK_LINE, 0);
      if later.Some? && later.value + 4 <= |raw| {
        OccursInExtension(raw, extra, BLANK_LINE, later.value);
      }
    }
  }

  /** An undecided parse is short: the read buffer can never fill up without a verdict. */
  lemma {:induction false} IncompleteIsShort(raw: Text)
    requires ParseRequest(raw).Incomplete?
    ensures |raw| < MAX_HEADER_BYTES + MAX_REQUEST_BODY
  {
    hide ParseHead, FindFrom;
    var found := FindFrom(raw, BLANK_LINE, 0);
    if found.Some? {
      HeadBounds(raw[..found.value]);
    }
  }

  /** A complete request's body is exactly the announced number of octets right behind the
      first blank line (section 6.3 of RFC 9112), and zero octets when none is announced. */
  lemma {:induction false} BodyFraming(raw: Text)
    requires ParseRequest(raw).Complete?
    ensures var request := ParseRequest(raw).request;
            var announced := Field(request.headers, "Content-Length");
            && |request.body| == request.contentLength
            && (announced.None? ==> request.contentLength == 0)
            && (announced.Some? ==> SizeOf(announced.value) == Some(request.contentLength))
            && exists end: nat ::
                 FindFrom(raw, BLANK_LINE, 0) == Some(end) && raw[..end] + BLANK_LINE + request.body <= raw
  {
    hide FindFrom, Lines, RequestLine, HeaderFields, IsChunked, Field, SizeOf;
    var end := FindFrom(raw, BLANK_LINE, 0).value;
    var request := ParseRequest(raw).request;
    assert raw[end..end + 4] == BLANK_LINE;
    assert raw[..end + 4 + request.contentLength] == raw[..end] + BLANK_LINE + request.body;
  }
}
