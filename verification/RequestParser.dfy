/** The loops of src/http/request.c, and the accumulate-and-reparse loop of src/ceasy.c. */
module RequestParser {
  import opened Texts
  import opened Numbers
  import opened Requests

  // ---------- request.c ----------

  /** request_header; `found` is what request_has_header answers. */
  method RequestHeader(headers: array<Header>, count: nat, name: Text) returns (value: Text, found: bool)
    requires count <= headers.Length
    ensures found == Field(headers[..count], name).Some?
    ensures value == FieldOrEmpty(headers[..count], name)
  {
    var index := 0;
    assert headers[0..count] == headers[..count];
    while index < count
      invariant index <= count
      invariant Field(headers[..count], name) == Field(headers[index..count], name)
    {
      assert headers[index..count][0] == headers[index] && headers[index..count][1..] == headers[index + 1..count];
      if EqualIgnoreCase(headers[index].name, name) {
        return headers[index].value, true;
      }
      index := index + 1;
    }
    return "", false;
  }

  /** request_transfer_is_chunked. */
  method TransferIsChunked(value: Text) returns (chunked: bool)
    ensures chunked == IsChunked(value)
  {
    hide FindChar, TrimLeft, TrimRight, EqualIgnoreCase;
    var remaining := value;
    while |remaining| > 0
      invariant IsChunked(value) == IsChunked(remaining)
      decreases |remaining|
    {
      var token, next := remaining, "";
      var parts := SplitAt(remaining, ',');
      if parts.Some? {
        token, next := parts.value.0, parts.value.1;
      }
      if EqualIgnoreCase(Trim(token), "chunked") {
        return true;
      }
      remaining := next;
    }
    return false;
  }

  /** The lines still to be read when the rest of the header section starts at `position`. */
  ghost function Pending(raw: Text, position: nat, end: nat): seq<Text>
    requires end <= |raw|
  {
    if position > end then [] else Lines(raw[position..end])
  }

  lemma {:induction false} NoEarlierLine(raw: Text, position: nat, end: nat, stop: nat)
    requires position <= stop <= end <= |raw|
    requires forall j: nat :: position <= j < stop ==> !OccursAt(raw, CRLF, j)
    ensures forall j: nat :: j < stop - position ==> !OccursAt(raw[position..end], CRLF, j)
  {
    forall j: nat | j < stop - position
      ensures !OccursAt(raw[position..end], CRLF, j)
    {
      assert !OccursAt(raw, CRLF, position + j);
      if j + 2 <= end - position {
        OccursInSlice(raw, CRLF, position, end, j);
      }
    }
  }

  /** The next line end in the whole buffer is the next line end of the header section, or the
      start of the blank line that closes it. */
  lemma {:induction false} NextLine(raw: Text, position: nat, end: nat)
    requires FindFrom(raw, BLANK_LINE, 0) == Some(end) && position <= end
    ensures FindFrom(raw, CRLF, position).Some?
    ensures var stop := FindFrom(raw, CRLF, position).value;
            && position <= stop <= end
            && Pending(raw, position, end) == [raw[position..stop]] + Pending(raw, stop + 2, end)
  {
    hide FindFrom;
    assert raw[end..end + 4][..2] == raw[end..end + 2];
    assert OccursAt(raw, CRLF, end);
    var stop := FindFrom(raw, CRLF, position).value;
    var rest := raw[position..end];
    NoEarlierLine(raw, position, end, stop);
    if stop < end {
      assert raw[stop + 1] == raw[stop..stop + 2][1] == CRLF[1] == '\n';
      assert raw[end] == raw[end..end + 2][0] == CRLF[0] == '\r';
      assert stop + 2 <= end;
      OccursInSlice(raw, CRLF, position, end, stop - position);
      FoundAt(rest, CRLF, 0, stop - position);
      assert rest[..stop - position] == raw[position..stop];
      assert rest[stop - position + 2..] == raw[stop + 2..end];
    } else {
      assert FindFrom(rest, CRLF, 0).None?;
    }
  }

  /** The header loop of request_parse_headers, from the line behind the request line on. */
  method ReadHeaderFields(raw: Text, from: nat, end: nat) returns (headers: array<Header>, count: nat, ok: bool)
    requires FindFrom(raw, BLANK_LINE, 0) == Some(end) && from <= end + 2
    ensures fresh(headers) && count <= headers.Length
    ensures HeaderFields(Pending(raw, from, end), []) == if ok then Some(headers[..count]) else None
  {
    hide FindFrom, HeaderLine, Lines;
    headers := new Header[MAX_HEADERS];
    count := 0;
    var position := from;
    ghost var lines := Pending(raw, from, end);
    while position < |raw| && position < end
      invariant position <= end + 2 && count <= headers.Length == MAX_HEADERS && fresh(headers)
      invariant HeaderFields(lines, []) == HeaderFields(Pending(raw, position, end), headers[..count])
    {
      NextLine(raw, position, end);
      var stop := Find(raw, CRLF, position);
      if stop.None? || stop.value > end {
        return headers, count, false;
      }
      var line := raw[position..stop.value];
      assert Pending(raw, position, end)[1..] == Pending(raw, stop.value + 2, end);
      position := stop.value + 2;
      if |line| == 0 {
        return headers, count, true;
      }
      if count >= MAX_HEADERS {
        return headers, count, false;
      }
      var header := HeaderLine(line);
      if header.None? {
        return headers, count, false;
      }
      ghost var found := headers[..count];
      headers[count] := header.value;
      count := count + 1;
      assert headers[..count] == found + [header.value];
    }
    NoLinesLeft(raw, position, end, headers[..count]);
    ok := true;
  }

  lemma {:induction false} NoLinesLeft(raw: Text, position: nat, end: nat, found: seq<Header>)
    requires FindFrom(raw, BLANK_LINE, 0) == Some(end) && position >= end
    ensures HeaderFields(Pending(raw, position, end), found) == Some(found)
  {
    if position == end {
      assert raw[end..end] == "";
      assert FindFrom("", CRLF, 0).None?;
    }
  }

  /** request_parse_headers. */
  method ParseHeaders(raw: Text, end: nat) returns (r: Result<Request, ParseResult>)
    requires FindFrom(raw, BLANK_LINE, 0) == Some(end)
    ensures r == ParseHead(raw[..end])
  {
    hide FindFrom, Lines, RequestLine, HeaderFields, SizeOf, Field, IsChunked;
    NextLine(raw, 0, end);
    assert raw[0..end] == raw[..end];
    var lineEnd := Find(raw, CRLF, 0);
    if lineEnd.None? {
      return Failure(Incomplete);
    }
    var start := RequestLine(raw[..lineEnd.value]);
    assert raw[0..lineEnd.value] == raw[..lineEnd.value];
    ghost var lines := Lines(raw[..end]);
    assert lines[0] == raw[..lineEnd.value] && lines[1..] == Pending(raw, lineEnd.value + 2, end);
    if start.None? {
      return Failure(BadRequest);
    }
    var headers, count, ok := ReadHeaderFields(raw, lineEnd.value + 2, end);
    if !ok {
      return Failure(BadRequest);
    }
    var contentType, _ := RequestHeader(headers, count, "Content-Type");
    var transferEncoding, _ := RequestHeader(headers, count, "Transfer-Encoding");
    var chunked := TransferIsChunked(transferEncoding);
    if chunked {
      return Failure(Unsupported);
    }
    var length := 0;
    var announced, present := RequestHeader(headers, count, "Content-Length");
    if present {
      var parsed := ParseSize(announced);
      if parsed.None? {
        return Failure(BadRequest);
      }
      length := parsed.value;
      if length > MAX_REQUEST_BODY {
        return Failure(PayloadTooLarge);
      }
    }
    return Success(start.value.(headers := headers[..count], contentType := contentType, contentLength := length));
  }

  /** request_parse. */
  method Parse(raw: Text) returns (r: ParseResult)
    ensures r == ParseRequest(raw)
  {
    hide FindFrom, ParseHead;
    var end := Find(raw, BLANK_LINE, 0);
    if end.None? {
      return if |raw| >= MAX_HEADER_BYTES then BadRequest else Incomplete;
    }
    if end.value + 4 > MAX_HEADER_BYTES {
      return BadRequest;
    }
    var head := ParseHeaders(raw, end.value);
    if head.Failure? {
      return head.error;
    }
    var length := head.value.contentLength;
    if |raw| < end.value + 4 + length {
      return Incomplete;
    }
    return Complete(head.value.(body := raw[end.value + 4..end.value + 4 + length]));
  }

  // ---------- ceasy_read_request ----------

  const CAPACITY: nat := MAX_HEADER_BYTES + MAX_REQUEST_BODY

  /** The bytes a client will still send before it closes the connection. */
  class Connection {
    var pending: Text

    constructor (pending: Text)
      ensures this.pending == pending
    {
      this.pending := pending;
    }

    /** recv: some of the pending bytes, as many as the network pleases; none only at the end. */
    method Receive(buffer: array<char>, offset: nat, limit: nat) returns (received: nat)
      requires limit > 0 && offset + limit <= buffer.Length
      modifies this, buffer
      ensures received <= limit && received <= |old(pending)| && (received == 0 <==> old(pending) == "")
      ensures pending == old(pending)[received..]
      ensures buffer[..offset + received] == old(buffer[..offset]) + old(pending)[..received]
    {
      var most := if limit < |pending| then limit else |pending|;
      received :| received <= most && (received == 0 <==> most == 0);
      for i := 0 to received
        invariant pending == old(pending)
        invariant buffer[..offset] == old(buffer[..offset])
        invariant buffer[offset..offset + i] == pending[..i]
      {
        buffer[offset + i] := pending[i];
      }
      assert buffer[..offset + received] == buffer[..offset] + buffer[offset..offset + received];
      pending := pending[received..];
    }
  }

  /** The verdict on a connection, as a function of its bytes alone: that of the parser on as
      much of them as fits the buffer; an unfinished request is a bad one. */
  function Verdict(bytes: Text): ParseResult {
    var seen := if |bytes| <= CAPACITY then bytes else bytes[..CAPACITY];
    var parsed := ParseRequest(seen);
    if !parsed.Incomplete? then parsed
    else if |seen| < CAPACITY then BadRequest
    else PayloadTooLarge
  }

  /** The answer for a full buffer is never given: the parser has decided by then. */
  lemma {:induction false} FullBufferIsDecided(bytes: Text)
    ensures var seen := if |bytes| <= CAPACITY then bytes else bytes[..CAPACITY];
            Verdict(bytes) == if ParseRequest(seen).Incomplete? then BadRequest else ParseRequest(seen)
  {
    hide ParseRequest;
    var seen := if |bytes| <= CAPACITY then bytes else bytes[..CAPACITY];
    if ParseRequest(seen).Incomplete? {
      IncompleteIsShort(seen);
    }
  }

  lemma {:induction false} VerdictOnPrefix(bytes: Text, n: nat)
    requires n <= |bytes| && n <= CAPACITY && !ParseRequest(bytes[..n]).Incomplete?
    ensures Verdict(bytes) == ParseRequest(bytes[..n])
  {
    hide ParseRequest;
    var seen := if |bytes| <= CAPACITY then bytes else bytes[..CAPACITY];
    assert seen == bytes[..n] + seen[n..];
    VerdictStable(bytes[..n], seen[n..]);
  }

  /** ceasy_read_request: however the bytes arrive, the verdict depends only on what they are.
      `noMemory` says that the arena refused the buffer. */
  method ReadRequest(connection: Connection, mayRefuse: bool) returns (r: ParseResult, noMemory: bool)
    modifies connection
    ensures noMemory ==> mayRefuse && r == BadRequest
    ensures !noMemory ==> r == Verdict(old(connection.pending))
  {
    hide ParseRequest;
    var granted: bool := *;
    if mayRefuse && !granted {
      return BadRequest, true;
    }
    noMemory := false;
    var buffer := new char[CAPACITY];
    var received := 0;
    ghost var bytes := connection.pending;
    assert buffer[..0] == bytes[..0];
    while received < CAPACITY
      invariant received <= CAPACITY && received <= |bytes| && fresh(buffer)
      invariant buffer[..received] == bytes[..received] && connection.pending == bytes[received..]
      invariant received > 0 ==> ParseRequest(bytes[..received]).Incomplete?
      decreases CAPACITY - received
    {
      var count := connection.Receive(buffer, received, CAPACITY - received);
      if count == 0 {
        assert bytes[..received] == bytes;
        NothingIsIncomplete();
        return BadRequest, false;
      }
      assert bytes[..received] + bytes[received..][..count] == bytes[..received + count];
      assert bytes[received..][count..] == bytes[received + count..];
      received := received + count;
      r := Parse(buffer[..received]);
      if !r.Incomplete? {
        VerdictOnPrefix(bytes, received);
        return;
      }
    }
    assert bytes[..received] == if |bytes| <= CAPACITY then bytes else bytes[..CAPACITY];
    return PayloadTooLarge, false;
  }

  lemma {:induction false} NothingIsIncomplete()
    ensures ParseRequest("").Incomplete?
  {
  }
}
