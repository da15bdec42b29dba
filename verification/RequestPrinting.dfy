/** A reference for the request parser: requests written out by the grammar of RFC 9112 are read
    back as they were meant. */
module RequestPrinting {
  import opened Texts
  import opened Requests

  predicate Plain(s: Text) {
    forall i :: 0 <= i < |s| ==> s[i] != '\r' && s[i] != '\n'
  }

  predicate Trimmed(s: Text) {
    s != "" ==> !IsSpace(s[0]) && !IsSpace(s[|s| - 1])
  }

  predicate WellFormedHeader(h: Header) {
    && h.name != "" && Trimmed(h.name) && Plain(h.name) && ':' !in h.name
    && Trimmed(h.value) && Plain(h.value)
  }

  function PrintHeader(h: Header): Text {
    h.name + [':'] + " " + h.value
  }

  function HeaderLines(headers: seq<Header>): seq<Text> {
    if headers == [] then [] else [PrintHeader(headers[0])] + HeaderLines(headers[1..])
  }

  function RequestLineText(word: Text, target: Text): Text {
    word + [' '] + (target + [' '] + "HTTP/1.1")
  }

  /** Lines with line ends between them. */
  function Join(lines: seq<Text>): Text
    requires lines != []
  {
    if |lines| == 1 then lines[0] else lines[0] + CRLF + Join(lines[1..])
  }

  function HeadText(word: Text, target: Text, headers: seq<Header>): Text {
    Join([RequestLineText(word, target)] + HeaderLines(headers))
  }

  function Print(word: Text, target: Text, headers: seq<Header>, body: Text): Text {
    HeadText(word, target, headers) + BLANK_LINE + body
  }

  predicate Sendable(word: Text, target: Text, headers: seq<Header>, body: Text) {
    && Plain(word) && ' ' !in word
    && Plain(target) && ' ' !in target && target != "" && target[0] == '/'
    && (forall h :: h in headers ==> WellFormedHeader(h))
    && |headers| <= MAX_HEADERS
    && BodyLength(headers) == Success(|body|)
    && |HeadText(word, target, headers)| + 4 <= MAX_HEADER_BYTES
  }

  // ---------- lines ----------

  predicate PlainLine(line: Text) {
    line != "" && Plain(line)
  }

  lemma {:induction false} NoCrlfIn(line: Text, rest: Text, j: nat)
    requires Plain(line) && j < |line|
    ensures !OccursAt(line + rest, CRLF, j) && !OccursAt(line + rest, BLANK_LINE, j)
  {
    var s := line + rest;
    assert s[j] == line[j];
    assert j + 2 <= |s| ==> s[j..j + 2][0] == s[j];
    assert j + 4 <= |s| ==> s[j..j + 4][0] == s[j];
    assert CRLF[0] == '\r' && BLANK_LINE[0] == '\r';
  }

  lemma {:induction false} LinesOfJoin(lines: seq<Text>)
    requires lines != [] && forall l :: l in lines ==> PlainLine(l)
    ensures Lines(Join(lines)) == lines
  {
    hide FindFrom, OccursAt;
    var line, s := lines[0], Join(lines);
    assert PlainLine(line);
    if |lines| == 1 {
      assert s + "" == s;
      forall j: nat
        ensures !OccursAt(s, CRLF, j)
      {
        if j < |line| {
          NoCrlfIn(line, "", j);
        } else {
          OccursPastEnd(s, CRLF, j);
        }
      }
    } else {
      var rest := CRLF + Join(lines[1..]);
      assert s == line + rest;
      forall j: nat | j < |line|
        ensures !OccursAt(s, CRLF, j)
      {
        NoCrlfIn(line, rest, j);
      }
      OccursBehind(line, CRLF, Join(lines[1..]));
      FoundAt(s, CRLF, 0, |line|);
      assert s[..|line|] == line && s[|line| + 2..] == Join(lines[1..]);
      LinesOfJoin(lines[1..]);
    }
  }

  lemma {:induction false} OccursPastEnd(s: Text, pat: Text, j: nat)
    requires j >= |s| && pat != ""
    ensures !OccursAt(s, pat, j)
  {
  }

  lemma {:induction false} OccursBehind(a: Text, pat: Text, b: Text)
    ensures OccursAt(a + (pat + b), pat, |a|)
  {
    var s := a + (pat + b);
    assert s[|a|..|a| + |pat|] == pat;
  }

  lemma {:induction false} BlankLineBehindJoin(lines: seq<Text>, tail: Text)
    requires lines != [] && forall l :: l in lines ==> PlainLine(l)
    ensures FindFrom(Join(lines) + (BLANK_LINE + tail), BLANK_LINE, 0) == Some(|Join(lines)|)
  {
    var s := Join(lines) + (BLANK_LINE + tail);
    OccursBehind(Join(lines), BLANK_LINE, tail);
    forall j: nat | j < |Join(lines)|
      ensures !OccursAt(s, BLANK_LINE, j)
    {
      NoBlankLineIn(lines, tail, j);
    }
    FoundAt(s, BLANK_LINE, 0, |Join(lines)|);
  }

  lemma {:induction false} NoBlankLineIn(lines: seq<Text>, tail: Text, j: nat)
    requires lines != [] && (forall l :: l in lines ==> PlainLine(l)) && j < |Join(lines)|
    ensures !OccursAt(Join(lines) + (BLANK_LINE + tail), BLANK_LINE, j)
  {
    hide OccursAt;
    var line, s := lines[0], Join(lines) + (BLANK_LINE + tail);
    assert PlainLine(line);
    if |lines| == 1 {
      NoCrlfIn(line, BLANK_LINE + tail, j);
    } else {
      var later := Join(lines[1..]) + (BLANK_LINE + tail);
      assert s == line + (CRLF + later);
      if j < |line| {
        NoCrlfIn(line, CRLF + later, j);
      } else if j < |line| + 2 {
        JoinStarts(lines[1..]);
        NoBlankLineAtEnd(line, later, j);
      } else {
        NoBlankLineIn(lines[1..], tail, j - |line| - 2);
        assert s == (line + CRLF) + later;
        OccursShifted(line + CRLF, later, BLANK_LINE, j - |line| - 2);
      }
    }
  }

  lemma {:induction false} JoinStarts(lines: seq<Text>)
    requires lines != [] && forall l :: l in lines ==> PlainLine(l)
    ensures Join(lines) != "" && Join(lines)[0] != '\r'
  {
    assert PlainLine(lines[0]);
  }

  /** Behind a line end comes a line, so no blank line starts there. */
  lemma {:induction false} NoBlankLineAtEnd(line: Text, later: Text, j: nat)
    requires later != "" && later[0] != '\r' && |line| <= j < |line| + 2
    ensures !OccursAt(line + (CRLF + later), BLANK_LINE, j)
  {
    var s := line + (CRLF + later);
    assert s[|line| + 1] == '\n' && s[|line| + 2] == later[0];
    if j + 4 <= |s| {
      assert s[j..j + 4][0] == s[j] && s[j..j + 4][2] == s[j + 2];
      assert BLANK_LINE[0] == BLANK_LINE[2] == '\r';
    }
  }

  lemma {:induction false} OccursShifted(a: Text, s: Text, pat: Text, j: nat)
    ensures OccursAt(a + s, pat, |a| + j) == OccursAt(s, pat, j)
  {
    if j + |pat| <= |s| {
      OccursInSlice(a + s, pat, |a|, |a + s|, j);
      assert (a + s)[|a|..|a + s|] == s;
    }
  }

  // ---------- fields ----------

  lemma {:induction false} SplitPrinted(left: Text, c: char, right: Text)
    requires c !in left
    ensures SplitAt(left + [c] + right, c) == Some((left, right))
  {
    var s := left + [c] + right;
    assert s[..|left|] == left && s[|left| + 1..] == right;
    FoundCharAt(s, c, |left|);
  }

  lemma {:induction false} HeaderLineOfPrinted(h: Header)
    requires WellFormedHeader(h)
    ensures HeaderLine(PrintHeader(h)) == Some(h) && PlainLine(PrintHeader(h))
  {
    hide SplitAt, Trim;
    assert PrintHeader(h) == h.name + [':'] + (" " + h.value);
    SplitPrinted(h.name, ':', " " + h.value);
    TrimPadded("", h.name, "");
    TrimPadded(" ", h.value, "");
    assert "" + h.name + "" == h.name && " " + h.value + "" == " " + h.value;
  }

  lemma {:induction false} HeaderFieldsOfPrinted(headers: seq<Header>, found: seq<Header>)
    requires forall h :: h in headers ==> WellFormedHeader(h)
    requires |found| + |headers| <= MAX_HEADERS
    ensures HeaderFields(HeaderLines(headers), found) == Some(found + headers)
    ensures forall l :: l in HeaderLines(headers) ==> PlainLine(l)
  {
    hide HeaderLine, WellFormedHeader;
    if headers == [] {
      assert found + headers == found;
    } else {
      HeaderLineOfPrinted(headers[0]);
      HeaderFieldsOfPrinted(headers[1..], found + [headers[0]]);
      assert found + [headers[0]] + headers[1..] == found + headers;
    }
  }

  lemma {:induction false} RequestLineOfPrinted(word: Text, target: Text)
    requires ' ' !in word && ' ' !in target && target != "" && target[0] == '/'
    requires Plain(word) && Plain(target)
    ensures PlainLine(RequestLineText(word, target))
    ensures RequestLine(RequestLineText(word, target))
         == Some(Request(VerbOf(word), PathAndQuery(target).0, PathAndQuery(target).1, [], "", 0, ""))
  {
    hide SplitAt, VerbOf, PathAndQuery;
    SplitPrinted(word, ' ', target + [' '] + "HTTP/1.1");
    SplitPrinted(target, ' ', "HTTP/1.1");
  }

  /** Main result: a request written out is read back as it was meant, header fields and body
      included, whatever bytes follow it. */
  lemma {:induction false} ParsePrinted(word: Text, target: Text, headers: seq<Header>, body: Text, extra: Text)
    requires Sendable(word, target, headers, body)
    ensures ParseRequest(Print(word, target, headers, body) + extra)
         == Complete(Request(VerbOf(word), PathAndQuery(target).0, PathAndQuery(target).1, headers,
                             FieldOrEmpty(headers, "Content-Type"), |body|, body))
  {
    hide FindFrom, Lines, RequestLine, RequestLineText, HeaderFields, HeaderLines, BodyLength, PathAndQuery, VerbOf,
         Join;
    var line := RequestLineText(word, target);
    var lines := [line] + HeaderLines(headers);
    var head := Join(lines);
    var raw := Print(word, target, headers, body) + extra;
    RequestLineOfPrinted(word, target);
    HeaderFieldsOfPrinted(headers, []);
    assert [] + headers == headers;
    assert raw == head + (BLANK_LINE + (body + extra));
    BlankLineBehindJoin(lines, body + extra);
    LinesOfJoin(lines);
    assert raw[..|head|] == head && lines[0] == line && lines[1..] == HeaderLines(headers);
    assert raw[|head| + 4..|head| + 4 + |body|] == body;
  }

  // ---------- the other direction: what an accepted request looks like ----------

  /** Splitting into lines loses nothing. */
  lemma {:induction false} JoinOfLines(head: Text)
    ensures Join(Lines(head)) == head
    decreases |head|
  {
    hide FindFrom;
    var end := FindFrom(head, CRLF, 0);
    if end.Some? {
      var rest := head[end.value + 2..];
      JoinOfLines(rest);
      assert ([head[..end.value]] + Lines(rest))[1..] == Lines(rest);
      assert head == head[..end.value] + CRLF + rest;
    }
  }

  lemma {:induction false} SplitIs(s: Text, c: char)
    requires SplitAt(s, c).Some?
    ensures s == SplitAt(s, c).value.0 + [c] + SplitAt(s, c).value.1 && c !in SplitAt(s, c).value.0
  {
  }

  /** A path and a query come from the target they spell. */
  lemma {:induction false} TargetIs(target: Text)
    ensures '?' !in PathAndQuery(target).0
    ensures target == if '?' in target then PathAndQuery(target).0 + ['?'] + PathAndQuery(target).1
            else PathAndQuery(target).0
  {
    if SplitAt(target, '?').Some? {
      SplitIs(target, '?');
    }
  }

  lemma {:induction false} AcceptedRequestLine(line: Text) returns (word: Text, target: Text)
    requires RequestLine(line).Some?
    ensures line == RequestLineText(word, target) && ' ' !in word && ' ' !in target && target != "" && target[0] == '/'
    ensures RequestLine(line).value
         == Request(VerbOf(word), PathAndQuery(target).0, PathAndQuery(target).1, [], "", 0, "")
  {
    hide SplitAt, VerbOf, PathAndQuery;
    SplitIs(line, ' ');
    word := SplitAt(line, ' ').value.0;
    var rest := SplitAt(line, ' ').value.1;
    SplitIs(rest, ' ');
    target := SplitAt(rest, ' ').value.0;
  }

  /** A header line is a name and a value, as found, around its first colon. */
  ghost predicate IsHeaderLine(line: Text, h: Header) {
    exists name, value ::
      line == name + [':'] + value && ':' !in name && Trim(name) != "" && h == Header(Trim(name), Trim(value))
  }

  lemma {:induction false} AcceptedHeaderLine(line: Text)
    requires HeaderLine(line).Some?
    ensures IsHeaderLine(line, HeaderLine(line).value)
  {
    hide Trim, SplitAt;
    SplitIs(line, ':');
    var name, value := SplitAt(line, ':').value.0, SplitAt(line, ':').value.1;
    assert line == name + [':'] + value;
  }

  /** The accepted header fields are those of the lines, one by one, until a line is empty. */
  lemma {:induction false} AcceptedFields(lines: seq<Text>, found: seq<Header>)
    requires HeaderFields(lines, found).Some?
    ensures (var all := HeaderFields(lines, found).value;
             && found <= all && |all| - |found| <= |lines|
             && (|all| <= MAX_HEADERS || all == found)
             && (forall k :: 0 <= k < |all| - |found| ==> IsHeaderLine(lines[k], all[|found| + k]))
             && (|all| - |found| < |lines| ==> lines[|all| - |found|] == ""))
    decreases |lines|
  {
    hide HeaderLine, IsHeaderLine;
    if lines != [] && lines[0] != "" {
      var h := HeaderLine(lines[0]).value;
      AcceptedHeaderLine(lines[0]);
      AcceptedFields(lines[1..], found + [h]);
      var all := HeaderFields(lines, found).value;
      forall k | 0 <= k < |all| - |found|
        ensures IsHeaderLine(lines[k], all[|found| + k])
      {
        if k > 0 {
          assert lines[k] == lines[1..][k - 1];
        } else {
          assert all[|found|] == (found + [h])[|found|];
        }
      }
    }
  }

  /** In front of the first blank line only the first line can be empty: an empty line behind a
      line end would make an earlier blank line. */
  lemma {:induction false} NoEmptyLine(head: Text, k: nat)
    requires forall j: nat :: j < |head| ==> !OccursAt(head + BLANK_LINE, BLANK_LINE, j)
    requires 0 < k < |Lines(head)|
    ensures Lines(head)[k] != ""
    decreases |head|
  {
    hide FindFrom, OccursAt;
    var end := FindFrom(head, CRLF, 0).value;
    LineEnd(head, end);
    var rest := head[end + 2..];
    assert Lines(head)[k] == Lines(rest)[k - 1];
    if k == 1 {
      if Lines(rest)[0] == "" {
        EmptyFirstLine(rest);
        TwoLineEnds(head, end, rest);
      }
    } else {
      forall j: nat | j < |rest|
        ensures !OccursAt(rest + BLANK_LINE, BLANK_LINE, j)
      {
        OccursLater(head, end + 2, j);
      }
      NoEmptyLine(rest, k - 1);
    }
  }

  lemma {:induction false} LineEnd(s: Text, end: nat)
    requires OccursAt(s, CRLF, end)
    ensures end + 2 <= |s| && s[end..end + 2] == CRLF
  {
  }

  lemma {:induction false} EmptyFirstLine(s: Text)
    requires Lines(s)[0] == ""
    ensures (s + BLANK_LINE)[..2] == CRLF
  {
    hide FindFrom;
    var end := FindFrom(s, CRLF, 0);
    if end.Some? {
      assert end.value == |s[..end.value]| == 0;
      assert s[0..2] == CRLF;
    } else {
      assert s == "";
    }
  }

  lemma {:induction false} TwoLineEnds(head: Text, end: nat, rest: Text)
    requires end + 2 <= |head| && head[end..end + 2] == CRLF && rest == head[end + 2..]
    requires (rest + BLANK_LINE)[..2] == CRLF
    ensures OccursAt(head + BLANK_LINE, BLANK_LINE, end)
  {
    var s := head + BLANK_LINE;
    assert s[end..end + 2] == CRLF;
    assert s[end + 2..] == rest + BLANK_LINE;
    assert s[end + 2..end + 4] == s[end + 2..][..2];
    assert s[end..end + 4] == s[end..end + 2] + s[end + 2..end + 4];
  }

  lemma {:induction false} OccursLater(head: Text, from: nat, j: nat)
    requires from <= |head| && !OccursAt(head + BLANK_LINE, BLANK_LINE, from + j)
    ensures !OccursAt(head[from..] + BLANK_LINE, BLANK_LINE, j)
  {
    var s, t := head + BLANK_LINE, head[from..] + BLANK_LINE;
    assert t == s[from..];
    if j + 4 <= |t| {
      var here, there := t[j..j + 4], s[from + j..from + j + 4];
      assert forall i :: 0 <= i < 4 ==> here[i] == t[j + i] && there[i] == s[from + (j + i)];
      assert here == there;
    }
  }

  lemma {:induction false} NoEarlierBlankLine(raw: Text, end: nat, j: nat)
    requires FindFrom(raw, BLANK_LINE, 0) == Some(end) && j < end
    ensures !OccursAt(raw[..end] + BLANK_LINE, BLANK_LINE, j)
  {
    assert raw[end..end + 4] == BLANK_LINE;
    assert raw[..end] + BLANK_LINE == raw[..end + 4];
    assert raw == raw[..end + 4] + raw[end + 4..];
    OccursInExtension(raw[..end + 4], raw[end + 4..], BLANK_LINE, j);
  }

  lemma {:induction false} HeadHasNoEmptyLine(raw: Text, end: nat)
    requires FindFrom(raw, BLANK_LINE, 0) == Some(end)
    ensures forall k :: 0 < k < |Lines(raw[..end])| ==> Lines(raw[..end])[k] != ""
  {
    hide FindFrom, Lines;
    forall j: nat | j < end
      ensures !OccursAt(raw[..end] + BLANK_LINE, BLANK_LINE, j)
    {
      NoEarlierBlankLine(raw, end, j);
    }
    forall k | 0 < k < |Lines(raw[..end])|
      ensures Lines(raw[..end])[k] != ""
    {
      NoEmptyLine(raw[..end], k);
    }
  }

  /** Main result: whatever the parser accepts is a verb, a target that starts with a slash and
      the version, then header lines, at most 64, then the blank line and the body; and the
      request says just that, one header field for each header line. */
  lemma {:induction false} AcceptedIsWellFormed(raw: Text) returns (word: Text, target: Text, lines: seq<Text>)
    requires ParseRequest(raw).Complete?
    ensures (var request := ParseRequest(raw).request;
             && lines != [] && lines[0] == RequestLineText(word, target)
             && Join(lines) + BLANK_LINE + request.body <= raw && |Join(lines)| + 4 <= MAX_HEADER_BYTES
             && ' ' !in word && ' ' !in target && target != "" && target[0] == '/'
             && request.verb == VerbOf(word) && (request.path, request.query) == PathAndQuery(target)
             && |request.headers| <= MAX_HEADERS && |lines| == |request.headers| + 1
             && (forall k :: 0 <= k < |request.headers| ==> IsHeaderLine(lines[k + 1], request.headers[k]))
             && BodyLength(request.headers) == Success(|request.body|))
  {
    hide FindFrom, Lines, RequestLine, HeaderFields, BodyLength, PathAndQuery, VerbOf, Join, IsHeaderLine;
    var end := FindFrom(raw, BLANK_LINE, 0).value;
    var request := ParseRequest(raw).request;
    lines := Lines(raw[..end]);
    HeadBounds(raw[..end]);
    JoinOfLines(raw[..end]);
    word, target := AcceptedRequestLine(lines[0]);
    AcceptedFields(lines[1..], []);
    HeadHasNoEmptyLine(raw, end);
    assert forall k :: 0 <= k < |lines[1..]| ==> lines[1..][k] == lines[k + 1];
    assert raw[end..end + 4] == BLANK_LINE;
    assert raw[..end + 4 + request.contentLength] == raw[..end] + BLANK_LINE + request.body;
    forall k | 0 <= k < |request.headers|
      ensures IsHeaderLine(lines[k + 1], request.headers[k])
    {
      assert lines[k + 1] == lines[1..][k];
    }
  }
}
