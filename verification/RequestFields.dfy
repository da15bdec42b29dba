/** What the header fields of a request mean, said by characters and numbers: the reading of a
    printed request from its method word to its body, and every refusal. */
module RequestFields {
  import opened Texts
  import opened Numbers
  import opened Requests
  import opened RequestPrinting

  // ---------- names in any case ----------

  /** The same letter, in whatever case, or the same character. */
  predicate SameLetter(a: char, b: char) {
    || a == b
    || ('A' <= a <= 'Z' && b as int == a as int + 32)
    || ('A' <= b <= 'Z' && a as int == b as int + 32)
  }

  predicate SameName(a: Text, b: Text) {
    |a| == |b| && forall i :: 0 <= i < |a| ==> SameLetter(a[i], b[i])
  }

  lemma {:induction false} EqualIsSameName(a: Text, b: Text)
    ensures EqualIgnoreCase(a, b) <==> SameName(a, b)
  {
    if |a| == |b| {
      forall i | 0 <= i < |a|
        ensures Lower(a[i]) == Lower(b[i]) <==> SameLetter(a[i], b[i])
      {
      }
    }
  }

  predicate Named(headers: seq<Header>, name: Text) {
    exists k :: 0 <= k < |headers| && SameName(headers[k].name, name)
  }

  /** `value` is that of the first field of this name; without one it is empty. */
  predicate FirstValue(headers: seq<Header>, name: Text, value: Text) {
    if Named(headers, name) then
      exists k :: 0 <= k < |headers| && SameName(headers[k].name, name) && !Named(headers[..k], name)
                  && value == headers[k].value
    else value == ""
  }

  lemma {:induction false} FieldIsFirst(headers: seq<Header>, name: Text)
    ensures Field(headers, name).Some? <==> Named(headers, name)
    ensures FirstValue(headers, name, FieldOrEmpty(headers, name))
  {
    hide SameName, EqualIgnoreCase;
    if headers != [] {
      var first, rest := headers[0], headers[1..];
      EqualIsSameName(first.name, name);
      FieldIsFirst(rest, name);
      NamedCons(headers, name);
      if SameName(first.name, name) {
        assert headers[..0] == [] && !Named(headers[..0], name);
      } else if Named(rest, name) {
        var k :| 0 <= k < |rest| && SameName(rest[k].name, name) && !Named(rest[..k], name)
                 && FieldOrEmpty(rest, name) == rest[k].value;
        assert headers[..k + 1][1..] == rest[..k] && headers[..k + 1][0] == first;
        NamedCons(headers[..k + 1], name);
        assert headers[k + 1] == rest[k];
      }
    }
  }

  lemma {:induction false} NamedCons(headers: seq<Header>, name: Text)
    requires headers != []
    ensures Named(headers, name) <==> SameName(headers[0].name, name) || Named(headers[1..], name)
  {
    hide SameName;
    if Named(headers, name) {
      var k :| 0 <= k < |headers| && SameName(headers[k].name, name);
      assert k > 0 ==> headers[1..][k - 1] == headers[k];
    }
    if Named(headers[1..], name) {
      var k :| 0 <= k < |headers[1..]| && SameName(headers[1..][k].name, name);
      assert headers[k + 1] == headers[1..][k];
    }
  }

  lemma {:induction false} FirstOf(before: seq<Header>, h: Header, after: seq<Header>, name: Text)
    requires !Named(before, name) && SameName(h.name, name)
    ensures Field(before + [h] + after, name) == Some(h.value)
    decreases |before|
  {
    hide SameName, EqualIgnoreCase;
    var headers := before + [h] + after;
    EqualIsSameName(headers[0].name, name);
    if before != [] {
      NamedCons(before, name);
      assert headers[1..] == before[1..] + [h] + after;
      FirstOf(before[1..], h, after, name);
    }
  }

  // ---------- lists of codings ----------

  /** A stretch between commas, or between a comma and an end of the list, reads `chunked`. */
  ghost predicate ListsChunked(value: Text) {
    exists i, j :: ChunkedAt(value, i, j)
  }

  predicate ChunkedAt(value: Text, i: nat, j: nat) {
    && i <= j <= |value| && ',' !in value[i..j]
    && (i > 0 ==> value[i - 1] == ',') && (j < |value| ==> value[j] == ',')
    && SameName(Trim(value[i..j]), "chunked")
  }

  lemma {:induction false} TrimNothing()
    ensures Trim("") == ""
  {
  }

  lemma {:induction false} ChunkedIsListed(value: Text)
    ensures IsChunked(value) <==> ListsChunked(value)
    decreases |value|
  {
    hide Trim, EqualIgnoreCase, SameName, ListsChunked;
    var comma := FindChar(value, ',');
    if value == "" {
      TrimNothing();
      NothingIsNotChunked();
    } else if comma.None? {
      EqualIsSameName(Trim(value), "chunked");
      OneWord(value);
    } else {
      EqualIsSameName(Trim(value[..comma.value]), "chunked");
      ChunkedIsListed(value[comma.value + 1..]);
      WordThenRest(value, comma.value);
    }
  }

  lemma {:induction false} OneWord(value: Text)
    requires ',' !in value
    ensures ListsChunked(value) <==> SameName(Trim(value), "chunked")
  {
    hide Trim, SameName;
    assert value[0..|value|] == value;
    assert SameName(Trim(value), "chunked") ==> ChunkedAt(value, 0, |value|);
  }

  lemma {:induction false} WordThenRest(value: Text, n: nat)
    requires n < |value| && value[n] == ',' && ',' !in value[..n]
    ensures ListsChunked(value) <==> SameName(Trim(value[..n]), "chunked") || ListsChunked(value[n + 1..])
  {
    hide Trim, SameName;
    var word, rest := value[..n], value[n + 1..];
    assert value[0..n] == word;
    if SameName(Trim(word), "chunked") {
      assert ChunkedAt(value, 0, n);
    }
    if ListsChunked(rest) {
      var i: nat, j: nat :| ChunkedAt(rest, i, j);
      assert value[n + 1 + i..n + 1 + j] == rest[i..j];
      assert ChunkedAt(value, n + 1 + i, n + 1 + j);
    }
    if ListsChunked(value) {
      var i: nat, j: nat :| ChunkedAt(value, i, j);
      ChunkedInRest(value, n, i, j);
    }
  }

  lemma {:induction false} NothingIsNotChunked()
    ensures !ListsChunked("")
  {
    TrimNothing();
    forall i: nat, j: nat
      ensures !ChunkedAt("", i, j)
    {
      if i <= j <= 0 {
        assert ""[i..j] == "";
      }
    }
  }

  /** A stretch of the list lies in front of its first comma, or behind it. */
  lemma {:induction false} ChunkedInRest(value: Text, n: nat, i: nat, j: nat)
    requires n < |value| && value[n] == ',' && ',' !in value[..n] && ChunkedAt(value, i, j)
    ensures (i == 0 && j == n) || (i > n && ChunkedAt(value[n + 1..], i - n - 1, j - n - 1))
  {
    hide Trim, SameName;
    if i <= n {
      assert forall k :: 0 <= k < n ==> value[k] == value[..n][k];
      assert forall k :: i <= k < j ==> value[k] == value[i..j][k - i];
    } else {
      var rest := value[n + 1..];
      assert rest[i - n - 1..j - n - 1] == value[i..j];
    }
  }

  // ---------- what the fields say about the body ----------

  /** The first Transfer-Encoding field lists the chunked coding. */
  ghost predicate AsksChunked(headers: seq<Header>) {
    exists value :: FirstValue(headers, "Transfer-Encoding", value) && ListsChunked(value)
  }

  lemma {:induction false} FirstValueUnique(headers: seq<Header>, name: Text, a: Text, b: Text)
    requires FirstValue(headers, name, a) && FirstValue(headers, name, b)
    ensures a == b
  {
    hide SameName;
    if Named(headers, name) {
      var j :| 0 <= j < |headers| && SameName(headers[j].name, name) && !Named(headers[..j], name)
               && a == headers[j].value;
      var k :| 0 <= k < |headers| && SameName(headers[k].name, name) && !Named(headers[..k], name)
               && b == headers[k].value;
      assert forall m :: 0 <= m < k ==> headers[m] == headers[..k][m];
      assert forall m :: 0 <= m < j ==> headers[m] == headers[..j][m];
    }
  }

  lemma {:induction false} AsksChunkedIs(headers: seq<Header>)
    ensures AsksChunked(headers) <==> IsChunked(FieldOrEmpty(headers, "Transfer-Encoding"))
  {
    hide FirstValue, ListsChunked, IsChunked, FieldOrEmpty;
    var value := FieldOrEmpty(headers, "Transfer-Encoding");
    FieldIsFirst(headers, "Transfer-Encoding");
    ChunkedIsListed(value);
    if AsksChunked(headers) {
      var v :| FirstValue(headers, "Transfer-Encoding", v) && ListsChunked(v);
      FirstValueUnique(headers, "Transfer-Encoding", v, value);
    }
  }

  predicate HasNoLength(headers: seq<Header>) {
    !Named(headers, "Content-Length")
  }

  /** The first Content-Length field says `value`. */
  predicate SaysLength(headers: seq<Header>, value: Text) {
    Named(headers, "Content-Length") && FirstValue(headers, "Content-Length", value)
  }

  lemma {:induction false} SaysLengthIs(headers: seq<Header>, value: Text)
    requires SaysLength(headers, value)
    ensures Field(headers, "Content-Length") == Some(value)
  {
    hide FirstValue, Named;
    FieldIsFirst(headers, "Content-Length");
    FirstValueUnique(headers, "Content-Length", value, FieldOrEmpty(headers, "Content-Length"));
  }

  /** Not the text of a number: nothing, or with a character that is no digit. */
  predicate NoNumber(value: Text) {
    value == "" || exists i :: 0 <= i < |value| && !('0' <= value[i] <= '9')
  }

  lemma {:induction false} NoNumberIs(value: Text)
    ensures NoNumber(value) <==> !IsUnsigned(value)
  {
  }

  lemma {:induction false} SizeOfDecimal(n: nat)
    ensures SizeOf(Decimal(n)) == if n <= 0xFFFF_FFFF_FFFF_FFFF then Some(n) else None
  {
    ValueOfDecimalNat(n);
  }

  // ---------- whole requests ----------

  /** What a client writes: a request line, header fields, a blank line. */
  predicate Writable(word: Text, target: Text, headers: seq<Header>) {
    && Plain(word) && ' ' !in word
    && Plain(target) && ' ' !in target && target != "" && target[0] == '/'
    && (forall h :: h in headers ==> WellFormedHeader(h))
    && |headers| <= 64 && |HeadText(word, target, headers)| + 4 <= 16384
  }

  /** Header fields as they follow the request line. */
  function FieldsText(headers: seq<Header>): Text {
    if headers == [] then "" else "\r\n" + headers[0].name + ": " + headers[0].value + FieldsText(headers[1..])
  }

  /** The head of a request by its characters. */
  lemma {:induction false} HeadIs(word: Text, target: Text, headers: seq<Header>)
    ensures HeadText(word, target, headers) == word + " " + target + " HTTP/1.1" + FieldsText(headers)
  {
    hide Join, HeaderLines, FieldsText;
    RequestLineIs(word, target);
    JoinIs(RequestLineText(word, target), headers);
  }

  lemma {:induction false} RequestLineIs(word: Text, target: Text)
    ensures RequestLineText(word, target) == word + " " + target + " HTTP/1.1"
  {
    assert target + [' '] + "HTTP/1.1" == target + " HTTP/1.1";
    assert word + [' '] + (target + " HTTP/1.1") == word + " " + target + " HTTP/1.1";
  }

  lemma {:induction false} JoinIs(line: Text, headers: seq<Header>)
    ensures Join([line] + HeaderLines(headers)) == line + FieldsText(headers)
    decreases |headers|
  {
    var lines := [line] + HeaderLines(headers);
    if headers == [] {
      assert lines == [line] && line + "" == line;
    } else {
      var first, rest := PrintHeader(headers[0]), headers[1..];
      assert lines[1..] == [first] + HeaderLines(rest);
      JoinIs(first, rest);
      assert first == headers[0].name + ": " + headers[0].value by {
        assert [':'] + " " == ": ";
        assert headers[0].name + [':'] + " " == headers[0].name + ": ";
      }
      assert CRLF + first == "\r\n" + headers[0].name + ": " + headers[0].value;
      assert line + CRLF + (first + FieldsText(rest)) == line + (CRLF + first + FieldsText(rest));
    }
  }

  /** The target is the path, or the path, a question mark and the query. */
  predicate Spells(target: Text, path: Text, query: Text) {
    '?' !in path && (target == path + "?" + query || (target == path && query == ""))
  }

  /** The words of the methods. */
  predicate Means(word: Text, verb: Verb) {
    match verb
    case GET => word == "GET"
    case POST => word == "POST"
    case PATCH => word == "PATCH"
    case PUT => word == "PUT"
    case DELETE => word == "DELETE"
    case UNKNOWN => word !in {"GET", "POST", "PATCH", "PUT", "DELETE"}
  }

  lemma {:induction false} VerbIs(word: Text, verb: Verb)
    requires Means(word, verb)
    ensures VerbOf(word) == verb
  {
  }

  lemma {:induction false} TargetSpelled(target: Text, path: Text, query: Text)
    requires Spells(target, path, query)
    ensures PathAndQuery(target) == (path, query)
  {
    if target == path + "?" + query {
      SplitPrinted(path, '?', query);
    }
  }

  /** The head of a printed request, as the parser takes it. */
  lemma {:induction false} PrintedHead(word: Text, target: Text, headers: seq<Header>, rest: Text)
    requires Writable(word, target, headers)
    ensures (var head := HeadText(word, target, headers);
             var raw := head + BLANK_LINE + rest;
             && FindFrom(raw, BLANK_LINE, 0) == Some(|head|) && raw[..|head|] == head && raw[|head| + 4..] == rest
             && ParseHead(head) == match BodyLength(headers)
                                   case Failure(refused) => Failure(refused)
                                   case Success(length) =>
                                     Success(Request(VerbOf(word), PathAndQuery(target).0, PathAndQuery(target).1,
                                                     headers, FieldOrEmpty(headers, "Content-Type"), length, "")))
  {
    hide FindFrom, Lines, RequestLine, RequestLineText, HeaderFields, HeaderLines, BodyLength, PathAndQuery, VerbOf,
         Join, Field, FieldOrEmpty;
    var line := RequestLineText(word, target);
    var lines := [line] + HeaderLines(headers);
    RequestLineOfPrinted(word, target);
    HeaderFieldsOfPrinted(headers, []);
    assert [] + headers == headers;
    assert Join(lines) + BLANK_LINE + rest == Join(lines) + (BLANK_LINE + rest);
    BlankLineBehindJoin(lines, rest);
    LinesOfJoin(lines);
    assert lines[0] == line && lines[1..] == HeaderLines(headers);
  }

  lemma {:induction false} PrintedVerdict(word: Text, target: Text, headers: seq<Header>, rest: Text)
    requires Writable(word, target, headers)
    ensures ParseRequest(HeadText(word, target, headers) + BLANK_LINE + rest)
         == match BodyLength(headers)
            case Failure(refused) => refused
            case Success(length) =>
              if |rest| < length then Incomplete
              else Complete(Request(VerbOf(word), PathAndQuery(target).0, PathAndQuery(target).1, headers,
                                    FieldOrEmpty(headers, "Content-Type"), length, rest[..length]))
  {
    hide FindFrom, ParseHead, BodyLength, PathAndQuery, VerbOf, FieldOrEmpty, HeadText;
    PrintedHead(word, target, headers, rest);
    var head := HeadText(word, target, headers);
    var raw := head + BLANK_LINE + rest;
    if BodyLength(headers).Success? {
      var length := BodyLength(headers).value;
      assert |raw| == |head| + 4 + |rest|;
      if length <= |rest| {
        assert raw[|head| + 4..|head| + 4 + length] == raw[|head| + 4..][..length];
      }
    }
  }

  /** Main result: a request with a body is read back in all its parts: whatever the case of the
      name Content-Length and whatever fields stand around it, the body is the announced number of
      bytes behind the blank line, and until they are there the request is incomplete. */
  lemma {:induction false} BodyIsRead(word: Text, verb: Verb, target: Text, path: Text, query: Text,
                                      before: seq<Header>, name: Text, after: seq<Header>, contentType: Text,
                                      length: nat, rest: Text)
    requires Writable(word, target, before + [Header(name, Decimal(length))] + after)
    requires Means(word, verb) && Spells(target, path, query)
    requires SameName(name, "Content-Length") && !Named(before, "Content-Length") && length <= 1048576
    requires !AsksChunked(before + [Header(name, Decimal(length))] + after)
    requires FirstValue(before + [Header(name, Decimal(length))] + after, "Content-Type", contentType)
    ensures (var headers := before + [Header(name, Decimal(length))] + after;
             ParseRequest(HeadText(word, target, headers) + BLANK_LINE + rest)
             == if |rest| < length then Incomplete
                else Complete(Request(verb, path, query, headers, contentType, length, rest[..length])))
  {
    hide HeadText, AsksChunked, FirstValue, SameName, Named, IsChunked, Field, SizeOf, ParseRequest, Decimal, Writable;
    var headers := before + [Header(name, Decimal(length))] + after;
    PrintedVerdict(word, target, headers, rest);
    VerbIs(word, verb);
    TargetSpelled(target, path, query);
    FirstOf(before, Header(name, Decimal(length)), after, "Content-Length");
    SizeOfDecimal(length);
    AsksChunkedIs(headers);
    FieldIsFirst(headers, "Content-Type");
    FirstValueUnique(headers, "Content-Type", contentType, FieldOrEmpty(headers, "Content-Type"));
    hide PathAndQuery, VerbOf, FieldOrEmpty, Means, Spells;
  }

  /** Main result: without a Content-Length the request is complete at its blank line. */
  lemma {:induction false} NoBodyIsRead(word: Text, verb: Verb, target: Text, path: Text, query: Text,
                                        headers: seq<Header>, contentType: Text, rest: Text)
    requires Writable(word, target, headers) && Means(word, verb) && Spells(target, path, query)
    requires HasNoLength(headers) && !AsksChunked(headers) && FirstValue(headers, "Content-Type", contentType)
    ensures ParseRequest(HeadText(word, target, headers) + BLANK_LINE + rest)
         == Complete(Request(verb, path, query, headers, contentType, 0, ""))
  {
    hide HeadText, AsksChunked, FirstValue, SameName, Named, IsChunked, Field, SizeOf, ParseRequest, Writable;
    PrintedVerdict(word, target, headers, rest);
    VerbIs(word, verb);
    TargetSpelled(target, path, query);
    AsksChunkedIs(headers);
    FieldIsFirst(headers, "Content-Length");
    FieldIsFirst(headers, "Content-Type");
    FirstValueUnique(headers, "Content-Type", contentType, FieldOrEmpty(headers, "Content-Type"));
    hide PathAndQuery, VerbOf, FieldOrEmpty, Means, Spells;
  }

  /** Main result: how a request is refused for its fields. Chunked bodies come first; then a
      Content-Length that is no number or beyond 64 bits; then one above a mebibyte. */
  lemma {:induction false} FieldsAreRefused(word: Text, target: Text, headers: seq<Header>, value: Text, rest: Text)
    requires Writable(word, target, headers)
    ensures (var verdict := ParseRequest(HeadText(word, target, headers) + BLANK_LINE + rest);
             && (AsksChunked(headers) ==> verdict == Unsupported)
             && (!AsksChunked(headers) && SaysLength(headers, value) && NoNumber(value) ==> verdict == BadRequest)
             && (forall n: nat :: !AsksChunked(headers) && SaysLength(headers, value) && value == Decimal(n) ==>
                   && (n > 0xFFFF_FFFF_FFFF_FFFF ==> verdict == BadRequest)
                   && (1048576 < n <= 0xFFFF_FFFF_FFFF_FFFF ==> verdict == PayloadTooLarge)))
  {
    hide HeadText, AsksChunked, SaysLength, IsChunked, Field, SizeOf, ParseRequest, Decimal, PathAndQuery, VerbOf,
         FieldOrEmpty, NoNumber, Writable;
    PrintedVerdict(word, target, headers, rest);
    AsksChunkedIs(headers);
    if !AsksChunked(headers) && SaysLength(headers, value) {
      SaysLengthIs(headers, value);
      if NoNumber(value) {
        NoNumberIsRefused(value);
      }
      forall n: nat | value == Decimal(n)
        ensures SizeOf(value) == if n <= 0xFFFF_FFFF_FFFF_FFFF then Some(n) else None
      {
        SizeOfDecimal(n);
      }
    }
  }

  lemma {:induction false} NoNumberIsRefused(value: Text)
    requires NoNumber(value)
    ensures SizeOf(value) == None
  {
    NoNumberIs(value);
  }

  // ---------- malformed heads ----------

  ghost predicate IsRequestLine(line: Text) {
    exists word, target ::
      && line == RequestLineText(word, target)
      && ' ' !in word && ' ' !in target && target != "" && target[0] == '/'
  }

  ghost predicate IsSomeHeader(line: Text) {
    exists h :: IsHeaderLine(line, h)
  }

  /** A request line, then at most 64 lines with a name in front of a colon. */
  ghost predicate Shaped(lines: seq<Text>) {
    && lines != [] && |lines| <= 65 && IsRequestLine(lines[0])
    && forall k :: 0 < k < |lines| ==> IsSomeHeader(lines[k])
  }

  /** Main result: bytes without a blank line are undecided up to 16383 of them; a head that takes
      more than 16384 bytes with its blank line, or is not of the right shape, is a bad request,
      whatever follows it. */
  lemma {:induction false} MalformedIsRefused(raw: Text, lines: seq<Text>, rest: Text)
    ensures (forall j: nat :: !OccursAt(raw, BLANK_LINE, j)) ==>
              ParseRequest(raw) == if |raw| < 16384 then Incomplete else BadRequest
    ensures lines != [] && (forall l :: l in lines ==> PlainLine(l))
            && (|Join(lines)| + 4 > 16384 || !Shaped(lines)) ==>
              ParseRequest(Join(lines) + BLANK_LINE + rest) == BadRequest
  {
    hide Join, FindFrom, Shaped, ParseHead;
    if lines != [] && forall l :: l in lines ==> PlainLine(l) {
      var head := Join(lines);
      assert head + BLANK_LINE + rest == head + (BLANK_LINE + rest);
      BlankLineBehindJoin(lines, rest);
      assert (head + BLANK_LINE + rest)[..|head|] == head;
      if |head| + 4 <= 16384 && !Shaped(lines) {
        MalformedHead(lines);
      }
    }
  }

  lemma {:induction false} MalformedHead(lines: seq<Text>)
    requires lines != [] && (forall l :: l in lines ==> PlainLine(l)) && !Shaped(lines)
    ensures ParseHead(Join(lines)) == Failure(BadRequest)
  {
    hide Join, RequestLine, HeaderFields, BodyLength, FieldOrEmpty, Shaped, Lines;
    LinesOfJoin(lines);
    if RequestLine(lines[0]).Some? && HeaderFields(lines[1..], []).Some? {
      ReadIsShaped(lines);
    }
  }

  lemma {:induction false} ReadIsShaped(lines: seq<Text>)
    requires lines != [] && forall l :: l in lines ==> PlainLine(l)
    requires RequestLine(lines[0]).Some? && HeaderFields(lines[1..], []).Some?
    ensures Shaped(lines)
  {
    hide RequestLine, RequestLineText, HeaderFields, IsHeaderLine;
    var word, target := AcceptedRequestLine(lines[0]);
    AcceptedFields(lines[1..], []);
    var found := HeaderFields(lines[1..], []).value;
    forall k | 0 <= k < |lines[1..]|
      ensures lines[1..][k] != ""
    {
      assert lines[1..][k] in lines && PlainLine(lines[1..][k]);
    }
    forall k | 0 < k < |lines|
      ensures IsSomeHeader(lines[k])
    {
      assert lines[1..][k - 1] == lines[k] && found[0 + (k - 1)] == found[k - 1];
      assert IsHeaderLine(lines[k], found[k - 1]);
    }
    assert IsRequestLine(lines[0]);
  }
}
