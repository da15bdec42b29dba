/** The C string literals that compiler_c_string of tools/ceasy_cli/src/view_compiler.c emits,
    and how a C compiler reads them (section 6.4.4.4 of ISO/IEC 9899:2018). */
module CLiterals {
  import opened Texts
  import opened Outputs

  function OctalChar(d: nat): char
    requires d < 8
  {
    ('0' as int + d) as char
  }

  /** `\%03o`. */
  function OctalEscape(code: nat): Text
    requires code < 512
  {
    ['\\', OctalChar(code / 64), OctalChar(code / 8 % 8), OctalChar(code % 8)]
  }

  function EscapeByte(c: char): Text {
    if c == '"' || c == '\\' then ['\\', c]
    else if c == '\n' then "\\n"
    else if c == '\r' then "\\r"
    else if c == '\t' then "\\t"
    else if c < 32 as char || c == 127 as char then OctalEscape(c as int)
    else [c]
  }

  function EscapeBytes(value: Text): Text {
    if value == "" then "" else EscapeByte(value[0]) + EscapeBytes(value[1..])
  }

  lemma {:induction false} EscapeSnoc(value: Text, c: char)
    ensures EscapeBytes(value + [c]) == EscapeBytes(value) + EscapeByte(c)
  {
    if value == "" {
      assert value + [c] == [c] && [c][1..] == "";
    } else {
      assert (value + [c])[1..] == value[1..] + [c];
      EscapeSnoc(value[1..], c);
    }
  }

  lemma {:induction false} EscapeNothing()
    ensures EscapeBytes("") == ""
  {
  }

  /** The loop body of compiler_c_string. */
  method EmitByte(byte: char, output: Output) returns (ok: bool)
    requires !output.exhausted
    modifies output
    ensures ok ==> !output.exhausted && output.text == old(output.text) + EscapeByte(byte)
    ensures !ok ==> output.exhausted && output.mayRefuse && old(output.text) <= output.text
  {
    if byte == '"' || byte == '\\' {
      ok := output.Append(['\\']);
      if ok {
        ok := output.Append([byte]);
        assert ok ==> output.text == old(output.text) + ['\\', byte];
      }
    } else if byte == '\n' {
      ok := output.Append("\\n");
    } else if byte == '\r' {
      ok := output.Append("\\r");
    } else if byte == '\t' {
      ok := output.Append("\\t");
    } else if byte < 32 as char || byte == 127 as char {
      ok := output.Append(OctalEscape(byte as int));
    } else {
      ok := output.Append([byte]);
    }
  }

  /** compiler_c_string. It fails only for want of memory, and then with part of the literal
      written. */
  method EmitLiteral(value: Text, output: Output) returns (ok: bool)
    requires !output.exhausted
    modifies output
    ensures ok ==> !output.exhausted && output.text == old(output.text) + ("\"" + EscapeBytes(value) + "\"")
    ensures !ok ==> output.exhausted && output.mayRefuse && old(output.text) <= output.text
  {
    hide EscapeBytes, EscapeByte;
    EscapeNothing();
    ok := output.Append(['"']);
    if !ok {
      return;
    }
    for index := 0 to |value|
      invariant !output.exhausted
      invariant output.text == old(output.text) + ("\"" + EscapeBytes(value[..index]))
    {
      ok := EmitByte(value[index], output);
      if !ok {
        return;
      }
      EscapeSnoc(value[..index], value[index]);
      assert value[..index + 1] == value[..index] + [value[index]];
    }
    assert value[..|value|] == value;
    ok := output.Append(['"']);
  }

  // ---------- reading a literal ----------

  predicate IsOctal(c: char) {
    '0' <= c <= '7'
  }

  predicate IsHex(c: char) {
    '0' <= c <= '9' || 'a' <= c <= 'f' || 'A' <= c <= 'F'
  }

  function HexValue(c: char): nat
    requires IsHex(c)
  {
    if c <= '9' then c as int - '0' as int
    else if c <= 'F' then c as int - 'A' as int + 10
    else c as int - 'a' as int + 10
  }

  /** How many characters of `s`, at most `limit`, are octal digits. */
  function OctalRun(s: Text, limit: nat): (n: nat)
    ensures n <= |s| && n <= limit && forall i :: 0 <= i < n ==> IsOctal(s[i])
    ensures n < limit && n < |s| ==> !IsOctal(s[n])
  {
    if limit == 0 || s == "" || !IsOctal(s[0]) then 0 else 1 + OctalRun(s[1..], limit - 1)
  }

  function OctalDigit(c: char): nat
    requires IsOctal(c)
  {
    c as int - '0' as int
  }

  function OctalValue(s: Text): nat
    requires forall i :: 0 <= i < |s| ==> IsOctal(s[i])
  {
    if s == "" then 0 else OctalValue(s[..|s| - 1]) * 8 + OctalDigit(s[|s| - 1])
  }

  function HexRun(s: Text): (n: nat)
    ensures n <= |s| && forall i :: 0 <= i < n ==> IsHex(s[i])
  {
    if s == "" || !IsHex(s[0]) then 0 else 1 + HexRun(s[1..])
  }

  function HexNumber(s: Text): nat
    requires forall i :: 0 <= i < |s| ==> IsHex(s[i])
  {
    if s == "" then 0 else HexNumber(s[..|s| - 1]) * 16 + HexValue(s[|s| - 1])
  }

  const SIMPLE_ESCAPES: map<char, char> :=
    map['\'' := '\'', '"' := '"', '?' := '?', '\\' := '\\', 'a' := 7 as char, 'b' := 8 as char, 'f' := 12 as char,
        'n' := '\n', 'r' := '\r', 't' := '\t', 'v' := 11 as char]

  /** The character an escape sequence stands for and what follows it; `s` starts behind the
      backslash. An octal escape takes at most three digits, a hexadecimal one all it can. */
  function ReadEscape(s: Text): (r: Option<(char, Text)>)
    ensures r.Some? ==> |r.value.1| < |s|
  {
    if s == "" then None
    else if s[0] in SIMPLE_ESCAPES then Some((SIMPLE_ESCAPES[s[0]], s[1..]))
    else if IsOctal(s[0]) then
      var n := OctalRun(s, 3);
      var code := OctalValue(s[..n]);
      if n == 0 || code > 255 then None else Some((code as char, s[n..]))
    else if s[0] == 'x' then
      var n := HexRun(s[1..]);
      var code := HexNumber(s[1..][..n]);
      if n == 0 || code > 255 then None else Some((code as char, s[1 + n..]))
    else None
  }

  /** The characters up to the closing quote, and the text behind it. */
  function ReadChars(s: Text): Option<(Text, Text)>
    decreases |s|
  {
    if s == "" || s[0] == '\n' then None
    else if s[0] == '"' then Some(("", s[1..]))
    else if s[0] == '\\' then
      match ReadEscape(s[1..])
      case None => None
      case Some((c, rest)) => Prepend(c, ReadChars(rest))
    else Prepend(s[0], ReadChars(s[1..]))
  }

  function Prepend(c: char, r: Option<(Text, Text)>): Option<(Text, Text)> {
    if r.None? then None else Some(([c] + r.value.0, r.value.1))
  }

  function ReadLiteral(s: Text): Option<(Text, Text)> {
    if s == "" || s[0] != '"' then None else ReadChars(s[1..])
  }

  lemma {:induction false} ThreeOctalDigits(s: Text)
    requires |s| >= 3 && IsOctal(s[0]) && IsOctal(s[1]) && IsOctal(s[2])
    ensures OctalRun(s, 3) == 3
  {
    var s1, s2, s3 := s[1..], s[2..], s[3..];
    assert s1[1..] == s2 && s2[1..] == s3;
    assert OctalRun(s3, 0) == 0;
    assert OctalRun(s2, 1) == 1;
    assert OctalRun(s1, 2) == 2;
  }

  lemma {:induction false} ThreeDigitValue(s: Text)
    requires |s| == 3 && IsOctal(s[0]) && IsOctal(s[1]) && IsOctal(s[2])
    ensures OctalValue(s) == (OctalDigit(s[0]) * 8 + OctalDigit(s[1])) * 8 + OctalDigit(s[2])
  {
    var s1, s2 := s[..1], s[..2];
    assert s2[..1] == s1 && s1[..0] == "";
    assert OctalValue(s1) == OctalDigit(s[0]);
    assert OctalValue(s2) == OctalDigit(s[0]) * 8 + OctalDigit(s[1]);
  }

  lemma {:induction false} OctalRoundTrip(code: nat, rest: Text)
    requires code < 256
    ensures ReadEscape(OctalEscape(code)[1..] + rest) == Some((code as char, rest))
  {
    hide OctalRun, OctalValue;
    DigitsOfCode(code);
    var digits := [OctalChar(code / 64), OctalChar(code / 8 % 8), OctalChar(code % 8)];
    var s := digits + rest;
    assert OctalEscape(code)[1..] == digits;
    ThreeOctalDigits(s);
    ThreeDigitValue(digits);
    assert s[..3] == digits && s[3..] == rest;
    assert s[0] !in SIMPLE_ESCAPES;
  }

  lemma {:induction false} DigitsOfCode(code: nat)
    requires code < 256
    ensures code / 64 < 8 && (code / 64 * 8 + code / 8 % 8) * 8 + code % 8 == code
  {
  }

  lemma {:induction false} ReadOctal(code: nat, tail: Text)
    requires code < 256
    ensures ReadChars(OctalEscape(code) + tail) == Prepend(code as char, ReadChars(tail))
  {
    hide ReadEscape;
    OctalRoundTrip(code, tail);
    assert (OctalEscape(code) + tail)[1..] == OctalEscape(code)[1..] + tail;
  }

  lemma {:induction false} ReadEscaped(c: char, tail: Text)
    ensures ReadChars(EscapeByte(c) + tail) == Prepend(c, ReadChars(tail))
  {
    var s := EscapeByte(c) + tail;
    if c == '"' || c == '\\' || c == '\n' || c == '\r' || c == '\t' {
      assert s[1..][1..] == tail;
    } else if c < 32 as char || c == 127 as char {
      ReadOctal(c as int, tail);
    } else {
      assert s[1..] == tail;
    }
  }

  lemma {:induction false} ReadEscapedBytes(value: Text, rest: Text)
    ensures ReadChars(EscapeBytes(value) + "\"" + rest) == Some((value, rest))
  {
    if value == "" {
      assert EscapeBytes(value) + "\"" + rest == ['"'] + rest;
      assert (['"'] + rest)[1..] == rest;
    } else {
      var tail := EscapeBytes(value[1..]) + "\"" + rest;
      assert EscapeBytes(value) + "\"" + rest == EscapeByte(value[0]) + tail;
      ReadEscaped(value[0], tail);
      ReadEscapedBytes(value[1..], rest);
      assert [value[0]] + value[1..] == value;
    }
  }

  /** Main result: for every byte string and whatever follows in the file, the compiler reads
      the emitted literal up to its closing quote and gets the original bytes. */
  lemma {:induction false} LiteralRoundTrip(value: Text, rest: Text)
    ensures ReadLiteral("\"" + EscapeBytes(value) + "\"" + rest) == Some((value, rest))
  {
    ReadEscapedBytes(value, rest);
    var s := "\"" + EscapeBytes(value) + "\"" + rest;
    assert s[1..] == EscapeBytes(value) + "\"" + rest;
  }
}
