/** Decimal integers: stringv_parse_unsigned, stringv_parse_int64 and stringv_parse_size of
    src/string/string.c, and the decimal printing they undo. */
module Numbers {
  import opened Texts

  newtype uint64 = x: int | 0 <= x < 0x1_0000_0000_0000_0000
  newtype int64 = x: int | -0x8000_0000_0000_0000 <= x < 0x8000_0000_0000_0000

  const UINT64_MAX: nat := 0xFFFF_FFFF_FFFF_FFFF
  const INT64_MIN: int := -0x8000_0000_0000_0000
  const INT64_MAX: int := 0x7FFF_FFFF_FFFF_FFFF

  // ---------- what a decimal text means ----------

  predicate IsDigit(c: char) {
    '0' <= c <= '9'
  }

  function DigitValue(c: char): nat
    requires IsDigit(c)
  {
    c as int - '0' as int
  }

  predicate AllDigits(s: Text) {
    forall i :: 0 <= i < |s| ==> IsDigit(s[i])
  }

  /** The number a string of digits denotes; leading zeros are allowed. */
  function ValueOf(s: Text): nat
    requires AllDigits(s)
  {
    if s == "" then 0 else ValueOf(s[..|s| - 1]) * 10 + DigitValue(s[|s| - 1])
  }

  predicate IsUnsigned(s: Text) {
    s != "" && AllDigits(s)
  }

  predicate HasSign(s: Text) {
    s != "" && (s[0] == '-' || s[0] == '+')
  }

  /** An optional sign followed by one or more digits. */
  predicate IsInteger(s: Text) {
    if HasSign(s) then IsUnsigned(s[1..]) else IsUnsigned(s)
  }

  function IntegerOf(s: Text): int
    requires IsInteger(s)
  {
    if HasSign(s) then
      if s[0] == '-' then 0 - ValueOf(s[1..]) else ValueOf(s[1..])
    else ValueOf(s)
  }

  function SizeOf(s: Text): Option<nat> {
    if IsUnsigned(s) && ValueOf(s) <= UINT64_MAX then Some(ValueOf(s)) else None
  }

  // ---------- printing ----------

  function DigitChar(d: nat): (c: char)
    requires d < 10
    ensures IsDigit(c) && DigitValue(c) == d
  {
    ('0' as int + d) as char
  }

  function DecimalNat(n: nat): (s: Text)
    ensures IsUnsigned(s)
  {
    if n < 10 then [DigitChar(n)] else DecimalNat(n / 10) + [DigitChar(n % 10)]
  }

  /** The `%lld` form of an integer. */
  function Decimal(i: int): Text {
    if i < 0 then "-" + DecimalNat(-i) else DecimalNat(i)
  }

  lemma {:induction false} ValueOfDecimalNat(n: nat)
    ensures ValueOf(DecimalNat(n)) == n
  {
    var s := DecimalNat(n);
    if n < 10 {
      assert s[..0] == "";
      assert ValueOf(s[..0]) == 0;
    } else {
      ValueOfDecimalNat(n / 10);
      assert s[..|s| - 1] == DecimalNat(n / 10);
    }
  }

  function Pow10(n: nat): nat {
    if n == 0 then 1 else 10 * Pow10(n - 1)
  }

  /** Digits count by their place, and a sign in front of them as usual. */
  lemma {:induction false} ValueByPlace(a: Text, b: Text)
    requires AllDigits(a) && AllDigits(b)
    ensures AllDigits(a + b) && ValueOf(a + b) == ValueOf(a) * Pow10(|b|) + ValueOf(b)
    ensures ValueOf("") == 0 && forall c :: '0' <= c <= '9' ==> ValueOf([c]) == c as int - '0' as int
    ensures a != "" ==> IsInteger(a) && IntegerOf(a) == ValueOf(a)
    ensures a != "" ==> IsInteger("+" + a) && IntegerOf("+" + a) == ValueOf(a)
    ensures a != "" ==> IsInteger("-" + a) && IntegerOf("-" + a) + ValueOf(a) == 0
    decreases |b|
  {
    forall c | '0' <= c <= '9'
      ensures ValueOf([c]) == c as int - '0' as int
    {
      assert [c][..0] == "" && ValueOf("") == 0;
    }
    if a != "" {
      assert IsDigit(a[0]) && ("+" + a)[1..] == a && ("-" + a)[1..] == a;
    }
    if b == "" {
      assert a + b == a;
    } else {
      ValueByPlace(a, b[..|b| - 1]);
      assert (a + b)[..|a + b| - 1] == a + b[..|b| - 1];
      Distribute(ValueOf(a), Pow10(|b| - 1));
    }
  }

  lemma {:induction false} Distribute(v: nat, p: nat)
    ensures v * p * 10 == v * (10 * p)
  {
  }

  /** Reading undoes printing, for every integer. */
  lemma {:induction false} IntegerOfDecimal(i: int)
    ensures IsInteger(Decimal(i)) && IntegerOf(Decimal(i)) == i
  {
    if i < 0 {
      ValueOfDecimalNat(-i);
      assert Decimal(i)[1..] == DecimalNat(-i);
    } else {
      ValueOfDecimalNat(i);
      assert IsDigit(Decimal(i)[0]);
    }
  }

  // ---------- parsing ----------

  /** Dropping digits from the right never makes the number larger. */
  lemma {:induction false} ValueOfPrefix(s: Text, n: nat)
    requires n <= |s| && AllDigits(s)
    ensures AllDigits(s[..n]) && ValueOf(s[..n]) <= ValueOf(s)
    decreases |s| - n
  {
    if n == |s| {
      assert s[..n] == s;
    } else {
      ValueOfPrefix(s, n + 1);
      assert s[..n + 1][..n] == s[..n];
    }
  }

  /** The digit loop of stringv_parse_unsigned on `value[from..]`. All arithmetic is on 64-bit
      words; the guard keeps it exact. */
  method ParseDigits(value: Text, from: nat, limit: uint64) returns (r: Option<uint64>)
    requires from <= |value| && limit >= 9
    ensures r.Some? <==> AllDigits(value[from..]) && ValueOf(value[from..]) <= limit as int
    ensures r.Some? ==> r.value as int == ValueOf(value[from..])
  {
    var index := from;
    var parsed: uint64 := 0;
    var digits := value[from..];
    while index < |value|
      invariant from <= index <= |value|
      invariant AllDigits(digits[..index - from])
      invariant parsed as int == ValueOf(digits[..index - from]) && parsed <= limit
    {
      var k := index - from;
      if !IsDigit(value[index]) {
        assert !IsDigit(digits[k]);
        return None;
      }
      var digit := DigitValue(value[index]) as uint64;
      assert digits[..k + 1][..k] == digits[..k];
      assert AllDigits(digits[..k + 1]) && ValueOf(digits[..k + 1]) == parsed as int * 10 + digit as int;
      if parsed > (limit - digit) / 10 {
        if AllDigits(digits) {
          ValueOfPrefix(digits, k + 1);
        }
        return None;
      }
      parsed := parsed * 10 + digit;
      index := index + 1;
    }
    assert digits[..|digits|] == digits;
    return Some(parsed);
  }

  /** stringv_parse_unsigned: whether the text was negative, and its magnitude. */
  method ParseUnsigned(value: Text, limit: uint64, allowSign: bool) returns (r: Option<(bool, uint64)>)
    requires limit >= 9
    ensures var signed := allowSign && HasSign(value);
            var digits := if signed then value[1..] else value;
            && (r.Some? <==> IsUnsigned(digits) && ValueOf(digits) <= limit as int)
            && (r.Some? ==> r.value.0 == (signed && value[0] == '-') && r.value.1 as int == ValueOf(digits))
  {
    if |value| == 0 {
      return None;
    }
    var index, negative := 0, false;
    if allowSign && (value[0] == '-' || value[0] == '+') {
      negative := value[0] == '-';
      index := 1;
    }
    if index == |value| {
      return None;
    }
    assert value[0..] == value;
    var parsed := ParseDigits(value, index, limit);
    return if parsed.Some? then Some((negative, parsed.value)) else None;
  }

  /** stringv_parse_int64 accepts exactly the integers in range, and returns them. */
  method ParseInt64(value: Text) returns (r: Option<int64>)
    ensures r.Some? <==> IsInteger(value) && INT64_MIN <= IntegerOf(value) <= INT64_MAX
    ensures r.Some? ==> r.value as int == IntegerOf(value)
  {
    if |value| == 0 {
      return None;
    }
    var limit: uint64 := if value[0] == '-' then 0x7FFF_FFFF_FFFF_FFFF + 1 else 0x7FFF_FFFF_FFFF_FFFF;
    var parsed := ParseUnsigned(value, limit, true);
    if parsed.None? {
      return None;
    }
    var (negative, magnitude) := parsed.value;
    if negative {
      return Some(if magnitude == 0x8000_0000_0000_0000 then -0x8000_0000_0000_0000 else -(magnitude as int64));
    }
    return Some(magnitude as int64);
  }

  /** Every int64 survives printing and parsing. */
  method ParsePrintedInt64(i: int64) returns (r: Option<int64>)
    ensures r == Some(i)
  {
    IntegerOfDecimal(i as int);
    r := ParseInt64(Decimal(i as int));
  }

  /** stringv_parse_size on a 64-bit platform. */
  method ParseSize(value: Text) returns (r: Option<nat>)
    ensures r == SizeOf(value)
  {
    var parsed := ParseUnsigned(value, 0xFFFF_FFFF_FFFF_FFFF, false);
    return if parsed.Some? then Some(parsed.value.1 as nat) else None;
  }
}
