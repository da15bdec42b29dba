/** Byte strings as src/string/string.c sees them: searching, trimming and comparing.
    A `char` stands for one C `char`; the 256 byte values are the first 256 characters. */
module Texts {
  type Text = string

  datatype Option<+T> = None | Some(value: T)

  datatype Result<+T, +E> = Success(value: T) | Failure(error: E)

  // ---------- searching (stringv_find, stringv_find_char) ----------

  predicate OccursAt(s: Text, pat: Text, i: nat) {
    i + |pat| <= |s| && s[i..i + |pat|] == pat
  }

  /** The first occurrence of `pat` in `s` at or after `from`. */
  function FindFrom(s: Text, pat: Text, from: nat): (r: Option<nat>)
    requires from <= |s|
    ensures r.Some? ==> from <= r.value && OccursAt(s, pat, r.value)
    ensures r.Some? ==> forall j: nat :: from <= j < r.value ==> !OccursAt(s, pat, j)
    ensures r.None? ==> forall j: nat :: from <= j ==> !OccursAt(s, pat, j)
    decreases |s| - from
  {
    if |s| < from + |pat| then None
    else if OccursAt(s, pat, from) then Some(from)
    else if from == |s| then None
    else FindFrom(s, pat, from + 1)
  }

  /** Whatever satisfies the description of the first occurrence is what FindFrom returns. */
  lemma {:induction false} FoundAt(s: Text, pat: Text, from: nat, i: nat)
    requires from <= i && OccursAt(s, pat, i)
    requires forall j: nat :: from <= j < i ==> !OccursAt(s, pat, j)
    ensures FindFrom(s, pat, from) == Some(i)
  {
    var r := FindFrom(s, pat, from);
    assert r.Some?;
  }

  lemma {:induction false} OccursInExtension(s: Text, extra: Text, pat: Text, i: nat)
    requires i + |pat| <= |s|
    ensures OccursAt(s + extra, pat, i) == OccursAt(s, pat, i)
  {
    assert (s + extra)[i..i + |pat|] == s[i..i + |pat|];
  }

  lemma {:induction false} OccursInSlice(s: Text, pat: Text, a: nat, b: nat, i: nat)
    requires a <= b <= |s| && i + |pat| <= b - a
    ensures OccursAt(s[a..b], pat, i) == OccursAt(s, pat, a + i)
  {
    var part, here := s[a..b][i..i + |pat|], s[a + i..a + i + |pat|];
    assert forall k :: 0 <= k < |pat| ==> part[k] == s[a..b][i + k] && here[k] == s[a + (i + k)];
    assert part == here;
  }

  /** A found occurrence stays the first one when more text is appended. */
  lemma {:induction false} FindInExtension(s: Text, extra: Text, pat: Text, from: nat)
    requires from <= |s| && FindFrom(s, pat, from).Some?
    ensures FindFrom(s + extra, pat, from) == FindFrom(s, pat, from)
  {
    var i := FindFrom(s, pat, from).value;
    OccursInExtension(s, extra, pat, i);
    forall j: nat | from <= j < i
      ensures !OccursAt(s + extra, pat, j)
    {
      OccursInExtension(s, extra, pat, j);
    }
    FoundAt(s + extra, pat, from, i);
  }

  /** The position loop of stringv_find and request_find_bytes, started at `from`. */
  method Find(s: Text, pat: Text, from: nat) returns (r: Option<nat>)
    requires from <= |s|
    ensures r == FindFrom(s, pat, from)
  {
    if |s| - from < |pat| {
      return None;
    }
    var position := from;
    while position <= |s| - |pat|
      invariant from <= position <= |s| - |pat| + 1
      invariant forall j: nat :: from <= j < position ==> !OccursAt(s, pat, j)
    {
      if s[position..position + |pat|] == pat {
        FoundAt(s, pat, from, position);
        return Some(position);
      }
      position := position + 1;
    }
    return None;
  }

  /** stringv_find_char. */
  function FindChar(s: Text, c: char): (r: Option<nat>)
    ensures r.Some? ==> r.value < |s| && s[r.value] == c && c !in s[..r.value]
    ensures r.None? ==> c !in s
  {
    if s == "" then None
    else if s[0] == c then Some(0)
    else
      var rest := FindChar(s[1..], c);
      if rest.None? then
        assert s == [s[0]] + s[1..];
        None
      else
        assert s[..rest.value + 1] == [s[0]] + s[1..][..rest.value];
        Some(rest.value + 1)
  }

  lemma {:induction false} FoundCharAt(s: Text, c: char, i: nat)
    requires i < |s| && s[i] == c && c !in s[..i]
    ensures FindChar(s, c) == Some(i)
  {
    assert c in s;
    assert forall k :: 0 <= k < i ==> s[..i][k] == s[k];
  }

  // ---------- trimming ----------

  predicate IsSpace(c: char) {
    c == ' ' || c == '\t' || c == '\r' || c == '\n' || c == 12 as char || c == 11 as char
  }

  predicate AllSpace(s: Text) {
    forall i :: 0 <= i < |s| ==> IsSpace(s[i])
  }

  /** stringv_trim_left: drops exactly the leading run of spaces. */
  function TrimLeft(s: Text): (r: Text)
    ensures |r| <= |s| && r == s[|s| - |r|..] && (forall i :: 0 <= i < |s| - |r| ==> IsSpace(s[i]))
    ensures r != "" ==> !IsSpace(r[0])
  {
    if s == "" || !IsSpace(s[0]) then s else TrimLeft(s[1..])
  }

  /** stringv_trim_right: drops exactly the trailing run of spaces. */
  function TrimRight(s: Text): (r: Text)
    ensures |r| <= |s| && r == s[..|r|] && (forall i :: |r| <= i < |s| ==> IsSpace(s[i]))
    ensures r != "" ==> !IsSpace(r[|r| - 1])
  {
    if s == "" || !IsSpace(s[|s| - 1]) then s else TrimRight(s[..|s| - 1])
  }

  function Trim(s: Text): Text {
    TrimRight(TrimLeft(s))
  }

  lemma {:induction false} TrimLeftPadded(left: Text, s: Text)
    requires AllSpace(left) && (s == "" || !IsSpace(s[0]))
    ensures TrimLeft(left + s) == s
  {
    if left == "" {
      assert left + s == s;
    } else {
      assert (left + s)[1..] == left[1..] + s;
      TrimLeftPadded(left[1..], s);
    }
  }

  lemma {:induction false} TrimRightPadded(s: Text, right: Text)
    requires AllSpace(right) && (s == "" || !IsSpace(s[|s| - 1]))
    ensures TrimRight(s + right) == s
  {
    if right == "" {
      assert s + right == s;
    } else {
      var most := right[..|right| - 1];
      assert (s + right)[..|s + right| - 1] == s + most;
      TrimRightPadded(s, most);
    }
  }

  /** Surrounding spaces never matter: trimming a padded word gives the word. */
  lemma {:induction false} TrimPadded(left: Text, word: Text, right: Text)
    requires AllSpace(left) && AllSpace(right)
    requires word != "" ==> !IsSpace(word[0]) && !IsSpace(word[|word| - 1])
    ensures Trim(left + word + right) == word
  {
    hide TrimLeft, TrimRight;
    if word == "" {
      assert left + word + right == left + right + "";
      assert AllSpace(left + right);
      TrimLeftPadded(left + right, "");
      TrimRightPadded("", "");
    } else {
      assert left + word + right == left + (word + right);
      TrimLeftPadded(left, word + right);
      TrimRightPadded(word, right);
    }
  }

  // ---------- case-insensitive comparison ----------

  function Lower(c: char): char {
    if 'A' <= c <= 'Z' then (c as int + 32) as char else c
  }

  /** stringv_equal_ignore_case. */
  predicate EqualIgnoreCase(a: Text, b: Text) {
    |a| == |b| && forall i :: 0 <= i < |a| ==> Lower(a[i]) == Lower(b[i])
  }
}
