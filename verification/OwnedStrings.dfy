/** The growable strings of src/string/string.c, whose arguments may be slices of themselves. */
module OwnedStrings {
  import opened Texts

  const SIZE_LIMIT: nat := 0xFFFF_FFFF_FFFF_FFFF

  /** A borrowed stretch of a buffer; `data` may be null. */
  datatype View = View(data: array?<char>, offset: nat, length: nat) {
    /** stringv_valid. */
    predicate Valid() {
      length == 0 || data != null
    }

    /** The stretch lies in its buffer. */
    predicate Fits() {
      data == null || offset + length <= data.Length
    }

    ghost function Content(): Text
      requires Fits()
      reads data
    {
      if data == null then "" else data[offset..offset + length]
    }
  }

  lemma {:induction false} ContentIs(v: View)
    requires v.Fits() && v.data != null
    ensures v.Content() == v.data[v.offset..v.offset + v.length]
  {
  }

  lemma {:induction false} ContentLength(v: View)
    requires v.Fits() && v.Valid()
    ensures |v.Content()| == v.length
  {
  }

  lemma {:induction false} NullContent(v: View)
    requires v.data == null
    ensures v.Fits() && v.Content() == ""
  {
  }

  /** stringv_slice: a start behind the end gives the empty view, a length too long is cut. */
  function Slice(v: View, start: nat, length: nat): View {
    if !v.Valid() || start > v.length then View(null, 0, 0)
    else View(v.data, v.offset + start, if length > v.length - start then v.length - start else length)
  }

  function Cut(text: Text, start: nat, length: nat): Text {
    if start > |text| then "" else text[start..if length > |text| - start then |text| else start + length]
  }

  lemma {:induction false} CutLength(text: Text, start: nat, length: nat)
    ensures start <= |text| ==> |Cut(text, start, length)| == if length > |text| - start then |text| - start else length
  {
  }

  lemma {:induction false} SliceCuts(v: View, start: nat, length: nat)
    requires v.Valid() && v.Fits()
    ensures Slice(v, start, length).Valid() && Slice(v, start, length).Fits()
    ensures (v.data == null ==> v.length == 0)
    ensures |v.Content()| == v.length && Slice(v, start, length).Content() == Cut(v.Content(), start, length)
    ensures start > v.length ==> Slice(v, start, length).Content() == ""
    ensures start <= v.length <= start + length ==> Slice(v, start, length).Content() == v.Content()[start..]
    ensures start + length <= v.length ==> Slice(v, start, length).Content() == v.Content()[start..start + length]
  {
    if v.data != null && start <= v.length {
      var n := Slice(v, start, length).length;
      var whole := v.data[..];
      assert v.Content() == whole[v.offset..v.offset + v.length];
      var part, here := v.Content()[start..start + n], whole[v.offset + start..v.offset + start + n];
      forall k | 0 <= k < n
        ensures part[k] == here[k]
      {
        assert v.Content()[start + k] == whole[v.offset + (start + k)];
      }
      assert here == v.data[v.offset + start..v.offset + start + n];
    }
  }

  lemma {:induction false} SlicePart(v: View, start: nat, length: nat)
    requires v.Valid() && v.Fits() && start + length <= v.length
    ensures Slice(v, start, length).Valid() && Slice(v, start, length).Fits()
    ensures Slice(v, start, length).data == v.data
    ensures |v.Content()| == v.length && Slice(v, start, length).Content() == v.Content()[start..start + length]
  {
    SliceCuts(v, start, length);
  }

  /** Doubling until `wanted` fits, or `wanted` itself where doubling would overflow. */
  function Doubled(capacity: nat, wanted: nat): nat
    requires capacity > 0
    decreases wanted - capacity
  {
    if capacity >= wanted then capacity
    else if capacity > SIZE_LIMIT / 2 then wanted
    else Doubled(capacity * 2, wanted)
  }

  function Grown(capacity: nat, wanted: nat): nat {
    Doubled(if capacity == 0 then 16 else capacity, wanted)
  }

  /** Growth gives at least what was asked for, and otherwise less than twice as much or the
      starting size. */
  lemma {:induction false} DoubledBounds(capacity: nat, wanted: nat)
    requires capacity > 0
    ensures wanted <= Doubled(capacity, wanted)
    ensures Doubled(capacity, wanted) == capacity || Doubled(capacity, wanted) < 2 * wanted
    ensures capacity <= SIZE_LIMIT && wanted <= SIZE_LIMIT ==> Doubled(capacity, wanted) <= SIZE_LIMIT
    decreases wanted - capacity
  {
    if capacity < wanted && capacity <= SIZE_LIMIT / 2 {
      DoubledBounds(capacity * 2, wanted);
    }
  }

  /** `b` with `piece` written over it from `at` on. */
  function Written(b: Text, at: nat, piece: Text): Text
    requires at + |piece| <= |b|
  {
    b[..at] + piece + b[at + |piece|..]
  }

  lemma {:induction false} WrittenAt(b: Text, at: nat, piece: Text)
    requires at + |piece| <= |b|
    ensures |Written(b, at, piece)| == |b|
    ensures Written(b, at, piece)[at..at + |piece|] == piece
    ensures Written(b, at, piece)[..at] == b[..at]
    ensures Written(b, at, piece)[at + |piece|..] == b[at + |piece|..]
  {
  }

  /** memmove: the stretches may overlap. */
  method Move(target: array<char>, at: nat, source: array<char>, from: nat, length: nat)
    requires at + length <= target.Length && from + length <= source.Length
    modifies target
    ensures target[..] == Written(old(target[..]), at, old(source[from..from + length]))
  {
    forall i | 0 <= i < length {
      target[at + i] := source[from + i];
    }
  }

  /** What realloc does with the bytes of the old buffer: the new one starts with them, and the
      old one is gone, here overwritten with junk. */
  method Relocate(target: array<char>, source: array<char>, n: nat)
    requires n <= target.Length && n <= source.Length && target != source
    modifies target, source
    ensures target[..n] == old(source[..n])
  {
    ghost var fill := target[..];
    Move(target, 0, source, 0, n);
    WrittenAt(fill, 0, source[0..n]);
    assert target[..n] == target[..][0..n] == source[0..n] == source[..n];
    var junk: char := *;
    forall i | 0 <= i < source.Length {
      source[i] := junk;
    }
  }

  // ---------- what the moves leave in the buffer ----------

  /** A slice of the text is the same slice of the buffer. */
  lemma {:induction false} SliceOfText(b: Text, t: Text, from: nat, n: nat)
    requires |t| <= |b| && b[..|t|] == t && from + n <= |t|
    ensures b[from..from + n] == t[from..from + n]
  {
    assert b[..|t|][from..from + n] == b[from..from + n];
  }

  lemma {:induction false} AppendBytes(b: Text, t: Text, p: Text)
    requires |t| + |p| < |b| && b[..|t|] == t
    ensures |Written(b, |t|, p)| == |b|
    ensures Written(b, |t|, p)[|t| + |p| := '\0'][..|t| + |p|] == t + p
  {
  }

  /** After the shift, the text lies behind the gap, and so does every slice of it. */
  lemma {:induction false} ShiftBytes(b: Text, t: Text, n: nat)
    requires |t| + n < |b| && b[..|t|] == t
    ensures n + |b[0..|t| + 1]| <= |b|
    ensures (var c := Written(b, n, b[0..|t| + 1]);
             |c| == |b| && c[n..n + |t|] == t)
  {
    var c := Written(b, n, b[0..|t| + 1]);
    forall k | 0 <= k < |t|
      ensures c[n..n + |t|][k] == t[k]
    {
      assert c[n + k] == b[0..|t| + 1][k] == b[..|t|][k];
    }
  }

  lemma {:induction false} ShiftedSlice(c: Text, t: Text, n: nat, from: nat)
    requires n + |t| <= |c| && c[n..n + |t|] == t && from + n <= |t|
    ensures c[from + n..from + n + n] == t[from..from + n]
  {
    var moved, slice := c[from + n..from + n + n], t[from..from + n];
    forall k | 0 <= k < n
      ensures moved[k] == slice[k]
    {
      assert c[n..n + |t|][from + k] == c[n + (from + k)];
    }
  }

  lemma {:induction false} PrependBytes(c: Text, t: Text, p: Text)
    requires |p| + |t| < |c| && c[|p|..|p| + |t|] == t
    ensures |Written(c, 0, p)| == |c|
    ensures Written(c, 0, p)[|p| + |t| := '\0'][..|p| + |t|] == p + t
  {
    var d := Written(c, 0, p)[|p| + |t| := '\0'];
    assert d[|p|..|p| + |t|] == c[|p|..|p| + |t|];
    assert d[..|p| + |t|] == d[..|p|] + d[|p|..|p| + |t|];
  }

  lemma {:induction false} RemoveBytes(b: Text, t: Text, start: nat, n: nat)
    requires |t| < |b| && b[..|t|] == t && b[|t|] == '\0' && start + n <= |t|
    ensures start + |b[start + n..|t| + 1]| <= |b|
    ensures (var c := Written(b, start, b[start + n..|t| + 1]);
             |c| == |b| && c[..|t| - n] == t[..start] + t[start + n..] && c[|t| - n] == '\0')
  {
    var c := Written(b, start, b[start + n..|t| + 1]);
    forall k | 0 <= k < |t| - n
      ensures c[k] == (t[..start] + t[start + n..])[k]
    {
      if k < start {
        assert c[k] == b[k] == b[..|t|][k];
      } else {
        assert c[k] == b[start + n..|t| + 1][k - start] == b[k + n] == b[..|t|][k + n];
      }
    }
  }

  /** The moves of string_prepend: the text makes room, and the slice, which has moved with it
      where it is part of it, is written in front. */
  method WriteInFront(buffer: array<char>, length: nat, source: array<char>, offset: nat, n: nat)
    requires length + n < buffer.Length
    requires if source == buffer then offset + n <= length else offset + n <= source.Length
    modifies buffer
    ensures buffer[..n + length] == old(source[offset..offset + n]) + old(buffer[..length])
    ensures buffer[n + length] == '\0'
  {
    hide Written;
    ghost var b, t, p := buffer[..], buffer[..length], source[offset..offset + n];
    Move(buffer, n, buffer, 0, length + 1);
    ShiftBytes(b, t, n);
    ghost var c := buffer[..];
    var from := if source == buffer then offset + n else offset;
    assert source[from..from + n] == p by {
      if source == buffer {
        ShiftedSlice(c, t, n, offset);
        SliceOfText(b, t, offset, n);
      }
    }
    Move(buffer, 0, source, from, n);
    PrependBytes(c, t, p);
    buffer[n + length] := '\0';
    assert buffer[..] == Written(c, 0, p)[n + length := '\0'];
  }

  /** The move of string_append. */
  method WriteBehind(buffer: array<char>, length: nat, source: array<char>, offset: nat, n: nat)
    requires length + n < buffer.Length && offset + n <= source.Length
    modifies buffer
    ensures buffer[..length + n] == old(buffer[..length]) + old(source[offset..offset + n])
    ensures buffer[length + n] == '\0'
  {
    hide Written;
    ghost var b, t, p := buffer[..], buffer[..length], source[offset..offset + n];
    Move(buffer, length, source, offset, n);
    AppendBytes(b, t, p);
    buffer[length + n] := '\0';
    assert buffer[..] == Written(b, |t|, p)[length + n := '\0'];
  }

  /** The move of string_remove. */
  method CloseGap(buffer: array<char>, length: nat, start: nat, removed: nat)
    requires length < buffer.Length && buffer[length] == '\0' && start + removed <= length
    modifies buffer
    ensures buffer[..length - removed] == old(buffer[..start]) + old(buffer[start + removed..length])
    ensures buffer[length - removed] == '\0'
  {
    hide Written;
    ghost var b, t := buffer[..], buffer[..length];
    Move(buffer, start, buffer, start + removed, length - start - removed + 1);
    RemoveBytes(b, t, start, removed);
    assert t[..start] == b[..start] && t[start + removed..] == b[start + removed..length];
    assert buffer[..length - removed] == buffer[..][..length - removed];
  }

  // ---------- replacing ----------

  /** The text cut at the occurrences of `search`, leftmost first: at all of them, or at the first. */
  function Pieces(text: Text, search: Text, all: bool): (pieces: seq<Text>)
    requires search != ""
    ensures pieces != []
    decreases |text|
  {
    match FindFrom(text, search, 0)
    case None => [text]
    case Some(i) =>
      var rest := text[i + |search|..];
      [text[..i]] + (if all then Pieces(rest, search, true) else [rest])
  }

  function Join(pieces: seq<Text>, glue: Text): Text {
    if pieces == [] then ""
    else if |pieces| == 1 then pieces[0]
    else pieces[0] + glue + Join(pieces[1..], glue)
  }

  /** Nothing is lost in the cutting: putting the searched text back gives the text back. */
  lemma {:induction false} PiecesJoinBack(text: Text, search: Text, all: bool)
    requires search != ""
    ensures Join(Pieces(text, search, all), search) == text
    decreases |text|
  {
    var at := FindFrom(text, search, 0);
    if at.Some? {
      var rest := text[at.value + |search|..];
      assert text == text[..at.value] + search + rest;
      var tail := if all then Pieces(rest, search, true) else [rest];
      assert ([text[..at.value]] + tail)[1..] == tail;
      if all {
        PiecesJoinBack(rest, search, true);
      }
    }
  }

  /** Cutting everywhere leaves no occurrence in any piece. */
  lemma {:induction false} PiecesAreClean(text: Text, search: Text, k: nat)
    requires search != "" && k < |Pieces(text, search, true)|
    ensures forall j: nat :: !OccursAt(Pieces(text, search, true)[k], search, j)
    decreases |text|
  {
    hide FindFrom;
    var at := FindFrom(text, search, 0);
    if at.Some? {
      if k == 0 {
        forall j: nat
          ensures !OccursAt(text[..at.value], search, j)
        {
          if j + |search| <= at.value {
            OccursInSlice(text, search, 0, at.value, j);
            assert text[0..at.value] == text[..at.value];
          }
        }
      } else {
        var rest := text[at.value + |search|..];
        assert Pieces(text, search, true)[k] == Pieces(rest, search, true)[k - 1];
        hide Pieces, OccursAt;
        PiecesAreClean(rest, search, k - 1);
      }
    }
  }

  lemma {:induction false} JoinCons(piece: Text, rest: seq<Text>, glue: Text)
    requires rest != []
    ensures Join([piece] + rest, glue) == piece + glue + Join(rest, glue)
    ensures Join([piece], glue) == piece
  {
    assert ([piece] + rest)[1..] == rest;
  }

  /** What replacing means: a text without the searched one stays; else what is in front of its first
      occurrence comes first, then the replacement, then the rest, in which later occurrences are
      replaced in the same way if all are to be. */
  lemma {:induction false} Replaced(text: Text, search: Text, all: bool, glue: Text, i: nat)
    requires search != ""
    ensures (forall j: nat :: !OccursAt(text, search, j)) ==> Join(Pieces(text, search, all), glue) == text
    ensures OccursAt(text, search, i) && (forall j: nat :: j < i ==> !OccursAt(text, search, j)) ==>
              && i + |search| <= |text| && text == text[..i] + search + text[i + |search|..]
              && Join(Pieces(text, search, all), glue)
                 == text[..i] + glue + (if all then Join(Pieces(text[i + |search|..], search, true), glue)
                                        else text[i + |search|..])
  {
    hide Join;
    if forall j: nat :: !OccursAt(text, search, j) {
      assert FindFrom(text, search, 0).None?;
      PiecesNone(text, search, all, glue);
    }
    if OccursAt(text, search, i) && forall j: nat :: j < i ==> !OccursAt(text, search, j) {
      FoundAt(text, search, 0, i);
      PiecesStep(text, search, all, glue, i);
      assert text == text[..i] + search + text[i + |search|..];
    }
  }

  /** One step of the replacement, at the first occurrence. */
  lemma {:induction false} PiecesStep(text: Text, search: Text, all: bool, glue: Text, i: nat)
    requires search != "" && FindFrom(text, search, 0) == Some(i)
    ensures i + |search| <= |text|
    ensures (var rest := text[i + |search|..];
             Join(Pieces(text, search, all), glue)
               == text[..i] + glue + (if all then Join(Pieces(rest, search, true), glue) else rest))
  {
    assert OccursAt(text, search, i);
    hide FindFrom, Join;
    var rest := text[i + |search|..];
    var tail := if all then Pieces(rest, search, true) else [rest];
    assert Pieces(text, search, all) == [text[..i]] + tail;
    hide Pieces;
    JoinCons(text[..i], tail, glue);
    JoinCons(rest, tail, glue);
  }

  lemma {:induction false} PiecesNone(text: Text, search: Text, all: bool, glue: Text)
    requires search != "" && FindFrom(text, search, 0).None?
    ensures Join(Pieces(text, search, all), glue) == text
  {
  }

  lemma {:induction false} Regroup(a: Text, b: Text, c: Text, d: Text)
    ensures a + (b + c + d) == a + b + c + d
  {
  }

  /** With `done` built and `rest` still to go, the replacement of `text` comes out. */
  predicate OnTheWay(done: Text, rest: Text, text: Text, p: Text, all: bool, q: Text)
    requires p != ""
  {
    done + Join(Pieces(rest, p, all), q) == Join(Pieces(text, p, all), q)
  }

  lemma {:induction false} OnTheWayFrom(text: Text, p: Text, all: bool, q: Text)
    requires p != ""
    ensures OnTheWay("", text, text, p, all, q)
  {
  }

  /** A round with an occurrence at `i`: either the run goes on behind it, or, when only the
      first is replaced, the rest completes the result. */
  lemma {:induction false} OnTheWayPast(done: Text, rest: Text, text: Text, p: Text, all: bool, q: Text, i: nat)
    requires p != "" && OnTheWay(done, rest, text, p, all, q) && FindFrom(rest, p, 0) == Some(i)
    ensures i + |p| <= |rest|
    ensures if all then OnTheWay(done + rest[..i] + q, rest[i + |p|..], text, p, all, q)
            else done + rest[..i] + q + rest[i + |p|..] == Join(Pieces(text, p, all), q)
    ensures |done| + i + |q| <= |Join(Pieces(text, p, all), q)|
  {
    hide FindFrom, Pieces, Join;
    PiecesStep(rest, p, all, q, i);
    Regroup(done, rest[..i], q, if all then Join(Pieces(rest[i + |p|..], p, true), q) else rest[i + |p|..]);
  }

  lemma {:induction false} OnTheWayLast(done: Text, rest: Text, text: Text, p: Text, all: bool, q: Text)
    requires p != "" && OnTheWay(done, rest, text, p, all, q) && FindFrom(rest, p, 0).None?
    ensures done + rest == Join(Pieces(text, p, all), q)
  {
    PiecesNone(rest, p, all, q);
  }

  datatype CopyResult = Copied | Refused | NullWrite

  class OwnedString {
    var data: array?<char>
    var length: nat
    var capacity: nat
    const mayRefuse: bool  // whether the allocator may refuse memory

    /** Room for a terminator behind the capacity, and a terminator behind the text. The block may
        be larger than what was asked for; the allocator can grow it in place that far. */
    ghost predicate Valid()
      reads this, data
    {
      && length <= capacity < SIZE_LIMIT
      && (if data == null then capacity == 0 else data.Length > capacity && data[length] == '\0')
    }

    ghost function Text(): Texts.Text
      requires Valid()
      reads this, data
    {
      if data == null then "" else data[..length]
    }

    /** string_as_view. */
    function AsView(): View
      reads this
    {
      if data == null then View(null, 0, 0) else View(data, 0, length)
    }

    /** A view that may be passed in: readable, and, where it lies in this string's buffer,
        inside the text. */
    ghost predicate Accepts(v: View)
      reads this
    {
      v.Fits() && (v.data != null && v.data == data ==> v.offset + v.length <= length)
    }

    /** string_new. */
    constructor (mayRefuse: bool)
      ensures Valid() && Text() == "" && data == null && this.mayRefuse == mayRefuse
    {
      this.mayRefuse := mayRefuse;
      data := null;
      length := 0;
      capacity := 0;
    }

    /** The text and its terminator move to a new block with room for `newCapacity` bytes. */
    method MoveBlock(newCapacity: nat)
      requires Valid() && capacity < newCapacity
      modifies this`data, data
      ensures fresh(data) && data.Length > newCapacity && data[..length] == old(Text()) && data[length] == '\0'
    {
      hide Written;
      var size: int := *;
      if size <= newCapacity {
        size := newCapacity + 1;
      }
      var newData := new char[size];
      if data != null {
        Relocate(newData, data, length + 1);
        assert newData[..length] == newData[..length + 1][..length];
        assert old(data[..length]) == old(data[..length + 1])[..length];
      } else {
        newData[0] := '\0';
      }
      data := newData;
    }

    /** string_reserve. The block grows in place or moves; a block that moved is overwritten with
        junk, so that a stale view of it would read junk. */
    method Reserve(wanted: nat) returns (ok: bool)
      requires Valid()
      modifies this, data
      ensures Valid() && Text() == old(Text()) && length == old(length)
      ensures wanted <= old(capacity) ==> ok && data == old(data) && capacity == old(capacity)
      ensures wanted > old(capacity) && ok ==> wanted <= capacity == Grown(old(capacity), wanted)
      ensures data == old(data) || fresh(data)
      ensures !ok ==> data == old(data) && capacity == old(capacity) && (mayRefuse || wanted >= SIZE_LIMIT)
      ensures data == old(data) && data != null ==> data[..] == old(if data == null then "" else data[..])
    {
      hide Written;
      if wanted <= capacity {
        if data != null {
          data[length] := '\0';
        }
        return true;
      }
      var newCapacity := if capacity == 0 then 16 else capacity;
      DoubledBounds(newCapacity, wanted);
      while newCapacity < wanted
        invariant newCapacity < SIZE_LIMIT || newCapacity == wanted
        invariant newCapacity > 0 && Doubled(newCapacity, wanted) == Grown(capacity, wanted)
        decreases wanted - newCapacity
      {
        if newCapacity > SIZE_LIMIT / 2 {
          newCapacity := wanted;
          break;
        }
        newCapacity := newCapacity * 2;
      }
      if newCapacity == SIZE_LIMIT {
        newCapacity := wanted;
      }
      if newCapacity > SIZE_LIMIT - 1 {
        return false;
      }
      var granted: bool := *;
      if mayRefuse && !granted {
        return false;
      }
      var inPlace: bool := *;
      if data == null || newCapacity >= data.Length || !inPlace {
        MoveBlock(newCapacity);
      }
      capacity := newCapacity;
      data[length] := '\0';
      ok := true;
    }

    /** Makes room for `wanted` bytes and rebases a slice of this string's own buffer
        (string_storage_offset, string_rebase_view): the view given back reads as `value` did. */
    method ReserveFor(value: View, wanted: nat) returns (ok: bool, rebased: View)
      requires Valid() && Accepts(value) && value.Valid()
      modifies this, data
      ensures Valid() && Text() == old(Text()) && length == old(length)
      ensures wanted <= old(capacity) ==> ok && capacity == old(capacity) && data == old(data)
      ensures ok ==> wanted <= capacity && (data != old(data) ==> fresh(data))
      ensures ok ==> Accepts(rebased) && rebased.Content() == old(value.Content())
      ensures ok ==> rebased.offset == value.offset && rebased.length == value.length
      ensures ok ==> (rebased.data == null <==> value.data == null)
      ensures !ok ==> data == old(data) && capacity == old(capacity) && (mayRefuse || wanted >= SIZE_LIMIT)
    {
      var inside := value.data != null && value.data == data;
      ok := Reserve(wanted);
      rebased := if inside then View(data, value.offset, value.length) else value;
      if inside {
        SliceOfText(data[..], Text(), value.offset, value.length);
        SliceOfText(old(data[..]), old(Text()), value.offset, value.length);
      }
    }

    /** The write of string_append into a buffer that is large enough. */
    method PutBehind(source: View)
      requires Valid() && source.Valid() && Accepts(source) && 0 < source.length <= capacity - length
      modifies this`length, data
      ensures Valid() && Text() == old(Text()) + old(source.Content())
    {
      hide View.Content, Written, Grown;
      ghost var p, t := source.Content(), Text();
      ContentIs(source);
      assert t == data[..length];
      WriteBehind(data, length, source.data, source.offset, source.length);
      assert data[..length + source.length] == t + p;
      length := length + source.length;
    }

    /** The write of string_prepend into a buffer that is large enough. */
    method PutInFront(source: View)
      requires Valid() && source.Valid() && Accepts(source) && 0 < source.length <= capacity - length
      modifies this`length, data
      ensures Valid() && Text() == old(source.Content()) + old(Text())
    {
      hide View.Content, Written, Grown;
      ghost var p, t := source.Content(), Text();
      ContentIs(source);
      assert t == data[..length];
      WriteInFront(data, length, source.data, source.offset, source.length);
      assert data[..source.length + length] == p + t;
      length := length + source.length;
    }

    /** string_append. */
    method Append(value: View) returns (ok: bool)
      requires Valid() && Accepts(value)
      modifies this, data
      ensures Valid()
      ensures ok ==> Text() == old(Text()) + old(value.Content())
      ensures ok ==> value.Valid() && old(length) + value.length <= SIZE_LIMIT
      ensures !ok ==> Text() == old(Text()) && data == old(data) && capacity == old(capacity)
      ensures value.Valid() && old(length) + value.length <= old(capacity) ==> ok
      ensures value.Valid() && old(length) + value.length < SIZE_LIMIT && !mayRefuse ==> ok
      ensures data != old(data) ==> fresh(data)
    {
      hide View.Content, Written, Grown;
      if !value.Valid() || value.length > SIZE_LIMIT - length {
        return false;
      }
      ContentLength(value);
      if value.length == 0 {
        return true;
      }
      var source;
      ok, source := ReserveFor(value, length + value.length);
      if !ok {
        return;
      }
      PutBehind(source);
    }

    /** string_prepend. */
    method Prepend(value: View) returns (ok: bool)
      requires Valid() && Accepts(value)
      modifies this, data
      ensures Valid()
      ensures ok ==> Text() == old(value.Content()) + old(Text())
      ensures ok ==> value.Valid() && old(length) + value.length <= SIZE_LIMIT
      ensures !ok ==> Text() == old(Text()) && data == old(data) && capacity == old(capacity)
      ensures value.Valid() && old(length) + value.length <= old(capacity) ==> ok
      ensures value.Valid() && old(length) + value.length < SIZE_LIMIT && !mayRefuse ==> ok
    {
      hide View.Content, Written, Grown;
      if !value.Valid() || value.length > SIZE_LIMIT - length {
        return false;
      }
      ContentLength(value);
      if value.length == 0 {
        return true;
      }
      var source;
      ok, source := ReserveFor(value, length + value.length);
      if !ok {
        return;
      }
      PutInFront(source);
    }

    /** The write of string_copy into a buffer that is large enough. */
    method Overwrite(source: View)
      requires Valid() && data != null && source.length <= capacity && source.Valid() && source.Fits()
      modifies this`length, data
      ensures Valid() && Text() == old(source.Content())
    {
      hide View.Content, Written, Grown;
      ghost var p := source.Content();
      ContentLength(source);
      if source.length != 0 {
        ContentIs(source);
        assert data[..0] + p == p;
        WriteBehind(data, 0, source.data, source.offset, source.length);
        assert data[..source.length] == p;
      }
      length := source.length;
      data[length] := '\0';
    }

    /** string_copy. An empty view leaves a string without a buffer without one, and the
        terminator is then written through the null pointer. */
    method Copy(value: View) returns (r: CopyResult)
      requires Valid() && Accepts(value)
      modifies this, data
      ensures r.NullWrite? <==> old(data) == null && value.length == 0
      ensures !r.NullWrite? ==> Valid()
      ensures r.Copied? ==> Text() == old(value.Content())
      ensures r.Refused? ==> Text() == old(Text()) && data == old(data) && capacity == old(capacity)
      ensures value.Valid() && (value.length <= old(capacity) || (value.length < SIZE_LIMIT && !mayRefuse)) ==>
                !r.Refused?
      ensures !value.Valid() ==> r.Refused?
    {
      hide View.Content, Written, Grown;
      if !value.Valid() {
        return Refused;
      }
      ContentLength(value);
      var ok, source := ReserveFor(value, value.length);
      if !ok {
        return Refused;
      }
      if data == null {
        length := value.length;
        return NullWrite;
      }
      Overwrite(source);
      r := Copied;
    }

    /** string_clear. */
    method Clear()
      requires Valid()
      modifies this`length, data
      ensures Valid() && Text() == "" && capacity == old(capacity)
    {
      length := 0;
      if data != null {
        data[0] := '\0';
      }
    }

    /** string_remove. */
    method Remove(start: nat, count: nat) returns (ok: bool)
      requires Valid()
      modifies this`length, data
      ensures Valid() && capacity == old(capacity)
      ensures ok <==> start <= old(length)
      ensures !ok ==> Text() == old(Text())
      ensures ok && start + count <= old(length) ==>
                Text() == old(Text())[..start] + old(Text())[start + count..]
      ensures ok && start + count > old(length) ==> Text() == old(Text())[..start]
    {
      hide Written, Cut;
      CutLength(Text(), start, count);
      if start > length {
        return false;
      }
      var remaining := length - start;
      var removed := if count > remaining then remaining else count;
      if data == null {
        return removed == 0;
      }
      ghost var t := Text();
      assert t[..start] == data[..start] && t[start + removed..] == data[start + removed..length];
      CloseGap(data, length, start, removed);
      length := length - removed;
      ok := true;
    }

    /** The search of stringv_find in a view. */
    static method FindIn(value: View, search: View) returns (r: Option<nat>)
      requires value.Valid() && value.Fits() && search.Valid() && search.Fits() && search.length > 0
      ensures r == FindFrom(value.Content(), search.Content(), 0)
    {
      var pattern := search.data[search.offset..search.offset + search.length];
      if value.data == null {
        return None;
      }
      r := Find(value.data[value.offset..value.offset + value.length], pattern, 0);
    }

    /** Appends a stretch of a view into another buffer. */
    method AppendPart(source: View, start: nat, n: nat) returns (ok: bool)
      requires Valid() && source.Valid() && source.Fits() && start + n <= source.length
      requires source.data != null ==> source.data != data
      modifies this, data
      ensures Valid() && (data != old(data) ==> fresh(data))
      ensures |old(source.Content())| == source.length
      ensures ok ==> Text() == old(Text()) + old(source.Content())[start..start + n]
      ensures !ok ==> mayRefuse || |old(Text())| + n >= SIZE_LIMIT
    {
      SlicePart(source, start, n);
      hide Slice, View.Content;
      ok := Append(Slice(source, start, n));
    }

    /** The next occurrence in what is left of `source` behind `cursor`. */
    static method FindBehind(source: View, search: View, cursor: nat, ghost rest: Text, ghost p: Text)
      returns (r: Option<nat>)
      requires source.Valid() && source.Fits() && search.Valid() && search.Fits() && search.length > 0
      requires |source.Content()| == source.length && cursor <= source.length
      requires rest == source.Content()[cursor..] && p == search.Content()
      ensures r == FindFrom(rest, p, 0) && (r.Some? ==> r.value + |p| <= |rest|)
    {
      hide View.Content, FindFrom, Slice;
      SlicePart(source, cursor, source.length - cursor);
      SlicePart(search, 0, search.length);
      assert source.Content()[cursor..source.length] == rest;
      r := FindIn(Slice(source, cursor, source.length - cursor), search);
      assert r.Some? ==> OccursAt(rest, p, r.value);
    }

    /** One round of the loop of string_replace_build: what lies in front of the next occurrence
        is appended, and the replacement; without an occurrence, all that is left. */
    method Advance(source: View, search: View, replacement: View, cursor: nat, ghost rest: Text, ghost p: Text,
                   ghost q: Text)
      returns (ok: bool, hit: bool, next: nat)
      requires Valid() && source.Valid() && source.Fits() && replacement.Valid() && replacement.Fits()
      requires search.Valid() && search.Fits() && search.length > 0 && cursor <= source.length
      requires |source.Content()| == source.length && rest == source.Content()[cursor..]
      requires p == search.Content() && q == replacement.Content()
      requires (source.data != null ==> source.data != data) && (replacement.data != null ==> replacement.data != data)
      modifies this, data
      ensures Valid() && (data != old(data) ==> fresh(data)) && |p| == search.length
      ensures !hit ==> FindFrom(rest, p, 0).None? && (ok ==> Text() == old(Text()) + rest)
      ensures hit ==> FindFrom(rest, p, 0).Some? && next == cursor + FindFrom(rest, p, 0).value + |p| <= source.length
      ensures !ok && !mayRefuse ==>
                |old(Text())| + (if hit then FindFrom(rest, p, 0).value + |q| else |rest|) >= SIZE_LIMIT
      ensures hit && ok ==> FindFrom(rest, p, 0).value <= |rest|
                            && Text() == old(Text()) + rest[..FindFrom(rest, p, 0).value] + q
    {
      hide View.Content, FindFrom, Cut, Slice, OwnedString.Text, OwnedString.Valid;
      next := cursor;
      ghost var t := source.Content();
      SlicePart(search, 0, search.length);
      SlicePart(replacement, 0, replacement.length);
      assert t[cursor..source.length] == rest && q[0..replacement.length] == q;
      var relative := FindBehind(source, search, cursor, rest, p);
      hit := relative.Some?;
      if !hit {
        ok := AppendPart(source, cursor, source.length - cursor);
        return;
      }
      assert t[cursor..cursor + relative.value] == rest[..relative.value];
      next := cursor + relative.value + search.length;
      ok := AppendPart(source, cursor, relative.value);
      if ok {
        ok := AppendPart(replacement, 0, replacement.length);
      }
    }

    /** A round within the run: what is built stays on the way to the replacement of `t`, and is
        complete when the run ends. */
    method Round(source: View, search: View, replacement: View, all: bool, cursor: nat, ghost t: Text, ghost p: Text,
                 ghost q: Text)
      returns (ok: bool, hit: bool, next: nat)
      requires Valid() && source.Valid() && source.Fits() && replacement.Valid() && replacement.Fits()
      requires search.Valid() && search.Fits() && search.length > 0 && cursor <= source.length
      requires t == source.Content() && |t| == source.length && p == search.Content() != ""
            && q == replacement.Content()
      requires (source.data != null ==> source.data != data) && (replacement.data != null ==> replacement.data != data)
      requires OnTheWay(Text(), t[cursor..], t, p, all, q)
      modifies this, data
      ensures Valid() && (data != old(data) ==> fresh(data))
      ensures !hit ==> FindFrom(t[cursor..], p, 0).None?
      ensures hit && ok ==> cursor < next <= |t|
      ensures ok && hit && all ==> OnTheWay(Text(), t[next..], t, p, all, q)
      ensures ok && !(hit && all) ==> Text() == Join(Pieces(t, p, all), q)
      ensures !ok ==> mayRefuse || |Join(Pieces(t, p, all), q)| >= SIZE_LIMIT
    {
      hide View.Content, FindFrom, Pieces, Join, Cut, Slice, OwnedString.Text, OwnedString.Valid, OnTheWay;
      ghost var done, rest := Text(), t[cursor..];
      ok, hit, next := Advance(source, search, replacement, cursor, rest, p, q);
      if !hit {
        OnTheWayLast(done, rest, t, p, all, q);
        return;
      }
      OnTheWayPast(done, rest, t, p, all, q, FindFrom(rest, p, 0).value);
      assert rest[next - cursor..] == t[next..];
      if ok && !all {
        ok := AppendPart(source, next, source.length - next);
        assert t[next..source.length] == t[next..];
      }
    }

    /** The loop of string_replace_build: the result grows in a buffer of its own. */
    static method Rebuild(source: View, search: View, replacement: View, all: bool, mayRefuse: bool)
      returns (ok: bool, found: bool, result: OwnedString)
      requires source.Valid() && source.Fits() && replacement.Valid() && replacement.Fits()
      requires search.Valid() && search.Fits() && search.length > 0
      ensures fresh(result) && result.Valid() && (result.data != null ==> fresh(result.data))
      ensures search.Content() != ""
      ensures ok && found ==>
                result.Text() == Join(Pieces(source.Content(), search.Content(), all), replacement.Content())
      ensures ok && !found ==> FindFrom(source.Content(), search.Content(), 0).None?
      ensures !ok ==>
                || mayRefuse
                || |Join(Pieces(source.Content(), search.Content(), all), replacement.Content())| >= SIZE_LIMIT
    {
      hide View.Content, FindFrom, Pieces, Join, Cut, Slice, OwnedString.Text, OwnedString.Valid, OnTheWay;
      result := new OwnedString(mayRefuse);
      ok, found := false, false;
      var cursor := 0;
      ghost var t, p, q := source.Content(), search.Content(), replacement.Content();
      SlicePart(source, 0, source.length);
      SlicePart(search, 0, search.length);
      assert t[0..] == t;
      OnTheWayFrom(t, p, all, q);
      while cursor <= source.length
        invariant cursor <= |t|
        invariant fresh(result) && result.Valid() && (result.data != null ==> fresh(result.data))
        invariant OnTheWay(result.Text(), t[cursor..], t, p, all, q)
        invariant !found ==> cursor == 0
        invariant result.mayRefuse == mayRefuse
        decreases |t| - cursor
      {
        var hit, next;
        ok, hit, next := result.Round(source, search, replacement, all, cursor, t, p, q);
        if !hit || !ok {
          return;
        }
        found := true;
        cursor := next;
        if !all {
          return;
        }
      }
    }

    /** string_replace_build. The arguments may be slices of this string: the old buffer goes
        away last. */
    method ReplaceBuild(search: View, replacement: View, all: bool) returns (ok: bool)
      requires Valid() && Accepts(search) && Accepts(replacement)
      modifies this, data
      ensures Valid()
      ensures ok ==> search.length > 0 && search.Valid() && replacement.Valid()
      ensures ok ==> old(search.Content()) != ""
      ensures ok ==> Text() == Join(Pieces(old(Text()), old(search.Content()), all), old(replacement.Content()))
      ensures !ok ==> Text() == old(Text()) && data == old(data) && capacity == old(capacity)
      ensures !ok && search.length > 0 && search.Valid() && replacement.Valid() && !mayRefuse ==>
                && old(search.Content()) != ""
                && |Join(Pieces(old(Text()), old(search.Content()), all), old(replacement.Content()))| >= SIZE_LIMIT
    {
      hide View.Content, FindFrom, Pieces, Join;
      if search.length == 0 || !search.Valid() || !replacement.Valid() {
        return false;
      }
      var source := AsView();
      var found, result;
      assert source.Content() == Text() by {
        if data != null {
          ContentIs(source);
        } else {
          NullContent(source);
        }
      }
      ok, found, result := Rebuild(source, search, replacement, all, mayRefuse);
      if !ok || !found {
        if ok {
          PiecesNone(Text(), search.Content(), all, replacement.Content());
        }
        return;
      }
      var before := data;
      data, length, capacity := result.data, result.length, result.capacity;
      if before != null {
        var junk: char := *;
        forall i | 0 <= i < before.Length {
          before[i] := junk;
        }
      }
    }
  }
}
