/** The record format of src/session/session.c: a version byte, a count, and length-prefixed
    entries with big-endian numbers. */
module SessionCodec {
  import opened Texts
  import opened Numbers
  import opened SlotTables
  import opened StringMaps
  import opened MapRuns

  const SESSION_MAX_BYTES: nat := 16 * 1024

  // ---------- big-endian numbers ----------

  function Pow256(n: nat): (p: nat)
    ensures p >= 1
  {
    if n == 0 then 1 else Pow256(n - 1) * 256
  }

  /** The `n` low bytes of `v`, most significant first. */
  function BigEndian(v: nat, n: nat): (s: Text)
    ensures |s| == n
  {
    if n == 0 then "" else BigEndian(v / 256, n - 1) + [(v % 256) as char]
  }

  function ReadBig(s: Text): nat {
    if s == "" then 0 else ReadBig(s[..|s| - 1]) * 256 + s[|s| - 1] as int
  }

  lemma {:induction false} ReadBigEndian(v: nat, n: nat)
    requires v < Pow256(n)
    ensures ReadBig(BigEndian(v, n)) == v
  {
    if n > 0 {
      assert v / 256 < Pow256(n - 1);
      ReadBigEndian(v / 256, n - 1);
      assert BigEndian(v, n)[..n - 1] == BigEndian(v / 256, n - 1);
    }
  }

  lemma {:induction false} Powers()
    ensures Pow256(2) == 0x1_0000 && Pow256(4) == 0x1_0000_0000 && Pow256(8) == 0x1_0000_0000_0000_0000
  {
    assert Pow256(1) == 256;
    assert Pow256(3) == 0x100_0000;
    assert Pow256(5) == 0x100_0000_0000 && Pow256(6) == 0x1_0000_0000_0000;
    assert Pow256(7) == 0x100_0000_0000_0000;
  }

  /** An int64 as the uint64 of the same bits, and back. */
  function Wrap(i: int): nat {
    i % 0x1_0000_0000_0000_0000
  }

  function Unwrap(u: nat): int {
    if u > INT64_MAX then u - 0x1_0000_0000_0000_0000 else u
  }

  // ---------- encoding ----------

  predicate Encodable(item: Item) {
    item.StringItem? || item.IntItem? || item.BoolItem?
  }

  function ItemBytes(item: Item): Text {
    match item
    case StringItem(text) => [1 as char] + BigEndian(|text|, 4) + text
    case IntItem(i) => [2 as char] + BigEndian(Wrap(i), 8)
    case BoolItem(b) => [3 as char] + [if b then 1 as char else 0 as char]
    case _ => ""
  }

  function EntryBytes(e: Entry): Text {
    BigEndian(|e.key|, 2) + e.key + ItemBytes(e.item)
  }

  function EntriesBytes(es: seq<Entry>): Text {
    if es == [] then "" else EntriesBytes(es[..|es| - 1]) + EntryBytes(es[|es| - 1])
  }

  function Encode(es: seq<Entry>): Text {
    [1 as char] + BigEndian(|es|, 2) + EntriesBytes(es)
  }

  predicate AllEncodable(es: seq<Entry>) {
    forall e :: e in es ==> Encodable(e.item)
  }

  /** What can be stored: strings, integers and booleans whose encoding fits the limit. */
  predicate Serializable(es: seq<Entry>) {
    AllEncodable(es) && |Encode(es)| <= SESSION_MAX_BYTES
  }

  lemma {:induction false} EntriesBytesSnoc(es: seq<Entry>, e: Entry)
    ensures EntriesBytes(es + [e]) == EntriesBytes(es) + EntryBytes(e)
  {
    assert (es + [e])[..|es|] == es;
  }

  /** Each entry takes four bytes or more, and a prefix of the entries fewer than all. */
  lemma {:induction false} EncodedSize(es: seq<Entry>, n: nat)
    requires n <= |es| && AllEncodable(es)
    ensures |EntriesBytes(es[..n])| <= |EntriesBytes(es)| && |EntriesBytes(es)| >= 4 * |es|
    decreases |es|
  {
    hide EntryBytes;
    if es != [] {
      assert es[|es| - 1] in es;
      EntryBytesParts(es[|es| - 1]);
    }
    if n == |es| {
      assert es[..n] == es;
      if es != [] {
        EncodedSize(es[..|es| - 1], |es| - 1);
      }
    } else {
      EncodedSize(es[..|es| - 1], n);
      assert es[..|es| - 1][..n] == es[..n];
    }
  }

  // ---------- decoding ----------

  /** The entry at the start of `s` and its length. */
  function DecodeEntry(s: Text): (r: Option<(Entry, nat)>)
    ensures r.Some? ==> 4 <= r.value.1 <= |s|
  {
    if |s| < 2 then None
    else
      var keyLength := ReadBig(s[..2]);
      if |s| - 2 < keyLength + 1 then None
      else
        var key, start := s[2..2 + keyLength], 3 + keyLength;
        match DecodeItem(s[2 + keyLength] as int, s[start..])
        case None => None
        case Some((item, length)) => Some((Entry(key, item), start + length))
  }

  /** The value of the given type code at the start of `s` and its length. */
  function DecodeItem(code: nat, s: Text): (r: Option<(Item, nat)>)
    ensures r.Some? ==> 1 <= r.value.1 <= |s|
  {
    if code == 1 then
      if |s| < 4 then None
      else
        var length := ReadBig(s[..4]);
        if length > |s| - 4 then None else Some((StringItem(s[4..4 + length]), 4 + length))
    else if code == 2 then
      if |s| < 8 then None else Some((IntItem(Unwrap(ReadBig(s[..8]))), 8))
    else if code == 3 then
      if s == "" || s[0] as int > 1 then None else Some((BoolItem(s[0] as int != 0), 1))
    else None
  }

  /** What decoding finds: the entries read before it stopped, and whether it succeeded. */
  datatype Decoding = Decoding(entries: seq<Entry>, ok: bool)

  function DecodeEntries(s: Text, count: nat, found: seq<Entry>): Decoding
    decreases count
  {
    if count == 0 then Decoding(found, s == "")
    else
      match DecodeEntry(s)
      case None => Decoding(found, false)
      case Some((e, length)) => DecodeEntries(s[length..], count - 1, found + [e])
  }

  function Decode(blob: Text): Decoding {
    if |blob| < 3 || |blob| > SESSION_MAX_BYTES || blob[0] as int != 1 then Decoding([], false)
    else DecodeEntries(blob[3..], ReadBig(blob[1..3]), [])
  }

  // ---------- the round trip ----------

  /** Integers of a C program: they fit 64 bits. */
  predicate AllInt64(es: seq<Entry>) {
    forall e :: e in es && e.item.IntItem? ==> INT64_MIN <= e.item.i <= INT64_MAX
  }

  lemma {:induction false} DecodeStringBytes(text: Text, rest: Text)
    requires |text| < 0x1_0000_0000
    ensures DecodeItem(1, BigEndian(|text|, 4) + text + rest) == Some((StringItem(text), 4 + |text|))
  {
    hide BigEndian, ReadBig;
    Powers();
    ReadBigEndian(|text|, 4);
    var s := BigEndian(|text|, 4) + text + rest;
    assert s[..4] == BigEndian(|text|, 4) && s[4..4 + |text|] == text;
  }

  lemma {:induction false} DecodeIntBytes(i: int, rest: Text)
    requires INT64_MIN <= i <= INT64_MAX
    ensures DecodeItem(2, BigEndian(Wrap(i), 8) + rest) == Some((IntItem(i), 8))
  {
    hide BigEndian, ReadBig;
    Powers();
    ReadBigEndian(Wrap(i), 8);
    assert (BigEndian(Wrap(i), 8) + rest)[..8] == BigEndian(Wrap(i), 8);
    assert Unwrap(Wrap(i)) == i;
  }

  lemma {:induction false} DecodeItemBytes(item: Item, rest: Text)
    requires Encodable(item) && (item.IntItem? ==> INT64_MIN <= item.i <= INT64_MAX)
    requires item.StringItem? ==> |item.text| < 0x1_0000_0000
    ensures ItemBytes(item) != ""
    ensures DecodeItem(ItemBytes(item)[0] as int, ItemBytes(item)[1..] + rest) == Some((item, |ItemBytes(item)| - 1))
  {
    hide DecodeItem, BigEndian;
    match item
    case StringItem(text) =>
      DecodeStringBytes(text, rest);
      assert ItemBytes(item)[1..] == BigEndian(|text|, 4) + text;
    case IntItem(i) =>
      DecodeIntBytes(i, rest);
      assert ItemBytes(item)[1..] == BigEndian(Wrap(i), 8);
    case BoolItem(b) =>
      DecodeBoolBytes(b, rest);
      assert ItemBytes(item)[1..] == [if b then 1 as char else 0 as char];
  }

  lemma {:induction false} DecodeBoolBytes(b: bool, rest: Text)
    ensures DecodeItem(3, [if b then 1 as char else 0 as char] + rest) == Some((BoolItem(b), 1))
  {
  }

  lemma {:induction false} DecodeEntryBytes(e: Entry, rest: Text)
    requires Encodable(e.item) && (e.item.IntItem? ==> INT64_MIN <= e.item.i <= INT64_MAX)
    requires |e.key| < 0x1_0000 && (e.item.StringItem? ==> |e.item.text| < 0x1_0000_0000)
    ensures DecodeEntry(EntryBytes(e) + rest) == Some((e, |EntryBytes(e)|))
  {
    hide DecodeItem, ReadBig, BigEndian, ItemBytes;
    Powers();
    ReadBigEndian(|e.key|, 2);
    DecodeItemBytes(e.item, rest);
    var s, bytes, n := EntryBytes(e) + rest, ItemBytes(e.item), |e.key|;
    assert s == BigEndian(n, 2) + (e.key + (bytes + rest));
    assert s[..2] == BigEndian(n, 2) && s[2..2 + n] == e.key;
    assert s[2 + n] == bytes[0] && s[3 + n..] == bytes[1..] + rest;
  }

  /** Entries small enough to be encoded one by one. */
  predicate Fitting(e: Entry) {
    && Encodable(e.item) && |e.key| < 0x1_0000
    && (e.item.StringItem? ==> |e.item.text| < 0x1_0000_0000)
    && (e.item.IntItem? ==> INT64_MIN <= e.item.i <= INT64_MAX)
  }

  lemma {:induction false} DecodeEntriesBytes(es: seq<Entry>, n: nat)
    requires n <= |es| && forall e :: e in es ==> Fitting(e)
    ensures |EntriesBytes(es[..n])| <= |EntriesBytes(es)|
    ensures DecodeEntries(EntriesBytes(es)[|EntriesBytes(es[..n])|..], |es| - n, es[..n]) == Decoding(es, true)
    decreases |es| - n
  {
    hide DecodeEntry, EntryBytes;
    PrefixBytes(es, n);
    var done, all := EntriesBytes(es[..n]), EntriesBytes(es);
    if n == |es| {
      assert es[..n] == es;
    } else {
      var e := es[n];
      assert e in es && Fitting(e);
      assert es[..n + 1] == es[..n] + [e];
      EntriesBytesSnoc(es[..n], e);
      PrefixBytes(es, n + 1);
      var rest := all[|EntriesBytes(es[..n + 1])|..];
      assert all[|done|..] == EntryBytes(e) + rest;
      DecodeEntryBytes(e, rest);
      assert all[|done|..][|EntryBytes(e)|..] == rest;
      DecodeEntriesBytes(es, n + 1);
    }
  }

  lemma {:induction false} PrefixBytes(es: seq<Entry>, n: nat)
    requires n <= |es|
    ensures EntriesBytes(es[..n]) <= EntriesBytes(es)
    decreases |es|
  {
    hide EntryBytes;
    if n == |es| {
      assert es[..n] == es;
    } else {
      PrefixBytes(es[..|es| - 1], n);
      assert es[..|es| - 1][..n] == es[..n];
    }
  }

  /** Entries of a record within the limit are small. */
  lemma {:induction false} SerializableFits(es: seq<Entry>)
    requires Serializable(es) && AllInt64(es)
    ensures |es| < 0x1_0000 && forall e :: e in es ==> Fitting(e)
  {
    hide EntriesBytes, EntryBytes;
    EncodedSize(es, |es|);
    forall i | 0 <= i < |es|
      ensures Fitting(es[i])
    {
      EncodedSize(es, i + 1);
      assert es[..i + 1] == es[..i] + [es[i]];
      EntriesBytesSnoc(es[..i], es[i]);
      EntryBytesParts(es[i]);
      assert es[i] in es;
    }
  }

  /** Main result: whatever can be stored is read back entry for entry. */
  lemma {:induction false} DecodeEncode(es: seq<Entry>)
    requires Serializable(es) && AllInt64(es)
    ensures Decode(Encode(es)) == Decoding(es, true)
  {
    hide EntriesBytes, DecodeEntries, BigEndian, ReadBig, Fitting;
    SerializableFits(es);
    Powers();
    ReadBigEndian(|es|, 2);
    NoBytes(es);
    DecodeEntriesBytes(es, 0);
    var blob := Encode(es);
    assert blob[1..3] == BigEndian(|es|, 2) && blob[3..] == EntriesBytes(es);
    assert EntriesBytes(es)[0..] == EntriesBytes(es);
  }

  lemma {:induction false} NoBytes(es: seq<Entry>)
    ensures es[..0] == [] && EntriesBytes(es[..0]) == ""
  {
  }

  // ---------- what a record leaves ----------

  /** The record is cut off by its header, announces nothing, or has a broken first entry. */
  predicate LeavesNothing(blob: Text) {
    || |blob| < 3 || |blob| > SESSION_MAX_BYTES || blob[0] as int != 1
    || ReadBig(blob[1..3]) == 0
    || DecodeEntry(blob[3..]).None?
  }

  lemma {:induction false} DecodeKeeps(s: Text, count: nat, found: seq<Entry>)
    ensures found <= DecodeEntries(s, count, found).entries
    decreases count
  {
    hide DecodeEntry;
    if count > 0 && DecodeEntry(s).Some? {
      var (e, length) := DecodeEntry(s).value;
      DecodeKeeps(s[length..], count - 1, found + [e]);
      assert found <= found + [e];
    }
  }

  /** Main result: whether a record is accepted or not, it leaves no entry behind exactly when its
      header is bad, it announces none, or its first entry is broken. */
  lemma {:induction false} DecodedNothing(blob: Text)
    ensures Decode(blob).entries == [] <==> LeavesNothing(blob)
    ensures PutAll(map[], Decode(blob).entries) == map[] <==> LeavesNothing(blob)
  {
    hide DecodeEntry, ReadBig, PutAll;
    if |blob| >= 3 && |blob| <= SESSION_MAX_BYTES && blob[0] as int == 1 {
      var s, count := blob[3..], ReadBig(blob[1..3]);
      if count > 0 && DecodeEntry(s).Some? {
        var (e, length) := DecodeEntry(s).value;
        DecodeKeeps(s[length..], count - 1, [] + [e]);
      }
    }
    hide LeavesNothing, Decode;
    PutAllEmpty(Decode(blob).entries);
  }

  lemma {:induction false} PutAllEmpty(es: seq<Entry>)
    ensures PutAll(map[], es) == map[] <==> es == []
  {
    if es != [] {
      assert es[|es| - 1].key in PutAll(map[], es);
    }
  }

  // ---------- session_serialize and session_deserialize ----------

  /** What an entry cannot be written for. */
  predicate TooWide(e: Entry) {
    |e.key| > 0xFFFF || !Encodable(e.item) || (e.item.StringItem? && |e.item.text| > 0xFFFF_FFFF)
  }

  /** The loop body of session_serialize: appends one entry. */
  method WriteEntry(e: Entry, written: Text, mayRefuse: bool) returns (longer: Text, ok: bool, noMemory: bool)
    ensures noMemory ==> mayRefuse && !ok
    ensures ok ==> !TooWide(e) && longer == written + EntryBytes(e)
    ensures !ok && !noMemory ==> TooWide(e)
  {
    hide BigEndian, ItemBytes;
    longer, ok, noMemory := written, false, false;
    if |e.key| > 0xFFFF {
      return;
    }
    longer := longer + BigEndian(|e.key|, 2);
    longer := longer + e.key;
    if !Encodable(e.item) || (e.item.StringItem? && |e.item.text| > 0xFFFF_FFFF) {
      return;
    }
    longer := longer + ItemBytes(e.item);
    var granted: bool := *;
    noMemory := mayRefuse && !granted;
    ok := !noMemory;
    assert longer == written + (BigEndian(|e.key|, 2) + e.key + ItemBytes(e.item));
  }

  /** session_serialize. Appending to the output can fail for want of memory; apart from that it
      succeeds exactly for what is serializable, whatever the slot layout. */
  method Serialize(values: StringMap) returns (output: Option<Text>, noMemory: bool)
    requires values.Valid()
    ensures output.Some? ==>
              output.value == Encode(Entries(values.slots[..])) && Serializable(Entries(values.slots[..]))
    ensures output.None? && !noMemory ==> !Serializable(Entries(values.slots[..]))
    ensures noMemory ==> values.heap.mayRefuse
  {
    hide StringMap.Valid, EntriesBytes, EntryBytes, BigEndian, Entries, Encode, Serializable, TooWide;
    ghost var all := Entries(values.slots[..]);
    EntriesCount(values);
    var count := values.Length();
    output, noMemory := None, false;
    if count > 0xFFFF {
      TooManyEntries(all);
      return;
    }
    var written := [1 as char] + BigEndian(count, 2);
    var cursor: nat := 0;
    ghost var done: seq<Entry> := [];
    NoBytes(all);
    NoEntries(values.slots[..]);
    while true
      invariant cursor <= values.slots.Length && done == Entries(values.slots[..cursor])
      invariant Written(written, count, done)
      decreases values.slots.Length - cursor
    {
      var entry, advanced := NextEntry(values, cursor);
      if entry.None? {
        EncodingDone(done, written);
        return Some(written), false;
      }
      var e := entry.value;
      EntriesPrefix(values.slots[..], advanced);
      var longer, ok, refused := WriteEntry(e, written, values.heap.mayRefuse);
      if !ok {
        if !refused {
          EntryTooLarge(all, done, e);
        }
        return None, refused;
      }
      if |longer| > SESSION_MAX_BYTES {
        LongerTooLarge(all, written, count, done, e);
        return;
      }
      WrittenMore(written, count, done, e);
      written, cursor, done := longer, advanced, done + [e];
    }
  }

  /** The version, the count and the entries so far, within the limit. */
  predicate Written(written: Text, count: nat, done: seq<Entry>) {
    && written == [1 as char] + BigEndian(count, 2) + EntriesBytes(done)
    && |written| <= SESSION_MAX_BYTES
    && AllEncodable(done)
  }

  lemma {:induction false} WrittenMore(written: Text, count: nat, done: seq<Entry>, e: Entry)
    requires Written(written, count, done) && !TooWide(e)
    requires |written + EntryBytes(e)| <= SESSION_MAX_BYTES
    ensures Written(written + EntryBytes(e), count, done + [e])
  {
    hide EntriesBytes, EntryBytes, BigEndian;
    EntriesBytesSnoc(done, e);
    var head := [1 as char] + BigEndian(count, 2);
    assert head + EntriesBytes(done) + EntryBytes(e) == head + (EntriesBytes(done) + EntryBytes(e));
  }

  lemma {:induction false} LongerTooLarge(all: seq<Entry>, written: Text, count: nat, done: seq<Entry>, e: Entry)
    requires Written(written, count, done) && done + [e] <= all
    requires |written + EntryBytes(e)| > SESSION_MAX_BYTES
    ensures !Serializable(all)
  {
    hide EntriesBytes, EntryBytes, Serializable;
    EntriesBytesSnoc(done, e);
    PrefixTooLarge(all, done + [e]);
  }

  lemma {:induction false} EncodingDone(es: seq<Entry>, written: Text)
    requires Written(written, |es|, es)
    ensures written == Encode(es) && Serializable(es)
  {
  }

  lemma {:induction false} EntriesCount(values: StringMap)
    requires values.Valid()
    ensures |Entries(values.slots[..])| == |values.contents| && MapOf(Entries(values.slots[..])) == values.contents
  {
    GoodRoom(values.slots[..], values.hash, values.contents, values.length, values.tombstones);
    EntriesAreContents(values.slots[..], values.contents);
  }

  lemma {:induction false} NoEntries(t: Table)
    ensures Entries(t[..0]) == [] && EntriesBytes([]) == ""
  {
  }

  lemma {:induction false} EntriesPrefix(t: Table, n: nat)
    requires n <= |t|
    ensures Entries(t[..n]) <= Entries(t)
    decreases |t| - n
  {
    if n == |t| {
      assert t[..n] == t;
    } else {
      EntriesSnoc(t, n);
      EntriesPrefix(t, n + 1);
    }
  }

  lemma {:induction false} EntryBytesParts(e: Entry)
    ensures EntryBytes(e) == BigEndian(|e.key|, 2) + e.key + ItemBytes(e.item)
    ensures |EntryBytes(e)| >= |e.key| && (e.item.StringItem? ==> |EntryBytes(e)| >= |e.item.text|)
    ensures Encodable(e.item) ==> |EntryBytes(e)| >= 4
    ensures e.item.BoolItem? ==> |EntryBytes(e)| == 4 + |e.key|
  {
    hide BigEndian;
  }

  lemma {:induction false} TooManyEntries(all: seq<Entry>)
    requires |all| > 0xFFFF
    ensures !Serializable(all)
  {
    if AllEncodable(all) {
      EncodedSize(all, 0);
    }
  }

  lemma {:induction false} PrefixTooLarge(all: seq<Entry>, part: seq<Entry>)
    requires part <= all && |EntriesBytes(part)| + 3 > SESSION_MAX_BYTES
    ensures !Serializable(all)
  {
    if AllEncodable(all) {
      EncodedSize(all, |part|);
      assert all[..|part|] == part;
    }
  }

  lemma {:induction false} EntryTooLarge(all: seq<Entry>, done: seq<Entry>, e: Entry)
    requires done + [e] <= all && TooWide(e)
    ensures !Serializable(all)
  {
    hide EntriesBytes, EntryBytes;
    EntryBytesParts(e);
    EntriesBytesSnoc(done, e);
    assert all[|done|] == e;
    if Encodable(e.item) {
      PrefixTooLarge(all, done + [e]);
    }
  }

  /** session_deserialize into `values`. Unless memory runs out, it succeeds exactly for records
      that decode, and in either case the entries it has decoded are in the map. */
  method Deserialize(values: StringMap, blob: Text) returns (ok: bool)
    requires values.Valid()
    modifies values, values.slots, values.heap
    ensures values.Valid() && values.Outside() == old(values.Outside())
    ensures (values.slots == old(values.slots) || fresh(values.slots))
    ensures values.slots.Length >= old(values.slots.Length)
    ensures old(values.heap.failed) ==> values.heap.failed
    ensures (var starved := values.heap.failed || values.slots.Length * 2 > SIZE_MAX / SLOT_SIZE;
             && (ok ==> Decode(blob).ok)
             && (ok || !starved ==>
                   ok == Decode(blob).ok && values.contents == PutAll(old(values.contents), Decode(blob).entries))
             && (!starved && old(values.contents) == map[] ==> (values.contents == map[] <==> LeavesNothing(blob))))
  {
    hide StringMap.Valid, StringMap.Outside, DecodeEntry, DecodeEntries, ReadBig, PutAll, LeavesNothing;
    DecodedNothing(blob);
    PutNothing(values.contents);
    if |blob| == 0 || |blob| > SESSION_MAX_BYTES || blob[0] as int != 1 || |blob| < 3 {
      return false;
    }
    var count := ReadBig(blob[1..3]);
    var offset := 3;
    ghost var found: seq<Entry> := [];
    for index := 0 to count
      invariant 3 <= offset <= |blob|
      invariant values.Valid()
      invariant (values.slots == old(values.slots) || fresh(values.slots))
      invariant values.slots.Length >= old(values.slots.Length)
      invariant values.Outside() == old(values.Outside()) && (old(values.heap.failed) ==> values.heap.failed)
      invariant values.contents == PutAll(old(values.contents), found)
      invariant Decode(blob) == DecodeEntries(blob[offset..], count - index, found)
    {
      DecodeStep(blob[offset..], count - index, found);
      var read := DecodeEntry(blob[offset..]);
      if read.None? {
        return false;
      }
      var (e, length) := read.value;
      PutAllSnoc(old(values.contents), found, e);
      var stored: bool;
      if e.item.StringItem? {
        stored := values.SetString(e.key, e.item.text);
      } else {
        DecodedScalar(blob[offset..]);
        stored := values.SetScalar(e.key, e.item);
      }
      if !stored {
        return false;
      }
      assert blob[offset..][length..] == blob[offset + length..];
      offset := offset + length;
      found := found + [e];
    }
    DecodeEnd(blob[offset..], found);
    return offset == |blob|;
  }

  lemma {:induction false} PutNothing(m: map<Text, Item>)
    ensures PutAll(m, []) == m
  {
  }

  lemma {:induction false} DecodeStep(s: Text, count: nat, found: seq<Entry>)
    requires count > 0
    ensures DecodeEntry(s).None? ==> DecodeEntries(s, count, found) == Decoding(found, false)
    ensures DecodeEntry(s).Some? ==> (
              DecodeEntries(s, count, found)
           == DecodeEntries(s[DecodeEntry(s).value.1..], count - 1, found + [DecodeEntry(s).value.0]))
  {
  }

  lemma {:induction false} DecodeEnd(s: Text, found: seq<Entry>)
    ensures DecodeEntries(s, 0, found) == Decoding(found, s == "")
  {
  }

  lemma {:induction false} DecodedScalar(s: Text)
    requires DecodeEntry(s).Some?
    ensures Encodable(DecodeEntry(s).value.0.item)
  {
  }

  // ---------- what the records say about the map ----------

  /** For every slot layout of a map, its record decodes to the same map. */
  lemma {:induction false} RecordReadsBack(t: Table, m: map<Text, Item>)
    requires Represents(t, m) && KeysUnique(t) && Serializable(Entries(t)) && AllInt64(Entries(t))
    ensures Decode(Encode(Entries(t))).ok && PutAll(map[], Decode(Encode(Entries(t))).entries) == m
  {
    hide Decode, Encode, Entries, PutAll, Represents, KeysUnique, Serializable, AllInt64;
    DecodeEncode(Entries(t));
    EntriesAreContents(t, m);
  }

  /** A record can be rejected after some of its entries were read, and those stay in the map: a
      record that announces two entries and holds one. */
  lemma {:induction false} RejectedRecordKeepsEntries()
    ensures var blob := [1 as char, 0 as char, 2 as char] + EntryBytes(Entry("a", BoolItem(true)));
            Decode(blob) == Decoding([Entry("a", BoolItem(true))], false)
  {
    hide DecodeEntry, EntryBytes, ReadBig, BigEndian;
    var e := Entry("a", BoolItem(true));
    var blob := [1 as char, 0 as char, 2 as char] + EntryBytes(e);
    EntryBytesParts(e);
    TwoBytes();
    assert blob[1..3] == [0 as char, 2 as char] && blob[3..] == EntryBytes(e);
    DecodeEntryBytes(e, "");
    assert EntryBytes(e) + "" == EntryBytes(e);
    assert EntryBytes(e)[|EntryBytes(e)|..] == "" && [] + [e] == [e];
    DecodeStep(EntryBytes(e), 2, []);
    DecodeStep("", 1, [e]);
    NothingToDecode();
    assert |EntryBytes(e)| == 5;
  }

  lemma {:induction false} TwoBytes()
    ensures ReadBig([0 as char, 2 as char]) == 2
  {
    assert [0 as char, 2 as char][..1] == [0 as char] && [0 as char][..0] == "";
    assert ReadBig([0 as char]) == 0;
  }

  lemma {:induction false} NothingToDecode()
    ensures DecodeEntry("") == None
  {
  }
}
