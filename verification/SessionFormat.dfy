/** The record format of a session byte by byte, and which byte strings are records at all. */
module SessionFormat {
  import opened Texts
  import opened Numbers
  import opened SlotTables
  import opened MapRuns
  import opened SessionCodec

  // ---------- the layout ----------

  /** Byte `k` of a number, counted from the least significant one. */
  function ByteOf(v: nat, k: nat): char
    decreases k
  {
    if k == 0 then (v % 256) as char else ByteOf(v / 256, k - 1)
  }

  lemma {:induction false} BigEndianBytes(v: nat, n: nat, k: nat)
    requires k < n
    ensures BigEndian(v, n)[k] == ByteOf(v, n - 1 - k)
    decreases n
  {
    if k < n - 1 {
      BigEndianBytes(v / 256, n - 1, k);
    }
  }

  /** A length in two bytes, in four, and the eight bytes of an integer in two's complement. */
  function TwoBytesOf(v: nat): Text {
    [ByteOf(v, 1), ByteOf(v, 0)]
  }

  function FourBytesOf(v: nat): Text {
    [ByteOf(v, 3), ByteOf(v, 2), ByteOf(v, 1), ByteOf(v, 0)]
  }

  function EightBytesOf(i: int): Text
    requires INT64_MIN <= i <= INT64_MAX
  {
    var u := if i < 0 then i + 0x1_0000_0000_0000_0000 else i;
    [ByteOf(u, 7), ByteOf(u, 6), ByteOf(u, 5), ByteOf(u, 4), ByteOf(u, 3), ByteOf(u, 2), ByteOf(u, 1), ByteOf(u, 0)]
  }

  lemma {:induction false} TwoBytesAre(v: nat)
    ensures BigEndian(v, 2) == TwoBytesOf(v)
  {
    hide BigEndian, ByteOf;
    BigEndianBytes(v, 2, 0);
    BigEndianBytes(v, 2, 1);
  }

  lemma {:induction false} FourBytesAre(v: nat)
    ensures BigEndian(v, 4) == FourBytesOf(v)
  {
    hide BigEndian, ByteOf;
    BigEndianBytes(v, 4, 0);
    BigEndianBytes(v, 4, 1);
    BigEndianBytes(v, 4, 2);
    BigEndianBytes(v, 4, 3);
  }

  lemma {:induction false} EightBytesAre(i: int)
    requires INT64_MIN <= i <= INT64_MAX
    ensures BigEndian(Wrap(i), 8) == EightBytesOf(i)
  {
    hide BigEndian, ByteOf;
    var u := Wrap(i);
    assert u == if i < 0 then i + 0x1_0000_0000_0000_0000 else i;
    forall k | 0 <= k < 8
      ensures BigEndian(u, 8)[k] == EightBytesOf(i)[k]
    {
      BigEndianBytes(u, 8, k);
    }
  }

  /** How an entry is laid out: the key behind its length, a type byte, the value. */
  function Laid(key: Text, item: Item): Text
    requires Encodable(item) && (item.IntItem? ==> INT64_MIN <= item.i <= INT64_MAX)
  {
    TwoBytesOf(|key|) + key +
    match item
    case StringItem(text) => [1 as char] + FourBytesOf(|text|) + text
    case IntItem(i) => [2 as char] + EightBytesOf(i)
    case BoolItem(b) => [3 as char, if b then 1 as char else 0 as char]
  }

  function LaidAll(es: seq<Entry>): Text
    requires AllEncodable(es) && AllInt64(es)
  {
    if es == [] then "" else LaidAll(es[..|es| - 1]) + Laid(es[|es| - 1].key, es[|es| - 1].item)
  }

  lemma {:induction false} EntryIsLaid(e: Entry)
    requires Encodable(e.item) && (e.item.IntItem? ==> INT64_MIN <= e.item.i <= INT64_MAX)
    ensures EntryBytes(e) == Laid(e.key, e.item)
  {
    hide BigEndian, TwoBytesOf, FourBytesOf, EightBytesOf;
    TwoBytesAre(|e.key|);
    match e.item
    case StringItem(text) => FourBytesAre(|text|);
    case IntItem(i) => EightBytesAre(i);
    case BoolItem(_) =>
  }

  /** Main result: a record is the version byte 1, the number of entries in two bytes, and the
      entries one behind the other. */
  lemma {:induction false} RecordLayout(es: seq<Entry>)
    requires AllEncodable(es) && AllInt64(es)
    ensures Encode(es) == [1 as char] + TwoBytesOf(|es|) + LaidAll(es)
  {
    hide BigEndian, TwoBytesOf, EntriesBytes, LaidAll;
    TwoBytesAre(|es|);
    EntriesAreLaid(es);
  }

  lemma {:induction false} EntriesAreLaid(es: seq<Entry>)
    requires AllEncodable(es) && AllInt64(es)
    ensures EntriesBytes(es) == LaidAll(es)
  {
    hide EntryBytes, Laid;
    if es != [] {
      EntriesAreLaid(es[..|es| - 1]);
      assert es[|es| - 1] in es;
      EntryIsLaid(es[|es| - 1]);
    }
  }

  // ---------- what is a record ----------

  predicate Bytes(s: Text) {
    forall i :: 0 <= i < |s| ==> (s[i] as int) < 256
  }

  lemma {:induction false} BigEndianOfRead(s: Text)
    requires Bytes(s)
    ensures BigEndian(ReadBig(s), |s|) == s && ReadBig(s) < Pow256(|s|)
  {
    if s != "" {
      BigEndianOfRead(s[..|s| - 1]);
      assert s == s[..|s| - 1] + [s[|s| - 1]];
    } else {
      assert Pow256(0) == 1;
    }
  }

  lemma {:induction false} DecodedItem(code: nat, s: Text)
    requires Bytes(s) && DecodeItem(code, s).Some? && code < 256
    ensures (var (item, n) := DecodeItem(code, s).value;
             && Encodable(item) && (item.IntItem? ==> INT64_MIN <= item.i <= INT64_MAX)
             && ItemBytes(item) == [code as char] + s[..n])
  {
    hide BigEndian, ReadBig, Wrap, Unwrap;
    if code == 1 {
      DecodedLength(s);
      var n := ReadBig(s[..4]);
      assert s[..4 + n] == s[..4] + s[4..4 + n];
    } else if code == 2 {
      DecodedInteger(s);
    } else {
      assert s[..1] == [s[0]];
    }
  }

  lemma {:induction false} DecodedLength(s: Text)
    requires Bytes(s) && |s| >= 4
    ensures BigEndian(ReadBig(s[..4]), 4) == s[..4]
  {
    hide BigEndian, ReadBig;
    BigEndianOfRead(s[..4]);
  }

  lemma {:induction false} DecodedInteger(s: Text)
    requires Bytes(s) && |s| >= 8
    ensures (var i := Unwrap(ReadBig(s[..8])); INT64_MIN <= i <= INT64_MAX && BigEndian(Wrap(i), 8) == s[..8])
  {
    hide BigEndian, ReadBig;
    Powers();
    BigEndianOfRead(s[..8]);
    var u := ReadBig(s[..8]);
    assert Wrap(Unwrap(u)) == u;
  }

  lemma {:induction false} DecodedEntry(s: Text)
    requires Bytes(s) && DecodeEntry(s).Some?
    ensures (var (e, n) := DecodeEntry(s).value;
             && Encodable(e.item) && (e.item.IntItem? ==> INT64_MIN <= e.item.i <= INT64_MAX)
             && EntryBytes(e) == s[..n])
  {
    hide BigEndian, ReadBig, DecodeItem, ItemBytes;
    var n := ReadBig(s[..2]);
    var rest := s[3 + n..];
    BigEndianOfRead(s[..2]);
    DecodedItem(s[2 + n] as int, rest);
    var m := DecodeItem(s[2 + n] as int, rest).value.1;
    assert s[..3 + n + m] == s[..2] + s[2..2 + n] + ([s[2 + n]] + rest[..m]);
  }

  lemma {:induction false} DecodedEntries(s: Text, count: nat, found: seq<Entry>)
    requires Bytes(s) && DecodeEntries(s, count, found).ok && AllEncodable(found) && AllInt64(found)
    ensures (var all := DecodeEntries(s, count, found).entries;
             && |all| == |found| + count && AllEncodable(all) && AllInt64(all)
             && EntriesBytes(all) == EntriesBytes(found) + s)
    decreases count
  {
    hide DecodeEntry, EntriesBytes, EntryBytes;
    if count == 0 {
      assert EntriesBytes(found) + "" == EntriesBytes(found);
    } else {
      var (e, n) := DecodeEntry(s).value;
      DecodedEntry(s);
      EntriesBytesSnoc(found, e);
      DecodedEntries(s[n..], count - 1, found + [e]);
      assert EntriesBytes(found) + s[..n] + s[n..] == EntriesBytes(found) + s;
    }
  }

  /** Main result: the decoder accepts exactly the encodings of entries that can be stored: no byte
      too many or too few, no other version or type, no truth value but 0 and 1. */
  lemma {:induction false} AcceptedIsEncoding(blob: Text)
    requires Bytes(blob)
    ensures Decode(blob).ok
       <==> exists es :: Serializable(es) && AllInt64(es) && blob == Encode(es)
    ensures Decode(blob).ok ==> blob == Encode(Decode(blob).entries)
  {
    hide DecodeEntries, EntriesBytes, ReadBig, BigEndian;
    if Decode(blob).ok {
      var es := Decode(blob).entries;
      Powers();
      BigEndianOfRead(blob[1..3]);
      NoBytes([]);
      DecodedEntries(blob[3..], ReadBig(blob[1..3]), []);
      assert blob == [blob[0]] + blob[1..3] + blob[3..];
      assert EntriesBytes([]) + blob[3..] == blob[3..];
      assert blob == Encode(es) && Serializable(es);
    }
    hide Decode, Encode, Serializable;
    forall es | Serializable(es) && AllInt64(es) && blob == Encode(es)
      ensures Decode(blob).ok
    {
      DecodeEncode(es);
    }
  }

  /** The largest record has 16384 bytes. */
  lemma {:induction false} LargestRecord(es: seq<Entry>)
    ensures Serializable(es) <==> AllEncodable(es) && |Encode(es)| <= 16384
  {
  }
}
