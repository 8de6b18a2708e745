/** Encoding values, sharing them by pointers, and what the decoder makes of both. */
module DataEncoding {
  import opened Wrappers
  import opened Bits
  import opened ByteStrings
  import opened Utf8
  import opened Values
  import opened DataDecoder
  import opened DataFormat

  // ---------- sharing ----------

  /** The layout with every pointer replaced by what it points to. */
  function Unshare(f: Field): Field
  {
    match f
    case Array(items) => Array(UnshareItems(items))
    case Map(pairs, extended) => Map(UnsharePairs(pairs), extended)
    case Pointer(_, _, _, to) => Unshare(to)
    case _ => f
  }

  function UnshareItems(fs: Fields): Fields
  {
    if fs.NoFields? then NoFields else Then(Unshare(fs.first), UnshareItems(fs.rest))
  }

  function UnsharePairs(ps: Pairs): Pairs
  {
    if ps.NoPairs? then NoPairs else Pair(Unshare(ps.key), Unshare(ps.value), UnsharePairs(ps.rest))
  }

  lemma {:induction false} UnshareKeepsMeaning(f: Field)
    ensures Meaning(Unshare(f)) == Meaning(f)
  {
    match f
    case Array(items) => UnshareItemsKeepsMeaning(items);
    case Map(pairs, _) => UnsharePairsKeepsMeaning(pairs, []);
    case Pointer(_, _, _, to) => UnshareKeepsMeaning(to);
    case _ =>
  }

  lemma {:induction false} UnshareItemsKeepsMeaning(fs: Fields)
    ensures MeaningItems(UnshareItems(fs)) == MeaningItems(fs)
  {
    if fs.Then? {
      UnshareKeepsMeaning(fs.first);
      UnshareItemsKeepsMeaning(fs.rest);
    }
  }

  lemma {:induction false} UnsharePairsKeepsMeaning(ps: Pairs, acc: seq<Entry>)
    ensures MeaningPairs(UnsharePairs(ps), acc) == MeaningPairs(ps, acc)
    decreases ps
  {
    if ps.Pair? {
      UnshareKeepsMeaning(ps.key);
      UnshareKeepsMeaning(ps.value);
      UnsharePairsKeepsMeaning(ps.rest, Put(acc, Meaning(ps.key), Meaning(ps.value)));
    }
  }

  /** Sharing is transparent. Two layouts that differ only in which parts - values or map keys, at any
      depth - are given in place and which by a pointer decode to the same value, wherever they lie and
      whatever else the buffers hold; and each returns the offset behind its own bytes. */
  lemma SharingIsTransparent(
      buf: bytes, base: nat, d: nat, off: nat, f: Field,
      buf': bytes, base': nat, d': nat, off': nat, f': Field)
    requires Readable(f) && Laid(buf, base, off, f) && Nesting(f) <= d
    requires Readable(f') && Laid(buf', base', off', f') && Nesting(f') <= d'
    requires Unshare(f) == Unshare(f')
    ensures Decode(buf, base, d, off).Ok? && Decode(buf', base', d', off').Ok?
    ensures Decode(buf, base, d, off).value == Decode(buf', base', d', off').value
    ensures Decode(buf, base, d, off).next == off + Extent(f)
    ensures Decode(buf', base', d', off').next == off' + Extent(f')
  {
    UnshareKeepsMeaning(f);
    UnshareKeepsMeaning(f');
    LayoutIsDecoded(buf, base, d, off, f);
    LayoutIsDecoded(buf', base', d', off', f');
  }

  // ---------- integers ----------

  /** The shortest big-endian form. */
  function MinBytes(n: nat): bytes
  {
    if n == 0 then [] else MinBytes(n / 256) + [n % 256]
  }

  lemma {:induction false} MinBytesValue(n: nat)
    ensures BigEndian(MinBytes(n)) == n
  {
    if n > 0 {
      MinBytesValue(n / 256);
    }
  }

  /** It has at most `k` bytes exactly when the number fits in `k` bytes. */
  lemma {:induction false} MinBytesLength(n: nat, k: nat)
    ensures |MinBytes(n)| <= k <==> n < Pow2(8 * k)
    decreases k
  {
    if n > 0 && k > 0 {
      MinBytesLength(n / 256, k - 1);
      Pow2Add(8, 8 * (k - 1));
      Pow2Facts();
      assert Pow2(8 * k) == 256 * Pow2(8 * (k - 1));
    }
  }

  /** An int32 in its shortest form: four bytes of two's complement when negative. */
  function Int32Payload(n: int): bytes
    requires -0x8000_0000 <= n < 0x8000_0000
  {
    if n < 0 then ToBytes(n + 0x1_0000_0000, 4) else MinBytes(n)
  }

  lemma Int32RoundTrip(n: int)
    requires -0x8000_0000 <= n < 0x8000_0000
    ensures |Int32Payload(n)| <= 4
    ensures DecodeInt32(Int32Payload(n), |Int32Payload(n)|) == Success(n)
    ensures Meaning(Scalar(INT32, |Int32Payload(n)|, Int32Payload(n))) == Int(n)
  {
    Pow2Facts();
    if n < 0 {
      BigEndianToBytes(n + 0x1_0000_0000, 4);
    } else {
      MinBytesValue(n);
      MinBytesLength(n, 4);
      if |MinBytes(n)| < 4 {
        PadIsZeros(MinBytes(n));
      }
    }
  }

  // ---------- the encoder ----------

  predicate DistinctKeys(d: seq<Entry>)
  {
    forall i, j | 0 <= i < j < |d| :: !SameKey(d[i].key, d[j].key)
  }

  /** The values the format can hold. */
  predicate Encodable(v: Value)
  {
    match v
    case Text(s) => |s| <= MAX_SIZE && ValidUtf8(s)
    case Blob(s) => |s| <= MAX_SIZE
    case ByteArray(_) => false
    case Double(raw) => |raw| == 8
    case Float(raw) => |raw| == 4
    case Int(n) => -0x8000_0000 <= n < Pow2(128)
    case Bool(_) => true
    case Arr(items) => |items| <= MAX_SIZE && forall x | x in items :: Encodable(x)
    case Dict(entries) => |entries| <= MAX_SIZE && DistinctKeys(entries) && forall e | e in entries :: EncodableEntry(e)
  }

  predicate EncodableEntry(e: Entry)
  {
    Hashable(e.key) && Encodable(e.key) && Encodable(e.value)
  }

  /** The smallest unsigned type that holds an integer, or int32 when it is negative. */
  function IntKind(n: int): nat
    requires -0x8000_0000 <= n
  {
    if n < 0 then INT32
    else
      var width := |MinBytes(n)|;
      if width <= 2 then UINT16 else if width <= 4 then UINT32 else if width <= 8 then UINT64 else UINT128
  }

  function IntPayload(n: int): bytes
    requires -0x8000_0000 <= n
  {
    if n < 0 then Int32Payload(n) else MinBytes(n)
  }

  function EncodeScalar(kind: nat, payload: bytes): bytes
  {
    HeadBytes(kind, |payload|, kind > 7) + payload
  }

  /** The bytes of a value, without any pointer. */
  function Encode(v: Value): bytes
    requires Encodable(v)
  {
    match v
    case Text(s) => EncodeScalar(TEXT, s)
    case Blob(s) => EncodeScalar(BLOB, s)
    case Double(raw) => EncodeScalar(DOUBLE, raw)
    case Float(raw) => EncodeScalar(FLOAT, raw)
    case Int(n) => EncodeScalar(IntKind(n), IntPayload(n))
    case Bool(b) => HeadBytes(BOOLEAN, Bit(b), true)
    case Arr(items) => HeadBytes(ARRAY, |items|, true) + EncodeItems(items)
    case Dict(entries) => HeadBytes(MAP, |entries|, false) + EncodeEntries(entries)
  }

  function EncodeItems(items: seq<Value>): bytes
    requires forall x | x in items :: Encodable(x)
  {
    if |items| == 0 then [] else Encode(items[0]) + EncodeItems(items[1..])
  }

  function EncodeEntry(e: Entry): bytes
    requires EncodableEntry(e)
  {
    Encode(e.key) + Encode(e.value)
  }

  function EncodeEntries(entries: seq<Entry>): bytes
    requires forall e | e in entries :: EncodableEntry(e)
  {
    if |entries| == 0 then []
    else EncodeEntry(entries[0]) + EncodeEntries(entries[1..])
  }

  // ---------- the layout that the encoder writes ----------

  function PlainScalar(kind: nat, payload: bytes): Field { Scalar(kind, |payload|, payload) }

  /** The layout of a value without any pointer. */
  function Plain(v: Value): Field
    requires Encodable(v)
  {
    match v
    case Text(s) => PlainScalar(TEXT, s)
    case Blob(s) => PlainScalar(BLOB, s)
    case Double(raw) => PlainScalar(DOUBLE, raw)
    case Float(raw) => PlainScalar(FLOAT, raw)
    case Int(n) => PlainScalar(IntKind(n), IntPayload(n))
    case Bool(b) => Boolean(Bit(b))
    case Arr(items) => Array(PlainItems(items))
    case Dict(entries) => Map(PlainPairs(entries), false)
  }

  function PlainItems(items: seq<Value>): Fields
    requires forall x | x in items :: Encodable(x)
  {
    if |items| == 0 then NoFields else Then(Plain(items[0]), PlainItems(items[1..]))
  }

  function PlainKey(e: Entry): Field
    requires EncodableEntry(e)
  {
    Plain(e.key)
  }

  function PlainValue(e: Entry): Field
    requires EncodableEntry(e)
  {
    Plain(e.value)
  }

  function PlainPairs(entries: seq<Entry>): Pairs
    requires forall e | e in entries :: EncodableEntry(e)
  {
    if |entries| == 0 then NoPairs
    else Pair(PlainKey(entries[0]), PlainValue(entries[0]), PlainPairs(entries[1..]))
  }

  predicate IsWritten(buf: bytes, base: nat, off: nat, f: Field, v: Value, size: nat)
  {
    Readable(f) && Laid(buf, base, off, f) && Meaning(f) == v && Nesting(f) == 0 && Extent(f) == size
  }

  predicate ItemsWritten(buf: bytes, base: nat, off: nat, fs: Fields, vs: seq<Value>, size: nat)
  {
    && ReadableItems(fs) && LaidItems(buf, base, off, fs) && MeaningItems(fs) == vs && NestingItems(fs) == 0
    && ExtentItems(fs) == size && Length(fs) == |vs|
  }

  predicate EntriesWritten(buf: bytes, base: nat, off: nat, ps: Pairs, acc: seq<Entry>, es: seq<Entry>, size: nat)
  {
    && ReadablePairs(ps) && LaidPairs(buf, base, off, ps) && MeaningPairs(ps, acc) == acc + es && NestingPairs(ps) == 0
    && ExtentPairs(ps) == size && PairCount(ps) == |es|
  }

  lemma ScalarIsLaid(buf: bytes, base: nat, off: nat, kind: nat, payload: bytes)
    requires ReadableScalar(kind, |payload|, payload) && At(buf, off, EncodeScalar(kind, payload))
    ensures IsWritten(buf, base, off, PlainScalar(kind, payload), ScalarMeaning(kind, payload),
                      |EncodeScalar(kind, payload)|)
  {
    hide HeadBytes, At, ReadableScalar, ScalarMeaning;
    var head := HeadBytes(kind, |payload|, kind > 7);
    AtConcat(buf, off, head, payload);
    AtSlice(buf, off + |head|, payload);
  }

  lemma IntIsReadable(n: int)
    requires -0x8000_0000 <= n < Pow2(128)
    ensures ReadableScalar(IntKind(n), |IntPayload(n)|, IntPayload(n))
    ensures ScalarMeaning(IntKind(n), IntPayload(n)) == Int(n)
  {
    hide BigEndian, MinBytes, ToBytes, DecodeInt32, Pow2;
    if n < 0 {
      Int32RoundTrip(n);
    } else {
      MinBytesValue(n);
      MinBytesLength(n, 16);
    }
  }

  lemma IntIsLaid(buf: bytes, base: nat, off: nat, n: int)
    requires -0x8000_0000 <= n < Pow2(128) && At(buf, off, EncodeScalar(IntKind(n), IntPayload(n)))
    ensures IsWritten(buf, base, off, PlainScalar(IntKind(n), IntPayload(n)), Int(n),
                      |EncodeScalar(IntKind(n), IntPayload(n))|)
  {
    hide At, EncodeScalar, IsWritten, ReadableScalar, ScalarMeaning, IntKind, IntPayload, Pow2;
    IntIsReadable(n);
    ScalarIsLaid(buf, base, off, IntKind(n), IntPayload(n));
  }

  lemma BoolIsLaid(buf: bytes, base: nat, off: nat, b: bool)
    requires At(buf, off, HeadBytes(BOOLEAN, Bit(b), true))
    ensures IsWritten(buf, base, off, Boolean(Bit(b)), Bool(b), |HeadBytes(BOOLEAN, Bit(b), true)|)
  {
    hide HeadBytes, At;
  }

  /** Wherever a value is written, its layout without pointers is there. */
  lemma {:induction false} EncodedIsLaid(buf: bytes, base: nat, off: nat, v: Value)
    requires Encodable(v) && At(buf, off, Encode(v))
    ensures IsWritten(buf, base, off, Plain(v), v, |Encode(v)|)
    decreases v, 1
  {
    hide At, Encode, Plain, IsWritten;
    if v.Arr? {
      EncodedArrayIsLaid(buf, base, off, v);
    } else if v.Dict? {
      EncodedMapIsLaid(buf, base, off, v);
    } else {
      LeafIsLaid(buf, base, off, v);
    }
  }

  lemma {:induction false} EncodedArrayIsLaid(buf: bytes, base: nat, off: nat, v: Value)
    requires Encodable(v) && At(buf, off, Encode(v)) && v.Arr?
    ensures IsWritten(buf, base, off, Plain(v), v, |Encode(v)|)
    decreases v, 0
  {
    hide At, HeadBytes, IsWritten, ItemsWritten, EncodeItems, PlainItems;
    var items := v.items;
    var head := HeadBytes(ARRAY, |items|, true);
    AtConcat(buf, off, head, EncodeItems(items));
    EncodedItemsAreLaid(buf, base, off + |head|, items);
    WrittenArray(buf, base, off, PlainItems(items), items, |EncodeItems(items)|);
  }

  lemma {:induction false} EncodedMapIsLaid(buf: bytes, base: nat, off: nat, v: Value)
    requires Encodable(v) && At(buf, off, Encode(v)) && v.Dict?
    ensures IsWritten(buf, base, off, Plain(v), v, |Encode(v)|)
    decreases v, 0
  {
    hide At, HeadBytes, IsWritten, EntriesWritten, EncodeEntries, PlainPairs, EncodableEntry, DistinctKeys;
    var entries := v.entries;
    var head := HeadBytes(MAP, |entries|, false);
    AtConcat(buf, off, head, EncodeEntries(entries));
    assert [] + entries == entries;
    EncodedEntriesAreLaid(buf, base, off + |head|, entries, []);
    WrittenMap(buf, base, off, PlainPairs(entries), entries, |EncodeEntries(entries)|);
  }

  lemma LeafIsLaid(buf: bytes, base: nat, off: nat, v: Value)
    requires Encodable(v) && At(buf, off, Encode(v)) && !v.Arr? && !v.Dict?
    ensures IsWritten(buf, base, off, Plain(v), v, |Encode(v)|)
  {
    hide At, EncodeScalar, PlainScalar, HeadBytes, IsWritten, IntKind, IntPayload;
    match v
    case Text(s) => ScalarIsLaid(buf, base, off, TEXT, s);
    case Blob(s) => ScalarIsLaid(buf, base, off, BLOB, s);
    case Double(raw) => ScalarIsLaid(buf, base, off, DOUBLE, raw);
    case Float(raw) => ScalarIsLaid(buf, base, off, FLOAT, raw);
    case Int(n) => IntIsLaid(buf, base, off, n);
    case Bool(b) => BoolIsLaid(buf, base, off, b);
  }

  lemma WrittenArray(buf: bytes, base: nat, off: nat, fs: Fields, vs: seq<Value>, size: nat)
    requires var head := HeadBytes(ARRAY, |vs|, true);
             At(buf, off, head) && ItemsWritten(buf, base, off + |head|, fs, vs, size)
    requires |vs| <= MAX_SIZE
    ensures IsWritten(buf, base, off, Array(fs), Arr(vs), |HeadBytes(ARRAY, |vs|, true)| + size)
  {
    hide HeadBytes, At, Laid, Readable, Meaning, Nesting, Extent;
    ArrayParts(buf, base, off, fs);
  }

  lemma WrittenMap(buf: bytes, base: nat, off: nat, ps: Pairs, es: seq<Entry>, size: nat)
    requires var head := HeadBytes(MAP, |es|, false);
             At(buf, off, head) && EntriesWritten(buf, base, off + |head|, ps, [], es, size)
    requires |es| <= MAX_SIZE
    ensures IsWritten(buf, base, off, Map(ps, false), Dict(es), |HeadBytes(MAP, |es|, false)| + size)
  {
    hide HeadBytes, At, Laid, Readable, Meaning, Nesting, Extent;
    MapParts(buf, base, off, ps, false);
    assert [] + es == es;
  }

  lemma {:induction false} EncodedItemsAreLaid(buf: bytes, base: nat, off: nat, items: seq<Value>)
    requires (forall x | x in items :: Encodable(x)) && At(buf, off, EncodeItems(items))
    ensures ItemsWritten(buf, base, off, PlainItems(items), items, |EncodeItems(items)|)
    decreases items, 0
  {
    hide At, Encode, Encodable, Plain, Laid, LaidItems, Readable, ReadableItems, Meaning, MeaningItems, Nesting,
      NestingItems, Extent, ExtentItems;
    if |items| == 0 {
      NoItems(buf, base, off);
    } else {
      var x, xs := Encode(items[0]), EncodeItems(items[1..]);
      AtConcat(buf, off, x, xs);
      EncodedIsLaid(buf, base, off, items[0]);
      EncodedItemsAreLaid(buf, base, off + |x|, items[1..]);
      ItemsParts(buf, base, off, Plain(items[0]), PlainItems(items[1..]));
      assert items == [items[0]] + items[1..];
    }
  }

  lemma {:induction false} EncodedEntryIsLaid(buf: bytes, base: nat, off: nat, e: Entry)
    requires EncodableEntry(e) && At(buf, off, EncodeEntry(e))
    ensures IsWritten(buf, base, off, PlainKey(e), e.key, |Encode(e.key)|)
    ensures IsWritten(buf, base, off + |Encode(e.key)|, PlainValue(e), e.value, |Encode(e.value)|)
    decreases e, 0
  {
    hide At, Encode, Encodable, Plain, IsWritten;
    AtConcat(buf, off, Encode(e.key), Encode(e.value));
    EncodedIsLaid(buf, base, off, e.key);
    EncodedIsLaid(buf, base, off + |Encode(e.key)|, e.value);
  }

  lemma {:induction false} EncodedEntriesAreLaid(
      buf: bytes, base: nat, off: nat, entries: seq<Entry>, acc: seq<Entry>)
    requires forall e | e in entries :: EncodableEntry(e)
    requires DistinctKeys(acc + entries) && At(buf, off, EncodeEntries(entries))
    ensures EntriesWritten(buf, base, off, PlainPairs(entries), acc, entries, |EncodeEntries(entries)|)
    decreases entries, 0
  {
    hide At, Encode, PlainKey, PlainValue, Laid, LaidPairs, Readable, ReadablePairs, Meaning, MeaningPairs, Nesting,
      NestingPairs, Extent, ExtentPairs, Put, DistinctKeys, Encodable;
    if |entries| == 0 {
      NoMorePairs(buf, base, off, acc);
      assert acc + entries == acc;
    } else {
      var e, es := entries[0], entries[1..];
      var x := EncodeEntry(e);
      AtConcat(buf, off, x, EncodeEntries(es));
      assert acc + [e] + es == acc + entries;
      NextKeyIsNew(acc, e, es);
      EncodedEntryIsLaid(buf, base, off, e);
      EncodedEntriesAreLaid(buf, base, off + |x|, es, acc + [e]);
      PairsParts(buf, base, off, PlainKey(e), PlainValue(e), PlainPairs(es), acc);
    }
  }

  /** Putting an entry with a new key appends it. */
  lemma NextKeyIsNew(acc: seq<Entry>, e: Entry, es: seq<Entry>)
    requires DistinctKeys(acc + [e] + es)
    ensures Put(acc, e.key, e.value) == acc + [e]
  {
    var all := acc + [e] + es;
    assert all[|acc|] == e;
    assert forall i | 0 <= i < |acc| :: all[i] == acc[i];
    PutNewKey(acc, e.key, e.value);
  }

  /** What a plain layout means, wherever it may be. */
  lemma PlainMeans(v: Value)
    requires Encodable(v)
    ensures Readable(Plain(v)) && Meaning(Plain(v)) == v && Nesting(Plain(v)) == 0
  {
    hide Encode, Encodable, Plain, Laid, Readable, Extent, Meaning, Nesting;
    EncodedIsLaid(Encode(v), 0, 0, v);
  }

  /** Decoding inverts encoding: at any offset in any buffer, whatever surrounds the encoding, and without
      following any pointer. */
  lemma DecodeInvertsEncode(v: Value, before: bytes, after: bytes, base: nat, d: nat)
    requires Encodable(v)
    ensures Decode(before + Encode(v) + after, base, d, |before|) == Ok(v, |before| + |Encode(v)|)
  {
    hide Decode, Encode, Encodable, Plain, Laid, Readable, Extent, Meaning, Nesting;
    var buf := before + Encode(v) + after;
    assert At(buf, |before|, Encode(v));
    EncodedIsLaid(buf, base, |before|, v);
    LayoutIsDecoded(buf, base, d, |before|, Plain(v));
  }
}
