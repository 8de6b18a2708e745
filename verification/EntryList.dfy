/** The C extension's rebuilding of nested values from libmaxminddb's flat entry list:
    `from_entry_data_list`, `from_map`, `from_array` and `from_uint128`. */
module EntryList {
  import opened Wrappers
  import opened Bits
  import opened ByteStrings
  import opened Utf8
  import opened Values
  import opened DataDecoder
  import opened DataFormat

  /** The typed payload of one list entry. */
  datatype EntryData =
    | MapHeader(size: nat)
    | ArrayHeader(size: nat)
    | Utf8String(text: bytes)
    | ByteString(blob: bytes)
    | DoubleValue(raw: bytes)
    | FloatValue(raw: bytes)
    | Unsigned(n: nat)           // uint16, uint32 and uint64
    | Unsigned128(raw: bytes)    // 16 bytes, most significant first
    | Signed(i: int)
    | BooleanValue(b: bool)
    | OtherType

  // ---------- the list libmaxminddb hands over ----------

  /** The sizes that libmaxminddb allows a type. */
  predicate StrictScalar(kind: nat, size: nat)
  {
    && ScalarKind(kind)
    && (kind == UINT16 ==> size <= 2)
    && (kind == UINT32 || kind == INT32 ==> size <= 4)
    && (kind == UINT64 ==> size <= 8)
    && (kind == UINT128 ==> size <= 16)
  }

  /** What libmaxminddb makes a list of: complete payloads within the width of their type, and strings as
      map keys. */
  predicate Strict(f: Field)
  {
    match f
    case Scalar(kind, size, payload) => StrictScalar(kind, size) && |payload| == size
    case Boolean(_) => true
    case Array(items) => StrictItems(items)
    case Map(pairs, _) => StrictPairs(pairs)
    case Pointer(_, _, _, to) => Strict(to)
  }

  predicate StrictItems(fs: Fields)
  {
    fs.Then? ==> Strict(fs.first) && StrictItems(fs.rest)
  }

  predicate StrictPairs(ps: Pairs)
  {
    ps.Pair? ==> Strict(ps.key) && Meaning(ps.key).Text? && Strict(ps.value) && StrictPairs(ps.rest)
  }

  function ScalarEntry(kind: nat, payload: bytes): EntryData
    requires StrictScalar(kind, |payload|)
  {
    if kind == TEXT then Utf8String(payload)
    else if kind == BLOB then ByteString(payload)
    else if kind == DOUBLE then DoubleValue(payload)
    else if kind == FLOAT then FloatValue(payload)
    else if kind == INT32 then
      Signed(if |payload| == 4 then Signed32(BigEndian(payload)) else BigEndian(payload))
    else if kind == UINT128 then Unsigned128(Pad(payload, 16))
    else Unsigned(BigEndian(payload))
  }

  /** Preorder: a header, then the items, or the keys each followed by its value; pointers resolved. */
  function Flatten(f: Field): seq<EntryData>
    requires Strict(f)
  {
    match f
    case Scalar(kind, _, payload) => [ScalarEntry(kind, payload)]
    case Boolean(size) => [BooleanValue(size != 0)]
    case Array(items) => [ArrayHeader(Length(items))] + FlattenItems(items)
    case Map(pairs, _) => [MapHeader(PairCount(pairs))] + FlattenPairs(pairs)
    case Pointer(_, _, _, to) => Flatten(to)
  }

  function FlattenItems(fs: Fields): seq<EntryData>
    requires StrictItems(fs)
  {
    if fs.NoFields? then [] else Flatten(fs.first) + FlattenItems(fs.rest)
  }

  function FlattenPairs(ps: Pairs): seq<EntryData>
    requires StrictPairs(ps)
  {
    if ps.NoPairs? then [] else Flatten(ps.key) + (Flatten(ps.value) + FlattenPairs(ps.rest))
  }

  // ---------- rebuilding ----------

  /** A rebuilt value and the list position of the last entry used for it, or an exception. `Crash` is a null
      or mistyped key entry: `from_map` reads its string without a look at it. */
  datatype Built<+T> = Built(value: T, last: nat) | Failed(error: Error) | Crash

  predicate IsLeaf(e: EntryData) { !e.MapHeader? && !e.ArrayHeader? }

  function LeafValue(e: EntryData): Result<Value>
    requires IsLeaf(e)
  {
    match e
    case Utf8String(s) => if ValidUtf8(s) then Success(Text(s)) else Failure(BadText)
    case ByteString(b) => Success(ByteArray(b))
    case DoubleValue(raw) => Success(Double(raw))
    case FloatValue(raw) => Success(Float(raw))
    case Unsigned(n) => Success(Int(n))
    case Unsigned128(raw) => Success(Int(BigEndian(raw)))
    case Signed(i) => Success(Int(i))
    case BooleanValue(b) => Success(Bool(b))
    case OtherType => Failure(InvalidDatabase)
  }

  function LeafAt(e: EntryData, at: nat): Built<Value>
    requires IsLeaf(e)
  {
    match LeafValue(e)
    case Success(v) => Built(v, at)
    case Failure(error) => Failed(error)
  }

  /** `from_entry_data_list` at position `at`. */
  function Rebuild(list: seq<EntryData>, at: nat): (r: Built<Value>)
    ensures r.Built? ==> at <= r.last < |list|
    decreases |list| - at, 0
  {
    if at >= |list| then Failed(InvalidDatabase)
    else
      match list[at]
      case MapHeader(size) =>
        (match RebuildMap(list, at, size, [])
         case Built(d, last) => Built(Dict(d), last)
         case Failed(e) => Failed(e)
         case Crash => Crash)
      case ArrayHeader(size) =>
        (match RebuildArray(list, at, size, [])
         case Built(items, last) => Built(Arr(items), last)
         case Failed(e) => Failed(e)
         case Crash => Crash)
      case e => LeafAt(e, at)
  }

  /** `n` more items behind position `last`. */
  function RebuildArray(list: seq<EntryData>, last: nat, n: nat, acc: seq<Value>): (r: Built<seq<Value>>)
    requires last < |list|
    ensures r.Built? ==> last <= r.last < |list|
    decreases |list| - last, 0, n
  {
    if n == 0 then Built(acc, last)
    else
      match Rebuild(list, last + 1)
      case Built(v, last') => RebuildArray(list, last', n - 1, acc + [v])
      case Failed(e) => Failed(e)
      case Crash => Crash
  }

  /** `n` more keys and values behind position `last`. */
  function RebuildMap(list: seq<EntryData>, last: nat, n: nat, acc: seq<Entry>): (r: Built<seq<Entry>>)
    requires last < |list|
    ensures r.Built? ==> last <= r.last < |list|
    decreases |list| - last, 0, n
  {
    if n == 0 then Built(acc, last)
    else if last + 1 >= |list| || !list[last + 1].Utf8String? then Crash
    else if !ValidUtf8(list[last + 1].text) then Failed(BadText)
    else
      match Rebuild(list, last + 2)
      case Built(v, last') => RebuildMap(list, last', n - 1, Put(acc, Text(list[last + 1].text), v))
      case Failed(e) => Failed(e)
      case Crash => Crash
  }

  /** The shared cursor that the three functions advance. */
  class Cursor {
    const list: seq<EntryData>
    var pos: nat

    constructor (list: seq<EntryData>)
      ensures this.list == list && pos == 0
    {
      this.list, pos := list, 0;
    }

    method FromEntryDataList() returns (r: Result<Value>)
      requires Rebuild(list, pos) != Crash
      modifies this
      ensures match Rebuild(list, old(pos))
              case Built(v, last) => r == Success(v) && pos == last
              case Failed(e) => r == Failure(e)
              case Crash => false
      decreases |list| - pos, 1
    {
      if pos >= |list| {
        return Failure(InvalidDatabase);
      }
      match list[pos]
      case MapHeader(size) => r := FromMap(size);
      case ArrayHeader(size) => r := FromArray(size);
      case Unsigned128(raw) =>
        if |raw| == 16 {
          var n := FromUint128(raw);
          r := Success(Int(n));
        } else {
          r := LeafValue(list[pos]);
        }
      case e => r := LeafValue(e);
    }

    method FromArray(size: nat) returns (r: Result<Value>)
      requires pos < |list| && RebuildArray(list, pos, size, []) != Crash
      modifies this
      ensures match RebuildArray(list, old(pos), size, [])
              case Built(items, last) => r == Success(Arr(items)) && pos == last
              case Failed(e) => r == Failure(e)
              case Crash => false
      decreases |list| - pos, 0
    {
      hide Rebuild;
      var items := [];
      for i := 0 to size
        invariant old(pos) <= pos < |list|
        invariant RebuildArray(list, pos, size - i, items) == RebuildArray(list, old(pos), size, [])
      {
        pos := pos + 1;
        var item := FromEntryDataList();
        if item.Failure? {
          return item;
        }
        items := items + [item.value];
      }
      r := Success(Arr(items));
    }

    method FromMap(size: nat) returns (r: Result<Value>)
      requires pos < |list| && RebuildMap(list, pos, size, []) != Crash
      modifies this
      ensures match RebuildMap(list, old(pos), size, [])
              case Built(entries, last) => r == Success(Dict(entries)) && pos == last
              case Failed(e) => r == Failure(e)
              case Crash => false
      decreases |list| - pos, 0
    {
      hide Rebuild;
      var entries := [];
      for i := 0 to size
        invariant old(pos) <= pos < |list|
        invariant RebuildMap(list, pos, size - i, entries) == RebuildMap(list, old(pos), size, [])
      {
        pos := pos + 1;
        var key := list[pos].text;
        if !ValidUtf8(key) {
          return Failure(BadText);
        }
        pos := pos + 1;
        var item := FromEntryDataList();
        if item.Failure? {
          return item;
        }
        entries := Put(entries, Text(key), item.value);
      }
      r := Success(Dict(entries));
    }
  }

  // ---------- 128-bit integers ----------

  /** The sixteen characters of `%X`. */
  function HexChar(d: nat): char
    requires d < 16
  {
    "0123456789ABCDEF"[d]
  }

  function HexDigit(c: char): nat
  {
    if '0' <= c <= '9' then (c - '0') as nat
    else if 'A' <= c <= 'F' then (c - 'A') as nat + 10
    else 0
  }

  /** `%0wX` of a number that fits in `w` hex digits. */
  function HexString(n: nat, w: nat): (s: string)
    ensures |s| == w
  {
    if w == 0 then "" else HexString(n / 16, w - 1) + [HexChar(n % 16)]
  }

  /** `PyLong_FromString` in base 16. */
  function ParseHex(s: string): nat
  {
    if |s| == 0 then 0 else 16 * ParseHex(s[..|s| - 1]) + HexDigit(s[|s| - 1])
  }

  lemma HexCharDigit(d: nat)
    requires d < 16
    ensures HexDigit(HexChar(d)) == d
  {
    assert d in {0, 1, 2, 3, 4, 5, 6, 7, 8, 9, 10, 11, 12, 13, 14, 15};
  }

  /** Printing two numbers side by side and parsing them back. */
  lemma {:induction false} ParseHexOfTwo(h: nat, wh: nat, n: nat, w: nat)
    requires n < Pow2(4 * w) && h < Pow2(4 * wh)
    ensures ParseHex(HexString(h, wh) + HexString(n, w)) == Shl(h, 4 * w) + n
    decreases w
  {
    if w > 0 {
      HexRange(w);
      ParseHexOfTwo(h, wh, n / 16, w - 1);
      HexCharDigit(n % 16);
      var s := HexString(h, wh) + HexString(n, w);
      assert s[..|s| - 1] == HexString(h, wh) + HexString(n / 16, w - 1);
      ShlTimes16(h, 4 * (w - 1));
    } else {
      ParseHexOfOne(h, wh);
      assert HexString(h, wh) + HexString(n, w) == HexString(h, wh);
    }
  }

  lemma {:induction false} ParseHexOfOne(n: nat, w: nat)
    requires n < Pow2(4 * w)
    ensures ParseHex(HexString(n, w)) == n
  {
    if w > 0 {
      HexRange(w);
      ParseHexOfOne(n / 16, w - 1);
      HexCharDigit(n % 16);
      assert HexString(n, w)[..w - 1] == HexString(n / 16, w - 1);
    }
  }

  lemma HexRange(w: nat)
    requires w > 0
    ensures Pow2(4 * w) == 16 * Pow2(4 * (w - 1))
  {
    Pow2Add(4, 4 * (w - 1));
    assert Pow2(4) == 16;
  }

  lemma ShlTimes16(n: nat, k: nat)
    ensures Shl(n, k + 4) == 16 * Shl(n, k)
  {
    ShlDouble(n, k);
    ShlDouble(n, k + 1);
    ShlDouble(n, k + 2);
    ShlDouble(n, k + 3);
  }

  /** `from_uint128`: two 64-bit accumulators, 32 hex digits, and back to one number. */
  method FromUint128(raw: bytes) returns (n: nat)
    requires |raw| == 16
    ensures n == BigEndian(raw)
  {
    hide HexString, ParseHex, Shl;
    var high: nat, low: nat := 0, 0;
    for i := 0 to 8
      invariant high == BigEndian(raw[..i]) < Pow2(8 * i)
    {
      AccumulateByte(raw, 0, i, 8);
      high := (high * 256) % 0x1_0000_0000_0000_0000 + raw[i];
    }
    for i := 8 to 16
      invariant low == BigEndian(raw[8..i]) < Pow2(8 * (i - 8))
    {
      AccumulateByte(raw, 8, i, 8);
      low := (low * 256) % 0x1_0000_0000_0000_0000 + raw[i];
    }
    assert raw == raw[..8] + raw[8..16];
    BigEndianConcat(raw[..8], raw[8..16]);
    ShlIsProduct(high, 64);
    ParseHexOfTwo(high, 16, low, 16);
    n := ParseHex(HexString(high, 16) + HexString(low, 16));
  }

  /** One turn of an accumulator loop stays below 2^64. */
  lemma AccumulateByte(raw: bytes, from: nat, i: nat, k: nat)
    requires k == 8 && from <= i < from + k <= |raw|
    requires BigEndian(raw[from..i]) < Pow2(8 * (i - from))
    ensures var acc := BigEndian(raw[from..i]);
            (acc * 256) % 0x1_0000_0000_0000_0000 + raw[i] == BigEndian(raw[from..i + 1])
    ensures BigEndian(raw[from..i + 1]) < Pow2(8 * (i + 1 - from))
  {
    hide Pow2;
    assert raw[from..i + 1][..i - from] == raw[from..i];
    BigEndianBound(raw[from..i + 1]);
    Pow2Monotone(8 * (i - from), 56);
    Pow2Of56();
  }

  lemma Pow2Of56()
    ensures Pow2(56) == 0x100_0000_0000_0000
  {
    Pow2Add(28, 28);
    Pow2Facts();
  }

  // ---------- rebuilding inverts flattening ----------

  predicate Present(list: seq<EntryData>, at: nat, part: seq<EntryData>)
  {
    at + |part| <= |list| && list[at..at + |part|] == part
  }

  lemma PresentConcat(list: seq<EntryData>, at: nat, x: seq<EntryData>, y: seq<EntryData>)
    requires Present(list, at, x + y)
    ensures Present(list, at, x) && Present(list, at + |x|, y)
    ensures |x| > 0 ==> list[at] == x[0]
  {
    assert list[at..at + |x|] == list[at..at + |x + y|][..|x|];
    assert list[at + |x|..at + |x| + |y|] == list[at..at + |x + y|][|x|..];
    assert |x| > 0 ==> list[at] == list[at..at + |x|][0];
  }

  lemma PresentOne(list: seq<EntryData>, at: nat, e: EntryData)
    requires Present(list, at, [e])
    ensures at < |list| && list[at] == e
  {
    assert list[at..at + 1][0] == list[at];
  }

  lemma {:induction false} FlattenNotEmpty(f: Field)
    requires Strict(f)
    ensures |Flatten(f)| > 0
  {
    if f.Pointer? {
      FlattenNotEmpty(f.to);
    }
  }

  // ---------- the extension's form of a value ----------

  /** The value as the extension builds it: `bytearray` in place of `bytes`. */
  function AsExtension(v: Value): Value
  {
    match v
    case Blob(b) => ByteArray(b)
    case Arr(items) => Arr(ItemsAsExtension(items))
    case Dict(entries) => Dict(EntriesAsExtension(entries))
    case _ => v
  }

  function ItemsAsExtension(items: seq<Value>): (r: seq<Value>)
    ensures |r| == |items|
  {
    if |items| == 0 then [] else [AsExtension(items[0])] + ItemsAsExtension(items[1..])
  }

  function EntriesAsExtension(entries: seq<Entry>): (r: seq<Entry>)
    ensures |r| == |entries|
  {
    if |entries| == 0 then [] else [EntryAsExtension(entries[0])] + EntriesAsExtension(entries[1..])
  }

  function EntryAsExtension(e: Entry): Entry { Entry(e.key, AsExtension(e.value)) }

  /** There is a byte string in the value, other than in a key. */
  predicate HasBlob(v: Value)
  {
    match v
    case Blob(_) => true
    case Arr(items) => exists x | x in items :: HasBlob(x)
    case Dict(entries) => exists e | e in entries :: EntryHasBlob(e)
    case _ => false
  }

  predicate EntryHasBlob(e: Entry) { HasBlob(e.value) }

  /** The two forms differ exactly when there is a byte string. */
  lemma {:induction false} SameFormIff(v: Value)
    ensures AsExtension(v) == v <==> !HasBlob(v)
    decreases v, 1
  {
    match v
    case Arr(items) => SameItemsIff(items);
    case Dict(entries) => SameEntriesIff(entries);
    case _ =>
  }

  lemma {:induction false} SameItemsIff(items: seq<Value>)
    ensures ItemsAsExtension(items) == items <==> forall x | x in items :: !HasBlob(x)
    decreases items, 0
  {
    hide AsExtension, HasBlob;
    if |items| > 0 {
      SameFormIff(items[0]);
      SameItemsIff(items[1..]);
      var r := ItemsAsExtension(items);
      assert r[0] == AsExtension(items[0]) && r[1..] == ItemsAsExtension(items[1..]);
      assert items == [items[0]] + items[1..];
    }
  }

  lemma {:induction false} SameEntryIff(e: Entry)
    ensures EntryAsExtension(e) == e <==> !EntryHasBlob(e)
    decreases e, 0
  {
    hide AsExtension, HasBlob;
    SameFormIff(e.value);
  }

  lemma {:induction false} SameEntriesIff(entries: seq<Entry>)
    ensures EntriesAsExtension(entries) == entries <==> forall e | e in entries :: !EntryHasBlob(e)
    decreases entries, 0
  {
    hide EntryAsExtension, EntryHasBlob;
    if |entries| > 0 {
      SameEntryIff(entries[0]);
      SameEntriesIff(entries[1..]);
      var r := EntriesAsExtension(entries);
      assert r[0] == EntryAsExtension(entries[0]) && r[1..] == EntriesAsExtension(entries[1..]);
      assert entries == [entries[0]] + entries[1..];
    }
  }

  lemma {:induction false} PutAsExtension(d: seq<Entry>, key: Value, v: Value)
    ensures EntriesAsExtension(Put(d, key, v)) == Put(EntriesAsExtension(d), key, AsExtension(v))
  {
    hide AsExtension, SameKey;
    if |d| > 0 {
      PutAsExtension(d[1..], key, v);
      var put := Put(d, key, v);
      var x := EntriesAsExtension(d);
      assert x[0] == EntryAsExtension(d[0]) && x[1..] == EntriesAsExtension(d[1..]);
      if SameKey(d[0].key, key) {
        assert put[1..] == d[1..];
      } else {
        assert put[1..] == Put(d[1..], key, v);
      }
    }
  }

  lemma {:induction false} ScalarEntryMeans(kind: nat, payload: bytes)
    requires StrictScalar(kind, |payload|) && (kind == TEXT ==> ValidUtf8(payload))
    ensures LeafValue(ScalarEntry(kind, payload)) == Success(AsExtension(ScalarMeaning(kind, payload)))
  {
    hide BigEndian, ValidUtf8, Signed32, Pad;
    if kind == UINT128 {
      WideEntryMeans(payload);
    }
  }

  lemma WideEntryMeans(payload: bytes)
    requires |payload| <= 16
    ensures BigEndian(Pad(payload, 16)) == BigEndian(payload)
  {
    hide BigEndian;
    BigEndianOfPad(16 - |payload|, payload);
  }

  /** Rebuilding a flattened field gives what the field means, in the extension's form, with the cursor on
      the last entry used, whatever comes before and after it in the list. */
  lemma {:induction false} RebuildInvertsFlatten(list: seq<EntryData>, at: nat, f: Field)
    requires Readable(f) && Strict(f) && Present(list, at, Flatten(f))
    ensures |Flatten(f)| > 0
    ensures Rebuild(list, at) == Built(AsExtension(Meaning(f)), at + |Flatten(f)| - 1)
    decreases f
  {
    hide RebuildMap, RebuildArray, Present, LeafValue, ScalarMeaning, ReadableScalar, ScalarEntry;
    FlattenNotEmpty(f);
    match f
    case Pointer(_, _, _, to) =>
      RebuildInvertsFlatten(list, at, to);
    case Array(items) =>
      PresentConcat(list, at, [ArrayHeader(Length(items))], FlattenItems(items));
      PresentOne(list, at, ArrayHeader(Length(items)));
      RebuildInvertsItems(list, at, items, []);
      assert [] + ItemsAsExtension(MeaningItems(items)) == ItemsAsExtension(MeaningItems(items));
    case Map(pairs, _) =>
      PresentConcat(list, at, [MapHeader(PairCount(pairs))], FlattenPairs(pairs));
      PresentOne(list, at, MapHeader(PairCount(pairs)));
      RebuildInvertsPairs(list, at, pairs, []);
    case Boolean(size) =>
      BooleanIsRebuilt(list, at, size != 0);
    case Scalar(kind, size, payload) =>
      ScalarIsRebuilt(list, at, kind, size, payload);
  }

  lemma BooleanIsRebuilt(list: seq<EntryData>, at: nat, b: bool)
    requires Present(list, at, [BooleanValue(b)])
    ensures Rebuild(list, at) == Built(Bool(b), at)
  {
    PresentOne(list, at, BooleanValue(b));
  }

  lemma ScalarIsRebuilt(list: seq<EntryData>, at: nat, kind: nat, size: nat, payload: bytes)
    requires ReadableScalar(kind, size, payload) && StrictScalar(kind, |payload|)
    requires Present(list, at, [ScalarEntry(kind, payload)])
    ensures Rebuild(list, at) == Built(AsExtension(ScalarMeaning(kind, payload)), at)
  {
    hide ScalarMeaning, LeafValue, Present;
    PresentOne(list, at, ScalarEntry(kind, payload));
    ScalarEntryMeans(kind, payload);
  }

  lemma {:induction false} RebuildInvertsItems(list: seq<EntryData>, last: nat, fs: Fields, acc: seq<Value>)
    requires ReadableItems(fs) && StrictItems(fs) && last < |list| && Present(list, last + 1, FlattenItems(fs))
    ensures RebuildArray(list, last, Length(fs), acc) ==
            Built(acc + ItemsAsExtension(MeaningItems(fs)), last + |FlattenItems(fs)|)
    decreases fs
  {
    hide Rebuild, Readable, Strict, AsExtension, Meaning, Present, Flatten;
    if fs.NoFields? {
      assert acc + ItemsAsExtension(MeaningItems(fs)) == acc;
    } else {
      var v, k := AsExtension(Meaning(fs.first)), |Flatten(fs.first)|;
      FlattenNotEmpty(fs.first);
      PresentConcat(list, last + 1, Flatten(fs.first), FlattenItems(fs.rest));
      RebuildInvertsFlatten(list, last + 1, fs.first);
      RebuildInvertsItems(list, last + k, fs.rest, acc + [v]);
      var vs := MeaningItems(fs);
      assert vs[0] == Meaning(fs.first) && vs[1..] == MeaningItems(fs.rest);
      assert acc + [v] + ItemsAsExtension(MeaningItems(fs.rest)) == acc + ItemsAsExtension(vs);
    }
  }

  /** A string key is flattened to its one string entry. */
  lemma {:induction false} KeyIsOneEntry(f: Field)
    requires Readable(f) && Strict(f) && Meaning(f).Text?
    ensures Flatten(f) == [Utf8String(Meaning(f).text)] && ValidUtf8(Meaning(f).text)
  {
    hide ValidUtf8;
    if f.Pointer? {
      KeyIsOneEntry(f.to);
    }
  }

  lemma NoMoreEntries(list: seq<EntryData>, last: nat, acc: seq<Entry>)
    requires last < |list|
    ensures RebuildMap(list, last, 0, acc) == Built(acc, last)
  {
  }

  lemma OneMoreEntry(list: seq<EntryData>, last: nat, n: nat, acc: seq<Entry>)
    requires n > 0 && last + 1 < |list| && list[last + 1].Utf8String? && ValidUtf8(list[last + 1].text)
    requires Rebuild(list, last + 2).Built?
    ensures var v := Rebuild(list, last + 2);
            RebuildMap(list, last, n, acc) ==
            RebuildMap(list, v.last, n - 1, Put(acc, Text(list[last + 1].text), v.value))
  {
  }

  lemma {:induction false} RebuildInvertsPairs(list: seq<EntryData>, last: nat, ps: Pairs, acc: seq<Entry>)
    requires ReadablePairs(ps) && StrictPairs(ps) && last < |list| && Present(list, last + 1, FlattenPairs(ps))
    ensures RebuildMap(list, last, PairCount(ps), EntriesAsExtension(acc)) ==
            Built(EntriesAsExtension(MeaningPairs(ps, acc)), last + |FlattenPairs(ps)|)
    decreases ps
  {
    hide Rebuild, RebuildMap, Present, Readable, Strict, AsExtension, Meaning, EntriesAsExtension, Flatten, Put;
    var built := EntriesAsExtension(acc);
    if ps.NoPairs? {
      NoMoreEntries(list, last, built);
    } else {
      var x, y := Flatten(ps.key), Flatten(ps.value);
      KeyIsOneEntry(ps.key);
      FlattenNotEmpty(ps.value);
      PresentConcat(list, last + 1, x, y + FlattenPairs(ps.rest));
      PresentConcat(list, last + 2, y, FlattenPairs(ps.rest));
      RebuildInvertsFlatten(list, last + 2, ps.value);
      OneMoreEntry(list, last, PairCount(ps), built);
      PutAsExtension(acc, Meaning(ps.key), Meaning(ps.value));
      RebuildInvertsPairs(list, last + 1 + |y|, ps.rest, Put(acc, Meaning(ps.key), Meaning(ps.value)));
    }
  }

  /** For any layout in a buffer, the extension rebuilds the Python decoder's value from the entry list of
      the same field, with any entries behind it; only that `bytes` become `bytearray`, so the two values
      are of the same types throughout if and only if there is no byte string in them. */
  lemma ReadersBuildTheSameValue(buf: bytes, base: nat, d: nat, off: nat, f: Field, tail: seq<EntryData>)
    requires Readable(f) && Strict(f) && Laid(buf, base, off, f) && Nesting(f) <= d
    ensures Decode(buf, base, d, off).Ok? && |Flatten(f)| > 0
    ensures var v := Decode(buf, base, d, off).value;
            && Rebuild(Flatten(f) + tail, 0) == Built(AsExtension(v), |Flatten(f)| - 1)
            && (AsExtension(v) == v <==> !HasBlob(v))
  {
    hide Decode, Laid, Readable, Strict, Meaning, AsExtension, HasBlob, Rebuild;
    LayoutIsDecoded(buf, base, d, off, f);
    FlattenNotEmpty(f);
    assert Present(Flatten(f) + tail, 0, Flatten(f));
    RebuildInvertsFlatten(Flatten(f) + tail, 0, f);
    SameFormIff(Meaning(f));
  }
}
