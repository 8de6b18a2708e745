/** No reader returns a string that is not valid UTF-8, and the exceptions of rebuilding an entry list. */
module ValidText {
  import opened Wrappers
  import opened Bits
  import opened Utf8
  import opened Values
  import opened DataDecoder
  import opened EntryList

  /** Every string in the value is valid, at any depth, in keys too. */
  predicate TextsValid(v: Value)
  {
    match v
    case Text(s) => ValidUtf8(s)
    case Arr(items) => forall i | 0 <= i < |items| :: TextsValid(items[i])
    case Dict(entries) => forall i | 0 <= i < |entries| :: TextsValid(entries[i].key) && TextsValid(entries[i].value)
    case _ => true
  }

  lemma {:induction false} PutKeepsTexts(d: seq<Entry>, key: Value, value: Value)
    requires TextsValid(Dict(d)) && TextsValid(key) && TextsValid(value)
    ensures TextsValid(Dict(Put(d, key, value)))
  {
    hide SameKey;
    if |d| > 0 {
      assert TextsValid(d[0].key) && TextsValid(d[0].value);
      assert TextsValid(Dict(d[1..]));
      PutKeepsTexts(d[1..], key, value);
      var rest := Put(d[1..], key, value);
      assert TextsValid(Dict(rest));
      assert forall i | 0 <= i < |rest| :: TextsValid(rest[i].key) && TextsValid(rest[i].value);
    }
  }

  // ---------- rebuilding ----------

  /** What is wrong with entry `j`, if something is. */
  function Fault(list: seq<EntryData>, j: nat): Option<Error>
  {
    if j >= |list| || list[j].OtherType? then Some(InvalidDatabase)
    else if list[j].Utf8String? && !ValidUtf8(list[j].text) then Some(BadText)
    else None
  }

  predicate Sound(list: seq<EntryData>, from: nat, to: nat)
  {
    forall j | from <= j < to :: Fault(list, j).None?
  }

  /** A rebuilt value has valid strings alone, and no entry that was used for it has a fault. Rebuilding raises for
      the first entry with a fault: a UnicodeDecodeError for a string that is not valid, an InvalidDatabaseError for
      an unknown type or the end of the list. */
  lemma {:induction false} RebuildReads(list: seq<EntryData>, at: nat) returns (j: nat)
    ensures Rebuild(list, at).Built? ==>
              TextsValid(Rebuild(list, at).value) && Sound(list, at, Rebuild(list, at).last + 1)
    ensures Rebuild(list, at).Failed? ==>
              at <= j && Sound(list, at, j) && Fault(list, j) == Some(Rebuild(list, at).error)
    decreases |list| - at, 0
  {
    hide RebuildArray, RebuildMap;
    j := at;
    if at < |list| {
      match list[at]
      case MapHeader(size) => j := MapReads(list, at, size, []);
      case ArrayHeader(size) => j := ArrayReads(list, at, size, []);
      case _ =>
    }
  }

  lemma {:induction false} ArrayReads(list: seq<EntryData>, last: nat, n: nat, acc: seq<Value>) returns (j: nat)
    requires last < |list| && TextsValid(Arr(acc))
    ensures var r := RebuildArray(list, last, n, acc);
            && (r.Built? ==> TextsValid(Arr(r.value)) && Sound(list, last + 1, r.last + 1))
            && (r.Failed? ==> last < j && Sound(list, last + 1, j) && Fault(list, j) == Some(r.error))
    decreases |list| - last, 0, n
  {
    hide Rebuild, Fault, ValidUtf8;
    j := last + 1;
    if n > 0 {
      j := RebuildReads(list, last + 1);
      var item := Rebuild(list, last + 1);
      if item.Built? {
        j := ArrayReads(list, item.last, n - 1, acc + [item.value]);
      }
    }
  }

  lemma {:induction false} MapReads(list: seq<EntryData>, last: nat, n: nat, acc: seq<Entry>) returns (j: nat)
    requires last < |list| && TextsValid(Dict(acc))
    ensures var r := RebuildMap(list, last, n, acc);
            && (r.Built? ==> TextsValid(Dict(r.value)) && Sound(list, last + 1, r.last + 1))
            && (r.Failed? ==> last < j && Sound(list, last + 1, j) && Fault(list, j) == Some(r.error))
    decreases |list| - last, 0, n
  {
    hide Rebuild, ValidUtf8, Put;
    j := last + 1;
    if n > 0 && last + 1 < |list| && list[last + 1].Utf8String? && ValidUtf8(list[last + 1].text) {
      j := RebuildReads(list, last + 2);
      var item, key := Rebuild(list, last + 2), Text(list[last + 1].text);
      if item.Built? {
        PutKeepsTexts(acc, key, item.value);
        j := MapReads(list, item.last, n - 1, Put(acc, key, item.value));
      }
    }
  }

  /** An entry that is no header is its value, with `bytearray` for byte strings; the last used entry is itself. */
  lemma LeafIsItsValue(list: seq<EntryData>, at: nat, e: EntryData)
    requires at < |list| && list[at] == e
    ensures e.Utf8String? ==>
              Rebuild(list, at) == if ValidUtf8(e.text) then Built(Text(e.text), at) else Failed(BadText)
    ensures e.ByteString? ==> Rebuild(list, at) == Built(ByteArray(e.blob), at)
    ensures e.DoubleValue? ==> Rebuild(list, at) == Built(Double(e.raw), at)
    ensures e.FloatValue? ==> Rebuild(list, at) == Built(Float(e.raw), at)
    ensures e.Unsigned? ==> Rebuild(list, at) == Built(Int(e.n), at)
    ensures e.Unsigned128? ==> Rebuild(list, at) == Built(Int(BigEndian(e.raw)), at)
    ensures e.Signed? ==> Rebuild(list, at) == Built(Int(e.i), at)
    ensures e.BooleanValue? ==> Rebuild(list, at) == Built(Bool(e.b), at)
    ensures e.OtherType? ==> Rebuild(list, at) == Failed(InvalidDatabase)
  {
    hide ValidUtf8, BigEndian, RebuildArray, RebuildMap;
  }

  /** A map of one pair is a string entry and the entries of its value, which may be missing: then the list has
      ended. A key of another kind, or none, is read all the same. */
  lemma PairIsItsEntries(list: seq<EntryData>, last: nat, key: bytes)
    requires last < |list|
    ensures last + 1 == |list| || !list[last + 1].Utf8String? ==> RebuildMap(list, last, 1, []) == Crash
    ensures last + 1 < |list| && list[last + 1] == Utf8String(key) ==>
              var pair, value := RebuildMap(list, last, 1, []), Rebuild(list, last + 2);
              && (!ValidUtf8(key) ==> pair == Failed(BadText))
              && (ValidUtf8(key) && last + 2 == |list| ==> pair == Failed(InvalidDatabase))
              && (ValidUtf8(key) && value.Built? ==> pair == Built([Entry(Text(key), value.value)], value.last))
              && (ValidUtf8(key) && value.Failed? ==> pair == Failed(value.error))
              && (ValidUtf8(key) && value.Crash? ==> pair == Crash)
  {
    hide ValidUtf8;
    if last + 1 < |list| && list[last + 1] == Utf8String(key) && ValidUtf8(key) {
      var value := Rebuild(list, last + 2);
      if value.Built? {
        assert RebuildMap(list, value.last, 0, [Entry(Text(key), value.value)]).Built?;
      }
    }
  }

  // ---------- decoding ----------

  /** A decoded value has valid strings alone. */
  lemma {:induction false} DecodedTextsAreValid(buf: bytes, base: nat, d: nat, off: nat)
    ensures Decode(buf, base, d, off).Ok? ==> TextsValid(Decode(buf, base, d, off).value)
    decreases d, Left(buf, off), 0
  {
    hide ReadPointer, DecodeArray, DecodeMap, ValidUtf8, BigEndian;
    var head := ReadHead(buf, off);
    if head.Ok? {
      var h := head.value;
      if h.kind == DATA_POINTER {
        PointerSizeFits(buf, off);
        var p := ReadPointer(buf, base, h.size, head.next);
        if p.Ok? && d > 0 {
          DecodedTextsAreValid(buf, base, d - 1, p.value);
        }
      } else if h.kind == ARRAY {
        DecodedItemsAreValid(buf, base, d, h.size, head.next, []);
      } else if h.kind == MAP {
        DecodedEntriesAreValid(buf, base, d, h.size, head.next, []);
      }
    }
  }

  lemma {:induction false} DecodedItemsAreValid(buf: bytes, base: nat, d: nat, n: nat, off: nat, acc: seq<Value>)
    requires TextsValid(Arr(acc))
    ensures var r := DecodeArray(buf, base, d, n, off, acc);
            r.Ok? ==> TextsValid(Arr(r.value))
    decreases d, Left(buf, off), 1
  {
    hide Decode;
    var v := Decode(buf, base, d, off);
    if n > 0 && v.Ok? {
      DecodedTextsAreValid(buf, base, d, off);
      DecodedItemsAreValid(buf, base, d, n - 1, v.next, acc + [v.value]);
    }
  }

  lemma {:induction false} DecodedEntriesAreValid(buf: bytes, base: nat, d: nat, n: nat, off: nat, acc: seq<Entry>)
    requires TextsValid(Dict(acc))
    ensures var r := DecodeMap(buf, base, d, n, off, acc);
            r.Ok? ==> TextsValid(Dict(r.value))
    decreases d, Left(buf, off), 1
  {
    hide Decode, Put;
    var e := DecodeEntry(buf, base, d, off);
    if n > 0 && e.Ok? {
      DecodedTextsAreValid(buf, base, d, off);
      DecodedTextsAreValid(buf, base, d, Decode(buf, base, d, off).next);
      PutKeepsTexts(acc, e.value.key, e.value.value);
      DecodedEntriesAreValid(buf, base, d, n - 1, e.next, Put(acc, e.value.key, e.value.value));
    }
  }
}
