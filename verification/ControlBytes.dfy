/** What the decoder makes of each control byte, byte by byte as the "Data Field Format" and "Payload Size"
    sections of the specification number the types and sizes. */
module ControlBytes {
  import opened Wrappers
  import opened Bits
  import opened ByteStrings
  import opened Utf8
  import opened Values
  import opened DataDecoder
  import DataFormat

  /** Numbers are read most significant byte first. */
  lemma BigEndianBytes(a: byte, b: byte, c: byte, d: byte)
    ensures BigEndian([]) == 0 && BigEndian([a]) == a && BigEndian([a, b]) == 256 * a + b
    ensures BigEndian([a, b, c]) == 65536 * a + 256 * b + c
    ensures BigEndian([a, b, c, d]) == 16777216 * a + 65536 * b + 256 * c + d
  {
    assert [a, b][..1] == [a] && [a, b, c][..2] == [a, b] && [a, b, c, d][..3] == [a, b, c];
    assert [a][..0] == [];
  }

  // ---------- types in the control byte ----------

  lemma ScalarFrom(buf: bytes, base: nat, d: nat, off: nat, kind: nat, n: nat)
    requires n < 29 && 2 <= kind <= 6 && off < |buf| && buf[off] == 32 * kind + n
    ensures Decode(buf, base, d, off) == DecodeScalar(buf, Head(kind, n), off + 1)
  {
    hide DecodeScalar, ReadPointer, DecodeMap, DecodeArray;
    assert ReadHead(buf, off) == Ok(Head(kind, n), off + 1);
  }

  lemma ExtendedFrom(buf: bytes, base: nat, d: nat, off: nat, n: nat)
    requires n < 29 && off + 1 < |buf| && buf[off] == n && buf[off + 1] in {1, 2, 3, 7, 8}
    ensures Decode(buf, base, d, off) == DecodeScalar(buf, Head(buf[off + 1] as int + 7, n), off + 2)
  {
    hide DecodeScalar, ReadPointer, DecodeMap, DecodeArray;
    assert ReadHead(buf, off) == Ok(Head(buf[off + 1] as int + 7, n), off + 2);
  }

  /** 0x40 + n: a string of n bytes. */
  lemma StringField(buf: bytes, base: nat, d: nat, off: nat, n: nat)
    requires n < 29 && off + 1 + n <= |buf| && buf[off] == 0x40 + n
    ensures var payload := buf[off + 1..off + 1 + n];
            Decode(buf, base, d, off) == if ValidUtf8(payload) then Ok(Text(payload), off + 1 + n) else Bad(BadText)
  {
    hide Decode, ValidUtf8;
    ScalarFrom(buf, base, d, off, 2, n);
  }

  /** 0x60 + n: a double, which has 8 bytes. */
  lemma DoubleField(buf: bytes, base: nat, d: nat, off: nat, n: nat)
    requires n < 29 && off + 1 + n <= |buf| && buf[off] == 0x60 + n
    ensures Decode(buf, base, d, off) ==
            if n == 8 then Ok(Double(buf[off + 1..off + 9]), off + 9) else Bad(InvalidDatabase)
  {
    hide Decode;
    ScalarFrom(buf, base, d, off, 3, n);
  }

  /** 0x80 + n: a byte string of n bytes. */
  lemma BytesField(buf: bytes, base: nat, d: nat, off: nat, n: nat)
    requires n < 29 && off + 1 + n <= |buf| && buf[off] == 0x80 + n
    ensures Decode(buf, base, d, off) == Ok(Blob(buf[off + 1..off + 1 + n]), off + 1 + n)
  {
    hide Decode;
    ScalarFrom(buf, base, d, off, 4, n);
  }

  /** 0xA0 + n and 0xC0 + n: unsigned integers of 16 and 32 bits, in n bytes. */
  lemma UnsignedField(buf: bytes, base: nat, d: nat, off: nat, n: nat)
    requires n < 29 && off + 1 + n <= |buf| && (buf[off] == 0xA0 + n || buf[off] == 0xC0 + n)
    ensures Decode(buf, base, d, off) == Ok(Int(BigEndian(buf[off + 1..off + 1 + n])), off + 1 + n)
  {
    hide Decode, BigEndian;
    ScalarFrom(buf, base, d, off, buf[off] as int / 32, n);
  }

  /** 0xE0 + n, and n followed by 0: a map of n pairs. */
  lemma MapField(buf: bytes, base: nat, d: nat, off: nat, n: nat)
    requires n < 29 && off < |buf|
    ensures buf[off] == 0xE0 + n ==> Decode(buf, base, d, off) == MapFrom(buf, base, d, off + 1, n)
    ensures off + 1 < |buf| && buf[off] == n && buf[off + 1] == 0 ==>
              Decode(buf, base, d, off) == MapFrom(buf, base, d, off + 2, n)
  {
    hide DecodeMap;
  }

  function MapFrom(buf: bytes, base: nat, d: nat, off: nat, n: nat): Outcome<Value>
  {
    match DecodeMap(buf, base, d, n, off, [])
    case Ok(entries, end) => Ok(Dict(entries), end)
    case Bad(e) => Bad(e)
    case Deep => Deep
  }

  // ---------- extended types ----------

  /** n, 1: a signed 32-bit integer; one of four bytes is in two's complement, a shorter one is not negative. More
      bytes, or less than four of four, raise struct.error; the end of the buffer may cut off others. */
  lemma SignedField(buf: bytes, base: nat, d: nat, off: nat, n: nat)
    requires n < 29 && off + 1 < |buf| && buf[off] == n && buf[off + 1] == 1
    ensures var payload := Slice(buf, off + 2, off + 2 + n);
            var raw := BigEndian(payload);
            Decode(buf, base, d, off) ==
            if |payload| > 4 || (n == 4 && |payload| < 4) then Bad(BadStruct)
            else Ok(Int(if |payload| == 4 && raw >= 0x8000_0000 then raw - 0x1_0000_0000 else raw), off + 2 + n)
  {
    hide Decode, BigEndian, DecodeInt32;
    ExtendedFrom(buf, base, d, off, n);
    SignedNumber(Slice(buf, off + 2, off + 2 + n), n);
  }

  lemma SignedNumber(payload: bytes, n: nat)
    requires |payload| <= n
    ensures var raw := BigEndian(payload);
            DecodeInt32(payload, n) ==
            if |payload| > 4 || (n == 4 && |payload| < 4) then Failure(BadStruct)
            else Success(if |payload| == 4 && raw >= 0x8000_0000 then raw - 0x1_0000_0000 else raw)
  {
    hide BigEndian;
    if |payload| <= 4 {
      ShortSigned(payload);
    }
  }

  lemma ShortSigned(payload: bytes)
    requires |payload| <= 4
    ensures |payload| < 4 ==> BigEndian(Pad(payload, 4)) == BigEndian(payload) < 0x100_0000
    ensures |payload| == 0 ==> BigEndian(payload) == 0
  {
    hide BigEndian;
    BigEndianBytes(0, 0, 0, 0);
    assert |payload| == 0 ==> payload == [];
    if |payload| < 4 {
      DataFormat.BigEndianOfPad(4 - |payload|, payload);
      BigEndianBound(payload);
      Pow2Monotone(8 * |payload|, 24);
      Pow2Facts();
    }
  }

  /** n, 2 and n, 3: unsigned integers of 64 and 128 bits, in n bytes. */
  lemma LongUnsignedField(buf: bytes, base: nat, d: nat, off: nat, n: nat)
    requires n < 29 && off + 2 + n <= |buf| && buf[off] == n && (buf[off + 1] == 2 || buf[off + 1] == 3)
    ensures Decode(buf, base, d, off) == Ok(Int(BigEndian(buf[off + 2..off + 2 + n])), off + 2 + n)
  {
    hide Decode, BigEndian;
    ExtendedFrom(buf, base, d, off, n);
  }

  /** n, 4: an array of n items. */
  lemma ArrayField(buf: bytes, base: nat, d: nat, off: nat, n: nat)
    requires n < 29 && off + 1 < |buf| && buf[off] == n && buf[off + 1] == 4
    ensures Decode(buf, base, d, off) ==
            match DecodeArray(buf, base, d, n, off + 2, [])
            case Ok(items, end) => Ok(Arr(items), end)
            case Bad(e) => Bad(e)
            case Deep => Deep
  {
    hide DecodeArray;
  }

  /** n, 7: a truth value, which is the size. */
  lemma BooleanField(buf: bytes, base: nat, d: nat, off: nat, n: nat)
    requires n < 29 && off + 1 < |buf| && buf[off] == n && buf[off + 1] == 7
    ensures Decode(buf, base, d, off) == Ok(Bool(n != 0), off + 2)
  {
    hide Decode;
    ExtendedFrom(buf, base, d, off, n);
  }

  /** n, 8: a float, which has 4 bytes. */
  lemma FloatField(buf: bytes, base: nat, d: nat, off: nat, n: nat)
    requires n < 29 && off + 2 + n <= |buf| && buf[off] == n && buf[off + 1] == 8
    ensures Decode(buf, base, d, off) ==
            if n == 4 then Ok(Float(buf[off + 2..off + 6]), off + 6) else Bad(InvalidDatabase)
  {
    hide Decode;
    ExtendedFrom(buf, base, d, off, n);
  }

  /** n, 5 and n, 6 (the cache container and the end marker) and n, 9 upward are no types. */
  lemma NoField(buf: bytes, base: nat, d: nat, off: nat)
    requires off + 1 < |buf| && buf[off] < 32 && buf[off + 1] !in {0, 1, 2, 3, 4, 7, 8}
    ensures Decode(buf, base, d, off) == Bad(InvalidDatabase)
  {
  }

  /** A control byte or an extended type byte behind the end of the buffer is an IndexError. */
  lemma CutOffField(buf: bytes, base: nat, d: nat, off: nat)
    requires off >= |buf| || (off + 1 == |buf| && buf[off] < 32)
    ensures Decode(buf, base, d, off) == Bad(OutOfRange)
  {
  }

  // ---------- sizes ----------

  /** Size bits 29: one more byte of size, here of a byte string, without which there is an IndexError. */
  lemma SizeInOneByte(buf: bytes, base: nat, d: nat, off: nat)
    requires off < |buf| && buf[off] == 0x9D
    ensures off + 1 >= |buf| ==> Decode(buf, base, d, off) == Bad(OutOfRange)
    ensures off + 1 < |buf| ==>
              var size := 29 + buf[off + 1] as int;
              Decode(buf, base, d, off) == Ok(Blob(Slice(buf, off + 2, off + 2 + size)), off + 2 + size)
  {
    hide Decode, Slice, BigEndian;
    HeadOfBlob(buf, base, d, off, ReadSize(buf, buf[off], off + 1, 4));
  }

  /** Size bits 30: two more bytes, without which there is a struct.error. */
  lemma SizeInTwoBytes(buf: bytes, base: nat, d: nat, off: nat)
    requires off < |buf| && buf[off] == 0x9E
    ensures off + 2 >= |buf| ==> Decode(buf, base, d, off) == Bad(BadStruct)
    ensures off + 2 < |buf| ==>
              var size := 285 + 256 * buf[off + 1] as int + buf[off + 2] as int;
              Decode(buf, base, d, off) == Ok(Blob(Slice(buf, off + 3, off + 3 + size)), off + 3 + size)
  {
    hide Decode, BigEndian;
    if off + 2 < |buf| {
      assert Slice(buf, off + 1, off + 3) == [buf[off + 1], buf[off + 2]];
      BigEndianBytes(buf[off + 1], buf[off + 2], 0, 0);
    }
    HeadOfBlob(buf, base, d, off, ReadSize(buf, buf[off], off + 1, 4));
  }

  /** Size bits 31: three more bytes. */
  lemma SizeInThreeBytes(buf: bytes, base: nat, d: nat, off: nat)
    requires off < |buf| && buf[off] == 0x9F
    ensures off + 3 >= |buf| ==> Decode(buf, base, d, off) == Bad(BadStruct)
    ensures off + 3 < |buf| ==>
              var size := 65821 + 65536 * buf[off + 1] as int + 256 * buf[off + 2] as int + buf[off + 3] as int;
              Decode(buf, base, d, off) == Ok(Blob(Slice(buf, off + 4, off + 4 + size)), off + 4 + size)
  {
    hide Decode, BigEndian;
    if off + 3 < |buf| {
      assert [0] + Slice(buf, off + 1, off + 4) == [0, buf[off + 1], buf[off + 2], buf[off + 3]];
      BigEndianBytes(0, buf[off + 1], buf[off + 2], buf[off + 3]);
    }
    HeadOfBlob(buf, base, d, off, ReadSize(buf, buf[off], off + 1, 4));
  }

  lemma HeadOfBlob(buf: bytes, base: nat, d: nat, off: nat, r: Outcome<nat>)
    requires off < |buf| && 0x80 <= buf[off] < 0xA0 && r == ReadSize(buf, buf[off], off + 1, 4)
    ensures r.Bad? ==> Decode(buf, base, d, off) == Bad(r.error)
    ensures r.Ok? ==> Decode(buf, base, d, off) == Ok(Blob(Slice(buf, r.next, r.next + r.value)), r.next + r.value)
  {
    hide ReadSize, DecodeMap, DecodeArray, ReadPointer;
    assert r.Ok? ==> ReadHead(buf, off) == Ok(Head(4, r.value), r.next);
  }

  /** A double or a float that the end of the buffer cuts off raises struct.error. */
  lemma CutOffReal(buf: bytes, base: nat, d: nat, off: nat)
    requires off < |buf|
    requires (buf[off] == 0x68 && off + 9 > |buf|) ||
             (buf[off] == 4 && off + 1 < |buf| < off + 6 && buf[off + 1] == 8)
    ensures Decode(buf, base, d, off) == Bad(BadStruct)
  {
    hide Decode;
    if buf[off] == 0x68 {
      ScalarFrom(buf, base, d, off, 3, 8);
    } else {
      ExtendedFrom(buf, base, d, off, 4);
    }
  }

  /** A byte string or an unsigned integer that the end of the buffer cuts off is what is left of it. */
  lemma CutOffPayload(buf: bytes, base: nat, d: nat, off: nat, n: nat)
    requires off < |buf| < off + 1 + n && n < 29
    ensures buf[off] == 0x80 + n ==> Decode(buf, base, d, off) == Ok(Blob(buf[off + 1..]), off + 1 + n)
    ensures buf[off] == 0xA0 + n || buf[off] == 0xC0 + n ==>
              Decode(buf, base, d, off) == Ok(Int(BigEndian(buf[off + 1..])), off + 1 + n)
  {
    hide Decode, BigEndian;
    var kind := buf[off] as int / 32;
    if buf[off] == 32 * kind + n && 4 <= kind <= 6 {
      ScalarFrom(buf, base, d, off, kind, n);
      assert Slice(buf, off + 1, off + 1 + n) == buf[off + 1..];
    }
  }

  // ---------- pointers ----------

  /** 0x20 to 0x3F: a pointer. Bits 3 and 4 of the control byte say how many bytes follow, its low three bits are
      the highest of the number, but for the form of four bytes; the target counts from the base. */
  lemma PointerField(buf: bytes, base: nat, d: nat, off: nat, v: byte, b: seq<nat>)
    requires v < 8 && 0 < |b| <= 4 && off + |b| < |buf|
    requires forall i :: 0 <= i < |b| ==> b[i] == buf[off + 1 + i]
    ensures |b| == 1 && buf[off] == 0x20 + v ==>
              Decode(buf, base, d, off) == Through(buf, base, d, 256 * v as int + b[0], off + 2)
    ensures |b| == 2 && buf[off] == 0x28 + v ==>
              Decode(buf, base, d, off) ==
              Through(buf, base, d, 2048 + 65536 * v as int + 256 * b[0] + b[1], off + 3)
    ensures |b| == 3 && buf[off] == 0x30 + v ==>
              Decode(buf, base, d, off) ==
              Through(buf, base, d, 526336 + 16777216 * v as int + 65536 * b[0] + 256 * b[1] + b[2], off + 4)
    ensures |b| == 4 && buf[off] == 0x38 + v ==>
              Decode(buf, base, d, off) ==
              Through(buf, base, d, 16777216 * b[0] + 65536 * b[1] + 256 * b[2] + b[3], off + 5)
  {
    hide Decode, ReadPointer;
    var size := buf[off] as int - 0x20;
    if size == 8 * (|b| - 1) + v as int {
      PointerNumber(buf, base, off + 1, v, b);
      var r := ReadPointer(buf, base, size, off + 1);
      PointerOf(buf, base, d, off, r.value - base, r.next);
    }
  }

  lemma PointerNumber(buf: bytes, base: nat, off: nat, v: byte, b: seq<nat>)
    requires v < 8 && 0 < |b| <= 4 && off + |b| <= |buf|
    requires forall i :: 0 <= i < |b| ==> b[i] == buf[off + i]
    ensures var r := ReadPointer(buf, base, 8 * (|b| - 1) + v as int, off);
            && r.Ok? && r.next == off + |b|
            && r.value - base ==
               if |b| == 1 then 256 * v as int + b[0]
               else if |b| == 2 then 2048 + 65536 * v as int + 256 * b[0] + b[1]
               else if |b| == 3 then 526336 + 16777216 * v as int + 65536 * b[0] + 256 * b[1] + b[2]
               else 16777216 * b[0] + 65536 * b[1] + 256 * b[2] + b[3]
  {
    hide BigEndian;
    var read := Slice(buf, off, off + |b|);
    var b0: byte := read[0];
    if |b| == 1 {
      assert [v] + read == [v, b0];
      BigEndianBytes(v, b0, 0, 0);
    } else if |b| == 2 {
      assert [0] + [v] + read == [0, v, b0, read[1]];
      BigEndianBytes(0, v, b0, read[1]);
    } else if |b| == 3 {
      assert [v] + read == [v, b0, read[1], read[2]];
      BigEndianBytes(v, b0, read[1], read[2]);
    } else {
      assert read == [b0, read[1], read[2], read[3]];
      BigEndianBytes(b0, read[1], read[2], read[3]);
    }
  }

  /** The value at the target, with the offset behind the pointer; `Deep` when no more pointers may be followed. */
  function Through(buf: bytes, base: nat, d: nat, target: nat, next: nat): Outcome<Value>
  {
    if d == 0 then Deep
    else
      match Decode(buf, base, d - 1, base + target)
      case Ok(value, _) => Ok(value, next)
      case Bad(e) => Bad(e)
      case Deep => Deep
  }

  lemma PointerOf(buf: bytes, base: nat, d: nat, off: nat, target: nat, next: nat)
    requires off < |buf| && 0x20 <= buf[off] < 0x40
    requires ReadPointer(buf, base, buf[off] - 0x20, off + 1) == Ok(base + target, next)
    ensures Decode(buf, base, d, off) == Through(buf, base, d, target, next)
  {
    hide ReadPointer;
    assert ReadHead(buf, off) == Ok(Head(1, buf[off] - 0x20), off + 1);
  }

  /** A pointer that the end of the buffer cuts off raises struct.error. */
  lemma CutOffPointer(buf: bytes, base: nat, d: nat, off: nat)
    requires off < |buf| && 0x20 <= buf[off] < 0x40 && off + 1 + (buf[off] - 0x20) / 8 >= |buf|
    ensures Decode(buf, base, d, off) == Bad(BadStruct)
  {
    assert ReadHead(buf, off) == Ok(Head(1, buf[off] - 0x20), off + 1);
  }

  // ---------- containers ----------

  /** Behind `k` items that are decoded comes the next one: it is appended, or its exception is that of the array. */
  lemma {:induction false} NextItem(buf: bytes, base: nat, d: nat, n: nat, off: nat, acc: seq<Value>, k: nat)
    requires k < n && DecodeArray(buf, base, d, k, off, acc).Ok?
    ensures var sofar := DecodeArray(buf, base, d, k, off, acc);
            var item := Decode(buf, base, d, sofar.next);
            && (item.Ok? ==> DecodeArray(buf, base, d, k + 1, off, acc) == Ok(sofar.value + [item.value], item.next))
            && (item.Bad? ==> DecodeArray(buf, base, d, n, off, acc) == Bad(item.error))
            && (item.Deep? ==> DecodeArray(buf, base, d, n, off, acc) == Deep)
    decreases k
  {
    hide Decode;
    if k == 0 {
      var item := Decode(buf, base, d, off);
      assert item.Ok? ==> DecodeArray(buf, base, d, 0, item.next, acc + [item.value]).Ok?;
    } else {
      var first := Decode(buf, base, d, off);
      NextItem(buf, base, d, n - 1, first.next, acc + [first.value], k - 1);
    }
  }

  /** Behind `k` pairs that are decoded comes the next one: it is put, or its exception is that of the map. */
  lemma {:induction false} NextPair(buf: bytes, base: nat, d: nat, n: nat, off: nat, acc: seq<Entry>, k: nat)
    requires k < n && DecodeMap(buf, base, d, k, off, acc).Ok?
    ensures var sofar := DecodeMap(buf, base, d, k, off, acc);
            var pair := DecodeEntry(buf, base, d, sofar.next);
            && (pair.Ok? ==> DecodeMap(buf, base, d, k + 1, off, acc) ==
                             Ok(Put(sofar.value, pair.value.key, pair.value.value), pair.next))
            && (pair.Bad? ==> DecodeMap(buf, base, d, n, off, acc) == Bad(pair.error))
            && (pair.Deep? ==> DecodeMap(buf, base, d, n, off, acc) == Deep)
    decreases k
  {
    hide DecodeEntry, Put;
    var first := DecodeEntry(buf, base, d, off);
    if k == 0 {
      assert first.Ok? ==>
               DecodeMap(buf, base, d, 0, first.next, Put(acc, first.value.key, first.value.value)).Ok?;
    } else {
      NextPair(buf, base, d, n - 1, first.next, Put(acc, first.value.key, first.value.value), k - 1);
    }
  }

  /** A pair raises what its key raises, or else what its value raises. */
  lemma PairRaises(buf: bytes, base: nat, d: nat, off: nat)
    ensures var key := Decode(buf, base, d, off);
            && (key.Bad? ==> DecodeEntry(buf, base, d, off) == Bad(key.error))
            && (key.Deep? ==> DecodeEntry(buf, base, d, off) == Deep)
            && (key.Ok? ==>
                  var value := Decode(buf, base, d, key.next);
                  && (value.Bad? ==> DecodeEntry(buf, base, d, off) == Bad(value.error))
                  && (value.Deep? ==> DecodeEntry(buf, base, d, off) == Deep))
  {
    hide Decode;
  }

  /** A pair is a key and a value; a list or a dictionary cannot be a key. */
  lemma PairField(buf: bytes, base: nat, d: nat, off: nat, key: Value, mid: nat, value: Value, end: nat)
    requires Decode(buf, base, d, off) == Ok(key, mid) && Decode(buf, base, d, mid) == Ok(value, end)
    ensures DecodeEntry(buf, base, d, off) ==
            if key.Arr? || key.Dict? then Bad(BadKey) else Ok(Entry(key, value), end)
    ensures DecodeMap(buf, base, d, 1, off, []) ==
            if key.Arr? || key.Dict? then Bad(BadKey) else Ok([Entry(key, value)], end)
  {
    hide Decode;
    DecodedHasNoByteArray(buf, base, d, off);
    if Hashable(key) {
      MapStep(buf, base, d, 1, off, []);
      assert DecodeMap(buf, base, d, 0, end, [Entry(key, value)]) == Ok([Entry(key, value)], end);
    }
  }

  /** The decoder makes no byte arrays. */
  lemma {:induction false} DecodedHasNoByteArray(buf: bytes, base: nat, d: nat, off: nat)
    requires Decode(buf, base, d, off).Ok?
    ensures !Decode(buf, base, d, off).value.ByteArray?
    decreases d, Left(buf, off)
  {
    hide ReadPointer, DecodeArray, DecodeMap;
    var head := ReadHead(buf, off);
    var h := head.value;
    if h.kind == DATA_POINTER {
      PointerSizeFits(buf, off);
      DecodedHasNoByteArray(buf, base, d - 1, ReadPointer(buf, base, h.size, head.next).value);
    }
  }
}
