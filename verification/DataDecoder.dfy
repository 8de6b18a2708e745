/** `maxminddb/decoder.py`: the data section decoder, as a function of the buffer and as the class with
    its loops. */
module DataDecoder {
  import opened Wrappers
  import opened Bits
  import opened ByteStrings
  import opened Utf8
  import opened Values

  /** The result of decoding at an offset: a value and the offset behind it, or an exception. `Deep`
      stands for more nested pointers than the bound allows; `PointerGraph` says when that is so under
      every bound. */
  datatype Outcome<+T> = Ok(value: T, next: nat) | Bad(error: Error) | Deep

  // type numbers of the "Data Field Format"
  const DATA_POINTER := 1
  const TEXT := 2
  const DOUBLE := 3
  const BLOB := 4
  const UINT16 := 5
  const UINT32 := 6
  const MAP := 7
  const INT32 := 8
  const UINT64 := 9
  const UINT128 := 10
  const ARRAY := 11
  const BOOLEAN := 14
  const FLOAT := 15

  predicate KnownType(kind: nat) { 1 <= kind <= 11 || kind == BOOLEAN || kind == FLOAT }

  /** A control byte with what follows it: type number and size. */
  datatype Head = Head(kind: nat, size: nat)

  /** `ctrl_byte >> 5`, or the extended type in the next byte. */
  function ReadType(buf: bytes, ctrl: byte, off: nat): Outcome<nat>
  {
    if ctrl / 32 != 0 then Ok(ctrl / 32, off)
    else if off >= |buf| then Bad(OutOfRange)
    else var ext: nat := buf[off]; Ok(ext + 7, off + 1)
  }

  /** `_size_from_ctrl_byte` */
  function ReadSize(buf: bytes, ctrl: byte, off: nat, kind: nat): Outcome<nat>
  {
    var size := ctrl % 32;
    if kind == DATA_POINTER || size < 29 then Ok(size, off)
    else if size == 29 then
      if off >= |buf| then Bad(OutOfRange) else var more: nat := buf[off]; Ok(29 + more, off + 1)
    else if size == 30 then Biased(Unpack(Slice(buf, off, off + 2), 2), 285, off + 2)
    else Biased(Unpack([0] + Slice(buf, off, off + 3), 4), 65821, off + 3)
  }

  function Biased(r: Result<nat>, bias: nat, next: nat): Outcome<nat>
  {
    match r
    case Success(n) => Ok(n + bias, next)
    case Failure(e) => Bad(e)
  }

  function ReadHead(buf: bytes, off: nat): (r: Outcome<Head>)
    ensures r.Ok? ==> off < |buf| && off < r.next && KnownType(r.value.kind)
    ensures !r.Deep?
  {
    if off >= |buf| then Bad(OutOfRange)
    else
      match ReadType(buf, buf[off], off + 1)
      case Bad(e) => Bad(e)
      case Deep => Bad(InvalidDatabase)
      case Ok(kind, off1) =>
        if !KnownType(kind) then Bad(InvalidDatabase)
        else
          match ReadSize(buf, buf[off], off1, kind)
          case Bad(e) => Bad(e)
          case Deep => Bad(InvalidDatabase)
          case Ok(size, off2) => Ok(Head(kind, size), off2)
  }

  /** `struct.unpack(b"!i")` of the payload padded on the left to four bytes. */
  function DecodeInt32(payload: bytes, size: nat): Result<int>
  {
    if size == 0 then Success(0)
    else
      var padded := if size != 4 && |payload| < 4 then Pad(payload, 4) else payload;
      if |padded| != 4 then Failure(BadStruct) else Success(Signed32(BigEndian(padded)))
  }

  /** `rjust(k, b"\x00")` */
  function Pad(bs: bytes, k: nat): (r: bytes)
    requires |bs| <= k
    ensures |r| == k
  {
    seq(k - |bs|, _ => 0) + bs
  }

  function Signed32(n: nat): int
  {
    if n < 0x8000_0000 then n else n - 0x1_0000_0000
  }

  /** The types that are neither containers nor pointers. */
  function DecodeScalar(buf: bytes, h: Head, off: nat): (r: Outcome<Value>)
    ensures r.Ok? ==> r.next >= off
    ensures !r.Deep?
  {
    var end := off + h.size;
    var payload := Slice(buf, off, end);
    if h.kind == TEXT then if ValidUtf8(payload) then Ok(Text(payload), end) else Bad(BadText)
    else if h.kind == BLOB then Ok(Blob(payload), end)
    else if h.kind == DOUBLE then
      if h.size != 8 then Bad(InvalidDatabase)
      else if |payload| != 8 then Bad(BadStruct) else Ok(Double(payload), end)
    else if h.kind == FLOAT then
      if h.size != 4 then Bad(InvalidDatabase)
      else if |payload| != 4 then Bad(BadStruct) else Ok(Float(payload), end)
    else if h.kind == INT32 then
      match DecodeInt32(payload, h.size)
      case Success(n) => Ok(Int(n), end)
      case Failure(e) => Bad(e)
    else if h.kind == BOOLEAN then Ok(Bool(h.size != 0), off)
    else Ok(Int(BigEndian(payload)), end)
  }

  /** The pointer part of `_decode_pointer`: where it points, and the offset behind it. */
  function ReadPointer(buf: bytes, base: nat, size: nat, off: nat): (r: Outcome<nat>)
    requires size < 32
    ensures r.Ok? ==> r.next > off
    ensures !r.Deep?
  {
    var pointerSize := size / 8 + 1;
    var next := off + pointerSize;
    var bs := Slice(buf, off, next);
    if pointerSize == 1 then Biased(Unpack([size % 8] + bs, 2), base, next)
    else if pointerSize == 2 then Biased(Unpack([0] + [size % 8] + bs, 4), 2048 + base, next)
    else if pointerSize == 3 then Biased(Unpack([size % 8] + bs, 4), 526336 + base, next)
    else Biased(Unpack(bs, 4), base, next)
  }

  /** How much of the buffer is left. */
  function Left(buf: bytes, off: nat): nat
  {
    if off < |buf| then |buf| - off else 0
  }

  lemma PointerSizeFits(buf: bytes, off: nat)
    requires ReadHead(buf, off).Ok? && ReadHead(buf, off).value.kind == DATA_POINTER
    ensures ReadHead(buf, off).value.size < 32
  {
  }

  /** `Decoder.decode`, following at most `d` nested pointers. */
  function Decode(buf: bytes, base: nat, d: nat, off: nat): (r: Outcome<Value>)
    ensures r.Ok? ==> off < |buf| && off < r.next
    decreases d, Left(buf, off), 0
  {
    match ReadHead(buf, off)
    case Bad(e) => Bad(e)
    case Deep => Deep
    case Ok(h, next) =>
      if h.kind == DATA_POINTER then
        PointerSizeFits(buf, off);
        DecodePointer(buf, base, d, h.size, next)
      else if h.kind == MAP then
        match DecodeMap(buf, base, d, h.size, next, [])
        case Ok(entries, end) => Ok(Dict(entries), end)
        case Bad(e) => Bad(e)
        case Deep => Deep
      else if h.kind == ARRAY then
        match DecodeArray(buf, base, d, h.size, next, [])
        case Ok(items, end) => Ok(Arr(items), end)
        case Bad(e) => Bad(e)
        case Deep => Deep
      else DecodeScalar(buf, h, next)
  }

  function DecodePointer(buf: bytes, base: nat, d: nat, size: nat, off: nat): (r: Outcome<Value>)
    requires size < 32
    ensures r.Ok? ==> off < r.next
    decreases d, Left(buf, off), 1
  {
    match ReadPointer(buf, base, size, off)
    case Bad(e) => Bad(e)
    case Deep => Deep
    case Ok(pointer, next) =>
      if d == 0 then Deep
      else
        match Decode(buf, base, d - 1, pointer)
        case Ok(value, _) => Ok(value, next)
        case Bad(e) => Bad(e)
        case Deep => Deep
  }

  /** The rest of an array: `n` more items after those in `acc`. */
  function DecodeArray(buf: bytes, base: nat, d: nat, n: nat, off: nat, acc: seq<Value>): (r: Outcome<seq<Value>>)
    ensures r.Ok? ==> off <= r.next
    decreases d, Left(buf, off), 1
  {
    if n == 0 then Ok(acc, off)
    else
      match Decode(buf, base, d, off)
      case Ok(value, next) => DecodeArray(buf, base, d, n - 1, next, acc + [value])
      case Bad(e) => Bad(e)
      case Deep => Deep
  }

  lemma ArrayStep(buf: bytes, base: nat, d: nat, n: nat, off: nat, acc: seq<Value>)
    requires n > 0 && Decode(buf, base, d, off).Ok?
    ensures var v := Decode(buf, base, d, off);
            DecodeArray(buf, base, d, n, off, acc) == DecodeArray(buf, base, d, n - 1, v.next, acc + [v.value])
  {
  }

  /** One key and its value. */
  function DecodeEntry(buf: bytes, base: nat, d: nat, off: nat): (r: Outcome<Entry>)
    ensures r.Ok? ==> off < |buf| && off < r.next
    decreases d, Left(buf, off), 1
  {
    match Decode(buf, base, d, off)
    case Bad(e) => Bad(e)
    case Deep => Deep
    case Ok(key, off1) =>
      match Decode(buf, base, d, off1)
      case Bad(e) => Bad(e)
      case Deep => Deep
      case Ok(value, off2) => if Hashable(key) then Ok(Entry(key, value), off2) else Bad(BadKey)
  }

  /** The rest of a map: `n` more entries to put into `acc`. */
  function DecodeMap(buf: bytes, base: nat, d: nat, n: nat, off: nat, acc: seq<Entry>): (r: Outcome<seq<Entry>>)
    ensures r.Ok? ==> off <= r.next
    decreases d, Left(buf, off), 2
  {
    if n == 0 then Ok(acc, off)
    else
      match DecodeEntry(buf, base, d, off)
      case Ok(entry, next) => DecodeMap(buf, base, d, n - 1, next, Put(acc, entry.key, entry.value))
      case Bad(e) => Bad(e)
      case Deep => Deep
  }

  lemma MapStep(buf: bytes, base: nat, d: nat, n: nat, off: nat, acc: seq<Entry>)
    requires n > 0 && DecodeEntry(buf, base, d, off).Ok?
    ensures var e := DecodeEntry(buf, base, d, off);
            DecodeMap(buf, base, d, n, off, acc) ==
            DecodeMap(buf, base, d, n - 1, e.next, Put(acc, e.value.key, e.value.value))
  {
  }

  // ---------- the decoder object ----------

  class Decoder {
    const buffer: bytes
    const pointerBase: nat

    constructor (buffer: bytes, pointerBase: nat)
      ensures this.buffer == buffer && this.pointerBase == pointerBase
    {
      this.buffer, this.pointerBase := buffer, pointerBase;
    }

    /** `decode`: terminates wherever some bound `d` on nested pointers suffices. */
    method DecodeAt(ghost d: nat, offset: nat) returns (r: Outcome<Value>)
      requires Decode(buffer, pointerBase, d, offset) != Deep
      ensures r == Decode(buffer, pointerBase, d, offset)
      decreases d, Left(buffer, offset), 0
    {
      var head := ReadHead(buffer, offset);
      if head.Bad? {
        return Bad(head.error);
      }
      var h := head.value;
      if h.kind == DATA_POINTER {
        PointerSizeFits(buffer, offset);
        r := PointerAt(d, h.size, head.next);
      } else if h.kind == MAP {
        var m := MapAt(d, h.size, head.next);
        r := if m.Ok? then Ok(Dict(m.value), m.next) else Bad(m.error);
      } else if h.kind == ARRAY {
        var a := ArrayAt(d, h.size, head.next);
        r := if a.Ok? then Ok(Arr(a.value), a.next) else Bad(a.error);
      } else {
        r := DecodeScalar(buffer, h, head.next);
      }
    }

    /** `_decode_pointer` */
    method PointerAt(ghost d: nat, size: nat, offset: nat) returns (r: Outcome<Value>)
      requires size < 32
      requires DecodePointer(buffer, pointerBase, d, size, offset) != Deep
      ensures r == DecodePointer(buffer, pointerBase, d, size, offset)
      decreases d, Left(buffer, offset), 1
    {
      var p := ReadPointer(buffer, pointerBase, size, offset);
      if p.Bad? {
        return Bad(p.error);
      }
      var v := DecodeAt(d - 1, p.value);
      r := if v.Ok? then Ok(v.value, p.next) else v;
    }

    /** `_decode_array` */
    method ArrayAt(ghost d: nat, size: nat, offset: nat) returns (r: Outcome<seq<Value>>)
      requires DecodeArray(buffer, pointerBase, d, size, offset, []) != Deep
      ensures r == DecodeArray(buffer, pointerBase, d, size, offset, [])
      decreases d, Left(buffer, offset), 1
    {
      hide Decode;
      var items, off := [], offset;
      for i := 0 to size
        invariant off >= offset
        invariant DecodeArray(buffer, pointerBase, d, size - i, off, items) ==
                  DecodeArray(buffer, pointerBase, d, size, offset, [])
      {
        var v := DecodeAt(d, off);
        if v.Bad? {
          return Bad(v.error);
        }
        ArrayStep(buffer, pointerBase, d, size - i, off, items);
        items, off := items + [v.value], v.next;
      }
      r := Ok(items, off);
    }

    /** The two calls of `decode` in a turn of `_decode_map`. */
    method EntryAt(ghost d: nat, offset: nat) returns (r: Outcome<Entry>)
      requires DecodeEntry(buffer, pointerBase, d, offset) != Deep
      ensures r == DecodeEntry(buffer, pointerBase, d, offset)
      decreases d, Left(buffer, offset), 1
    {
      var k := DecodeAt(d, offset);
      if k.Bad? {
        return Bad(k.error);
      }
      var v := DecodeAt(d, k.next);
      if v.Bad? {
        return Bad(v.error);
      }
      r := if Hashable(k.value) then Ok(Entry(k.value, v.value), v.next) else Bad(BadKey);
    }

    /** `_decode_map` */
    method MapAt(ghost d: nat, size: nat, offset: nat) returns (r: Outcome<seq<Entry>>)
      requires DecodeMap(buffer, pointerBase, d, size, offset, []) != Deep
      ensures r == DecodeMap(buffer, pointerBase, d, size, offset, [])
      decreases d, Left(buffer, offset), 2
    {
      hide DecodeEntry;
      var container, off := [], offset;
      for i := 0 to size
        invariant off >= offset
        invariant DecodeMap(buffer, pointerBase, d, size - i, off, container) ==
                  DecodeMap(buffer, pointerBase, d, size, offset, [])
      {
        var e := EntryAt(d, off);
        if e.Bad? {
          return Bad(e.error);
        }
        MapStep(buffer, pointerBase, d, size - i, off, container);
        container, off := Put(container, e.value.key, e.value.value), e.next;
      }
      r := Ok(container, off);
    }
  }

  // ---------- pointer nesting ----------

  /** A larger bound changes nothing once one suffices. */
  lemma {:induction false} MoreDepth(buf: bytes, base: nat, d: nat, e: nat, off: nat)
    requires d <= e && Decode(buf, base, d, off) != Deep
    ensures Decode(buf, base, e, off) == Decode(buf, base, d, off)
    decreases d, Left(buf, off), 0
  {
    hide ReadPointer, DecodeScalar;
    var head := ReadHead(buf, off);
    if head.Ok? {
      var h := head.value;
      if h.kind == DATA_POINTER {
        PointerSizeFits(buf, off);
        var p := ReadPointer(buf, base, h.size, head.next);
        if p.Ok? {
          MoreDepth(buf, base, d - 1, e - 1, p.value);
        }
      } else if h.kind == MAP {
        MoreDepthMap(buf, base, d, e, h.size, head.next, []);
      } else if h.kind == ARRAY {
        MoreDepthArray(buf, base, d, e, h.size, head.next, []);
      }
    }
  }

  lemma {:induction false} MoreDepthArray(buf: bytes, base: nat, d: nat, e: nat, n: nat, off: nat, acc: seq<Value>)
    requires d <= e && DecodeArray(buf, base, d, n, off, acc) != Deep
    ensures DecodeArray(buf, base, e, n, off, acc) == DecodeArray(buf, base, d, n, off, acc)
    decreases d, Left(buf, off), 1
  {
    hide Decode;
    if n > 0 {
      MoreDepth(buf, base, d, e, off);
      var v := Decode(buf, base, d, off);
      if v.Ok? {
        MoreDepthArray(buf, base, d, e, n - 1, v.next, acc + [v.value]);
      }
    }
  }

  lemma {:induction false} MoreDepthEntry(buf: bytes, base: nat, d: nat, e: nat, off: nat)
    requires d <= e && DecodeEntry(buf, base, d, off) != Deep
    ensures DecodeEntry(buf, base, e, off) == DecodeEntry(buf, base, d, off)
    decreases d, Left(buf, off), 1
  {
    hide Decode;
    MoreDepth(buf, base, d, e, off);
    var k := Decode(buf, base, d, off);
    if k.Ok? {
      MoreDepth(buf, base, d, e, k.next);
    }
  }

  lemma {:induction false} MoreDepthMap(buf: bytes, base: nat, d: nat, e: nat, n: nat, off: nat, acc: seq<Entry>)
    requires d <= e && DecodeMap(buf, base, d, n, off, acc) != Deep
    ensures DecodeMap(buf, base, e, n, off, acc) == DecodeMap(buf, base, d, n, off, acc)
    decreases d, Left(buf, off), 2
  {
    hide DecodeEntry;
    if n > 0 {
      MoreDepthEntry(buf, base, d, e, off);
      var en := DecodeEntry(buf, base, d, off);
      if en.Ok? {
        MoreDepthMap(buf, base, d, e, n - 1, en.next, Put(acc, en.value.key, en.value.value));
      }
    }
  }
}
