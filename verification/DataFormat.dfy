/** The data section of the MaxMind DB format, written down as what can be laid out in a buffer, and the
    proof that the decoder returns a value exactly where a layout of that value is. */
module DataFormat {
  import opened Bits
  import opened ByteStrings
  import opened Utf8
  import opened Values
  import opened DataDecoder

  /** A data field as it is laid out: every value with the choices its encoder made. A pointer names the
      offset it holds and the field laid out there; `spare` are the bits its longest form does not use. */
  datatype Field =
    | Scalar(kind: nat, size: nat, payload: bytes)
    | Boolean(size: nat)
    | Array(items: Fields)
    | Map(pairs: Pairs, extended: bool)
    | Pointer(form: nat, spare: nat, target: nat, to: Field)

  datatype Fields = NoFields | Then(first: Field, rest: Fields)

  datatype Pairs = NoPairs | Pair(key: Field, value: Field, rest: Pairs)

  function Length(fs: Fields): nat
  {
    if fs.NoFields? then 0 else 1 + Length(fs.rest)
  }

  function PairCount(ps: Pairs): nat
  {
    if ps.NoPairs? then 0 else 1 + PairCount(ps.rest)
  }

  // ---------- control bytes: "Data Field Format" and "Payload Size" ----------

  const MAX_SIZE: nat := 65821 + 0x100_0000 - 1

  /** The five size bits. */
  function SizeBits(size: nat): nat
  {
    if size < 29 then size else if size < 285 then 29 else if size < 65821 then 30 else 31
  }

  /** The size bytes behind the control byte. */
  function SizeBytes(size: nat): bytes
  {
    if size < 29 then []
    else if size < 285 then ToBytes(size - 29, 1)
    else if size < 65821 then ToBytes(size - 285, 2)
    else ToBytes(size - 65821, 3)
  }

  /** Type numbers up to 7 fit in the control byte, from 7 on they can be given by an extended type byte. */
  predicate HeadForm(kind: nat, extended: bool)
  {
    KnownType(kind) && if extended then kind >= 7 else kind <= 7
  }

  function HeadBytes(kind: nat, size: nat, extended: bool): bytes
    requires extended ==> kind >= 7
  {
    (if extended then ToBytes(SizeBits(size), 1) + ToBytes(kind - 7, 1)
     else ToBytes(32 * kind + SizeBits(size), 1)) + SizeBytes(size)
  }

  // ---------- pointers ----------

  /** What each pointer form adds to the number it holds. */
  function Bias(form: nat): nat
  {
    if form == 2 then 2048 else if form == 3 then 526336 else 0
  }

  /** The targets each pointer form can hold. */
  predicate InForm(form: nat, target: nat)
  {
    || (form == 1 && target < 2048)
    || (form == 2 && 2048 <= target < 526336)
    || (form == 3 && 526336 <= target < 134744064)
    || (form == 4 && target < 0x1_0000_0000)
  }

  /** Three bits of the number go into the control byte, the rest follows; the last form uses four whole
      bytes and leaves the three bits unused. */
  function PointerBytes(form: nat, spare: nat, target: nat): bytes
    requires InForm(form, target)
  {
    var t := target - Bias(form);
    ToBytes(32 + 8 * (form - 1) + if form < 4 then High(form, t) else spare, 1) + ToBytes(t, form)
  }

  /** What is above the low `k` bytes of `t`. */
  function High(k: nat, t: nat): nat
  {
    if k == 0 then t else High(k - 1, t / 256)
  }

  lemma {:induction false} HighByteInFront(k: nat, t: nat)
    requires High(k, t) < 256
    ensures [High(k, t)] + ToBytes(t, k) == ToBytes(t, k + 1)
  {
    if k > 0 {
      HighByteInFront(k - 1, t / 256);
    }
  }

  /** The numbers of the first three forms leave three bits above their bytes. */
  lemma ThreeHighBits(form: nat, target: nat)
    requires InForm(form, target) && form < 4
    ensures High(form, target - Bias(form)) < 8
  {
    var t := target - Bias(form);
    assert High(1, t) == t / 256;
    assert High(2, t) == High(1, t / 256) == t / 256 / 256;
    assert High(3, t) == High(2, t / 256) == High(1, t / 256 / 256) == t / 256 / 256 / 256;
  }

  // ---------- layouts ----------

  predicate ScalarKind(kind: nat)
  {
    kind in {TEXT, BLOB, DOUBLE, FLOAT, UINT16, UINT32, UINT64, UINT128, INT32}
  }

  /** Which sizes and payloads the decoder takes. A payload is shorter than its size only where the buffer
      ends. */
  predicate ReadableScalar(kind: nat, size: nat, payload: bytes)
  {
    && ScalarKind(kind) && size <= MAX_SIZE && |payload| <= size
    && (kind == TEXT ==> ValidUtf8(payload))
    && (kind == DOUBLE ==> size == 8 == |payload|)
    && (kind == FLOAT ==> size == 4 == |payload|)
    && (kind == INT32 ==> if size == 4 then |payload| == 4 else |payload| <= 4)
  }

  /** What can be decoded: sizes within the largest size form, readable scalars, hashable map keys. */
  predicate Readable(f: Field)
  {
    match f
    case Scalar(kind, size, payload) => ReadableScalar(kind, size, payload)
    case Boolean(size) => size <= MAX_SIZE
    case Array(items) => Length(items) <= MAX_SIZE && ReadableItems(items)
    case Map(pairs, _) => PairCount(pairs) <= MAX_SIZE && ReadablePairs(pairs)
    case Pointer(_, spare, _, to) => spare < 8 && Readable(to)
  }

  predicate ReadableItems(fs: Fields)
  {
    fs.Then? ==> Readable(fs.first) && ReadableItems(fs.rest)
  }

  predicate ReadablePairs(ps: Pairs)
  {
    ps.Pair? ==> Readable(ps.key) && Hashable(Meaning(ps.key)) && Readable(ps.value) && ReadablePairs(ps.rest)
  }

  function ScalarMeaning(kind: nat, payload: bytes): Value
  {
    if kind == TEXT then Text(payload)
    else if kind == BLOB then Blob(payload)
    else if kind == DOUBLE then Double(payload)
    else if kind == FLOAT then Float(payload)
    else if kind == INT32 && |payload| == 4 then Int(Signed32(BigEndian(payload)))
    else Int(BigEndian(payload))
  }

  /** The value a field stands for. */
  function Meaning(f: Field): Value
  {
    match f
    case Scalar(kind, _, payload) => ScalarMeaning(kind, payload)
    case Boolean(size) => Bool(size != 0)
    case Array(items) => Arr(MeaningItems(items))
    case Map(pairs, _) => Dict(MeaningPairs(pairs, []))
    case Pointer(_, _, _, to) => Meaning(to)
  }

  function MeaningItems(fs: Fields): seq<Value>
  {
    if fs.NoFields? then [] else [Meaning(fs.first)] + MeaningItems(fs.rest)
  }

  /** The dictionary after putting the pairs into `acc` one by one. */
  function MeaningPairs(ps: Pairs, acc: seq<Entry>): seq<Entry>
    decreases ps
  {
    if ps.NoPairs? then acc
    else MeaningPairs(ps.rest, Put(acc, Meaning(ps.key), Meaning(ps.value)))
  }

  /** How many pointers can follow one another. */
  function Nesting(f: Field): nat
  {
    match f
    case Array(items) => NestingItems(items)
    case Map(pairs, _) => NestingPairs(pairs)
    case Pointer(_, _, _, to) => 1 + Nesting(to)
    case _ => 0
  }

  function Max(x: nat, y: nat): nat { if x < y then y else x }

  function NestingItems(fs: Fields): nat
  {
    if fs.NoFields? then 0 else Max(Nesting(fs.first), NestingItems(fs.rest))
  }

  function NestingPairs(ps: Pairs): nat
  {
    if ps.NoPairs? then 0 else Max(Max(Nesting(ps.key), Nesting(ps.value)), NestingPairs(ps.rest))
  }

  // ---------- laid out in a buffer ----------

  /** How far a field reaches, without what its pointers point to. */
  function Extent(f: Field): nat
  {
    match f
    case Scalar(kind, size, _) => |HeadBytes(kind, size, kind > 7)| + size
    case Boolean(size) => |HeadBytes(BOOLEAN, size, true)|
    case Array(items) => |HeadBytes(ARRAY, Length(items), true)| + ExtentItems(items)
    case Map(pairs, extended) => |HeadBytes(MAP, PairCount(pairs), extended)| + ExtentPairs(pairs)
    case Pointer(form, _, _, _) => 1 + form
  }

  function ExtentItems(fs: Fields): nat
  {
    if fs.NoFields? then 0 else Extent(fs.first) + ExtentItems(fs.rest)
  }

  function ExtentPairs(ps: Pairs): nat
  {
    if ps.NoPairs? then 0 else Extent(ps.key) + Extent(ps.value) + ExtentPairs(ps.rest)
  }

  predicate At(buf: bytes, off: nat, bs: bytes)
  {
    off + |bs| <= |buf| && buf[off..off + |bs|] == bs
  }

  /** The field is at `off`: its head, its payload or its parts one behind the other, and what its pointers
      point to where they say. */
  predicate Laid(buf: bytes, base: nat, off: nat, f: Field)
    decreases f
  {
    match f
    case Scalar(kind, size, payload) =>
      var head := HeadBytes(kind, size, kind > 7);
      At(buf, off, head) && Slice(buf, off + |head|, off + |head| + size) == payload
    case Boolean(size) => At(buf, off, HeadBytes(BOOLEAN, size, true))
    case Array(items) =>
      var head := HeadBytes(ARRAY, Length(items), true);
      At(buf, off, head) && LaidItems(buf, base, off + |head|, items)
    case Map(pairs, extended) =>
      var head := HeadBytes(MAP, PairCount(pairs), extended);
      At(buf, off, head) && LaidPairs(buf, base, off + |head|, pairs)
    case Pointer(form, spare, target, to) =>
      InForm(form, target) && At(buf, off, PointerBytes(form, spare, target)) && Laid(buf, base, base + target, to)
  }

  predicate LaidItems(buf: bytes, base: nat, off: nat, fs: Fields)
    decreases fs
  {
    fs.Then? ==> Laid(buf, base, off, fs.first) && LaidItems(buf, base, off + Extent(fs.first), fs.rest)
  }

  predicate LaidPairs(buf: bytes, base: nat, off: nat, ps: Pairs)
    decreases ps
  {
    ps.Pair? ==>
      var mid := off + Extent(ps.key);
      Laid(buf, base, off, ps.key) && Laid(buf, base, mid, ps.value) &&
      LaidPairs(buf, base, mid + Extent(ps.value), ps.rest)
  }

  lemma AtConcat(buf: bytes, off: nat, x: bytes, y: bytes)
    ensures At(buf, off, x + y) <==> At(buf, off, x) && At(buf, off + |x|, y)
  {
    if At(buf, off, x + y) {
      assert buf[off..off + |x|] == buf[off..off + |x + y|][..|x|];
      assert buf[off + |x|..off + |x| + |y|] == buf[off..off + |x + y|][|x|..];
    }
    if At(buf, off, x) && At(buf, off + |x|, y) {
      assert buf[off..off + |x + y|] == buf[off..off + |x|] + buf[off + |x|..off + |x| + |y|];
    }
  }

  lemma AtByte(buf: bytes, off: nat, b: byte)
    requires At(buf, off, [b])
    ensures off < |buf| && buf[off] == b
  {
    assert buf[off..off + 1][0] == buf[off];
  }

  lemma AtSlice(buf: bytes, off: nat, bs: bytes)
    requires At(buf, off, bs)
    ensures Slice(buf, off, off + |bs|) == bs
  {
  }

  // ---------- heads ----------

  /** The size forms are read back, with no gap and no overlap between them. */
  lemma SizeIsRead(buf: bytes, ctrl: byte, off: nat, kind: nat, size: nat)
    requires kind != DATA_POINTER && size <= MAX_SIZE
    requires ctrl % 32 == SizeBits(size) && At(buf, off, SizeBytes(size))
    ensures ReadSize(buf, ctrl, off, kind) == Ok(size, off + |SizeBytes(size)|)
  {
    var more := SizeBytes(size);
    Pow2Facts();
    AtSlice(buf, off, more);
    if size < 29 {
    } else if size < 285 {
      assert more == [size - 29];
      AtByte(buf, off, size - 29);
    } else if size < 65821 {
      BigEndianToBytes(size - 285, 2);
    } else {
      BigEndianToBytes(size - 65821, 3);
      BigEndianConcat([0], more);
      assert BigEndian([0]) == 0;
    }
  }

  lemma OneByte(n: nat)
    requires n < 256
    ensures ToBytes(n, 1) == [n]
  {
  }

  lemma HeadIsRead(buf: bytes, off: nat, kind: nat, size: nat, extended: bool)
    requires HeadForm(kind, extended) && kind != DATA_POINTER && size <= MAX_SIZE
    requires At(buf, off, HeadBytes(kind, size, extended))
    ensures ReadHead(buf, off) == Ok(Head(kind, size), off + |HeadBytes(kind, size, extended)|)
  {
    hide ReadSize, SizeBytes, At, ToBytes;
    var s, more := SizeBits(size), SizeBytes(size);
    if !extended {
      OneByte(32 * kind + s);
      AtConcat(buf, off, [32 * kind + s], more);
      AtByte(buf, off, 32 * kind + s);
      SizeIsRead(buf, 32 * kind + s, off + 1, kind, size);
    } else {
      OneByte(s);
      OneByte(kind - 7);
      assert HeadBytes(kind, size, extended) == [s] + ([kind - 7] + more);
      AtConcat(buf, off, [s], [kind - 7] + more);
      AtConcat(buf, off + 1, [kind - 7], more);
      AtByte(buf, off, s);
      AtByte(buf, off + 1, kind - 7);
      SizeIsRead(buf, s, off + 2, kind, size);
    }
  }

  /** A number of `k` bytes with a byte in front, and with one more zero byte in front. */
  lemma NumberIsRead(high: byte, t: nat, k: nat)
    requires high == High(k, t) && t < Pow2(8 * (k + 1))
    ensures BigEndian([high] + ToBytes(t, k)) == t
    ensures BigEndian([0] + [high] + ToBytes(t, k)) == t
  {
    var bs := ToBytes(t, k);
    HighByteInFront(k, t);
    BigEndianToBytes(t, k + 1);
    BigEndianConcat([0], [high] + bs);
    assert [0] + [high] + bs == [0] + ([high] + bs);
    assert BigEndian([0]) == 0;
  }

  lemma PointerHeadIsRead(buf: bytes, off: nat, form: nat, high: nat)
    requires 1 <= form <= 4 && high < 8 && At(buf, off, ToBytes(32 + 8 * (form - 1) + high, 1))
    ensures ReadHead(buf, off) == Ok(Head(DATA_POINTER, 8 * (form - 1) + high), off + 1)
  {
    OneByte(32 + 8 * (form - 1) + high);
    AtByte(buf, off, 32 + 8 * (form - 1) + high);
  }

  lemma PointerNumberIsRead(buf: bytes, base: nat, form: nat, off: nat, t: nat)
    requires 1 <= form <= 3 && High(form, t) < 8 && t < Pow2(8 * (form + 1))
    requires At(buf, off, ToBytes(t, form))
    ensures ReadPointer(buf, base, 8 * (form - 1) + High(form, t), off) == Ok(t + Bias(form) + base, off + form)
  {
    hide ToBytes, BigEndian, High;
    var high: byte := High(form, t);
    AtSlice(buf, off, ToBytes(t, form));
    NumberIsRead(high, t, form);
    assert (8 * (form - 1) + high) / 8 + 1 == form && (8 * (form - 1) + high) % 8 == high;
  }

  lemma LastFormIsRead(buf: bytes, base: nat, off: nat, t: nat, spare: nat)
    requires t < 0x1_0000_0000 && spare < 8 && At(buf, off, ToBytes(t, 4))
    ensures ReadPointer(buf, base, 24 + spare, off) == Ok(t + base, off + 4)
  {
    AtSlice(buf, off, ToBytes(t, 4));
    Pow2Facts();
    BigEndianToBytes(t, 4);
  }

  /** A pointer is read back as its target, whatever its form. */
  lemma PointerIsRead(buf: bytes, base: nat, off: nat, form: nat, spare: nat, target: nat) returns (size: nat)
    requires InForm(form, target) && spare < 8 && At(buf, off, PointerBytes(form, spare, target))
    ensures size < 32 && ReadHead(buf, off) == Ok(Head(DATA_POINTER, size), off + 1)
    ensures ReadPointer(buf, base, size, off + 1) == Ok(base + target, off + 1 + form)
  {
    hide ReadHead, ReadPointer, At, ToBytes, High;
    var t := target - Bias(form);
    Pow2Facts();
    if form < 4 {
      ThreeHighBits(form, target);
    }
    var high := if form < 4 then High(form, t) else spare;
    size := 8 * (form - 1) + high;
    AtConcat(buf, off, ToBytes(32 + size, 1), ToBytes(t, form));
    PointerHeadIsRead(buf, off, form, high);
    if form < 4 {
      PointerNumberIsRead(buf, base, form, off + 1, t);
    } else {
      LastFormIsRead(buf, base, off + 1, t, spare);
    }
  }

  // ---------- a layout is decoded ----------

  lemma PointerCase(buf: bytes, base: nat, d: nat, off: nat, form: nat, spare: nat, target: nat, v: Value, end: nat)
    requires InForm(form, target) && spare < 8 && At(buf, off, PointerBytes(form, spare, target))
    requires d > 0 && Decode(buf, base, d - 1, base + target) == Ok(v, end)
    ensures Decode(buf, base, d, off) == Ok(v, off + 1 + form)
  {
    hide ReadHead, ReadPointer, PointerBytes, At;
    var size := PointerIsRead(buf, base, off, form, spare, target);
    PointerStep(buf, base, d, off, size);
  }

  lemma PointerStep(buf: bytes, base: nat, d: nat, off: nat, size: nat)
    requires size < 32 && ReadHead(buf, off) == Ok(Head(DATA_POINTER, size), off + 1)
    ensures Decode(buf, base, d, off) == DecodePointer(buf, base, d, size, off + 1)
  {
  }

  lemma ArrayCase(buf: bytes, base: nat, d: nat, off: nat, n: nat, items: seq<Value>, end: nat)
    requires n <= MAX_SIZE && At(buf, off, HeadBytes(ARRAY, n, true))
    requires DecodeArray(buf, base, d, n, off + |HeadBytes(ARRAY, n, true)|, []) == Ok(items, end)
    ensures Decode(buf, base, d, off) == Ok(Arr(items), end)
  {
    hide HeadBytes, ReadHead, At;
    HeadIsRead(buf, off, ARRAY, n, true);
  }

  lemma MapCase(buf: bytes, base: nat, d: nat, off: nat, n: nat, extended: bool, entries: seq<Entry>, end: nat)
    requires n <= MAX_SIZE && At(buf, off, HeadBytes(MAP, n, extended))
    requires DecodeMap(buf, base, d, n, off + |HeadBytes(MAP, n, extended)|, []) == Ok(entries, end)
    ensures Decode(buf, base, d, off) == Ok(Dict(entries), end)
  {
    hide HeadBytes, ReadHead, At;
    HeadIsRead(buf, off, MAP, n, extended);
  }

  lemma BooleanCase(buf: bytes, base: nat, d: nat, off: nat, size: nat)
    requires size <= MAX_SIZE && At(buf, off, HeadBytes(BOOLEAN, size, true))
    ensures Decode(buf, base, d, off) == Ok(Bool(size != 0), off + |HeadBytes(BOOLEAN, size, true)|)
  {
    hide HeadBytes, ReadHead, At;
    HeadIsRead(buf, off, BOOLEAN, size, true);
  }

  lemma ScalarCase(buf: bytes, base: nat, d: nat, off: nat, kind: nat, size: nat, payload: bytes)
    requires ReadableScalar(kind, size, payload) && At(buf, off, HeadBytes(kind, size, kind > 7))
    requires var next := off + |HeadBytes(kind, size, kind > 7)|; Slice(buf, next, next + size) == payload
    ensures Decode(buf, base, d, off) ==
            Ok(ScalarMeaning(kind, payload), off + |HeadBytes(kind, size, kind > 7)| + size)
  {
    hide HeadBytes, ReadHead, DecodeScalar, At;
    HeadIsRead(buf, off, kind, size, kind > 7);
    ScalarIsRead(buf, off + |HeadBytes(kind, size, kind > 7)|, kind, size);
  }

  /** A scalar is read exactly when its size and payload are readable, and then as what they mean. */
  lemma ScalarIsRead(buf: bytes, off: nat, kind: nat, size: nat)
    requires ScalarKind(kind) && size <= MAX_SIZE
    ensures var payload := Slice(buf, off, off + size);
            if ReadableScalar(kind, size, payload)
            then DecodeScalar(buf, Head(kind, size), off) == Ok(ScalarMeaning(kind, payload), off + size)
            else DecodeScalar(buf, Head(kind, size), off).Bad?
  {
    hide BigEndian;
    var payload := Slice(buf, off, off + size);
    if kind == INT32 && |payload| < 4 {
      PadIsZeros(payload);
      if size == 0 {
        BigEndianOfNothing();
      }
    }
  }

  lemma BigEndianOfNothing()
    ensures BigEndian([]) == 0
  {
  }

  lemma PadIsZeros(payload: bytes)
    requires |payload| < 4
    ensures BigEndian(Pad(payload, 4)) == BigEndian(payload) < 0x100_0000
  {
    hide BigEndian;
    BigEndianOfPad(4 - |payload|, payload);
    BigEndianBound(payload);
    Pow2Monotone(8 * |payload|, 24);
    Pow2Facts();
  }

  lemma BigEndianOfPad(n: nat, payload: bytes)
    ensures BigEndian(seq(n, _ => 0) + payload) == BigEndian(payload)
  {
    BigEndianConcat(seq(n, _ => 0), payload);
    BigEndianOfZeros(n);
  }

  lemma {:induction false} BigEndianOfZeros(n: nat)
    ensures BigEndian(seq(n, _ => 0)) == 0
  {
    if n > 0 {
      BigEndianOfZeros(n - 1);
      assert seq(n, _ => 0)[..n - 1] == seq(n - 1, _ => 0);
    }
  }

  // One level of a container. The lemmas about all layouts use these and hide the definitions.

  lemma ArrayParts(buf: bytes, base: nat, off: nat, items: Fields)
    ensures var f, head := Array(items), HeadBytes(ARRAY, Length(items), true);
            && (Laid(buf, base, off, f) <==> At(buf, off, head) && LaidItems(buf, base, off + |head|, items))
            && (Readable(f) <==> Length(items) <= MAX_SIZE && ReadableItems(items))
            && Meaning(f) == Arr(MeaningItems(items)) && Nesting(f) == NestingItems(items)
            && Extent(f) == |head| + ExtentItems(items)
  {
  }

  lemma MapParts(buf: bytes, base: nat, off: nat, pairs: Pairs, extended: bool)
    ensures var f, head := Map(pairs, extended), HeadBytes(MAP, PairCount(pairs), extended);
            && (Laid(buf, base, off, f) <==> At(buf, off, head) && LaidPairs(buf, base, off + |head|, pairs))
            && (Readable(f) <==> PairCount(pairs) <= MAX_SIZE && ReadablePairs(pairs))
            && Meaning(f) == Dict(MeaningPairs(pairs, [])) && Nesting(f) == NestingPairs(pairs)
            && Extent(f) == |head| + ExtentPairs(pairs)
  {
  }

  lemma ItemsParts(buf: bytes, base: nat, off: nat, f: Field, rest: Fields)
    ensures var fs := Then(f, rest);
            && (LaidItems(buf, base, off, fs) <==>
                Laid(buf, base, off, f) && LaidItems(buf, base, off + Extent(f), rest))
            && (ReadableItems(fs) <==> Readable(f) && ReadableItems(rest))
            && MeaningItems(fs) == [Meaning(f)] + MeaningItems(rest)
            && NestingItems(fs) == Max(Nesting(f), NestingItems(rest))
            && ExtentItems(fs) == Extent(f) + ExtentItems(rest) && Length(fs) == 1 + Length(rest)
  {
  }

  lemma NoItems(buf: bytes, base: nat, off: nat)
    ensures var fs := NoFields;
            && LaidItems(buf, base, off, fs) && ReadableItems(fs) && MeaningItems(fs) == []
            && NestingItems(fs) == 0 && ExtentItems(fs) == 0 && Length(fs) == 0
  {
  }

  lemma PairsParts(buf: bytes, base: nat, off: nat, key: Field, value: Field, rest: Pairs, acc: seq<Entry>)
    ensures var ps, mid := Pair(key, value, rest), off + Extent(key);
            && (LaidPairs(buf, base, off, ps) <==>
                && Laid(buf, base, off, key) && Laid(buf, base, mid, value)
                && LaidPairs(buf, base, mid + Extent(value), rest))
            && (ReadablePairs(ps) <==>
                Readable(key) && Hashable(Meaning(key)) && Readable(value) && ReadablePairs(rest))
            && MeaningPairs(ps, acc) == MeaningPairs(rest, Put(acc, Meaning(key), Meaning(value)))
            && NestingPairs(ps) == Max(Max(Nesting(key), Nesting(value)), NestingPairs(rest))
            && ExtentPairs(ps) == Extent(key) + Extent(value) + ExtentPairs(rest)
            && PairCount(ps) == 1 + PairCount(rest)
  {
    hide Laid, Readable, Meaning, Nesting, Extent, Put;
  }

  lemma NoMorePairs(buf: bytes, base: nat, off: nat, acc: seq<Entry>)
    ensures var ps := NoPairs;
            && LaidPairs(buf, base, off, ps) && ReadablePairs(ps) && MeaningPairs(ps, acc) == acc
            && NestingPairs(ps) == 0 && ExtentPairs(ps) == 0 && PairCount(ps) == 0
  {
  }

  lemma ArrayEnd(buf: bytes, base: nat, d: nat, off: nat, acc: seq<Value>)
    ensures DecodeArray(buf, base, d, 0, off, acc) == Ok(acc, off)
  {
  }

  lemma MapEnd(buf: bytes, base: nat, d: nat, off: nat, acc: seq<Entry>)
    ensures DecodeMap(buf, base, d, 0, off, acc) == Ok(acc, off)
  {
  }

  lemma EntryCase(buf: bytes, base: nat, d: nat, off: nat, key: Value, value: Value, mid: nat, end: nat)
    requires Decode(buf, base, d, off) == Ok(key, mid) && Hashable(key)
    requires Decode(buf, base, d, mid) == Ok(value, end)
    ensures DecodeEntry(buf, base, d, off) == Ok(Entry(key, value), end)
  {
  }

  /** The decoder returns what the field means and the offset just past its own bytes (for a pointer,
      past the pointer and not past its target). It needs no more nested pointers than the field has. */
  lemma {:induction false} LayoutIsDecoded(buf: bytes, base: nat, d: nat, off: nat, f: Field)
    requires Readable(f) && Laid(buf, base, off, f) && Nesting(f) <= d
    ensures Decode(buf, base, d, off) == Ok(Meaning(f), off + Extent(f))
    decreases f, 1
  {
    hide Decode, HeadBytes, PointerBytes, At, ReadableScalar, Slice;
    match f
    case Pointer(form, spare, target, to) =>
      LayoutIsDecoded(buf, base, d - 1, base + target, to);
      PointerCase(buf, base, d, off, form, spare, target, Meaning(to), base + target + Extent(to));
    case Array(items) => ArrayIsDecoded(buf, base, d, off, f);
    case Map(pairs, extended) => MapIsDecoded(buf, base, d, off, f);
    case Boolean(size) => BooleanCase(buf, base, d, off, size);
    case Scalar(kind, size, payload) => ScalarCase(buf, base, d, off, kind, size, payload);
  }

  lemma {:induction false} ArrayIsDecoded(buf: bytes, base: nat, d: nat, off: nat, f: Field)
    requires Readable(f) && Laid(buf, base, off, f) && Nesting(f) <= d && f.Array?
    ensures Decode(buf, base, d, off) == Ok(Meaning(f), off + Extent(f))
    decreases f, 0
  {
    hide Decode, DecodeArray, HeadBytes, At, Laid, LaidItems, Readable, ReadableItems, Meaning, Nesting, Extent;
    var items := f.items;
    var next := off + |HeadBytes(ARRAY, Length(items), true)|;
    ArrayParts(buf, base, off, items);
    ItemsAreDecoded(buf, base, d, next, items, []);
    assert [] + MeaningItems(items) == MeaningItems(items);
    ArrayCase(buf, base, d, off, Length(items), MeaningItems(items), next + ExtentItems(items));
  }

  lemma {:induction false} MapIsDecoded(buf: bytes, base: nat, d: nat, off: nat, f: Field)
    requires Readable(f) && Laid(buf, base, off, f) && Nesting(f) <= d && f.Map?
    ensures Decode(buf, base, d, off) == Ok(Meaning(f), off + Extent(f))
    decreases f, 0
  {
    hide Decode, DecodeMap, HeadBytes, At, Laid, LaidPairs, Readable, ReadablePairs, Meaning, MeaningPairs, Nesting,
      Extent;
    var pairs := f.pairs;
    var next := off + |HeadBytes(MAP, PairCount(pairs), f.extended)|;
    MapParts(buf, base, off, pairs, f.extended);
    PairsAreDecoded(buf, base, d, next, pairs, []);
    MapCase(buf, base, d, off, PairCount(pairs), f.extended, MeaningPairs(pairs, []), next + ExtentPairs(pairs));
  }

  lemma {:induction false} ItemsAreDecoded(buf: bytes, base: nat, d: nat, off: nat, fs: Fields, acc: seq<Value>)
    requires ReadableItems(fs) && LaidItems(buf, base, off, fs) && NestingItems(fs) <= d
    ensures DecodeArray(buf, base, d, Length(fs), off, acc) == Ok(acc + MeaningItems(fs), off + ExtentItems(fs))
    decreases fs, 0
  {
    hide Decode, DecodeArray, Laid, LaidItems, Readable, ReadableItems, Meaning, MeaningItems, Nesting, NestingItems,
      Extent, ExtentItems;
    if fs.NoFields? {
      NoItems(buf, base, off);
      ArrayEnd(buf, base, d, off, acc);
      assert acc + [] == acc;
    } else {
      var v := Meaning(fs.first);
      ItemsParts(buf, base, off, fs.first, fs.rest);
      LayoutIsDecoded(buf, base, d, off, fs.first);
      ArrayStep(buf, base, d, Length(fs), off, acc);
      ItemsAreDecoded(buf, base, d, off + Extent(fs.first), fs.rest, acc + [v]);
      assert acc + [v] + MeaningItems(fs.rest) == acc + ([v] + MeaningItems(fs.rest));
    }
  }

  lemma {:induction false} PairsAreDecoded(buf: bytes, base: nat, d: nat, off: nat, ps: Pairs, acc: seq<Entry>)
    requires ReadablePairs(ps) && LaidPairs(buf, base, off, ps) && NestingPairs(ps) <= d
    ensures DecodeMap(buf, base, d, PairCount(ps), off, acc) == Ok(MeaningPairs(ps, acc), off + ExtentPairs(ps))
    decreases ps, 0
  {
    hide Decode, DecodeEntry, DecodeMap, Put, Laid, LaidPairs, Readable, ReadablePairs, Meaning, MeaningPairs, Nesting,
      NestingPairs, Extent, ExtentPairs;
    if ps.NoPairs? {
      NoMorePairs(buf, base, off, acc);
      MapEnd(buf, base, d, off, acc);
    } else {
      var mid, key, value := off + Extent(ps.key), Meaning(ps.key), Meaning(ps.value);
      PairsParts(buf, base, off, ps.key, ps.value, ps.rest, acc);
      LayoutIsDecoded(buf, base, d, off, ps.key);
      LayoutIsDecoded(buf, base, d, mid, ps.value);
      EntryCase(buf, base, d, off, key, value, mid, mid + Extent(ps.value));
      MapStep(buf, base, d, PairCount(ps), off, acc);
      PairsAreDecoded(buf, base, d, mid + Extent(ps.value), ps.rest, Put(acc, key, value));
    }
  }

  // ---------- what is decoded is a layout ----------

  /** Whatever size is read, its bytes are those the format writes for it. With `SizeIsRead`, the four forms
      cover 0 to 16843036 without gap or overlap. */
  lemma ReadSizeIsWritten(buf: bytes, ctrl: byte, off: nat, kind: nat, size: nat, next: nat)
    requires kind != DATA_POINTER && off <= |buf| && ReadSize(buf, ctrl, off, kind) == Ok(size, next)
    ensures size <= MAX_SIZE && SizeBits(size) == ctrl % 32
    ensures next == off + |SizeBytes(size)| && At(buf, off, SizeBytes(size))
  {
    hide BigEndian, ToBytes;
    if ctrl % 32 == 29 {
      OneByte(buf[off]);
      assert buf[off..off + 1] == [buf[off]];
    } else if ctrl % 32 == 30 {
      ReadBytesAreWritten(buf, off, 2);
      Pow2Facts();
    } else if ctrl % 32 == 31 {
      ReadBytesAreWritten(buf, off, 3);
      Pow2Facts();
    }
  }

  /** A complete field of `k` bytes is the `k`-byte form of the number read from it. */
  lemma ReadBytesAreWritten(buf: bytes, off: nat, k: nat)
    requires off + k <= |buf|
    ensures var n := BigEndian(Slice(buf, off, off + k));
            n < Pow2(8 * k) && At(buf, off, ToBytes(n, k)) && BigEndian([0] + Slice(buf, off, off + k)) == n
  {
    var more := Slice(buf, off, off + k);
    BigEndianBound(more);
    ToBytesBigEndian(more);
    BigEndianConcat([0], more);
    OneByteValue(0);
  }

  lemma OneByteValue(b: byte)
    ensures BigEndian([b]) == b
  {
  }

  /** Whatever head is read, its bytes are those the format writes for it. */
  lemma ReadHeadIsWritten(buf: bytes, off: nat, kind: nat, size: nat, next: nat) returns (extended: bool)
    requires ReadHead(buf, off) == Ok(Head(kind, size), next) && kind != DATA_POINTER
    ensures HeadForm(kind, extended) && size <= MAX_SIZE && (kind != MAP ==> extended == (kind > 7))
    ensures next == off + |HeadBytes(kind, size, extended)| && At(buf, off, HeadBytes(kind, size, extended))
  {
    hide ReadSize, SizeBytes, ToBytes, At;
    var ctrl := buf[off];
    extended := ctrl / 32 == 0;
    assert At(buf, off, [ctrl]) by { AtOneByte(buf, off); }
    if extended {
      ReadSizeIsWritten(buf, ctrl, off + 2, kind, size, next);
      OneByte(SizeBits(size));
      OneByte(kind - 7);
      AtOneByte(buf, off + 1);
      AtConcat(buf, off + 1, [kind - 7], SizeBytes(size));
      AtConcat(buf, off, [ctrl], [kind - 7] + SizeBytes(size));
      assert HeadBytes(kind, size, extended) == [ctrl] + ([kind - 7] + SizeBytes(size));
    } else {
      ReadSizeIsWritten(buf, ctrl, off + 1, kind, size, next);
      OneByte(32 * kind + SizeBits(size));
      AtConcat(buf, off, [ctrl], SizeBytes(size));
    }
  }

  lemma AtOneByte(buf: bytes, off: nat)
    requires off < |buf|
    ensures At(buf, off, [buf[off]])
  {
    assert buf[off..off + 1] == [buf[off]];
  }

  /** Whatever pointer is read, its bytes are those the format writes for it: the first three forms hold
      exactly the ranges of `InForm`, so they tile the targets below 134744064, and the last form holds any
      32-bit target. */
  lemma ReadPointerIsWritten(buf: bytes, base: nat, size: nat, off: nat, p: nat, next: nat)
    returns (form: nat, spare: nat)
    requires size < 32 && ReadHead(buf, off) == Ok(Head(DATA_POINTER, size), off + 1)
    requires ReadPointer(buf, base, size, off + 1) == Ok(p, next)
    ensures p >= base && InForm(form, p - base) && spare < 8
    ensures next == off + 1 + form && At(buf, off, PointerBytes(form, spare, p - base))
  {
    hide BigEndian, ToBytes, High, At, ReadHead, InForm, Bias;
    form, spare := size / 8 + 1, size % 8;
    var bs := Slice(buf, off + 1, off + 1 + form);
    PointerHeadByte(buf, off, size);
    OneByte(32 + size);
    AtOneByte(buf, off);
    var t := ReadPointerNumber(buf, base, size, off + 1, p, next);
    SliceIsAt(buf, off + 1, form);
    AtConcat(buf, off, [32 + size], bs);
    assert PointerBytes(form, spare, p - base) == [32 + size] + bs;
  }

  lemma ReadPointerNumber(buf: bytes, base: nat, size: nat, off: nat, p: nat, next: nat) returns (t: nat)
    requires size < 32 && ReadPointer(buf, base, size, off) == Ok(p, next)
    ensures var form, bs := size / 8 + 1, Slice(buf, off, off + size / 8 + 1);
            && |bs| == form && next == off + form && p == base + t + Bias(form) && InForm(form, t + Bias(form))
            && ToBytes(t, form) == bs && (form < 4 ==> High(form, t) == size % 8)
  {
    hide BigEndian, ToBytes, High, InForm;
    var form, bs := size / 8 + 1, Slice(buf, off, off + size / 8 + 1);
    if form < 4 {
      t := BigEndian([size % 8] + bs);
      PointerNumber(size % 8, bs);
      HighFits(form, t);
    } else {
      t := BigEndian(bs);
      LastFormIsWritten(bs);
      LastFormFits(t);
    }
  }

  lemma LastFormFits(t: nat)
    requires t < 0x1_0000_0000
    ensures InForm(4, t)
  {
  }

  lemma PointerHeadByte(buf: bytes, off: nat, size: nat)
    requires ReadHead(buf, off) == Ok(Head(DATA_POINTER, size), off + 1)
    ensures off < |buf| && buf[off] == 32 + size
  {
  }

  lemma SliceIsAt(buf: bytes, off: nat, k: nat)
    requires off + k <= |buf|
    ensures At(buf, off, Slice(buf, off, off + k))
  {
  }

  /** The number that three bits and `k` bytes hold, and how it is split again. */
  lemma PointerNumber(high: byte, bs: bytes)
    ensures var t := BigEndian([high] + bs);
            BigEndian([0] + [high] + bs) == t && High(|bs|, t) == high && ToBytes(t, |bs|) == bs
  {
    hide BigEndian, ToBytes, High;
    var whole := [high] + bs;
    ToBytesBigEndian(whole);
    HighIsFront(|bs|, BigEndian(whole), whole);
    assert whole[1..] == bs;
    assert [0] + [high] + bs == [0] + whole;
    ZeroInFront(whole);
  }

  lemma ZeroInFront(bs: bytes)
    ensures BigEndian([0] + bs) == BigEndian(bs)
  {
    BigEndianConcat([0], bs);
    OneByteValue(0);
  }

  /** Three bits above `form` bytes keep the number within its form. */
  lemma HighFits(form: nat, t: nat)
    requires 1 <= form <= 3 && High(form, t) < 8
    ensures InForm(form, t + Bias(form))
  {
    assert High(1, t) == t / 256;
    assert High(2, t) == High(1, t / 256) == t / 256 / 256;
    assert High(3, t) == High(2, t / 256) == High(1, t / 256 / 256) == t / 256 / 256 / 256;
  }

  lemma LastFormIsWritten(bs: bytes)
    requires |bs| == 4
    ensures BigEndian(bs) < 0x1_0000_0000 && ToBytes(BigEndian(bs), 4) == bs
  {
    BigEndianBound(bs);
    ToBytesBigEndian(bs);
    Pow2Facts();
  }

  /** The first of `k + 1` bytes is what is above the other `k`. */
  lemma {:induction false} HighIsFront(k: nat, t: nat, bs: bytes)
    requires |bs| == k + 1 && ToBytes(t, k + 1) == bs && BigEndian(bs) == t
    ensures High(k, t) == bs[0] && ToBytes(t, k) == bs[1..]
  {
    if k > 0 {
      var front := bs[..k];
      assert front == ToBytes(t / 256, k);
      assert BigEndian(front) == t / 256;
      HighIsFront(k - 1, t / 256, front);
      assert bs[1..] == front[1..] + [bs[k]];
    }
  }

  /** Wherever the decoder returns a value, a readable layout of that value is there, it ends where the
      decoder stopped, and its pointers nest no deeper than the bound. */
  lemma {:induction false} DecodedIsLayout(buf: bytes, base: nat, d: nat, off: nat, v: Value, end: nat)
    returns (f: Field)
    requires Decode(buf, base, d, off) == Ok(v, end)
    ensures Readable(f) && Laid(buf, base, off, f) && Nesting(f) <= d
    ensures Meaning(f) == v && off + Extent(f) == end
    decreases d, Left(buf, off), 0
  {
    hide HeadBytes, PointerBytes, At, ReadPointer, DecodeScalar, DecodeArray, DecodeMap, ReadHead, ScalarMeaning;
    var head := ReadHead(buf, off);
    var h, next := head.value, head.next;
    if h.kind == DATA_POINTER {
      PointerSizeFits(buf, off);
      PointerNextIsOne(buf, off);
      var p := ReadPointer(buf, base, h.size, next);
      var form, spare := ReadPointerIsWritten(buf, base, h.size, off, p.value, p.next);
      var to := DecodedIsLayout(buf, base, d - 1, p.value, v, Decode(buf, base, d - 1, p.value).next);
      f := Pointer(form, spare, p.value - base, to);
    } else {
      var extended := ReadHeadIsWritten(buf, off, h.kind, h.size, next);
      if h.kind == MAP {
        var m := DecodeMap(buf, base, d, h.size, next, []);
        var pairs := DecodedIsPairs(buf, base, d, h.size, next, [], m.value, m.next);
        f := Map(pairs, extended);
      } else if h.kind == ARRAY {
        var a := DecodeArray(buf, base, d, h.size, next, []);
        var items := DecodedIsItems(buf, base, d, h.size, next, [], a.value, a.next);
        assert [] + MeaningItems(items) == MeaningItems(items);
        f := Array(items);
      } else if h.kind == BOOLEAN {
        BooleanIsSize(buf, h, next);
        f := Boolean(h.size);
      } else {
        ScalarIsRead(buf, next, h.kind, h.size);
        f := Scalar(h.kind, h.size, Slice(buf, next, next + h.size));
      }
    }
  }

  lemma PointerNextIsOne(buf: bytes, off: nat)
    requires ReadHead(buf, off).Ok? && ReadHead(buf, off).value.kind == DATA_POINTER
    ensures ReadHead(buf, off).next == off + 1
  {
  }

  lemma BooleanIsSize(buf: bytes, h: Head, off: nat)
    requires h.kind == BOOLEAN
    ensures DecodeScalar(buf, h, off) == Ok(Bool(h.size != 0), off)
  {
  }

  lemma {:induction false} DecodedIsItems(
      buf: bytes, base: nat, d: nat, n: nat, off: nat, acc: seq<Value>, vs: seq<Value>, end: nat) returns (fs: Fields)
    requires DecodeArray(buf, base, d, n, off, acc) == Ok(vs, end)
    ensures ReadableItems(fs) && LaidItems(buf, base, off, fs) && NestingItems(fs) <= d && Length(fs) == n
    ensures vs == acc + MeaningItems(fs) && off + ExtentItems(fs) == end
    decreases d, Left(buf, off), 1
  {
    hide Decode, Laid, LaidItems, Readable, ReadableItems, Meaning, MeaningItems, Nesting, NestingItems, Extent,
      ExtentItems;
    if n == 0 {
      fs := NoFields;
      NoItems(buf, base, off);
      assert acc + [] == acc;
    } else {
      var v := Decode(buf, base, d, off);
      var f := DecodedIsLayout(buf, base, d, off, v.value, v.next);
      var rest := DecodedIsItems(buf, base, d, n - 1, v.next, acc + [v.value], vs, end);
      fs := Then(f, rest);
      ItemsParts(buf, base, off, f, rest);
      assert acc + [v.value] + MeaningItems(rest) == acc + ([v.value] + MeaningItems(rest));
    }
  }

  lemma {:induction false} DecodedIsPairs(
      buf: bytes, base: nat, d: nat, n: nat, off: nat, acc: seq<Entry>, es: seq<Entry>, end: nat) returns (ps: Pairs)
    requires DecodeMap(buf, base, d, n, off, acc) == Ok(es, end)
    ensures ReadablePairs(ps) && LaidPairs(buf, base, off, ps) && NestingPairs(ps) <= d && PairCount(ps) == n
    ensures es == MeaningPairs(ps, acc) && off + ExtentPairs(ps) == end
    decreases d, Left(buf, off), 2
  {
    hide Decode, Put, Laid, LaidPairs, Readable, ReadablePairs, Meaning, MeaningPairs, Nesting, NestingPairs, Extent,
      ExtentPairs;
    if n == 0 {
      ps := NoPairs;
      NoMorePairs(buf, base, off, acc);
    } else {
      var e := DecodeEntry(buf, base, d, off);
      var k := Decode(buf, base, d, off);
      var v := Decode(buf, base, d, k.next);
      var key := DecodedIsLayout(buf, base, d, off, k.value, k.next);
      var value := DecodedIsLayout(buf, base, d, k.next, v.value, v.next);
      var rest := DecodedIsPairs(buf, base, d, n - 1, v.next, Put(acc, e.value.key, e.value.value), es, end);
      ps := Pair(key, value, rest);
      PairsParts(buf, base, off, key, value, rest, acc);
    }
  }

  predicate LayoutOf(buf: bytes, base: nat, d: nat, off: nat, v: Value, end: nat, f: Field)
  {
    Readable(f) && Laid(buf, base, off, f) && Nesting(f) <= d && Meaning(f) == v && off + Extent(f) == end
  }

  /** The decoder is exactly the format: following up to `d` nested pointers, it returns a value and an end
      if and only if a layout of that value with that end and no deeper nesting is there. */
  lemma DecodeIffLayout(buf: bytes, base: nat, d: nat, off: nat, v: Value, end: nat)
    ensures Decode(buf, base, d, off) == Ok(v, end) <==> exists f :: LayoutOf(buf, base, d, off, v, end, f)
  {
    if Decode(buf, base, d, off) == Ok(v, end) {
      var f := DecodedIsLayout(buf, base, d, off, v, end);
      assert LayoutOf(buf, base, d, off, v, end, f);
    }
    if f :| LayoutOf(buf, base, d, off, v, end, f) {
      LayoutIsDecoded(buf, base, d, off, f);
    }
  }
}
