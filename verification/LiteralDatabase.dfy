/** Records, nodes and sections of a database byte by byte, as the "MaxMind DB File Format Specification" numbers
    them, and lookups in databases whose data section shares values through pointers. */
module LiteralDatabase {
  import opened Wrappers
  import opened Bits
  import opened SearchTree
  import opened ByteStrings
  import opened Utf8
  import opened NodeLayout
  import opened Lookup
  import opened Values
  import opened DataDecoder
  import opened DataFormat
  import opened PythonReader
  import opened ControlBytes
  import opened DatabaseLayout

  // ---------- records ----------

  function Three(buf: bytes, i: nat): nat
    requires i + 3 <= |buf|
  {
    65536 * buf[i] as int + 256 * buf[i + 1] as int + buf[i + 2] as int
  }

  function Four(buf: bytes, i: nat): nat
    requires i + 4 <= |buf|
  {
    16777216 * buf[i] as int + Three(buf, i + 1)
  }

  lemma ThreeAt(buf: bytes, i: nat)
    ensures Unpack([0] + Slice(buf, i, i + 3), 4) ==
            if i + 3 <= |buf| then Success(Three(buf, i)) else Failure(BadStruct)
  {
    hide BigEndian;
    if i + 3 <= |buf| {
      assert [0] + Slice(buf, i, i + 3) == [0, buf[i], buf[i + 1], buf[i + 2]];
      BigEndianBytes(0, buf[i], buf[i + 1], buf[i + 2]);
    }
  }

  lemma FourAt(buf: bytes, i: nat)
    ensures Unpack(Slice(buf, i, i + 4), 4) == if i + 4 <= |buf| then Success(Four(buf, i)) else Failure(BadStruct)
  {
    hide BigEndian;
    if i + 4 <= |buf| {
      assert Slice(buf, i, i + 4) == [buf[i], buf[i + 1], buf[i + 2], buf[i + 3]];
      BigEndianBytes(buf[i], buf[i + 1], buf[i + 2], buf[i + 3]);
    }
  }

  /** 24 bits: six bytes a node, three for each record. */
  lemma Record24(buf: bytes, m: Metadata, n: nat, i: nat)
    requires m.recordSize == 24 && i == 6 * n
    ensures RecordAt(buf, m, n, false) == if i + 3 <= |buf| then Success(Three(buf, i)) else Failure(BadStruct)
    ensures RecordAt(buf, m, n, true) == if i + 6 <= |buf| then Success(Three(buf, i + 3)) else Failure(BadStruct)
  {
    hide Unpack, Slice, Three, Times;
    TimesIsProduct(n, 6);
    ThreeAt(buf, i);
    ThreeAt(buf, i + 3);
  }

  /** 28 bits: seven bytes a node; the high half of the middle byte is on top of the left record, the low half
      on top of the right one. */
  lemma Record28(buf: bytes, m: Metadata, n: nat, i: nat)
    requires m.recordSize == 28 && i == 7 * n
    ensures RecordAt(buf, m, n, false) ==
            if i + 4 <= |buf| then Success(16777216 * (buf[i + 3] as int / 16) + Three(buf, i))
            else if i < |buf| then Failure(BadStruct) else Failure(OutOfRange)
    ensures RecordAt(buf, m, n, true) ==
            if i + 7 <= |buf| then Success(16777216 * (buf[i + 3] as int % 16) + Three(buf, i + 4))
            else if i + 3 < |buf| then Failure(BadStruct) else Failure(OutOfRange)
  {
    hide BigEndian, Times, Slice;
    TimesIsProduct(n, 7);
    FourAround(buf, i);
    FourAround(buf, i + 3);
  }

  lemma FourAround(buf: bytes, i: nat)
    ensures var four := Slice(buf, i, i + 4);
            if i + 4 <= |buf| then
              && |four| == 4
              && BigEndian([four[3] / 16] + four[..3]) == 16777216 * (buf[i + 3] as int / 16) + Three(buf, i)
              && BigEndian([four[0] % 16] + four[1..]) == 16777216 * (buf[i] as int % 16) + Three(buf, i + 1)
            else |four| < 4 && (|four| == 0 <==> i >= |buf|)
  {
    hide BigEndian;
    if i + 4 <= |buf| {
      var four := Slice(buf, i, i + 4);
      assert [four[3] / 16] + four[..3] == [buf[i + 3] / 16, buf[i], buf[i + 1], buf[i + 2]];
      BigEndianBytes(buf[i + 3] / 16, buf[i], buf[i + 1], buf[i + 2]);
      assert [four[0] % 16] + four[1..] == [buf[i] % 16, buf[i + 1], buf[i + 2], buf[i + 3]];
      BigEndianBytes(buf[i] % 16, buf[i + 1], buf[i + 2], buf[i + 3]);
    }
  }

  /** 32 bits: eight bytes a node, four for each record; no other size is known. */
  lemma Record32(buf: bytes, m: Metadata, n: nat, i: nat)
    requires m.recordSize == 32 && i == 8 * n
    ensures RecordAt(buf, m, n, false) == if i + 4 <= |buf| then Success(Four(buf, i)) else Failure(BadStruct)
    ensures RecordAt(buf, m, n, true) == if i + 8 <= |buf| then Success(Four(buf, i + 4)) else Failure(BadStruct)
  {
    hide Unpack, Slice, Four, Times;
    TimesIsProduct(n, 8);
    FourAt(buf, i);
    FourAt(buf, i + 4);
  }

  lemma UnknownRecordSize(buf: bytes, m: Metadata, n: nat, side: bool)
    requires m.recordSize !in {24, 28, 32}
    ensures RecordAt(buf, m, n, side) == Failure(InvalidDatabase)
  {
  }

  // ---------- sections ----------

  /** The tree has `node_count * record_size / 4` bytes, 16 bytes separate it from the data section, and record
      `node_count + 16 + k` is the value at byte `k` of that section, from whose start pointers count. */
  lemma DataRecord(buf: bytes, m: Metadata, d: nat, packed: bytes, k: nat, depth: nat)
    requires AddressWalk(buf, m, packed) == Success(Stop(m.nodeCount + 16 + k, depth))
    requires |packed| == 4 || m.ipVersion != 4
    ensures var data := m.nodeCount * (m.recordSize / 4) + 16;
            GetWithPrefixLen(buf, m, d, packed) ==
            if data + k >= |buf| then Raised(InvalidDatabase)
            else
              match Decode(buf, data, d, data + k)
              case Ok(value, _) => Answer(Some(value), depth)
              case Bad(e) => Raised(e)
              case Deep => TooDeep
  {
    hide Decode, WalkBytes, Times;
    SearchTreeSizeIsProduct(m);
  }

  /** A walk that ends on the record `node_count` finds nothing, one that ends on a node is an error, and so is
      looking up 16 bytes in an IPv4 database. */
  lemma NoRecord(buf: bytes, m: Metadata, d: nat, packed: bytes)
    requires CachedStart(buf, m).Success?
    ensures |packed| == 16 && m.ipVersion == 4 ==> GetWithPrefixLen(buf, m, d, packed) == Raised(BadValue)
    ensures var w := AddressWalk(buf, m, packed);
            !(|packed| == 16 && m.ipVersion == 4) ==>
              match w
              case Failure(e) => GetWithPrefixLen(buf, m, d, packed) == Raised(e)
              case Success(s) =>
                && (s.record < m.nodeCount ==> GetWithPrefixLen(buf, m, d, packed) == Raised(InvalidDatabase))
                && (s.record == m.nodeCount ==> GetWithPrefixLen(buf, m, d, packed) == Answer(None, s.depth))
  {
    hide WalkBytes, ResolveDataPointer;
  }

  /** A walk raises what reading one of its records raises. */
  lemma {:induction false} WalkRaises(buf: bytes, m: Metadata, node: nat, bits: seq<bool>)
    returns (n: nat, side: bool)
    requires WalkBytes(buf, m, node, bits).Failure?
    ensures n < m.nodeCount && RecordAt(buf, m, n, side) == Failure(WalkBytes(buf, m, node, bits).error)
    decreases |bits|
  {
    hide RecordAt;
    var record := RecordAt(buf, m, node, bits[0]);
    if record.Success? {
      n, side := WalkRaises(buf, m, record.value, bits[1..]);
    } else {
      n, side := node, bits[0];
    }
  }

  /** So do opening the reader and looking an address up. */
  lemma UnreadableRecordIsRaised(buf: bytes, m: Metadata, d: nat, packed: bytes) returns (n: nat, side: bool)
    requires AddressWalk(buf, m, packed).Failure? && (|packed| == 4 || m.ipVersion != 4)
    ensures n < m.nodeCount && RecordAt(buf, m, n, side).Failure?
    ensures GetWithPrefixLen(buf, m, d, packed) == Raised(RecordAt(buf, m, n, side).error)
    ensures CachedStart(buf, m).Failure? ==> CachedStart(buf, m) == RecordAt(buf, m, n, side)
  {
    hide WalkBytes, RecordAt;
    if CachedStart(buf, m).Failure? {
      n, side := WalkRaises(buf, m, 0, Zeros(IPV4_SKIP));
    } else {
      n, side := WalkRaises(buf, m, StartNode(m, CachedStart(buf, m).value, 8 * |packed|), ToBits(packed));
    }
  }

  /** A record that is a pointer to a string: the pointer counts from the first byte behind the 16. */
  lemma StringThroughPointer(
      buf: bytes, m: Metadata, d: nat, packed: bytes, k: nat, depth: nat, data: nat, at: nat, v: byte, n: nat)
    requires AddressWalk(buf, m, packed) == Success(Stop(m.nodeCount + 16 + k, depth))
    requires (|packed| == 4 || m.ipVersion != 4) && d > 0 && v < 8 && n < 29
    requires data == m.nodeCount * (m.recordSize / 4) + 16
    requires data + k + 1 < |buf| && buf[data + k] == 0x20 + v
    requires at == data + 256 * v as int + buf[data + k + 1] as int
    requires at + 1 + n <= |buf| && buf[at] == 0x40 + n && ValidUtf8(buf[at + 1..at + 1 + n])
    ensures GetWithPrefixLen(buf, m, d, packed) == Answer(Some(Text(buf[at + 1..at + 1 + n])), depth)
  {
    hide Decode, AddressWalk, GetWithPrefixLen, ValidUtf8;
    DataRecord(buf, m, d, packed, k, depth);
    PointerField(buf, data, d, data + k, v, [buf[data + k + 1] as int]);
    StringField(buf, data, d - 1, at, n);
  }

  /** 128.0.0.0 in a database of one node, whose right record is a pointer behind the string "en". */
  lemma PointerBehindString(d: nat)
    requires d > 0
    ensures var tree := [0x00, 0x00, 0x01, 0x00, 0x00, 0x14];
            var zeros := [0, 0, 0, 0, 0, 0, 0, 0, 0, 0, 0, 0, 0, 0, 0, 0];
            GetWithPrefixLen(tree + zeros + [0x42, 0x65, 0x6E, 0x20, 0x00], Metadata(1, 24, 4), d, [128, 0, 0, 0]) ==
            Answer(Some(Text([0x65, 0x6E])), 1)
  {
    hide GetWithPrefixLen, RecordAt;
    var buf: bytes := [0, 0, 1, 0, 0, 20] + [0, 0, 0, 0, 0, 0, 0, 0, 0, 0, 0, 0, 0, 0, 0, 0] + [66, 101, 110, 32, 0];
    var m, packed: bytes := Metadata(1, 24, 4), [128, 0, 0, 0];
    Record24(buf, m, 0, 0);
    OneStep(buf, m, packed);
    assert buf[23..25] == [0x65, 0x6E];
    AsciiIsValid([0x65, 0x6E]);
    StringThroughPointer(buf, m, d, packed, 3, 1, 22, 22, 0, 2);
  }

  /** In an IPv4 database of one node, an address from 128.0.0.0 on takes the right record. */
  lemma OneStep(buf: bytes, m: Metadata, packed: bytes)
    requires m.nodeCount == 1 && m.ipVersion == 4 && |packed| == 4 && packed[0] >= 128
    requires RecordAt(buf, m, 0, true).Success? && RecordAt(buf, m, 0, true).value > 0
    ensures AddressWalk(buf, m, packed) == Success(Stop(RecordAt(buf, m, 0, true).value, 1))
  {
    hide RecordAt;
    var bits, record := ToBits(packed), RecordAt(buf, m, 0, true).value;
    assert Pow2(7) == 128;
    TopBit(packed[0], 7);
    assert bits[0] == BitAt(packed, 0);
    assert WalkBytes(buf, m, record, bits[1..]) == Success(Stop(record, 0));
  }

  lemma {:induction false} TopBit(n: nat, k: nat)
    requires Pow2(k) <= n < 2 * Pow2(k)
    ensures TestBit(n, k)
  {
    if k > 0 {
      TopBit(n / 2, k - 1);
    }
  }

  // ---------- whole databases whose values share parts ----------

  lemma AtBehind(front: bytes, data: bytes, off: nat, bs: bytes)
    requires At(data, off, bs)
    ensures At(front + data, |front| + off, bs)
  {
    assert (front + data)[|front| + off..|front| + off + |bs|] == data[off..off + |bs|];
  }

  lemma SliceBehind(front: bytes, data: bytes, i: nat, j: nat)
    requires i <= j
    ensures Slice(front + data, |front| + i, |front| + j) == Slice(data, i, j)
  {
  }

  /** A layout in the data section alone is one in the whole file, pointers counting from the section's start. */
  lemma {:induction false} LaidBehind(front: bytes, data: bytes, off: nat, f: Field)
    requires Laid(data, 0, off, f)
    ensures Laid(front + data, |front|, |front| + off, f)
    decreases f
  {
    hide HeadBytes, PointerBytes, At, Slice, LaidItems, LaidPairs;
    match f
    case Pointer(form, spare, target, to) =>
      AtBehind(front, data, off, PointerBytes(form, spare, target));
      LaidBehind(front, data, target, to);
    case Array(items) =>
      var head := HeadBytes(ARRAY, Length(items), true);
      AtBehind(front, data, off, head);
      ItemsBehind(front, data, off + |head|, items);
    case Map(pairs, extended) =>
      var head := HeadBytes(MAP, PairCount(pairs), extended);
      AtBehind(front, data, off, head);
      PairsBehind(front, data, off + |head|, pairs);
    case Boolean(size) => AtBehind(front, data, off, HeadBytes(BOOLEAN, size, true));
    case Scalar(kind, size, payload) =>
      var head := HeadBytes(kind, size, kind > 7);
      AtBehind(front, data, off, head);
      SliceBehind(front, data, off + |head|, off + |head| + size);
  }

  lemma {:induction false} ItemsBehind(front: bytes, data: bytes, off: nat, fs: Fields)
    requires LaidItems(data, 0, off, fs)
    ensures LaidItems(front + data, |front|, |front| + off, fs)
    decreases fs
  {
    hide Laid;
    if fs.Then? {
      LaidBehind(front, data, off, fs.first);
      ItemsBehind(front, data, off + Extent(fs.first), fs.rest);
    }
  }

  lemma {:induction false} PairsBehind(front: bytes, data: bytes, off: nat, ps: Pairs)
    requires LaidPairs(data, 0, off, ps)
    ensures LaidPairs(front + data, |front|, |front| + off, ps)
    decreases ps
  {
    hide Laid;
    if ps.Pair? {
      var mid := off + Extent(ps.key);
      LaidBehind(front, data, off, ps.key);
      LaidBehind(front, data, mid, ps.value);
      PairsBehind(front, data, mid + Extent(ps.value), ps.rest);
    }
  }

  /** Record `r` stands for the trie: a fork is a node, an empty end is record `node_count`, and a value is
      `node_count + 16` and its place in the data section, where pointers may share it with others. */
  predicate StandsFor(nodes: seq<Node>, data: bytes, r: nat, trie: Trie<Field>)
    decreases trie
  {
    match trie
    case Fork(z, o) =>
      r < |nodes| && StandsFor(nodes, data, nodes[r].left, z) && StandsFor(nodes, data, nodes[r].right, o)
    case End(None) => r == |nodes|
    case End(Some(f)) => r >= |nodes| + 16 && Readable(f) && Laid(data, 0, r - |nodes| - 16, f)
  }

  lemma {:induction false} StandsForRepresents(
      nodes: seq<Node>, front: bytes, data: bytes, r: nat, trie: Trie<Field>)
    requires StandsFor(nodes, data, r, trie)
    ensures Represents(Tree(nodes), front + data, |front|, r, trie)
    decreases trie
  {
    hide Laid, Readable;
    match trie
    case Fork(z, o) =>
      StandsForRepresents(nodes, front, data, nodes[r].left, z);
      StandsForRepresents(nodes, front, data, nodes[r].right, o);
    case End(None) =>
    case End(Some(f)) => LaidBehind(front, data, r - |nodes| - 16, f);
  }

  /** End to end: a packed tree, sixteen zero bytes, and a data section laid out in any way, with pointers, shared
      values and anything behind it. Every lookup returns the value of the trie's end that covers the address. */
  lemma SharedEndToEnd(
      trie: Trie<Field>, nodes: seq<Node>, m: Metadata, data: bytes, packed: bytes, d: nat)
    requires TreeInRange(m, nodes) && m.nodeCount == |nodes| && StandsFor(nodes, data, 0, trie)
    requires Height(trie) <= |AddressBits(m, packed)| && (|packed| == 16 ==> m.ipVersion != 4)
    requires Nested(Covering(trie, AddressBits(m, packed)).0, d)
    ensures var zeros := [0, 0, 0, 0, 0, 0, 0, 0, 0, 0, 0, 0, 0, 0, 0, 0];
            var (v, depth) := Covering(trie, AddressBits(m, packed));
            GetWithPrefixLen(PackTree(m, nodes) + zeros + data, m, d, packed) ==
            Answer(MeaningOf(v), ReportedPrefix(m, packed, depth))
  {
    hide PackTree, TreeOf, StandsFor, Represents, GetWithPrefixLen, Times, AddressBits, ReportedPrefix, Covering,
      Nested;
    var tree: bytes := PackTree(m, nodes);
    var front: bytes := tree + [0, 0, 0, 0, 0, 0, 0, 0, 0, 0, 0, 0, 0, 0, 0, 0];
    PackTreeLength(m, nodes);
    assert tree <= front + data;
    TreeOfPackTree(front + data, m, nodes);
    StandsForRepresents(nodes, front, data, 0, trie);
    LookupFindsCovering(front + data, m, d, packed, trie);
  }
}
