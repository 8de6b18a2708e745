/** The pure Python `Reader` on the bytes of a database, and what its answers are for databases laid out
    as the format says. */
module PythonReader {
  import opened Wrappers
  import opened Bits
  import opened SearchTree
  import opened NodeLayout
  import opened Lookup
  import opened Values
  import opened DataDecoder
  import opened DataFormat

  const SEPARATOR_SIZE := 16

  /** Where the data section starts, which pointers count from. */
  function DataStart(m: Metadata): nat { m.SearchTreeSize() + SEPARATOR_SIZE }

  // ---------- the search tree in the buffer ----------

  /** Follow `bits` from a node as the reader does, record by record; reading one fails where the file is cut
      off, and everywhere if the record size is unknown. */
  function WalkBytes(buf: bytes, m: Metadata, node: nat, bits: seq<bool>): (r: Result<Stop>)
    ensures r.Success? ==> r.value.depth <= |bits|
    decreases |bits|
  {
    if |bits| == 0 || node >= m.nodeCount then Success(Stop(node, 0))
    else
      match RecordAt(buf, m, node, bits[0])
      case Failure(e) => Failure(e)
      case Success(record) =>
        match WalkBytes(buf, m, record, bits[1..])
        case Failure(e) => Failure(e)
        case Success(s) => Success(Stop(s.record, s.depth + 1))
  }

  /** In a buffer that holds the whole tree this is the walk in that tree. */
  lemma {:induction false} WalkBytesIsWalk(buf: bytes, m: Metadata, node: nat, bits: seq<bool>)
    requires HoldsTree(buf, m)
    ensures WalkBytes(buf, m, node, bits) == Success(Walk(TreeOf(buf, m), node, bits))
    decreases |bits|
  {
    hide TreeOf, RecordAt;
    if |bits| > 0 && node < m.nodeCount {
      TreeOfChild(buf, m, node, bits[0]);
      WalkBytesIsWalk(buf, m, TreeOf(buf, m).Child(node, bits[0]), bits[1..]);
    }
  }

  /** The end of `Reader.__init__`: the record that 96 zero bits lead to. */
  function CachedStart(buf: bytes, m: Metadata): Result<nat>
  {
    if m.ipVersion != 6 then Success(0)
    else
      match WalkBytes(buf, m, 0, Zeros(IPV4_SKIP))
      case Success(s) => Success(s.record)
      case Failure(e) => Failure(e)
  }

  /** The walk of a packed address from its start node. */
  function AddressWalk(buf: bytes, m: Metadata, packed: bytes): Result<Stop>
  {
    match CachedStart(buf, m)
    case Failure(e) => Failure(e)
    case Success(start) => WalkBytes(buf, m, StartNode(m, start, 8 * |packed|), ToBits(packed))
  }

  /** `_find_address_in_tree` */
  function FindInTree(buf: bytes, m: Metadata, packed: bytes): Result<Found>
  {
    match AddressWalk(buf, m, packed)
    case Failure(e) => Failure(e)
    case Success(s) =>
      if s.record == m.nodeCount then Success(Found(0, s.depth))
      else if s.record > m.nodeCount then Success(Found(s.record, s.depth))
      else Failure(InvalidDatabase)
  }

  /** What the reader keeps at the end of `__init__`, for lookups and for iterating, is the IPv4 start of the tree. */
  lemma CachedStartIsIpv4Start(buf: bytes, m: Metadata)
    requires HoldsTree(buf, m)
    ensures CachedStart(buf, m) == Success(Ipv4Start(TreeOf(buf, m), m.ipVersion == 6))
    ensures m.ipVersion != 6 ==> CachedStart(buf, m) == Success(0)
  {
    hide TreeOf, Walk, WalkBytes;
    WalkBytesIsWalk(buf, m, 0, Zeros(IPV4_SKIP));
  }

  lemma FindInTreeIsFind(buf: bytes, m: Metadata, packed: bytes)
    requires HoldsTree(buf, m)
    ensures var t := TreeOf(buf, m);
            FindInTree(buf, m, packed) ==
            Find(t, StartNode(m, Ipv4Start(t, m.ipVersion == 6), 8 * |packed|), ToBits(packed))
  {
    hide TreeOf, Walk, WalkBytes;
    WalkBytesIsWalk(buf, m, 0, Zeros(IPV4_SKIP));
    WalkBytesIsWalk(buf, m, StartNode(m, CachedStart(buf, m).value, 8 * |packed|), ToBits(packed));
  }

  // ---------- records ----------

  /** The answer of `get_with_prefix_len`: a record or nothing, and the prefix length; or an exception.
      `TooDeep` is the endless recursion that cyclic pointers would cause. */
  datatype Answer = Answer(record: Option<Value>, prefixLen: nat) | Raised(error: Error) | TooDeep

  /** `_start_node` */
  function StartNode(m: Metadata, ipv4Start: nat, length: nat): nat
  {
    if m.ipVersion == 6 && length == IPV4_BITS then ipv4Start else 0
  }

  /** Offset of a data record's value. */
  function Resolve(m: Metadata, pointer: nat): nat
    requires pointer > m.nodeCount
  {
    pointer - m.nodeCount + m.SearchTreeSize()
  }

  /** Data pointer `k` of the data section and tree record `node_count + 16 + k` name the same byte. */
  lemma RecordsAndPointersMeet(m: Metadata, k: nat)
    ensures Resolve(m, m.nodeCount + 16 + k) == m.SearchTreeSize() + 16 + k == DataStart(m) + k
  {
  }

  /** `_resolve_data_pointer`, following at most `d` nested pointers. */
  function ResolveDataPointer(buf: bytes, m: Metadata, d: nat, pointer: nat, prefixLen: nat): Answer
    requires pointer > m.nodeCount
  {
    var resolved := Resolve(m, pointer);
    if resolved >= |buf| then Raised(InvalidDatabase)
    else
      match Decode(buf, DataStart(m), d, resolved)
      case Ok(v, _) => Answer(Some(v), prefixLen)
      case Bad(e) => Raised(e)
      case Deep => TooDeep
  }

  /** `get_with_prefix_len` of a packed address, on a reader that opens the buffer for it. */
  function GetWithPrefixLen(buf: bytes, m: Metadata, d: nat, packed: bytes): Answer
  {
    if CachedStart(buf, m).Failure? then Raised(CachedStart(buf, m).error)
    else if |packed| == 16 && m.ipVersion == 4 then Raised(BadValue)
    else
      match FindInTree(buf, m, packed)
      case Failure(e) => Raised(e)
      case Success(f) => AnswerFor(buf, m, d, f)
  }

  function AnswerFor(buf: bytes, m: Metadata, d: nat, f: Found): Answer
  {
    if f.pointer <= m.nodeCount then Answer(None, f.prefixLen)
    else ResolveDataPointer(buf, m, d, f.pointer, f.prefixLen)
  }

  // ---------- the reader object ----------

  class Reader {
    const buffer: bytes
    const metadata: Metadata
    const ipv4Start: nat

    ghost predicate Valid()
    {
      CachedStart(buffer, metadata) == Success(ipv4Start)
    }

    constructor (buffer: bytes, metadata: Metadata, ipv4Start: nat)
      requires CachedStart(buffer, metadata) == Success(ipv4Start)
      ensures this.buffer == buffer && this.metadata == metadata && this.ipv4Start == ipv4Start && Valid()
    {
      this.buffer, this.metadata, this.ipv4Start := buffer, metadata, ipv4Start;
    }

    /** `_find_address_in_tree` */
    method FindAddressInTree(packed: bytes) returns (r: Result<Found>)
      requires Valid()
      ensures r == FindInTree(buffer, metadata, packed)
    {
      hide RecordAt, WalkBytes, BigEndian;
      var bitCount := 8 * |packed|;
      var node: nat := StartNode(metadata, ipv4Start, bitCount);
      var nodeCount := metadata.nodeCount;
      ghost var bits := ToBits(packed);
      var i: nat := 0;
      assert bits[0..] == bits;
      while i < bitCount && node < nodeCount
        invariant i <= bitCount
        invariant AfterBits(WalkBytes(buffer, metadata, node, bits[i..]), i) == AddressWalk(buffer, metadata, packed)
      {
        var bit := TestBit(packed[i / 8], 7 - i % 8);
        assert bits[i] == bit;
        WalkStep(buffer, metadata, node, bits, i);
        var record := ReadNode(buffer, metadata, node, bit);
        if record.Failure? {
          return Failure(record.error);
        }
        node := record.value;
        i := i + 1;
      }
      WalkEnd(buffer, metadata, node, bits, i);
      if node == nodeCount {
        return Success(Found(0, i));
      }
      if node > nodeCount {
        return Success(Found(node, i));
      }
      return Failure(InvalidDatabase);
    }

    /** `get_with_prefix_len`, wherever some bound `d` on nested pointers suffices. */
    method Get(ghost d: nat, packed: bytes) returns (r: Answer)
      requires Valid() && GetWithPrefixLen(buffer, metadata, d, packed) != TooDeep
      ensures r == GetWithPrefixLen(buffer, metadata, d, packed)
    {
      hide WalkBytes, Decode, CachedStart;
      if |packed| == 16 && metadata.ipVersion == 4 {
        return Raised(BadValue);
      }
      var found := FindAddressInTree(packed);
      if found.Failure? {
        return Raised(found.error);
      }
      var f := found.value;
      if f.pointer == 0 {
        return Answer(None, f.prefixLen);
      }
      var resolved := f.pointer - metadata.nodeCount + metadata.SearchTreeSize();
      if resolved >= |buffer| {
        return Raised(InvalidDatabase);
      }
      var decoder := new Decoder(buffer, DataStart(metadata));
      var v := decoder.DecodeAt(d, resolved);
      r := if v.Ok? then Answer(Some(v.value), f.prefixLen) else Raised(v.error);
    }
  }

  /** The walk of all bits, given the walk of those behind the first `i`. */
  function AfterBits(rest: Result<Stop>, i: nat): Result<Stop>
  {
    match rest
    case Success(s) => Success(Stop(s.record, s.depth + i))
    case Failure(e) => Failure(e)
  }

  /** One turn of the loops: read a record, and the rest of the walk goes on from there. */
  lemma WalkStep(buf: bytes, m: Metadata, node: nat, bits: seq<bool>, i: nat)
    requires i < |bits| && node < m.nodeCount
    ensures var rest := AfterBits(WalkBytes(buf, m, node, bits[i..]), i);
            match RecordAt(buf, m, node, bits[i])
            case Failure(e) => rest == Failure(e)
            case Success(record) => rest == AfterBits(WalkBytes(buf, m, record, bits[i + 1..]), i + 1)
  {
    hide RecordAt;
    assert bits[i..][0] == bits[i] && bits[i..][1..] == bits[i + 1..];
  }

  lemma WalkEnd(buf: bytes, m: Metadata, node: nat, bits: seq<bool>, i: nat)
    requires i <= |bits| && (i == |bits| || node >= m.nodeCount)
    ensures AfterBits(WalkBytes(buf, m, node, bits[i..]), i) == Success(Stop(node, i))
  {
  }

  /** The end of `Reader.__init__`, with the exception it raises on a tree it cannot read. */
  method OpenReader(buffer: bytes, metadata: Metadata) returns (r: Result<Reader>)
    ensures match CachedStart(buffer, metadata)
            case Failure(e) => r == Failure(e)
            case Success(start) =>
              && r.Success? && r.value.Valid() && r.value.ipv4Start == start
              && r.value.buffer == buffer && r.value.metadata == metadata
  {
    hide RecordAt;
    var start: nat := 0;
    if metadata.ipVersion == 6 {
      var node: nat, i: nat := 0, 0;
      while i < 96 && node < metadata.nodeCount
        invariant i <= 96
        invariant AfterBits(WalkBytes(buffer, metadata, node, Zeros(96 - i)), i) ==
                  WalkBytes(buffer, metadata, 0, Zeros(96))
      {
        assert Zeros(96 - i)[1..] == Zeros(96 - i - 1);
        var record := ReadNode(buffer, metadata, node, false);
        if record.Failure? {
          return Failure(record.error);
        }
        node := record.value;
        i := i + 1;
      }
      start := node;
    }
    var reader := new Reader(buffer, metadata, start);
    r := Success(reader);
  }

  // ---------- tries ----------

  /** What a database means: a binary trie over address bits with a value or nothing at each end. */
  datatype Trie<T> = End(value: Option<T>) | Fork(zero: Trie<T>, one: Trie<T>) {
    function Side(b: bool): Trie<T>
      requires Fork?
    {
      if b then one else zero
    }
  }

  function Height<T>(trie: Trie<T>): nat
  {
    match trie
    case End(_) => 0
    case Fork(z, o) => 1 + Max(Height(z), Height(o))
  }

  /** The end that covers an address, and its depth. */
  function Covering<T>(trie: Trie<T>, bits: seq<bool>): (Option<T>, nat)
    requires Height(trie) <= |bits|
    decreases trie
  {
    match trie
    case End(v) => (v, 0)
    case Fork(z, o) =>
      var (v, depth) := Covering(trie.Side(bits[0]), bits[1..]);
      (v, depth + 1)
  }

  // ---------- databases that lay out a trie ----------

  /** Record `r` of the tree stands for the trie: forks are nodes, empty ends the empty record, and values
      are laid out in the data section where their records point. Nodes and values may be shared. */
  predicate Represents(t: Tree, buf: bytes, base: nat, r: nat, trie: Trie<Field>)
    decreases trie
  {
    match trie
    case Fork(z, o) =>
      t.IsNode(r) && Represents(t, buf, base, t.Child(r, false), z) && Represents(t, buf, base, t.Child(r, true), o)
    case End(None) => t.IsEmpty(r)
    case End(Some(f)) =>
      r >= |t.nodes| + SEPARATOR_SIZE && Readable(f) && Laid(buf, base, base + (r - |t.nodes| - SEPARATOR_SIZE), f)
  }

  /** The walk of an address ends on the record of the end that covers it. */
  lemma {:induction false} WalkEndsOnCovering(
      t: Tree, buf: bytes, base: nat, r: nat, trie: Trie<Field>, bits: seq<bool>)
    requires Represents(t, buf, base, r, trie) && Height(trie) <= |bits|
    ensures var s := Walk(t, r, bits);
            Represents(t, buf, base, s.record, End(Covering(trie, bits).0)) && s.depth == Covering(trie, bits).1
    decreases trie
  {
    match trie
    case End(_) =>
    case Fork(z, o) =>
      WalkEndsOnCovering(t, buf, base, t.Child(r, bits[0]), trie.Side(bits[0]), bits[1..]);
  }

  /** The bits that an address walks in a database of the given family. */
  function AddressBits(m: Metadata, packed: bytes): seq<bool>
  {
    if m.ipVersion == 6 && |packed| == 4 then Zeros(IPV4_SKIP) + ToBits(packed) else ToBits(packed)
  }

  /** The prefix length reported for a depth: IPv4 addresses leave out the 96 bits they skip. */
  function ReportedPrefix(m: Metadata, packed: bytes, depth: nat): nat
  {
    if m.ipVersion == 6 && |packed| == 4 then ExtensionPrefix(depth) else depth
  }

  predicate Nested(v: Option<Field>, d: nat) { v.Some? ==> Nesting(v.value) <= d }

  function MeaningOf(v: Option<Field>): Option<Value>
  {
    match v
    case Some(f) => Some(Meaning(f))
    case None => None
  }

  /** The tree lookup of an address ends on the record of the covering end. */
  lemma FindEndsOnCovering(t: Tree, buf: bytes, base: nat, m: Metadata, packed: bytes, trie: Trie<Field>)
    returns (r: nat)
    requires |t.nodes| == m.nodeCount && Represents(t, buf, base, 0, trie)
    requires Height(trie) <= |AddressBits(m, packed)|
    ensures var (v, depth) := Covering(trie, AddressBits(m, packed));
            && Represents(t, buf, base, r, End(v))
            && Find(t, StartNode(m, Ipv4Start(t, m.ipVersion == 6), 8 * |packed|), ToBits(packed)) ==
               Success(Found(if v.None? then 0 else r, ReportedPrefix(m, packed, depth)))
  {
    hide Laid, Readable;
    var bits := AddressBits(m, packed);
    WalkEndsOnCovering(t, buf, base, 0, trie, bits);
    r := Walk(t, 0, bits).record;
    if m.ipVersion == 6 && |packed| == 4 {
      Ipv4ShortcutIsFullWalk(t, ToBits(packed));
    }
  }

  /** Lookup on the bytes of a database returns the value and the prefix length of the end that covers the
      address, and nothing exactly when that end is empty. */
  lemma LookupFindsCovering(buf: bytes, m: Metadata, d: nat, packed: bytes, trie: Trie<Field>)
    requires HoldsTree(buf, m) && Represents(TreeOf(buf, m), buf, DataStart(m), 0, trie)
    requires Height(trie) <= |AddressBits(m, packed)|
    requires |packed| == 16 ==> m.ipVersion != 4
    requires Nested(Covering(trie, AddressBits(m, packed)).0, d)
    ensures var (v, depth) := Covering(trie, AddressBits(m, packed));
            GetWithPrefixLen(buf, m, d, packed) == Answer(MeaningOf(v), ReportedPrefix(m, packed, depth))
  {
    hide TreeOf, Find, AnswerFor, Covering, Laid, Readable, FindInTree, WalkBytes;
    FindInTreeIsFind(buf, m, packed);
    WalkBytesIsWalk(buf, m, 0, Zeros(IPV4_SKIP));
    var (v, depth) := Covering(trie, AddressBits(m, packed));
    var r := FindEndsOnCovering(TreeOf(buf, m), buf, DataStart(m), m, packed, trie);
    match v
    case None => NothingIsResolved(buf, m, d, ReportedPrefix(m, packed, depth));
    case Some(f) => LaidIsResolved(buf, m, d, r, f, ReportedPrefix(m, packed, depth));
  }

  lemma NothingIsResolved(buf: bytes, m: Metadata, d: nat, prefixLen: nat)
    ensures AnswerFor(buf, m, d, Found(0, prefixLen)) == Answer(None, prefixLen)
  {
  }

  lemma LaidIsResolved(buf: bytes, m: Metadata, d: nat, r: nat, f: Field, prefixLen: nat)
    requires r >= m.nodeCount + SEPARATOR_SIZE && Readable(f) && Nesting(f) <= d
    requires Laid(buf, DataStart(m), DataStart(m) + (r - m.nodeCount - SEPARATOR_SIZE), f)
    ensures AnswerFor(buf, m, d, Found(r, prefixLen)) == Answer(Some(Meaning(f)), prefixLen)
  {
    hide Decode, Readable, Laid, Nesting, Extent;
    RecordsAndPointersMeet(m, r - m.nodeCount - SEPARATOR_SIZE);
    LayoutIsDecoded(buf, DataStart(m), d, Resolve(m, r), f);
  }

  // ---------- any bytes ----------

  /** A layout of the value is where the data record points. */
  ghost predicate RecordHolds(buf: bytes, m: Metadata, d: nat, r: nat, v: Value)
    requires r > m.nodeCount
  {
    exists f, end :: LayoutOf(buf, DataStart(m), d, Resolve(m, r), v, end, f)
  }

  /** On any bytes at all, following up to `d` nested pointers, lookup returns a value if and only if the
      walk of the address can be read and ends on a data record that a layout of the value is laid out for,
      and nothing if and only if it ends on the empty record. The prefix length is the depth of the walk. */
  lemma LookupIff(buf: bytes, m: Metadata, d: nat, packed: bytes, v: Value, n: nat)
    ensures GetWithPrefixLen(buf, m, d, packed) == Answer(Some(v), n) <==>
              && !(|packed| == 16 && m.ipVersion == 4)
              && var w := AddressWalk(buf, m, packed);
                 && w.Success? && w.value.depth == n && w.value.record > m.nodeCount
                 && RecordHolds(buf, m, d, w.value.record, v)
    ensures GetWithPrefixLen(buf, m, d, packed) == Answer(None, n) <==>
              && !(|packed| == 16 && m.ipVersion == 4)
              && AddressWalk(buf, m, packed) == Success(Stop(m.nodeCount, n))
  {
    hide AnswerFor, WalkBytes, RecordHolds;
    var w := AddressWalk(buf, m, packed);
    if w.Success? {
      if w.value.record > m.nodeCount {
        ResolvedIff(buf, m, d, w.value.record, w.value.depth, v, n);
      } else {
        NothingIsResolved(buf, m, d, w.value.depth);
      }
    }
  }

  lemma ResolvedIff(buf: bytes, m: Metadata, d: nat, r: nat, depth: nat, v: Value, n: nat)
    requires r > m.nodeCount
    ensures AnswerFor(buf, m, d, Found(r, depth)) == Answer(Some(v), n) <==> n == depth && RecordHolds(buf, m, d, r, v)
    ensures AnswerFor(buf, m, d, Found(r, depth)) != Answer(None, n)
  {
    hide Decode, LayoutOf;
    var off := Resolve(m, r);
    var answer := Decode(buf, DataStart(m), d, off);
    if answer.Ok? && answer.value == v {
      DecodeIffLayout(buf, DataStart(m), d, off, v, answer.next);
      var f :| LayoutOf(buf, DataStart(m), d, off, v, answer.next, f);
    }
    if RecordHolds(buf, m, d, r, v) {
      var f, end :| LayoutOf(buf, DataStart(m), d, off, v, end, f);
      DecodeIffLayout(buf, DataStart(m), d, off, v, end);
    }
  }
}
