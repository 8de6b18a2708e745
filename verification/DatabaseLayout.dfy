/** Laying out a trie of values as a whole database, and reading every address back from its bytes. */
module DatabaseLayout {
  import opened Wrappers
  import opened Bits
  import opened SearchTree
  import opened NodeLayout
  import opened Values
  import opened DataFormat
  import opened DataEncoding
  import opened PythonReader

  // ---------- the writer ----------

  predicate AllEncodable(trie: Trie<Value>)
  {
    match trie
    case End(None) => true
    case End(Some(v)) => Encodable(v)
    case Fork(z, o) => AllEncodable(z) && AllEncodable(o)
  }

  /** The same trie with the layout of every value. */
  function PlainTrie(trie: Trie<Value>): Trie<Field>
    requires AllEncodable(trie)
  {
    match trie
    case End(None) => End(None)
    case End(Some(v)) => End(Some(Plain(v)))
    case Fork(z, o) => Fork(PlainTrie(z), PlainTrie(o))
  }

  function NodeCount(trie: Trie<Value>): nat
  {
    match trie
    case End(_) => 0
    case Fork(z, o) => 1 + NodeCount(z) + NodeCount(o)
  }

  /** The values, one behind the other. */
  function DataSection(trie: Trie<Value>): bytes
    requires AllEncodable(trie)
  {
    match trie
    case End(None) => []
    case End(Some(v)) => Encode(v)
    case Fork(z, o) => DataSection(z) + DataSection(o)
  }

  /** The record for a trie whose first node is `k` and whose first value is at `off`, among `n` nodes. */
  function RecordFor(trie: Trie<Value>, n: nat, k: nat, off: nat): nat
  {
    match trie
    case End(None) => n
    case End(Some(_)) => n + SEPARATOR_SIZE + off
    case Fork(_, _) => k
  }

  /** The nodes, parents before children, the left side before the right. */
  function NodesFor(trie: Trie<Value>, n: nat, k: nat, off: nat): (nodes: seq<Node>)
    requires AllEncodable(trie)
    ensures |nodes| == NodeCount(trie)
  {
    match trie
    case End(_) => []
    case Fork(z, o) =>
      var k', off' := k + 1 + NodeCount(z), off + |DataSection(z)|;
      [Node(RecordFor(z, n, k + 1, off), RecordFor(o, n, k', off'))]
      + NodesFor(z, n, k + 1, off) + NodesFor(o, n, k', off')
  }

  /** Tree, separator, data section, and whatever follows. */
  function Database(trie: Trie<Value>, m: Metadata, rest: bytes): bytes
    requires AllEncodable(trie) && TreeInRange(m, NodesFor(trie, NodeCount(trie), 0, 0))
  {
    PackTree(m, NodesFor(trie, NodeCount(trie), 0, 0)) + seq(SEPARATOR_SIZE, _ => 0) + DataSection(trie) + rest
  }

  // ---------- records fit ----------

  lemma EncodeIsNotEmpty(v: Value)
    requires Encodable(v)
    ensures |Encode(v)| > 0
  {
  }

  /** With room for every node and every data byte in a record, all records fit. */
  lemma {:induction false} NodesInRange(trie: Trie<Value>, n: nat, k: nat, off: nat, limit: nat, rs: nat)
    requires AllEncodable(trie) && k + NodeCount(trie) <= n
    requires n + SEPARATOR_SIZE + off + |DataSection(trie)| <= limit <= Pow2(rs)
    ensures trie.Fork? ==> RecordFor(trie, n, k, off) < limit
    ensures trie.End? ==> RecordFor(trie, n, k, off) < limit
    ensures forall i | 0 <= i < NodeCount(trie) :: NodeInRange(rs, NodesFor(trie, n, k, off)[i])
    decreases trie
  {
    hide Encode, Encodable, Pow2;
    match trie
    case End(None) =>
    case End(Some(v)) => EncodeIsNotEmpty(v);
    case Fork(z, o) =>
      NodesInRange(z, n, k + 1, off, limit, rs);
      NodesInRange(o, n, k + 1 + NodeCount(z), off + |DataSection(z)|, limit, rs);
  }

  // ---------- what is written is what the trie says ----------

  lemma WrittenValue(v: Value, t: Tree, buf: bytes, base: nat, off: nat)
    requires Encodable(v) && At(buf, base + off, Encode(v))
    ensures Represents(t, buf, base, |t.nodes| + SEPARATOR_SIZE + off, End(Some(Plain(v))))
  {
    hide At, Encode, Encodable, Plain, Laid, Readable, Meaning, Nesting, Extent;
    EncodedIsLaid(buf, base, base + off, v);
  }

  /** The slice of a fork's nodes is its own node, then the two sides. */
  lemma SplitNodes(nodes: seq<Node>, k: nat, head: Node, left: seq<Node>, right: seq<Node>)
    requires k + 1 + |left| + |right| <= |nodes|
    requires nodes[k..k + 1 + |left| + |right|] == [head] + left + right
    ensures nodes[k] == head
    ensures nodes[k + 1..k + 1 + |left|] == left
    ensures nodes[k + 1 + |left|..k + 1 + |left| + |right|] == right
  {
    var all := nodes[k..k + 1 + |left| + |right|];
    assert forall i | 0 <= i < |all| :: nodes[k + i] == all[i];
    assert nodes[k + 0] == all[0] == head;
    forall i | 0 <= i < |left| ensures nodes[k + 1 + i] == left[i] {
      assert nodes[k + (1 + i)] == all[1 + i];
    }
    forall i | 0 <= i < |right| ensures nodes[k + 1 + |left| + i] == right[i] {
      assert nodes[k + (1 + |left| + i)] == all[1 + |left| + i];
    }
  }

  lemma ForkData(z: Trie<Value>, o: Trie<Value>)
    requires AllEncodable(z) && AllEncodable(o)
    ensures AllEncodable(Fork(z, o)) && NodeCount(Fork(z, o)) == 1 + NodeCount(z) + NodeCount(o)
    ensures DataSection(Fork(z, o)) == DataSection(z) + DataSection(o)
  {
    hide Encode, Encodable;
  }

  lemma ForkNodes(z: Trie<Value>, o: Trie<Value>, n: nat, k: nat, off: nat)
    requires AllEncodable(z) && AllEncodable(o) && AllEncodable(Fork(z, o))
    ensures var k', off' := k + 1 + NodeCount(z), off + |DataSection(z)|;
            NodesFor(Fork(z, o), n, k, off) ==
            [Node(RecordFor(z, n, k + 1, off), RecordFor(o, n, k', off'))]
            + NodesFor(z, n, k + 1, off) + NodesFor(o, n, k', off')
  {
    hide Encode, Encodable, AllEncodable, DataSection, NodeCount, RecordFor;
  }

  /** The node of a fork in the tree, with its two sides behind it. */
  lemma ForkInTree(z: Trie<Value>, o: Trie<Value>, t: Tree, k: nat, off: nat)
    requires AllEncodable(z) && AllEncodable(o) && k + NodeCount(Fork(z, o)) <= |t.nodes|
    requires AllEncodable(Fork(z, o))
    requires t.nodes[k..k + NodeCount(Fork(z, o))] == NodesFor(Fork(z, o), |t.nodes|, k, off)
    ensures var n, k', off' := |t.nodes|, k + 1 + NodeCount(z), off + |DataSection(z)|;
            && NodeCount(Fork(z, o)) == 1 + NodeCount(z) + NodeCount(o)
            && DataSection(Fork(z, o)) == DataSection(z) + DataSection(o)
            && t.nodes[k] == Node(RecordFor(z, n, k + 1, off), RecordFor(o, n, k', off'))
            && t.nodes[k + 1..k + 1 + NodeCount(z)] == NodesFor(z, n, k + 1, off)
            && t.nodes[k'..k' + NodeCount(o)] == NodesFor(o, n, k', off')
  {
    hide AllEncodable, NodeCount, DataSection, NodesFor, RecordFor;
    ForkData(z, o);
    ForkNodes(z, o, |t.nodes|, k, off);
    var n, k', off' := |t.nodes|, k + 1 + NodeCount(z), off + |DataSection(z)|;
    var head := Node(RecordFor(z, n, k + 1, off), RecordFor(o, n, k', off'));
    SplitNodes(t.nodes, k, head, NodesFor(z, n, k + 1, off), NodesFor(o, n, k', off'));
  }

  lemma {:induction false} WrittenRepresents(
      trie: Trie<Value>, t: Tree, buf: bytes, base: nat, k: nat, off: nat)
    requires AllEncodable(trie) && k + NodeCount(trie) <= |t.nodes|
    requires t.nodes[k..k + NodeCount(trie)] == NodesFor(trie, |t.nodes|, k, off)
    requires At(buf, base + off, DataSection(trie))
    ensures Represents(t, buf, base, RecordFor(trie, |t.nodes|, k, off), PlainTrie(trie))
    decreases trie, 1
  {
    hide At, Encode, Encodable, Plain, Readable, Laid, NodesFor;
    match trie
    case End(None) =>
    case End(Some(v)) => WrittenValue(v, t, buf, base, off);
    case Fork(_, _) => WrittenForkRepresents(trie, t, buf, base, k, off);
  }

  lemma {:induction false} WrittenForkRepresents(
      trie: Trie<Value>, t: Tree, buf: bytes, base: nat, k: nat, off: nat)
    requires AllEncodable(trie) && k + NodeCount(trie) <= |t.nodes| && trie.Fork?
    requires t.nodes[k..k + NodeCount(trie)] == NodesFor(trie, |t.nodes|, k, off)
    requires At(buf, base + off, DataSection(trie))
    ensures Represents(t, buf, base, k, PlainTrie(trie))
    decreases trie, 0
  {
    hide At, Encode, Encodable, Plain, Readable, Laid, NodesFor, DataSection, NodeCount, RecordFor;
    var z, o := trie.zero, trie.one;
    ForkInTree(z, o, t, k, off);
    AtConcat(buf, base + off, DataSection(z), DataSection(o));
    WrittenRepresents(z, t, buf, base, k + 1, off);
    WrittenRepresents(o, t, buf, base, k + 1 + NodeCount(z), off + |DataSection(z)|);
  }

  /** A trie and its layouts have the same ends. */
  lemma {:induction false} LayoutCovers(trie: Trie<Value>, bits: seq<bool>)
    requires AllEncodable(trie) && Height(trie) <= |bits|
    ensures Height(PlainTrie(trie)) == Height(trie)
    ensures var (f, depth) := Covering(PlainTrie(trie), bits);
            MeaningOf(f) == Covering(trie, bits).0 && depth == Covering(trie, bits).1 && Nested(f, 0)
    decreases trie
  {
    hide Meaning, Nesting, Plain, Encodable;
    LayoutHeight(trie);
    match trie
    case End(None) =>
    case End(Some(v)) => PlainMeans(v);
    case Fork(_, _) => LayoutCovers(trie.Side(bits[0]), bits[1..]);
  }

  lemma {:induction false} LayoutHeight(trie: Trie<Value>)
    requires AllEncodable(trie)
    ensures Height(PlainTrie(trie)) == Height(trie)
    decreases trie
  {
    hide Plain, Encodable;
    if trie.Fork? {
      LayoutHeight(trie.zero);
      LayoutHeight(trie.one);
    }
  }

  /** The written tree is read back, and the data section is where it should be. */
  lemma DatabaseHolds(trie: Trie<Value>, m: Metadata, rest: bytes)
    requires AllEncodable(trie) && m.nodeCount == NodeCount(trie)
    requires TreeInRange(m, NodesFor(trie, NodeCount(trie), 0, 0))
    ensures var buf := Database(trie, m, rest);
            && HoldsTree(buf, m) && TreeOf(buf, m) == Tree(NodesFor(trie, NodeCount(trie), 0, 0))
            && At(buf, DataStart(m) + 0, DataSection(trie))
  {
    hide PackTree, TreeOf, DataSection, RecordAt, AllEncodable, NodesFor, At, NodeInRange, Pow2;
    var nodes := NodesFor(trie, NodeCount(trie), 0, 0);
    var packed, sep := PackTree(m, nodes), seq(SEPARATOR_SIZE, _ => 0 as byte);
    PackTreeLength(m, nodes);
    SectionsAreAt(packed, sep, DataSection(trie), rest);
    TreeOfPackTree(Database(trie, m, rest), m, nodes);
  }

  lemma SectionsAreAt(tree: bytes, separator: bytes, data: bytes, rest: bytes)
    ensures tree <= tree + separator + data + rest
    ensures At(tree + separator + data + rest, |tree| + |separator|, data)
  {
    var buf, front := tree + separator + data + rest, |tree| + |separator|;
    assert buf == tree + (separator + data + rest);
    assert buf == (tree + separator) + (data + rest);
    assert buf[front..front + |data|] == data;
  }

  /** It represents the trie. */
  lemma DatabaseRepresents(trie: Trie<Value>, m: Metadata, rest: bytes)
    requires AllEncodable(trie) && (trie.Fork? || trie == End(None))
    requires m.nodeCount == NodeCount(trie)
    requires TreeInRange(m, NodesFor(trie, NodeCount(trie), 0, 0))
    ensures var buf := Database(trie, m, rest);
            && HoldsTree(buf, m) && TreeOf(buf, m) == Tree(NodesFor(trie, NodeCount(trie), 0, 0))
            && Represents(TreeOf(buf, m), buf, DataStart(m), 0, PlainTrie(trie))
  {
    hide Database, TreeOf, DataSection, Represents, At, NodesFor, AllEncodable;
    DatabaseHolds(trie, m, rest);
    var nodes := NodesFor(trie, NodeCount(trie), 0, 0);
    assert nodes[0..0 + NodeCount(trie)] == nodes;
    WrittenRepresents(trie, TreeOf(Database(trie, m, rest), m), Database(trie, m, rest), DataStart(m), 0, 0);
  }

  lemma PackTreeLength(m: Metadata, nodes: seq<Node>)
    requires TreeInRange(m, nodes)
    ensures |PackTree(m, nodes)| == m.NodeStart(|nodes|)
  {
    FlattenLength(PackNodes(m, nodes), m.NodeByteSize());
  }

  /** End to end: lay out any trie of values as packed nodes of 24, 28 or 32 bits, a 16-byte separator and
      encoded values, followed by anything. Then looking up any address on those bytes returns exactly the
      value of the trie's end that covers it, with the depth of that end as prefix length (96 less for an
      IPv4 address in an IPv6 database), and nothing exactly when that end is empty. */
  lemma EndToEnd(trie: Trie<Value>, m: Metadata, rest: bytes, packed: bytes, d: nat)
    requires AllEncodable(trie) && (trie.Fork? || trie == End(None))
    requires m.KnownRecordSize() && m.nodeCount == NodeCount(trie)
    requires NodeCount(trie) + SEPARATOR_SIZE + |DataSection(trie)| <= Pow2(m.recordSize)
    requires Height(trie) <= |AddressBits(m, packed)|
    requires |packed| == 16 ==> m.ipVersion != 4
    ensures TreeInRange(m, NodesFor(trie, NodeCount(trie), 0, 0))
    ensures HoldsTree(Database(trie, m, rest), m)
    ensures var (v, depth) := Covering(trie, AddressBits(m, packed));
            GetWithPrefixLen(Database(trie, m, rest), m, d, packed) == Answer(v, ReportedPrefix(m, packed, depth))
  {
    hide GetWithPrefixLen, Represents, Database, TreeOf, NodesFor;
    var n := NodeCount(trie);
    NodesInRange(trie, n, 0, 0, n + SEPARATOR_SIZE + |DataSection(trie)|, m.recordSize);
    DatabaseRepresents(trie, m, rest);
    LayoutCovers(trie, AddressBits(m, packed));
    LookupFindsCovering(Database(trie, m, rest), m, d, packed, PlainTrie(trie));
  }
}
