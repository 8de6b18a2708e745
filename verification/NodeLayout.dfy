/** Bit-packed tree nodes of 24, 28 and 32 bit records: `Reader._read_node` against a packer for
    the "Node Layout" section of the MaxMind DB specification. */
module NodeLayout {
  import opened Wrappers
  import opened Bits
  import opened SearchTree
  import opened ByteStrings

  /** `n * z`, counted up one `z` at a time. */
  function Times(n: nat, z: nat): nat
  {
    if n == 0 then 0 else Times(n - 1, z) + z
  }

  lemma {:induction false} TimesIsProduct(n: nat, z: nat)
    ensures Times(n, z) == n * z
  {
    if n > 0 {
      TimesIsProduct(n - 1, z);
    }
  }

  lemma {:induction false} TimesStep(n: nat, k: nat, z: nat)
    requires n < k
    ensures Times(n, z) + z <= Times(k, z)
  {
    if n < k - 1 {
      TimesStep(n, k - 1, z);
    }
  }

  datatype Metadata = Metadata(nodeCount: nat, recordSize: nat, ipVersion: nat) {
    function NodeByteSize(): nat { recordSize / 4 }

    /** Offset of node `n` */
    function NodeStart(n: nat): nat { Times(n, NodeByteSize()) }

    function SearchTreeSize(): nat { NodeStart(nodeCount) }

    predicate KnownRecordSize() { recordSize in {24, 28, 32} }
  }

  /** `search_tree_size` as the reader multiplies it out. */
  lemma SearchTreeSizeIsProduct(m: Metadata)
    ensures m.SearchTreeSize() == m.nodeCount * m.NodeByteSize()
  {
    TimesIsProduct(m.nodeCount, m.NodeByteSize());
  }

  // ---------- reading a record ----------

  /** The record of node `n` on one side, as the reader finds it in the buffer. */
  function RecordAt(buf: bytes, m: Metadata, n: nat, side: bool): Result<nat>
  {
    var start := m.NodeStart(n);
    if m.recordSize == 24 then
      Unpack([0] + Slice(buf, start + 3 * Bit(side), start + 3 * Bit(side) + 3), 4)
    else if m.recordSize == 28 then
      var four := Slice(buf, start + 3 * Bit(side), start + 3 * Bit(side) + 4);
      if |four| == 0 then Failure(OutOfRange)
      else if |four| < 4 then Failure(BadStruct)
      else if side then Unpack([four[0] % 16] + four[1..], 4)
      else Unpack([four[3] / 16] + four[..3], 4)
    else if m.recordSize == 32 then
      Unpack(Slice(buf, start + 4 * Bit(side), start + 4 * Bit(side) + 4), 4)
    else Failure(InvalidDatabase)
  }

  /** The edit of the four bytes around a 28-bit record, in place: mask the shared middle byte in
      front, or pop it from the end and insert its high half in front. */
  method ArrangeBytes(four: bytes, side: bool) returns (nodeBytes: bytes)
    requires |four| > 0
    ensures |nodeBytes| == |four|
    ensures |four| == 4 ==>
              nodeBytes == if side then [four[0] % 16] + four[1..] else [four[3] / 16] + four[..3]
  {
    nodeBytes := four;
    if side {
      nodeBytes := nodeBytes[0 := nodeBytes[0] % 16];
    } else {
      var middle := nodeBytes[|nodeBytes| - 1] / 16;
      nodeBytes := nodeBytes[..|nodeBytes| - 1];
      nodeBytes := [middle] + nodeBytes;
    }
  }

  /** `Reader._read_node` */
  method ReadNode(buf: bytes, m: Metadata, n: nat, side: bool) returns (r: Result<nat>)
    ensures r == RecordAt(buf, m, n, side)
  {
    var index := Bit(side);
    var baseOffset := m.NodeStart(n);
    var nodeBytes: bytes;
    if m.recordSize == 24 {
      var offset := baseOffset + 3 * index;
      nodeBytes := [0] + Slice(buf, offset, offset + 3);
    } else if m.recordSize == 28 {
      var offset := baseOffset + 3 * index;
      nodeBytes := Slice(buf, offset, offset + 4);
      if |nodeBytes| == 0 {
        return Failure(OutOfRange);
      }
      nodeBytes := ArrangeBytes(nodeBytes, side);
    } else if m.recordSize == 32 {
      var offset := baseOffset + 4 * index;
      nodeBytes := Slice(buf, offset, offset + 4);
    } else {
      return Failure(InvalidDatabase);
    }
    r := Unpack(nodeBytes, 4);
  }

  // ---------- packing nodes ----------

  predicate NodeInRange(rs: nat, node: Node)
  {
    node.left < Pow2(rs) && node.right < Pow2(rs)
  }

  function PackNode(m: Metadata, node: Node): (bs: bytes)
    requires m.KnownRecordSize() && NodeInRange(m.recordSize, node)
    ensures |bs| == m.NodeByteSize()
  {
    if m.recordSize == 24 then
      ToBytes(node.left, 3) + ToBytes(node.right, 3)
    else if m.recordSize == 28 then
      var k := 0x100_0000;
      Pow2Facts();
      ToBytes(node.left % k, 3) + [16 * (node.left / k) + node.right / k] + ToBytes(node.right % k, 3)
    else
      ToBytes(node.left, 4) + ToBytes(node.right, 4)
  }

  predicate TreeInRange(m: Metadata, nodes: seq<Node>)
  {
    m.KnownRecordSize() && forall n | 0 <= n < |nodes| :: NodeInRange(m.recordSize, nodes[n])
  }

  function Flatten(chunks: seq<bytes>): bytes
  {
    if |chunks| == 0 then [] else Flatten(chunks[..|chunks| - 1]) + chunks[|chunks| - 1]
  }

  function PackTree(m: Metadata, nodes: seq<Node>): bytes
    requires TreeInRange(m, nodes)
  {
    Flatten(PackNodes(m, nodes))
  }

  function PackNodes(m: Metadata, nodes: seq<Node>): (chunks: seq<bytes>)
    requires TreeInRange(m, nodes)
    ensures |chunks| == |nodes| && forall n | 0 <= n < |chunks| :: |chunks[n]| == m.NodeByteSize()
  {
    seq(|nodes|, n requires 0 <= n < |nodes| => PackNode(m, nodes[n]))
  }

  /** Chunks of equal size lie one after another. */
  lemma {:induction false} FlattenAt(chunks: seq<bytes>, z: nat, n: nat)
    requires forall i | 0 <= i < |chunks| :: |chunks[i]| == z
    requires n < |chunks|
    ensures |Flatten(chunks)| == Times(|chunks|, z) && Times(n, z) + z <= Times(|chunks|, z)
    ensures Flatten(chunks)[Times(n, z)..Times(n, z) + z] == chunks[n]
  {
    var k, s := |chunks| - 1, Times(n, z);
    FlattenLength(chunks, z);
    TimesStep(n, |chunks|, z);
    var front := chunks[..k];
    FlattenLength(front, z);
    if n < k {
      FlattenAt(front, z, n);
      assert (Flatten(front) + chunks[k])[s..s + z] == Flatten(front)[s..s + z];
    } else {
      assert (Flatten(front) + chunks[k])[s..s + z] == chunks[k];
    }
  }

  lemma {:induction false} FlattenLength(chunks: seq<bytes>, z: nat)
    requires forall i | 0 <= i < |chunks| :: |chunks[i]| == z
    ensures |Flatten(chunks)| == Times(|chunks|, z)
  {
    if |chunks| > 0 {
      FlattenLength(chunks[..|chunks| - 1], z);
    }
  }

  /** The first `k` chunks of `z` bytes. */
  function Cut(buf: bytes, z: nat, k: nat): (chunks: seq<bytes>)
    requires Times(k, z) <= |buf|
    ensures |chunks| == k
  {
    if k == 0 then [] else Cut(buf, z, k - 1) + [buf[Times(k - 1, z)..Times(k, z)]]
  }

  lemma {:induction false} CutAt(buf: bytes, z: nat, k: nat, i: nat)
    requires Times(k, z) <= |buf| && i < k
    ensures Times(i, z) + z <= |buf| && Cut(buf, z, k)[i] == buf[Times(i, z)..Times(i, z) + z]
  {
    if i < k - 1 {
      CutAt(buf, z, k - 1, i);
    }
  }

  lemma FlattenSnoc(chunks: seq<bytes>, x: bytes)
    ensures Flatten(chunks + [x]) == Flatten(chunks) + x
  {
    assert (chunks + [x])[..|chunks|] == chunks;
  }

  lemma TakeMore(buf: bytes, s: nat, e: nat)
    requires s <= e <= |buf|
    ensures buf[..e] == buf[..s] + buf[s..e]
  {
  }

  lemma {:induction false} FlattenCut(buf: bytes, z: nat, k: nat)
    requires Times(k, z) <= |buf|
    ensures Flatten(Cut(buf, z, k)) == buf[..Times(k, z)]
  {
    if k > 0 {
      FlattenCut(buf, z, k - 1);
      FlattenSnoc(Cut(buf, z, k - 1), buf[Times(k - 1, z)..Times(k, z)]);
      TakeMore(buf, Times(k - 1, z), Times(k, z));
    }
  }

  function UnpackNode(m: Metadata, bs: bytes, side: bool): nat
    requires m.KnownRecordSize() && |bs| == m.NodeByteSize()
  {
    if m.recordSize == 24 then BigEndian([0] + if side then bs[3..] else bs[..3])
    else if m.recordSize == 28 then
      if side then BigEndian([bs[3] % 16] + bs[4..]) else BigEndian([bs[3] / 16] + bs[..3])
    else BigEndian(if side then bs[4..] else bs[..4])
  }

  lemma RecordAtUnpacks(buf: bytes, m: Metadata, n: nat, s: nat, bs: bytes, side: bool)
    requires m.KnownRecordSize() && s == m.NodeStart(n) && s + m.NodeByteSize() <= |buf|
    requires bs == buf[s..s + m.NodeByteSize()]
    ensures RecordAt(buf, m, n, side) == Success(UnpackNode(m, bs, side))
  {
    if m.recordSize == 24 {
      assert bs[..3] == buf[s..s + 3] && bs[3..] == buf[s + 3..s + 6];
    } else if m.recordSize == 28 {
      assert bs[..3] == buf[s..s + 4][..3] && bs[4..] == buf[s + 3..s + 7][1..];
    } else {
      assert bs[..4] == buf[s..s + 4] && bs[4..] == buf[s + 4..s + 8];
    }
  }

  /** One record: the number with high byte `h` above the low 24 bits. */
  lemma JoinRecord(h: byte, low: nat)
    requires low < 0x100_0000
    ensures BigEndian([h] + ToBytes(low, 3)) == 0x100_0000 * h + low
  {
    Pow2Facts();
    BigEndianToBytes(low, 3);
    BigEndianConcat([h], ToBytes(low, 3));
    assert BigEndian([h]) == h;
  }

  lemma Nibbles(h: nat, l: nat)
    requires h < 16 && l < 16
    ensures (16 * h + l) / 16 == h && (16 * h + l) % 16 == l
  {
  }

  lemma UnpackPack24(m: Metadata, node: Node, side: bool)
    requires m.recordSize == 24 && NodeInRange(24, node)
    ensures UnpackNode(m, PackNode(m, node), side) == node.Side(side)
  {
    Pow2Facts();
    JoinRecord(0, node.left);
    JoinRecord(0, node.right);
    var bs := PackNode(m, node);
    assert bs[..3] == ToBytes(node.left, 3) && bs[3..] == ToBytes(node.right, 3);
  }

  lemma UnpackPack28(m: Metadata, node: Node, side: bool)
    requires m.recordSize == 28 && NodeInRange(28, node)
    ensures UnpackNode(m, PackNode(m, node), side) == node.Side(side)
  {
    Pow2Facts();
    var bs, k := PackNode(m, node), 0x100_0000;
    var lh, rh, ll, rl := node.left / k, node.right / k, node.left % k, node.right % k;
    Nibbles(lh, rh);
    JoinRecord(lh, ll);
    JoinRecord(rh, rl);
    var x, y := ToBytes(ll, 3), ToBytes(rl, 3);
    assert bs == x + [16 * lh + rh] + y;
    assert bs[..3] == x && bs[3] == 16 * lh + rh && bs[4..] == y;
  }

  lemma UnpackPack32(m: Metadata, node: Node, side: bool)
    requires m.recordSize == 32 && NodeInRange(32, node)
    ensures UnpackNode(m, PackNode(m, node), side) == node.Side(side)
  {
    var bs, v := PackNode(m, node), node.Side(side);
    BigEndianToBytes(v, 4);
    assert (if side then bs[4..] else bs[..4]) == ToBytes(v, 4);
  }

  lemma UnpackPack(m: Metadata, node: Node, side: bool)
    requires m.KnownRecordSize() && NodeInRange(m.recordSize, node)
    ensures UnpackNode(m, PackNode(m, node), side) == node.Side(side)
  {
    if m.recordSize == 24 {
      UnpackPack24(m, node, side);
    } else if m.recordSize == 28 {
      UnpackPack28(m, node, side);
    } else {
      UnpackPack32(m, node, side);
    }
  }

  lemma RecordOfPackedNode(buf: bytes, m: Metadata, n: nat, s: nat, node: Node, side: bool)
    requires m.KnownRecordSize() && NodeInRange(m.recordSize, node)
    requires s == m.NodeStart(n) && s + m.NodeByteSize() <= |buf|
    requires buf[s..s + m.NodeByteSize()] == PackNode(m, node)
    ensures RecordAt(buf, m, n, side) == Success(node.Side(side))
  {
    UnpackPack(m, node, side);
    RecordAtUnpacks(buf, m, n, s, PackNode(m, node), side);
  }

  /** Every record of a packed tree is read back, whatever follows the tree in the file. */
  lemma ReadNodeInvertsPackTree(buf: bytes, m: Metadata, nodes: seq<Node>, n: nat, side: bool)
    requires TreeInRange(m, nodes) && n < |nodes| && PackTree(m, nodes) <= buf
    ensures RecordAt(buf, m, n, side) == Success(nodes[n].Side(side))
  {
    var s := m.NodeStart(n);
    PackedNodeInBuffer(buf, m, nodes, n, s);
    RecordOfPackedNode(buf, m, n, s, nodes[n], side);
  }

  lemma PackedNodeInBuffer(buf: bytes, m: Metadata, nodes: seq<Node>, n: nat, s: nat)
    requires TreeInRange(m, nodes) && n < |nodes| && PackTree(m, nodes) <= buf && s == m.NodeStart(n)
    ensures s + m.NodeByteSize() <= |buf|
    ensures buf[s..s + m.NodeByteSize()] == PackNode(m, nodes[n])
  {
    var packed, z := PackTree(m, nodes), m.NodeByteSize();
    FlattenAt(PackNodes(m, nodes), z, n);
    assert buf[..|packed|] == packed;
    assert buf[s..s + z] == packed[s..s + z];
  }

  // ---------- the tree a buffer holds ----------

  predicate HoldsTree(buf: bytes, m: Metadata)
  {
    m.KnownRecordSize() && m.SearchTreeSize() <= |buf|
  }

  function TreeOf(buf: bytes, m: Metadata): (t: Tree)
    requires HoldsTree(buf, m)
    ensures |t.nodes| == m.nodeCount
  {
    Tree(seq(m.nodeCount, n requires 0 <= n < m.nodeCount => NodeOf(buf, m, n)))
  }

  function NodeOf(buf: bytes, m: Metadata, n: nat): Node
    requires HoldsTree(buf, m) && n < m.nodeCount
  {
    TimesStep(n, m.nodeCount, m.NodeByteSize());
    var s := m.NodeStart(n);
    RecordAtUnpacks(buf, m, n, s, buf[s..s + m.NodeByteSize()], false);
    RecordAtUnpacks(buf, m, n, s, buf[s..s + m.NodeByteSize()], true);
    Node(RecordAt(buf, m, n, false).value, RecordAt(buf, m, n, true).value)
  }

  lemma TreeOfChild(buf: bytes, m: Metadata, n: nat, side: bool)
    requires HoldsTree(buf, m) && n < m.nodeCount
    ensures RecordAt(buf, m, n, side) == Success(TreeOf(buf, m).Child(n, side))
  {
    TimesStep(n, m.nodeCount, m.NodeByteSize());
    var s := m.NodeStart(n);
    RecordAtUnpacks(buf, m, n, s, buf[s..s + m.NodeByteSize()], side);
  }

  /** Reading a packed tree gives the tree. */
  lemma TreeOfPackTree(buf: bytes, m: Metadata, nodes: seq<Node>)
    requires TreeInRange(m, nodes) && |nodes| == m.nodeCount && PackTree(m, nodes) <= buf
    ensures HoldsTree(buf, m) && TreeOf(buf, m) == Tree(nodes)
  {
    FlattenLength(PackNodes(m, nodes), m.NodeByteSize());
    forall n | 0 <= n < m.nodeCount ensures NodeOf(buf, m, n) == nodes[n] {
      ReadNodeInvertsPackTree(buf, m, nodes, n, false);
      ReadNodeInvertsPackTree(buf, m, nodes, n, true);
    }
  }

  /** One record: high byte and low bytes are recovered from the number. */
  lemma SplitRecord(h: byte, x: bytes)
    requires |x| == 3
    ensures var v := BigEndian([h] + x);
            v / 0x100_0000 == h && ToBytes(v % 0x100_0000, 3) == x && v < 0x100_0000 * (h + 1)
  {
    hide BigEndian, ToBytes, Pow2;
    Pow2Facts();
    BigEndianConcat([h], x);
    BigEndianBound(x);
    ToBytesBigEndian(x);
    OneDigit(h);
    HighAndLow(h, BigEndian(x));
  }

  lemma OneDigit(h: byte)
    ensures BigEndian([h]) == h
  {
  }

  lemma HighAndLow(h: nat, low: nat)
    requires low < 0x100_0000
    ensures var v := h * 0x100_0000 + low;
            v / 0x100_0000 == h && v % 0x100_0000 == low && v < 0x100_0000 * (h + 1)
  {
  }

  lemma PackUnpack24(m: Metadata, bs: bytes)
    requires m.recordSize == 24 && |bs| == 6
    ensures var node := Node(UnpackNode(m, bs, false), UnpackNode(m, bs, true));
            NodeInRange(24, node) && PackNode(m, node) == bs
  {
    Pow2Facts();
    SplitRecord(0, bs[..3]);
    SplitRecord(0, bs[3..]);
  }

  lemma PackUnpack28(m: Metadata, bs: bytes)
    requires m.recordSize == 28 && |bs| == 7
    ensures var node := Node(UnpackNode(m, bs, false), UnpackNode(m, bs, true));
            NodeInRange(28, node) && PackNode(m, node) == bs
  {
    Pow2Facts();
    SplitRecord(bs[3] / 16, bs[..3]);
    SplitRecord(bs[3] % 16, bs[4..]);
    assert bs == bs[..3] + [16 * (bs[3] / 16) + bs[3] % 16] + bs[4..];
  }

  lemma PackUnpack32(m: Metadata, bs: bytes)
    requires m.recordSize == 32 && |bs| == 8
    ensures var node := Node(UnpackNode(m, bs, false), UnpackNode(m, bs, true));
            NodeInRange(32, node) && PackNode(m, node) == bs
  {
    Pow2Facts();
    BigEndianBound(bs[..4]);
    BigEndianBound(bs[4..]);
    ToBytesBigEndian(bs[..4]);
    ToBytesBigEndian(bs[4..]);
  }

  lemma PackUnpack(m: Metadata, bs: bytes)
    requires m.KnownRecordSize() && |bs| == m.NodeByteSize()
    ensures var node := Node(UnpackNode(m, bs, false), UnpackNode(m, bs, true));
            NodeInRange(m.recordSize, node) && PackNode(m, node) == bs
  {
    if m.recordSize == 24 {
      PackUnpack24(m, bs);
    } else if m.recordSize == 28 {
      PackUnpack28(m, bs);
    } else {
      PackUnpack32(m, bs);
    }
  }

  lemma PackNodeOf(buf: bytes, m: Metadata, n: nat, s: nat)
    requires HoldsTree(buf, m) && n < m.nodeCount && s == m.NodeStart(n) && s + m.NodeByteSize() <= |buf|
    ensures NodeInRange(m.recordSize, NodeOf(buf, m, n))
    ensures PackNode(m, NodeOf(buf, m, n)) == buf[s..s + m.NodeByteSize()]
  {
    var bs := buf[s..s + m.NodeByteSize()];
    RecordAtUnpacks(buf, m, n, s, bs, false);
    RecordAtUnpacks(buf, m, n, s, bs, true);
    PackUnpack(m, bs);
  }

  /** Packing the tree that was read gives back the bytes it was read from. So the two are inverse,
      and the tree depends on no byte outside the first `SearchTreeSize`. */
  lemma PackTreeOf(buf: bytes, m: Metadata)
    requires HoldsTree(buf, m)
    ensures TreeInRange(m, TreeOf(buf, m).nodes)
    ensures PackTree(m, TreeOf(buf, m).nodes) == buf[..m.SearchTreeSize()]
  {
    var nodes, z := TreeOf(buf, m).nodes, m.NodeByteSize();
    forall n | 0 <= n < m.nodeCount
      ensures NodeInRange(m.recordSize, nodes[n]) && PackNode(m, nodes[n]) == Cut(buf, z, m.nodeCount)[n]
    {
      CutAt(buf, z, m.nodeCount, n);
      PackNodeOf(buf, m, n, m.NodeStart(n));
    }
    assert PackNodes(m, nodes) == Cut(buf, z, m.nodeCount);
    FlattenCut(buf, z, m.nodeCount);
  }

  lemma TreeOfIsLocal(buf: bytes, buf': bytes, m: Metadata)
    requires HoldsTree(buf, m) && HoldsTree(buf', m)
    ensures TreeOf(buf, m) == TreeOf(buf', m) <==> buf[..m.SearchTreeSize()] == buf'[..m.SearchTreeSize()]
  {
    PackTreeOf(buf, m);
    PackTreeOf(buf', m);
    if buf[..m.SearchTreeSize()] == buf'[..m.SearchTreeSize()] {
      TreeOfPackTree(buf', m, TreeOf(buf, m).nodes);
    }
  }
}
