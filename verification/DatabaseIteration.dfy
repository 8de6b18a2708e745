/** Iterating over a written database gives back the trie it was written from. */
module DatabaseIteration {
  import opened Wrappers
  import opened Bits
  import opened SearchTree
  import opened NodeLayout
  import opened Lookup
  import opened Networks
  import opened Values
  import opened DataFormat
  import opened DataEncoding
  import opened Iteration
  import opened Agreement
  import opened PythonReader
  import opened DatabaseLayout
  import opened IterationOnBytes

  /** An end of a trie that holds a value. */
  datatype TrieEnd = TrieEnd(path: seq<bool>, value: Value)

  /** The ends below a path that hold values, in address order. */
  function Ends(trie: Trie<Value>, path: seq<bool>): seq<TrieEnd>
    decreases trie
  {
    match trie
    case End(None) => []
    case End(Some(v)) => [TrieEnd(path, v)]
    case Fork(z, o) => Ends(z, path + [false]) + Ends(o, path + [true])
  }

  /** What the iterator makes of an end: its network with its value. Python cannot build a network at 2^32, and
      an IPv4 network needs 96 bits of path in an IPv6 tree. */
  function EndItem(ipv6: bool, e: TrieEnd): Option<Item<Value>>
  {
    if ipv6 && Lo(128, e.path) == 0x1_0000_0000 then None else ItemOf(PathNetwork(ipv6, e.path), Some(e.value))
  }

  function EndItemOf(ipv6: bool): TrieEnd -> Option<Item<Value>>
  {
    (e: TrieEnd) => EndItem(ipv6, e)
  }

  // ---------- the records of a written trie ----------

  /** The record is one of the nodes or points to one of the data bytes of this trie. */
  predicate Owns(trie: Trie<Value>, n: nat, k: nat, off: nat, r: nat)
    requires AllEncodable(trie)
  {
    || k <= r < k + NodeCount(trie)
    || n + SEPARATOR_SIZE + off <= r < n + SEPARATOR_SIZE + off + |DataSection(trie)|
  }

  lemma RootIsOwned(trie: Trie<Value>, n: nat, k: nat, off: nat)
    requires AllEncodable(trie)
    ensures var r := RecordFor(trie, n, k, off); r == n || Owns(trie, n, k, off, r)
  {
    hide Encode, Encodable;
    match trie
    case End(Some(v)) => EncodeIsNotEmpty(v);
    case _ =>
  }

  lemma SidesAreOwned(z: Trie<Value>, o: Trie<Value>, n: nat, k: nat, off: nat, r: nat)
    requires AllEncodable(z) && AllEncodable(o) && AllEncodable(Fork(z, o))
    requires Owns(z, n, k + 1, off, r) || Owns(o, n, k + 1 + NodeCount(z), off + |DataSection(z)|, r)
    ensures Owns(Fork(z, o), n, k, off, r)
  {
    hide AllEncodable, NodeCount, DataSection;
    ForkData(z, o);
  }

  /** Below a record of the trie there are only records of the trie, and the empty one. */
  lemma {:induction false} WalkIsOwned(trie: Trie<Value>, t: Tree, k: nat, off: nat, bits: seq<bool>)
    requires AllEncodable(trie) && k + NodeCount(trie) <= |t.nodes|
    requires t.nodes[k..k + NodeCount(trie)] == NodesFor(trie, |t.nodes|, k, off)
    ensures var r := Walk(t, RecordFor(trie, |t.nodes|, k, off), bits).record;
            r == |t.nodes| || Owns(trie, |t.nodes|, k, off, r)
    decreases trie
  {
    hide Encode, Encodable, NodesFor, Owns, DataSection, NodeCount;
    var n := |t.nodes|;
    RootIsOwned(trie, n, k, off);
    if trie.Fork? && |bits| > 0 {
      var z, o := trie.zero, trie.one;
      ForkInTree(z, o, t, k, off);
      var r := Walk(t, k, bits).record;
      assert r == Walk(t, t.Child(k, bits[0]), bits[1..]).record;
      if bits[0] {
        WalkIsOwned(o, t, k + 1 + NodeCount(z), off + |DataSection(z)|, bits[1..]);
      } else {
        WalkIsOwned(z, t, k + 1, off, bits[1..]);
      }
      if r != n {
        SidesAreOwned(z, o, n, k, off, r);
      }
    }
  }

  lemma {:induction false} WrittenFits(trie: Trie<Value>, t: Tree, k: nat, off: nat, h: nat)
    requires AllEncodable(trie) && k + NodeCount(trie) <= |t.nodes| && Height(trie) <= h
    requires t.nodes[k..k + NodeCount(trie)] == NodesFor(trie, |t.nodes|, k, off)
    ensures Fits(t, RecordFor(trie, |t.nodes|, k, off), h)
    decreases trie
  {
    hide Encode, Encodable, NodesFor, DataSection, NodeCount;
    match trie
    case End(_) =>
    case Fork(z, o) =>
      ForkInTree(z, o, t, k, off);
      WrittenFits(z, t, k + 1, off, h - 1);
      WrittenFits(o, t, k + 1 + NodeCount(z), off + |DataSection(z)|, h - 1);
  }

  // ---------- no record of a written trie is an alias ----------

  /** `start` is not in this part of the trie, or all zeros lead to this part and `j` more of them to `start`. */
  predicate NoAlias(trie: Trie<Value>, t: Tree, k: nat, off: nat, path: seq<bool>, start: nat, j: nat)
    requires AllEncodable(trie)
  {
    || !Owns(trie, |t.nodes|, k, off, start)
    || (Val(path) == 0 && Walk(t, RecordFor(trie, |t.nodes|, k, off), Zeros(j)).record == start)
  }

  lemma SidesHaveNoAlias(z: Trie<Value>, o: Trie<Value>, t: Tree, k: nat, off: nat, path: seq<bool>, start: nat, j: nat)
    requires AllEncodable(z) && AllEncodable(o) && k + NodeCount(Fork(z, o)) <= |t.nodes|
    requires AllEncodable(Fork(z, o)) && NoAlias(Fork(z, o), t, k, off, path, start, j)
    requires t.nodes[k..k + NodeCount(Fork(z, o))] == NodesFor(Fork(z, o), |t.nodes|, k, off)
    ensures NoAlias(z, t, k + 1, off, path + [false], start, if j == 0 then 0 else j - 1)
    ensures NoAlias(o, t, k + 1 + NodeCount(z), off + |DataSection(z)|, path + [true], start, 0)
  {
    hide Encode, Encodable, AllEncodable, NodesFor, DataSection, NodeCount, RecordFor;
    var n := |t.nodes|;
    ForkInTree(z, o, t, k, off);
    ForkIsNode(z, o, n, k, off);
    ValSnoc(path, false);
    if Owns(Fork(z, o), n, k, off, start) && j > 0 {
      assert Zeros(j)[1..] == Zeros(j - 1);
      assert Walk(t, k, Zeros(j)).record == Walk(t, t.Child(k, false), Zeros(j - 1)).record;
      WalkIsOwned(z, t, k + 1, off, Zeros(j - 1));
    } else if Owns(Fork(z, o), n, k, off, start) {
      assert Walk(t, k, Zeros(0)) == Stop(k, 0);
    }
  }

  lemma ForkIsNode(z: Trie<Value>, o: Trie<Value>, n: nat, k: nat, off: nat)
    ensures RecordFor(Fork(z, o), n, k, off) == k
  {
  }

  // ---------- the leaves of a written trie ----------

  /** The leaves stand at the ends, and their records are read as the values there. */
  ghost predicate Matches(buf: bytes, m: Metadata, d: nat, ls: seq<Leaf>, es: seq<TrieEnd>)
  {
    && |ls| == |es|
    && forall i | 0 <= i < |ls| ::
         ls[i].path == es[i].path && RecordReader(buf, m, d)(ls[i].record) == Some(es[i].value)
  }

  lemma MatchesConcat(
      buf: bytes, m: Metadata, d: nat, ls: seq<Leaf>, es: seq<TrieEnd>, ls': seq<Leaf>, es': seq<TrieEnd>)
    requires Matches(buf, m, d, ls, es) && Matches(buf, m, d, ls', es')
    ensures Matches(buf, m, d, ls + ls', es + es')
  {
    hide RecordReader;
  }

  lemma WrittenValueIsRead(v: Value, t: Tree, buf: bytes, m: Metadata, d: nat, off: nat)
    requires Encodable(v) && At(buf, DataStart(m) + off, Encode(v)) && |t.nodes| == m.nodeCount
    ensures RecordReader(buf, m, d)(m.nodeCount + SEPARATOR_SIZE + off) == Some(v)
  {
    hide At, Encode, Encodable, Plain, Laid, Readable, Meaning, Nesting, Extent, ResolveDataPointer, RecordReader;
    EncodedIsLaid(buf, DataStart(m), DataStart(m) + off, v);
    var r := m.nodeCount + SEPARATOR_SIZE + off;
    LaidIsResolved(buf, m, d, r, Plain(v), 0);
    RecordReaderIsResolve(buf, m, d, r, 0);
  }

  lemma {:induction false} WrittenLeaves(
      trie: Trie<Value>, t: Tree, buf: bytes, m: Metadata, d: nat, k: nat, off: nat,
      path: seq<bool>, start: nat, j: nat, w: nat)
    requires AllEncodable(trie) && k + NodeCount(trie) <= |t.nodes| == m.nodeCount
    requires t.nodes[k..k + NodeCount(trie)] == NodesFor(trie, |t.nodes|, k, off)
    requires At(buf, DataStart(m) + off, DataSection(trie))
    requires NoAlias(trie, t, k, off, path, start, j)
    requires |path| + Height(trie) <= w && Fits(t, RecordFor(trie, |t.nodes|, k, off), w - |path|)
    ensures Matches(buf, m, d, Leaves(t, start, w, RecordFor(trie, |t.nodes|, k, off), path), Ends(trie, path))
    decreases trie
  {
    if trie.Fork? {
      WrittenForkLeaves(trie, t, buf, m, d, k, off, path, start, j, w);
    } else {
      WrittenEndLeaves(trie, t, buf, m, d, k, off, path, start, j, w);
    }
  }

  lemma WrittenEndLeaves(
      trie: Trie<Value>, t: Tree, buf: bytes, m: Metadata, d: nat, k: nat, off: nat,
      path: seq<bool>, start: nat, j: nat, w: nat)
    requires AllEncodable(trie) && |t.nodes| == m.nodeCount && trie.End?
    requires At(buf, DataStart(m) + off, DataSection(trie)) && NoAlias(trie, t, k, off, path, start, j)
    requires |path| <= w && Fits(t, RecordFor(trie, |t.nodes|, k, off), w - |path|)
    ensures Matches(buf, m, d, Leaves(t, start, w, RecordFor(trie, |t.nodes|, k, off), path), Ends(trie, path))
  {
    hide At, Encode, Encodable, RecordReader;
    if trie.value.Some? {
      EncodeIsNotEmpty(trie.value.value);
      WrittenValueIsRead(trie.value.value, t, buf, m, d, off);
    }
  }

  lemma {:induction false} WrittenForkLeaves(
      trie: Trie<Value>, t: Tree, buf: bytes, m: Metadata, d: nat, k: nat, off: nat,
      path: seq<bool>, start: nat, j: nat, w: nat)
    requires AllEncodable(trie) && k + NodeCount(trie) <= |t.nodes| == m.nodeCount && trie.Fork?
    requires t.nodes[k..k + NodeCount(trie)] == NodesFor(trie, |t.nodes|, k, off)
    requires At(buf, DataStart(m) + off, DataSection(trie))
    requires NoAlias(trie, t, k, off, path, start, j)
    requires |path| + Height(trie) <= w && Fits(t, RecordFor(trie, |t.nodes|, k, off), w - |path|)
    ensures Matches(buf, m, d, Leaves(t, start, w, RecordFor(trie, |t.nodes|, k, off), path), Ends(trie, path))
    decreases trie, 0
  {
    hide At, Encode, Encodable, RecordReader, NodesFor, DataSection, NodeCount, Matches, Fits;
    var z, o, n := trie.zero, trie.one, |t.nodes|;
    var k', off' := k + 1 + NodeCount(z), off + |DataSection(z)|;
    ForkInTree(z, o, t, k, off);
    SidesHaveNoAlias(z, o, t, k, off, path, start, j);
    AtConcat(buf, DataStart(m) + off, DataSection(z), DataSection(o));
    FitsBelow(t, k, w - |path|);
    WrittenLeaves(z, t, buf, m, d, k + 1, off, path + [false], start, if j == 0 then 0 else j - 1, w);
    WrittenLeaves(o, t, buf, m, d, k', off', path + [true], start, 0, w);
    var ls := Leaves(t, start, w, RecordFor(z, n, k + 1, off), path + [false]);
    var ls' := Leaves(t, start, w, RecordFor(o, n, k', off'), path + [true]);
    MatchesConcat(buf, m, d, ls, Ends(z, path + [false]), ls', Ends(o, path + [true]));
    ForkLeaves(trie, t, k, off, path, start, j, w);
  }

  lemma FitsBelow(t: Tree, r: nat, h: nat)
    requires Fits(t, r, h) && t.IsNode(r)
    ensures h > 0 && Fits(t, t.Child(r, false), h - 1) && Fits(t, t.Child(r, true), h - 1)
  {
  }

  /** A fork is not skipped. */
  lemma ForkLeaves(trie: Trie<Value>, t: Tree, k: nat, off: nat, path: seq<bool>, start: nat, j: nat, w: nat)
    requires AllEncodable(trie) && trie.Fork? && k + NodeCount(trie) <= |t.nodes|
    requires NoAlias(trie, t, k, off, path, start, j) && |path| < w && Fits(t, k, w - |path|)
    ensures Leaves(t, start, w, k, path) ==
            Leaves(t, start, w, t.Child(k, false), path + [false]) +
            Leaves(t, start, w, t.Child(k, true), path + [true])
  {
    hide DataSection, AllEncodable;
  }

  // ---------- the theorem ----------

  /** Iterating over the bytes of a written database yields exactly the ends of the trie that hold values, in
      address order, each with its network and its value; it raises at the first end whose network Python
      cannot build, and only there. */
  lemma IterationGivesTrieBack(trie: Trie<Value>, m: Metadata, rest: bytes, d: nat)
    requires AllEncodable(trie) && (trie.Fork? || trie == End(None))
    requires m.KnownRecordSize() && m.nodeCount == NodeCount(trie)
    requires NodeCount(trie) + SEPARATOR_SIZE + |DataSection(trie)| <= Pow2(m.recordSize)
    requires Height(trie) <= Width(m.ipVersion == 6)
    ensures TreeInRange(m, NodesFor(trie, NodeCount(trie), 0, 0))
    ensures var buf := Database(trie, m, rest);
            && HoldsTree(buf, m) && Fits(TreeOf(buf, m), 0, Width(m.ipVersion == 6))
            && ReaderIteration(buf, m, d) == RunOf(Iteration.Map(EndItemOf(m.ipVersion == 6), Ends(trie, [])))
  {
    hide Database, TreeOf, NodesFor, DataSection, Encode, Encodable, RecordReader, PythonIteration, Leaves, Fits, Owns,
      Walk, Height, Pow2, RunOf, Ends, AllEncodable, At;
    var n, ipv6 := NodeCount(trie), m.ipVersion == 6;
    NodesInRange(trie, n, 0, 0, n + SEPARATOR_SIZE + |DataSection(trie)|, m.recordSize);
    var buf := Database(trie, m, rest);
    DatabaseHolds(trie, m, rest);
    var t := TreeOf(buf, m);
    assert t.nodes[0..0 + NodeCount(trie)] == t.nodes;
    RootIsZero(trie, n);
    WrittenFits(trie, t, 0, 0, Width(ipv6));
    var j := if ipv6 then IPV4_SKIP else 0;
    StartIsAhead(t, ipv6);
    WrittenLeaves(trie, t, buf, m, d, 0, 0, [], Ipv4Start(t, ipv6), j, Width(ipv6));
    PythonIterationYieldsLeaves(t, ipv6, RecordReader(buf, m, d));
    MatchedItems(buf, m, d, ipv6, AllLeaves(t, ipv6), Ends(trie, []));
  }

  lemma StartIsAhead(t: Tree, ipv6: bool)
    ensures Walk(t, 0, Zeros(if ipv6 then IPV4_SKIP else 0)).record == Ipv4Start(t, ipv6)
  {
  }

  lemma RootIsZero(trie: Trie<Value>, n: nat)
    requires (trie.Fork? || trie == End(None)) && n == NodeCount(trie)
    ensures RecordFor(trie, n, 0, 0) == 0
  {
  }

  lemma MatchedItems(buf: bytes, m: Metadata, d: nat, ipv6: bool, ls: seq<Leaf>, es: seq<TrieEnd>)
    requires Matches(buf, m, d, ls, es)
    ensures Iteration.Map(PythonItemOf(ipv6, RecordReader(buf, m, d)), ls) == Iteration.Map(EndItemOf(ipv6), es)
  {
    hide RecordReader, PathNetwork, Lo;
    var xs, ys := Iteration.Map(PythonItemOf(ipv6, RecordReader(buf, m, d)), ls), Iteration.Map(EndItemOf(ipv6), es);
    forall i | 0 <= i < |ls| ensures xs[i] == ys[i] {
      assert ls[i].path == es[i].path;
    }
    assert xs == ys;
  }
}
