/** Databases on which the iterators do what one would not expect. */
module OddDatabases {
  import opened Wrappers
  import opened Bits
  import opened SearchTree
  import opened Lookup
  import opened Networks
  import opened Iteration
  import opened ExtensionIterator
  import opened Agreement

  /** Yield the data pointers themselves. */
  function Pointers(): Resolve<nat> { (r: nat) => Some(r) }

  /** 96 nodes, each but the last the left child of the one before; the right side of the first and both sides
      of the last are given. */
  function Chain(right: nat, last: Node): (t: Tree)
    ensures |t.nodes| == 96
  {
    Tree(seq(96, i requires 0 <= i < 96 =>
      if i == 95 then last else Node(i + 1, if i == 0 then right else 96)))
  }

  lemma {:induction false} ChainWalk(t: Tree, right: nat, last: Node, i: nat, k: nat)
    requires i + k <= 95 && t == Chain(right, last)
    ensures Reaches(t, i, Zeros(k), i + k)
    decreases k
  {
    if k > 0 {
      ChainWalk(t, right, last, i + 1, k - 1);
      assert Zeros(k)[1..] == Zeros(k - 1);
    }
  }

  lemma ChainFits(ipv6: bool, right: nat, last: Node)
    requires ipv6 && right >= 96 && last.left >= 96 && last.right >= 96
    ensures Fits(Chain(right, last), 0, Width(ipv6))
  {
    RankedFits(Chain(right, last), seq(96, i requires 0 <= i < 96 => 95 - i), 0, Width(ipv6));
  }

  lemma ChainEnds(t: Tree, right: nat, last: Node, b: bool)
    requires t == Chain(right, last)
    ensures Reaches(t, 0, Zeros(95) + [b], last.Side(b))
  {
    ChainWalk(t, right, last, 0, 95);
    ReachesSnoc(t, 0, Zeros(95), 95, b);
  }

  lemma ChainStart(t: Tree, right: nat, last: Node, ipv6: bool)
    requires ipv6 && t == Chain(right, last)
    ensures Ipv4Start(t, ipv6) == last.left && !DataAboveIpv4(t, ipv6)
  {
    ChainEnds(t, right, last, false);
    assert Zeros(95) + [false] == Zeros(96);
  }

  // ---------- a network at 2^32 ----------

  /** The only network is ::1:0:0/96. */
  function Two32Tree(): Tree { Chain(96, Node(96, 112)) }

  lemma Two32HasNoAlias(t: Tree, p: seq<bool>, a: seq<bool>, j: int)
    requires t == Two32Tree() && p == Zeros(95) + [true] && a == p + Zeros(32)
    requires Reaches(t, 0, p, 112)
    ensures !AliasAt(t, 96, a, j)
  {
    if 0 <= j <= 95 {
      ChainWalk(t, 96, Node(96, 112), 0, j);
      assert a[..j] == Zeros(j);
    } else if 96 <= j <= |a| {
      assert a[..j] == p + Zeros(j - 96);
      WalkConcat(t, 0, p, Zeros(j - 96));
    }
  }

  /** The address 2^32 reaches the data record after 96 bits and meets no alias before. */
  lemma Two32IsLeaf(t: Tree, ipv6: bool, p: seq<bool>)
    requires ipv6 && t == Two32Tree() && p == Zeros(95) + [true] && Fits(t, 0, Width(ipv6))
    ensures Leaf(p, 112) in AllLeaves(t, ipv6)
  {
    var a := p + Zeros(32);
    ChainEnds(t, 96, Node(96, 112), true);
    WalkConcat(t, 0, p, Zeros(32));
    assert a[..96] == p;
    ChainStart(t, 96, Node(96, 112), ipv6);
    forall j ensures !AliasAt(t, 96, a, j) {
      Two32HasNoAlias(t, p, a, j);
    }
    IterationAgreesWithLookup(t, 96, a, Leaf(p, 112));
  }

  lemma LoOfTwo32(p: seq<bool>)
    requires p == Zeros(95) + [true]
    ensures Lo(128, p) == 0x1_0000_0000
  {
    ValSnoc(Zeros(95), true);
    ValOfZeros(95);
    ShlIsProduct(1, 32);
    Pow2Facts();
  }

  /** Python raises on this tree while the extension yields its network. */
  lemma PythonFailsOnTwo32(t: Tree, ipv6: bool)
    requires ipv6 && t == Two32Tree()
    ensures Fits(t, 0, Width(ipv6))
    ensures PythonIteration(t, ipv6, Pointers()).failed && !ExtensionIteration(t, ipv6, Pointers()).failed
  {
    hide Walk, DataAboveIpv4, Lo, PythonIteration, RunOf;
    var p := Zeros(95) + [true];
    ChainFits(ipv6, 96, Node(96, 112));
    ChainStart(t, 96, Node(96, 112), ipv6);
    Two32IsLeaf(t, ipv6, p);
    LoOfTwo32(p);
    assert AtTwo32(ipv6, Leaf(p, 112));
    PythonIterationFailsIff(t, ipv6, Pointers());
    ExtensionIterationFailsIff(t, ipv6, Pointers());
  }

  // ---------- one data record as IPv4 start and elsewhere ----------

  /** The zero path ends on data record 112 after 96 bits, and so does the path of a single one. */
  function SharedStartTree(): Tree { Chain(112, Node(112, 96)) }

  lemma SharedStartIsAlias(t: Tree, ipv6: bool, a: seq<bool>)
    requires ipv6 && t == SharedStartTree() && a == [true] + Zeros(127)
    ensures Ipv4Start(t, ipv6) == 112 && !t.IsNode(112) && Aliased(t, 112, a)
    ensures Find(t, 0, a) == Success(Found(112, 1))
  {
    ChainStart(t, 112, Node(112, 96), ipv6);
    assert Walk(t, t.Child(0, true), a[1..]) == Stop(112, 0);
    assert a[..1] == [true];
    assert Walk(t, t.Child(0, true), [true][1..]) == Stop(112, 0);
    ValSnoc([], true);
    assert [] + [true] == [true];
    assert AliasAt(t, 112, a, 1);
  }

  /** The network 8000::/1 of that record is yielded by the extension; Python takes it for an alias and yields
      nothing for its addresses. Lookup finds the record. */
  lemma PythonSkipsSharedStart(t: Tree, ipv6: bool, a: seq<bool>, item: Item<nat>)
    requires ipv6 && t == SharedStartTree() && a == [true] + Zeros(127)
    requires Some(item) == PathItem(ipv6, Pointers(), Leaf([true], 112))
    ensures Fits(t, 0, Width(ipv6)) && Find(t, 0, a) == Success(Found(112, 1))
    ensures item in ExtensionIteration(t, ipv6, Pointers()).items && Covers(item, Val(a))
    ensures forall other: Item<nat> | other in PythonIteration(t, ipv6, Pointers()).items :: !Covers(other, Val(a))
  {
    hide Walk, DataAboveIpv4, PythonIteration, ExtensionIteration, Aliased, Yields, Covers, PathItem, Leaves, Fits;
    ChainFits(ipv6, 112, Node(112, 96));
    ChainStart(t, 112, Node(112, 96), ipv6);
    SharedStartIsAlias(t, ipv6, a);
    ExtensionIterationFailsIff(t, ipv6, Pointers());
    assert a[..1] == [true];
    ExtensionItemsAgreeWithLookup(t, ipv6, Pointers(), a, item);
    var run := PythonIteration(t, ipv6, Pointers());
    PythonYields(t, ipv6, Pointers());
    forall other: Item<nat> | other in run.items ensures !Covers(other, Val(a)) {
      if Covers(other, Val(a)) {
        var i :| 0 <= i < |run.items| && run.items[i] == other;
        CoveringItemIsFound(t, 112, ipv6, Pointers(), run, a, i);
      }
    }
  }

  // ---------- data above the IPv4 part ----------

  /** One node with data on its left: ::/1. Both iterations raise at once, while lookup finds the record. */
  lemma BothFailOnShortZeroPath(t: Tree, ipv6: bool, a: seq<bool>)
    requires ipv6 && t == Tree([Node(17, 1)]) && a == Zeros(128)
    ensures Fits(t, 0, Width(ipv6)) && Find(t, 0, a) == Success(Found(17, 1))
    ensures PythonIteration(t, ipv6, Pointers()) == Run([], true) == ExtensionIteration(t, ipv6, Pointers())
  {
    hide PythonIteration, ExtensionIteration;
    assert Walk(t, t.Child(0, false), Zeros(96)[1..]) == Stop(17, 0);
    assert Walk(t, t.Child(0, false), a[1..]) == Stop(17, 0);
    assert DataAboveIpv4(t, ipv6);
    BothFailAtOnce(t, ipv6, Pointers());
  }
}
