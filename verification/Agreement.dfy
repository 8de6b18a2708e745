/** The two iterators compared, and the yielded networks compared with lookup. */
module Agreement {
  import opened Wrappers
  import opened Bits
  import opened SearchTree
  import opened Lookup
  import opened Networks
  import opened Values
  import opened Iteration
  import opened LockedReader
  import opened ExtensionIterator

  // ---------- the alias tests of the two readers ----------

  predicate AliasedLeaf(start: nat, l: Leaf) { l.record == start && Val(l.path) != 0 }

  /** Without the data records the Python generator takes for aliases. */
  function Unaliased(start: nat, ls: seq<Leaf>): seq<Leaf>
  {
    if |ls| == 0 then []
    else KeepUnaliased(start, ls[0]) + Unaliased(start, ls[1..])
  }

  function KeepUnaliased(start: nat, l: Leaf): seq<Leaf>
  {
    if AliasedLeaf(start, l) then [] else [l]
  }

  lemma {:induction false} UnaliasedConcat(start: nat, xs: seq<Leaf>, ys: seq<Leaf>)
    ensures Unaliased(start, xs + ys) == Unaliased(start, xs) + Unaliased(start, ys)
  {
    if |xs| == 0 {
      assert xs + ys == ys;
    } else {
      var zs, head := xs + ys, KeepUnaliased(start, xs[0]);
      assert zs[0] == xs[0] && zs[1..] == xs[1..] + ys;
      UnaliasedConcat(start, xs[1..], ys);
      calc {
        Unaliased(start, zs);
        head + Unaliased(start, zs[1..]);
        head + (Unaliased(start, xs[1..]) + Unaliased(start, ys));
        head + Unaliased(start, xs[1..]) + Unaliased(start, ys);
        Unaliased(start, xs) + Unaliased(start, ys);
      }
    }
  }

  /** Python asks for any one bit in the path, the extension for one in the first 96 bits. At the IPv4
      start node both mean the same, since no path returns to it from below. */
  lemma AliasTestsAgree(t: Tree, ipv6: bool, path: seq<bool>)
    requires Fits(t, 0, Width(ipv6)) && |path| <= Width(ipv6)
    requires t.IsNode(Ipv4Start(t, ipv6)) && Reaches(t, 0, path, Ipv4Start(t, ipv6))
    ensures Val(path) != 0 <==> HighPath(path)
  {
    var start := Ipv4Start(t, ipv6);
    ValZero(path);
    if |path| > IPV4_SKIP && !HighPath(path) {
      var zeros, rest := path[..IPV4_SKIP], path[IPV4_SKIP..];
      assert zeros == Zeros(IPV4_SKIP) && path == zeros + rest;
      ReachesSplit(t, 0, zeros, rest, start);
      Ipv4SubtreeFits(t);
      NoCycle(t, start, rest, IPV4_BITS);
    } else {
      HighPathHasOne(path);
    }
  }

  lemma HighPathHasOne(path: seq<bool>)
    ensures HighPath(path) ==> HasOne(path)
  {
    if HighPath(path) && |path| > IPV4_SKIP {
      var i :| 0 <= i < IPV4_SKIP && path[..IPV4_SKIP][i];
      assert path[i];
    }
  }

  /** The generator visits what the extension visits, less the data records it takes for aliases. */
  lemma {:induction false} LeavesAreUnaliasedVisits(t: Tree, ipv6: bool, node: nat, path: seq<bool>)
    requires Fits(t, 0, Width(ipv6)) && |path| <= Width(ipv6)
    requires Reaches(t, 0, path, node) && Fits(t, node, Width(ipv6) - |path|)
    ensures Leaves(t, Ipv4Start(t, ipv6), Width(ipv6), node, path) ==
            Unaliased(Ipv4Start(t, ipv6), Visits(t, Ipv4Start(t, ipv6), Width(ipv6), node, path))
    decreases Width(ipv6) - |path|
  {
    var start, w := Ipv4Start(t, ipv6), Width(ipv6);
    if t.IsNode(node) {
      var l, r := t.Child(node, false), t.Child(node, true);
      if node == start {
        AliasTestsAgree(t, ipv6, path);
      }
      ReachesSnoc(t, 0, path, node, false);
      ReachesSnoc(t, 0, path, node, true);
      LeavesAreUnaliasedVisits(t, ipv6, l, path + [false]);
      LeavesAreUnaliasedVisits(t, ipv6, r, path + [true]);
      UnaliasedConcat(start, Visits(t, start, w, l, path + [false]), Visits(t, start, w, r, path + [true]));
    }
  }

  lemma {:induction false} VisitsAreReached(t: Tree, start: nat, w: nat, node: nat, path: seq<bool>, l: Leaf)
    requires |path| <= w && Reaches(t, 0, path, node) && Fits(t, node, w - |path|)
    requires l in Visits(t, start, w, node, path)
    ensures |l.path| <= w && Reaches(t, 0, l.path, l.record) && t.IsData(l.record)
    decreases w - |path|
  {
    if t.IsNode(node) {
      var b := l in Visits(t, start, w, t.Child(node, true), path + [true]);
      ReachesSnoc(t, 0, path, node, b);
      VisitsAreReached(t, start, w, t.Child(node, b), path + [b], l);
    }
  }

  /** When the zero path ends on a data record, that record is visited first. */
  lemma {:induction false} ZeroPathIsFirst(t: Tree, start: nat, w: nat, node: nat, path: seq<bool>, n: nat)
    requires |path| + n <= w && Fits(t, node, w - |path|) && Val(path) == 0
    requires t.IsData(Walk(t, node, Zeros(n)).record)
    ensures var ls := Visits(t, start, w, node, path);
            |ls| > 0 && Val(ls[0].path) == 0 && |ls[0].path| == |path| + Walk(t, node, Zeros(n)).depth
    decreases n
  {
    if t.IsNode(node) {
      ValZero(path);
      ValSnoc(path, false);
      HighPathHasOne(path);
      assert n > 0 && Zeros(n)[1..] == Zeros(n - 1);
      ZeroPathIsFirst(t, start, w, t.Child(node, false), path + [false], n - 1);
    }
  }

  /** Where the extension skips: at the IPv4 start if it is a node; else nowhere, as at the empty record. */
  function SkipStart(t: Tree, start: nat): nat { if t.IsNode(start) then start else |t.nodes| }

  /** So the extension visits what the generator would with that start. */
  lemma {:induction false} VisitsAreLeaves(t: Tree, ipv6: bool, node: nat, path: seq<bool>)
    requires Fits(t, 0, Width(ipv6)) && |path| <= Width(ipv6)
    requires Reaches(t, 0, path, node) && Fits(t, node, Width(ipv6) - |path|)
    ensures Visits(t, Ipv4Start(t, ipv6), Width(ipv6), node, path) ==
            Leaves(t, SkipStart(t, Ipv4Start(t, ipv6)), Width(ipv6), node, path)
    decreases Width(ipv6) - |path|
  {
    var start := Ipv4Start(t, ipv6);
    if t.IsNode(node) {
      if node == start {
        AliasTestsAgree(t, ipv6, path);
      }
      ReachesSnoc(t, 0, path, node, false);
      ReachesSnoc(t, 0, path, node, true);
      VisitsAreLeaves(t, ipv6, t.Child(node, false), path + [false]);
      VisitsAreLeaves(t, ipv6, t.Child(node, true), path + [true]);
    }
  }

  // ---------- the items of the two readers ----------

  function AllVisits(t: Tree, ipv6: bool): seq<Leaf>
    requires Fits(t, 0, Width(ipv6))
  {
    Visits(t, Ipv4Start(t, ipv6), Width(ipv6), 0, [])
  }

  function AllLeaves(t: Tree, ipv6: bool): seq<Leaf>
    requires Fits(t, 0, Width(ipv6))
  {
    Leaves(t, Ipv4Start(t, ipv6), Width(ipv6), 0, [])
  }

  /** A `for` loop over the extension's iterator, as `Collect` runs it. */
  function ExtensionIteration<V>(t: Tree, ipv6: bool, resolve: Resolve<V>): Run<Item<V>>
    requires Fits(t, 0, Width(ipv6))
  {
    RunOf(Map(PathItemOf(ipv6, resolve), AllVisits(t, ipv6)))
  }

  predicate AtTwo32(ipv6: bool, l: Leaf) { ipv6 && Lo(128, l.path) == 0x1_0000_0000 }

  /** What Python makes of a leaf. */
  function PythonItem<V>(ipv6: bool, resolve: Resolve<V>, l: Leaf): Option<Item<V>>
  {
    if AtTwo32(ipv6, l) then None else PathItem(ipv6, resolve, l)
  }

  function PythonItemOf<V>(ipv6: bool, resolve: Resolve<V>): Leaf -> Option<Item<V>>
  {
    (l: Leaf) => PythonItem(ipv6, resolve, l)
  }

  lemma EmittedIsPythonItem<V>(ipv6: bool, resolve: Resolve<V>, l: Leaf)
    requires |l.path| <= Width(ipv6)
    ensures EmitLeaf(Width(ipv6), PythonEmit(ipv6, resolve))(l) == PythonItem(ipv6, resolve, l)
  {
    PythonNetworkIsPathNetwork(ipv6, l.path);
  }

  lemma VisitsFit(t: Tree, ipv6: bool, l: Leaf)
    requires Fits(t, 0, Width(ipv6)) && l in AllVisits(t, ipv6)
    ensures |l.path| <= Width(ipv6) && t.IsData(l.record) && Reaches(t, 0, l.path, l.record)
  {
    VisitsAreReached(t, Ipv4Start(t, ipv6), Width(ipv6), 0, [], l);
  }

  lemma {:induction false} UnaliasedSubset(start: nat, ls: seq<Leaf>)
    ensures forall l | l in Unaliased(start, ls) :: l in ls
  {
    if |ls| > 0 {
      UnaliasedSubset(start, ls[1..]);
    }
  }

  lemma LeavesFit(t: Tree, ipv6: bool)
    requires Fits(t, 0, Width(ipv6))
    ensures AllLeaves(t, ipv6) == Unaliased(Ipv4Start(t, ipv6), AllVisits(t, ipv6))
    ensures forall l | l in AllLeaves(t, ipv6) :: l in AllVisits(t, ipv6) && |l.path| <= Width(ipv6)
  {
    hide Leaves, Visits, Fits;
    LeavesAreUnaliasedVisits(t, ipv6, 0, []);
    UnaliasedSubset(Ipv4Start(t, ipv6), AllVisits(t, ipv6));
    forall l | l in AllLeaves(t, ipv6) ensures |l.path| <= Width(ipv6) {
      VisitsFit(t, ipv6, l);
    }
  }

  lemma PythonIterationYieldsLeaves<V>(t: Tree, ipv6: bool, resolve: Resolve<V>)
    requires Fits(t, 0, Width(ipv6))
    ensures PythonIteration(t, ipv6, resolve) == RunOf(Map(PythonItemOf(ipv6, resolve), AllLeaves(t, ipv6)))
  {
    hide Leaves, Fits, RunOf, Generate, PythonItem, EmitLeaf;
    var ls, w := AllLeaves(t, ipv6), Width(ipv6);
    GenerateYieldsLeaves(t, Ipv4Start(t, ipv6), w, PythonEmit(ipv6, resolve), 0, []);
    LeavesFit(t, ipv6);
    var xs, ys := Map(EmitLeaf(w, PythonEmit(ipv6, resolve)), ls), Map(PythonItemOf(ipv6, resolve), ls);
    forall i | 0 <= i < |ls| ensures xs[i] == ys[i] {
      assert ls[i] in ls;
      EmittedIsPythonItem(ipv6, resolve, ls[i]);
    }
    assert xs == ys;
  }

  // ---------- when the iterations fail ----------

  /** A data record that ends the zero path before the 96 bits an IPv4 network needs. */
  predicate DataAboveIpv4(t: Tree, ipv6: bool)
  {
    ipv6 && var s := Walk(t, 0, Zeros(IPV4_SKIP)); t.IsData(s.record) && s.depth < IPV4_SKIP
  }

  /** Only such a record has no network. */
  lemma NoNetworkOnlyAboveIpv4(t: Tree, ipv6: bool, l: Leaf)
    requires Fits(t, 0, Width(ipv6)) && l in AllVisits(t, ipv6) && PathNetwork(ipv6, l.path).None?
    ensures DataAboveIpv4(t, ipv6)
  {
    VisitsFit(t, ipv6, l);
    if Val(l.path) > 0 {
      LowBlockIsLong(l.path);
    }
    ValZero(l.path);
    assert l.path == Zeros(|l.path|);
    WalkConcat(t, 0, l.path, Zeros(IPV4_SKIP - |l.path|));
    assert l.path + Zeros(IPV4_SKIP - |l.path|) == Zeros(IPV4_SKIP);
  }

  /** Whenever the IPv4 start is a data record, it is visited first, under a path of zeros. */
  lemma DataStartIsFirst(t: Tree, ipv6: bool)
    requires Fits(t, 0, Width(ipv6)) && t.IsData(Ipv4Start(t, ipv6))
    ensures |AllVisits(t, ipv6)| > 0
    ensures var l := AllVisits(t, ipv6)[0];
            && Val(l.path) == 0 && l.record == Ipv4Start(t, ipv6)
            && (DataAboveIpv4(t, ipv6) ==> ipv6 && |l.path| < IPV4_SKIP)
  {
    hide Visits, Fits;
    var n := if ipv6 then IPV4_SKIP else 0;
    assert Walk(t, 0, Zeros(0)) == Stop(0, 0);
    ZeroPathIsFirst(t, Ipv4Start(t, ipv6), Width(ipv6), 0, [], n);
    var l := AllVisits(t, ipv6)[0];
    VisitsFit(t, ipv6, l);
    ZeroPathEnds(t, l.path, l.record, n);
  }

  /** A path of zeros to a data record is where the zero path ends. */
  lemma ZeroPathEnds(t: Tree, path: seq<bool>, r: nat, n: nat)
    requires Val(path) == 0 && |path| <= n && Reaches(t, 0, path, r) && t.IsData(r)
    ensures Walk(t, 0, Zeros(n)) == Stop(r, |path|)
  {
    ValZero(path);
    WalkConcat(t, 0, path, Zeros(n - |path|));
    assert path + Zeros(n - |path|) == Zeros(n);
  }

  lemma ShortZeroPathHasNoNetwork(path: seq<bool>)
    requires Val(path) == 0 && |path| < 96
    ensures PathNetwork(true, path).None?
  {
    ShlLeast(0, 128 - |path|);
  }

  /** The record that ends the zero path comes first for both, and has no network. */
  lemma FirstRecordFails(t: Tree, ipv6: bool)
    requires Fits(t, 0, Width(ipv6)) && DataAboveIpv4(t, ipv6)
    ensures |AllVisits(t, ipv6)| > 0 && PathNetwork(ipv6, AllVisits(t, ipv6)[0].path).None?
    ensures |AllLeaves(t, ipv6)| > 0 && AllLeaves(t, ipv6)[0] == AllVisits(t, ipv6)[0]
  {
    hide Visits, Leaves, Fits;
    DataStartIsFirst(t, ipv6);
    LeavesFit(t, ipv6);
    ShortZeroPathHasNoNetwork(AllVisits(t, ipv6)[0].path);
  }

  lemma FailsAtOnce<T>(os: seq<Option<T>>)
    requires |os| > 0 && os[0].None?
    ensures RunOf(os) == Run([], true)
  {
  }

  /** Both iterations raise at once when a data record ends the zero path too early. */
  lemma BothFailAtOnce<V>(t: Tree, ipv6: bool, resolve: Resolve<V>)
    requires Fits(t, 0, Width(ipv6)) && DataAboveIpv4(t, ipv6)
    ensures PythonIteration(t, ipv6, resolve) == Run([], true) && ExtensionIteration(t, ipv6, resolve) == Run([], true)
  {
    hide Visits, Leaves, Fits, RunOf, PythonIteration, PathNetwork, DataAboveIpv4;
    FirstRecordFails(t, ipv6);
    PythonIterationYieldsLeaves(t, ipv6, resolve);
    FailsAtOnce(Map(PythonItemOf(ipv6, resolve), AllLeaves(t, ipv6)));
    FailsAtOnce(Map(PathItemOf(ipv6, resolve), AllVisits(t, ipv6)));
  }

  /** Exactly when the Python iteration raises: on a data record above the IPv4 part, on a network at 2^32, or
      on a record that cannot be read. */
  lemma PythonIterationFailsIff<V>(t: Tree, ipv6: bool, resolve: Resolve<V>)
    requires Fits(t, 0, Width(ipv6))
    ensures PythonIteration(t, ipv6, resolve).failed <==>
            || DataAboveIpv4(t, ipv6)
            || exists l :: l in AllLeaves(t, ipv6) && (AtTwo32(ipv6, l) || resolve(l.record).None?)
  {
    hide Visits, Leaves, Fits, RunOf, PythonIteration, PathNetwork, DataAboveIpv4, AtTwo32;
    var ls := AllLeaves(t, ipv6);
    var xs := Map(PythonItemOf(ipv6, resolve), ls);
    PythonIterationYieldsLeaves(t, ipv6, resolve);
    LeavesFit(t, ipv6);
    RunOfAll(xs);
    if DataAboveIpv4(t, ipv6) {
      BothFailAtOnce(t, ipv6, resolve);
    } else {
      forall i | 0 <= i < |ls| ensures xs[i].None? <==> AtTwo32(ipv6, ls[i]) || resolve(ls[i].record).None? {
        assert ls[i] in ls;
        if PathNetwork(ipv6, ls[i].path).None? {
          NoNetworkOnlyAboveIpv4(t, ipv6, ls[i]);
        }
      }
      if PythonIteration(t, ipv6, resolve).failed {
        var i :| 0 <= i < |xs| && !xs[i].Some?;
        assert ls[i] in ls;
      }
    }
  }

  /** The extension's raises for the first and the last of these reasons only. */
  lemma ExtensionIterationFailsIff<V>(t: Tree, ipv6: bool, resolve: Resolve<V>)
    requires Fits(t, 0, Width(ipv6))
    ensures ExtensionIteration(t, ipv6, resolve).failed <==>
            DataAboveIpv4(t, ipv6) || exists l :: l in AllVisits(t, ipv6) && resolve(l.record).None?
  {
    hide Visits, Leaves, Fits, RunOf, PathNetwork, DataAboveIpv4;
    var ls := AllVisits(t, ipv6);
    var xs := Map(PathItemOf(ipv6, resolve), ls);
    RunOfAll(xs);
    if DataAboveIpv4(t, ipv6) {
      BothFailAtOnce(t, ipv6, resolve);
    } else {
      forall i | 0 <= i < |ls| ensures xs[i].None? <==> resolve(ls[i].record).None? {
        assert ls[i] in ls;
        if PathNetwork(ipv6, ls[i].path).None? {
          NoNetworkOnlyAboveIpv4(t, ipv6, ls[i]);
        }
      }
      if ExtensionIteration(t, ipv6, resolve).failed {
        var i :| 0 <= i < |xs| && !xs[i].Some?;
        assert ls[i] in ls;
      }
    }
  }

  // ---------- blocks and order ----------

  /** An iteration has yielded, in order, the items of these records; all of them if it has not failed. */
  ghost predicate Yields<V(!new)>(ipv6: bool, resolve: Resolve<V>, ls: seq<Leaf>, run: Run<Item<V>>)
  {
    && |run.items| <= |ls| && (!run.failed ==> |run.items| == |ls|)
    && forall i | 0 <= i < |run.items| :: PathItem(ipv6, resolve, ls[i]) == Some(run.items[i])
  }

  lemma PythonYields<V(!new)>(t: Tree, ipv6: bool, resolve: Resolve<V>)
    requires Fits(t, 0, Width(ipv6))
    ensures Yields(ipv6, resolve, AllLeaves(t, ipv6), PythonIteration(t, ipv6, resolve))
  {
    hide Leaves, Fits, RunOf, PythonIteration, PathItem, AtTwo32;
    PythonIterationYieldsLeaves(t, ipv6, resolve);
    RunOfAll(Map(PythonItemOf(ipv6, resolve), AllLeaves(t, ipv6)));
  }

  lemma ExtensionYields<V(!new)>(t: Tree, ipv6: bool, resolve: Resolve<V>)
    requires Fits(t, 0, Width(ipv6))
    ensures Yields(ipv6, resolve, AllVisits(t, ipv6), ExtensionIteration(t, ipv6, resolve))
  {
    hide Visits, Fits, RunOf, PathItem;
    RunOfAll(Map(PathItemOf(ipv6, resolve), AllVisits(t, ipv6)));
  }

  /** The leaves both kinds of iteration are over: those of a generator that skips at `s`. */
  function LeavesFrom(t: Tree, s: nat, ipv6: bool): seq<Leaf>
    requires Fits(t, 0, Width(ipv6))
  {
    Leaves(t, s, Width(ipv6), 0, [])
  }

  lemma VisitsFromSkipStart(t: Tree, ipv6: bool)
    requires Fits(t, 0, Width(ipv6))
    ensures AllVisits(t, ipv6) == LeavesFrom(t, SkipStart(t, Ipv4Start(t, ipv6)), ipv6)
  {
    VisitsAreLeaves(t, ipv6, 0, []);
  }

  lemma {:induction false} LeavesAreShort(t: Tree, s: nat, w: nat, node: nat, path: seq<bool>)
    requires |path| <= w && Fits(t, node, w - |path|)
    ensures forall l | l in Leaves(t, s, w, node, path) :: |l.path| <= w
    decreases w - |path|
  {
    if t.IsNode(node) {
      LeavesAreShort(t, s, w, t.Child(node, false), path + [false]);
      LeavesAreShort(t, s, w, t.Child(node, true), path + [true]);
    }
  }

  /** Item `i` is the block of leaf `i`. */
  lemma ItemIsBlock<V(!new)>(t: Tree, s: nat, ipv6: bool, resolve: Resolve<V>, run: Run<Item<V>>, i: nat)
    requires Fits(t, 0, Width(ipv6)) && Yields(ipv6, resolve, LeavesFrom(t, s, ipv6), run) && i < |run.items|
    ensures var l, network := LeavesFrom(t, s, ipv6)[i], run.items[i].network;
            && |l.path| <= Width(ipv6) && network.Valid()
            && network.base == Lo(Width(ipv6), l.path) && network.End() == Hi(Width(ipv6), l.path)
  {
    hide Leaves, Fits, Lo, Hi, PathNetwork;
    var l := LeavesFrom(t, s, ipv6)[i];
    assert l in LeavesFrom(t, s, ipv6);
    LeavesAreShort(t, s, Width(ipv6), 0, []);
    PathNetworkIsBlock(ipv6, l.path);
    assert PathItem(ipv6, resolve, l) == Some(run.items[i]);
  }

  lemma BlocksAscend<V(!new)>(t: Tree, s: nat, ipv6: bool, resolve: Resolve<V>, run: Run<Item<V>>, i: nat, j: nat)
    requires Fits(t, 0, Width(ipv6)) && Yields(ipv6, resolve, LeavesFrom(t, s, ipv6), run) && i < j < |run.items|
    ensures run.items[i].network.Valid() && run.items[i].network.End() <= run.items[j].network.base
  {
    hide Leaves, Fits, Lo, Hi, Yields;
    ItemIsBlock(t, s, ipv6, resolve, run, i);
    ItemIsBlock(t, s, ipv6, resolve, run, j);
    LeafOrder(t, s, ipv6, i, j);
    YieldsCount(ipv6, resolve, LeavesFrom(t, s, ipv6), run);
  }

  lemma YieldsCount<V(!new)>(ipv6: bool, resolve: Resolve<V>, ls: seq<Leaf>, run: Run<Item<V>>)
    requires Yields(ipv6, resolve, ls, run)
    ensures |run.items| <= |ls| && (!run.failed ==> |run.items| == |ls|)
  {
  }

  lemma LeafOrder(t: Tree, s: nat, ipv6: bool, i: nat, j: nat)
    requires Fits(t, 0, Width(ipv6))
    ensures i < j < |LeavesFrom(t, s, ipv6)| ==>
              Hi(Width(ipv6), LeavesFrom(t, s, ipv6)[i].path) <= Lo(Width(ipv6), LeavesFrom(t, s, ipv6)[j].path)
  {
    LeavesAscend(t, s, Width(ipv6), 0, []);
  }

  /** The networks that the Python iteration yields, until it ends or raises, are strictly ascending and
      pairwise disjoint. */
  lemma ItemsAscend<V(!new)>(t: Tree, ipv6: bool, resolve: Resolve<V>, i: nat, j: nat)
    requires Fits(t, 0, Width(ipv6)) && i < j < |PythonIteration(t, ipv6, resolve).items|
    ensures var items := PythonIteration(t, ipv6, resolve).items;
            items[i].network.Valid() && items[i].network.End() <= items[j].network.base
  {
    hide Leaves, Fits, PythonIteration, Yields;
    PythonYields(t, ipv6, resolve);
    BlocksAscend(t, Ipv4Start(t, ipv6), ipv6, resolve, PythonIteration(t, ipv6, resolve), i, j);
  }

  /** And so are those of the extension's iteration. */
  lemma ExtensionItemsAscend<V(!new)>(t: Tree, ipv6: bool, resolve: Resolve<V>, i: nat, j: nat)
    requires Fits(t, 0, Width(ipv6)) && i < j < |ExtensionIteration(t, ipv6, resolve).items|
    ensures var items := ExtensionIteration(t, ipv6, resolve).items;
            items[i].network.Valid() && items[i].network.End() <= items[j].network.base
  {
    hide Leaves, Visits, Fits, ExtensionIteration, Yields;
    ExtensionYields(t, ipv6, resolve);
    VisitsFromSkipStart(t, ipv6);
    BlocksAscend(t, SkipStart(t, Ipv4Start(t, ipv6)), ipv6, resolve, ExtensionIteration(t, ipv6, resolve), i, j);
  }

  // ---------- when the iterators agree ----------

  predicate SameInBoth(start: nat, ipv6: bool, l: Leaf) { !AtTwo32(ipv6, l) && !AliasedLeaf(start, l) }

  function PythonRun<V>(start: nat, ipv6: bool, resolve: Resolve<V>, vs: seq<Leaf>): Run<Item<V>>
  {
    RunOf(Map(PythonItemOf(ipv6, resolve), Unaliased(start, vs)))
  }

  function ExtensionRun<V>(ipv6: bool, resolve: Resolve<V>, vs: seq<Leaf>): Run<Item<V>>
  {
    RunOf(Map(PathItemOf(ipv6, resolve), vs))
  }

  lemma PythonRunStep<V>(start: nat, ipv6: bool, resolve: Resolve<V>, v: Leaf, rest: seq<Leaf>)
    ensures PythonRun(start, ipv6, resolve, [v] + rest) ==
            if AliasedLeaf(start, v) then PythonRun(start, ipv6, resolve, rest)
            else YieldOf(PythonItem(ipv6, resolve, v)).Then(PythonRun(start, ipv6, resolve, rest))
  {
    hide PythonItem, AliasedLeaf, Run.Then;
    var us := Unaliased(start, rest);
    assert ([v] + rest)[1..] == rest;
    if !AliasedLeaf(start, v) {
      assert ([v] + us)[1..] == us;
      RunOfStep(PythonItemOf(ipv6, resolve), v, us);
    } else {
      assert [] + us == us;
    }
  }

  lemma RunOfStep<T>(f: Leaf -> Option<T>, v: Leaf, rest: seq<Leaf>)
    ensures RunOf(Map(f, [v] + rest)) == YieldOf(f(v)).Then(RunOf(Map(f, rest)))
  {
    hide Run.Then;
    var os := Map(f, [v] + rest);
    assert os[0] == f(v) && os[1..] == Map(f, rest);
  }

  /** All the blocks of the sequence start at or above `lo`, one behind the other. */
  ghost predicate StartAt(ipv6: bool, lo: nat, vs: seq<Leaf>)
    decreases |vs|
  {
    |vs| > 0 ==>
      && |vs[0].path| <= Width(ipv6) && lo <= Lo(Width(ipv6), vs[0].path)
      && StartAt(ipv6, Hi(Width(ipv6), vs[0].path), vs[1..])
  }

  lemma {:induction false} FirstItemIsAbove<V>(
      start: nat, ipv6: bool, resolve: Resolve<V>, lo: nat, vs: seq<Leaf>)
    requires StartAt(ipv6, lo, vs)
    ensures var items := PythonRun(start, ipv6, resolve, vs).items;
            |items| > 0 ==> items[0].network.base >= lo
    decreases |vs|
  {
    hide AliasedLeaf, PathNetwork, Lo, Hi, AtTwo32;
    if |vs| > 0 {
      var v, rest := vs[0], vs[1..];
      assert vs == [v] + rest;
      PythonRunStep(start, ipv6, resolve, v, rest);
      PathNetworkIsBlock(ipv6, v.path);
      FirstItemIsAbove(start, ipv6, resolve, Hi(Width(ipv6), v.path), rest);
      AlignedBlock(Width(ipv6), v.path);
    }
  }

  /** The first records up to the one that fails decide whether the runs are equal. */
  lemma {:induction false} RunsAgreeIff<V>(start: nat, ipv6: bool, resolve: Resolve<V>, lo: nat, vs: seq<Leaf>)
    requires StartAt(ipv6, lo, vs)
    requires forall l | l in vs && AliasedLeaf(start, l) :: PathItem(ipv6, resolve, l).Some?
    ensures |ExtensionRun(ipv6, resolve, vs).items| <= |vs|
    ensures PythonRun(start, ipv6, resolve, vs) == ExtensionRun(ipv6, resolve, vs) <==>
            forall i | 0 <= i < |ExtensionRun(ipv6, resolve, vs).items| :: SameInBoth(start, ipv6, vs[i])
    decreases |vs|
  {
    hide AliasedLeaf, PathNetwork, Lo, Hi, AtTwo32;
    RunOfAll(Map(PathItemOf(ipv6, resolve), vs));
    if |vs| > 0 {
      var v, rest := vs[0], vs[1..];
      assert vs == [v] + rest;
      PythonRunStep(start, ipv6, resolve, v, rest);
      RunOfStep(PathItemOf(ipv6, resolve), v, rest);
      RunsAgreeIff(start, ipv6, resolve, Hi(Width(ipv6), v.path), rest);
      if AliasedLeaf(start, v) {
        AliasSeparates(start, ipv6, resolve, lo, vs);
      } else {
        NextRecordDecides(start, ipv6, resolve, v, rest);
      }
    }
  }

  /** An alias that the extension yields and Python skips is never made up for. */
  lemma AliasSeparates<V>(start: nat, ipv6: bool, resolve: Resolve<V>, lo: nat, vs: seq<Leaf>)
    requires StartAt(ipv6, lo, vs) && |vs| > 0 && AliasedLeaf(start, vs[0])
    requires PathItem(ipv6, resolve, vs[0]).Some?
    ensures PythonRun(start, ipv6, resolve, vs) != ExtensionRun(ipv6, resolve, vs)
    ensures |ExtensionRun(ipv6, resolve, vs).items| > 0
  {
    hide PathNetwork, Lo, Hi, AtTwo32, AliasedLeaf, RunOf;
    var v, rest := vs[0], vs[1..];
    assert vs == [v] + rest;
    PythonRunStep(start, ipv6, resolve, v, rest);
    RunOfStep(PathItemOf(ipv6, resolve), v, rest);
    PathNetworkIsBlock(ipv6, v.path);
    AlignedBlock(Width(ipv6), v.path);
    FirstItemIsAbove(start, ipv6, resolve, Hi(Width(ipv6), v.path), rest);
    var item := PathItem(ipv6, resolve, v).value;
    assert ExtensionRun(ipv6, resolve, vs).items[0] == item;
  }

  /** Without an alias in front, the first record either decides or is the same in both runs. */
  lemma NextRecordDecides<V>(start: nat, ipv6: bool, resolve: Resolve<V>, v: Leaf, rest: seq<Leaf>)
    requires !AliasedLeaf(start, v) && |ExtensionRun(ipv6, resolve, rest).items| <= |rest|
    requires PythonRun(start, ipv6, resolve, rest) == ExtensionRun(ipv6, resolve, rest) <==>
             forall i | 0 <= i < |ExtensionRun(ipv6, resolve, rest).items| :: SameInBoth(start, ipv6, rest[i])
    ensures |ExtensionRun(ipv6, resolve, [v] + rest).items| <= |[v] + rest|
    ensures PythonRun(start, ipv6, resolve, [v] + rest) == ExtensionRun(ipv6, resolve, [v] + rest) <==>
            forall i | 0 <= i < |ExtensionRun(ipv6, resolve, [v] + rest).items| ::
              SameInBoth(start, ipv6, ([v] + rest)[i])
  {
    hide PathItem, AtTwo32, AliasedLeaf, RunOf, Unaliased;
    var vs, p, e := [v] + rest, PythonRun(start, ipv6, resolve, rest), ExtensionRun(ipv6, resolve, rest);
    PythonRunStep(start, ipv6, resolve, v, rest);
    RunOfStep(PathItemOf(ipv6, resolve), v, rest);
    var full := ExtensionRun(ipv6, resolve, vs);
    match PathItem(ipv6, resolve, v)
    case None =>
    case Some(item) =>
      assert full == Run([item] + e.items, e.failed);
      assert forall i | 0 <= i < |e.items| :: vs[i + 1] == rest[i];
      if AtTwo32(ipv6, v) {
        assert !SameInBoth(start, ipv6, vs[0]);
      } else {
        var mine := PythonRun(start, ipv6, resolve, vs);
        assert mine == Run([item] + p.items, p.failed);
        assert mine.items[1..] == p.items && full.items[1..] == e.items;
        if forall i | 0 <= i < |full.items| :: SameInBoth(start, ipv6, vs[i]) {
          forall i | 0 <= i < |e.items| ensures SameInBoth(start, ipv6, rest[i]) {
            assert SameInBoth(start, ipv6, vs[i + 1]);
          }
        }
        if forall i | 0 <= i < |e.items| :: SameInBoth(start, ipv6, rest[i]) {
          forall i | 0 <= i < |full.items| ensures SameInBoth(start, ipv6, vs[i]) {
            assert i > 0 ==> vs[i] == rest[i - 1];
          }
        }
      }
  }

  lemma {:induction false} AscendingStartAt(ipv6: bool, lo: nat, vs: seq<Leaf>)
    requires Ascending(Width(ipv6), vs) && forall l | l in vs :: |l.path| <= Width(ipv6)
    requires |vs| > 0 ==> lo <= Lo(Width(ipv6), vs[0].path)
    ensures StartAt(ipv6, lo, vs)
    decreases |vs|
  {
    hide Lo, Hi;
    if |vs| > 0 {
      var rest := vs[1..];
      assert forall i | 0 <= i < |rest| :: rest[i] == vs[i + 1];
      AscendingStartAt(ipv6, Hi(Width(ipv6), vs[0].path), rest);
    }
  }

  lemma VisitsStartAt(t: Tree, ipv6: bool)
    requires Fits(t, 0, Width(ipv6))
    ensures StartAt(ipv6, 0, AllVisits(t, ipv6))
  {
    hide Lo, Hi, Leaves, Visits, Fits;
    VisitsFromSkipStart(t, ipv6);
    LeavesAscend(t, SkipStart(t, Ipv4Start(t, ipv6)), Width(ipv6), 0, []);
    LeavesAreShort(t, SkipStart(t, Ipv4Start(t, ipv6)), Width(ipv6), 0, []);
    AscendingStartAt(ipv6, 0, AllVisits(t, ipv6));
  }

  /** An alias is readable if the first record is: it is the same data record. */
  lemma AliasesAreReadable<V>(t: Tree, ipv6: bool, resolve: Resolve<V>, l: Leaf)
    requires Fits(t, 0, Width(ipv6)) && l in AllVisits(t, ipv6) && AliasedLeaf(Ipv4Start(t, ipv6), l)
    requires PathItem(ipv6, resolve, AllVisits(t, ipv6)[0]).Some?
    ensures PathItem(ipv6, resolve, l).Some?
  {
    hide Visits, Fits, PathNetwork, DataAboveIpv4, Walk;
    VisitsFit(t, ipv6, l);
    DataStartIsFirst(t, ipv6);
    if PathNetwork(ipv6, l.path).None? {
      NoNetworkOnlyAboveIpv4(t, ipv6, l);
      FirstRecordFails(t, ipv6);
    }
  }

  /** The first record is never an alias. */
  lemma FirstIsUnaliased(t: Tree, ipv6: bool)
    requires Fits(t, 0, Width(ipv6)) && |AllVisits(t, ipv6)| > 0
    ensures !AliasedLeaf(Ipv4Start(t, ipv6), AllVisits(t, ipv6)[0])
  {
    hide Visits, Fits, DataAboveIpv4, Walk;
    var l := AllVisits(t, ipv6)[0];
    VisitsFit(t, ipv6, l);
    if l.record == Ipv4Start(t, ipv6) {
      DataStartIsFirst(t, ipv6);
    }
  }

  /** The Python and the C iterator yield the same networks and records in the same order and fail or end
      alike, if and only if none of the records that the extension yields starts at 2^32 (which Python cannot
      build) or is the IPv4 start under another path (which Python skips and the extension does not). */
  lemma IteratorsAgreeIff<V>(t: Tree, ipv6: bool, resolve: Resolve<V>)
    requires Fits(t, 0, Width(ipv6))
    ensures |ExtensionIteration(t, ipv6, resolve).items| <= |AllVisits(t, ipv6)|
    ensures PythonIteration(t, ipv6, resolve) == ExtensionIteration(t, ipv6, resolve) <==>
            forall i | 0 <= i < |ExtensionIteration(t, ipv6, resolve).items| ::
              SameInBoth(Ipv4Start(t, ipv6), ipv6, AllVisits(t, ipv6)[i])
  {
    hide Leaves, Visits, Fits, PathItem, AtTwo32, AliasedLeaf, PythonIteration, RunOf, StartAt;
    var vs, start := AllVisits(t, ipv6), Ipv4Start(t, ipv6);
    PythonIterationYieldsLeaves(t, ipv6, resolve);
    LeavesFit(t, ipv6);
    assert PythonIteration(t, ipv6, resolve) == PythonRun(start, ipv6, resolve, vs);
    assert ExtensionIteration(t, ipv6, resolve) == ExtensionRun(ipv6, resolve, vs);
    if |vs| > 0 && PathItem(ipv6, resolve, vs[0]).None? {
      FirstFailsInBoth(start, ipv6, resolve, vs) by {
        FirstIsUnaliased(t, ipv6);
      }
    } else {
      VisitsStartAt(t, ipv6);
      forall l | l in vs && AliasedLeaf(start, l) ensures PathItem(ipv6, resolve, l).Some? {
        AliasesAreReadable(t, ipv6, resolve, l);
      }
      RunsAgreeIff(start, ipv6, resolve, 0, vs);
    }
  }

  lemma FirstFailsInBoth<V>(start: nat, ipv6: bool, resolve: Resolve<V>, vs: seq<Leaf>)
    requires |vs| > 0 && PathItem(ipv6, resolve, vs[0]).None? && !AliasedLeaf(start, vs[0])
    ensures PythonRun(start, ipv6, resolve, vs) == Run([], true) == ExtensionRun(ipv6, resolve, vs)
  {
    hide PathItem, AliasedLeaf, AtTwo32, RunOf;
    assert vs == [vs[0]] + vs[1..];
    PythonRunStep(start, ipv6, resolve, vs[0], vs[1..]);
    RunOfStep(PathItemOf(ipv6, resolve), vs[0], vs[1..]);
  }

  /** On a database whose records can all be read, this is: no network starts at 2^32 and no data record is
      both IPv4 start and alias, or both iterations fail on the very first record. */
  lemma ReadableIteratorsAgreeIff<V>(t: Tree, ipv6: bool, resolve: Resolve<V>)
    requires Fits(t, 0, Width(ipv6)) && forall l | l in AllVisits(t, ipv6) :: resolve(l.record).Some?
    ensures PythonIteration(t, ipv6, resolve) == ExtensionIteration(t, ipv6, resolve) <==>
            DataAboveIpv4(t, ipv6) || forall l | l in AllVisits(t, ipv6) :: SameInBoth(Ipv4Start(t, ipv6), ipv6, l)
  {
    hide Visits, Fits, SameInBoth, PythonIteration, DataAboveIpv4, RunOf;
    var vs := AllVisits(t, ipv6);
    IteratorsAgreeIff(t, ipv6, resolve);
    ExtensionIterationFailsIff(t, ipv6, resolve);
    RunOfAll(Map(PathItemOf(ipv6, resolve), vs));
    if DataAboveIpv4(t, ipv6) {
      BothFailAtOnce(t, ipv6, resolve);
    }
  }

  /** The extension's iterator, from `iter(reader)` to its end. */
  method IterateExtension(t: Tree, lib: Library, ipv6: bool, reader: ReaderObject)
    returns (run: Run<Item<Value>>, ghost interrupted: bool)
    requires |t.nodes| > 0 && Fits(t, 0, Width(ipv6)) && Listed(lib, AllVisits(t, ipv6)) && reader.Outside()
    modifies reader
    ensures reader.Outside()
    ensures var all := ExtensionIteration(t, ipv6, Fetch(lib));
            if interrupted then run.failed && run.items <= all.items else run == all
  {
    var iter := new ReaderIter(t, lib, ipv6, reader);
    run, interrupted := Collect(iter);
  }

  // ---------- the yielded networks and lookup ----------

  /** The item names the record and the network of the prefix that lookup of `a` reports. */
  predicate NamesFound<V(==)>(ipv6: bool, resolve: Resolve<V>, a: seq<bool>, found: Result<Found>, item: Item<V>)
  {
    && found.Success? && found.value.pointer != 0 && found.value.prefixLen <= |a|
    && Some(item) == PathItem(ipv6, resolve, Leaf(a[..found.value.prefixLen], found.value.pointer))
  }

  predicate Covers<V>(item: Item<V>, x: nat)
  {
    item.network.Valid() && item.network.base <= x < item.network.End()
  }

  lemma CoveringItemIsFound<V(!new)>(
      t: Tree, s: nat, ipv6: bool, resolve: Resolve<V>, run: Run<Item<V>>, a: seq<bool>, i: nat)
    requires Fits(t, 0, Width(ipv6)) && |a| == Width(ipv6)
    requires Yields(ipv6, resolve, LeavesFrom(t, s, ipv6), run) && i < |run.items| && Covers(run.items[i], Val(a))
    ensures !Aliased(t, s, a) && NamesFound(ipv6, resolve, a, Find(t, 0, a), run.items[i])
  {
    hide Leaves, Fits, Lo, Hi, Walk, Aliased, PathNetwork;
    var l := LeavesFrom(t, s, ipv6)[i];
    ItemIsBlock(t, s, ipv6, resolve, run, i);
    PrefixIffInBlock(Width(ipv6), l.path, a);
    IterationAgreesWithLookup(t, s, a, l);
    assert l in LeavesFrom(t, s, ipv6) && PathItem(ipv6, resolve, l) == Some(run.items[i]);
  }

  lemma FoundItemIsYielded<V(!new)>(
      t: Tree, s: nat, ipv6: bool, resolve: Resolve<V>, run: Run<Item<V>>, a: seq<bool>, item: Item<V>)
    requires Fits(t, 0, Width(ipv6)) && |a| == Width(ipv6)
    requires Yields(ipv6, resolve, LeavesFrom(t, s, ipv6), run) && !run.failed
    requires !Aliased(t, s, a) && NamesFound(ipv6, resolve, a, Find(t, 0, a), item)
    ensures item in run.items && Covers(item, Val(a))
  {
    hide Leaves, Fits, Lo, Hi, Walk, Aliased, PathNetwork;
    var f := Find(t, 0, a).value;
    var l := Leaf(a[..f.prefixLen], f.pointer);
    IterationAgreesWithLookup(t, s, a, l);
    var i :| 0 <= i < |LeavesFrom(t, s, ipv6)| && LeavesFrom(t, s, ipv6)[i] == l;
    assert PathItem(ipv6, resolve, l) == Some(run.items[i]);
    ItemIsBlock(t, s, ipv6, resolve, run, i);
    PrefixIffInBlock(Width(ipv6), l.path, a);
  }

  /** For every address: the yielded networks that contain it are none when its walk meets an alias or when
      lookup finds nothing; otherwise there is one, it is the network of the prefix that lookup reports (96
      bits shorter for an IPv4 network of an IPv6 tree), with the record that lookup finds. */
  lemma ItemsAgreeWithLookup<V(!new)>(t: Tree, ipv6: bool, resolve: Resolve<V>, a: seq<bool>, item: Item<V>)
    requires Fits(t, 0, Width(ipv6)) && |a| == Width(ipv6) && !PythonIteration(t, ipv6, resolve).failed
    ensures item in PythonIteration(t, ipv6, resolve).items && Covers(item, Val(a)) <==>
            !Aliased(t, Ipv4Start(t, ipv6), a) && NamesFound(ipv6, resolve, a, Find(t, 0, a), item)
  {
    hide Leaves, Fits, PythonIteration, Covers, NamesFound, Yields, Aliased;
    PythonYields(t, ipv6, resolve);
    RunAgreesWithLookup(t, Ipv4Start(t, ipv6), ipv6, resolve, PythonIteration(t, ipv6, resolve), a, item);
  }

  lemma RunAgreesWithLookup<V(!new)>(
      t: Tree, s: nat, ipv6: bool, resolve: Resolve<V>, run: Run<Item<V>>, a: seq<bool>, item: Item<V>)
    requires Fits(t, 0, Width(ipv6)) && |a| == Width(ipv6)
    requires Yields(ipv6, resolve, LeavesFrom(t, s, ipv6), run) && !run.failed
    ensures item in run.items && Covers(item, Val(a)) <==>
            !Aliased(t, s, a) && NamesFound(ipv6, resolve, a, Find(t, 0, a), item)
  {
    hide Leaves, Fits, Covers, NamesFound, Yields, Aliased;
    if item in run.items && Covers(item, Val(a)) {
      var i :| 0 <= i < |run.items| && run.items[i] == item;
      CoveringItemIsFound(t, s, ipv6, resolve, run, a, i);
    }
    if !Aliased(t, s, a) && NamesFound(ipv6, resolve, a, Find(t, 0, a), item) {
      FoundItemIsYielded(t, s, ipv6, resolve, run, a, item);
    }
  }

  /** The same for the extension, which skips aliases only where the IPv4 start is a node. */
  lemma ExtensionItemsAgreeWithLookup<V(!new)>(t: Tree, ipv6: bool, resolve: Resolve<V>, a: seq<bool>, item: Item<V>)
    requires Fits(t, 0, Width(ipv6)) && |a| == Width(ipv6) && !ExtensionIteration(t, ipv6, resolve).failed
    ensures item in ExtensionIteration(t, ipv6, resolve).items && Covers(item, Val(a)) <==>
            && !(t.IsNode(Ipv4Start(t, ipv6)) && Aliased(t, Ipv4Start(t, ipv6), a))
            && NamesFound(ipv6, resolve, a, Find(t, 0, a), item)
  {
    hide Leaves, Visits, Fits, ExtensionIteration, Covers, Yields, Aliased, PathItem;
    var start := Ipv4Start(t, ipv6);
    ExtensionYields(t, ipv6, resolve);
    VisitsFromSkipStart(t, ipv6);
    RunAgreesWithLookup(t, SkipStart(t, start), ipv6, resolve, ExtensionIteration(t, ipv6, resolve), a, item);
    if !t.IsNode(start) && Aliased(t, SkipStart(t, start), a) {
      EmptyAliasFindsNothing(t, a);
    }
  }

  /** The empty record is no alias that matters: lookup finds nothing there. */
  lemma EmptyAliasFindsNothing(t: Tree, a: seq<bool>)
    requires Aliased(t, |t.nodes|, a)
    ensures Find(t, 0, a) == Success(Found(0, Walk(t, 0, a).depth))
  {
    var j :| AliasAt(t, |t.nodes|, a, j);
    WalkConcat(t, 0, a[..j], a[j..]);
    assert a == a[..j] + a[j..];
  }
}
