/** `Reader.__iter__`: the recursive generator, the sequence of data records it visits, and how that
    sequence answers the same question as lookup. */
module Iteration {
  import opened Wrappers
  import opened Bits
  import opened SearchTree
  import opened Lookup
  import opened Networks

  /** A yielded network with its record. */
  datatype Item<+V> = Item(network: Network, record: V)

  /** What a data record stands for, or nothing when reading it raises. */
  type Resolve<!V> = nat -> Option<V>

  /** What a caller sees of an iteration: the yielded items, and whether an exception ended it. */
  datatype Run<T> = Run(items: seq<T>, failed: bool) {
    function Then(r: Run<T>): Run<T>
    {
      if failed then this else Run(items + r.items, r.failed)
    }
  }

  /** The expression a generator yields for a data record: from the base of its network, its depth and
      the record, an item; or nothing when evaluating it raises. */
  type Emit<!T> = (nat, nat, nat) -> Option<T>

  function YieldOf<T>(o: Option<T>): Run<T>
  {
    match o
    case Some(item) => Run([item], false)
    case None => Run([], true)
  }

  /** `Reader._generate_children` over a tree of `w`-bit addresses. */
  function Generate<T>(t: Tree, start: nat, w: nat, emit: Emit<T>, node: nat, depth: nat, ipAcc: nat): Run<T>
    requires depth <= w && Fits(t, node, w - depth)
    decreases w - depth
  {
    if ipAcc != 0 && node == start then Run([], false)
    else if t.IsData(node) then YieldOf(emit(Shl(ipAcc, w - depth), depth, node))
    else if t.IsNode(node) then
      Generate(t, start, w, emit, t.Child(node, false), depth + 1, 2 * ipAcc)
      .Then(Generate(t, start, w, emit, t.Child(node, true), depth + 1, 2 * ipAcc + 1))
    else Run([], false)
  }

  // ---------- the visited data records ----------

  datatype Leaf = Leaf(path: seq<bool>, record: nat)

  /** The data records under `node`, in order, each with its path from the root. A record equal to
      the IPv4 start under a path that is not all zeros is an alias and is skipped. */
  function Leaves(t: Tree, start: nat, w: nat, node: nat, path: seq<bool>): seq<Leaf>
    requires |path| <= w && Fits(t, node, w - |path|)
    decreases w - |path|
  {
    if Val(path) != 0 && node == start then []
    else if t.IsData(node) then [Leaf(path, node)]
    else if t.IsNode(node) then
      Leaves(t, start, w, t.Child(node, false), path + [false]) +
      Leaves(t, start, w, t.Child(node, true), path + [true])
    else []
  }

  function Map<T, U>(f: T -> U, xs: seq<T>): (ys: seq<U>)
    ensures |ys| == |xs| && forall i | 0 <= i < |xs| :: ys[i] == f(xs[i])
  {
    if |xs| == 0 then [] else [f(xs[0])] + Map(f, xs[1..])
  }

  lemma MapConcat<T, U>(f: T -> U, xs: seq<T>, ys: seq<T>)
    ensures Map(f, xs + ys) == Map(f, xs) + Map(f, ys)
  {
  }

  function EmitLeaf<T>(w: nat, emit: Emit<T>): Leaf -> Option<T>
  {
    (l: Leaf) => emit(Lo(w, l.path), |l.path|, l.record)
  }

  /** Yield item after item until one raises. */
  function RunOf<T>(os: seq<Option<T>>): Run<T>
  {
    if |os| == 0 then Run([], false)
    else YieldOf(os[0]).Then(RunOf(os[1..]))
  }

  lemma ThenIsAssociative<T>(x: Run<T>, y: Run<T>, z: Run<T>)
    ensures x.Then(y).Then(z) == x.Then(y.Then(z))
  {
    assert x.items + y.items + z.items == x.items + (y.items + z.items);
  }

  lemma {:induction false} RunOfConcat<T>(xs: seq<Option<T>>, ys: seq<Option<T>>)
    ensures RunOf(xs + ys) == RunOf(xs).Then(RunOf(ys))
  {
    if |xs| == 0 {
      assert xs + ys == ys;
    } else {
      assert (xs + ys)[1..] == xs[1..] + ys && (xs + ys)[0] == xs[0];
      RunOfConcat(xs[1..], ys);
      ThenIsAssociative(YieldOf(xs[0]), RunOf(xs[1..]), RunOf(ys));
    }
  }

  predicate NoneFails<T>(os: seq<Option<T>>) { forall i | 0 <= i < |os| :: os[i].Some? }

  /** The run succeeds exactly when every item does, and what it yields are the first items. */
  lemma {:induction false} RunOfAll<T>(os: seq<Option<T>>)
    ensures !RunOf(os).failed <==> NoneFails(os)
    ensures |RunOf(os).items| <= |os| && (!RunOf(os).failed ==> |RunOf(os).items| == |os|)
    ensures forall i | 0 <= i < |RunOf(os).items| :: os[i] == Some(RunOf(os).items[i])
  {
    if |os| > 0 {
      var rest := os[1..];
      RunOfAll(rest);
      assert forall i | 0 < i < |os| :: os[i] == rest[i - 1];
      assert NoneFails(os) <==> os[0].Some? && NoneFails(rest) by {
        assert forall i | 0 <= i < |rest| :: rest[i] == os[i + 1];
      }
      if os[0].Some? {
        var items := RunOf(os).items;
        assert items == [os[0].value] + RunOf(rest).items;
        assert forall i | 0 < i < |items| :: items[i] == RunOf(rest).items[i - 1];
      }
    }
  }

  /** The generator yields the leaves in order: its integer accumulator always is the path's value. */
  lemma {:induction false} GenerateYieldsLeaves<T>(
      t: Tree, start: nat, w: nat, emit: Emit<T>, node: nat, path: seq<bool>)
    requires |path| <= w && Fits(t, node, w - |path|)
    ensures Generate(t, start, w, emit, node, |path|, Val(path)) ==
            RunOf(Map(EmitLeaf(w, emit), Leaves(t, start, w, node, path)))
    decreases w - |path|
  {
    hide EmitLeaf, RunOf, Map, Shl;
    if t.IsData(node) || (Val(path) != 0 && node == start) || t.IsEmpty(node) {
      GenerateAtEnd(t, start, w, emit, node, path);
    } else {
      var l, r := t.Child(node, false), t.Child(node, true);
      assert |path + [false]| == |path| + 1 == |path + [true]|;
      GenerateYieldsLeaves(t, start, w, emit, l, path + [false]);
      GenerateYieldsLeaves(t, start, w, emit, r, path + [true]);
      ValSnoc(path, false);
      ValSnoc(path, true);
      var xs, ys := Leaves(t, start, w, l, path + [false]), Leaves(t, start, w, r, path + [true]);
      assert Leaves(t, start, w, node, path) == xs + ys;
      MapConcat(EmitLeaf(w, emit), xs, ys);
      RunOfConcat(Map(EmitLeaf(w, emit), xs), Map(EmitLeaf(w, emit), ys));
    }
  }

  lemma GenerateAtEnd<T>(t: Tree, start: nat, w: nat, emit: Emit<T>, node: nat, path: seq<bool>)
    requires |path| <= w && Fits(t, node, w - |path|)
    requires t.IsData(node) || (Val(path) != 0 && node == start) || t.IsEmpty(node)
    ensures Generate(t, start, w, emit, node, |path|, Val(path)) ==
            RunOf(Map(EmitLeaf(w, emit), Leaves(t, start, w, node, path)))
  {
    if !(Val(path) != 0 && node == start) && t.IsData(node) {
      var l := Leaf(path, node);
      assert Leaves(t, start, w, node, path) == [l];
      var o := EmitLeaf(w, emit)(l);
      assert o == emit(Lo(w, l.path), |l.path|, l.record);
      assert Lo(w, l.path) == Shl(Val(path), w - |path|);
      assert Map(EmitLeaf(w, emit), [l]) == [o];
      assert RunOf([o]) == YieldOf(o);
    }
  }

  // ---------- the yielded items ----------

  /** The tuple of a network and a record, if both can be built. */
  function ItemOf<V>(network: Option<Network>, record: Option<V>): Option<Item<V>>
  {
    match (network, record)
    case (Some(n), Some(v)) => Some(Item(n, v))
    case _ => None
  }

  function PythonEmit<V>(ipv6: bool, resolve: Resolve<V>): Emit<Item<V>>
  {
    (base: nat, depth: nat, record: nat) => ItemOf(PythonNetwork(ipv6, base, depth), resolve(record))
  }

  /** `iter(reader)`, where `resolve` is `_resolve_data_pointer`. */
  function PythonIteration<V>(t: Tree, ipv6: bool, resolve: Resolve<V>): Run<Item<V>>
    requires Fits(t, 0, Width(ipv6))
  {
    Generate(t, Ipv4Start(t, ipv6), Width(ipv6), PythonEmit(ipv6, resolve), 0, 0, 0)
  }

  /** The network a leaf's path names, with what its record stands for. */
  function PathItem<V>(ipv6: bool, resolve: Resolve<V>, l: Leaf): Option<Item<V>>
  {
    ItemOf(PathNetwork(ipv6, l.path), resolve(l.record))
  }

  function PathItemOf<V>(ipv6: bool, resolve: Resolve<V>): Leaf -> Option<Item<V>>
  {
    (l: Leaf) => PathItem(ipv6, resolve, l)
  }

  // ---------- order ----------

  /** Every leaf's block lies in the block of `path`, and the blocks ascend without overlap. */
  ghost predicate Ascending(w: nat, ls: seq<Leaf>)
  {
    forall i, j | 0 <= i < j < |ls| :: Hi(w, ls[i].path) <= Lo(w, ls[j].path)
  }

  ghost predicate Within(w: nat, ls: seq<Leaf>, lo: nat, hi: nat)
  {
    forall l | l in ls :: lo <= Lo(w, l.path) && Hi(w, l.path) <= hi
  }

  lemma {:induction false} LeavesAscend(t: Tree, start: nat, w: nat, node: nat, path: seq<bool>)
    requires |path| <= w && Fits(t, node, w - |path|)
    ensures Ascending(w, Leaves(t, start, w, node, path))
    ensures Within(w, Leaves(t, start, w, node, path), Lo(w, path), Hi(w, path))
    decreases w - |path|
  {
    if Val(path) != 0 && node == start {
    } else if t.IsNode(node) {
      SplitBlock(w, path);
      LeavesAscend(t, start, w, t.Child(node, false), path + [false]);
      LeavesAscend(t, start, w, t.Child(node, true), path + [true]);
      var mid := Lo(w, path + [true]);
      AlignedBlock(w, path + [false]);
      AlignedBlock(w, path + [true]);
      AscendingConcat(w, Leaves(t, start, w, t.Child(node, false), path + [false]),
                      Leaves(t, start, w, t.Child(node, true), path + [true]), Lo(w, path), mid, Hi(w, path));
    }
  }

  lemma AscendingConcat(w: nat, xs: seq<Leaf>, ys: seq<Leaf>, lo: nat, mid: nat, hi: nat)
    requires Ascending(w, xs) && Within(w, xs, lo, mid)
    requires Ascending(w, ys) && Within(w, ys, mid, hi)
    requires lo <= mid <= hi
    ensures Ascending(w, xs + ys) && Within(w, xs + ys, lo, hi)
  {
    var ls := xs + ys;
    forall i, j | 0 <= i < j < |ls| ensures Hi(w, ls[i].path) <= Lo(w, ls[j].path) {
      if i < |xs| <= j {
        assert xs[i] in xs && ys[j - |xs|] in ys;
      }
    }
  }

  // ---------- agreement with lookup ----------

  /** The walk of `a` passes through, or ends at, the IPv4 start under a prefix that is not all zeros. */
  ghost predicate Aliased(t: Tree, start: nat, a: seq<bool>)
  {
    exists j :: AliasAt(t, start, a, j)
  }

  predicate AliasAt(t: Tree, start: nat, a: seq<bool>, j: int)
  {
    0 <= j <= |a| && Val(a[..j]) != 0 && Reaches(t, 0, a[..j], start)
  }

  /** The same along the rest `q` of an address whose first bits `path` have led to `node`. */
  predicate AliasAhead(t: Tree, start: nat, node: nat, path: seq<bool>, q: seq<bool>)
    decreases |q|
  {
    || (Val(path) != 0 && node == start)
    || (|q| > 0 && t.IsNode(node) && AliasAhead(t, start, t.Child(node, q[0]), path + [q[0]], q[1..]))
  }

  lemma {:induction false} AliasAheadSound(t: Tree, start: nat, node: nat, path: seq<bool>, q: seq<bool>)
    requires Reaches(t, 0, path, node) && AliasAhead(t, start, node, path, q)
    ensures Aliased(t, start, path + q)
    decreases |q|
  {
    if Val(path) != 0 && node == start {
      assert (path + q)[..|path|] == path;
      assert AliasAt(t, start, path + q, |path|);
    } else {
      ReachesSnoc(t, 0, path, node, q[0]);
      AliasAheadSound(t, start, t.Child(node, q[0]), path + [q[0]], q[1..]);
      assert path + [q[0]] + q[1..] == path + q;
    }
  }

  lemma {:induction false} AliasAheadComplete(
      t: Tree, start: nat, node: nat, path: seq<bool>, q: seq<bool>, j: nat)
    requires Reaches(t, 0, path, node) && j <= |q|
    requires Val(path + q[..j]) != 0 && Reaches(t, node, q[..j], start)
    ensures AliasAhead(t, start, node, path, q)
    decreases |q|
  {
    if j == 0 {
      assert path + q[..j] == path;
    } else {
      var q' := q[..j];
      assert t.IsNode(node) && q'[0] == q[0] && q'[1..] == q[1..][..j - 1];
      ReachesSnoc(t, 0, path, node, q[0]);
      assert path + [q[0]] + q[1..][..j - 1] == path + q[..j];
      AliasAheadComplete(t, start, t.Child(node, q[0]), path + [q[0]], q[1..], j - 1);
    }
  }

  lemma AliasedIffAliasAhead(t: Tree, start: nat, a: seq<bool>)
    ensures Aliased(t, start, a) <==> AliasAhead(t, start, 0, [], a)
  {
    assert [] + a == a;
    if AliasAhead(t, start, 0, [], a) {
      AliasAheadSound(t, start, 0, [], a);
    }
    if Aliased(t, start, a) {
      var j :| AliasAt(t, start, a, j);
      assert [] + a[..j] == a[..j];
      AliasAheadComplete(t, start, 0, [], a, j);
    }
  }

  /** The leaves that cover an address below `node`: the one its walk ends on, unless an alias or an
      empty record comes first. */
  lemma {:induction false} LeafCovering(t: Tree, start: nat, w: nat, node: nat, path: seq<bool>, q: seq<bool>, l: Leaf)
    requires |path| + |q| == w && Fits(t, node, |q|)
    ensures var s := Walk(t, node, q);
            (l in Leaves(t, start, w, node, path) && l.path <= path + q) <==>
            (t.IsData(s.record) && !AliasAhead(t, start, node, path, q) && l == Leaf(path + q[..s.depth], s.record))
    decreases |q|
  {
    var s := Walk(t, node, q);
    if Val(path) != 0 && node == start {
    } else if !t.IsNode(node) {
      assert path + q[..0] == path;
    } else {
      var b, q' := q[0], q[1..];
      var near, far := t.Child(node, b), t.Child(node, !b);
      LeafCovering(t, start, w, near, path + [b], q', l);
      assert path + [b] + q' == path + q;
      assert q[..s.depth] == [b] + q'[..s.depth - 1];
      assert path + [b] + q'[..s.depth - 1] == path + q[..s.depth];
      LeavesExtend(t, start, w, far, path + [!b]);
      assert (path + [!b])[|path|] == !b && (path + q)[|path|] == b;
    }
  }

  lemma {:induction false} LeavesExtend(t: Tree, start: nat, w: nat, node: nat, path: seq<bool>)
    requires |path| <= w && Fits(t, node, w - |path|)
    ensures forall l | l in Leaves(t, start, w, node, path) :: path <= l.path
    decreases w - |path|
  {
    if t.IsNode(node) {
      LeavesExtend(t, start, w, t.Child(node, false), path + [false]);
      LeavesExtend(t, start, w, t.Child(node, true), path + [true]);
    }
  }

  /** Iteration and lookup describe the same partition of the address space. The leaves that cover an
      address are: none, when its walk meets an alias or ends on the empty record; otherwise exactly
      the one with the pointer and the prefix that lookup reports. */
  lemma IterationAgreesWithLookup(t: Tree, start: nat, a: seq<bool>, l: Leaf)
    requires Fits(t, 0, |a|)
    ensures (l in Leaves(t, start, |a|, 0, []) && l.path <= a) <==>
            match Find(t, 0, a)
            case Success(f) => f.pointer != 0 && !Aliased(t, start, a) && l == Leaf(a[..f.prefixLen], f.pointer)
            case Failure(_) => false
  {
    LeafCovering(t, start, |a|, 0, [], a, l);
    AliasedIffAliasAhead(t, start, a);
    FitsStops(t, 0, |a|, a);
    assert [] + a == a;
    var s := Walk(t, 0, a);
    assert [] + a[..s.depth] == a[..s.depth];
  }
}
