/** The search tree: records below the node count are nodes, the node count itself is the
    empty record, and everything above it points into the data section. Nodes may be shared
    (IPv4 aliases), so this is a rooted graph and not necessarily a tree. */
module SearchTree {
  datatype Node = Node(left: nat, right: nat) {
    function Side(b: bool): nat { if b then right else left }
  }

  datatype Tree = Tree(nodes: seq<Node>) {
    predicate IsNode(r: nat) { r < |nodes| }

    predicate IsEmpty(r: nat) { r == |nodes| }

    predicate IsData(r: nat) { r > |nodes| }

    function Child(r: nat, b: bool): nat
      requires IsNode(r)
    {
      nodes[r].Side(b)
    }
  }

  /** Where a walk stopped and how many bits it used. */
  datatype Stop = Stop(record: nat, depth: nat)

  /** Follow `bits` from record `r` until a record that is not a node, or the last bit. */
  function Walk(t: Tree, r: nat, bits: seq<bool>): (s: Stop)
    ensures s.depth <= |bits|
    ensures t.IsNode(s.record) ==> s.depth == |bits|
    decreases |bits|
  {
    if |bits| == 0 || !t.IsNode(r) then Stop(r, 0)
    else
      var s := Walk(t, t.Child(r, bits[0]), bits[1..]);
      Stop(s.record, s.depth + 1)
  }

  /** The path `p` leads from `r` to `x`, using every bit. */
  predicate Reaches(t: Tree, r: nat, p: seq<bool>, x: nat)
  {
    Walk(t, r, p) == Stop(x, |p|)
  }

  /** No path of `h` bits from `r` ends on a node: a data or empty record comes first. */
  ghost predicate Fits(t: Tree, r: nat, h: nat)
    decreases h
  {
    t.IsNode(r) ==> h > 0 && Fits(t, t.Child(r, false), h - 1) && Fits(t, t.Child(r, true), h - 1)
  }

  // ---------- walks ----------

  lemma {:induction false} WalkConcat(t: Tree, r: nat, p: seq<bool>, q: seq<bool>)
    ensures var s := Walk(t, r, p);
            Walk(t, r, p + q) ==
            if t.IsNode(s.record) then Stop(Walk(t, s.record, q).record, |p| + Walk(t, s.record, q).depth) else s
    decreases |p|
  {
    if |p| == 0 {
      assert p + q == q;
    } else if t.IsNode(r) {
      WalkConcat(t, t.Child(r, p[0]), p[1..], q);
      assert (p + q)[1..] == p[1..] + q;
    }
  }

  /** A walk looks at no bit after the ones it reports. */
  lemma {:induction false} WalkPrefix(t: Tree, r: nat, a: seq<bool>, b: seq<bool>, k: nat)
    requires Walk(t, r, a).depth == k <= |b| && a[..k] == b[..k]
    requires t.IsNode(Walk(t, r, a).record) ==> |a| == |b|
    ensures Walk(t, r, b) == Walk(t, r, a)
    decreases k
  {
    if k > 0 {
      assert a[0] == a[..k][0] == b[..k][0] == b[0];
      assert a[1..][..k - 1] == a[..k][1..] == b[..k][1..] == b[1..][..k - 1];
      WalkPrefix(t, t.Child(r, a[0]), a[1..], b[1..], k - 1);
    }
  }

  lemma ReachesSnoc(t: Tree, r: nat, p: seq<bool>, x: nat, b: bool)
    requires Reaches(t, r, p, x) && t.IsNode(x)
    ensures Reaches(t, r, p + [b], t.Child(x, b))
  {
    WalkConcat(t, r, p, [b]);
    assert Walk(t, x, [b]) == Stop(t.Child(x, b), 1) by {
      assert Walk(t, t.Child(x, b), [b][1..]) == Stop(t.Child(x, b), 0);
    }
  }

  lemma ReachesSplit(t: Tree, r: nat, p: seq<bool>, q: seq<bool>, x: nat)
    requires Reaches(t, r, p + q, x)
    ensures Reaches(t, r, p, Walk(t, r, p).record)
    ensures |q| > 0 ==> t.IsNode(Walk(t, r, p).record)
    ensures Reaches(t, Walk(t, r, p).record, q, x)
  {
    WalkConcat(t, r, p, q);
    if !t.IsNode(Walk(t, r, p).record) {
      assert Walk(t, r, p).depth == |p| + |q|;
      assert p + q == p;
    }
  }

  // ---------- bounded height ----------

  lemma {:induction false} FitsAfter(t: Tree, r: nat, p: seq<bool>, x: nat, h: nat)
    requires Fits(t, r, h) && Reaches(t, r, p, x)
    ensures |p| <= h && Fits(t, x, h - |p|)
    decreases |p|
  {
    if |p| > 0 {
      assert t.IsNode(r);
      FitsAfter(t, t.Child(r, p[0]), p[1..], x, h - 1);
    }
  }

  /** A record of bounded height is not its own descendant. */
  lemma {:induction false} NoCycle(t: Tree, r: nat, p: seq<bool>, h: nat)
    requires Fits(t, r, h) && |p| > 0
    ensures !Reaches(t, r, p, r)
    decreases h
  {
    if Reaches(t, r, p, r) {
      FitsAfter(t, r, p, r, h);
      NoCycle(t, r, p, h - |p|);
    }
  }

  lemma {:induction false} FitsStops(t: Tree, r: nat, h: nat, a: seq<bool>)
    requires Fits(t, r, h) && h <= |a|
    ensures !t.IsNode(Walk(t, r, a).record)
    decreases h
  {
    if t.IsNode(r) {
      FitsStops(t, t.Child(r, a[0]), h - 1, a[1..]);
    }
  }

  lemma {:induction false} LongPath(t: Tree, r: nat, h: nat) returns (a: seq<bool>)
    requires !Fits(t, r, h)
    ensures |a| == h && t.IsNode(Walk(t, r, a).record)
    decreases h
  {
    if h == 0 {
      a := [];
    } else {
      var b := Fits(t, t.Child(r, false), h - 1);
      var a' := LongPath(t, t.Child(r, b), h - 1);
      a := [b] + a';
      assert a[1..] == a';
    }
  }

  /** The height bound is exactly what makes every lookup of `h` bits end on a data or empty record. */
  lemma FitsIffEveryWalkStops(t: Tree, r: nat, h: nat)
    ensures Fits(t, r, h) <==> forall a: seq<bool> :: |a| == h ==> !t.IsNode(Walk(t, r, a).record)
  {
    if Fits(t, r, h) {
      forall a: seq<bool> | |a| == h ensures !t.IsNode(Walk(t, r, a).record) {
        FitsStops(t, r, h, a);
      }
    } else {
      var a := LongPath(t, r, h);
      assert |a| == h;
    }
  }

  /** A ranked tree, where every child node has a smaller rank than its parent, has bounded height. */
  lemma {:induction false} RankedFits(t: Tree, rank: seq<nat>, r: nat, h: nat)
    requires |rank| == |t.nodes|
    requires forall n: nat, b: bool | t.IsNode(n) && t.IsNode(t.Child(n, b)) :: rank[t.Child(n, b)] < rank[n]
    requires t.IsNode(r) ==> rank[r] < h
    ensures Fits(t, r, h)
    decreases h
  {
    if t.IsNode(r) {
      RankedFits(t, rank, t.Child(r, false), h - 1);
      RankedFits(t, rank, t.Child(r, true), h - 1);
    }
  }
}
