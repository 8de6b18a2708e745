/** `Reader._find_address_in_tree` on the abstract tree, and what its answers mean. */
module Lookup {
  import opened Wrappers
  import opened Bits
  import opened SearchTree

  /** A looked-up data pointer (0 when the record is empty) and the prefix length. */
  datatype Found = Found(pointer: nat, prefixLen: nat)

  const IPV4_BITS := 32
  const IPV6_BITS := 128
  const IPV4_SKIP := 96

  function Find(t: Tree, start: nat, bits: seq<bool>): Result<Found>
  {
    var s := Walk(t, start, bits);
    if t.IsEmpty(s.record) then Success(Found(0, s.depth))
    else if t.IsData(s.record) then Success(Found(s.record, s.depth))
    else Failure(InvalidDatabase)
  }

  /** The record that 96 zero bits lead to, at which lookups of IPv4 addresses start. */
  function Ipv4Start(t: Tree, ipv6: bool): nat
  {
    if ipv6 then Walk(t, 0, Zeros(IPV4_SKIP)).record else 0
  }

  // ---------- lookups and networks ----------

  /** Every address of the reported network gets the same answer. */
  lemma LookupIsConstantOnItsNetwork(t: Tree, start: nat, a: seq<bool>, b: seq<bool>)
    requires |a| == |b| && Find(t, start, a).Success?
    requires a[..Walk(t, start, a).depth] <= b
    ensures Find(t, start, b) == Find(t, start, a)
  {
    WalkPrefix(t, start, a, b, Walk(t, start, a).depth);
  }

  /** The networks reported for any two addresses are the same network with the same answer, or
      have no address in common. */
  lemma NetworksAreEqualOrDisjoint(t: Tree, start: nat, a: seq<bool>, b: seq<bool>)
    requires |a| == |b| && Find(t, start, a).Success? && Find(t, start, b).Success?
    ensures var p, q := a[..Walk(t, start, a).depth], b[..Walk(t, start, b).depth];
            || (p == q && Find(t, start, a) == Find(t, start, b))
            || forall c: seq<bool> :: |c| == |a| ==> !(p <= c && q <= c)
  {
    var p, q := a[..Walk(t, start, a).depth], b[..Walk(t, start, b).depth];
    forall c: seq<bool> | |c| == |a| && p <= c && q <= c
      ensures p == q && Find(t, start, a) == Find(t, start, b)
    {
      WalkPrefix(t, start, a, c, |p|);
      WalkPrefix(t, start, b, c, |q|);
      assert p == c[..|p|] && q == c[..|q|];
    }
  }

  /** No lookup of `w` bits reports an invalid node exactly when the tree has height at most `w`. */
  lemma InvalidNodeIffTooHigh(t: Tree, start: nat, w: nat)
    ensures Fits(t, start, w) <==> forall a: seq<bool> :: |a| == w ==> Find(t, start, a).Success?
  {
    hide Walk, Fits;
    FitsIffEveryWalkStops(t, start, w);
    if forall a: seq<bool> :: |a| == w ==> Find(t, start, a).Success? {
      forall a: seq<bool> | |a| == w ensures !t.IsNode(Walk(t, start, a).record) {
        assert Find(t, start, a).Success?;
      }
    }
  }

  // ---------- IPv4 addresses in an IPv6 tree ----------

  /** What `get_record` makes of the depth libmaxminddb reports for an IPv4 address. */
  function ExtensionPrefix(netmask: nat): nat
  {
    if netmask >= IPV4_SKIP then netmask - IPV4_SKIP else 0
  }

  predicate SameAnswer(x: Result<Found>, y: Result<Found>, shift: nat)
  {
    match (x, y)
    case (Success(f), Success(g)) => f.pointer == g.pointer && g.prefixLen == f.prefixLen + shift
    case (Failure(e), Failure(e')) => e == e'
    case _ => false
  }

  /** Starting at the cached node gives what the 96 zero bits in front would have given: the same
      record or error, and the prefix length less 96, or 0 when the zero path ends early. */
  lemma Ipv4ShortcutIsFullWalk(t: Tree, a: seq<bool>)
    ensures var short, full := Find(t, Ipv4Start(t, true), a), Find(t, 0, Zeros(IPV4_SKIP) + a);
            match (short, full)
            case (Success(f), Success(g)) => f == Found(g.pointer, ExtensionPrefix(g.prefixLen))
            case (Failure(e), Failure(e')) => e == e'
            case _ => false
  {
    WalkConcat(t, 0, Zeros(IPV4_SKIP), a);
  }

  /** An alias: wherever a path of `k` bits leads to the IPv4 start node, the next 32 bits are looked
      up as if they were an IPv4 address, with `k` added to the prefix length. */
  lemma AliasLookupIsIpv4Lookup(t: Tree, a: seq<bool>, k: nat)
    requires k + IPV4_BITS <= |a| && Reaches(t, 0, a[..k], Ipv4Start(t, true))
    requires Fits(t, Ipv4Start(t, true), IPV4_BITS)
    ensures SameAnswer(Find(t, Ipv4Start(t, true), a[k..k + IPV4_BITS]), Find(t, 0, a), k)
  {
    var start := Ipv4Start(t, true);
    var v4, rest := a[k..k + IPV4_BITS], a[k + IPV4_BITS..];
    assert a == a[..k] + (v4 + rest);
    WalkConcat(t, 0, a[..k], v4 + rest);
    WalkConcat(t, start, v4, rest);
    FitsStops(t, start, IPV4_BITS, v4);
  }

  /** In an IPv6 tree of height 128 the IPv4 subtree has height 32. */
  lemma Ipv4SubtreeFits(t: Tree)
    requires Fits(t, 0, IPV6_BITS) && t.IsNode(Ipv4Start(t, true))
    ensures Fits(t, Ipv4Start(t, true), IPV4_BITS)
    ensures Reaches(t, 0, Zeros(IPV4_SKIP), Ipv4Start(t, true))
  {
    FitsAfter(t, 0, Zeros(IPV4_SKIP), Ipv4Start(t, true), IPV6_BITS);
  }
}
