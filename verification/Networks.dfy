/** The networks both iterators yield, as the `ipaddress` library builds them. */
module Networks {
  import opened Wrappers
  import opened Bits

  /** An address block: first address and prefix length, of one family. */
  datatype Network = V4(base: nat, len: nat) | V6(base: nat, len: nat) {
    predicate Valid()
    {
      && len <= Bits()
      && base < Pow2(Bits())
      && base % Pow2(Bits() - len) == 0
    }

    function Bits(): nat { if V4? then 32 else 128 }

    /** One past the last address. */
    function End(): nat
      requires Valid()
    {
      base + Pow2(Bits() - len)
    }
  }

  /** `ipaddress.ip_network((base, len))` with an integer base: IPv4 when base and length allow it,
      otherwise IPv6; host bits and a length out of range are errors. */
  function IpNetwork(base: nat, len: int): (r: Option<Network>)
    ensures r.Some? ==> r.value.Valid()
  {
    if len < 0 then None
    else if base < Pow2(32) && len <= 32 then
      if V4(base, len).Valid() then Some(V4(base, len)) else None
    else if V6(base, len).Valid() then Some(V6(base, len)) else None
  }

  /** `ipaddress.ip_network((packed, len))` with 4 or 16 bytes, which fix the family. */
  function IpNetworkPacked(packed: bytes, len: int): (r: Option<Network>)
    ensures r.Some? ==> r.value.Valid()
  {
    if len < 0 then None
    else
      var net := if |packed| == 4 then V4(BigEndian(packed), len) else V6(BigEndian(packed), len);
      if |packed| in {4, 16} && net.Valid() then Some(net) else None
  }

  /** It builds every network there is of that base and length and nothing else, except that it takes what can be
      an IPv4 network for one. */
  lemma IpNetworkIff(base: nat, len: int, network: Network)
    ensures IpNetwork(base, len) == Some(network) <==>
            && network.base == base && network.len == len && network.Valid()
            && (network.V4? <==> base < 0x1_0000_0000 && len <= 32)
  {
    Pow2Facts();
  }

  /** The addresses of a valid network are addresses of its family. */
  lemma ValidNetworkFits(network: Network)
    requires network.Valid()
    ensures network.V4? ==> network.len <= 32 && network.End() <= Pow2(32)
    ensures network.V6? ==> network.len <= 128 && network.End() <= Pow2(128)
  {
    var bits := network.Bits();
    var k, m := Pow2(network.len), Pow2(bits - network.len);
    hide Pow2;
    Pow2Add(network.len, bits - network.len);
    MultipleFits(network.base, k, m);
  }

  lemma MultipleFits(base: nat, k: nat, m: nat)
    requires m > 0 && base % m == 0 && base < k * m
    ensures base + m <= k * m
  {
    var q := base / m;
    assert base == q * m;
    if q >= k {
      MulMonotone(k, q, m);
    } else {
      MulMonotone(q + 1, k, m);
      assert (q + 1) * m == q * m + m;
    }
  }

  // ---------- the network a tree path names ----------

  function Width(ipv6: bool): nat { if ipv6 then 128 else 32 }

  /** The network under path `p`: in an IPv6 tree the addresses below 2^32 are the IPv4 ones, and
      an IPv4 block needs at least 96 bits of path. */
  function PathNetwork(ipv6: bool, p: seq<bool>): Option<Network>
  {
    var base := Lo(Width(ipv6), p);
    if !ipv6 then Some(V4(base, |p|))
    else if base >= Pow2(32) then Some(V6(base, |p|))
    else if |p| >= 96 then Some(V4(base, |p| - 96))
    else None
  }

  lemma AlignedBlock(w: nat, p: seq<bool>)
    requires |p| <= w
    ensures Lo(w, p) < Hi(w, p) <= Pow2(w)
    ensures Hi(w, p) == Lo(w, p) + Pow2(w - |p|)
    ensures Lo(w, p) % Pow2(w - |p|) == 0
  {
    var v, m := Val(p), Pow2(w - |p|);
    ShlIsProduct(v, w - |p|);
    ShlIsProduct(v + 1, w - |p|);
    assert Hi(w, p) == Lo(w, p) + m by { assert (v + 1) * m == v * m + m; }
    assert Hi(w, p) <= Pow2(w) by {
      ValBound(p);
      Pow2Add(|p|, w - |p|);
      MulMonotone(v + 1, Pow2(|p|), m);
    }
    MultipleMod(v, m);
  }

  lemma MulMonotone(x: nat, y: nat, m: nat)
    requires x <= y
    ensures x * m <= y * m
  {
  }

  lemma MultipleMod(k: nat, m: nat)
    requires m > 0
    ensures (k * m) % m == 0
  {
    var x := k * m;
    var q, r := x / m, x % m;
    assert x == q * m + r;
    assert (q + 1) * m == q * m + m;
    if q < k {
      MulMonotone(q + 1, k, m);
    } else {
      MulMonotone(k, q, m);
    }
  }

  /** A non-empty path whose block lies below 2^32 is longer than 96 bits. */
  lemma LowBlockIsLong(p: seq<bool>)
    requires |p| <= 128 && Lo(128, p) < Pow2(32) && Val(p) > 0
    ensures |p| > 96
  {
    if |p| <= 96 {
      Pow2Monotone(32, 128 - |p|);
      ShlLeast(Val(p), 128 - |p|);
    }
  }

  /** The network of a path covers exactly the numbers that start with the path. */
  lemma PathNetworkIsBlock(ipv6: bool, p: seq<bool>)
    requires |p| <= Width(ipv6)
    ensures var net := PathNetwork(ipv6, p);
            net.Some? ==> net.value.Valid() && net.value.base == Lo(Width(ipv6), p) &&
                          net.value.End() == Hi(Width(ipv6), p)
  {
    var w := Width(ipv6);
    AlignedBlock(w, p);
    if ipv6 && Lo(w, p) < Pow2(32) && |p| >= 96 {
      assert 32 - (|p| - 96) == w - |p|;
    }
  }

  /** The Python reader's choice, which tests `base <= 2**32`, builds the network of the path unless
      the base is exactly 2^32: then it asks for an impossible IPv4 network and fails. */
  function PythonNetwork(ipv6: bool, base: nat, depth: nat): Option<Network>
  {
    var len := if base <= 0x1_0000_0000 && ipv6 then depth - 96 else depth;
    IpNetwork(base, len)
  }

  lemma PythonNetworkIsPathNetwork(ipv6: bool, p: seq<bool>)
    requires |p| <= Width(ipv6)
    ensures PythonNetwork(ipv6, Lo(Width(ipv6), p), |p|) ==
            if ipv6 && Lo(128, p) == 0x1_0000_0000 then None else PathNetwork(ipv6, p)
  {
    var w := Width(ipv6);
    var base := Lo(w, p);
    Pow2Facts();
    AlignedBlock(w, p);
    PathNetworkIsBlock(ipv6, p);
    if ipv6 && base > 0x1_0000_0000 {
      assert IpNetwork(base, |p|) == Some(V6(base, |p|));
    } else if ipv6 && base == 0x1_0000_0000 {
      if |p| >= 96 {
        HostBitsAtTwo32(|p| - 96);
      }
    }
  }

  lemma SmallMod(x: nat, m: nat)
    requires x < m
    ensures x % m == x
  {
  }

  /** 2^32 as an IPv6 base has host bits under every length up to 32. */
  lemma HostBitsAtTwo32(len: nat)
    requires len <= 32
    ensures IpNetwork(0x1_0000_0000, len).None?
  {
    Pow2Facts();
    Pow2Monotone(33, 128 - len);
    assert Pow2(33) == 2 * Pow2(32);
    SmallMod(0x1_0000_0000, Pow2(128 - len));
  }
}
