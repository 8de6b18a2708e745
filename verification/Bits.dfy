/** Bit strings, bytes and the big-endian numbers they stand for.
    Addresses, tree paths and record payloads are all read most significant bit first. */
module Bits {

  type byte = b: int | 0 <= b < 256
  type bytes = seq<byte>

  // ---------- powers of two ----------

  function Pow2(n: nat): (p: nat)
    ensures p >= 1
  {
    if n == 0 then 1 else 2 * Pow2(n - 1)
  }

  lemma {:induction false} Pow2Add(m: nat, n: nat)
    ensures Pow2(m + n) == Pow2(m) * Pow2(n)
  {
    if m == 0 {
    } else {
      Pow2Add(m - 1, n);
      assert m + n - 1 == (m - 1) + n;
    }
  }

  lemma {:induction false} Pow2Monotone(m: nat, n: nat)
    requires m <= n
    ensures Pow2(m) <= Pow2(n)
  {
    if m < n {
      Pow2Monotone(m, n - 1);
    }
  }

  lemma Pow2Facts()
    ensures Pow2(8) == 256 && Pow2(16) == 0x1_0000 && Pow2(24) == 0x100_0000
    ensures Pow2(28) == 0x1000_0000 && Pow2(32) == 0x1_0000_0000
  {
  }

  /** `n << k` */
  function Shl(n: nat, k: nat): nat
    decreases k
  {
    if k == 0 then n else Shl(2 * n, k - 1)
  }

  lemma {:induction false} ShlIsProduct(n: nat, k: nat)
    ensures Shl(n, k) == n * Pow2(k)
    decreases k
  {
    if k > 0 {
      ShlIsProduct(2 * n, k - 1);
      assert (2 * n) * Pow2(k - 1) == n * (2 * Pow2(k - 1));
    }
  }

  // ---------- bit strings ----------

  function Bit(b: bool): nat { if b then 1 else 0 }

  /** The number a bit string stands for, most significant bit first. */
  function Val(p: seq<bool>): nat
  {
    if |p| == 0 then 0 else 2 * Val(p[..|p| - 1]) + Bit(p[|p| - 1])
  }

  function Zeros(n: nat): seq<bool> { seq(n, _ => false) }

  predicate HasOne(p: seq<bool>) { exists i :: 0 <= i < |p| && p[i] }

  lemma ValSnoc(p: seq<bool>, b: bool)
    ensures Val(p + [b]) == 2 * Val(p) + Bit(b)
  {
    assert (p + [b])[..|p|] == p;
  }

  lemma {:induction false} ShlDouble(n: nat, k: nat)
    ensures Shl(n, k + 1) == 2 * Shl(n, k)
    decreases k
  {
    if k > 0 {
      ShlDouble(2 * n, k - 1);
    }
  }

  lemma {:induction false} ShlLeast(n: nat, k: nat)
    ensures if n == 0 then Shl(n, k) == 0 else Shl(n, k) >= Pow2(k)
  {
    if k > 0 {
      ShlLeast(n, k - 1);
      ShlDouble(n, k - 1);
    }
  }

  lemma {:induction false} ValConcat(p: seq<bool>, q: seq<bool>)
    ensures Val(p + q) == Shl(Val(p), |q|) + Val(q)
  {
    if |q| == 0 {
      assert p + q == p;
    } else {
      var q', b := q[..|q| - 1], q[|q| - 1];
      assert p + q == (p + q') + [b];
      ValSnoc(p + q', b);
      ValConcat(p, q');
      ShlDouble(Val(p), |q'|);
    }
  }

  lemma {:induction false} ValBound(p: seq<bool>)
    ensures Val(p) < Pow2(|p|)
  {
    if |p| > 0 {
      ValBound(p[..|p| - 1]);
    }
  }

  lemma {:induction false} ValZero(p: seq<bool>)
    ensures Val(p) == 0 <==> !HasOne(p)
  {
    if |p| > 0 {
      var p', b := p[..|p| - 1], p[|p| - 1];
      ValZero(p');
      if HasOne(p') {
        var i :| 0 <= i < |p'| && p'[i];
        assert p[i];
      }
      if b { assert p[|p| - 1]; }
      if HasOne(p) && !b {
        var i :| 0 <= i < |p| && p[i];
        assert p'[i];
      }
    }
  }

  lemma {:induction false} ValInjective(p: seq<bool>, q: seq<bool>)
    requires |p| == |q| && Val(p) == Val(q)
    ensures p == q
  {
    if |p| > 0 {
      var n := |p| - 1;
      ValInjective(p[..n], q[..n]);
      assert p == p[..n] + [p[n]] && q == q[..n] + [q[n]];
    }
  }

  // ---------- the address range under a path ----------

  /** The bits of a `w`-bit number that follow the path `p`. */
  function Free(w: nat, p: seq<bool>): nat
  {
    if |p| <= w then w - |p| else 0
  }

  /** First number of the block of `w`-bit numbers that start with `p`. */
  function Lo(w: nat, p: seq<bool>): nat
  {
    Shl(Val(p), Free(w, p))
  }

  /** One past the last number of that block. */
  function Hi(w: nat, p: seq<bool>): nat
  {
    Shl(Val(p) + 1, Free(w, p))
  }

  lemma SplitBlock(w: nat, p: seq<bool>)
    requires |p| < w
    ensures Lo(w, p + [false]) == Lo(w, p)
    ensures Hi(w, p + [false]) == Lo(w, p + [true])
    ensures Hi(w, p + [true]) == Hi(w, p)
  {
    ValSnoc(p, false);
    ValSnoc(p, true);
  }

  lemma BlockIndex(v: nat, h: nat, l: nat, m: nat)
    requires l < m
    ensures v * m <= h * m + l < (v + 1) * m <==> v == h
  {
    if h < v {
      assert (h + 1) * m <= v * m;
      assert (h + 1) * m == h * m + m;
    } else if v < h {
      assert (v + 1) * m <= h * m;
    } else {
      assert (v + 1) * m == v * m + m;
    }
  }

  /** A block is exactly the set of numbers whose bits start with the path. */
  lemma PrefixIffInBlock(w: nat, p: seq<bool>, a: seq<bool>)
    requires |p| <= w == |a|
    ensures p <= a <==> Lo(w, p) <= Val(a) < Hi(w, p)
  {
    var h, l := a[..|p|], a[|p|..];
    assert a == h + l;
    ValBound(l);
    var m := Pow2(|l|);
    assert |l| == w - |p|;
    assert Val(a) == Val(h) * m + Val(l) by {
      ValConcat(h, l);
      ShlIsProduct(Val(h), |l|);
    }
    BlockIndex(Val(p), Val(h), Val(l), m);
    ShlIsProduct(Val(p), |l|);
    ShlIsProduct(Val(p) + 1, |l|);
    assert p <= a <==> p == h;
    if Val(p) == Val(h) {
      ValInjective(p, h);
    }
  }

  // ---------- bytes ----------

  /** `n >> k` */
  function Shr(n: nat, k: nat): nat
  {
    if k == 0 then n else Shr(n / 2, k - 1)
  }

  /** `1 & (n >> k)`, as a truth value. */
  predicate TestBit(n: nat, k: nat)
  {
    Shr(n, k) % 2 == 1
  }

  /** `n | (1 << k)` */
  function OrBit(n: nat, k: nat): nat
  {
    if k == 0 then (if n % 2 == 1 then n else n + 1) else 2 * OrBit(n / 2, k - 1) + n % 2
  }

  lemma {:induction false} OrBitSets(n: nat, k: nat, j: nat)
    ensures TestBit(OrBit(n, k), j) == (j == k || TestBit(n, j))
  {
    if k > 0 && j > 0 {
      OrBitSets(n / 2, k - 1, j - 1);
      assert OrBit(n, k) / 2 == OrBit(n / 2, k - 1);
    }
  }

  lemma {:induction false} OrBitFits(n: nat, k: nat, w: nat)
    requires k < w && n < Pow2(w)
    ensures OrBit(n, k) < Pow2(w)
  {
    var h := n / 2;
    assert n == 2 * h + n % 2 && Pow2(w) == 2 * Pow2(w - 1);
    if k > 0 {
      OrBitFits(n / 2, k - 1, w - 1);
    }
  }

  /** Bit `i` of a byte string: bit 7 of byte 0 is the first. */
  predicate BitAt(bs: bytes, i: nat)
    requires i < 8 * |bs|
  {
    TestBit(bs[i / 8], 7 - i % 8)
  }

  function ToBits(bs: bytes): (p: seq<bool>)
    ensures |p| == 8 * |bs|
  {
    seq(8 * |bs|, i requires 0 <= i < 8 * |bs| => BitAt(bs, i))
  }

  /** `int.from_bytes(bs, "big")` and the network-order `struct` formats. */
  function BigEndian(bs: bytes): nat
  {
    if |bs| == 0 then 0 else 256 * BigEndian(bs[..|bs| - 1]) + bs[|bs| - 1]
  }

  // ---------- bytes and bits agree ----------

  /** The low `k` bits of `n`, most significant first. */
  function BitsOf(n: nat, k: nat): (p: seq<bool>)
    ensures |p| == k
  {
    if k == 0 then [] else BitsOf(n / 2, k - 1) + [n % 2 == 1]
  }

  lemma {:induction false} BitsOfAt(n: nat, k: nat, i: nat)
    requires i < k
    ensures BitsOf(n, k)[i] == TestBit(n, k - 1 - i)
  {
    if i < k - 1 {
      BitsOfAt(n / 2, k - 1, i);
    }
  }

  lemma HalfFits(n: nat, k: nat)
    requires k > 0 && n < Pow2(k)
    ensures n / 2 < Pow2(k - 1) && n == 2 * (n / 2) + n % 2
  {
    var h, b := n / 2, n % 2;
    assert n == 2 * h + b;
  }

  lemma {:induction false} ValBitsOf(n: nat, k: nat)
    requires n < Pow2(k)
    ensures Val(BitsOf(n, k)) == n
  {
    hide Pow2, Val;
    if k == 0 {
      NoBits(n);
    } else {
      HalfFits(n, k);
      ValBitsOf(n / 2, k - 1);
      ValSnoc(BitsOf(n / 2, k - 1), n % 2 == 1);
    }
  }

  lemma NoBits(n: nat)
    requires n < Pow2(0)
    ensures Val(BitsOf(n, 0)) == n
  {
  }

  lemma ToBitsSlice(bs: bytes, i: nat, j: nat)
    requires i <= j <= |bs|
    ensures ToBits(bs[i..j]) == ToBits(bs)[8 * i..8 * j]
  {
  }

  lemma ToBitsSplit(bs: bytes, k: nat)
    requires k <= |bs|
    ensures ToBits(bs) == ToBits(bs[..k]) + ToBits(bs[k..])
  {
  }

  /** Reading whole bytes and reading single bits give the same number. */
  lemma {:induction false} BigEndianIsVal(bs: bytes)
    ensures BigEndian(bs) == Val(ToBits(bs))
  {
    if |bs| > 0 {
      var n := |bs| - 1;
      BigEndianIsVal(bs[..n]);
      ToBitsSplit(bs, n);
      Pow2Facts();
      ValBitsOf(bs[n], 8);
      forall i | 0 <= i < 8 ensures ToBits(bs[n..])[i] == BitsOf(bs[n], 8)[i] {
        BitsOfAt(bs[n], 8, i);
      }
      assert ToBits(bs[n..]) == BitsOf(bs[n], 8);
      ValConcat(ToBits(bs[..n]), ToBits(bs[n..]));
      ShlIsProduct(Val(ToBits(bs[..n])), 8);
    }
  }
}
