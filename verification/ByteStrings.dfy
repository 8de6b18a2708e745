/** Slices of a buffer and the fixed-width numbers packed in them. */
module ByteStrings {
  import opened Wrappers
  import opened Bits

  /** `buf[i:j]`: a slice is cut off at the end of the buffer. */
  function Slice(buf: bytes, i: nat, j: nat): (s: bytes)
    requires i <= j
    ensures j <= |buf| ==> s == buf[i..j]
    ensures |s| <= j - i && (|s| == j - i <==> j <= |buf| || i == j)
  {
    if |buf| <= i then [] else if |buf| <= j then buf[i..] else buf[i..j]
  }

  /** `struct.unpack(b"!I", bs)` and `b"!H"`: a big-endian number of exactly `k` bytes. */
  function Unpack(bs: bytes, k: nat): Result<nat>
  {
    if |bs| == k then Success(BigEndian(bs)) else Failure(BadStruct)
  }

  /** The `k`-byte big-endian form of the low `8 * k` bits of `n`. */
  function ToBytes(n: nat, k: nat): (bs: bytes)
    ensures |bs| == k
  {
    if k == 0 then [] else ToBytes(n / 256, k - 1) + [n % 256]
  }

  lemma {:induction false} BigEndianToBytes(n: nat, k: nat)
    requires n < Pow2(8 * k)
    ensures BigEndian(ToBytes(n, k)) == n
  {
    if k > 0 {
      assert Pow2(8 * k) == 256 * Pow2(8 * (k - 1)) by {
        Pow2Add(8, 8 * (k - 1));
        Pow2Facts();
      }
      BigEndianToBytes(n / 256, k - 1);
      assert ToBytes(n, k)[..k - 1] == ToBytes(n / 256, k - 1);
    }
  }

  lemma {:induction false} ToBytesBigEndian(bs: bytes)
    ensures ToBytes(BigEndian(bs), |bs|) == bs
  {
    if |bs| > 0 {
      ToBytesBigEndian(bs[..|bs| - 1]);
    }
  }

  lemma {:induction false} BigEndianBound(bs: bytes)
    ensures BigEndian(bs) < Pow2(8 * |bs|)
  {
    BigEndianIsVal(bs);
    ValBound(ToBits(bs));
  }

  lemma {:induction false} BigEndianConcat(x: bytes, y: bytes)
    ensures BigEndian(x + y) == BigEndian(x) * Pow2(8 * |y|) + BigEndian(y)
  {
    BigEndianIsVal(x + y);
    BigEndianIsVal(x);
    BigEndianIsVal(y);
    assert ToBits(x + y) == ToBits(x) + ToBits(y) by {
      ToBitsSplit(x + y, |x|);
      assert (x + y)[..|x|] == x && (x + y)[|x|..] == y;
    }
    ValConcat(ToBits(x), ToBits(y));
    ShlIsProduct(Val(ToBits(x)), 8 * |y|);
  }
}
