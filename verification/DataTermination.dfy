/** When the decoder terminates on a buffer whose pointers may point anywhere. */
module DataTermination {
  import opened Bits
  import opened Values
  import opened DataDecoder

  /** Following at most `d` nested pointers suffices. */
  predicate Settles(buf: bytes, base: nat, d: nat, off: nat) { Decode(buf, base, d, off) != Deep }

  /** The offsets in the buffer for which `d` nested pointers suffice. */
  function Settled(buf: bytes, base: nat, d: nat): set<nat>
  {
    set off | 0 <= off < |buf| && Settles(buf, base, d, off)
  }

  /** One more nested pointer settles nothing more. */
  predicate Stable(buf: bytes, base: nat, d: nat) { Settled(buf, base, d + 1) <= Settled(buf, base, d) }

  lemma OutsideSettles(buf: bytes, base: nat, d: nat, off: nat)
    requires off >= |buf|
    ensures Settles(buf, base, d, off)
  {
  }

  lemma StableOffset(buf: bytes, base: nat, d: nat, off: nat)
    requires Stable(buf, base, d) && Settles(buf, base, d + 1, off)
    ensures Decode(buf, base, d + 1, off) == Decode(buf, base, d, off)
  {
    hide Decode;
    if off < |buf| {
      assert off in Settled(buf, base, d + 1);
    } else {
      OutsideSettles(buf, base, d, off);
    }
    MoreDepth(buf, base, d, d + 1, off);
  }

  /** Once one more pointer settles nothing more, another one does not either: pointers are followed one
      level less deep in their targets. */
  lemma {:induction false} StaysStable(buf: bytes, base: nat, d: nat, off: nat)
    requires Stable(buf, base, d) && Decode(buf, base, d + 2, off) != Deep
    ensures Decode(buf, base, d + 1, off) == Decode(buf, base, d + 2, off)
    decreases Left(buf, off), 0
  {
    hide ReadPointer, DecodeScalar, ReadHead, Stable, DecodeArray, DecodeMap;
    var head := ReadHead(buf, off);
    if head.Ok? {
      var h := head.value;
      if h.kind == DATA_POINTER {
        PointerSizeFits(buf, off);
        var p := ReadPointer(buf, base, h.size, head.next);
        if p.Ok? {
          StableOffset(buf, base, d, p.value);
        }
      } else if h.kind == MAP {
        MapStaysStable(buf, base, d, h.size, head.next, []);
      } else if h.kind == ARRAY {
        ArrayStaysStable(buf, base, d, h.size, head.next, []);
      }
    }
  }

  lemma {:induction false} ArrayStaysStable(buf: bytes, base: nat, d: nat, n: nat, off: nat, acc: seq<Value>)
    requires Stable(buf, base, d) && DecodeArray(buf, base, d + 2, n, off, acc) != Deep
    ensures DecodeArray(buf, base, d + 1, n, off, acc) == DecodeArray(buf, base, d + 2, n, off, acc)
    decreases Left(buf, off), 1
  {
    hide Decode, Stable;
    if n > 0 {
      StaysStable(buf, base, d, off);
      var v := Decode(buf, base, d + 2, off);
      if v.Ok? {
        ArrayStaysStable(buf, base, d, n - 1, v.next, acc + [v.value]);
      }
    }
  }

  lemma {:induction false} EntryStaysStable(buf: bytes, base: nat, d: nat, off: nat)
    requires Stable(buf, base, d) && DecodeEntry(buf, base, d + 2, off) != Deep
    ensures DecodeEntry(buf, base, d + 1, off) == DecodeEntry(buf, base, d + 2, off)
    decreases Left(buf, off), 1
  {
    hide Decode, Stable;
    StaysStable(buf, base, d, off);
    var k := Decode(buf, base, d + 2, off);
    if k.Ok? {
      StaysStable(buf, base, d, k.next);
    }
  }

  lemma {:induction false} MapStaysStable(buf: bytes, base: nat, d: nat, n: nat, off: nat, acc: seq<Entry>)
    requires Stable(buf, base, d) && DecodeMap(buf, base, d + 2, n, off, acc) != Deep
    ensures DecodeMap(buf, base, d + 1, n, off, acc) == DecodeMap(buf, base, d + 2, n, off, acc)
    decreases Left(buf, off), 2
  {
    hide DecodeEntry, Stable, Put;
    if n > 0 {
      EntryStaysStable(buf, base, d, off);
      var e := DecodeEntry(buf, base, d + 2, off);
      if e.Ok? {
        MapStaysStable(buf, base, d, n - 1, e.next, Put(acc, e.value.key, e.value.value));
      }
    }
  }

  lemma StableStep(buf: bytes, base: nat, d: nat)
    requires Stable(buf, base, d)
    ensures Stable(buf, base, d + 1)
  {
    hide Decode;
    var now, more := d + 1, d + 2;
    forall off: nat | Settles(buf, base, more, off) ensures Settles(buf, base, now, off) {
      StaysStable(buf, base, d, off);
    }
  }

  lemma SettledGrows(buf: bytes, base: nat, d: nat)
    ensures Settled(buf, base, d) <= Settled(buf, base, d + 1)
  {
    hide Decode;
    forall off: nat | Settles(buf, base, d, off) ensures Settles(buf, base, d + 1, off) {
      MoreDepth(buf, base, d, d + 1, off);
    }
  }

  lemma {:induction false} SubsetIsNotLarger(x: set<nat>, y: set<nat>)
    requires x <= y
    ensures |x| <= |y| && (x != y ==> |x| < |y|)
  {
    if e :| e in x {
      SubsetIsNotLarger(x - {e}, y - {e});
    } else if e :| e in y {
      assert |y| > 0;
    }
  }

  function Below(n: nat): (s: set<nat>)
    ensures |s| == n && forall i: nat :: i in s <==> i < n
  {
    if n == 0 then {} else Below(n - 1) + {n - 1}
  }

  /** Until it is stable, every bound settles at least one more offset. */
  lemma {:induction false} UnstableIsLarge(buf: bytes, base: nat, d: nat)
    requires !Stable(buf, base, d)
    ensures |Settled(buf, base, d + 1)| > d
  {
    hide Settles;
    SettledGrows(buf, base, d);
    SubsetIsNotLarger(Settled(buf, base, d), Settled(buf, base, d + 1));
    if d > 0 {
      if Stable(buf, base, d - 1) {
        StableStep(buf, base, d - 1);
      }
      UnstableIsLarge(buf, base, d - 1);
    }
  }

  lemma {:induction false} StableFromLength(buf: bytes, base: nat, d: nat)
    requires d >= |buf|
    ensures Stable(buf, base, d)
  {
    hide Settles;
    if d == |buf| {
      SubsetIsNotLarger(Settled(buf, base, d + 1), Below(|buf|));
      if !Stable(buf, base, d) {
        UnstableIsLarge(buf, base, d);
      }
    } else {
      StableFromLength(buf, base, d - 1);
      StableStep(buf, base, d - 1);
    }
  }

  /** The decoder terminates on a field, in whatever way the pointers of the buffer point at one another,
      if and only if it does so following no more nested pointers than the buffer has bytes, and then every
      sufficient bound gives the same answer. */
  lemma {:induction false} TerminatesIffWithinLength(buf: bytes, base: nat, off: nat)
    ensures (exists d: nat :: Settles(buf, base, d, off)) <==> Settles(buf, base, |buf|, off)
    ensures forall d: nat :: Settles(buf, base, d, off) ==> Decode(buf, base, d, off) == Decode(buf, base, |buf|, off)
  {
    hide Decode;
    forall d: nat | Settles(buf, base, d, off) ensures Decode(buf, base, d, off) == Decode(buf, base, |buf|, off) {
      SameWithinLength(buf, base, d, off);
    }
  }

  lemma {:induction false} SameWithinLength(buf: bytes, base: nat, d: nat, off: nat)
    requires Settles(buf, base, d, off)
    ensures Decode(buf, base, d, off) == Decode(buf, base, |buf|, off)
    decreases d
  {
    hide Decode, Stable;
    if d <= |buf| {
      MoreDepth(buf, base, d, |buf|, off);
    } else {
      StableFromLength(buf, base, d - 1);
      StableOffset(buf, base, d - 1, off);
      SameWithinLength(buf, base, d - 1, off);
    }
  }
}
