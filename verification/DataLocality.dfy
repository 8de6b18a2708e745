/** Which bytes a decoded value depends on. */
module DataLocality {
  import opened Bits
  import opened ByteStrings
  import opened DataDecoder
  import opened DataFormat

  /** Two buffers that hold the same bytes where the field lies and where the targets of its pointers lie,
      or both end there. */
  predicate Agree(buf: bytes, buf': bytes, base: nat, off: nat, f: Field)
    decreases f, 1
  {
    Slice(buf, off, off + Extent(f)) == Slice(buf', off, off + Extent(f)) && TargetsAgree(buf, buf', base, f)
  }

  predicate TargetsAgree(buf: bytes, buf': bytes, base: nat, f: Field)
    decreases f, 0
  {
    match f
    case Array(items) => TargetsAgreeItems(buf, buf', base, items)
    case Map(pairs, _) => TargetsAgreePairs(buf, buf', base, pairs)
    case Pointer(_, _, target, to) => Agree(buf, buf', base, base + target, to)
    case _ => true
  }

  predicate TargetsAgreeItems(buf: bytes, buf': bytes, base: nat, fs: Fields)
    decreases fs, 0
  {
    fs.Then? ==> TargetsAgree(buf, buf', base, fs.first) && TargetsAgreeItems(buf, buf', base, fs.rest)
  }

  predicate TargetsAgreePairs(buf: bytes, buf': bytes, base: nat, ps: Pairs)
    decreases ps, 0
  {
    ps.Pair? ==>
      && TargetsAgree(buf, buf', base, ps.key) && TargetsAgree(buf, buf', base, ps.value)
      && TargetsAgreePairs(buf, buf', base, ps.rest)
  }

  lemma SliceOfSlice(buf: bytes, i: nat, a: nat, b: nat, j: nat)
    requires i <= a <= b <= j
    ensures Slice(buf, a, b) == Slice(Slice(buf, i, j), a - i, b - i)
  {
    var whole := Slice(buf, i, j);
    if a < |buf| {
      var top, end := if |buf| <= j then |buf| else j, if |buf| <= b then |buf| else b;
      assert whole == buf[i..top] && Slice(buf, a, b) == buf[a..end];
      assert Slice(whole, a - i, b - i) == whole[a - i..end - i];
      var part := whole[a - i..end - i];
      assert forall k | 0 <= k < end - a :: part[k] == whole[a - i + k];
    } else {
      assert |whole| <= a - i;
    }
  }

  lemma SliceWithin(buf: bytes, buf': bytes, i: nat, a: nat, b: nat, j: nat)
    requires i <= a <= b <= j && Slice(buf, i, j) == Slice(buf', i, j)
    ensures Slice(buf, a, b) == Slice(buf', a, b)
  {
    hide Slice;
    SliceOfSlice(buf, i, a, b, j);
    SliceOfSlice(buf', i, a, b, j);
  }

  lemma AtInBoth(buf: bytes, buf': bytes, off: nat, bs: bytes, end: nat)
    requires At(buf, off, bs) && 0 < |bs| && off + |bs| <= end && Slice(buf, off, end) == Slice(buf', off, end)
    ensures At(buf', off, bs)
  {
    SliceWithin(buf, buf', off, off, off + |bs|, end);
  }

  lemma HeadInBoth(buf: bytes, buf': bytes, off: nat, kind: nat, size: nat, extended: bool, end: nat)
    requires (extended ==> kind >= 7) && At(buf, off, HeadBytes(kind, size, extended))
    requires off + |HeadBytes(kind, size, extended)| <= end && Slice(buf, off, end) == Slice(buf', off, end)
    ensures var head := HeadBytes(kind, size, extended);
            At(buf', off, head) && Slice(buf, off + |head|, end) == Slice(buf', off + |head|, end)
  {
    hide At;
    var head := HeadBytes(kind, size, extended);
    AtInBoth(buf, buf', off, head, end);
    SliceWithin(buf, buf', off, off + |head|, end, end);
  }

  /** A layout is in every buffer that agrees on its bytes. */
  lemma {:induction false} LaidInBoth(buf: bytes, buf': bytes, base: nat, off: nat, f: Field)
    requires Laid(buf, base, off, f) && Agree(buf, buf', base, off, f)
    ensures Laid(buf', base, off, f)
    decreases f, 1
  {
    hide HeadBytes, PointerBytes, At, Slice, LaidItems, LaidPairs, TargetsAgreeItems, TargetsAgreePairs, ExtentItems,
      ExtentPairs;
    var end := off + Extent(f);
    match f
    case Pointer(form, spare, target, to) =>
      PointerSize(form, spare, target);
      AtInBoth(buf, buf', off, PointerBytes(form, spare, target), end);
      LaidInBoth(buf, buf', base, base + target, to);
    case Array(items) =>
      HeadInBoth(buf, buf', off, ARRAY, Length(items), true, end);
      ItemsLaidInBoth(buf, buf', base, off + |HeadBytes(ARRAY, Length(items), true)|, items);
    case Map(pairs, extended) =>
      HeadInBoth(buf, buf', off, MAP, PairCount(pairs), extended, end);
      PairsLaidInBoth(buf, buf', base, off + |HeadBytes(MAP, PairCount(pairs), extended)|, pairs);
    case Boolean(size) => HeadInBoth(buf, buf', off, BOOLEAN, size, true, end);
    case Scalar(kind, size, payload) => HeadInBoth(buf, buf', off, kind, size, kind > 7, end);
  }

  lemma PointerSize(form: nat, spare: nat, target: nat)
    requires InForm(form, target)
    ensures |PointerBytes(form, spare, target)| == 1 + form
  {
  }

  lemma {:induction false} ItemsLaidInBoth(buf: bytes, buf': bytes, base: nat, off: nat, fs: Fields)
    requires LaidItems(buf, base, off, fs) && TargetsAgreeItems(buf, buf', base, fs)
    requires var end := off + ExtentItems(fs); Slice(buf, off, end) == Slice(buf', off, end)
    ensures LaidItems(buf', base, off, fs)
    decreases fs, 0
  {
    hide Laid, Slice;
    if fs.Then? {
      var mid, end := off + Extent(fs.first), off + ExtentItems(fs);
      SliceWithin(buf, buf', off, off, mid, end);
      SliceWithin(buf, buf', off, mid, end, end);
      LaidInBoth(buf, buf', base, off, fs.first);
      ItemsLaidInBoth(buf, buf', base, mid, fs.rest);
    }
  }

  lemma {:induction false} PairsLaidInBoth(buf: bytes, buf': bytes, base: nat, off: nat, ps: Pairs)
    requires LaidPairs(buf, base, off, ps) && TargetsAgreePairs(buf, buf', base, ps)
    requires var end := off + ExtentPairs(ps); Slice(buf, off, end) == Slice(buf', off, end)
    ensures LaidPairs(buf', base, off, ps)
    decreases ps, 0
  {
    hide Laid, Slice;
    if ps.Pair? {
      var mid, end := off + Extent(ps.key), off + ExtentPairs(ps);
      var next := mid + Extent(ps.value);
      SliceWithin(buf, buf', off, off, mid, end);
      SliceWithin(buf, buf', off, mid, next, end);
      SliceWithin(buf, buf', off, next, end, end);
      LaidInBoth(buf, buf', base, off, ps.key);
      LaidInBoth(buf, buf', base, mid, ps.value);
      PairsLaidInBoth(buf, buf', base, next, ps.rest);
    }
  }

  /** A decoded value depends on nothing but the bytes of its layout and of its pointer targets: wherever
      decoding succeeds there is a layout, and every buffer that agrees on it decodes to the same. */
  lemma DecodeDependsOnItsBytes(buf: bytes, base: nat, d: nat, off: nat) returns (f: Field)
    requires Decode(buf, base, d, off).Ok?
    ensures LayoutOf(buf, base, d, off, Decode(buf, base, d, off).value, Decode(buf, base, d, off).next, f)
    ensures forall buf' :: Agree(buf, buf', base, off, f) ==> Decode(buf', base, d, off) == Decode(buf, base, d, off)
  {
    hide Decode, Laid, Readable, Agree;
    var r := Decode(buf, base, d, off);
    f := DecodedIsLayout(buf, base, d, off, r.value, r.next);
    forall buf' | Agree(buf, buf', base, off, f) ensures Decode(buf', base, d, off) == r {
      LaidInBoth(buf, buf', base, off, f);
      LayoutIsDecoded(buf', base, d, off, f);
    }
  }
}
