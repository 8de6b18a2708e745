/** The pointers that the decoder follows, as a graph, and what the graph says about termination. */
module PointerGraph {
  import opened Wrappers
  import opened Bits
  import opened ByteStrings
  import opened Values
  import opened DataDecoder
  import opened DataTermination

  // ---------- the graph ----------

  /** Decoding the field at `off` comes to a pointer to `t`: the parts before it decode, following as many
      pointers as they need. */
  predicate Follows(buf: bytes, base: nat, off: nat, t: nat)
    decreases Left(buf, off), 0
  {
    match ReadHead(buf, off)
    case Ok(h, next) =>
      if h.kind == DATA_POINTER then
        PointerSizeFits(buf, off);
        match ReadPointer(buf, base, h.size, next)
        case Ok(pointer, _) => pointer == t
        case _ => false
      else if h.kind == MAP then FollowsInMap(buf, base, h.size, next, t)
      else if h.kind == ARRAY then FollowsInArray(buf, base, h.size, next, t)
      else false
    case _ => false
  }

  predicate FollowsInArray(buf: bytes, base: nat, n: nat, off: nat, t: nat)
    decreases Left(buf, off), 1
  {
    && n > 0
    && (|| Follows(buf, base, off, t)
        || var v := Decode(buf, base, |buf|, off); v.Ok? && FollowsInArray(buf, base, n - 1, v.next, t))
  }

  predicate FollowsInEntry(buf: bytes, base: nat, off: nat, t: nat)
    decreases Left(buf, off), 1
  {
    || Follows(buf, base, off, t)
    || var k := Decode(buf, base, |buf|, off); k.Ok? && Follows(buf, base, k.next, t)
  }

  predicate FollowsInMap(buf: bytes, base: nat, n: nat, off: nat, t: nat)
    decreases Left(buf, off), 2
  {
    && n > 0
    && (|| FollowsInEntry(buf, base, off, t)
        || var e := DecodeEntry(buf, base, |buf|, off); e.Ok? && FollowsInMap(buf, base, n - 1, e.next, t))
  }

  // ---------- one step in the graph is one bound less ----------

  /** A bound does not suffice for the target of a pointer that is followed. */
  predicate DeepBelow(buf: bytes, base: nat, d: nat, t: nat) { d == 0 || Decode(buf, base, d - 1, t) == Deep }

  lemma SameEntryWithinLength(buf: bytes, base: nat, d: nat, off: nat)
    requires DecodeEntry(buf, base, d, off) != Deep
    ensures DecodeEntry(buf, base, d, off) == DecodeEntry(buf, base, |buf|, off)
  {
    hide Decode;
    SameWithinLength(buf, base, d, off);
    var k := Decode(buf, base, d, off);
    if k.Ok? {
      SameWithinLength(buf, base, d, k.next);
    }
  }

  /** Where a bound does not suffice, some pointer is followed for whose target one less does not. */
  lemma {:induction false} DeepIsFollowed(buf: bytes, base: nat, d: nat, off: nat) returns (t: nat)
    requires Decode(buf, base, d, off) == Deep
    ensures Follows(buf, base, off, t) && DeepBelow(buf, base, d, t)
    decreases Left(buf, off), 0
  {
    hide ReadPointer, DecodeScalar, DecodeArray, DecodeMap, FollowsInArray, FollowsInMap;
    var head := ReadHead(buf, off);
    var h := head.value;
    if h.kind == DATA_POINTER {
      PointerSizeFits(buf, off);
      t := ReadPointer(buf, base, h.size, head.next).value;
    } else if h.kind == MAP {
      t := DeepIsFollowedInMap(buf, base, d, h.size, head.next, []);
    } else {
      t := DeepIsFollowedInArray(buf, base, d, h.size, head.next, []);
    }
  }

  lemma {:induction false} DeepIsFollowedInArray(buf: bytes, base: nat, d: nat, n: nat, off: nat, acc: seq<Value>)
    returns (t: nat)
    requires DecodeArray(buf, base, d, n, off, acc) == Deep
    ensures FollowsInArray(buf, base, n, off, t) && DeepBelow(buf, base, d, t)
    decreases Left(buf, off), 1
  {
    hide Decode, Follows, DeepBelow;
    var v := Decode(buf, base, d, off);
    if v.Deep? {
      t := DeepIsFollowed(buf, base, d, off);
    } else {
      SameWithinLength(buf, base, d, off);
      t := DeepIsFollowedInArray(buf, base, d, n - 1, v.next, acc + [v.value]);
    }
  }

  lemma {:induction false} DeepIsFollowedInEntry(buf: bytes, base: nat, d: nat, off: nat) returns (t: nat)
    requires DecodeEntry(buf, base, d, off) == Deep
    ensures FollowsInEntry(buf, base, off, t) && DeepBelow(buf, base, d, t)
    decreases Left(buf, off), 1
  {
    hide Decode, Follows, DeepBelow;
    var k := Decode(buf, base, d, off);
    if k.Deep? {
      t := DeepIsFollowed(buf, base, d, off);
    } else {
      SameWithinLength(buf, base, d, off);
      t := DeepIsFollowed(buf, base, d, k.next);
    }
  }

  lemma {:induction false} DeepIsFollowedInMap(buf: bytes, base: nat, d: nat, n: nat, off: nat, acc: seq<Entry>)
    returns (t: nat)
    requires DecodeMap(buf, base, d, n, off, acc) == Deep
    ensures FollowsInMap(buf, base, n, off, t) && DeepBelow(buf, base, d, t)
    decreases Left(buf, off), 2
  {
    hide DecodeEntry, FollowsInEntry, DeepBelow, Put;
    var e := DecodeEntry(buf, base, d, off);
    if e.Deep? {
      t := DeepIsFollowedInEntry(buf, base, d, off);
    } else {
      SameEntryWithinLength(buf, base, d, off);
      t := DeepIsFollowedInMap(buf, base, d, n - 1, e.next, Put(acc, e.value.key, e.value.value));
    }
  }

  /** And where such a pointer is followed, the bound does not suffice. */
  lemma {:induction false} FollowedIsDeep(buf: bytes, base: nat, d: nat, off: nat, t: nat)
    requires Follows(buf, base, off, t) && DeepBelow(buf, base, d, t)
    ensures Decode(buf, base, d, off) == Deep
    decreases Left(buf, off), 0
  {
    hide ReadPointer, DecodeScalar, DecodeArray, DecodeMap, FollowsInArray, FollowsInMap;
    var head := ReadHead(buf, off);
    var h := head.value;
    if h.kind == DATA_POINTER {
      PointerSizeFits(buf, off);
    } else if h.kind == MAP {
      FollowedInMapIsDeep(buf, base, d, h.size, head.next, t, []);
    } else {
      FollowedInArrayIsDeep(buf, base, d, h.size, head.next, t, []);
    }
  }

  lemma {:induction false} FollowedInArrayIsDeep(
      buf: bytes, base: nat, d: nat, n: nat, off: nat, t: nat, acc: seq<Value>)
    requires FollowsInArray(buf, base, n, off, t) && DeepBelow(buf, base, d, t)
    ensures DecodeArray(buf, base, d, n, off, acc) == Deep
    decreases Left(buf, off), 1
  {
    hide Decode, Follows, DeepBelow;
    if Follows(buf, base, off, t) {
      FollowedIsDeep(buf, base, d, off, t);
    } else if !Decode(buf, base, d, off).Deep? {
      SameWithinLength(buf, base, d, off);
      var v := Decode(buf, base, d, off);
      FollowedInArrayIsDeep(buf, base, d, n - 1, v.next, t, acc + [v.value]);
    }
  }

  lemma {:induction false} FollowedInEntryIsDeep(buf: bytes, base: nat, d: nat, off: nat, t: nat)
    requires FollowsInEntry(buf, base, off, t) && DeepBelow(buf, base, d, t)
    ensures DecodeEntry(buf, base, d, off) == Deep
    decreases Left(buf, off), 1
  {
    hide Decode, Follows, DeepBelow;
    if Follows(buf, base, off, t) {
      FollowedIsDeep(buf, base, d, off, t);
    } else if !Decode(buf, base, d, off).Deep? {
      SameWithinLength(buf, base, d, off);
      FollowedIsDeep(buf, base, d, Decode(buf, base, d, off).next, t);
    }
  }

  lemma {:induction false} FollowedInMapIsDeep(
      buf: bytes, base: nat, d: nat, n: nat, off: nat, t: nat, acc: seq<Entry>)
    requires FollowsInMap(buf, base, n, off, t) && DeepBelow(buf, base, d, t)
    ensures DecodeMap(buf, base, d, n, off, acc) == Deep
    decreases Left(buf, off), 2
  {
    hide DecodeEntry, FollowsInEntry, DeepBelow, Put;
    if FollowsInEntry(buf, base, off, t) {
      FollowedInEntryIsDeep(buf, base, d, off, t);
    } else if !DecodeEntry(buf, base, d, off).Deep? {
      SameEntryWithinLength(buf, base, d, off);
      var e := DecodeEntry(buf, base, d, off);
      FollowedInMapIsDeep(buf, base, d, n - 1, e.next, t, Put(acc, e.value.key, e.value.value));
    }
  }

  // ---------- cycles ----------

  /** From every field of the set a pointer into the set is followed. */
  predicate Endless(buf: bytes, base: nat, cycle: set<nat>)
  {
    forall x | x in cycle :: exists t :: t in cycle && Follows(buf, base, x, t)
  }

  /** No bound suffices in such a set, whatever containers lie between its pointers: the decoder would recurse
      for ever. */
  lemma {:induction false} PointerCycleIsDeep(buf: bytes, base: nat, d: nat, off: nat, cycle: set<nat>)
    requires Endless(buf, base, cycle) && off in cycle
    ensures Decode(buf, base, d, off) == Deep
    decreases d
  {
    hide Decode, Follows;
    var t :| t in cycle && Follows(buf, base, off, t);
    if d > 0 {
      PointerCycleIsDeep(buf, base, d - 1, t, cycle);
    }
    FollowedIsDeep(buf, base, d, off, t);
  }

  /** The fields of the buffer that no bound suffices for. */
  function Unsettled(buf: bytes, base: nat): set<nat>
  {
    set off | 0 <= off < |buf| && !Settles(buf, base, |buf|, off)
  }

  lemma UnsettledIsEndless(buf: bytes, base: nat)
    ensures Endless(buf, base, Unsettled(buf, base))
  {
    hide Decode, Follows;
    forall x | x in Unsettled(buf, base) ensures exists t :: t in Unsettled(buf, base) && Follows(buf, base, x, t) {
      var d := |buf| + 1;
      if Settles(buf, base, d, x) {
        SameWithinLength(buf, base, d, x);
      }
      var t := DeepIsFollowed(buf, base, d, x);
      if t >= |buf| {
        OutsideSettles(buf, base, |buf|, t);
      }
      assert t in Unsettled(buf, base);
    }
  }

  /** Decoding a field terminates if and only if the field lies in no set of fields from each of which a pointer
      into the set is followed: the cycles of the pointer graph are all there is to non-termination. */
  lemma TerminatesIffNoCycle(buf: bytes, base: nat, off: nat)
    ensures (exists d: nat :: Settles(buf, base, d, off)) <==>
            !exists cycle: set<nat> :: off in cycle && Endless(buf, base, cycle)
  {
    hide Decode, Follows, Endless;
    if exists d: nat :: Settles(buf, base, d, off) {
      var d: nat :| Settles(buf, base, d, off);
      if cycle: set<nat> :| off in cycle && Endless(buf, base, cycle) {
        PointerCycleIsDeep(buf, base, d, off, cycle);
      }
    } else {
      assert !Settles(buf, base, |buf|, off);
      if off >= |buf| {
        OutsideSettles(buf, base, |buf|, off);
      }
      UnsettledIsEndless(buf, base);
      assert off in Unsettled(buf, base);
    }
  }

  // ---------- acyclic pointers ----------

  /** On these fields every pointer that is followed leads to a field of smaller rank. */
  ghost predicate Ranked(buf: bytes, base: nat, fields: iset<nat>, rank: nat -> nat)
  {
    forall x, t | x in fields && Follows(buf, base, x, t) :: t in fields && rank(t) < rank(x)
  }

  /** Then the rank of a field is a bound that suffices for it. */
  lemma {:induction false} RankedSettles(buf: bytes, base: nat, fields: iset<nat>, rank: nat -> nat, off: nat)
    requires Ranked(buf, base, fields, rank) && off in fields
    ensures Settles(buf, base, rank(off), off)
    decreases rank(off)
  {
    hide Decode, Follows;
    if !Settles(buf, base, rank(off), off) {
      var t := DeepIsFollowed(buf, base, rank(off), off);
      RankedSettles(buf, base, fields, rank, t);
      MoreDepth(buf, base, rank(t), rank(off) - 1, t);
    }
  }

  // ---------- the pointers found by a scan that follows none ----------

  /** The targets in a field and where the field ends, or where the scan cannot go on. */
  datatype Scan = Scan(targets: set<nat>, next: Option<nat>)

  function ScanField(buf: bytes, base: nat, off: nat): (r: Scan)
    ensures r.next.Some? ==> off < |buf| && off < r.next.value
    decreases Left(buf, off), 0
  {
    match ReadHead(buf, off)
    case Ok(h, next) =>
      if h.kind == DATA_POINTER then
        PointerSizeFits(buf, off);
        match ReadPointer(buf, base, h.size, next)
        case Ok(pointer, end) => Scan({pointer}, Some(end))
        case _ => Scan({}, None)
      else if h.kind == MAP then ScanParts(buf, base, h.size + h.size, next)
      else if h.kind == ARRAY then ScanParts(buf, base, h.size, next)
      else
        (match DecodeScalar(buf, h, next)
         case Ok(_, end) => Scan({}, Some(end))
         case _ => Scan({}, None))
    case _ => Scan({}, None)
  }

  function ScanParts(buf: bytes, base: nat, n: nat, off: nat): (r: Scan)
    ensures r.next.Some? ==> off <= r.next.value
    decreases Left(buf, off), 1
  {
    if n == 0 then Scan({}, Some(off))
    else
      var first := ScanField(buf, base, off);
      match first.next
      case None => first
      case Some(next) =>
        var rest := ScanParts(buf, base, n - 1, next);
        Scan(first.targets + rest.targets, rest.next)
  }

  lemma ScanPartsStep(buf: bytes, base: nat, n: nat, off: nat)
    requires n > 0
    ensures var first, all := ScanField(buf, base, off), ScanParts(buf, base, n, off);
            && first.targets <= all.targets
            && (first.next.Some? ==>
                  var rest := ScanParts(buf, base, n - 1, first.next.value);
                  all.next == rest.next && rest.targets <= all.targets)
  {
    hide ScanField;
  }

  /** What is decoded ends where the scan says. */
  lemma {:induction false} DecodedIsScanned(buf: bytes, base: nat, d: nat, off: nat)
    requires Decode(buf, base, d, off).Ok?
    ensures ScanField(buf, base, off).next == Some(Decode(buf, base, d, off).next)
    decreases Left(buf, off), 0
  {
    hide ReadPointer, DecodeScalar, DecodeArray, DecodeMap, ScanParts;
    var head := ReadHead(buf, off);
    var h := head.value;
    if h.kind == DATA_POINTER {
      PointerSizeFits(buf, off);
    } else if h.kind == MAP {
      DecodedMapIsScanned(buf, base, d, h.size, head.next, []);
    } else if h.kind == ARRAY {
      DecodedArrayIsScanned(buf, base, d, h.size, head.next, []);
    }
  }

  lemma {:induction false} DecodedArrayIsScanned(buf: bytes, base: nat, d: nat, n: nat, off: nat, acc: seq<Value>)
    requires DecodeArray(buf, base, d, n, off, acc).Ok?
    ensures ScanParts(buf, base, n, off).next == Some(DecodeArray(buf, base, d, n, off, acc).next)
    decreases Left(buf, off), 1
  {
    hide Decode, ScanField;
    if n > 0 {
      var v := Decode(buf, base, d, off);
      DecodedIsScanned(buf, base, d, off);
      DecodedArrayIsScanned(buf, base, d, n - 1, v.next, acc + [v.value]);
    }
  }

  lemma {:induction false} DecodedEntryIsScanned(buf: bytes, base: nat, d: nat, n: nat, off: nat)
    requires DecodeEntry(buf, base, d, off).Ok? && n > 0
    ensures var rest := ScanParts(buf, base, n - 1 + n - 1, DecodeEntry(buf, base, d, off).next);
            && ScanParts(buf, base, n + n, off).next == rest.next
            && rest.targets <= ScanParts(buf, base, n + n, off).targets
    decreases Left(buf, off), 1
  {
    hide Decode, ScanField, ScanParts;
    var k := Decode(buf, base, d, off);
    DecodedIsScanned(buf, base, d, off);
    DecodedIsScanned(buf, base, d, k.next);
    ScanPartsStep(buf, base, n + n, off);
    ScanPartsStep(buf, base, n + n - 1, k.next);
    assert n + n - 2 == n - 1 + n - 1;
  }

  lemma {:induction false} DecodedMapIsScanned(buf: bytes, base: nat, d: nat, n: nat, off: nat, acc: seq<Entry>)
    requires DecodeMap(buf, base, d, n, off, acc).Ok?
    ensures ScanParts(buf, base, n + n, off).next == Some(DecodeMap(buf, base, d, n, off, acc).next)
    decreases Left(buf, off), 2
  {
    hide DecodeEntry, Put, ScanField;
    if n > 0 {
      var e := DecodeEntry(buf, base, d, off);
      DecodedEntryIsScanned(buf, base, d, n, off);
      DecodedMapIsScanned(buf, base, d, n - 1, e.next, Put(acc, e.value.key, e.value.value));
    }
  }

  /** Every pointer that is followed is found by the scan. */
  lemma {:induction false} FollowedIsScanned(buf: bytes, base: nat, off: nat, t: nat)
    requires Follows(buf, base, off, t)
    ensures t in ScanField(buf, base, off).targets
    decreases Left(buf, off), 0
  {
    hide ReadPointer, DecodeScalar, FollowsInArray, FollowsInMap, ScanParts;
    var head := ReadHead(buf, off);
    var h := head.value;
    if h.kind == DATA_POINTER {
      PointerSizeFits(buf, off);
    } else if h.kind == MAP {
      FollowedInMapIsScanned(buf, base, h.size, head.next, t);
    } else {
      FollowedInArrayIsScanned(buf, base, h.size, head.next, t);
    }
  }

  lemma {:induction false} FollowedInArrayIsScanned(buf: bytes, base: nat, n: nat, off: nat, t: nat)
    requires FollowsInArray(buf, base, n, off, t)
    ensures t in ScanParts(buf, base, n, off).targets
    decreases Left(buf, off), 1
  {
    hide Decode, Follows, ScanField, ScanParts;
    ScanPartsStep(buf, base, n, off);
    if Follows(buf, base, off, t) {
      FollowedIsScanned(buf, base, off, t);
    } else {
      DecodedIsScanned(buf, base, |buf|, off);
      FollowedInArrayIsScanned(buf, base, n - 1, Decode(buf, base, |buf|, off).next, t);
    }
  }

  lemma {:induction false} FollowedInEntryIsScanned(buf: bytes, base: nat, n: nat, off: nat, t: nat)
    requires FollowsInEntry(buf, base, off, t) && n > 0
    ensures t in ScanParts(buf, base, n + n, off).targets
    decreases Left(buf, off), 1
  {
    hide Decode, Follows, ScanField, ScanParts;
    ScanPartsStep(buf, base, n + n, off);
    if Follows(buf, base, off, t) {
      FollowedIsScanned(buf, base, off, t);
    } else {
      var k := Decode(buf, base, |buf|, off);
      DecodedIsScanned(buf, base, |buf|, off);
      ScanPartsStep(buf, base, n + n - 1, k.next);
      FollowedIsScanned(buf, base, k.next, t);
    }
  }

  lemma {:induction false} FollowedInMapIsScanned(buf: bytes, base: nat, n: nat, off: nat, t: nat)
    requires FollowsInMap(buf, base, n, off, t)
    ensures t in ScanParts(buf, base, n + n, off).targets
    decreases Left(buf, off), 2
  {
    hide DecodeEntry, FollowsInEntry, ScanField, ScanParts;
    if FollowsInEntry(buf, base, off, t) {
      FollowedInEntryIsScanned(buf, base, n, off, t);
    } else {
      DecodedEntryIsScanned(buf, base, |buf|, n, off);
      FollowedInMapIsScanned(buf, base, n - 1, DecodeEntry(buf, base, |buf|, off).next, t);
    }
  }

  /** The pointers of these fields, as a scan finds them, stay among the fields and lower the rank. */
  ghost predicate Acyclic(buf: bytes, base: nat, fields: iset<nat>, rank: nat -> nat)
  {
    forall x, t | x in fields && t in ScanField(buf, base, x).targets :: t in fields && rank(t) < rank(x)
  }

  /** On acyclic pointers decoding terminates, with a value or an exception, and the rank of a field bounds the
      nested pointers it follows. */
  lemma AcyclicSettles(buf: bytes, base: nat, fields: iset<nat>, rank: nat -> nat, off: nat)
    requires Acyclic(buf, base, fields, rank) && off in fields
    ensures Settles(buf, base, rank(off), off)
  {
    hide Follows, ScanField, Settles;
    forall x, t | x in fields && Follows(buf, base, x, t) ensures t in fields && rank(t) < rank(x) {
      FollowedIsScanned(buf, base, x, t);
    }
    RankedSettles(buf, base, fields, rank, off);
  }

  // ---------- a cycle through an array ----------

  /** An array of one item, which is a pointer back to the array. */
  const CYCLIC_ARRAY: bytes := [0x01, 0x04, 0x20, 0x00]

  lemma CyclicArrayNeverSettles(buf: bytes, d: nat)
    requires buf == CYCLIC_ARRAY
    ensures Follows(buf, 0, 0, 0) && Decode(buf, 0, d, 0) == Deep
  {
    hide Decode;
    assert ReadHead(buf, 0) == Ok(Head(ARRAY, 1), 2);
    assert ReadHead(buf, 2) == Ok(Head(DATA_POINTER, 0), 3);
    assert ReadPointer(buf, 0, 0, 3) == Ok(0, 4) by {
      var bs: bytes := [0] + Slice(buf, 3, 4);
      assert bs == [0, 0] && bs[..1] == [0] && bs[..1][..0] == [];
      assert BigEndian([0]) == 0;
    }
    assert Follows(buf, 0, 2, 0);
    assert FollowsInArray(buf, 0, 1, 2, 0);
    assert Follows(buf, 0, 0, 0);
    PointerCycleIsDeep(buf, 0, d, 0, {0});
  }
}
