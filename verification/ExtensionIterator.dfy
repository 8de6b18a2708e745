/** The C extension's iterator: an explicit stack of pending records, kept as a linked list, with the
    address built up in a 16-byte array. `ReaderIter_next` is proved to yield, one call at a time, the
    sequence that a recursive traversal visits. */
module ExtensionIterator {
  import opened Wrappers
  import opened Bits
  import opened SearchTree
  import opened Lookup
  import opened Networks
  import opened Values
  import opened EntryList
  import opened Iteration
  import opened LockedReader

  /** What libmaxminddb makes of a data record: it takes the record for invalid, finds no entry list, or
      hands over the list. */
  datatype EntryResult = InvalidRecord | NoEntries | Entries(list: seq<EntryData>)

  type Library = nat -> EntryResult

  /** A list that is handed over has strings where a map's keys are. */
  predicate StringKeys(entries: EntryResult)
  {
    entries.Entries? ==> Rebuild(entries.list, 0) != Crash
  }

  /** So have the lists of all these records. */
  ghost predicate Listed(lib: Library, ls: seq<Leaf>)
  {
    forall l | l in ls :: StringKeys(lib(l.record))
  }

  /** How `MMDB_read_node` types a record. */
  datatype Kind = SearchNode | Empty | Data | Invalid

  function Classify(t: Tree, lib: Library, r: nat): Kind
  {
    if t.IsNode(r) then SearchNode
    else if t.IsEmpty(r) then Empty
    else if lib(r).InvalidRecord? then Invalid
    else Data
  }

  predicate IsLeafKind(k: Kind) { k == Data || k == Invalid }

  const ZERO_IP: bytes := [0, 0, 0, 0, 0, 0, 0, 0, 0, 0, 0, 0, 0, 0, 0, 0]

  /** The contents of one `struct record`. */
  datatype Pending = Pending(ip: bytes, depth: nat, record: nat, kind: Kind)

  /** `is_ipv6`: a bit is set before the last four bytes. */
  predicate HighBytes(ip: bytes)
    requires |ip| == 16
  {
    exists i :: 0 <= i < 12 && ip[i] != 0
  }

  method IsIpv6(ip: bytes) returns (z: bool)
    requires |ip| == 16
    ensures z == HighBytes(ip)
  {
    z := false;
    for i := 0 to 12
      invariant z <==> exists j :: 0 <= j < i && ip[j] != 0
    {
      z := z || ip[i] != 0;
    }
  }

  // ---------- the traversal the stack machine stands for ----------

  /** The path has a one among its first 96 bits. */
  predicate HighPath(path: seq<bool>)
  {
    HasOne(if |path| <= IPV4_SKIP then path else path[..IPV4_SKIP])
  }

  /** The data records under `node` in the order the extension visits them: only search nodes are
      ever skipped as aliases. */
  function Visits(t: Tree, start: nat, w: nat, node: nat, path: seq<bool>): seq<Leaf>
    requires |path| <= w && Fits(t, node, w - |path|)
    decreases w - |path|
  {
    if t.IsNode(node) then
      if node == start && HighPath(path) then []
      else
        Visits(t, start, w, t.Child(node, false), path + [false]) +
        Visits(t, start, w, t.Child(node, true), path + [true])
    else if t.IsData(node) then [Leaf(path, node)]
    else []
  }

  // ---------- pending records ----------

  /** The path a pending record stands for: the first `depth` bits of its address. */
  function PathOf(p: Pending): seq<bool>
    requires p.depth <= 8 * |p.ip|
  {
    ToBits(p.ip)[..p.depth]
  }

  ghost predicate PendingOk(t: Tree, lib: Library, w: nat, p: Pending)
  {
    && w <= 128 && |p.ip| == 16 && p.depth <= w
    && p.kind == Classify(t, lib, p.record)
    && Fits(t, p.record, w - p.depth)
    && forall i | p.depth <= i < 128 :: !ToBits(p.ip)[i]
  }

  function LeftOf(t: Tree, lib: Library, p: Pending): Pending
    requires t.IsNode(p.record)
  {
    var r := t.Child(p.record, false);
    Pending(p.ip, p.depth + 1, r, Classify(t, lib, r))
  }

  /** The address byte of the next bit gets `|= 1 << (7 - depth % 8)`. */
  function SetNextBit(ip: bytes, depth: nat): bytes
    requires depth < 8 * |ip|
  {
    var i, k := depth / 8, 7 - depth % 8;
    Pow2Facts();
    OrBitFits(ip[i], k, 8);
    ip[i := OrBit(ip[i], k)]
  }

  function RightOf(t: Tree, lib: Library, p: Pending): Pending
    requires t.IsNode(p.record) && p.depth < 8 * |p.ip|
  {
    var r := t.Child(p.record, true);
    Pending(SetNextBit(p.ip, p.depth), p.depth + 1, r, Classify(t, lib, r))
  }

  lemma SetNextBitAt(ip: bytes, depth: nat, j: nat)
    requires depth < 8 * |ip| && j < 8 * |ip|
    ensures ToBits(SetNextBit(ip, depth))[j] == (j == depth || ToBits(ip)[j])
  {
    OrBitSets(ip[depth / 8], 7 - depth % 8, 7 - j % 8);
  }

  lemma ChildrenOk(t: Tree, lib: Library, w: nat, p: Pending)
    requires PendingOk(t, lib, w, p) && t.IsNode(p.record)
    ensures p.depth < w
    ensures PendingOk(t, lib, w, LeftOf(t, lib, p)) && PathOf(LeftOf(t, lib, p)) == PathOf(p) + [false]
    ensures PendingOk(t, lib, w, RightOf(t, lib, p)) && PathOf(RightOf(t, lib, p)) == PathOf(p) + [true]
  {
    var x, y := ToBits(p.ip), ToBits(RightOf(t, lib, p).ip);
    forall j | 0 <= j < 128 ensures y[j] == (j == p.depth || x[j]) {
      SetNextBitAt(p.ip, p.depth, j);
    }
  }

  ghost predicate StackOk(t: Tree, lib: Library, w: nat, ps: seq<Pending>)
  {
    forall i | 0 <= i < |ps| :: PendingOk(t, lib, w, ps[i])
  }

  /** What is still to be visited from a stack. */
  ghost function Expand(t: Tree, lib: Library, start: nat, w: nat, ps: seq<Pending>): seq<Leaf>
    requires StackOk(t, lib, w, ps)
  {
    if |ps| == 0 then []
    else
      assert PendingOk(t, lib, w, ps[0]);
      Visits(t, start, w, ps[0].record, PathOf(ps[0])) + Expand(t, lib, start, w, ps[1..])
  }

  /** The termination measure: a subtree of `w - depth` more levels has 2^(w + 1 - depth) - 1 places. */
  function Weight(w: nat, ps: seq<Pending>): nat
  {
    if |ps| == 0 then 0
    else (if ps[0].depth <= w then Pow2(w + 1 - ps[0].depth) - 1 else 0) + Weight(w, ps[1..])
  }

  // ---------- one pop ----------

  /** Which records replace the popped one. */
  function Successors(t: Tree, lib: Library, start: nat, p: Pending): seq<Pending>
    requires |p.ip| == 16 && (t.IsNode(p.record) ==> p.depth < 128)
  {
    if p.kind == SearchNode && t.IsNode(p.record) && !(p.record == start && HighBytes(p.ip))
    then [LeftOf(t, lib, p), RightOf(t, lib, p)] else []
  }

  lemma HighBytesIsHighPath(p: Pending)
    requires |p.ip| == 16 && p.depth <= 128 && forall i | p.depth <= i < 128 :: !ToBits(p.ip)[i]
    ensures HighBytes(p.ip) <==> HighPath(PathOf(p))
  {
    hide BigEndian, BitAt;
    var bits := ToBits(p.ip);
    var high := if p.depth <= IPV4_SKIP then PathOf(p) else PathOf(p)[..IPV4_SKIP];
    if HighBytes(p.ip) {
      var i :| 0 <= i < 12 && p.ip[i] != 0;
      ByteIsZero(p.ip, i);
      var j :| 8 * i <= j < 8 * i + 8 && bits[j];
      assert high[j];
    }
    if HighPath(PathOf(p)) {
      var j :| 0 <= j < |high| && high[j];
      ByteIsZero(p.ip, j / 8);
      assert bits[j] && 8 * (j / 8) <= j < 8 * (j / 8) + 8;
      assert p.ip[j / 8] != 0;
    }
  }

  lemma ByteIsZero(bs: bytes, i: nat)
    requires i < |bs|
    ensures bs[i] != 0 <==> exists j :: 8 * i <= j < 8 * i + 8 && ToBits(bs)[j]
  {
    var one, bits := bs[i..i + 1], ToBits(bs);
    ToBitsSlice(bs, i, i + 1);
    BigEndianIsVal(one);
    assert BigEndian(one) == bs[i];
    ValZero(ToBits(one));
    if HasOne(ToBits(one)) {
      var k :| 0 <= k < 8 && ToBits(one)[k];
      assert bits[8 * i + k];
    }
    if j :| 8 * i <= j < 8 * i + 8 && bits[j] {
      assert ToBits(one)[j - 8 * i];
    }
  }

  lemma TwoOnTop(t: Tree, lib: Library, start: nat, w: nat, l: Pending, r: Pending, rest: seq<Pending>)
    requires PendingOk(t, lib, w, l) && PendingOk(t, lib, w, r) && StackOk(t, lib, w, rest)
    ensures StackOk(t, lib, w, [l, r] + rest)
    ensures Expand(t, lib, start, w, [l, r] + rest) ==
            Visits(t, start, w, l.record, PathOf(l)) + Visits(t, start, w, r.record, PathOf(r)) +
            Expand(t, lib, start, w, rest)
    ensures Weight(w, [l, r] + rest) ==
            Pow2(w + 1 - l.depth) - 1 + (Pow2(w + 1 - r.depth) - 1) + Weight(w, rest)
  {
    hide Visits, Pow2;
    var ps := [l, r] + rest;
    assert ps[1..] == [r] + rest && ps[1..][1..] == rest;
  }

  /** What a popped record contributes: its leaf, or the visits of its successors. */
  lemma VisitsOfPopped(t: Tree, lib: Library, start: nat, w: nat, p: Pending)
    requires PendingOk(t, lib, w, p)
    ensures if |Successors(t, lib, start, p)| == 0
            then
              Visits(t, start, w, p.record, PathOf(p)) ==
              if IsLeafKind(p.kind) then [Leaf(PathOf(p), p.record)] else []
            else
              && p.kind == SearchNode && p.depth < w
              && Successors(t, lib, start, p) == [LeftOf(t, lib, p), RightOf(t, lib, p)]
              && PendingOk(t, lib, w, LeftOf(t, lib, p)) && PendingOk(t, lib, w, RightOf(t, lib, p))
              && Visits(t, start, w, p.record, PathOf(p)) ==
                 Visits(t, start, w, LeftOf(t, lib, p).record, PathOf(LeftOf(t, lib, p))) +
                 Visits(t, start, w, RightOf(t, lib, p).record, PathOf(RightOf(t, lib, p)))
  {
    HighBytesIsHighPath(p);
    if t.IsNode(p.record) {
      ChildrenOk(t, lib, w, p);
    }
  }

  /** Replacing the popped record by its successors changes nothing about what is still to come, except
      that a data record is visited now; and the measure drops. */
  lemma PopKeepsExpansion(t: Tree, lib: Library, start: nat, w: nat, p: Pending, rest: seq<Pending>)
    requires PendingOk(t, lib, w, p) && StackOk(t, lib, w, rest)
    ensures var ps := Successors(t, lib, start, p) + rest;
            && StackOk(t, lib, w, [p] + rest) && StackOk(t, lib, w, ps)
            && Expand(t, lib, start, w, [p] + rest) ==
               (if IsLeafKind(p.kind) then [Leaf(PathOf(p), p.record)] else []) + Expand(t, lib, start, w, ps)
            && Weight(w, ps) < Weight(w, [p] + rest)
  {
    assert ([p] + rest)[1..] == rest;
    VisitsOfPopped(t, lib, start, w, p);
    if |Successors(t, lib, start, p)| == 0 {
      assert Successors(t, lib, start, p) + rest == rest;
    } else {
      TwoOnTop(t, lib, start, w, LeftOf(t, lib, p), RightOf(t, lib, p), rest);
    }
  }

  // ---------- the network of a data record ----------

  /** The bytes and the prefix length handed to `ip_network`. */
  function PackedNetwork(ipv6: bool, ip: bytes, depth: nat): Option<Network>
    requires |ip| == 16
  {
    if !ipv6 then IpNetworkPacked(ip[..4], depth)
    else if HighBytes(ip) then IpNetworkPacked(ip, depth)
    else IpNetworkPacked(ip[12..], depth - 96)
  }

  lemma ValOfZeros(n: nat)
    ensures Val(Zeros(n)) == 0
  {
    ValZero(Zeros(n));
  }

  lemma ZeroTail(bits: seq<bool>, depth: nat)
    requires depth <= |bits| && forall i | depth <= i < |bits| :: !bits[i]
    ensures bits == bits[..depth] + Zeros(|bits| - depth)
  {
  }

  /** The in-place byte accumulator holds the path's value shifted to the left end. */
  lemma AccumulatorIsShiftedPath(ip: bytes, depth: nat)
    requires depth <= 8 * |ip| && forall i | depth <= i < 8 * |ip| :: !ToBits(ip)[i]
    ensures BigEndian(ip) == Lo(8 * |ip|, ToBits(ip)[..depth])
  {
    var path, zeros := ToBits(ip)[..depth], Zeros(8 * |ip| - depth);
    BigEndianIsVal(ip);
    ZeroTail(ToBits(ip), depth);
    ValConcat(path, zeros);
    ValOfZeros(|zeros|);
  }

  /** For every pending record the bytes are Python's `ip_acc << (bits - depth)`; those of an IPv4 tree
      stand in the first four of the sixteen. */
  lemma AccumulatorsAgree(t: Tree, lib: Library, ipv6: bool, p: Pending)
    requires PendingOk(t, lib, Width(ipv6), p)
    ensures ipv6 ==> BigEndian(p.ip) == Shl(Val(PathOf(p)), 128 - p.depth)
    ensures !ipv6 ==> BigEndian(p.ip[..4]) == Shl(Val(PathOf(p)), 32 - p.depth)
  {
    if ipv6 {
      AccumulatorIsShiftedPath(p.ip, p.depth);
    } else {
      ToBitsSlice(p.ip, 0, 4);
      assert forall i | p.depth <= i < 32 :: !ToBits(p.ip[..4])[i];
      assert ToBits(p.ip[..4])[..p.depth] == PathOf(p);
      AccumulatorIsShiftedPath(p.ip[..4], p.depth);
    }
  }

  lemma HighBytesIsHighBits(ip: bytes)
    requires |ip| == 16
    ensures HighBytes(ip) <==> HasOne(ToBits(ip[..12]))
  {
    var h := ToBits(ip[..12]);
    if HighBytes(ip) {
      var i :| 0 <= i < 12 && ip[i] != 0;
      ByteIsZero(ip[..12], i);
    }
    if HasOne(h) {
      var j :| 0 <= j < 96 && h[j];
      ByteIsZero(ip[..12], j / 8);
      assert 8 * (j / 8) <= j < 8 * (j / 8) + 8;
      assert ip[j / 8] != 0;
    }
  }

  lemma SplitAt32(h: seq<bool>, l: seq<bool>)
    requires |l| == 32
    ensures HasOne(h) <==> Val(h + l) >= Pow2(32)
    ensures !HasOne(h) ==> Val(h + l) == Val(l)
  {
    ValConcat(h, l);
    ShlLeast(Val(h), 32);
    ValBound(l);
    ValZero(h);
  }

  lemma LowPart(ip: bytes)
    requires |ip| == 16
    ensures HighBytes(ip) <==> BigEndian(ip) >= Pow2(32)
    ensures !HighBytes(ip) ==> BigEndian(ip) == BigEndian(ip[12..])
  {
    HighBytesIsHighBits(ip);
    ToBitsSplit(ip, 12);
    BigEndianIsVal(ip);
    BigEndianIsVal(ip[12..]);
    SplitAt32(ToBits(ip[..12]), ToBits(ip[12..]));
  }

  lemma PackedNetworkIsPathNetwork(t: Tree, lib: Library, ipv6: bool, p: Pending)
    requires PendingOk(t, lib, Width(ipv6), p)
    ensures PackedNetwork(ipv6, p.ip, p.depth) == PathNetwork(ipv6, PathOf(p))
  {
    hide BigEndian, ToBits, PathNetwork, PackedNetwork;
    if ipv6 {
      PackedNetworkOfIpv6(t, lib, ipv6, p);
    } else {
      PackedNetworkOfIpv4(t, lib, ipv6, p);
    }
  }

  lemma PackedNetworkOfIpv4(t: Tree, lib: Library, ipv6: bool, p: Pending)
    requires PendingOk(t, lib, Width(ipv6), p) && !ipv6
    ensures PackedNetwork(ipv6, p.ip, p.depth) == PathNetwork(ipv6, PathOf(p))
  {
    hide BigEndian, ToBits, Shl, Fits;
    PathNetworkIsBlock(ipv6, PathOf(p));
    AccumulatorsAgree(t, lib, ipv6, p);
  }

  lemma PackedNetworkOfIpv6(t: Tree, lib: Library, ipv6: bool, p: Pending)
    requires PendingOk(t, lib, Width(ipv6), p) && ipv6
    ensures PackedNetwork(ipv6, p.ip, p.depth) == PathNetwork(ipv6, PathOf(p))
  {
    hide BigEndian, ToBits, Shl, Fits, HighBytes, Pow2;
    PathNetworkIsBlock(ipv6, PathOf(p));
    AccumulatorsAgree(t, lib, ipv6, p);
    LowPart(p.ip);
  }

  lemma ExpandRest(t: Tree, lib: Library, start: nat, w: nat, p: Pending, rest: seq<Pending>)
    requires StackOk(t, lib, w, [p] + rest) && StackOk(t, lib, w, rest)
    ensures forall l | l in Expand(t, lib, start, w, rest) :: l in Expand(t, lib, start, w, [p] + rest)
  {
    hide Visits;
    assert ([p] + rest)[1..] == rest;
  }

  /** A stack and the data records taken from it, each yielded or raised for. */
  datatype Iter = Iter(stack: seq<Pending>, taken: seq<Leaf>)

  /** One loop turn of `ReaderIter_next`: take the first pending record. */
  function TurnIter(t: Tree, lib: Library, start: nat, it: Iter): Iter
  {
    if |it.stack| == 0 then it
    else
      var p, rest := it.stack[0], it.stack[1..];
      if IsLeafKind(p.kind) && p.depth <= 8 * |p.ip| then Iter(rest, it.taken + [Leaf(PathOf(p), p.record)])
      else if |p.ip| == 16 && (t.IsNode(p.record) ==> p.depth < 128)
      then Iter(Successors(t, lib, start, p) + rest, it.taken)
      else Iter(rest, it.taken)
  }

  function TurnTimes(t: Tree, lib: Library, start: nat, it: Iter, k: nat): Iter
  {
    if k == 0 then it else TurnIter(t, lib, start, TurnTimes(t, lib, start, it, k - 1))
  }

  lemma OneMoreTurn(t: Tree, lib: Library, start: nat, it: Iter, k: nat)
    ensures TurnTimes(t, lib, start, it, k + 1) == TurnIter(t, lib, start, TurnTimes(t, lib, start, it, k))
    ensures TurnTimes(t, lib, start, it, 0) == it
  {
  }

  /** A turn on a stack of valid records. */
  lemma TurnOfValid(t: Tree, lib: Library, start: nat, w: nat, p: Pending, rest: seq<Pending>, taken: seq<Leaf>)
    requires PendingOk(t, lib, w, p) && (t.IsNode(p.record) ==> p.depth < 128)
    ensures TurnIter(t, lib, start, Iter([p] + rest, taken)) ==
            if IsLeafKind(p.kind) then Iter(rest, taken + [Leaf(PathOf(p), p.record)])
            else if p.kind == Empty then Iter(rest, taken)
            else Iter(Successors(t, lib, start, p) + rest, taken)
  {
    assert ([p] + rest)[1..] == rest;
    assert [] + rest == rest;
  }

  /** The outcome of one turn, on the stack's contents. */
  lemma TurnOutcome(t: Tree, lib: Library, start: nat, ipv6: bool, p: Pending, rest: seq<Pending>)
    requires StackOk(t, lib, Width(ipv6), [p] + rest)
    ensures StackOk(t, lib, Width(ipv6), rest) && PendingOk(t, lib, Width(ipv6), p)
    ensures forall l | l in Expand(t, lib, start, Width(ipv6), rest) ::
              l in Expand(t, lib, start, Width(ipv6), [p] + rest)
    ensures var w := Width(ipv6);
            var before, after := Expand(t, lib, start, w, [p] + rest), Expand(t, lib, start, w, rest);
            match p.kind
            case Data => |before| > 0 && before[1..] == after && before[0] == Leaf(PathOf(p), p.record)
            case Invalid => |before| > 0 && before[1..] == after && before[0] == Leaf(PathOf(p), p.record)
            case Empty => before == after && Weight(w, rest) < Weight(w, [p] + rest)
            case SearchNode =>
              && t.IsNode(p.record) && p.depth < 128
              && var ps := Successors(t, lib, start, p) + rest;
                 && StackOk(t, lib, w, ps) && before == Expand(t, lib, start, w, ps)
                 && Weight(w, ps) < Weight(w, [p] + rest)
  {
    hide Expand, Visits, Weight;
    var w := Width(ipv6);
    assert ([p] + rest)[0] == p && PendingOk(t, lib, w, p);
    var ps := Successors(t, lib, start, p) + rest;
    assert StackOk(t, lib, w, rest) by {
      assert forall i | 0 <= i < |rest| :: rest[i] == ([p] + rest)[i + 1];
    }
    PopKeepsExpansion(t, lib, start, w, p, rest);
    VisitsOfPopped(t, lib, start, w, p);
    ExpandRest(t, lib, start, w, p, rest);
    if |Successors(t, lib, start, p)| == 0 {
      assert ps == rest;
      if t.IsNode(p.record) { ChildrenOk(t, lib, w, p); }
    }
  }

  // ---------- the iterator object ----------

  class Record {
    var ipPacked: bytes
    var depth: nat
    var record: nat
    var kind: Kind
    var next: Record?

    constructor (ip: bytes, depth: nat, record: nat, kind: Kind)
      ensures View() == Pending(ip, depth, record, kind) && next == null
    {
      this.ipPacked, this.depth, this.record, this.kind, this.next := ip, depth, record, kind, null;
    }

    function View(): Pending
      reads this
    {
      Pending(ipPacked, depth, record, kind)
    }
  }

  /** The list from `first` on is `chain`, and its records hold what `stack` says, in order. */
  ghost predicate LinkedFrom(first: Record?, chain: seq<Record>, stack: seq<Pending>)
    reads chain
    decreases |chain|
  {
    if |chain| == 0 then first == null && |stack| == 0
    else
      && first == chain[0] && |stack| > 0 && chain[0].View() == stack[0]
      && LinkedFrom(chain[0].next, chain[1..], stack[1..])
  }

  // ---------- the outcome of a data record ----------

  /** The Python object of a data record, or the exception. */
  function RecordOf(lib: Library, r: nat): Result<Value>
  {
    match lib(r)
    case Entries(list) =>
      (match Rebuild(list, 0)
       case Built(v, _) => Success(v)
       case Failed(e) => Failure(e)
       case Crash => Failure(InvalidDatabase))
    case _ => Failure(InvalidDatabase)
  }

  function Fetch(lib: Library): Resolve<Value>
  {
    (r: nat) => match RecordOf(lib, r) case Success(v) => Some(v) case Failure(_) => None
  }

  datatype Next = Yield(item: Item<Value>) | Exhausted | Raise(error: Error)

  /** What `next` answers for a data record. */
  function OutcomeOf(lib: Library, ipv6: bool, l: Leaf): Next
  {
    match RecordOf(lib, l.record)
    case Failure(e) => Raise(e)
    case Success(v) =>
      match PathNetwork(ipv6, l.path)
      case Some(network) => Yield(Item(network, v))
      case None => Raise(BadValue)
  }

  lemma OutcomeIsPathItem(lib: Library, ipv6: bool, l: Leaf)
    ensures match PathItem(ipv6, Fetch(lib), l)
            case Some(item) => OutcomeOf(lib, ipv6, l) == Yield(item)
            case None => OutcomeOf(lib, ipv6, l).Raise?
  {
  }

  /** Call by call: without an entry list an InvalidDatabaseError, with one that cannot be rebuilt the exception of
      that, and where the path is too short for an IPv4 network a ValueError; else the network and the record. */
  lemma OutcomeIsItsRecord(lib: Library, ipv6: bool, l: Leaf)
    requires StringKeys(lib(l.record)) && |l.path| <= Width(ipv6)
    ensures !lib(l.record).Entries? ==> OutcomeOf(lib, ipv6, l) == Raise(InvalidDatabase)
    ensures lib(l.record).Entries? ==>
              var r := Rebuild(lib(l.record).list, 0);
              var base := Shl(Val(l.path), Width(ipv6) - |l.path|);
              && (r.Failed? ==> OutcomeOf(lib, ipv6, l) == Raise(r.error))
              && (r.Built? && !ipv6 ==> OutcomeOf(lib, ipv6, l) == Yield(Item(V4(base, |l.path|), r.value)))
              && (r.Built? && ipv6 ==>
                    OutcomeOf(lib, ipv6, l) ==
                    if base >= 0x1_0000_0000 then Yield(Item(V6(base, |l.path|), r.value))
                    else if |l.path| >= 96 then Yield(Item(V4(base, |l.path| - 96), r.value))
                    else Raise(BadValue))
  {
    hide Rebuild, Shl, Val;
    Pow2Facts();
  }

  // ---------- the iterator ----------

  class ReaderIter {
    const tree: Tree
    const lib: Library
    const ipv6: bool
    const start: nat                // the IPv4 start node's value
    const reader: ReaderObject
    var next: Record?
    ghost var chain: seq<Record>    // the linked records, front first
    ghost var stack: seq<Pending>   // their contents

    /** The list holds the records of `stack`, in order. */
    ghost predicate Linked()
      reads this, chain
    {
      LinkedFrom(next, chain, stack)
    }

    ghost predicate Valid()
      reads this, chain
    {
      Linked() && StackOk(tree, lib, Width(ipv6), stack) && Listed(lib, Remaining())
    }

    /** The data records this iterator has not visited yet. */
    ghost function Remaining(): seq<Leaf>
      requires StackOk(tree, lib, Width(ipv6), stack)
      reads this
    {
      Expand(tree, lib, start, Width(ipv6), stack)
    }

    /** The iterator that `Reader_iter` makes: node 0 with address 0. */
    constructor (tree: Tree, lib: Library, ipv6: bool, reader: ReaderObject)
      requires |tree.nodes| > 0 && Fits(tree, 0, Width(ipv6))
      requires Listed(lib, Visits(tree, Ipv4Start(tree, ipv6), Width(ipv6), 0, []))
      ensures this.tree == tree && this.lib == lib && this.ipv6 == ipv6 && this.reader == reader
      ensures start == Ipv4Start(tree, ipv6) && Valid()
      ensures Remaining() == Visits(tree, start, Width(ipv6), 0, [])
    {
      this.tree, this.lib, this.ipv6, this.start := tree, lib, ipv6, Ipv4Start(tree, ipv6);
      this.reader := reader;
      var root := new Record(ZERO_IP, 0, 0, SearchNode);
      next, chain, stack := root, [root], [Pending(ZERO_IP, 0, 0, SearchNode)];
      new;
      RootOk(tree, lib, ipv6, stack[0]);
      assert PathOf(stack[0]) == [];
      assert Expand(tree, lib, start, Width(ipv6), stack[1..]) == [];
    }

    /** `ReaderIter_next`. Every return leaves the lock as it was, taken and given back once if it was not
        refused, and the handle used only under the lock and while it was there. A refusal or a closed
        reader leaves the iterator as it was. Otherwise, when nothing fails for outside reasons (`calm`),
        the call takes the first remaining record and answers for it, or the iteration has ended. */
    method GetNext(calm: bool) returns (r: Next)
      requires Valid() && reader.Outside()
      modifies this, reader
      ensures Valid() && reader.Outside() && (old(reader.closed) ==> reader.closed)
      ensures OneCall(old(reader.events), reader.events) || (!calm && reader.events == old(reader.events))
      ensures reader.events == old(reader.events) ==> r == Raise(NoMemory)
      ensures LockRefused(old(reader.events), reader.events) ==> r == Raise(LockFailure)
      ensures FoundClosed(old(reader.events), reader.events) ==> r == Raise(BadValue)
      ensures !Finished(old(reader.events), reader.events) ==> r.Raise? && Remaining() == old(Remaining())
      ensures calm && Finished(old(reader.events), reader.events) ==>
                if |old(Remaining())| == 0 then r == Exhausted && Remaining() == []
                else r == OutcomeOf(lib, ipv6, old(Remaining())[0]) && Remaining() == old(Remaining())[1..]
      ensures calm && Finished(old(reader.events), reader.events) ==>
                TurnTimes(tree, lib, start, Iter(old(stack), []), TurnsSince(old(reader.events), reader.events)) ==
                Iter(stack, old(Remaining())[..|old(Remaining())| - |Remaining()|])
    {
      hide InUse, Finished, LockRefused, FoundClosed, OutcomeOf, Weight, TurnsSince, TurnIter, TurnTimes, Expand,
        StackOk, Linked;
      ghost var before := reader.events;
      var hasState := Attempt(calm);
      if !hasState {
        NothingIsNotFinished(before);
        return Raise(NoMemory);
      }
      var refused := reader.AcquireRead();
      if refused {
        RefusedIsNotFinished(before);
        return Raise(LockFailure);
      }
      var isClosed := reader.IsClosed();
      if isClosed {
        reader.ReleaseRead();
        ClosedIsSeen(before);
        return Raise(BadValue);
      }
      UseBegins(before);
      OneMoreTurn(tree, lib, start, Iter(stack, []), 0);
      while next != null
        invariant Valid() && reader.Held() && InUse(before, reader.events)
        invariant calm ==> Remaining() == old(Remaining())
        invariant calm ==> TurnTimes(tree, lib, start, Iter(old(stack), []), TurnsSince(before, reader.events)) ==
                           Iter(stack, [])
        decreases Weight(Width(ipv6), stack)
      {
        OneMoreTurn(tree, lib, start, Iter(old(stack), []), TurnsSince(before, reader.events));
        var answer := Turn(calm, before);
        if answer.Some? {
          FinishedIsOpen(before, reader.events);
          return answer.value;
        }
      }
      NothingRemains();
      UseEnds(before, reader.events);
      reader.ReleaseRead();
      r := Exhausted;
    }

    lemma NothingRemains()
      requires Valid() && next == null
      ensures Remaining() == []
    {
    }

    /** One turn of the loop: pop a record; skip it, replace it by its children, or answer for it. */
    method Turn(calm: bool, ghost before: seq<Event>) returns (answer: Option<Next>)
      requires Valid() && next != null && reader.Held() && InUse(before, reader.events)
      modifies this, reader
      ensures Valid() && reader.closed == old(reader.closed)
      ensures answer.None? ==> reader.Held() && InUse(before, reader.events)
      ensures answer.None? ==> Weight(Width(ipv6), stack) < Weight(Width(ipv6), old(stack))
      ensures answer.None? && calm ==> Remaining() == old(Remaining())
      ensures answer.Some? ==> reader.Outside() && Finished(before, reader.events)
      ensures answer.Some? && calm ==> |old(Remaining())| > 0 && Remaining() == old(Remaining())[1..]
      ensures answer.Some? && calm ==> answer.value == OutcomeOf(lib, ipv6, old(Remaining())[0])
      ensures calm ==>
                && TurnsSince(before, reader.events) == TurnsSince(before, old(reader.events)) + 1
                && TurnIter(tree, lib, start, Iter(old(stack), [])) ==
                   Iter(stack, if answer.Some? then [old(Remaining())[0]] else [])
    {
      hide InUse, Finished, Weight, Expand, Fits, Visits, Linked, Successors, PackedNetwork, PathNetwork, TurnsSince,
        TurnIter, Rebuild;
      UseGoesOn(before, reader.events);
      reader.NoteTurn();
      ghost var was := stack;
      var cur := Pop();
      ghost var p, rest := was[0], was[1..];
      assert was == [p] + rest;
      TurnOutcome(tree, lib, start, ipv6, p, rest);
      TurnOfValid(tree, lib, start, Width(ipv6), p, rest, []);
      assert [] + [Leaf(PathOf(p), p.record)] == [Leaf(PathOf(p), p.record)];
      match cur.kind {
        case Invalid =>
          UseEnds(before, reader.events);
          reader.ReleaseRead();
          return Some(Raise(InvalidDatabase));
        case SearchNode =>
          var failure := Replace(cur, calm, before);
          if failure.Some? {
            return Some(Raise(failure.value));
          }
        case Empty =>
        case Data =>
          PackedNetworkIsPathNetwork(tree, lib, ipv6, p);
          var r := Answer(cur, calm, before);
          return Some(r);
      }
      answer := None;
    }

    /** The search node case: skip an alias, or read the node and push its children. */
    method Replace(cur: Record, calm: bool, ghost before: seq<Event>) returns (failure: Option<Error>)
      requires Linked() && reader.Held() && InUse(before, reader.events)
      requires cur.kind == SearchNode && tree.IsNode(cur.record) && |cur.ipPacked| == 16 && cur.depth < 128
      modifies this, reader
      ensures Linked() && reader.closed == old(reader.closed) && (calm ==> failure.None?)
      ensures TurnsSince(before, reader.events) == TurnsSince(before, old(reader.events))
      ensures failure.Some? ==> reader.Outside() && Finished(before, reader.events) && stack == old(stack)
      ensures failure.None? ==> reader.Held() && InUse(before, reader.events)
      ensures failure.None? ==> stack == Successors(tree, lib, start, cur.View()) + old(stack)
    {
      hide InUse, Finished, Linked, LeftOf, RightOf, TurnsSince;
      UseGoesOn(before, reader.events);
      reader.Touch();
      var high := IsIpv6(cur.ipPacked);
      failure := None;
      if cur.record != start || !high {
        failure := ReadNode(calm, before);
        if failure.None? {
          Push(cur);
        }
      } else {
        assert [] + stack == stack;
      }
    }

    /** Reading a node and allocating two records for its children. */
    method ReadNode(calm: bool, ghost before: seq<Event>) returns (failure: Option<Error>)
      requires reader.Held() && InUse(before, reader.events)
      modifies reader
      ensures reader.closed == old(reader.closed) && (calm ==> failure.None?)
      ensures TurnsSince(before, reader.events) == TurnsSince(before, old(reader.events))
      ensures failure.Some? ==> reader.Outside() && Finished(before, reader.events)
      ensures failure.None? ==> reader.Held() && InUse(before, reader.events)
    {
      hide InUse, Finished, TurnsSince;
      UseGoesOn(before, reader.events);
      reader.Touch();
      UseEnds(before, reader.events);
      var nodeWasRead := Attempt(calm);
      if !nodeWasRead {
        reader.ReleaseRead();
        return Some(InvalidDatabase);
      }
      var leftAllocated := Attempt(calm);
      if !leftAllocated {
        reader.ReleaseRead();
        return Some(NoMemory);
      }
      var rightAllocated := Attempt(calm);
      if !rightAllocated {
        reader.ReleaseRead();
        return Some(NoMemory);
      }
      failure := None;
    }

    /** The data case: the entry list, the record, the network and the tuple, with their exits. */
    method Answer(cur: Record, calm: bool, ghost before: seq<Event>) returns (r: Next)
      requires reader.Held() && InUse(before, reader.events)
      requires |cur.ipPacked| == 16 && StringKeys(lib(cur.record)) && !lib(cur.record).InvalidRecord?
      modifies reader
      ensures reader.Outside() && reader.closed == old(reader.closed) && Finished(before, reader.events)
      ensures TurnsSince(before, reader.events) == TurnsSince(before, old(reader.events))
      ensures calm ==>
                r == match RecordOf(lib, cur.record)
                     case Failure(e) => Raise(e)
                     case Success(v) =>
                       match PackedNetwork(ipv6, cur.ipPacked, cur.depth)
                       case Some(network) => Yield(Item(network, v))
                       case None => Raise(BadValue)
    {
      hide InUse, Finished, Rebuild, IpNetworkPacked, TurnsSince;
      UseGoesOn(before, reader.events);
      reader.Touch();
      if lib(cur.record).NoEntries? {
        UseEnds(before, reader.events);
        reader.ReleaseRead();
        return Raise(InvalidDatabase);
      }
      var cursor := new Cursor(lib(cur.record).list);
      var rebuilt := cursor.FromEntryDataList();
      var objectsBuilt := Attempt(calm);
      if rebuilt.Failure? || !objectsBuilt {
        UseEnds(before, reader.events);
        reader.ReleaseRead();
        return Raise(if rebuilt.Failure? then rebuilt.error else NoMemory);
      }
      UseGoesOn(before, reader.events);
      reader.Touch();
      UseEnds(before, reader.events);
      var ipStart, ipLength := 0, 4;
      if ipv6 {
        var high := IsIpv6(cur.ipPacked);
        if high {
          ipLength := 16;
        } else {
          ipStart := 12;
        }
      }
      var tupleBuilt := Attempt(calm);
      if !tupleBuilt {
        reader.ReleaseRead();
        return Raise(NoMemory);
      }
      var argsBuilt := Attempt(calm);
      if !argsBuilt {
        reader.ReleaseRead();
        return Raise(NoMemory);
      }
      assert cur.ipPacked[0..16] == cur.ipPacked;
      var network := IpNetworkPacked(cur.ipPacked[ipStart..ipStart + ipLength], cur.depth - ipStart * 8);
      if network.None? {
        reader.ReleaseRead();
        return Raise(BadValue);
      }
      var resultBuilt := Attempt(calm);
      reader.ReleaseRead();
      r := if resultBuilt then Yield(Item(network.value, rebuilt.value)) else Raise(NoMemory);
    }

    /** Take the front record off the list. */
    method Pop() returns (cur: Record)
      requires Linked() && next != null
      modifies this
      ensures |old(stack)| > 0
      ensures Linked() && cur.View() == old(stack)[0] && stack == old(stack)[1..]
    {
      cur := next;
      next, chain, stack := cur.next, chain[1..], stack[1..];
    }

    /** The two children of a popped node go to the front of the list, left before right. */
    method Push(cur: Record)
      requires Linked() && tree.IsNode(cur.record) && cur.depth < 8 * |cur.ipPacked|
      modifies this
      ensures Linked()
      ensures stack == [LeftOf(tree, lib, cur.View()), RightOf(tree, lib, cur.View())] + old(stack)
    {
      ghost var p := cur.View();
      var l, r := tree.Child(cur.record, false), tree.Child(cur.record, true);
      var left := new Record(cur.ipPacked, cur.depth + 1, l, Classify(tree, lib, l));
      var right := new Record(SetNextBit(cur.ipPacked, cur.depth), cur.depth + 1, r, Classify(tree, lib, r));
      left.next, right.next := right, next;
      PushFront(right, RightOf(tree, lib, p));
      PushFront(left, LeftOf(tree, lib, p));
      assert [LeftOf(tree, lib, p)] + ([RightOf(tree, lib, p)] + old(stack)) ==
             [LeftOf(tree, lib, p), RightOf(tree, lib, p)] + old(stack);
    }

    /** Make a linked record the new front. */
    method PushFront(rec: Record, ghost p: Pending)
      requires Linked() && rec.next == next && rec.View() == p
      modifies this
      ensures Linked() && next == rec && stack == [p] + old(stack)
    {
      next, chain, stack := rec, [rec] + chain, [p] + stack;
      assert chain[1..] == old(chain) && stack[1..] == old(stack);
    }
  }

  lemma RootOk(t: Tree, lib: Library, ipv6: bool, p: Pending)
    requires |t.nodes| > 0 && Fits(t, 0, Width(ipv6)) && p == Pending(ZERO_IP, 0, 0, SearchNode)
    ensures PendingOk(t, lib, Width(ipv6), p)
  {
    forall i | 0 <= i < 128 ensures !ToBits(p.ip)[i] {
      ShrZero(7 - i % 8);
    }
  }

  lemma {:induction false} ShrZero(k: nat)
    ensures Shr(0, k) == 0
  {
    if k > 0 {
      ShrZero(k - 1);
    }
  }

  /** A whole `for` loop over the extension's iterator: item after item until a call raises or the iteration
      ends. If the reader is closed or its lock refused on the way, it raises after a prefix of the items. */
  method Collect(iter: ReaderIter) returns (run: Run<Item<Value>>, ghost interrupted: bool)
    requires iter.Valid() && iter.reader.Outside()
    modifies iter, iter.reader
    ensures iter.reader.Outside()
    ensures var all := RunOf(Map(PathItemOf(iter.ipv6, Fetch(iter.lib)), old(iter.Remaining())));
            if interrupted then run.failed && run.items <= all.items else run == all
  {
    hide RunOf, Expand, StackOk, OneCall;
    run, interrupted := Run([], false), false;
    ghost var all := RunOf(Map(PathItemOf(iter.ipv6, Fetch(iter.lib)), iter.Remaining()));
    while true
      invariant iter.Valid() && iter.reader.Outside() && !run.failed && !interrupted
      invariant all == run.Then(RunOf(Map(PathItemOf(iter.ipv6, Fetch(iter.lib)), iter.Remaining())))
      decreases |iter.Remaining()|
    {
      ghost var todo, before := iter.Remaining(), iter.reader.events;
      var r := iter.GetNext(true);
      interrupted := !Finished(before, iter.reader.events);
      OneMoreItem(iter.ipv6, iter.lib, todo);
      match r {
        case Exhausted =>
          return;
        case Raise(_) =>
          run := Run(run.items, true);
          return;
        case Yield(item) =>
          ghost var rest := RunOf(Map(PathItemOf(iter.ipv6, Fetch(iter.lib)), iter.Remaining()));
          ThenIsAssociative(run, Run([item], false), rest);
          run := Run(run.items + [item], false);
      }
    }
  }

  /** The items of a sequence of records: the outcome of the first, then those of the others. */
  lemma OneMoreItem(ipv6: bool, lib: Library, ls: seq<Leaf>)
    ensures var all := RunOf(Map(PathItemOf(ipv6, Fetch(lib)), ls));
            if |ls| == 0 then all == Run([], false)
            else
              match OutcomeOf(lib, ipv6, ls[0])
              case Yield(item) => all == Run([item], false).Then(RunOf(Map(PathItemOf(ipv6, Fetch(lib)), ls[1..])))
              case _ => all == Run([], true)
  {
    hide RecordOf;
    if |ls| > 0 {
      OutcomeIsPathItem(lib, ipv6, ls[0]);
      assert PathItemOf(ipv6, Fetch(lib))(ls[0]) == PathItem(ipv6, Fetch(lib), ls[0]);
    }
  }
}
