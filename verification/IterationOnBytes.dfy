/** Both readers on the same bytes: iterating over a database, and looking addresses up in it. */
module IterationOnBytes {
  import opened Wrappers
  import opened Bits
  import opened SearchTree
  import opened NodeLayout
  import opened Lookup
  import opened Networks
  import opened Values
  import opened DataDecoder
  import opened DataFormat
  import opened EntryList
  import opened Iteration
  import opened ExtensionIterator
  import opened ExtensionReader
  import opened Agreement
  import opened PythonReader

  // ---------- iterating with the records ----------

  /** The value that `_resolve_data_pointer` returns for a data record, if it returns one. */
  function RecordReader(buf: bytes, m: Metadata, d: nat): Resolve<Value>
  {
    (r: nat) =>
      if r <= m.nodeCount then None
      else
        match ResolveDataPointer(buf, m, d, r, 0)
        case Answer(v, _) => v
        case _ => None
  }

  lemma RecordReaderIsResolve(buf: bytes, m: Metadata, d: nat, r: nat, n: nat)
    requires r > m.nodeCount
    ensures match RecordReader(buf, m, d)(r)
            case Some(v) => ResolveDataPointer(buf, m, d, r, n) == Answer(Some(v), n)
            case None => !ResolveDataPointer(buf, m, d, r, n).Answer?
  {
    hide Decode;
  }

  /** `list(reader)` on the bytes of a database. */
  function ReaderIteration(buf: bytes, m: Metadata, d: nat): Run<Item<Value>>
    requires HoldsTree(buf, m) && Fits(TreeOf(buf, m), 0, Width(m.ipVersion == 6))
  {
    PythonIteration(TreeOf(buf, m), m.ipVersion == 6, RecordReader(buf, m, d))
  }

  /** Exactly when it raises: on a data record above the IPv4 part, on a network at 2^32, or on a record that
      points behind the file or at data that cannot be decoded. */
  lemma ReaderIterationFailsIff(buf: bytes, m: Metadata, d: nat)
    requires HoldsTree(buf, m) && Fits(TreeOf(buf, m), 0, Width(m.ipVersion == 6))
    ensures var t, ipv6 := TreeOf(buf, m), m.ipVersion == 6;
            ReaderIteration(buf, m, d).failed <==>
            || DataAboveIpv4(t, ipv6)
            || exists l :: l in AllLeaves(t, ipv6) &&
                 (AtTwo32(ipv6, l) || (l.record > m.nodeCount && !ResolveDataPointer(buf, m, d, l.record, 0).Answer?))
  {
    hide TreeOf, PythonIteration, AtTwo32, DataAboveIpv4, ResolveDataPointer, Leaves, Fits, RecordReader;
    var t, ipv6 := TreeOf(buf, m), m.ipVersion == 6;
    PythonIterationFailsIff(t, ipv6, RecordReader(buf, m, d));
    LeavesFit(t, ipv6);
    forall l | l in AllLeaves(t, ipv6)
      ensures l.record > m.nodeCount
      ensures RecordReader(buf, m, d)(l.record).None? <==> !ResolveDataPointer(buf, m, d, l.record, 0).Answer?
    {
      VisitsFit(t, ipv6, l);
      RecordReaderIsResolve(buf, m, d, l.record, 0);
    }
  }

  // ---------- iterating and looking up ----------

  /** How deep in the tree a yielded network stands: 96 levels more for an IPv4 network of an IPv6 tree. */
  function DepthOf(ipv6: bool, network: Network): nat
  {
    if ipv6 && network.V4? then network.len + 96 else network.len
  }

  lemma DepthOfPath(ipv6: bool, path: seq<bool>)
    requires PathNetwork(ipv6, path).Some?
    ensures DepthOf(ipv6, PathNetwork(ipv6, path).value) == |path|
  {
  }

  /** The lookup of a packed address, by the walk of its bits from the root. */
  lemma LookupByWalk(buf: bytes, m: Metadata, d: nat, packed: bytes)
    requires HoldsTree(buf, m) && (|packed| == 16 ==> m.ipVersion != 4)
    ensures GetWithPrefixLen(buf, m, d, packed) ==
            match Find(TreeOf(buf, m), 0, AddressBits(m, packed))
            case Failure(e) => Raised(e)
            case Success(f) => AnswerFor(buf, m, d, Found(f.pointer, ReportedPrefix(m, packed, f.prefixLen)))
  {
    hide TreeOf, Walk, AnswerFor, WalkBytes;
    FindInTreeIsFind(buf, m, packed);
    WalkBytesIsWalk(buf, m, 0, Zeros(IPV4_SKIP));
    if m.ipVersion == 6 && |packed| == 4 {
      Ipv4ShortcutIsFullWalk(TreeOf(buf, m), ToBits(packed));
    }
  }

  lemma FoundDataIsBelow(t: Tree, a: seq<bool>)
    requires Find(t, 0, a).Success? && Find(t, 0, a).value.pointer != 0
    ensures Find(t, 0, a).value.pointer > |t.nodes|
  {
  }

  /** Whatever the iterator yields, before it ends or raises, is what lookup returns for every address of the
      network, given as 4 or 16 bytes: the same value, and the network's own prefix length in the terms of that
      address. */
  lemma YieldedNetworkIsLookedUp(buf: bytes, m: Metadata, d: nat, i: nat, packed: bytes)
    requires HoldsTree(buf, m) && Fits(TreeOf(buf, m), 0, Width(m.ipVersion == 6))
    requires |AddressBits(m, packed)| == Width(m.ipVersion == 6) && (|packed| == 16 ==> m.ipVersion != 4)
    requires i < |ReaderIteration(buf, m, d).items|
    requires Covers(ReaderIteration(buf, m, d).items[i], Val(AddressBits(m, packed)))
    ensures var item := ReaderIteration(buf, m, d).items[i];
            GetWithPrefixLen(buf, m, d, packed) ==
            Answer(Some(item.record), ReportedPrefix(m, packed, DepthOf(m.ipVersion == 6, item.network)))
  {
    hide TreeOf, PythonIteration, Covers, Aliased, ResolveDataPointer, RecordReader, Yields, Find, Fits, Leaves,
      PathNetwork, ReportedPrefix, AddressBits, GetWithPrefixLen;
    var ipv6, t, a, run := m.ipVersion == 6, TreeOf(buf, m), AddressBits(m, packed), ReaderIteration(buf, m, d);
    PythonYields(t, ipv6, RecordReader(buf, m, d));
    CoveringItemIsFound(t, Ipv4Start(t, ipv6), ipv6, RecordReader(buf, m, d), run, a, i);
    var f := Find(t, 0, a).value;
    FoundDataIsBelow(t, a);
    DepthOfPath(ipv6, a[..f.prefixLen]);
    LookupByWalk(buf, m, d, packed);
    RecordReaderIsResolve(buf, m, d, f.pointer, ReportedPrefix(m, packed, f.prefixLen));
  }

  /** And whatever lookup finds, under a path that is no alias, a whole iteration has yielded. */
  lemma LookedUpIsYielded(buf: bytes, m: Metadata, d: nat, packed: bytes, v: Value, n: nat) returns (i: nat)
    requires HoldsTree(buf, m) && Fits(TreeOf(buf, m), 0, Width(m.ipVersion == 6))
    requires |AddressBits(m, packed)| == Width(m.ipVersion == 6) && (|packed| == 16 ==> m.ipVersion != 4)
    requires !ReaderIteration(buf, m, d).failed
    requires !Aliased(TreeOf(buf, m), Ipv4Start(TreeOf(buf, m), m.ipVersion == 6), AddressBits(m, packed))
    requires GetWithPrefixLen(buf, m, d, packed) == Answer(Some(v), n)
    ensures i < |ReaderIteration(buf, m, d).items|
    ensures Covers(ReaderIteration(buf, m, d).items[i], Val(AddressBits(m, packed)))
    ensures ReaderIteration(buf, m, d).items[i].record == v
  {
    hide TreeOf, PythonIteration, Covers, Aliased, ResolveDataPointer, RecordReader, Yields, Fits, Leaves, Walk,
      ReportedPrefix, AddressBits, GetWithPrefixLen;
    var ipv6, t, a, run := m.ipVersion == 6, TreeOf(buf, m), AddressBits(m, packed), ReaderIteration(buf, m, d);
    LookupByWalk(buf, m, d, packed);
    var f := Find(t, 0, a).value;
    FoundDataIsBelow(t, a);
    RecordReaderIsResolve(buf, m, d, f.pointer, ReportedPrefix(m, packed, f.prefixLen));
    FoundLeafHasItem(t, ipv6, RecordReader(buf, m, d), a);
    var item := PathItem(ipv6, RecordReader(buf, m, d), Leaf(a[..f.prefixLen], f.pointer)).value;
    ItemsAgreeWithLookup(t, ipv6, RecordReader(buf, m, d), a, item);
    i :| 0 <= i < |run.items| && run.items[i] == item;
  }

  /** A looked-up record that can be read has an item when the iteration does not raise. */
  lemma FoundLeafHasItem(t: Tree, ipv6: bool, resolve: Resolve<Value>, a: seq<bool>)
    requires Fits(t, 0, Width(ipv6)) && |a| == Width(ipv6) && !PythonIteration(t, ipv6, resolve).failed
    requires Find(t, 0, a).Success? && Find(t, 0, a).value.pointer != 0
    requires !Aliased(t, Ipv4Start(t, ipv6), a) && resolve(Find(t, 0, a).value.pointer).Some?
    ensures Find(t, 0, a).value.prefixLen <= |a|
    ensures PathItem(ipv6, resolve, Leaf(a[..Find(t, 0, a).value.prefixLen], Find(t, 0, a).value.pointer)).Some?
  {
    hide Leaves, Visits, Fits, PythonIteration, PathNetwork, DataAboveIpv4, Aliased;
    var f := Find(t, 0, a).value;
    var l := Leaf(a[..f.prefixLen], f.pointer);
    IterationAgreesWithLookup(t, Ipv4Start(t, ipv6), a, l);
    LeavesFit(t, ipv6);
    PythonIterationFailsIff(t, ipv6, resolve);
    if PathNetwork(ipv6, l.path).None? {
      NoNetworkOnlyAboveIpv4(t, ipv6, l);
    }
  }

  // ---------- the two readers ----------

  /** The library reads each data record as the Python decoder does: its entry list is rebuilt to the same
      value, in the extension's form, or both fail. */
  predicate ReadAlike(buf: bytes, m: Metadata, d: nat, lib: Library, r: nat)
  {
    match RecordReader(buf, m, d)(r)
    case Some(v) => RecordOf(lib, r) == Success(AsExtension(v))
    case None => RecordOf(lib, r).Failure?
  }

  /** So it is for every laid out value whose list the library flattens. */
  lemma LayoutIsReadAlike(buf: bytes, m: Metadata, d: nat, lib: Library, r: nat, f: Field)
    requires r >= m.nodeCount + SEPARATOR_SIZE && Readable(f) && Strict(f) && Nesting(f) <= d
    requires Laid(buf, DataStart(m), DataStart(m) + (r - m.nodeCount - SEPARATOR_SIZE), f)
    requires lib(r) == Entries(EntryList.Flatten(f))
    ensures ReadAlike(buf, m, d, lib, r)
  {
    hide Readable, Strict, Nesting, Laid, Meaning, Rebuild, ResolveDataPointer;
    LaidIsResolved(buf, m, d, r, f, 0);
    RecordReaderIsResolve(buf, m, d, r, 0);
    ReadersBuildTheSameValue(
      buf, DataStart(m), d, DataStart(m) + (r - m.nodeCount - SEPARATOR_SIZE), f, []);
    assert EntryList.Flatten(f) + [] == EntryList.Flatten(f);
    LayoutIsDecoded(buf, DataStart(m), d, DataStart(m) + (r - m.nodeCount - SEPARATOR_SIZE), f);
  }

  function RecordAsExtension(v: Option<Value>): Option<Value>
  {
    match v
    case Some(x) => Some(AsExtension(x))
    case None => None
  }

  /** For every address whose record, if there is one, is read alike, the extension answers what the pure
      Python reader answers: the same value in its own form and the same prefix length, or nothing with the
      same prefix length; and it raises where Python does. For 16 bytes in an IPv4 database both raise a
      ValueError, and where the walk ends on a node both raise InvalidDatabaseError. */
  lemma ReadersAnswerAlike(buf: bytes, m: Metadata, d: nat, lib: Library, packed: bytes)
    requires HoldsTree(buf, m) && m.ipVersion in {4, 6} && |packed| in {4, 16}
    requires var s := Walk(TreeOf(buf, m), 0, AddressBits(m, packed));
             TreeOf(buf, m).IsData(s.record) ==> ReadAlike(buf, m, d, lib, s.record)
    ensures var ipv6 := m.ipVersion == 6;
            var reply := ReplyTo(ipv6, packed, LibraryLookup(TreeOf(buf, m), lib, ipv6, packed));
            match GetWithPrefixLen(buf, m, d, packed)
            case Answer(v, n) => reply == Reply(RecordAsExtension(v), n)
            case Raised(e) => reply.Threw? && (!EndsOnData(TreeOf(buf, m), ipv6, packed) ==> reply.error == e)
            case TooDeep => reply.Threw? && EndsOnData(TreeOf(buf, m), ipv6, packed)
    ensures var ipv6 := m.ipVersion == 6;
            var reply := ReplyTo(ipv6, packed, LibraryLookup(TreeOf(buf, m), lib, ipv6, packed));
            if |packed| == 16 && m.ipVersion == 4 then
              GetWithPrefixLen(buf, m, d, packed) == Raised(BadValue) && reply == Threw(BadValue)
            else
              TreeOf(buf, m).IsNode(Walk(TreeOf(buf, m), 0, AddressBits(m, packed)).record) ==>
                GetWithPrefixLen(buf, m, d, packed) == Raised(InvalidDatabase) && reply == Threw(InvalidDatabase)
  {
    hide TreeOf, Walk, WalkBytes, ResolveDataPointer, ReadAlike, RecordReader, AsExtension, Rebuild;
    var ipv6, t, a := m.ipVersion == 6, TreeOf(buf, m), AddressBits(m, packed);
    if |packed| == 16 && !ipv6 {
      WrongFamilyIsRaised(buf, m, d, packed);
    } else {
      LookupByWalk(buf, m, d, packed);
      var s := Walk(t, 0, a);
      if t.IsData(s.record) {
        var n := ReportedPrefix(m, packed, s.depth);
        assert ReadAlike(buf, m, d, lib, s.record);
        RecordReaderIsResolve(buf, m, d, s.record, n);
        DataIsAnswered(buf, m, d, lib, ipv6, packed, s, n);
      }
    }
  }

  /** The lookup reaches a data record. */
  predicate EndsOnData(t: Tree, ipv6: bool, packed: bytes)
  {
    && (|packed| == 16 ==> ipv6)
    && t.IsData(Walk(t, 0, if |packed| == 4 && ipv6 then Zeros(IPV4_SKIP) + ToBits(packed) else ToBits(packed)).record)
  }

  lemma WrongFamilyIsRaised(buf: bytes, m: Metadata, d: nat, packed: bytes)
    requires HoldsTree(buf, m) && |packed| == 16 && m.ipVersion == 4
    ensures GetWithPrefixLen(buf, m, d, packed) == Raised(BadValue)
  {
  }

  lemma DataIsAnswered(
      buf: bytes, m: Metadata, d: nat, lib: Library, ipv6: bool, packed: bytes, s: Stop, n: nat)
    requires s.record > m.nodeCount && ReadAlike(buf, m, d, lib, s.record) && n == PrefixOf(ipv6, packed, s.depth)
    ensures var reply := ReplyTo(ipv6, packed, if lib(s.record).InvalidRecord? then LookupFailed(false)
                                               else EntryFound(s.depth, lib(s.record)));
            match AnswerFor(buf, m, d, Found(s.record, n))
            case Answer(v, n') => reply == Reply(RecordAsExtension(v), n')
            case _ => reply.Threw?
  {
    hide ResolveDataPointer, RecordReader, AsExtension, Rebuild;
    RecordReaderIsResolve(buf, m, d, s.record, n);
  }

  function ItemAsExtension(item: Item<Value>): Item<Value>
  {
    Item(item.network, AsExtension(item.record))
  }

  function RunAsExtension(run: Run<Item<Value>>): Run<Item<Value>>
  {
    Run(Iteration.Map((item: Item<Value>) => ItemAsExtension(item), run.items), run.failed)
  }

  /** Iterating, too: what the extension yields with its library is what it would yield with Python's records,
      in its own form. With `IteratorsAgreeIff` this is what Python yields. */
  lemma ExtensionIteratesAlike(buf: bytes, m: Metadata, d: nat, lib: Library)
    requires HoldsTree(buf, m) && Fits(TreeOf(buf, m), 0, Width(m.ipVersion == 6))
    requires forall l | l in AllVisits(TreeOf(buf, m), m.ipVersion == 6) :: ReadAlike(buf, m, d, lib, l.record)
    ensures var t, ipv6 := TreeOf(buf, m), m.ipVersion == 6;
            ExtensionIteration(t, ipv6, Fetch(lib)) ==
            RunAsExtension(ExtensionIteration(t, ipv6, RecordReader(buf, m, d)))
  {
    hide TreeOf, Visits, Fits, RecordReader, ReadAlike, RecordOf;
    var t, ipv6 := TreeOf(buf, m), m.ipVersion == 6;
    var vs := AllVisits(t, ipv6);
    forall l | l in vs ensures l.record > m.nodeCount {
      VisitsFit(t, ipv6, l);
    }
    VisitsAlike(buf, m, d, lib, ipv6, vs);
  }

  lemma {:induction false} VisitsAlike(buf: bytes, m: Metadata, d: nat, lib: Library, ipv6: bool, vs: seq<Leaf>)
    requires forall l | l in vs :: l.record > m.nodeCount && ReadAlike(buf, m, d, lib, l.record)
    ensures ExtensionRun(ipv6, Fetch(lib), vs) == RunAsExtension(ExtensionRun(ipv6, RecordReader(buf, m, d), vs))
  {
    hide RecordReader, AsExtension, PathNetwork, RunOf;
    if |vs| == 0 {
      NothingIsYielded(ipv6, Fetch(lib));
      NothingIsYielded(ipv6, RecordReader(buf, m, d));
    } else {
      var v, rest := vs[0], vs[1..];
      assert vs == [v] + rest && ReadAlike(buf, m, d, lib, v.record);
      RunOfStep(PathItemOf(ipv6, Fetch(lib)), v, rest);
      RunOfStep(PathItemOf(ipv6, RecordReader(buf, m, d)), v, rest);
      VisitsAlike(buf, m, d, lib, ipv6, rest);
      var tail := ExtensionRun(ipv6, RecordReader(buf, m, d), rest);
      if PathItem(ipv6, RecordReader(buf, m, d), v).Some? {
        var item := PathItem(ipv6, RecordReader(buf, m, d), v).value;
        assert ([item] + tail.items)[1..] == tail.items;
      }
    }
  }

  lemma NothingIsYielded(ipv6: bool, resolve: Resolve<Value>)
    ensures ExtensionRun(ipv6, resolve, []) == Run([], false)
  {
  }
}
