/** The extension on databases that lay out a trie: what libmaxminddb has to hand over, what lookups answer and
    what iterating yields. */
module ExtensionOnDatabase {
  import opened Wrappers
  import opened Bits
  import opened SearchTree
  import opened NodeLayout
  import opened Lookup
  import opened Networks
  import opened Values
  import opened DataFormat
  import opened DataEncoding
  import opened EntryList
  import opened Iteration
  import opened ExtensionIterator
  import opened ExtensionReader
  import opened Agreement
  import opened PythonReader
  import opened DatabaseLayout
  import opened IterationOnBytes
  import opened DatabaseIteration

  // ---------- what the library hands over ----------

  /** For every value that the trie has below record `r`, the library hands over its preorder list. */
  predicate Hands(t: Tree, lib: Library, r: nat, trie: Trie<Field>)
    decreases trie
  {
    match trie
    case Fork(z, o) => t.IsNode(r) && Hands(t, lib, t.Child(r, false), z) && Hands(t, lib, t.Child(r, true), o)
    case End(None) => true
    case End(Some(f)) => Strict(f) && lib(r) == Entries(EntryList.Flatten(f))
  }

  /** No value needs more than `d` nested pointers. */
  predicate AllNested(trie: Trie<Field>, d: nat)
  {
    match trie
    case Fork(z, o) => AllNested(z, d) && AllNested(o, d)
    case End(v) => Nested(v, d)
  }

  lemma {:induction false} HandsCovering(
      t: Tree, buf: bytes, base: nat, lib: Library, r: nat, trie: Trie<Field>, bits: seq<bool>)
    requires Represents(t, buf, base, r, trie) && Hands(t, lib, r, trie) && Height(trie) <= |bits|
    ensures Hands(t, lib, Walk(t, r, bits).record, End(Covering(trie, bits).0))
    decreases trie
  {
    hide Laid, Readable, Strict;
    match trie
    case End(_) =>
    case Fork(z, o) => HandsCovering(t, buf, base, lib, t.Child(r, bits[0]), trie.Side(bits[0]), bits[1..]);
  }

  /** A represented value that is handed over is read alike. */
  lemma HandedIsReadAlike(buf: bytes, m: Metadata, d: nat, lib: Library, r: nat, f: Field)
    requires HoldsTree(buf, m) && Represents(TreeOf(buf, m), buf, DataStart(m), r, End(Some(f)))
    requires Hands(TreeOf(buf, m), lib, r, End(Some(f))) && Nesting(f) <= d
    ensures ReadAlike(buf, m, d, lib, r) && StringKeys(lib(r))
  {
    hide Readable, Strict, Nesting, Laid, RecordReader, Rebuild, TreeOf;
    LayoutIsReadAlike(buf, m, d, lib, r, f);
    ListHasStringKeys(f);
  }

  lemma ListHasStringKeys(f: Field)
    requires Readable(f) && Strict(f)
    ensures Rebuild(EntryList.Flatten(f), 0).Built?
  {
    hide Readable, Strict, Rebuild;
    assert Present(EntryList.Flatten(f), 0, EntryList.Flatten(f));
    RebuildInvertsFlatten(EntryList.Flatten(f), 0, f);
  }

  // ---------- lookup ----------

  /** On any bytes that represent a trie, shared nodes, values and parts of values included, the extension
      answers for every address with the value of the covering end, in its own form, and with the prefix
      length of that end; and with nothing exactly when that end is empty. */
  lemma ExtensionFindsCovering(buf: bytes, m: Metadata, lib: Library, packed: bytes, trie: Trie<Field>)
    requires HoldsTree(buf, m) && Represents(TreeOf(buf, m), buf, DataStart(m), 0, trie)
    requires Hands(TreeOf(buf, m), lib, 0, trie)
    requires m.ipVersion in {4, 6} && |packed| in {4, 16} && (|packed| == 16 ==> m.ipVersion != 4)
    requires Height(trie) <= |AddressBits(m, packed)|
    ensures var (v, depth) := Covering(trie, AddressBits(m, packed));
            ReplyTo(m.ipVersion == 6, packed, LibraryLookup(TreeOf(buf, m), lib, m.ipVersion == 6, packed)) ==
            Reply(RecordAsExtension(MeaningOf(v)), ReportedPrefix(m, packed, depth))
  {
    hide TreeOf, Walk, Covering, Laid, Readable, Strict, Nesting, ReadAlike, GetWithPrefixLen, LibraryLookup, ReplyTo,
      Height, Meaning, AddressBits;
    var t, bits := TreeOf(buf, m), AddressBits(m, packed);
    var (v, depth) := Covering(trie, bits);
    var d := if v.Some? then Nesting(v.value) else 0;
    WalkEndsOnCovering(t, buf, DataStart(m), 0, trie, bits);
    HandsCovering(t, buf, DataStart(m), lib, 0, trie, bits);
    if v.Some? {
      HandedIsReadAlike(buf, m, d, lib, Walk(t, 0, bits).record, v.value);
    }
    LookupFindsCovering(buf, m, d, packed, trie);
    ReadersAnswerAlike(buf, m, d, lib, packed);
  }

  // ---------- iteration ----------

  /** Whatever is visited below a represented trie is a represented value that is handed over. */
  lemma {:induction false} VisitIsHanded(
      t: Tree, buf: bytes, base: nat, lib: Library, start: nat, w: nat, r: nat, path: seq<bool>, trie: Trie<Field>,
      d: nat, l: Leaf) returns (f: Field)
    requires Represents(t, buf, base, r, trie) && Hands(t, lib, r, trie) && AllNested(trie, d)
    requires |path| <= w && Fits(t, r, w - |path|) && l in Visits(t, start, w, r, path)
    ensures Represents(t, buf, base, l.record, End(Some(f))) && Hands(t, lib, l.record, End(Some(f)))
    ensures Nesting(f) <= d
    decreases trie
  {
    hide Laid, Readable, Strict, Nesting;
    match trie
    case End(v) => f := v.value;
    case Fork(z, o) =>
      var b := l in Visits(t, start, w, t.Child(r, true), path + [true]);
      f := VisitIsHanded(t, buf, base, lib, start, w, t.Child(r, b), path + [b], trie.Side(b), d, l);
  }

  /** So both readers read all visited records alike, and the lists have strings as keys. */
  lemma VisitsAreReadAlike(buf: bytes, m: Metadata, d: nat, lib: Library, trie: Trie<Field>)
    requires HoldsTree(buf, m) && Represents(TreeOf(buf, m), buf, DataStart(m), 0, trie)
    requires Hands(TreeOf(buf, m), lib, 0, trie) && AllNested(trie, d)
    requires Fits(TreeOf(buf, m), 0, Width(m.ipVersion == 6))
    ensures forall l | l in AllVisits(TreeOf(buf, m), m.ipVersion == 6) :: ReadAlike(buf, m, d, lib, l.record)
    ensures Listed(lib, AllVisits(TreeOf(buf, m), m.ipVersion == 6))
  {
    hide TreeOf, Represents, Hands, AllNested, Fits, Visits, ReadAlike, Nesting, StringKeys;
    var t, ipv6 := TreeOf(buf, m), m.ipVersion == 6;
    forall l | l in AllVisits(t, ipv6) ensures ReadAlike(buf, m, d, lib, l.record) && StringKeys(lib(l.record)) {
      var f := VisitIsHanded(
        t, buf, DataStart(m), lib, Ipv4Start(t, ipv6), Width(ipv6), 0, [], trie, d, l);
      HandedIsReadAlike(buf, m, d, lib, l.record, f);
    }
  }

  // ---------- written databases ----------

  /** The values that libmaxminddb can flatten: their dictionaries have strings as keys. */
  predicate TextKeys(v: Value)
  {
    match v
    case Arr(items) => forall x | x in items :: TextKeys(x)
    case Dict(entries) => forall e | e in entries :: TextEntry(e)
    case _ => true
  }

  predicate TextEntry(e: Entry) { e.key.Text? && TextKeys(e.value) }

  predicate AllTextKeys(trie: Trie<Value>)
  {
    match trie
    case End(None) => true
    case End(Some(v)) => TextKeys(v)
    case Fork(z, o) => AllTextKeys(z) && AllTextKeys(o)
  }

  lemma {:induction false} PlainIsStrict(v: Value)
    requires Encodable(v) && TextKeys(v)
    ensures Strict(Plain(v))
    decreases v, 1
  {
    hide IntKind, IntPayload, Pow2;
    match v
    case Int(n) => IntIsStrict(n);
    case Arr(items) => PlainItemsStrict(items);
    case Dict(entries) => PlainPairsStrict(entries);
    case _ =>
  }

  lemma IntIsStrict(n: int)
    requires -0x8000_0000 <= n < Pow2(128)
    ensures StrictScalar(IntKind(n), |IntPayload(n)|)
  {
    hide MinBytes, Pow2;
    if n < 0 {
    } else {
      MinBytesLength(n, 16);
    }
  }

  lemma {:induction false} PlainItemsStrict(items: seq<Value>)
    requires forall x | x in items :: Encodable(x) && TextKeys(x)
    ensures StrictItems(PlainItems(items))
    decreases items, 0
  {
    hide Encodable, TextKeys, Plain, Strict;
    if |items| > 0 {
      PlainIsStrict(items[0]);
      PlainItemsStrict(items[1..]);
    }
  }

  lemma {:induction false} PlainEntryStrict(e: Entry)
    requires EncodableEntry(e) && TextEntry(e)
    ensures Strict(PlainKey(e)) && Meaning(PlainKey(e)).Text? && Strict(PlainValue(e))
    decreases e, 0
  {
    hide Encodable, Plain, Strict, Meaning;
    PlainMeans(e.key);
    PlainIsStrict(e.key);
    PlainIsStrict(e.value);
  }

  lemma {:induction false} PlainPairsStrict(entries: seq<Entry>)
    requires forall e | e in entries :: EncodableEntry(e) && TextEntry(e)
    ensures StrictPairs(PlainPairs(entries))
    decreases entries, 0
  {
    hide EncodableEntry, TextEntry, PlainKey, PlainValue, Strict, Meaning;
    if |entries| > 0 {
      PlainEntryStrict(entries[0]);
      PlainPairsStrict(entries[1..]);
    }
  }

  /** What a library that reads a written database hands over: at the record of a value its preorder list. */
  function EntriesAt(trie: Trie<Value>, n: nat, off: nat, r: nat): EntryResult
    requires AllEncodable(trie) && AllTextKeys(trie)
  {
    match trie
    case End(None) => NoEntries
    case End(Some(v)) =>
      PlainIsStrict(v);
      if r == n + SEPARATOR_SIZE + off then Entries(EntryList.Flatten(Plain(v))) else NoEntries
    case Fork(z, o) =>
      var off' := off + |DataSection(z)|;
      if r < n + SEPARATOR_SIZE + off' then EntriesAt(z, n, off, r) else EntriesAt(o, n, off', r)
  }

  function WrittenLibrary(trie: Trie<Value>): Library
    requires AllEncodable(trie) && AllTextKeys(trie)
  {
    (r: nat) => EntriesAt(trie, NodeCount(trie), 0, r)
  }

  /** At the records of this part of the trie the library hands over the part's entries. */
  predicate Serves(lib: Library, trie: Trie<Value>, n: nat, off: nat)
    requires AllEncodable(trie)
  {
    match trie
    case End(None) => true
    case End(Some(v)) =>
      var r := n + SEPARATOR_SIZE + off;
      Strict(Plain(v)) && lib(r) == Entries(EntryList.Flatten(Plain(v)))
    case Fork(z, o) => Serves(lib, z, n, off) && Serves(lib, o, n, off + |DataSection(z)|)
  }

  /** A library that agrees with these entries on the data bytes of a part serves the part. */
  lemma {:induction false} EntriesServe(lib: Library, trie: Trie<Value>, n: nat, off: nat)
    requires AllEncodable(trie) && AllTextKeys(trie)
    requires forall r: nat | n + SEPARATOR_SIZE + off <= r < n + SEPARATOR_SIZE + off + |DataSection(trie)| ::
               lib(r) == EntriesAt(trie, n, off, r)
    ensures Serves(lib, trie, n, off)
    decreases trie
  {
    hide Encode, Encodable, Plain, Strict, TextKeys;
    match trie
    case End(None) =>
    case End(Some(v)) =>
      EncodeIsNotEmpty(v);
      PlainIsStrict(v);
    case Fork(z, o) =>
      ForkServes(lib, z, o, n, off);
      EntriesServe(lib, z, n, off);
      EntriesServe(lib, o, n, off + |DataSection(z)|);
  }

  lemma ForkServes(lib: Library, z: Trie<Value>, o: Trie<Value>, n: nat, off: nat)
    requires AllEncodable(z) && AllEncodable(o) && AllTextKeys(z) && AllTextKeys(o)
    requires AllEncodable(Fork(z, o)) && AllTextKeys(Fork(z, o))
    requires forall r: nat | n + SEPARATOR_SIZE + off <= r < n + SEPARATOR_SIZE + off + |DataSection(Fork(z, o))| ::
               lib(r) == EntriesAt(Fork(z, o), n, off, r)
    ensures forall r: nat | n + SEPARATOR_SIZE + off <= r < n + SEPARATOR_SIZE + off + |DataSection(z)| ::
              lib(r) == EntriesAt(z, n, off, r)
    ensures var off' := off + |DataSection(z)|;
            forall r: nat | n + SEPARATOR_SIZE + off' <= r < n + SEPARATOR_SIZE + off' + |DataSection(o)| ::
              lib(r) == EntriesAt(o, n, off', r)
  {
    hide AllEncodable, AllTextKeys, DataSection;
    ForkData(z, o);
  }

  /** Such a library exists for every written database. */
  lemma WrittenLibraryServes(trie: Trie<Value>)
    requires AllEncodable(trie) && AllTextKeys(trie)
    ensures Serves(WrittenLibrary(trie), trie, NodeCount(trie), 0)
  {
    hide AllEncodable, AllTextKeys, Serves, EntriesAt, DataSection;
    EntriesServe(WrittenLibrary(trie), trie, NodeCount(trie), 0);
  }

  /** What serves a written trie hands over its values. */
  lemma {:induction false} ServedIsHanded(trie: Trie<Value>, t: Tree, lib: Library, k: nat, off: nat)
    requires AllEncodable(trie) && k + NodeCount(trie) <= |t.nodes|
    requires t.nodes[k..k + NodeCount(trie)] == NodesFor(trie, |t.nodes|, k, off)
    requires Serves(lib, trie, |t.nodes|, off)
    ensures Hands(t, lib, RecordFor(trie, |t.nodes|, k, off), PlainTrie(trie))
    decreases trie
  {
    hide Encode, Encodable, Plain, Strict, NodesFor, DataSection, NodeCount;
    match trie
    case End(_) =>
    case Fork(z, o) =>
      ForkInTree(z, o, t, k, off);
      ServedIsHanded(z, t, lib, k + 1, off);
      ServedIsHanded(o, t, lib, k + 1 + NodeCount(z), off + |DataSection(z)|);
  }

  lemma {:induction false} PlainTrieIsFlat(trie: Trie<Value>)
    requires AllEncodable(trie)
    ensures AllNested(PlainTrie(trie), 0)
    decreases trie
  {
    hide Encodable, Plain, Nesting;
    match trie
    case End(None) =>
    case End(Some(v)) => PlainMeans(v);
    case Fork(z, o) =>
      PlainTrieIsFlat(z);
      PlainTrieIsFlat(o);
  }

  /** A written database represents its trie and the library hands over its values. */
  lemma WrittenIsHanded(trie: Trie<Value>, m: Metadata, rest: bytes, lib: Library)
    requires AllEncodable(trie) && (trie.Fork? || trie == End(None))
    requires m.nodeCount == NodeCount(trie)
    requires TreeInRange(m, NodesFor(trie, NodeCount(trie), 0, 0))
    requires Serves(lib, trie, NodeCount(trie), 0)
    ensures var buf := Database(trie, m, rest);
            && HoldsTree(buf, m) && TreeOf(buf, m) == Tree(NodesFor(trie, NodeCount(trie), 0, 0))
            && Represents(TreeOf(buf, m), buf, DataStart(m), 0, PlainTrie(trie))
            && Hands(TreeOf(buf, m), lib, 0, PlainTrie(trie))
  {
    hide Database, TreeOf, Represents, Hands, NodesFor, AllEncodable, Serves, PlainTrie;
    DatabaseRepresents(trie, m, rest);
    var nodes := NodesFor(trie, NodeCount(trie), 0, 0);
    assert nodes[0..0 + NodeCount(trie)] == nodes;
    RootIsZero(trie, NodeCount(trie));
    ServedIsHanded(trie, Tree(nodes), lib, 0, 0);
  }

  /** End to end for the extension: on the bytes of any trie of values written at 24, 28 or 32 bits, with a library
      that hands over the list of each written value, the answer for any address is the value of the end that
      covers it, in the extension's form, with the depth of that end as prefix length (96 less for an IPv4
      address in an IPv6 database), and nothing exactly when that end is empty. */
  lemma ExtensionEndToEnd(trie: Trie<Value>, m: Metadata, rest: bytes, lib: Library, packed: bytes)
    requires AllEncodable(trie) && (trie.Fork? || trie == End(None)) && Serves(lib, trie, NodeCount(trie), 0)
    requires m.KnownRecordSize() && m.nodeCount == NodeCount(trie)
    requires NodeCount(trie) + SEPARATOR_SIZE + |DataSection(trie)| <= Pow2(m.recordSize)
    requires m.ipVersion in {4, 6} && |packed| in {4, 16} && (|packed| == 16 ==> m.ipVersion != 4)
    requires Height(trie) <= |AddressBits(m, packed)|
    ensures TreeInRange(m, NodesFor(trie, NodeCount(trie), 0, 0)) && HoldsTree(Database(trie, m, rest), m)
    ensures var (v, depth) := Covering(trie, AddressBits(m, packed));
            var t, ipv6 := TreeOf(Database(trie, m, rest), m), m.ipVersion == 6;
            ReplyTo(ipv6, packed, LibraryLookup(t, lib, ipv6, packed)) ==
            Reply(RecordAsExtension(v), ReportedPrefix(m, packed, depth))
  {
    hide ReplyTo, LibraryLookup, Represents, Hands, Database, TreeOf, NodesFor, Serves, AllEncodable, Height, Covering,
      PlainTrie, AddressBits, Pow2;
    var n := NodeCount(trie);
    NodesInRange(trie, n, 0, 0, n + SEPARATOR_SIZE + |DataSection(trie)|, m.recordSize);
    WrittenIsHanded(trie, m, rest, lib);
    LayoutCovers(trie, AddressBits(m, packed));
    ExtensionFindsCovering(Database(trie, m, rest), m, lib, packed, PlainTrie(trie));
  }

  /** What the extension's iterator makes of an end of a trie: it builds networks at 2^32, too. */
  function ExtensionEndItem(ipv6: bool, e: TrieEnd): Option<Item<Value>>
  {
    ItemOf(PathNetwork(ipv6, e.path), Some(AsExtension(e.value)))
  }

  function ExtensionEndItemOf(ipv6: bool): TrieEnd -> Option<Item<Value>>
  {
    (e: TrieEnd) => ExtensionEndItem(ipv6, e)
  }

  /** The extension skips nothing in a written tree, either. */
  lemma SkipStartIsNoAlias(trie: Trie<Value>, t: Tree, ipv6: bool, j: nat)
    requires AllEncodable(trie) && |t.nodes| == NodeCount(trie) && j == if ipv6 then IPV4_SKIP else 0
    requires RecordFor(trie, |t.nodes|, 0, 0) == 0
    ensures NoAlias(trie, t, 0, 0, [], SkipStart(t, Ipv4Start(t, ipv6)), j)
  {
    hide AllEncodable, DataSection, Walk;
    StartIsAhead(t, ipv6);
  }

  lemma MatchedExtensionItems(
      buf: bytes, m: Metadata, d: nat, lib: Library, ipv6: bool, ls: seq<Leaf>, es: seq<TrieEnd>)
    requires Matches(buf, m, d, ls, es) && forall l | l in ls :: ReadAlike(buf, m, d, lib, l.record)
    ensures Iteration.Map(PathItemOf(ipv6, Fetch(lib)), ls) == Iteration.Map(ExtensionEndItemOf(ipv6), es)
  {
    hide RecordReader, PathNetwork, RecordOf, AsExtension;
    var xs, ys := Iteration.Map(PathItemOf(ipv6, Fetch(lib)), ls), Iteration.Map(ExtensionEndItemOf(ipv6), es);
    forall i | 0 <= i < |ls| ensures xs[i] == ys[i] {
      assert ls[i] in ls && ls[i].path == es[i].path;
    }
    assert xs == ys;
  }

  /** Iterating over the bytes of a written database with the extension yields exactly the ends of the trie that
      hold values, in address order, each with its network and its value in the extension's form, up to the
      first IPv4 end of an IPv6 tree that stands too high. */
  lemma ExtensionIterationGivesTrieBack(trie: Trie<Value>, m: Metadata, rest: bytes, lib: Library)
    requires AllEncodable(trie) && (trie.Fork? || trie == End(None)) && Serves(lib, trie, NodeCount(trie), 0)
    requires m.KnownRecordSize() && m.nodeCount == NodeCount(trie)
    requires NodeCount(trie) + SEPARATOR_SIZE + |DataSection(trie)| <= Pow2(m.recordSize)
    requires Height(trie) <= Width(m.ipVersion == 6)
    ensures TreeInRange(m, NodesFor(trie, NodeCount(trie), 0, 0))
    ensures var buf, ipv6 := Database(trie, m, rest), m.ipVersion == 6;
            && HoldsTree(buf, m) && Fits(TreeOf(buf, m), 0, Width(ipv6))
            && Listed(lib, AllVisits(TreeOf(buf, m), ipv6))
            && ExtensionIteration(TreeOf(buf, m), ipv6, Fetch(lib)) ==
               RunOf(Iteration.Map(ExtensionEndItemOf(ipv6), Ends(trie, [])))
  {
    hide Database, TreeOf, NodesFor, DataSection, Encode, Encodable, RecordReader, Leaves, Visits, Fits, Owns, NoAlias,
      Walk, Height, Pow2, RunOf, Ends, AllEncodable, At, Serves, Represents, Hands, AllNested, PlainTrie, ReadAlike,
      Listed, Matches;
    var n, ipv6 := NodeCount(trie), m.ipVersion == 6;
    NodesInRange(trie, n, 0, 0, n + SEPARATOR_SIZE + |DataSection(trie)|, m.recordSize);
    var buf := Database(trie, m, rest);
    DatabaseHolds(trie, m, rest);
    WrittenIsHanded(trie, m, rest, lib);
    var t := TreeOf(buf, m);
    assert t.nodes[0..0 + NodeCount(trie)] == t.nodes;
    RootIsZero(trie, n);
    WrittenFits(trie, t, 0, 0, Width(ipv6));
    PlainTrieIsFlat(trie);
    VisitsAreReadAlike(buf, m, 0, lib, PlainTrie(trie));
    var j := if ipv6 then IPV4_SKIP else 0;
    SkipStartIsNoAlias(trie, t, ipv6, j);
    WrittenLeaves(trie, t, buf, m, 0, 0, 0, [], SkipStart(t, Ipv4Start(t, ipv6)), j, Width(ipv6));
    VisitsFromSkipStart(t, ipv6);
    MatchedExtensionItems(buf, m, 0, lib, ipv6, AllVisits(t, ipv6), Ends(trie, []));
  }
}
