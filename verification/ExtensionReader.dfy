/** The other calls of the extension's reader that take the read lock, with every early return. */
module ExtensionReader {
  import opened Wrappers
  import opened Bits
  import opened SearchTree
  import opened Lookup
  import opened Networks
  import opened Values
  import opened EntryList
  import opened LockedReader
  import opened ExtensionIterator

  /** What `ip_converter` makes of the argument of a lookup. */
  datatype Argument = NotAnAddress(error: Error) | NoFamily | Packed(address: bytes)

  /** What `MMDB_lookup_sockaddr` and `MMDB_get_entry_data_list` hand back. */
  datatype LookupResult =
    | LookupFailed(wrongFamily: bool)
    | NothingFound(netmask: nat)
    | EntryFound(netmask: nat, entries: EntryResult)

  /** The record and the prefix length, or the exception. */
  datatype Reply = Reply(record: Option<Value>, prefixLen: nat) | Threw(error: Error)

  /** What `get_record` answers, having found the reader open. */
  function ReplyTo(ipv6: bool, address: bytes, lookup: LookupResult): Reply
  {
    match lookup
    case LookupFailed(wrongFamily) => Threw(if wrongFamily then BadValue else InvalidDatabase)
    case NothingFound(netmask) => Reply(None, PrefixOf(ipv6, address, netmask))
    case EntryFound(netmask, entries) =>
      match RebuildEntries(entries)
      case Failure(e) => Threw(e)
      case Success(v) => Reply(Some(v), PrefixOf(ipv6, address, netmask))
  }

  /** "If there is no IPv4 subtree, we return a prefix length of 0." */
  function PrefixOf(ipv6: bool, address: bytes, netmask: nat): nat
  {
    if |address| == 4 && ipv6 then ExtensionPrefix(netmask) else netmask
  }

  /** What libmaxminddb is taken to look up: the walk of the address from the root, an IPv4 address behind 96
      zero bits. */
  function LibraryLookup(t: Tree, lib: Library, ipv6: bool, address: bytes): LookupResult
  {
    if |address| == 16 && !ipv6 then LookupFailed(true)
    else
      var bits := ToBits(address);
      var s := Walk(t, 0, if |address| == 4 && ipv6 then Zeros(IPV4_SKIP) + bits else bits);
      if t.IsNode(s.record) then LookupFailed(false)
      else if t.IsEmpty(s.record) then NothingFound(s.depth)
      else if lib(s.record).InvalidRecord? then LookupFailed(false)
      else EntryFound(s.depth, lib(s.record))
  }

  /** `get_record`: it takes and gives back the lock once on every path behind the argument checks. */
  method GetRecord(reader: ReaderObject, ipv6: bool, argument: Argument, lookup: LookupResult, calm: bool)
    returns (r: Reply)
    requires reader.Outside()
    requires lookup.EntryFound? ==> StringKeys(lookup.entries)
    modifies reader
    ensures reader.Outside() && (old(reader.closed) ==> reader.closed)
    ensures if reader.events == old(reader.events) then r.Threw? && (calm ==> !argument.Packed?)
            else OneCall(old(reader.events), reader.events) && argument.Packed?
    ensures calm && argument.NotAnAddress? ==> r == Threw(argument.error)
    ensures calm && argument.NoFamily? ==> r == Threw(BadValue)
    ensures LockRefused(old(reader.events), reader.events) ==> r == Threw(LockFailure)
    ensures FoundClosed(old(reader.events), reader.events) ==> r == Threw(BadValue)
    ensures calm && Finished(old(reader.events), reader.events) ==> r == ReplyTo(ipv6, argument.address, lookup)
  {
    hide InUse, Finished, LockRefused, FoundClosed, Rebuild, TurnsSince;
    ghost var before := reader.events;
    NothingIsNotFinished(before);
    var hasState := Attempt(calm);
    if !hasState {
      return Threw(NoMemory);
    }
    if argument.NotAnAddress? {
      return Threw(argument.error);
    }
    if argument.NoFamily? {
      return Threw(BadValue);
    }
    var refused := reader.AcquireRead();
    if refused {
      RefusedIsNotFinished(before);
      return Threw(LockFailure);
    }
    var isNull := reader.HandleIsNull();
    if isNull {
      reader.ReleaseRead();
      ClosedIsSeen(before);
      return Threw(BadValue);
    }
    UseBegins(before);
    UseGoesOn(before, reader.events);
    reader.Touch();
    if lookup.LookupFailed? {
      UseEnds(before, reader.events);
      reader.ReleaseRead();
      return Threw(if lookup.wrongFamily then BadValue else InvalidDatabase);
    }
    var prefixLen := lookup.netmask;
    if |argument.address| == 4 {
      UseGoesOn(before, reader.events);
      reader.Touch();
      if ipv6 {
        prefixLen := if prefixLen >= 96 then prefixLen - 96 else 0;
      }
    }
    if lookup.NothingFound? {
      UseEnds(before, reader.events);
      reader.ReleaseRead();
      return Reply(None, prefixLen);
    }
    var record := ReleaseWithList(reader, lookup.entries, calm, before);
    FinishedIsOpen(before, reader.events);
    r := match record
         case Success(v) => Reply(Some(v), prefixLen)
         case Failure(e) => Threw(e);
  }

  /** A failed lookup is a ValueError for an address of the wrong family and an InvalidDatabaseError otherwise:
      the walk ends on a node or on a record that is none. */
  lemma FailedLookupIsThrown(t: Tree, lib: Library, ipv6: bool, address: bytes)
    ensures var reply := ReplyTo(ipv6, address, LibraryLookup(t, lib, ipv6, address));
            if |address| == 16 && !ipv6 then reply == Threw(BadValue)
            else
              var bits := if |address| == 4 && ipv6 then Zeros(96) + ToBits(address) else ToBits(address);
              var record := Walk(t, 0, bits).record;
              && (t.IsNode(record) ==> reply == Threw(InvalidDatabase))
              && (t.IsData(record) && !lib(record).Entries? ==> reply == Threw(InvalidDatabase))
              && (t.IsEmpty(record) ==> reply.Reply? && reply.record.None?)
  {
    hide Walk;
  }

  /** A found record is answered with the value that its list is rebuilt to, or the exception of that; a prefix
      length of an IPv4 address in an IPv6 database leaves out 96 bits. */
  lemma FoundRecordIsAnswered(ipv6: bool, address: bytes, netmask: nat, list: seq<EntryData>)
    ensures var n := if |address| == 4 && ipv6 then (if netmask < 96 then 0 else netmask - 96) else netmask;
            var r, reply := Rebuild(list, 0), ReplyTo(ipv6, address, EntryFound(netmask, Entries(list)));
            && (r.Built? ==> reply == Reply(Some(r.value), n))
            && (r.Failed? ==> reply == Threw(r.error))
            && ReplyTo(ipv6, address, NothingFound(netmask)) == Reply(None, n)
            && ReplyTo(ipv6, address, EntryFound(netmask, NoEntries)) == Threw(InvalidDatabase)
  {
    hide Rebuild;
  }

  /** The record of an entry list, or the exception. */
  function RebuildEntries(entries: EntryResult): Result<Value>
  {
    RecordOf((_: nat) => entries, 0)
  }

  /** The end of `get_record`: get the entry list, rebuild it, and release. */
  method ReleaseWithList(reader: ReaderObject, entries: EntryResult, calm: bool, ghost before: seq<Event>)
    returns (r: Result<Value>)
    requires reader.Held() && InUse(before, reader.events) && StringKeys(entries)
    modifies reader
    ensures reader.Outside() && reader.closed == old(reader.closed) && Finished(before, reader.events)
    ensures calm ==> r == RebuildEntries(entries)
  {
    hide InUse, Finished, LockRefused, FoundClosed, Rebuild, TurnsSince;
    UseGoesOn(before, reader.events);
    reader.Touch();
    UseEnds(before, reader.events);
    if !entries.Entries? {
      reader.ReleaseRead();
      return Failure(InvalidDatabase);
    }
    var cursor := new Cursor(entries.list);
    r := cursor.FromEntryDataList();
    var objectsBuilt := Attempt(calm);
    if !objectsBuilt {
      r := Failure(NoMemory);
    }
    reader.ReleaseRead();
  }

  /** `Reader_metadata`: the dictionary behind the metadata object. */
  method GetMetadata(reader: ReaderObject, entries: EntryResult, calm: bool) returns (r: Result<Value>)
    requires reader.Outside() && StringKeys(entries)
    modifies reader
    ensures reader.Outside() && (old(reader.closed) ==> reader.closed)
    ensures OneCall(old(reader.events), reader.events) || (!calm && reader.events == old(reader.events))
    ensures reader.events == old(reader.events) ==> r == Failure(NoMemory)
    ensures LockRefused(old(reader.events), reader.events) ==> r == Failure(LockFailure)
    ensures FoundClosed(old(reader.events), reader.events) ==> r == Failure(SystemFailure)
    ensures calm && Finished(old(reader.events), reader.events) ==>
              r == match RebuildEntries(entries)
                   case Success(v) => if v.Dict? then Success(v) else Failure(InvalidDatabase)
                   case Failure(_) => Failure(InvalidDatabase)
  {
    hide InUse, Finished, LockRefused, FoundClosed, Rebuild, TurnsSince;
    ghost var before := reader.events;
    NothingIsNotFinished(before);
    var hasState := Attempt(calm);
    if !hasState {
      return Failure(NoMemory);
    }
    var refused := reader.AcquireRead();
    if refused {
      RefusedIsNotFinished(before);
      return Failure(LockFailure);
    }
    var isNull := reader.HandleIsNull();
    if isNull {
      reader.ReleaseRead();
      ClosedIsSeen(before);
      return Failure(SystemFailure);
    }
    UseBegins(before);
    UseGoesOn(before, reader.events);
    reader.Touch();
    UseEnds(before, reader.events);
    if !entries.Entries? {
      reader.ReleaseRead();
      return Failure(InvalidDatabase);
    }
    var cursor := new Cursor(entries.list);
    var metadata := cursor.FromEntryDataList();
    var objectsBuilt := Attempt(calm);
    if metadata.Failure? || !objectsBuilt || !metadata.value.Dict? {
      reader.ReleaseRead();
      return Failure(InvalidDatabase);
    }
    reader.ReleaseRead();
    var argsBuilt := Attempt(calm);
    if !argsBuilt {
      return Failure(NoMemory);
    }
    var objectBuilt := Attempt(calm);
    r := if objectBuilt then metadata else Failure(NoMemory);
  }

  /** `Reader__enter__` */
  method Enter(reader: ReaderObject) returns (r: Result<ReaderObject>)
    requires reader.Outside()
    modifies reader
    ensures reader.Outside() && (old(reader.closed) ==> reader.closed)
    ensures OneCall(old(reader.events), reader.events)
    ensures LockRefused(old(reader.events), reader.events) ==> r == Failure(LockFailure)
    ensures FoundClosed(old(reader.events), reader.events) ==> r == Failure(BadValue)
    ensures Finished(old(reader.events), reader.events) ==> r == Success(reader)
  {
    hide InUse, Finished, LockRefused, FoundClosed, TurnsSince;
    ghost var before := reader.events;
    var refused := reader.AcquireRead();
    if refused {
      RefusedIsNotFinished(before);
      return Failure(LockFailure);
    }
    var isClosed := reader.IsClosed();
    if isClosed {
      reader.ReleaseRead();
      ClosedIsSeen(before);
      return Failure(BadValue);
    }
    UseBegins(before);
    UseEnds(before, reader.events);
    reader.ReleaseRead();
    r := Success(reader);
  }

  /** `Reader_iter`: a new iterator has the whole traversal before it. */
  method NewIterator(reader: ReaderObject, tree: Tree, lib: Library, ipv6: bool, calm: bool)
    returns (r: Result<ReaderIter>)
    requires reader.Outside() && |tree.nodes| > 0 && Fits(tree, 0, Width(ipv6))
    requires Listed(lib, Visits(tree, Ipv4Start(tree, ipv6), Width(ipv6), 0, []))
    modifies reader
    ensures reader.Outside() && (old(reader.closed) ==> reader.closed)
    ensures OneCall(old(reader.events), reader.events) || (!calm && reader.events == old(reader.events))
    ensures reader.events == old(reader.events) ==> r == Failure(NoMemory)
    ensures LockRefused(old(reader.events), reader.events) ==> r == Failure(LockFailure)
    ensures FoundClosed(old(reader.events), reader.events) ==> r == Failure(BadValue)
    ensures calm && Finished(old(reader.events), reader.events) ==> r.Success?
    ensures r.Failure? && Finished(old(reader.events), reader.events) ==> r.error == NoMemory
    ensures r.Success? ==>
              && fresh(r.value) && r.value.reader == reader && r.value.Valid()
              && r.value.tree == tree && r.value.lib == lib && r.value.ipv6 == ipv6
              && r.value.Remaining() == Visits(tree, Ipv4Start(tree, ipv6), Width(ipv6), 0, [])
  {
    hide InUse, Finished, LockRefused, FoundClosed, Fits, Visits, TurnsSince;
    ghost var before := reader.events;
    NothingIsNotFinished(before);
    var hasState := Attempt(calm);
    if !hasState {
      return Failure(NoMemory);
    }
    var refused := reader.AcquireRead();
    if refused {
      RefusedIsNotFinished(before);
      return Failure(LockFailure);
    }
    var isClosed := reader.IsClosed();
    if isClosed {
      reader.ReleaseRead();
      ClosedIsSeen(before);
      return Failure(BadValue);
    }
    UseBegins(before);
    UseEnds(before, reader.events);
    reader.ReleaseRead();
    var iteratorAllocated := Attempt(calm);
    if !iteratorAllocated {
      return Failure(NoMemory);
    }
    var recordAllocated := Attempt(calm);
    if !recordAllocated {
      return Failure(NoMemory);
    }
    var iter := new ReaderIter(tree, lib, ipv6, reader);
    r := Success(iter);
  }
}
