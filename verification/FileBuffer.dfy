/** `maxminddb/file.py`: reads through one shared file position, and the reverse search. */
module FileBuffer {
  import opened Wrappers
  import opened Bits
  import opened ByteStrings

  // ---------- reverse search ----------

  predicate OccursAt(hay: bytes, needle: bytes, i: int)
  {
    0 <= i && i + |needle| <= |hay| && hay[i..i + |needle|] == needle
  }

  /** The highest occurrence in [lo, hi), as `bytes.rfind` looks for it. */
  function RFindIn(hay: bytes, needle: bytes, lo: nat, hi: nat): (r: Option<nat>)
    ensures r.Some? ==> lo <= r.value < hi && OccursAt(hay, needle, r.value)
    ensures forall i | lo <= i < hi && OccursAt(hay, needle, i) :: r.Some? && i <= r.value
    decreases hi
  {
    if hi <= lo then None
    else if OccursAt(hay, needle, hi - 1) then Some(hi - 1)
    else RFindIn(hay, needle, lo, hi - 1)
  }

  /** `hay.rfind(needle, start)` on a plain byte string. */
  function PlainRFind(hay: bytes, needle: bytes, start: nat): Option<nat>
  {
    RFindIn(hay, needle, start, |hay| + 1)
  }

  /** `_read(count, start)`. Of a negative count `os.pread` makes an error; `read` takes -1 for all the rest
      and makes an error of what is below. */
  function ReadAt(file: bytes, pread: bool, count: int, start: nat): Result<bytes>
  {
    if count >= 0 then Success(Slice(file, start, start + count))
    else if pread then Failure(SystemFailure)
    else if count == -1 then Success(if start < |file| then file[start..] else [])
    else Failure(BadValue)
  }

  /** `FileBuffer.rfind`: it reads one byte less than there is behind `start`. */
  function RFind(file: bytes, pread: bool, needle: bytes, start: nat): Result<Option<nat>>
  {
    match ReadAt(file, pread, |file| - start - 1, start)
    case Failure(e) => Failure(e)
    case Success(part) =>
      match RFindIn(part, needle, 0, |part| + 1)
      case None => Success(None)
      case Some(pos) => Success(Some(start + pos))
  }

  lemma OccursInPart(file: bytes, needle: bytes, start: nat, i: nat)
    requires start < |file|
    ensures OccursAt(file[start..|file| - 1], needle, i) <==>
            OccursAt(file, needle, start + i) && start + i + |needle| < |file|
  {
    var part, n := file[start..|file| - 1], |needle|;
    if i + n <= |part| {
      var x, y := part[i..i + n], file[start + i..start + i + n];
      assert forall k | 0 <= k < n :: x[k] == file[start + i + k] == y[k];
      assert x == y;
    }
  }

  /** The needle, which may be empty, ends at the last byte of the file. */
  predicate EndsWith(file: bytes, needle: bytes, start: nat)
  {
    start <= |file| - |needle| && OccursAt(file, needle, |file| - |needle|)
  }

  lemma RFindBeforeEnd(file: bytes, pread: bool, needle: bytes, start: nat)
    requires start < |file|
    ensures RFind(file, pread, needle, start) == Success(PlainRFind(file, needle, start)) <==>
            !EndsWith(file, needle, start)
  {
    var part, plain, last := file[start..|file| - 1], PlainRFind(file, needle, start), |file| - |needle|;
    var found := RFindIn(part, needle, 0, |part| + 1);
    if found.Some? {
      OccursInPart(file, needle, start, found.value);
    }
    if plain.Some? && plain.value != last {
      OccursInPart(file, needle, start, plain.value - start);
    }
    if start <= last && OccursAt(file, needle, last) {
      assert plain.Some? && last <= plain.value && OccursAt(file, needle, plain.value);
      assert found.Some? ==> found.value + |needle| <= |part|;
    }
  }

  /** The search of a file buffer is the plain one if and only if it starts before the end of the file and
      the needle does not end at the last byte - or it starts at the end and goes through the fallback. */
  lemma RFindIsPlainIff(file: bytes, pread: bool, needle: bytes, start: nat)
    ensures RFind(file, pread, needle, start) == Success(PlainRFind(file, needle, start)) <==>
            if start < |file| then !EndsWith(file, needle, start) else start == |file| && !pread
  {
    if start < |file| {
      RFindBeforeEnd(file, pread, needle, start);
    } else if start == |file| && !pread {
      var part: bytes := [];
      var found, plain := RFindIn(part, needle, 0, |part| + 1), PlainRFind(file, needle, start);
      assert |needle| == 0 ==> OccursAt(part, needle, 0) && OccursAt(file, needle, start);
    }
  }

  /** A file that is nothing but the needle: the plain search finds it, the file buffer does not. */
  lemma RFindMissesTheEnd(pread: bool)
    ensures PlainRFind(METADATA_MARKER, METADATA_MARKER, 0) == Some(0)
    ensures RFind(METADATA_MARKER, pread, METADATA_MARKER, 0) == Success(None)
  {
    var file := METADATA_MARKER;
    assert file[0..|file|] == file && OccursAt(file, file, 0);
    var plain, part := PlainRFind(file, file, 0), Slice(file, 0, |file| - 1);
    assert plain.Some? && 0 <= plain.value && plain.value + |file| <= |file|;
    assert RFindIn(part, file, 0, |part| + 1).None?;
  }

  /** A search from the end of the file on: `os.pread` makes an error of the negative count; without it the rest of
      the file is searched, which is empty, and further behind the count is an error. */
  lemma SearchBehindEnd(file: bytes, needle: bytes, start: nat)
    requires start >= |file|
    ensures RFind(file, true, needle, start) == Failure(SystemFailure)
    ensures RFind(file, false, needle, start) ==
            if start > |file| then Failure(BadValue) else Success(if needle == [] then Some(start) else None)
  {
    var part: bytes := [];
    var found := RFindIn(part, needle, 0, |part| + 1);
    assert needle == [] ==> OccursAt(part, needle, 0);
  }

  /** "\xab\xcd\xefMaxMind.com" */
  const METADATA_MARKER: bytes := [0xab, 0xcd, 0xef, 0x4d, 0x61, 0x78, 0x4d, 0x69, 0x6e, 0x64, 0x2e, 0x63, 0x6f, 0x6d]

  const SEARCH_WINDOW := 128 * 1024

  function WindowStart(size: nat): nat
  {
    if size < SEARCH_WINDOW then 0 else size - SEARCH_WINDOW
  }

  function Ascii(s: string): bytes
    requires forall i | 0 <= i < |s| :: s[i] < 128 as char
  {
    seq(|s|, i requires 0 <= i < |s| => s[i] as byte)
  }

  /** The marker is three bytes and a name, and the search starts 128 KiB before the end of the file. */
  lemma MarkerAndWindow(size: nat)
    ensures METADATA_MARKER == [0xab, 0xcd, 0xef] + Ascii("MaxMind.com")
    ensures WindowStart(size) == if size <= 131072 then 0 else size - 131072
  {
    var name := Ascii("MaxMind.com");
    assert name == [0x4d, 0x61, 0x78, 0x4d, 0x69, 0x6e, 0x64, 0x2e, 0x63, 0x6f, 0x6d];
  }

  /** Both kinds of buffer find the metadata of a database: the marker is the last one in the file, its
      metadata is not empty and the two lie in the last 128 KiB. */
  lemma MetadataIsFound(sections: bytes, metadata: bytes, pread: bool)
    requires 0 < |metadata| <= 131058
    requires forall i | i > |sections| :: !OccursAt(sections + METADATA_MARKER + metadata, METADATA_MARKER, i)
    ensures var file := sections + METADATA_MARKER + metadata;
            var start := if |file| < 131072 then 0 else |file| - 131072;
            && PlainRFind(file, METADATA_MARKER, start) == Some(|sections|)
            && RFind(file, pread, METADATA_MARKER, start) == Success(Some(|sections|))
  {
    var file := sections + METADATA_MARKER + metadata;
    var start := WindowStart(|file|);
    assert OccursAt(file, METADATA_MARKER, |sections|);
    var r := PlainRFind(file, METADATA_MARKER, start);
    assert r.Some? && |sections| <= r.value;
    assert !OccursAt(file, METADATA_MARKER, |file| - |METADATA_MARKER|);
    RFindIsPlainIff(file, pread, METADATA_MARKER, start);
  }

  // ---------- the locked seek and read ----------

  /** Where a thread or a forked process stands in `_read`. */
  datatype Phase =
    | Idle
    | Waiting(off: nat, count: nat)
    | Locked(off: nat, count: nat)
    | Sought(off: nat, count: nat)
    | Returning

  datatype Read = Read(p: nat, off: nat, count: nat, result: bytes)

  /** The lock, the file position that all share, everyone's phase, and the reads done so far. */
  datatype State = State(holder: Option<nat>, pos: nat, phases: map<nat, Phase>, log: seq<Read>)

  datatype Action =
    | Call(p: nat, off: nat, count: nat)
    | Acquire(p: nat)
    | Seek(p: nat)
    | DoRead(p: nat)
    | Release(p: nat)

  function PhaseOf(s: State, p: nat): Phase
  {
    if p in s.phases then s.phases[p] else Idle
  }

  /** One step of process `a.p`; nothing when it cannot be taken now. */
  function Apply(file: bytes, s: State, a: Action): Option<State>
  {
    var ph := PhaseOf(s, a.p);
    match a
    case Call(p, off, count) =>
      if ph.Idle? then Some(s.(phases := s.phases[p := Waiting(off, count)])) else None
    case Acquire(p) =>
      if ph.Waiting? && s.holder.None?
      then Some(s.(holder := Some(p), phases := s.phases[p := Locked(ph.off, ph.count)])) else None
    case Seek(p) =>
      if ph.Locked? then Some(s.(pos := ph.off, phases := s.phases[p := Sought(ph.off, ph.count)])) else None
    case DoRead(p) =>
      if ph.Sought? then
        var result := Slice(file, s.pos, s.pos + ph.count);
        Some(s.(pos := s.pos + |result|, phases := s.phases[p := Returning],
                log := s.log + [Read(p, ph.off, ph.count, result)]))
      else None
    case Release(p) =>
      if ph.Returning? then Some(s.(holder := None, phases := s.phases[p := Idle])) else None
  }

  /** The state after a whole interleaving. */
  function Execute(file: bytes, s: State, run: seq<Action>): Option<State>
  {
    if |run| == 0 then Some(s)
    else
      match Execute(file, s, run[..|run| - 1])
      case None => None
      case Some(s') => Apply(file, s', run[|run| - 1])
  }

  function Initial(pos: nat): State
  {
    State(None, pos, map[], [])
  }

  predicate Inside(ph: Phase) { ph.Locked? || ph.Sought? || ph.Returning? }

  ghost predicate Invariant(file: bytes, s: State)
  {
    && (forall p: nat :: Inside(PhaseOf(s, p)) <==> s.holder == Some(p))
    && (forall p: nat :: PhaseOf(s, p).Sought? ==> s.pos == PhaseOf(s, p).off)
    && (forall r | r in s.log :: r.result == Slice(file, r.off, r.off + r.count))
  }

  lemma StepKeepsInvariant(file: bytes, s: State, a: Action)
    requires Invariant(file, s) && Apply(file, s, a).Some?
    ensures Invariant(file, Apply(file, s, a).value)
  {
    var s', ph := Apply(file, s, a).value, PhaseOf(s, a.p);
    assert Inside(ph) <==> s.holder == Some(a.p);
    forall p: nat | p != a.p ensures PhaseOf(s', p) == PhaseOf(s, p) {
    }
    forall p: nat ensures Inside(PhaseOf(s', p)) <==> s'.holder == Some(p) {
      if p != a.p {
        assert Inside(PhaseOf(s, p)) <==> s.holder == Some(p);
      }
    }
    forall p: nat | PhaseOf(s', p).Sought? ensures s'.pos == PhaseOf(s', p).off {
      if p != a.p {
        assert Inside(PhaseOf(s, p));
      }
    }
  }

  /** What a process asked for, call by call. */
  datatype Request = Request(off: nat, count: nat)

  function Requests(run: seq<Action>, p: nat): seq<Request>
  {
    if |run| == 0 then []
    else
      var a := run[|run| - 1];
      Requests(run[..|run| - 1], p) + if a.Call? && a.p == p then [Request(a.off, a.count)] else []
  }

  /** What a process has read. */
  function Answered(log: seq<Read>, p: nat): seq<Request>
  {
    if |log| == 0 then []
    else
      var r := log[|log| - 1];
      Answered(log[..|log| - 1], p) + if r.p == p then [Request(r.off, r.count)] else []
  }

  function Pending(ph: Phase): seq<Request>
  {
    match ph
    case Waiting(off, count) => [Request(off, count)]
    case Locked(off, count) => [Request(off, count)]
    case Sought(off, count) => [Request(off, count)]
    case _ => []
  }

  /** Over every interleaving of any number of threads and processes, every read returns the bytes at its own
      offset, as if the file were a plain byte string; and what a process has read is what it asked for, in its
      order, but for the last request while that is on its way. */
  lemma {:induction false} EveryReadIsItsOwnSlice(file: bytes, pos: nat, run: seq<Action>)
    requires Execute(file, Initial(pos), run).Some?
    ensures Invariant(file, Execute(file, Initial(pos), run).value)
    ensures forall r | r in Execute(file, Initial(pos), run).value.log ::
              r.result == Slice(file, r.off, r.off + r.count)
    ensures var s := Execute(file, Initial(pos), run).value;
            forall p: nat :: Answered(s.log, p) + Pending(PhaseOf(s, p)) == Requests(run, p)
    decreases |run|
  {
    if |run| > 0 {
      var before := run[..|run| - 1];
      var s := Execute(file, Initial(pos), before).value;
      EveryReadIsItsOwnSlice(file, pos, before);
      StepKeepsInvariant(file, s, run[|run| - 1]);
      forall p: nat {
        StepAnswers(file, s, run, p);
      }
    }
  }

  lemma {:induction false} StepAnswers(file: bytes, s: State, run: seq<Action>, p: nat)
    requires |run| > 0 && Apply(file, s, run[|run| - 1]).Some?
    requires Answered(s.log, p) + Pending(PhaseOf(s, p)) == Requests(run[..|run| - 1], p)
    ensures var s' := Apply(file, s, run[|run| - 1]).value;
            Answered(s'.log, p) + Pending(PhaseOf(s', p)) == Requests(run, p)
  {
    hide Slice, Answered, Requests;
    var a := run[|run| - 1];
    var s' := Apply(file, s, a).value;
    LastRequest(run, p);
    if a.DoRead? {
      OneMoreRead(s.log, s'.log[|s.log|], p);
    }
  }

  lemma {:induction false} LastRequest(run: seq<Action>, p: nat)
    requires |run| > 0
    ensures var a := run[|run| - 1];
            Requests(run, p) ==
            Requests(run[..|run| - 1], p) + if a.Call? && a.p == p then [Request(a.off, a.count)] else []
  {
  }

  lemma {:induction false} OneMoreRead(log: seq<Read>, r: Read, p: nat)
    ensures Answered(log + [r], p) == Answered(log, p) + if r.p == p then [Request(r.off, r.count)] else []
  {
    assert (log + [r])[..|log|] == log;
  }

  /** While a process is inside the lock, no step of another one moves the file position. */
  lemma OthersKeepPosition(file: bytes, s: State, a: Action, p: nat)
    requires Invariant(file, s) && Apply(file, s, a).Some? && Inside(PhaseOf(s, p)) && a.p != p
    ensures Apply(file, s, a).value.pos == s.pos && PhaseOf(Apply(file, s, a).value, p) == PhaseOf(s, p)
  {
    assert s.holder == Some(p);
    assert Inside(PhaseOf(s, a.p)) <==> s.holder == Some(a.p);
  }

  // ---------- the buffer object ----------

  class SharedFile {
    const contents: bytes
    const pread: bool       // `os.pread` is there
    var pos: nat            // of the file object, shared with other threads and processes
    var locked: bool        // by this one

    constructor (contents: bytes, pread: bool)
      ensures this.contents == contents && this.pread == pread && !locked
    {
      this.contents, this.pread, pos, locked := contents, pread, 0, false;
    }

    /** Until the lock is taken the others may leave the position anywhere; then they keep it
        (`OthersKeepPosition`). */
    method Acquire()
      requires !locked
      modifies this
      ensures locked
    {
      pos := *;
      locked := true;
    }

    method Seek(offset: nat)
      requires locked
      modifies this`pos
      ensures pos == offset
    {
      pos := offset;
    }

    /** `read` from wherever the position is. */
    method ReadHere(count: nat) returns (r: bytes)
      requires locked
      modifies this`pos
      ensures r == Slice(contents, old(pos), old(pos) + count) && pos == old(pos) + |r|
    {
      r := Slice(contents, pos, pos + count);
      pos := pos + |r|;
    }

    method Release()
      requires locked
      modifies this`locked
      ensures !locked
    {
      locked := false;
    }

    /** The fallback `_read`: whatever the others did to the position before, the bytes are those at
        `offset`, and the lock is free again. */
    method ReadLocked(count: nat, offset: nat) returns (r: bytes)
      requires !locked
      modifies this
      ensures !locked && r == Slice(contents, offset, offset + count)
    {
      Acquire();
      Seek(offset);
      r := ReadHere(count);
      Release();
    }

    method Read(count: nat, offset: nat) returns (r: bytes)
      requires !locked
      modifies this
      ensures !locked && r == Slice(contents, offset, offset + count)
    {
      if pread {
        r := Slice(contents, offset, offset + count);
      } else {
        r := ReadLocked(count, offset);
      }
    }

    /** `buffer[start:stop]` is the slice of the whole file. */
    method GetSlice(start: nat, stop: nat) returns (r: bytes)
      requires !locked && start <= stop
      modifies this
      ensures !locked && r == Slice(contents, start, stop)
    {
      r := Read(stop - start, start);
    }

    /** `buffer[index]` is the byte there, or an error behind the end. */
    method GetByte(index: nat) returns (r: Result<byte>)
      requires !locked
      modifies this
      ensures !locked && r == if index < |contents| then Success(contents[index]) else Failure(OutOfRange)
    {
      var one := Read(1, index);
      r := if |one| == 0 then Failure(OutOfRange) else Success(one[0]);
    }
  }
}
