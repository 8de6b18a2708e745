/** The extension's reader object as one thread sees it: its read/write lock and what the lock protects. Every
    use of the lock and of the handle is recorded, so that a call can be shown to have used both properly. */
module LockedReader {

  datatype Event =
    | Refused            // taking the read lock failed
    | Acquired
    | Looked(open: bool) // the test of the handle or of the closed flag
    | Touched            // a use of the handle
    | Turned             // a turn of the iterator's loop: a pending record is taken
    | Released
    | RefusedWrite
    | AcquiredWrite
    | ClosedHandle       // MMDB_close
    | NulledHandle
    | SetClosed
    | ReleasedWrite

  /** From taking the read lock on: the reader was found open and nothing but uses of the handle followed. */
  predicate InUse(before: seq<Event>, now: seq<Event>)
  {
    && |before| + 2 <= |now| && now[..|before|] == before
    && now[|before|] == Acquired && now[|before| + 1] == Looked(true)
    && forall i | |before| + 2 <= i < |now| :: now[i] == Touched || now[i] == Turned
  }

  /** A whole call: the lock was refused and nothing else done; or it was taken once, the reader looked at,
      the handle used only if the reader was open, and the lock given back once, at the end. */
  predicate OneCall(before: seq<Event>, now: seq<Event>)
  {
    LockRefused(before, now) || FoundClosed(before, now) || Finished(before, now)
  }

  predicate LockRefused(before: seq<Event>, now: seq<Event>) { now == before + [Refused] }

  /** The lock was taken, the reader found closed, and the lock given back. */
  predicate FoundClosed(before: seq<Event>, now: seq<Event>)
  {
    now == before + [Acquired, Looked(false), Released]
  }

  /** The reader was found open and has been released. */
  predicate Finished(before: seq<Event>, now: seq<Event>)
  {
    |now| > 0 && now[|now| - 1] == Released && InUse(before, now[..|now| - 1])
  }

  /** How many turns of the iterator's loop these are. */
  function Turns(es: seq<Event>): nat
  {
    if |es| == 0 then 0 else Turns(es[..|es| - 1]) + if es[|es| - 1] == Turned then 1 else 0
  }

  /** How many of them have come since `before`. */
  function TurnsSince(before: seq<Event>, now: seq<Event>): nat
  {
    if |before| <= |now| then Turns(now[|before|..]) else 0
  }

  lemma OneMoreEvent(before: seq<Event>, now: seq<Event>, e: Event)
    requires |before| <= |now|
    ensures TurnsSince(before, now + [e]) == TurnsSince(before, now) + if e == Turned then 1 else 0
  {
    var es := now[|before|..];
    assert (now + [e])[|before|..] == es + [e] && (es + [e])[..|es|] == es;
  }

  lemma UseBegins(before: seq<Event>)
    ensures InUse(before, before + [Acquired] + [Looked(true)])
    ensures TurnsSince(before, before + [Acquired] + [Looked(true)]) == 0
  {
    OneMoreEvent(before, before, Acquired);
    OneMoreEvent(before, before + [Acquired], Looked(true));
  }

  lemma UseGoesOn(before: seq<Event>, now: seq<Event>)
    requires InUse(before, now)
    ensures InUse(before, now + [Touched]) && TurnsSince(before, now + [Touched]) == TurnsSince(before, now)
    ensures InUse(before, now + [Turned]) && TurnsSince(before, now + [Turned]) == TurnsSince(before, now) + 1
  {
    OneMoreEvent(before, now, Touched);
    OneMoreEvent(before, now, Turned);
  }

  lemma UseEnds(before: seq<Event>, now: seq<Event>)
    requires InUse(before, now)
    ensures Finished(before, now + [Released]) && TurnsSince(before, now + [Released]) == TurnsSince(before, now)
    ensures !LockRefused(before, now + [Released]) && !FoundClosed(before, now + [Released])
    ensures now + [Released] != before
  {
    assert (now + [Released])[..|now|] == now;
    FinishedIsOpen(before, now + [Released]);
    OneMoreEvent(before, now, Released);
  }

  lemma ClosedIsSeen(before: seq<Event>)
    ensures var now := before + [Acquired] + [Looked(false)] + [Released];
            FoundClosed(before, now) && !LockRefused(before, now) && !Finished(before, now)
  {
    assert before + [Acquired] + [Looked(false)] + [Released] == before + [Acquired, Looked(false), Released];
  }

  lemma FinishedIsOpen(before: seq<Event>, now: seq<Event>)
    requires Finished(before, now)
    ensures !LockRefused(before, now) && !FoundClosed(before, now) && now != before
  {
    assert now[..|now| - 1][|before| + 1] == now[|before| + 1];
  }

  lemma NothingIsNotFinished(before: seq<Event>)
    ensures !LockRefused(before, before) && !FoundClosed(before, before) && !Finished(before, before)
  {
  }

  lemma RefusedIsNotFinished(before: seq<Event>)
    ensures var now := before + [Refused];
            LockRefused(before, now) && !FoundClosed(before, now) && !Finished(before, now)
  {
  }

  /** A whole close: refused; or the handle closed and nulled if it was there, and the flag set. */
  predicate OneClose(before: seq<Event>, now: seq<Event>)
  {
    || now == before + [RefusedWrite]
    || now == before + [AcquiredWrite, Looked(false), SetClosed, ReleasedWrite]
    || now == before + [AcquiredWrite, Looked(true), ClosedHandle, NulledHandle, SetClosed, ReleasedWrite]
  }

  class ReaderObject {
    var mmdb: bool          // the handle is not null
    var closed: bool
    var reading: bool       // this thread holds the read lock
    var writing: bool
    var events: seq<Event>

    ghost predicate Outside() reads this { !reading && !writing }

    /** This thread holds the read lock and the handle is there. */
    ghost predicate Held() reads this { reading && !writing && mmdb }

    /** After `Reader_init`. */
    constructor ()
      ensures Outside() && mmdb && !closed && events == []
    {
      mmdb, closed, reading, writing, events := true, false, false, false, [];
    }

    /** `reader_acquire_read_lock`. Until then other threads may have closed the reader; from then on, until
        the lock is given back, they leave it as it is (`ReaderLock.OthersKeepHandle`), and with no writer
        inside the flag is set exactly when the handle is null (`ReaderLock.HandleIsSafe`). */
    method AcquireRead() returns (failed: bool)
      requires Outside()
      modifies this
      ensures if failed then Outside() && events == old(events) + [Refused]
              else reading && !writing && events == old(events) + [Acquired] && (closed <==> !mmdb)
      ensures old(closed) ==> closed
    {
      failed := *;
      var closedByOthers: bool := *;
      mmdb, closed := mmdb && !closed && !closedByOthers, closed || !mmdb || closedByOthers;
      if failed {
        events := events + [Refused];
      } else {
        reading, events := true, events + [Acquired];
      }
    }

    method HandleIsNull() returns (r: bool)
      requires reading || writing
      modifies this`events
      ensures r == !mmdb && events == old(events) + [Looked(mmdb)]
    {
      r := !mmdb;
      events := events + [Looked(mmdb)];
    }

    method IsClosed() returns (r: bool)
      requires reading
      modifies this`events
      ensures r == closed && events == old(events) + [Looked(!closed)]
    {
      r := closed;
      events := events + [Looked(!closed)];
    }

    /** Any use of the handle: only under the lock, and only while the handle is there. */
    method Touch()
      requires reading && mmdb
      modifies this`events
      ensures events == old(events) + [Touched]
    {
      events := events + [Touched];
    }

    /** A pending record of an iterator is taken: under the lock, with the handle there. */
    method NoteTurn()
      requires reading && mmdb
      modifies this`events
      ensures events == old(events) + [Turned]
    {
      events := events + [Turned];
    }

    method ReleaseRead()
      requires reading && !writing
      modifies this`reading, this`events
      ensures Outside() && events == old(events) + [Released]
    {
      reading, events := false, events + [Released];
    }

    method AcquireWrite() returns (failed: bool)
      requires Outside()
      modifies this
      ensures if failed then Outside() && events == old(events) + [RefusedWrite]
              else writing && !reading && events == old(events) + [AcquiredWrite] && (closed <==> !mmdb)
      ensures old(closed) ==> closed
    {
      failed := *;
      var closedByOthers: bool := *;
      mmdb, closed := mmdb && !closed && !closedByOthers, closed || !mmdb || closedByOthers;
      if failed {
        events := events + [RefusedWrite];
      } else {
        writing, events := true, events + [AcquiredWrite];
      }
    }

    method ReleaseWrite()
      requires writing && !reading
      modifies this`writing, this`events
      ensures Outside() && events == old(events) + [ReleasedWrite]
    {
      writing, events := false, events + [ReleasedWrite];
    }

    /** `Reader_close`: afterwards the reader is closed, unless the lock was refused. */
    method Close() returns (failed: bool)
      requires Outside()
      modifies this
      ensures Outside() && OneClose(old(events), events) && (old(closed) ==> closed)
      ensures failed <==> events == old(events) + [RefusedWrite]
      ensures !failed ==> closed && !mmdb
    {
      ghost var before := events;
      failed := AcquireWrite();
      if failed {
        return;
      }
      var isNull := HandleIsNull();
      if !isNull {
        events := events + [ClosedHandle];
        mmdb := false;
        events := events + [NulledHandle];
      }
      closed := true;
      events := events + [SetClosed];
      ReleaseWrite();
      assert events[|before|] == AcquiredWrite;
    }

    /** `Reader_dealloc`: whoever drops the last reference looks at the handle without the lock. */
    method Dealloc() returns (leaked: bool)
      requires Outside() && (closed <==> !mmdb)
      modifies this
      ensures Outside() && (events == old(events) || OneClose(old(events), events))
      ensures events == old(events) <==> !old(mmdb)
      ensures leaked ==> events == old(events) + [RefusedWrite]
      ensures !leaked ==> closed && !mmdb
    {
      leaked := false;
      if mmdb {
        leaked := Close();
      }
    }
  }

  /** A call that can fail for reasons outside this model, such as a lack of memory. */
  method Attempt(calm: bool) returns (ok: bool)
    ensures calm ==> ok
  {
    ok := *;
    if calm {
      ok := true;
    }
  }
}
