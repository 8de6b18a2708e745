/** The extension's read/write lock protocol: lookups, metadata calls, context entry, iterators and closes
    by any number of threads, as interleaved steps on the reader's shared state. */
module ReaderLock {
  import opened Wrappers
  import opened SearchTree
  import opened Lookup
  import opened Networks
  import opened Iteration
  import opened LockedReader
  import opened ExtensionIterator

  /** The calls that take the read lock. */
  datatype Op = Get | GetMetadata | Enter | NewIter | NextItem

  /** Where a thread stands. */
  datatype Phase =
    | Idle
    | WantRead(op: Op)
    | HasRead(op: Op)
    | Using(op: Op)     // its call found the reader open
    | Leaving(op: Op)   // it found it closed
    | WantWrite
    | HasWrite      // about to look at the handle
    | HandleClosed  // MMDB_close is done, the pointer still set
    | HandleNulled  // about to set the closed flag
    | FlagSet       // about to release the write lock
    | Destroying    // about to destroy the lock

  datatype Thread = Thread(phase: Phase)

  /** What all threads share. */
  datatype Shared = Shared(
    mmdb: bool,             // the handle pointer is not null
    handleOpen: bool,       // the handle it was set to is not closed yet
    closeCount: nat,        // calls of MMDB_close
    closed: bool,
    readers: set<nat>,
    writer: Option<nat>,
    iters: map<nat, Iter>,
    dying: bool,            // the last reference is gone
    closeFailed: bool,      // deallocation could not take the write lock
    destroyed: bool,
    faulted: bool)          // a handle was used that had been closed

  datatype State = State(shared: Shared, threads: map<nat, Thread>)

  /** The database behind the handle. */
  datatype Db = Db(tree: Tree, lib: Library, ipv6: bool) {
    function Start(): nat { Ipv4Start(tree, ipv6) }

    ghost predicate Valid() { |tree.nodes| > 0 && Fits(tree, 0, Width(ipv6)) }

    function Root(): Pending { Pending(ZERO_IP, 0, 0, SearchNode) }

    /** What one iterator yields when nothing interferes. */
    ghost function Sequence(): seq<Leaf>
      requires Valid()
    {
      Visits(tree, Start(), Width(ipv6), 0, [])
    }
  }

  datatype Action =
    | Begin(p: nat, op: Op)
    | AcquireRead(p: nat)
    | FailRead(p: nat)
    | Test(p: nat)
    | Use(p: nat)
    | Turn(p: nat, junk: Iter)   // what reading a closed handle would make of the iterator
    | ReleaseRead(p: nat)
    | BeginClose(p: nat)
    | AcquireWrite(p: nat)
    | FailWrite(p: nat)
    | CloseHandle(p: nat)
    | NullHandle(p: nat)
    | SetFlag(p: nat)
    | ReleaseWrite(p: nat)
    | DropIter(p: nat)
    | BeginDealloc(p: nat)
    | Destroy(p: nat)

  const IDLE := Thread(Idle)

  function ThreadOf(s: State, p: nat): Thread
  {
    if p in s.threads then s.threads[p] else IDLE
  }

  /** `get` and `metadata` look at the handle, the others at the closed flag. */
  predicate LooksClosed(sh: Shared, op: Op)
  {
    if op == Get || op == GetMetadata then !sh.mmdb else sh.closed
  }

  function TurnIn(db: Db, it: Iter): Iter { TurnIter(db.tree, db.lib, db.Start(), it) }

  /** A turn through the handle: what `TurnIter` says while it is open, anything once it is closed. */
  function ReadTurn(db: Db, sh: Shared, a: Action): Iter
    requires a.Turn? && a.p in sh.iters
  {
    if sh.handleOpen then TurnIn(db, sh.iters[a.p]) else a.junk
  }

  predicate AllIdle(s: State) { forall q | q in s.threads :: s.threads[q].phase.Idle? }

  /** When thread `a.p`, in state `th`, can take the step. */
  predicate Enabled(sh: Shared, th: Thread, a: Action)
  {
    var ph := th.phase;
    match a
    case Begin(p, op) => ph.Idle? && !sh.dying && (op == NextItem ==> p in sh.iters)
    case AcquireRead(_) => ph.WantRead? && sh.writer.None?
    case FailRead(_) => ph.WantRead?
    case Test(_) => ph.HasRead?
    case Use(_) => ph.Using?
    case Turn(p, _) => ph.Using? && ph.op == NextItem && p in sh.iters
    case ReleaseRead(_) => ph.Leaving? || ph.Using?
    case BeginClose(_) => ph.Idle? && !sh.dying
    case AcquireWrite(_) => ph.WantWrite? && sh.writer.None? && sh.readers == {}
    case FailWrite(_) => ph.WantWrite?
    case CloseHandle(_) => ph.HasWrite?
    case NullHandle(_) => ph.HandleClosed?
    case SetFlag(_) => ph.HandleNulled?
    case ReleaseWrite(_) => ph.FlagSet?
    case DropIter(p) => ph.Idle? && p in sh.iters
    case BeginDealloc(_) => ph.Idle? && !sh.dying && sh.iters == map[]
    case Destroy(_) => ph.Destroying?
  }

  /** Where the step leaves the thread. */
  function ThreadStep(db: Db, sh: Shared, th: Thread, a: Action): Thread
    requires Enabled(sh, th, a)
  {
    var ph := th.phase;
    match a
    case Begin(_, op) => Thread(WantRead(op))
    case AcquireRead(_) => Thread(HasRead(ph.op))
    case FailRead(_) => IDLE
    case Test(_) =>
      th.(phase := if LooksClosed(sh, ph.op) then Leaving(ph.op) else Using(ph.op))
    case Use(_) => th
    case Turn(_, _) => th
    case ReleaseRead(_) => IDLE
    case BeginClose(_) => Thread(WantWrite)
    case AcquireWrite(_) => Thread(HasWrite)
    case FailWrite(_) => if sh.dying then Thread(Destroying) else IDLE
    case CloseHandle(_) => th.(phase := if sh.mmdb then HandleClosed else HandleNulled)
    case NullHandle(_) => th.(phase := HandleNulled)
    case SetFlag(_) => th.(phase := FlagSet)
    case ReleaseWrite(_) => if sh.dying then Thread(Destroying) else IDLE
    case DropIter(_) => th
    case BeginDealloc(_) => Thread(if sh.mmdb then WantWrite else Destroying)
    case Destroy(_) => IDLE
  }

  /** What the step does to the shared state. */
  function SharedStep(db: Db, sh: Shared, th: Thread, a: Action): Shared
    requires Enabled(sh, th, a)
  {
    var ph := th.phase;
    match a
    case AcquireRead(p) => sh.(readers := sh.readers + {p})
    case Use(_) => sh.(faulted := sh.faulted || !sh.handleOpen)
    case Turn(p, _) =>
      sh.(iters := sh.iters[p := ReadTurn(db, sh, a)], faulted := sh.faulted || !sh.handleOpen)
    case ReleaseRead(p) =>
      sh.(readers := sh.readers - {p},
          iters := if ph == Using(NewIter) then sh.iters[p := Iter([db.Root()], [])] else sh.iters)
    case AcquireWrite(p) => sh.(writer := Some(p))
    case FailWrite(_) => sh.(closeFailed := sh.closeFailed || sh.dying)
    case CloseHandle(_) => if sh.mmdb then sh.(handleOpen := false, closeCount := sh.closeCount + 1) else sh
    case NullHandle(_) => sh.(mmdb := false)
    case SetFlag(_) => sh.(closed := true)
    case ReleaseWrite(_) => sh.(writer := None)
    case DropIter(p) => sh.(iters := sh.iters - {p})
    case BeginDealloc(_) => sh.(dying := true)
    case Destroy(_) => sh.(destroyed := true)
    case _ => sh
  }

  /** One step of thread `a.p`; nothing when it cannot be taken now. Deallocation waits for the last
      reference: no call is under way and no iterator left. */
  function Apply(db: Db, s: State, a: Action): Option<State>
  {
    var th := ThreadOf(s, a.p);
    if Enabled(s.shared, th, a) && (a.BeginDealloc? ==> AllIdle(s))
    then Some(State(SharedStep(db, s.shared, th, a), s.threads[a.p := ThreadStep(db, s.shared, th, a)]))
    else None
  }

  /** After `Reader_init`. */
  const INITIAL := State(Shared(true, true, 0, false, {}, None, map[], false, false, false, false), map[])

  /** The state after a whole interleaving. */
  function Execute(db: Db, s: State, run: seq<Action>): Option<State>
  {
    if |run| == 0 then Some(s)
    else
      match Execute(db, s, run[..|run| - 1])
      case None => None
      case Some(s') => Apply(db, s', run[|run| - 1])
  }

  // ---------- the invariant ----------

  predicate Reading(ph: Phase) { ph.HasRead? || ph.Using? || ph.Leaving? }

  predicate Writing(ph: Phase) { ph.HasWrite? || ph.HandleClosed? || ph.HandleNulled? || ph.FlagSet? }

  /** The handle and its flags, outside the writer's section. */
  predicate Settled(sh: Shared)
  {
    (sh.closed <==> !sh.mmdb) && (sh.mmdb <==> sh.handleOpen)
  }

  /** What holds between a thread and the shared state: who is inside the lock, whoever saw the reader open
      still has it open, and how far a writer has come. */
  predicate ThreadOk(sh: Shared, p: nat, th: Thread)
  {
    && (Reading(th.phase) <==> p in sh.readers)
    && (Writing(th.phase) <==> sh.writer == Some(p))
    && (match th.phase
        case Using(_) => sh.handleOpen && !sh.closed
        case WantWrite => sh.dying ==> sh.handleOpen && sh.writer.None? && sh.readers == {}
        case HasWrite => Settled(sh)
        case HandleClosed => sh.mmdb && !sh.handleOpen && !sh.closed
        case HandleNulled => !sh.mmdb && !sh.handleOpen
        case FlagSet => !sh.mmdb && !sh.handleOpen && sh.closed
        case Destroying => (sh.handleOpen <==> sh.closeFailed) && sh.writer.None? && sh.readers == {}
        case _ => true)
    && (OnIter(th.phase) ==> p in sh.iters)
    && (sh.dying ==> DyingPhase(th.phase))
    && (th.phase.Destroying? ==> sh.dying && !sh.destroyed)
    && (sh.closeFailed || sh.destroyed ==> th.phase.Idle? || th.phase.Destroying?)
  }

  /** Under way in `ReaderIter_next`. */
  predicate OnIter(ph: Phase)
  {
    ph == WantRead(NextItem) || ph == HasRead(NextItem) || ph == Using(NextItem)
  }

  predicate DyingPhase(ph: Phase) { ph.Idle? || ph.WantWrite? || Writing(ph) || ph.Destroying? }

  /** What holds of the shared state alone. */
  ghost predicate SharedOk(sh: Shared)
  {
    && !sh.faulted
    && (sh.writer.Some? ==> sh.readers == {})
    && (sh.writer.None? ==> Settled(sh))
    && (sh.handleOpen ==> sh.mmdb && !sh.closed)
    && sh.closeCount == (if sh.handleOpen then 0 else 1)
    && (sh.dying ==> sh.iters == map[])
    && (sh.destroyed ==> sh.dying && (sh.handleOpen <==> sh.closeFailed) && sh.writer.None? && sh.readers == {})
    && (sh.closeFailed ==> sh.dying && sh.writer.None?)
  }

  ghost predicate IterOk(db: Db, it: Iter)
    requires db.Valid()
  {
    && StackOk(db.tree, db.lib, Width(db.ipv6), it.stack)
    && it.taken + Expand(db.tree, db.lib, db.Start(), Width(db.ipv6), it.stack) == db.Sequence()
  }

  ghost predicate ItersOk(db: Db, sh: Shared)
    requires db.Valid()
  {
    forall p | p in sh.iters :: IterOk(db, sh.iters[p])
  }

  /** Deallocation runs in one thread only. */
  ghost predicate Alone(s: State)
  {
    s.shared.dying ==> forall p: nat, q: nat :: !ThreadOf(s, p).phase.Idle? && !ThreadOf(s, q).phase.Idle? ==> p == q
  }

  ghost predicate Invariant(db: Db, s: State)
    requires db.Valid()
  {
    && SharedOk(s.shared) && ItersOk(db, s.shared) && Alone(s)
    && forall p: nat :: ThreadOk(s.shared, p, ThreadOf(s, p))
  }

  // ---------- every step keeps it ----------

  /** The stepping thread and the shared state. */
  lemma StepKeepsOwn(db: Db, sh: Shared, th: Thread, a: Action)
    requires SharedOk(sh) && ThreadOk(sh, a.p, th) && Enabled(sh, th, a)
    requires a.BeginDealloc? ==> sh.writer.None? && sh.readers == {}
    ensures SharedOk(SharedStep(db, sh, th, a))
    ensures ThreadOk(SharedStep(db, sh, th, a), a.p, ThreadStep(db, sh, th, a))
  {
    hide TurnIn, ReadTurn;
  }

  /** Any other thread: while it reads, no writer steps; deallocation finds it idle. */
  lemma StepKeepsOther(db: Db, sh: Shared, th: Thread, a: Action, q: nat, other: Thread)
    requires SharedOk(sh) && ThreadOk(sh, a.p, th) && Enabled(sh, th, a)
    requires q != a.p && ThreadOk(sh, q, other)
    requires sh.dying || a.BeginDealloc? ==> other.phase.Idle? || th.phase.Idle?
    requires a.BeginDealloc? ==> other.phase.Idle?
    ensures ThreadOk(SharedStep(db, sh, th, a), q, other)
  {
    hide TurnIn;
  }

  lemma TurnKeepsIter(db: Db, it: Iter)
    requires db.Valid() && IterOk(db, it)
    ensures IterOk(db, TurnIn(db, it))
  {
    hide Expand, Visits, Weight;
    if |it.stack| > 0 {
      var p, rest, w := it.stack[0], it.stack[1..], Width(db.ipv6);
      assert it.stack == [p] + rest && PendingOk(db.tree, db.lib, w, p);
      assert StackOk(db.tree, db.lib, w, rest) by {
        assert forall i | 0 <= i < |rest| :: rest[i] == it.stack[i + 1];
      }
      PopKeepsExpansion(db.tree, db.lib, db.Start(), w, p, rest);
      var ps := Successors(db.tree, db.lib, db.Start(), p) + rest;
      var now := if IsLeafKind(p.kind) then [Leaf(PathOf(p), p.record)] else [];
      var todo := Expand(db.tree, db.lib, db.Start(), w, ps);
      assert it.taken + (now + todo) == it.taken + now + todo;
      if IsLeafKind(p.kind) {
        assert ps == rest;
      } else {
        assert it.taken + now == it.taken;
        if db.tree.IsNode(p.record) {
          ChildrenOk(db.tree, db.lib, w, p);
        }
      }
    }
  }

  lemma NewIterOk(db: Db)
    requires db.Valid()
    ensures IterOk(db, Iter([db.Root()], []))
  {
    RootOk(db.tree, db.lib, db.ipv6, db.Root());
    assert PathOf(db.Root()) == [];
    assert Expand(db.tree, db.lib, db.Start(), Width(db.ipv6), [db.Root()][1..]) == [];
  }

  /** A turn keeps the iterators right because its thread holds the lock with the handle open; what a closed
      handle would give is never seen. */
  lemma StepKeepsIters(db: Db, sh: Shared, th: Thread, a: Action)
    requires db.Valid() && ItersOk(db, sh) && ThreadOk(sh, a.p, th) && Enabled(sh, th, a)
    ensures ItersOk(db, SharedStep(db, sh, th, a))
  {
    hide TurnIn, IterOk;
    NewIterOk(db);
    if a.Turn? {
      TurnKeepsIter(db, sh.iters[a.p]);
    }
  }

  /** With every thread idle, nobody is inside the lock. */
  lemma AllIdleLockFree(db: Db, s: State)
    requires db.Valid() && Invariant(db, s) && AllIdle(s)
    ensures s.shared.writer.None? && s.shared.readers == {}
    ensures forall p: nat :: ThreadOf(s, p).phase.Idle?
  {
    var sh := s.shared;
    forall q: nat ensures ThreadOf(s, q).phase.Idle? && q !in sh.readers && sh.writer != Some(q) {
      assert ThreadOk(sh, q, ThreadOf(s, q));
    }
    var w := if sh.writer.Some? then sh.writer.value else 0;
    assert sh.writer != Some(w);
  }

  lemma StepKeepsInvariant(db: Db, s: State, a: Action)
    requires db.Valid() && Invariant(db, s) && Apply(db, s, a).Some?
    ensures Invariant(db, Apply(db, s, a).value)
  {
    hide ThreadStep, SharedStep, ThreadOk, SharedOk, IterOk;
    var s', sh, th := Apply(db, s, a).value, s.shared, ThreadOf(s, a.p);
    assert ThreadOk(sh, a.p, th);
    if a.BeginDealloc? {
      AllIdleLockFree(db, s);
    }
    StepKeepsOwn(db, sh, th, a);
    StepKeepsIters(db, sh, th, a);
    forall q: nat ensures ThreadOk(s'.shared, q, ThreadOf(s', q)) {
      if q != a.p {
        assert ThreadOf(s', q) == ThreadOf(s, q) && ThreadOk(sh, q, ThreadOf(s, q));
        StepKeepsOther(db, sh, th, a, q, ThreadOf(s, q));
      }
    }
    StaysAlone(db, s, a);
  }

  lemma StaysAlone(db: Db, s: State, a: Action)
    requires db.Valid() && Invariant(db, s) && Apply(db, s, a).Some?
    ensures Alone(Apply(db, s, a).value)
  {
    hide TurnIn, IterOk;
    var s' := Apply(db, s, a).value;
    if a.BeginDealloc? {
      AllIdleLockFree(db, s);
    }
    assert ThreadOk(s.shared, a.p, ThreadOf(s, a.p));
    forall p: nat, q: nat | s'.shared.dying && !ThreadOf(s', p).phase.Idle? && !ThreadOf(s', q).phase.Idle?
      ensures p == q
    {
      assert p != a.p ==> ThreadOf(s', p) == ThreadOf(s, p);
      assert q != a.p ==> ThreadOf(s', q) == ThreadOf(s, q);
    }
  }

  // ---------- what holds over every run ----------

  lemma {:induction false} RunKeepsInvariant(db: Db, run: seq<Action>)
    requires db.Valid() && Execute(db, INITIAL, run).Some?
    ensures Invariant(db, Execute(db, INITIAL, run).value)
    decreases |run|
  {
    hide Apply, ThreadOk, SharedOk;
    if |run| == 0 {
      InitiallyOk(db);
    } else {
      var before := run[..|run| - 1];
      RunKeepsInvariant(db, before);
      StepKeepsInvariant(db, Execute(db, INITIAL, before).value, run[|run| - 1]);
    }
  }

  lemma InitiallyOk(db: Db)
    requires db.Valid()
    ensures Invariant(db, INITIAL)
  {
  }

  /** While a thread is inside as a reader, no step of another one changes the handle or the flag: what
      `LockedReader.AcquireRead` takes for granted. */
  lemma OthersKeepHandle(db: Db, run: seq<Action>, a: Action, p: nat)
    requires db.Valid() && Execute(db, INITIAL, run + [a]).Some? && a.p != p
    ensures Execute(db, INITIAL, run).Some?
    ensures var s, s' := Execute(db, INITIAL, run).value, Execute(db, INITIAL, run + [a]).value;
            Reading(ThreadOf(s, p).phase) ==>
              && s'.shared.mmdb == s.shared.mmdb && s'.shared.closed == s.shared.closed
              && s'.shared.handleOpen == s.shared.handleOpen && ThreadOf(s', p) == ThreadOf(s, p)
  {
    hide TurnIn, IterOk, Enabled, SharedStep, ThreadStep;
    assert (run + [a])[..|run|] == run;
    RunKeepsInvariant(db, run);
    var s := Execute(db, INITIAL, run).value;
    assert ThreadOk(s.shared, p, ThreadOf(s, p)) && ThreadOk(s.shared, a.p, ThreadOf(s, a.p));
    if Reading(ThreadOf(s, p).phase) {
      ReaderKeepsWritersOut(db, s.shared, ThreadOf(s, a.p), a, p);
    }
  }

  lemma ReaderKeepsWritersOut(db: Db, sh: Shared, th: Thread, a: Action, p: nat)
    requires SharedOk(sh) && ThreadOk(sh, a.p, th) && Enabled(sh, th, a) && p in sh.readers
    ensures var sh' := SharedStep(db, sh, th, a);
            sh'.mmdb == sh.mmdb && sh'.closed == sh.closed && sh'.handleOpen == sh.handleOpen
  {
    hide TurnIn;
  }

  /** Over every interleaving no thread uses the handle after it has been closed. */
  lemma NoRunFaults(db: Db, run: seq<Action>)
    requires db.Valid() && Execute(db, INITIAL, run).Some?
    ensures !Execute(db, INITIAL, run).value.shared.faulted
  {
    RunKeepsInvariant(db, run);
  }

  predicate HoldsOpen(ph: Phase) { ph.Using? }

  /** Over every interleaving of any number of lookups, metadata calls, iterator steps and closes: a thread
      that holds the read lock and saw the reader open still has an open handle; the handle is closed at
      most once; outside the writer's section the closed flag is set exactly when the pointer is null,
      and the pointer is null exactly when the handle is closed. */
  lemma HandleIsSafe(db: Db, run: seq<Action>, p: nat)
    requires db.Valid() && Execute(db, INITIAL, run).Some?
    ensures var s := Execute(db, INITIAL, run).value;
            && (HoldsOpen(ThreadOf(s, p).phase) ==> s.shared.handleOpen && s.shared.mmdb && p in s.shared.readers)
            && s.shared.closeCount <= 1
            && (s.shared.writer.None? ==> Settled(s.shared))
            && (s.shared.writer.Some? ==> s.shared.readers == {})
  {
    RunKeepsInvariant(db, run);
    var s := Execute(db, INITIAL, run).value;
    assert ThreadOk(s.shared, p, ThreadOf(s, p));
  }

  /** What a thread has done in a run: calls started, and the lock not obtained, taken and given back. */
  datatype Tally = Tally(started: nat, failed: nat, taken: nat, givenBack: nat)

  function TallyOf(run: seq<Action>, p: nat): Tally
  {
    if |run| == 0 then Tally(0, 0, 0, 0)
    else
      var t, a := TallyOf(run[..|run| - 1], p), run[|run| - 1];
      if a.p != p then t
      else if a.Begin? || a.BeginClose? then t.(started := t.started + 1)
      else if a.FailRead? || a.FailWrite? then t.(failed := t.failed + 1)
      else if a.AcquireRead? || a.AcquireWrite? then t.(taken := t.taken + 1)
      else if a.ReleaseRead? || a.ReleaseWrite? then t.(givenBack := t.givenBack + 1)
      else t
  }

  /** The lock has been given back as often as taken, but for a thread inside it. Every started call has
      failed to take it or taken it, but for one that waits. */
  predicate Balanced(s: State, p: nat, t: Tally)
  {
    var ph := ThreadOf(s, p).phase;
    && t.taken == t.givenBack + (if Inside(ph) then 1 else 0)
    && (!s.shared.dying ==> t.started == t.failed + t.taken + (if Waits(ph) then 1 else 0))
  }

  /** At all times of every run the tallies of every thread are balanced. That each exit of the calls gives the
      lock back is shown of the calls themselves: see `LockedReader.OneCall` and the methods that promise it. */
  lemma {:induction false} EveryCallIsBalanced(db: Db, run: seq<Action>, p: nat)
    requires Execute(db, INITIAL, run).Some?
    ensures Balanced(Execute(db, INITIAL, run).value, p, TallyOf(run, p))
    decreases |run|
  {
    hide Enabled, ThreadStep, SharedStep;
    if |run| > 0 {
      var before, a := run[..|run| - 1], run[|run| - 1];
      EveryCallIsBalanced(db, before, p);
      var s := Execute(db, INITIAL, before).value;
      StepMovesInside(db, s.shared, ThreadOf(s, a.p), a);
      StepMovesWaiting(db, s.shared, ThreadOf(s, a.p), a);
    }
  }

  predicate Inside(ph: Phase) { Reading(ph) || Writing(ph) }

  predicate Waits(ph: Phase) { ph.WantRead? || ph.WantWrite? }

  /** Which steps take a thread into the lock and out of it. */
  lemma StepMovesInside(db: Db, sh: Shared, th: Thread, a: Action)
    requires Enabled(sh, th, a)
    ensures var ph, ph' := th.phase, ThreadStep(db, sh, th, a).phase;
            if a.AcquireRead? || a.AcquireWrite? then !Inside(ph) && Inside(ph')
            else if a.ReleaseRead? || a.ReleaseWrite? then Inside(ph) && !Inside(ph')
            else Inside(ph) == Inside(ph')
  {
    hide TurnIn, SharedStep;
  }

  /** Which steps make a thread wait for the lock and stop waiting. */
  lemma StepMovesWaiting(db: Db, sh: Shared, th: Thread, a: Action)
    requires Enabled(sh, th, a)
    ensures sh.dying ==> SharedStep(db, sh, th, a).dying
    ensures var ph, ph' := th.phase, ThreadStep(db, sh, th, a).phase;
            if a.Begin? || a.BeginClose? then !Waits(ph) && Waits(ph')
            else if a.AcquireRead? || a.AcquireWrite? || a.FailRead? || a.FailWrite? then Waits(ph) && !Waits(ph')
            else a.BeginDealloc? || Waits(ph) == Waits(ph')
    ensures a.BeginDealloc? ==> SharedStep(db, sh, th, a).dying
  {
    hide TurnIn, ReadTurn;
  }

  /** What an iterator has taken is always a prefix of what it takes when nothing interferes. Its turns read
      through the handle, so this rests on the lock: a turn on a closed handle could do anything to it. */
  lemma YieldedIsPrefix(db: Db, run: seq<Action>, p: nat)
    requires db.Valid() && Execute(db, INITIAL, run).Some?
    requires p in Execute(db, INITIAL, run).value.shared.iters
    ensures Execute(db, INITIAL, run).value.shared.iters[p].taken <= db.Sequence()
  {
    RunKeepsInvariant(db, run);
    var s := Execute(db, INITIAL, run).value;
    assert IterOk(db, s.shared.iters[p]);
  }

  lemma {:induction false} RunConcat(db: Db, s: State, run: seq<Action>, more: seq<Action>)
    requires Execute(db, s, run + more).Some?
    ensures Execute(db, s, run).Some?
    ensures Execute(db, s, run + more) == Execute(db, Execute(db, s, run).value, more)
    decreases |more|
  {
    hide Apply;
    if |more| == 0 {
      assert run + more == run;
    } else {
      var front := more[..|more| - 1];
      assert (run + more)[..|run + more| - 1] == run + front;
      RunConcat(db, s, run, front);
    }
  }

  lemma ClosedStays(db: Db, sh: Shared, th: Thread, a: Action)
    requires Enabled(sh, th, a) && sh.closed
    ensures SharedStep(db, sh, th, a).closed
  {
    hide Enabled, ReadTurn, Db.Root;
  }

  lemma {:induction false} ClosedNeverReverts(db: Db, s: State, more: seq<Action>)
    requires s.shared.closed && Execute(db, s, more).Some?
    ensures Execute(db, s, more).value.shared.closed
    decreases |more|
  {
    hide Enabled, SharedStep, ThreadStep;
    if |more| > 0 {
      var front := more[..|more| - 1];
      ClosedNeverReverts(db, s, front);
      var s' := Execute(db, s, front).value;
      ClosedStays(db, s'.shared, ThreadOf(s', more[|more| - 1].p), more[|more| - 1]);
    }
  }

  /** Once the closed flag is set it stays, and from then on no thread ever uses the handle again: every
      call that takes the lock later fails without touching it. */
  lemma NothingUsesTheHandleAfterClose(db: Db, run: seq<Action>, more: seq<Action>, p: nat)
    requires db.Valid() && Execute(db, INITIAL, run + more).Some?
    ensures Execute(db, INITIAL, run).Some?
    ensures Execute(db, INITIAL, run).value.shared.closed ==>
              var s := Execute(db, INITIAL, run + more).value;
              s.shared.closed && !HoldsOpen(ThreadOf(s, p).phase)
  {
    hide Apply;
    RunConcat(db, INITIAL, run, more);
    RunKeepsInvariant(db, run + more);
    var s := Execute(db, INITIAL, run + more).value;
    assert ThreadOk(s.shared, p, ThreadOf(s, p));
    if Execute(db, INITIAL, run).value.shared.closed {
      ClosedNeverReverts(db, Execute(db, INITIAL, run).value, more);
    }
  }

  /** When the reader is deallocated, the lock is free and the handle has been closed exactly once -
      unless taking the write lock failed then, the one case in which it leaks. */
  lemma DeallocationClosesTheHandle(db: Db, run: seq<Action>)
    requires db.Valid() && Execute(db, INITIAL, run).Some?
    ensures var sh := Execute(db, INITIAL, run).value.shared;
            sh.destroyed ==>
              && sh.writer.None? && sh.readers == {} && sh.iters == map[]
              && sh.closeCount == (if sh.closeFailed then 0 else 1)
  {
    RunKeepsInvariant(db, run);
  }

  predicate InsideOrDestroying(ph: Phase) { Reading(ph) || Writing(ph) || ph.Destroying? }

  /** The next step of a thread that has what it needs. */
  function NextStep(p: nat, ph: Phase): Action
  {
    match ph
    case HasRead(_) => Test(p)
    case Using(_) => ReleaseRead(p)
    case Leaving(_) => ReleaseRead(p)
    case HasWrite => CloseHandle(p)
    case HandleClosed => NullHandle(p)
    case HandleNulled => SetFlag(p)
    case FlagSet => ReleaseWrite(p)
    case WantRead(_) => AcquireRead(p)
    case WantWrite => AcquireWrite(p)
    case _ => Destroy(p)
  }

  lemma InsideCanStep(db: Db, s: State, p: nat)
    requires db.Valid() && Invariant(db, s) && InsideOrDestroying(ThreadOf(s, p).phase)
    ensures Apply(db, s, NextStep(p, ThreadOf(s, p).phase)).Some?
  {
    hide TurnIn, ThreadStep, SharedStep;
    assert ThreadOk(s.shared, p, ThreadOf(s, p));
  }

  /** The protocol never gets stuck: while any call is under way, some thread can take the next step of its
      call. That holds even for a lock that lets no reader past a waiting writer. */
  lemma SomeCallCanStep(db: Db, run: seq<Action>, p: nat) returns (q: nat)
    requires db.Valid() && Execute(db, INITIAL, run).Some?
    requires !ThreadOf(Execute(db, INITIAL, run).value, p).phase.Idle?
    ensures var s := Execute(db, INITIAL, run).value;
            && !ThreadOf(s, q).phase.Idle?
            && Apply(db, s, NextStep(q, ThreadOf(s, q).phase)).Some?
            && (ThreadOf(s, q).phase.WantRead? ==> forall w: nat :: !ThreadOf(s, w).phase.WantWrite?)
  {
    hide TurnIn, ThreadStep, SharedStep;
    RunKeepsInvariant(db, run);
    var s := Execute(db, INITIAL, run).value;
    var sh := s.shared;
    q := p;
    if w: nat :| ThreadOf(s, w).phase.WantWrite? {
      q := w;
    }
    var ph := ThreadOf(s, q).phase;
    if InsideOrDestroying(ph) {
      InsideCanStep(db, s, q);
    } else if sh.writer.Some? {
      q := sh.writer.value;
      assert ThreadOk(sh, q, ThreadOf(s, q));
      InsideCanStep(db, s, q);
    } else if ph.WantWrite? && sh.readers != {} {
      q :| q in sh.readers;
      assert ThreadOk(sh, q, ThreadOf(s, q));
      InsideCanStep(db, s, q);
    }
  }

  // ---------- the calls are runs of the protocol ----------

  const NO_JUNK := Iter([], [])

  /** The step that an event of a call stands for. */
  function StepOf(p: nat, e: Event): Action
  {
    match e
    case Refused => FailRead(p)
    case Acquired => AcquireRead(p)
    case Looked(_) => Test(p)
    case Touched => Use(p)
    case Turned => Turn(p, NO_JUNK)
    case _ => ReleaseRead(p)
  }

  function StepsOf(p: nat, es: seq<Event>): seq<Action>
  {
    if |es| == 0 then [] else StepsOf(p, es[..|es| - 1]) + [StepOf(p, es[|es| - 1])]
  }

  /** What a whole call leaves in the record of its events, after whatever was there before; only iterators
      take turns. */
  predicate IsCall(op: Op, es: seq<Event>) { OneCall([], es) && (op != NextItem ==> Turns(es) == 0) }

  /** An iterator after `k` turns. */
  function AfterTurns(db: Db, sh: Shared, p: nat, k: nat): Iter
    requires p in sh.iters
  {
    TurnTimes(db.tree, db.lib, db.Start(), sh.iters[p], k)
  }

  /** What holds of a call under way since it began in `s` with an open reader, after `k` turns. */
  predicate UnderWay(db: Db, s: State, r: State, p: nat, op: Op, k: nat)
  {
    && ThreadOf(r, p).phase == Using(op) && r.shared.writer.None? && r.shared.handleOpen
    && (op == NextItem ==> p in s.shared.iters && p in r.shared.iters
                           && r.shared.iters[p] == AfterTurns(db, s.shared, p, k))
  }

  lemma OneMoreStep(db: Db, s: State, p: nat, es: seq<Event>)
    requires |es| > 0
    ensures var before := Execute(db, s, StepsOf(p, es[..|es| - 1]));
            before.Some? ==> Execute(db, s, StepsOf(p, es)) == Apply(db, before.value, StepOf(p, es[|es| - 1]))
  {
    hide Apply, StepOf;
    var front, steps := es[..|es| - 1], StepsOf(p, es);
    assert steps[..|steps| - 1] == StepsOf(p, front) && steps[|steps| - 1] == StepOf(p, es[|es| - 1]);
  }

  lemma AcquireIsStep(db: Db, s: State, p: nat, op: Op)
    requires ThreadOf(s, p).phase == WantRead(op) && s.shared.writer.None?
    ensures var r := Apply(db, s, AcquireRead(p));
            && r.Some? && ThreadOf(r.value, p).phase == HasRead(op)
            && r.value.shared == s.shared.(readers := s.shared.readers + {p})
  {
  }

  lemma TestIsStep(db: Db, s: State, p: nat, op: Op)
    requires ThreadOf(s, p).phase == HasRead(op)
    ensures var r := Apply(db, s, Test(p));
            && r.Some? && r.value.shared == s.shared
            && ThreadOf(r.value, p).phase == (if LooksClosed(s.shared, op) then Leaving(op) else Using(op))
  {
  }

  lemma TestIsRun(db: Db, s: State, p: nat, op: Op)
    requires ThreadOf(s, p).phase == WantRead(op) && s.shared.writer.None?
    ensures var r := Execute(db, s, StepsOf(p, [Acquired, Looked(!LooksClosed(s.shared, op))]));
            && r.Some?
            && ThreadOf(r.value, p).phase == (if LooksClosed(s.shared, op) then Leaving(op) else Using(op))
            && r.value.shared.writer.None? && r.value.shared.handleOpen == s.shared.handleOpen
            && r.value.shared.iters == s.shared.iters
  {
    hide Apply, Execute, StepsOf;
    var es := [Acquired, Looked(!LooksClosed(s.shared, op))];
    assert es[..1] == [Acquired] && [Acquired][..0] == [];
    NothingIsRun(db, s, p);
    OneMoreStep(db, s, p, [Acquired]);
    AcquireIsStep(db, s, p, op);
    OneMoreStep(db, s, p, es);
    TestIsStep(db, Apply(db, s, AcquireRead(p)).value, p, op);
  }

  lemma UseIsRun(db: Db, s: State, r: State, p: nat, op: Op, k: nat)
    requires UnderWay(db, s, r, p, op, k)
    ensures Apply(db, r, Use(p)).Some? && UnderWay(db, s, Apply(db, r, Use(p)).value, p, op, k)
  {
    hide TurnIn, TurnTimes;
  }

  lemma TurnIsRun(db: Db, s: State, r: State, p: nat, k: nat)
    requires UnderWay(db, s, r, p, NextItem, k)
    ensures var a := Turn(p, NO_JUNK);
            Apply(db, r, a).Some? && UnderWay(db, s, Apply(db, r, a).value, p, NextItem, k + 1)
  {
    hide TurnIter;
    OneMoreTurn(db.tree, db.lib, db.Start(), s.shared.iters[p], k);
  }

  lemma {:induction false} UsesAreRun(db: Db, s: State, p: nat, op: Op, es: seq<Event>)
    requires ThreadOf(s, p).phase == WantRead(op) && s.shared.writer.None? && s.shared.handleOpen
    requires !LooksClosed(s.shared, op) && (op == NextItem ==> p in s.shared.iters)
    requires InUse([], es) && (op != NextItem ==> Turns(es) == 0)
    ensures var r := Execute(db, s, StepsOf(p, es));
            r.Some? && UnderWay(db, s, r.value, p, op, Turns(es))
    decreases |es|
  {
    hide LooksClosed, Execute, StepsOf, Apply, TurnTimes, AfterTurns, UnderWay;
    var front, last := es[..|es| - 1], es[|es| - 1];
    if |es| == 2 {
      assert es == [Acquired, Looked(true)];
      TestIsRun(db, s, p, op);
      BeginsUnderWay(db, s, Execute(db, s, StepsOf(p, es)).value, p, op, es);
    } else {
      UsesAreRun(db, s, p, op, front);
      var r := Execute(db, s, StepsOf(p, front)).value;
      OneMoreStep(db, s, p, es);
      if last == Turned {
        TurnIsRun(db, s, r, p, Turns(front));
      } else {
        UseIsRun(db, s, r, p, op, Turns(front));
      }
    }
  }

  lemma BeginsUnderWay(db: Db, s: State, r: State, p: nat, op: Op, es: seq<Event>)
    requires es == [Acquired, Looked(true)] && ThreadOf(r, p).phase == Using(op)
    requires r.shared.writer.None? && r.shared.handleOpen && r.shared.iters == s.shared.iters
    requires op == NextItem ==> p in s.shared.iters
    ensures UnderWay(db, s, r, p, op, Turns(es))
  {
    assert es[..1] == [Acquired] && es[..1][..0] == [];
    assert Turns([Acquired]) == 0;
  }

  lemma EndIsRun(db: Db, s: State, p: nat, a: Action)
    requires a.p == p && (if a.FailRead? then ThreadOf(s, p).phase.WantRead?
                          else a.ReleaseRead? && (ThreadOf(s, p).phase.Using? || ThreadOf(s, p).phase.Leaving?))
    ensures Apply(db, s, a).Some? && ThreadOf(Apply(db, s, a).value, p).phase == Idle
    ensures var op := if a.ReleaseRead? then ThreadOf(s, p).phase.op else Get;
            op != NewIter ==> Apply(db, s, a).value.shared.iters == s.shared.iters
  {
  }

  /** Every record of events that the calls can leave is a run of the protocol, from wanting the lock to idle,
      wherever no writer holds it. The turns of an iterator's call are the turns of the run, and take the
      iterator where that many turns take it: `ReaderIter.GetNext` promises the same of its stack. */
  lemma CallIsRun(db: Db, s: State, p: nat, op: Op, es: seq<Event>)
    requires SharedOk(s.shared) && ThreadOf(s, p).phase == WantRead(op) && IsCall(op, es)
    requires op == NextItem ==> p in s.shared.iters
    requires es != [Refused] ==> s.shared.writer.None? && es[1] == Looked(!LooksClosed(s.shared, op))
    ensures var r := Execute(db, s, StepsOf(p, es));
            && r.Some? && ThreadOf(r.value, p).phase == Idle
            && (op == NextItem ==> p in r.value.shared.iters
                                   && r.value.shared.iters[p] == AfterTurns(db, s.shared, p, Turns(es)))
  {
    hide Apply, Execute, StepsOf, InUse, TurnTimes, Turns;
    var front, last := es[..|es| - 1], es[|es| - 1];
    OneMoreStep(db, s, p, es);
    if es == [Refused] {
      assert front == [];
      NothingIsRun(db, s, p);
      EndIsRun(db, s, p, FailRead(p));
      NoTurns(db, s.shared, p, op, es);
    } else if es == [Acquired, Looked(false), Released] {
      assert front == [Acquired, Looked(false)];
      TestIsRun(db, s, p, op);
      EndIsRun(db, Execute(db, s, StepsOf(p, front)).value, p, ReleaseRead(p));
      NoTurns(db, s.shared, p, op, es);
    } else {
      assert InUse([], front);
      SecondEvent(front);
      LastIsNoTurn(es);
      UsesAreRun(db, s, p, op, front);
      EndIsRun(db, Execute(db, s, StepsOf(p, front)).value, p, ReleaseRead(p));
    }
  }

  lemma SecondEvent(es: seq<Event>)
    requires InUse([], es)
    ensures |es| > 1 && es[1] == Looked(true)
  {
  }

  lemma LastIsNoTurn(es: seq<Event>)
    requires |es| > 0 && es[|es| - 1] != Turned
    ensures Turns(es) == Turns(es[..|es| - 1])
  {
  }

  lemma NoTurns(db: Db, sh: Shared, p: nat, op: Op, es: seq<Event>)
    requires es == [Refused] || es == [Acquired, Looked(false), Released]
    requires op == NextItem ==> p in sh.iters
    ensures op == NextItem ==> AfterTurns(db, sh, p, Turns(es)) == sh.iters[p]
  {
    if es == [Refused] {
      assert es[..0] == [];
      assert Turns(es) == 0;
    } else {
      assert es[..2] == [Acquired, Looked(false)] && es[..2][..1] == [Acquired] && es[..2][..1][..0] == [];
      assert Turns([]) == 0 && Turns([Acquired]) == 0 && Turns([Acquired, Looked(false)]) == 0;
    }
  }

  lemma NothingIsRun(db: Db, s: State, p: nat)
    ensures Execute(db, s, StepsOf(p, [])) == Some(s)
  {
  }
}
