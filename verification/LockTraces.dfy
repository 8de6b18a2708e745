/** The lock protocol by its traces: what stands in a run of steps, whatever the state notes down of it. */
module LockTraces {
  import opened Wrappers
  import opened LockedReader
  import opened ReaderLock

  predicate UsesHandle(a: Action) { a.Use? || a.Turn? }

  /** How often the handle is closed in a run and its pointer nulled; a close that finds it null does neither. */
  function Nulled(run: seq<Action>): nat
  {
    if |run| == 0 then 0 else Nulled(run[..|run| - 1]) + if run[|run| - 1].NullHandle? then 1 else 0
  }

  /** The write lock was refused to the deallocation. */
  predicate RefusedInDealloc(run: seq<Action>)
  {
    |run| > 0 &&
    var front := run[..|run| - 1];
    RefusedInDealloc(front) || (run[|run| - 1].FailWrite? && exists a :: a in front && a.BeginDealloc?)
  }

  /** The run up to before its last step, and that step. */
  lemma LastStep(db: Db, run: seq<Action>)
    requires |run| > 0 && Execute(db, INITIAL, run).Some?
    ensures var front := run[..|run| - 1];
            && Execute(db, INITIAL, front).Some?
            && Execute(db, INITIAL, run) == Apply(db, Execute(db, INITIAL, front).value, run[|run| - 1])
  {
    hide Apply;
  }

  // ---------- use after close ----------

  lemma StaysClosed(db: Db, s: State, a: Action)
    requires db.Valid() && Invariant(db, s) && Apply(db, s, a).Some?
    ensures !s.shared.handleOpen ==> !Apply(db, s, a).value.shared.handleOpen
    ensures a.CloseHandle? ==> !Apply(db, s, a).value.shared.handleOpen
    ensures UsesHandle(a) ==> s.shared.handleOpen
  {
    hide Db.Valid, IterOk, Alone, ReadTurn, Db.Root;
    assert ThreadOk(s.shared, a.p, ThreadOf(s, a.p));
  }

  lemma {:induction false} ClosedFrom(db: Db, run: seq<Action>, i: nat)
    requires db.Valid() && Execute(db, INITIAL, run).Some? && i < |run| && run[i].CloseHandle?
    ensures !Execute(db, INITIAL, run).value.shared.handleOpen
    decreases |run|
  {
    hide Apply, Invariant;
    var front := run[..|run| - 1];
    LastStep(db, run);
    RunKeepsInvariant(db, front);
    StaysClosed(db, Execute(db, INITIAL, front).value, run[|run| - 1]);
    if i < |run| - 1 {
      ClosedFrom(db, front, i);
    }
  }

  /** In no run does a lookup, metadata call or iterator step use the handle behind a close. */
  lemma {:induction false} NoUseBehindAClose(db: Db, run: seq<Action>, i: nat, j: nat)
    requires db.Valid() && Execute(db, INITIAL, run).Some?
    requires i < j < |run| && run[i].CloseHandle?
    ensures !UsesHandle(run[j])
    decreases |run|
  {
    hide Apply, Invariant;
    var front := run[..|run| - 1];
    LastStep(db, run);
    if j < |run| - 1 {
      NoUseBehindAClose(db, front, i, j);
    } else {
      ClosedFrom(db, front, i);
      RunKeepsInvariant(db, front);
      StaysClosed(db, Execute(db, INITIAL, front).value, run[j]);
    }
  }

  // ---------- closed once ----------

  lemma StepNulls(db: Db, s: State, a: Action)
    requires db.Valid() && Invariant(db, s) && Apply(db, s, a).Some?
    ensures Apply(db, s, a).value.shared.mmdb == (s.shared.mmdb && !a.NullHandle?)
    ensures a.NullHandle? ==> s.shared.mmdb
  {
    hide Db.Valid, IterOk, Alone, ReadTurn, Db.Root;
    assert ThreadOk(s.shared, a.p, ThreadOf(s, a.p));
  }

  /** In every run the handle is closed and nulled at most once, and it is there until then. */
  lemma {:induction false} NulledOnce(db: Db, run: seq<Action>)
    requires db.Valid() && Execute(db, INITIAL, run).Some?
    ensures Nulled(run) == if Execute(db, INITIAL, run).value.shared.mmdb then 0 else 1
    decreases |run|
  {
    hide Apply, Invariant;
    if |run| > 0 {
      var front := run[..|run| - 1];
      LastStep(db, run);
      NulledOnce(db, front);
      RunKeepsInvariant(db, front);
      StepNulls(db, Execute(db, INITIAL, front).value, run[|run| - 1]);
    }
  }

  // ---------- deallocation ----------

  /** Which steps begin and end a deallocation. */
  lemma {:induction false} StepDeallocates(db: Db, sh: Shared, th: Thread, a: Action)
    requires Enabled(sh, th, a)
    ensures var sh' := SharedStep(db, sh, th, a);
            && sh'.dying == (sh.dying || a.BeginDealloc?)
            && sh'.closeFailed == (sh.closeFailed || (a.FailWrite? && sh.dying))
            && sh'.destroyed == (sh.destroyed || a.Destroy?)
  {
    hide Enabled, ReadTurn, Db.Root;
    match a
    case Begin(_, _) =>
    case AcquireRead(_) =>
    case FailRead(_) =>
    case Test(_) =>
    case Use(_) =>
    case Turn(_, _) =>
    case ReleaseRead(_) =>
    case BeginClose(_) =>
    case AcquireWrite(_) =>
    case FailWrite(_) =>
    case CloseHandle(_) =>
    case NullHandle(_) =>
    case SetFlag(_) =>
    case ReleaseWrite(_) =>
    case DropIter(_) =>
    case BeginDealloc(_) =>
    case Destroy(_) =>
  }

  lemma {:induction false} RunDeallocates(db: Db, run: seq<Action>)
    requires Execute(db, INITIAL, run).Some?
    ensures var sh := Execute(db, INITIAL, run).value.shared;
            && (sh.dying <==> exists a :: a in run && a.BeginDealloc?)
            && (sh.closeFailed <==> RefusedInDealloc(run))
            && (sh.destroyed <==> exists a :: a in run && a.Destroy?)
    decreases |run|
  {
    hide Enabled, SharedStep, ThreadStep;
    if |run| > 0 {
      var front, a := run[..|run| - 1], run[|run| - 1];
      LastStep(db, run);
      assert run == front + [a];
      RunDeallocates(db, front);
      var s := Execute(db, INITIAL, front).value;
      StepDeallocates(db, s.shared, ThreadOf(s, a.p), a);
    }
  }

  /** When the lock has been destroyed, the handle has been closed exactly once before, unless the deallocation was
      refused the write lock: then it has not been closed at all. */
  lemma DestroyedBehindTheClose(db: Db, run: seq<Action>, p: nat)
    requires db.Valid() && Execute(db, INITIAL, run).Some? && Destroy(p) in run
    ensures Nulled(run) == if RefusedInDealloc(run) then 0 else 1
  {
    hide Apply, ThreadOk, IterOk;
    RunKeepsInvariant(db, run);
    RunDeallocates(db, run);
    NulledOnce(db, run);
  }

  // ---------- what can begin, and closing as a run ----------

  /** A new reader waits for calls, closes and its deallocation. */
  lemma CallsCanBegin(db: Db, p: nat, op: Op)
    ensures op != NextItem ==>
              && Apply(db, INITIAL, Begin(p, op)).Some?
              && ThreadOf(Apply(db, INITIAL, Begin(p, op)).value, p).phase == WantRead(op)
    ensures Apply(db, INITIAL, BeginClose(p)).Some?
    ensures ThreadOf(Apply(db, INITIAL, BeginClose(p)).value, p).phase == WantWrite
    ensures Apply(db, INITIAL, BeginDealloc(p)).Some?
    ensures ThreadOf(Apply(db, INITIAL, BeginDealloc(p)).value, p).phase == WantWrite
  {
  }

  /** The steps that the events of a close stand for; looking at the handle and closing it are one step. */
  function CloseSteps(p: nat, es: seq<Event>): seq<Action>
  {
    if RefusedWrite in es then [FailWrite(p)]
    else TakenSteps(p, NulledHandle in es) + [SetFlag(p)] + [ReleaseWrite(p)]
  }

  function TakenSteps(p: nat, open: bool): seq<Action>
  {
    [AcquireWrite(p)] + [CloseHandle(p)] + if open then [NullHandle(p)] else []
  }

  lemma OneMore(db: Db, s: State, run: seq<Action>, a: Action, s': State)
    requires Execute(db, s, run).Some? && Apply(db, Execute(db, s, run).value, a) == Some(s')
    ensures Execute(db, s, run + [a]) == Some(s')
  {
    hide Apply;
    assert (run + [a])[..|run|] == run;
  }

  /** What a step of a close does. */
  lemma CloseStep(db: Db, s: State, p: nat, a: Action) returns (r: State)
    requires a in [AcquireWrite(p), CloseHandle(p), NullHandle(p), SetFlag(p), ReleaseWrite(p), FailWrite(p)]
    requires Enabled(s.shared, ThreadOf(s, p), a)
    ensures Apply(db, s, a) == Some(r)
    ensures r.shared == SharedStep(db, s.shared, ThreadOf(s, p), a)
    ensures ThreadOf(r, p) == ThreadStep(db, s.shared, ThreadOf(s, p), a)
  {
    hide Enabled, SharedStep, ThreadStep;
    r := State(SharedStep(db, s.shared, ThreadOf(s, p), a),
               s.threads[p := ThreadStep(db, s.shared, ThreadOf(s, p), a)]);
  }

  /** Every record of events that `Close` can leave is a run of the protocol, after which the reader is closed. */
  lemma CloseIsRun(db: Db, s: State, p: nat, es: seq<Event>)
    requires SharedOk(s.shared) && !s.shared.dying && ThreadOf(s, p).phase.WantWrite? && OneClose([], es)
    requires es != [RefusedWrite] ==> s.shared.writer.None? && s.shared.readers == {} && es[1] == Looked(s.shared.mmdb)
    ensures var r := Execute(db, s, CloseSteps(p, es));
            && r.Some? && ThreadOf(r.value, p).phase.Idle?
            && (es == [RefusedWrite] ==> r.value.shared == s.shared)
            && (es != [RefusedWrite] ==>
                  && r.value.shared.closed && !r.value.shared.mmdb && !r.value.shared.handleOpen
                  && r.value.shared.writer.None?)
  {
    hide Apply, Execute, TakenSteps;
    if es == [RefusedWrite] {
      NothingIsExecuted(db, s);
      var s1 := CloseStep(db, s, p, FailWrite(p));
      OneMore(db, s, [], FailWrite(p), s1);
      assert [] + [FailWrite(p)] == [FailWrite(p)];
    } else {
      assert NulledHandle in es <==> s.shared.mmdb;
      var taken := TakenClose(db, s, p);
      CloseEnds(db, s, p, TakenSteps(p, s.shared.mmdb), taken);
    }
  }

  lemma TakenClose(db: Db, s: State, p: nat) returns (r: State)
    requires Settled(s.shared) && !s.shared.dying && ThreadOf(s, p).phase.WantWrite?
    requires s.shared.writer.None? && s.shared.readers == {}
    ensures Execute(db, s, TakenSteps(p, s.shared.mmdb)) == Some(r) && ThreadOf(r, p).phase.HandleNulled?
    ensures !r.shared.dying && !r.shared.mmdb && !r.shared.handleOpen
  {
    hide Apply, Execute, Enabled, SharedStep, ThreadStep, ThreadOf, Settled;
    NothingIsExecuted(db, s);
    var s1 := TakeWriteLock(db, s, p);
    OneMore(db, s, [], AcquireWrite(p), s1);
    assert [] + [AcquireWrite(p)] == [AcquireWrite(p)];
    r := CloseOpenHandle(db, s1, p);
    OneMore(db, s, [AcquireWrite(p)], CloseHandle(p), r);
    var run := [AcquireWrite(p)] + [CloseHandle(p)];
    if s.shared.mmdb {
      var s2 := r;
      r := NullClosedHandle(db, s2, p);
      OneMore(db, s, run, NullHandle(p), r);
    } else {
      assert run + [] == run;
    }
  }

  lemma TakeWriteLock(db: Db, s: State, p: nat) returns (r: State)
    requires ThreadOf(s, p).phase.WantWrite? && s.shared.writer.None? && s.shared.readers == {}
    ensures Apply(db, s, AcquireWrite(p)) == Some(r) && ThreadOf(r, p).phase.HasWrite?
    ensures r.shared == s.shared.(writer := Some(p)) && (Settled(s.shared) ==> Settled(r.shared))
  {
    hide Apply;
    r := CloseStep(db, s, p, AcquireWrite(p));
  }

  lemma CloseOpenHandle(db: Db, s: State, p: nat) returns (r: State)
    requires ThreadOf(s, p).phase.HasWrite? && Settled(s.shared)
    ensures Apply(db, s, CloseHandle(p)) == Some(r)
    ensures if s.shared.mmdb then ThreadOf(r, p).phase.HandleClosed? else ThreadOf(r, p).phase.HandleNulled?
    ensures r.shared.dying == s.shared.dying && r.shared.mmdb == s.shared.mmdb && !r.shared.handleOpen
  {
    hide Apply;
    r := CloseStep(db, s, p, CloseHandle(p));
  }

  lemma NullClosedHandle(db: Db, s: State, p: nat) returns (r: State)
    requires ThreadOf(s, p).phase.HandleClosed?
    ensures Apply(db, s, NullHandle(p)) == Some(r) && ThreadOf(r, p).phase.HandleNulled?
    ensures r.shared == s.shared.(mmdb := false)
  {
    hide Apply;
    r := CloseStep(db, s, p, NullHandle(p));
  }

  lemma NothingIsExecuted(db: Db, s: State)
    ensures Execute(db, s, []) == Some(s)
  {
  }

  lemma CloseEnds(db: Db, s: State, p: nat, run: seq<Action>, now: State)
    requires Execute(db, s, run) == Some(now) && ThreadOf(now, p).phase.HandleNulled? && !now.shared.dying
    ensures var r := Execute(db, s, run + [SetFlag(p)] + [ReleaseWrite(p)]);
            && r.Some? && ThreadOf(r.value, p).phase.Idle?
            && r.value.shared == now.shared.(closed := true, writer := None)
  {
    hide Apply, Execute;
    var s1 := CloseStep(db, now, p, SetFlag(p));
    OneMore(db, s, run, SetFlag(p), s1);
    var s2 := CloseStep(db, s1, p, ReleaseWrite(p));
    OneMore(db, s, run + [SetFlag(p)], ReleaseWrite(p), s2);
  }
}
