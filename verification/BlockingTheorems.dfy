/** Main results about `bounded_blocking_queue` and `blocking_queue`, over every run of any number of threads. */
module BlockingTheorems {
  import opened Wrappers
  import opened ClosableFifo
  import opened BlockingModel
  import opened BlockingInvariant

  // ---- Wakeups ----

  /**
   No lost wakeup, in every run: elements next to a parked consumer, and free places next to a parked
   producer of an open queue, are covered by wakeups still in flight; after close each parked thread is
   still owed a `notify_all`.
   */
  lemma NoWakeupIsLost<T>(cap: Capacity, threads: nat, actions: seq<Action<T>>, t: nat)
    requires ValidCapacity(cap) && t < threads && Run(cap, Init<T>(threads), actions).Some?
    ensures var s := Run(cap, Init<T>(threads), actions).value;
            var y := CensusOf(s.threads);
            && (s.threads[t].GetParked? ==> |s.queue| <= y.oweNotEmpty + y.wokenGet)
            && (s.threads[t].PutParked? ==> cap.Some? && (!s.closed ==> cap.value - |s.queue| <= y.oweNotFull + y.wokenPut))
            && (s.threads[t].GetParked? && s.closed ==> exists u :: 0 <= u < threads && s.threads[u].ClosingNotEmpty?)
            && (s.threads[t].PutParked? && s.closed ==>
                  exists u :: 0 <= u < threads && (s.threads[u].ClosingNotEmpty? || s.threads[u].ClosingNotFull?))
  {
    InitInv<T>(cap, threads);
    RunInv(cap, Init<T>(threads), actions);
    var s := Run(cap, Init<T>(threads), actions).value;
    CensusPut(s.threads, t, s.threads[t]);
    if (s.threads[t].GetParked? || s.threads[t].PutParked?) && s.closed {
      var u := PendingCloser(cap, s, t);
    }
  }

  lemma PendingCloser<T>(cap: Capacity, s: State<T>, t: nat) returns (u: nat)
    requires Inv(cap, s) && s.closed && t < |s.threads| && (s.threads[t].GetParked? || s.threads[t].PutParked?)
    ensures u < |s.threads|
    ensures s.threads[u].ClosingNotEmpty? || (s.threads[t].PutParked? && s.threads[u].ClosingNotFull?)
  {
    CensusPut(s.threads, t, s.threads[t]);
    if CensusOf(s.threads).closeNotEmpty > 0 {
      u := SomebodyAt(CloseNotEmpty, s.threads);
    } else {
      u := SomebodyAt(CloseNotFull, s.threads);
    }
  }

  // ---- Stuck states ----

  /** A thread in the middle of a call that is not waiting on a condition variable. */
  predicate CanStep<T>(p: Thread<T>) {
    !p.Idle? && !p.PutParked? && !p.GetParked?
  }

  predicate OwnStep<T>(a: Action<T>) {
    !a.Start? && !a.Spurious?
  }

  /** Such a thread always has a step of its own: the mutex sections and notifications never block. */
  lemma CanStepIsEnabled<T>(cap: Capacity, s: State<T>, t: nat) returns (a: Action<T>)
    requires t < |s.threads| && CanStep(s.threads[t])
    ensures a.thread == t && OwnStep(a) && Step(cap, s, a).Some?
  {
    match s.threads[t]
    case OwesNotEmpty =>
      if u :| 0 <= u < |s.threads| && s.threads[u].GetParked? { a := Notify(t, Some(u)); } else { a := Notify(t, None); }
    case OwesNotFull(_) =>
      if u :| 0 <= u < |s.threads| && s.threads[u].PutParked? { a := Notify(t, Some(u)); } else { a := Notify(t, None); }
    case ClosingNotEmpty => a := NotifyAll(t);
    case ClosingNotFull => a := NotifyAll(t);
    case _ => a := Section(t);
  }

  ghost predicate Stuck<T>(s: State<T>) {
    forall t | 0 <= t < |s.threads| :: !CanStep(s.threads[t])
  }

  /** A state is stuck exactly when no step is enabled but new calls and spurious wakeups. */
  lemma StuckMeansNoStep<T>(cap: Capacity, s: State<T>)
    ensures Stuck(s) <==> forall a | OwnStep(a) :: Step(cap, s, a).None?
  {
    forall a | OwnStep(a) && Step(cap, s, a).Some? ensures !Stuck(s) {
      assert CanStep(s.threads[a.thread]);
    }
    if !Stuck(s) {
      var t :| 0 <= t < |s.threads| && CanStep(s.threads[t]);
      var a := CanStepIsEnabled(cap, s, t);
    }
  }

  /** Nobody is stuck without cause: consumers wait only on an empty open queue, producers only on a full open one. */
  lemma StuckOnlyWhenItMustBe<T>(cap: Capacity, s: State<T>, t: nat)
    requires Inv(cap, s) && Stuck(s) && t < |s.threads|
    ensures s.threads[t].GetParked? ==> s.queue == [] && !s.closed
    ensures s.threads[t].PutParked? ==> cap.Some? && |s.queue| == cap.value && !s.closed
  {
    forall place: Place | place != Elsewhere && place != ParkedPut && place != ParkedGet
      ensures CountAt(CensusOf(s.threads), place) == 0
    {
      NobodyAt(place, s.threads);
    }
    CensusPut(s.threads, t, s.threads[t]);
    var y := CensusOf(s.threads);
    assert CountAt(y, OweNotEmpty) == CountAt(y, OweNotFull) == CountAt(y, WokenGet) == CountAt(y, WokenPut) == 0;
    assert CountAt(y, CloseNotEmpty) == CountAt(y, CloseNotFull) == 0;
  }

  /** In a stuck state producers and consumers are never parked together. */
  lemma NeverBothStuck<T>(cap: Capacity, threads: nat, actions: seq<Action<T>>, t: nat, u: nat)
    requires ValidCapacity(cap) && t < threads && u < threads && Run(cap, Init<T>(threads), actions).Some?
    requires Stuck(Run(cap, Init<T>(threads), actions).value)
    ensures var s := Run(cap, Init<T>(threads), actions).value;
            !(s.threads[t].GetParked? && s.threads[u].PutParked?)
  {
    InitInv<T>(cap, threads);
    RunInv(cap, Init<T>(threads), actions);
    StuckOnlyWhenItMustBe(cap, Run(cap, Init<T>(threads), actions).value, t);
    StuckOnlyWhenItMustBe(cap, Run(cap, Init<T>(threads), actions).value, u);
  }

  // ---- Termination ----

  /** Steps a thread can still take, being woken included: in a closed queue to its return, in an open one until it waits. */
  function Remaining<T>(closed: bool, p: Thread<T>): nat {
    match p
    case Idle(_) => 0
    case Entering(_) => if closed then 3 else 4
    case PutParked(_) => 3
    case PutWoken(_) => if closed then 2 else 4
    case GetParked => 3
    case GetWoken => if closed then 2 else 4
    case OwesNotEmpty => if closed then 1 else 2
    case OwesNotFull(_) => if closed then 1 else 2
    case ClosingNotEmpty => 2
    case ClosingNotFull => 1
  }

  function Effort<T>(closed: bool, threads: seq<Thread<T>>): nat {
    if threads == [] then 0 else Remaining(closed, threads[0]) + Effort(closed, threads[1..])
  }

  lemma {:induction false} EffortPut<T>(closed: bool, threads: seq<Thread<T>>, t: nat, p: Thread<T>)
    requires t < |threads|
    ensures Effort(closed, threads[t := p]) + Remaining(closed, threads[t]) == Effort(closed, threads) + Remaining(closed, p)
  {
    if t == 0 {
      assert threads[t := p][1..] == threads[1..];
    } else {
      assert threads[t := p][1..] == threads[1..][t - 1 := p];
      EffortPut(closed, threads[1..], t - 1, p);
    }
  }

  lemma {:induction false} EffortNoMore<T>(closed: bool, before: seq<Thread<T>>, after: seq<Thread<T>>)
    requires |before| == |after|
    requires forall t | 0 <= t < |before| :: Remaining(closed, after[t]) <= Remaining(closed, before[t])
    ensures Effort(closed, after) <= Effort(closed, before)
  {
    if before != [] { EffortNoMore(closed, before[1..], after[1..]); }
  }

  /** After the close each thread has at most three steps left. */
  lemma {:induction false} EffortAfterClose<T>(threads: seq<Thread<T>>)
    ensures Effort(true, threads) <= 3 * |threads|
  {
    if threads != [] { EffortAfterClose(threads[1..]); }
  }

  /** A section adds at most one entry to the history, its own, and no push to a closed queue. */
  lemma SectionLogs<T>(cap: Capacity, s: State<T>, t: nat)
    requires t < |s.threads| && SectionStep(cap, s, t).Some?
    ensures var h, h' := s.history, SectionStep(cap, s, t).value.history;
            h' == h || exists e :: h' == h + [Did(t, e)] && (s.closed ==> !e.DidPush?)
  {
  }

  /** A section moves its own thread only, and in a closed queue it parks nobody. */
  lemma SectionMovesOne<T>(cap: Capacity, s: State<T>, t: nat)
    requires t < |s.threads| && SectionStep(cap, s, t).Some?
    ensures var s' := SectionStep(cap, s, t).value;
            && s'.threads == s.threads[t := s'.threads[t]]
            && (s.closed ==> s'.closed)
            && (s.closed ==> !s'.threads[t].PutParked? && !s'.threads[t].GetParked?)
  {
  }

  /** Once closed, always closed; and nobody parks again. */
  lemma ClosedStaysClosed<T>(cap: Capacity, s: State<T>, a: Action<T>, t: nat)
    requires s.closed && Step(cap, s, a).Some? && t < |s.threads|
    ensures var s' := Step(cap, s, a).value;
            && s'.closed && Accepted(s'.history) == Accepted(s.history)
            && (s'.threads[t].PutParked? ==> s.threads[t].PutParked?)
            && (s'.threads[t].GetParked? ==> s.threads[t].GetParked?)
  {
    if a.Section? {
      SectionMovesOne(cap, s, a.thread);
      SectionLogs(cap, s, a.thread);
      NoPushNoAccept(s.history, Step(cap, s, a).value.history, a.thread);
    }
  }

  lemma NoPushNoAccept<T>(h: seq<Did<T>>, h': seq<Did<T>>, t: nat)
    requires h' == h || exists e :: h' == h + [Did(t, e)] && !e.DidPush?
    ensures Accepted(h') == Accepted(h)
  {
    if h' != h {
      assert h'[..|h|] == h;
    }
  }

  /** A section that leaves the flag alone brings its thread nearer to its return or to a wait. */
  lemma SectionUsesEffort<T>(cap: Capacity, s: State<T>, t: nat)
    requires t < |s.threads| && SectionStep(cap, s, t).Some?
    ensures var s' := SectionStep(cap, s, t).value;
            s'.closed == s.closed ==> Remaining(s.closed, s'.threads[t]) < Remaining(s.closed, s.threads[t])
  {
  }

  lemma SectionEffort<T>(cap: Capacity, s: State<T>, t: nat)
    requires t < |s.threads| && SectionStep(cap, s, t).Some?
    ensures var s' := SectionStep(cap, s, t).value;
            s'.closed == s.closed ==> Effort(s.closed, s'.threads) < Effort(s.closed, s.threads)
  {
    SectionMovesOne(cap, s, t);
    SectionUsesEffort(cap, s, t);
    EffortPut(s.closed, s.threads, t, SectionStep(cap, s, t).value.threads[t]);
  }

  /** Waking thread `u` costs at most one, less than the notification frees. */
  lemma NotifyEffort<T>(s: State<T>, t: nat, target: Option<nat>)
    requires t < |s.threads| && NotifyStep(s, t, target).Some?
    ensures Effort(s.closed, NotifyStep(s, t, target).value.threads) < Effort(s.closed, s.threads)
  {
    var s' := NotifyStep(s, t, target).value;
    if target.Some? {
      var u := target.value;
      var woken := s.threads[u := Wake(s.threads[u])];
      EffortPut(s.closed, s.threads, u, Wake(s.threads[u]));
      EffortPut(s.closed, woken, t, s'.threads[t]);
      assert s'.threads == woken[t := s'.threads[t]];
    } else {
      EffortPut(s.closed, s.threads, t, s'.threads[t]);
    }
  }

  lemma NotifyAllEffort<T>(cap: Capacity, s: State<T>, t: nat)
    requires s.closed && t < |s.threads| && NotifyAllStep(cap, s, t).Some?
    ensures Effort(true, NotifyAllStep(cap, s, t).value.threads) < Effort(true, s.threads)
  {
    var s' := NotifyAllStep(cap, s, t).value;
    EffortNoMore(true, s.threads[t := s'.threads[t]], s'.threads);
    EffortPut(true, s.threads, t, s'.threads[t]);
  }

  /** After close every step but the start of a new call uses up effort, spurious wakeups included. */
  lemma EffortFalls<T>(cap: Capacity, s: State<T>, a: Action<T>)
    requires s.closed && Step(cap, s, a).Some? && !a.Start?
    ensures Effort(true, Step(cap, s, a).value.threads) < Effort(true, s.threads)
  {
    match a
    case Section(t) => SectionMovesOne(cap, s, t); SectionEffort(cap, s, t);
    case Notify(t, target) => NotifyEffort(s, t, target);
    case NotifyAll(t) => NotifyAllEffort(cap, s, t);
    case Spurious(t) => EffortPut(true, s.threads, t, Wake(s.threads[t]));
  }

  /** So every run after close without new calls is at most as long as the effort left. */
  lemma {:induction false} RunsAfterCloseAreShort<T>(cap: Capacity, s: State<T>, actions: seq<Action<T>>)
    requires s.closed && Run(cap, s, actions).Some?
    requires forall i | 0 <= i < |actions| :: !actions[i].Start?
    ensures |actions| + Effort(true, Run(cap, s, actions).value.threads) <= Effort(true, s.threads)
    ensures Run(cap, s, actions).value.closed && Accepted(Run(cap, s, actions).value.history) == Accepted(s.history)
    decreases |actions|
  {
    if actions != [] {
      var next := Step(cap, s, actions[0]).value;
      EffortFalls(cap, s, actions[0]);
      ClosedStaysClosed(cap, s, actions[0], actions[0].thread);
      RunsAfterCloseAreShort(cap, next, actions[1..]);
    }
  }

  /** And where it can go no further every call has returned or thrown. */
  lemma ClosedAndStuckMeansDone<T>(cap: Capacity, s: State<T>)
    requires Inv(cap, s) && s.closed && Stuck(s)
    ensures forall t | 0 <= t < |s.threads| :: s.threads[t].Idle?
  {
    forall t | 0 <= t < |s.threads| ensures s.threads[t].Idle? {
      StuckOnlyWhenItMustBe(cap, s, t);
    }
  }

  /** What bounds the threads' own steps from here on, a close still to come included. */
  function Budget<T>(s: State<T>): nat {
    Effort(s.closed, s.threads) + if s.closed then 0 else 3 * |s.threads|
  }

  /** Before the close nobody is about to notify all. */
  lemma NobodyClosing<T>(cap: Capacity, s: State<T>, t: nat)
    requires Inv(cap, s) && !s.closed && t < |s.threads|
    ensures !s.threads[t].ClosingNotEmpty? && !s.threads[t].ClosingNotFull?
  {
    CensusPut(s.threads, t, s.threads[t]);
  }

  /** The section that closes hands over to what is left after the close. */
  lemma ClosingSectionFalls<T>(cap: Capacity, s: State<T>, t: nat)
    requires !s.closed && t < |s.threads| && SectionStep(cap, s, t).Some? && SectionStep(cap, s, t).value.closed
    ensures Budget(SectionStep(cap, s, t).value) < Budget(s)
  {
    EffortPut(false, s.threads, t, Idle(Nothing));
    EffortAfterClose(SectionStep(cap, s, t).value.threads);
  }

  /** Open or closed, every step of the threads' own uses up budget: no thread wakes and parks again for ever. */
  lemma BudgetFalls<T>(cap: Capacity, s: State<T>, a: Action<T>)
    requires Inv(cap, s) && Step(cap, s, a).Some? && OwnStep(a)
    ensures Budget(Step(cap, s, a).value) < Budget(s)
  {
    if s.closed {
      EffortFalls(cap, s, a);
      ClosedStaysClosed(cap, s, a, a.thread);
    } else if a.Section? {
      SectionEffort(cap, s, a.thread);
      if Step(cap, s, a).value.closed { ClosingSectionFalls(cap, s, a.thread); }
    } else if a.Notify? {
      NotifyEffort(s, a.thread, a.target);
    } else {
      NobodyClosing(cap, s, a.thread);
    }
  }

  /** So from every reachable state, runs without new calls and spurious wakeups are of bounded length. */
  lemma {:induction false} OwnRunsAreShort<T>(cap: Capacity, s: State<T>, actions: seq<Action<T>>)
    requires Inv(cap, s) && Run(cap, s, actions).Some?
    requires forall i | 0 <= i < |actions| :: OwnStep(actions[i])
    ensures |actions| + Budget(Run(cap, s, actions).value) <= Budget(s)
    decreases |actions|
  {
    if actions != [] {
      BudgetFalls(cap, s, actions[0]);
      StepInv(cap, s, actions[0]);
      OwnRunsAreShort(cap, Step(cap, s, actions[0]).value, actions[1..]);
    }
  }

  /** Where a thread may be for good: out of any call, a consumer on an empty open queue, or a producer on a full open one. */
  ghost predicate AtRest<T>(cap: Capacity, s: State<T>, p: Thread<T>) {
    || p.Idle?
    || (p.GetParked? && s.queue == [] && !s.closed)
    || (p.PutParked? && cap.Some? && |s.queue| == cap.value && !s.closed)
  }

  /** A run that no step of the threads' own can continue has left every thread at rest. */
  lemma StuckMeansAtRest<T>(cap: Capacity, s: State<T>)
    requires Inv(cap, s) && forall a | OwnStep(a) :: Step(cap, s, a).None?
    ensures forall t | 0 <= t < |s.threads| :: AtRest(cap, s, s.threads[t])
  {
    StuckMeansNoStep(cap, s);
    forall t | 0 <= t < |s.threads| ensures AtRest(cap, s, s.threads[t]) {
      StuckOnlyWhenItMustBe(cap, s, t);
    }
  }

  /** From every reachable state the threads' own steps alone bring every thread to rest. */
  lemma {:induction false} EverybodySettles<T>(cap: Capacity, s: State<T>) returns (actions: seq<Action<T>>)
    requires Inv(cap, s)
    ensures forall i | 0 <= i < |actions| :: OwnStep(actions[i])
    ensures Run(cap, s, actions).Some?
    ensures var e := Run(cap, s, actions).value; forall t | 0 <= t < |s.threads| :: AtRest(cap, e, e.threads[t])
    decreases Budget(s)
  {
    if t :| 0 <= t < |s.threads| && CanStep(s.threads[t]) {
      var a := CanStepIsEnabled(cap, s, t);
      StepInv(cap, s, a);
      BudgetFalls(cap, s, a);
      var rest := EverybodySettles(cap, Step(cap, s, a).value);
      actions := [a] + rest;
      assert actions[1..] == rest;
    } else {
      actions := [];
      StuckMeansNoStep(cap, s);
      StuckMeansAtRest(cap, s);
    }
  }

  /** From any reachable closed state the threads' own steps alone finish every call. */
  lemma CloseReleasesEverybody<T>(cap: Capacity, s: State<T>) returns (actions: seq<Action<T>>)
    requires Inv(cap, s) && s.closed
    ensures forall i | 0 <= i < |actions| :: OwnStep(actions[i])
    ensures Run(cap, s, actions).Some?
    ensures forall t | 0 <= t < |s.threads| :: Run(cap, s, actions).value.threads[t].Idle?
  {
    actions := EverybodySettles(cap, s);
    RunsAfterCloseAreShort(cap, s, actions);
  }

  // ---- Refinement of a closable FIFO ----

  function Abs<T>(s: State<T>): Fifo<T> {
    Fifo(s.queue, s.closed)
  }

  /** The FIFO allows everything that the calls did so far, and is now where the queue is. */
  ghost predicate Refines<T>(cap: Capacity, s: State<T>) {
    Replay(cap, s.history) == Some(Abs(s))
  }

  /** A section that did `e` refines the FIFO if the FIFO allows `e` and goes where the section went. */
  lemma LogRefines<T>(cap: Capacity, s: State<T>, s': State<T>, d: Did<T>)
    requires Refines(cap, s) && s'.history == s.history + [d] && Apply(cap, Abs(s), d.event) == Some(Abs(s'))
    ensures Refines(cap, s')
  {
    ReplayNext(cap, s.history, d);
  }

  lemma PutSectionRefines<T>(cap: Capacity, s: State<T>, t: nat, v: T)
    requires Refines(cap, s) && t < |s.threads|
    ensures Refines(cap, PutSection(cap, s, t, v))
  {
    var s' := PutSection(cap, s, t, v);
    if s.closed {
      LogRefines(cap, s, s', Did(t, DidThrow));
    } else if HasRoom(cap, |s.queue|) {
      LogRefines(cap, s, s', Did(t, DidPush(v)));
    }
  }

  lemma GetSectionRefines<T>(cap: Capacity, s: State<T>, t: nat)
    requires Refines(cap, s) && t < |s.threads|
    ensures Refines(cap, GetSection(cap, s, t))
  {
    var s' := GetSection(cap, s, t);
    if s.queue != [] {
      LogRefines(cap, s, s', Did(t, DidPop(s.queue[0])));
    } else if s.closed {
      LogRefines(cap, s, s', Did(t, DidDrain));
    }
  }

  lemma TrySectionRefines<T>(cap: Capacity, s: State<T>, t: nat)
    requires Refines(cap, s) && t < |s.threads| && s.threads[t].Entering?
    requires s.threads[t].call.TryEmplace? || s.threads[t].call.TryPop? || s.threads[t].call.Close?
    ensures Refines(cap, SectionStep(cap, s, t).value)
  {
    var s' := SectionStep(cap, s, t).value;
    match s.threads[t].call
    case TryEmplace(v) =>
      LogRefines(cap, s, s', Did(t, if s.closed || !HasRoom(cap, |s.queue|) then DidRefuse else DidPush(v)));
    case TryPop => LogRefines(cap, s, s', Did(t, if s.queue == [] then DidMiss else DidPop(s.queue[0])));
    case Close => LogRefines(cap, s, s', Did(t, DidClose));
    case _ =>
  }

  /** Every step refines the FIFO. */
  lemma StepRefinesFifo<T>(cap: Capacity, s: State<T>, a: Action<T>)
    requires Refines(cap, s) && Step(cap, s, a).Some?
    ensures Refines(cap, Step(cap, s, a).value)
  {
    if a.Section? {
      var t := a.thread;
      match s.threads[t]
      case Entering(Emplace(v)) => PutSectionRefines(cap, s, t, v);
      case PutWoken(v) => PutSectionRefines(cap, s, t, v);
      case Entering(WaitAndPop) => GetSectionRefines(cap, s, t);
      case GetWoken => GetSectionRefines(cap, s, t);
      case Entering(_) => TrySectionRefines(cap, s, t);
      case _ =>
    }
  }

  lemma {:induction false} RunRefines<T>(cap: Capacity, s: State<T>, actions: seq<Action<T>>)
    requires Refines(cap, s) && Run(cap, s, actions).Some?
    ensures Refines(cap, Run(cap, s, actions).value)
    decreases |actions|
  {
    if actions != [] {
      StepRefinesFifo(cap, s, actions[0]);
      RunRefines(cap, Step(cap, s, actions[0]).value, actions[1..]);
    }
  }

  /**
   Every run of either queue is a run of the closable FIFO: each event of its history was allowed by the
   FIFO at its place, pushes only when open with room, pops of the front only, `wait_and_pop` false only
   when closed and empty, throws only when closed; and the FIFO ends where the queue does.
   */
  lemma RunRefinesFifo<T>(cap: Capacity, threads: nat, actions: seq<Action<T>>)
    requires Run(cap, Init<T>(threads), actions).Some?
    ensures var s := Run(cap, Init<T>(threads), actions).value;
            Replay(cap, s.history) == Some(Fifo(s.queue, s.closed))
  {
    RunRefines(cap, Init<T>(threads), actions);
  }

  /** In every run the size stays within the capacity and values leave in the order they were accepted. */
  lemma FifoOverRuns<T>(cap: Capacity, threads: nat, actions: seq<Action<T>>)
    requires Run(cap, Init<T>(threads), actions).Some?
    ensures var s := Run(cap, Init<T>(threads), actions).value;
            && (cap.Some? ==> |s.queue| <= cap.value)
            && Accepted(s.history) == Delivered(s.history) + s.queue
  {
    RunRefines(cap, Init<T>(threads), actions);
    FifoConserves(cap, Run(cap, Init<T>(threads), actions).value.history);
  }

  // ---- One call, one event ----

  /** Where a thread can be during `call` and at its return. */
  ghost predicate Within<T>(call: Call<T>, p: Thread<T>) {
    p == Entering(call) ||
    match call
    case Emplace(v) => p == PutParked(v) || p == PutWoken(v) || p == OwesNotEmpty || p == Idle(Pushed) || p == Idle(Threw)
    case TryEmplace(v) => p == OwesNotEmpty || p == Idle(Pushed) || p == Idle(Refused)
    case WaitAndPop => p.GetParked? || p.GetWoken? || p.OwesNotFull? || p == Idle(Drained) || (p.Idle? && p.last.Popped?)
    case TryPop => p.OwesNotFull? || p == Idle(Missed) || (p.Idle? && p.last.Popped?)
    case Close => p == ClosingNotEmpty || p == ClosingNotFull || p == Idle(Closed)
  }

  /** What a thread has done in `call` when it is at `p`: nothing yet, or the one event its answer tells. */
  function Done<T>(call: Call<T>, p: Thread<T>): seq<Event<T>> {
    match p
    case OwesNotEmpty => PushOf(call)
    case OwesNotFull(v) => [DidPop(v)]
    case ClosingNotEmpty => [DidClose]
    case ClosingNotFull => [DidClose]
    case Idle(answer) => Told(call, answer)
    case _ => []
  }

  function PushOf<T>(call: Call<T>): seq<Event<T>> {
    if call.Emplace? || call.TryEmplace? then [DidPush(call.value)] else []
  }

  /** The event that an answer to `call` tells. */
  function Told<T>(call: Call<T>, answer: Answer<T>): seq<Event<T>> {
    match answer
    case Nothing => []
    case Pushed => PushOf(call)
    case Threw => [DidThrow]
    case Refused => [DidRefuse]
    case Popped(v) => [DidPop(v)]
    case Drained => [DidDrain]
    case Missed => [DidMiss]
    case Closed => [DidClose]
  }

  /** Thread `t` is in `call`, before which it had done `before`, and has done since what its place says. */
  ghost predicate Accounted<T>(s: State<T>, t: nat, call: Call<T>, before: seq<Event<T>>) {
    t < |s.threads| && Within(call, s.threads[t]) && Own(s.history, t) == before + Done(call, s.threads[t])
  }

  /** The section in which `t` does the event of its call. */
  lemma EventAccounted<T>(s: State<T>, s': State<T>, t: nat, call: Call<T>, before: seq<Event<T>>, e: Event<T>)
    requires Accounted(s, t, call, before) && Done(call, s.threads[t]) == []
    requires |s'.threads| == |s.threads| && s'.history == s.history + [Did(t, e)]
    requires Within(call, s'.threads[t]) && Done(call, s'.threads[t]) == [e]
    ensures Accounted(s', t, call, before)
  {
    OwnNext(s.history, Did(t, e), t);
  }

  lemma PutSectionAccounted<T>(cap: Capacity, s: State<T>, t: nat, v: T, before: seq<Event<T>>)
    requires Accounted(s, t, Emplace(v), before) && (s.threads[t] == Entering(Emplace(v)) || s.threads[t] == PutWoken(v))
    ensures Accounted(PutSection(cap, s, t, v), t, Emplace(v), before)
  {
    var s' := PutSection(cap, s, t, v);
    if s.closed {
      EventAccounted(s, s', t, Emplace(v), before, DidThrow);
    } else if HasRoom(cap, |s.queue|) {
      EventAccounted(s, s', t, Emplace(v), before, DidPush(v));
    }
  }

  lemma GetSectionAccounted<T>(cap: Capacity, s: State<T>, t: nat, before: seq<Event<T>>)
    requires Accounted(s, t, WaitAndPop, before) && (s.threads[t] == Entering(WaitAndPop) || s.threads[t].GetWoken?)
    ensures Accounted(GetSection(cap, s, t), t, WaitAndPop, before)
  {
    var s' := GetSection(cap, s, t);
    if s.queue != [] {
      EventAccounted(s, s', t, WaitAndPop, before, DidPop(s.queue[0]));
    } else if s.closed {
      EventAccounted(s, s', t, WaitAndPop, before, DidDrain);
    }
  }

  lemma TrySectionAccounted<T>(cap: Capacity, s: State<T>, t: nat, call: Call<T>, before: seq<Event<T>>)
    requires Accounted(s, t, call, before) && s.threads[t] == Entering(call)
    requires call.TryEmplace? || call.TryPop? || call.Close?
    ensures Accounted(SectionStep(cap, s, t).value, t, call, before)
  {
    var s' := SectionStep(cap, s, t).value;
    match call
    case TryEmplace(v) =>
      EventAccounted(s, s', t, call, before, if s.closed || !HasRoom(cap, |s.queue|) then DidRefuse else DidPush(v));
    case TryPop => EventAccounted(s, s', t, call, before, if s.queue == [] then DidMiss else DidPop(s.queue[0]));
    case Close => EventAccounted(s, s', t, call, before, DidClose);
    case _ =>
  }

  lemma OwnSectionAccounted<T>(cap: Capacity, s: State<T>, t: nat, call: Call<T>, before: seq<Event<T>>)
    requires Accounted(s, t, call, before) && SectionStep(cap, s, t).Some?
    ensures Accounted(SectionStep(cap, s, t).value, t, call, before)
  {
    match s.threads[t]
    case Entering(Emplace(v)) => PutSectionAccounted(cap, s, t, v, before);
    case PutWoken(v) => PutSectionAccounted(cap, s, t, v, before);
    case Entering(WaitAndPop) => GetSectionAccounted(cap, s, t, before);
    case GetWoken => GetSectionAccounted(cap, s, t, before);
    case Entering(_) => TrySectionAccounted(cap, s, t, call, before);
    case _ =>
  }

  /** Another thread's section. */
  lemma OthersAccounted<T>(s: State<T>, s': State<T>, u: nat, t: nat, call: Call<T>, before: seq<Event<T>>)
    requires Accounted(s, t, call, before) && u != t
    requires |s'.threads| == |s.threads| && s'.threads[t] == s.threads[t]
    requires s'.history == s.history || exists e :: s'.history == s.history + [Did(u, e)]
    ensures Accounted(s', t, call, before)
  {
    if s'.history != s.history {
      var e :| s'.history == s.history + [Did(u, e)];
      OwnNext(s.history, Did(u, e), t);
    }
  }

  lemma OtherSectionAccounted<T>(cap: Capacity, s: State<T>, u: nat, t: nat, call: Call<T>, before: seq<Event<T>>)
    requires Accounted(s, t, call, before) && u < |s.threads| && u != t && SectionStep(cap, s, u).Some?
    ensures Accounted(SectionStep(cap, s, u).value, t, call, before)
  {
    SectionLogs(cap, s, u);
    SectionMovesOne(cap, s, u);
    OthersAccounted(s, SectionStep(cap, s, u).value, u, t, call, before);
  }

  /** What becomes of a thread outside the sections: it is woken, or sends its notifications and returns. */
  ghost predicate Quietly<T>(p: Thread<T>, p': Thread<T>) {
    p' == p || p' == Wake(p) ||
    match p
    case OwesNotEmpty => p' == Idle(Pushed)
    case OwesNotFull(v) => p' == Idle(Popped(v))
    case ClosingNotEmpty => p' == ClosingNotFull || p' == Idle(Closed)
    case ClosingNotFull => p' == Idle(Closed)
    case _ => false
  }

  lemma QuietlyAccounted<T>(s: State<T>, s': State<T>, t: nat, call: Call<T>, before: seq<Event<T>>)
    requires Accounted(s, t, call, before) && |s'.threads| == |s.threads| && s'.history == s.history
    requires Quietly(s.threads[t], s'.threads[t])
    ensures Accounted(s', t, call, before)
  {
  }

  lemma NotifyIsQuiet<T>(s: State<T>, u: nat, target: Option<nat>, t: nat)
    requires u < |s.threads| && t < |s.threads| && NotifyStep(s, u, target).Some?
    ensures var s' := NotifyStep(s, u, target).value; s'.history == s.history && Quietly(s.threads[t], s'.threads[t])
  {
  }

  lemma NotifyAllIsQuiet<T>(cap: Capacity, s: State<T>, u: nat, t: nat)
    requires u < |s.threads| && t < |s.threads| && NotifyAllStep(cap, s, u).Some?
    ensures var s' := NotifyAllStep(cap, s, u).value; s'.history == s.history && Quietly(s.threads[t], s'.threads[t])
  {
  }

  /** Notifications, spurious wakeups and other threads' starts are no events. */
  lemma QuietAccounted<T>(cap: Capacity, s: State<T>, a: Action<T>, t: nat, call: Call<T>, before: seq<Event<T>>)
    requires Accounted(s, t, call, before) && Step(cap, s, a).Some? && !a.Section? && !(a.Start? && a.thread == t)
    ensures Accounted(Step(cap, s, a).value, t, call, before)
  {
    if a.Notify? {
      NotifyIsQuiet(s, a.thread, a.target, t);
    } else if a.NotifyAll? {
      NotifyAllIsQuiet(cap, s, a.thread, t);
    }
    QuietlyAccounted(s, Step(cap, s, a).value, t, call, before);
  }

  lemma StepAccounted<T>(cap: Capacity, s: State<T>, a: Action<T>, t: nat, call: Call<T>, before: seq<Event<T>>)
    requires Accounted(s, t, call, before) && Step(cap, s, a).Some? && !(a.Start? && a.thread == t)
    ensures Accounted(Step(cap, s, a).value, t, call, before)
  {
    if !a.Section? {
      QuietAccounted(cap, s, a, t, call, before);
    } else if a.thread == t {
      OwnSectionAccounted(cap, s, t, call, before);
    } else {
      OtherSectionAccounted(cap, s, a.thread, t, call, before);
    }
  }

  lemma {:induction false} RunAccounted<T>(
      cap: Capacity, s: State<T>, actions: seq<Action<T>>, t: nat, call: Call<T>, before: seq<Event<T>>)
    requires Accounted(s, t, call, before) && Run(cap, s, actions).Some?
    requires forall i | 0 <= i < |actions| :: !(actions[i].Start? && actions[i].thread == t)
    ensures Accounted(Run(cap, s, actions).value, t, call, before)
    decreases |actions|
  {
    if actions != [] {
      StepAccounted(cap, s, actions[0], t, call, before);
      RunAccounted(cap, Step(cap, s, actions[0]).value, actions[1..], t, call, before);
    }
  }

  lemma OneEventAtReturn<T>(call: Call<T>, p: Thread<T>)
    requires Within(call, p)
    ensures p.Idle? ==> |Done(call, p)| == 1
  {
  }

  /**
   Between the start of a call and its return, whatever runs in between, the thread does exactly one
   event, and it is the one its answer tells: a push of the argument, a pop of the value returned, a
   close, or a failure.  Until that event it has done nothing.
   */
  lemma OneEventPerCall<T>(cap: Capacity, s: State<T>, t: nat, call: Call<T>, actions: seq<Action<T>>)
    requires Step(cap, s, Start(t, call)).Some? && Run(cap, Step(cap, s, Start(t, call)).value, actions).Some?
    requires forall i | 0 <= i < |actions| :: !(actions[i].Start? && actions[i].thread == t)
    ensures var s' := Run(cap, Step(cap, s, Start(t, call)).value, actions).value;
            && Within(call, s'.threads[t])
            && Own(s'.history, t) == Own(s.history, t) + Done(call, s'.threads[t])
            && (s'.threads[t].Idle? ==> |Done(call, s'.threads[t])| == 1)
  {
    var started := Put(s, t, Entering(call));
    assert Step(cap, s, Start(t, call)) == Some(started);
    RunAccounted(cap, started, actions, t, call, Own(s.history, t));
    OneEventAtReturn(call, Run(cap, started, actions).value.threads[t]);
  }
}
