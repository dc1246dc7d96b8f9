/**
 `bounded_blocking_queue` (a capacity) and `blocking_queue` (none) themselves: each call takes the lock,
 waits, works on the queue in place, unlocks and then notifies, with other threads free to run whenever
 the lock is not held.
 */
module BlockingQueue {
  import opened Wrappers
  import opened ClosableFifo
  import opened BlockingModel
  import opened BlockingInvariant
  import opened BlockingTheorems

  datatype Error = InvalidCapacity

  /** How far a blocking call got while it was watched. */
  datatype Outcome<+T> = Returned(value: T) | Failed | StillWaiting

  ghost predicate OthersOnly<T>(me: nat, actions: seq<Action<T>>) {
    forall i | 0 <= i < |actions| :: actions[i].thread != me || actions[i].Spurious?
  }

  /** How many mutex sections thread `t` takes in a run. */
  function SectionsIn<T>(actions: seq<Action<T>>, t: nat): nat {
    if actions == [] then 0
    else
      var last := actions[|actions| - 1];
      SectionsIn(actions[..|actions| - 1], t) + if last.Section? && last.thread == t then 1 else 0
  }

  lemma SectionsNext<T>(actions: seq<Action<T>>, a: Action<T>, t: nat)
    ensures SectionsIn(actions + [a], t) == SectionsIn(actions, t) + if a.Section? && a.thread == t then 1 else 0
  {
    assert (actions + [a])[..|actions|] == actions;
  }

  /** Steps of others are none of `t`'s sections. */
  lemma {:induction false} SectionsOfOthers<T>(front: seq<Action<T>>, actions: seq<Action<T>>, t: nat)
    requires front <= actions && OthersOnly(t, actions[|front|..])
    ensures SectionsIn(actions, t) == SectionsIn(front, t)
    decreases |actions|
  {
    if |front| < |actions| {
      var rest := actions[|front|..];
      assert rest[|rest| - 1] == actions[|actions| - 1];
      assert actions[..|actions| - 1][|front|..] == rest[..|rest| - 1];
      SectionsOfOthers(front, actions[..|actions| - 1], t);
    } else {
      assert actions == front;
    }
  }

  /** What thread `me` may rely on while others run: at most it is woken, and none of their events are its own. */
  ghost predicate Rely<T>(s: State<T>, s': State<T>, me: nat) {
    && |s'.threads| == |s.threads| && me < |s.threads|
    && (s'.threads[me] == s.threads[me] || s'.threads[me] == Wake(s.threads[me]))
    && Adds(s.history, s'.history, me, [])
    && (s.closed ==> s'.closed && Accepted(s'.history) == Accepted(s.history))
  }

  lemma StepRely<T>(cap: Capacity, s: State<T>, a: Action<T>, me: nat)
    requires Step(cap, s, a).Some? && me < |s.threads| && (a.thread != me || a.Spurious?)
    ensures Rely(s, Step(cap, s, a).value, me)
  {
    if s.closed {
      ClosedStaysClosed(cap, s, a, me);
    }
    if a.Section? {
      SectionRely(cap, s, a.thread, me);
    }
  }

  lemma SectionRely<T>(cap: Capacity, s: State<T>, t: nat, me: nat)
    requires t < |s.threads| && SectionStep(cap, s, t).Some? && me < |s.threads| && t != me
    ensures var s' := SectionStep(cap, s, t).value;
            s'.threads[me] == s.threads[me] && Adds(s.history, s'.history, me, [])
  {
    SectionMovesOne(cap, s, t);
    SectionLogs(cap, s, t);
    var s' := SectionStep(cap, s, t).value;
    if s'.history != s.history {
      var e :| s'.history == s.history + [Did(t, e)];
      OwnNext(s.history, Did(t, e), me);
    }
  }

  lemma RelyTrans<T>(a: State<T>, b: State<T>, c: State<T>, me: nat)
    requires Rely(a, b, me) && Rely(b, c, me)
    ensures Rely(a, c, me)
  {
    AddsThen(a.history, b.history, c.history, me, [], []);
  }

  lemma {:induction false} RunRely<T>(cap: Capacity, s: State<T>, others: seq<Action<T>>, me: nat)
    requires Run(cap, s, others).Some? && OthersOnly(me, others) && me < |s.threads|
    ensures Rely(s, Run(cap, s, others).value, me)
    decreases |others|
  {
    if others != [] {
      var next := Step(cap, s, others[0]).value;
      StepRely(cap, s, others[0], me);
      RunRely(cap, next, others[1..], me);
      RelyTrans(s, next, Run(cap, next, others[1..]).value, me);
    }
  }

  lemma {:induction false} RunSnoc<T>(cap: Capacity, s: State<T>, actions: seq<Action<T>>, a: Action<T>)
    ensures Run(cap, s, actions + [a]) ==
            match Run(cap, s, actions) case None => None case Some(m) => Step(cap, m, a)
    decreases |actions|
  {
    if actions == [] {
      assert actions + [a] == [a] && [a][1..] == [];
    } else {
      assert (actions + [a])[1..] == actions[1..] + [a];
      match Step(cap, s, actions[0])
      case None =>
      case Some(next) => RunSnoc(cap, next, actions[1..], a);
    }
  }

  lemma LogAdds<T>(s: State<T>, t: nat, p: Thread<T>, e: Event<T>)
    requires t < |s.threads|
    ensures Adds(s.history, Log(s, t, p, e).history, t, [e])
  {
    OwnNext(s.history, Did(t, e), t);
  }

  /** What `emplace` of `value` has done when it comes out as `outcome`. */
  function EmplaceEvents<T>(value: T, outcome: Outcome<()>): seq<Event<T>> {
    match outcome
    case Returned(_) => [DidPush(value)]
    case Failed => [DidThrow]
    case StillWaiting => []
  }

  /** What `wait_and_pop` has done when it comes out as `outcome`. */
  function WaitAndPopEvents<T>(outcome: Outcome<T>): seq<Event<T>> {
    match outcome
    case Returned(value) => [DidPop(value)]
    case Failed => [DidDrain]
    case StillWaiting => []
  }

  /** Each call adds to the history exactly the events its contract names, and other threads theirs in between. */
  class BlockingQueue<T> {
    const capacity: Capacity
    var queue: seq<T>
    var closed: bool

    // The protocol state of all threads, and the run that led to it.
    ghost const threads: nat
    ghost var model: State<T>
    ghost var trace: seq<Action<T>>

    ghost predicate Valid()
      reads this
    {
      && ValidCapacity(capacity)
      && model.queue == queue && model.closed == closed && |model.threads| == threads
      && Run(capacity, Init<T>(threads), trace) == Some(model)
    }

    constructor (capacity: Capacity, ghost threads: nat)
      requires ValidCapacity(capacity)
      ensures Valid() && this.capacity == capacity && this.threads == threads && queue == [] && !closed
      ensures model.history == []
    {
      this.capacity := capacity;
      this.threads := threads;
      queue, closed := [], false;
      model, trace := Init(threads), [];
    }

    /** The bounded queue's constructor, which rejects a zero capacity. */
    static method CreateBounded(capacity: nat, ghost threads: nat) returns (r: Result<BlockingQueue<T>, Error>)
      ensures r.Failure? <==> capacity == 0
      ensures r.Success? ==> fresh(r.value) && r.value.Valid() && r.value.capacity == Some(capacity) && r.value.threads == threads
    {
      if capacity == 0 {
        return Failure(InvalidCapacity);
      }
      var q := new BlockingQueue<T>(Some(capacity), threads);
      r := Success(q);
    }

    /** So whatever holds in every run of the protocol holds of the queue, capacity, order and history included. */
    lemma ValidIsReachable()
      requires Valid()
      ensures Inv(capacity, model)
      ensures Replay(capacity, model.history) == Some(Fifo(queue, closed))
      ensures capacity.Some? ==> |queue| <= capacity.value
      ensures Accepted(model.history) == Delivered(model.history) + queue
    {
      InitInv<T>(capacity, threads);
      RunInv(capacity, Init<T>(threads), trace);
      RunRefinesFifo<T>(capacity, threads, trace);
      FifoOverRuns<T>(capacity, threads, trace);
    }

    lemma FitsCapacity()
      requires Valid() && capacity.Some?
      ensures |queue| <= capacity.value
    {
      ValidIsReachable();
    }

    ghost method Record(a: Action<T>)
      requires |model.threads| == threads
      requires Run(capacity, Init<T>(threads), trace) == Some(model) && Step(capacity, model, a).Some?
      modifies this`model, this`trace
      ensures Step(capacity, old(model), a) == Some(model) && trace == old(trace) + [a]
      ensures |model.threads| == threads
      ensures Run(capacity, Init<T>(threads), trace) == Some(model)
    {
      RunSnoc(capacity, Init<T>(threads), trace, a);
      model := Step(capacity, model, a).value;
      trace := trace + [a];
    }

    /** How many mutex sections `me` has taken, over the whole run. */
    ghost function Sections(me: nat): nat
      reads this`trace
    {
      SectionsIn(trace, me)
    }

    /** A point where the lock is free: callers learn only that other threads took some steps. */
    method Interfere(me: nat)
      requires Valid() && me < threads
      modifies this
      ensures Valid() && Rely(old(model), model, me)
      ensures old(trace) <= trace && OthersOnly(me, trace[|old(trace)|..])
      ensures Sections(me) == old(Sections(me))
    {
      RunRely(capacity, model, [], me);
      SectionsOfOthers(trace, trace, me);
    }

    /** Waiting on a condition variable: on return the thread has been woken, or is waiting still. */
    method Wait(me: nat) returns (woken: bool)
      requires Valid() && me < threads && (model.threads[me].PutParked? || model.threads[me].GetParked?)
      modifies this
      ensures Valid() && Rely(old(model), model, me)
      ensures model.threads[me] == if woken then Wake(old(model).threads[me]) else old(model).threads[me]
      ensures old(trace) <= trace && OthersOnly(me, trace[|old(trace)|..])
      ensures Sections(me) == old(Sections(me))
    {
      woken := false;
      RunRely(capacity, model, [], me);
      SectionsOfOthers(trace, trace, me);
    }

    /** The start of a call, up to the point where it holds the lock. */
    method Enter(me: nat, ghost call: Call<T>)
      requires Valid() && me < threads && model.threads[me].Idle? && (call.TryEmplace? ==> capacity.Some?)
      modifies this
      ensures Valid() && model.threads[me] == Entering(call) && Adds(old(model.history), model.history, me, [])
      ensures Sections(me) == old(Sections(me))
    {
      SectionsNext(trace, Start(me, call), me);
      Record(Start(me, call));
      Interfere(me);
    }

    /** One turn of the wait loop of `emplace`: there is no room, so unlock, wait and lock again. */
    method WaitForRoom(me: nat, ghost value: T) returns (woken: bool)
      requires Valid() && me < threads && !closed && !HasRoom(capacity, |queue|)
      requires model.threads[me] == Entering(BlockingModel.Emplace(value)) || model.threads[me] == PutWoken(value)
      modifies this
      ensures Valid() && Adds(old(model.history), model.history, me, [])
      ensures model.threads[me] == if woken then PutWoken(value) else PutParked(value)
      ensures Sections(me) == old(Sections(me)) + 1
    {
      SectionsNext(trace, Section(me), me);
      Record(Section(me));
      woken := Wait(me);
    }

    /** One turn of the wait loop of `wait_and_pop`. */
    method WaitForValue(me: nat) returns (woken: bool)
      requires Valid() && me < threads && !closed && queue == []
      requires model.threads[me] == Entering(BlockingModel.WaitAndPop) || model.threads[me].GetWoken?
      modifies this
      ensures Valid() && Adds(old(model.history), model.history, me, [])
      ensures model.threads[me] == if woken then GetWoken else GetParked
      ensures Sections(me) == old(Sections(me)) + 1
    {
      SectionsNext(trace, Section(me), me);
      Record(Section(me));
      woken := Wait(me);
    }

    /** `notify_one` after the unlock; it wakes whom it likes among the threads parked there. */
    method NotifyOne(me: nat)
      requires Valid() && me < threads && (model.threads[me].OwesNotEmpty? || model.threads[me].OwesNotFull?)
      modifies this
      ensures Valid() && Adds(old(model.history), model.history, me, [])
      ensures model.threads[me] == Idle(if old(model).threads[me].OwesNotEmpty? then Pushed else Popped(old(model).threads[me].value))
    {
      Interfere(me);
      ghost var a := CanStepIsEnabled(capacity, model, me);
      Record(a);
    }

    /** A section that ends the call without touching the queue: it throws, refuses or finds nothing. */
    ghost method GiveUp(me: nat, answer: Answer<T>, e: Event<T>)
      requires Valid() && me < threads && SectionStep(capacity, model, me) == Some(Log(model, me, Idle(answer), e))
      modifies this`model, this`trace
      ensures Valid() && model.threads[me] == Idle(answer) && Adds(old(model.history), model.history, me, [e])
    {
      LogAdds(model, me, Idle(answer), e);
      Record(Section(me));
    }

    /** The section that pushes, the wait predicate being true and the queue open, and the notification after it. */
    method PushSection(me: nat, value: T)
      requires Valid() && me < threads && !closed && HasRoom(capacity, |queue|)
      requires SectionStep(capacity, model, me) == Some(Push(model, me, value))
      modifies this
      ensures Valid() && model.threads[me] == Idle(Pushed) && Adds(old(model.history), model.history, me, [DidPush(value)])
    {
      LogAdds(model, me, OwesNotEmpty, DidPush(value));
      queue := queue + [value];
      Record(Section(me));
      ghost var h := model.history;
      NotifyOne(me);
      AddsThen(old(model.history), h, model.history, me, [DidPush(value)], []);
    }

    /** The section that pops the front, and the notification the bounded queue sends after it. */
    method PopSection(me: nat) returns (value: T)
      requires Valid() && me < threads && queue != []
      requires SectionStep(capacity, model, me) == Some(Take(capacity, model, me))
      modifies this
      ensures Valid() && model.threads[me] == Idle(Popped(value)) && Adds(old(model.history), model.history, me, [DidPop(value)])
      ensures value == old(queue)[0]
    {
      LogAdds(model, me, model.threads[me], DidPop(queue[0]));
      value := queue[0];
      queue := queue[1..];
      Record(Section(me));
      ghost var h := model.history;
      if capacity.Some? {
        NotifyOne(me);
        AddsThen(old(model.history), h, model.history, me, [DidPop(value)], []);
      }
    }

    /**
     `emplace`, watched through at most `wakeups` wakeups.  It comes out as still waiting only while it is
     parked, or when each of its `wakeups + 1` looks at the queue has parked it.
     */
    method Emplace(me: nat, value: T, wakeups: nat) returns (outcome: Outcome<()>)
      requires Valid() && me < threads && model.threads[me].Idle?
      modifies this
      ensures Valid() && Adds(old(model.history), model.history, me, EmplaceEvents(value, outcome))
      ensures outcome.Returned? ==> model.threads[me] == Idle(Pushed)
      ensures outcome.Failed? ==> model.threads[me] == Idle(Threw) && closed
      ensures outcome.StillWaiting? ==> model.threads[me] == PutParked(value) || model.threads[me] == PutWoken(value)
      ensures outcome.StillWaiting? ==> old(Sections(me)) < Sections(me) <= old(Sections(me)) + wakeups + 1
      ensures outcome.StillWaiting? && model.threads[me].PutWoken? ==> Sections(me) == old(Sections(me)) + wakeups + 1
    {
      Enter(me, BlockingModel.Emplace(value));
      var left, woken := wakeups, true;
      ghost var h := model.history;
      while !closed && !HasRoom(capacity, |queue|)
        invariant Valid() && h == model.history && Adds(old(model.history), h, me, [])
        invariant Sections(me) + left == old(Sections(me)) + wakeups
        invariant model.threads[me] == Entering(BlockingModel.Emplace(value)) || model.threads[me] == PutWoken(value)
        decreases left
      {
        woken := WaitForRoom(me, value);
        AddsThen(old(model.history), h, model.history, me, [], []);
        h := model.history;
        if !woken || left == 0 {
          return StillWaiting;
        }
        left := left - 1;
      }
      if closed {
        GiveUp(me, Threw, DidThrow);
        outcome := Failed;
      } else {
        PushSection(me, value);
        outcome := Returned(());
      }
      AddsThen(old(model.history), h, model.history, me, [], EmplaceEvents(value, outcome));
    }

    /** `try_emplace` of the bounded queue: refused exactly when closed or full at its section. */
    method TryEmplace(me: nat, value: T) returns (ok: bool)
      requires Valid() && me < threads && model.threads[me].Idle? && capacity.Some?
      modifies this
      ensures Valid() && Adds(old(model.history), model.history, me, [if ok then DidPush(value) else DidRefuse])
      ensures ok ==> model.threads[me] == Idle(Pushed)
      ensures !ok ==> model.threads[me] == Idle(Refused) && (closed || |queue| == capacity.value)
    {
      Enter(me, BlockingModel.TryEmplace(value));
      ghost var h := model.history;
      ok := !closed && |queue| < capacity.value;
      if ok {
        PushSection(me, value);
      } else {
        FitsCapacity();
        GiveUp(me, Refused, DidRefuse);
      }
      AddsThen(old(model.history), h, model.history, me, [], [if ok then DidPush(value) else DidRefuse]);
    }

    /** `wait_and_pop`, watched through at most `wakeups` wakeups in the same way. */
    method WaitAndPop(me: nat, wakeups: nat) returns (outcome: Outcome<T>)
      requires Valid() && me < threads && model.threads[me].Idle?
      modifies this
      ensures Valid() && Adds(old(model.history), model.history, me, WaitAndPopEvents(outcome))
      ensures outcome.Returned? ==> model.threads[me] == Idle(Popped(outcome.value))
      ensures outcome.Failed? ==> model.threads[me] == Idle(Drained) && closed && queue == []
      ensures outcome.StillWaiting? ==> model.threads[me] == GetParked || model.threads[me] == GetWoken
      ensures outcome.StillWaiting? ==> old(Sections(me)) < Sections(me) <= old(Sections(me)) + wakeups + 1
      ensures outcome.StillWaiting? && model.threads[me].GetWoken? ==> Sections(me) == old(Sections(me)) + wakeups + 1
    {
      Enter(me, BlockingModel.WaitAndPop);
      var left, woken := wakeups, true;
      ghost var h := model.history;
      while !closed && |queue| == 0
        invariant Valid() && h == model.history && Adds(old(model.history), h, me, [])
        invariant Sections(me) + left == old(Sections(me)) + wakeups
        invariant model.threads[me] == Entering(BlockingModel.WaitAndPop) || model.threads[me] == GetWoken
        decreases left
      {
        woken := WaitForValue(me);
        AddsThen(old(model.history), h, model.history, me, [], []);
        h := model.history;
        if !woken || left == 0 {
          return StillWaiting;
        }
        left := left - 1;
      }
      if |queue| == 0 {
        GiveUp(me, Drained, DidDrain);
        outcome := Failed;
      } else {
        var value := PopSection(me);
        outcome := Returned(value);
      }
      AddsThen(old(model.history), h, model.history, me, [], WaitAndPopEvents(outcome));
    }

    /** `try_pop`: false exactly when the queue is empty at its section. */
    method TryPop(me: nat) returns (result: Option<T>)
      requires Valid() && me < threads && model.threads[me].Idle?
      modifies this
      ensures Valid() && Adds(old(model.history), model.history, me, [if result.Some? then DidPop(result.value) else DidMiss])
      ensures result.Some? ==> model.threads[me] == Idle(Popped(result.value))
      ensures result.None? ==> model.threads[me] == Idle(Missed) && queue == []
    {
      Enter(me, BlockingModel.TryPop);
      ghost var h := model.history;
      if |queue| == 0 {
        GiveUp(me, Missed, DidMiss);
        result := None;
      } else {
        var value := PopSection(me);
        result := Some(value);
      }
      AddsThen(old(model.history), h, model.history, me, [], [if result.Some? then DidPop(result.value) else DidMiss]);
    }

    /** One `notify_all` of `close`, after the unlock. */
    method Broadcast(me: nat)
      requires Valid() && me < threads && closed
      requires model.threads[me].ClosingNotEmpty? || (capacity.Some? && model.threads[me].ClosingNotFull?)
      modifies this
      ensures Valid() && closed && Adds(old(model.history), model.history, me, [])
      ensures model.threads[me] == if old(model).threads[me].ClosingNotEmpty? && capacity.Some? then ClosingNotFull else Idle(Closed)
    {
      Interfere(me);
      Record(NotifyAll(me));
    }

    /** `close`: sets the flag under the lock, then notifies everybody outside it. */
    method Close(me: nat)
      requires Valid() && me < threads && model.threads[me].Idle?
      modifies this
      ensures Valid() && closed && model.threads[me] == Idle(Closed)
      ensures Adds(old(model.history), model.history, me, [DidClose])
    {
      Enter(me, BlockingModel.Close);
      ghost var h := model.history;
      CloseSection(me);
      AddsThen(old(model.history), h, model.history, me, [], [DidClose]);
      h := model.history;
      Broadcast(me);
      AddsThen(old(model.history), h, model.history, me, [DidClose], []);
      h := model.history;
      if capacity.Some? {
        Broadcast(me);
        AddsThen(old(model.history), h, model.history, me, [DidClose], []);
      }
    }

    method CloseSection(me: nat)
      requires Valid() && me < threads && model.threads[me] == Entering(BlockingModel.Close)
      modifies this
      ensures Valid() && closed && model.threads[me] == ClosingNotEmpty && queue == old(queue)
      ensures Adds(old(model.history), model.history, me, [DidClose])
    {
      LogAdds(model, me, ClosingNotEmpty, DidClose);
      closed := true;
      Record(Section(me));
    }
  }
}
