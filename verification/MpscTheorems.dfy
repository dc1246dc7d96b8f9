/** Main results about `mpsc_ring_queue`, over every interleaving of its atomic steps. */
module MpscTheorems {
  import opened Wrappers
  import opened Slots
  import opened RingArithmetic
  import opened MpscModel
  import opened MpscInvariant

  function Values<T>(log: seq<Entry<T>>): seq<T> {
    seq(|log|, i requires 0 <= i < |log| => log[i].value)
  }

  /** The abstract queue: claimed values, in claim order, that have not left. */
  function Queue<T>(s: State<T>): seq<T> {
    if |s.exits| <= |s.log| then Values(s.log)[|s.exits|..] else []
  }

  predicate Quiescent<T>(s: State<T>) {
    s.consumer.Resting? && forall t | 0 <= t < |s.producers| :: s.producers[t].Idle?
  }

  // ---- FIFO ----

  /** A claim not yet published is still held by the producer that made it. */
  ghost predicate HeldByClaimant<T>(s: State<T>, p: nat)
    requires p < |s.log|
  {
    var e := s.log[p];
    e.owner < |s.producers| && (s.producers[e.owner] == Construct(e.value, p) || s.producers[e.owner] == Publish(p))
  }

  /**
   In every run the values popped or cleared are a prefix of the values claimed, in claim order; every claim
   counts once, and a claim not yet published is still held by its producer.
   */
  lemma ExitsAreClaimPrefix<T>(cap: nat, threads: nat, actions: seq<Action<T>>)
    requires 2 <= cap && Run(Exact, cap, Init<T>(cap, threads), actions).Some?
    ensures var s := Run(Exact, cap, Init<T>(cap, threads), actions).value;
            && !s.fault
            && |s.log| == s.writeIndex && Consumed(s) <= s.writeIndex
            && ExitValues(s.exits) == Values(s.log)[..Consumed(s)]
            && (s.consumer.Resting? ==> ExitValues(s.exits) == Values(s.log)[..s.readIndex])
            && ExitValues(s.exits) + Queue(s) == Values(s.log)
            && forall p | 0 <= p < |s.log| && s.log[p].stage != Published :: HeldByClaimant(s, p)
  {
    InitInv<T>(cap, threads);
    RunInv(cap, Init<T>(cap, threads), actions);
    InvGivesPrefix(cap, Run(Exact, cap, Init<T>(cap, threads), actions).value);
  }

  lemma InvGivesPrefix<T>(cap: nat, s: State<T>)
    requires Inv(cap, s)
    ensures !s.fault && |s.log| == s.writeIndex && Consumed(s) <= s.writeIndex
    ensures ExitValues(s.exits) == Values(s.log)[..Consumed(s)]
    ensures ExitValues(s.exits) + Queue(s) == Values(s.log)
    ensures forall p | 0 <= p < |s.log| && s.log[p].stage != Published :: HeldByClaimant(s, p)
  {
    forall p | 0 <= p < |s.log| && s.log[p].stage != Published ensures HeldByClaimant(s, p) {
      assert OwnerOk(s, p);
    }
  }

  /** Once no call is in progress, every claimed value that was not popped sits published in its cell. */
  lemma QuiescentQueueIsStored<T>(cap: nat, s: State<T>)
    requires Inv(cap, s) && Quiescent(s)
    ensures Queue(s) == Values(s.log)[s.readIndex..] && |Queue(s)| <= cap
    ensures forall p: nat | s.readIndex <= p < s.writeIndex ::
              && s.sequence[p % cap] == p + 1
              && s.storage[p % cap] == Constructed(Queue(s)[p - s.readIndex])
    ensures forall p: nat | s.writeIndex <= p < s.readIndex + cap ::
              s.sequence[p % cap] == p && s.storage[p % cap] == Empty
  {
    assert |s.exits| == s.readIndex;
    forall p: nat | s.readIndex <= p < s.writeIndex
      ensures s.sequence[p % cap] == p + 1 && s.storage[p % cap] == Constructed(Queue(s)[p - s.readIndex])
    {
      assert CellOk(cap, s, p) && OwnerOk(s, p);
    }
    forall p: nat | s.writeIndex <= p < s.readIndex + cap
      ensures s.sequence[p % cap] == p && s.storage[p % cap] == Empty
    {
      assert CellOk(cap, s, p);
    }
  }

  lemma SameQueue<T>(s: State<T>, s': State<T>)
    requires s'.exits == s.exits && |s'.log| == |s.log|
    requires forall p | 0 <= p < |s.log| :: s'.log[p].value == s.log[p].value
    ensures Queue(s') == Queue(s)
  {
    assert Values(s'.log) == Values(s.log);
  }

  predicate WinsClaim<T>(s: State<T>, a: Action<T>) {
    && a.Advance? && a.thread < |s.producers| && s.producers[a.thread].CompareExchange?
    && s.producers[a.thread].write == s.writeIndex
  }

  /** A won claim appends to the abstract queue. */
  lemma ClaimAppends<T>(cap: nat, s: State<T>, a: Action<T>)
    requires Inv(cap, s) && WinsClaim(s, a)
    ensures var s' := Step(Exact, cap, s, a).value;
            Queue(s') == Queue(s) + [s.producers[a.thread].value] && s'.exits == s.exits
  {
    var s' := Step(Exact, cap, s, a).value;
    assert Values(s'.log) == Values(s.log) + [s.producers[a.thread].value];
  }

  /** A move takes the front of the abstract queue and hands it to the caller. */
  lemma MoveTakesFront<T>(cap: nat, s: State<T>)
    requires Inv(cap, s) && s.consumer.Move?
    ensures var s' := Step(Exact, cap, s, AdvanceConsumer).value;
            Queue(s) != [] && Queue(s') == Queue(s)[1..] && s'.exits == s.exits + [Exit(Queue(s)[0], true)]
  {
    assert CellOk(cap, s, s.readIndex);
  }

  /** Each destruction by `clear` removes the front of the abstract queue. */
  lemma ClearDropsFront<T>(cap: nat, s: State<T>)
    requires Inv(cap, s) && s.consumer.Destroy? && s.consumer.clearing
    ensures var s' := Step(Exact, cap, s, AdvanceConsumer).value;
            Queue(s) != [] && Queue(s') == Queue(s)[1..] && s'.exits == s.exits + [Exit(Queue(s)[0], false)]
  {
    assert CellOk(cap, s, s.readIndex);
  }

  /** No other step changes the abstract queue or what has left it. */
  lemma OtherStepsKeepQueue<T>(cap: nat, s: State<T>, a: Action<T>)
    requires Inv(cap, s) && Step(Exact, cap, s, a).Some?
    requires !WinsClaim(s, a) && !(a.AdvanceConsumer? && (s.consumer.Move? || (s.consumer.Destroy? && s.consumer.clearing)))
    ensures var s' := Step(Exact, cap, s, a).value; Queue(s') == Queue(s) && s'.exits == s.exits
  {
    var s' := Step(Exact, cap, s, a).value;
    assert |s'.log| == |s.log| && s'.exits == s.exits;
    SameQueue(s, s');
  }

  /** `try_pop` returns false, and `clear` stops, exactly when the head position is not published, whatever is ready behind it. */
  lemma PopMissIsExact<T>(cap: nat, s: State<T>)
    requires Inv(cap, s) && 2 <= cap && s.consumer.LoadCell?
    ensures ConsumerStep(Exact, cap, s).value.consumer ==
            if !PublishedAt(s, s.readIndex) then Resting
            else if s.consumer.clearing then Destroy(s.readIndex, true) else Move(s.readIndex)
  {
    assert CellOk(cap, s, s.readIndex);
  }

  /** A publish step completes the claim: the position carries the producer's value and name. */
  lemma AcceptedIsLogged<T>(cap: nat, s: State<T>, t: nat)
    requires Inv(cap, s) && t < |s.producers| && s.producers[t].Publish?
    ensures var s' := ProducerStep(Exact, cap, s, t).value;
            var w := s.producers[t].write;
            && s'.producers[t] == Idle(Accepted(w)) && w < |s.log|
            && s'.log[w] == Entry(s.log[w].value, t, Published)
            && s'.storage[w % cap] == Constructed(s.log[w].value) && s'.sequence[w % cap] == w + 1
  {
    assert ProducerOk(cap, s, t);
    Unpublished(cap, s, s.producers[t].write);
  }

  // ---- Exclusive ownership ----

  /** The cell an actor may touch: from claim to publish for a producer, from match to release for the consumer. */
  function Owned<T>(cap: nat, s: State<T>, actor: Option<nat>): Option<nat>
    requires Shape(cap, s) && (actor.Some? ==> actor.value < |s.producers|)
  {
    match actor
    case Some(t) =>
      if s.producers[t].Construct? || s.producers[t].Publish? then Some(s.producers[t].write % cap) else None
    case None =>
      if s.consumer.Resting? || s.consumer.LoadCell? then None else Some(s.consumer.read % cap)
  }

  /** No two threads own the same cell. */
  lemma OwnershipIsExclusive<T>(cap: nat, s: State<T>, a: Option<nat>, b: Option<nat>)
    requires Inv(cap, s) && a != b
    requires (a.Some? ==> a.value < |s.producers|) && (b.Some? ==> b.value < |s.producers|)
    requires Owned(cap, s, a).Some?
    ensures Owned(cap, s, a) != Owned(cap, s, b)
  {
    if Owned(cap, s, b).Some? {
      var p := OwnedPosition(cap, s, a);
      var q := OwnedPosition(cap, s, b);
      DistinctCells(p, q, cap);
    }
  }

  lemma OwnedPosition<T>(cap: nat, s: State<T>, actor: Option<nat>) returns (p: nat)
    requires Inv(cap, s) && (actor.Some? ==> actor.value < |s.producers|) && Owned(cap, s, actor).Some?
    ensures Released(s) <= p < Released(s) + cap && p < |s.log| && Owned(cap, s, actor) == Some(p % cap)
    ensures actor.Some? ==> s.log[p].owner == actor.value && s.log[p].stage != Published
    ensures actor.None? ==> s.log[p].stage == Published
  {
    match actor
    case Some(t) =>
      p := s.producers[t].write;
      assert ProducerOk(cap, s, t);
      Unpublished(cap, s, p);
    case None =>
      p := s.consumer.read;
  }

  /** Every write to storage or to a sequence number goes to the cell its actor owns. */
  lemma WritesAreOwned<T>(ar: Arithmetic, cap: nat, s: State<T>, a: Action<T>, cell: nat)
    requires Shape(cap, s) && Step(ar, cap, s, a).Some? && cell < cap && Owned(cap, s, Actor(a)) != Some(cell)
    ensures var s' := Step(ar, cap, s, a).value;
            s'.storage[cell] == s.storage[cell] && s'.sequence[cell] == s.sequence[cell]
  {
    match a
    case Advance(t) => ProducerWritesOwned(ar, cap, s, t, cell);
    case AdvanceConsumer => ConsumerWritesOwned(ar, cap, s, cell);
    case _ =>
  }

  lemma ProducerWritesOwned<T>(ar: Arithmetic, cap: nat, s: State<T>, t: nat, cell: nat)
    requires Shape(cap, s) && t < |s.producers| && ProducerStep(ar, cap, s, t).Some? && cell < cap
    requires Owned(cap, s, Some(t)) != Some(cell)
    ensures var s' := ProducerStep(ar, cap, s, t).value;
            s'.storage[cell] == s.storage[cell] && s'.sequence[cell] == s.sequence[cell]
  {
  }

  lemma ConsumerWritesOwned<T>(ar: Arithmetic, cap: nat, s: State<T>, cell: nat)
    requires Shape(cap, s) && ConsumerStep(ar, cap, s).Some? && cell < cap
    requires Owned(cap, s, None) != Some(cell)
    ensures var s' := ConsumerStep(ar, cap, s).value;
            s'.storage[cell] == s.storage[cell] && s'.sequence[cell] == s.sequence[cell]
  {
  }

  /** A won claim meets no ABA: after any interference since the load, the cell is still free for `write`. */
  lemma WonClaimIsFree<T>(cap: nat, s: State<T>, t: nat)
    requires Inv(cap, s) && 2 <= cap && t < |s.producers|
    requires s.producers[t].CompareExchange? && s.producers[t].write == s.writeIndex
    ensures s.sequence[s.writeIndex % cap] == s.writeIndex && s.storage[s.writeIndex % cap] == Empty
    ensures Owned(cap, ProducerStep(Exact, cap, s, t).value, Some(t)) == Some(s.writeIndex % cap)
  {
    assert ProducerOk(cap, s, t);
    ClaimReading(cap, s, s.writeIndex);
  }

  /** What an actor that owns a cell sees of other threads: its cell and its own progress stay as they are. */
  ghost predicate Undisturbed<T>(cap: nat, s: State<T>, s': State<T>, me: Option<nat>)
    requires Shape(cap, s) && Shape(cap, s') && |s.producers| == |s'.producers|
    requires (me.Some? ==> me.value < |s.producers|) && Owned(cap, s, me).Some?
  {
    var cell := Owned(cap, s, me).value;
    && s'.storage[cell] == s.storage[cell] && s'.sequence[cell] == s.sequence[cell]
    && (me.Some? ==> s'.producers[me.value] == s.producers[me.value])
    && (me.None? ==> s'.consumer == s.consumer && s'.readIndex == s.readIndex && s'.exits == s.exits)
  }

  lemma OtherStepDoesNotDisturb<T>(cap: nat, s: State<T>, me: Option<nat>, a: Action<T>)
    requires Inv(cap, s) && (me.Some? ==> me.value < |s.producers|)
    requires Owned(cap, s, me).Some? && Step(Exact, cap, s, a).Some? && Actor(a) != me
    ensures Undisturbed(cap, s, Step(Exact, cap, s, a).value, me)
  {
    OwnershipIsExclusive(cap, s, me, Actor(a));
    WritesAreOwned(Exact, cap, s, a, Owned(cap, s, me).value);
  }

  /** While an actor owns a cell, no steps of others change that cell or move that actor. */
  lemma {:induction false} OwnedCellIsUndisturbed<T>(cap: nat, s: State<T>, me: Option<nat>, others: seq<Action<T>>)
    requires Inv(cap, s) && 2 <= cap && (me.Some? ==> me.value < |s.producers|)
    requires Owned(cap, s, me).Some? && Run(Exact, cap, s, others).Some?
    requires forall i | 0 <= i < |others| :: Actor(others[i]) != me
    ensures Undisturbed(cap, s, Run(Exact, cap, s, others).value, me)
    decreases |others|
  {
    if others != [] {
      var next := Step(Exact, cap, s, others[0]).value;
      OtherStepDoesNotDisturb(cap, s, me, others[0]);
      StepInv(cap, s, others[0]);
      OwnedCellIsUndisturbed(cap, next, me, others[1..]);
    }
  }

  /** The slot each element operation meets: empty to construct, live to move, moved-from to destroy. */
  lemma ElementOperationsMeetTheirSlot<T>(cap: nat, s: State<T>)
    requires Inv(cap, s)
    ensures forall t | 0 <= t < |s.producers| && s.producers[t].Construct? ::
              s.storage[s.producers[t].write % cap] == Empty
    ensures s.consumer.Move? ==>
              s.consumer.read < |s.log| && s.storage[s.consumer.read % cap] == Constructed(s.log[s.consumer.read].value)
    ensures s.consumer.Destroy? && !s.consumer.clearing ==> s.storage[s.consumer.read % cap] == MovedFrom
    ensures s.consumer.Destroy? && s.consumer.clearing ==>
              s.consumer.read < |s.log| && s.storage[s.consumer.read % cap] == Constructed(s.log[s.consumer.read].value)
  {
    forall t | 0 <= t < |s.producers| && s.producers[t].Construct?
      ensures s.storage[s.producers[t].write % cap] == Empty
    {
      assert ProducerOk(cap, s, t);
      Unpublished(cap, s, s.producers[t].write);
    }
    if s.consumer.Move? || s.consumer.Destroy? {
      assert CellOk(cap, s, s.consumer.read);
    }
  }

  // ---- Full ----

  /** Claims that the consumer has not released. */
  function Outstanding<T>(s: State<T>): int {
    s.writeIndex - Released(s)
  }

  /**
   `try_emplace` refuses, and `full()` answers true, exactly when the local `write` is `cap` positions
   beyond the released ones; at that load `write` is then the current write index and the ring is full.
   */
  lemma FullIsNeverSpurious<T>(cap: nat, s: State<T>, t: nat)
    requires Inv(cap, s) && 2 <= cap && t < |s.producers|
    requires s.producers[t].LoadSequence? || s.producers[t].FullLoadSequence?
    ensures var s' := ProducerStep(Exact, cap, s, t).value;
            var w := s.producers[t].write;
            var sayFull := s'.producers[t] == Idle(Refused) || s'.producers[t] == Idle(Full(true));
            && (sayFull <==> w == Released(s) + cap)
            && (sayFull ==> w == s.writeIndex && Outstanding(s) == cap)
  {
    assert ProducerOk(cap, s, t);
    SequenceReading(cap, s, s.producers[t].write);
  }

  // ---- Progress ----

  ghost predicate InCall<T>(p: Producer<T>) {
    p.LoadSequence? || p.CompareExchange? || p.Reload?
  }

  /** A retry that is not a spurious failure moves the local `write` strictly forward. */
  lemma RetryAdvances<T>(cap: nat, s: State<T>, t: nat)
    requires Inv(cap, s) && 2 <= cap && t < |s.producers|
    requires s.producers[t].CompareExchange? || s.producers[t].Reload?
    ensures var p' := ProducerStep(Exact, cap, s, t).value.producers[t];
            p'.LoadSequence? ==>
              && p'.write > s.producers[t].write
              && p'.call == Retry(s.producers[t].call)
              && p'.write == s.writeIndex
  {
    assert ProducerOk(cap, s, t);
  }

  /**
   Lock-freedom: in every run, the retries of a call in progress, spurious ones aside, are at most the
   claims made since its first load, and every one of those claims belongs to another producer.
   */
  lemma RetriesArePaidByOthers<T>(cap: nat, threads: nat, actions: seq<Action<T>>, t: nat)
    requires 2 <= cap && t < threads && Run(Exact, cap, Init<T>(cap, threads), actions).Some?
    requires InCall(Run(Exact, cap, Init<T>(cap, threads), actions).value.producers[t])
    ensures var s := Run(Exact, cap, Init<T>(cap, threads), actions).value;
            var c := s.producers[t].call;
            && c.start <= s.writeIndex == |s.log|
            && c.retries - c.spurious <= s.writeIndex - c.start
            && forall p | c.start <= p < |s.log| :: s.log[p].owner != t
  {
    InitInv<T>(cap, threads);
    RunInv(cap, Init<T>(cap, threads), actions);
    assert ProducerOk(cap, Run(Exact, cap, Init<T>(cap, threads), actions).value, t);
  }

  /** The steps of producer `t` in a run from `s` that bring it to the load of a cell's sequence number. */
  function LoadsIn<T>(cap: nat, s: State<T>, actions: seq<Action<T>>, t: nat): nat
    requires Shape(cap, s) && t < |s.producers|
  {
    if actions == [] then 0
    else
      var last, r := |actions| - 1, Run(Exact, cap, s, actions);
      LoadsIn(cap, s, actions[..last], t)
      + if Actor(actions[last]) == Some(t) && r.Some? && r.value.producers[t].LoadSequence? then 1 else 0
  }

  /** The weak compare-exchanges of producer `t` that failed although the index matched. */
  function FailuresIn<T>(actions: seq<Action<T>>, t: nat): nat {
    if actions == [] then 0
    else
      var last := actions[|actions| - 1];
      FailuresIn(actions[..|actions| - 1], t) + if last.SpuriousFailure? && last.thread == t then 1 else 0
  }

  lemma LoadsNext<T>(cap: nat, s: State<T>, actions: seq<Action<T>>, a: Action<T>, t: nat)
    requires Shape(cap, s) && t < |s.producers| && Run(Exact, cap, s, actions + [a]).Some?
    ensures LoadsIn(cap, s, actions + [a], t) == LoadsIn(cap, s, actions, t)
              + if Actor(a) == Some(t) && Run(Exact, cap, s, actions + [a]).value.producers[t].LoadSequence? then 1 else 0
  {
    assert (actions + [a])[..|actions|] == actions;
  }

  /** Steps of others are none of `t`'s loads. */
  lemma {:induction false} LoadsOfOthers<T>(cap: nat, s: State<T>, front: seq<Action<T>>, actions: seq<Action<T>>, t: nat)
    requires Shape(cap, s) && t < |s.producers| && front <= actions
    requires forall i | |front| <= i < |actions| :: Actor(actions[i]) != Some(t)
    ensures LoadsIn(cap, s, actions, t) == LoadsIn(cap, s, front, t)
    decreases |actions|
  {
    if |front| < |actions| {
      LoadsOfOthers(cap, s, front, actions[..|actions| - 1], t);
    } else {
      assert actions == front;
    }
  }

  /** What a producer in a call has recorded is what it has done. */
  predicate Records<T>(p: Producer<T>, loads: nat, failures: nat) {
    match p
    case LoadIndex(_) => loads == 0 && failures == 0
    case LoadSequence(_, _, c) => c.retries + 1 == loads && c.spurious == failures
    case CompareExchange(_, _, c) => c.retries + 1 == loads && c.spurious == failures
    case Reload(_, _, c) => c.retries + 1 == loads && c.spurious == failures
    case _ => true
  }

  predicate StartsCall<T>(a: Action<T>, t: nat) {
    (a.StartEmplace? || a.StartFull?) && a.thread == t
  }

  lemma OwnStepRecords<T>(cap: nat, s: State<T>, t: nat, loads: nat, failures: nat)
    requires Shape(cap, s) && t < |s.producers| && ProducerStep(Exact, cap, s, t).Some?
    requires Records(s.producers[t], loads, failures)
    ensures var p := ProducerStep(Exact, cap, s, t).value.producers[t];
            Records(p, loads + if p.LoadSequence? then 1 else 0, failures)
  {
  }

  lemma FailureRecords<T>(cap: nat, s: State<T>, t: nat, loads: nat, failures: nat)
    requires Shape(cap, s) && t < |s.producers| && SpuriousStep(s, t).Some?
    requires Records(s.producers[t], loads, failures)
    ensures Records(SpuriousStep(s, t).value.producers[t], loads + 1, failures + 1)
  {
  }

  lemma OtherStepKeepsProducer<T>(cap: nat, s: State<T>, a: Action<T>, t: nat)
    requires Shape(cap, s) && t < |s.producers| && Step(Exact, cap, s, a).Some? && Actor(a) != Some(t)
    ensures Step(Exact, cap, s, a).value.producers[t] == s.producers[t]
  {
  }

  lemma StepRecords<T>(cap: nat, s: State<T>, a: Action<T>, t: nat, loads: nat, failures: nat)
    requires Shape(cap, s) && t < |s.producers| && Step(Exact, cap, s, a).Some? && !StartsCall(a, t)
    requires Records(s.producers[t], loads, failures)
    ensures var p := Step(Exact, cap, s, a).value.producers[t];
            Records(p, loads + if Actor(a) == Some(t) && p.LoadSequence? then 1 else 0,
                       failures + if a.SpuriousFailure? && a.thread == t then 1 else 0)
  {
    if Actor(a) != Some(t) {
      OtherStepKeepsProducer(cap, s, a, t);
    } else if a.Advance? {
      OwnStepRecords(cap, s, t, loads, failures);
    } else {
      FailureRecords(cap, s, t, loads, failures);
    }
  }

  lemma {:induction false} RunRecords<T>(cap: nat, s: State<T>, actions: seq<Action<T>>, t: nat)
    requires Shape(cap, s) && t < |s.producers| && s.producers[t].LoadIndex? && Run(Exact, cap, s, actions).Some?
    requires forall i | 0 <= i < |actions| :: !StartsCall(actions[i], t)
    ensures Records(Run(Exact, cap, s, actions).value.producers[t], LoadsIn(cap, s, actions, t), FailuresIn(actions, t))
    decreases |actions|
  {
    if actions != [] {
      var front, a := actions[..|actions| - 1], actions[|actions| - 1];
      assert actions == front + [a];
      RunAppend(Exact, cap, s, front, [a]);
      RunRecords(cap, s, front, t);
      var m := Run(Exact, cap, s, front).value;
      FirstStep(Exact, cap, m, a, []);
      assert [a] + [] == [a];
      StepRecords(cap, m, a, t, LoadsIn(cap, s, front, t), FailuresIn(front, t));
    }
  }

  /**
   A call counts its retries truly: in every run from the start of a `try_emplace` that is still looking
   for a position, it has loaded sequence numbers, or is about to, exactly once more than it has retried,
   and its spurious failures are exactly those of the run.
   */
  lemma RetriesAreCounted<T>(cap: nat, s: State<T>, t: nat, v: T, actions: seq<Action<T>>)
    requires Shape(cap, s) && t < |s.producers| && Step(Exact, cap, s, StartEmplace(t, v)).Some?
    requires Run(Exact, cap, Step(Exact, cap, s, StartEmplace(t, v)).value, actions).Some?
    requires forall i | 0 <= i < |actions| :: !StartsCall(actions[i], t)
    requires InCall(Run(Exact, cap, Step(Exact, cap, s, StartEmplace(t, v)).value, actions).value.producers[t])
    ensures var start := Step(Exact, cap, s, StartEmplace(t, v)).value;
            var c := Run(Exact, cap, start, actions).value.producers[t].call;
            LoadsIn(cap, start, actions, t) == c.retries + 1 && FailuresIn(actions, t) == c.spurious
  {
    RunRecords(cap, Step(Exact, cap, s, StartEmplace(t, v)).value, actions, t);
  }

  // ---- Machine arithmetic ----

  /** Below 2^63 the casts keep the value and the subtraction does not overflow; below 2^64 additions do not wrap. */
  lemma MachineArithmeticIsExact(x: nat, y: nat)
    ensures x < HALF_WORD && y < HALF_WORD ==>
              Machine.Diff(x, y) == Exact.Diff(x, y) && Machine.InRange(x, y)
    ensures x + y < WORD ==> Machine.Add(x, y) == x + y
  {
  }

  lemma SequencesAreBounded<T>(cap: nat, s: State<T>, i: nat)
    requires Inv(cap, s) && i < cap
    ensures s.sequence[i] < s.writeIndex + cap
  {
    Residue(i, 0, i, cap);
    var p := WindowCovers(i, Released(s), cap);
    assert CellOk(cap, s, p);
  }

  /** In a state with the write index and one capacity within 2^63 the step on 64-bit integers is the exact step. */
  lemma MachineStepIsExact<T>(cap: nat, s: State<T>, a: Action<T>)
    requires Inv(cap, s) && 2 <= cap && s.writeIndex + cap <= HALF_WORD
    ensures Step(Machine, cap, s, a) == Step(Exact, cap, s, a)
  {
    match a
    case Advance(t) => if t < |s.producers| { MachineProducerIsExact(cap, s, t); }
    case AdvanceConsumer => MachineConsumerIsExact(cap, s);
    case _ =>
  }

  /** The sums and the difference that the consumer computes. */
  lemma MachineHeadIsExact<T>(cap: nat, s: State<T>, r: nat)
    requires Inv(cap, s) && 2 <= cap && s.writeIndex + cap <= HALF_WORD && r <= s.writeIndex
    ensures Machine.Add(r, 1) == r + 1 && Machine.Add(r, cap) == r + cap
    ensures Machine.InRange(s.sequence[r % cap], r + 1)
    ensures Machine.Diff(s.sequence[r % cap], r + 1) == s.sequence[r % cap] - (r + 1)
  {
    SequencesAreBounded(cap, s, r % cap);
    MachineArithmeticIsExact(r, 1);
    MachineArithmeticIsExact(r, cap);
    MachineArithmeticIsExact(s.sequence[r % cap], r + 1);
  }

  lemma MachineConsumerIsExact<T>(cap: nat, s: State<T>)
    requires Inv(cap, s) && 2 <= cap && s.writeIndex + cap <= HALF_WORD
    ensures ConsumerStep(Machine, cap, s) == ConsumerStep(Exact, cap, s)
  {
    if !s.consumer.Resting? {
      MachineHeadIsExact(cap, s, s.consumer.read);
    }
  }

  /** The difference that a producer computes. */
  lemma MachineCellIsExact<T>(cap: nat, s: State<T>, w: nat)
    requires Inv(cap, s) && 2 <= cap && s.writeIndex + cap <= HALF_WORD && w <= s.writeIndex
    ensures Machine.InRange(s.sequence[w % cap], w)
    ensures Machine.Diff(s.sequence[w % cap], w) == s.sequence[w % cap] - w
  {
    SequencesAreBounded(cap, s, w % cap);
    MachineArithmeticIsExact(s.sequence[w % cap], w);
  }

  lemma MachineLoadIsExact<T>(cap: nat, s: State<T>, t: nat)
    requires Inv(cap, s) && 2 <= cap && s.writeIndex + cap <= HALF_WORD && t < |s.producers|
    requires s.producers[t].LoadSequence? || s.producers[t].FullLoadSequence?
    ensures ProducerStep(Machine, cap, s, t) == ProducerStep(Exact, cap, s, t)
  {
    assert ProducerOk(cap, s, t);
    MachineCellIsExact(cap, s, s.producers[t].write);
  }

  lemma MachineProducerIsExact<T>(cap: nat, s: State<T>, t: nat)
    requires Inv(cap, s) && 2 <= cap && s.writeIndex + cap <= HALF_WORD && t < |s.producers|
    ensures ProducerStep(Machine, cap, s, t) == ProducerStep(Exact, cap, s, t)
  {
    var p := s.producers[t];
    if p.LoadSequence? || p.FullLoadSequence? {
      MachineLoadIsExact(cap, s, t);
    } else if p.CompareExchange? || p.Publish? {
      assert ProducerOk(cap, s, t);
      MachineArithmeticIsExact(p.write, 1);
    }
  }

  lemma WriteIndexGrows<T>(cap: nat, s: State<T>, actions: seq<Action<T>>)
    requires Shape(cap, s) && Run(Exact, cap, s, actions).Some?
    ensures s.writeIndex <= Run(Exact, cap, s, actions).value.writeIndex
    decreases |actions|
  {
    if actions != [] {
      WriteIndexGrows(cap, Step(Exact, cap, s, actions[0]).value, actions[1..]);
    }
  }

  /**
   Every run whose write index plus capacity stays within 2^63 is the same on the machine's integers; in
   particular it is a run there, so that no signed subtraction in it overflows.
   */
  lemma {:induction false} MachineRunIsExact<T>(cap: nat, s: State<T>, actions: seq<Action<T>>)
    requires Inv(cap, s) && 2 <= cap && Run(Exact, cap, s, actions).Some?
    requires Run(Exact, cap, s, actions).value.writeIndex + cap <= HALF_WORD
    ensures Run(Machine, cap, s, actions) == Run(Exact, cap, s, actions)
    decreases |actions|
  {
    if actions != [] {
      WriteIndexGrows(cap, s, actions);
      MachineStepIsExact(cap, s, actions[0]);
      StepInv(cap, s, actions[0]);
      MachineRunIsExact(cap, Step(Exact, cap, s, actions[0]).value, actions[1..]);
    }
  }

  // ---- One call without interference ----

  /** One uncontended `try_emplace` by thread `t`: start, load index, load sequence, claim, construct, publish. */
  function PushScript<T>(t: nat, v: T): seq<Action<T>> {
    [StartEmplace(t, v), Advance(t), Advance(t), Advance(t), Advance(t), Advance(t)]
  }

  lemma FirstStep<T>(ar: Arithmetic, cap: nat, s: State<T>, a: Action<T>, rest: seq<Action<T>>)
    requires Shape(cap, s)
    ensures Run(ar, cap, s, [a] + rest) ==
            match Step(ar, cap, s, a) case None => None case Some(next) => Run(ar, cap, next, rest)
  {
    assert ([a] + rest)[1..] == rest;
  }

  lemma Three<T>(ar: Arithmetic, cap: nat, s: State<T>, a: Action<T>, b: Action<T>, c: Action<T>)
    requires Shape(cap, s) && Step(ar, cap, s, a).Some?
    requires Step(ar, cap, Step(ar, cap, s, a).value, b).Some?
    ensures Run(ar, cap, s, [a, b, c]) == Step(ar, cap, Step(ar, cap, Step(ar, cap, s, a).value, b).value, c)
  {
    var s1 := Step(ar, cap, s, a).value;
    var s2 := Step(ar, cap, s1, b).value;
    FirstStep(ar, cap, s2, c, []);
    FirstStep(ar, cap, s1, b, [c]);
    FirstStep(ar, cap, s, a, [b, c]);
    assert [a, b, c] == [a] + [b, c] && [b, c] == [b] + [c] && [c] == [c] + [];
  }

  lemma SoloApproach<T>(cap: nat, s: State<T>, t: nat, v: T)
    requires Shape(cap, s) && t < |s.producers| && s.producers[t].Idle?
    requires s.sequence[s.writeIndex % cap] == s.writeIndex
    ensures Run(Exact, cap, s, [StartEmplace(t, v), Advance(t), Advance(t)]) ==
            Some(Put(s, t, CompareExchange(v, s.writeIndex, Call(s.writeIndex, 0, 0))))
  {
    var s1 := Put(s, t, LoadIndex(v));
    var s2 := Put(s1, t, LoadSequence(v, s.writeIndex, Call(s.writeIndex, 0, 0)));
    var s3 := Put(s, t, CompareExchange(v, s.writeIndex, Call(s.writeIndex, 0, 0)));
    assert Put(s2, t, s3.producers[t]) == s3;
    Three(Exact, cap, s, StartEmplace(t, v), Advance(t), Advance(t));
  }

  /** What an uncontended push leaves behind. */
  function Pushed<T>(cap: nat, s: State<T>, t: nat, v: T): State<T>
    requires Shape(cap, s) && t < |s.producers|
  {
    var w := s.writeIndex;
    s.(writeIndex := w + 1,
       sequence := s.sequence[w % cap := w + 1],
       storage := s.storage[w % cap := Constructed(v)],
       producers := s.producers[t := Idle(Accepted(w))],
       log := s.log + [Entry(v, t, Published)],
       fault := s.fault || !s.storage[w % cap].Empty?)
  }

  lemma SoloFill<T>(cap: nat, s: State<T>, t: nat)
    requires Shape(cap, s) && t < |s.producers| && s.producers[t].CompareExchange?
    requires s.producers[t].write == s.writeIndex == |s.log|
    ensures Run(Exact, cap, s, [Advance(t), Advance(t), Advance(t)]) == Some(Pushed(cap, s, t, s.producers[t].value))
  {
    var w := s.writeIndex;
    var v := s.producers[t].value;
    var s1 := Put(s, t, Construct(v, w)).(writeIndex := w + 1, log := s.log + [Entry(v, t, Claimed)]);
    var s2 := Put(s, t, Publish(w)).(writeIndex := w + 1, log := s.log + [Entry(v, t, Built)],
      storage := s.storage[w % cap := Constructed(v)], fault := s.fault || !s.storage[w % cap].Empty?);
    assert Step(Exact, cap, s, Advance(t)) == Some(s1);
    assert Step(Exact, cap, s1, Advance(t)) == Some(s2) by {
      assert Mark(s1.log, w, Built) == s2.log;
      assert s1.producers[t := Publish(w)] == s2.producers;
    }
    assert Step(Exact, cap, s2, Advance(t)) == Some(Pushed(cap, s, t, v)) by {
      assert Mark(s2.log, w, Published) == Pushed(cap, s, t, v).log;
      assert s2.producers[t := Idle(Accepted(w))] == Pushed(cap, s, t, v).producers;
    }
    Three(Exact, cap, s, Advance(t), Advance(t), Advance(t));
  }

  lemma SoloPush<T>(cap: nat, s: State<T>, t: nat, v: T)
    requires Shape(cap, s) && t < |s.producers| && s.producers[t].Idle?
    requires s.sequence[s.writeIndex % cap] == s.writeIndex == |s.log|
    ensures Run(Exact, cap, s, PushScript(t, v)) == Some(Pushed(cap, s, t, v))
  {
    SoloApproach(cap, s, t, v);
    var m := Put(s, t, CompareExchange(v, s.writeIndex, Call(s.writeIndex, 0, 0)));
    SoloFill(cap, m, t);
    assert m.producers[t := Idle(Accepted(s.writeIndex))] == s.producers[t := Idle(Accepted(s.writeIndex))];
    assert Pushed(cap, m, t, v) == Pushed(cap, s, t, v);
    RunAppend(Exact, cap, s, [StartEmplace(t, v), Advance(t), Advance(t)], [Advance(t), Advance(t), Advance(t)]);
    assert PushScript(t, v) == [StartEmplace(t, v), Advance(t), Advance(t)] + [Advance(t), Advance(t), Advance(t)];
  }

  // ---- Capacity one ----

  /** With one cell, the published number `N + 1` is also the free number of the next lap: both pushes succeed. */
  lemma TwoPushesIntoOneCell<T>(threads: nat, v0: T, v1: T)
    requires 0 < threads
    ensures var r := Run(Exact, 1, Init<T>(1, threads), PushScript(0, v0) + PushScript(0, v1));
            && r.Some? && r.value.fault
            && r.value.producers[0] == Idle(Accepted(1)) && r.value.writeIndex == 2 && r.value.readIndex == 0
            && r.value.storage == [Constructed(v1)] && Stranded(r.value)
  {
    var s0 := Init<T>(1, threads);
    SoloPush(1, s0, 0, v0);
    var s1 := Run(Exact, 1, s0, PushScript(0, v0)).value;
    SoloPush(1, s1, 0, v1);
    RunAppend(Exact, 1, s0, PushScript(0, v0), PushScript(0, v1));
  }

  /** The consumer waits for a sequence number that no later publish can produce. */
  ghost predicate Stranded<T>(s: State<T>) {
    && Shape(1, s) && s.readIndex == 0 && s.sequence[0] != 1 && 0 < s.writeIndex && s.exits == []
    && (s.consumer.Resting? || (s.consumer.LoadCell? && s.consumer.read == 0))
    && forall t | 0 <= t < |s.producers| :: StrandedProducer(s.producers[t])
  }

  predicate StrandedProducer<T>(p: Producer<T>) {
    match p
    case LoadSequence(_, w, _) => 0 < w
    case CompareExchange(_, w, _) => 0 < w
    case Construct(_, w) => 0 < w
    case Publish(w) => 0 < w
    case _ => true
  }

  lemma StrandedAfterProducer<T>(s: State<T>, t: nat)
    requires Stranded(s) && t < |s.producers| && ProducerStep(Exact, 1, s, t).Some?
    ensures Stranded(ProducerStep(Exact, 1, s, t).value)
  {
    assert StrandedProducer(s.producers[t]);
    match s.producers[t]
    case Publish(w) => assert w % 1 == 0;
    case _ =>
  }

  lemma StrandedStep<T>(s: State<T>, a: Action<T>)
    requires Stranded(s) && Step(Exact, 1, s, a).Some?
    ensures Stranded(Step(Exact, 1, s, a).value)
  {
    match a
    case Advance(t) => StrandedAfterProducer(s, t);
    case SpuriousFailure(t) => assert StrandedProducer(s.producers[t]);
    case _ =>
  }

  lemma {:induction false} StrandedForever<T>(s: State<T>, actions: seq<Action<T>>)
    requires Stranded(s) && Run(Exact, 1, s, actions).Some?
    ensures Stranded(Run(Exact, 1, s, actions).value)
    decreases |actions|
  {
    if actions != [] {
      var next := Step(Exact, 1, s, actions[0]).value;
      StrandedStep(s, actions[0]);
      StrandedForever(next, actions[1..]);
    }
  }

  /** No run constructs over a live object, moves from a missing one or destroys twice. */
  ghost predicate FaultFree<T(!new)>(cap: nat, threads: nat)
    requires 0 < cap
  {
    forall actions: seq<Action<T>> ::
      Run(Exact, cap, Init<T>(cap, threads), actions).Some? ==> !Run(Exact, cap, Init<T>(cap, threads), actions).value.fault
  }

  /** The static assertion `Capacity > 0` is not enough: the protocol is sound exactly from capacity two. */
  lemma SoundExactlyFromTwo<T(!new)>(cap: nat, threads: nat, v: T)
    requires 0 < cap && 0 < threads
    ensures FaultFree<T>(cap, threads) <==> 2 <= cap
  {
    if 2 <= cap {
      forall actions: seq<Action<T>> | Run(Exact, cap, Init<T>(cap, threads), actions).Some?
        ensures !Run(Exact, cap, Init<T>(cap, threads), actions).value.fault
      {
        ExitsAreClaimPrefix(cap, threads, actions);
      }
    } else {
      TwoPushesIntoOneCell(threads, v, v);
    }
  }
}
