/** How far the 64-bit counters and `ptrdiff_t` differences of `mpsc_ring_queue` can be trusted, exactly. */
module MpscWraparound {
  import opened Wrappers
  import opened RingArithmetic
  import opened MpscModel
  import opened MpscInvariant
  import opened MpscTheorems
  import opened MpscDelivery

  /** A state with nothing in the ring and thread 0 at rest. */
  ghost predicate Calm<T>(cap: nat, s: State<T>) {
    Inv(cap, s) && Delivered(s) && 0 < |s.producers| && s.producers[0].Idle?
  }

  /** The consumer alone pops everything that is published. */
  lemma {:induction false} Drain<T>(cap: nat, s: State<T>) returns (actions: seq<Action<T>>)
    requires Inv(cap, s) && 2 <= cap && AllPublished(s.log)
    ensures Run(Exact, cap, s, actions).Some?
    ensures var e := Run(Exact, cap, s, actions).value;
            Inv(cap, e) && Delivered(e) && e.producers == s.producers && e.log == s.log
    decreases Distance(s)
  {
    if Delivered(s) {
      actions := [];
    } else {
      var a: Action<T> := if s.consumer.Resting? then StartPop else AdvanceConsumer;
      ConsumerAdvances(cap, s);
      StepInv(cap, s, a);
      var next := Step(Exact, cap, s, a).value;
      var rest := Drain(cap, next);
      FirstStep(Exact, cap, s, a, rest);
      actions := [a] + rest;
    }
  }

  /** Thread 0 pushes one value and the consumer pops it: the cell it went through is free for the next lap. */
  lemma Cycle<T>(cap: nat, s: State<T>, v: T) returns (actions: seq<Action<T>>)
    requires Calm(cap, s) && 2 <= cap
    ensures Run(Exact, cap, s, actions).Some?
    ensures var e := Run(Exact, cap, s, actions).value;
            && Calm(cap, e) && e.writeIndex == s.writeIndex + 1
            && e.sequence[s.writeIndex % cap] == s.writeIndex + cap
            && forall t | 0 < t < |s.producers| :: e.producers[t] == s.producers[t]
  {
    var w := s.writeIndex;
    assert CellOk(cap, s, w);
    SoloPush(cap, s, 0, v);
    var m := Pushed(cap, s, 0, v);
    RunInv(cap, s, PushScript(0, v));
    var pops := Drain(cap, m);
    RunAppend(Exact, cap, s, PushScript(0, v), pops);
    actions := PushScript(0, v) + pops;
    var e := Run(Exact, cap, m, pops).value;
    NextLap(w, cap);
    assert CellOk(cap, e, w + cap);
  }

  /** Any write index can be reached with the ring empty and every other thread still at rest. */
  lemma {:induction false} Reach<T>(cap: nat, threads: nat, w: nat, v: T) returns (actions: seq<Action<T>>)
    requires 2 <= cap && 0 < threads
    ensures Run(Exact, cap, Init<T>(cap, threads), actions).Some?
    ensures var e := Run(Exact, cap, Init<T>(cap, threads), actions).value;
            Calm(cap, e) && e.writeIndex == w && forall t | 0 < t < threads :: e.producers[t].Idle?
  {
    if w == 0 {
      InitInv<T>(cap, threads);
      actions := [];
    } else {
      var front := Reach(cap, threads, w - 1, v);
      var back := Cycle(cap, Run(Exact, cap, Init<T>(cap, threads), front).value, v);
      RunAppend(Exact, cap, Init<T>(cap, threads), front, back);
      actions := front + back;
    }
  }

  /**
   Thread 1 loads write index `w` and is overtaken: thread 0 pushes at `w` and the consumer pops, so the
   sequence number thread 1 is about to load is `w + cap`.
   */
  lemma Overtaken<T>(cap: nat, threads: nat, w: nat, v: T) returns (actions: seq<Action<T>>)
    requires 2 <= cap && 2 <= threads
    ensures Run(Exact, cap, Init<T>(cap, threads), actions).Some?
    ensures var e := Run(Exact, cap, Init<T>(cap, threads), actions).value;
            && e.writeIndex == w + 1 && e.sequence[w % cap] == w + cap
            && e.producers[1] == LoadSequence(v, w, Call(w, 0, 0))
  {
    var s0 := Init<T>(cap, threads);
    var front := Reach(cap, threads, w, v);
    var s1 := Run(Exact, cap, s0, front).value;
    var load: seq<Action<T>> := [StartEmplace(1, v), Advance(1)];
    var s2 := Put(s1, 1, LoadSequence(v, w, Call(w, 0, 0)));
    LoadsIndex(cap, s1, 1, v);
    RunInv(cap, s1, load);
    var back := Cycle(cap, s2, v);
    RunAppend(Exact, cap, s1, load, back);
    RunAppend(Exact, cap, s0, front, load + back);
    actions := front + (load + back);
  }

  lemma LoadsIndex<T>(cap: nat, s: State<T>, t: nat, v: T)
    requires Shape(cap, s) && t < |s.producers| && s.producers[t].Idle?
    ensures Run(Exact, cap, s, [StartEmplace(t, v), Advance(t)]) ==
            Some(Put(s, t, LoadSequence(v, s.writeIndex, Call(s.writeIndex, 0, 0))))
  {
    var s1 := Put(s, t, LoadIndex(v));
    var s2 := Put(s, t, LoadSequence(v, s.writeIndex, Call(s.writeIndex, 0, 0)));
    assert Put(s1, t, s2.producers[t]) == s2;
    var start, load: Action<T> := StartEmplace(t, v), Advance(t);
    OneStep(Exact, cap, s1, load);
    FirstStep(Exact, cap, s, start, [load]);
    assert [start] + [load] == [start, load];
  }

  lemma OvertakenDifference(cap: nat, w: nat)
    requires w < HALF_WORD <= w + cap < WORD
    ensures Machine.Diff(w + cap, w) == cap - WORD < 0 && Exact.Diff(w + cap, w) == cap
    ensures Machine.InRange(w + cap, w) <==> HALF_WORD <= cap
  {
  }

  /**
   With `w + cap` at or beyond 2^63 that number is cast to a negative one.  For capacities below 2^63 the
   subtraction then overflows; for larger ones it is defined and says that the ring is full, which it is not.
   */
  lemma OvertakenGoesWrong<T>(cap: nat, s: State<T>, w: nat, v: T)
    requires Shape(cap, s) && 1 < |s.producers| && s.producers[1] == LoadSequence(v, w, Call(w, 0, 0))
    requires s.sequence[w % cap] == w + cap && w < HALF_WORD <= w + cap < WORD
    ensures Machine.InRange(w + cap, w) <==> HALF_WORD <= cap
    ensures ProducerStep(Machine, cap, s, 1) == if cap < HALF_WORD then None else Some(Put(s, 1, Idle(Refused)))
    ensures ProducerStep(Exact, cap, s, 1) == Some(Put(s, 1, Reload(v, w, Call(w, 0, 0))))
  {
    OvertakenDifference(cap, w);
  }

  /** All runs that claim at most `limit` positions are the same on the machine's integers, and none overflows there. */
  ghost predicate MachineAgreesUpTo<T(!new)>(cap: nat, threads: nat, limit: nat)
    requires 0 < cap
  {
    forall actions: seq<Action<T>> | Run(Exact, cap, Init<T>(cap, threads), actions).Some? ::
      Run(Exact, cap, Init<T>(cap, threads), actions).value.writeIndex <= limit ==>
        Run(Machine, cap, Init<T>(cap, threads), actions) == Run(Exact, cap, Init<T>(cap, threads), actions)
  }

  /** The 64-bit arithmetic is defined and exact up to `limit` claims if and only if `limit` and one capacity fit into 2^63. */
  lemma MachineAgreesExactly<T(!new)>(cap: nat, threads: nat, limit: nat, v: T)
    requires 2 <= cap < WORD && 2 <= threads && 1 <= limit
    ensures MachineAgreesUpTo<T>(cap, threads, limit) <==> limit + cap <= HALF_WORD
  {
    var s0 := Init<T>(cap, threads);
    if limit + cap <= HALF_WORD {
      InitInv<T>(cap, threads);
      forall actions: seq<Action<T>>
        | Run(Exact, cap, s0, actions).Some? && Run(Exact, cap, s0, actions).value.writeIndex <= limit
        ensures Run(Machine, cap, s0, actions) == Run(Exact, cap, s0, actions)
      {
        MachineRunIsExact(cap, s0, actions);
      }
    } else {
      var actions := Disagreement(cap, threads, if cap < HALF_WORD then HALF_WORD - cap else 0, v);
    }
  }

  /** A run of `w + 1` claims that overflows on the machine's integers or goes another way there. */
  lemma Disagreement<T>(cap: nat, threads: nat, w: nat, v: T) returns (actions: seq<Action<T>>)
    requires 2 <= cap && 2 <= threads && w < HALF_WORD <= w + cap < WORD
    ensures Run(Exact, cap, Init<T>(cap, threads), actions).Some?
    ensures Run(Exact, cap, Init<T>(cap, threads), actions).value.writeIndex == w + 1
    ensures Run(Machine, cap, Init<T>(cap, threads), actions) != Run(Exact, cap, Init<T>(cap, threads), actions)
  {
    var s0 := Init<T>(cap, threads);
    actions := Overtaken(cap, threads, w, v);
    var e := Run(Exact, cap, s0, actions).value;
    if Run(Machine, cap, s0, actions) == Some(e) {
      OvertakenGoesWrong(cap, e, w, v);
      RunAppend(Exact, cap, s0, actions, [Advance(1)]);
      RunAppend(Machine, cap, s0, actions, [Advance(1)]);
      OneStep(Exact, cap, e, Advance(1));
      OneStep(Machine, cap, e, Advance(1));
      assert Put(e, 1, Idle(Refused)).producers[1] != Put(e, 1, Reload(v, w, Call(w, 0, 0))).producers[1];
      actions := actions + [Advance(1)];
    }
  }

  /**
   The input on which `size()` wraps: with write index `w` loaded, a push and a pop by others before the
   second load bring the read index to `w + 1`, and the unsigned difference is 2^64 - 1.
   */
  lemma SizeCanWrap<T>(cap: nat, threads: nat, w: nat, v: T) returns (before: seq<Action<T>>, between: seq<Action<T>>)
    requires 2 <= cap && 0 < threads
    ensures var first := Run(Exact, cap, Init<T>(cap, threads), before);
            && first.Some? && first.value.writeIndex == w
            && var second := Run(Exact, cap, first.value, between);
               second.Some? && second.value.readIndex == w + 1
    ensures (w - (w + 1)) % WORD == WORD - 1
  {
    before := Reach(cap, threads, w, v);
    between := Cycle(cap, Run(Exact, cap, Init<T>(cap, threads), before).value, v);
  }

  lemma OneStep<T>(ar: Arithmetic, cap: nat, s: State<T>, a: Action<T>)
    requires Shape(cap, s)
    ensures Run(ar, cap, s, [a]) == Step(ar, cap, s, a)
  {
    FirstStep(ar, cap, s, a, []);
    assert [a] + [] == [a];
  }
}
