/**
 `mpsc_ring_queue` itself: the calls as the source writes them, over the queue's own cells, with other
 threads free to run between any two atomic accesses.
 */
module MpscQueue {
  import opened Wrappers
  import opened Slots
  import opened RingArithmetic
  import opened MpscModel
  import opened MpscInvariant
  import opened MpscTheorems

  ghost predicate OthersOnly<T>(me: Option<nat>, actions: seq<Action<T>>) {
    forall i | 0 <= i < |actions| :: Actor(actions[i]) != me
  }

  /** What a thread may rely on while others run. */
  ghost predicate Rely<T>(s: State<T>, s': State<T>, me: Option<nat>) {
    && |s'.producers| == |s.producers|
    && s.writeIndex <= s'.writeIndex && |s.log| <= |s'.log|
    && (forall p | 0 <= p < |s.log| :: s'.log[p].value == s.log[p].value && s'.log[p].owner == s.log[p].owner)
    && match me
       case Some(t) =>
         && t < |s.producers| && s'.producers[t] == s.producers[t]
         && (forall p | |s.log| <= p < |s'.log| :: s'.log[p].owner != t)
       case None =>
         s'.consumer == s.consumer && s'.readIndex == s.readIndex && s'.exits == s.exits
  }

  lemma StepRely<T>(cap: nat, s: State<T>, a: Action<T>, me: Option<nat>)
    requires Inv(cap, s) && Step(Exact, cap, s, a).Some? && Actor(a) != me
    requires me.Some? ==> me.value < |s.producers|
    ensures Rely(s, Step(Exact, cap, s, a).value, me)
  {
  }

  /** Any run of other threads keeps the rely condition. */
  lemma {:induction false} RunRely<T>(cap: nat, s: State<T>, others: seq<Action<T>>, me: Option<nat>)
    requires Inv(cap, s) && 2 <= cap && Run(Exact, cap, s, others).Some? && OthersOnly(me, others)
    requires me.Some? ==> me.value < |s.producers|
    ensures Rely(s, Run(Exact, cap, s, others).value, me)
    decreases |others|
  {
    if others != [] {
      var next := Step(Exact, cap, s, others[0]).value;
      StepRely(cap, s, others[0], me);
      StepInv(cap, s, others[0]);
      RunRely(cap, next, others[1..], me);
    }
  }

  /** What steps of producer `me` alone leave as it is. */
  ghost predicate OnlyMine<T>(s: State<T>, s': State<T>, me: nat) {
    && |s'.producers| == |s.producers| && |s.log| <= |s'.log|
    && s'.consumer == s.consumer && s'.readIndex == s.readIndex && s'.exits == s.exits
    && (forall t | 0 <= t < |s.producers| && t != me :: s'.producers[t] == s.producers[t])
    && (forall p | 0 <= p < |s.log| :: s'.log[p].value == s.log[p].value && s'.log[p].owner == s.log[p].owner)
    && (forall p | |s.log| <= p < |s'.log| :: s'.log[p].owner == me)
  }

  lemma OnlyMineThen<T>(a: State<T>, b: State<T>, c: State<T>, me: nat)
    requires OnlyMine(a, b, me) && OnlyMine(b, c, me)
    ensures OnlyMine(a, c, me)
  {
  }

  /** The sequence number of the cell of an earlier read index tells whether that position is published and not released. */
  lemma PublishedReading<T>(cap: nat, s: State<T>, read: nat)
    requires Inv(cap, s) && 2 <= cap && read <= s.readIndex
    ensures s.sequence[read % cap] == read + 1 <==> Released(s) <= read && PublishedAt(s, read)
  {
    var p := WindowCovers(read, Released(s), cap);
    assert CellOk(cap, s, p);
    if p == read + 1 {
      DistinctCells(read, p, cap);
    } else if Released(s) <= read {
      assert CellOk(cap, s, read);
    }
  }

  lemma StepGrows<T>(cap: nat, s: State<T>, a: Action<T>)
    requires Inv(cap, s) && Step(Exact, cap, s, a).Some?
    ensures s.readIndex <= Step(Exact, cap, s, a).value.readIndex
  {
  }

  lemma {:induction false} RunGrows<T>(cap: nat, s: State<T>, actions: seq<Action<T>>)
    requires Inv(cap, s) && 2 <= cap && Run(Exact, cap, s, actions).Some?
    ensures s.readIndex <= Run(Exact, cap, s, actions).value.readIndex
    decreases |actions|
  {
    if actions != [] {
      StepGrows(cap, s, actions[0]);
      StepInv(cap, s, actions[0]);
      RunGrows(cap, Step(Exact, cap, s, actions[0]).value, actions[1..]);
    }
  }

  /** What the publish store does. */
  lemma PublishEffect<T>(cap: nat, s: State<T>, me: nat, write: nat)
    requires Inv(cap, s) && 2 <= cap && me < |s.producers| && s.producers[me] == Publish(write)
    ensures write < |s.log| && s.log[write].owner == me
    ensures var s' := ProducerStep(Exact, cap, s, me).value;
            && s'.producers[me] == Idle(Accepted(write)) && s'.readIndex == s.readIndex && s'.writeIndex == s.writeIndex
            && s'.sequence == s.sequence[write % cap := write + 1] && s'.storage == s.storage
            && s'.log == s.log[write := Entry(s.log[write].value, me, Published)]
            && OnlyMine(s, s', me)
  {
    assert ProducerOk(cap, s, me);
  }

  datatype Outcome = Won | Lost | Again

  class MpscRingQueue<T> {
    const capacity: nat
    const sequence: array<nat>
    const storage: array<Slot<T>>
    var readIndex: nat
    var writeIndex: nat

    // The protocol state of all threads, and the run that led to it.
    ghost const threads: nat
    ghost const alone: bool  // no other thread uses the queue
    ghost var model: State<T>
    ghost var trace: seq<Action<T>>

    /** The model is reached by a run of the protocol, and the fields are its shared part. */
    ghost predicate Valid()
      reads this, sequence, storage
    {
      && 2 <= capacity && sequence.Length == capacity && storage.Length == capacity
      && model.readIndex == readIndex && model.writeIndex == writeIndex
      && model.sequence == sequence[..] && model.storage == storage[..]
      && |model.producers| == threads
      && Inv(capacity, model)
      && Run(Exact, capacity, Init<T>(capacity, threads), trace) == Some(model)
    }

    constructor (capacity: nat, ghost threads: nat, ghost alone: bool)
      requires 2 <= capacity
      ensures Valid() && this.capacity == capacity && this.threads == threads && this.alone == alone
      ensures trace == [] && model == Init(capacity, threads)
      ensures fresh(sequence) && fresh(storage)
    {
      this.capacity := capacity;
      this.threads := threads;
      this.alone := alone;
      sequence := new nat[capacity];
      storage := new Slot<T>[capacity](_ => Empty);
      readIndex, writeIndex := 0, 0;
      model, trace := Init(capacity, threads), [];
      new;
      for index := 0 to capacity
        modifies sequence
        invariant forall i | 0 <= i < index :: sequence[i] == i
        invariant storage[..] == seq(capacity, _ => Empty)
      {
        sequence[index] := index;
      }
      assert sequence[..] == seq(capacity, i => i);
      InitInv<T>(capacity, threads);
    }

    /** Record that the next atomic access has happened. */
    ghost method Take(a: Action<T>)
      requires Inv(capacity, model) && 2 <= capacity && |model.producers| == threads
      requires Run(Exact, capacity, Init<T>(capacity, threads), trace) == Some(model)
      requires Step(Exact, capacity, model, a).Some?
      modifies this`model, this`trace
      ensures Step(Exact, capacity, old(model), a) == Some(model) && trace == old(trace) + [a]
      ensures Inv(capacity, model) && |model.producers| == threads
      ensures Run(Exact, capacity, Init<T>(capacity, threads), trace) == Some(model)
    {
      RunAppend(Exact, capacity, Init<T>(capacity, threads), trace, [a]);
      FirstStep(Exact, capacity, model, a, []);
      assert [a] + [] == [a];
      StepInv(capacity, model, a);
      model := Step(Exact, capacity, model, a).value;
      trace := trace + [a];
    }

    /** How often `me` has come to load a cell's sequence number, over the whole run. */
    ghost function Loads(me: nat): nat
      requires 0 < capacity && me < threads
      reads this`trace
    {
      LoadsIn(capacity, Init<T>(capacity, threads), trace, me)
    }

    /** The next atomic access of producer `me`. */
    ghost method TakeOwn(me: nat, a: Action<T>)
      requires Inv(capacity, model) && 2 <= capacity && |model.producers| == threads
      requires Run(Exact, capacity, Init<T>(capacity, threads), trace) == Some(model)
      requires Step(Exact, capacity, model, a).Some? && me < threads && Actor(a) == Some(me)
      modifies this`model, this`trace
      ensures Step(Exact, capacity, old(model), a) == Some(model)
      ensures Inv(capacity, model) && |model.producers| == threads
      ensures Run(Exact, capacity, Init<T>(capacity, threads), trace) == Some(model)
      ensures Loads(me) == old(Loads(me)) + if model.producers[me].LoadSequence? then 1 else 0
    {
      Take(a);
      LoadsNext(capacity, Init<T>(capacity, threads), old(trace), a, me);
    }

    /**
     The scheduling point between two atomic accesses of `me`.  Callers learn only what the contract
     says: other threads took some steps.
     */
    method Interfere(me: Option<nat>)
      requires Valid() && (me.Some? ==> me.value < threads)
      modifies this, sequence, storage
      ensures Valid() && Rely(old(model), model, me)
      ensures old(trace) <= trace && OthersOnly(me, trace[|old(trace)|..])
      ensures me.Some? ==> Loads(me.value) == old(Loads(me.value))
      ensures alone ==> model == old(model)
    {
      RunRely(capacity, model, [], me);
    }

    /** The same where a loop must end: the other threads make at most `budget - left` claims. */
    method InterfereAtMost(me: Option<nat>, budget: nat) returns (left: nat)
      requires Valid() && (me.Some? ==> me.value < threads)
      modifies this, sequence, storage
      ensures Valid() && Rely(old(model), model, me)
      ensures old(trace) <= trace && OthersOnly(me, trace[|old(trace)|..])
      ensures me.Some? ==> Loads(me.value) == old(Loads(me.value))
      ensures writeIndex + left <= old(writeIndex) + budget
      ensures alone ==> model == old(model)
    {
      left := budget;
      RunRely(capacity, model, [], me);
    }

    /** The scheduling point inside a query by a thread that takes no steps of its own: anybody else may run. */
    method InterfereAll()
      requires Valid()
      modifies this, sequence, storage
      ensures Valid() && old(trace) <= trace && old(readIndex) <= readIndex
      ensures alone ==> model == old(model)
    {
      RunGrows(capacity, model, []);
    }

    method ConstructAt(cell: nat, value: T)
      requires cell < storage.Length && storage[cell].Empty?
      modifies storage
      ensures storage[..] == old(storage[..])[cell := Constructed(value)]
    {
      storage[cell] := Constructed(value);
    }

    method MoveFrom(cell: nat) returns (value: T)
      requires cell < storage.Length && storage[cell].Constructed?
      modifies storage
      ensures value == old(storage[cell]).value && storage[..] == old(storage[..])[cell := MovedFrom]
    {
      value := storage[cell].value;
      storage[cell] := MovedFrom;
    }

    method DestroyAt(cell: nat)
      requires cell < storage.Length && !storage[cell].Empty?
      modifies storage
      ensures storage[..] == old(storage[..])[cell := Empty]
    {
      storage[cell] := Empty;
    }

    /** The acquire load of the cell's sequence number, and its distance from the local `write`. */
    method LoadCellSequence(me: nat, write: nat) returns (diff: int)
      requires Valid() && me < threads && model.producers[me].LoadSequence? && model.producers[me].write == write
      modifies this`model, this`trace
      ensures Valid() && model.log == old(model.log) && model.consumer == old(model.consumer)
      ensures var p := old(model.producers[me]);
              model.producers[me] == if diff == 0 then CompareExchange(p.value, p.write, p.call)
                                     else if diff < 0 then Idle(Refused)
                                     else Reload(p.value, p.write, p.call)
      ensures diff < 0 ==> Outstanding(model) == capacity
      ensures OnlyMine(old(model), model, me) && Loads(me) == old(Loads(me))
    {
      diff := sequence[write % capacity] - write;
      FullIsNeverSpurious(capacity, model, me);
      TakeOwn(me, Advance(me));
    }

    /** The weak compare-exchange; `lucky` is false when it fails although the index matches. */
    method CompareExchangeWeak(me: nat, write: nat, lucky: bool) returns (won: bool)
      requires Valid() && me < threads && model.producers[me].CompareExchange? && model.producers[me].write == write
      modifies this`writeIndex, this`model, this`trace
      ensures Valid() && won == (old(writeIndex) == write && lucky)
      ensures model.log == if won then old(model.log) + [Entry(old(model.producers[me]).value, me, Claimed)] else old(model.log)
      ensures writeIndex == if won then write + 1 else old(writeIndex)
      ensures won ==> model.producers[me] == Construct(old(model.producers[me]).value, write)
      ensures !won ==> model.producers[me].LoadSequence? && model.producers[me].write == writeIndex
      ensures !won ==> model.producers[me].value == old(model.producers[me]).value
      ensures !won && lucky ==> write < writeIndex
      ensures OnlyMine(old(model), model, me) && Loads(me) == old(Loads(me)) + if won then 0 else 1
    {
      RetryAdvances(capacity, model, me);
      won := writeIndex == write && lucky;
      if won {
        writeIndex := write + 1;
        TakeOwn(me, Advance(me));
      } else if writeIndex == write {
        TakeOwn(me, SpuriousFailure(me));
      } else {
        TakeOwn(me, Advance(me));
      }
    }

    /** The reload of `write_index_` after another producer has moved it. */
    method ReloadIndex(me: nat) returns (write: nat)
      requires Valid() && me < threads && model.producers[me].Reload?
      modifies this`model, this`trace
      ensures Valid() && model.log == old(model.log)
      ensures model.producers[me].LoadSequence? && write == model.producers[me].write == writeIndex
      ensures model.producers[me].value == old(model.producers[me]).value
      ensures old(model.producers[me]).write < write
      ensures OnlyMine(old(model), model, me) && Loads(me) == old(Loads(me)) + 1
    {
      RetryAdvances(capacity, model, me);
      write := writeIndex;
      TakeOwn(me, Advance(me));
    }

    /** No entry logged since there were `from` of them belongs to `me`. */
    ghost predicate NoneOfMine(me: nat, from: nat)
      reads this`model
    {
      from <= |model.log| && forall p | from <= p < |model.log| :: model.log[p].owner != me
    }

    /** The first load of `write_index_`. */
    method BeginEmplace(me: nat, value: T, claims: nat) returns (write: nat, left: nat)
      requires Valid() && me < threads && model.producers[me].Idle?
      modifies this, sequence, storage
      ensures Valid() && NoneOfMine(me, old(|model.log|))
      ensures model.producers[me].LoadSequence?
      ensures model.producers[me].value == value && model.producers[me].write == write
      ensures old(writeIndex) <= write == writeIndex && writeIndex + left <= old(writeIndex) + claims
      ensures Loads(me) == old(Loads(me)) + 1
      ensures alone ==> OnlyMine(old(model), model, me)
    {
      TakeOwn(me, StartEmplace(me, value));
      left := InterfereAtMost(Some(me), claims);
      write := writeIndex;
      TakeOwn(me, Advance(me));
    }

    /** The load of the cell's sequence number with other threads before it and, unless full, after it. */
    method LoadPhase(me: nat, write: nat, claims: nat) returns (diff: int, left: nat)
      requires Valid() && me < threads && write <= writeIndex
      requires model.producers[me].LoadSequence? && model.producers[me].write == write
      modifies this, sequence, storage
      ensures Valid() && old(writeIndex) <= writeIndex && writeIndex + left <= old(writeIndex) + claims
      ensures forall p | 0 <= p < old(|model.log|) :: p < |model.log| && model.log[p].owner == old(model.log[p].owner)
      ensures NoneOfMine(me, old(|model.log|)) && Loads(me) == old(Loads(me))
      ensures var p := old(model.producers[me]);
              model.producers[me] == if diff == 0 then CompareExchange(p.value, p.write, p.call)
                                     else if diff < 0 then Idle(Refused)
                                     else Reload(p.value, p.write, p.call)
      ensures diff < 0 ==> Outstanding(model) == capacity
      ensures alone ==> OnlyMine(old(model), model, me)
    {
      left := InterfereAtMost(Some(me), claims);
      diff := LoadCellSequence(me, write);
      if diff >= 0 {
        left := InterfereAtMost(Some(me), left);
      }
    }

    /**
     One turn of the claim loop.  A turn that neither wins nor refuses has either moved the local
     `write` forward or, when `lucky` is false, met a spurious failure.
     */
    method Attempt(me: nat, value: T, write: nat, lucky: bool, claims: nat) returns (outcome: Outcome, next: nat, left: nat)
      requires Valid() && me < threads && write <= writeIndex
      requires model.producers[me].LoadSequence?
      requires model.producers[me].value == value && model.producers[me].write == write
      modifies this, sequence, storage
      ensures Valid() && writeIndex + left <= old(writeIndex) + claims + (if outcome == Won then 1 else 0)
      ensures old(writeIndex) <= writeIndex && write <= next <= writeIndex
      ensures forall p | 0 <= p < old(|model.log|) :: p < |model.log| && model.log[p].owner == old(model.log[p].owner)
      ensures outcome == Won ==>
                next == write < writeIndex && model.producers[me] == Construct(value, write)
                && write == old(|model.log|) == |model.log| - 1
      ensures outcome == Lost ==>
                Outstanding(model) == capacity && model.producers[me] == Idle(Refused) && NoneOfMine(me, old(|model.log|))
      ensures outcome == Again ==>
                && model.producers[me].LoadSequence? && model.producers[me].value == value
                && model.producers[me].write == next && NoneOfMine(me, old(|model.log|))
                && (lucky ==> write < next)
      ensures Loads(me) == old(Loads(me)) + if outcome == Again then 1 else 0
      ensures alone ==> OnlyMine(old(model), model, me)
    {
      var diff;
      diff, left := LoadPhase(me, write, claims);
      if diff < 0 {
        return Lost, write, left;
      }
      if diff == 0 {
        var won := CompareExchangeWeak(me, write, lucky);
        if won {
          return Won, write, left;
        }
        next := writeIndex;
      } else {
        next := ReloadIndex(me);
      }
      outcome := Again;
    }

    /** In the claim loop: `me` is about to load the sequence number of `write`, and has claimed nothing since `was`. */
    ghost predicate Seeking(me: nat, value: T, write: nat, was: State<T>)
      reads this, sequence, storage
    {
      && Valid() && me < threads && model.producers[me].LoadSequence?
      && model.producers[me].value == value && model.producers[me].write == write <= writeIndex
      && NoneOfMine(me, |was.log|)
      && (alone ==> OnlyMine(was, model, me))
    }

    /** One turn of the claim loop, seen from its start. */
    method ClaimTurn(me: nat, value: T, write: nat, lucky: bool, claims: nat, ghost was: State<T>)
      returns (outcome: Outcome, next: nat, left: nat)
      requires Seeking(me, value, write, was)
      modifies this, sequence, storage
      ensures Valid() && writeIndex + left <= old(writeIndex) + claims + (if outcome == Won then 1 else 0)
      ensures write <= next <= writeIndex && (outcome == Again && lucky ==> write < next)
      ensures outcome == Again ==> Seeking(me, value, next, was)
      ensures outcome == Won ==> next == write < writeIndex && model.producers[me] == Construct(value, write)
      ensures outcome == Lost ==> Outstanding(model) == capacity && model.producers[me] == Idle(Refused)
      ensures |was.log| <= |model.log|
      ensures forall p | |was.log| <= p < |model.log| && model.log[p].owner == me :: outcome == Won && p == write
      ensures Loads(me) == old(Loads(me)) + if outcome == Again then 1 else 0
      ensures alone ==> OnlyMine(was, model, me)
    {
      ghost var before := model;
      outcome, next, left := Attempt(me, value, write, lucky, claims);
      if alone { OnlyMineThen(was, before, model, me); }
    }

    /**
     The claim loop of `try_emplace`: on success `me` owns position `write` and its empty cell.  Other
     threads make at most `claims` claims meanwhile, and the weak compare-exchange fails spuriously at
     most `spurious` times.
     */
    method Claim(me: nat, value: T, claims: nat, spurious: nat) returns (ok: bool, write: nat, retries: nat)
      requires Valid() && me < threads && model.producers[me].Idle?
      modifies this, sequence, storage
      ensures Valid() && retries <= claims + spurious && Loads(me) == old(Loads(me)) + retries + 1
      ensures !ok ==> Outstanding(model) == capacity && model.producers[me] == Idle(Refused)
      ensures ok ==> old(writeIndex) <= write < writeIndex && model.producers[me] == Construct(value, write)
      ensures old(|model.log|) <= |model.log|
      ensures forall p | old(|model.log|) <= p < |model.log| && model.log[p].owner == me :: ok && p == write
      ensures alone ==> OnlyMine(old(model), model, me)
    {
      var others: nat, outcome;
      var failures := spurious;
      retries := 0;
      write, others := BeginEmplace(me, value, claims);
      while true
        invariant Seeking(me, value, write, old(model)) && old(writeIndex) <= write
        invariant retries + others + failures + writeIndex <= claims + spurious + write
        invariant Loads(me) == old(Loads(me)) + retries + 1
        decreases others + failures + writeIndex - write
      {
        var lucky: bool :| lucky || failures > 0;
        outcome, write, others := ClaimTurn(me, value, write, lucky, others, old(model));
        if outcome != Again {
          return outcome == Won, write, retries;
        }
        failures := if lucky then failures else failures - 1;
        retries := retries + 1;
      }
    }

    /** The rest of `try_emplace`: construct in the claimed cell, then publish it. */
    method Fill(me: nat, value: T, write: nat)
      requires Valid() && me < threads && model.producers[me] == Construct(value, write)
      modifies this, sequence, storage
      ensures Valid() && write < |model.log| && old(|model.log|) <= |model.log|
      ensures model.producers[me] == Idle(Accepted(write)) && model.log[write] == Entry(value, me, Published)
      ensures forall p | 0 <= p < old(|model.log|) :: model.log[p].owner == old(model.log[p].owner)
      ensures forall p | old(|model.log|) <= p < |model.log| :: model.log[p].owner != me
      ensures Loads(me) == old(Loads(me))
      ensures alone ==> OnlyMine(old(model), model, me)
    {
      Interfere(Some(me));
      ConstructStep(me, value, write);
      Interfere(Some(me));
      PublishStep(me, write);
    }

    method ConstructStep(me: nat, value: T, write: nat)
      requires Valid() && me < threads && model.producers[me] == Construct(value, write)
      modifies this`model, this`trace, storage
      ensures Valid() && model.producers[me] == Publish(write) && writeIndex == old(writeIndex)
      ensures write < |model.log| && model.log == old(model.log)[write := Entry(value, me, Built)]
      ensures old(model.log[write].owner) == me && Loads(me) == old(Loads(me))
      ensures OnlyMine(old(model), model, me)
    {
      ElementOperationsMeetTheirSlot(capacity, model);
      assert ProducerOk(capacity, model, me);
      ConstructAt(write % capacity, value);
      TakeOwn(me, Advance(me));
    }

    method PublishStep(me: nat, write: nat)
      requires Valid() && me < threads && model.producers[me] == Publish(write)
      modifies this`model, this`trace, sequence
      ensures Valid() && model.producers[me] == Idle(Accepted(write))
      ensures write < |model.log| && old(model.log[write].owner) == me && Loads(me) == old(Loads(me))
      ensures model.log == old(model.log)[write := Entry(old(model.log[write].value), me, Published)]
      ensures OnlyMine(old(model), model, me)
    {
      PublishEffect(capacity, model, me, write);
      sequence[write % capacity] := write + 1;
      TakeOwn(me, Advance(me));
    }

    /**
     `try_emplace` by thread `me`.  It counts its retries: it came to load a sequence number once more than
     that.  It retries no more often than others claim and the weak compare-exchange fails spuriously; it refuses only at an instant when the ring is full; and it adds
     exactly one entry of its own to the log, published, or none.
     */
    method TryEmplace(me: nat, value: T, claims: nat, spurious: nat) returns (ok: bool, retries: nat)
      requires Valid() && me < threads && model.producers[me].Idle?
      modifies this, sequence, storage
      ensures Valid() && retries <= claims + spurious && Loads(me) == old(Loads(me)) + retries + 1
      ensures !ok ==> model.producers[me] == Idle(Refused) && Outstanding(model) == capacity
      ensures ok ==>
                && model.producers[me].Idle? && model.producers[me].last.Accepted?
                && var p := model.producers[me].last.position;
                   old(writeIndex) <= p < |model.log| && model.log[p] == Entry(value, me, Published)
      ensures old(|model.log|) <= |model.log|
      ensures forall p | old(|model.log|) <= p < |model.log| && model.log[p].owner == me ::
                ok && model.producers[me] == Idle(Accepted(p))
      ensures alone ==> OnlyMine(old(model), model, me)
    {
      var write;
      ok, write, retries := Claim(me, value, claims, spurious);
      if ok {
        Fill(me, value, write);
      }
    }

    // ---- Consumer ----

    /** The consumer's load of the head cell's sequence number. */
    method LoadHead(read: nat, ghost clearing: bool) returns (ready: bool)
      requires Valid() && model.consumer == LoadCell(read, clearing)
      modifies this`model, this`trace
      ensures Valid() && ready == PublishedAt(model, read) && readIndex == read
      ensures model == old(model).(consumer :=
                if !ready then Resting else if clearing then Destroy(read, true) else Move(read))
    {
      var diff := sequence[read % capacity] - (read + 1);
      PopMissIsExact(capacity, model);
      Take(AdvanceConsumer);
      ready := diff == 0;
    }

    method MoveHead(read: nat) returns (value: T)
      requires Valid() && model.consumer == Move(read)
      modifies this`model, this`trace, storage
      ensures Valid() && model.consumer == Destroy(read, false) && readIndex == read < |model.log|
      ensures value == model.log[read].value && model.exits == old(model.exits) + [Exit(value, true)]
      ensures model.log == old(model.log) && model.producers == old(model.producers)
    {
      ElementOperationsMeetTheirSlot(capacity, model);
      value := MoveFrom(read % capacity);
      Take(AdvanceConsumer);
    }

    method DestroyHead(read: nat, ghost clearing: bool)
      requires Valid() && model.consumer == Destroy(read, clearing)
      modifies this`model, this`trace, storage
      ensures Valid() && model.consumer == StoreIndex(read, clearing) && readIndex == read < |model.log|
      ensures model.exits == old(model.exits) + if clearing then [Exit(model.log[read].value, false)] else []
      ensures model.log == old(model.log) && model.producers == old(model.producers)
    {
      ElementOperationsMeetTheirSlot(capacity, model);
      DestroyAt(read % capacity);
      Take(AdvanceConsumer);
    }

    method StoreReadIndex(read: nat, ghost clearing: bool)
      requires Valid() && model.consumer == StoreIndex(read, clearing)
      modifies this`readIndex, this`model, this`trace
      ensures Valid() && model.consumer == Release(read, clearing) && readIndex == read + 1
      ensures model.exits == old(model.exits) && model.log == old(model.log) && model.producers == old(model.producers)
    {
      readIndex := read + 1;
      Take(AdvanceConsumer);
    }

    method ReleaseHead(read: nat, ghost clearing: bool)
      requires Valid() && model.consumer == Release(read, clearing)
      modifies this`model, this`trace, sequence
      ensures Valid() && readIndex == read + 1
      ensures model.consumer == if clearing then LoadCell(read + 1, true) else Resting
      ensures model.exits == old(model.exits) && model.log == old(model.log) && model.producers == old(model.producers)
    {
      sequence[read % capacity] := read + capacity;
      Take(AdvanceConsumer);
    }

    /** `try_pop`'s three writes after the move, with producers running in between. */
    method FinishPop(read: nat)
      requires Valid() && model.consumer == Destroy(read, false)
      modifies this, sequence, storage
      ensures Valid() && model.consumer.Resting? && readIndex == read + 1
      ensures model.exits == old(model.exits)
      ensures alone ==> model.log == old(model.log) && model.producers == old(model.producers)
    {
      Interfere(None);
      DestroyHead(read, false);
      Interfere(None);
      StoreReadIndex(read, false);
      Interfere(None);
      ReleaseHead(read, false);
    }

    /** `try_pop` up to its load of the head cell's sequence number. */
    method BeginPop() returns (read: nat, ready: bool)
      requires Valid() && model.consumer.Resting?
      modifies this, sequence, storage
      ensures Valid() && read == readIndex == old(readIndex) && model.exits == old(model.exits)
      ensures ready == PublishedAt(model, read) && model.consumer == if ready then Move(read) else Resting
      ensures alone ==> model.log == old(model.log) && model.producers == old(model.producers)
    {
      Take(StartPop);
      read := readIndex;
      Interfere(None);
      ready := LoadHead(read, false);
    }

    /**
     `try_pop`.  It delivers the value claimed at the read position, or finds at the instant of its load
     that this position is not published.
     */
    method TryPop() returns (result: Option<T>)
      requires Valid() && model.consumer.Resting?
      modifies this, sequence, storage
      ensures Valid() && model.consumer.Resting?
      ensures result.Some? ==>
                && readIndex == old(readIndex) + 1 && old(readIndex) < |model.log|
                && result.value == model.log[old(readIndex)].value
                && model.exits == old(model.exits) + [Exit(result.value, true)]
      ensures result.None? ==>
                readIndex == old(readIndex) && model.exits == old(model.exits) && !PublishedAt(model, readIndex)
      ensures alone ==> model.log == old(model.log) && model.producers == old(model.producers)
    {
      var read, ready := BeginPop();
      if !ready {
        return None;
      }
      Interfere(None);
      var value := MoveHead(read);
      FinishPop(read);
      result := Some(value);
    }

    /** One cell of `clear`. */
    method ClearHead(read: nat)
      requires Valid() && model.consumer == Destroy(read, true)
      modifies this`readIndex, this`model, this`trace, storage, sequence
      ensures Valid() && model.consumer == LoadCell(read + 1, true) && readIndex == read + 1 <= |model.log|
      ensures model.exits == old(model.exits) + [Exit(model.log[read].value, false)]
      ensures model.log == old(model.log) && model.producers == old(model.producers)
    {
      DestroyHead(read, true);
      StoreReadIndex(read, true);
      ReleaseHead(read, true);
    }

    /** `clear` up to its first load of a cell's sequence number. */
    method BeginClear() returns (read: nat, ready: bool)
      requires Valid() && model.consumer.Resting?
      modifies this`model, this`trace
      ensures Valid() && read == readIndex && ready == PublishedAt(model, read)
      ensures model.consumer == if ready then Destroy(read, true) else Resting
      ensures model.log == old(model.log) && model.producers == old(model.producers) && model.exits == old(model.exits)
    {
      Take(StartClear);
      read := readIndex;
      ready := LoadHead(read, true);
    }

    /** One turn of `clear`: one cell, and the load of the next one's sequence number. */
    method ClearTurn(read: nat) returns (ready: bool)
      requires Valid() && model.consumer == Destroy(read, true)
      modifies this`readIndex, this`model, this`trace, storage, sequence
      ensures Valid() && readIndex == read + 1 <= |model.log| && ready == PublishedAt(model, read + 1)
      ensures model.consumer == if ready then Destroy(read + 1, true) else Resting
      ensures model.exits == old(model.exits) + [Exit(model.log[read].value, false)]
      ensures model.log == old(model.log) && model.producers == old(model.producers)
    {
      ClearHead(read);
      ready := LoadHead(read + 1, true);
    }

    /**
     `clear`, which demands external synchronization: no other thread runs.  It destroys published
     elements in order until the head is not published; if no producer is in the middle of a call,
     nothing is left and every cell is empty.
     */
    method Clear()
      requires Valid() && model.consumer.Resting?
      modifies this, sequence, storage
      ensures Valid() && model.consumer.Resting? && !PublishedAt(model, readIndex)
      ensures model.log == old(model.log) && model.producers == old(model.producers)
      ensures old(model.exits) <= model.exits
      ensures forall i | old(|model.exits|) <= i < |model.exits| :: !model.exits[i].popped
      ensures Quiescent(model) ==>
                && readIndex == writeIndex && Queue(model) == []
                && forall i | 0 <= i < capacity :: storage[i].Empty?
    {
      var read, ready := BeginClear();
      while ready
        invariant Valid() && readIndex == read && ready == PublishedAt(model, read)
        invariant model.consumer == if ready then Destroy(read, true) else Resting
        invariant model.log == old(model.log) && model.producers == old(model.producers)
        invariant OnlyDestroyed(old(model.exits), model.exits)
        decreases |model.log| - read
      {
        ghost var exits := model.exits;
        ready := ClearTurn(read);
        OneMoreDestroyed(old(model.exits), exits, model.log[read].value);
        read := read + 1;
      }
      if Quiescent(model) {
        NothingPublishedMeansEmpty(capacity, model);
      }
    }

    // ---- State queries ----

    /**
     `empty()` by any thread: false exactly when, at the second load, the position first read is published
     and not yet released; so while the consumer stays where it is, true exactly when nothing can be popped.
     */
    method IsEmpty() returns (empty: bool)
      requires Valid()
      modifies this, sequence, storage
      ensures Valid() && old(readIndex) <= readIndex
      ensures empty <==> !(Released(model) <= old(readIndex) && PublishedAt(model, old(readIndex)))
      ensures model.consumer.Resting? && readIndex == old(readIndex) ==> empty == !PublishedAt(model, readIndex)
      ensures alone ==> model == old(model)
    {
      var read := readIndex;
      InterfereAll();
      PublishedReading(capacity, model, read);
      var number := sequence[read % capacity];
      empty := number != read + 1;
    }

    /** `full()`'s load of the write index. */
    method BeginFull(me: nat) returns (write: nat)
      requires Valid() && me < threads && model.producers[me].Idle?
      modifies this, sequence, storage
      ensures Valid() && model.producers[me] == FullLoadSequence(write)
      ensures alone ==> OnlyMine(old(model), model, me) && model.log == old(model.log) && write == writeIndex
    {
      Take(StartFull(me));
      Interfere(Some(me));
      write := writeIndex;
      Take(Advance(me));
    }

    /** `full()`'s load of the cell's sequence number. */
    method LoadFull(me: nat, write: nat) returns (full: bool)
      requires Valid() && me < threads && model.producers[me] == FullLoadSequence(write)
      modifies this`model, this`trace
      ensures Valid() && model.producers[me] == Idle(Answer.Full(full)) && model.log == old(model.log)
      ensures full ==> Outstanding(model) == capacity
      ensures write == writeIndex ==> full == (Outstanding(model) == capacity)
      ensures OnlyMine(old(model), model, me)
    {
      var diff := sequence[write % capacity] - write;
      FullIsNeverSpurious(capacity, model, me);
      Take(Advance(me));
      full := diff < 0;
    }

    /** `full()` by thread `me`: never true unless the ring was full at the instant of the second load. */
    method IsFull(me: nat) returns (full: bool)
      requires Valid() && me < threads && model.producers[me].Idle?
      modifies this, sequence, storage
      ensures Valid() && model.producers[me] == Idle(Answer.Full(full))
      ensures full ==> Outstanding(model) == capacity
      ensures alone ==> OnlyMine(old(model), model, me) && model.log == old(model.log)
      ensures alone ==> full == (Outstanding(model) == capacity)
    {
      var write := BeginFull(me);
      Interfere(Some(me));
      full := LoadFull(me, write);
    }

    /**
     `size()` by any thread.  Its two loads can straddle updates: what it returns is within the capacity
     unless the consumer has passed the write index first loaded, and then the unsigned difference wraps.
     */
    method Size() returns (size: nat)
      requires Valid()
      modifies this, sequence, storage
      ensures Valid() && old(readIndex) <= readIndex
      ensures readIndex <= old(writeIndex) ==> size == old(writeIndex) - readIndex <= capacity
      ensures old(writeIndex) < readIndex ==> size == (old(writeIndex) - readIndex) % WORD
      ensures alone ==> model == old(model) && (Quiescent(model) ==> size == |Queue(model)|)
    {
      var write := writeIndex;
      InterfereAll();
      var read := readIndex;
      size := if read <= write then write - read else (write - read) % WORD;
    }
  }

  /** With no call in progress and no published head, nothing was claimed that has not left. */
  lemma NothingPublishedMeansEmpty<T>(cap: nat, s: State<T>)
    requires Inv(cap, s) && Quiescent(s) && !PublishedAt(s, s.readIndex)
    ensures s.readIndex == s.writeIndex && Queue(s) == []
    ensures forall i | 0 <= i < cap :: s.storage[i] == Empty
  {
    assert s.readIndex < s.writeIndex ==> OwnerOk(s, s.readIndex);
    forall i | 0 <= i < cap ensures s.storage[i] == Empty {
      Residue(i, 0, i, cap);
      var p := WindowCovers(i, s.readIndex, cap);
      assert CellOk(cap, s, p);
    }
  }
}
