/**
 `spsc_ring_queue` itself: the calls as the source writes them, with the other side free to run between
 any two atomic accesses and every load of its index possibly stale.
 */
module SpscQueue {
  import opened Wrappers
  import opened Slots
  import opened RingArithmetic
  import opened SpscModel
  import opened SpscTheorems

  datatype Side = ProducerSide | ConsumerSide

  function SideOf<T>(a: Action<T>): Side {
    if a.StartPush? || a.ProducerLoad? || a.ProducerStep? then ProducerSide else ConsumerSide
  }

  ghost predicate OthersOnly<T>(me: Side, actions: seq<Action<T>>) {
    forall i | 0 <= i < |actions| :: SideOf(actions[i]) != me
  }

  /** What one side may rely on while the other runs. */
  ghost predicate Rely<T>(s: State<T>, s': State<T>, me: Side) {
    match me
    case ProducerSide =>
      && s'.producer == s.producer && s'.writeIndex == s.writeIndex && s'.writeStores == s.writeStores
      && s'.pushed == s.pushed && s'.seenReads == s.seenReads && s.readStores <= s'.readStores
    case ConsumerSide =>
      && s'.consumer == s.consumer && s'.readIndex == s.readIndex && s'.readStores == s.readStores
      && s'.exits == s.exits && s'.seenWrites == s.seenWrites && s.writeStores <= s'.writeStores
      && s.pushed <= s'.pushed
  }

  lemma {:induction false} RunRely<T>(cap: nat, s: State<T>, others: seq<Action<T>>, me: Side)
    requires Shape(cap, s) && Run(Unbounded, cap, s, others).Some? && OthersOnly(me, others)
    ensures Rely(s, Run(Unbounded, cap, s, others).value, me)
    decreases |others|
  {
    if others != [] {
      var next := Step(Unbounded, cap, s, others[0]).value;
      assert Rely(s, next, me);
      RunRely(cap, next, others[1..], me);
    }
  }

  /** The abstract queue: pushed values that have not left. */
  function Queue<T>(s: State<T>): seq<T> {
    if |s.exits| <= |s.pushed| then s.pushed[|s.exits|..] else []
  }

  predicate Quiescent<T>(s: State<T>) {
    s.producer.Idle? && s.consumer.Resting?
  }

  /** With both sides at rest the ring holds exactly the abstract queue and nothing else. */
  lemma QuiescentQueueIsStored<T>(cap: nat, s: State<T>)
    requires Inv(cap, s) && Quiescent(s)
    ensures |Queue(s)| == s.writeIndex - s.readIndex <= cap
    ensures forall p: nat | s.readIndex <= p < s.writeIndex :: s.storage[p % cap] == Constructed(Queue(s)[p - s.readIndex])
    ensures Queue(s) == [] ==> forall i | 0 <= i < cap :: s.storage[i] == Empty
  {
    forall p: nat | s.readIndex <= p < s.writeIndex
      ensures s.storage[p % cap] == Constructed(Queue(s)[p - s.readIndex])
    {
      assert SlotOk(cap, s, p);
    }
    forall i | 0 <= i < cap && Queue(s) == [] ensures s.storage[i] == Empty {
      Residue(i, 0, i, cap);
      var p := WindowCovers(i, s.readIndex, cap);
      assert SlotOk(cap, s, p);
    }
  }

  class SpscRingQueue<T> {
    const capacity: nat
    const storage: array<Slot<T>>
    var readIndex: nat
    var writeIndex: nat

    // The protocol state of both sides, and the run that led to it.
    ghost const alone: bool  // one thread uses both sides
    ghost var model: State<T>
    ghost var trace: seq<Action<T>>

    ghost predicate Valid()
      reads this, storage
    {
      && 0 < capacity && storage.Length == capacity
      && model.readIndex == readIndex && model.writeIndex == writeIndex && model.storage == storage[..]
      && Inv(capacity, model)
      && Run(Unbounded, capacity, Init<T>(capacity), trace) == Some(model)
    }

    constructor (capacity: nat, ghost alone: bool)
      requires 0 < capacity
      ensures Valid() && this.capacity == capacity && this.alone == alone
      ensures trace == [] && model == Init(capacity) && fresh(storage)
    {
      this.capacity := capacity;
      this.alone := alone;
      storage := new Slot<T>[capacity](_ => Empty);
      readIndex, writeIndex := 0, 0;
      model, trace := Init(capacity), [];
      new;
      assert storage[..] == seq(capacity, _ => Empty);
      InitInv<T>(capacity);
    }

    ghost method Take(a: Action<T>)
      requires Inv(capacity, model) && Run(Unbounded, capacity, Init<T>(capacity), trace) == Some(model)
      requires Step(Unbounded, capacity, model, a).Some?
      modifies this`model, this`trace
      ensures Step(Unbounded, capacity, old(model), a) == Some(model) && trace == old(trace) + [a]
      ensures Inv(capacity, model) && Run(Unbounded, capacity, Init<T>(capacity), trace) == Some(model)
    {
      RunAppend(Unbounded, capacity, Init<T>(capacity), trace, [a]);
      assert [a][1..] == [];
      StepInv(capacity, model, a);
      model := Step(Unbounded, capacity, model, a).value;
      trace := trace + [a];
    }

    /** The scheduling point between two accesses: the other side took some steps, its contract says no more. */
    method Interfere(me: Side)
      requires Valid()
      modifies this, storage
      ensures Valid() && Rely(old(model), model, me)
      ensures old(trace) <= trace && OthersOnly(me, trace[|old(trace)|..])
      ensures alone ==> model == old(model)
    {
      RunRely(capacity, model, [], me);
    }

    /** Any store between the last one seen and the newest; one thread always sees its own newest store. */
    method LoadStale(ghost seen: nat, newest: nat) returns (store: nat)
      requires seen <= newest
      ensures seen <= store <= newest && (alone ==> store == newest)
    {
      store := newest;
    }

    /** The load of the read index and the test for full. */
    method Admit(value: T) returns (ok: bool, write: nat)
      requires Valid() && model.producer.Idle?
      modifies this, storage
      ensures Valid() && model.pushed == old(model.pushed) && write == old(writeIndex) == writeIndex
      ensures model.producer == if ok then Construct(value, write) else Idle(Some(false))
      ensures !ok ==> writeIndex - model.seenReads == capacity
      ensures alone ==> model.consumer == old(model.consumer) && model.exits == old(model.exits)
      ensures alone ==> ok == (writeIndex - readIndex < capacity) && readIndex == old(readIndex)
    {
      Take(StartPush(value));
      write := writeIndex;
      Interfere(ProducerSide);
      var read := LoadStale(model.seenReads, readIndex);
      FullTestCatchesFull(capacity, model, read);
      Take(ProducerLoad(read));
      ok := write - read != capacity;
    }

    /** The construction in the slot of `write`. */
    method ConstructStep(value: T, write: nat)
      requires Valid() && model.producer == Construct(value, write)
      modifies this`model, this`trace, storage
      ensures Valid() && model.producer == StoreWrite(write) && model.pushed == old(model.pushed) + [value]
      ensures model.consumer == old(model.consumer) && model.exits == old(model.exits)
      ensures model.seenReads == old(model.seenReads)
    {
      assert SlotOk(capacity, model, write);
      storage[write % capacity] := Constructed(value);
      Take(ProducerStep);
    }

    /** The release store of the write index. */
    method StoreWriteIndex(write: nat)
      requires Valid() && model.producer == StoreWrite(write)
      modifies this`writeIndex, this`model, this`trace
      ensures Valid() && model.producer == Idle(Some(true)) && model.pushed == old(model.pushed)
      ensures old(writeIndex) == write && writeIndex == write + 1
      ensures model.consumer == old(model.consumer) && model.exits == old(model.exits)
    {
      writeIndex := write + 1;
      Take(ProducerStep);
    }

    /** `try_emplace`: appends the value, or refuses because the ring looked full to the producer. */
    method TryEmplace(value: T) returns (ok: bool)
      requires Valid() && model.producer.Idle?
      modifies this, storage
      ensures Valid() && model.producer == Idle(Some(ok))
      ensures model.pushed == if ok then old(model.pushed) + [value] else old(model.pushed)
      ensures writeIndex == if ok then old(writeIndex) + 1 else old(writeIndex)
      ensures !ok ==> writeIndex - model.seenReads == capacity
      ensures alone ==> model.consumer == old(model.consumer) && model.exits == old(model.exits)
      ensures alone ==> ok == (old(writeIndex) - old(readIndex) < capacity)
    {
      var write;
      ok, write := Admit(value);
      if ok {
        Interfere(ProducerSide);
        ConstructStep(value, write);
        Interfere(ProducerSide);
        StoreWriteIndex(write);
      }
    }

    /** The load of the write index and the test for empty, by `try_pop` or by one turn of `clear`. */
    method Approach(read: nat, ghost clearing: bool) returns (ready: bool)
      requires Valid() && model.consumer == LoadWrite(read, clearing)
      modifies this, storage
      ensures Valid() && readIndex == read == old(readIndex) && model.exits == old(model.exits)
      ensures old(model.pushed) <= model.pushed
      ensures model.consumer == if !ready then Resting(Some(false))
                                else if clearing then Destroy(read, true) else Move(read)
      ensures ready ==> read < |model.pushed| && model.storage[read % capacity] == Constructed(model.pushed[read])
      ensures !ready ==> model.seenWrites == read
      ensures alone ==> model.producer == old(model.producer) && model.pushed == old(model.pushed)
      ensures alone ==> writeIndex == old(writeIndex) && ready == (read != writeIndex)
    {
      Interfere(ConsumerSide);
      var write := LoadStale(model.seenWrites, writeIndex);
      EmptyTestIsSafe(capacity, model, write);
      Take(ConsumerLoad(write));
      ready := read != write;
    }

    /** The move out of the head slot. */
    method MoveOut(read: nat) returns (value: T)
      requires Valid() && model.consumer == Move(read)
      modifies this`model, this`trace, storage
      ensures Valid() && model.consumer == Destroy(read, false) && read < |model.pushed| && value == model.pushed[read]
      ensures model.exits == old(model.exits) + [Exit(value, true)]
      ensures model.pushed == old(model.pushed) && model.producer == old(model.producer)
    {
      assert SlotOk(capacity, model, read);
      value := storage[read % capacity].value;
      storage[read % capacity] := MovedFrom;
      Take(ConsumerStep);
    }

    /** `destroy_at` on the head slot. */
    method DestroyStep(read: nat, ghost clearing: bool)
      requires Valid() && model.consumer == Destroy(read, clearing)
      modifies this`model, this`trace, storage
      ensures Valid() && model.consumer == StoreRead(read, clearing) && read < |model.pushed|
      ensures model.exits == old(model.exits) + if clearing then [Exit(model.pushed[read], false)] else []
      ensures model.producer == old(model.producer) && model.pushed == old(model.pushed)
    {
      assert SlotOk(capacity, model, read);
      storage[read % capacity] := Empty;
      Take(ConsumerStep);
    }

    /** The release store of the read index. */
    method StoreReadIndex(read: nat, ghost clearing: bool)
      requires Valid() && model.consumer == StoreRead(read, clearing)
      modifies this`readIndex, this`model, this`trace
      ensures Valid() && readIndex == read + 1 && model.exits == old(model.exits)
      ensures model.consumer == if clearing then LoadWrite(read + 1, true) else Resting(Some(true))
      ensures model.producer == old(model.producer) && model.pushed == old(model.pushed)
    {
      readIndex := read + 1;
      Take(ConsumerStep);
    }

    /** `destroy_at` and the release store of the read index. */
    method Retire(read: nat, ghost clearing: bool)
      requires Valid() && model.consumer == Destroy(read, clearing)
      modifies this, storage
      ensures Valid() && readIndex == read + 1 && old(model.pushed) <= model.pushed && read < |model.pushed|
      ensures model.consumer == if clearing then LoadWrite(read + 1, true) else Resting(Some(true))
      ensures model.exits == old(model.exits) + if clearing then [Exit(model.pushed[read], false)] else []
      ensures alone ==> model.producer == old(model.producer) && model.pushed == old(model.pushed) && writeIndex == old(writeIndex)
    {
      Interfere(ConsumerSide);
      DestroyStep(read, clearing);
      Interfere(ConsumerSide);
      StoreReadIndex(read, clearing);
    }

    /** `try_pop` up to its test for empty. */
    method BeginPop() returns (read: nat, ready: bool)
      requires Valid() && model.consumer.Resting?
      modifies this, storage
      ensures Valid() && read == readIndex == old(readIndex)
      ensures model.exits == old(model.exits) && old(model.pushed) <= model.pushed
      ensures model.consumer == if ready then Move(read) else Resting(Some(false))
      ensures !ready ==> model.seenWrites == read
      ensures alone ==> model.producer == old(model.producer) && model.pushed == old(model.pushed)
      ensures alone ==> writeIndex == old(writeIndex) && ready == (read != writeIndex)
    {
      Take(StartPop);
      read := readIndex;
      ready := Approach(read, false);
    }

    /** `try_pop`: hands over the oldest element, or finds none in its view. */
    method TryPop() returns (result: Option<T>)
      requires Valid() && model.consumer.Resting?
      modifies this, storage
      ensures Valid() && model.consumer.Resting? && old(model.pushed) <= model.pushed
      ensures result.Some? ==>
                && readIndex == old(readIndex) + 1 && old(readIndex) < |model.pushed|
                && result.value == model.pushed[old(readIndex)]
                && model.exits == old(model.exits) + [Exit(result.value, true)]
      ensures result.None? ==>
                readIndex == old(readIndex) == model.seenWrites && model.exits == old(model.exits)
      ensures alone ==> model.producer == old(model.producer) && model.pushed == old(model.pushed) && writeIndex == old(writeIndex)
      ensures alone ==> result.Some? == (old(readIndex) != old(writeIndex))
    {
      var read, ready := BeginPop();
      if !ready {
        return None;
      }
      Interfere(ConsumerSide);
      var value := MoveOut(read);
      Retire(read, false);
      result := Some(value);
    }

    /** `clear` up to its first load of the write index. */
    method BeginClear() returns (read: nat, ready: bool)
      requires Valid() && Quiescent(model) && alone
      modifies this, storage
      ensures Valid() && read == readIndex <= writeIndex == old(writeIndex) && ready == (read != writeIndex)
      ensures model.consumer == if ready then Destroy(read, true) else Resting(Some(false))
      ensures model.producer == old(model.producer) && model.pushed == old(model.pushed) && model.exits == old(model.exits)
    {
      Take(StartClear);
      read := readIndex;
      ready := Approach(read, true);
    }

    /** One turn of `clear`: one element, and the load of the write index again. */
    method ClearTurn(read: nat) returns (ready: bool)
      requires Valid() && alone && model.consumer == Destroy(read, true)
      modifies this, storage
      ensures Valid() && readIndex == read + 1 <= writeIndex == old(writeIndex) && ready == (read + 1 != writeIndex)
      ensures model.consumer == if ready then Destroy(read + 1, true) else Resting(Some(false))
      ensures read < |model.pushed| && model.exits == old(model.exits) + [Exit(model.pushed[read], false)]
      ensures model.producer == old(model.producer) && model.pushed == old(model.pushed)
    {
      Retire(read, true);
      ready := Approach(read + 1, true);
    }

    /**
     `clear`, which demands that neither side is active.  It destroys the remaining elements in order,
     each once, and leaves every slot empty.
     */
    method Clear()
      requires Valid() && Quiescent(model) && alone
      modifies this, storage
      ensures Valid() && Quiescent(model) && readIndex == writeIndex == old(writeIndex) && Queue(model) == []
      ensures model.pushed == old(model.pushed) && old(model.exits) <= model.exits
      ensures forall i | old(|model.exits|) <= i < |model.exits| :: !model.exits[i].popped
      ensures forall i | 0 <= i < capacity :: storage[i].Empty?
    {
      var read, ready := BeginClear();
      while ready
        invariant Valid() && readIndex == read <= writeIndex == old(writeIndex) && ready == (read != writeIndex)
        invariant model.consumer == if ready then Destroy(read, true) else Resting(Some(false))
        invariant model.producer == old(model.producer) && model.pushed == old(model.pushed)
        invariant OnlyDestroyed(old(model.exits), model.exits)
        decreases writeIndex - read
      {
        ghost var exits := model.exits;
        ready := ClearTurn(read);
        OneMoreDestroyed(old(model.exits), exits, model.pushed[read]);
        read := read + 1;
      }
      QuiescentQueueIsStored(capacity, model);
    }

    /**
     `empty()`, `full()` and `size()` by one side while the other may be active: its own index is exact and
     the other's may be stale, so the producer never sees too few elements and the consumer never too many.
     */
    method Query(me: Side) returns (empty: bool, full: bool, size: nat)
      requires Valid() && if me.ProducerSide? then model.producer.Idle? else model.consumer.Resting?
      modifies this, storage
      ensures Valid() && empty == (size == 0) && full == (size == capacity) && size <= capacity
      ensures me.ProducerSide? ==> writeIndex - readIndex <= size <= writeIndex - model.seenReads
      ensures me.ConsumerSide? ==> model.seenWrites - readIndex <= size <= writeIndex - readIndex
      ensures alone ==> model == old(model) && (Quiescent(model) ==> size == |Queue(model)|)
    {
      Interfere(me);
      var write, read := writeIndex, readIndex;
      if me.ProducerSide? {
        read := LoadStale(model.seenReads, readIndex);
      } else {
        write := LoadStale(model.seenWrites, writeIndex);
      }
      empty := read == write;
      full := write - read == capacity;
      size := write - read;
    }
  }
}
