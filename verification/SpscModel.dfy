/**
 `spsc_ring_queue` as a step system with stale views: a load of the other side's index may return any
 value stored there between the last one this side saw and the newest one.

 `pushed`, `exits`, the store counts and `fault` are history: no step decides anything by reading them,
 except that the history says which values a stale load may return.
 */
module SpscModel {
  import opened Wrappers
  import opened Slots

  /** Index counters: unbounded, or unsigned integers modulo `modulus`. */
  datatype Counters = Unbounded | Wrapping(modulus: nat)
  {
    predicate Valid() {
      Wrapping? ==> 0 < modulus
    }

    function Norm(x: nat): nat
      requires Valid()
    {
      if Unbounded? then x else x % modulus
    }

    /** Unsigned `x - y`. */
    function Minus(x: nat, y: nat): int
      requires Valid()
    {
      if Unbounded? then x - y else (x - y) % modulus
    }
  }

  datatype Producer<T> =
    | Idle(last: Option<bool>)
    | LoadRead(value: T, write: nat)
    | Construct(value: T, write: nat)
    | StoreWrite(write: nat)

  /** Where the consumer is in `try_pop`, or in `clear`, which destroys without moving out and goes round again. */
  datatype Consumer =
    | Resting(got: Option<bool>)
    | LoadWrite(read: nat, clearing: bool)
    | Move(read: nat)
    | Destroy(read: nat, clearing: bool)
    | StoreRead(read: nat, clearing: bool)

  datatype State<T> = State(
    readIndex: nat,
    writeIndex: nat,
    storage: seq<Slot<T>>,
    producer: Producer<T>,
    consumer: Consumer,
    writeStores: nat,      // stores made to write_index_ so far; the k-th one stored Norm(k)
    readStores: nat,       // stores made to read_index_ so far
    seenReads: nat,   // newest store to read_index_ the producer has seen
    seenWrites: nat,  // newest store to write_index_ the consumer has seen
    pushed: seq<T>,
    exits: seq<Exit<T>>,
    fault: bool)

  datatype Action<T> =
    | StartPush(value: T)
    | ProducerLoad(store: nat)  // the acquire load returns the value of this store
    | ProducerStep
    | StartPop
    | StartClear
    | ConsumerLoad(store: nat)
    | ConsumerStep

  function Init<T>(cap: nat): State<T> {
    State(0, 0, seq(cap, _ => Empty), Idle(None), Resting(None), 0, 0, 0, 0, [], [], false)
  }

  predicate Shape<T>(cap: nat, s: State<T>) {
    0 < cap && |s.storage| == cap
  }

  function Step<T>(c: Counters, cap: nat, s: State<T>, a: Action<T>): (r: Option<State<T>>)
    requires c.Valid() && Shape(cap, s)
    ensures r.Some? ==> Shape(cap, r.value)
  {
    match a
    case StartPush(v) =>
      if s.producer.Idle? then Some(s.(producer := LoadRead(v, s.writeIndex))) else None
    case ProducerLoad(x) =>
      if s.producer.LoadRead? && s.seenReads <= x <= s.readStores then
        Some(s.(seenReads := x,
                producer := if c.Minus(s.producer.write, c.Norm(x)) == cap then Idle(Some(false))
                            else Construct(s.producer.value, s.producer.write)))
      else None
    case ProducerStep => ProducerAdvance(c, cap, s)
    case StartPop =>
      if s.consumer.Resting? then Some(s.(consumer := LoadWrite(s.readIndex, false))) else None
    case StartClear =>
      if s.consumer.Resting? then Some(s.(consumer := LoadWrite(s.readIndex, true))) else None
    case ConsumerLoad(x) =>
      if s.consumer.LoadWrite? && s.seenWrites <= x <= s.writeStores then
        Some(s.(seenWrites := x,
                consumer := if s.consumer.read == c.Norm(x) then Resting(Some(false))
                            else if s.consumer.clearing then Destroy(s.consumer.read, true)
                            else Move(s.consumer.read)))
      else None
    case ConsumerStep => ConsumerAdvance(c, cap, s)
  }

  function ProducerAdvance<T>(c: Counters, cap: nat, s: State<T>): (r: Option<State<T>>)
    requires c.Valid() && Shape(cap, s)
    ensures r.Some? ==> Shape(cap, r.value)
  {
    match s.producer
    case Construct(v, w) =>
      Some(s.(producer := StoreWrite(w), storage := s.storage[w % cap := Constructed(v)],
              pushed := s.pushed + [v], fault := s.fault || !s.storage[w % cap].Empty?))
    case StoreWrite(w) =>
      Some(s.(producer := Idle(Some(true)), writeIndex := c.Norm(w + 1), writeStores := s.writeStores + 1))
    case _ => None
  }

  function ConsumerAdvance<T>(c: Counters, cap: nat, s: State<T>): (r: Option<State<T>>)
    requires c.Valid() && Shape(cap, s)
    ensures r.Some? ==> Shape(cap, r.value)
  {
    match s.consumer
    case Move(r) =>
      var slot := s.storage[r % cap];
      if slot.Constructed? then
        Some(s.(consumer := Destroy(r, false), storage := s.storage[r % cap := MovedFrom],
                exits := s.exits + [Exit(slot.value, true)]))
      else Some(s.(consumer := Destroy(r, false), fault := true))
    case Destroy(r, clearing) =>
      var slot := s.storage[r % cap];
      Some(s.(consumer := StoreRead(r, clearing), storage := s.storage[r % cap := Empty],
              exits := if clearing && slot.Constructed? then s.exits + [Exit(slot.value, false)] else s.exits,
              fault := s.fault || slot.Empty? || (clearing && !slot.Constructed?)))
    case StoreRead(r, clearing) =>
      Some(s.(consumer := if clearing then LoadWrite(c.Norm(r + 1), true) else Resting(Some(true)),
              readIndex := c.Norm(r + 1), readStores := s.readStores + 1))
    case _ => None
  }

  function Run<T>(c: Counters, cap: nat, s: State<T>, actions: seq<Action<T>>): (r: Option<State<T>>)
    requires c.Valid() && Shape(cap, s)
    ensures r.Some? ==> Shape(cap, r.value)
    decreases |actions|
  {
    if actions == [] then Some(s)
    else
      match Step(c, cap, s, actions[0])
      case None => None
      case Some(next) => Run(c, cap, next, actions[1..])
  }

  lemma {:induction false} RunAppend<T>(c: Counters, cap: nat, s: State<T>, front: seq<Action<T>>, back: seq<Action<T>>)
    requires c.Valid() && Shape(cap, s)
    ensures Run(c, cap, s, front + back) ==
            match Run(c, cap, s, front) case None => None case Some(m) => Run(c, cap, m, back)
    decreases |front|
  {
    if front == [] {
      assert front + back == back;
    } else {
      assert (front + back)[1..] == front[1..] + back;
      match Step(c, cap, s, front[0])
      case None =>
      case Some(next) => RunAppend(c, cap, next, front[1..], back);
    }
  }
}
