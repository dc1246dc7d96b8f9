/**
 The claim/publish/release protocol of `mpsc_ring_queue` as a step system: any number of producers,
 one consumer, and one step per atomic access or element operation.  Steps interleave freely.

 `log`, `exits` and `fault` are history: no step decides anything by reading them.
 */
module MpscModel {
  import opened Wrappers
  import opened Slots

  const WORD: int := 0x1_0000_0000_0000_0000
  const HALF_WORD: int := 0x8000_0000_0000_0000

  /** `Exact` counters are unbounded; `Machine` counters are 64-bit `size_t` with `ptrdiff_t` differences. */
  datatype Arithmetic = Exact | Machine
  {
    function Add(x: nat, k: nat): nat {
      match this
      case Exact => x + k
      case Machine => (x + k) % WORD
    }

    /** `static_cast<std::ptrdiff_t>` */
    function Signed(x: nat): int {
      match this
      case Exact => x
      case Machine => if x % WORD < HALF_WORD then x % WORD else x % WORD - WORD
    }

    function Diff(x: nat, y: nat): int {
      Signed(x) - Signed(y)
    }

    /** The difference fits its type; otherwise the subtraction overflows, which has no defined result. */
    predicate InRange(x: nat, y: nat) {
      Machine? ==> -HALF_WORD <= Diff(x, y) < HALF_WORD
    }
  }

  datatype Stage = Claimed | Built | Published

  /** One successful claim, in compare-exchange order. */
  datatype Entry<T> = Entry(value: T, owner: nat, stage: Stage)

  /** What one `try_emplace` call has been through since its first load of `write_index_`. */
  datatype Call = Call(start: nat, retries: nat, spurious: nat)

  datatype Answer = Nothing | Accepted(position: nat) | Refused | Full(answer: bool)

  datatype Producer<T> =
    | Idle(last: Answer)
    | LoadIndex(value: T)
    | LoadSequence(value: T, write: nat, call: Call)
    | CompareExchange(value: T, write: nat, call: Call)
    | Reload(value: T, write: nat, call: Call)
    | Construct(value: T, write: nat)
    | Publish(write: nat)
    | FullLoadIndex
    | FullLoadSequence(write: nat)

  /** Where the consumer is in `try_pop`, or in `clear`, which destroys without moving out and goes on to the next cell. */
  datatype Consumer =
    | Resting
    | LoadCell(read: nat, clearing: bool)
    | Move(read: nat)
    | Destroy(read: nat, clearing: bool)
    | StoreIndex(read: nat, clearing: bool)
    | Release(read: nat, clearing: bool)

  datatype State<T> = State(
    readIndex: nat,
    writeIndex: nat,
    sequence: seq<nat>,
    storage: seq<Slot<T>>,
    producers: seq<Producer<T>>,
    consumer: Consumer,
    log: seq<Entry<T>>,
    exits: seq<Exit<T>>,
    fault: bool)

  datatype Action<T> =
    | StartEmplace(thread: nat, value: T)
    | StartFull(thread: nat)
    | Advance(thread: nat)
    | SpuriousFailure(thread: nat)
    | StartPop
    | StartClear
    | AdvanceConsumer

  function Init<T>(cap: nat, threads: nat): State<T> {
    State(0, 0, seq(cap, i => i), seq(cap, _ => Empty), seq(threads, _ => Idle(Nothing)), Resting, [], [], false)
  }

  predicate Shape<T>(cap: nat, s: State<T>) {
    0 < cap && |s.sequence| == cap && |s.storage| == cap
  }

  function Put<T>(s: State<T>, t: nat, p: Producer<T>): State<T>
    requires t < |s.producers|
  {
    s.(producers := s.producers[t := p])
  }

  function Mark<T>(log: seq<Entry<T>>, position: nat, stage: Stage): seq<Entry<T>> {
    if position < |log| then log[position := log[position].(stage := stage)] else log
  }

  function Retry(call: Call): Call {
    call.(retries := call.retries + 1)
  }

  /**
   The next atomic access of producer `t`, chosen by where it is in `try_emplace` or `full`; `None` also
   where its subtraction overflows.
   */
  function ProducerStep<T>(ar: Arithmetic, cap: nat, s: State<T>, t: nat): Option<State<T>>
    requires Shape(cap, s) && t < |s.producers|
  {
    match s.producers[t]
    case Idle(_) => None
    case LoadIndex(v) =>
      Some(Put(s, t, LoadSequence(v, s.writeIndex, Call(s.writeIndex, 0, 0))))
    case LoadSequence(v, w, c) =>
      var diff := ar.Diff(s.sequence[w % cap], w);
      if !ar.InRange(s.sequence[w % cap], w) then None
      else Some(Put(s, t, if diff == 0 then CompareExchange(v, w, c)
                          else if diff < 0 then Idle(Refused)
                          else Reload(v, w, c)))
    case CompareExchange(v, w, c) =>
      if s.writeIndex == w then
        Some(Put(s, t, Construct(v, w)).(writeIndex := ar.Add(w, 1), log := s.log + [Entry(v, t, Claimed)]))
      else
        Some(Put(s, t, LoadSequence(v, s.writeIndex, Retry(c))))
    case Reload(v, w, c) =>
      Some(Put(s, t, LoadSequence(v, s.writeIndex, Retry(c))))
    case Construct(v, w) =>
      Some(Put(s, t, Publish(w)).(
           storage := s.storage[w % cap := Constructed(v)],
           log := Mark(s.log, w, Built),
           fault := s.fault || !s.storage[w % cap].Empty?))
    case Publish(w) =>
      Some(Put(s, t, Idle(Accepted(w))).(
           sequence := s.sequence[w % cap := ar.Add(w, 1)],
           log := Mark(s.log, w, Published)))
    case FullLoadIndex =>
      Some(Put(s, t, FullLoadSequence(s.writeIndex)))
    case FullLoadSequence(w) =>
      if !ar.InRange(s.sequence[w % cap], w) then None
      else Some(Put(s, t, Idle(Full(ar.Diff(s.sequence[w % cap], w) < 0))))
  }

  /** `compare_exchange_weak` may fail although `write_index_` equals the expected value. */
  function SpuriousStep<T>(s: State<T>, t: nat): Option<State<T>>
    requires t < |s.producers|
  {
    match s.producers[t]
    case CompareExchange(v, w, c) =>
      if s.writeIndex == w then
        Some(Put(s, t, LoadSequence(v, w, Retry(c).(spurious := c.spurious + 1))))
      else None
    case _ => None
  }

  function ConsumerStep<T>(ar: Arithmetic, cap: nat, s: State<T>): Option<State<T>>
    requires Shape(cap, s)
  {
    match s.consumer
    case Resting => None
    case LoadCell(r, clearing) =>
      if !ar.InRange(s.sequence[r % cap], ar.Add(r, 1)) then None
      else if ar.Diff(s.sequence[r % cap], ar.Add(r, 1)) != 0 then Some(s.(consumer := Resting))
      else Some(s.(consumer := if clearing then Destroy(r, true) else Move(r)))
    case Move(r) =>
      var slot := s.storage[r % cap];
      if slot.Constructed? then
        Some(s.(consumer := Destroy(r, false), storage := s.storage[r % cap := MovedFrom],
                exits := s.exits + [Exit(slot.value, true)]))
      else Some(s.(consumer := Destroy(r, false), fault := true))
    case Destroy(r, clearing) =>
      var slot := s.storage[r % cap];
      Some(s.(consumer := StoreIndex(r, clearing), storage := s.storage[r % cap := Empty],
              exits := if clearing && slot.Constructed? then s.exits + [Exit(slot.value, false)] else s.exits,
              fault := s.fault || slot.Empty? || (clearing && !slot.Constructed?)))
    case StoreIndex(r, clearing) =>
      Some(s.(consumer := Release(r, clearing), readIndex := ar.Add(r, 1)))
    case Release(r, clearing) =>
      Some(s.(consumer := if clearing then LoadCell(ar.Add(r, 1), true) else Resting,
              sequence := s.sequence[r % cap := ar.Add(r, cap)]))
  }

  /** One step of the whole system, or `None` when the action is not enabled. */
  function Step<T>(ar: Arithmetic, cap: nat, s: State<T>, a: Action<T>): (r: Option<State<T>>)
    requires Shape(cap, s)
    ensures r.Some? ==> Shape(cap, r.value) && |r.value.producers| == |s.producers|
  {
    match a
    case StartEmplace(t, v) =>
      if t < |s.producers| && s.producers[t].Idle? then Some(Put(s, t, LoadIndex(v))) else None
    case StartFull(t) =>
      if t < |s.producers| && s.producers[t].Idle? then Some(Put(s, t, FullLoadIndex)) else None
    case Advance(t) =>
      if t < |s.producers| then ProducerStep(ar, cap, s, t) else None
    case SpuriousFailure(t) =>
      if t < |s.producers| then SpuriousStep(s, t) else None
    case StartPop =>
      if s.consumer.Resting? then Some(s.(consumer := LoadCell(s.readIndex, false))) else None
    case StartClear =>
      if s.consumer.Resting? then Some(s.(consumer := LoadCell(s.readIndex, true))) else None
    case AdvanceConsumer =>
      ConsumerStep(ar, cap, s)
  }

  /** A run: the actions taken one after another, `None` if one of them was not enabled. */
  function Run<T>(ar: Arithmetic, cap: nat, s: State<T>, actions: seq<Action<T>>): (r: Option<State<T>>)
    requires Shape(cap, s)
    ensures r.Some? ==> Shape(cap, r.value) && |r.value.producers| == |s.producers|
    decreases |actions|
  {
    if actions == [] then Some(s)
    else
      match Step(ar, cap, s, actions[0])
      case None => None
      case Some(next) => Run(ar, cap, next, actions[1..])
  }

  /** Who takes an action: a producer, or `None` for the consumer. */
  function Actor<T>(a: Action<T>): Option<nat> {
    match a
    case StartEmplace(t, _) => Some(t)
    case StartFull(t) => Some(t)
    case Advance(t) => Some(t)
    case SpuriousFailure(t) => Some(t)
    case StartPop => None
    case StartClear => None
    case AdvanceConsumer => None
  }

  /** Positions the consumer has handed back to the producers. */
  function Released<T>(s: State<T>): nat {
    if s.consumer.Release? then s.consumer.read else s.readIndex
  }

  /** Positions the consumer has seen published: the ones below the cell it is working on, and that cell. */
  function Frontier<T>(s: State<T>): nat {
    match s.consumer
    case Resting => s.readIndex
    case LoadCell(_, _) => s.readIndex
    case Move(r) => r + 1
    case Destroy(r, _) => r + 1
    case StoreIndex(r, _) => r + 1
    case Release(_, _) => s.readIndex
  }

  /** How many values have left the queue. */
  function Consumed<T>(s: State<T>): nat {
    s.readIndex + if s.consumer == Destroy(s.readIndex, false) || s.consumer.StoreIndex? then 1 else 0
  }

  lemma {:induction false} RunAppend<T>(ar: Arithmetic, cap: nat, s: State<T>, front: seq<Action<T>>, back: seq<Action<T>>)
    requires Shape(cap, s)
    ensures Run(ar, cap, s, front + back) ==
            match Run(ar, cap, s, front) case None => None case Some(m) => Run(ar, cap, m, back)
    decreases |front|
  {
    if front == [] {
      assert front + back == back;
    } else {
      assert (front + back)[1..] == front[1..] + back;
      match Step(ar, cap, s, front[0])
      case None =>
      case Some(next) => RunAppend(ar, cap, next, front[1..], back);
    }
  }
}
