/**
 `bounded_blocking_queue` and `blocking_queue` as one step system.  Every section under `mutex_` is one
 step, because all shared data is touched only there; notifications are steps of their own, because they
 are sent after the lock is released.  Waiting threads may wake spuriously.

 `history` is what the calls did, in order: no step decides anything by reading it.
 */
module BlockingModel {
  import opened Wrappers
  import opened ClosableFifo

  datatype Answer<T> =
    | Nothing
    | Pushed            // emplace returned, or try_emplace returned true
    | Threw             // emplace threw: the queue is closed
    | Refused           // try_emplace returned false
    | Popped(value: T)  // a pop returned true
    | Drained           // wait_and_pop returned false
    | Missed            // try_pop returned false
    | Closed            // close returned

  datatype Call<T> = Emplace(value: T) | TryEmplace(value: T) | WaitAndPop | TryPop | Close

  datatype Thread<T> =
    | Idle(last: Answer<T>)
    | Entering(call: Call<T>)      // about to take the lock
    | PutParked(value: T)          // waiting on not_full_
    | PutWoken(value: T)           // woken, about to retake the lock
    | GetParked                    // waiting on not_empty_
    | GetWoken
    | OwesNotEmpty                 // pushed, lock released, notify_one on not_empty_ still to come
    | OwesNotFull(value: T)        // popped, lock released, notify_one on not_full_ still to come
    | ClosingNotEmpty              // closed, both notify_all still to come
    | ClosingNotFull               // closed, notify_all on not_full_ still to come

  /** The unbounded queue is the one without a capacity; its pops notify nobody. */
  datatype State<T> = State(queue: seq<T>, closed: bool, threads: seq<Thread<T>>, history: seq<Did<T>>)

  datatype Action<T> =
    | Start(thread: nat, call: Call<T>)
    | Section(thread: nat)                     // one section under the mutex
    | Notify(thread: nat, target: Option<nat>) // notify_one, and whom it wakes
    | NotifyAll(thread: nat)
    | Spurious(thread: nat)

  function Init<T>(threads: nat): State<T> {
    State([], false, seq(threads, _ => Idle(Nothing)), [])
  }

  function Put<T>(s: State<T>, t: nat, p: Thread<T>): State<T>
    requires t < |s.threads|
  {
    s.(threads := s.threads[t := p])
  }

  /** Thread `t` goes to `p`, having done `e` in this section. */
  function Log<T>(s: State<T>, t: nat, p: Thread<T>, e: Event<T>): State<T>
    requires t < |s.threads|
  {
    Put(s, t, p).(history := s.history + [Did(t, e)])
  }

  function Push<T>(s: State<T>, t: nat, v: T): State<T>
    requires t < |s.threads|
  {
    Log(s, t, OwesNotEmpty, DidPush(v)).(queue := s.queue + [v])
  }

  function Take<T>(cap: Capacity, s: State<T>, t: nat): State<T>
    requires t < |s.threads| && s.queue != []
  {
    var v := s.queue[0];
    Log(s, t, if cap.Some? then OwesNotFull(v) else Idle(Popped(v)), DidPop(v)).(queue := s.queue[1..])
  }

  /** The wait loop of `emplace` followed by its push: park, throw or push. */
  function PutSection<T>(cap: Capacity, s: State<T>, t: nat, v: T): State<T>
    requires t < |s.threads|
  {
    if !(s.closed || HasRoom(cap, |s.queue|)) then Put(s, t, PutParked(v))
    else if s.closed then Log(s, t, Idle(Threw), DidThrow)
    else Push(s, t, v)
  }

  /** The wait loop of `wait_and_pop` followed by its pop: park, report the end or pop. */
  function GetSection<T>(cap: Capacity, s: State<T>, t: nat): State<T>
    requires t < |s.threads|
  {
    if !(s.closed || s.queue != []) then Put(s, t, GetParked)
    else if s.queue == [] then Log(s, t, Idle(Drained), DidDrain)
    else Take(cap, s, t)
  }

  function SectionStep<T>(cap: Capacity, s: State<T>, t: nat): Option<State<T>>
    requires t < |s.threads|
  {
    match s.threads[t]
    case Entering(Emplace(v)) => Some(PutSection(cap, s, t, v))
    case PutWoken(v) => Some(PutSection(cap, s, t, v))
    case Entering(TryEmplace(v)) =>
      Some(if s.closed || !HasRoom(cap, |s.queue|) then Log(s, t, Idle(Refused), DidRefuse) else Push(s, t, v))
    case Entering(WaitAndPop) => Some(GetSection(cap, s, t))
    case GetWoken => Some(GetSection(cap, s, t))
    case Entering(TryPop) => Some(if s.queue == [] then Log(s, t, Idle(Missed), DidMiss) else Take(cap, s, t))
    case Entering(Close) => Some(Log(s, t, ClosingNotEmpty, DidClose).(closed := true))
    case _ => None
  }

  /** What waking does to a thread parked on one of the two condition variables. */
  function Wake<T>(p: Thread<T>): Thread<T> {
    match p
    case PutParked(v) => PutWoken(v)
    case GetParked => GetWoken
    case _ => p
  }

  function WakeGetters<T>(threads: seq<Thread<T>>): seq<Thread<T>> {
    seq(|threads|, i requires 0 <= i < |threads| => if threads[i].GetParked? then Wake(threads[i]) else threads[i])
  }

  function WakePutters<T>(threads: seq<Thread<T>>): seq<Thread<T>> {
    seq(|threads|, i requires 0 <= i < |threads| => if threads[i].PutParked? then Wake(threads[i]) else threads[i])
  }

  /** `notify_one` wakes some thread parked there, and nobody only when nobody is. */
  function NotifyStep<T>(s: State<T>, t: nat, target: Option<nat>): Option<State<T>>
    requires t < |s.threads|
  {
    match s.threads[t]
    case OwesNotEmpty =>
      if target.Some? && target.value < |s.threads| && s.threads[target.value].GetParked? then
        Some(Put(Put(s, target.value, GetWoken), t, Idle(Pushed)))
      else if target.None? && forall u | 0 <= u < |s.threads| :: !s.threads[u].GetParked? then
        Some(Put(s, t, Idle(Pushed)))
      else None
    case OwesNotFull(v) =>
      if target.Some? && target.value < |s.threads| && s.threads[target.value].PutParked? then
        Some(Put(Put(s, target.value, Wake(s.threads[target.value])), t, Idle(Popped(v))))
      else if target.None? && forall u | 0 <= u < |s.threads| :: !s.threads[u].PutParked? then
        Some(Put(s, t, Idle(Popped(v))))
      else None
    case _ => None
  }

  function NotifyAllStep<T>(cap: Capacity, s: State<T>, t: nat): Option<State<T>>
    requires t < |s.threads|
  {
    match s.threads[t]
    case ClosingNotEmpty =>
      Some(s.(threads := WakeGetters(s.threads)[t := if cap.Some? then ClosingNotFull else Idle(Closed)]))
    case ClosingNotFull =>
      Some(s.(threads := WakePutters(s.threads)[t := Idle(Closed)]))
    case _ => None
  }

  function Step<T>(cap: Capacity, s: State<T>, a: Action<T>): (r: Option<State<T>>)
    ensures r.Some? ==> |r.value.threads| == |s.threads|
  {
    if a.thread >= |s.threads| then None
    else
      match a
      case Start(t, call) =>
        if s.threads[t].Idle? && (call.TryEmplace? ==> cap.Some?) then Some(Put(s, t, Entering(call))) else None
      case Section(t) => SectionStep(cap, s, t)
      case Notify(t, target) => NotifyStep(s, t, target)
      case NotifyAll(t) => NotifyAllStep(cap, s, t)
      case Spurious(t) =>
        if s.threads[t].PutParked? || s.threads[t].GetParked? then Some(Put(s, t, Wake(s.threads[t]))) else None
  }

  function Run<T>(cap: Capacity, s: State<T>, actions: seq<Action<T>>): (r: Option<State<T>>)
    ensures r.Some? ==> |r.value.threads| == |s.threads|
    decreases |actions|
  {
    if actions == [] then Some(s)
    else
      match Step(cap, s, actions[0])
      case None => None
      case Some(next) => Run(cap, next, actions[1..])
  }
}
