/** What both blocking queues promise: a FIFO with an optional capacity and a closed flag, used by many threads. */
module ClosableFifo {
  import opened Wrappers

  /** `Some(n)`: at most n elements.  `None`: unbounded. */
  type Capacity = Option<nat>

  predicate HasRoom(cap: Capacity, size: nat) {
    cap.Some? ==> size < cap.value
  }

  /** What one call did, as its caller observes it. */
  datatype Event<T> =
    | DidPush(value: T)
    | DidPop(value: T)
    | DidClose
    | DidThrow   // emplace threw
    | DidRefuse  // try_emplace returned false
    | DidDrain   // wait_and_pop returned false
    | DidMiss    // try_pop returned false

  datatype Did<T> = Did(thread: nat, event: Event<T>)

  datatype Fifo<T> = Fifo(items: seq<T>, closed: bool)

  /** The FIFO after an event, or `None` where the event is not allowed. */
  ghost function Apply<T>(cap: Capacity, f: Fifo<T>, e: Event<T>): Option<Fifo<T>> {
    match e
    case DidPush(v) => if !f.closed && HasRoom(cap, |f.items|) then Some(f.(items := f.items + [v])) else None
    case DidPop(v) => if f.items != [] && f.items[0] == v then Some(f.(items := f.items[1..])) else None
    case DidClose => Some(f.(closed := true))
    case DidThrow => if f.closed then Some(f) else None
    case DidRefuse => if f.closed || !HasRoom(cap, |f.items|) then Some(f) else None
    case DidDrain => if f.closed && f.items == [] then Some(f) else None
    case DidMiss => if f.items == [] then Some(f) else None
  }

  /** The FIFO after a whole history, or `None` where some event of it was not allowed. */
  ghost function Replay<T>(cap: Capacity, history: seq<Did<T>>): Option<Fifo<T>> {
    if history == [] then Some(Fifo([], false))
    else
      match Replay(cap, history[..|history| - 1])
      case None => None
      case Some(f) => Apply(cap, f, history[|history| - 1].event)
  }

  /** The values pushed, in order. */
  function Accepted<T>(history: seq<Did<T>>): seq<T> {
    if history == [] then []
    else
      var e := history[|history| - 1].event;
      Accepted(history[..|history| - 1]) + if e.DidPush? then [e.value] else []
  }

  /** The values popped, in order. */
  function Delivered<T>(history: seq<Did<T>>): seq<T> {
    if history == [] then []
    else
      var e := history[|history| - 1].event;
      Delivered(history[..|history| - 1]) + if e.DidPop? then [e.value] else []
  }

  /** One thread's part of a history. */
  function Own<T>(history: seq<Did<T>>, t: nat): seq<Event<T>> {
    if history == [] then []
    else
      var last := history[|history| - 1];
      Own(history[..|history| - 1], t) + if last.thread == t then [last.event] else []
  }

  lemma ReplayNext<T>(cap: Capacity, history: seq<Did<T>>, d: Did<T>)
    ensures Replay(cap, history + [d]) ==
            match Replay(cap, history) case None => None case Some(f) => Apply(cap, f, d.event)
  {
    assert (history + [d])[..|history|] == history;
  }

  lemma OwnNext<T>(history: seq<Did<T>>, d: Did<T>, t: nat)
    ensures Own(history + [d], t) == Own(history, t) + if d.thread == t then [d.event] else []
  {
    assert (history + [d])[..|history|] == history;
  }

  /** Within the capacity, and first in first out: what was accepted is what was delivered and then what is there. */
  lemma {:induction false} FifoConserves<T>(cap: Capacity, history: seq<Did<T>>)
    requires Replay(cap, history).Some?
    ensures var f := Replay(cap, history).value;
            && Accepted(history) == Delivered(history) + f.items
            && (cap.Some? ==> |f.items| <= cap.value)
  {
    if history != [] {
      var before, e := history[..|history| - 1], history[|history| - 1].event;
      FifoConserves(cap, before);
      var f := Replay(cap, before).value;
      if e.DidPop? {
        assert f.items == [e.value] + f.items[1..];
      }
    }
  }

  /** Nothing enters after a close, and a closed FIFO stays closed. */
  lemma {:induction false} NothingEntersAfterClose<T>(cap: Capacity, before: seq<Did<T>>, after: seq<Did<T>>)
    requires before <= after && Replay(cap, after).Some?
    requires Replay(cap, before).Some? && Replay(cap, before).value.closed
    ensures Accepted(after) == Accepted(before) && Replay(cap, after).value.closed
    decreases |after|
  {
    if |after| > |before| {
      NothingEntersAfterClose(cap, before, after[..|after| - 1]);
    } else {
      assert after == before;
    }
  }

  /** From one history to a later one, thread `t` did exactly `events`. */
  ghost predicate Adds<T>(before: seq<Did<T>>, after: seq<Did<T>>, t: nat, events: seq<Event<T>>) {
    before <= after && Own(after, t) == Own(before, t) + events
  }

  lemma AddsThen<T>(a: seq<Did<T>>, b: seq<Did<T>>, c: seq<Did<T>>, t: nat, e: seq<Event<T>>, f: seq<Event<T>>)
    requires Adds(a, b, t, e) && Adds(b, c, t, f)
    ensures Adds(a, c, t, e + f)
    ensures e == [] ==> Adds(a, c, t, f)
    ensures f == [] ==> Adds(a, c, t, e)
  {
    assert Own(a, t) + e + f == Own(a, t) + (e + f);
    assert e == [] ==> e + f == f;
    assert f == [] ==> e + f == e;
  }

  /** No event of `t`: every new entry is some other thread's. */
  lemma {:induction false} AddsNothing<T>(before: seq<Did<T>>, after: seq<Did<T>>, t: nat)
    requires before <= after
    ensures |Own(before, t)| <= |Own(after, t)|
    ensures Adds(before, after, t, []) <==> forall i | |before| <= i < |after| :: after[i].thread != t
    decreases |after|
  {
    if |after| > |before| {
      AddsNothing(before, after[..|after| - 1], t);
    } else {
      assert after == before;
    }
  }

  /** One event of `t`: exactly one new entry is its own, and that is the event. */
  lemma {:induction false} AddsOne<T>(before: seq<Did<T>>, after: seq<Did<T>>, t: nat, e: Event<T>) returns (at: nat)
    requires Adds(before, after, t, [e])
    ensures |before| <= at < |after| && after[at] == Did(t, e)
    ensures forall i | |before| <= i < |after| && i != at :: after[i].thread != t
    decreases |after|
  {
    var front, last := after[..|after| - 1], after[|after| - 1];
    assert |after| > |before| by { AddsNothing(before, after, t); }
    AddsNothing(before, front, t);
    if last.thread == t {
      at := |front|;
      assert Own(front, t) == Own(before, t) && last.event == e by {
        assert (Own(front, t) + [last.event])[..|Own(front, t)|] == Own(front, t);
      }
    } else {
      at := AddsOne(before, front, t, e);
    }
  }
}
