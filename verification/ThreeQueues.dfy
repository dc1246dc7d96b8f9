/**
 Used by one thread, `ring_buffer`, `spsc_ring_queue` and `mpsc_ring_queue` answer every sequence of
 operations alike, and as a bounded sequence does.
 */
module ThreeQueues {
  import opened Wrappers
  import opened Slots
  import Ring = RingBuffer
  import Spsc = SpscQueue
  import SpscModel
  import SpscTheorems
  import Mpsc = MpscQueue
  import MpscModel
  import MpscInvariant
  import MpscTheorems

  datatype Op<T> = Push(value: T) | Pop | Clear | Query

  datatype Answer<T> =
    | Pushed(ok: bool)
    | Popped(result: Option<T>)
    | Cleared
    | State(empty: bool, full: bool, size: nat)

  /** A bounded FIFO sequence: the contents after an operation. */
  function Next<T>(cap: nat, items: seq<T>, op: Op<T>): seq<T> {
    match op
    case Push(v) => if |items| < cap then items + [v] else items
    case Pop => if items == [] then [] else items[1..]
    case Clear => []
    case Query => items
  }

  /** What a bounded FIFO sequence answers. */
  function Reply<T>(cap: nat, items: seq<T>, op: Op<T>): Answer<T> {
    match op
    case Push(_) => Pushed(|items| < cap)
    case Pop => Popped(if |items| == 0 then None else Some(items[0]))
    case Clear => Cleared
    case Query => State(|items| == 0, |items| == cap, |items|)
  }

  function Final<T>(cap: nat, items: seq<T>, ops: seq<Op<T>>): seq<T>
    decreases |ops|
  {
    if ops == [] then items else Final(cap, Next(cap, items, ops[0]), ops[1..])
  }

  function Replies<T>(cap: nat, items: seq<T>, ops: seq<Op<T>>): seq<Answer<T>>
    decreases |ops|
  {
    if ops == [] then [] else [Reply(cap, items, ops[0])] + Replies(cap, Next(cap, items, ops[0]), ops[1..])
  }

  /** The value an operation puts in, if any. */
  function AcceptedBy<T>(cap: nat, items: seq<T>, op: Op<T>): seq<T> {
    if op.Push? && |items| < cap then [op.value] else []
  }

  /** The values an operation takes out, in order. */
  function DepartedBy<T>(items: seq<T>, op: Op<T>): seq<T> {
    match op
    case Pop => if items == [] then [] else [items[0]]
    case Clear => items
    case _ => []
  }

  function Accepted<T>(cap: nat, items: seq<T>, ops: seq<Op<T>>): seq<T>
    decreases |ops|
  {
    if ops == [] then []
    else AcceptedBy(cap, items, ops[0]) + Accepted(cap, Next(cap, items, ops[0]), ops[1..])
  }

  function Departed<T>(cap: nat, items: seq<T>, ops: seq<Op<T>>): seq<T>
    decreases |ops|
  {
    if ops == [] then []
    else DepartedBy(items, ops[0]) + Departed(cap, Next(cap, items, ops[0]), ops[1..])
  }

  lemma OpConserves<T>(cap: nat, items: seq<T>, op: Op<T>)
    ensures items + AcceptedBy(cap, items, op) == DepartedBy(items, op) + Next(cap, items, op)
  {
  }

  lemma Rejoin<T>(items: seq<T>, a1: seq<T>, a: seq<T>, d1: seq<T>, next: seq<T>, d: seq<T>, f: seq<T>)
    requires items + a1 == d1 + next && next + a == d + f
    ensures items + (a1 + a) == (d1 + d) + f
  {
    assert items + (a1 + a) == (items + a1) + a;
    assert (d1 + next) + a == d1 + (next + a);
    assert d1 + (d + f) == (d1 + d) + f;
  }

  /** The bounded sequence conserves values: what went in came out, in order, or is still there. */
  lemma {:induction false} SpecConserves<T>(cap: nat, items: seq<T>, ops: seq<Op<T>>)
    requires |items| <= cap
    ensures |Final(cap, items, ops)| <= cap
    ensures items + Accepted(cap, items, ops) == Departed(cap, items, ops) + Final(cap, items, ops)
    decreases |ops|
  {
    if ops != [] {
      var next := Next(cap, items, ops[0]);
      var a1, d1 := AcceptedBy(cap, items, ops[0]), DepartedBy(items, ops[0]);
      var a, d, f := Accepted(cap, next, ops[1..]), Departed(cap, next, ops[1..]), Final(cap, next, ops[1..]);
      OpConserves(cap, items, ops[0]);
      SpecConserves(cap, next, ops[1..]);
      Rejoin(items, a1, a, d1, next, d, f);
    }
  }

  lemma {:induction false} RepliesExtend<T>(cap: nat, items: seq<T>, ops: seq<Op<T>>, op: Op<T>)
    ensures Replies(cap, items, ops + [op]) == Replies(cap, items, ops) + [Reply(cap, Final(cap, items, ops), op)]
    ensures Final(cap, items, ops + [op]) == Next(cap, Final(cap, items, ops), op)
    decreases |ops|
  {
    if ops == [] {
      assert ops + [op] == [op] && [op][1..] == [];
    } else {
      assert (ops + [op])[1..] == ops[1..] + [op];
      RepliesExtend(cap, Next(cap, items, ops[0]), ops[1..], op);
    }
  }

  lemma RepliesNext<T>(cap: nat, ops: seq<Op<T>>, i: nat)
    requires i < |ops|
    ensures Replies(cap, [], ops[..i + 1]) == Replies(cap, [], ops[..i]) + [Reply(cap, Final(cap, [], ops[..i]), ops[i])]
    ensures Final(cap, [], ops[..i + 1]) == Next(cap, Final(cap, [], ops[..i]), ops[i])
  {
    assert ops[..i + 1] == ops[..i] + [ops[i]];
    RepliesExtend(cap, [], ops[..i], ops[i]);
  }

  /** What an answer says has gone in and come out, and how many elements there are. */
  ghost predicate Tells<T>(cap: nat, before: seq<T>, op: Op<T>, answer: Answer<T>, after: seq<T>) {
    match op
    case Push(v) =>
      && answer.Pushed?
      && (answer.ok ==> |before| < cap && after == before + [v])
      && (!answer.ok ==> |before| == cap && after == before)
    case Pop =>
      && answer.Popped?
      && (answer.result.Some? ==> before == [answer.result.value] + after)
      && (answer.result.None? ==> before == [] && after == [])
    case Clear => answer.Cleared? && after == []
    case Query =>
      && answer == State(before == [], |before| == cap, |before|) && after == before
  }

  /**
   The answers of the bounded sequence are true: at each place of each list of operations the answer tells
   exactly how the contents before became the contents after, and the contents before are what was
   accepted up to there and has not departed.
   */
  lemma RepliesTell<T>(cap: nat, ops: seq<Op<T>>, i: nat)
    requires i < |ops|
    ensures |Replies(cap, [], ops)| == |ops|
    ensures var before, after := Final(cap, [], ops[..i]), Final(cap, [], ops[..i + 1]);
            && |before| <= cap && Accepted(cap, [], ops[..i]) == Departed(cap, [], ops[..i]) + before
            && Tells(cap, before, ops[i], Replies(cap, [], ops)[i], after)
  {
    SpecConserves(cap, [], ops[..i]);
    RepliesNext(cap, ops, i);
    RepliesAt(cap, [], ops, i);
    var before := Final(cap, [], ops[..i]);
    if ops[i].Pop? && before != [] { assert before == [before[0]] + before[1..]; }
  }

  lemma {:induction false} RepliesAt<T>(cap: nat, items: seq<T>, ops: seq<Op<T>>, i: nat)
    requires i < |ops|
    ensures |Replies(cap, items, ops)| == |ops|
    ensures Replies(cap, items, ops)[i] == Reply(cap, Final(cap, items, ops[..i]), ops[i])
    decreases |ops|
  {
    if i > 0 {
      assert ops[..i][1..] == ops[1..][..i - 1];
      RepliesAt(cap, Next(cap, items, ops[0]), ops[1..], i - 1);
    } else {
      RepliesLength(cap, items, ops);
    }
  }

  lemma {:induction false} RepliesLength<T>(cap: nat, items: seq<T>, ops: seq<Op<T>>)
    ensures |Replies(cap, items, ops)| == |ops|
    decreases |ops|
  {
    if ops != [] { RepliesLength(cap, Next(cap, items, ops[0]), ops[1..]); }
  }

  // ---- One operation on each queue ----

  method RingOp<T>(q: Ring.RingBuffer<T>, op: Op<T>) returns (answer: Answer<T>)
    requires q.Valid()
    modifies q, q.buffer
    ensures q.Valid() && q.Contents() == Next(q.capacity, old(q.Contents()), op)
    ensures answer == Reply(q.capacity, old(q.Contents()), op)
    ensures q.pushed == old(q.pushed) + AcceptedBy(q.capacity, old(q.Contents()), op)
    ensures q.pushed == ExitValues(q.exits) + q.Contents()
  {
    match op {
    case Push(v) => var ok := q.EmplaceBack(v); answer := Pushed(ok);
    case Pop => var result := q.PopFront(); answer := Popped(result);
    case Clear => q.Clear(); answer := Cleared;
    case Query => var e, f, n := q.Query(); answer := State(e, f, n);
    }
    Ring.NothingIsLost(q.pushed, q.exits);
  }

  method SpscOp<T>(q: Spsc.SpscRingQueue<T>, op: Op<T>) returns (answer: Answer<T>)
    requires q.Valid() && q.alone && Spsc.Quiescent(q.model)
    modifies q, q.storage
    ensures q.Valid() && Spsc.Quiescent(q.model)
    ensures Spsc.Queue(q.model) == Next(q.capacity, old(Spsc.Queue(q.model)), op)
    ensures answer == Reply(q.capacity, old(Spsc.Queue(q.model)), op)
    ensures q.model.pushed == old(q.model.pushed) + AcceptedBy(q.capacity, old(Spsc.Queue(q.model)), op)
    ensures q.model.pushed == ExitValues(q.model.exits) + Spsc.Queue(q.model)
  {
    match op {
    case Push(v) => var ok := SpscPush(q, v); answer := Pushed(ok);
    case Pop => var result := SpscPop(q); answer := Popped(result);
    case Clear => SpscClear(q); answer := Cleared;
    case Query => answer := SpscQuery(q);
    }
    SpscAccounts(q.capacity, q.model);
  }

  /** Everything pushed has left, in order, or is still there. */
  lemma SpscAccounts<T>(cap: nat, s: SpscModel.State<T>)
    requires SpscTheorems.Inv(cap, s)
    ensures s.pushed == ExitValues(s.exits) + Spsc.Queue(s)
  {
    assert ExitValues(s.exits) == s.pushed[..|s.exits|];
  }

  lemma SpscPopsFront<T>(cap: nat, was: SpscModel.State<T>, now: SpscModel.State<T>, result: Option<T>)
    requires SpscTheorems.Inv(cap, was) && SpscTheorems.Inv(cap, now) && Spsc.Quiescent(was) && Spsc.Quiescent(now)
    requires now.pushed == was.pushed && (result.Some? <==> was.readIndex != was.writeIndex)
    requires result.Some? ==>
               && was.readIndex < |was.pushed| && result.value == was.pushed[was.readIndex]
               && now.exits == was.exits + [Exit(result.value, true)]
    requires result.None? ==> now.exits == was.exits
    ensures Spsc.Queue(now) == Next(cap, Spsc.Queue(was), Pop) && Popped(result) == Reply(cap, Spsc.Queue(was), Pop)
  {
  }

  method SpscPop<T>(q: Spsc.SpscRingQueue<T>) returns (result: Option<T>)
    requires q.Valid() && q.alone && Spsc.Quiescent(q.model)
    modifies q, q.storage
    ensures q.Valid() && Spsc.Quiescent(q.model) && q.model.pushed == old(q.model.pushed)
    ensures Spsc.Queue(q.model) == Next(q.capacity, old(Spsc.Queue(q.model)), Pop)
    ensures Popped(result) == Reply(q.capacity, old(Spsc.Queue(q.model)), Pop)
  {
    ghost var was := q.model;
    result := q.TryPop();
    SpscPopsFront(q.capacity, was, q.model, result);
  }

  method SpscPush<T>(q: Spsc.SpscRingQueue<T>, v: T) returns (ok: bool)
    requires q.Valid() && q.alone && Spsc.Quiescent(q.model)
    modifies q, q.storage
    ensures q.Valid() && Spsc.Quiescent(q.model)
    ensures Spsc.Queue(q.model) == Next(q.capacity, old(Spsc.Queue(q.model)), Push(v))
    ensures Pushed(ok) == Reply(q.capacity, old(Spsc.Queue(q.model)), Push(v))
    ensures q.model.pushed == old(q.model.pushed) + AcceptedBy(q.capacity, old(Spsc.Queue(q.model)), Push(v))
  {
    ok := q.TryEmplace(v);
  }

  method SpscQuery<T>(q: Spsc.SpscRingQueue<T>) returns (answer: Answer<T>)
    requires q.Valid() && q.alone && Spsc.Quiescent(q.model)
    modifies q, q.storage
    ensures q.Valid() && q.model == old(q.model)
    ensures answer == Reply(q.capacity, Spsc.Queue(q.model), Query)
  {
    var empty, full, size := q.Query(Spsc.ProducerSide);
    answer := State(empty, full, size);
  }

  method SpscClear<T>(q: Spsc.SpscRingQueue<T>)
    requires q.Valid() && q.alone && Spsc.Quiescent(q.model)
    modifies q, q.storage
    ensures q.Valid() && Spsc.Quiescent(q.model) && q.model.pushed == old(q.model.pushed)
    ensures Spsc.Queue(q.model) == []
  {
    q.Clear();
  }

  method MpscPush<T>(q: Mpsc.MpscRingQueue<T>, v: T, spurious: nat) returns (ok: bool)
    requires q.Valid() && q.alone && q.threads == 1 && MpscTheorems.Quiescent(q.model)
    modifies q, q.sequence, q.storage
    ensures q.Valid() && MpscTheorems.Quiescent(q.model)
    ensures MpscTheorems.Queue(q.model) == Next(q.capacity, old(MpscTheorems.Queue(q.model)), Push(v))
    ensures ok == (|old(MpscTheorems.Queue(q.model))| < q.capacity)
    ensures MpscTheorems.Values(q.model.log) == old(MpscTheorems.Values(q.model.log)) + if ok then [v] else []
  {
    ghost var was := q.model;
    var retries;
    ok, retries := q.TryEmplace(0, v, 0, spurious);
    ghost var p := if ok then q.model.producers[0].last.position else 0;
    GrowsByOne(was, q.model, 0, ok, p);
    assert MpscTheorems.Values(q.model.log) == MpscTheorems.Values(was.log) + if ok then [v] else [];
  }

  lemma MineIsAt<T>(was: MpscModel.State<T>, now: MpscModel.State<T>, me: nat, ok: bool, p: nat, i: nat)
    requires Mpsc.OnlyMine(was, now, me) && |was.log| <= i < |now.log|
    requires forall j | |was.log| <= j < |now.log| && now.log[j].owner == me :: ok && j == p
    ensures ok && i == p
  {
    assert now.log[i].owner == me;
  }

  /** A call that ran alone and logged at most its own position has logged exactly one entry, or none. */
  lemma GrowsByOne<T>(was: MpscModel.State<T>, now: MpscModel.State<T>, me: nat, ok: bool, p: nat)
    requires Mpsc.OnlyMine(was, now, me)
    requires forall j | |was.log| <= j < |now.log| && now.log[j].owner == me :: ok && j == p
    requires ok ==> |was.log| <= p < |now.log|
    ensures |now.log| == |was.log| + if ok then 1 else 0
    ensures ok ==> p == |was.log|
  {
    if |was.log| < |now.log| {
      MineIsAt(was, now, me, ok, p, |was.log|);
      MineIsAt(was, now, me, ok, p, |now.log| - 1);
    }
  }

  lemma MpscPopsFront<T>(cap: nat, was: MpscModel.State<T>, now: MpscModel.State<T>, result: Option<T>)
    requires MpscInvariant.Inv(cap, was) && MpscInvariant.Inv(cap, now) && MpscTheorems.Quiescent(was)
    requires now.consumer.Resting? && now.log == was.log && now.producers == was.producers
    requires result.Some? ==>
               && now.readIndex == was.readIndex + 1 && was.readIndex < |was.log|
               && result.value == was.log[was.readIndex].value && now.exits == was.exits + [Exit(result.value, true)]
    requires result.None? ==>
               now.readIndex == was.readIndex && now.exits == was.exits && !MpscInvariant.PublishedAt(now, now.readIndex)
    ensures MpscTheorems.Queue(now) == Next(cap, MpscTheorems.Queue(was), Pop)
    ensures Popped(result) == Reply(cap, MpscTheorems.Queue(was), Pop)
  {
    if result.None? {
      Mpsc.NothingPublishedMeansEmpty(cap, now);
    }
  }

  method MpscPop<T>(q: Mpsc.MpscRingQueue<T>) returns (result: Option<T>)
    requires q.Valid() && q.alone && MpscTheorems.Quiescent(q.model)
    modifies q, q.sequence, q.storage
    ensures q.Valid() && MpscTheorems.Quiescent(q.model) && q.model.log == old(q.model.log)
    ensures MpscTheorems.Queue(q.model) == Next(q.capacity, old(MpscTheorems.Queue(q.model)), Pop)
    ensures Popped(result) == Reply(q.capacity, old(MpscTheorems.Queue(q.model)), Pop)
  {
    ghost var was := q.model;
    result := q.TryPop();
    MpscPopsFront(q.capacity, was, q.model, result);
  }

  method MpscQuery<T>(q: Mpsc.MpscRingQueue<T>) returns (empty: bool, full: bool, size: nat)
    requires q.Valid() && q.alone && q.threads == 1 && MpscTheorems.Quiescent(q.model)
    modifies q, q.sequence, q.storage
    ensures q.Valid() && MpscTheorems.Quiescent(q.model) && q.model.log == old(q.model.log)
    ensures MpscTheorems.Queue(q.model) == old(MpscTheorems.Queue(q.model))
    ensures State(empty, full, size) == Reply(q.capacity, old(MpscTheorems.Queue(q.model)), Query)
  {
    empty := q.IsEmpty();
    assert empty == (MpscTheorems.Queue(q.model) == []) by {
      if empty {
        Mpsc.NothingPublishedMeansEmpty(q.capacity, q.model);
      }
    }
    size := q.Size();
    full := q.IsFull(0);
  }

  method MpscOp<T>(q: Mpsc.MpscRingQueue<T>, op: Op<T>, spurious: nat) returns (answer: Answer<T>)
    requires q.Valid() && q.alone && q.threads == 1 && MpscTheorems.Quiescent(q.model)
    modifies q, q.sequence, q.storage
    ensures q.Valid() && MpscTheorems.Quiescent(q.model)
    ensures MpscTheorems.Queue(q.model) == Next(q.capacity, old(MpscTheorems.Queue(q.model)), op)
    ensures answer == Reply(q.capacity, old(MpscTheorems.Queue(q.model)), op)
    ensures MpscTheorems.Values(q.model.log)
         == old(MpscTheorems.Values(q.model.log)) + AcceptedBy(q.capacity, old(MpscTheorems.Queue(q.model)), op)
    ensures MpscTheorems.Values(q.model.log) == ExitValues(q.model.exits) + MpscTheorems.Queue(q.model)
  {
    match op {
    case Push(v) => var ok := MpscPush(q, v, spurious); answer := Pushed(ok);
    case Pop => var result := MpscPop(q); answer := Popped(result);
    case Clear => q.Clear(); answer := Cleared;
    case Query => var e, f, n := MpscQuery(q); answer := State(e, f, n);
    }
    MpscTheorems.InvGivesPrefix(q.capacity, q.model);
  }

  // ---- Whole runs ----

  method RunRing<T>(cap: nat, ops: seq<Op<T>>) returns (answers: seq<Answer<T>>)
    requires 0 < cap
    ensures answers == Replies(cap, [], ops)
  {
    var q := new Ring.RingBuffer<T>(cap);
    answers := [];
    for i := 0 to |ops|
      invariant q.Valid() && q.capacity == cap && fresh(q) && fresh(q.buffer)
      invariant q.Contents() == Final(cap, [], ops[..i]) && answers == Replies(cap, [], ops[..i])
    {
      RepliesNext(cap, ops, i);
      var a := RingOp(q, ops[i]);
      answers := answers + [a];
    }
    assert ops[..|ops|] == ops;
  }

  method RunSpsc<T>(cap: nat, ops: seq<Op<T>>) returns (answers: seq<Answer<T>>)
    requires 0 < cap
    ensures answers == Replies(cap, [], ops)
  {
    var q := new Spsc.SpscRingQueue<T>(cap, true);
    answers := [];
    for i := 0 to |ops|
      invariant q.Valid() && q.alone && Spsc.Quiescent(q.model) && q.capacity == cap && fresh(q) && fresh(q.storage)
      invariant Spsc.Queue(q.model) == Final(cap, [], ops[..i]) && answers == Replies(cap, [], ops[..i])
    {
      RepliesNext(cap, ops, i);
      var a := SpscOp(q, ops[i]);
      answers := answers + [a];
    }
    assert ops[..|ops|] == ops;
  }

  method NewMpsc<T>(cap: nat) returns (q: Mpsc.MpscRingQueue<T>)
    requires 2 <= cap
    ensures fresh(q) && fresh(q.sequence) && fresh(q.storage)
    ensures q.Valid() && q.alone && q.threads == 1 && q.capacity == cap
    ensures MpscTheorems.Quiescent(q.model) && MpscTheorems.Queue(q.model) == []
  {
    q := new Mpsc.MpscRingQueue<T>(cap, 1, true);
  }

  method RunMpsc<T>(cap: nat, ops: seq<Op<T>>, spurious: nat) returns (answers: seq<Answer<T>>)
    requires 2 <= cap
    ensures answers == Replies(cap, [], ops)
  {
    var q := NewMpsc<T>(cap);
    answers := [];
    for i := 0 to |ops|
      invariant q.Valid() && q.alone && q.threads == 1 && MpscTheorems.Quiescent(q.model) && q.capacity == cap
      invariant fresh(q) && fresh(q.sequence) && fresh(q.storage)
      invariant MpscTheorems.Queue(q.model) == Final(cap, [], ops[..i]) && answers == Replies(cap, [], ops[..i])
    {
      RepliesNext(cap, ops, i);
      var a := MpscOp(q, ops[i], spurious);
      answers := answers + [a];
    }
    assert ops[..|ops|] == ops;
  }

  /** Three queues, one behaviour, whatever spurious failures the weak compare-exchange shows. */
  method RunAll<T>(cap: nat, ops: seq<Op<T>>, spurious: nat)
    returns (ring: seq<Answer<T>>, spsc: seq<Answer<T>>, mpsc: seq<Answer<T>>)
    requires 2 <= cap
    ensures ring == spsc == mpsc == Replies(cap, [], ops)
  {
    ring := RunRing(cap, ops);
    spsc := RunSpsc(cap, ops);
    mpsc := RunMpsc(cap, ops, spurious);
  }
}
