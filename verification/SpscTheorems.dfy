/** Main results about `spsc_ring_queue`: safety under stale views, and counter wraparound. */
module SpscTheorems {
  import opened Wrappers
  import opened Slots
  import opened RingArithmetic
  import opened SpscModel

  // ---- Safety with unbounded counters ----

  /** The storage state the slot of a position in `[readStores, readStores + cap)` must be in. */
  function SlotState<T>(s: State<T>, p: nat): Slot<T> {
    if p >= |s.pushed| then Empty
    else if s.consumer == Destroy(p, false) then MovedFrom
    else if s.consumer.StoreRead? && s.consumer.read == p then Empty
    else Constructed(s.pushed[p])
  }

  ghost predicate SlotOk<T>(cap: nat, s: State<T>, p: nat)
    requires Shape(cap, s)
  {
    s.storage[p % cap] == SlotState(s, p)
  }

  ghost predicate Inv<T>(cap: nat, s: State<T>) {
    && Shape(cap, s) && !s.fault
    && s.writeIndex == s.writeStores && s.readIndex == s.readStores
    && s.seenReads <= s.readStores <= s.seenWrites <= s.writeStores <= s.seenReads + cap
    && |s.pushed| == s.writeStores + (if s.producer.StoreWrite? then 1 else 0)
    && |s.exits| == s.readStores + (if s.consumer == Destroy(s.readStores, false) || s.consumer.StoreRead? then 1 else 0)
    && |s.exits| <= |s.pushed|
    && (forall i | 0 <= i < |s.exits| :: s.exits[i].value == s.pushed[i])
    && (match s.producer
        case Idle(_) => true
        case LoadRead(_, w) => w == s.writeStores
        case Construct(_, w) => w == s.writeStores < s.seenReads + cap
        case StoreWrite(w) => w == s.writeStores < s.seenReads + cap)
    && (match s.consumer
        case Resting(_) => true
        case LoadWrite(r, _) => r == s.readStores
        case c => c.read == s.readStores < s.seenWrites)
    && (forall p: nat | s.readStores <= p < s.readStores + cap :: SlotOk(cap, s, p))
  }

  lemma InitInv<T>(cap: nat)
    requires 0 < cap
    ensures Inv(cap, Init<T>(cap))
  {
    forall p: nat ensures SlotOk(cap, Init<T>(cap), p) {}
  }

  lemma SameSlots<T>(cap: nat, s: State<T>, s': State<T>)
    requires Inv(cap, s) && s'.storage == s.storage && s'.readStores == s.readStores && s'.pushed == s.pushed
    requires forall p: nat | s.readStores <= p < s.readStores + cap :: SlotState(s', p) == SlotState(s, p)
    ensures forall p: nat | s'.readStores <= p < s'.readStores + cap :: SlotOk(cap, s', p)
  {
    forall p: nat | s'.readStores <= p < s'.readStores + cap ensures SlotOk(cap, s', p) {
      assert SlotOk(cap, s, p);
    }
  }

  lemma OtherSlots<T>(cap: nat, s: State<T>, s': State<T>, q: nat)
    requires Inv(cap, s) && Shape(cap, s') && s'.readStores == s.readStores <= q < s.readStores + cap
    requires forall i | 0 <= i < cap && i != q % cap :: s'.storage[i] == s.storage[i]
    requires forall p: nat | s.readStores <= p < s.readStores + cap && p != q :: SlotState(s', p) == SlotState(s, p)
    requires SlotOk(cap, s', q)
    ensures forall p: nat | s'.readStores <= p < s'.readStores + cap :: SlotOk(cap, s', p)
  {
    forall p: nat | s'.readStores <= p < s'.readStores + cap ensures SlotOk(cap, s', p) {
      if p != q {
        DistinctCells(p, q, cap);
        assert SlotOk(cap, s, p);
      }
    }
  }

  lemma ProducerAdvanceInv<T>(cap: nat, s: State<T>)
    requires Inv(cap, s) && ProducerAdvance(Unbounded, cap, s).Some?
    ensures Inv(cap, ProducerAdvance(Unbounded, cap, s).value)
  {
    var s' := ProducerAdvance(Unbounded, cap, s).value;
    match s.producer
    case Construct(_, w) =>
      assert SlotOk(cap, s, w);
      OtherSlots(cap, s, s', w);
    case StoreWrite(_) => SameSlots(cap, s, s');
    case _ =>
  }

  lemma ConsumerAdvanceInv<T>(cap: nat, s: State<T>)
    requires Inv(cap, s) && ConsumerAdvance(Unbounded, cap, s).Some?
    ensures Inv(cap, ConsumerAdvance(Unbounded, cap, s).value)
  {
    var s' := ConsumerAdvance(Unbounded, cap, s).value;
    assert SlotOk(cap, s, s.readStores);
    if s.consumer.StoreRead? {
      NextLap(s.readStores, cap);
      forall p: nat | s.readStores + 1 <= p < s.readStores + 1 + cap ensures SlotOk(cap, s', p) {
        if p < s.readStores + cap { assert SlotOk(cap, s, p); }
      }
    } else {
      OtherSlots(cap, s, s', s.readStores);
    }
  }

  /** Every step keeps the invariant, however stale the index it loads. */
  lemma StepInv<T>(cap: nat, s: State<T>, a: Action<T>)
    requires Inv(cap, s) && Step(Unbounded, cap, s, a).Some?
    ensures Inv(cap, Step(Unbounded, cap, s, a).value)
  {
    match a
    case ProducerStep => ProducerAdvanceInv(cap, s);
    case ConsumerStep => ConsumerAdvanceInv(cap, s);
    case _ => SameSlots(cap, s, Step(Unbounded, cap, s, a).value);
  }

  lemma {:induction false} RunInv<T>(cap: nat, s: State<T>, actions: seq<Action<T>>)
    requires Inv(cap, s) && Run(Unbounded, cap, s, actions).Some?
    ensures Inv(cap, Run(Unbounded, cap, s, actions).value)
    decreases |actions|
  {
    if actions != [] {
      StepInv(cap, s, actions[0]);
      RunInv(cap, Step(Unbounded, cap, s, actions[0]).value, actions[1..]);
    }
  }

  /**
   In every run with stale loads: never more than `cap` elements, the producer's own view never exceeds
   `cap` either, no element operation meets a slot in the wrong state, and what left the queue is a prefix of the pushes.
   */
  lemma StaleViewsAreSafe<T>(cap: nat, actions: seq<Action<T>>)
    requires 0 < cap && Run(Unbounded, cap, Init<T>(cap), actions).Some?
    ensures var s := Run(Unbounded, cap, Init<T>(cap), actions).value;
            && !s.fault
            && 0 <= s.writeIndex - s.readIndex <= cap
            && 0 <= s.writeIndex - s.seenReads <= cap
            && ExitValues(s.exits) <= s.pushed && |s.pushed| <= |s.exits| + cap
  {
    InitInv<T>(cap);
    RunInv(cap, Init<T>(cap), actions);
  }

  /**
   The equality test at the producer's load: it refuses exactly when its view is full, and a ring that
   really is full is always refused, because a stale view can only look fuller.
   */
  lemma FullTestCatchesFull<T>(cap: nat, s: State<T>, store: nat)
    requires Inv(cap, s) && s.producer.LoadRead? && s.seenReads <= store <= s.readStores
    ensures var s' := Step(Unbounded, cap, s, ProducerLoad(store)).value;
            && (s'.producer == Idle(Some(false)) <==> s.writeStores - store >= cap)
            && (s.writeStores - s.readStores == cap ==> s'.producer == Idle(Some(false)))
            && (store == s.readStores && s'.producer == Idle(Some(false)) ==> s.writeStores - s.readStores == cap)
  {
  }

  /** The consumer never sees an element that is not there, and with a current view misses none. */
  lemma EmptyTestIsSafe<T>(cap: nat, s: State<T>, store: nat)
    requires Inv(cap, s) && s.consumer.LoadWrite? && s.seenWrites <= store <= s.writeStores
    ensures var s' := Step(Unbounded, cap, s, ConsumerLoad(store)).value;
            && (s'.consumer == Resting(Some(false)) <==> store == s.readStores)
            && (s'.consumer.Move? || s'.consumer.Destroy? ==> s.readStores < |s.pushed| && s.storage[s.readStores % cap] == Constructed(s.pushed[s.readStores]))
            && (store == s.writeStores && s'.consumer == Resting(Some(false)) ==> s.writeStores == s.readStores)
  {
    assert SlotOk(cap, s, s.readStores);
  }

  /** The two sides never work on the same slot at once. */
  lemma SidesNeverMeet<T>(cap: nat, s: State<T>)
    requires Inv(cap, s)
    requires s.producer.Construct? || s.producer.StoreWrite?
    requires s.consumer.Move? || s.consumer.Destroy? || s.consumer.StoreRead?
    ensures s.producer.write % cap != s.consumer.read % cap
  {
    DistinctCells(s.producer.write, s.consumer.read, cap);
  }

  // ---- Wraparound ----

  function WrapProducer<T>(m: nat, p: Producer<T>): Producer<T>
    requires 0 < m
  {
    match p
    case Idle(_) => p
    case LoadRead(v, w) => LoadRead(v, w % m)
    case Construct(v, w) => Construct(v, w % m)
    case StoreWrite(w) => StoreWrite(w % m)
  }

  function WrapConsumer(m: nat, c: Consumer): Consumer
    requires 0 < m
  {
    match c
    case Resting(_) => c
    case LoadWrite(r, k) => LoadWrite(r % m, k)
    case Move(r) => Move(r % m)
    case Destroy(r, k) => Destroy(r % m, k)
    case StoreRead(r, k) => StoreRead(r % m, k)
  }

  /** The same state on a machine whose counters wrap at `m`: only the counter values differ. */
  function Wrapped<T>(m: nat, s: State<T>): State<T>
    requires 0 < m
  {
    s.(readIndex := s.readIndex % m, writeIndex := s.writeIndex % m,
       producer := WrapProducer(m, s.producer), consumer := WrapConsumer(m, s.consumer))
  }

  function WrappedRun<T>(m: nat, r: Option<State<T>>): Option<State<T>>
    requires 0 < m
  {
    match r case None => None case Some(s) => Some(Wrapped(m, s))
  }

  /** Slot indices survive wrapping for every counter value exactly when the capacity divides the modulus. */
  lemma SlotIndexSurvives(cap: nat, m: nat)
    requires 0 < cap && 0 < m
    ensures (forall i: nat :: (i % m) % cap == i % cap) <==> m % cap == 0
  {
    if m % cap == 0 {
      forall i: nat ensures (i % m) % cap == i % cap { DividingSlot(i, cap, m); }
    } else {
      assert (m % m) % cap == 0 != m % cap;
    }
  }

  lemma DividingSlot(i: nat, cap: nat, m: nat)
    requires 0 < cap && 0 < m && m % cap == 0
    ensures (i % m) % cap == i % cap
  {
    var k, l, j := m / cap, i / m, i % m;
    assert i == m * l + j && m == cap * k && j == cap * (j / cap) + j % cap;
    MulAssociates(cap, k, l);
    MulDistributes(cap, k * l, j / cap);
    Residue(i, k * l + j / cap, j % cap, cap);
  }

  lemma SmallRemainder(x: int, m: nat)
    requires 0 <= x < m
    ensures x % m == x
  {
  }

  /** Unsigned subtraction of wrapped counters gives the true difference when that is below the modulus. */
  lemma WrappedDifference(x: nat, y: nat, m: nat)
    requires 0 < m && 0 <= x - y < m
    ensures (x % m - y % m) % m == x - y
    ensures x % m == y % m <==> x == y
  {
    var q := x / m - y / m;
    assert x % m - y % m == m * (-q) + (x - y);
    Residue(x % m - y % m, -q, x - y, m);
    if x % m == y % m {
      assert m * (-q) + (x - y) == 0;
      SmallMultiple(m, -q);
    }
  }

  /** Where wrapped slot indices can be trusted: the capacity divides the modulus, or no push has gone past it. */
  predicate IndexSafe(cap: nat, m: nat, pushes: nat) {
    0 < cap < m && (m % cap == 0 || pushes <= m)
  }

  lemma WrappedSlot(cap: nat, m: nat, pushes: nat, i: nat)
    requires IndexSafe(cap, m, pushes) && i < pushes
    ensures (i % m) % cap == i % cap
  {
    if m % cap == 0 { DividingSlot(i, cap, m); } else { SmallRemainder(i, m); }
  }

  /** How many pushes have been made once `a` is done. */
  function PushesAfter<T>(s: State<T>, a: Action<T>): nat {
    |s.pushed| + if a.ProducerStep? && s.producer.Construct? then 1 else 0
  }

  lemma ProducerStepWraps<T>(cap: nat, m: nat, s: State<T>)
    requires Inv(cap, s) && IndexSafe(cap, m, PushesAfter(s, ProducerStep))
    ensures ProducerAdvance(Wrapping(m), cap, Wrapped(m, s)) == WrappedRun(m, ProducerAdvance(Unbounded, cap, s))
  {
    match s.producer
    case Construct(_, w) => WrappedSlot(cap, m, PushesAfter(s, ProducerStep), w);
    case StoreWrite(w) => Successor(w, m);
    case _ =>
  }

  lemma ConsumerStepWraps<T>(cap: nat, m: nat, s: State<T>)
    requires Inv(cap, s) && IndexSafe(cap, m, |s.pushed|)
    ensures ConsumerAdvance(Wrapping(m), cap, Wrapped(m, s)) == WrappedRun(m, ConsumerAdvance(Unbounded, cap, s))
  {
    match s.consumer
    case Move(r) => WrappedSlot(cap, m, |s.pushed|, r);
    case Destroy(r, _) => WrappedSlot(cap, m, |s.pushed|, r);
    case StoreRead(r, _) => Successor(r, m);
    case _ =>
  }

  lemma StepWraps<T>(cap: nat, m: nat, s: State<T>, a: Action<T>)
    requires Inv(cap, s) && IndexSafe(cap, m, PushesAfter(s, a))
    ensures Step(Wrapping(m), cap, Wrapped(m, s), a) == WrappedRun(m, Step(Unbounded, cap, s, a))
  {
    match a
    case ProducerStep => ProducerStepWraps(cap, m, s);
    case ConsumerStep => ConsumerStepWraps(cap, m, s);
    case ProducerLoad(x) =>
      if s.producer.LoadRead? && s.seenReads <= x <= s.readStores { WrappedDifference(s.writeStores, x, m); }
    case ConsumerLoad(x) =>
      if s.consumer.LoadWrite? && s.seenWrites <= x <= s.writeStores { WrappedDifference(x, s.readStores, m); }
    case _ =>
  }

  /** A run that makes at most `limit` pushes. */
  predicate PushesWithin<T>(r: Option<State<T>>, limit: nat) {
    r.Some? && |r.value.pushed| <= limit
  }

  lemma StepPushes<T>(c: Counters, cap: nat, s: State<T>, a: Action<T>)
    requires c.Valid() && Shape(cap, s) && Step(c, cap, s, a).Some?
    ensures |Step(c, cap, s, a).value.pushed| == PushesAfter(s, a)
  {
  }

  lemma {:induction false} PushesGrow<T>(c: Counters, cap: nat, s: State<T>, actions: seq<Action<T>>)
    requires c.Valid() && Shape(cap, s) && Run(c, cap, s, actions).Some?
    ensures |s.pushed| <= |Run(c, cap, s, actions).value.pushed|
    decreases |actions|
  {
    if actions != [] {
      StepPushes(c, cap, s, actions[0]);
      PushesGrow(c, cap, Step(c, cap, s, actions[0]).value, actions[1..]);
    }
  }

  lemma WithinFromStart<T>(c: Counters, cap: nat, s: State<T>, actions: seq<Action<T>>, limit: nat)
    requires c.Valid() && Shape(cap, s) && actions != [] && PushesWithin(Run(c, cap, s, actions), limit)
    ensures var r := Step(c, cap, s, actions[0]);
            r.Some? && PushesAfter(s, actions[0]) <= limit && PushesWithin(Run(c, cap, r.value, actions[1..]), limit)
  {
    StepPushes(c, cap, s, actions[0]);
    PushesGrow(c, cap, Step(c, cap, s, actions[0]).value, actions[1..]);
  }

  /**
   Wraparound: every run on counters modulo `m` goes through the same storage, answers and values as on
   unbounded counters, when the capacity divides `m`, and otherwise as long as it makes at most `m` pushes.
   */
  lemma {:induction false} WrappingRunAgrees<T>(cap: nat, m: nat, s: State<T>, actions: seq<Action<T>>)
    requires Inv(cap, s) && 0 < cap < m
    requires m % cap == 0 || PushesWithin(Run(Unbounded, cap, s, actions), m)
          || PushesWithin(Run(Wrapping(m), cap, Wrapped(m, s), actions), m)
    ensures Run(Wrapping(m), cap, Wrapped(m, s), actions) == WrappedRun(m, Run(Unbounded, cap, s, actions))
    decreases |actions|
  {
    if actions != [] {
      if PushesWithin(Run(Unbounded, cap, s, actions), m) {
        WithinFromStart(Unbounded, cap, s, actions, m);
      } else if m % cap != 0 {
        WithinFromStart(Wrapping(m), cap, Wrapped(m, s), actions, m);
      }
      assert PushesAfter(Wrapped(m, s), actions[0]) == PushesAfter(s, actions[0]);
      StepWraps(cap, m, s, actions[0]);
      if Step(Unbounded, cap, s, actions[0]).Some? {
        StepInv(cap, s, actions[0]);
        WrappingRunAgrees(cap, m, Step(Unbounded, cap, s, actions[0]).value, actions[1..]);
      }
    }
  }

  /** `empty()`, `full()` and `size()` compute the same from wrapped counters. */
  lemma QueriesSurviveWrapping<T>(cap: nat, m: nat, s: State<T>)
    requires Inv(cap, s) && cap < m
    ensures var w := Wrapped(m, s);
            && Wrapping(m).Minus(w.writeIndex, w.readIndex) == s.writeStores - s.readStores
            && (w.readIndex == w.writeIndex <==> s.readStores == s.writeStores)
            && (Wrapping(m).Minus(w.writeIndex, w.readIndex) == cap <==> s.writeStores - s.readStores == cap)
  {
    WrappedDifference(s.writeStores, s.readStores, m);
  }

  // ---- The exact condition for wraparound ----

  /** One push with nobody else running, its load seeing the newest read index. */
  function PushScript<T>(s: State<T>, v: T): seq<Action<T>> {
    [StartPush(v), ProducerLoad(s.readStores), ProducerStep, ProducerStep]
  }

  function AfterPush<T>(c: Counters, cap: nat, s: State<T>, v: T): State<T>
    requires c.Valid() && Shape(cap, s)
  {
    s.(writeIndex := c.Norm(s.writeIndex + 1), storage := s.storage[s.writeIndex % cap := Constructed(v)],
       producer := Idle(Some(true)), writeStores := s.writeStores + 1, seenReads := s.readStores,
       pushed := s.pushed + [v], fault := s.fault || !s.storage[s.writeIndex % cap].Empty?)
  }

  lemma SoloPush<T>(c: Counters, cap: nat, s: State<T>, v: T)
    requires c.Valid() && Shape(cap, s) && s.producer.Idle? && s.seenReads <= s.readStores
    requires c.Minus(s.writeIndex, c.Norm(s.readStores)) != cap
    ensures Run(c, cap, s, PushScript(s, v)) == Some(AfterPush(c, cap, s, v))
  {
    var w := s.writeIndex;
    var s1 := s.(producer := LoadRead(v, w));
    var s2 := s1.(producer := Construct(v, w), seenReads := s.readStores);
    var s3 := ProducerAdvance(c, cap, s2).value;
    var l1: seq<Action<T>> := [ProducerLoad(s.readStores), ProducerStep, ProducerStep];
    var l2: seq<Action<T>> := [ProducerStep, ProducerStep];
    assert PushScript(s, v)[1..] == l1 && l1[1..] == l2 && l2[1..] == [ProducerStep] && l2[1..][1..] == [];
    assert Run(c, cap, s3, l2[1..]) == Some(AfterPush(c, cap, s, v));
    assert Run(c, cap, s1, l1) == Run(c, cap, s2, l2) == Run(c, cap, s3, l2[1..]);
  }

  function PopScript<T>(s: State<T>): seq<Action<T>> {
    [StartPop, ConsumerLoad(s.writeStores), ConsumerStep, ConsumerStep, ConsumerStep]
  }

  lemma SoloPop<T>(cap: nat, s: State<T>)
    requires Inv(cap, s) && s.consumer.Resting? && s.readStores < s.writeStores
    ensures var r := Run(Unbounded, cap, s, PopScript(s));
            && r.Some? && r.value.consumer.Resting? && r.value.producer == s.producer
            && r.value.readStores == s.readStores + 1 && r.value.writeStores == s.writeStores
  {
    var s1 := s.(consumer := LoadWrite(s.readIndex, false));
    var s2 := s1.(consumer := Move(s.readIndex), seenWrites := s.writeStores);
    var s3 := ConsumerAdvance(Unbounded, cap, s2).value;
    var s4 := ConsumerAdvance(Unbounded, cap, s3).value;
    var l1: seq<Action<T>> := [ConsumerLoad(s.writeStores), ConsumerStep, ConsumerStep, ConsumerStep];
    var l2: seq<Action<T>> := [ConsumerStep, ConsumerStep, ConsumerStep];
    var l3: seq<Action<T>> := [ConsumerStep, ConsumerStep];
    assert PopScript(s)[1..] == l1 && l1[1..] == l2 && l2[1..] == l3 && l3[1..] == [ConsumerStep] && l3[1..][1..] == [];
    assert Run(Unbounded, cap, s4, l3[1..]) == ConsumerAdvance(Unbounded, cap, s4);
    assert Run(Unbounded, cap, s2, l2) == Run(Unbounded, cap, s3, l3) == Run(Unbounded, cap, s4, l3[1..]);
    assert Run(Unbounded, cap, s, PopScript(s)) == Run(Unbounded, cap, s1, l1) == Run(Unbounded, cap, s2, l2);
  }

  /** Every pair of counters that a bounded queue allows is reached with both sides at rest. */
  lemma {:induction false} Reach<T>(cap: nat, r: nat, w: nat, v: T) returns (actions: seq<Action<T>>)
    requires 0 < cap && r <= w <= r + cap
    ensures var e := Run(Unbounded, cap, Init<T>(cap), actions);
            && e.Some? && Inv(cap, e.value) && e.value.producer.Idle? && e.value.consumer.Resting?
            && e.value.readStores == r && e.value.writeStores == w
    decreases r + w
  {
    var init := Init<T>(cap);
    InitInv<T>(cap);
    if w == 0 {
      actions := [];
    } else {
      var front;
      if w == r { front := Reach(cap, r - 1, w, v); } else { front := Reach(cap, r, w - 1, v); }
      var s := Run(Unbounded, cap, init, front).value;
      var back := if w == r then PopScript(s) else PushScript(s, v);
      if w == r { SoloPop(cap, s); } else { SoloPush(Unbounded, cap, s, v); }
      RunInv(cap, s, back);
      RunAppend(Unbounded, cap, init, front, back);
      actions := front + back;
    }
  }

  /** No run on counters modulo `m` constructs over a live object or takes one that is not there. */
  ghost predicate WrapSafe<T(!new)>(cap: nat, m: nat)
    requires 0 < cap < m
  {
    forall actions: seq<Action<T>> ::
      Run(Wrapping(m), cap, Init<T>(cap), actions).Some? ==> !Run(Wrapping(m), cap, Init<T>(cap), actions).value.fault
  }

  /** When the capacity does not divide the modulus, the first push past the wrap can construct over a live object. */
  lemma WrapCollides<T>(cap: nat, m: nat, v: T) returns (actions: seq<Action<T>>)
    requires 0 < cap < m && m % cap != 0
    ensures var e := Run(Wrapping(m), cap, Init<T>(cap), actions); e.Some? && e.value.fault && |e.value.pushed| == m + 1
  {
    var d := m % cap;
    var k := m - d;
    var front := Reach(cap, k, m - 1, v);
    var init := Init<T>(cap);
    InitInv<T>(cap);
    var s := Run(Unbounded, cap, init, front).value;
    WrappingRunAgrees(cap, m, init, front);
    assert Wrapped(m, init) == init;
    var s1 := Wrapped(m, s);
    SmallRemainder(m - 1, m);
    SmallRemainder(k, m);
    assert s1.writeIndex == m - 1 && s1.readIndex == k;
    SmallRemainder(m - 1 - k, m);
    SoloPush(Wrapping(m), cap, s1, v);
    var s2 := AfterPush(Wrapping(m), cap, s1, v);
    assert s2.writeIndex == 0 by { Residue(m, 1, 0, m); }
    Residue(0 - k, -1, d, m);
    SoloPush(Wrapping(m), cap, s2, v);
    FirstSlotIsLive(cap, m, s, v);
    RunAppend(Wrapping(m), cap, s1, PushScript(s1, v), PushScript(s2, v));
    RunAppend(Wrapping(m), cap, init, front, PushScript(s1, v) + PushScript(s2, v));
    actions := front + (PushScript(s1, v) + PushScript(s2, v));
  }

  lemma FirstSlotIsLive<T>(cap: nat, m: nat, s: State<T>, v: T)
    requires Inv(cap, s) && 0 < cap < m && m % cap != 0
    requires s.producer.Idle? && s.consumer.Resting? && s.readStores == m - m % cap && s.writeStores == m - 1
    ensures s.storage[(m - 1) % cap := Constructed(v)][0].Constructed?
  {
    var k := m - m % cap;
    assert k == cap * (m / cap);
    Residue(k, m / cap, 0, cap);
    if k == m - 1 {
      assert (m - 1) % cap == 0;
    } else {
      assert SlotOk(cap, s, k);
    }
  }

  /** Safe wraparound for all runs holds exactly when the capacity divides the counter modulus. */
  lemma WrapSafeExactlyWhenDividing<T(!new)>(cap: nat, m: nat, v: T)
    requires 0 < cap < m
    ensures WrapSafe<T>(cap, m) <==> m % cap == 0
  {
    if m % cap == 0 {
      forall actions: seq<Action<T>> | Run(Wrapping(m), cap, Init<T>(cap), actions).Some?
        ensures !Run(Wrapping(m), cap, Init<T>(cap), actions).value.fault
      {
        InitInv<T>(cap);
        assert Wrapped(m, Init<T>(cap)) == Init(cap);
        WrappingRunAgrees(cap, m, Init<T>(cap), actions);
        StaleViewsAreSafe(cap, actions);
      }
    } else {
      var actions := WrapCollides(cap, m, v);
    }
  }

  /** Safety of all runs of at most `limit` pushes on counters modulo `m`. */
  ghost predicate WrapSafeUpTo<T(!new)>(cap: nat, m: nat, limit: nat)
    requires 0 < cap < m
  {
    forall actions: seq<Action<T>> ::
      PushesWithin(Run(Wrapping(m), cap, Init<T>(cap), actions), limit) ==>
        !Run(Wrapping(m), cap, Init<T>(cap), actions).value.fault
  }

  /** All runs of at most `limit` pushes, of either kind, are the same on both kinds of counters. */
  ghost predicate WrapAgreesUpTo<T(!new)>(cap: nat, m: nat, limit: nat)
    requires 0 < cap < m
  {
    forall actions: seq<Action<T>> ::
      PushesWithin(Run(Wrapping(m), cap, Init<T>(cap), actions), limit)
      || PushesWithin(Run(Unbounded, cap, Init<T>(cap), actions), limit) ==>
        Run(Wrapping(m), cap, Init<T>(cap), actions) == WrappedRun(m, Run(Unbounded, cap, Init<T>(cap), actions))
  }

  lemma WrapAgreesBelow<T(!new)>(cap: nat, m: nat, limit: nat)
    requires 0 < cap < m && (m % cap == 0 || limit <= m)
    ensures WrapAgreesUpTo<T>(cap, m, limit)
  {
    InitInv<T>(cap);
    assert Wrapped(m, Init<T>(cap)) == Init(cap);
    forall actions: seq<Action<T>>
      | PushesWithin(Run(Wrapping(m), cap, Init<T>(cap), actions), limit)
        || PushesWithin(Run(Unbounded, cap, Init<T>(cap), actions), limit)
      ensures Run(Wrapping(m), cap, Init<T>(cap), actions) == WrappedRun(m, Run(Unbounded, cap, Init<T>(cap), actions))
    {
      WrappingRunAgrees(cap, m, Init<T>(cap), actions);
    }
  }

  lemma AgreementIsSafe<T(!new)>(cap: nat, m: nat, limit: nat)
    requires 0 < cap < m && WrapAgreesUpTo<T>(cap, m, limit)
    ensures WrapSafeUpTo<T>(cap, m, limit)
  {
    forall actions: seq<Action<T>> | PushesWithin(Run(Wrapping(m), cap, Init<T>(cap), actions), limit)
      ensures !Run(Wrapping(m), cap, Init<T>(cap), actions).value.fault
    {
      StaleViewsAreSafe(cap, actions);
    }
  }

  /** Wrapping counters agree with unbounded ones, and are safe, for exactly `m` pushes, unless the capacity divides `m`. */
  lemma WrapExactlyUpTo<T(!new)>(cap: nat, m: nat, limit: nat, v: T)
    requires 0 < cap < m
    ensures WrapAgreesUpTo<T>(cap, m, limit) <==> m % cap == 0 || limit <= m
    ensures WrapSafeUpTo<T>(cap, m, limit) <==> m % cap == 0 || limit <= m
  {
    if m % cap == 0 || limit <= m {
      WrapAgreesBelow<T>(cap, m, limit);
      AgreementIsSafe<T>(cap, m, limit);
    } else {
      var actions := WrapCollides(cap, m, v);
      assert PushesWithin(Run(Wrapping(m), cap, Init<T>(cap), actions), limit);
      if WrapAgreesUpTo<T>(cap, m, limit) { AgreementIsSafe<T>(cap, m, limit); }
    }
  }
}
