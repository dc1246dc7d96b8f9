/** What every step of the MPSC protocol keeps, for capacities of two and more. */
module MpscInvariant {
  import opened Wrappers
  import opened Slots
  import opened RingArithmetic
  import opened MpscModel

  ghost predicate Bounds<T>(cap: nat, s: State<T>) {
    && Shape(cap, s)
    && Released(s) <= s.readIndex <= s.writeIndex == |s.log| <= Released(s) + cap
    && !s.fault
    && match s.consumer
       case Resting => true
       case Release(r, _) => s.readIndex == r + 1
       case c => c.read == s.readIndex
  }

  predicate PublishedAt<T>(s: State<T>, p: nat) {
    p < |s.log| && s.log[p].stage == Published
  }

  /** The sequence number the cell of a position in the current window must hold. */
  function CellSequence<T>(s: State<T>, p: nat): nat {
    if PublishedAt(s, p) then p + 1 else p
  }

  /** The storage state the cell of a position in the current window must be in. */
  function CellStorage<T>(s: State<T>, p: nat): Slot<T> {
    if p >= |s.log| || s.log[p].stage == Claimed then Empty
    else if s.consumer == Destroy(p, false) then MovedFrom
    else if (s.consumer.StoreIndex? || s.consumer.Release?) && s.consumer.read == p then Empty
    else Constructed(s.log[p].value)
  }

  ghost predicate CellOk<T>(cap: nat, s: State<T>, p: nat)
    requires Shape(cap, s)
  {
    s.sequence[p % cap] == CellSequence(s, p) && s.storage[p % cap] == CellStorage(s, p)
  }

  ghost predicate Cells<T>(cap: nat, s: State<T>)
    requires Shape(cap, s)
  {
    forall p: nat | Released(s) <= p < Released(s) + cap :: CellOk(cap, s, p)
  }

  /** Retries that were not spurious are paid for by claims of other producers since the first load. */
  ghost predicate CallOk<T>(s: State<T>, t: nat, w: nat, c: Call) {
    && c.start <= w <= s.writeIndex
    && c.retries <= w - c.start + c.spurious
    && forall p | c.start <= p < |s.log| :: s.log[p].owner != t
  }

  ghost predicate ProducerOk<T>(cap: nat, s: State<T>, t: nat)
    requires Shape(cap, s) && t < |s.producers|
  {
    match s.producers[t]
    case Idle(_) => true
    case LoadIndex(_) => true
    case LoadSequence(_, w, c) => CallOk(s, t, w, c)
    case CompareExchange(_, w, c) => CallOk(s, t, w, c) && w <= s.sequence[w % cap]
    case Reload(_, w, c) => CallOk(s, t, w, c) && w < s.writeIndex
    case Construct(v, w) => w < |s.log| && s.log[w] == Entry(v, t, Claimed)
    case Publish(w) => w < |s.log| && s.log[w].owner == t && s.log[w].stage == Built
    case FullLoadIndex => true
    case FullLoadSequence(w) => w <= s.writeIndex
  }

  ghost predicate Producers<T>(cap: nat, s: State<T>)
    requires Shape(cap, s)
  {
    forall t | 0 <= t < |s.producers| :: ProducerOk(cap, s, t)
  }

  /** A claim that is not published yet is in the hands of the producer that made it. */
  ghost predicate OwnerOk<T>(s: State<T>, p: nat)
    requires p < |s.log|
  {
    var e := s.log[p];
    && (e.stage == Claimed ==> e.owner < |s.producers| && s.producers[e.owner] == Construct(e.value, p))
    && (e.stage == Built ==> e.owner < |s.producers| && s.producers[e.owner] == Publish(p))
  }

  ghost predicate Owners<T>(s: State<T>) {
    forall p | 0 <= p < |s.log| :: OwnerOk(s, p)
  }

  ghost predicate History<T>(s: State<T>) {
    && Frontier(s) <= |s.log|
    && Consumed(s) == |s.exits| <= |s.log|
    && (forall p | 0 <= p < Frontier(s) :: s.log[p].stage == Published)
    && (forall p | 0 <= p < |s.exits| :: s.exits[p].value == s.log[p].value)
  }

  ghost predicate Inv<T>(cap: nat, s: State<T>) {
    Bounds(cap, s) && Cells(cap, s) && Producers(cap, s) && Owners(s) && History(s)
  }

  lemma InitInv<T>(cap: nat, threads: nat)
    requires 0 < cap
    ensures Inv(cap, Init<T>(cap, threads))
  {
    var s := Init<T>(cap, threads);
    forall p: nat | p < cap ensures CellOk(cap, s, p) {
      Residue(p, 0, p, cap);
    }
  }

  /**
   The reading of a cell's sequence number by a thread whose `w` is not ahead of `write_index_`:
   below `w` only when exactly `cap` positions are claimed and not released, above `w` only when the
   write index has moved on.
   */
  lemma SequenceReading<T>(cap: nat, s: State<T>, w: nat)
    requires Bounds(cap, s) && Cells(cap, s) && 2 <= cap && w <= s.writeIndex
    ensures s.sequence[w % cap] < w <==> w == Released(s) + cap
    ensures s.sequence[w % cap] < w ==> w == s.writeIndex
    ensures s.sequence[w % cap] > w ==> w < s.writeIndex
  {
    var p := WindowCovers(w, Released(s), cap);
    assert CellOk(cap, s, p);
    if w == Released(s) + cap {
      NextLap(Released(s), cap);
      assert CellOk(cap, s, Released(s));
    } else if Released(s) <= w && p != w {
      DistinctCells(p, w, cap);
    }
  }

  /** A claim never meets a reused cell: `w == write_index_` and a cell at or above `w` mean a free cell. */
  lemma ClaimReading<T>(cap: nat, s: State<T>, w: nat)
    requires Bounds(cap, s) && Cells(cap, s) && 2 <= cap && w == s.writeIndex && w <= s.sequence[w % cap]
    ensures w < Released(s) + cap
    ensures s.sequence[w % cap] == w && s.storage[w % cap] == Empty
  {
    SequenceReading(cap, s, w);
    assert CellOk(cap, s, w);
  }

  /** Changing the cell of `q` alone leaves the cells of the other positions of the window as they were. */
  lemma OtherCells<T>(cap: nat, s: State<T>, s': State<T>, q: nat)
    requires Shape(cap, s) && Shape(cap, s') && Cells(cap, s)
    requires Released(s) == Released(s') <= q < Released(s) + cap
    requires forall i | 0 <= i < cap && i != q % cap :: s'.sequence[i] == s.sequence[i] && s'.storage[i] == s.storage[i]
    requires forall p: nat | Released(s) <= p < Released(s) + cap && p != q ::
               CellSequence(s', p) == CellSequence(s, p) && CellStorage(s', p) == CellStorage(s, p)
    requires CellOk(cap, s', q)
    ensures Cells(cap, s')
  {
    forall p: nat | Released(s') <= p < Released(s') + cap ensures CellOk(cap, s', p) {
      if p != q {
        DistinctCells(p, q, cap);
        assert CellOk(cap, s, p);
      }
    }
  }

  /** A step that changes neither cells nor log keeps the cell facts. */
  lemma SameCells<T>(cap: nat, s: State<T>, s': State<T>)
    requires Shape(cap, s) && Shape(cap, s') && Cells(cap, s)
    requires s'.sequence == s.sequence && s'.storage == s.storage && s'.log == s.log
    requires Released(s') == Released(s)
    requires forall p: nat | Released(s) <= p < Released(s) + cap :: CellStorage(s', p) == CellStorage(s, p)
    ensures Cells(cap, s')
  {
    forall p: nat | Released(s') <= p < Released(s') + cap ensures CellOk(cap, s', p) {
      assert CellOk(cap, s, p);
    }
  }

  /** What producer `t` may rely on while another thread takes a step. */
  ghost predicate Steady<T>(s: State<T>, s': State<T>, t: nat) {
    && |s'.sequence| == |s.sequence| && |s'.producers| == |s.producers| && t < |s.producers|
    && s'.producers[t] == s.producers[t]
    && s.writeIndex <= s'.writeIndex && |s.log| <= |s'.log|
    && (forall i | 0 <= i < |s.sequence| :: s.sequence[i] <= s'.sequence[i])
    && (forall p | 0 <= p < |s.log| :: s'.log[p].owner == s.log[p].owner)
    && (forall p | 0 <= p < |s.log| && s.log[p].owner == t :: s'.log[p] == s.log[p])
    && (forall p | |s.log| <= p < |s'.log| :: s'.log[p].owner != t)
  }

  lemma SteadyProducer<T>(cap: nat, s: State<T>, s': State<T>, t: nat)
    requires Shape(cap, s) && Shape(cap, s') && Steady(s, s', t) && ProducerOk(cap, s, t)
    ensures ProducerOk(cap, s', t)
  {
    match s.producers[t]
    case LoadSequence(_, w, c) =>
    case CompareExchange(_, w, c) => assert s.sequence[w % cap] <= s'.sequence[w % cap];
    case Reload(_, w, c) =>
    case _ =>
  }

  lemma SteadyProducers<T>(cap: nat, s: State<T>, s': State<T>, me: Option<nat>)
    requires Shape(cap, s) && Shape(cap, s') && Producers(cap, s)
    requires |s'.producers| == |s.producers|
    requires forall t | 0 <= t < |s.producers| && me != Some(t) :: Steady(s, s', t)
    requires me.Some? ==> me.value < |s.producers| && ProducerOk(cap, s', me.value)
    ensures Producers(cap, s')
  {
    forall t | 0 <= t < |s'.producers| ensures ProducerOk(cap, s', t) {
      if me != Some(t) { SteadyProducer(cap, s, s', t); }
    }
  }

  /** A step of producer `t` that only moves its program counter, between two points that own no claim. */
  lemma PureStep<T>(cap: nat, s: State<T>, t: nat, p: Producer<T>)
    requires Inv(cap, s) && t < |s.producers|
    requires !s.producers[t].Construct? && !s.producers[t].Publish?
    requires ProducerOk(cap, Put(s, t, p), t)
    ensures Inv(cap, Put(s, t, p))
  {
    var s' := Put(s, t, p);
    SameCells(cap, s, s');
    SteadyProducers(cap, s, s', Some(t));
    forall q | 0 <= q < |s'.log| ensures OwnerOk(s', q) {
      assert OwnerOk(s, q);
    }
  }

  lemma LoadSequenceInv<T>(cap: nat, s: State<T>, t: nat)
    requires Inv(cap, s) && 2 <= cap && t < |s.producers| && s.producers[t].LoadSequence?
    ensures Inv(cap, ProducerStep(Exact, cap, s, t).value)
  {
    var LoadSequence(v, w, c) := s.producers[t];
    assert ProducerOk(cap, s, t);
    SequenceReading(cap, s, w);
    PureStep(cap, s, t, ProducerStep(Exact, cap, s, t).value.producers[t]);
  }

  /** Reloading the write index after it has moved on pays for one retry. */
  lemma RetryInv<T>(cap: nat, s: State<T>, t: nat)
    requires Inv(cap, s) && t < |s.producers|
    requires s.producers[t].Reload? || (s.producers[t].CompareExchange? && s.producers[t].write != s.writeIndex)
    ensures Inv(cap, ProducerStep(Exact, cap, s, t).value)
  {
    assert ProducerOk(cap, s, t);
    PureStep(cap, s, t, LoadSequence(s.producers[t].value, s.writeIndex, Retry(s.producers[t].call)));
  }

  lemma ClaimInv<T>(cap: nat, s: State<T>, t: nat)
    requires Inv(cap, s) && 2 <= cap && t < |s.producers|
    requires s.producers[t].CompareExchange? && s.producers[t].write == s.writeIndex
    ensures Inv(cap, ProducerStep(Exact, cap, s, t).value)
  {
    var w := s.writeIndex;
    var s' := ProducerStep(Exact, cap, s, t).value;
    assert ProducerOk(cap, s, t);
    ClaimReading(cap, s, w);
    OtherCells(cap, s, s', w);
    SteadyProducers(cap, s, s', Some(t));
    forall q | 0 <= q < |s'.log| ensures OwnerOk(s', q) {
      if q < w { assert OwnerOk(s, q); }
    }
  }

  /** A position that is claimed and not published lies in the window, beyond the consumer's frontier. */
  lemma Unpublished<T>(cap: nat, s: State<T>, w: nat)
    requires Inv(cap, s) && w < |s.log| && s.log[w].stage != Published
    ensures Frontier(s) <= w < Released(s) + cap && Released(s) <= w && CellOk(cap, s, w)
  {
  }

  /** Marking the entry of position `w`, while its owner `t` moves on, leaves every claim in its owner's hands. */
  lemma OwnersMarked<T>(s: State<T>, s': State<T>, t: nat, w: nat)
    requires Owners(s) && t < |s.producers| && w < |s.log| && s.log[w].stage != Published && s.log[w].owner == t
    requires |s'.log| == |s.log| && s'.log == s.log[w := s'.log[w]] && OwnerOk(s', w)
    requires |s'.producers| == |s.producers| && s'.producers == s.producers[t := s'.producers[t]]
    ensures Owners(s')
  {
    assert OwnerOk(s, w);
    forall q | 0 <= q < |s'.log| ensures OwnerOk(s', q) {
      assert OwnerOk(s, q);
    }
  }

  lemma ConstructInv<T>(cap: nat, s: State<T>, t: nat)
    requires Inv(cap, s) && t < |s.producers| && s.producers[t].Construct?
    ensures Inv(cap, ProducerStep(Exact, cap, s, t).value)
  {
    var Construct(v, w) := s.producers[t];
    var s' := ProducerStep(Exact, cap, s, t).value;
    assert ProducerOk(cap, s, t);
    Unpublished(cap, s, w);
    OtherCells(cap, s, s', w);
    SteadyProducers(cap, s, s', Some(t));
    OwnersMarked(s, s', t, w);
  }

  lemma PublishInv<T>(cap: nat, s: State<T>, t: nat)
    requires Inv(cap, s) && t < |s.producers| && s.producers[t].Publish?
    ensures Inv(cap, ProducerStep(Exact, cap, s, t).value)
  {
    var w := s.producers[t].write;
    var s' := ProducerStep(Exact, cap, s, t).value;
    assert ProducerOk(cap, s, t);
    Unpublished(cap, s, w);
    OtherCells(cap, s, s', w);
    SteadyProducers(cap, s, s', Some(t));
    OwnersMarked(s, s', t, w);
  }

  lemma ProducerInv<T>(cap: nat, s: State<T>, t: nat)
    requires Inv(cap, s) && 2 <= cap && t < |s.producers|
    requires ProducerStep(Exact, cap, s, t).Some?
    ensures Inv(cap, ProducerStep(Exact, cap, s, t).value)
  {
    match s.producers[t]
    case Idle(_) =>
    case LoadIndex(v) => PureStep(cap, s, t, LoadSequence(v, s.writeIndex, Call(s.writeIndex, 0, 0)));
    case LoadSequence(_, _, _) => LoadSequenceInv(cap, s, t);
    case CompareExchange(_, w, _) => if w == s.writeIndex { ClaimInv(cap, s, t); } else { RetryInv(cap, s, t); }
    case Reload(_, _, _) => RetryInv(cap, s, t);
    case Construct(_, _) => ConstructInv(cap, s, t);
    case Publish(_) => PublishInv(cap, s, t);
    case FullLoadIndex => PureStep(cap, s, t, FullLoadSequence(s.writeIndex));
    case FullLoadSequence(w) =>
      PureStep(cap, s, t, ProducerStep(Exact, cap, s, t).value.producers[t]);
  }

  lemma SpuriousInv<T>(cap: nat, s: State<T>, t: nat)
    requires Inv(cap, s) && t < |s.producers| && SpuriousStep(s, t).Some?
    ensures Inv(cap, SpuriousStep(s, t).value)
  {
    assert ProducerOk(cap, s, t);
    PureStep(cap, s, t, SpuriousStep(s, t).value.producers[t]);
  }

  /** A consumer step that leaves cells and log alone. */
  lemma ConsumerPureStep<T>(cap: nat, s: State<T>, c: Consumer)
    requires Inv(cap, s) && (s.consumer.Resting? || s.consumer.LoadCell?)
    requires c == Resting || (c.LoadCell? && c.read == s.readIndex)
          || ((c == Move(s.readIndex) || c == Destroy(s.readIndex, true)) && PublishedAt(s, s.readIndex))
    ensures Inv(cap, s.(consumer := c))
  {
    var s' := s.(consumer := c);
    SameCells(cap, s, s');
    SteadyProducers(cap, s, s', None);
    forall q | 0 <= q < |s'.log| ensures OwnerOk(s', q) {
      assert OwnerOk(s, q);
    }
  }

  lemma LoadCellInv<T>(cap: nat, s: State<T>)
    requires Inv(cap, s) && 2 <= cap && s.consumer.LoadCell?
    ensures Inv(cap, ConsumerStep(Exact, cap, s).value)
  {
    assert CellOk(cap, s, s.readIndex);
    ConsumerPureStep(cap, s, ConsumerStep(Exact, cap, s).value.consumer);
  }

  /** A consumer step that leaves the log and the producers alone leaves every claim in its owner's hands. */
  lemma OwnersKept<T>(s: State<T>, s': State<T>)
    requires Owners(s) && s'.log == s.log && s'.producers == s.producers
    ensures Owners(s')
  {
    forall q | 0 <= q < |s'.log| ensures OwnerOk(s', q) {
      assert OwnerOk(s, q);
    }
  }

  lemma MoveInv<T>(cap: nat, s: State<T>)
    requires Inv(cap, s) && s.consumer.Move?
    ensures Inv(cap, ConsumerStep(Exact, cap, s).value)
  {
    var s' := ConsumerStep(Exact, cap, s).value;
    assert CellOk(cap, s, s.readIndex);
    OtherCells(cap, s, s', s.readIndex);
    SteadyProducers(cap, s, s', None);
    OwnersKept(s, s');
  }

  lemma DestroyInv<T>(cap: nat, s: State<T>)
    requires Inv(cap, s) && s.consumer.Destroy?
    ensures Inv(cap, ConsumerStep(Exact, cap, s).value)
  {
    var s' := ConsumerStep(Exact, cap, s).value;
    assert CellOk(cap, s, s.readIndex);
    OtherCells(cap, s, s', s.readIndex);
    SteadyProducers(cap, s, s', None);
    OwnersKept(s, s');
  }

  lemma StoreIndexInv<T>(cap: nat, s: State<T>)
    requires Inv(cap, s) && s.consumer.StoreIndex?
    ensures Inv(cap, ConsumerStep(Exact, cap, s).value)
  {
    var s' := ConsumerStep(Exact, cap, s).value;
    SameCells(cap, s, s');
    SteadyProducers(cap, s, s', None);
    OwnersKept(s, s');
  }

  lemma ReleaseInv<T>(cap: nat, s: State<T>)
    requires Inv(cap, s) && s.consumer.Release?
    ensures Inv(cap, ConsumerStep(Exact, cap, s).value)
  {
    var r := s.consumer.read;
    var s' := ConsumerStep(Exact, cap, s).value;
    assert CellOk(cap, s, r);
    NextLap(r, cap);
    forall p: nat | r + 1 <= p < r + 1 + cap ensures CellOk(cap, s', p) {
      if p < r + cap {
        assert CellOk(cap, s, p);
        DistinctCells(p, r, cap);
      }
    }
    SteadyProducers(cap, s, s', None);
    OwnersKept(s, s');
  }

  lemma ConsumerInv<T>(cap: nat, s: State<T>)
    requires Inv(cap, s) && 2 <= cap && ConsumerStep(Exact, cap, s).Some?
    ensures Inv(cap, ConsumerStep(Exact, cap, s).value)
  {
    match s.consumer
    case Resting =>
    case LoadCell(_, _) => LoadCellInv(cap, s);
    case Move(_) => MoveInv(cap, s);
    case Destroy(_, _) => DestroyInv(cap, s);
    case StoreIndex(_, _) => StoreIndexInv(cap, s);
    case Release(_, _) => ReleaseInv(cap, s);
  }

  /** Every step keeps the invariant. */
  lemma StepInv<T>(cap: nat, s: State<T>, a: Action<T>)
    requires Inv(cap, s) && 2 <= cap && Step(Exact, cap, s, a).Some?
    ensures Inv(cap, Step(Exact, cap, s, a).value)
  {
    match a
    case StartEmplace(t, v) => PureStep(cap, s, t, LoadIndex(v));
    case StartFull(t) => PureStep(cap, s, t, FullLoadIndex);
    case Advance(t) => ProducerInv(cap, s, t);
    case SpuriousFailure(t) => SpuriousInv(cap, s, t);
    case StartPop => ConsumerPureStep(cap, s, LoadCell(s.readIndex, false));
    case StartClear => ConsumerPureStep(cap, s, LoadCell(s.readIndex, true));
    case AdvanceConsumer => ConsumerInv(cap, s);
  }

  lemma {:induction false} RunInv<T>(cap: nat, s: State<T>, actions: seq<Action<T>>)
    requires Inv(cap, s) && 2 <= cap && Run(Exact, cap, s, actions).Some?
    ensures Inv(cap, Run(Exact, cap, s, actions).value)
    decreases |actions|
  {
    if actions != [] {
      StepInv(cap, s, actions[0]);
      RunInv(cap, Step(Exact, cap, s, actions[0]).value, actions[1..]);
    }
  }
}
