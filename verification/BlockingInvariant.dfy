/** The counting invariant of the blocking queues. */
module BlockingInvariant {
  import opened Wrappers
  import opened ClosableFifo
  import opened BlockingModel

  /** Where a thread is, as far as wakeups are concerned. */
  datatype Place =
    | Elsewhere
    | ParkedPut | WokenPut | ParkedGet | WokenGet
    | OweNotEmpty | OweNotFull | CloseNotEmpty | CloseNotFull

  function PlaceOf<T>(p: Thread<T>): Place {
    match p
    case Idle(_) => Elsewhere
    case Entering(_) => Elsewhere
    case PutParked(_) => ParkedPut
    case PutWoken(_) => WokenPut
    case GetParked => ParkedGet
    case GetWoken => WokenGet
    case OwesNotEmpty => OweNotEmpty
    case OwesNotFull(_) => OweNotFull
    case ClosingNotEmpty => CloseNotEmpty
    case ClosingNotFull => CloseNotFull
  }

  function Places<T>(threads: seq<Thread<T>>): seq<Place> {
    seq(|threads|, i requires 0 <= i < |threads| => PlaceOf(threads[i]))
  }

  function Total(place: Place, places: seq<Place>): int {
    if places == [] then 0 else (if places[0] == place then 1 else 0) + Total(place, places[1..])
  }

  /** How many threads are in each place. */
  datatype Census = Census(
    parkedPut: int, wokenPut: int, parkedGet: int, wokenGet: int,
    oweNotEmpty: int, oweNotFull: int, closeNotEmpty: int, closeNotFull: int)

  function CensusOfPlaces(places: seq<Place>): Census {
    Census(Total(ParkedPut, places), Total(WokenPut, places), Total(ParkedGet, places), Total(WokenGet, places),
           Total(OweNotEmpty, places), Total(OweNotFull, places), Total(CloseNotEmpty, places), Total(CloseNotFull, places))
  }

  function CensusOf<T>(threads: seq<Thread<T>>): Census {
    CensusOfPlaces(Places(threads))
  }

  function Without(y: Census, p: Place): Census {
    match p
    case Elsewhere => y
    case ParkedPut => y.(parkedPut := y.parkedPut - 1)
    case WokenPut => y.(wokenPut := y.wokenPut - 1)
    case ParkedGet => y.(parkedGet := y.parkedGet - 1)
    case WokenGet => y.(wokenGet := y.wokenGet - 1)
    case OweNotEmpty => y.(oweNotEmpty := y.oweNotEmpty - 1)
    case OweNotFull => y.(oweNotFull := y.oweNotFull - 1)
    case CloseNotEmpty => y.(closeNotEmpty := y.closeNotEmpty - 1)
    case CloseNotFull => y.(closeNotFull := y.closeNotFull - 1)
  }

  function With(y: Census, p: Place): Census {
    match p
    case Elsewhere => y
    case ParkedPut => y.(parkedPut := y.parkedPut + 1)
    case WokenPut => y.(wokenPut := y.wokenPut + 1)
    case ParkedGet => y.(parkedGet := y.parkedGet + 1)
    case WokenGet => y.(wokenGet := y.wokenGet + 1)
    case OweNotEmpty => y.(oweNotEmpty := y.oweNotEmpty + 1)
    case OweNotFull => y.(oweNotFull := y.oweNotFull + 1)
    case CloseNotEmpty => y.(closeNotEmpty := y.closeNotEmpty + 1)
    case CloseNotFull => y.(closeNotFull := y.closeNotFull + 1)
  }

  function CountAt(y: Census, p: Place): int {
    match p
    case Elsewhere => 0
    case ParkedPut => y.parkedPut
    case WokenPut => y.wokenPut
    case ParkedGet => y.parkedGet
    case WokenGet => y.wokenGet
    case OweNotEmpty => y.oweNotEmpty
    case OweNotFull => y.oweNotFull
    case CloseNotEmpty => y.closeNotEmpty
    case CloseNotFull => y.closeNotFull
  }

  predicate NonNegative(y: Census) {
    0 <= y.parkedPut && 0 <= y.wokenPut && 0 <= y.parkedGet && 0 <= y.wokenGet
    && 0 <= y.oweNotEmpty && 0 <= y.oweNotFull && 0 <= y.closeNotEmpty && 0 <= y.closeNotFull
  }

  lemma {:induction false} TotalPut(place: Place, places: seq<Place>, t: nat, p: Place)
    requires t < |places|
    ensures Total(place, places[t := p]) ==
            Total(place, places) - (if places[t] == place then 1 else 0) + (if p == place then 1 else 0)
  {
    if t == 0 {
      assert places[t := p][1..] == places[1..];
    } else {
      assert places[t := p][1..] == places[1..][t - 1 := p];
      TotalPut(place, places[1..], t - 1, p);
    }
  }

  lemma {:induction false} TotalIsCount(place: Place, places: seq<Place>)
    ensures Total(place, places) >= 0
    ensures Total(place, places) > 0 <==> place in places
  {
    if places != [] { TotalIsCount(place, places[1..]); }
  }

  /** Moving one thread takes it out of its place and puts it into the new one. */
  lemma CensusPut<T>(threads: seq<Thread<T>>, t: nat, p: Thread<T>)
    requires t < |threads|
    ensures CensusOf(threads[t := p]) == With(Without(CensusOf(threads), PlaceOf(threads[t])), PlaceOf(p))
    ensures NonNegative(Without(CensusOf(threads), PlaceOf(threads[t])))
  {
    var places := Places(threads);
    assert Places(threads[t := p]) == places[t := PlaceOf(p)];
    PlacesPut(places, t, PlaceOf(p));
    PlacesNonNegative(places, t);
  }

  lemma PlacesPut(places: seq<Place>, t: nat, p: Place)
    requires t < |places|
    ensures CensusOfPlaces(places[t := p]) == With(Without(CensusOfPlaces(places), places[t]), p)
  {
    TotalPut(ParkedPut, places, t, p);
    TotalPut(WokenPut, places, t, p);
    TotalPut(ParkedGet, places, t, p);
    TotalPut(WokenGet, places, t, p);
    TotalPut(OweNotEmpty, places, t, p);
    TotalPut(OweNotFull, places, t, p);
    TotalPut(CloseNotEmpty, places, t, p);
    TotalPut(CloseNotFull, places, t, p);
  }

  lemma {:induction false} TotalCovers(place: Place, places: seq<Place>, t: nat)
    requires t < |places|
    ensures (if places[t] == place then 1 else 0) <= Total(place, places)
  {
    TotalIsCount(place, places[1..]);
    if t > 0 { TotalCovers(place, places[1..], t - 1); }
  }

  lemma PlacesNonNegative(places: seq<Place>, t: nat)
    requires t < |places|
    ensures NonNegative(Without(CensusOfPlaces(places), places[t]))
  {
    TotalCovers(ParkedPut, places, t);
    TotalCovers(WokenPut, places, t);
    TotalCovers(ParkedGet, places, t);
    TotalCovers(WokenGet, places, t);
    TotalCovers(OweNotEmpty, places, t);
    TotalCovers(OweNotFull, places, t);
    TotalCovers(CloseNotEmpty, places, t);
    TotalCovers(CloseNotFull, places, t);
    RemoveOne(CensusOfPlaces(places), places[t]);
  }

  /** Taking one away from a place that holds one leaves no negative count. */
  lemma RemoveOne(y: Census, p: Place)
    requires NonNegative(y) && (p != Elsewhere ==> CountAt(y, p) > 0)
    ensures NonNegative(Without(y, p))
  {
    match p
    case Elsewhere =>
    case ParkedPut =>
    case WokenPut =>
    case ParkedGet =>
    case WokenGet =>
    case OweNotEmpty =>
    case OweNotFull =>
    case CloseNotEmpty =>
    case CloseNotFull =>
  }

  lemma NobodyAt<T>(place: Place, threads: seq<Thread<T>>)
    requires place != Elsewhere
    requires forall u | 0 <= u < |threads| :: PlaceOf(threads[u]) != place
    ensures CountAt(CensusOf(threads), place) == 0
  {
    TotalIsCount(place, Places(threads));
  }

  lemma SomebodyAt<T>(place: Place, threads: seq<Thread<T>>) returns (t: nat)
    requires CountAt(CensusOf(threads), place) > 0
    ensures t < |threads| && PlaceOf(threads[t]) == place
  {
    TotalIsCount(place, Places(threads));
    t :| t < |threads| && Places(threads)[t] == place;
  }

  /** The places after everybody at `from` has moved to `to`. */
  function Replaced(places: seq<Place>, from: Place, to: Place): (after: seq<Place>)
    ensures |after| == |places|
    ensures forall i | 0 <= i < |places| :: after[i] == if places[i] == from then to else places[i]
  {
    if places == [] then []
    else [if places[0] == from then to else places[0]] + Replaced(places[1..], from, to)
  }

  lemma {:induction false} TotalReplaced(place: Place, places: seq<Place>, from: Place, to: Place)
    requires from != to
    ensures Total(place, Replaced(places, from, to)) ==
            if place == from then 0
            else if place == to then Total(to, places) + Total(from, places)
            else Total(place, places)
  {
    if places != [] {
      var after := Replaced(places, from, to);
      assert after[1..] == Replaced(places[1..], from, to);
      TotalReplaced(place, places[1..], from, to);
    }
  }

  lemma CensusReplaced(places: seq<Place>, from: Place, to: Place)
    requires (from == ParkedGet && to == WokenGet) || (from == ParkedPut && to == WokenPut)
    ensures var y, z := CensusOfPlaces(places), CensusOfPlaces(Replaced(places, from, to));
            z == if from == ParkedGet then y.(parkedGet := 0, wokenGet := y.wokenGet + y.parkedGet)
                 else y.(parkedPut := 0, wokenPut := y.wokenPut + y.parkedPut)
  {
    TotalReplaced(ParkedPut, places, from, to);
    TotalReplaced(WokenPut, places, from, to);
    TotalReplaced(ParkedGet, places, from, to);
    TotalReplaced(WokenGet, places, from, to);
    TotalReplaced(OweNotEmpty, places, from, to);
    TotalReplaced(OweNotFull, places, from, to);
    TotalReplaced(CloseNotEmpty, places, from, to);
    TotalReplaced(CloseNotFull, places, from, to);
  }

  lemma PlacesOfWokenGetters<T>(threads: seq<Thread<T>>)
    ensures Places(WakeGetters(threads)) == Replaced(Places(threads), ParkedGet, WokenGet)
  {
    var woken, after := WakeGetters(threads), Replaced(Places(threads), ParkedGet, WokenGet);
    assert |Places(woken)| == |after|;
    forall i | 0 <= i < |threads| ensures Places(woken)[i] == after[i] {
      assert woken[i] == if threads[i].GetParked? then GetWoken else threads[i];
    }
  }

  lemma PlacesOfWokenPutters<T>(threads: seq<Thread<T>>)
    ensures Places(WakePutters(threads)) == Replaced(Places(threads), ParkedPut, WokenPut)
  {
    var woken, after := WakePutters(threads), Replaced(Places(threads), ParkedPut, WokenPut);
    assert |Places(woken)| == |after|;
    forall i | 0 <= i < |threads| ensures Places(woken)[i] == after[i] {
      assert woken[i] == if threads[i].PutParked? then PutWoken(threads[i].value) else threads[i];
    }
  }

  /** `notify_all` on `not_empty_` turns every parked consumer into a woken one and moves nobody else. */
  lemma CensusWakeGetters<T>(threads: seq<Thread<T>>)
    ensures var y := CensusOf(threads);
            CensusOf(WakeGetters(threads)) == y.(parkedGet := 0, wokenGet := y.wokenGet + y.parkedGet)
  {
    CensusReplaced(Places(threads), ParkedGet, WokenGet);
    PlacesOfWokenGetters(threads);
  }

  /** `notify_all` on `not_full_` turns every parked producer into a woken one and moves nobody else. */
  lemma CensusWakePutters<T>(threads: seq<Thread<T>>)
    ensures var y := CensusOf(threads);
            CensusOf(WakePutters(threads)) == y.(parkedPut := 0, wokenPut := y.wokenPut + y.parkedPut)
  {
    CensusReplaced(Places(threads), ParkedPut, WokenPut);
    PlacesOfWokenPutters(threads);
  }

  /** No wakeup is lost. */
  predicate Balanced(cap: Capacity, size: nat, closed: bool, y: Census) {
    // a consumer parked with elements present is owed a wakeup for each of them
    && (y.parkedGet > 0 ==> size <= y.oweNotEmpty + y.wokenGet)
    // a producer parked with room left is owed a wakeup for each free place
    && (y.parkedPut > 0 && !closed && cap.Some? ==> cap.value - size <= y.oweNotFull + y.wokenPut)
    // after close a parked thread is owed a notify_all, and before close nobody owes one
    && (closed && y.parkedGet > 0 ==> y.closeNotEmpty > 0)
    && (closed && y.parkedPut > 0 ==> y.closeNotEmpty + y.closeNotFull > 0)
    && (!closed ==> y.closeNotEmpty == y.closeNotFull == 0)
    // in an unbounded queue nobody waits for room or owes news of it
    && (cap.None? ==> y.parkedPut == y.wokenPut == y.oweNotFull == y.closeNotFull == 0)
    && NonNegative(y)
  }

  predicate ValidCapacity(cap: Capacity) {
    cap.Some? ==> 0 < cap.value
  }

  ghost predicate Inv<T>(cap: Capacity, s: State<T>) {
    && ValidCapacity(cap) && (cap.Some? ==> |s.queue| <= cap.value)
    && Balanced(cap, |s.queue|, s.closed, CensusOf(s.threads))
  }

  lemma InitInv<T>(cap: Capacity, threads: nat)
    requires ValidCapacity(cap)
    ensures Inv(cap, Init<T>(threads))
  {
    NobodyAt(ParkedPut, Init<T>(threads).threads);
    NobodyAt(WokenPut, Init<T>(threads).threads);
    NobodyAt(ParkedGet, Init<T>(threads).threads);
    NobodyAt(WokenGet, Init<T>(threads).threads);
    NobodyAt(OweNotEmpty, Init<T>(threads).threads);
    NobodyAt(OweNotFull, Init<T>(threads).threads);
    NobodyAt(CloseNotEmpty, Init<T>(threads).threads);
    NobodyAt(CloseNotFull, Init<T>(threads).threads);
  }

  lemma PushInv<T>(cap: Capacity, s: State<T>, t: nat, v: T)
    requires Inv(cap, s) && t < |s.threads| && !s.closed && HasRoom(cap, |s.queue|)
    requires s.threads[t].Entering? || s.threads[t].PutWoken?
    ensures Inv(cap, Push(s, t, v))
  {
    CensusPut(s.threads, t, OwesNotEmpty);
  }

  lemma TakeInv<T>(cap: Capacity, s: State<T>, t: nat)
    requires Inv(cap, s) && t < |s.threads| && s.queue != []
    requires s.threads[t].Entering? || s.threads[t].GetWoken?
    ensures Inv(cap, Take(cap, s, t))
  {
    CensusPut(s.threads, t, Take(cap, s, t).threads[t]);
  }

  lemma PutSectionInv<T>(cap: Capacity, s: State<T>, t: nat, v: T)
    requires Inv(cap, s) && t < |s.threads| && (s.threads[t] == Entering(Emplace(v)) || s.threads[t] == PutWoken(v))
    ensures Inv(cap, PutSection(cap, s, t, v))
  {
    if s.closed {
      CensusPut(s.threads, t, Idle(Threw));
    } else if HasRoom(cap, |s.queue|) {
      PushInv(cap, s, t, v);
    } else {
      CensusPut(s.threads, t, PutParked(v));
    }
  }

  lemma GetSectionInv<T>(cap: Capacity, s: State<T>, t: nat)
    requires Inv(cap, s) && t < |s.threads| && (s.threads[t] == Entering(WaitAndPop) || s.threads[t].GetWoken?)
    ensures Inv(cap, GetSection(cap, s, t))
  {
    if s.queue != [] {
      TakeInv(cap, s, t);
    } else if s.closed {
      CensusPut(s.threads, t, Idle(Drained));
    } else {
      CensusPut(s.threads, t, GetParked);
    }
  }

  lemma TrySectionInv<T>(cap: Capacity, s: State<T>, t: nat)
    requires Inv(cap, s) && t < |s.threads| && s.threads[t].Entering?
    requires s.threads[t].call.TryEmplace? || s.threads[t].call.TryPop? || s.threads[t].call.Close?
    ensures Inv(cap, SectionStep(cap, s, t).value)
  {
    match s.threads[t].call
    case TryEmplace(v) =>
      if s.closed || !HasRoom(cap, |s.queue|) { CensusPut(s.threads, t, Idle(Refused)); } else { PushInv(cap, s, t, v); }
    case TryPop =>
      if s.queue == [] { CensusPut(s.threads, t, Idle(Missed)); } else { TakeInv(cap, s, t); }
    case Close => CensusPut(s.threads, t, ClosingNotEmpty);
    case _ =>
  }

  lemma SectionInv<T>(cap: Capacity, s: State<T>, t: nat)
    requires Inv(cap, s) && t < |s.threads| && SectionStep(cap, s, t).Some?
    ensures Inv(cap, SectionStep(cap, s, t).value)
  {
    match s.threads[t]
    case Entering(Emplace(v)) => PutSectionInv(cap, s, t, v);
    case PutWoken(v) => PutSectionInv(cap, s, t, v);
    case Entering(WaitAndPop) => GetSectionInv(cap, s, t);
    case GetWoken => GetSectionInv(cap, s, t);
    case Entering(_) => TrySectionInv(cap, s, t);
    case _ =>
  }

  /** Waking thread `u` and moving thread `t`, one after the other. */
  lemma CensusPutTwo<T>(threads: seq<Thread<T>>, u: nat, q: Thread<T>, t: nat, p: Thread<T>)
    requires u < |threads| && t < |threads| && t != u
    ensures var y := With(Without(CensusOf(threads), PlaceOf(threads[u])), PlaceOf(q));
            && NonNegative(Without(CensusOf(threads), PlaceOf(threads[u]))) && NonNegative(Without(y, PlaceOf(threads[t])))
            && CensusOf(threads[u := q][t := p]) == With(Without(y, PlaceOf(threads[t])), PlaceOf(p))
  {
    CensusPut(threads, u, q);
    CensusPut(threads[u := q], t, p);
  }

  /** `notify_one` on `not_empty_` that reaches a parked consumer. */
  lemma NotifyGetterInv<T>(cap: Capacity, s: State<T>, t: nat, u: nat)
    requires Inv(cap, s) && t < |s.threads| && s.threads[t].OwesNotEmpty? && u < |s.threads| && s.threads[u].GetParked?
    ensures Inv(cap, Put(Put(s, u, GetWoken), t, Idle(Pushed)))
  {
    CensusPutTwo(s.threads, u, GetWoken, t, Idle(Pushed));
  }

  /** `notify_one` on `not_full_` that reaches a parked producer. */
  lemma NotifyPutterInv<T>(cap: Capacity, s: State<T>, t: nat, u: nat)
    requires Inv(cap, s) && t < |s.threads| && s.threads[t].OwesNotFull? && u < |s.threads| && s.threads[u].PutParked?
    ensures Inv(cap, Put(Put(s, u, Wake(s.threads[u])), t, Idle(Popped(s.threads[t].value))))
  {
    CensusPutTwo(s.threads, u, Wake(s.threads[u]), t, Idle(Popped(s.threads[t].value)));
  }

  /** `notify_one` with nobody parked. */
  lemma NotifyNobodyInv<T>(cap: Capacity, s: State<T>, t: nat)
    requires Inv(cap, s) && t < |s.threads| && NotifyStep(s, t, None).Some?
    ensures Inv(cap, NotifyStep(s, t, None).value)
  {
    NobodyAt(if s.threads[t].OwesNotEmpty? then ParkedGet else ParkedPut, s.threads);
    CensusPut(s.threads, t, NotifyStep(s, t, None).value.threads[t]);
  }

  lemma NotifyInv<T>(cap: Capacity, s: State<T>, t: nat, target: Option<nat>)
    requires Inv(cap, s) && t < |s.threads| && NotifyStep(s, t, target).Some?
    ensures Inv(cap, NotifyStep(s, t, target).value)
  {
    if target.None? {
      NotifyNobodyInv(cap, s, t);
    } else if s.threads[t].OwesNotEmpty? {
      NotifyGetterInv(cap, s, t, target.value);
    } else {
      NotifyPutterInv(cap, s, t, target.value);
    }
  }

  lemma NotifyAllGettersInv<T>(cap: Capacity, s: State<T>, t: nat)
    requires Inv(cap, s) && t < |s.threads| && s.threads[t].ClosingNotEmpty?
    ensures Inv(cap, NotifyAllStep(cap, s, t).value)
  {
    CensusWakeGetters(s.threads);
    CensusPut(WakeGetters(s.threads), t, if cap.Some? then ClosingNotFull else Idle(Closed));
  }

  lemma NotifyAllPuttersInv<T>(cap: Capacity, s: State<T>, t: nat)
    requires Inv(cap, s) && t < |s.threads| && s.threads[t].ClosingNotFull?
    ensures Inv(cap, NotifyAllStep(cap, s, t).value)
  {
    CensusWakePutters(s.threads);
    CensusPut(WakePutters(s.threads), t, Idle(Closed));
  }

  lemma NotifyAllInv<T>(cap: Capacity, s: State<T>, t: nat)
    requires Inv(cap, s) && t < |s.threads| && NotifyAllStep(cap, s, t).Some?
    ensures Inv(cap, NotifyAllStep(cap, s, t).value)
  {
    if s.threads[t].ClosingNotEmpty? { NotifyAllGettersInv(cap, s, t); } else { NotifyAllPuttersInv(cap, s, t); }
  }

  lemma StartInv<T>(cap: Capacity, s: State<T>, t: nat, call: Call<T>)
    requires Inv(cap, s) && t < |s.threads| && s.threads[t].Idle?
    ensures Inv(cap, Put(s, t, Entering(call)))
  {
    CensusPut(s.threads, t, Entering(call));
  }

  /** A spurious wakeup only adds to the woken threads. */
  lemma SpuriousInv<T>(cap: Capacity, s: State<T>, t: nat)
    requires Inv(cap, s) && t < |s.threads| && (s.threads[t].PutParked? || s.threads[t].GetParked?)
    ensures Inv(cap, Put(s, t, Wake(s.threads[t])))
  {
    CensusPut(s.threads, t, Wake(s.threads[t]));
  }

  /** Every step keeps the invariant: notifying after the unlock loses no wakeup. */
  lemma StepInv<T>(cap: Capacity, s: State<T>, a: Action<T>)
    requires Inv(cap, s) && Step(cap, s, a).Some?
    ensures Inv(cap, Step(cap, s, a).value)
  {
    match a
    case Section(t) => SectionInv(cap, s, t);
    case Notify(t, target) => NotifyInv(cap, s, t, target);
    case NotifyAll(t) => NotifyAllInv(cap, s, t);
    case Start(t, call) => StartInv(cap, s, t, call);
    case Spurious(t) => SpuriousInv(cap, s, t);
  }

  lemma {:induction false} RunInv<T>(cap: Capacity, s: State<T>, actions: seq<Action<T>>)
    requires Inv(cap, s) && Run(cap, s, actions).Some?
    ensures Inv(cap, Run(cap, s, actions).value)
    decreases |actions|
  {
    if actions != [] {
      StepInv(cap, s, actions[0]);
      RunInv(cap, Step(cap, s, actions[0]).value, actions[1..]);
    }
  }
}
