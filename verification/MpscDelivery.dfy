/** No claimed value can be lost for good: from every reachable state the claims already made can all be delivered. */
module MpscDelivery {
  import opened Wrappers
  import opened Slots
  import opened MpscModel
  import opened MpscInvariant
  import opened MpscTheorems

  function StepsLeft(stage: Stage): nat {
    match stage case Claimed => 2 case Built => 1 case Published => 0
  }

  /** Producer steps until every claim is published. */
  function Work<T>(log: seq<Entry<T>>): nat {
    if log == [] then 0 else StepsLeft(log[0].stage) + Work(log[1..])
  }

  lemma {:induction false} WorkMark<T>(log: seq<Entry<T>>, p: nat, stage: Stage)
    requires p < |log|
    ensures Work(Mark(log, p, stage)) + StepsLeft(log[p].stage) == Work(log) + StepsLeft(stage)
  {
    if p == 0 {
      assert Mark(log, p, stage)[1..] == log[1..];
    } else {
      assert Mark(log, p, stage)[1..] == Mark(log[1..], p - 1, stage);
      WorkMark(log[1..], p - 1, stage);
    }
  }

  ghost predicate AllPublished<T>(log: seq<Entry<T>>) {
    forall p | 0 <= p < |log| :: log[p].stage == Published
  }

  predicate Delivered<T>(s: State<T>) {
    s.consumer.Resting? && s.readIndex == s.writeIndex
  }

  /** Consumer steps until everything claimed has left. */
  function Distance<T>(s: State<T>): int {
    7 * (s.writeIndex - s.readIndex) +
    match s.consumer
    case Resting => if s.readIndex == s.writeIndex then 0 else 6
    case LoadCell(_, _) => 5
    case Move(_) => 4
    case Destroy(_, _) => 3
    case StoreIndex(_, _) => 2
    case Release(_, _) => 8
  }

  /** The producer holding an unpublished claim can take its next step, and that step is progress. */
  lemma OwnerAdvances<T>(cap: nat, s: State<T>, p: nat)
    requires Inv(cap, s) && p < |s.log| && s.log[p].stage != Published
    ensures var r := Step(Exact, cap, s, Advance(s.log[p].owner));
            r.Some? && Work(r.value.log) < Work(s.log) && Values(r.value.log) == Values(s.log)
  {
    var stage := if s.log[p].stage == Claimed then Built else Published;
    OwnerMarks(s, p, cap);
    WorkMark(s.log, p, stage);
    assert Values(Mark(s.log, p, stage)) == Values(s.log);
  }

  lemma OwnerMarks<T>(s: State<T>, p: nat, cap: nat)
    requires Shape(cap, s) && Owners(s) && p < |s.log| && s.log[p].stage != Published
    ensures var r := Step(Exact, cap, s, Advance(s.log[p].owner));
            r.Some? && r.value.log == Mark(s.log, p, if s.log[p].stage == Claimed then Built else Published)
  {
    assert OwnerOk(s, p);
  }

  /** With every claim published the consumer always gets nearer. */
  lemma ConsumerAdvances<T>(cap: nat, s: State<T>)
    requires Inv(cap, s) && 2 <= cap && AllPublished(s.log) && !Delivered(s)
    ensures var r := Step(Exact, cap, s, if s.consumer.Resting? then StartPop else AdvanceConsumer);
            r.Some? && 0 <= Distance(r.value) < Distance(s) && r.value.log == s.log
  {
    var a: Action<T> := if s.consumer.Resting? then StartPop else AdvanceConsumer;
    StepInv(cap, s, a);
    if s.consumer.LoadCell? { PopMissIsExact(cap, s); }
  }

  /** Steps that start no new push: those of producers inside a call, and the consumer's. */
  predicate NoNewPush<T>(actions: seq<Action<T>>) {
    forall i | 0 <= i < |actions| :: actions[i].Advance? || actions[i].StartPop? || actions[i].AdvanceConsumer?
  }

  /**
   From every reachable state, letting the producers that hold claims finish and the consumer pop delivers
   exactly the values claimed so far, in claim order: no interleaving leads to a lost value or a deadlock.
   */
  lemma {:induction false} ClaimsCanBeDelivered<T>(cap: nat, s: State<T>) returns (actions: seq<Action<T>>)
    requires Inv(cap, s) && 2 <= cap
    ensures NoNewPush(actions) && Run(Exact, cap, s, actions).Some?
    ensures var e := Run(Exact, cap, s, actions).value;
            Delivered(e) && Values(e.log) == Values(s.log) && ExitValues(e.exits) == Values(s.log)
    decreases Work(s.log), Distance(s)
  {
    if Delivered(s) && AllPublished(s.log) {
      actions := [];
      InvGivesPrefix(cap, s);
    } else {
      var a: Action<T>;
      if p :| 0 <= p < |s.log| && s.log[p].stage != Published {
        a := Advance(s.log[p].owner);
        OwnerAdvances(cap, s, p);
      } else {
        a := if s.consumer.Resting? then StartPop else AdvanceConsumer;
        ConsumerAdvances(cap, s);
      }
      StepInv(cap, s, a);
      var rest := ClaimsCanBeDelivered(cap, Step(Exact, cap, s, a).value);
      FirstStep(Exact, cap, s, a, rest);
      actions := [a] + rest;
    }
  }
}
