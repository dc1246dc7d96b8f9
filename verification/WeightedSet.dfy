/**
 `weighted_set`: a map from values to positive 64-bit weights with a cached total, and selection by a
 cumulative scan in the map's iteration order.
 */
module WeightedSet {
  import opened Wrappers

  const TWO_TO_64: int := 0x1_0000_0000_0000_0000
  const MAX_WEIGHT: int := TWO_TO_64 - 1

  /** `std::uint64_t` */
  type Weight = x: int | 0 <= x < TWO_TO_64

  function WrapAdd(a: Weight, b: Weight): Weight {
    (a + b) % TWO_TO_64
  }

  function WrapSub(a: Weight, b: Weight): Weight {
    (a - b) % TWO_TO_64
  }

  datatype Error = ZeroWeight | TotalOverflow | NotContained | NothingToChoose

  // ---- Exact sums ----

  ghost function Sum<T(!new)>(m: map<T, Weight>): nat {
    if m == map[] then 0
    else
      var k :| k in m;
      m[k] + Sum(m - {k})
  }

  lemma {:induction false} SumSplit<T(!new)>(m: map<T, Weight>, k: T)
    requires k in m
    ensures Sum(m) == m[k] + Sum(m - {k})
    decreases |m|
  {
    var c :| c in m && Sum(m) == m[c] + Sum(m - {c});
    if c != k {
      SumSplit(m - {c}, k);
      SumSplit(m - {k}, c);
      assert m - {c} - {k} == m - {k} - {c};
    }
  }

  lemma SumAdd<T(!new)>(m: map<T, Weight>, k: T, w: Weight)
    requires k !in m
    ensures Sum(m[k := w]) == Sum(m) + w
  {
    SumSplit(m[k := w], k);
    assert m[k := w] - {k} == m;
  }

  lemma SumReplace<T(!new)>(m: map<T, Weight>, k: T, w: Weight)
    requires k in m
    ensures Sum(m[k := w]) == Sum(m) - m[k] + w
  {
    SumSplit(m, k);
    SumSplit(m[k := w], k);
    assert m[k := w] - {k} == m - {k};
  }

  // ---- What each operation promises, on exact sums ----

  datatype Op<T> = Insert(value: T, weight: Weight) | Erase(value: T) | SetWeight(value: T, weight: Weight) | Clear

  /** A set that never holds a zero weight and whose exact total fits in 64 bits. */
  ghost predicate Fits<T(!new)>(m: map<T, Weight>) {
    (forall k | k in m :: 0 < m[k]) && Sum(m) <= MAX_WEIGHT
  }

  /** Rejection: a zero weight, or a new exact total that does not fit. */
  ghost function Reply<T(!new)>(m: map<T, Weight>, op: Op<T>): Result<bool, Error> {
    match op
    case Insert(v, w) =>
      if w == 0 then Failure(ZeroWeight)
      else if v in m then Success(false)
      else if Sum(m) + w > MAX_WEIGHT then Failure(TotalOverflow)
      else Success(true)
    case Erase(v) => Success(v in m)
    case SetWeight(v, w) =>
      if w == 0 then Failure(ZeroWeight)
      else if v !in m then Success(false)
      else if Sum(m) - m[v] + w > MAX_WEIGHT then Failure(TotalOverflow)
      else Success(true)
    case Clear => Success(true)
  }

  /** A rejected call, and one that answers false, changes nothing. */
  ghost function Next<T(!new)>(m: map<T, Weight>, op: Op<T>): map<T, Weight> {
    if Reply(m, op) != Success(true) then m
    else
      match op
      case Insert(v, w) => m[v := w]
      case Erase(v) => m - {v}
      case SetWeight(v, w) => m[v := w]
      case Clear => map[]
  }

  lemma NextFits<T(!new)>(m: map<T, Weight>, op: Op<T>)
    requires Fits(m)
    ensures Fits(Next(m, op))
  {
    if Reply(m, op) == Success(true) {
      match op
      case Insert(v, w) => SumAdd(m, v, w);
      case Erase(v) => SumSplit(m, v);
      case SetWeight(v, w) => SumReplace(m, v, w);
      case Clear =>
    }
  }

  ghost function After<T(!new)>(m: map<T, Weight>, ops: seq<Op<T>>): map<T, Weight>
    decreases |ops|
  {
    if ops == [] then m else After(Next(m, ops[0]), ops[1..])
  }

  ghost function Replies<T(!new)>(m: map<T, Weight>, ops: seq<Op<T>>): seq<Result<bool, Error>>
    decreases |ops|
  {
    if ops == [] then [] else [Reply(m, ops[0])] + Replies(Next(m, ops[0]), ops[1..])
  }

  /** After any sequence of calls, rejected ones included, weights are positive and the exact total fits. */
  lemma {:induction false} RunFits<T(!new)>(m: map<T, Weight>, ops: seq<Op<T>>)
    requires Fits(m)
    ensures Fits(After(m, ops))
    decreases |ops|
  {
    if ops != [] {
      NextFits(m, ops[0]);
      RunFits(Next(m, ops[0]), ops[1..]);
    }
  }

  // ---- Selection ----

  /** An iteration order of the map: every key once. */
  ghost predicate Enumerates<T(!new)>(order: seq<T>, m: map<T, Weight>) {
    && (forall i, j | 0 <= i < j < |order| :: order[i] != order[j])
    && (forall k :: k in order <==> k in m)
  }

  function SumOver<T(==)>(order: seq<T>, m: map<T, Weight>): nat
    requires forall k | k in order :: k in m
  {
    if order == [] then 0 else m[order[0]] + SumOver(order[1..], m)
  }

  /** The value whose interval of the cumulative sums contains the target. */
  function Pick<T(==)>(order: seq<T>, m: map<T, Weight>, target: nat): (v: T)
    requires forall k | k in order :: k in m
    requires target < SumOver(order, m)
    ensures v in order
  {
    if target < m[order[0]] then order[0] else Pick(order[1..], m, target - m[order[0]])
  }

  lemma {:induction false} SumOverFrame<T>(order: seq<T>, m: map<T, Weight>, k: T)
    requires (forall x | x in order :: x in m) && k !in order
    ensures SumOver(order, m - {k}) == SumOver(order, m)
  {
    if order != [] { SumOverFrame(order[1..], m, k); }
  }

  /** The scan's last cumulative value is the exact total, whatever the iteration order. */
  lemma {:induction false} OrderDoesNotMatter<T(!new)>(order: seq<T>, m: map<T, Weight>)
    requires Enumerates(order, m)
    ensures SumOver(order, m) == Sum(m)
  {
    if order == [] {
      assert m == map[] by {
        forall k ensures k !in m { assert k in order <==> k in m; }
      }
    } else {
      var k, rest := order[0], order[1..];
      assert order == [k] + rest;
      assert k !in rest;
      assert Enumerates(rest, m - {k}) by {
        forall x ensures x in rest <==> x in m - {k} {
          assert x in order <==> x in m;
        }
      }
      OrderDoesNotMatter(rest, m - {k});
      SumOverFrame(rest, m, k);
      SumSplit(m, k);
    }
  }

  /** Targets below `n` for which the scan returns `v`. */
  ghost function TargetsBelow<T>(order: seq<T>, m: map<T, Weight>, v: T, n: nat): set<int>
    requires (forall k | k in order :: k in m) && n <= SumOver(order, m)
  {
    set t: int | 0 <= t < n && Pick(order, m, t) == v
  }

  /** Their number, counted one target at a time. */
  ghost function Hits<T>(order: seq<T>, m: map<T, Weight>, v: T, n: nat): nat
    requires (forall k | k in order :: k in m) && n <= SumOver(order, m)
  {
    if n == 0 then 0 else Hits(order, m, v, n - 1) + if Pick(order, m, n - 1) == v then 1 else 0
  }

  lemma {:induction false} HitsIsSize<T>(order: seq<T>, m: map<T, Weight>, v: T, n: nat)
    requires (forall k | k in order :: k in m) && n <= SumOver(order, m)
    ensures |TargetsBelow(order, m, v, n)| == Hits(order, m, v, n)
  {
    if n > 0 {
      HitsIsSize(order, m, v, n - 1);
      var before := TargetsBelow(order, m, v, n - 1);
      assert TargetsBelow(order, m, v, n) == if Pick(order, m, n - 1) == v then before + {n - 1} else before;
    }
  }

  /** The first value owns the targets below its weight; above them the scan goes on with the rest. */
  lemma {:induction false} HitsSplit<T>(order: seq<T>, m: map<T, Weight>, v: T, n: nat)
    requires order != [] && (forall k | k in order :: k in m) && n <= SumOver(order, m)
    ensures var w := m[order[0]];
            Hits(order, m, v, n) ==
            (if order[0] == v then (if n < w then n else w) else 0) + if n <= w then 0 else Hits(order[1..], m, v, n - w)
    decreases n
  {
    if n > 0 { HitsSplit(order, m, v, n - 1); }
  }

  /** Selection is exact: over the whole range, the targets that select `v` number its weight. */
  lemma {:induction false} HitsAreWeight<T>(order: seq<T>, m: map<T, Weight>, v: T)
    requires forall k | k in order :: k in m
    requires forall i, j | 0 <= i < j < |order| :: order[i] != order[j]
    ensures Hits(order, m, v, SumOver(order, m)) == if v in order then m[v] else 0
  {
    if order != [] {
      HitsSplit(order, m, v, SumOver(order, m));
      HitsAreWeight(order[1..], m, v);
      assert v in order <==> v == order[0] || v in order[1..];
    }
  }

  /** For every map, iteration order and value: the measure of the value is its weight in the total. */
  lemma SelectionIsExact<T(!new)>(order: seq<T>, m: map<T, Weight>, v: T)
    requires Enumerates(order, m)
    ensures SumOver(order, m) == Sum(m)
    ensures |TargetsBelow(order, m, v, Sum(m))| == if v in m then m[v] else 0
  {
    OrderDoesNotMatter(order, m);
    HitsIsSize(order, m, v, Sum(m));
    HitsAreWeight(order, m, v);
  }

  /** The scan before entry `i`: the entries passed sum to `cumulative`, and the target is not among them. */
  ghost predicate ScanAt<T>(order: seq<T>, m: map<T, Weight>, target: nat, i: nat, cumulative: nat) {
    && i <= |order| && (forall k | k in order :: k in m)
    && cumulative <= target < SumOver(order, m)
    && cumulative + SumOver(order[i..], m) == SumOver(order, m)
    && Pick(order, m, target) == Pick(order[i..], m, target - cumulative)
  }

  lemma ScanAdvances<T>(order: seq<T>, m: map<T, Weight>, target: nat, i: nat, cumulative: nat)
    requires ScanAt(order, m, target, i, cumulative)
    ensures i < |order| && cumulative + m[order[i]] <= SumOver(order, m)
    ensures target < cumulative + m[order[i]] ==> Pick(order, m, target) == order[i]
    ensures target >= cumulative + m[order[i]] ==> ScanAt(order, m, target, i + 1, cumulative + m[order[i]])
  {
    assert i < |order|;
    assert order[i..][0] == order[i] && order[i..][1..] == order[i + 1..];
  }

  // ---- What the operations do to a map, said of the maps alone ----

  /** The map has gained exactly `v`, with weight `w`. */
  ghost predicate Gains<T(!new)>(before: map<T, Weight>, after: map<T, Weight>, v: T, w: Weight) {
    && v !in before && v in after && after[v] == w
    && forall k | k != v :: (k in after <==> k in before) && (k in before ==> after[k] == before[k])
  }

  /** The map has lost exactly `v`. */
  ghost predicate Loses<T(!new)>(before: map<T, Weight>, after: map<T, Weight>, v: T) {
    && v in before && v !in after
    && forall k | k != v :: (k in after <==> k in before) && (k in before ==> after[k] == before[k])
  }

  /** The weight of `v` has become `w`, and nothing else has changed. */
  ghost predicate Reweighs<T(!new)>(before: map<T, Weight>, after: map<T, Weight>, v: T, w: Weight) {
    && v in before && v in after && after[v] == w
    && forall k | k != v :: (k in after <==> k in before) && (k in before ==> after[k] == before[k])
  }

  /** What an answer of `set_weight` says, read off the specification. */
  lemma SetWeightMeans<T(!new)>(m: map<T, Weight>, v: T, w: Weight)
    ensures var r, m' := Reply(m, Op.SetWeight(v, w)), Next(m, Op.SetWeight(v, w));
            && (r == Success(true) ==> Reweighs(m, m', v, w))
            && (r != Success(true) ==> m' == m)
            && (r == Failure(ZeroWeight) <==> w == 0)
            && (r == Success(false) <==> w > 0 && v !in m)
            && (r == Failure(TotalOverflow) <==> w > 0 && v in m && Sum(m) - m[v] + w >= TWO_TO_64)
            && (r == Success(true) <==> w > 0 && v in m && Sum(m) - m[v] + w < TWO_TO_64)
  {
  }

  // ---- The class ----

  class WeightedSet<T(==, !new)> {
    var weights: map<T, Weight>
    var total: Weight

    ghost predicate Valid()
      reads this
    {
      Fits(weights) && total == Sum(weights)
    }

    constructor ()
      ensures Valid() && weights == map[]
    {
      weights, total := map[], 0;
    }

    static method ValidateWeight(weight: Weight) returns (r: Option<Error>)
      ensures r == if weight == 0 then Some(ZeroWeight) else None
    {
      if weight == 0 { return Some(ZeroWeight); }
      r := None;
    }

    /** The guard computes without wrapping and refuses exactly the sums that do not fit. */
    method EnsureCanAdd(weight: Weight) returns (r: Option<Error>)
      requires Valid()
      ensures r == if Sum(weights) + weight > MAX_WEIGHT then Some(TotalOverflow) else None
    {
      if weight > WrapSub(MAX_WEIGHT, total) { return Some(TotalOverflow); }
      r := None;
    }

    method EnsureCanReplace(old_weight: Weight, new_weight: Weight) returns (r: Option<Error>)
      requires Valid() && old_weight <= total
      ensures r == if Sum(weights) - old_weight + new_weight > MAX_WEIGHT then Some(TotalOverflow) else None
    {
      var remaining := WrapSub(total, old_weight);
      if new_weight > WrapSub(MAX_WEIGHT, remaining) { return Some(TotalOverflow); }
      r := None;
    }

    method Insert(value: T, weight: Weight) returns (r: Result<bool, Error>)
      requires Valid()
      modifies this
      ensures Valid()
      ensures r == Reply(old(weights), Op.Insert(value, weight)) && weights == Next(old(weights), Op.Insert(value, weight))
      ensures r == Success(true) ==> Gains(old(weights), weights, value, weight) && total == old(total) + weight
      ensures r != Success(true) ==> weights == old(weights) && total == old(total)
      ensures r == Failure(ZeroWeight) <==> weight == 0
      ensures r == Success(false) <==> weight > 0 && value in old(weights)
      ensures r == Failure(TotalOverflow) <==> weight > 0 && value !in old(weights) && Sum(old(weights)) + weight >= TWO_TO_64
      ensures r == Success(true) <==> weight > 0 && value !in old(weights) && Sum(old(weights)) + weight < TWO_TO_64
    {
      NextFits(weights, Op.Insert(value, weight));
      var rejected := ValidateWeight(weight);
      if rejected.Some? { return Failure(rejected.value); }
      if value in weights { return Success(false); }
      rejected := EnsureCanAdd(weight);
      if rejected.Some? { return Failure(rejected.value); }
      SumAdd(weights, value, weight);
      AddFits(total, weight);
      weights := weights[value := weight];
      total := WrapAdd(total, weight);
      r := Success(true);
    }

    method Erase(value: T) returns (r: Result<bool, Error>)
      requires Valid()
      modifies this
      ensures Valid()
      ensures r == Reply(old(weights), Op.Erase(value)) && weights == Next(old(weights), Op.Erase(value))
      ensures r == Success(value in old(weights))
      ensures value in old(weights) ==> Loses(old(weights), weights, value) && total == old(total) - old(weights)[value]
      ensures value !in old(weights) ==> weights == old(weights) && total == old(total)
    {
      NextFits(weights, Op.Erase(value));
      if value !in weights { return Success(false); }
      SumSplit(weights, value);
      SubFits(total, weights[value]);
      total := WrapSub(total, weights[value]);
      weights := weights - {value};
      r := Success(true);
    }

    method SetWeight(value: T, weight: Weight) returns (r: Result<bool, Error>)
      requires Valid()
      modifies this
      ensures Valid()
      ensures r == Reply(old(weights), Op.SetWeight(value, weight)) && weights == Next(old(weights), Op.SetWeight(value, weight))
      ensures r == Success(true) ==>
                Reweighs(old(weights), weights, value, weight) && total == old(total) - old(weights)[value] + weight
      ensures r != Success(true) ==> weights == old(weights) && total == old(total)
      ensures r == Failure(ZeroWeight) <==> weight == 0
      ensures r == Success(false) <==> weight > 0 && value !in old(weights)
      ensures r == Failure(TotalOverflow) <==>
                weight > 0 && value in old(weights) && Sum(old(weights)) - old(weights)[value] + weight >= TWO_TO_64
      ensures r == Success(true) <==>
                weight > 0 && value in old(weights) && Sum(old(weights)) - old(weights)[value] + weight < TWO_TO_64
    {
      NextFits(weights, Op.SetWeight(value, weight));
      SetWeightMeans(weights, value, weight);
      var rejected := ValidateWeight(weight);
      if rejected.Some? { return Failure(rejected.value); }
      if value !in weights { return Success(false); }
      var previous := weights[value];
      SumSplit(weights, value);
      rejected := EnsureCanReplace(previous, weight);
      if rejected.Some? { return Failure(rejected.value); }
      SumReplace(weights, value, weight);
      ReplaceFits(total, previous, weight);
      weights := weights[value := weight];
      total := WrapAdd(WrapSub(total, previous), weight);
      r := Success(true);
    }

    method Clear()
      requires Valid()
      modifies this
      ensures Valid() && weights == Next(old(weights), Op.Clear) == map[] && total == 0
    {
      weights, total := map[], 0;
    }

    method WeightOf(value: T) returns (r: Result<Weight, Error>)
      requires Valid()
      ensures r == if value in weights then Success(weights[value]) else Failure(NotContained)
      ensures r.Success? ==> 0 < r.value <= total
    {
      if value !in weights { return Failure(NotContained); }
      SumSplit(weights, value);
      r := Success(weights[value]);
    }

    /** The cumulative scan of `random`; the statement after its loop is never reached. */
    method Scan(order: seq<T>, target: Weight) returns (value: T)
      requires (forall k | k in order :: k in weights) && target < SumOver(order, weights) <= MAX_WEIGHT
      ensures value == Pick(order, weights, target)
    {
      var cumulative: Weight := 0;
      assert order[0..] == order;
      for i := 0 to |order|
        invariant ScanAt(order, weights, target, i, cumulative)
      {
        ScanAdvances(order, weights, target, i, cumulative);
        AddFits(cumulative, weights[order[i]]);
        cumulative := WrapAdd(cumulative, weights[order[i]]);
        if target < cumulative { return order[i]; }
      }
      ScanAdvances(order, weights, target, |order|, cumulative);
      assert false;
    }

    /**
     `random`: `order` is the map's iteration order and `target` what the distribution over
     `[0, total - 1]` drew.  The running sum never wraps and the scan always finds a value.
     */
    method Random(order: seq<T>, target: Weight) returns (r: Result<T, Error>)
      requires Valid() && Enumerates(order, weights)
      requires weights != map[] ==> target < total
      ensures r.Failure? <==> weights == map[]
      ensures r.Failure? ==> r.error == NothingToChoose
      ensures r.Success? ==> target < SumOver(order, weights) == Sum(weights)
      ensures r.Success? ==> r.value == Pick(order, weights, target)
    {
      OrderDoesNotMatter(order, weights);
      if |weights| == 0 { return Failure(NothingToChoose); }
      var value := Scan(order, target);
      r := Success(value);
    }
  }

  lemma AddFits(a: Weight, b: Weight)
    requires a + b <= MAX_WEIGHT
    ensures WrapAdd(a, b) == a + b
  {
  }

  lemma SubFits(a: Weight, b: Weight)
    requires b <= a
    ensures WrapSub(a, b) == a - b
  {
  }

  lemma ReplaceFits(total: Weight, before: Weight, after: Weight)
    requires before <= total && total - before + after <= MAX_WEIGHT
    ensures WrapAdd(WrapSub(total, before), after) == total - before + after
  {
    SubFits(total, before);
    AddFits(WrapSub(total, before), after);
  }

  lemma {:induction false} RepliesExtend<T(!new)>(m: map<T, Weight>, ops: seq<Op<T>>, op: Op<T>)
    ensures Replies(m, ops + [op]) == Replies(m, ops) + [Reply(After(m, ops), op)]
    ensures After(m, ops + [op]) == Next(After(m, ops), op)
    decreases |ops|
  {
    if ops == [] {
      assert ops + [op] == [op] && [op][1..] == [];
    } else {
      assert (ops + [op])[1..] == ops[1..] + [op];
      RepliesExtend(Next(m, ops[0]), ops[1..], op);
    }
  }

  method RunOp<T(==, !new)>(w: WeightedSet<T>, op: Op<T>) returns (answer: Result<bool, Error>)
    requires w.Valid()
    modifies w
    ensures w.Valid() && answer == Reply(old(w.weights), op) && w.weights == Next(old(w.weights), op)
  {
    match op
    case Insert(v, x) => answer := w.Insert(v, x);
    case Erase(v) => answer := w.Erase(v);
    case SetWeight(v, x) => answer := w.SetWeight(v, x);
    case Clear => w.Clear(); answer := Success(true);
  }

  /**
   Deciding on the cached total gives, call by call, what deciding on the exact sum gives, and the
   cached total ends as the exact sum.
   */
  method RunOps<T(==, !new)>(ops: seq<Op<T>>) returns (answers: seq<Result<bool, Error>>, total: Weight)
    ensures answers == Replies(map[], ops)
    ensures total == Sum(After(map[], ops))
  {
    var w := new WeightedSet<T>();
    answers := [];
    for i := 0 to |ops|
      invariant w.Valid() && fresh(w)
      invariant w.weights == After(map[], ops[..i]) && answers == Replies(map[], ops[..i])
    {
      assert ops[..i + 1] == ops[..i] + [ops[i]];
      RepliesExtend(map[], ops[..i], ops[i]);
      var a := RunOp(w, ops[i]);
      answers := answers + [a];
    }
    assert ops[..|ops|] == ops;
    total := w.total;
  }
}
