/**
 `choose_placement`: an exact 0/1 selection of matrix groups within a work
 budget. The table never stores a negative partial sum, and costs are rescaled
 by their common divisor; the result is still optimal over all subsets.
 */
module Placement {
  import opened Wrappers
  import opened Modular

  datatype Item = Item(id: string, macs: nat, weightBytes: int, stageBytes: int)

  datatype State = State(saving: int, indices: seq<nat>)

  datatype Choice = Choice(saving: int, indices: seq<nat>, macs: nat, payload: int, removed: int)

  datatype PlacementError = InvalidHorizon | DuplicateGroup | ZeroUnit | TooManyStates

  function Value(item: Item, horizon: int): int {
    horizon * item.stageBytes - item.weightBytes
  }

  /** A subset of the first `n` items, as increasing indices. */
  predicate Subset(t: seq<nat>, n: nat) {
    && (forall i | 0 <= i < |t| :: t[i] < n)
    && (forall i, j | 0 <= i < j < |t| :: t[i] < t[j])
  }

  function TotalValue(items: seq<Item>, horizon: int, t: seq<nat>): int
    requires forall i | 0 <= i < |t| :: t[i] < |items|
  {
    if t == [] then 0
    else TotalValue(items, horizon, t[..|t| - 1]) + Value(items[t[|t| - 1]], horizon)
  }

  function TotalMacs(items: seq<Item>, t: seq<nat>): nat
    requires forall i | 0 <= i < |t| :: t[i] < |items|
  {
    if t == [] then 0 else TotalMacs(items, t[..|t| - 1]) + items[t[|t| - 1]].macs
  }

  // ----- The common divisor

  function Gcd(a: nat, b: nat): (g: nat)
    ensures a > 0 || b > 0 ==> g > 0
    decreases b
  {
    if b == 0 then a else Gcd(b, Remainder(a, b))
  }

  ghost predicate Divides(g: nat, a: nat) {
    exists k: nat :: a == g * k
  }

  lemma DividesRecombined(g: nat, b: nat, q: nat, r: nat)
    requires Divides(g, b) && Divides(g, r)
    ensures Divides(g, b * q + r)
  {
    var j: nat :| b == g * j;
    var k: nat :| r == g * k;
    MulAssoc(g, j, q);
    MulDistribute(g, j * q, k);
    assert b * q + r == g * (j * q + k);
  }

  lemma {:induction false} GcdDivides(a: nat, b: nat)
    ensures Divides(Gcd(a, b), a) && Divides(Gcd(a, b), b)
    decreases b
  {
    var g := Gcd(a, b);
    if b == 0 {
      assert a == g * 1 && b == g * 0;
    } else {
      GcdDivides(b, Remainder(a, b));
      DividesRecombined(g, b, Quotient(a, b), Remainder(a, b));
    }
  }

  /** `math.gcd` of the MAC counts of the first `n` items, starting from the empty gcd 0. */
  function Unit(items: seq<Item>, n: nat): nat
    requires n <= |items|
  {
    if n == 0 then 0 else Gcd(Unit(items, n - 1), items[n - 1].macs)
  }

  lemma {:induction false} UnitDivides(items: seq<Item>, n: nat, i: nat)
    requires i < n <= |items|
    ensures Divides(Unit(items, n), items[i].macs)
    ensures Unit(items, n) == 0 ==> items[i].macs == 0
    decreases n
  {
    var u, g := Unit(items, n - 1), Unit(items, n);
    GcdDivides(u, items[n - 1].macs);
    if i < n - 1 {
      UnitDivides(items, n - 1, i);
      var j: nat :| items[i].macs == u * j;
      var k: nat :| u == g * k;
      MulAssoc(g, k, j);
      assert items[i].macs == g * (k * j);
    }
  }

  lemma CommonRemainder(d: nat, a: nat, b: nat)
    requires b > 0 && Divides(d, a) && Divides(d, b)
    ensures Divides(d, Remainder(a, b))
  {
    var j: nat :| a == d * j;
    var k: nat :| b == d * k;
    var q, r := Quotient(a, b), Remainder(a, b);
    MulAssoc(d, k, q);
    MulDistribute(d, j, k * q);
    assert r == d * (j - k * q);
    if j - k * q < 0 {
      MulMonotone(d, j - k * q, -1);
      assert r == 0 && r == d * 0;
    }
  }

  lemma {:induction false} GcdGreatest(a: nat, b: nat, d: nat)
    requires Divides(d, a) && Divides(d, b)
    ensures Divides(d, Gcd(a, b))
    decreases b
  {
    if b > 0 {
      CommonRemainder(d, a, b);
      GcdGreatest(b, Remainder(a, b), d);
    }
  }

  /** Every common divisor of the work divides the unit: with `UnitDivides`, it is the greatest. */
  lemma {:induction false} UnitGreatest(items: seq<Item>, n: nat, d: nat)
    requires n <= |items| && forall i | 0 <= i < n :: Divides(d, items[i].macs)
    ensures Divides(d, Unit(items, n))
    decreases n
  {
    if n > 0 {
      UnitGreatest(items, n - 1, d);
      GcdGreatest(Unit(items, n - 1), items[n - 1].macs, d);
    } else {
      assert 0 == d * 0;
    }
  }

  // ----- The table

  /** Rescaled work of one item. */
  function Cost(items: seq<Item>, unit: nat, i: nat): nat
    requires unit > 0 && i < |items|
  {
    items[i].macs / unit
  }

  function TotalCost(items: seq<Item>, unit: nat, t: seq<nat>): nat
    requires unit > 0 && forall i | 0 <= i < |t| :: t[i] < |items|
  {
    if t == [] then 0 else TotalCost(items, unit, t[..|t| - 1]) + Cost(items, unit, t[|t| - 1])
  }

  lemma {:induction false} CostScales(items: seq<Item>, unit: nat, t: seq<nat>)
    requires unit > 0 && forall i | 0 <= i < |t| :: t[i] < |items|
    requires forall i | 0 <= i < |items| :: Divides(unit, items[i].macs)
    ensures TotalMacs(items, t) == unit * TotalCost(items, unit, t)
  {
    if t != [] {
      var n := |t| - 1;
      CostScales(items, unit, t[..n]);
      var m := items[t[n]].macs;
      var k: nat :| m == unit * k;
      QuotientUnique(m, unit, k, 0);
      MulDistribute(unit, TotalCost(items, unit, t[..n]), k);
    }
  }

  /** Every stored state is an achievable nonnegative subset of the items seen so far. */
  ghost predicate Achieved(items: seq<Item>, horizon: int, unit: nat, n: nat, used: nat, s: State)
    requires unit > 0 && n <= |items|
  {
    && Subset(s.indices, n) && s.saving >= 0
    && TotalCost(items, unit, s.indices) == used
    && TotalValue(items, horizon, s.indices) == s.saving
  }

  /** A subset all of whose members have nonnegative value. */
  ghost predicate Useful(items: seq<Item>, horizon: int, t: seq<nat>)
    requires forall i | 0 <= i < |t| :: t[i] < |items|
  {
    forall i | 0 <= i < |t| :: Value(items[t[i]], horizon) >= 0
  }

  /** The table dominates every useful subset of the first `n` items that fits. */
  ghost predicate Dominates(items: seq<Item>, horizon: int, unit: nat, capacity: nat, n: nat, states: map<nat, State>)
    requires unit > 0 && n <= |items|
  {
    forall t: seq<nat> | Subset(t, n) && Useful(items, horizon, t) && TotalCost(items, unit, t) <= capacity ::
      var used := TotalCost(items, unit, t);
      used in states && states[used].saving >= TotalValue(items, horizon, t)
  }

  ghost predicate TableOk(items: seq<Item>, horizon: int, unit: nat, capacity: nat, n: nat, states: map<nat, State>)
    requires unit > 0 && n <= |items|
  {
    && (forall used | used in states :: used <= capacity && Achieved(items, horizon, unit, n, used, states[used]))
    && Dominates(items, horizon, unit, capacity, n, states)
  }

  /** The candidate that item `i` makes out of a state of the snapshot. */
  function Extended(items: seq<Item>, horizon: int, s: State, i: nat): State
    requires i < |items|
  {
    State(s.saving + Value(items[i], horizon), s.indices + [i])
  }

  predicate Better(candidate: int, states: map<nat, State>, used: nat) {
    candidate > if used in states then states[used].saving else -1
  }

  /** Key `v` is improved by item `i` taken on top of a snapshot state that is not in `todo`. */
  ghost predicate Improved(items: seq<Item>, horizon: int, unit: nat, capacity: nat, i: nat,
                           snapshot: map<nat, State>, todo: set<nat>, v: nat)
    requires unit > 0 && i < |items|
  {
    var cost := Cost(items, unit, i);
    && cost <= v <= capacity && v - cost in snapshot && v - cost !in todo
    && Better(Extended(items, horizon, snapshot[v - cost], i).saving, snapshot, v)
  }

  ghost predicate OfferedAt(items: seq<Item>, horizon: int, unit: nat, capacity: nat, i: nat,
                            snapshot: map<nat, State>, todo: set<nat>, states: map<nat, State>, v: nat)
    requires unit > 0 && i < |items|
  {
    if Improved(items, horizon, unit, capacity, i, snapshot, todo, v)
    then v in states && states[v] == Extended(items, horizon, snapshot[v - Cost(items, unit, i)], i)
    else (v in states <==> v in snapshot) && (v in snapshot ==> states[v] == snapshot[v])
  }

  /** The table after item `i` was offered to every snapshot state except those in `todo`. */
  ghost predicate Offered(items: seq<Item>, horizon: int, unit: nat, capacity: nat, i: nat,
                          snapshot: map<nat, State>, todo: set<nat>, states: map<nat, State>)
    requires unit > 0 && i < |items|
  {
    forall v: nat :: OfferedAt(items, horizon, unit, capacity, i, snapshot, todo, states, v)
  }

  /** Offer one item to every state of the table as it was before the item. */
  method OfferItem(items: seq<Item>, horizon: int, unit: nat, capacity: nat, i: nat, snapshot: map<nat, State>)
    returns (states: map<nat, State>)
    requires unit > 0 && i < |items|
    ensures Offered(items, horizon, unit, capacity, i, snapshot, {}, states)
  {
    states := snapshot;
    var todo := snapshot.Keys;
    while todo != {}
      invariant todo <= snapshot.Keys
      invariant Offered(items, horizon, unit, capacity, i, snapshot, todo, states)
    {
      var used :| used in todo;
      var next, s := used + Cost(items, unit, i), Extended(items, horizon, snapshot[used], i);
      assert OfferedAt(items, horizon, unit, capacity, i, snapshot, todo, states, next);
      ghost var before := states;
      if next <= capacity && Better(s.saving, states, next) {
        states := states[next := s];
      }
      forall v: nat ensures OfferedAt(items, horizon, unit, capacity, i, snapshot, todo - {used}, states, v) {
        assert OfferedAt(items, horizon, unit, capacity, i, snapshot, todo, before, v);
      }
      todo := todo - {used};
    }
  }

  lemma {:induction false} UsefulNonnegative(items: seq<Item>, horizon: int, t: seq<nat>)
    requires forall i | 0 <= i < |t| :: t[i] < |items|
    requires Useful(items, horizon, t)
    ensures TotalValue(items, horizon, t) >= 0
  {
    if t != [] {
      UsefulNonnegative(items, horizon, t[..|t| - 1]);
    }
  }

  lemma ExtendAchieved(items: seq<Item>, horizon: int, unit: nat, n: nat, used: nat, s: State)
    requires unit > 0 && n < |items| && Achieved(items, horizon, unit, n, used, s)
    requires Extended(items, horizon, s, n).saving >= 0
    ensures Achieved(items, horizon, unit, n + 1, used + Cost(items, unit, n), Extended(items, horizon, s, n))
  {
    var t := s.indices + [n];
    assert t[..|t| - 1] == s.indices;
  }

  lemma StepDominates(items: seq<Item>, horizon: int, unit: nat, capacity: nat, n: nat,
                      before: map<nat, State>, after: map<nat, State>, t: seq<nat>)
    requires unit > 0 && n < |items| && Dominates(items, horizon, unit, capacity, n, before)
    requires Offered(items, horizon, unit, capacity, n, before, {}, after)
    requires Subset(t, n + 1) && Useful(items, horizon, t) && TotalCost(items, unit, t) <= capacity
    ensures TotalCost(items, unit, t) in after
    ensures after[TotalCost(items, unit, t)].saving >= TotalValue(items, horizon, t)
  {
    if t != [] && t[|t| - 1] == n {
      var head := t[..|t| - 1];
      assert Subset(head, n) && Useful(items, horizon, head);
      var used := TotalCost(items, unit, head);
      assert used in before && before[used].saving >= TotalValue(items, horizon, head);
      UsefulNonnegative(items, horizon, t);
      var v := used + Cost(items, unit, n);
      assert v == TotalCost(items, unit, t);
      assert OfferedAt(items, horizon, unit, capacity, n, before, {}, after, v);
    } else {
      assert Subset(t, n);
      var v := TotalCost(items, unit, t);
      assert v in before && before[v].saving >= TotalValue(items, horizon, t);
      assert OfferedAt(items, horizon, unit, capacity, n, before, {}, after, v);
      assert v in after && after[v].saving >= before[v].saving;
    }
  }

  lemma StepAchieved(items: seq<Item>, horizon: int, unit: nat, capacity: nat, n: nat,
                     before: map<nat, State>, after: map<nat, State>, used: nat)
    requires unit > 0 && n < |items| && used in after
    requires forall u | u in before :: u <= capacity && Achieved(items, horizon, unit, n, u, before[u])
    requires Offered(items, horizon, unit, capacity, n, before, {}, after)
    ensures used <= capacity && Achieved(items, horizon, unit, n + 1, used, after[used])
  {
    assert OfferedAt(items, horizon, unit, capacity, n, before, {}, after, used);
    if Improved(items, horizon, unit, capacity, n, before, {}, used) {
      var u := used - Cost(items, unit, n);
      ExtendAchieved(items, horizon, unit, n, u, before[u]);
    }
  }

  lemma TableStep(items: seq<Item>, horizon: int, unit: nat, capacity: nat, n: nat,
                  before: map<nat, State>, after: map<nat, State>)
    requires unit > 0 && n < |items| && TableOk(items, horizon, unit, capacity, n, before)
    requires Offered(items, horizon, unit, capacity, n, before, {}, after)
    ensures TableOk(items, horizon, unit, capacity, n + 1, after)
  {
    forall used | used in after
      ensures used <= capacity && Achieved(items, horizon, unit, n + 1, used, after[used])
    {
      StepAchieved(items, horizon, unit, capacity, n, before, after, used);
    }
    forall t: seq<nat> | Subset(t, n + 1) && Useful(items, horizon, t) && TotalCost(items, unit, t) <= capacity
      ensures TotalCost(items, unit, t) in after
      ensures after[TotalCost(items, unit, t)].saving >= TotalValue(items, horizon, t)
    {
      StepDominates(items, horizon, unit, capacity, n, before, after, t);
    }
  }

  /** Dropping the members of negative value keeps a subset within budget and loses no value. */
  function DropLosses(items: seq<Item>, horizon: int, t: seq<nat>): (r: seq<nat>)
    requires forall i | 0 <= i < |t| :: t[i] < |items|
    ensures forall i | 0 <= i < |r| :: r[i] in t && r[i] < |items|
  {
    if t == [] then []
    else
      var head := DropLosses(items, horizon, t[..|t| - 1]);
      if Value(items[t[|t| - 1]], horizon) >= 0 then head + [t[|t| - 1]] else head
  }

  lemma {:induction false} DropLossesSubset(items: seq<Item>, horizon: int, t: seq<nat>, n: nat)
    requires n <= |items| && Subset(t, n)
    ensures Subset(DropLosses(items, horizon, t), n)
    ensures Useful(items, horizon, DropLosses(items, horizon, t))
    decreases |t|
  {
    if t != [] {
      assert Subset(t[..|t| - 1], t[|t| - 1]);
      DropLossesSubset(items, horizon, t[..|t| - 1], t[|t| - 1]);
    }
  }

  lemma {:induction false} DropLossesGain(items: seq<Item>, horizon: int, unit: nat, t: seq<nat>)
    requires unit > 0 && forall i | 0 <= i < |t| :: t[i] < |items|
    ensures TotalValue(items, horizon, DropLosses(items, horizon, t)) >= TotalValue(items, horizon, t)
    ensures TotalCost(items, unit, DropLosses(items, horizon, t)) <= TotalCost(items, unit, t)
    decreases |t|
  {
    if t != [] {
      var head, last := t[..|t| - 1], t[|t| - 1];
      DropLossesGain(items, horizon, unit, head);
      var h, r := DropLosses(items, horizon, head), DropLosses(items, horizon, t);
      if Value(items[last], horizon) >= 0 {
        assert r == h + [last] && r[..|r| - 1] == h;
      }
    }
  }

  /** The state of greatest saving, and of least work among those. */
  method BestState(states: map<nat, State>) returns (used: nat)
    requires states != map[]
    ensures used in states
    ensures forall u | u in states ::
              states[u].saving < states[used].saving || (states[u].saving == states[used].saving && used <= u)
  {
    var todo := states.Keys;
    used :| used in states;
    while todo != {}
      invariant todo <= states.Keys && used in states
      invariant forall u | u in states && u !in todo ::
                  states[u].saving < states[used].saving || (states[u].saving == states[used].saving && used <= u)
    {
      var u :| u in todo;
      if states[u].saving > states[used].saving || (states[u].saving == states[used].saving && u < used) {
        used := u;
      }
      todo := todo - {u};
    }
  }

  method BuildTable(items: seq<Item>, horizon: int, unit: nat, capacity: nat) returns (states: map<nat, State>)
    requires unit > 0
    ensures TableOk(items, horizon, unit, capacity, |items|, states) && 0 in states
  {
    states := map[0 := State(0, [])];
    assert forall t: seq<nat> :: Subset(t, 0) && t != [] ==> t[0] < 0;
    for n := 0 to |items|
      invariant TableOk(items, horizon, unit, capacity, n, states) && 0 in states
    {
      var before := states;
      states := OfferItem(items, horizon, unit, capacity, n, before);
      TableStep(items, horizon, unit, capacity, n, before, states);
    }
  }

  /** No subset within budget saves more, and none that saves as much needs fewer MACs. */
  ghost predicate Optimal(items: seq<Item>, horizon: int, budget: int, chosen: seq<nat>)
    requires Subset(chosen, |items|)
  {
    && TotalMacs(items, chosen) <= budget
    && forall t: seq<nat> | Subset(t, |items|) && TotalMacs(items, t) <= budget ::
         || TotalValue(items, horizon, t) < TotalValue(items, horizon, chosen)
         || (TotalValue(items, horizon, t) == TotalValue(items, horizon, chosen)
             && TotalMacs(items, chosen) <= TotalMacs(items, t))
  }

  lemma FitsScaled(macs: nat, cost: nat, unit: nat, budget: nat)
    requires unit > 0 && macs == unit * cost
    ensures macs <= budget <==> cost <= budget / unit
  {
    var q := Quotient(budget, unit);
    assert budget == unit * q + Remainder(budget, unit);
    if cost <= q {
      MulMonotone(unit, cost, q);
    } else {
      MulMonotone(unit, q + 1, cost);
      MulDistribute(unit, q, 1);
    }
  }

  /** One competing subset against the best state of the finished table. */
  lemma BeatsSubset(items: seq<Item>, horizon: int, unit: nat, budget: nat, states: map<nat, State>, used: nat,
                    t: seq<nat>)
    requires unit > 0 && Dominates(items, horizon, unit, budget / unit, |items|, states) && used in states
    requires forall i | 0 <= i < |items| :: Divides(unit, items[i].macs)
    requires forall u | u in states ::
               states[u].saving < states[used].saving || (states[u].saving == states[used].saving && used <= u)
    requires Subset(t, |items|) && TotalMacs(items, t) <= budget
    ensures || TotalValue(items, horizon, t) < states[used].saving
            || (TotalValue(items, horizon, t) == states[used].saving && unit * used <= TotalMacs(items, t))
  {
    CostScales(items, unit, t);
    FitsScaled(TotalMacs(items, t), TotalCost(items, unit, t), unit, budget);
    DropLossesSubset(items, horizon, t, |items|);
    DropLossesGain(items, horizon, unit, t);
    var r := DropLosses(items, horizon, t);
    var u := TotalCost(items, unit, r);
    assert u in states && states[u].saving >= TotalValue(items, horizon, r);
    ScaledOrder(unit, used, u, TotalCost(items, unit, t));
  }

  lemma ScaledOrder(unit: nat, a: nat, b: nat, c: nat)
    requires b <= c
    ensures a <= b ==> unit * a <= unit * c
  {
    if a <= b {
      MulMonotone(unit, a, c);
    }
  }

  method Choose(items: seq<Item>, horizon: int, unit: nat, budget: nat) returns (r: State)
    requires unit > 0 && forall i | 0 <= i < |items| :: Divides(unit, items[i].macs)
    ensures Subset(r.indices, |items|) && r.saving == TotalValue(items, horizon, r.indices)
    ensures Optimal(items, horizon, budget, r.indices)
  {
    var states := BuildTable(items, horizon, unit, budget / unit);
    var used := BestState(states);
    r := states[used];
    CostScales(items, unit, r.indices);
    FitsScaled(TotalMacs(items, r.indices), used, unit, budget);
    forall t: seq<nat> | Subset(t, |items|) && TotalMacs(items, t) <= budget
      ensures || TotalValue(items, horizon, t) < r.saving
              || (TotalValue(items, horizon, t) == r.saving && TotalMacs(items, r.indices) <= TotalMacs(items, t))
    {
      BeatsSubset(items, horizon, unit, budget, states, used, t);
    }
  }

  predicate DistinctIds(items: seq<Item>) {
    forall i, j | 0 <= i < j < |items| :: items[i].id != items[j].id
  }

  function Total(items: seq<Item>, f: Item -> int, t: seq<nat>): int
    requires forall i | 0 <= i < |t| :: t[i] < |items|
  {
    if t == [] then 0 else Total(items, f, t[..|t| - 1]) + f(items[t[|t| - 1]])
  }

  function UnitOf(items: seq<Item>): nat {
    if items == [] then 1 else Unit(items, |items|)
  }

  method ChoosePlacement(items: seq<Item>, budget: int, horizon: int) returns (r: Result<Choice, PlacementError>)
    ensures r == Failure(InvalidHorizon) <==> horizon < 1 || budget < 0
    ensures r == Failure(DuplicateGroup) <==>
            horizon >= 1 && budget >= 0 && exists i, j :: 0 <= i < j < |items| && items[i].id == items[j].id
    ensures r == Failure(ZeroUnit) <==>
            horizon >= 1 && budget >= 0 && DistinctIds(items) && UnitOf(items) == 0
    ensures r.Success? <==>
            && horizon >= 1 && budget >= 0 && DistinctIds(items)
            && UnitOf(items) > 0 && budget / UnitOf(items) <= 100_000
    ensures r.Success? ==> Subset(r.value.indices, |items|) && Optimal(items, horizon, budget, r.value.indices)
    ensures r.Success? ==> r.value.saving == TotalValue(items, horizon, r.value.indices)
                           && r.value.macs == TotalMacs(items, r.value.indices)
    ensures r.Success? ==> r.value.payload == Total(items, (x: Item) => x.weightBytes, r.value.indices)
                           && r.value.removed == Total(items, (x: Item) => x.stageBytes, r.value.indices)
    ensures r.Success? ==> r.value.macs == Total(items, (x: Item) => x.macs, r.value.indices)
    ensures r.Success? ==> r.value.saving == horizon * r.value.removed - r.value.payload
  {
    if horizon < 1 || budget < 0 {
      return Failure(InvalidHorizon);
    }
    if !DistinctIds(items) {
      return Failure(DuplicateGroup);
    }
    var unit := UnitOf(items);
    if unit == 0 {
      return Failure(ZeroUnit);
    }
    if budget / unit > 100_000 {
      return Failure(TooManyStates);
    }
    forall i | 0 <= i < |items| ensures Divides(unit, items[i].macs) {
      UnitDivides(items, |items|, i);
    }
    var best := Choose(items, horizon, unit, budget);
    var t := best.indices;
    var payload, removed := Total(items, (x: Item) => x.weightBytes, t), Total(items, (x: Item) => x.stageBytes, t);
    SavingSplits(items, horizon, t);
    MacsAreTotal(items, t);
    return Success(Choice(best.saving, t, TotalMacs(items, t), payload, removed));
  }

  lemma {:induction false} MacsAreTotal(items: seq<Item>, t: seq<nat>)
    requires forall i | 0 <= i < |t| :: t[i] < |items|
    ensures TotalMacs(items, t) == Total(items, (x: Item) => x.macs, t)
  {
    if t != [] {
      MacsAreTotal(items, t[..|t| - 1]);
    }
  }

  /** The estimated saving is the traffic removed over the horizon less the payload delivered. */
  lemma {:induction false} SavingSplits(items: seq<Item>, horizon: int, t: seq<nat>)
    requires forall i | 0 <= i < |t| :: t[i] < |items|
    ensures TotalValue(items, horizon, t)
            == horizon * Total(items, (x: Item) => x.stageBytes, t) - Total(items, (x: Item) => x.weightBytes, t)
  {
    if t != [] {
      SavingSplits(items, horizon, t[..|t| - 1]);
    }
  }
}
