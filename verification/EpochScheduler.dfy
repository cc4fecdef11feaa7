/**
 The epoch scheduler: which schedules are valid, the ledger that prices one, and
 the dynamic program whose result is cheapest among all valid schedules.
 */
module EpochScheduler {
  import opened Wrappers
  import opened Sequences
  import opened Bits

  const MAX_CAP := 64
  const STAGES := 96
  const FULL_PREFILL_STAGES := 93
  const TERMINAL_STAGES := 3

  /** `validate`: exact cover of the cap by epochs that do not shrink before the final one. */
  predicate Valid(parts: seq<int>, cap: int) {
    && 1 <= cap <= MAX_CAP
    && parts != [] && Sum(parts) == cap
    && (forall i | 0 <= i < |parts| :: 1 <= parts[i] <= 64)
    && (forall i | 0 <= i < |parts| - 2 :: parts[i] <= parts[i + 1])
  }

  // ----- Fixed and geometric schedules

  /** Size of the i-th epoch before clipping: constant, or doubling up to 64. */
  function EpochSize(start: int, geometric: bool, i: nat): int {
    if !geometric then start else if start * Pow2(i) > 64 then 64 else start * Pow2(i)
  }

  lemma NextEpochSize(start: int, i: nat)
    requires start >= 1
    ensures EpochSize(start, true, i + 1) ==
            if 64 < 2 * EpochSize(start, true, i) then 64 else 2 * EpochSize(start, true, i)
    ensures EpochSize(start, true, i) <= EpochSize(start, true, i + 1)
  {
    assert start * Pow2(i + 1) == 2 * (start * Pow2(i));
  }

  /** Every epoch but the last has its nominal size, and the last is clipped to what remains. */
  ghost predicate Nominal(parts: seq<int>, start: int, geometric: bool) {
    && (forall i: nat | i + 1 < |parts| :: parts[i] == EpochSize(start, geometric, i))
    && (parts != [] ==> parts[|parts| - 1] <= EpochSize(start, geometric, |parts| - 1))
  }

  /** `schedule`: equal or doubling epochs, the last one clipped; always valid. */
  method Schedule(cap: int, start: int, geometric: bool) returns (r: Option<seq<int>>)
    ensures r.Some? <==> 1 <= cap <= MAX_CAP && 1 <= start <= MAX_CAP
    ensures r.Some? ==> Valid(r.value, cap) && Nominal(r.value, start, geometric)
    ensures r.Some? && !geometric ==> forall i | 0 <= i < |r.value| - 1 :: r.value[i] == start
    ensures r.Some? && geometric ==> forall i: nat | i < |r.value| - 1 ::
              r.value[i] == if start * Pow2(i) <= 64 then start * Pow2(i) else 64
  {
    if !(1 <= cap <= MAX_CAP && 1 <= start <= MAX_CAP) {
      return None;
    }
    var parts: seq<int>, remaining, size := [], cap, start;
    while remaining > 0
      invariant 0 <= remaining && 1 <= size <= 64 && size == EpochSize(start, geometric, |parts|)
      invariant Sum(parts) == cap - remaining
      invariant parts == [] ==> remaining == cap
      invariant forall i | 0 <= i < |parts| :: 1 <= parts[i] <= 64
      invariant forall i | 0 <= i < |parts| - 2 :: parts[i] <= parts[i + 1]
      invariant remaining > 0 && parts != [] ==> parts[|parts| - 1] <= size
      invariant remaining > 0 && |parts| > 1 ==> parts[|parts| - 2] <= parts[|parts| - 1]
      invariant Nominal(parts, start, geometric)
      invariant remaining > 0 && parts != [] ==> parts[|parts| - 1] == EpochSize(start, geometric, |parts| - 1)
      decreases remaining
    {
      var used := if size < remaining then size else remaining;
      SumAppend(parts, used);
      NextEpochSize(start, |parts|);
      parts := parts + [used];
      remaining := remaining - used;
      if geometric {
        size := if 64 < size * 2 then 64 else size * 2;
      }
    }
    return Some(parts);
  }

  // ----- The ledger

  function Selections(output: int, cap: int): int {
    if output < cap then output + 1 else cap
  }

  /** Number of sessions needed before `needed` selections are covered. */
  function Sessions(parts: seq<int>, needed: int): nat {
    if parts == [] then 0
    else if parts[0] >= needed then 1
    else 1 + Sessions(parts[1..], needed - parts[0])
  }

  /** Selections prepared by those sessions. */
  function Covered(parts: seq<int>, needed: int): int {
    if parts == [] then 0
    else if parts[0] >= needed then parts[0]
    else parts[0] + Covered(parts[1..], needed - parts[0])
  }

  /** The sessions are the shortest prefix of the schedule that covers the need. */
  lemma {:induction false} SessionsAreFirstCover(parts: seq<int>, needed: int)
    requires 1 <= needed <= Sum(parts) && forall i | 0 <= i < |parts| :: parts[i] >= 1
    ensures 1 <= Sessions(parts, needed) <= |parts|
    ensures Covered(parts, needed) == Sum(parts[..Sessions(parts, needed)])
    ensures Sum(parts[..Sessions(parts, needed) - 1]) < needed <= Covered(parts, needed)
  {
    if parts[0] >= needed {
      assert parts[..1] == [parts[0]] && [parts[0]][1..] == [];
      assert parts[..0] == [];
    } else {
      SessionsAreFirstCover(parts[1..], needed - parts[0]);
      var k := Sessions(parts, needed);
      assert parts[..k][1..] == parts[1..][..k - 1];
      assert parts[..k - 1][1..] == parts[1..][..k - 2];
    }
  }

  /** One stop position, priced. Byte, memory and time columns, which the source leaves unknown, are absent. */
  datatype Ledger = Ledger(
    atCap: bool, selections: int, covered: int, decodes: int, sessions: int, pauses: int,
    issued: int, reserved: int, claimed: int, burned: int, discarded: int,
    requests: int, frames: int, acknowledgements: int, admissions: int, completions: int, historyBound: int)

  function Prefill(prompt: int): int {
    FULL_PREFILL_STAGES * prompt + TERMINAL_STAGES
  }

  /** What every session costs beside its rows. */
  ghost predicate SessionTraffic(l: Ledger) {
    && l.pauses == l.sessions - 1 >= 0
    && l.requests == l.frames == l.acknowledgements == STAGES * l.sessions
    && l.admissions == l.completions == l.sessions
  }

  /** `account`: rows issued, claimed and burned, and the sessions and traffic, for one stop position. */
  method Account(parts: seq<int>, prompt: int, output: int, cap: int) returns (r: Option<Ledger>)
    ensures r.Some? <==> Valid(parts, cap) && 1 <= prompt <= 128 && 0 <= output <= cap
    ensures r.Some? ==>
      var l, needed := r.value, Selections(output, cap);
      && l.selections == needed && l.covered == Covered(parts, needed) && l.sessions == Sessions(parts, needed)
      && l.issued == IssuedRows(parts, prompt, needed) == 93 * prompt + 3 + 96 * (l.covered - 1)
      && l.decodes == needed - 1 && l.claimed == 93 * prompt + 3 + 96 * (needed - 1)
      && l.decodes == (if output < cap then output else cap - 1)
      && l.burned == STAGES * (l.covered - needed) && l.historyBound == prompt + cap - 1
    ensures r.Some? ==> SessionTraffic(r.value) && (r.value.atCap <==> output == cap)
    ensures r.Some? ==> r.value.issued == r.value.reserved == r.value.claimed + r.value.burned
    ensures r.Some? ==> r.value.burned >= 0 && r.value.discarded == 0
    // No executed position lies beyond the bound, which is reached at the cap.
    ensures r.Some? ==> prompt + r.value.decodes <= r.value.historyBound
    ensures r.Some? ==> (prompt + r.value.decodes == r.value.historyBound <==> output >= cap - 1)
  {
    if !(Valid(parts, cap) && 1 <= prompt <= 128 && 0 <= output <= cap) {
      return None;
    }
    var selections := Selections(output, cap);
    SessionsAreFirstCover(parts, selections);
    var covered, sessions := 0, 0;
    while sessions < |parts|
      invariant 0 <= sessions <= |parts| && covered < selections
      invariant Covered(parts, selections) == covered + Covered(parts[sessions..], selections - covered)
      invariant Sessions(parts, selections) == sessions + Sessions(parts[sessions..], selections - covered)
    {
      var size := parts[sessions];
      assert parts[sessions..][1..] == parts[sessions + 1..];
      sessions := sessions + 1;
      covered := covered + size;
      if covered >= selections {
        break;
      }
    }
    var prefill := Prefill(prompt);
    var issued, claimed := prefill + STAGES * (covered - 1), prefill + STAGES * (selections - 1);
    return Some(Ledger(output >= cap, selections, covered, selections - 1, sessions, sessions - 1,
                       issued, issued, claimed, issued - claimed, 0,
                       STAGES * sessions, STAGES * sessions, STAGES * sessions, sessions, sessions, prompt + cap - 1));
  }

  // ----- The expected objective

  /** A stop position and how often it was counted; a `counts` dictionary is a list of these. */
  datatype Stop = Stop(output: int, count: int)

  predicate ValidCounts(counts: seq<Stop>, cap: int) {
    && counts != []
    && (forall i | 0 <= i < |counts| :: 0 <= counts[i].output <= cap && counts[i].count > 0)
    && (forall i, j | 0 <= i < j < |counts| :: counts[i].output != counts[j].output)
  }

  function IssuedRows(parts: seq<int>, prompt: int, needed: int): int {
    Prefill(prompt) + STAGES * (Covered(parts, needed) - 1)
  }

  /** Count-weighted issued rows plus pause penalties: the expectation times the total count. */
  function Objective(parts: seq<int>, counts: seq<Stop>, cap: int, penalty: int, prompt: int): int {
    if counts == [] then 0
    else
      var needed := Selections(counts[0].output, cap);
      counts[0].count * (IssuedRows(parts, prompt, needed) + penalty * (Sessions(parts, needed) - 1))
      + Objective(parts, counts[1..], cap, penalty, prompt)
  }

  function TotalCount(counts: seq<Stop>): int {
    if counts == [] then 0 else counts[0].count + TotalCount(counts[1..])
  }

  /** `expectation`'s "objective_row_equivalents", over exact rationals. */
  ghost function ExpectedObjective(parts: seq<int>, counts: seq<Stop>, cap: int, penalty: int, prompt: int): real
    requires TotalCount(counts) > 0
  {
    Objective(parts, counts, cap, penalty, prompt) as real / TotalCount(counts) as real
  }

  // ----- The incremental cost of the dynamic program

  function Survival(counts: seq<Stop>, cap: int, boundary: int): int {
    if counts == [] then 0
    else (if Selections(counts[0].output, cap) > boundary then counts[0].count else 0)
         + Survival(counts[1..], cap, boundary)
  }

  function StepCost(penalty: int, boundary: int, size: int): int {
    STAGES * size + if boundary > 0 then penalty else 0
  }

  /** Cost of the remaining epochs `tail` when `boundary` selections are already covered. */
  function TailCost(counts: seq<Stop>, cap: int, penalty: int, boundary: int, tail: seq<int>): int
    decreases |tail|
  {
    if tail == [] then 0
    else Survival(counts, cap, boundary) * StepCost(penalty, boundary, tail[0])
         + TailCost(counts, cap, penalty, boundary + tail[0], tail[1..])
  }

  /** The cost one stop position pays: every epoch that begins before it is reached. */
  function StopCost(needed: int, penalty: int, boundary: int, tail: seq<int>): int
    decreases |tail|
  {
    if tail == [] then 0
    else (if needed > boundary then StepCost(penalty, boundary, tail[0]) else 0)
         + StopCost(needed, penalty, boundary + tail[0], tail[1..])
  }

  lemma {:induction false} TailCostSplits(counts: seq<Stop>, cap: int, penalty: int, boundary: int, tail: seq<int>)
    requires counts != []
    ensures TailCost(counts, cap, penalty, boundary, tail) ==
            counts[0].count * StopCost(Selections(counts[0].output, cap), penalty, boundary, tail)
            + TailCost(counts[1..], cap, penalty, boundary, tail)
    decreases |tail|
  {
    if tail != [] {
      TailCostSplits(counts, cap, penalty, boundary + tail[0], tail[1..]);
      var needed := Selections(counts[0].output, cap);
      DistributeStep(counts[0].count, needed > boundary, Survival(counts[1..], cap, boundary),
                     StepCost(penalty, boundary, tail[0]), StopCost(needed, penalty, boundary + tail[0], tail[1..]));
    }
  }

  lemma DistributeStep(c: int, reached: bool, rest: int, step: int, later: int)
    ensures ((if reached then c else 0) + rest) * step + c * later
            == c * ((if reached then step else 0) + later) + rest * step
  {
  }

  lemma {:induction false} StopCostDone(needed: int, penalty: int, boundary: int, tail: seq<int>)
    requires needed <= boundary && forall i | 0 <= i < |tail| :: tail[i] >= 1
    ensures StopCost(needed, penalty, boundary, tail) == 0
    decreases |tail|
  {
    if tail != [] {
      StopCostDone(needed, penalty, boundary + tail[0], tail[1..]);
    }
  }

  /** What a stop position pays is its covered selections and one penalty per pause. */
  lemma {:induction false} StopCostIsLedger(needed: int, penalty: int, boundary: int, tail: seq<int>)
    requires 0 <= boundary < needed && tail != [] && forall i | 0 <= i < |tail| :: tail[i] >= 1
    ensures StopCost(needed, penalty, boundary, tail) ==
            STAGES * Covered(tail, needed - boundary)
            + penalty * (Sessions(tail, needed - boundary) - if boundary > 0 then 0 else 1)
    decreases |tail|
  {
    var next := boundary + tail[0];
    if tail[0] >= needed - boundary {
      StopCostDone(needed, penalty, next, tail[1..]);
    } else if tail[1..] != [] {
      StopCostIsLedger(needed, penalty, next, tail[1..]);
      var k := Sessions(tail[1..], needed - next);
      assert penalty * (1 + k) == penalty + penalty * k;
    }
  }

  function Baseline(counts: seq<Stop>, prompt: int): int {
    TotalCount(counts) * (Prefill(prompt) - STAGES)
  }

  /** The incremental cost is the ledger's objective, less a constant that no schedule changes. */
  lemma {:induction false} CostIsObjective(parts: seq<int>, counts: seq<Stop>, cap: int, penalty: int, prompt: int)
    requires Valid(parts, cap) && forall i | 0 <= i < |counts| :: 0 <= counts[i].output <= cap
    ensures Objective(parts, counts, cap, penalty, prompt) ==
            TailCost(counts, cap, penalty, 0, parts) + Baseline(counts, prompt)
    decreases |counts|
  {
    if counts == [] {
      EmptyTailCost(cap, penalty, 0, parts);
    } else {
      CostIsObjective(parts, counts[1..], cap, penalty, prompt);
      TailCostSplits(counts, cap, penalty, 0, parts);
      var c, needed := counts[0].count, Selections(counts[0].output, cap);
      StopCostIsLedger(needed, penalty, 0, parts);
      assert IssuedRows(parts, prompt, needed) == Prefill(prompt) + STAGES * Covered(parts, needed) - STAGES;
      SplitBaseline(c, TotalCount(counts[1..]), Prefill(prompt), STAGES * Covered(parts, needed),
                    penalty * (Sessions(parts, needed) - 1));
    }
  }

  lemma SplitBaseline(c: int, others: int, prefill: int, rows: int, pauses: int)
    ensures c * (prefill + rows - STAGES + pauses) + others * (prefill - STAGES)
            == c * (rows + pauses) + (c + others) * (prefill - STAGES)
  {
    var base := prefill - STAGES;
    assert c * (rows + pauses + base) == c * (rows + pauses) + c * base;
    assert (c + others) * base == c * base + others * base;
  }

  lemma {:induction false} EmptyTailCost(cap: int, penalty: int, boundary: int, tail: seq<int>)
    ensures TailCost([], cap, penalty, boundary, tail) == 0
    decreases |tail|
  {
    if tail != [] {
      EmptyTailCost(cap, penalty, boundary + tail[0], tail[1..]);
    }
  }

  // ----- The search space

  /** The schedules the dynamic program can build from `remaining` selections and the last epoch size. */
  ghost predicate Tail(tail: seq<int>, remaining: int, previous: int)
    decreases |tail|
  {
    if remaining == 0 then tail == []
    else
      && tail != [] && 1 <= tail[0] <= remaining
      && (tail[0] < remaining ==> tail[0] >= previous)
      && Tail(tail[1..], remaining - tail[0], tail[0])
  }

  /** The general form: `validate`'s conditions, with `previous` before the first epoch. */
  ghost predicate ValidTail(tail: seq<int>, remaining: int, previous: int) {
    && Sum(tail) == remaining
    && (forall i | 0 <= i < |tail| :: 1 <= tail[i])
    && (forall i | 0 <= i < |tail| - 2 :: tail[i] <= tail[i + 1])
    && (|tail| >= 2 ==> previous <= tail[0])
  }

  lemma {:induction false} SumBounds(tail: seq<int>)
    requires forall i | 0 <= i < |tail| :: 1 <= tail[i]
    ensures Sum(tail) >= |tail|
    ensures forall i | 0 <= i < |tail| :: tail[i] <= Sum(tail)
  {
    if tail != [] {
      SumBounds(tail[1..]);
    }
  }

  lemma {:induction false} TailIffValidTail(tail: seq<int>, remaining: int, previous: int)
    requires remaining >= 0
    ensures Tail(tail, remaining, previous) <==> ValidTail(tail, remaining, previous)
    decreases |tail|
  {
    if tail != [] && remaining > 0 && 1 <= tail[0] <= remaining {
      TailIffValidTail(tail[1..], remaining - tail[0], tail[0]);
      if Tail(tail, remaining, previous) {
        SumBounds(tail[1..]);
      }
      if ValidTail(tail, remaining, previous) {
        SumBounds(tail[1..]);
        assert ValidTail(tail[1..], remaining - tail[0], tail[0]);
      }
    } else if ValidTail(tail, remaining, previous) {
      SumBounds(tail);
    }
  }

  /** The dynamic program's choices are exactly the schedules `validate` accepts. */
  lemma ChoicesAreValidSchedules(parts: seq<int>, cap: int)
    requires 1 <= cap <= MAX_CAP
    ensures Tail(parts, cap, 1) <==> Valid(parts, cap)
  {
    TailIffValidTail(parts, cap, 1);
    if ValidTail(parts, cap, 1) {
      SumBounds(parts);
    }
  }

  // ----- The optimiser

  /** The order `min` uses on candidates: cost, then number of epochs, then sizes. */
  predicate Leq(costA: int, a: seq<int>, costB: int, b: seq<int>) {
    costA < costB || (costA == costB && (|a| < |b| || (|a| == |b| && LexLeq(a, b))))
  }

  lemma LeqTransitive(i: int, a: seq<int>, j: int, b: seq<int>, k: int, c: seq<int>)
    requires Leq(i, a, j, b) && Leq(j, b, k, c)
    ensures Leq(i, a, k, c)
  {
    if i == j == k && |a| == |b| == |c| {
      LexTransitive(a, b, c);
    }
  }

  lemma LeqTotal(i: int, a: seq<int>, j: int, b: seq<int>)
    ensures Leq(i, a, j, b) || Leq(j, b, i, a)
  {
    LexTotal(a, b);
  }

  /** `parts` is least, in that order, among all tails whose first epoch is below `limit`. */
  ghost predicate BestBelow(counts: seq<Stop>, cap: int, penalty: int, boundary: int, previous: int, limit: int,
                            cost: int, parts: seq<int>)
  {
    forall other | Tail(other, cap - boundary, previous) && other != [] && other[0] < limit ::
      Leq(cost, parts, TailCost(counts, cap, penalty, boundary, other), other)
  }

  ghost predicate Best(counts: seq<Stop>, cap: int, penalty: int, boundary: int, previous: int, cost: int,
                       parts: seq<int>)
  {
    && Tail(parts, cap - boundary, previous)
    && cost == TailCost(counts, cap, penalty, boundary, parts)
    && forall other | Tail(other, cap - boundary, previous) ::
         Leq(cost, parts, TailCost(counts, cap, penalty, boundary, other), other)
  }

  /** Prefixing one epoch keeps the order, so an optimal tail gives an optimal candidate of its size. */
  lemma PrefixOptimal(counts: seq<Stop>, cap: int, penalty: int, boundary: int, previous: int, size: int,
                      tailCost: int, tail: seq<int>, other: seq<int>)
    requires 1 <= size && boundary + size <= cap && Best(counts, cap, penalty, boundary + size, size, tailCost, tail)
    requires Tail(other, cap - boundary, previous) && other != [] && other[0] == size
    ensures Leq(Survival(counts, cap, boundary) * StepCost(penalty, boundary, size) + tailCost, [size] + tail,
                TailCost(counts, cap, penalty, boundary, other), other)
  {
    assert Tail(other[1..], cap - (boundary + size), size);
    assert ([size] + tail)[1..] == tail;
  }

  /** One candidate of the dynamic program against the best so far. */
  lemma CandidateStep(counts: seq<Stop>, cap: int, penalty: int, boundary: int, previous: int, size: int,
                      bestCost: int, best: seq<int>, cost: int, candidate: seq<int>)
    requires BestBelow(counts, cap, penalty, boundary, previous, size, bestCost, best)
    requires forall other | Tail(other, cap - boundary, previous) && other != [] && other[0] == size ::
               Leq(cost, candidate, TailCost(counts, cap, penalty, boundary, other), other)
    ensures Leq(bestCost, best, cost, candidate) ==>
            BestBelow(counts, cap, penalty, boundary, previous, size + 1, bestCost, best)
    ensures Leq(cost, candidate, bestCost, best) ==>
            BestBelow(counts, cap, penalty, boundary, previous, size + 1, cost, candidate)
  {
    forall other | Tail(other, cap - boundary, previous) && other != [] && other[0] < size + 1
      ensures Leq(bestCost, best, cost, candidate) ==>
                Leq(bestCost, best, TailCost(counts, cap, penalty, boundary, other), other)
      ensures Leq(cost, candidate, bestCost, best) ==>
                Leq(cost, candidate, TailCost(counts, cap, penalty, boundary, other), other)
    {
      var c := TailCost(counts, cap, penalty, boundary, other);
      if Leq(bestCost, best, cost, candidate) && other[0] == size {
        LeqTransitive(bestCost, best, cost, candidate, c, other);
      }
      if Leq(cost, candidate, bestCost, best) && other[0] < size {
        LeqTransitive(cost, candidate, bestCost, best, c, other);
      }
    }
  }

  lemma CandidateIsTail(counts: seq<Stop>, cap: int, penalty: int, boundary: int, previous: int, size: int,
                        tailCost: int, tail: seq<int>)
    requires 1 <= size && boundary + size <= cap && Best(counts, cap, penalty, boundary + size, size, tailCost, tail)
    requires boundary + size < cap ==> size >= previous
    ensures Tail([size] + tail, cap - boundary, previous)
    ensures TailCost(counts, cap, penalty, boundary, [size] + tail) ==
            Survival(counts, cap, boundary) * StepCost(penalty, boundary, size) + tailCost
  {
    assert ([size] + tail)[1..] == tail;
  }

  /** The recursion: the least candidate over all first epochs is the least schedule. */
  method Solve(counts: seq<Stop>, cap: int, penalty: int, boundary: int, previous: int)
    returns (cost: int, parts: seq<int>)
    requires 0 <= boundary <= cap && 1 <= previous
    ensures Best(counts, cap, penalty, boundary, previous, cost, parts)
    decreases cap - boundary
  {
    if boundary == cap {
      return 0, [];
    }
    var remaining := cap - boundary;
    var first := if remaining >= previous then previous else remaining;
    var survival := Survival(counts, cap, boundary);
    var tailCost, tail := Solve(counts, cap, penalty, boundary + first, first);
    cost, parts := survival * StepCost(penalty, boundary, first) + tailCost, [first] + tail;
    CandidateIsTail(counts, cap, penalty, boundary, previous, first, tailCost, tail);
    FirstCandidate(counts, cap, penalty, boundary, previous, first, tailCost, tail);
    for size := first + 1 to remaining + 1
      invariant Tail(parts, remaining, previous) && cost == TailCost(counts, cap, penalty, boundary, parts)
      invariant BestBelow(counts, cap, penalty, boundary, previous, size, cost, parts)
    {
      tailCost, tail := Solve(counts, cap, penalty, boundary + size, size);
      var c, candidate := survival * StepCost(penalty, boundary, size) + tailCost, [size] + tail;
      CandidateIsTail(counts, cap, penalty, boundary, previous, size, tailCost, tail);
      forall other | Tail(other, cap - boundary, previous) && other != [] && other[0] == size
        ensures Leq(c, candidate, TailCost(counts, cap, penalty, boundary, other), other)
      {
        PrefixOptimal(counts, cap, penalty, boundary, previous, size, tailCost, tail, other);
      }
      CandidateStep(counts, cap, penalty, boundary, previous, size, cost, parts, c, candidate);
      if !Leq(cost, parts, c, candidate) {
        LeqTotal(cost, parts, c, candidate);
        cost, parts := c, candidate;
      }
    }
  }

  lemma FirstCandidate(counts: seq<Stop>, cap: int, penalty: int, boundary: int, previous: int, first: int,
                       tailCost: int, tail: seq<int>)
    requires 0 <= boundary < cap && 1 <= previous
    requires first == if cap - boundary >= previous then previous else cap - boundary
    requires Best(counts, cap, penalty, boundary + first, first, tailCost, tail)
    ensures BestBelow(counts, cap, penalty, boundary, previous, first + 1,
              Survival(counts, cap, boundary) * StepCost(penalty, boundary, first) + tailCost, [first] + tail)
  {
    forall other | Tail(other, cap - boundary, previous) && other != [] && other[0] < first + 1
      ensures Leq(Survival(counts, cap, boundary) * StepCost(penalty, boundary, first) + tailCost, [first] + tail,
                  TailCost(counts, cap, penalty, boundary, other), other)
    {
      assert other[0] == first;
      PrefixOptimal(counts, cap, penalty, boundary, previous, first, tailCost, tail, other);
    }
  }

  /** `optimize`: cheapest for every prompt length, with the fewest epochs among the cheapest. */
  method Optimize(counts: seq<Stop>, cap: int, penalty: int) returns (r: Option<seq<int>>)
    ensures r.Some? <==>
            && 1 <= cap <= 64 && 0 <= penalty <= 1_000_000 && counts != []
            && (forall i | 0 <= i < |counts| :: 0 <= counts[i].output <= cap && counts[i].count > 0)
            && (forall i, j | 0 <= i < j < |counts| :: counts[i].output != counts[j].output)
    ensures r.Some? ==> Valid(r.value, cap)
    // Cheapest; among the cheapest of fewest epochs; among those first by the first different size.
    ensures r.Some? ==> forall prompt, other | Valid(other, cap) && other != r.value ::
              var best, cost := Objective(r.value, counts, cap, penalty, prompt),
                                Objective(other, counts, cap, penalty, prompt);
              || best < cost
              || (best == cost && |r.value| < |other|)
              || (best == cost && |r.value| == |other| && exists k: nat :: FirstSmaller(r.value, other, k))
    ensures r.Some? ==> forall prompt, other | Valid(other, cap) ::
              Leq(Objective(r.value, counts, cap, penalty, prompt), r.value,
                  Objective(other, counts, cap, penalty, prompt), other)
  {
    if !(1 <= cap <= MAX_CAP && 0 <= penalty <= 1_000_000 && ValidCounts(counts, cap)) {
      return None;
    }
    var cost, parts := Solve(counts, cap, penalty, 0, 1);
    ChoicesAreValidSchedules(parts, cap);
    forall prompt, other | Valid(other, cap)
      ensures Leq(Objective(parts, counts, cap, penalty, prompt), parts,
                  Objective(other, counts, cap, penalty, prompt), other)
    {
      ChoicesAreValidSchedules(other, cap);
      CostIsObjective(parts, counts, cap, penalty, prompt);
      CostIsObjective(other, counts, cap, penalty, prompt);
    }
    forall prompt, other | Valid(other, cap) && other != parts
      ensures Beats(Objective(parts, counts, cap, penalty, prompt), parts,
                    Objective(other, counts, cap, penalty, prompt), other)
    {
      LeqBeats(Objective(parts, counts, cap, penalty, prompt), parts,
               Objective(other, counts, cap, penalty, prompt), other);
    }
    return Some(parts);
  }

  ghost predicate Beats(best: int, parts: seq<int>, cost: int, other: seq<int>) {
    || best < cost
    || (best == cost && |parts| < |other|)
    || (best == cost && |parts| == |other| && exists k: nat :: FirstSmaller(parts, other, k))
  }

  lemma LeqBeats(best: int, parts: seq<int>, cost: int, other: seq<int>)
    requires Leq(best, parts, cost, other) && parts != other
    ensures Beats(best, parts, cost, other)
  {
    if best == cost && |parts| == |other| {
      var k := LexDiffers(parts, other);
    }
  }

  /** Least objective means least expectation: dividing by the total count keeps the order. */
  lemma LeastExpectation(best: seq<int>, other: seq<int>, counts: seq<Stop>, cap: int, penalty: int, prompt: int)
    requires TotalCount(counts) > 0
    requires Objective(best, counts, cap, penalty, prompt) <= Objective(other, counts, cap, penalty, prompt)
    ensures ExpectedObjective(best, counts, cap, penalty, prompt)
            <= ExpectedObjective(other, counts, cap, penalty, prompt)
  {
    DivideMonotone(Objective(best, counts, cap, penalty, prompt) as real,
                   Objective(other, counts, cap, penalty, prompt) as real, TotalCount(counts) as real);
  }

  lemma DivideMonotone(a: real, b: real, n: real)
    requires n > 0.0 && a <= b
    ensures a / n <= b / n
  {
    var q, r := a / n, b / n;
    assert q * n == a && r * n == b;
    if q > r {
      ScaleStrict(r, q, n);
    }
  }

  lemma ScaleStrict(r: real, q: real, n: real)
    requires r < q && n > 0.0
    ensures r * n < q * n
  {
    assert (q - r) * n > 0.0;
  }

  // ----- Splitting a run into sessions does not change it

  /** What a decode leaves behind: recurrence state, emitted tokens, pending token, random draws taken. */
  datatype Trace = Trace(state: int, output: seq<int>, pending: Option<int>, draws: nat)

  /** The token: the residue of state and draw. */
  function NextToken(state: int, draw: int): (t: int)
    ensures 0 <= t < 101 && exists q :: state + draw == 101 * q + t
  {
    assert state + draw == 101 * ((state + draw) / 101) + (state + draw) % 101;
    (state + draw) % 101
  }

  /** The recurrence. */
  function NextState(state: int, token: int): (s: int)
    ensures 0 <= s < 65521 && exists q :: 31 * state + token == 65521 * q + s
  {
    var v := state * 31 + token;
    assert v == 65521 * (v / 65521) + v % 65521;
    v % 65521
  }

  /** The recurrence without sessions, from step `step` on. */
  ghost function Unsplit(cap: int, eosAfter: Option<int>, draws: nat -> int, step: nat, state: int,
                         output: seq<int>): Trace
    decreases cap - step
  {
    if step >= cap then Trace(state, output, None, step)
    else
      var token := NextToken(state, draws(step));
      if eosAfter == Some(step) then Trace(state, output, None, step + 1)
      else if step + 1 == cap then Trace(state, output + [token], Some(token), step + 1)
      else Unsplit(cap, eosAfter, draws, step + 1, NextState(state, token), output + [token])
  }

  /** A run stopped by EOS has emitted what came before it and drawn once more; a run to the cap emits every draw. */
  lemma {:induction false} UnsplitCounts(cap: int, eosAfter: Option<int>, draws: nat -> int, step: nat, state: int,
                                         output: seq<int>)
    requires step < cap && (eosAfter.Some? ==> step <= eosAfter.value)
    ensures var t, stopped := Unsplit(cap, eosAfter, draws, step, state, output),
                              eosAfter.Some? && eosAfter.value < cap;
            && |t.output| - |output| == (if stopped then eosAfter.value else cap) - step
            && t.draws == (if stopped then eosAfter.value + 1 else cap)
            && (t.pending.None? <==> stopped)
    decreases cap - step
  {
    if eosAfter != Some(step) && step + 1 < cap {
      var token := NextToken(state, draws(step));
      UnsplitCounts(cap, eosAfter, draws, step + 1, NextState(state, token), output + [token]);
    }
  }

  /** A stop position is the number of emitted tokens, and its selections are the draws taken. */
  lemma StopIsOutput(cap: int, n: int, draws: nat -> int)
    requires 1 <= cap && 0 <= n <= cap
    ensures var t := Unsplit(cap, if n < cap then Some(n) else None, draws, 0, 7, []);
            |t.output| == n && t.draws == Selections(n, cap)
  {
    UnsplitCounts(cap, if n < cap then Some(n) else None, draws, 0, 7, []);
  }

  lemma {:induction false} SumPrefix(parts: seq<int>, k: nat)
    requires k < |parts|
    ensures Sum(parts[..k + 1]) == Sum(parts[..k]) + parts[k]
  {
    assert parts[..k + 1] == parts[..k] + [parts[k]];
    SumAppend(parts[..k], parts[k]);
  }

  lemma {:induction false} SumPrefixBelow(parts: seq<int>, k: nat)
    requires k < |parts| && forall i | 0 <= i < |parts| :: parts[i] >= 1
    ensures Sum(parts[..k]) < Sum(parts)
    decreases |parts| - k
  {
    SumPrefix(parts, k);
    if k + 1 < |parts| {
      SumPrefixBelow(parts, k + 1);
    } else {
      assert parts[..k + 1] == parts;
    }
  }

  /** `toy_oracle`: the session bookkeeping never runs out of epochs and never alters the trace. */
  method ToyOracle(parts: seq<int>, cap: int, eosAfter: Option<int>, draws: nat -> int) returns (r: Option<Trace>)
    ensures r.Some? <==> Valid(parts, cap)
    ensures r.Some? ==> r.value == Unsplit(cap, eosAfter, draws, 0, 7, [])
  {
    r := None;
    if !Valid(parts, cap) {
      return;
    }
    var state, output: seq<int>, session, boundary := 7, [], 1, parts[0];
    assert parts[..1] == [parts[0]] && [parts[0]][1..] == [];
    SumBounds(parts);
    for step := 0 to cap
      invariant 1 <= session <= |parts| && boundary == Sum(parts[..session]) && step < boundary <= cap
      invariant Unsplit(cap, eosAfter, draws, step, state, output) == Unsplit(cap, eosAfter, draws, 0, 7, [])
    {
      var token := NextToken(state, draws(step));
      if eosAfter == Some(step) {
        return Some(Trace(state, output, None, step + 1));
      }
      output := output + [token];
      if step + 1 == cap {
        return Some(Trace(state, output, Some(token), step + 1));
      }
      if step + 1 == boundary {
        assert parts[..|parts|] == parts;
        assert session < |parts|;
        session := session + 1;
        SumPrefix(parts, session - 1);
        boundary := boundary + parts[session - 1];
        assert boundary <= cap by {
          if session < |parts| {
            SumPrefixBelow(parts, session);
          } else {
            assert parts[..session] == parts;
          }
        }
      }
      state := NextState(state, token);
    }
    // The last step always returns.
    assert false;
  }
}
