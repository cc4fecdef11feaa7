/**
 `terminal_groups`: a backward worklist analysis of how many rows of every
 operation are needed, and the proof that the remote stages it selects may
 return garbage in all rows but the last.
 */
module RowDemand {
  import opened Wrappers

  datatype Op = Op(operator: string, inputs: seq<string>)

  datatype Graph = Graph(operations: map<string, Op>, output: string, stateOutputs: seq<string>)

  const LAST := 1
  const ALL := 2

  predicate Pointwise(operator: string) {
    operator in ["linear", "output_head", "rms_norm", "residual_add", "silu",
                 "elementwise_multiply", "gated_multiply", "multiply", "gelu_tanh", "softcap"]
  }

  /** What an operation needs of its inputs when `wanted` is needed of it. */
  function Upstream(operator: string, wanted: int): (u: int)
    requires LAST <= wanted <= ALL
    ensures LAST <= u <= ALL
  {
    if operator == "last_token" then LAST else if Pointwise(operator) then wanted else ALL
  }

  function Level(demand: map<string, int>, id: string): int {
    if id in demand then demand[id] else 0
  }

  function Roots(g: Graph): seq<string> {
    [g.output] + g.stateOutputs
  }

  /** What the caller of the graph sees: its output and every state output. */
  ghost predicate IsRoot(g: Graph, root: string) {
    root == g.output || root in g.stateOutputs
  }

  /** The operators that act row by row; of the others only `last_token` asks less than everything. */
  lemma DemandTable(operator: string, wanted: int)
    requires LAST <= wanted <= ALL
    ensures Upstream(operator, wanted) ==
            match operator
            case "last_token" => 1
            case "linear" => wanted
            case "output_head" => wanted
            case "rms_norm" => wanted
            case "residual_add" => wanted
            case "silu" => wanted
            case "elementwise_multiply" => wanted
            case "gated_multiply" => wanted
            case "multiply" => wanted
            case "gelu_tanh" => wanted
            case "softcap" => wanted
            case _ => 2
  {
  }

  // ----- The constraints and their least solution

  ghost predicate ValidDemand(g: Graph, d: map<string, int>) {
    forall id | id in d :: id in g.operations && LAST <= d[id] <= ALL
  }

  ghost predicate InputServed(g: Graph, d: map<string, int>, id: string, source: string)
    requires ValidDemand(g, d) && id in d
  {
    source in g.operations ==> Level(d, source) >= Upstream(g.operations[id].operator, d[id])
  }

  /** Roots need all rows, and every demanded operation has its inputs served. */
  ghost predicate Solution(g: Graph, d: map<string, int>) {
    && ValidDemand(g, d)
    && (forall r | r in Roots(g) && r in g.operations :: Level(d, r) == ALL)
    && (forall id, source | id in d && source in g.operations[id].inputs :: InputServed(g, d, id, source))
  }

  /** The solution that demands no more than any other. */
  ghost predicate LeastSolution(g: Graph, d: map<string, int>) {
    Solution(g, d) && forall s | Solution(g, s) :: forall id | id in d :: d[id] <= Level(s, id)
  }

  /** A constraint is met, or a queue entry will meet it. */
  ghost predicate Pending(queue: seq<(string, int)>, d: map<string, int>, id: string, wanted: int) {
    Level(d, id) >= wanted || (id, wanted) in queue
  }

  ghost predicate WorkInvariant(g: Graph, d: map<string, int>, queue: seq<(string, int)>) {
    && ValidDemand(g, d)
    && (forall e | e in queue :: LAST <= e.1 <= ALL)
    && (forall r | r in Roots(g) && r in g.operations :: Pending(queue, d, r, ALL))
    && (forall id, source | id in d && source in g.operations[id].inputs && source in g.operations ::
          Pending(queue, d, source, Upstream(g.operations[id].operator, d[id])))
  }

  /** Nothing was demanded, or is queued, that any solution does not also demand. */
  ghost predicate Below(g: Graph, d: map<string, int>, queue: seq<(string, int)>, s: map<string, int>) {
    && (forall id | id in d :: d[id] <= Level(s, id))
    && (forall e | e in queue && e.0 in g.operations :: e.1 <= Level(s, e.0))
  }

  ghost function Unmet(g: Graph, d: map<string, int>, level: int): set<string> {
    set id | id in g.operations && Level(d, id) < level
  }

  function Enqueued(inputs: seq<string>, wanted: int): (q: seq<(string, int)>)
    ensures forall e :: e in q <==> e.0 in inputs && e.1 == wanted
  {
    if inputs == [] then [] else [(inputs[0], wanted)] + Enqueued(inputs[1..], wanted)
  }

  lemma StepKeepsWork(g: Graph, d: map<string, int>, queue: seq<(string, int)>, id: string, wanted: int)
    requires WorkInvariant(g, d, [(id, wanted)] + queue)
    requires id in g.operations && Level(d, id) < wanted
    ensures WorkInvariant(g, d[id := wanted],
              queue + Enqueued(g.operations[id].inputs, Upstream(g.operations[id].operator, wanted)))
  {
    var u := Upstream(g.operations[id].operator, wanted);
    var d', q := d[id := wanted], queue + Enqueued(g.operations[id].inputs, u);
    forall r | r in Roots(g) && r in g.operations ensures Pending(q, d', r, ALL) {
      assert Pending([(id, wanted)] + queue, d, r, ALL);
    }
    forall k, source | k in d' && source in g.operations[k].inputs && source in g.operations
      ensures Pending(q, d', source, Upstream(g.operations[k].operator, d'[k]))
    {
      if k == id {
        assert (source, u) in Enqueued(g.operations[id].inputs, u);
      } else {
        assert Pending([(id, wanted)] + queue, d, source, Upstream(g.operations[k].operator, d[k]));
      }
    }
  }

  lemma SkipKeepsWork(g: Graph, d: map<string, int>, queue: seq<(string, int)>, id: string, wanted: int)
    requires WorkInvariant(g, d, [(id, wanted)] + queue)
    requires id !in g.operations || Level(d, id) >= wanted
    ensures WorkInvariant(g, d, queue)
  {
    forall r | r in Roots(g) && r in g.operations ensures Pending(queue, d, r, ALL) {
      assert Pending([(id, wanted)] + queue, d, r, ALL);
    }
    forall k, source | k in d && source in g.operations[k].inputs && source in g.operations
      ensures Pending(queue, d, source, Upstream(g.operations[k].operator, d[k]))
    {
      assert Pending([(id, wanted)] + queue, d, source, Upstream(g.operations[k].operator, d[k]));
    }
  }

  lemma StepStaysBelow(g: Graph, d: map<string, int>, queue: seq<(string, int)>, id: string, wanted: int,
                       s: map<string, int>)
    requires Solution(g, s) && Below(g, d, [(id, wanted)] + queue, s)
    requires id in g.operations && LAST <= wanted <= ALL
    ensures Below(g, d[id := wanted],
              queue + Enqueued(g.operations[id].inputs, Upstream(g.operations[id].operator, wanted)), s)
  {
    assert (id, wanted) in [(id, wanted)] + queue;
    var u := Upstream(g.operations[id].operator, wanted);
    forall e | e in Enqueued(g.operations[id].inputs, u) && e.0 in g.operations ensures e.1 <= Level(s, e.0) {
      assert InputServed(g, s, id, e.0);
    }
  }

  /** The worklist: terminates, and returns the least solution of the constraints. */
  method Demand(g: Graph) returns (d: map<string, int>)
    ensures LeastSolution(g, d)
  {
    d := map[];
    var queue := Enqueued(Roots(g), ALL);
    while queue != []
      invariant WorkInvariant(g, d, queue)
      invariant forall s | Solution(g, s) :: Below(g, d, queue, s)
      decreases Unmet(g, d, LAST), Unmet(g, d, ALL), |queue|
    {
      var (id, wanted) := queue[0];
      ghost var before, all := d, queue;
      queue := queue[1..];
      assert all == [(id, wanted)] + queue;
      if id !in g.operations || Level(d, id) >= wanted {
        SkipKeepsWork(g, d, queue, id, wanted);
      } else {
        var op := g.operations[id];
        StepKeepsWork(g, d, queue, id, wanted);
        forall s | Solution(g, s)
          ensures Below(g, d[id := wanted], queue + Enqueued(op.inputs, Upstream(op.operator, wanted)), s)
        {
          StepStaysBelow(g, d, queue, id, wanted, s);
        }
        d := d[id := wanted];
        queue := queue + Enqueued(op.inputs, Upstream(op.operator, wanted));
        UnmetShrinks(g, before, id, wanted);
      }
    }
    forall s | Solution(g, s) ensures forall id | id in d :: d[id] <= Level(s, id) {
      assert Below(g, d, queue, s);
    }
    SettledWork(g, d);
  }

  lemma UnmetShrinks(g: Graph, d: map<string, int>, id: string, wanted: int)
    requires id in g.operations && Level(d, id) < wanted && LAST <= wanted <= ALL
    requires ValidDemand(g, d)
    ensures var d' := d[id := wanted];
            || Unmet(g, d', LAST) < Unmet(g, d, LAST)
            || (Unmet(g, d', LAST) == Unmet(g, d, LAST) && Unmet(g, d', ALL) < Unmet(g, d, ALL))
  {
    var d' := d[id := wanted];
    assert forall k :: Level(d', k) == if k == id then wanted else Level(d, k);
    if id in d {
      assert id in Unmet(g, d, ALL) && id !in Unmet(g, d', ALL);
      assert Unmet(g, d', LAST) == Unmet(g, d, LAST);
    } else {
      assert id in Unmet(g, d, LAST) && id !in Unmet(g, d', LAST);
    }
  }

  lemma SettledWork(g: Graph, d: map<string, int>)
    requires WorkInvariant(g, d, [])
    ensures Solution(g, d)
  {
    forall r | r in Roots(g) && r in g.operations ensures Level(d, r) == ALL {
      assert Pending([], d, r, ALL);
    }
    forall id, source | id in d && source in g.operations[id].inputs ensures InputServed(g, d, id, source) {
      assert source in g.operations ==> Pending([], d, source, Upstream(g.operations[id].operator, d[id]));
    }
  }

  // ----- What the operations compute

  /** A value is a sequence of rows; `apply` is the operation named by its identifier. */
  datatype Meaning<!R> = Meaning(external: string -> seq<R>, apply: (string, seq<seq<R>>) -> seq<R>)

  ghost predicate SameLast<R>(v: seq<R>, w: seq<R>) {
    |v| == |w| && (v != [] ==> v[|v| - 1] == w[|w| - 1])
  }

  ghost predicate SameLasts<R>(vs: seq<seq<R>>, ws: seq<seq<R>>) {
    |vs| == |ws| && forall i | 0 <= i < |vs| :: SameLast(vs[i], ws[i])
  }

  /**
   The listed operators act row by row, so an unchanged last row of every input
   gives an unchanged last row of the output; `last_token` reads nothing else.
   */
  ghost predicate RowLocal<R(!new)>(g: Graph, m: Meaning<R>) {
    && (forall id, vs, ws | id in g.operations && Pointwise(g.operations[id].operator) && SameLasts(vs, ws) ::
          SameLast(m.apply(id, vs), m.apply(id, ws)))
    && (forall id, vs, ws | id in g.operations && g.operations[id].operator == "last_token" && SameLasts(vs, ws) ::
          m.apply(id, vs) == m.apply(id, ws))
  }

  // ----- Operators that are row-local

  ghost predicate Aligned<R>(vs: seq<seq<R>>, n: nat) {
    vs != [] && forall i | 0 <= i < |vs| :: |vs[i]| == n
  }

  ghost function RowOf<R>(vs: seq<seq<R>>, r: nat, n: nat): seq<R>
    requires r < n && Aligned(vs, n)
  {
    seq(|vs|, i requires 0 <= i < |vs| => vs[i][r])
  }

  /** `f` applied to the aligned rows of the inputs; misaligned inputs have no rows to apply it to. */
  ghost function MapRows<R>(f: seq<R> -> R, vs: seq<seq<R>>): seq<R> {
    if vs != [] && Aligned(vs, |vs[0]|)
    then seq(|vs[0]|, r requires 0 <= r < |vs[0]| => f(RowOf(vs, r, |vs[0]|)))
    else []
  }

  ghost function LastRow<R>(vs: seq<seq<R>>): seq<R> {
    if |vs| == 1 && vs[0] != [] then [vs[0][|vs[0]| - 1]] else []
  }

  /** The listed operators map rows one by one, and `last_token` returns the last row alone. */
  ghost predicate RowWise<R(!new)>(g: Graph, m: Meaning<R>, f: string -> seq<R> -> R) {
    && (forall id, vs | id in g.operations && Pointwise(g.operations[id].operator) ::
          m.apply(id, vs) == MapRows(f(id), vs))
    && (forall id, vs | id in g.operations && g.operations[id].operator == "last_token" ::
          m.apply(id, vs) == LastRow(vs))
  }

  lemma MapRowsKeepsLast<R>(f: seq<R> -> R, vs: seq<seq<R>>, ws: seq<seq<R>>)
    requires SameLasts(vs, ws)
    ensures SameLast(MapRows(f, vs), MapRows(f, ws))
  {
    assert forall i | 0 <= i < |vs| :: SameLast(vs[i], ws[i]);
    if vs != [] {
      var n := |vs[0]|;
      assert Aligned(vs, n) <==> Aligned(ws, n);
      if Aligned(vs, n) && n > 0 {
        assert RowOf(vs, n - 1, n) == RowOf(ws, n - 1, n);
      }
    }
  }

  lemma LastRowKeepsLast<R>(vs: seq<seq<R>>, ws: seq<seq<R>>)
    requires SameLasts(vs, ws)
    ensures LastRow(vs) == LastRow(ws)
  {
    if |vs| == 1 {
      assert SameLast(vs[0], ws[0]);
    }
  }

  /** Whatever the row functions compute, row-wise operators have the property assumed above. */
  lemma RowWiseIsLocal<R(!new)>(g: Graph, m: Meaning<R>, f: string -> seq<R> -> R)
    requires RowWise(g, m, f)
    ensures RowLocal(g, m)
  {
    forall id, vs, ws | id in g.operations && Pointwise(g.operations[id].operator) && SameLasts(vs, ws)
      ensures SameLast(m.apply(id, vs), m.apply(id, ws))
    {
      MapRowsKeepsLast(f(id), vs, ws);
    }
    forall id, vs, ws | id in g.operations && g.operations[id].operator == "last_token" && SameLasts(vs, ws)
      ensures m.apply(id, vs) == m.apply(id, ws)
    {
      LastRowKeepsLast(vs, ws);
    }
  }

  /** The graph is acyclic: operations rank above the operations they read. */
  ghost predicate Ranked(g: Graph, rank: map<string, nat>) {
    forall id | id in g.operations ::
      && id in rank
      && forall s | s in g.operations[id].inputs && s in g.operations :: s in rank && rank[s] < rank[id]
  }

  /** Evaluation in which `tamper` may replace the result of any operation. */
  ghost function Run<R>(g: Graph, m: Meaning<R>, rank: map<string, nat>,
                        tamper: (string, seq<R>) -> seq<R>, id: string): seq<R>
    requires Ranked(g, rank)
    decreases if id in g.operations then rank[id] + 1 else 0
  {
    if id !in g.operations then m.external(id)
    else
      var inputs := g.operations[id].inputs;
      tamper(id, m.apply(id, seq(|inputs|, i requires 0 <= i < |inputs| => Run(g, m, rank, tamper, inputs[i]))))
  }

  ghost function Clean<R>(g: Graph, m: Meaning<R>, rank: map<string, nat>, id: string): seq<R>
    requires Ranked(g, rank)
  {
    Run(g, m, rank, (_, v: seq<R>) => v, id)
  }

  /** Arbitrary garbage in the rows before the last of the given operations, and nowhere else. */
  ghost predicate CorruptsBeforeLast<R(!new)>(tamper: (string, seq<R>) -> seq<R>, ops: set<string>) {
    && (forall id, v | id in ops :: SameLast(tamper(id, v), v))
    && (forall id, v | id !in ops :: tamper(id, v) == v)
  }

  ghost predicate Agrees<R>(level: int, v: seq<R>, w: seq<R>) {
    && (level == ALL ==> v == w)
    && (level == LAST ==> SameLast(v, w))
  }

  ghost function Inputs<R>(g: Graph, m: Meaning<R>, rank: map<string, nat>,
                           tamper: (string, seq<R>) -> seq<R>, id: string): seq<seq<R>>
    requires Ranked(g, rank) && id in g.operations
  {
    var inputs := g.operations[id].inputs;
    seq(|inputs|, i requires 0 <= i < |inputs| => Run(g, m, rank, tamper, inputs[i]))
  }

  lemma {:induction false} DemandedRowsAgree<R(!new)>(
    g: Graph, m: Meaning<R>, rank: map<string, nat>, d: map<string, int>,
    tamper: (string, seq<R>) -> seq<R>, ops: set<string>, id: string)
    requires Ranked(g, rank) && RowLocal(g, m) && Solution(g, d)
    requires CorruptsBeforeLast(tamper, ops) && forall k | k in ops :: Level(d, k) <= LAST
    ensures id !in g.operations ==> Run(g, m, rank, tamper, id) == Clean(g, m, rank, id)
    ensures Agrees(Level(d, id), Run(g, m, rank, tamper, id), Clean(g, m, rank, id))
    decreases if id in g.operations then rank[id] + 1 else 0
  {
    if id in g.operations && id in d {
      var op := g.operations[id];
      var clean := (_: string, v: seq<R>) => v;
      var vs, ws := Inputs(g, m, rank, tamper, id), Inputs(g, m, rank, clean, id);
      forall i | 0 <= i < |op.inputs|
        ensures Agrees(Upstream(op.operator, d[id]), vs[i], ws[i])
      {
        DemandedRowsAgree(g, m, rank, d, tamper, ops, op.inputs[i]);
        assert InputServed(g, d, id, op.inputs[i]);
      }
      assert Run(g, m, rank, tamper, id) == tamper(id, m.apply(id, vs));
      assert Clean(g, m, rank, id) == m.apply(id, ws);
      if Upstream(op.operator, d[id]) == ALL {
        assert vs == ws;
      } else {
        assert SameLasts(vs, ws);
      }
    }
  }

  /**
   Row pruning preserves meaning: whatever is returned in the rows before the
   last by operations demanded only at LAST, the output and all state outputs
   are unchanged.
   */
  lemma PruningPreservesOutputs<R(!new)>(g: Graph, m: Meaning<R>, rank: map<string, nat>, d: map<string, int>,
                                         tamper: (string, seq<R>) -> seq<R>, ops: set<string>, root: string)
    requires Ranked(g, rank) && RowLocal(g, m) && Solution(g, d)
    requires CorruptsBeforeLast(tamper, ops) && forall k | k in ops :: Level(d, k) <= LAST
    requires IsRoot(g, root)
    ensures Run(g, m, rank, tamper, root) == Clean(g, m, rank, root)
  {
    DemandedRowsAgree(g, m, rank, d, tamper, ops, root);
  }

  // ----- Selecting whole remote stages

  datatype Step = Step(executor: string, ids: seq<string>)

  datatype SelectError = MissingKey | AmbiguousStage

  /** A linear map of which only the last row is needed. */
  predicate LastLinear(g: Graph, d: map<string, int>, key: string) {
    key in g.operations && g.operations[key].operator == "linear" && Level(d, key) == LAST
  }

  /** Every operation of the step is such a map. */
  predicate Droppable(g: Graph, d: map<string, int>, step: Step) {
    step.executor == "remote_stage" && forall key | key in step.ids :: LastLinear(g, d, key)
  }

  function Binding(key: string): string {
    "prefill:" + key
  }

  ghost predicate AllBoundTo(bindings: map<string, string>, ids: seq<string>, stage: string) {
    ids != [] && forall key | key in ids :: Binding(key) in bindings && bindings[Binding(key)] == stage
  }

  /** The step is droppable and all its operations are bound to `stage`. */
  ghost predicate SelectsStage(g: Graph, d: map<string, int>, bindings: map<string, string>, step: Step, stage: string)
  {
    Droppable(g, d, step) && AllBoundTo(bindings, step.ids, stage)
  }

  /** The selection, spelled out. */
  lemma SelectionMeans(g: Graph, d: map<string, int>, bindings: map<string, string>, step: Step, stage: string)
    ensures SelectsStage(g, d, bindings, step, stage) <==>
            && step.executor == "remote_stage" && step.ids != []
            && forall i | 0 <= i < |step.ids| ::
                 var key := step.ids[i];
                 && key in g.operations && g.operations[key].operator == "linear" && key in d && d[key] == 1
                 && ("prefill:" + key) in bindings && bindings["prefill:" + key] == stage
  {
    if SelectsStage(g, d, bindings, step, stage) {
      forall i | 0 <= i < |step.ids| ensures LastLinear(g, d, step.ids[i]) && Binding(step.ids[i]) in bindings {
        assert step.ids[i] in step.ids;
      }
    }
  }

  // ----- What each step raises

  /** The test meets an operation outside the graph before one that fails it. */
  ghost predicate TestRaises(g: Graph, d: map<string, int>, step: Step) {
    && step.executor == "remote_stage"
    && exists k | 0 <= k < |step.ids| ::
         step.ids[k] !in g.operations && forall j | 0 <= j < k :: LastLinear(g, d, step.ids[j])
  }

  ghost predicate Unbound(bindings: map<string, string>, ids: seq<string>) {
    exists key | key in ids :: Binding(key) !in bindings
  }

  /** A KeyError: in the test, or in the lookup of a droppable step's stages. */
  ghost predicate StepMissing(g: Graph, d: map<string, int>, bindings: map<string, string>, step: Step) {
    TestRaises(g, d, step) || (Droppable(g, d, step) && Unbound(bindings, step.ids))
  }

  /** The ValueError: a droppable step without a unique stage. */
  ghost predicate StepAmbiguous(g: Graph, d: map<string, int>, bindings: map<string, string>, step: Step) {
    && Droppable(g, d, step) && !Unbound(bindings, step.ids)
    && forall stage :: !AllBoundTo(bindings, step.ids, stage)
  }

  ghost predicate StepFine(g: Graph, d: map<string, int>, bindings: map<string, string>, step: Step) {
    !StepMissing(g, d, bindings, step) && !StepAmbiguous(g, d, bindings, step)
  }

  ghost predicate FineBefore(g: Graph, d: map<string, int>, bindings: map<string, string>, steps: seq<Step>, k: nat)
    requires k <= |steps|
  {
    forall j | 0 <= j < k :: StepFine(g, d, bindings, steps[j])
  }

  /** `all(...)` over the step's operations, with its short circuit on a lookup error. */
  method TestStep(g: Graph, d: map<string, int>, step: Step) returns (r: Result<bool, SelectError>)
    ensures r == Failure(MissingKey) <==> TestRaises(g, d, step)
    ensures r.Failure? ==> r.error == MissingKey
    ensures r.Success? ==> r.value == Droppable(g, d, step)
  {
    if step.executor != "remote_stage" {
      return Success(false);
    }
    for k := 0 to |step.ids|
      invariant forall j | 0 <= j < k :: LastLinear(g, d, step.ids[j])
    {
      var key := step.ids[k];
      if key !in g.operations {
        return Failure(MissingKey);
      }
      if g.operations[key].operator != "linear" || Level(d, key) != LAST {
        assert !LastLinear(g, d, key);
        return Success(false);
      }
    }
    return Success(true);
  }

  method BoundStage(bindings: map<string, string>, ids: seq<string>) returns (r: Result<string, SelectError>)
    ensures r.Success? ==> AllBoundTo(bindings, ids, r.value)
    ensures r == Failure(MissingKey) <==> Unbound(bindings, ids)
    ensures r.Failure? ==> forall stage :: !AllBoundTo(bindings, ids, stage)
  {
    var stages: set<string> := {};
    for k := 0 to |ids|
      invariant forall j | 0 <= j < k :: Binding(ids[j]) in bindings
      invariant forall s :: s in stages <==> exists j | 0 <= j < k :: bindings[Binding(ids[j])] == s
    {
      if Binding(ids[k]) !in bindings {
        assert ids[k] in ids;
        return Failure(MissingKey);
      }
      stages := stages + {bindings[Binding(ids[k])]};
    }
    if ids == [] {
      return Failure(AmbiguousStage);
    }
    var first := bindings[Binding(ids[0])];
    if stages != {first} {
      assert first in stages;
      var other :| other in stages && other != first;
      var j :| 0 <= j < |ids| && bindings[Binding(ids[j])] == other;
      assert ids[0] in ids && ids[j] in ids;
      return Failure(AmbiguousStage);
    }
    forall key | key in ids ensures bindings[Binding(key)] == first {
      var j :| 0 <= j < |ids| && ids[j] == key;
      assert bindings[Binding(ids[j])] in stages;
    }
    return Success(first);
  }

  /** What one step of the schedule contributes: its stage, nothing, or an error. */
  method StepStage(g: Graph, d: map<string, int>, bindings: map<string, string>, step: Step)
    returns (r: Result<Option<string>, SelectError>)
    ensures r == Failure(MissingKey) <==> StepMissing(g, d, bindings, step)
    ensures r == Failure(AmbiguousStage) <==> StepAmbiguous(g, d, bindings, step)
    ensures r.Success? ==> forall stage :: SelectsStage(g, d, bindings, step, stage) <==> r.value == Some(stage)
  {
    var test := TestStep(g, d, step);
    if test.Failure? {
      TestExclusive(g, d, step);
      return Failure(test.error);
    }
    if !test.value {
      return Success(None);
    }
    TestExclusive(g, d, step);
    var bound := BoundStage(bindings, step.ids);
    if bound.Failure? {
      assert bound.error.MissingKey? || bound.error.AmbiguousStage?;
      return Failure(bound.error);
    }
    forall s ensures SelectsStage(g, d, bindings, step, s) <==> s == bound.value {
      assert step.ids[0] in step.ids;
    }
    return Success(Some(bound.value));
  }

  lemma TestExclusive(g: Graph, d: map<string, int>, step: Step)
    ensures !(TestRaises(g, d, step) && Droppable(g, d, step))
  {
    if TestRaises(g, d, step) {
      var k :| 0 <= k < |step.ids| && step.ids[k] !in g.operations;
      assert !LastLinear(g, d, step.ids[k]);
    }
  }

  method TerminalGroups(g: Graph, steps: seq<Step>, bindings: map<string, string>)
    returns (r: Result<set<string>, SelectError>, d: map<string, int>)
    ensures LeastSolution(g, d)
    ensures r.Success? ==>
      forall stage :: stage in r.value <==> exists k | 0 <= k < |steps| :: SelectsStage(g, d, bindings, steps[k], stage)
    ensures r.Success? <==> FineBefore(g, d, bindings, steps, |steps|)
    ensures r == Failure(MissingKey) <==>
      exists k | 0 <= k < |steps| :: FineBefore(g, d, bindings, steps, k) && StepMissing(g, d, bindings, steps[k])
    ensures r == Failure(AmbiguousStage) <==>
      exists k | 0 <= k < |steps| :: FineBefore(g, d, bindings, steps, k) && StepAmbiguous(g, d, bindings, steps[k])
  {
    d := Demand(g);
    var result: set<string> := {};
    for k := 0 to |steps|
      invariant FineBefore(g, d, bindings, steps, k)
      invariant forall stage :: stage in result <==>
                  exists j | 0 <= j < k :: SelectsStage(g, d, bindings, steps[j], stage)
    {
      var found := StepStage(g, d, bindings, steps[k]);
      if found.Failure? {
        assert found.error.MissingKey? || found.error.AmbiguousStage?;
        FirstErrorUnique(g, d, bindings, steps, k);
        return Failure(found.error), d;
      }
      if found.value.Some? {
        result := result + {found.value.value};
      }
    }
    return Success(result), d;
  }

  /** Only one step can be the first that raises. */
  lemma FirstErrorUnique(g: Graph, d: map<string, int>, bindings: map<string, string>, steps: seq<Step>, k: nat)
    requires k < |steps| && FineBefore(g, d, bindings, steps, k) && !StepFine(g, d, bindings, steps[k])
    ensures !FineBefore(g, d, bindings, steps, |steps|)
    ensures forall j | 0 <= j < |steps| && FineBefore(g, d, bindings, steps, j)
                       && !StepFine(g, d, bindings, steps[j]) :: j == k
  {
  }

  /** Every stage was selected by some step. */
  ghost predicate Selected(g: Graph, d: map<string, int>, steps: seq<Step>, bindings: map<string, string>,
                           stages: set<string>)
  {
    forall stage | stage in stages :: exists k | 0 <= k < |steps| :: SelectsStage(g, d, bindings, steps[k], stage)
  }

  /** Scheduled operations whose bound stage was selected. */
  ghost predicate Served(steps: seq<Step>, bindings: map<string, string>, stages: set<string>, key: string) {
    && Binding(key) in bindings && bindings[Binding(key)] in stages
    && exists k | 0 <= k < |steps| :: key in steps[k].ids
  }

  /** Each stage is bound by the operations of one step only. */
  ghost predicate StagesOwned(steps: seq<Step>, bindings: map<string, string>) {
    forall j, k, a, b | 0 <= j < |steps| && 0 <= k < |steps| && a in steps[j].ids && b in steps[k].ids
                        && Binding(a) in bindings && Binding(b) in bindings
                        && bindings[Binding(a)] == bindings[Binding(b)] :: j == k
  }

  /** With owned stages, every operation a selected stage serves is demanded at LAST. */
  lemma ServedOnlyLast(g: Graph, d: map<string, int>, steps: seq<Step>, bindings: map<string, string>,
                       stages: set<string>, key: string)
    requires StagesOwned(steps, bindings) && Served(steps, bindings, stages, key)
    requires Selected(g, d, steps, bindings, stages)
    ensures Level(d, key) == LAST
  {
    var stage := bindings[Binding(key)];
    var k :| 0 <= k < |steps| && SelectsStage(g, d, bindings, steps[k], stage);
    var j :| 0 <= j < |steps| && key in steps[j].ids;
    var a := steps[k].ids[0];
    assert a in steps[k].ids;
    assert j == k;
  }

  /** The end-to-end claim: selected stages may corrupt all their rows but the last. */
  lemma SelectedStagesDroppable<R(!new)>(g: Graph, m: Meaning<R>, rank: map<string, nat>, d: map<string, int>,
                                         steps: seq<Step>, bindings: map<string, string>, stages: set<string>,
                                         tamper: (string, seq<R>) -> seq<R>, ops: set<string>, root: string)
    requires Ranked(g, rank) && RowLocal(g, m) && Solution(g, d) && StagesOwned(steps, bindings)
    requires Selected(g, d, steps, bindings, stages)
    requires forall key | key in ops :: Served(steps, bindings, stages, key)
    requires CorruptsBeforeLast(tamper, ops) && IsRoot(g, root)
    ensures Run(g, m, rank, tamper, root) == Clean(g, m, rank, root)
  {
    forall key | key in ops ensures Level(d, key) <= LAST {
      ServedOnlyLast(g, d, steps, bindings, stages, key);
    }
    PruningPreservesOutputs(g, m, rank, d, tamper, ops, root);
  }

  // ----- The analysis is exact

  /** Any garbage before the last rows of `ops` leaves every root unchanged, whatever the operators compute. */
  ghost predicate SafeToDrop(g: Graph, rank: map<string, nat>, ops: set<string>)
    requires Ranked(g, rank)
  {
    forall m: Meaning<bool>, tamper: (string, seq<bool>) -> seq<bool>, root |
      RowLocal(g, m) && CorruptsBeforeLast(tamper, ops) && IsRoot(g, root) ::
      Run(g, m, rank, tamper, root) == Clean(g, m, rank, root)
  }

  /**
   Dropping is safe if and only if no dropped operation is demanded in full by the
   least solution: of operators known only to be row-local, no smaller demand is safe.
   */
  lemma SafeIffLastDemand(g: Graph, rank: map<string, nat>, d: map<string, int>, ops: set<string>)
    requires Ranked(g, rank) && LeastSolution(g, d)
    ensures SafeToDrop(g, rank, ops) <==> forall k | k in ops :: Level(d, k) <= LAST
  {
    if forall k | k in ops :: Level(d, k) <= LAST {
      forall m: Meaning<bool>, tamper: (string, seq<bool>) -> seq<bool>, root |
        RowLocal(g, m) && CorruptsBeforeLast(tamper, ops) && IsRoot(g, root)
        ensures Run(g, m, rank, tamper, root) == Clean(g, m, rank, root)
      {
        PruningPreservesOutputs(g, m, rank, d, tamper, ops, root);
      }
    }
    forall k | k in ops && Level(d, k) > LAST ensures !SafeToDrop(g, rank, ops) {
      TaintPropagates(g, rank, k);
      TaintReachesRoot(g, d, k, FirstTaint(g, rank, k), LastTaint(g, rank, k));
      var root :| root in Roots(g) && (FirstTaint(g, rank, k)(root) || LastTaint(g, rank, k)(root));
      TaintRowLocal(g);
      TaintCleanRun(g, rank, root);
      TaintCorrupts(k, ops);
    }
  }

  // A row is tainted (true) when it depends on a corrupted row: the meaning that
  // forgets nothing. Values have two rows; a taint enters at row 0 of one operation.

  ghost predicate FirstTainted(vs: seq<seq<bool>>) {
    exists i | 0 <= i < |vs| :: |vs[i]| == 2 && vs[i][0]
  }

  ghost predicate LastTainted(vs: seq<seq<bool>>) {
    exists i | 0 <= i < |vs| :: vs[i] != [] && vs[i][|vs[i]| - 1]
  }

  ghost function TaintRows(operator: string, vs: seq<seq<bool>>): (r: seq<bool>)
    ensures |r| == 2
  {
    if operator == "last_token" then [LastTainted(vs), LastTainted(vs)]
    else if Pointwise(operator) then [FirstTainted(vs), LastTainted(vs)]
    else
      var any := FirstTainted(vs) || LastTainted(vs);
      [any, any]
  }

  ghost function TaintMeaning(g: Graph): Meaning<bool> {
    Meaning(_ => [false, false],
            (id, vs) => if id in g.operations then TaintRows(g.operations[id].operator, vs) else [])
  }

  ghost function TaintAt(k: string): (string, seq<bool>) -> seq<bool> {
    (id, v: seq<bool>) => if id == k && |v| == 2 then [true, v[1]] else v
  }

  lemma SameLastTaint(vs: seq<seq<bool>>, ws: seq<seq<bool>>)
    requires SameLasts(vs, ws)
    ensures LastTainted(vs) == LastTainted(ws)
  {
    assert forall i | 0 <= i < |vs| :: SameLast(vs[i], ws[i]);
  }

  lemma TaintRowLocal(g: Graph)
    ensures RowLocal(g, TaintMeaning(g))
  {
    var m := TaintMeaning(g);
    forall id, vs, ws | id in g.operations && SameLasts(vs, ws)
      ensures Pointwise(g.operations[id].operator) ==> SameLast(m.apply(id, vs), m.apply(id, ws))
      ensures g.operations[id].operator == "last_token" ==> m.apply(id, vs) == m.apply(id, ws)
    {
      SameLastTaint(vs, ws);
    }
  }

  lemma {:induction false} TaintCleanRun(g: Graph, rank: map<string, nat>, id: string)
    requires Ranked(g, rank)
    ensures Clean(g, TaintMeaning(g), rank, id) == [false, false]
    decreases if id in g.operations then rank[id] + 1 else 0
  {
    if id in g.operations {
      var m, clean := TaintMeaning(g), (_: string, v: seq<bool>) => v;
      var inputs := g.operations[id].inputs;
      var vs := Inputs(g, m, rank, clean, id);
      forall i | 0 <= i < |vs| ensures vs[i] == [false, false] {
        TaintCleanRun(g, rank, inputs[i]);
      }
      assert Clean(g, m, rank, id) == m.apply(id, vs);
    }
  }

  ghost function Tainted(g: Graph, rank: map<string, nat>, k: string, id: string): (v: seq<bool>)
    requires Ranked(g, rank)
    ensures |v| == 2
  {
    Run(g, TaintMeaning(g), rank, TaintAt(k), id)
  }

  ghost function FirstTaint(g: Graph, rank: map<string, nat>, k: string): string -> bool
    requires Ranked(g, rank)
  {
    id => Ranked(g, rank) && Tainted(g, rank, k, id)[0]
  }

  ghost function LastTaint(g: Graph, rank: map<string, nat>, k: string): string -> bool
    requires Ranked(g, rank)
  {
    id => Ranked(g, rank) && Tainted(g, rank, k, id)[1]
  }

  lemma TaintPropagates(g: Graph, rank: map<string, nat>, k: string)
    requires Ranked(g, rank)
    ensures Propagates(g, FirstTaint(g, rank, k), LastTaint(g, rank, k))
  {
    forall id, source | id in g.operations && source in g.operations[id].inputs
      ensures TaintPasses(g, FirstTaint(g, rank, k), LastTaint(g, rank, k), id, source)
    {
      var m := TaintMeaning(g);
      var vs := Inputs(g, m, rank, TaintAt(k), id);
      var i :| 0 <= i < |g.operations[id].inputs| && g.operations[id].inputs[i] == source;
      assert vs[i] == Tainted(g, rank, k, source);
      assert Tainted(g, rank, k, id) == TaintAt(k)(id, m.apply(id, vs));
    }
  }

  // ----- Taint against demand

  /** No taint in the rows demanded of an operation, none in the rows it demands of its input. */
  ghost predicate TaintPasses(g: Graph, first: string -> bool, last: string -> bool, id: string, source: string)
    requires id in g.operations
  {
    var op := g.operations[id].operator;
    !last(id) ==>
      && !last(source)
      && (op != "last_token" && (!Pointwise(op) || !first(id)) ==> !first(source))
  }

  ghost predicate Propagates(g: Graph, first: string -> bool, last: string -> bool) {
    forall id, source | id in g.operations && source in g.operations[id].inputs ::
      TaintPasses(g, first, last, id, source)
  }

  /** The demand that a tainted run could still meet: rows that carry no taint. */
  ghost function UntaintedDemand(d: map<string, int>, first: string -> bool, last: string -> bool): map<string, int> {
    map id | id in d && !last(id) :: if first(id) then LAST else d[id]
  }

  lemma UntaintedServed(g: Graph, d: map<string, int>, first: string -> bool, last: string -> bool,
                        id: string, source: string)
    requires Solution(g, d) && ValidDemand(g, UntaintedDemand(d, first, last)) && Propagates(g, first, last)
    requires id in UntaintedDemand(d, first, last) && source in g.operations[id].inputs
    ensures InputServed(g, UntaintedDemand(d, first, last), id, source)
  {
    assert InputServed(g, d, id, source);
    assert TaintPasses(g, first, last, id, source);
  }

  /** Were no root tainted, the untainted rows would be a smaller solution. */
  lemma TaintReachesRoot(g: Graph, d: map<string, int>, k: string, first: string -> bool, last: string -> bool)
    requires LeastSolution(g, d) && Level(d, k) == ALL && Propagates(g, first, last) && first(k)
    ensures exists root :: root in Roots(g) && (first(root) || last(root))
  {
    if forall root | root in Roots(g) :: !first(root) && !last(root) {
      var s := UntaintedDemand(d, first, last);
      forall id, source | id in s && source in g.operations[id].inputs ensures InputServed(g, s, id, source) {
        UntaintedServed(g, d, first, last, id, source);
      }
      assert Solution(g, s);
    }
  }

  // ----- Exactness for operators that map rows one by one

  /** Operations of at most one row, whatever the inputs: behind a `last_token`, row by row. */
  ghost predicate SingleRow(g: Graph, rank: map<string, nat>, id: string)
    requires Ranked(g, rank)
    decreases if id in g.operations then rank[id] + 1 else 0
  {
    && id in g.operations
    && var op := g.operations[id];
       || op.operator == "last_token"
       || (Pointwise(op.operator) && exists i | 0 <= i < |op.inputs| :: SingleRow(g, rank, op.inputs[i]))
  }

  /** Row-wise operations combine values of equally many rows; `last_token` reads one value. */
  ghost predicate AlignedGraph(g: Graph, rank: map<string, nat>)
    requires Ranked(g, rank)
  {
    forall id | id in g.operations ::
      var op := g.operations[id];
      && (op.operator == "last_token" ==> |op.inputs| == 1)
      && (Pointwise(op.operator) ==> op.inputs != [] && forall i | 0 <= i < |op.inputs| ::
            SingleRow(g, rank, op.inputs[i]) == SingleRow(g, rank, op.inputs[0]))
  }

  lemma {:induction false} SingleRowShort<R(!new)>(g: Graph, m: Meaning<R>, f: string -> seq<R> -> R,
                                                   rank: map<string, nat>, tamper: (string, seq<R>) -> seq<R>,
                                                   ops: set<string>, id: string)
    requires Ranked(g, rank) && RowWise(g, m, f) && CorruptsBeforeLast(tamper, ops) && SingleRow(g, rank, id)
    ensures |m.apply(id, Inputs(g, m, rank, tamper, id))| <= 1
    ensures Run(g, m, rank, tamper, id) == m.apply(id, Inputs(g, m, rank, tamper, id))
    decreases rank[id]
  {
    var op, vs := g.operations[id], Inputs(g, m, rank, tamper, id);
    if op.operator != "last_token" {
      var i :| 0 <= i < |op.inputs| && SingleRow(g, rank, op.inputs[i]);
      SingleRowShort(g, m, f, rank, tamper, ops, op.inputs[i]);
      assert vs[i] == Run(g, m, rank, tamper, op.inputs[i]);
      assert Aligned(vs, |vs[0]|) ==> |vs[i]| == |vs[0]|;
      assert m.apply(id, vs) == MapRows(f(id), vs);
    } else {
      assert m.apply(id, vs) == LastRow(vs);
    }
    assert SameLast(tamper(id, m.apply(id, vs)), m.apply(id, vs)) by {
      assert id in ops || id !in ops;
    }
  }

  /** The corruption without what it does to single rows, which is nothing. */
  ghost function Effective<R>(g: Graph, rank: map<string, nat>, tamper: (string, seq<R>) -> seq<R>)
    : (string, seq<R>) -> seq<R>
    requires Ranked(g, rank)
  {
    (id, v) => if Ranked(g, rank) && SingleRow(g, rank, id) then v else tamper(id, v)
  }

  lemma {:induction false} EffectiveRun<R(!new)>(g: Graph, m: Meaning<R>, f: string -> seq<R> -> R,
                                                 rank: map<string, nat>, tamper: (string, seq<R>) -> seq<R>,
                                                 ops: set<string>, id: string)
    requires Ranked(g, rank) && RowWise(g, m, f) && CorruptsBeforeLast(tamper, ops)
    ensures Run(g, m, rank, tamper, id) == Run(g, m, rank, Effective(g, rank, tamper), id)
    decreases if id in g.operations then rank[id] + 1 else 0
  {
    if id in g.operations {
      var inputs := g.operations[id].inputs;
      forall i | 0 <= i < |inputs|
        ensures Run(g, m, rank, tamper, inputs[i]) == Run(g, m, rank, Effective(g, rank, tamper), inputs[i])
      {
        EffectiveRun(g, m, f, rank, tamper, ops, inputs[i]);
      }
      var vs := Inputs(g, m, rank, tamper, id);
      assert vs == Inputs(g, m, rank, Effective(g, rank, tamper), id);
      if SingleRow(g, rank, id) {
        SingleRowShort(g, m, f, rank, tamper, ops, id);
      }
    }
  }

  /** With row-wise operators, single rows may be corrupted freely too: they have nothing before the last row. */
  lemma RowWisePruning<R(!new)>(g: Graph, m: Meaning<R>, f: string -> seq<R> -> R, rank: map<string, nat>,
                                d: map<string, int>, tamper: (string, seq<R>) -> seq<R>, ops: set<string>, root: string)
    requires Ranked(g, rank) && RowWise(g, m, f) && Solution(g, d) && CorruptsBeforeLast(tamper, ops)
    requires forall k | k in ops :: Level(d, k) <= LAST || SingleRow(g, rank, k)
    requires IsRoot(g, root)
    ensures Run(g, m, rank, tamper, root) == Clean(g, m, rank, root)
  {
    var rest := set k | k in ops && !SingleRow(g, rank, k);
    EffectiveRun(g, m, f, rank, tamper, ops, root);
    RowWiseIsLocal(g, m, f);
    assert CorruptsBeforeLast(Effective(g, rank, tamper), rest);
    PruningPreservesOutputs(g, m, rank, d, Effective(g, rank, tamper), rest, root);
  }

  /** Any garbage before the last rows of `ops` leaves every root unchanged, for all row-wise operators. */
  ghost predicate SafeRowWise(g: Graph, rank: map<string, nat>, ops: set<string>)
    requires Ranked(g, rank)
  {
    forall m: Meaning<bool>, f: string -> seq<bool> -> bool, tamper: (string, seq<bool>) -> seq<bool>, root |
      RowWise(g, m, f) && CorruptsBeforeLast(tamper, ops) && IsRoot(g, root) ::
      Run(g, m, rank, tamper, root) == Clean(g, m, rank, root)
  }

  ghost function AnyTaint(): seq<bool> -> bool {
    (row: seq<bool>) => true in row
  }

  /** The row-wise meaning that forgets no taint: one row behind a `last_token`, two rows elsewhere. */
  ghost function WiseMeaning(g: Graph): Meaning<bool> {
    Meaning(_ => [false, false],
            (id, vs) =>
              if id !in g.operations then []
              else if g.operations[id].operator == "last_token" then LastRow(vs)
              else if Pointwise(g.operations[id].operator) then MapRows(AnyTaint(), vs)
              else
                var any := FirstTainted(vs) || LastTainted(vs);
                [any, any])
  }

  ghost function WiseRun(g: Graph, rank: map<string, nat>, k: string, id: string): seq<bool>
    requires Ranked(g, rank)
  {
    Run(g, WiseMeaning(g), rank, TaintAt(k), id)
  }

  lemma {:induction false} WiseShape(g: Graph, rank: map<string, nat>, tamper: (string, seq<bool>) -> seq<bool>,
                                     id: string)
    requires Ranked(g, rank) && AlignedGraph(g, rank) && forall i, v :: |tamper(i, v)| == |v|
    ensures |Run(g, WiseMeaning(g), rank, tamper, id)| == if SingleRow(g, rank, id) then 1 else 2
    decreases if id in g.operations then rank[id] + 1 else 0
  {
    if id in g.operations {
      var op, m := g.operations[id], WiseMeaning(g);
      var vs := Inputs(g, m, rank, tamper, id);
      forall i | 0 <= i < |vs| ensures |vs[i]| == if SingleRow(g, rank, op.inputs[i]) then 1 else 2 {
        WiseShape(g, rank, tamper, op.inputs[i]);
      }
      assert Run(g, m, rank, tamper, id) == tamper(id, m.apply(id, vs));
      if Pointwise(op.operator) {
        assert Aligned(vs, |vs[0]|);
        assert |m.apply(id, vs)| == |vs[0]|;
      }
    }
  }

  lemma {:induction false} WiseClean(g: Graph, rank: map<string, nat>, id: string)
    requires Ranked(g, rank) && AlignedGraph(g, rank)
    ensures true !in Clean(g, WiseMeaning(g), rank, id)
    decreases if id in g.operations then rank[id] + 1 else 0
  {
    if id in g.operations {
      var op, m, clean := g.operations[id], WiseMeaning(g), (_: string, v: seq<bool>) => v;
      var vs := Inputs(g, m, rank, clean, id);
      forall i | 0 <= i < |vs| ensures true !in vs[i] {
        WiseClean(g, rank, op.inputs[i]);
      }
      assert Clean(g, m, rank, id) == m.apply(id, vs);
      UntaintedRows(vs);
    }
  }

  lemma UntaintedRows(vs: seq<seq<bool>>)
    requires forall i | 0 <= i < |vs| :: true !in vs[i]
    ensures true !in MapRows(AnyTaint(), vs) && true !in LastRow(vs) && !FirstTainted(vs) && !LastTainted(vs)
  {
    if vs != [] && Aligned(vs, |vs[0]|) {
      forall r | 0 <= r < |vs[0]| ensures !MapRows(AnyTaint(), vs)[r] {
        var row := RowOf(vs, r, |vs[0]|);
        assert forall i | 0 <= i < |row| :: row[i] == vs[i][r] && vs[i][r] in vs[i];
      }
    }
  }

  ghost function WiseFirst(g: Graph, rank: map<string, nat>, k: string): string -> bool {
    id => Ranked(g, rank) && WiseRun(g, rank, k, id) != [] && WiseRun(g, rank, k, id)[0]
  }

  ghost function WiseLast(g: Graph, rank: map<string, nat>, k: string): string -> bool {
    id => Ranked(g, rank) && var v := WiseRun(g, rank, k, id); v != [] && v[|v| - 1]
  }

  /** A row of a row-wise operator is untainted only if that row of every input is. */
  lemma RowTaint(vs: seq<seq<bool>>, i: nat, r: nat)
    requires vs != [] && Aligned(vs, |vs[0]|) && i < |vs| && r < |vs[0]| && !MapRows(AnyTaint(), vs)[r]
    ensures !vs[i][r]
  {
    assert RowOf(vs, r, |vs[0]|)[i] == vs[i][r];
  }

  lemma RowsTaint(vs: seq<seq<bool>>, i: nat)
    requires i < |vs| && vs[0] != [] && Aligned(vs, |vs[0]|)
    ensures var v, n := MapRows(AnyTaint(), vs), |vs[0]|;
            |v| == n == |vs[i]| && (!v[n - 1] ==> !vs[i][n - 1]) && (!v[0] ==> !vs[i][0])
  {
    var v, n := MapRows(AnyTaint(), vs), |vs[0]|;
    if !v[n - 1] {
      RowTaint(vs, i, n - 1);
    }
    if !v[0] {
      RowTaint(vs, i, 0);
    }
  }

  /** What one operator of that meaning lets through, on values. */
  lemma WiseValuePasses(operator: string, vs: seq<seq<bool>>, i: nat, v: seq<bool>)
    requires i < |vs| && 1 <= |vs[i]| <= 2
    requires operator == "last_token" ==> |vs| == 1 && v == LastRow(vs)
    requires Pointwise(operator) ==> Aligned(vs, |vs[0]|) && v == MapRows(AnyTaint(), vs)
    requires operator != "last_token" && !Pointwise(operator) ==>
             |v| == 2 && v[1] == (FirstTainted(vs) || LastTainted(vs))
    ensures v != []
    ensures !v[|v| - 1] ==> !vs[i][|vs[i]| - 1]
    ensures !v[|v| - 1] && operator != "last_token" && (!Pointwise(operator) || !v[0]) ==> !vs[i][0]
  {
    if Pointwise(operator) {
      RowsTaint(vs, i);
    }
  }

  lemma WiseInputs(g: Graph, rank: map<string, nat>, k: string, id: string)
    requires Ranked(g, rank) && AlignedGraph(g, rank) && id in g.operations
    ensures var op, vs := g.operations[id], Inputs(g, WiseMeaning(g), rank, TaintAt(k), id);
            && (forall j | 0 <= j < |op.inputs| :: vs[j] == WiseRun(g, rank, k, op.inputs[j]) && 1 <= |vs[j]| <= 2)
            && (op.operator == "last_token" ==> |vs| == 1)
            && (Pointwise(op.operator) ==> vs != [] && Aligned(vs, |vs[0]|))
  {
    var op, vs := g.operations[id], Inputs(g, WiseMeaning(g), rank, TaintAt(k), id);
    forall j | 0 <= j < |op.inputs|
      ensures vs[j] == WiseRun(g, rank, k, op.inputs[j])
      ensures |vs[j]| == if SingleRow(g, rank, op.inputs[j]) then 1 else 2
    {
      WiseShape(g, rank, TaintAt(k), op.inputs[j]);
    }
  }

  lemma TamperTaint(k: string, id: string, v: seq<bool>)
    requires v != []
    ensures var out := TaintAt(k)(id, v); |out| == |v| && out[|v| - 1] == v[|v| - 1] && (!out[0] ==> !v[0])
  {
  }

  lemma WisePasses(g: Graph, rank: map<string, nat>, k: string, id: string, i: nat)
    requires Ranked(g, rank) && AlignedGraph(g, rank) && id in g.operations && i < |g.operations[id].inputs|
    ensures TaintPasses(g, WiseFirst(g, rank, k), WiseLast(g, rank, k), id, g.operations[id].inputs[i])
  {
    var vs := Inputs(g, WiseMeaning(g), rank, TaintAt(k), id);
    var v := WiseMeaning(g).apply(id, vs);
    WiseInputs(g, rank, k, id);
    WiseValuePasses(g.operations[id].operator, vs, i, v);
    TamperTaint(k, id, v);
    PassesOnValues(g, rank, k, id, g.operations[id].inputs[i], v, vs[i], TaintAt(k)(id, v));
  }

  lemma PassesOnValues(g: Graph, rank: map<string, nat>, k: string, id: string, source: string,
                       v: seq<bool>, input: seq<bool>, out: seq<bool>)
    requires Ranked(g, rank) && id in g.operations && v != [] && input != [] && |out| == |v|
    requires out == WiseRun(g, rank, k, id) && input == WiseRun(g, rank, k, source)
    requires out[|v| - 1] == v[|v| - 1] && (!out[0] ==> !v[0])
    requires !v[|v| - 1] ==> !input[|input| - 1]
    requires var op := g.operations[id].operator;
             !v[|v| - 1] && op != "last_token" && (!Pointwise(op) || !v[0]) ==> !input[0]
    ensures TaintPasses(g, WiseFirst(g, rank, k), WiseLast(g, rank, k), id, source)
  {
    WiseFlags(g, rank, k, id, out);
    WiseFlags(g, rank, k, source, input);
  }

  lemma WiseFlags(g: Graph, rank: map<string, nat>, k: string, id: string, v: seq<bool>)
    requires Ranked(g, rank) && v != [] && v == WiseRun(g, rank, k, id)
    ensures WiseFirst(g, rank, k)(id) == v[0] && WiseLast(g, rank, k)(id) == v[|v| - 1]
  {
  }

  lemma WisePropagates(g: Graph, rank: map<string, nat>, k: string)
    requires Ranked(g, rank) && AlignedGraph(g, rank)
    ensures Propagates(g, WiseFirst(g, rank, k), WiseLast(g, rank, k))
  {
    forall id, source | id in g.operations && source in g.operations[id].inputs
      ensures TaintPasses(g, WiseFirst(g, rank, k), WiseLast(g, rank, k), id, source)
    {
      var i :| 0 <= i < |g.operations[id].inputs| && g.operations[id].inputs[i] == source;
      WisePasses(g, rank, k, id, i);
    }
  }

  /** A corrupted operation of several rows that is demanded in full changes some root. */
  lemma WiseRunDiffers(g: Graph, rank: map<string, nat>, d: map<string, int>, k: string) returns (root: string)
    requires Ranked(g, rank) && AlignedGraph(g, rank) && LeastSolution(g, d)
    requires Level(d, k) == ALL && !SingleRow(g, rank, k)
    ensures IsRoot(g, root) && WiseRun(g, rank, k, root) != Clean(g, WiseMeaning(g), rank, root)
  {
    WisePropagates(g, rank, k);
    WiseShape(g, rank, TaintAt(k), k);
    TaintReachesRoot(g, d, k, WiseFirst(g, rank, k), WiseLast(g, rank, k));
    root :| root in Roots(g) && (WiseFirst(g, rank, k)(root) || WiseLast(g, rank, k)(root));
    WiseClean(g, rank, root);
    assert true in WiseRun(g, rank, k, root);
  }

  /**
   With row-wise operators on aligned graphs, dropping is safe if and only if each dropped
   operation is demanded at most at its last row or has a single row.
   */
  lemma SafeRowWiseIff(g: Graph, rank: map<string, nat>, d: map<string, int>, ops: set<string>)
    requires Ranked(g, rank) && AlignedGraph(g, rank) && LeastSolution(g, d)
    ensures SafeRowWise(g, rank, ops) <==> forall k | k in ops :: Level(d, k) <= LAST || SingleRow(g, rank, k)
  {
    if forall k | k in ops :: Level(d, k) <= LAST || SingleRow(g, rank, k) {
      forall m: Meaning<bool>, f: string -> seq<bool> -> bool, tamper: (string, seq<bool>) -> seq<bool>, root |
        RowWise(g, m, f) && CorruptsBeforeLast(tamper, ops) && IsRoot(g, root)
        ensures Run(g, m, rank, tamper, root) == Clean(g, m, rank, root)
      {
        RowWisePruning(g, m, f, rank, d, tamper, ops, root);
      }
    }
    forall k | k in ops && Level(d, k) > LAST && !SingleRow(g, rank, k) ensures !SafeRowWise(g, rank, ops) {
      WiseUnsafe(g, rank, d, ops, k);
    }
  }

  lemma WiseUnsafe(g: Graph, rank: map<string, nat>, d: map<string, int>, ops: set<string>, k: string)
    requires Ranked(g, rank) && AlignedGraph(g, rank) && LeastSolution(g, d)
    requires k in ops && Level(d, k) == ALL && !SingleRow(g, rank, k)
    ensures !SafeRowWise(g, rank, ops)
  {
    var root := WiseRunDiffers(g, rank, d, k);
    WiseRowWise(g);
    TaintCorrupts(k, ops);
    UnsafeBy(g, rank, ops, WiseMeaning(g), _ => AnyTaint(), TaintAt(k), root);
  }

  lemma WiseRowWise(g: Graph)
    ensures RowWise(g, WiseMeaning(g), _ => AnyTaint())
  {
  }

  lemma TaintCorrupts(k: string, ops: set<string>)
    requires k in ops
    ensures CorruptsBeforeLast(TaintAt(k), ops)
  {
  }

  lemma UnsafeBy(g: Graph, rank: map<string, nat>, ops: set<string>, m: Meaning<bool>,
                 f: string -> seq<bool> -> bool, tamper: (string, seq<bool>) -> seq<bool>, root: string)
    requires Ranked(g, rank) && RowWise(g, m, f) && CorruptsBeforeLast(tamper, ops) && IsRoot(g, root)
    requires Run(g, m, rank, tamper, root) != Clean(g, m, rank, root)
    ensures !SafeRowWise(g, rank, ops)
  {
  }

  /**
   Selection without ownership: corrupting everything the selected stages serve is safe
   exactly when each operation they serve is demanded at most at its last row, or, for
   row-wise operators on aligned graphs, has a single row.
   */
  lemma SelectedSafeIffServedLast(g: Graph, rank: map<string, nat>, d: map<string, int>, steps: seq<Step>,
                                  bindings: map<string, string>, stages: set<string>)
    requires Ranked(g, rank) && LeastSolution(g, d)
    ensures SafeToDrop(g, rank, ServedOps(g, steps, bindings, stages)) <==>
            forall key | key in g.operations && Served(steps, bindings, stages, key) :: Level(d, key) <= LAST
    ensures AlignedGraph(g, rank) ==>
            (SafeRowWise(g, rank, ServedOps(g, steps, bindings, stages)) <==>
             forall key | key in g.operations && Served(steps, bindings, stages, key) ::
               Level(d, key) <= LAST || SingleRow(g, rank, key))
  {
    SafeIffLastDemand(g, rank, d, ServedOps(g, steps, bindings, stages));
    if AlignedGraph(g, rank) {
      SafeRowWiseIff(g, rank, d, ServedOps(g, steps, bindings, stages));
    }
  }

  ghost function ServedOps(g: Graph, steps: seq<Step>, bindings: map<string, string>, stages: set<string>): set<string>
  {
    set key | key in g.operations && Served(steps, bindings, stages, key)
  }

  // ----- Ownership is needed

  /** Two linear maps of the same input share a stage; only one of them is read at its last row. */
  function SharedGraph(): Graph {
    Graph(map["a" := Op("linear", ["x"]), "t" := Op("last_token", ["a"]), "b" := Op("linear", ["x"])], "t", ["b"])
  }

  function SharedDemand(): map<string, int> {
    map["t" := ALL, "a" := LAST, "b" := ALL]
  }

  function SharedSteps(): seq<Step> {
    [Step("remote_stage", ["a"]), Step("remote_stage", ["b"])]
  }

  function SharedBindings(): map<string, string> {
    map[Binding("a") := "stage", Binding("b") := "stage"]
  }

  /** Identity linear maps over a two-row input. */
  ghost function SharedMeaning(): Meaning<int> {
    Meaning(_ => [0, 0], (id: string, vs) => if id == "t" then LastRow(vs) else MapRows(SharedRow(id), vs))
  }

  ghost function SharedRow(id: string): seq<int> -> int {
    (row: seq<int>) => if row == [] then 0 else row[0]
  }

  /** Both operations of the stage return 7 in their first row. */
  ghost function SharedTamper(): (string, seq<int>) -> seq<int> {
    (id: string, v: seq<int>) => if id in {"a", "b"} && |v| == 2 then [7, v[1]] else v
  }

  function SharedRank(): map<string, nat> {
    map["a" := 0, "t" := 1, "b" := 0]
  }

  lemma SharedDemandSolves()
    ensures Solution(SharedGraph(), SharedDemand())
  {
  }

  lemma SharedRanked()
    ensures Ranked(SharedGraph(), SharedRank())
  {
  }

  lemma SharedDemandLeast()
    requires Solution(SharedGraph(), SharedDemand())
    ensures LeastSolution(SharedGraph(), SharedDemand())
  {
    var g, d := SharedGraph(), SharedDemand();
    forall s | Solution(g, s) ensures forall id | id in d :: d[id] <= Level(s, id) {
      assert "t" in Roots(g) && "b" in Roots(g);
      assert InputServed(g, s, "t", "a");
    }
  }

  lemma SharedStageSelected()
    ensures SelectsStage(SharedGraph(), SharedDemand(), SharedBindings(), SharedSteps()[0], "stage")
    ensures forall key | key in {"a", "b"} :: Served(SharedSteps(), SharedBindings(), {"stage"}, key)
  {
    assert SharedSteps()[0].ids == ["a"] && SharedSteps()[1].ids == ["b"];
    assert "a" in SharedSteps()[0].ids && "b" in SharedSteps()[1].ids;
  }

  /** `terminal_groups` returns on this schedule: the first step has its stage, the second is not droppable. */
  lemma SharedStepsFine()
    ensures FineBefore(SharedGraph(), SharedDemand(), SharedBindings(), SharedSteps(), 2)
  {
    var g, d, bindings, steps := SharedGraph(), SharedDemand(), SharedBindings(), SharedSteps();
    SharedStageSelected();
    assert steps[0].ids == ["a"] && steps[1].ids == ["b"];
    assert StepFine(g, d, bindings, steps[0]) by {
      assert AllBoundTo(bindings, steps[0].ids, "stage");
    }
    assert !LastLinear(g, d, steps[1].ids[0]);
  }

  lemma IdentityRows(id: string, v: seq<int>)
    ensures MapRows(SharedRow(id), [v]) == v
  {
    assert Aligned([v], |v|);
    forall r | 0 <= r < |v| ensures MapRows(SharedRow(id), [v])[r] == v[r] {
      assert RowOf([v], r, |v|) == [v[r]];
    }
  }

  lemma SharedRunsDiffer()
    requires Ranked(SharedGraph(), SharedRank())
    ensures Run(SharedGraph(), SharedMeaning(), SharedRank(), SharedTamper(), "b") == [7, 0]
    ensures Clean(SharedGraph(), SharedMeaning(), SharedRank(), "b") == [0, 0]
  {
    var g, m, rank, clean := SharedGraph(), SharedMeaning(), SharedRank(), (_: string, v: seq<int>) => v;
    IdentityRows("b", [0, 0]);
    assert Inputs(g, m, rank, SharedTamper(), "b") == [[0, 0]] == Inputs(g, m, rank, clean, "b");
    assert Run(g, m, rank, SharedTamper(), "b") == SharedTamper()("b", m.apply("b", [[0, 0]]));
    assert Clean(g, m, rank, "b") == m.apply("b", [[0, 0]]);
  }

  lemma SharedOperators()
    ensures RowWise(SharedGraph(), SharedMeaning(), SharedRow)
  {
    var g, m := SharedGraph(), SharedMeaning();
    assert forall id | id in g.operations :: (g.operations[id].operator == "last_token" <==> id == "t");
  }

  lemma SharedCorruption()
    ensures CorruptsBeforeLast(SharedTamper(), {"a", "b"})
  {
  }

  /** The stage is selected for "a", and what it returns for "b" reaches a state output. */
  lemma SharedStageChangesOutput()
    ensures Ranked(SharedGraph(), SharedRank()) && LeastSolution(SharedGraph(), SharedDemand())
    ensures RowWise(SharedGraph(), SharedMeaning(), SharedRow)
    ensures SelectsStage(SharedGraph(), SharedDemand(), SharedBindings(), SharedSteps()[0], "stage")
    ensures forall key | key in {"a", "b"} :: Served(SharedSteps(), SharedBindings(), {"stage"}, key)
    ensures FineBefore(SharedGraph(), SharedDemand(), SharedBindings(), SharedSteps(), 2)
    ensures CorruptsBeforeLast(SharedTamper(), {"a", "b"}) && IsRoot(SharedGraph(), "b")
    ensures Run(SharedGraph(), SharedMeaning(), SharedRank(), SharedTamper(), "b")
            != Clean(SharedGraph(), SharedMeaning(), SharedRank(), "b")
  {
    SharedRanked();
    SharedDemandSolves();
    SharedDemandLeast();
    SharedStageSelected();
    SharedStepsFine();
    SharedOperators();
    SharedCorruption();
    SharedRunsDiffer();
  }
}
