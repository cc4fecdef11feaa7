/**
 The trimming phases of `compile_language`: pruning edges into dead states,
 finding the reachable states, renumbering them, and tabulating shortest
 completions. Each phase keeps the accepted language.
 */
module LanguageTrim {
  import opened Wrappers
  import opened LanguageSpec

  // ----- Pruning dead edges

  predicate Keep(d: int, complete: set<int>) {
    d == ACCEPT || d in complete
  }

  ghost function LiveStates(rows: seq<Row>): set<int> {
    set s | 0 <= s < |rows| && rows[s] != map[]
  }

  ghost predicate RowKept(row: Row, kept: Row, live: set<int>) {
    && (forall t :: t in kept <==> t in row && Keep(row[t], live))
    && (forall t | t in kept :: kept[t] == row[t])
  }

  /** Each row keeps exactly the edges into ACCEPT or into a state with a nonempty kept row. */
  ghost predicate IsPruned(built: seq<Row>, rows: seq<Row>) {
    && |rows| == |built|
    && forall s | 0 <= s < |rows| :: RowKept(built[s], rows[s], LiveStates(rows))
  }

  method PruneRow(row: Row, live: set<int>) returns (kept: Row)
    ensures RowKept(row, kept, live)
  {
    kept := map t | t in row && Keep(row[t], live) :: row[t];
  }

  /** The rows from `state` on are final, and `complete` lists the nonempty ones. */
  ghost predicate PrunedFrom(built: seq<Row>, rows: seq<Row>, state: nat, complete: set<int>) {
    && |rows| == |built| && state <= |rows|
    && (forall s :: s in complete <==> state <= s < |rows| && rows[s] != map[])
    && (forall s | state <= s < |rows| :: RowKept(built[s], rows[s], complete))
  }

  lemma PruneStep(built: seq<Row>, rows: seq<Row>, state: nat, complete: set<int>, kept: Row)
    requires WellFormed(built) && PrunedFrom(built, rows, state + 1, complete)
    requires RowKept(built[state], kept, complete)
    ensures PrunedFrom(built, rows[state := kept], state, if kept != map[] then complete + {state} else complete)
  {
    var after := if kept != map[] then complete + {state} else complete;
    var next := rows[state := kept];
    forall s | state <= s < |rows| ensures RowKept(built[s], next[s], after) {
      assert RowKept(built[s], next[s], complete);
      assert forall t | t in built[s] :: Keep(built[s][t], after) == Keep(built[s][t], complete);
    }
  }

  method Prune(built: seq<Row>) returns (rows: seq<Row>)
    requires WellFormed(built)
    ensures IsPruned(built, rows) && WellFormed(rows)
  {
    rows := built;
    var complete: set<int> := {};
    var state := |rows|;
    while state > 0
      invariant 0 <= state <= |built| == |rows|
      invariant forall s | 0 <= s < state :: rows[s] == built[s]
      invariant PrunedFrom(built, rows, state, complete)
    {
      state := state - 1;
      var kept := PruneRow(rows[state], complete);
      PruneStep(built, rows, state, complete, kept);
      rows := rows[state := kept];
      if kept != map[] {
        complete := complete + {state};
      }
    }
    assert complete == LiveStates(rows);
    forall s, t | 0 <= s < |rows| && t in rows[s] ensures rows[s][t] == ACCEPT || s < rows[s][t] < |rows| {
      assert RowKept(built[s], rows[s], complete);
    }
  }

  /** Pruning removes no accepted token sequence and adds none, from any state. */
  lemma {:induction false} PruneExact(built: seq<Row>, rows: seq<Row>, s: nat, toks: seq<nat>)
    requires WellFormed(built) && WellFormed(rows) && IsPruned(built, rows)
    requires s < |rows|
    ensures Accepts(rows, s, toks) <==> Accepts(built, s, toks)
    decreases |toks|
  {
    assert RowKept(built[s], rows[s], LiveStates(rows));
    if toks != [] && toks[0] in built[s] {
      var d := built[s][toks[0]];
      if d != ACCEPT {
        PruneExact(built, rows, d, toks[1..]);
        assert Accepts(rows, d, toks[1..]) ==> toks[1..][0] in rows[d] && d in LiveStates(rows);
      } else {
        assert Walk(rows, ACCEPT, toks[1..]) == Walk(built, ACCEPT, toks[1..]);
      }
    }
  }

  lemma {:induction false} PruneWalk(built: seq<Row>, rows: seq<Row>, s: nat, toks: seq<nat>)
    requires WellFormed(built) && WellFormed(rows) && IsPruned(built, rows)
    requires s < |rows|
    ensures Walk(rows, s, toks).Some? ==> Walk(built, s, toks) == Walk(rows, s, toks)
    decreases |toks|
  {
    if toks != [] && toks[0] in rows[s] && rows[s][toks[0]] != ACCEPT {
      PruneWalk(built, rows, rows[s][toks[0]], toks[1..]);
    }
  }

  // ----- Reachability

  ghost predicate Reached(rows: seq<Row>, d: nat)
    requires WellFormed(rows) && rows != []
  {
    exists toks :: Walk(rows, 0, toks) == Some(d)
  }

  /** Exactly the states some token sequence leads to from state 0. */
  method Reach(rows: seq<Row>) returns (reachable: set<nat>)
    requires WellFormed(rows) && rows != []
    ensures forall d: nat :: d in reachable <==> d < |rows| && Reached(rows, d)
  {
    reachable := {0};
    assert Walk(rows, 0, []) == Some(0);
    for s := 0 to |rows|
      invariant 0 in reachable
      invariant forall d | d in reachable :: d < |rows| && Reached(rows, d)
      invariant forall k, t | 0 <= k < s && k in reachable && t in rows[k] && rows[k][t] != ACCEPT ::
                  rows[k][t] in reachable
    {
      if s in reachable {
        ghost var before := reachable;
        reachable := reachable + set t | t in rows[s] && rows[s][t] != ACCEPT :: rows[s][t];
        forall d | d in reachable ensures d < |rows| && Reached(rows, d) {
          if d !in before {
            var t :| t in rows[s] && rows[s][t] == d;
            ReachedStep(rows, s, t);
          }
        }
      }
    }
    ClosedHoldsReached(rows, reachable);
  }

  lemma ReachedStep(rows: seq<Row>, s: nat, t: nat)
    requires WellFormed(rows) && s < |rows| && Reached(rows, s) && t in rows[s] && rows[s][t] != ACCEPT
    ensures Reached(rows, rows[s][t])
  {
    var toks :| Walk(rows, 0, toks) == Some(s);
    WalkAppend(rows, 0, toks, t);
  }

  lemma ClosedHoldsReached(rows: seq<Row>, closed: set<nat>)
    requires WellFormed(rows) && rows != [] && 0 in closed
    requires forall k, t | 0 <= k < |rows| && k in closed && t in rows[k] && rows[k][t] != ACCEPT ::
               rows[k][t] in closed
    ensures forall d: nat | d < |rows| && Reached(rows, d) :: d in closed
  {
    forall d: nat | d < |rows| && Reached(rows, d) ensures d in closed {
      var toks :| Walk(rows, 0, toks) == Some(d);
      ClosedWalk(rows, closed, 0, toks);
    }
  }

  lemma {:induction false} ClosedWalk(rows: seq<Row>, closed: set<nat>, s: nat, toks: seq<nat>)
    requires WellFormed(rows) && s < |rows| && s in closed
    requires forall k, t | 0 <= k < |rows| && k in closed && t in rows[k] && rows[k][t] != ACCEPT ::
               rows[k][t] in closed
    ensures Walk(rows, s, toks).Some? && Walk(rows, s, toks).value != ACCEPT ==> Walk(rows, s, toks).value in closed
    decreases |toks|
  {
    if toks != [] && toks[0] in rows[s] && rows[s][toks[0]] != ACCEPT {
      ClosedWalk(rows, closed, rows[s][toks[0]], toks[1..]);
    }
  }

  // ----- Renumbering the reachable states

  ghost predicate Increasing(s: seq<nat>) {
    forall i, j | 0 <= i < j < |s| :: s[i] < s[j]
  }

  ghost predicate RowRenumbered(row: Row, selected: seq<nat>, out: Row) {
    && out.Keys == row.Keys
    && forall t | t in row ::
         if row[t] == ACCEPT then out[t] == ACCEPT
         else 0 <= out[t] < |selected| && selected[out[t]] == row[t]
  }

  /** `out` is `rows` restricted to the states `selected`, under their new numbers. */
  ghost predicate IsRenumbered(rows: seq<Row>, selected: seq<nat>, out: seq<Row>) {
    && |out| == |selected| && Increasing(selected)
    && forall i | 0 <= i < |selected| ::
         selected[i] < |rows| && RowRenumbered(rows[selected[i]], selected, out[i])
  }

  /** The states of a set below `n` in increasing order, with their positions. */
  method Number(n: nat, states: set<nat>) returns (selected: seq<nat>, remap: map<int, nat>)
    requires forall s | s in states :: s < n
    ensures Increasing(selected)
    ensures forall i | 0 <= i < |selected| :: selected[i] in states
    ensures forall k | k in states :: k in remap && remap[k] < |selected| && selected[remap[k]] == k
  {
    selected := [];
    remap := map[];
    for s := 0 to n
      invariant Increasing(selected)
      invariant forall i | 0 <= i < |selected| :: selected[i] < s && selected[i] in states
      invariant forall k | k in states && k < s :: k in remap && remap[k] < |selected| && selected[remap[k]] == k
    {
      if s in states {
        remap := remap[s := |selected|];
        selected := selected + [s];
      }
    }
  }

  method Renumber(rows: seq<Row>, reachable: set<nat>) returns (selected: seq<nat>, out: seq<Row>)
    requires WellFormed(rows)
    requires forall s | s in reachable :: s < |rows|
    requires forall s, t | s in reachable && t in rows[s] && rows[s][t] != ACCEPT :: rows[s][t] in reachable
    ensures IsRenumbered(rows, selected, out) && WellFormed(out)
    ensures forall s :: s in selected <==> s in reachable
  {
    var remap;
    selected, remap := Number(|rows|, reachable);
    out := [];
    for i := 0 to |selected|
      invariant |out| == i
      invariant forall k | 0 <= k < i :: RowRenumbered(rows[selected[k]], selected, out[k])
    {
      var row := rows[selected[i]];
      out := out + [map t | t in row :: if row[t] == ACCEPT then ACCEPT else remap[row[t]]];
    }
    RenumberedWellFormed(rows, selected, out);
  }

  lemma RenumberedWellFormed(rows: seq<Row>, selected: seq<nat>, out: seq<Row>)
    requires WellFormed(rows) && IsRenumbered(rows, selected, out)
    ensures WellFormed(out)
  {
    forall i, t | 0 <= i < |out| && t in out[i] ensures out[i][t] == ACCEPT || i < out[i][t] < |out| {
      assert RowRenumbered(rows[selected[i]], selected, out[i]);
      assert rows[selected[i]][t] != ACCEPT ==> selected[i] < rows[selected[i]][t];
    }
  }

  /** The renumbered automaton simulates the original one step for step. */
  lemma {:induction false} RenumberWalk(rows: seq<Row>, selected: seq<nat>, out: seq<Row>, i: int, toks: seq<nat>)
    requires WellFormed(rows) && WellFormed(out) && IsRenumbered(rows, selected, out)
    requires i == ACCEPT || 0 <= i < |out|
    ensures Walk(rows, if i == ACCEPT then ACCEPT else selected[i], toks) ==
            match Walk(out, i, toks)
            case None => None
            case Some(d) => Some(if d == ACCEPT then ACCEPT else selected[d])
    decreases |toks|
  {
    assert i != ACCEPT ==> RowRenumbered(rows[selected[i]], selected, out[i]);
    if toks != [] && i != ACCEPT && toks[0] in out[i] {
      RenumberWalk(rows, selected, out, out[i][toks[0]], toks[1..]);
    }
  }

  // ----- Shortest completions

  method RowMinimum(row: Row, minimum: seq<nat>) returns (m: nat)
    requires forall t | t in row :: row[t] == ACCEPT || 0 <= row[t] < |minimum|
    ensures row == map[] ==> m == MAX_LANGUAGE_BYTES + 2
    ensures row != map[] ==> exists t | t in row :: m == if row[t] == ACCEPT then 1 else minimum[row[t]] + 1
    ensures forall t | t in row :: m <= if row[t] == ACCEPT then 1 else minimum[row[t]] + 1
  {
    var todo := row.Keys;
    if todo == {} {
      return MAX_LANGUAGE_BYTES + 2;
    }
    var first :| first in todo;
    m := if row[first] == ACCEPT then 1 else minimum[row[first]] + 1;
    while todo != {}
      invariant todo <= row.Keys
      invariant exists t | t in row :: m == if row[t] == ACCEPT then 1 else minimum[row[t]] + 1
      invariant forall t | t in row && t !in todo :: m <= if row[t] == ACCEPT then 1 else minimum[row[t]] + 1
    {
      var t :| t in todo;
      var cost := if row[t] == ACCEPT then 1 else minimum[row[t]] + 1;
      if cost < m {
        m := cost;
      }
      todo := todo - {t};
    }
  }

  method Minimum(rows: seq<Row>) returns (minimum: seq<nat>)
    requires WellFormed(rows)
    ensures ShortestTable(rows, minimum)
  {
    minimum := seq(|rows|, _ => MAX_LANGUAGE_BYTES + 2);
    var state := |rows|;
    while state > 0
      invariant 0 <= state <= |rows| == |minimum|
      invariant forall s, t | state <= s < |rows| && t in rows[s] :: minimum[s] <= EdgeCost(rows, minimum, s, t)
      invariant forall s | state <= s < |rows| && rows[s] != map[] ::
                  exists t :: t in rows[s] && minimum[s] == EdgeCost(rows, minimum, s, t)
    {
      state := state - 1;
      var m := RowMinimum(rows[state], minimum);
      ghost var before := minimum;
      minimum := minimum[state := m];
      forall s, t | state <= s < |rows| && t in rows[s]
        ensures EdgeCost(rows, minimum, s, t) == EdgeCost(rows, before, s, t)
      {
      }
      forall s | state < s < |rows| && rows[s] != map[]
        ensures exists t :: t in rows[s] && minimum[s] == EdgeCost(rows, minimum, s, t)
      {
        var t :| t in rows[s] && before[s] == EdgeCost(rows, before, s, t);
        assert minimum[s] == EdgeCost(rows, minimum, s, t);
      }
    }
  }
}
