/**
 `lifting_forest` and `restore_lifted`: rows are replaced by differences from
 earlier rows when that narrows them, and the outputs are restored exactly by
 additions in increasing row order.
 */
module RowLifting {
  import opened Wrappers
  import opened Modular
  import opened Sequences
  import opened RingWidths

  datatype Edge = Edge(row: nat, parent: nat, sign: int)

  // ----- The forest

  /** The latest edge recorded for a row: what the source's dictionary keeps. */
  function LastEdge(edges: seq<Edge>, row: nat): (e: Option<Edge>)
    ensures e.Some? ==> e.value.row == row
  {
    if edges == [] then None
    else if edges[|edges| - 1].row == row then Some(edges[|edges| - 1])
    else LastEdge(edges[..|edges| - 1], row)
  }

  lemma LastEdgeAppend(edges: seq<Edge>, e: Edge, row: nat)
    ensures LastEdge(edges + [e], row) == if e.row == row then Some(e) else LastEdge(edges, row)
  {
    assert (edges + [e])[..|edges|] == edges;
  }

  predicate ValidEdge(e: Edge, neighbours: nat) {
    e.parent < e.row <= e.parent + neighbours && (e.sign == -1 || e.sign == 1)
  }

  /** Narrower than every candidate tried before: nearer rows first, and the sum before the difference. */
  ghost predicate FirstBest(source: Matrix, n: nat, e: Edge, width: nat)
    requires Rectangular(source, n) && e.parent < e.row < |source|
  {
    forall o: nat, s | 1 <= o <= e.row && (s == -1 || s == 1)
                       && (o < e.row - e.parent || (o == e.row - e.parent && s == -1 && e.sign == 1)) ::
      width < CandidateWidth(source, e.row, o, s)
  }

  /** One residual row and its width are what the row's kept edge, if any, says. */
  ghost predicate RowLifted(source: Matrix, n: nat, neighbours: nat, row: nat, edge: Option<Edge>,
                            residual: seq<int>, width: nat)
    requires Rectangular(source, n) && row < |source|
  {
    && width == RowWidth(residual)
    && match edge
       case None => residual == source[row]
       case Some(e) =>
         && e.row == row && ValidEdge(e, neighbours) && width < RowWidth(source[row])
         && residual == Difference(source[row], e.sign, source[e.parent])
         && FirstBest(source, n, e, width)
  }

  /** Rounds in the order they are played: offset 1 with sign -1, then +1, then offset 2, and so on. */
  function RoundOf(offset: nat, sign: int): int {
    2 * offset + if sign == 1 then 1 else 0
  }

  /** The width of row minus sign times the row `offset` before it. */
  function CandidateWidth(source: Matrix, row: nat, offset: nat, sign: int): nat
    requires offset <= row < |source| && |source[row]| == |source[row - offset]|
  {
    RowWidth(Difference(source[row], sign, source[row - offset]))
  }

  /** No wider than the original row and every candidate of the rounds before `round`. */
  ghost predicate Narrowest(source: Matrix, n: nat, row: nat, round: int, width: nat)
    requires Rectangular(source, n) && row < |source|
  {
    && width <= RowWidth(source[row])
    && forall o: nat, s | 1 <= o <= row && (s == -1 || s == 1) && RoundOf(o, s) < round ::
         width <= CandidateWidth(source, row, o, s)
  }

  ghost predicate Lifted(source: Matrix, n: nat, neighbours: nat, edges: seq<Edge>, residual: Matrix,
                         widths: seq<nat>)
  {
    && Rectangular(source, n) && |residual| == |widths| == |source|
    && forall row | 0 <= row < |source| ::
         RowLifted(source, n, neighbours, row, LastEdge(edges, row), residual[row], widths[row])
  }

  ghost predicate AllNarrowest(source: Matrix, n: nat, widths: seq<nat>, from: nat, to: nat, round: int) {
    && Rectangular(source, n) && |widths| == |source| && to <= |source|
    && forall row | from <= row < to :: Narrowest(source, n, row, round, widths[row])
  }

  /** Offers one candidate to one row, which takes it if it is strictly narrower. */
  method OfferRow(source: Matrix, n: nat, neighbours: nat, offset: nat, sign: int, row: nat,
                  edges0: seq<Edge>, residual0: Matrix, widths0: seq<nat>)
    returns (edges: seq<Edge>, residual: Matrix, widths: seq<nat>)
    requires Lifted(source, n, neighbours, edges0, residual0, widths0)
    requires 1 <= offset <= neighbours && offset <= row < |source| && (sign == -1 || sign == 1)
    requires Narrowest(source, n, row, RoundOf(offset, sign), widths0[row])
    ensures Lifted(source, n, neighbours, edges, residual, widths)
    ensures Narrowest(source, n, row, RoundOf(offset, sign), widths[row])
    ensures Narrowest(source, n, row, RoundOf(offset, sign) + 1, widths[row])
    ensures forall r | 0 <= r < |source| && r != row :: widths[r] == widths0[r]
  {
    edges, residual, widths := edges0, residual0, widths0;
    var candidate := Difference(source[row], sign, source[row - offset]);
    var bits := RowWidth(candidate);
    if bits < widths[row] {
      var e := Edge(row, row - offset, sign);
      NarrowestIsFirst(source, n, e, widths[row], bits);
      forall r | 0 <= r < |source|
        ensures LastEdge(edges + [e], r) == if r == row then Some(e) else LastEdge(edges, r)
      {
        LastEdgeAppend(edges, e, r);
      }
      residual := residual[row := candidate];
      widths := widths[row := bits];
      edges := edges + [e];
    }
    NarrowestStep(source, n, row, offset, sign, widths0[row], widths[row]);
  }

  /** Offers the candidate of one offset and sign to every row that has such a parent. */
  method Round(source: Matrix, n: nat, neighbours: nat, offset: nat, sign: int,
               edges0: seq<Edge>, residual0: Matrix, widths0: seq<nat>)
    returns (edges: seq<Edge>, residual: Matrix, widths: seq<nat>)
    requires Lifted(source, n, neighbours, edges0, residual0, widths0)
    requires 1 <= offset <= neighbours && offset < |source| && (sign == -1 || sign == 1)
    requires AllNarrowest(source, n, widths0, 0, |source|, RoundOf(offset, sign))
    ensures Lifted(source, n, neighbours, edges, residual, widths)
    ensures AllNarrowest(source, n, widths, 0, |source|, RoundOf(offset, sign) + 1)
  {
    edges, residual, widths := edges0, residual0, widths0;
    ghost var round := RoundOf(offset, sign);
    for row := offset to |source|
      invariant Lifted(source, n, neighbours, edges, residual, widths)
      invariant AllNarrowest(source, n, widths, 0, |source|, round)
      invariant AllNarrowest(source, n, widths, offset, row, round + 1)
    {
      assert Narrowest(source, n, row, round, widths[row]);
      edges, residual, widths := OfferRow(source, n, neighbours, offset, sign, row, edges, residual, widths);
    }
    forall row | 0 <= row < |source| ensures Narrowest(source, n, row, round + 1, widths[row]) {
      if row < offset {
        assert Narrowest(source, n, row, round, widths[row]);
      }
    }
  }

  lemma NarrowestIsFirst(source: Matrix, n: nat, e: Edge, before: nat, bits: nat)
    requires Rectangular(source, n) && e.parent < e.row < |source| && (e.sign == -1 || e.sign == 1)
    requires Narrowest(source, n, e.row, RoundOf(e.row - e.parent, e.sign), before) && bits < before
    ensures FirstBest(source, n, e, bits)
  {
  }

  lemma NarrowestStep(source: Matrix, n: nat, row: nat, offset: nat, sign: int, before: nat, after: nat)
    requires Rectangular(source, n) && offset <= row < |source| && (sign == -1 || sign == 1)
    requires Narrowest(source, n, row, RoundOf(offset, sign), before) && after <= before
    requires after <= CandidateWidth(source, row, offset, sign)
    ensures Narrowest(source, n, row, RoundOf(offset, sign) + 1, after)
    ensures Narrowest(source, n, row, RoundOf(offset, sign), after)
  {
  }

  /** Kept edges in increasing row order: `[selected[row] for row in sorted(selected)]`. */
  ghost predicate Forest(kept: seq<Edge>, edges: seq<Edge>, rows: nat) {
    && (forall i, j | 0 <= i < j < |kept| :: kept[i].row < kept[j].row)
    && (forall i | 0 <= i < |kept| :: kept[i].row < rows && LastEdge(edges, kept[i].row) == Some(kept[i]))
    && (forall row: nat | row < rows && LastEdge(edges, row).Some? :: LastEdge(edges, row).value in kept)
  }

  method Select(edges: seq<Edge>, rows: nat) returns (kept: seq<Edge>)
    ensures Forest(kept, edges, rows)
  {
    kept := [];
    for row := 0 to rows
      invariant forall i, j | 0 <= i < j < |kept| :: kept[i].row < kept[j].row
      invariant forall i | 0 <= i < |kept| :: kept[i].row < row && LastEdge(edges, kept[i].row) == Some(kept[i])
      invariant forall r: nat | r < row && LastEdge(edges, r).Some? :: LastEdge(edges, r).value in kept
    {
      var e := LastEdge(edges, row);
      if e.Some? {
        kept := kept + [e.value];
      }
    }
  }

  ghost predicate HasEdge(edges: seq<Edge>, row: nat) {
    exists i | 0 <= i < |edges| :: edges[i].row == row
  }

  /** What a lifting promises: a legal forest of exact differences, each the first of the narrowest for its row. */
  ghost predicate LiftingOf(source: Matrix, n: nat, neighbours: nat, residual: Matrix, kept: seq<Edge>) {
    && Rectangular(source, n) && |residual| == |source| && Rectangular(residual, n)
    && (forall i, j | 0 <= i < j < |kept| :: kept[i].row < kept[j].row)
    && (forall i | 0 <= i < |kept| ::
          && kept[i].row < |source| && ValidEdge(kept[i], neighbours)
          && residual[kept[i].row] == Difference(source[kept[i].row], kept[i].sign, source[kept[i].parent])
          && RowWidth(residual[kept[i].row]) < RowWidth(source[kept[i].row])
          && FirstBest(source, n, kept[i], RowWidth(residual[kept[i].row])))
    && (forall row | 0 <= row < |source| && !HasEdge(kept, row) :: residual[row] == source[row])
  }

  lemma ForestLifts(source: Matrix, n: nat, neighbours: nat, edges: seq<Edge>, residual: Matrix,
                    widths: seq<nat>, kept: seq<Edge>)
    requires Lifted(source, n, neighbours, edges, residual, widths) && Forest(kept, edges, |source|)
    ensures LiftingOf(source, n, neighbours, residual, kept)
  {
    forall row | 0 <= row < |source|
      ensures |residual[row]| == n
      ensures !HasEdge(kept, row) ==> residual[row] == source[row]
    {
      assert RowLifted(source, n, neighbours, row, LastEdge(edges, row), residual[row], widths[row]);
      if LastEdge(edges, row).Some? {
        var i :| 0 <= i < |kept| && kept[i] == LastEdge(edges, row).value;
      }
    }
    forall i | 0 <= i < |kept|
      ensures ValidEdge(kept[i], neighbours)
      ensures residual[kept[i].row] == Difference(source[kept[i].row], kept[i].sign, source[kept[i].parent])
      ensures RowWidth(residual[kept[i].row]) < RowWidth(source[kept[i].row])
      ensures FirstBest(source, n, kept[i], RowWidth(residual[kept[i].row]))
    {
      var row := kept[i].row;
      assert RowLifted(source, n, neighbours, row, LastEdge(edges, row), residual[row], widths[row]);
    }
  }

  /**
   `lifting_forest` on a matrix of signed bytes. It raises exactly when the bound
   is out of range, the matrix is empty, or there are no more rows than
   neighbours: identity is then not returned, although the source calls it
   always available.
   */
  method LiftingForest(source: Matrix, n: nat, neighbours: int) returns (r: Option<(Matrix, seq<Edge>)>)
    requires Rectangular(source, n)
    ensures r.Some? <==> 1 <= neighbours <= 32 && n > 0 && |source| > neighbours
    ensures r.Some? ==> LiftingOf(source, n, neighbours, r.value.0, r.value.1)
    ensures r.Some? ==> forall row | 0 <= row < |source| ::
              Narrowest(source, n, row, RoundOf(neighbours + 1, -1), RowWidth(r.value.0[row]))
  {
    if !(1 <= neighbours <= 32) || n == 0 || source == [] {
      return None;
    }
    var residual, edges: seq<Edge> := source, [];
    var widths: seq<nat> := seq(|source|, i requires 0 <= i < |source| => RowWidth(source[i]));
    for offset := 1 to neighbours + 1
      invariant |source| >= offset
      invariant Lifted(source, n, neighbours, edges, residual, widths)
      invariant AllNarrowest(source, n, widths, 0, |source|, RoundOf(offset, -1))
    {
      if |source| <= offset {
        return None;
      }
      edges, residual, widths := Round(source, n, neighbours, offset, -1, edges, residual, widths);
      edges, residual, widths := Round(source, n, neighbours, offset, 1, edges, residual, widths);
    }
    var kept := Select(edges, |source|);
    ForestLifts(source, n, neighbours, edges, residual, widths, kept);
    forall row | 0 <= row < |source|
      ensures Narrowest(source, n, row, RoundOf(neighbours + 1, -1), RowWidth(residual[row])) {
      assert RowLifted(source, n, neighbours, row, LastEdge(edges, row), residual[row], widths[row]);
    }
    return Some((residual, kept));
  }

  // ----- Restoring

  /** `restore_lifted`'s loop: None is the ValueError for an illegal edge order. */
  function RestoreFrom(result: seq<int>, edges: seq<Edge>, previous: int): Option<seq<int>>
    decreases |edges|
  {
    if edges == [] then Some(result)
    else
      var e := edges[0];
      if !(previous < e.row < |result|) || e.parent >= e.row || (e.sign != -1 && e.sign != 1) then None
      else RestoreFrom(result[e.row := result[e.row] + e.sign * result[e.parent]], edges[1..], e.row)
  }

  method RestoreLifted(outputs: seq<int>, edges: seq<Edge>) returns (r: Option<seq<int>>)
    ensures r == RestoreFrom(outputs, edges, -1)
  {
    var result, previous := outputs, -1;
    for k := 0 to |edges|
      invariant RestoreFrom(result, edges[k..], previous) == RestoreFrom(outputs, edges, -1)
    {
      var e := edges[k];
      assert edges[k..][1..] == edges[k + 1..];
      if !(previous < e.row < |result|) || e.parent >= e.row || (e.sign != -1 && e.sign != 1) {
        return None;
      }
      result := result[e.row := result[e.row] + e.sign * result[e.parent]];
      previous := e.row;
    }
    return Some(result);
  }

  function Apply(m: Matrix, x: seq<int>): (y: seq<int>)
    requires forall i | 0 <= i < |m| :: |m[i]| == |x|
    ensures |y| == |m|
  {
    seq(|m|, i requires 0 <= i < |m| => Dot(m[i], x))
  }

  /** Rows of the remaining edges still hold the residual output; all others are restored. */
  ghost predicate PartlyRestored(source: Matrix, residual: Matrix, x: seq<int>, edges: seq<Edge>, result: seq<int>)
    requires Rectangular(source, |x|) && Rectangular(residual, |x|)
  {
    && |result| == |residual| == |source|
    && (forall row | 0 <= row < |source| ::
            result[row] == Dot(if HasEdge(edges, row) then residual[row] else source[row], x))
  }

  ghost predicate LegalEdges(source: Matrix, residual: Matrix, n: nat, edges: seq<Edge>, previous: int)
    requires Rectangular(source, n) && Rectangular(residual, n) && |residual| == |source|
  {
    && (forall i, j | 0 <= i < j < |edges| :: edges[i].row < edges[j].row)
    && (forall i | 0 <= i < |edges| ::
          && previous < edges[i].row < |source| && edges[i].parent < edges[i].row
          && (edges[i].sign == -1 || edges[i].sign == 1)
          && residual[edges[i].row] == Difference(source[edges[i].row], edges[i].sign, source[edges[i].parent]))
  }

  lemma RestoreStep(source: Matrix, residual: Matrix, x: seq<int>, edges: seq<Edge>, previous: int, result: seq<int>)
    requires Rectangular(source, |x|) && Rectangular(residual, |x|) && |residual| == |source|
    requires edges != [] && LegalEdges(source, residual, |x|, edges, previous)
    requires PartlyRestored(source, residual, x, edges, result)
    ensures PartlyRestored(source, residual, x, edges[1..],
              result[edges[0].row := result[edges[0].row] + edges[0].sign * result[edges[0].parent]])
  {
    var e, rest := edges[0], edges[1..];
    var next := result[e.row := result[e.row] + e.sign * result[e.parent]];
    FirstEdgeDone(edges);
    DotDifference(source[e.row], e.sign, source[e.parent], x);
    assert next[e.row] == Dot(source[e.row], x);
    forall row | 0 <= row < |source|
      ensures next[row] == Dot(if HasEdge(rest, row) then residual[row] else source[row], x)
    {
      assert row != e.row ==> next[row] == result[row];
    }
  }

  /** Removing the first edge changes the state of its own row only; its parent has no edge left. */
  lemma FirstEdgeDone(edges: seq<Edge>)
    requires edges != [] && edges[0].parent < edges[0].row
    requires forall i, j | 0 <= i < j < |edges| :: edges[i].row < edges[j].row
    ensures HasEdge(edges, edges[0].row) && !HasEdge(edges, edges[0].parent) && !HasEdge(edges[1..], edges[0].row)
    ensures forall row: nat | row != edges[0].row :: HasEdge(edges[1..], row) <==> HasEdge(edges, row)
  {
    var rest := edges[1..];
    assert forall i | 0 <= i < |rest| :: rest[i] == edges[i + 1];
    forall row: nat | row != edges[0].row && HasEdge(edges, row) ensures HasEdge(rest, row) {
      var i :| 0 <= i < |edges| && edges[i].row == row;
      assert rest[i - 1].row == row;
    }
  }

  lemma LegalTail(source: Matrix, residual: Matrix, n: nat, edges: seq<Edge>, previous: int)
    requires Rectangular(source, n) && Rectangular(residual, n) && |residual| == |source|
    requires edges != [] && LegalEdges(source, residual, n, edges, previous)
    ensures LegalEdges(source, residual, n, edges[1..], edges[0].row)
  {
    assert forall i | 0 <= i < |edges[1..]| :: edges[1..][i] == edges[i + 1];
  }

  lemma {:induction false} RestoreAll(source: Matrix, residual: Matrix, x: seq<int>, edges: seq<Edge>,
                                      previous: int, result: seq<int>)
    requires Rectangular(source, |x|) && Rectangular(residual, |x|) && |residual| == |source|
    requires LegalEdges(source, residual, |x|, edges, previous)
    requires PartlyRestored(source, residual, x, edges, result)
    ensures RestoreFrom(result, edges, previous) == Some(Apply(source, x))
    decreases |edges|
  {
    if edges == [] {
      assert result == Apply(source, x);
    } else {
      var e := edges[0];
      RestoreStep(source, residual, x, edges, previous, result);
      LegalTail(source, residual, |x|, edges, previous);
      RestoreAll(source, residual, x, edges[1..], e.row,
                 result[e.row := result[e.row] + e.sign * result[e.parent]]);
    }
  }

  /** Lifting is lossless: restoring the residual outputs gives the original outputs, for every input. */
  lemma LiftingLossless(source: Matrix, neighbours: nat, residual: Matrix, kept: seq<Edge>, x: seq<int>)
    requires LiftingOf(source, |x|, neighbours, residual, kept)
    ensures RestoreFrom(Apply(residual, x), kept, -1) == Some(Apply(source, x))
  {
    RestoreAll(source, residual, x, kept, -1, Apply(residual, x));
  }

  // ----- The wire size

  function TotalWidth(m: Matrix): nat {
    if m == [] then 0 else RowWidth(m[0]) + TotalWidth(m[1..])
  }

  /** `packed_size(residue_widths(m), rows)`. */
  function PackedSize(m: Matrix, rows: nat): nat {
    (TotalWidth(m) * rows + 7) / 8
  }

  lemma {:induction false} TotalWidthIsSum(m: Matrix)
    ensures TotalWidth(m) == Sum(seq(|m|, i requires 0 <= i < |m| => RowWidth(m[i])))
  {
    if m != [] {
      TotalWidthIsSum(m[1..]);
      var widths := seq(|m|, i requires 0 <= i < |m| => RowWidth(m[i]));
      assert widths[1..] == seq(|m[1..]|, i requires 0 <= i < |m[1..]| => RowWidth(m[1..][i]));
    }
  }

  /** The packed size is the fewest bytes that hold the bits of all rows. */
  lemma PackedSizeLeast(m: Matrix, rows: nat)
    ensures 8 * PackedSize(m, rows) >= TotalWidth(m) * rows
    ensures 8 * (PackedSize(m, rows) - 1) < TotalWidth(m) * rows
  {
  }

  lemma {:induction false} TotalWidthMonotone(a: Matrix, b: Matrix)
    requires |a| == |b| && forall i | 0 <= i < |a| :: RowWidth(a[i]) <= RowWidth(b[i])
    ensures TotalWidth(a) <= TotalWidth(b)
  {
    if a != [] {
      TotalWidthMonotone(a[1..], b[1..]);
    }
  }

  /** A lifted matrix never packs larger than the original. */
  lemma LiftingNeverWider(source: Matrix, n: nat, neighbours: nat, residual: Matrix, rows: nat)
    requires Rectangular(source, n) && |residual| == |source|
    requires forall row | 0 <= row < |source| ::
            Narrowest(source, n, row, RoundOf(neighbours + 1, -1), RowWidth(residual[row]))
    ensures PackedSize(residual, rows) <= PackedSize(source, rows)
  {
    forall i | 0 <= i < |source| ensures RowWidth(residual[i]) <= RowWidth(source[i]) {
      assert Narrowest(source, n, i, RoundOf(neighbours + 1, -1), RowWidth(residual[i]));
    }
    TotalWidthMonotone(residual, source);
    PackedMonotone(TotalWidth(residual), TotalWidth(source), rows);
  }

  lemma PackedMonotone(a: nat, b: nat, rows: nat)
    requires a <= b
    ensures (a * rows + 7) / 8 <= (b * rows + 7) / 8
  {
    MulMonotone(rows, a, b);
  }
}
