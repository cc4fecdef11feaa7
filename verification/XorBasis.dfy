/**
 `gf2_rank`: the rank of an integer matrix modulo two by a basis of words with
 distinct leading bits. The result is proved to be the dimension of the row
 space: the space of all XORs of rows has exactly two to the rank elements.

 A word (the source packs each row into one integer and uses only XOR, the zero
 test and the bit length) is the sequence of its bits, bit 0 first.
 */
module XorBasis {
  import opened Wrappers
  import opened Bits

  type Word = seq<bool>

  function Zero(n: nat): Word {
    seq(n, _ => false)
  }

  function Xor(a: Word, b: Word): (r: Word)
    requires |a| == |b|
    ensures |r| == |a|
  {
    seq(|a|, i requires 0 <= i < |a| => a[i] != b[i])
  }

  /** `bit_length() - 1`, which is -1 for zero. */
  function Lead(w: Word): (p: int)
    ensures -1 <= p < |w|
    ensures p >= 0 ==> w[p]
    ensures forall i | p < i < |w| :: !w[i]
  {
    if w == [] then -1
    else if w[|w| - 1] then |w| - 1
    else Lead(w[..|w| - 1])
  }

  lemma LeadZero(w: Word)
    ensures Lead(w) == -1 <==> w == Zero(|w|)
  {
  }

  lemma LeadIs(w: Word, p: nat)
    requires p < |w| && w[p] && forall i | p < i < |w| :: !w[i]
    ensures Lead(w) == p
  {
  }

  lemma XorCancels(a: Word, b: Word)
    requires |a| == |b|
    ensures Xor(Xor(a, b), b) == a && Xor(a, b) == Xor(b, a) && Xor(a, a) == Zero(|a|) && Xor(a, Zero(|a|)) == a
  {
  }

  lemma XorAssociative(a: Word, b: Word, c: Word)
    requires |a| == |b| == |c|
    ensures Xor(Xor(a, b), c) == Xor(a, Xor(b, c))
  {
  }

  /** XOR of equal leading bits clears them; of different ones keeps the higher. */
  lemma LeadXor(a: Word, b: Word)
    requires |a| == |b|
    ensures Lead(a) == Lead(b) >= 0 ==> Lead(Xor(a, b)) < Lead(a)
    ensures Lead(a) > Lead(b) ==> Lead(Xor(a, b)) == Lead(a)
    ensures Lead(a) < Lead(b) ==> Lead(Xor(a, b)) == Lead(b)
  {
    var x := Xor(a, b);
    if Lead(a) > Lead(b) {
      LeadIs(x, Lead(a));
    } else if Lead(a) < Lead(b) {
      LeadIs(x, Lead(b));
    }
  }

  // ----- The row space

  ghost function Shifted(s: set<Word>, w: Word): set<Word>
    requires forall v | v in s :: |v| == |w|
  {
    set v | v in s :: Xor(v, w)
  }

  /** All XORs of subsets of the rows. */
  ghost function Span(rows: seq<Word>, n: nat): (s: set<Word>)
    requires forall i | 0 <= i < |rows| :: |rows[i]| == n
    ensures forall v | v in s :: |v| == n
  {
    if rows == [] then {Zero(n)}
    else
      var s := Span(rows[..|rows| - 1], n);
      s + Shifted(s, rows[|rows| - 1])
  }

  ghost predicate Closed(s: set<Word>, n: nat) {
    && Zero(n) in s && (forall v | v in s :: |v| == n)
    && (forall u, v {:trigger Xor(u, v)} | u in s && v in s :: Xor(u, v) in s)
  }

  lemma {:induction false} ShiftedSize(s: set<Word>, w: Word)
    requires forall v | v in s :: |v| == |w|
    ensures |Shifted(s, w)| == |s|
  {
    if s == {} {
      assert Shifted(s, w) == {};
    } else {
      var v :| v in s;
      var rest := s - {v};
      ShiftedSize(rest, w);
      assert Shifted(s, w) == Shifted(rest, w) + {Xor(v, w)};
      if Xor(v, w) in Shifted(rest, w) {
        var u :| u in rest && Xor(u, w) == Xor(v, w);
        XorCancels(u, w);
        XorCancels(v, w);
      }
    }
  }

  lemma ShiftedClosed(s: set<Word>, n: nat, w: Word)
    requires Closed(s, n) && |w| == n
    ensures Closed(s + Shifted(s, w), n)
  {
    var t := s + Shifted(s, w);
    forall u, v | u in t && v in t ensures Xor(u, v) in t {
      var (a, du) := Unshift(s, n, w, u);
      var (b, dv) := Unshift(s, n, w, v);
      assert Xor(a, b) in s;
      ShiftPair(a, du, b, dv, w, n);
    }
  }

  /** A member of the extended space is a member of the old one, shifted or not. */
  ghost function Unshift(s: set<Word>, n: nat, w: Word, u: Word): (r: (Word, bool))
    requires Closed(s, n) && |w| == n && u in s + Shifted(s, w)
    ensures r.0 in s && u == if r.1 then Xor(r.0, w) else r.0
  {
    if u in s then (u, false) else var v :| v in s && u == Xor(v, w); (v, true)
  }

  lemma ShiftPair(a: Word, du: bool, b: Word, dv: bool, w: Word, n: nat)
    requires |a| == |b| == |w| == n
    ensures Xor(if du then Xor(a, w) else a, if dv then Xor(b, w) else b)
            == if du != dv then Xor(Xor(a, b), w) else Xor(a, b)
  {
  }

  // ----- The basis

  ghost predicate BasisWithin(s: set<Word>, basis: map<int, Word>) {
    forall p | p in basis :: basis[p] in s && Lead(basis[p]) == p >= 0
  }

  ghost predicate LeadsCovered(s: set<Word>, n: nat, basis: map<int, Word>) {
    forall v | v in s && v != Zero(n) :: Lead(v) in basis
  }

  /** `basis` echelonises the space `s`: its leading bits are exactly those of the nonzero members. */
  ghost predicate Echelon(s: set<Word>, n: nat, basis: map<int, Word>) {
    Closed(s, n) && BasisWithin(s, basis) && LeadsCovered(s, n, basis) && |s| == Pow2(|basis|)
  }

  method ReduceWord(row: Word, n: nat, ghost s: set<Word>, basis: map<int, Word>) returns (word: Word)
    requires |row| == n && Echelon(s, n, basis)
    ensures |word| == n && Xor(row, word) in s
    ensures word == Zero(n) || Lead(word) !in basis
  {
    word := row;
    XorCancels(row, row);
    while word != Zero(n) && Lead(word) in basis
      invariant |word| == n && Xor(row, word) in s
      decreases Lead(word) + 1
    {
      var b := basis[Lead(word)];
      LeadZero(word);
      LeadXor(word, b);
      XorAssociative(row, word, b);
      assert Xor(Xor(row, word), b) in s;
      word := Xor(word, b);
    }
  }

  lemma ShiftedSame(s: set<Word>, n: nat, a: Word, b: Word)
    requires Closed(s, n) && |a| == |b| == n && Xor(a, b) in s
    ensures Shifted(s, a) <= Shifted(s, b)
  {
    forall u | u in Shifted(s, a) ensures u in Shifted(s, b) {
      var v :| v in s && u == Xor(v, a);
      var k := Xor(v, Xor(a, b));
      assert k in s;
      XorAssociative(v, a, b);
      XorCancels(u, b);
      assert Xor(k, b) == u;
    }
  }

  lemma SpannedRow(s: set<Word>, n: nat, row: Word)
    requires Closed(s, n) && |row| == n && row in s
    ensures s + Shifted(s, row) == s
  {
  }

  lemma NewLeads(s: set<Word>, n: nat, basis: map<int, Word>, word: Word)
    requires Closed(s, n) && LeadsCovered(s, n, basis) && |word| == n && Lead(word) >= 0 && Lead(word) !in basis
    ensures LeadsCovered(s + Shifted(s, word), n, basis[Lead(word) := word])
  {
    forall v | v in s + Shifted(s, word) && v != Zero(n) ensures Lead(v) in basis[Lead(word) := word] {
      if v !in s {
        var u :| u in s && v == Xor(u, word);
        LeadXor(u, word);
        LeadZero(u);
      }
    }
  }

  lemma NewMembers(s: set<Word>, n: nat, basis: map<int, Word>, word: Word)
    requires Closed(s, n) && BasisWithin(s, basis) && |word| == n && Lead(word) >= 0
    ensures BasisWithin(s + Shifted(s, word), basis[Lead(word) := word])
  {
    ShiftContains(s, n, word);
  }

  lemma MemberShift(s: set<Word>, n: nat, word: Word, v: Word)
    requires Closed(s, n) && |word| == n && v in s && v in Shifted(s, word)
    ensures word in s
  {
    var u :| u in s && v == Xor(u, word);
    XorCancels(word, u);
    XorCancels(u, word);
    assert Xor(v, u) in s;
    assert word == Xor(v, u);
  }

  lemma DoubledSize(s: set<Word>, n: nat, basis: map<int, Word>, word: Word)
    requires Echelon(s, n, basis) && |word| == n && word != Zero(n) && Lead(word) !in basis
    ensures |s + Shifted(s, word)| == Pow2(|basis| + 1)
  {
    forall v | v in s ensures v !in Shifted(s, word) {
      if v in Shifted(s, word) {
        MemberShift(s, n, word, v);
      }
    }
    assert s !! Shifted(s, word);
    ShiftedSize(s, word);
  }

  lemma ShiftContains(s: set<Word>, n: nat, word: Word)
    requires Closed(s, n) && |word| == n
    ensures word in Shifted(s, word)
  {
    XorCancels(Zero(n), word);
    XorCancels(word, Zero(n));
    assert Xor(Zero(n), word) == word;
  }

  /** A remainder with a new leading bit doubles the space. */
  lemma NewWord(s: set<Word>, n: nat, basis: map<int, Word>, word: Word)
    requires Echelon(s, n, basis) && |word| == n && word != Zero(n) && Lead(word) !in basis
    ensures Echelon(s + Shifted(s, word), n, basis[Lead(word) := word])
  {
    LeadZero(word);
    ShiftedClosed(s, n, word);
    NewMembers(s, n, basis, word);
    NewLeads(s, n, basis, word);
    DoubledSize(s, n, basis, word);
    OneMore(basis, Lead(word), word);
  }

  lemma OneMore(basis: map<int, Word>, p: int, word: Word)
    requires p !in basis
    ensures |basis[p := word]| == |basis| + 1
  {
    assert basis[p := word].Keys == basis.Keys + {p};
  }

  lemma NewRow(s: set<Word>, n: nat, basis: map<int, Word>, row: Word, word: Word)
    requires Echelon(s, n, basis) && |row| == |word| == n && Xor(row, word) in s
    requires word != Zero(n) && Lead(word) !in basis
    ensures Echelon(s + Shifted(s, row), n, basis[Lead(word) := word])
  {
    XorCancels(row, word);
    ShiftedSame(s, n, row, word);
    ShiftedSame(s, n, word, row);
    assert Shifted(s, row) == Shifted(s, word);
    NewWord(s, n, basis, word);
  }

  // ----- The basis generates the space

  ghost function XorAll(basis: map<int, Word>, pivots: seq<int>, n: nat): (w: Word)
    requires forall k | 0 <= k < |pivots| :: pivots[k] in basis
    requires forall p | p in basis :: |basis[p]| == n
    ensures |w| == n
  {
    if pivots == [] then Zero(n) else Xor(XorAll(basis, pivots[1..], n), basis[pivots[0]])
  }

  /** Every member of the space is the XOR of basis words with decreasing leading bits. */
  lemma {:induction false} GeneratedByBasis(s: set<Word>, n: nat, basis: map<int, Word>, v: Word)
    returns (pivots: seq<int>)
    requires Echelon(s, n, basis) && v in s
    ensures forall k | 0 <= k < |pivots| :: pivots[k] in basis && pivots[k] <= Lead(v)
    ensures forall j, k | 0 <= j < k < |pivots| :: pivots[j] > pivots[k]
    ensures XorAll(basis, pivots, n) == v
    decreases Lead(v) + 1
  {
    LeadZero(v);
    if v == Zero(n) {
      pivots := [];
    } else {
      var b := basis[Lead(v)];
      LeadXor(v, b);
      var rest := GeneratedByBasis(s, n, basis, Xor(v, b));
      pivots := [Lead(v)] + rest;
      assert pivots[1..] == rest;
      XorCancels(v, b);
    }
  }

  function BitRow(row: seq<int>): Word {
    seq(|row|, i requires 0 <= i < |row| => row[i] % 2 == 1)
  }

  function BitRows(matrix: seq<seq<int>>): (r: seq<Word>)
    ensures |r| == |matrix|
  {
    seq(|matrix|, i requires 0 <= i < |matrix| => BitRow(matrix[i]))
  }

  /** One row: reduce it, and keep what is left under its leading bit. */
  method InsertRow(row: Word, n: nat, ghost s: set<Word>, basis: map<int, Word>) returns (next: map<int, Word>)
    requires |row| == n && Echelon(s, n, basis)
    ensures Echelon(s + Shifted(s, row), n, next)
  {
    next := basis;
    var word := ReduceWord(row, n, s, basis);
    if word != Zero(n) {
      NewRow(s, n, basis, row, word);
      next := basis[Lead(word) := word];
    } else {
      XorCancels(row, word);
      SpannedRow(s, n, row);
    }
  }

  lemma EmptyBasis(n: nat)
    ensures Echelon(Span([], n), n, map[])
  {
    XorCancels(Zero(n), Zero(n));
  }

  lemma SpanExtend(rows: seq<Word>, n: nat, i: nat)
    requires i < |rows| && forall j | 0 <= j < |rows| :: |rows[j]| == n
    ensures Span(rows[..i + 1], n) == Span(rows[..i], n) + Shifted(Span(rows[..i], n), rows[i])
  {
    assert rows[..i + 1][..i] == rows[..i];
  }

  /** The basis of the whole matrix, with the space it spans. */
  method BuildBasis(rows: seq<Word>, n: nat) returns (basis: map<int, Word>)
    requires forall i | 0 <= i < |rows| :: |rows[i]| == n
    ensures Echelon(Span(rows, n), n, basis)
  {
    basis := map[];
    EmptyBasis(n);
    for i := 0 to |rows|
      invariant Echelon(Span(rows[..i], n), n, basis)
    {
      SpanExtend(rows, n, i);
      basis := InsertRow(rows[i], n, Span(rows[..i], n), basis);
    }
    assert rows[..|rows|] == rows;
  }

  // ----- The space in terms of the matrix

  /** Entry `j` of the sum of the selected rows. */
  function SelectedSum(matrix: seq<seq<int>>, selected: seq<bool>, j: nat): int
    requires |selected| == |matrix| && forall i | 0 <= i < |matrix| :: j < |matrix[i]|
  {
    if matrix == [] then 0
    else
      var m := |matrix| - 1;
      SelectedSum(matrix[..m], selected[..m], j) + if selected[m] then matrix[m][j] else 0
  }

  /** `v` is the parity of the sum of the selected rows. */
  ghost predicate ParityOf(v: Word, matrix: seq<seq<int>>, selected: seq<bool>, n: nat) {
    && |selected| == |matrix| && |v| == n && (forall i | 0 <= i < |matrix| :: |matrix[i]| == n)
    && forall j | 0 <= j < n :: v[j] <==> SelectedSum(matrix, selected, j) % 2 == 1
  }

  lemma {:induction false} SpannedIsParity(matrix: seq<seq<int>>, n: nat, v: Word) returns (selected: seq<bool>)
    requires (forall i | 0 <= i < |matrix| :: |matrix[i]| == n) && v in Span(BitRows(matrix), n)
    ensures ParityOf(v, matrix, selected, n)
    decreases |matrix|
  {
    if matrix == [] {
      selected := [];
    } else {
      var m := |matrix| - 1;
      BitRowsSnoc(matrix);
      var s := Span(BitRows(matrix[..m]), n);
      var u, last := v, false;
      if v !in s {
        u :| u in s && v == Xor(u, BitRow(matrix[m]));
        last := true;
      }
      var before := SpannedIsParity(matrix[..m], n, u);
      ParitySnoc(u, matrix, before, n, last);
      selected := before + [last];
    }
  }

  lemma {:induction false} ParityIsSpanned(matrix: seq<seq<int>>, n: nat, v: Word, selected: seq<bool>)
    requires ParityOf(v, matrix, selected, n)
    ensures v in Span(BitRows(matrix), n)
    decreases |matrix|
  {
    if matrix == [] {
      assert v == Zero(n);
    } else {
      var m := |matrix| - 1;
      BitRowsSnoc(matrix);
      XorCancels(v, BitRow(matrix[m]));
      ParityInit(v, matrix, selected, n);
      ParityIsSpanned(matrix[..m], n, if selected[m] then Xor(v, BitRow(matrix[m])) else v, selected[..m]);
    }
  }

  /** The words that the basis spans are the parities of the sums of rows of the integer matrix. */
  lemma SpanIsParities(matrix: seq<seq<int>>, n: nat, v: Word)
    requires forall i | 0 <= i < |matrix| :: |matrix[i]| == n
    ensures v in Span(BitRows(matrix), n) <==> exists selected: seq<bool> :: ParityOf(v, matrix, selected, n)
  {
    if v in Span(BitRows(matrix), n) {
      var selected := SpannedIsParity(matrix, n, v);
    }
    forall selected: seq<bool> | ParityOf(v, matrix, selected, n) ensures v in Span(BitRows(matrix), n) {
      ParityIsSpanned(matrix, n, v, selected);
    }
  }

  lemma BitRowsSnoc(matrix: seq<seq<int>>)
    requires matrix != []
    ensures BitRows(matrix) == BitRows(matrix[..|matrix| - 1]) + [BitRow(matrix[|matrix| - 1])]
    ensures BitRows(matrix)[..|matrix| - 1] == BitRows(matrix[..|matrix| - 1])
  {
  }

  lemma ParitySnoc(u: Word, matrix: seq<seq<int>>, selected: seq<bool>, n: nat, last: bool)
    requires matrix != [] && |matrix[|matrix| - 1]| == n && ParityOf(u, matrix[..|matrix| - 1], selected, n)
    ensures ParityOf(if last then Xor(u, BitRow(matrix[|matrix| - 1])) else u, matrix, selected + [last], n)
  {
    var all := selected + [last];
    assert all[..|matrix| - 1] == selected;
  }

  lemma ParityInit(v: Word, matrix: seq<seq<int>>, selected: seq<bool>, n: nat)
    requires matrix != [] && ParityOf(v, matrix, selected, n)
    ensures var m := |matrix| - 1;
            ParityOf(if selected[m] then Xor(v, BitRow(matrix[m])) else v, matrix[..m], selected[..m], n)
  {
  }

  /** `gf2_rank`: two to the result is the number of distinct XORs of rows modulo two. */
  method Gf2Rank(matrix: seq<seq<int>>, n: nat) returns (r: Option<nat>)
    requires forall i | 0 <= i < |matrix| :: |matrix[i]| == n
    ensures r.Some? <==> |matrix| <= 1024 && n <= 1024
    ensures r.Some? ==> |Span(BitRows(matrix), n)| == Pow2(r.value)
  {
    if |matrix| > 1024 || n > 1024 {
      return None;
    }
    var basis := BuildBasis(BitRows(matrix), n);
    return Some(|basis|);
  }
}
