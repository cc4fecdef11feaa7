/**
 `solve_field`: Gauss-Jordan elimination over a prime field. Every row operation
 keeps the solution set, so the returned vector solves the system, and None is
 returned exactly when no vector does.
 */
module PrimeField {
  import opened Wrappers
  import opened Modular

  type Row = seq<int>

  ghost predicate IsPrime(p: int) {
    p > 1 && forall d | 1 < d < p :: p % d != 0
  }

  // ----- Inverses

  ghost predicate DividesEvenly(g: int, a: int) {
    exists k :: a == g * k
  }

  /** Bezout coefficients: a * x + b * y == g for a common divisor g. */
  function ExtendedGcd(a: nat, b: nat): (r: (int, int, int))
    requires a > 0 || b > 0
    ensures r.0 > 0 && a * r.1 + b * r.2 == r.0
    ensures DividesEvenly(r.0, a) && DividesEvenly(r.0, b)
    decreases b
  {
    if b == 0 then
      assert a == a * 1 && 0 == a * 0;
      (a, 1, 0)
    else
      var (g, x, y) := ExtendedGcd(b, Remainder(a, b));
      BezoutStep(a, b, g, x, y);
      (g, y, x - Quotient(a, b) * y)
  }

  lemma BezoutRing(b: int, q: int, r: int, x: int, y: int)
    ensures (b * q + r) * y + b * (x - q * y) == b * x + r * y
  {
    MulDistribute(y, b * q, r);
    MulDistribute(b, x, q * y);
    MulAssoc(b, q, y);
    assert y * (b * q + r) == (b * q + r) * y && y * (b * q) == (b * q) * y && y * r == r * y;
  }

  lemma BezoutStep(a: nat, b: nat, g: int, x: int, y: int)
    requires b > 0 && g > 0 && b * x + Remainder(a, b) * y == g
    requires DividesEvenly(g, b) && DividesEvenly(g, Remainder(a, b))
    ensures a * y + b * (x - Quotient(a, b) * y) == g
    ensures DividesEvenly(g, a)
  {
    var q, r := Quotient(a, b), Remainder(a, b);
    BezoutRing(b, q, r, x, y);
    var j :| b == g * j;
    var k :| r == g * k;
    MulAssoc(g, j, q);
    MulDistribute(g, j * q, k);
    assert a == g * (j * q + k);
  }

  /** `pow(a, -1, p)`. */
  function Inverse(a: int, p: int): (r: int)
    requires IsPrime(p) && 0 < a < p
    ensures 0 <= r < p && (r * a) % p == 1
  {
    var (g, x, y) := ExtendedGcd(a, p);
    CoprimeBelow(a, p, g);
    assert x % p * a % p == 1 by { InverseRemainder(a, p, x, y); }
    x % p
  }

  lemma CoprimeBelow(a: int, p: int, g: int)
    requires IsPrime(p) && 0 < a < p && g > 0
    requires DividesEvenly(g, a) && DividesEvenly(g, p)
    ensures g == 1
  {
    var j :| a == g * j;
    assert j >= 1;
    assert g <= g * j;
    var k :| p == g * k;
    MultipleMod(g, k);
  }

  lemma InverseRemainder(a: int, p: int, x: int, y: int)
    requires p > 1 && a * x + p * y == 1
    ensures (x % p * a) % p == 1
  {
    var q := x / p;
    assert x % p == x - p * q;
    calc {
      x % p * a;
      (x - p * q) * a;
      x * a - p * q * a;
      { assert p * q * a == p * (q * a); }
      1 - p * y - p * (q * a);
      { assert p * -(y + q * a) == -(p * y) - p * (q * a); }
      p * -(y + q * a) + 1;
    }
    QuotientUnique(x % p * a, p, -(y + q * a), 1);
  }

  // ----- Row operations

  ghost predicate Canonical(row: Row, p: int) {
    forall c | 0 <= c < |row| :: 0 <= row[c] < p
  }

  function ScaleRow(row: Row, f: int, p: int): (r: Row)
    requires p > 0
    ensures |r| == |row| && Canonical(r, p)
  {
    Modular.Reduced(Scaled(row, f), p)
  }

  function SubRow(row: Row, f: int, pivot: Row, p: int): (r: Row)
    requires p > 0 && |row| == |pivot|
    ensures |r| == |row| && Canonical(r, p)
  {
    Modular.Reduced(Difference(row, f, pivot), p)
  }

  lemma DotScale(row: Row, f: int, p: int, y: seq<int>)
    requires p > 0 && |row| == |y|
    ensures Cong(Dot(ScaleRow(row, f, p), y), f * Dot(row, y), p)
  {
    DotReduced(Scaled(row, f), p, y);
    DotScaled(row, f, y);
  }

  lemma DotSub(row: Row, f: int, pivot: Row, p: int, y: seq<int>)
    requires p > 0 && |row| == |pivot| == |y|
    ensures Cong(Dot(SubRow(row, f, pivot, p), y), Dot(row, y) - f * Dot(pivot, y), p)
  {
    var reduced, exact := Dot(SubRow(row, f, pivot, p), y), Dot(Difference(row, f, pivot), y);
    assert Cong(reduced, exact, p) by {
      DotReduced(Difference(row, f, pivot), p, y);
    }
    DotDifference(row, f, pivot, y);
    CongReplace(reduced, exact, Dot(row, y) - f * Dot(pivot, y), p);
  }

  lemma CongReplace(a: int, b: int, c: int, p: int)
    requires p > 0 && Cong(a, b, p) && b == c
    ensures Cong(a, c, p)
  {
  }

  /** `y` is annihilated by every augmented row; y is x with -1 appended. */
  ghost predicate Solves(w: Matrix, y: seq<int>, p: int)
    requires p > 0 && Rectangular(w, |y|)
  {
    forall i | 0 <= i < |w| :: Cong(Dot(w[i], y), 0, p)
  }

  function SwapRows(w: Matrix, i: nat, j: nat): (r: Matrix)
    requires i < |w| && j < |w|
    ensures |r| == |w|
  {
    w[i := w[j]][j := w[i]]
  }

  function Eliminate(w: Matrix, row: nat, column: nat, p: int): (r: Matrix)
    requires p > 0 && row < |w| && forall i | 0 <= i < |w| :: |w[i]| == |w[row]| && column < |w[i]|
    ensures |r| == |w| && forall i | 0 <= i < |w| :: |r[i]| == |w[i]| && Canonical(r[i], p)
  {
    seq(|w|, i requires 0 <= i < |w| => SubRow(w[i], if i == row then 0 else w[i][column], w[row], p))
  }

  /** One pivot step of the elimination: swap, scale, clear the column everywhere else. */
  function PivotStep(w: Matrix, row: nat, pivot: nat, column: nat, p: int): (r: Matrix)
    requires IsPrime(p) && row < |w| && pivot < |w|
    requires forall i | 0 <= i < |w| :: |w[i]| == |w[row]| && column < |w[i]|
    requires 0 < w[pivot][column] < p
    ensures |r| == |w| && forall i | 0 <= i < |w| :: |r[i]| == |w[i]| && Canonical(r[i], p)
  {
    var s := SwapRows(w, row, pivot);
    Eliminate(s[row := ScaleRow(s[row], Inverse(s[row][column], p), p)], row, column, p)
  }

  // ----- Every row operation keeps the solution set

  lemma ZeroThrough(a: int, b: int, p: int)
    requires p > 0 && Cong(a, b, p)
    ensures Cong(a, 0, p) <==> Cong(b, 0, p)
  {
    if Cong(b, 0, p) {
      CongTrans(a, b, 0, p);
    }
    if Cong(a, 0, p) {
      CongSym(a, b, p);
      CongTrans(b, a, 0, p);
    }
  }

  lemma ZeroTimes(s: int, f: int, inverse: int, d: int, p: int)
    requires p > 1 && Cong(s, f * d, p) && (f * inverse) % p == 1
    ensures Cong(s, 0, p) <==> Cong(d, 0, p)
  {
    ZeroThrough(s, f * d, p);
    if Cong(d, 0, p) {
      CongScale(f, d, 0, p);
    }
    if Cong(f * d, 0, p) {
      CongScale(inverse, f * d, 0, p);
      QuotientUnique(1, p, 0, 1);
      CongIffMod(f * inverse, 1, p);
      CongScale(d, f * inverse, 1, p);
      MulAssoc(inverse, f, d);
      assert inverse * f == f * inverse && (f * inverse) * d == d * (f * inverse);
      ZeroThrough(inverse * (f * d), d, p);
    }
  }

  /** Scaling by an invertible factor neither creates nor removes a zero. */
  lemma ScaleZero(row: Row, f: int, inverse: int, p: int, y: seq<int>)
    requires p > 1 && |row| == |y| && (f * inverse) % p == 1
    ensures Cong(Dot(ScaleRow(row, f, p), y), 0, p) <==> Cong(Dot(row, y), 0, p)
  {
    DotScale(row, f, p, y);
    ZeroTimes(Dot(ScaleRow(row, f, p), y), f, inverse, Dot(row, y), p);
  }

  lemma ZeroMinus(s: int, r: int, f: int, d: int, p: int)
    requires p > 0 && Cong(s, r - f * d, p) && (f == 0 || Cong(d, 0, p))
    ensures Cong(s, 0, p) <==> Cong(r, 0, p)
  {
    ZeroThrough(s, r - f * d, p);
    if f == 0 {
      assert f * d == 0;
    } else {
      var k := CongWitness(d, 0, p);
      MulAssoc(f, p, k);
      MulAssoc(p, f, k);
      assert f * p == p * f && p * -(f * k) == -(p * (f * k));
      CongIntro(r - f * d, r, p, -(f * k));
      ZeroThrough(r - f * d, r, p);
    }
  }

  lemma SubZero(row: Row, f: int, pivot: Row, p: int, y: seq<int>)
    requires p > 0 && |row| == |pivot| == |y|
    requires f == 0 || Cong(Dot(pivot, y), 0, p)
    ensures Cong(Dot(SubRow(row, f, pivot, p), y), 0, p) <==> Cong(Dot(row, y), 0, p)
  {
    DotSub(row, f, pivot, p, y);
    ZeroMinus(Dot(SubRow(row, f, pivot, p), y), Dot(row, y), f, Dot(pivot, y), p);
  }

  lemma EliminateSolves(w: Matrix, row: nat, column: nat, p: int, y: seq<int>)
    requires p > 0 && row < |w| && Rectangular(w, |y|) && column < |y|
    ensures Rectangular(Eliminate(w, row, column, p), |y|)
    ensures Solves(Eliminate(w, row, column, p), y, p) <==> Solves(w, y, p)
  {
    var r := Eliminate(w, row, column, p);
    SubZero(w[row], 0, w[row], p, y);
    assert r[row] == SubRow(w[row], 0, w[row], p);
    if Cong(Dot(w[row], y), 0, p) {
      forall i | 0 <= i < |w| ensures Cong(Dot(r[i], y), 0, p) <==> Cong(Dot(w[i], y), 0, p) {
        SubZero(w[i], if i == row then 0 else w[i][column], w[row], p, y);
      }
    }
  }

  lemma SwapSolves(w: Matrix, i: nat, j: nat, p: int, y: seq<int>)
    requires p > 0 && i < |w| && j < |w| && Rectangular(w, |y|)
    ensures Rectangular(SwapRows(w, i, j), |y|)
    ensures Solves(SwapRows(w, i, j), y, p) <==> Solves(w, y, p)
  {
    var s := SwapRows(w, i, j);
    assert w == SwapRows(s, i, j);
  }

  lemma ScaleSolves(w: Matrix, row: nat, f: int, inverse: int, p: int, y: seq<int>)
    requires p > 1 && row < |w| && Rectangular(w, |y|) && (f * inverse) % p == 1
    ensures Rectangular(w[row := ScaleRow(w[row], f, p)], |y|)
    ensures Solves(w[row := ScaleRow(w[row], f, p)], y, p) <==> Solves(w, y, p)
  {
    ScaleZero(w[row], f, inverse, p, y);
    ReplaceRow(w, row, ScaleRow(w[row], f, p), p, y);
  }

  lemma ReplaceRow(w: Matrix, row: nat, r: Row, p: int, y: seq<int>)
    requires p > 0 && row < |w| && Rectangular(w, |y|) && |r| == |y|
    requires Cong(Dot(r, y), 0, p) <==> Cong(Dot(w[row], y), 0, p)
    ensures Rectangular(w[row := r], |y|)
    ensures Solves(w[row := r], y, p) <==> Solves(w, y, p)
  {
    var t := w[row := r];
    forall i | 0 <= i < |w| ensures Cong(Dot(t[i], y), 0, p) <==> Cong(Dot(w[i], y), 0, p) {
      assert i != row ==> t[i] == w[i];
    }
  }

  ghost predicate SameSolutions(v: Matrix, w: Matrix, n: nat, p: int) {
    && p > 0 && Rectangular(v, n) && Rectangular(w, n)
    && forall y | |y| == n :: Solves(v, y, p) <==> Solves(w, y, p)
  }

  /** The pivot step keeps the solution set of the augmented system. */
  lemma PivotSolves(w: Matrix, row: nat, pivot: nat, column: nat, n: nat, p: int)
    requires IsPrime(p) && row < |w| && pivot < |w| && Rectangular(w, n) && column < n
    requires 0 < w[pivot][column] < p
    ensures SameSolutions(PivotStep(w, row, pivot, column, p), w, n, p)
  {
    var s := SwapRows(w, row, pivot);
    var lead := s[row][column];
    var t := s[row := ScaleRow(s[row], Inverse(lead, p), p)];
    var r := Eliminate(t, row, column, p);
    forall y | |y| == n ensures Solves(r, y, p) <==> Solves(w, y, p) {
      SwapSolves(w, row, pivot, p, y);
      ScaleSolves(s, row, Inverse(lead, p), lead, p, y);
      EliminateSolves(t, row, column, p, y);
    }
  }

  // ----- The reduced form

  /** Pivot columns are unit vectors; rows vanish left of their pivot, or of `column` without one. */
  ghost predicate Reduced(w: Matrix, pivots: seq<nat>, column: nat, p: int, n: nat) {
    && Rectangular(w, n + 1) && (forall i | 0 <= i < |w| :: Canonical(w[i], p))
    && |pivots| <= |w| && column <= n
    && (forall k | 0 <= k < |pivots| :: pivots[k] < column)
    && (forall i, k | 0 <= i < |w| && 0 <= k < |pivots| :: w[i][pivots[k]] == if i == k then 1 else 0)
    && (forall i, c | |pivots| <= i < |w| && 0 <= c < column :: w[i][c] == 0)
    && (forall k, c | 0 <= k < |pivots| && 0 <= c < pivots[k] :: w[k][c] == 0)
  }

  /** The matrix between scaling and elimination: the pivot row has a leading one at `column`. */
  ghost predicate Prepared(t: Matrix, pivots: seq<nat>, column: nat, p: int, n: nat) {
    && Rectangular(t, n + 1) && (forall i | 0 <= i < |t| :: Canonical(t[i], p))
    && |pivots| < |t| && column < n && p > 1
    && (forall k | 0 <= k < |pivots| :: pivots[k] < column)
    && (forall i, k | 0 <= i < |t| && 0 <= k < |pivots| :: t[i][pivots[k]] == if i == k then 1 else 0)
    && (forall i, c | |pivots| <= i < |t| && 0 <= c < column :: t[i][c] == 0)
    && (forall k, c | 0 <= k < |pivots| && 0 <= c < pivots[k] :: t[k][c] == 0)
    && t[|pivots|][column] == 1
  }

  lemma SwapReduced(w: Matrix, pivots: seq<nat>, pivot: nat, column: nat, p: int, n: nat)
    requires Reduced(w, pivots, column, p, n) && |pivots| <= pivot < |w|
    ensures Reduced(SwapRows(w, |pivots|, pivot), pivots, column, p, n)
  {
  }

  lemma ScaledEntries(row: Row, f: int, p: int, c: nat)
    requires p > 1 && c < |row|
    ensures row[c] == 0 ==> ScaleRow(row, f, p)[c] == 0
    ensures (f * row[c]) % p == 1 ==> ScaleRow(row, f, p)[c] == 1
  {
    assert row[c] * f == f * row[c];
    assert row[c] == 0 ==> row[c] * f == 0;
  }

  lemma ScaleReduced(s: Matrix, pivots: seq<nat>, column: nat, f: int, p: int, n: nat)
    requires p > 1 && Reduced(s, pivots, column, p, n) && column < n && |pivots| < |s|
    requires (f * s[|pivots|][column]) % p == 1
    ensures Prepared(s[|pivots| := ScaleRow(s[|pivots|], f, p)], pivots, column, p, n)
  {
    var row := |pivots|;
    ScaledEntries(s[row], f, p, column);
    forall c: nat | c < column ensures ScaleRow(s[row], f, p)[c] == 0 {
      ScaledEntries(s[row], f, p, c);
    }
  }

  lemma EntryNumbers(x: int, f: int, z: int, p: int)
    requires 0 <= x < p
    ensures f == 0 || z == 0 ==> (x - f * z) % p == x
    ensures f == x && z == 1 ==> (x - f * z) % p == 0
  {
    if f == 0 || z == 0 {
      assert f * z == 0;
      QuotientUnique(x, p, 0, x);
    }
  }

  lemma EliminatedEntry(t: Matrix, row: nat, column: nat, p: int, i: nat, c: nat)
    requires p > 1 && row < |t| && i < |t| && Rectangular(t, |t[row]|) && c <= column < |t[row]|
    requires Canonical(t[i], p)
    requires t[row][column] == 1 && (c < column ==> t[row][c] == 0)
    ensures Eliminate(t, row, column, p)[i][c] == if i != row && c == column then 0 else t[i][c]
  {
    EntryNumbers(t[i][c], if i == row then 0 else t[i][column], t[row][c], p);
  }

  lemma EliminateReduces(t: Matrix, pivots: seq<nat>, column: nat, p: int, n: nat)
    requires Prepared(t, pivots, column, p, n)
    ensures Reduced(Eliminate(t, |pivots|, column, p), pivots + [column], column + 1, p, n)
  {
    var row, next := |pivots|, pivots + [column];
    var r := Eliminate(t, row, column, p);
    forall i, c | 0 <= i < |t| && 0 <= c <= column
      ensures r[i][c] == if i != row && c == column then 0 else t[i][c]
    {
      EliminatedEntry(t, row, column, p, i, c);
    }
    forall i, k | 0 <= i < |t| && 0 <= k < |next| ensures r[i][next[k]] == if i == k then 1 else 0 {
      if k < row {
        assert r[i][pivots[k]] == t[i][pivots[k]];
      }
    }
  }

  lemma PivotReduces(w: Matrix, pivots: seq<nat>, pivot: nat, column: nat, p: int, n: nat)
    requires IsPrime(p) && Reduced(w, pivots, column, p, n) && column < n
    requires |pivots| <= pivot < |w| && w[pivot][column] != 0
    ensures Reduced(PivotStep(w, |pivots|, pivot, column, p), pivots + [column], column + 1, p, n)
  {
    var row := |pivots|;
    var s := SwapRows(w, row, pivot);
    SwapReduced(w, pivots, pivot, column, p, n);
    var f := Inverse(s[row][column], p);
    ScaleReduced(s, pivots, column, f, p, n);
    EliminateReduces(s[row := ScaleRow(s[row], f, p)], pivots, column, p, n);
  }

  // ----- The solver

  method FirstNonzero(w: Matrix, start: nat, column: nat) returns (r: Option<nat>)
    requires start <= |w| && forall i | 0 <= i < |w| :: column < |w[i]|
    ensures r.Some? ==> start <= r.value < |w| && w[r.value][column] != 0
    ensures r.None? ==> forall i | start <= i < |w| :: w[i][column] == 0
  {
    for i := start to |w|
      invariant forall j | start <= j < i :: w[j][column] == 0
    {
      if w[i][column] != 0 {
        return Some(i);
      }
    }
    return None;
  }

  lemma SameSolutionsTrans(u: Matrix, v: Matrix, w: Matrix, n: nat, p: int)
    requires SameSolutions(u, v, n, p) && SameSolutions(v, w, n, p)
    ensures SameSolutions(u, w, n, p)
  {
  }

  lemma ColumnSkipped(w: Matrix, pivots: seq<nat>, column: nat, n: nat, p: int)
    requires Reduced(w, pivots, column, p, n) && column < n
    requires forall i | |pivots| <= i < |w| :: w[i][column] == 0
    ensures Reduced(w, pivots, column + 1, p, n)
  {
  }

  /** The work done for one column: skip it, or make it a pivot column. */
  method ReduceColumn(w: Matrix, pivots: seq<nat>, column: nat, n: nat, p: int)
    returns (next: Matrix, nextPivots: seq<nat>)
    requires IsPrime(p) && Reduced(w, pivots, column, p, n) && column < n && |pivots| < |w|
    ensures |next| == |w| && Reduced(next, nextPivots, column + 1, p, n)
    ensures SameSolutions(next, w, n + 1, p)
  {
    var found := FirstNonzero(w, |pivots|, column);
    if found.None? {
      ColumnSkipped(w, pivots, column, n, p);
      return w, pivots;
    }
    PivotReduces(w, pivots, found.value, column, p, n);
    PivotSolves(w, |pivots|, found.value, column, n + 1, p);
    return PivotStep(w, |pivots|, found.value, column, p), pivots + [column];
  }

  method GaussJordan(start: Matrix, n: nat, p: int) returns (w: Matrix, pivots: seq<nat>, ghost column: nat)
    requires IsPrime(p) && Rectangular(start, n + 1) && start != []
    requires forall i | 0 <= i < |start| :: Canonical(start[i], p)
    ensures |w| == |start| && SameSolutions(w, start, n + 1, p)
    ensures Reduced(w, pivots, column, p, n) && (column == n || |pivots| == |w|)
  {
    w, pivots := start, [];
    var col := 0;
    while col < n && |pivots| < |w|
      invariant |w| == |start| && Reduced(w, pivots, col, p, n)
      invariant SameSolutions(w, start, n + 1, p)
      decreases n - col
    {
      var v := w;
      w, pivots := ReduceColumn(v, pivots, col, n, p);
      SameSolutionsTrans(w, v, start, n + 1, p);
      col := col + 1;
    }
    column := col;
  }

  // ----- Reading off a solution

  method Augment(a: Matrix, b: Row, n: nat, p: int) returns (w: Matrix)
    requires p > 0 && Rectangular(a, n) && |a| == |b|
    ensures Rectangular(w, n + 1) && IsAugmented(a, b, w, p)
  {
    w := seq(|a|, i requires 0 <= i < |a| => ScaleRow(a[i] + [b[i]], 1, p));
  }

  /** The original system: each row of A times x is congruent to its target. */
  ghost predicate IsSolution(a: Matrix, b: Row, x: seq<int>, p: int)
    requires p > 0 && Rectangular(a, |x|) && |a| == |b|
  {
    forall i | 0 <= i < |a| :: Dot(a[i], x) % p == b[i] % p
  }

  ghost predicate IsAugmented(a: Matrix, b: Row, w: Matrix, p: int) {
    p > 0 && |a| == |b| == |w| && forall i | 0 <= i < |w| :: w[i] == ScaleRow(a[i] + [b[i]], 1, p)
  }

  lemma AugmentedRow(row: Row, t: int, x: seq<int>, e: int, p: int)
    requires p > 1 && |row| == |x|
    ensures Cong(Dot(ScaleRow(row + [t], 1, p), x + [e]), 0, p) <==> Cong(Dot(row, x) + t * e, 0, p)
  {
    QuotientUnique(1, p, 0, 1);
    ScaleZero(row + [t], 1, 1, p, x + [e]);
    DotSnoc(row, t, x, e);
  }

  lemma AugmentedSolution(a: Matrix, b: Row, w: Matrix, x: seq<int>, p: int)
    requires p > 1 && Rectangular(a, |x|) && IsAugmented(a, b, w, p)
    ensures Rectangular(w, |x| + 1)
    ensures Solves(w, x + [-1], p) <==> IsSolution(a, b, x, p)
  {
    forall i | 0 <= i < |a| ensures Cong(Dot(w[i], x + [-1]), 0, p) <==> Dot(a[i], x) % p == b[i] % p {
      AugmentedRow(a[i], b[i], x, -1, p);
      assert Dot(a[i], x) + b[i] * -1 - 0 == Dot(a[i], x) - b[i];
      CongIffMod(Dot(a[i], x), b[i], p);
    }
  }

  lemma AugmentedNull(a: Matrix, b: Row, w: Matrix, z: seq<int>, p: int)
    requires p > 1 && Rectangular(a, |z|) && IsAugmented(a, b, w, p)
    ensures Rectangular(w, |z| + 1)
    ensures Solves(w, z + [0], p) <==> IsNull(a, z, p)
  {
    forall i | 0 <= i < |a| ensures Cong(Dot(w[i], z + [0]), 0, p) <==> Dot(a[i], z) % p == 0 {
      AugmentedRow(a[i], b[i], z, 0, p);
      assert b[i] * 0 == 0;
    }
  }

  predicate AllZero(row: Row) {
    forall c | 0 <= c < |row| :: row[c] == 0
  }

  /** A row 0 = t with t nonzero. */
  predicate Inconsistent(row: Row, n: nat)
    requires |row| == n + 1
  {
    AllZero(row[..n]) && row[n] != 0
  }

  lemma InconsistentUnsolvable(w: Matrix, i: nat, n: nat, p: int, x: seq<int>)
    requires p > 1 && Rectangular(w, n + 1) && i < |w| && Canonical(w[i], p) && Inconsistent(w[i], n)
    requires |x| == n
    ensures !Solves(w, x + [-1], p)
  {
    var t := w[i][n];
    DotSnoc(w[i][..n], t, x, -1);
    assert w[i] == w[i][..n] + [t];
    DotZero(w[i][..n], x);
    assert 0 < t < p;
    assert (-t - 0) % p != 0 by {
      QuotientUnique(-t, p, -1, p - t);
    }
  }

  method ReadSolution(w: Matrix, pivots: seq<nat>, n: nat) returns (x: seq<int>)
    requires Rectangular(w, n + 1) && |pivots| <= |w|
    requires forall k | 0 <= k < |pivots| :: pivots[k] < n
    requires forall j, k | 0 <= j < k < |pivots| :: pivots[j] != pivots[k]
    ensures |x| == n
    ensures forall k | 0 <= k < |pivots| :: x[pivots[k]] == w[k][n]
    ensures forall c | 0 <= c < n && c !in pivots :: x[c] == 0
  {
    x := seq(n, _ => 0);
    for k := 0 to |pivots|
      invariant |x| == n
      invariant forall j | 0 <= j < k :: x[pivots[j]] == w[j][n]
      invariant forall c | 0 <= c < n && c !in pivots :: x[c] == 0
    {
      x := x[pivots[k] := w[k][n]];
    }
  }

  /** A row against a vector that vanishes wherever the row has a nonzero entry, but for one unit entry. */
  lemma UnitRowSolved(row: Row, x: seq<int>, q: nat, t: int)
    requires |row| == |x| && q < |row| && row[q] == 1 && x[q] == t
    requires forall c | 0 <= c < |row| && c != q :: row[c] == 0 || x[c] == 0
    ensures Dot(row + [t], x + [-1]) == 0
  {
    DotSnoc(row, t, x, -1);
    DotSingle(row, x, q);
  }

  lemma ZeroRowSolved(row: Row, x: seq<int>)
    requires |row| == |x| && AllZero(row)
    ensures Dot(row + [0], x + [-1]) == 0
  {
    DotSnoc(row, 0, x, -1);
    DotZero(row, x);
  }

  lemma PivotEntries(w: Matrix, pivots: seq<nat>, column: nat, n: nat, p: int, x: seq<int>, i: nat, c: nat)
    requires Reduced(w, pivots, column, p, n) && i < |pivots| && c < n && c != pivots[i] && |x| == n
    requires c !in pivots ==> x[c] == 0
    ensures w[i][c] == 0 || x[c] == 0
  {
    if c in pivots {
      var k :| 0 <= k < |pivots| && pivots[k] == c;
      assert w[i][pivots[k]] == 0;
    }
  }

  lemma ReadRowSolves(w: Matrix, pivots: seq<nat>, column: nat, n: nat, p: int, x: seq<int>, i: nat)
    requires Reduced(w, pivots, column, p, n) && (column == n || |pivots| == |w|) && i < |w|
    requires !Inconsistent(w[i], n)
    requires |x| == n && forall k | 0 <= k < |pivots| :: x[pivots[k]] == w[k][n]
    requires forall c | 0 <= c < n && c !in pivots :: x[c] == 0
    ensures Dot(w[i], x + [-1]) == 0
  {
    var row, t := w[i][..n], w[i][n];
    assert w[i] == row + [t];
    if i < |pivots| {
      forall c | 0 <= c < n && c != pivots[i] ensures row[c] == 0 || x[c] == 0 {
        PivotEntries(w, pivots, column, n, p, x, i, c);
      }
      assert w[i][pivots[i]] == 1;
      UnitRowSolved(row, x, pivots[i], t);
    } else {
      assert AllZero(row);
      ZeroRowSolved(row, x);
    }
  }

  lemma ReadSolves(w: Matrix, pivots: seq<nat>, column: nat, n: nat, p: int, x: seq<int>)
    requires p > 1 && Reduced(w, pivots, column, p, n) && (column == n || |pivots| == |w|)
    requires forall i | 0 <= i < |w| :: !Inconsistent(w[i], n)
    requires |x| == n && forall k | 0 <= k < |pivots| :: x[pivots[k]] == w[k][n]
    requires forall c | 0 <= c < n && c !in pivots :: x[c] == 0
    ensures Solves(w, x + [-1], p)
  {
    forall i | 0 <= i < |w| ensures Cong(Dot(w[i], x + [-1]), 0, p) {
      ReadRowSolves(w, pivots, column, n, p, x, i);
      CongIntro(0, 0, p, 0);
    }
  }

  // ----- Which solution is returned

  ghost predicate IsNull(a: Matrix, z: seq<int>, p: int)
    requires p > 0 && Rectangular(a, |z|)
  {
    forall i | 0 <= i < |a| :: Dot(a[i], z) % p == 0
  }

  /** `z` expresses column `c` by the columns before it. */
  ghost predicate Expresses(a: Matrix, z: seq<int>, c: nat, p: int) {
    && p > 0 && Rectangular(a, |z|) && c < |z| && z[c] % p != 0
    && (forall k | c < k < |z| :: z[k] == 0) && IsNull(a, z, p)
  }

  /** Column `c` depends on the columns before it. */
  ghost predicate Dependent(a: Matrix, n: nat, c: nat, p: int) {
    exists z: seq<int> :: |z| == n && Expresses(a, z, c, p)
  }

  /** The canonical solution that uses no column which depends on earlier ones. */
  ghost predicate BasicSolution(a: Matrix, b: Row, x: seq<int>, p: int) {
    && p > 0 && Rectangular(a, |x|) && |a| == |b| && IsSolution(a, b, x, p) && Canonical(x, p)
    && forall c | 0 <= c < |x| && Dependent(a, |x|, c, p) :: x[c] == 0
  }

  lemma {:induction false} LastDifference(x: seq<int>, y: seq<int>) returns (c: nat)
    requires |x| == |y| && x != y
    ensures c < |x| && x[c] != y[c] && forall k | c < k < |x| :: x[k] == y[k]
    decreases |x|
  {
    var n := |x| - 1;
    if x[n] != y[n] {
      c := n;
    } else {
      assert x == x[..n] + [x[n]] && y == y[..n] + [y[n]];
      c := LastDifference(x[..n], y[..n]);
    }
  }

  lemma SolutionsDifferByNull(row: Row, x: seq<int>, y: seq<int>, t: int, p: int)
    requires p > 0 && |row| == |x| == |y|
    requires Dot(row, x) % p == t % p && Dot(row, y) % p == t % p
    ensures Dot(row, Difference(x, 1, y)) % p == 0
  {
    DotDifference(x, 1, y, row);
    DotSymmetric(row, x);
    DotSymmetric(row, y);
    DotSymmetric(row, Difference(x, 1, y));
    CongIffMod(Dot(row, x), Dot(row, y), p);
  }

  lemma {:induction false} DotSymmetric(a: seq<int>, x: seq<int>)
    requires |a| == |x|
    ensures Dot(a, x) == Dot(x, a)
  {
    if a != [] {
      DotSymmetric(a[1..], x[1..]);
      assert a[0] * x[0] == x[0] * a[0];
    }
  }

  lemma SmallNonzero(v: int, p: int)
    requires -p < v < p && v != 0
    ensures v % p != 0
  {
    QuotientUnique(v, p, if v < 0 then -1 else 0, if v < 0 then v + p else v);
  }

  lemma DifferenceExpresses(a: Matrix, b: Row, x: seq<int>, y: seq<int>, c: nat, p: int)
    requires p > 0 && |x| == |y| && Rectangular(a, |x|) && |a| == |b|
    requires IsSolution(a, b, x, p) && IsSolution(a, b, y, p) && Canonical(x, p) && Canonical(y, p)
    requires c < |x| && x[c] != y[c] && forall k | c < k < |x| :: x[k] == y[k]
    ensures Expresses(a, Difference(x, 1, y), c, p)
  {
    var z := Difference(x, 1, y);
    SmallNonzero(z[c], p);
    forall i | 0 <= i < |a| ensures Dot(a[i], z) % p == 0 {
      SolutionsDifferByNull(a[i], x, y, b[i], p);
    }
  }

  /** There is at most one basic solution. */
  lemma BasicUnique(a: Matrix, b: Row, x: seq<int>, y: seq<int>, p: int)
    requires BasicSolution(a, b, x, p) && BasicSolution(a, b, y, p) && |x| == |y|
    ensures x == y
  {
    if x != y {
      var c := LastDifference(x, y);
      DifferenceExpresses(a, b, x, y, c, p);
      assert Dependent(a, |x|, c, p);
    }
  }

  lemma UnitRowSees(w: Matrix, pivots: seq<nat>, column: nat, n: nat, p: int, k: nat, z: seq<int>)
    requires Reduced(w, pivots, column, p, n) && k < |pivots| && |z| == n
    requires forall j | pivots[k] < j < n :: z[j] == 0
    ensures Dot(w[k], z + [0]) == z[pivots[k]]
  {
    DotSingle(w[k], z + [0], pivots[k]);
    assert w[k][pivots[k]] == 1;
  }

  /** A pivot column depends on no earlier column: its row is a unit up to there. */
  lemma PivotIndependent(a: Matrix, b: Row, start: Matrix, w: Matrix, pivots: seq<nat>, column: nat,
                         n: nat, p: int, k: nat)
    requires p > 1 && Rectangular(a, n) && IsAugmented(a, b, start, p) && SameSolutions(w, start, n + 1, p)
    requires Reduced(w, pivots, column, p, n) && k < |pivots|
    ensures !Dependent(a, n, pivots[k], p)
  {
    forall z: seq<int> | |z| == n ensures !Expresses(a, z, pivots[k], p) {
      AugmentedNull(a, b, start, z, p);
      assert IsNull(a, z, p) <==> Solves(w, z + [0], p);
      if forall j | pivots[k] < j < n :: z[j] == 0 {
        UnitRowSees(w, pivots, column, n, p, k, z);
        assert Solves(w, z + [0], p) ==> Cong(Dot(w[k], z + [0]), 0, p);
      }
    }
  }

  /** The row of the pivot in column `c`. */
  ghost function PivotRow(pivots: seq<nat>, c: nat): (k: nat)
    requires c in pivots
    ensures k < |pivots| && pivots[k] == c
  {
    var k :| 0 <= k < |pivots| && pivots[k] == c;
    k
  }

  /** Column `c` of the reduced form as a combination of pivot columns. */
  ghost function Combination(w: Matrix, pivots: seq<nat>, n: nat, c: nat): (z: seq<int>)
    requires Rectangular(w, n + 1) && |pivots| <= |w| && c < n
    ensures |z| == n
  {
    seq(n, k requires 0 <= k < n => if k == c then -1 else if k in pivots then w[PivotRow(pivots, k)][c] else 0)
  }

  lemma CombinationRow(w: Matrix, pivots: seq<nat>, column: nat, n: nat, p: int, c: nat, i: nat)
    requires Reduced(w, pivots, column, p, n) && (column == n || |pivots| == |w|)
    requires c < n && c !in pivots && i < |w|
    ensures Dot(w[i], Combination(w, pivots, n, c) + [0]) == 0
  {
    var z := Combination(w, pivots, n, c);
    var y := z + [0];
    if i < |pivots| {
      var q := pivots[i];
      PivotsDistinct(w, pivots, column, n, p);
      assert z[q] == w[i][c] && w[i][q] == 1;
      forall k | 0 <= k <= n && k != q && k != c ensures w[i][k] == 0 || y[k] == 0 {
        if k < n && k in pivots {
          assert w[i][pivots[PivotRow(pivots, k)]] == 0;
        }
      }
      DotPair(w[i], y, if q < c then q else c, if q < c then c else q);
    } else {
      DotZero(w[i], y);
    }
  }

  /** A column without a pivot is expressed by the pivot columns before it. */
  lemma SkippedDependent(a: Matrix, b: Row, start: Matrix, w: Matrix, pivots: seq<nat>, column: nat,
                         n: nat, p: int, c: nat)
    requires p > 1 && Rectangular(a, n) && IsAugmented(a, b, start, p) && SameSolutions(w, start, n + 1, p)
    requires Reduced(w, pivots, column, p, n) && (column == n || |pivots| == |w|)
    requires c < n && c !in pivots
    ensures Dependent(a, n, c, p)
  {
    var z := Combination(w, pivots, n, c);
    forall i | 0 <= i < |w| ensures Cong(Dot(w[i], z + [0]), 0, p) {
      CombinationRow(w, pivots, column, n, p, c, i);
      CongIntro(0, 0, p, 0);
    }
    assert Solves(w, z + [0], p) && Solves(start, z + [0], p);
    AugmentedNull(a, b, start, z, p);
    SmallNonzero(-1, p);
    forall k | c < k < n ensures z[k] == 0 {
      if k in pivots {
        assert w[PivotRow(pivots, k)][c] == 0;
      }
    }
    assert Expresses(a, z, c, p);
  }

  /** The elimination picks its pivots in exactly the columns that depend on no earlier column. */
  lemma PivotsAreIndependent(a: Matrix, b: Row, start: Matrix, w: Matrix, pivots: seq<nat>, column: nat,
                             n: nat, p: int, c: nat)
    requires p > 1 && Rectangular(a, n) && IsAugmented(a, b, start, p) && SameSolutions(w, start, n + 1, p)
    requires Reduced(w, pivots, column, p, n) && (column == n || |pivots| == |w|) && c < n
    ensures c in pivots <==> !Dependent(a, n, c, p)
  {
    if c in pivots {
      PivotIndependent(a, b, start, w, pivots, column, n, p, PivotRow(pivots, c));
    } else {
      SkippedDependent(a, b, start, w, pivots, column, n, p, c);
    }
  }

  /** The vector read off the reduced form is the basic solution. */
  lemma ReadIsBasic(a: Matrix, b: Row, start: Matrix, w: Matrix, pivots: seq<nat>, column: nat,
                    n: nat, p: int, x: seq<int>)
    requires p > 1 && Rectangular(a, n) && IsAugmented(a, b, start, p) && SameSolutions(w, start, n + 1, p)
    requires Reduced(w, pivots, column, p, n) && |x| == n && IsSolution(a, b, x, p)
    requires forall k | 0 <= k < |pivots| :: x[pivots[k]] == w[k][n]
    requires forall c | 0 <= c < n && c !in pivots :: x[c] == 0
    ensures BasicSolution(a, b, x, p)
  {
    forall c: nat | c < n ensures 0 <= x[c] < p && (Dependent(a, n, c, p) ==> x[c] == 0) {
      if c in pivots {
        var k :| 0 <= k < |pivots| && pivots[k] == c;
        PivotIndependent(a, b, start, w, pivots, column, n, p, k);
        assert x[pivots[k]] == w[k][n] && Canonical(w[k], p);
      }
    }
  }

  lemma PivotsDistinct(w: Matrix, pivots: seq<nat>, column: nat, n: nat, p: int)
    requires Reduced(w, pivots, column, p, n)
    ensures forall j, k | 0 <= j < k < |pivots| :: pivots[j] != pivots[k]
  {
    forall j, k | 0 <= j < k < |pivots| ensures pivots[j] != pivots[k] {
      assert w[j][pivots[j]] == 1 && w[j][pivots[k]] == 0;
    }
  }

  method FindInconsistent(w: Matrix, n: nat) returns (r: Option<nat>)
    requires Rectangular(w, n + 1)
    ensures r.Some? ==> r.value < |w| && Inconsistent(w[r.value], n)
    ensures r.None? ==> forall i | 0 <= i < |w| :: !Inconsistent(w[i], n)
  {
    for i := 0 to |w|
      invariant forall j | 0 <= j < i :: !Inconsistent(w[j], n)
    {
      if Inconsistent(w[i], n) {
        return Some(i);
      }
    }
    return None;
  }

  lemma NoSolution(a: Matrix, b: Row, start: Matrix, w: Matrix, i: nat, n: nat, p: int)
    requires p > 1 && Rectangular(a, n) && IsAugmented(a, b, start, p)
    requires SameSolutions(w, start, n + 1, p)
    requires i < |w| && Canonical(w[i], p) && Inconsistent(w[i], n)
    ensures forall x: seq<int> | |x| == n :: !IsSolution(a, b, x, p)
  {
    forall x: seq<int> | |x| == n ensures !IsSolution(a, b, x, p) {
      InconsistentUnsolvable(w, i, n, p, x);
      AugmentedSolution(a, b, start, x, p);
      assert Solves(w, x + [-1], p) <==> Solves(start, x + [-1], p);
    }
  }

  /** The solver for an arbitrary prime: the basic solution, and None exactly when there is no solution. */
  method Solve(a: Matrix, b: Row, n: nat, p: int) returns (r: Option<seq<int>>)
    requires IsPrime(p) && a != [] && Rectangular(a, n) && |b| == |a|
    ensures r.Some? ==> |r.value| == n && BasicSolution(a, b, r.value, p)
    ensures r.None? ==> forall x: seq<int> | |x| == n :: !IsSolution(a, b, x, p)
  {
    var start := Augment(a, b, n, p);
    var w, pivots, column := GaussJordan(start, n, p);
    var bad := FindInconsistent(w, n);
    if bad.Some? {
      NoSolution(a, b, start, w, bad.value, n, p);
      return None;
    }
    PivotsDistinct(w, pivots, column, n, p);
    var x := ReadSolution(w, pivots, n);
    ReadSolves(w, pivots, column, n, p, x);
    assert Solves(start, x + [-1], p);
    AugmentedSolution(a, b, start, x, p);
    ReadIsBasic(a, b, start, w, pivots, column, n, p, x);
    return Some(x);
  }
}
