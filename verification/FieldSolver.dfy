/**
 `solve_field` as a whole: the admitted primes, the solver, and the closing
 self-check, which multiplies in wrapping 64-bit integers and so can fail on
 admitted systems with large entries.
 */
module FieldSolver {
  import opened Wrappers
  import opened Modular
  import opened Sequences
  import opened PrimeField
  import RingWidths

  // ----- The admitted primes

  predicate NoDivisorUpTo(p: int, d: nat)
  {
    d <= 1 || (p % d != 0 && NoDivisorUpTo(p, d - 1))
  }

  lemma {:induction false} NoDivisorBelow(p: int, d: nat, k: int)
    requires NoDivisorUpTo(p, d) && 1 < k <= d
    ensures p % k != 0
  {
    if k < d {
      NoDivisorBelow(p, d - 1, k);
    }
  }

  lemma CofactorSmall(d: int, e: int, root: nat)
    requires d > root && d * e < (root + 1) * (root + 1)
    ensures e <= root
  {
    var i, j := d - (root + 1), e - (root + 1);
    assert d * e == (root + 1) * (root + 1) + (root + 1) * i + (root + 1) * j + i * j;
    assert j >= 0 ==> (root + 1) * i >= 0 && (root + 1) * j >= 0 && i * j >= 0;
  }

  lemma Composite(p: int, root: nat, d: int)
    requires p < (root + 1) * (root + 1) && 1 < d < p && p % d == 0
    ensures exists k :: 1 < k <= root && p % k == 0
  {
    var e := p / d;
    assert p == d * e;
    assert 1 < e by {
      assert e <= 1 ==> d * e <= d;
    }
    if d > root {
      CofactorSmall(d, e, root);
      assert p == e * d;
      MultipleMod(e, d);
    }
  }

  /** Trial division up to the square root decides primality. */
  lemma TrialDivision(p: int, root: nat)
    requires p > 1 && p < (root + 1) * (root + 1) && NoDivisorUpTo(p, root)
    ensures IsPrime(p)
  {
    forall d | 1 < d < p ensures p % d != 0 {
      if p % d == 0 {
        Composite(p, root, d);
        var k :| 1 < k <= root && p % k == 0;
        NoDivisorBelow(p, root, k);
        assert false;
      }
    }
  }

  predicate AdmittedPrime(p: int) {
    p in [17, 61, 127, 257, 65537]
  }

  lemma FermatTrialLow()
    ensures NoDivisorUpTo(65537, 96)
  {
    assert NoDivisorUpTo(65537, 16);
    assert NoDivisorUpTo(65537, 32);
    assert NoDivisorUpTo(65537, 48);
    assert NoDivisorUpTo(65537, 64);
    assert NoDivisorUpTo(65537, 80);
    assert NoDivisorUpTo(65537, 96);
  }

  lemma FermatTrialMiddle()
    ensures NoDivisorUpTo(65537, 176)
  {
    FermatTrialLow();
    assert NoDivisorUpTo(65537, 112);
    assert NoDivisorUpTo(65537, 128);
    assert NoDivisorUpTo(65537, 144);
    assert NoDivisorUpTo(65537, 160);
    assert NoDivisorUpTo(65537, 176);
  }

  lemma FermatTrialHigh()
    ensures NoDivisorUpTo(65537, 256)
  {
    FermatTrialMiddle();
    assert NoDivisorUpTo(65537, 192);
    assert NoDivisorUpTo(65537, 208);
    assert NoDivisorUpTo(65537, 224);
    assert NoDivisorUpTo(65537, 240);
    assert NoDivisorUpTo(65537, 256);
  }

  lemma AdmittedIsPrime(p: int)
    requires AdmittedPrime(p)
    ensures IsPrime(p)
  {
    if p == 17 {
      TrialDivision(17, 4);
    } else if p == 61 {
      TrialDivision(61, 7);
    } else if p == 127 {
      TrialDivision(127, 11);
    } else if p == 257 {
      TrialDivision(257, 16);
    } else {
      FermatTrialHigh();
      TrialDivision(65537, 256);
    }
  }

  // ----- Wrapping 64-bit arithmetic

  const WORD := 0x1_0000_0000_0000_0000
  const HALF := 0x8000_0000_0000_0000

  predicate Int64(v: int) {
    -HALF <= v < HALF
  }

  /** The 64-bit two's-complement value that stands for `v`. */
  function Wrap(v: int): (r: int)
    ensures Int64(r)
  {
    (v + HALF) % WORD - HALF
  }

  lemma WrapCong(v: int)
    ensures Cong(Wrap(v), v, WORD)
  {
    CongMod(v + HALF, WORD);
  }

  lemma WrapUnique(v: int, r: int)
    requires Int64(r) && Cong(r, v, WORD)
    ensures Wrap(v) == r
  {
    var k := CongWitness(r, v, WORD);
    QuotientUnique(v + HALF, WORD, -k, r + HALF);
  }

  /** One entry of `a @ result`: products and partial sums all wrap. */
  function WrappedDot(a: seq<int>, x: seq<int>): (r: int)
    requires |a| == |x|
    ensures Int64(r)
  {
    if a == [] then 0
    else
      var n := |a| - 1;
      Wrap(WrappedDot(a[..n], x[..n]) + Wrap(a[n] * x[n]))
  }

  /** Wrapping at every step is wrapping once at the end. */
  lemma {:induction false} WrappedDotIsWrap(a: seq<int>, x: seq<int>)
    requires |a| == |x|
    ensures WrappedDot(a, x) == Wrap(Dot(a, x))
  {
    if a != [] {
      var n := |a| - 1;
      WrappedDotIsWrap(a[..n], x[..n]);
      DotSnoc(a[..n], a[n], x[..n], x[n]);
      assert a == a[..n] + [a[n]] && x == x[..n] + [x[n]];
      var d, e := Dot(a[..n], x[..n]), a[n] * x[n];
      WrapCong(d);
      WrapCong(e);
      CongAdd(Wrap(d), d, Wrap(e), e, WORD);
      WrapCong(Wrap(d) + Wrap(e));
      CongTrans(Wrap(Wrap(d) + Wrap(e)), Wrap(d) + Wrap(e), d + e, WORD);
      WrapUnique(d + e, Wrap(Wrap(d) + Wrap(e)));
    }
  }

  /** How often a value wraps around. */
  function Laps(v: int): int {
    (v - Wrap(v)) / WORD
  }

  lemma LapsExact(v: int)
    ensures v == Wrap(v) + WORD * Laps(v)
  {
    WrapCong(v);
    CongSym(Wrap(v), v, WORD);
  }

  // ----- The self-check

  /** `np.array_equal(a @ result % prime, b % prime)`. */
  predicate SelfCheck(a: Matrix, b: Row, x: seq<int>, p: int)
    requires p > 0 && |a| == |b| && forall i | 0 <= i < |a| :: |a[i]| == |x|
  {
    forall i | 0 <= i < |a| :: WrappedDot(a[i], x) % p == b[i] % p
  }

  /** Two to the 64 is invertible modulo every admitted prime. */
  lemma WordInvertible(p: int) returns (inverse: int)
    requires AdmittedPrime(p)
    ensures (WORD * inverse) % p == 1
  {
    inverse := if p == 61 then 42 else if p == 127 then 64 else 1;
  }

  lemma WrapKeepsResidue(v: int, p: int)
    requires AdmittedPrime(p)
    ensures Wrap(v) % p == v % p <==> Laps(v) % p == 0
  {
    var inverse := WordInvertible(p);
    LapsExact(v);
    CongIntro(WORD * Laps(v), WORD * Laps(v), p, 0);
    ZeroTimes(WORD * Laps(v), WORD, inverse, Laps(v), p);
    CongIffMod(v, Wrap(v), p);
  }

  /** On a solution, the self-check passes if and only if the prime divides how often each product wraps. */
  lemma SelfCheckIff(a: Matrix, b: Row, x: seq<int>, p: int)
    requires AdmittedPrime(p) && Rectangular(a, |x|) && |a| == |b| && IsSolution(a, b, x, p)
    ensures SelfCheck(a, b, x, p) <==> forall i | 0 <= i < |a| :: Laps(Dot(a[i], x)) % p == 0
  {
    forall i | 0 <= i < |a|
      ensures WrappedDot(a[i], x) % p == b[i] % p <==> Laps(Dot(a[i], x)) % p == 0
    {
      WrappedDotIsWrap(a[i], x);
      WrapKeepsResidue(Dot(a[i], x), p);
    }
  }

  /** Rows whose L1 norm leaves room for a canonical vector never wrap, so the check passes. */
  lemma SmallRowsPass(a: Matrix, b: Row, x: seq<int>, p: int)
    requires p > 0 && Rectangular(a, |x|) && |a| == |b| && IsSolution(a, b, x, p) && Canonical(x, p)
    requires forall i | 0 <= i < |a| :: (p - 1) * RingWidths.AbsSum(a[i]) < HALF
    ensures SelfCheck(a, b, x, p)
  {
    forall i | 0 <= i < |a| ensures WrappedDot(a[i], x) == Dot(a[i], x) {
      RingWidths.DotBounded(a[i], x, p - 1);
      WrappedDotIsWrap(a[i], x);
      CongIntro(Dot(a[i], x), Dot(a[i], x), WORD, 0);
      WrapUnique(Dot(a[i], x), Dot(a[i], x));
    }
  }

  /** The self-check does fail on an admitted system: 2^62 x = 1 has the solution 4, and 2^64 wraps to 0. */
  lemma SelfCheckFails()
    ensures AdmittedSystem([[0x4000_0000_0000_0000]], [1], 1, 65537)
    ensures BasicSolution([[0x4000_0000_0000_0000]], [1], [4], 65537)
    ensures !SelfCheck([[0x4000_0000_0000_0000]], [1], [4], 65537)
  {
    var a, p := [[0x4000_0000_0000_0000]], 65537;
    OneEntry(a[0][0], 4);
    LapsExact(WORD);
    WrapUnique(WORD, 0);
    forall z: seq<int> | |z| == 1 ensures !Expresses(a, z, 0, p) {
      OneEntry(a[0][0], z[0]);
      assert z == [z[0]];
      LargeEntryInvertible(z[0]);
      assert Rectangular(a, 1) && (IsNull(a, z, p) ==> Dot(a[0], z) % p == 0);
    }
  }

  lemma OneEntry(w: int, x: int)
    ensures Dot([w], [x]) == w * x && WrappedDot([w], [x]) == Wrap(w * x)
  {
    assert [w][1..] == [] && [x][1..] == [];
    WrappedDotIsWrap([w], [x]);
  }

  lemma LargeEntryInvertible(z: int)
    ensures (0x4000_0000_0000_0000 * z) % 65537 == 0 ==> z % 65537 == 0
  {
    var w, p := 0x4000_0000_0000_0000, 65537;
    CongIntro(w * z, w * z, p, 0);
    ZeroTimes(w * z, w, 4, z, p);
  }

  // ----- Which matrices can fail the self-check

  /** For every column, whether it is independent of the columns before it. */
  ghost function FreeColumns(a: Matrix, n: nat, p: int): (free: seq<bool>)
    ensures |free| == n
  {
    seq(n, c requires 0 <= c < n => !Dependent(a, n, c, p))
  }

  /** An entry's contribution to the L1 norm of one sign. */
  ghost function Side(w: int, free: bool, sign: int): nat {
    if free && sign * w > 0 then sign * w else 0
  }

  /** The L1 norm of the entries of one sign, over the marked columns. */
  ghost function Part(row: Row, free: seq<bool>, sign: int): nat
    requires |row| == |free|
  {
    if row == [] then 0 else Side(row[0], free[0], sign) + Part(row[1..], free[1..], sign)
  }

  /** Canonical vectors that vanish outside the marked columns. */
  ghost predicate Spread(x: seq<int>, free: seq<bool>, p: int) {
    |x| == |free| && Canonical(x, p) && forall c | 0 <= c < |x| && !free[c] :: x[c] == 0
  }

  /** The product of a spread vector with a row is bounded on either side by that side's entries. */
  lemma {:induction false} SpreadBounded(row: Row, free: seq<bool>, x: seq<int>, p: int, sign: int)
    requires |row| == |free| && Spread(x, free, p) && (sign == 1 || sign == -1) && p > 0
    ensures sign * Dot(row, x) <= (p - 1) * Part(row, free, sign)
  {
    if row != [] {
      SpreadBounded(row[1..], free[1..], x[1..], p, sign);
      EntryBounded(row[0], free[0], x[0], p, sign);
      MulDistribute(p - 1, Side(row[0], free[0], sign), Part(row[1..], free[1..], sign));
      MulDistribute(sign, row[0] * x[0], Dot(row[1..], x[1..]));
    }
  }

  lemma EntryBounded(w: int, free: bool, x: int, p: int, sign: int)
    requires 0 <= x < p && (!free ==> x == 0) && (sign == 1 || sign == -1)
    ensures sign * (w * x) <= (p - 1) * Side(w, free, sign)
    ensures x == (if free && sign * w > 0 then p - 1 else 0) ==> sign * (w * x) == (p - 1) * Side(w, free, sign)
  {
    var v := sign * w;
    MulAssoc(sign, w, x);
    if v > 0 {
      MulMonotone(v, x, p - 1);
    } else {
      MulMonotone(x, v, 0);
    }
  }

  /** The spread vector that attains the bound. */
  ghost function Extreme(row: Row, free: seq<bool>, p: int, sign: int): (x: seq<int>)
    requires |row| == |free| && p > 0
    ensures Spread(x, free, p)
  {
    seq(|row|, c requires 0 <= c < |row| => if free[c] && sign * row[c] > 0 then p - 1 else 0)
  }

  lemma {:induction false} ExtremeAttains(row: Row, free: seq<bool>, p: int, sign: int)
    requires |row| == |free| && p > 0 && (sign == 1 || sign == -1)
    ensures sign * Dot(row, Extreme(row, free, p, sign)) == (p - 1) * Part(row, free, sign)
  {
    if row != [] {
      ExtremeAttains(row[1..], free[1..], p, sign);
      var x := Extreme(row, free, p, sign);
      assert x[1..] == Extreme(row[1..], free[1..], p, sign);
      EntryBounded(row[0], free[0], x[0], p, sign);
      MulDistribute(p - 1, Side(row[0], free[0], sign), Part(row[1..], free[1..], sign));
      MulDistribute(sign, row[0] * x[0], Dot(row[1..], x[1..]));
    }
  }

  ghost predicate Int64Row(row: Row) {
    forall c | 0 <= c < |row| :: Int64(row[c])
  }

  lemma {:induction false} DotLowered(row: Row, x: seq<int>, c: nat)
    requires |row| == |x| && c < |x|
    ensures Dot(row, x[c := x[c] - 1]) == Dot(row, x) - row[c]
  {
    var y := x[c := x[c] - 1];
    if c == 0 {
      assert y[1..] == x[1..];
      MulDistribute(row[0], x[0], 1);
    } else {
      assert y[1..] == x[1..][c - 1 := x[1..][c - 1] - 1];
      DotLowered(row[1..], x[1..], c - 1);
    }
  }

  lemma {:induction false} SumLowered(x: seq<int>, c: nat)
    requires c < |x|
    ensures Sum(x[c := x[c] - 1]) == Sum(x) - 1
  {
    var y := x[c := x[c] - 1];
    if c == 0 {
      assert y[1..] == x[1..];
    } else {
      assert y[1..] == x[1..][c - 1 := x[1..][c - 1] - 1];
      SumLowered(x[1..], c - 1);
    }
  }

  lemma {:induction false} SumNonnegative(x: seq<int>)
    requires forall c | 0 <= c < |x| :: 0 <= x[c]
    ensures Sum(x) >= 0
  {
    if x != [] {
      SumNonnegative(x[1..]);
    }
  }

  /**
   From any spread vector whose product overflows, lowering one coordinate at a time by
   one changes the product by at most 2^63, and so passes through a single lap.
   */
  lemma {:induction false} StepsDownToOneLap(row: Row, free: seq<bool>, x: seq<int>, p: int) returns (y: seq<int>)
    requires |row| == |x| && Int64Row(row) && Spread(x, free, p) && !Int64(Dot(row, x))
    ensures Spread(y, free, p) && |y| == |x|
    ensures HALF <= Dot(row, y) < WORD || -WORD <= Dot(row, y) < -HALF
    decreases Sum(x)
  {
    if -WORD <= Dot(row, x) < WORD {
      y := x;
    } else {
      if forall c | 0 <= c < |x| :: x[c] == 0 {
        DotZero(row, x);
        assert false;
      }
      var c :| 0 <= c < |x| && x[c] != 0;
      var lower := x[c := x[c] - 1];
      DotLowered(row, x, c);
      SumLowered(x, c);
      SumNonnegative(lower);
      assert Int64(row[c]);
      y := StepsDownToOneLap(row, free, lower, p);
    }
  }

  lemma OneLap(v: int)
    requires HALF <= v < WORD || -WORD <= v < -HALF
    ensures Laps(v) == if v > 0 then 1 else -1
  {
    var r := if v > 0 then v - WORD else v + WORD;
    CongIntro(r, v, WORD, if v > 0 then -1 else 1);
    WrapUnique(v, r);
    QuotientUnique(v - r, WORD, if v > 0 then 1 else -1, 0);
  }

  /** The targets of `x`, reduced: `x` is a solution for them. */
  ghost function Image(a: Matrix, x: seq<int>, p: int): (b: Row)
    requires p > 0 && Rectangular(a, |x|)
    ensures |b| == |a| && forall i | 0 <= i < |b| :: b[i] == Dot(a[i], x) % p && 0 <= b[i] < p
  {
    seq(|a|, i requires 0 <= i < |a| => Dot(a[i], x) % p)
  }

  lemma ImageSolved(a: Matrix, x: seq<int>, p: int)
    requires p > 0 && Rectangular(a, |x|)
    ensures IsSolution(a, Image(a, x, p), x, p)
  {
    forall i | 0 <= i < |a| ensures Dot(a[i], x) % p == Image(a, x, p)[i] % p {
      var v := Dot(a[i], x);
      QuotientUnique(v % p, p, 0, v % p);
    }
  }

  /** The solution that `solve_field` finds for `b` does not survive the closing assertion. */
  ghost predicate CheckFails(a: Matrix, b: Row, n: nat, p: int) {
    exists x: seq<int> :: |x| == n && BasicSolution(a, b, x, p) && !SelfCheck(a, b, x, p)
  }

  /** On the independent columns, the largest residue times the entries of one sign leaves the 64-bit range. */
  ghost predicate RowOverflows(a: Matrix, n: nat, p: int, i: nat)
    requires i < |a| && Rectangular(a, n)
  {
    var free := FreeColumns(a, n, p);
    (p - 1) * Part(a[i], free, 1) >= HALF || (p - 1) * Part(a[i], free, -1) > HALF
  }

  lemma BasicIsSpread(a: Matrix, b: Row, x: seq<int>, p: int)
    requires BasicSolution(a, b, x, p)
    ensures Spread(x, FreeColumns(a, |x|, p), p)
  {
  }

  lemma SpreadIsBasic(a: Matrix, x: seq<int>, p: int)
    requires p > 0 && Rectangular(a, |x|) && Spread(x, FreeColumns(a, |x|, p), p)
    ensures BasicSolution(a, Image(a, x, p), x, p)
  {
    ImageSolved(a, x, p);
    assert forall c | 0 <= c < |x| :: FreeColumns(a, |x|, p)[c] == !Dependent(a, |x|, c, p);
  }

  lemma OneLapFails(a: Matrix, x: seq<int>, p: int, i: nat)
    requires AdmittedPrime(p) && Rectangular(a, |x|) && i < |a|
    requires HALF <= Dot(a[i], x) < WORD || -WORD <= Dot(a[i], x) < -HALF
    ensures !SelfCheck(a, Image(a, x, p), x, p)
  {
    var v := Dot(a[i], x);
    WrappedDotIsWrap(a[i], x);
    WrapKeepsResidue(v, p);
    LapNotDivided(v, p);
    ImageSolved(a, x, p);
    assert WrappedDot(a[i], x) % p != Image(a, x, p)[i] % p;
  }

  lemma LapNotDivided(v: int, p: int)
    requires p > 1 && (HALF <= v < WORD || -WORD <= v < -HALF)
    ensures Laps(v) % p != 0
  {
    OneLap(v);
    SmallNonzero(if v > 0 then 1 else -1, p);
  }

  /** Where no row overflows, the self-check passes on every target. */
  lemma NoOverflowPasses(a: Matrix, b: Row, x: seq<int>, p: int)
    requires BasicSolution(a, b, x, p)
    requires forall i | 0 <= i < |a| :: !RowOverflows(a, |x|, p, i)
    ensures SelfCheck(a, b, x, p)
  {
    var free := FreeColumns(a, |x|, p);
    BasicIsSpread(a, b, x, p);
    forall i | 0 <= i < |a| ensures WrappedDot(a[i], x) == Dot(a[i], x) {
      SpreadBounded(a[i], free, x, p, 1);
      SpreadBounded(a[i], free, x, p, -1);
      assert !RowOverflows(a, |x|, p, i);
      WrappedDotIsWrap(a[i], x);
      CongIntro(Dot(a[i], x), Dot(a[i], x), WORD, 0);
      WrapUnique(Dot(a[i], x), Dot(a[i], x));
    }
  }

  /** Where a row overflows, some target makes the self-check fail. */
  lemma OverflowFails(a: Matrix, n: nat, p: int, i: nat) returns (b: Row)
    requires AdmittedMatrix(a, n, p) && Rectangular(a, n) && i < |a| && RowOverflows(a, n, p, i)
    ensures AdmittedSystem(a, b, n, p) && CheckFails(a, b, n, p)
  {
    var free := FreeColumns(a, n, p);
    var sign := if (p - 1) * Part(a[i], free, 1) >= HALF then 1 else -1;
    ExtremeAttains(a[i], free, p, sign);
    assert Int64Row(a[i]);
    var x := StepsDownToOneLap(a[i], free, Extreme(a[i], free, p, sign), p);
    b := Image(a, x, p);
    SpreadIsBasic(a, x, p);
    OneLapFails(a, x, p, i);
  }

  /**
   The matrices on which `solve_field` can fail its closing assertion: some target does so
   if and only if some row overflows on the independent columns.
   */
  lemma FailsIffRowOverflows(a: Matrix, n: nat, p: int)
    requires AdmittedMatrix(a, n, p) && Rectangular(a, n)
    ensures (exists b: Row :: AdmittedSystem(a, b, n, p) && CheckFails(a, b, n, p)) <==>
            exists i | 0 <= i < |a| :: RowOverflows(a, n, p, i)
  {
    if i :| 0 <= i < |a| && RowOverflows(a, n, p, i) {
      var b := OverflowFails(a, n, p, i);
    } else {
      forall b: Row, x: seq<int> | |x| == n && BasicSolution(a, b, x, p) ensures SelfCheck(a, b, x, p) {
        NoOverflowPasses(a, b, x, p);
      }
    }
  }

  // ----- The operation

  /** A matrix that passes the checks of shape, prime and entries. */
  predicate AdmittedMatrix(a: Matrix, n: nat, p: int) {
    && AdmittedPrime(p) && 1 <= |a| <= 512 && 1 <= n <= 512
    && forall i | 0 <= i < |a| :: forall c | 0 <= c < |a[i]| :: Int64(a[i][c])
  }

  predicate AdmittedSystem(a: Matrix, b: Row, n: nat, p: int) {
    AdmittedMatrix(a, n, p) && |b| == |a| && forall i | 0 <= i < |b| :: Int64(b[i])
  }

  /** `Unadmitted`: a rejected shape, prime or entry. `CheckFailed`: the closing assertion. */
  datatype SolveError = Unadmitted | CheckFailed

  /**
   `solve_field`: the basic solution, None exactly when there is no solution, and
   the failed self-check exactly when the basic solution wraps out of its residues.
   */
  method SolveField(a: Matrix, b: Row, n: nat, p: int) returns (r: Result<Option<seq<int>>, SolveError>)
    requires Rectangular(a, n)
    ensures r == Failure(Unadmitted) <==>
            !(&& (p == 17 || p == 61 || p == 127 || p == 257 || p == 65537)
              && 1 <= |a| <= 512 && 1 <= n <= 512 && |b| == |a|
              && (forall i | 0 <= i < |a| :: Int64Row(a[i])) && Int64Row(b))
    ensures r == Success(None) <==>
            AdmittedSystem(a, b, n, p) && forall x: seq<int> | |x| == n :: !IsSolution(a, b, x, p)
    ensures r.Success? && r.value.Some? ==>
            var x := r.value.value; |x| == n && BasicSolution(a, b, x, p) && SelfCheck(a, b, x, p)
    ensures r == Failure(CheckFailed) <==> AdmittedSystem(a, b, n, p) && CheckFails(a, b, n, p)
    ensures (forall i | 0 <= i < |a| :: !RowOverflows(a, n, p, i)) ==> r != Failure(CheckFailed)
  {
    if !AdmittedSystem(a, b, n, p) {
      return Failure(Unadmitted);
    }
    AdmittedIsPrime(p);
    var solved := Solve(a, b, n, p);
    if solved.None? {
      return Success(None);
    }
    var x := solved.value;
    forall y: seq<int> | |y| == n && BasicSolution(a, b, y, p) ensures y == x {
      BasicUnique(a, b, x, y, p);
    }
    if !SelfCheck(a, b, x, p) {
      if forall i | 0 <= i < |a| :: !RowOverflows(a, n, p, i) {
        NoOverflowPasses(a, b, x, p);
      }
      return Failure(CheckFailed);
    }
    return Success(Some(x));
  }
}
