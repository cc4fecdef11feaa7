/**
 `row_widths` and `annihilator_widths`: output ring widths that lose no signed
 result, and the least input ring widths that leave every output unchanged.
 */
module RingWidths {
  import opened Wrappers
  import opened Modular
  import opened Bits
  import opened SignedBytes

  function AbsSum(row: seq<int>): nat {
    if row == [] then 0 else Abs(row[0]) + AbsSum(row[1..])
  }

  function RowWidth(row: seq<int>): (b: nat)
    ensures b >= 1
  {
    BitLength(127 * AbsSum(row)) + 1
  }

  /** `row_widths`; None is the ValueError for an empty matrix or a bound beyond 32 bits. */
  function RowWidths(weights: seq<seq<int>>): (r: Option<seq<nat>>)
    ensures r.Some? <==>
            weights != [] && weights[0] != [] && forall j | 0 <= j < |weights| :: RowWidth(weights[j]) <= 32
    ensures r.Some? ==> |r.value| == |weights| && forall j | 0 <= j < |weights| ::
            r.value[j] == RowWidth(weights[j]) <= 32
  {
    var widths := seq(|weights|, j requires 0 <= j < |weights| => RowWidth(weights[j]));
    assert forall j | 0 <= j < |widths| :: widths[j] == RowWidth(weights[j]);
    if weights == [] || weights[0] == [] || exists j | 0 <= j < |widths| :: widths[j] > 32 then None else Some(widths)
  }

  // ----- Exact recovery of the signed output

  function CentredLift(r: int, b: nat): int
    requires b >= 1
  {
    if r < Pow2(b - 1) then r else r - Pow2(b)
  }

  /** A dot product is at most the bound of its inputs times the L1 norm of the row. */
  lemma {:induction false} DotBounded(row: seq<int>, x: seq<int>, m: nat)
    requires |row| == |x| && forall i | 0 <= i < |x| :: Abs(x[i]) <= m
    ensures Abs(Dot(row, x)) <= m * AbsSum(row)
  {
    if row != [] {
      DotBounded(row[1..], x[1..], m);
      ProductBounded(row[0], x[0], m);
      MulDistribute(m, Abs(row[0]), AbsSum(row[1..]));
    }
  }

  lemma ProductBounded(w: int, x: int, m: nat)
    requires Abs(x) <= m
    ensures Abs(w * x) <= m * Abs(w)
  {
    MulMonotone(Abs(w), Abs(x), m);
    if w < 0 && x < 0 {
      assert w * x == -w * -x;
    } else if w < 0 {
      assert w * x == -(-w * x);
    } else if x < 0 {
      assert w * x == -(w * -x);
    }
  }

  /** For quantised inputs, the row width keeps the exact signed dot product. */
  lemma WidthRecoversOutput(row: seq<int>, x: seq<int>)
    requires |row| == |x| && forall i | 0 <= i < |x| :: Abs(x[i]) <= 127
    ensures CentredLift(Dot(row, x) % Pow2(RowWidth(row)), RowWidth(row)) == Dot(row, x)
  {
    var y, b := Dot(row, x), RowWidth(row);
    DotBounded(row, x, 127);
    BitLengthBounds(127 * AbsSum(row));
    assert Abs(y) < Pow2(b - 1) && Pow2(b) == 2 * Pow2(b - 1);
    if y >= 0 {
      QuotientUnique(y, Pow2(b), 0, y);
    } else {
      QuotientUnique(y, Pow2(b), -1, y + Pow2(b));
    }
  }

  /** The input that drives the row to its bound. */
  function Driving(row: seq<int>): (x: seq<int>)
    ensures |x| == |row| && forall i | 0 <= i < |x| :: Abs(x[i]) <= 127
  {
    seq(|row|, i requires 0 <= i < |row| => if row[i] < 0 then -127 else 127)
  }

  lemma {:induction false} DrivingAttains(row: seq<int>)
    ensures Dot(row, Driving(row)) == 127 * AbsSum(row)
  {
    if row != [] {
      assert Driving(row)[1..] == Driving(row[1..]);
      DrivingAttains(row[1..]);
    }
  }

  /** No smaller width recovers every output: the driving input is lost. */
  lemma WidthLeast(row: seq<int>, b: nat)
    requires 1 <= b < RowWidth(row)
    ensures CentredLift(Dot(row, Driving(row)) % Pow2(b), b) != Dot(row, Driving(row))
  {
    DrivingAttains(row);
    LongerLost(127 * AbsSum(row), b);
  }

  lemma LongerLost(v: nat, b: nat)
    requires 1 <= b <= BitLength(v)
    ensures CentredLift(v % Pow2(b), b) < v
  {
    HalfWithin(v, b);
    LiftBelowHalf(v, b);
  }

  lemma HalfWithin(v: nat, b: nat)
    requires 1 <= b <= BitLength(v)
    ensures Pow2(b - 1) <= v
  {
    BitLengthBounds(v);
    Pow2Monotone(b - 1, BitLength(v) - 1);
  }

  lemma LiftBelowHalf(v: nat, b: nat)
    requires b >= 1
    ensures CentredLift(v % Pow2(b), b) < Pow2(b - 1)
  {
    var r := Remainder(v, Pow2(b));
    assert r < Pow2(b) == 2 * Pow2(b - 1);
  }

  // ----- Valuations

  /** Trailing zero bits of an unsigned byte; 32 stands for a zero weight. */
  function Valuation(x: nat): (v: nat)
    requires x < 256
    ensures x > 0 ==> v < 8
  {
    if x == 0 then 32 else TrailingZeros(x, 8)
  }

  function TrailingZeros(x: nat, bits: nat): (v: nat)
    requires 0 < x < Pow2(bits)
    ensures v < bits
  {
    if x % 2 == 1 then 0 else 1 + TrailingZeros(x / 2, bits - 1)
  }

  lemma {:induction false} OddPart(x: nat, bits: nat) returns (u: int)
    requires 0 < x < Pow2(bits)
    ensures x == Pow2(TrailingZeros(x, bits)) * u && u % 2 == 1
  {
    if x % 2 == 1 {
      u := x;
    } else {
      u := OddPart(x / 2, bits - 1);
      var p := Pow2(TrailingZeros(x / 2, bits - 1));
      MulAssoc(2, p, u);
    }
  }

  lemma ShiftedOdd(x: int, p: int, odd: int, h: int)
    requires x == p * odd && p * (2 * h) == 256 && odd % 2 == 1
    ensures x - 256 == p * (odd - 2 * h) && (odd - 2 * h) % 2 == 1
  {
    MulDistribute(p, odd, 2 * h);
  }

  /** A nonzero signed weight is an odd multiple of the power its unsigned byte is tabulated with. */
  lemma SignedOddPart(w: int) returns (u: int)
    requires SignedByte(w) && w != 0
    ensures w == Pow2(Valuation(w % 256)) * u && u % 2 == 1
  {
    var x := w % 256;
    assert Pow2(8) == 256;
    var odd := OddPart(x, 8);
    var v := TrailingZeros(x, 8);
    if w >= 0 {
      u := odd;
    } else {
      Pow2Add(v, 8 - v);
      ShiftedOdd(x, Pow2(v), odd, Pow2(7 - v));
      u := odd - 2 * Pow2(7 - v);
    }
  }

  /** The ring width one weight demands of its input coordinate. */
  function Need(b: nat, w: int): int
    requires SignedByte(w)
  {
    b - Valuation(w % 256)
  }

  // ----- Soundness and minimality of one coordinate

  lemma FactorOut(p: int, u: int, s: int, q: int, m: int, r: int)
    requires p * s == m * r
    ensures (p * u) * (s * q) == m * (r * (u * q))
  {
    MulAssoc(p * u, s, q);
    MulSwap(p, u, s);
    MulAssoc(p * s, u, q);
    MulAssoc(m, r, u * q);
  }

  lemma ScaledNumbers(w: int, p: int, u: int, s: int, q: int, m: int, r: int, x: int, y: int)
    requires m > 0 && w == p * u && x - y == s * q && p * s == m * r
    ensures Cong(w * x, w * y, m)
  {
    FactorOut(p, u, s, q, m, r);
    MulDistribute(w, x, y);
    CongIntro(w * x, w * y, m, r * (u * q));
  }

  lemma ScaledUnchanged(w: int, u: int, v: nat, b: nat, k: nat, x: int, y: int)
    requires w == Pow2(v) * u && v + k >= b && Cong(x, y, Pow2(k))
    ensures Cong(w * x, w * y, Pow2(b))
  {
    var q := CongWitness(x, y, Pow2(k));
    Pow2Add(v, k);
    Pow2Add(b, v + k - b);
    ScaledNumbers(w, Pow2(v), u, Pow2(k), q, Pow2(b), Pow2(v + k - b), x, y);
  }

  lemma TermUnchanged(w: int, b: nat, k: nat, x: int, y: int)
    requires SignedByte(w) && b <= 32 && k >= Need(b, w) && Cong(x, y, Pow2(k))
    ensures Cong(w * x, w * y, Pow2(b))
  {
    if w == 0 {
      CongIntro(0, 0, Pow2(b), 0);
    } else {
      var u := SignedOddPart(w);
      ScaledUnchanged(w, u, Valuation(w % 256), b, k, x, y);
    }
  }

  lemma EvenMultiple(u: int, d: nat)
    requires d >= 1 && Cong(u, 0, Pow2(d))
    ensures u % 2 == 0
  {
    var k := CongWitness(u, 0, Pow2(d));
    MulAssoc(2, Pow2(d - 1), k);
  }

  /** If 2^d * p divides p * u then 2^d divides u. */
  lemma CancelPower(p: int, u: int, d: nat)
    requires p > 0 && Cong(p * u, 0, p * Pow2(d))
    ensures Cong(u, 0, Pow2(d))
  {
    var q := CongWitness(p * u, 0, p * Pow2(d));
    MulAssoc(p, Pow2(d), q);
    MulDistribute(p, u, Pow2(d) * q);
    SmallMultiple(p, u - Pow2(d) * q);
    CongIntro(u, 0, Pow2(d), q);
  }

  lemma OddMultipleSurvives(p: int, u: int, d: nat)
    requires p > 0 && u % 2 == 1 && d >= 1
    ensures !Cong(p * u, 0, p * Pow2(d))
  {
    if Cong(p * u, 0, p * Pow2(d)) {
      CancelPower(p, u, d);
      EvenMultiple(u, d);
    }
  }

  lemma ScaledChanged(w: int, u: int, v: nat, b: nat, k: nat)
    requires w == Pow2(v) * u && u % 2 == 1 && v + k < b
    ensures !Cong(w * Pow2(k), 0, Pow2(b))
  {
    var d := b - v - k;
    OddMultipleSurvives(Pow2(v + k), u, d);
    MulSwap(Pow2(v), u, Pow2(k));
    Pow2Add(v, k);
    Pow2Add(v + k, d);
  }

  /** Any narrower ring fails on the input 2 to the k against zero. */
  lemma TermChanged(w: int, b: nat, k: nat)
    requires SignedByte(w) && w != 0 && k < Need(b, w)
    ensures Cong(Pow2(k), 0, Pow2(k)) && !Cong(w * Pow2(k), 0, Pow2(b))
  {
    CongIntro(Pow2(k), 0, Pow2(k), 1);
    var u := SignedOddPart(w);
    ScaledChanged(w, u, Valuation(w % 256), b, k);
  }

  // ----- The widths

  /** `k` is the least width of at least one bit that serves column `i` of every row below `rows`. */
  ghost predicate LeastWidth(weights: seq<seq<int>>, widths: seq<nat>, n: nat, rows: nat, i: nat, k: nat)
    requires ByteMatrix(weights, n) && |widths| == |weights| && rows <= |weights| && i < n
  {
    && k >= 1
    && (forall j | 0 <= j < rows :: k >= Need(widths[j], weights[j][i]))
    && (k > 1 ==> exists j | 0 <= j < rows :: k == Need(widths[j], weights[j][i]))
  }

  /** One block of at most 128 rows, folded into the running maximum. */
  method BlockMaximum(weights: seq<seq<int>>, widths: seq<nat>, n: nat, start: nat, end: nat, before: seq<nat>)
    returns (result: seq<nat>)
    requires ByteMatrix(weights, n) && |widths| == |weights| && start <= end <= |weights| && |before| == n
    requires forall i | 0 <= i < n :: LeastWidth(weights, widths, n, start, i, before[i])
    ensures |result| == n
    ensures forall i | 0 <= i < n :: LeastWidth(weights, widths, n, end, i, result[i])
  {
    result := before;
    for j := start to end
      invariant |result| == n
      invariant forall i | 0 <= i < n :: LeastWidth(weights, widths, n, j, i, result[i])
    {
      ghost var old' := result;
      for i := 0 to n
        invariant |result| == n
        invariant forall c | 0 <= c < i :: LeastWidth(weights, widths, n, j + 1, c, result[c])
        invariant forall c | i <= c < n :: result[c] == old'[c]
      {
        assert LeastWidth(weights, widths, n, j, i, result[i]);
        var need := Need(widths[j], weights[j][i]);
        if need > result[i] {
          result := result[i := need];
          assert result[i] == Need(widths[j], weights[j][i]);
        }
      }
    }
  }

  /** `annihilator_widths`; None is the ValueError of `row_widths`. */
  method AnnihilatorWidths(weights: seq<seq<int>>, n: nat) returns (r: Option<seq<nat>>)
    requires ByteMatrix(weights, n)
    ensures r.None? <==> RowWidths(weights).None?
    ensures r.Some? ==> |r.value| == n && forall i | 0 <= i < n ::
              LeastWidth(weights, RowWidths(weights).value, n, |weights|, i, r.value[i])
  {
    var widths := RowWidths(weights);
    if widths.None? {
      return None;
    }
    var result := seq(n, _ => 1);
    var start := 0;
    while start < |weights|
      invariant start <= |weights| && |result| == n
      invariant forall i | 0 <= i < n :: LeastWidth(weights, widths.value, n, start, i, result[i])
    {
      var end := if start + 128 < |weights| then start + 128 else |weights|;
      result := BlockMaximum(weights, widths.value, n, start, end, result);
      start := end;
    }
    return Some(result);
  }

  /** Reducing every coordinate in its ring leaves every output unchanged in its ring. */
  lemma {:induction false} ReductionSound(row: seq<int>, b: nat, ks: seq<nat>, x: seq<int>, y: seq<int>)
    requires |row| == |ks| == |x| == |y| && b <= 32
    requires forall i | 0 <= i < |row| :: SignedByte(row[i]) && ks[i] >= Need(b, row[i])
    requires forall i | 0 <= i < |row| :: Cong(x[i], y[i], Pow2(ks[i]))
    ensures Cong(Dot(row, x), Dot(row, y), Pow2(b))
  {
    if row == [] {
      CongIntro(0, 0, Pow2(b), 0);
    } else {
      ReductionSound(row[1..], b, ks[1..], x[1..], y[1..]);
      TermUnchanged(row[0], b, ks[0], x[0], y[0]);
      CongAdd(row[0] * x[0], row[0] * y[0], Dot(row[1..], x[1..]), Dot(row[1..], y[1..]), Pow2(b));
    }
  }

  /** The same for the whole matrix and the widths the method returns. */
  lemma WidthsSound(weights: seq<seq<int>>, n: nat, widths: seq<nat>, ks: seq<nat>, x: seq<int>, y: seq<int>, j: nat)
    requires ByteMatrix(weights, n) && RowWidths(weights) == Some(widths) && |ks| == |x| == |y| == n && j < |weights|
    requires forall i | 0 <= i < n :: LeastWidth(weights, widths, n, |weights|, i, ks[i])
    requires forall i | 0 <= i < n :: Cong(x[i], y[i], Pow2(ks[i]))
    ensures Cong(Dot(weights[j], x), Dot(weights[j], y), Pow2(widths[j]))
  {
    forall i | 0 <= i < n ensures SignedByte(weights[j][i]) && ks[i] >= Need(widths[j], weights[j][i]) {
      assert LeastWidth(weights, widths, n, |weights|, i, ks[i]);
    }
    ReductionSound(weights[j], widths[j], ks, x, y);
  }

  /** Minimality: with any smaller width of at least one bit, some output changes for some input. */
  lemma WidthsMinimal(weights: seq<seq<int>>, n: nat, widths: seq<nat>, ks: seq<nat>, i: nat, k: nat)
    requires ByteMatrix(weights, n) && RowWidths(weights) == Some(widths) && |ks| == n && i < n
    requires LeastWidth(weights, widths, n, |weights|, i, ks[i]) && 1 <= k < ks[i]
    ensures exists j, x: seq<int>, y: seq<int> ::
              && 0 <= j < |weights| && |x| == |y| == n
              && (forall c | 0 <= c < n && c != i :: x[c] == y[c]) && Cong(x[i], y[i], Pow2(k))
              && !Cong(Dot(weights[j], x), Dot(weights[j], y), Pow2(widths[j]))
  {
    var j :| 0 <= j < |weights| && ks[i] == Need(widths[j], weights[j][i]);
    var x, y := RowChanged(weights[j], widths[j], i, k);
  }

  lemma RowChanged(row: seq<int>, b: nat, i: nat, k: nat) returns (x: seq<int>, y: seq<int>)
    requires AllSignedBytes(row) && b <= 32 && i < |row| && k < Need(b, row[i])
    ensures |x| == |y| == |row|
    ensures forall c | 0 <= c < |row| && c != i :: x[c] == y[c]
    ensures Cong(x[i], y[i], Pow2(k)) && !Cong(Dot(row, x), Dot(row, y), Pow2(b))
  {
    assert Valuation(0) == 32;
    TermChanged(row[i], b, k);
    y := seq(|row|, _ => 0);
    x := y[i := Pow2(k)];
    DotSingle(row, x, i);
    DotZero(row, y);
  }
}
