/** Congruences, dot products and powers used by the integer models. */
module Modular {

  ghost predicate Cong(a: int, b: int, m: int)
    requires m > 0
  {
    (a - b) % m == 0
  }

  // ----- Ring identities, each stated on its own

  lemma MulAssoc(a: int, b: int, c: int)
    ensures (a * b) * c == a * (b * c)
  {
  }

  lemma MulSwap(a: int, b: int, c: int)
    ensures (a * b) * c == (a * c) * b
  {
    MulAssoc(a, b, c);
    MulAssoc(a, c, b);
    assert b * c == c * b;
  }

  lemma MulDistribute(a: int, b: int, c: int)
    ensures a * (b + c) == a * b + a * c && a * (b - c) == a * b - a * c
  {
  }

  lemma MulMonotone(u: nat, a: int, b: int)
    requires a <= b
    ensures u * a <= u * b
  {
    MulDistribute(u, a, b - a);
    assert u * (b - a) >= 0;
  }

  // ----- Quotients and remainders

  function Quotient(n: nat, base: nat): (q: nat)
    requires base > 0
  {
    n / base
  }

  function Remainder(n: nat, base: nat): (r: nat)
    requires base > 0
    ensures r < base && n == base * Quotient(n, base) + r
  {
    n % base
  }

  /** Dividing twice is dividing by the product. */
  lemma DivideTwice(n: nat, a: nat, b: nat)
    requires a > 0 && b > 0
    ensures a * b > 0 && n / a / b == n / (a * b)
  {
    var q, r := Quotient(n, a), Remainder(n, a);
    var t, s := Quotient(q, b), Remainder(q, b);
    MulMonotone(a, 1, b);
    MulMonotone(a, s + 1, b);
    MulDistribute(a, b * t, s);
    MulAssoc(a, b, t);
    MulDistribute(a, s, 1);
    assert a * s >= 0;
    QuotientUnique(n, a * b, t, a * s + r);
  }

  lemma MultipleMod(m: int, k: int)
    requires m > 0
    ensures (m * k) % m == 0
  {
    QuotientUnique(m * k, m, k, 0);
  }

  lemma ModShift(x: int, m: int)
    requires m > 0
    ensures (x + m) % m == x % m
  {
    var q, r := x / m, x % m;
    assert x + m == m * (q + 1) + r;
    QuotientUnique(x + m, m, q + 1, r);
  }

  lemma QuotientUnique(x: int, m: int, q: int, r: int)
    requires m > 0 && 0 <= r < m && x == m * q + r
    ensures x / m == q && x % m == r
  {
    var d := x / m - q;
    assert x == m * (x / m) + x % m;
    assert m * d == r - x % m by {
      assert m * (x / m) - m * q == m * d;
    }
    SmallMultiple(m, d);
  }

  lemma SmallMultiple(m: int, d: int)
    requires m > 0 && -m < m * d < m
    ensures d == 0
  {
    if d >= 1 {
      MulMonotone(m, 1, d);
    } else if d <= -1 {
      MulMonotone(m, d, -1);
    }
  }

  lemma CongIntro(a: int, b: int, m: int, k: int)
    requires m > 0 && a - b == m * k
    ensures Cong(a, b, m)
  {
    MultipleMod(m, k);
  }

  lemma CongWitness(a: int, b: int, m: int) returns (k: int)
    requires m > 0 && Cong(a, b, m)
    ensures a - b == m * k
  {
    k := (a - b) / m;
  }

  lemma CongMod(a: int, m: int)
    requires m > 0
    ensures Cong(a % m, a, m)
  {
    assert a % m - a == m * -(a / m);
    CongIntro(a % m, a, m, -(a / m));
  }

  lemma CongSym(a: int, b: int, m: int)
    requires m > 0 && Cong(a, b, m)
    ensures Cong(b, a, m)
  {
    var k := CongWitness(a, b, m);
    assert b - a == m * -k;
    CongIntro(b, a, m, -k);
  }

  lemma CongTrans(a: int, b: int, c: int, m: int)
    requires m > 0 && Cong(a, b, m) && Cong(b, c, m)
    ensures Cong(a, c, m)
  {
    var j := CongWitness(a, b, m);
    var k := CongWitness(b, c, m);
    assert a - c == m * (j + k);
    CongIntro(a, c, m, j + k);
  }

  lemma CongAdd(a: int, b: int, c: int, d: int, m: int)
    requires m > 0 && Cong(a, b, m) && Cong(c, d, m)
    ensures Cong(a + c, b + d, m)
  {
    var j := CongWitness(a, b, m);
    var k := CongWitness(c, d, m);
    assert (a + c) - (b + d) == m * (j + k);
    CongIntro(a + c, b + d, m, j + k);
  }

  lemma CongScale(f: int, a: int, b: int, m: int)
    requires m > 0 && Cong(a, b, m)
    ensures Cong(f * a, f * b, m)
  {
    var k := CongWitness(a, b, m);
    MulDistribute(f, a, b);
    MulAssoc(m, f, k);
    MulAssoc(f, m, k);
    assert m * f == f * m;
    CongIntro(f * a, f * b, m, f * k);
  }

  /** Congruence is equality of remainders. */
  lemma CongIffMod(a: int, b: int, m: int)
    requires m > 0
    ensures Cong(a, b, m) <==> a % m == b % m
  {
    if Cong(a, b, m) {
      var k := CongWitness(a, b, m);
      assert a == m * (b / m + k) + b % m;
      QuotientUnique(a, m, b / m + k, b % m);
    }
    if a % m == b % m {
      assert a - b == m * (a / m - b / m);
      CongIntro(a, b, m, a / m - b / m);
    }
  }

  // ----- Matrices and dot products

  type Matrix = seq<seq<int>>

  ghost predicate Rectangular(m: Matrix, n: nat) {
    forall i | 0 <= i < |m| :: |m[i]| == n
  }

  function Dot(a: seq<int>, x: seq<int>): int
    requires |a| == |x|
  {
    if a == [] then 0 else a[0] * x[0] + Dot(a[1..], x[1..])
  }

  lemma {:induction false} DotSnoc(a: seq<int>, c: int, x: seq<int>, d: int)
    requires |a| == |x|
    ensures Dot(a + [c], x + [d]) == Dot(a, x) + c * d
  {
    if a == [] {
      assert [c][1..] == [] && [d][1..] == [];
      assert a + [c] == [c] && x + [d] == [d];
    } else {
      assert (a + [c])[1..] == a[1..] + [c] && (x + [d])[1..] == x[1..] + [d];
      DotSnoc(a[1..], c, x[1..], d);
    }
  }

  /** A dot product whose products vanish everywhere but at one index. */
  lemma {:induction false} DotSingle(a: seq<int>, x: seq<int>, k: nat)
    requires |a| == |x| && k < |a|
    requires forall i | 0 <= i < |a| && i != k :: a[i] == 0 || x[i] == 0
    ensures Dot(a, x) == a[k] * x[k]
  {
    if k == 0 {
      DotZero(a[1..], x[1..]);
    } else {
      DotSingle(a[1..], x[1..], k - 1);
      assert a[0] * x[0] == 0;
    }
  }

  /** A dot product whose products vanish everywhere but at two indices. */
  lemma {:induction false} DotPair(a: seq<int>, x: seq<int>, j: nat, k: nat)
    requires |a| == |x| && j < k < |a|
    requires forall i | 0 <= i < |a| && i != j && i != k :: a[i] == 0 || x[i] == 0
    ensures Dot(a, x) == a[j] * x[j] + a[k] * x[k]
  {
    if j == 0 {
      DotSingle(a[1..], x[1..], k - 1);
    } else {
      DotPair(a[1..], x[1..], j - 1, k - 1);
      assert a[0] * x[0] == 0;
    }
  }

  lemma {:induction false} DotZero(a: seq<int>, x: seq<int>)
    requires |a| == |x|
    requires forall i | 0 <= i < |a| :: a[i] == 0 || x[i] == 0
    ensures Dot(a, x) == 0
  {
    if a != [] {
      assert a[0] * x[0] == 0;
      DotZero(a[1..], x[1..]);
    }
  }

  /** `a - f * b`, entry by entry. */
  function Difference(a: seq<int>, f: int, b: seq<int>): (r: seq<int>)
    requires |a| == |b|
    ensures |r| == |a|
  {
    seq(|a|, i requires 0 <= i < |a| => a[i] - f * b[i])
  }

  lemma DifferenceTail(a: seq<int>, f: int, b: seq<int>)
    requires |a| == |b| && a != []
    ensures Difference(a, f, b)[0] == a[0] - f * b[0]
    ensures Difference(a, f, b)[1..] == Difference(a[1..], f, b[1..])
  {
  }

  lemma DifferenceRing(a: int, b: int, x: int, f: int, rest: int, other: int)
    ensures (a - f * b) * x + (rest - f * other) == (a * x + rest) - f * (b * x + other)
  {
    MulDistribute(x, a, f * b);
    MulDistribute(f, b * x, other);
    MulAssoc(f, b, x);
    assert x * (f * b) == (f * b) * x && x * a == a * x && x * (a - f * b) == (a - f * b) * x;
  }

  lemma {:induction false} DotDifference(a: seq<int>, f: int, b: seq<int>, x: seq<int>)
    requires |a| == |b| == |x|
    ensures Dot(Difference(a, f, b), x) == Dot(a, x) - f * Dot(b, x)
  {
    if a == [] {
      assert f * 0 == 0;
    } else {
      DotDifference(a[1..], f, b[1..], x[1..]);
      DifferenceTail(a, f, b);
      DifferenceRing(a[0], b[0], x[0], f, Dot(a[1..], x[1..]), Dot(b[1..], x[1..]));
    }
  }

  /** Every entry multiplied by `f`. */
  function Scaled(a: seq<int>, f: int): (r: seq<int>)
    ensures |r| == |a|
  {
    seq(|a|, i requires 0 <= i < |a| => a[i] * f)
  }

  lemma ScaledTail(a: seq<int>, f: int)
    requires a != []
    ensures Scaled(a, f)[0] == a[0] * f && Scaled(a, f)[1..] == Scaled(a[1..], f)
  {
  }

  lemma {:induction false} DotScaled(a: seq<int>, f: int, x: seq<int>)
    requires |a| == |x|
    ensures Dot(Scaled(a, f), x) == f * Dot(a, x)
  {
    if a == [] {
      assert f * 0 == 0;
    } else {
      DotScaled(a[1..], f, x[1..]);
      ScaledTail(a, f);
      MulSwap(a[0], f, x[0]);
      MulDistribute(f, a[0] * x[0], Dot(a[1..], x[1..]));
      assert (a[0] * x[0]) * f == f * (a[0] * x[0]);
    }
  }

  /** Every entry reduced modulo `m`. */
  function Reduced(a: seq<int>, m: int): (r: seq<int>)
    requires m > 0
    ensures |r| == |a| && forall i | 0 <= i < |r| :: 0 <= r[i] < m
  {
    seq(|a|, i requires 0 <= i < |a| => a[i] % m)
  }

  lemma ReducedTail(a: seq<int>, m: int)
    requires m > 0 && a != []
    ensures Reduced(a, m)[0] == a[0] % m && Reduced(a, m)[1..] == Reduced(a[1..], m)
  {
  }

  /** One reduced entry in front of a congruent tail. */
  lemma ConsCong(e: int, d: int, tail: int, target: int, m: int)
    requires m > 0 && Cong(tail, target, m)
    ensures Cong(e % m * d + tail, e * d + target, m)
  {
    CongMod(e, m);
    CongScale(d, e % m, e, m);
    CongAdd(d * (e % m), d * e, tail, target, m);
    assert d * (e % m) == e % m * d && d * e == e * d;
  }

  lemma {:induction false} DotReduced(a: seq<int>, m: int, x: seq<int>)
    requires m > 0 && |a| == |x|
    ensures Cong(Dot(Reduced(a, m), x), Dot(a, x), m)
  {
    if a == [] {
      CongIntro(0, 0, m, 0);
    } else {
      DotReduced(a[1..], m, x[1..]);
      ReducedTail(a, m);
      ConsCong(a[0], x[0], Dot(Reduced(a[1..], m), x[1..]), Dot(a[1..], x[1..]), m);
    }
  }
}
