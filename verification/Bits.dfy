/** Powers of two, binary digits and bit lengths of nonnegative integers. */
module Bits {
  import opened Modular

  function Pow2(k: nat): (r: nat)
    ensures r > 0
  {
    if k == 0 then 1 else 2 * Pow2(k - 1)
  }

  lemma {:induction false} Pow2Add(j: nat, k: nat)
    ensures Pow2(j + k) == Pow2(j) * Pow2(k)
  {
    if k > 0 {
      Pow2Add(j, k - 1);
      MulAssoc(Pow2(j), 2, Pow2(k - 1));
      MulAssoc(2, Pow2(j), Pow2(k - 1));
    }
  }

  lemma {:induction false} Pow2Monotone(j: nat, k: nat)
    requires j <= k
    ensures Pow2(j) <= Pow2(k)
  {
    if j < k {
      Pow2Monotone(j, k - 1);
    }
  }

  /** `(n >> k) & 1`. */
  function Bit(n: nat, k: nat): (b: nat)
    ensures b <= 1
  {
    (n / Pow2(k)) % 2
  }

  /** The value of the low `count` binary digits. */
  function BitsValue(n: nat, count: nat): nat {
    if count == 0 then 0 else BitsValue(n, count - 1) + Bit(n, count - 1) * Pow2(count - 1)
  }

  lemma SplitRemainder(n: nat, m: nat)
    requires m > 0
    ensures n % (2 * m) == n % m + (n / m) % 2 * m
  {
    var q, r := n / m, n % m;
    var h, l := q / 2, q % 2;
    assert n == m * q + r;
    assert m * q == (2 * m) * h + l * m by {
      assert m * (2 * h + l) == m * (2 * h) + m * l;
      assert m * (2 * h) == (2 * m) * h;
    }
    assert l * m <= m by {
      assert l == 0 || l == 1;
    }
    QuotientUnique(n, 2 * m, h, r + l * m);
  }

  lemma {:induction false} BitsValueMod(n: nat, count: nat)
    ensures BitsValue(n, count) == n % Pow2(count)
  {
    if count > 0 {
      BitsValueMod(n, count - 1);
      SplitRemainder(n, Pow2(count - 1));
    }
  }

  lemma BitsValueExact(n: nat, count: nat)
    requires n < Pow2(count)
    ensures BitsValue(n, count) == n
  {
    BitsValueMod(n, count);
    QuotientUnique(n, Pow2(count), 0, n);
  }

  /** Python's `int.bit_length` for a nonnegative integer. */
  function BitLength(n: nat): nat {
    if n == 0 then 0 else 1 + BitLength(n / 2)
  }

  lemma {:induction false} BitLengthBounds(n: nat)
    ensures n < Pow2(BitLength(n))
    ensures n > 0 ==> BitLength(n) >= 1 && Pow2(BitLength(n) - 1) <= n
  {
    if n > 0 {
      BitLengthBounds(n / 2);
    }
  }

  lemma {:induction false} BitLengthMonotone(m: nat, n: nat)
    requires m <= n
    ensures BitLength(m) <= BitLength(n)
  {
    if m > 0 {
      BitLengthMonotone(m / 2, n / 2);
    }
  }
}
