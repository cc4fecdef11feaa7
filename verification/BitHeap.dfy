/**
 The Wallace bit heap: `wallace_evaluate` computes a signed dot product modulo a
 power of two by 3:2 compression of bit columns, and `wallace_counts` prices the
 same reduction without evaluating it. Both are proved, and proved to agree.
 */
module BitHeap {
  import opened Wrappers
  import opened Modular
  import opened Sequences
  import opened Bits
  import opened SignedBytes

  type Column = seq<int>

  /** The weighted sum of all columns: column i weighs 2 to the i. */
  function Value(columns: seq<Column>): int {
    if columns == [] then 0 else Sum(columns[0]) + 2 * Value(columns[1..])
  }

  ghost predicate BitColumn(c: Column) {
    forall i | 0 <= i < |c| :: c[i] == 0 || c[i] == 1
  }

  ghost predicate BitColumns(columns: seq<Column>) {
    forall k | 0 <= k < |columns| :: BitColumn(columns[k])
  }

  lemma {:induction false} ValueUpdate(columns: seq<Column>, k: nat, c: Column)
    requires k < |columns|
    ensures Value(columns[k := c]) == Value(columns) + Pow2(k) * (Sum(c) - Sum(columns[k]))
  {
    if k == 0 {
      assert columns[k := c][1..] == columns[1..];
    } else {
      assert columns[k := c][1..] == columns[1..][k - 1 := c];
      ValueUpdate(columns[1..], k - 1, c);
      var d := Sum(c) - Sum(columns[k]);
      assert 2 * (Pow2(k - 1) * d) == (2 * Pow2(k - 1)) * d;
    }
  }

  // ----- Filling the heap

  /** The constant multiple of one input bit: `(w << shift) & mask`. */
  function Term(w: int, shift: nat, bits: nat): (t: nat)
    ensures t < Pow2(bits)
  {
    (w * Pow2(shift)) % Pow2(bits)
  }

  /** Append input bit `v` to every column where the term has a one, below `bit`. */
  ghost predicate TermAdded(before: seq<Column>, after: seq<Column>, t: nat, v: int, bit: nat) {
    && |after| == |before|
    && forall k | 0 <= k < |before| ::
         after[k] == if k < bit && Bit(t, k) == 1 then before[k] + [v] else before[k]
  }

  lemma AddWeighted(low: int, weight: int, v: int)
    ensures (low + weight) * v == low * v + weight * v
  {
  }

  method AddTerm(start: seq<Column>, t: nat, v: int) returns (columns: seq<Column>)
    requires t < Pow2(|start|)
    ensures TermAdded(start, columns, t, v, |start|)
    ensures Value(columns) == Value(start) + t * v
  {
    columns := start;
    for bit := 0 to |start|
      invariant TermAdded(start, columns, t, v, bit)
      invariant Value(columns) == Value(start) + BitsValue(t, bit) * v
    {
      var grown := columns[bit] + [v];
      if Bit(t, bit) == 1 {
        AppendValue(columns, bit, v);
        columns := columns[bit := grown];
        AddWeighted(BitsValue(t, bit), Pow2(bit), v);
      }
    }
    BitsValueExact(t, |start|);
  }

  /** The number of ones that a coefficient contributes to a column: the pattern table. */
  function Pattern(w: int, bit: nat, bits: nat, shifts: nat): nat {
    if shifts == 0 then 0 else Pattern(w, bit, bits, shifts - 1) + Bit(Term(w, shifts - 1, bits), bit)
  }

  /** Column heights after adding the first `shifts` input bits of one product. */
  ghost predicate PatternAdded(start: seq<Column>, columns: seq<Column>, w: int, shifts: nat) {
    && |columns| == |start| && BitColumns(columns)
    && forall k | 0 <= k < |start| :: |columns[k]| == |start[k]| + Pattern(w, k, |start|, shifts)
  }

  lemma PatternStep(start: seq<Column>, before: seq<Column>, after: seq<Column>, w: int, shift: nat, v: int)
    requires PatternAdded(start, before, w, shift) && (v == 0 || v == 1)
    requires TermAdded(before, after, Term(w, shift, |start|), v, |start|)
    ensures PatternAdded(start, after, w, shift + 1)
  {
    forall k | 0 <= k < |start|
      ensures BitColumn(after[k]) && |after[k]| == |start[k]| + Pattern(w, k, |start|, shift + 1)
    {
      assert BitColumn(before[k]);
    }
  }

  /** Add all eight bits of one biased input, weighted by its coefficient. */
  method AddProduct(start: seq<Column>, w: int, z: nat) returns (columns: seq<Column>)
    requires z < 256 && BitColumns(start)
    ensures PatternAdded(start, columns, w, 8)
    ensures Cong(Value(columns), Value(start) + w * z, Pow2(|start|))
  {
    ghost var bits, m := |start|, Pow2(|start|);
    columns := start;
    CongIntro(Value(start), Value(start) + w * 0, m, 0);
    for shift := 0 to 8
      invariant PatternAdded(start, columns, w, shift)
      invariant Cong(Value(columns), Value(start) + w * BitsValue(z, shift), m)
    {
      var before := columns;
      columns := AddTerm(before, Term(w, shift, |start|), Bit(z, shift));
      PatternStep(start, before, columns, w, shift, Bit(z, shift));
      TermStep(Value(before), Value(columns), Value(start), w, z, shift, bits);
    }
    BitsValueExact(z, 8);
  }

  lemma TermStep(before: int, after: int, base: int, w: int, z: nat, shift: nat, bits: nat)
    requires Cong(before, base + w * BitsValue(z, shift), Pow2(bits))
    requires after == before + Term(w, shift, bits) * Bit(z, shift)
    ensures Cong(after, base + w * BitsValue(z, shift + 1), Pow2(bits))
  {
    var m, v, s := Pow2(bits), Bit(z, shift), Pow2(shift);
    CongMod(w * s, m);
    CongScale(v, Term(w, shift, bits), w * s, m);
    CongAdd(before, base + w * BitsValue(z, shift), v * Term(w, shift, bits), v * (w * s), m);
    assert v * (w * s) == w * (v * s);
    assert w * BitsValue(z, shift) + w * (v * s) == w * (BitsValue(z, shift) + v * s);
  }

  function Height(w: seq<int>, bit: nat, bits: nat): nat {
    if w == [] then 0 else Height(w[..|w| - 1], bit, bits) + Pattern(w[|w| - 1], bit, bits, 8)
  }

  /** The dot product with the inputs shifted into 0..255. */
  function BiasedDot(w: seq<int>, x: seq<int>): int
    requires |w| == |x|
  {
    if w == [] then 0 else BiasedDot(w[..|w| - 1], x[..|x| - 1]) + w[|w| - 1] * (x[|x| - 1] + 128)
  }

  method Fill(w: seq<int>, x: seq<int>, bits: nat) returns (columns: seq<Column>)
    requires |w| == |x| && AllSignedBytes(x)
    ensures |columns| == bits && BitColumns(columns)
    ensures forall k | 0 <= k < bits :: |columns[k]| == Height(w, k, bits)
    ensures Cong(Value(columns), BiasedDot(w, x), Pow2(bits))
  {
    columns := seq(bits, _ => []);
    EmptyValue(columns);
    CongIntro(0, 0, Pow2(bits), 0);
    for i := 0 to |w|
      invariant |columns| == bits && BitColumns(columns)
      invariant forall k | 0 <= k < bits :: |columns[k]| == Height(w[..i], k, bits)
      invariant Cong(Value(columns), BiasedDot(w[..i], x[..i]), Pow2(bits))
    {
      var before := columns;
      columns := AddProduct(before, w[i], x[i] + 128);
      assert w[..i + 1][..i] == w[..i] && x[..i + 1][..i] == x[..i];
      CongIntro(w[i] * (x[i] + 128), w[i] * (x[i] + 128), Pow2(bits), 0);
      CongAdd(Value(before), BiasedDot(w[..i], x[..i]), w[i] * (x[i] + 128), w[i] * (x[i] + 128), Pow2(bits));
      CongTrans(Value(columns), Value(before) + w[i] * (x[i] + 128), BiasedDot(w[..i + 1], x[..i + 1]), Pow2(bits));
    }
    assert w[..|w|] == w && x[..|x|] == x;
  }

  lemma {:induction false} EmptyValue(columns: seq<Column>)
    requires forall k | 0 <= k < |columns| :: columns[k] == []
    ensures Value(columns) == 0
  {
    if columns != [] {
      EmptyValue(columns[1..]);
    }
  }

  // ----- 3:2 compression

  function Xor(a: int, b: int): int {
    if a == b then 0 else 1
  }

  function And(a: int, b: int): int {
    if a == 1 && b == 1 then 1 else 0
  }

  function Carry(a: int, b: int, c: int): int {
    Xor(And(a, b), And(c, Xor(a, b)))
  }

  /** A full adder keeps the weighted sum of its three bits. */
  lemma FullAdder(a: int, b: int, c: int)
    requires (a == 0 || a == 1) && (b == 0 || b == 1) && (c == 0 || c == 1)
    ensures a + b + c == Xor(Xor(a, b), c) + 2 * Carry(a, b, c)
  {
  }

  /** The column after one compression: the last three bits give way to their sum bit. */
  function Compressed(col: Column): (r: Column)
    requires |col| > 2
    ensures |r| == |col| - 2
  {
    var n := |col|;
    col[..n - 3] + [Xor(Xor(col[n - 1], col[n - 2]), col[n - 3])]
  }

  function CarryOut(col: Column): int
    requires |col| > 2
  {
    var n := |col|;
    Carry(col[n - 1], col[n - 2], col[n - 3])
  }

  /** One compression in column `bit`, with the carry to the next column if there is one. */
  function Compress(columns: seq<Column>, bit: nat): (r: seq<Column>)
    requires bit < |columns| && |columns[bit]| > 2
    ensures |r| == |columns| && |r[bit]| == |columns[bit]| - 2
    ensures bit + 1 < |columns| ==> |r[bit + 1]| == |columns[bit + 1]| + 1
    ensures forall k | 0 <= k < |columns| && k != bit && k != bit + 1 :: r[k] == columns[k]
  {
    var kept := columns[bit := Compressed(columns[bit])];
    if bit + 1 < |columns| then kept[bit + 1 := columns[bit + 1] + [CarryOut(columns[bit])]] else kept
  }

  lemma SumThree(head: Column, c: int, b: int, a: int)
    ensures Sum(head + [c] + [b] + [a]) == Sum(head) + c + b + a
  {
    SumAppend(head, c);
    SumAppend(head + [c], b);
    SumAppend(head + [c] + [b], a);
  }

  lemma FullAdderSum(head: Column, c: int, b: int, a: int)
    requires (a == 0 || a == 1) && (b == 0 || b == 1) && (c == 0 || c == 1)
    ensures Sum(head + [Xor(Xor(a, b), c)]) == Sum(head + [c] + [b] + [a]) - 2 * Carry(a, b, c)
  {
    FullAdder(a, b, c);
    SumAppend(head, Xor(Xor(a, b), c));
    SumThree(head, c, b, a);
  }

  lemma LastThree(col: Column)
    requires |col| > 2
    ensures var n := |col|; col == col[..n - 3] + [col[n - 3]] + [col[n - 2]] + [col[n - 1]]
  {
  }

  lemma CompressedSum(col: Column)
    requires BitColumn(col) && |col| > 2
    ensures Sum(Compressed(col)) == Sum(col) - 2 * CarryOut(col)
  {
    var n := |col|;
    var head, c, b, a := col[..n - 3], col[n - 3], col[n - 2], col[n - 1];
    LastThree(col);
    FullAdderSum(head, c, b, a);
    assert Compressed(col) == head + [Xor(Xor(a, b), c)];
    assert CarryOut(col) == Carry(a, b, c);
  }

  lemma AppendValue(columns: seq<Column>, k: nat, v: int)
    requires k < |columns|
    ensures Value(columns[k := columns[k] + [v]]) == Value(columns) + Pow2(k) * v
  {
    SumAppend(columns[k], v);
    ValueUpdate(columns, k, columns[k] + [v]);
  }

  lemma CompressedValue(columns: seq<Column>, bit: nat)
    requires bit < |columns| && |columns[bit]| > 2 && BitColumn(columns[bit])
    ensures Value(columns[bit := Compressed(columns[bit])])
            == Value(columns) - Pow2(bit + 1) * CarryOut(columns[bit])
  {
    CompressedSum(columns[bit]);
    ValueUpdate(columns, bit, Compressed(columns[bit]));
    ShiftedCarry(bit, CarryOut(columns[bit]));
  }

  lemma CompressBits(columns: seq<Column>, bit: nat)
    requires bit < |columns| && |columns[bit]| > 2 && BitColumns(columns)
    ensures BitColumns(Compress(columns, bit))
  {
    assert BitColumn(columns[bit]);
    forall k | 0 <= k < |columns| ensures BitColumn(Compress(columns, bit)[k]) {
      assert BitColumn(columns[k]);
    }
  }

  lemma ShiftedCarry(bit: nat, carry: int)
    ensures Pow2(bit) * (2 * carry) == Pow2(bit + 1) * carry
    ensures Pow2(bit) * -(2 * carry) == -(Pow2(bit) * (2 * carry))
  {
  }

  /** Compression keeps the heap's value modulo 2 to the number of columns. */
  lemma CompressValue(columns: seq<Column>, bit: nat)
    requires bit < |columns| && |columns[bit]| > 2 && BitColumns(columns)
    ensures Cong(Value(Compress(columns, bit)), Value(columns), Pow2(|columns|))
  {
    var carry := CarryOut(columns[bit]);
    var kept := columns[bit := Compressed(columns[bit])];
    CompressedValue(columns, bit);
    if bit + 1 < |columns| {
      AppendValue(kept, bit + 1, carry);
    }
    CarryKeptOrLost(Value(columns), Value(kept), Value(Compress(columns, bit)), bit, |columns|, carry);
  }

  /** A carry either moves to the next column or is a multiple of the modulus. */
  lemma CarryKeptOrLost(before: int, kept: int, after: int, bit: nat, size: nat, carry: int)
    requires bit < size && kept == before - Pow2(bit + 1) * carry
    requires after == if bit + 1 < size then kept + Pow2(bit + 1) * carry else kept
    ensures Cong(after, before, Pow2(size))
  {
    if bit + 1 < size {
      CongIntro(after, before, Pow2(size), 0);
    } else {
      assert after - before == Pow2(size) * -carry;
      CongIntro(after, before, Pow2(size), -carry);
    }
  }

  // ----- The cost model

  /** Full adders needed to bring a column of height `h` down to two bits. */
  function Counters(h: nat): (c: nat)
    ensures h <= 2 ==> c == 0
    ensures h > 2 ==> 1 <= h - 2 * c <= 2
  {
    var c := (h - 1) / 2;
    if c > 0 then c else 0
  }

  function Ripple(heights: seq<nat>, bit: nat): (r: seq<nat>)
    requires bit < |heights|
    ensures |r| == |heights| && r[bit] <= 2
  {
    var c := Counters(heights[bit]);
    var low := heights[bit := heights[bit] - 2 * c];
    if bit + 1 < |heights| then low[bit + 1 := heights[bit + 1] + c] else low
  }

  /** Total full adders of the reduction that starts at column `bit`. */
  ghost function Adders(heights: seq<nat>, bit: nat): nat
    requires bit <= |heights|
    decreases |heights| - bit
  {
    if bit == |heights| then 0 else Counters(heights[bit]) + Adders(Ripple(heights, bit), bit + 1)
  }

  function Constant(w: seq<int>, bits: nat): (c: nat)
    ensures c < Pow2(bits)
  {
    (-128 * Sum(w)) % Pow2(bits)
  }

  /** Column heights of a row before reduction: its patterns and the bias constant. */
  ghost function StartHeights(w: seq<int>, bits: nat): seq<nat> {
    seq(bits, k requires 0 <= k < bits => Height(w, k, bits) + Bit(Constant(w, bits), k))
  }

  /** Heights of the heap while the constant's bits from `bit` on are still to come. */
  ghost function PendingHeights(columns: seq<Column>, constant: nat, bit: nat): seq<nat> {
    seq(|columns|, k requires 0 <= k < |columns| => |columns[k]| + if k >= bit then Bit(constant, k) else 0)
  }

  // ----- The evaluator

  method CompressColumn(start: seq<Column>, bit: nat) returns (columns: seq<Column>, count: nat)
    requires bit < |start| && BitColumns(start)
    ensures count == Counters(|start[bit]|)
    ensures |columns| == |start| && BitColumns(columns) && |columns[bit]| == |start[bit]| - 2 * count <= 2
    ensures bit + 1 < |start| ==> |columns[bit + 1]| == |start[bit + 1]| + count
    ensures forall k | 0 <= k < |start| && k != bit && k != bit + 1 :: columns[k] == start[k]
    ensures Cong(Value(columns), Value(start), Pow2(|start|))
  {
    columns, count := start, 0;
    CongIntro(Value(start), Value(start), Pow2(|start|), 0);
    while |columns[bit]| > 2
      invariant |columns| == |start| && BitColumns(columns)
      invariant |columns[bit]| == |start[bit]| - 2 * count
      invariant count > 0 ==> |columns[bit]| >= 1
      invariant bit + 1 < |start| ==> |columns[bit + 1]| == |start[bit + 1]| + count
      invariant forall k | 0 <= k < |start| && k != bit && k != bit + 1 :: columns[k] == start[k]
      invariant Cong(Value(columns), Value(start), Pow2(|start|))
      decreases |columns[bit]|
    {
      CompressBits(columns, bit);
      CompressValue(columns, bit);
      CongTrans(Value(Compress(columns, bit)), Value(columns), Value(start), Pow2(|start|));
      columns := Compress(columns, bit);
      count := count + 1;
    }
  }

  method AddConstantBit(start: seq<Column>, constant: nat, bit: nat) returns (columns: seq<Column>)
    requires bit < |start| && BitColumns(start)
    ensures |columns| == |start| && BitColumns(columns)
    ensures |columns[bit]| == |start[bit]| + Bit(constant, bit)
    ensures forall k | 0 <= k < |start| && k != bit :: columns[k] == start[k]
    ensures Value(columns) == Value(start) + Bit(constant, bit) * Pow2(bit)
  {
    columns := start;
    if Bit(constant, bit) == 1 {
      assert BitColumn(start[bit]);
      AppendValue(start, bit, 1);
      columns := start[bit := start[bit] + [1]];
    }
  }

  lemma PendingRipple(start: seq<Column>, columns: seq<Column>, constant: nat, bit: nat, count: nat)
    requires |columns| == |start| && bit < |start|
    requires count == Counters(|start[bit]| + Bit(constant, bit))
    requires |columns[bit]| == |start[bit]| + Bit(constant, bit) - 2 * count
    requires bit + 1 < |start| ==> |columns[bit + 1]| == |start[bit + 1]| + count
    requires forall k | 0 <= k < |start| && k != bit && k != bit + 1 :: |columns[k]| == |start[k]|
    ensures count + Adders(PendingHeights(columns, constant, bit + 1), bit + 1)
            == Adders(PendingHeights(start, constant, bit), bit)
  {
    var before, after := PendingHeights(start, constant, bit), PendingHeights(columns, constant, bit + 1);
    assert before[bit] == |start[bit]| + Bit(constant, bit);
    assert after == Ripple(before, bit);
  }

  lemma OwedStep(start: int, grown: int, columns: int, constant: nat, bit: nat, target: int, m: int)
    requires m > 0 && Cong(start - BitsValue(constant, bit), target, m)
    requires grown == start + Bit(constant, bit) * Pow2(bit) && Cong(columns, grown, m)
    ensures Cong(columns - BitsValue(constant, bit + 1), target, m)
  {
    var owed: int := BitsValue(constant, bit + 1);
    CongIntro(-owed, -owed, m, 0);
    CongAdd(columns, grown, -owed, -owed, m);
    CongTrans(columns - owed, grown - owed, target, m);
  }

  /** One column of the main loop, with the heap value and the cost it still owes. */
  method ReduceColumn(start: seq<Column>, constant: nat, bit: nat, ghost target: int)
    returns (columns: seq<Column>, count: nat)
    requires bit < |start| && BitColumns(start)
    requires Cong(Value(start) - BitsValue(constant, bit), target, Pow2(|start|))
    ensures |columns| == |start| && BitColumns(columns) && |columns[bit]| <= 2
    ensures forall k | 0 <= k < bit :: |columns[k]| == |start[k]|
    ensures Cong(Value(columns) - BitsValue(constant, bit + 1), target, Pow2(|start|))
    ensures count + Adders(PendingHeights(columns, constant, bit + 1), bit + 1)
            == Adders(PendingHeights(start, constant, bit), bit)
  {
    var grown := AddConstantBit(start, constant, bit);
    columns, count := CompressColumn(grown, bit);
    PendingRipple(start, columns, constant, bit, count);
    OwedStep(Value(start), Value(grown), Value(columns), constant, bit, target, Pow2(|start|));
  }

  /** What the main loop keeps: flat columns behind it, the value, and the cost of what is ahead. */
  ghost predicate ReducedTo(columns: seq<Column>, constant: nat, bit: nat, target: int, owed: int) {
    && bit <= |columns| && BitColumns(columns)
    && (forall k | 0 <= k < bit :: |columns[k]| <= 2)
    && Cong(Value(columns) - BitsValue(constant, bit), target, Pow2(|columns|))
    && Adders(PendingHeights(columns, constant, bit), bit) == owed
  }

  method ReduceStep(start: seq<Column>, constant: nat, bit: nat, ghost target: int, ghost owed: int)
    returns (columns: seq<Column>, count: nat)
    requires bit < |start| && ReducedTo(start, constant, bit, target, owed)
    ensures |columns| == |start| && ReducedTo(columns, constant, bit + 1, target, owed - count)
  {
    columns, count := ReduceColumn(start, constant, bit, target);
  }

  method ReduceAll(start: seq<Column>, constant: nat, ghost target: int) returns (columns: seq<Column>, adders: nat)
    requires BitColumns(start) && Cong(Value(start), target, Pow2(|start|)) && constant < Pow2(|start|)
    ensures |columns| == |start| && forall k | 0 <= k < |start| :: |columns[k]| <= 2
    ensures Cong(Value(columns) - constant, target, Pow2(|start|))
    ensures adders == Adders(PendingHeights(start, constant, 0), 0)
  {
    columns, adders := start, 0;
    ghost var total := Adders(PendingHeights(start, constant, 0), 0);
    assert ReducedTo(start, constant, 0, target, total);
    for bit := 0 to |start|
      invariant |columns| == |start| && ReducedTo(columns, constant, bit, target, total - adders)
    {
      var count;
      columns, count := ReduceStep(columns, constant, bit, target, total - adders);
      adders := adders + count;
    }
    BitsValueExact(constant, |start|);
  }

  /** The evaluator's value, the number of compressions it performs, and the final heap. */
  method Evaluate(w: seq<int>, x: seq<int>, bits: nat) returns (r: nat, adders: nat, columns: seq<Column>)
    requires |w| == |x| && AllSignedBytes(x)
    ensures r == Dot(w, x) % Pow2(bits)
    ensures adders == Adders(StartHeights(w, bits), 0)
    ensures |columns| == bits && forall k | 0 <= k < bits :: |columns[k]| <= 2
  {
    var filled := Fill(w, x, bits);
    assert PendingHeights(filled, Constant(w, bits), 0) == StartHeights(w, bits);
    columns, adders := ReduceAll(filled, Constant(w, bits), BiasedDot(w, x));
    UnbiasedResult(w, x, bits, Value(columns));
    r := Value(columns) % Pow2(bits);
  }

  lemma {:induction false} BiasRemoved(w: seq<int>, x: seq<int>)
    requires |w| == |x|
    ensures BiasedDot(w, x) == Dot(w, x) + 128 * Sum(w)
  {
    if w != [] {
      var n := |w| - 1;
      BiasRemoved(w[..n], x[..n]);
      DotSnoc(w[..n], w[n], x[..n], x[n]);
      SumAppend(w[..n], w[n]);
      assert w == w[..n] + [w[n]] && x == x[..n] + [x[n]];
    }
  }

  lemma UnbiasedResult(w: seq<int>, x: seq<int>, bits: nat, value: int)
    requires |w| == |x|
    requires Cong(value - Constant(w, bits), BiasedDot(w, x), Pow2(bits))
    ensures value % Pow2(bits) == Dot(w, x) % Pow2(bits)
  {
    var m, c := Pow2(bits), Constant(w, bits);
    CongMod(-128 * Sum(w), m);
    CongAdd(value - c, BiasedDot(w, x), c, -128 * Sum(w), m);
    BiasRemoved(w, x);
    CongIffMod(value, Dot(w, x), m);
  }

  datatype HeapError = Unaligned | Unbounded

  /** `wallace_evaluate` with its input checks, and the work and final heap behind a returned value. */
  method WallaceEvaluate(w: seq<int>, x: seq<int>, bits: int)
    returns (r: Result<nat, HeapError>, adders: nat, columns: seq<Column>)
    requires AllSignedBytes(w) && AllSignedBytes(x)
    ensures r == Failure(Unaligned) <==> |w| != |x|
    ensures r == Failure(Unbounded) <==> |w| == |x| && !(|w| <= 64 && 8 <= bits <= 32)
    ensures r.Success? ==> r.value == Dot(w, x) % Pow2(bits)
    ensures r.Success? ==> adders == Adders(StartHeights(w, bits), 0)
    ensures r.Success? ==> |columns| == bits && forall k | 0 <= k < bits :: |columns[k]| <= 2
  {
    if |w| != |x| {
      return Failure(Unaligned), 0, [];
    }
    if |w| > 64 || !(8 <= bits <= 32) {
      return Failure(Unbounded), 0, [];
    }
    var value;
    value, adders, columns := Evaluate(w, x, bits);
    r := Success(value);
  }

  // ----- The counter

  /** One bin of `np.bincount(row + 128)`. */
  function Count(row: seq<int>, v: int): nat {
    if row == [] then 0 else Count(row[..|row| - 1], v) + if row[|row| - 1] == v then 1 else 0
  }

  /** One entry of `hist @ patterns`, over the first `bins` values from -128 up. */
  function HistogramHeight(row: seq<int>, bit: nat, bits: nat, bins: nat): nat {
    if bins == 0 then 0
    else HistogramHeight(row, bit, bits, bins - 1) + Count(row, bins - 129) * Pattern(bins - 129, bit, bits, 8)
  }

  lemma {:induction false} HistogramAppend(row: seq<int>, v: int, bit: nat, bits: nat, bins: nat)
    requires -128 <= v
    ensures HistogramHeight(row + [v], bit, bits, bins) ==
            HistogramHeight(row, bit, bits, bins) + if v + 128 < bins then Pattern(v, bit, bits, 8) else 0
    decreases bins
  {
    if bins > 0 {
      HistogramAppend(row, v, bit, bits, bins - 1);
      var u := bins - 129;
      assert (row + [v])[..|row|] == row;
      var p := Pattern(u, bit, bits, 8);
      assert (Count(row, u) + 1) * p == Count(row, u) * p + p;
    }
  }

  lemma {:induction false} HistogramEmpty(bit: nat, bits: nat, bins: nat)
    ensures HistogramHeight([], bit, bits, bins) == 0
  {
    if bins > 0 {
      HistogramEmpty(bit, bits, bins - 1);
      assert 0 * Pattern(bins - 129, bit, bits, 8) == 0;
    }
  }

  /** Weighting the pattern table by the histogram gives the height of the filled column. */
  lemma {:induction false} HistogramHeightIsHeight(row: seq<int>, bit: nat, bits: nat)
    requires AllSignedBytes(row)
    ensures HistogramHeight(row, bit, bits, 256) == Height(row, bit, bits)
  {
    if row == [] {
      HistogramEmpty(bit, bits, 256);
    } else {
      var n := |row| - 1;
      HistogramHeightIsHeight(row[..n], bit, bits);
      HistogramAppend(row[..n], row[n], bit, bits, 256);
      assert row == row[..n] + [row[n]];
    }
  }

  /** The full-adder count of one row, and its column heights after the reduction. */
  method CountRow(row: seq<int>, bits: nat) returns (adders: nat, heights: seq<nat>)
    requires AllSignedBytes(row)
    ensures adders == Adders(StartHeights(row, bits), 0)
    ensures |heights| == bits && forall k | 0 <= k < bits :: heights[k] <= 2
  {
    heights := seq(bits, k requires 0 <= k < bits =>
      HistogramHeight(row, k, bits, 256) + Bit(Constant(row, bits), k));
    forall k | 0 <= k < bits ensures heights[k] == StartHeights(row, bits)[k] {
      HistogramHeightIsHeight(row, k, bits);
    }
    assert heights == StartHeights(row, bits);
    adders := 0;
    for bit := 0 to bits
      invariant |heights| == bits
      invariant forall k | 0 <= k < bit :: heights[k] <= 2
      invariant adders + Adders(heights, bit) == Adders(StartHeights(row, bits), 0)
    {
      adders := adders + Counters(heights[bit]);
      heights := Ripple(heights, bit);
    }
  }

  /** `wallace_counts`: AND gates and full adders per row; Failure is the raised ValueError. */
  method WallaceCounts(weights: seq<seq<int>>, columns: nat, bits: int)
    returns (r: Result<(seq<nat>, seq<nat>), HeapError>)
    requires ByteMatrix(weights, columns)
    ensures r.Success? <==> 0 < |weights| * columns <= 64_000_000 && 8 <= bits <= 32
    ensures r.Success? ==> |r.value.0| == |r.value.1| == |weights|
    ensures r.Success? ==> forall i | 0 <= i < |weights| ::
      r.value.1[i] == Adders(StartHeights(weights[i], bits), 0) && r.value.0[i] == 2 * (r.value.1[i] + bits)
  {
    if !(0 < |weights| * columns <= 64_000_000) || !(8 <= bits <= 32) {
      return Failure(Unbounded);
    }
    var gates, counts := CountRows(weights, columns, bits);
    return Success((gates, counts));
  }

  method CountRows(weights: seq<seq<int>>, columns: nat, bits: nat) returns (gates: seq<nat>, counts: seq<nat>)
    requires ByteMatrix(weights, columns)
    ensures |gates| == |counts| == |weights|
    ensures forall i | 0 <= i < |weights| ::
      counts[i] == Adders(StartHeights(weights[i], bits), 0) && gates[i] == 2 * (counts[i] + bits)
  {
    gates, counts := [], [];
    for i := 0 to |weights|
      invariant |gates| == |counts| == i
      invariant forall j | 0 <= j < i ::
                  counts[j] == Adders(StartHeights(weights[j], bits), 0) && gates[j] == 2 * (counts[j] + bits)
    {
      var adders, heights := CountRow(weights[i], bits);
      counts := counts + [adders];
      gates := gates + [2 * (adders + bits)];
    }
  }
}
