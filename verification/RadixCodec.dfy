/**
 The blocked radix codec: sixteen residues modulo m become one number, written
 in the fewest whole bytes that hold every such number. Packing and unpacking
 are inverse to each other, in both directions.
 */
module RadixCodec {
  import opened Wrappers
  import opened Modular
  import opened Bits
  import opened BlockedCodec

  function Power(base: nat, k: nat): nat {
    if k == 0 then 1 else base * Power(base, k - 1)
  }

  lemma {:induction false} PowerPositive(base: nat, k: nat)
    requires base > 0
    ensures Power(base, k) > 0
  {
    if k > 0 {
      PowerPositive(base, k - 1);
      assert base * Power(base, k - 1) > 0;
    }
  }

  // ----- Positional notation, least significant digit first

  predicate Digits(ds: seq<int>, base: nat) {
    forall i | 0 <= i < |ds| :: 0 <= ds[i] < base
  }

  function FromDigits(ds: seq<int>, base: nat): (n: nat)
    requires Digits(ds, base)
  {
    if ds == [] then 0 else ds[0] + base * FromDigits(ds[1..], base)
  }

  function ToDigits(n: nat, base: nat, count: nat): (ds: seq<int>)
    requires base > 0
    ensures |ds| == count && Digits(ds, base)
    decreases count
  {
    if count == 0 then [] else [Remainder(n, base)] + ToDigits(Quotient(n, base), base, count - 1)
  }

  lemma HornerBound(d: nat, t: nat, p: nat, base: nat)
    requires d < base && t < p
    ensures d + base * t < base * p
  {
    assert base * p == base * (t + 1) + base * (p - t - 1);
  }

  lemma QuotientBound(q: nat, p: nat, base: nat, n: nat)
    requires base * q <= n < base * p
    ensures q < p
  {
    assert base * q == base * p + base * (q - p);
    assert q >= p ==> base * (q - p) >= 0;
  }

  lemma {:induction false} FromDigitsBound(ds: seq<int>, base: nat)
    requires base > 0 && Digits(ds, base)
    ensures FromDigits(ds, base) < Power(base, |ds|)
  {
    if ds != [] {
      FromDigitsBound(ds[1..], base);
      HornerBound(ds[0], FromDigits(ds[1..], base), Power(base, |ds| - 1), base);
    }
  }

  /** Reading back written digits. */
  lemma {:induction false} DigitsOfNumber(ds: seq<int>, base: nat)
    requires base > 0 && Digits(ds, base)
    ensures ToDigits(FromDigits(ds, base), base, |ds|) == ds
  {
    if ds != [] {
      DigitsOfNumber(ds[1..], base);
      QuotientUnique(FromDigits(ds, base), base, FromDigits(ds[1..], base), ds[0]);
    }
  }

  /** Writing back read digits, for numbers that fit. */
  lemma {:induction false} NumberOfDigits(n: nat, base: nat, count: nat)
    requires base > 0 && n < Power(base, count)
    ensures FromDigits(ToDigits(n, base, count), base) == n
    decreases count
  {
    if count > 0 {
      var q, r := Quotient(n, base), Remainder(n, base);
      QuotientBound(q, Power(base, count - 1), base, n);
      NumberOfDigits(q, base, count - 1);
      assert ToDigits(n, base, count)[1..] == ToDigits(q, base, count - 1);
    }
  }

  /** Digit `i` is the quotient by the i-th power, modulo the base. */
  lemma {:induction false} DigitAt(n: nat, base: nat, count: nat, i: nat)
    requires base > 0 && i < count
    ensures Power(base, i) > 0 && ToDigits(n, base, count)[i] == n / Power(base, i) % base
    decreases count
  {
    PowerPositive(base, i);
    if i > 0 {
      var q := Quotient(n, base);
      DigitAt(q, base, count - 1, i - 1);
      DivideTwice(n, base, Power(base, i - 1));
    }
  }

  /** The positional value: digit `i` weighs the i-th power of the base. */
  function Positional(ds: seq<int>, base: nat): int {
    if ds == [] then 0
    else
      var n := |ds| - 1;
      Positional(ds[..n], base) + ds[n] * Power(base, n)
  }

  lemma HornerSnoc(h: int, base: int, rest: int, d: int, p: int)
    ensures h + base * (rest + d * p) == h + base * rest + d * (base * p)
  {
    MulDistribute(base, rest, d * p);
    MulAssoc(base, d, p);
    MulAssoc(d, base, p);
    assert base * d == d * base;
  }

  lemma {:induction false} FromDigitsSnoc(ds: seq<int>, d: int, base: nat)
    requires base > 0 && Digits(ds, base) && 0 <= d < base
    ensures Digits(ds + [d], base) && FromDigits(ds + [d], base) == FromDigits(ds, base) + d * Power(base, |ds|)
  {
    if ds != [] {
      FromDigitsSnoc(ds[1..], d, base);
      assert (ds + [d])[1..] == ds[1..] + [d];
      HornerSnoc(ds[0], base, FromDigits(ds[1..], base), d, Power(base, |ds| - 1));
    } else {
      assert [d][1..] == [] && ds + [d] == [d];
    }
  }

  lemma {:induction false} FromDigitsPositional(ds: seq<int>, base: nat)
    requires base > 0 && Digits(ds, base)
    ensures FromDigits(ds, base) == Positional(ds, base)
  {
    if ds != [] {
      var n := |ds| - 1;
      FromDigitsPositional(ds[..n], base);
      FromDigitsSnoc(ds[..n], ds[n], base);
      assert ds == ds[..n] + [ds[n]];
    }
  }

  // ----- Block sizes

  /** Whole bytes that hold every number below modulus to the `count`. */
  function BlockBytes(modulus: nat, count: nat): nat
    requires modulus >= 2
  {
    PowerPositive(modulus, count);
    (BitLength(Power(modulus, count) - 1) + 7) / 8
  }

  lemma {:induction false} BytePower(k: nat)
    ensures Power(256, k) == Pow2(8 * k)
  {
    if k > 0 {
      BytePower(k - 1);
      Pow2Add(8, 8 * (k - 1));
      assert Pow2(8) == 256;
    }
  }

  lemma BlockFits(modulus: nat, count: nat)
    requires modulus >= 2
    ensures Power(modulus, count) <= Power(256, BlockBytes(modulus, count))
  {
    PowerPositive(modulus, count);
    var n := Power(modulus, count) - 1;
    BitLengthBounds(n);
    var size := BlockBytes(modulus, count);
    Pow2Monotone(BitLength(n), 8 * size);
    BytePower(size);
  }

  /** One byte less would not hold them all. */
  lemma BlockLeast(modulus: nat, count: nat)
    requires modulus >= 2 && BlockBytes(modulus, count) > 0
    ensures Power(256, BlockBytes(modulus, count) - 1) < Power(modulus, count)
  {
    PowerPositive(modulus, count);
    var n, size := Power(modulus, count) - 1, BlockBytes(modulus, count);
    BitLengthBounds(n);
    Pow2Monotone(8 * (size - 1), BitLength(n) - 1);
    BytePower(size - 1);
  }

  predicate Admitted(count: int, modulus: int) {
    1 <= count <= 4_000_000 && 2 <= modulus <= 0x1_0000_0000
  }

  /** `radix_size`: full blocks and a short tail. */
  function RadixSize(count: nat, modulus: nat): nat
    requires modulus >= 2
  {
    FullBytes(count / BLOCK, BlockBytes(modulus, BLOCK))
    + if count % BLOCK > 0 then BlockBytes(modulus, count % BLOCK) else 0
  }

  function FullBytes(blocks: nat, size: nat): nat {
    blocks * size
  }

  // ----- One block

  function PackBlock(block: seq<int>, modulus: nat): (bytes: seq<int>)
    requires modulus >= 2 && Digits(block, modulus)
    ensures |bytes| == BlockBytes(modulus, |block|) && Digits(bytes, 256)
  {
    ToDigits(FromDigits(block, modulus), 256, BlockBytes(modulus, |block|))
  }

  function UnpackBlock(bytes: seq<int>, count: nat, modulus: nat): (r: Option<seq<int>>)
    requires modulus >= 2 && Digits(bytes, 256)
    ensures r.Some? ==> |r.value| == count && Digits(r.value, modulus)
  {
    var word := FromDigits(bytes, 256);
    if word >= Power(modulus, count) then None else Some(ToDigits(word, modulus, count))
  }

  lemma BlockRoundTrip(block: seq<int>, modulus: nat)
    requires modulus >= 2 && Digits(block, modulus)
    ensures UnpackBlock(PackBlock(block, modulus), |block|, modulus) == Some(block)
  {
    FromDigitsBound(block, modulus);
    BlockFits(modulus, |block|);
    NumberOfDigits(FromDigits(block, modulus), 256, BlockBytes(modulus, |block|));
    DigitsOfNumber(block, modulus);
  }

  /** Byte `j` of a block: the residues are little-endian digits of the word, and so are the bytes. */
  lemma PackedByte(block: seq<int>, modulus: nat, j: nat)
    requires modulus >= 2 && Digits(block, modulus) && j < BlockBytes(modulus, |block|)
    ensures Positional(block, modulus) >= 0 && Power(256, j) > 0
    ensures PackBlock(block, modulus)[j] == Positional(block, modulus) / Power(256, j) % 256
  {
    FromDigitsPositional(block, modulus);
    DigitAt(FromDigits(block, modulus), 256, BlockBytes(modulus, |block|), j);
  }

  lemma BlockCanonical(bytes: seq<int>, count: nat, modulus: nat)
    requires modulus >= 2 && Digits(bytes, 256) && |bytes| == BlockBytes(modulus, count)
    requires UnpackBlock(bytes, count, modulus).Some?
    ensures PackBlock(UnpackBlock(bytes, count, modulus).value, modulus) == bytes
  {
    NumberOfDigits(FromDigits(bytes, 256), modulus, count);
    DigitsOfNumber(bytes, 256);
  }

  // ----- The blocked codec of one modulus

  /** The block codec; outside residues and bytes it is never used. */
  function Radix(modulus: nat): Codec
    requires modulus >= 2
  {
    Codec(k => BlockBytes(modulus, k),
          b => if Digits(b, modulus) then PackBlock(b, modulus) else [],
          (p, k: nat) => if Digits(p, 256) then UnpackBlock(p, k, modulus) else None)
  }

  function Residue(modulus: nat): int -> bool {
    v => 0 <= v < modulus
  }

  lemma AllResidues(s: seq<int>, modulus: nat)
    ensures All(s, Residue(modulus)) <==> Digits(s, modulus)
  {
  }

  lemma RadixLossless(modulus: nat)
    requires modulus >= 2
    ensures Lossless(Radix(modulus), Residue(modulus), Residue(256))
  {
    var c := Radix(modulus);
    forall b | |b| <= BLOCK && All(b, Residue(modulus))
      ensures |c.enc(b)| == c.size(|b|) && All(c.enc(b), Residue(256)) && c.dec(c.enc(b), |b|) == Some(b)
    {
      AllResidues(b, modulus);
      AllResidues(c.enc(b), 256);
      BlockRoundTrip(b, modulus);
    }
  }

  lemma RadixCanonical(modulus: nat)
    requires modulus >= 2
    ensures CanonicalBlocks(Radix(modulus), Residue(modulus), Residue(256))
  {
    var c := Radix(modulus);
    forall p, k: nat | k <= BLOCK && |p| == c.size(k) && All(p, Residue(256)) && c.dec(p, k).Some?
      ensures var b := c.dec(p, k).value; |b| == k && All(b, Residue(modulus)) && c.enc(b) == p
    {
      AllResidues(p, 256);
      BlockCanonical(p, k, modulus);
      AllResidues(c.dec(p, k).value, modulus);
    }
  }

  lemma {:induction false} RadixSizeIsSize(count: nat, modulus: nat)
    requires modulus >= 2
    ensures RadixSize(count, modulus) == Size(Radix(modulus), count)
  {
    if count >= BLOCK {
      RadixSizeIsSize(count - BLOCK, modulus);
      FullBlockSplit(count, BlockBytes(modulus, BLOCK));
    }
  }

  lemma FullBlockSplit(count: nat, b: nat)
    requires count >= BLOCK
    ensures (count - BLOCK) % BLOCK == count % BLOCK
    ensures FullBytes(count / BLOCK, b) == FullBytes((count - BLOCK) / BLOCK, b) + b
  {
    var q := count / BLOCK;
    assert (count - BLOCK) / BLOCK == q - 1;
    MulDistribute(b, q - 1, 1);
    assert q * b == b * q && (q - 1) * b == b * (q - 1);
  }

  /** Unpacking a packed vector returns it, for every residue vector and modulus. */
  lemma RadixRoundTrip(values: seq<int>, modulus: nat)
    requires modulus >= 2 && Digits(values, modulus)
    ensures |Pack(Radix(modulus), values)| == RadixSize(|values|, modulus) == Size(Radix(modulus), |values|)
    ensures Unpack(Radix(modulus), Pack(Radix(modulus), values), |values|) == Some(values)
  {
    AllResidues(values, modulus);
    RadixLossless(modulus);
    RadixSizeIsSize(|values|, modulus);
    PackThenUnpack(Radix(modulus), Residue(modulus), Residue(256), values);
  }

  /** Every accepted payload is canonical: packing what it unpacks to gives it back. */
  lemma RadixAcceptsOnlyCanonical(payload: seq<int>, count: nat, modulus: nat)
    requires modulus >= 2 && Digits(payload, 256) && |payload| == Size(Radix(modulus), count)
    requires Unpack(Radix(modulus), payload, count).Some?
    ensures var values := Unpack(Radix(modulus), payload, count).value;
            |values| == count && Digits(values, modulus) && Pack(Radix(modulus), values) == payload
  {
    AllResidues(payload, 256);
    RadixCanonical(modulus);
    UnpackThenPack(Radix(modulus), Residue(modulus), Residue(256), payload, count);
    AllResidues(Unpack(Radix(modulus), payload, count).value, modulus);
  }

  lemma {:induction false} FullSizeIsProduct(modulus: nat, q: nat)
    requires modulus >= 2
    ensures FullSize(Radix(modulus), q) == FullBytes(q, BlockBytes(modulus, BLOCK))
  {
    var size := BlockBytes(modulus, BLOCK);
    if q > 0 {
      FullSizeIsProduct(modulus, q - 1);
      MulDistribute(size, q - 1, 1);
      assert q * size == size * q && (q - 1) * size == size * (q - 1);
    } else {
      assert 0 * size == 0;
    }
  }

  /** Every packed byte: block `q` follows the full blocks before it, and holds its bytes in order. */
  lemma RadixPackedByte(values: seq<int>, modulus: nat, q: nat, j: nat)
    requires modulus >= 2 && Digits(values, modulus) && BLOCK * q < |values|
    requires j < BlockBytes(modulus, Min(BLOCK, |values| - BLOCK * q))
    ensures var block, offset := BlockOf(values, q), FullSize(Radix(modulus), q);
            && Positional(block, modulus) >= 0 && Power(256, j) > 0
            && offset + j < |Pack(Radix(modulus), values)|
            && Pack(Radix(modulus), values)[offset + j] == Positional(block, modulus) / Power(256, j) % 256
  {
    var block := BlockOf(values, q);
    BlockStands(values, modulus, q);
    PackedByte(block, modulus, j);
    SliceEntry(Pack(Radix(modulus), values), FullSize(Radix(modulus), q), PackBlock(block, modulus), j);
  }

  lemma SliceEntry(s: seq<int>, offset: nat, part: seq<int>, j: nat)
    requires Stands(s, offset, part) && j < |part|
    ensures offset + j < |s| && s[offset + j] == part[j]
  {
    assert s[offset..offset + |part|][j] == s[offset + j];
  }

  lemma BlockDigitsKept(values: seq<int>, modulus: nat, q: nat)
    requires Digits(values, modulus) && BLOCK * q < |values|
    ensures Digits(BlockOf(values, q), modulus)
  {
  }

  /** Block `q` of the packed bytes is the packing of block `q`. */
  lemma BlockStands(values: seq<int>, modulus: nat, q: nat)
    requires modulus >= 2 && Digits(values, modulus) && BLOCK * q < |values|
    ensures Digits(BlockOf(values, q), modulus)
    ensures Stands(Pack(Radix(modulus), values), FullSize(Radix(modulus), q), PackBlock(BlockOf(values, q), modulus))
  {
    AllResidues(values, modulus);
    RadixLossless(modulus);
    BlockDigitsKept(values, modulus, q);
    EncoderIsPackBlock(BlockOf(values, q), modulus);
    PackedBlockAt(Radix(modulus), Residue(modulus), Residue(256), values, q);
  }

  // ----- The codec as the source runs it

  /** The inner loop of packing: Horner's rule from the last residue down. */
  method BlockWord(block: seq<int>, modulus: nat) returns (word: nat)
    requires modulus >= 2 && Digits(block, modulus)
    ensures word == FromDigits(block, modulus)
  {
    word := 0;
    var i := |block|;
    while i > 0
      invariant 0 <= i <= |block|
      invariant word == FromDigits(block[i..], modulus)
    {
      i := i - 1;
      assert block[i..][1..] == block[i + 1..];
      word := word * modulus + block[i];
    }
    assert block[0..] == block;
  }

  method EncodeBlock(block: seq<int>, modulus: nat) returns (bytes: seq<int>)
    requires modulus >= 2 && Digits(block, modulus)
    ensures bytes == PackBlock(block, modulus)
  {
    var word := BlockWord(block, modulus);
    bytes := ToDigits(word, 256, BlockBytes(modulus, |block|));
  }

  /** The inner loop of unpacking: repeated division. */
  method BlockDigits(start: nat, count: nat, modulus: nat) returns (ds: seq<int>)
    requires modulus >= 2
    ensures ds == ToDigits(start, modulus, count)
  {
    ds := [];
    var word: nat := start;
    for i := 0 to count
      invariant |ds| == i && ds + ToDigits(word, modulus, count - i) == ToDigits(start, modulus, count)
    {
      var quotient, residue := Quotient(word, modulus), Remainder(word, modulus);
      assert ds + ToDigits(word, modulus, count - i) == (ds + [residue]) + ToDigits(quotient, modulus, count - i - 1);
      ds := ds + [residue];
      word := quotient;
    }
  }

  method DecodeBlock(bytes: seq<int>, length: nat, modulus: nat) returns (r: Option<seq<int>>)
    requires modulus >= 2 && Digits(bytes, 256)
    ensures r == UnpackBlock(bytes, length, modulus)
  {
    var word := FromDigits(bytes, 256);
    if word >= Power(modulus, length) {
      return None;
    }
    var block := BlockDigits(word, length, modulus);
    return Some(block);
  }

  datatype RadixError = InvalidShape | NoncanonicalResidue | LengthDiffers | NoncanonicalPadding

  lemma EncoderIsPackBlock(block: seq<int>, modulus: nat)
    requires modulus >= 2 && Digits(block, modulus)
    ensures Radix(modulus).enc(block) == PackBlock(block, modulus)
  {
  }

  method PackValues(values: seq<int>, modulus: nat) returns (output: seq<int>)
    requires modulus >= 2 && Digits(values, modulus)
    ensures output == Pack(Radix(modulus), values)
  {
    output := [];
    ghost var c: Codec := Radix(modulus);
    var start := 0;
    assert values[0..] == values;
    while start < |values|
      invariant start <= |values|
      invariant output + Pack(c, values[start..]) == Pack(c, values)
    {
      var k := Min(BLOCK, |values| - start);
      var block := values[start..start + k];
      var bytes := EncodeBlock(block, modulus);
      EncoderIsPackBlock(block, modulus);
      PackStep(c, values, start, k, output);
      output := output + bytes;
      start := start + k;
    }
    assert output + [] == output;
  }

  method RadixPack(values: seq<int>, modulus: int) returns (r: Result<seq<int>, RadixError>)
    ensures r == Failure(InvalidShape) <==> !(1 <= |values| <= 4_000_000 && 2 <= modulus <= 0x1_0000_0000)
    ensures r == Failure(NoncanonicalResidue) <==> Admitted(|values|, modulus) && !Digits(values, modulus)
    ensures r.Success? ==> modulus >= 2 && Digits(values, modulus) && r.value == Pack(Radix(modulus), values)
    ensures r.Success? ==> |r.value| == RadixSize(|values|, modulus)
  {
    if !Admitted(|values|, modulus) {
      return Failure(InvalidShape);
    }
    if !Digits(values, modulus) {
      return Failure(NoncanonicalResidue);
    }
    var output := PackValues(values, modulus);
    RadixRoundTrip(values, modulus);
    return Success(output);
  }

  /** One pass of the unpacking loop, at byte `offset` with `count` residues to go. */
  method UnpackStep(payload: seq<int>, offset: nat, count: nat, modulus: nat, ghost output: seq<int>,
                    ghost whole: Option<seq<int>>)
    returns (block: Option<seq<int>>, next: nat)
    requires modulus >= 2 && Digits(payload, 256) && offset <= |payload| && count > 0
    requires Continues(Radix(modulus), payload[offset..], count, output, whole)
    ensures block.None? ==> whole.None?
    ensures block.Some? ==> next <= |payload|
    ensures block.Some? ==>
      Continues(Radix(modulus), payload[next..], count - Min(BLOCK, count), output + block.value, whole)
  {
    var length := Min(BLOCK, count);
    next := offset + BlockBytes(modulus, length);
    ghost var c, tail := Radix(modulus), payload[offset..];
    ContinuesStep(c, tail, count, output, whole);
    assert tail[..c.size(length)] == payload[offset..next] && tail[c.size(length)..] == payload[next..];
    block := DecodeBlock(payload[offset..next], length, modulus);
  }

  method UnpackPayload(payload: seq<int>, count: nat, modulus: nat) returns (r: Option<seq<int>>)
    requires modulus >= 2 && Digits(payload, 256) && |payload| == Size(Radix(modulus), count)
    ensures r == Unpack(Radix(modulus), payload, count)
  {
    var output: seq<int>, offset: nat, start := [], 0, 0;
    ghost var whole := Unpack(Radix(modulus), payload, count);
    assert payload[0..] == payload;
    assert whole.Some? ==> [] + whole.value == whole.value;
    while start < count
      invariant 0 <= start <= count && offset <= |payload|
      invariant Continues(Radix(modulus), payload[offset..], count - start, output, whole)
    {
      var block, next := UnpackStep(payload, offset, count - start, modulus, output, whole);
      if block.None? {
        return None;
      }
      output := output + block.value;
      offset := next;
      start := start + Min(BLOCK, count - start);
    }
    assert output + [] == output;
    return Some(output);
  }

  method RadixUnpack(payload: seq<int>, count: int, modulus: int) returns (r: Result<seq<int>, RadixError>)
    requires Digits(payload, 256)
    ensures r == Failure(InvalidShape) <==> !(1 <= count <= 4_000_000 && 2 <= modulus <= 0x1_0000_0000)
    ensures r == Failure(LengthDiffers) <==> Admitted(count, modulus) && |payload| != RadixSize(count, modulus)
    ensures r.Success? ==>
      && Admitted(count, modulus) && |payload| == Size(Radix(modulus), count)
      && Unpack(Radix(modulus), payload, count) == Some(r.value)
    ensures r == Failure(NoncanonicalPadding) ==>
      && Admitted(count, modulus) && |payload| == Size(Radix(modulus), count)
      && Unpack(Radix(modulus), payload, count) == None
  {
    if !Admitted(count, modulus) {
      return Failure(InvalidShape);
    }
    if |payload| != RadixSize(count, modulus) {
      return Failure(LengthDiffers);
    }
    RadixSizeIsSize(count, modulus);
    var values := UnpackPayload(payload, count, modulus);
    return if values.Some? then Success(values.value) else Failure(NoncanonicalPadding);
  }
}
