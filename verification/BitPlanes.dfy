/**
 `transform`: the reversible bit-plane codec. Bytes are optionally zigzag-coded,
 their bits are transposed into eight planes that straddle byte boundaries, and
 the inverse undoes both, for every mode and every admissible frame.
 */
module BitPlanes {
  import opened Wrappers
  import opened Modular
  import opened Sequences
  import opened RadixCodec

  const FRAME_LIMIT := 0x10_0000

  datatype Mode = Zlib1 | Bitplanes | ZigzagBitplanes

  predicate Bytes(s: seq<int>) {
    Digits(s, 256)
  }

  // ----- Zigzag

  /** `x ^ mask` for a mask of all zeros (0) or all ones (-1). */
  function XorMask(x: int, mask: int): int {
    if mask == -1 then -x - 1 else x
  }

  /** `(i << 1) ^ (i >> 7)` on the byte read as signed, stored as unsigned. */
  function Zigzag(v: int): (z: int)
    requires 0 <= v < 256
    ensures 0 <= z < 256
  {
    var i := if v < 128 then v else v - 256;
    XorMask(2 * i, if i < 0 then -1 else 0)
  }

  /** `(u >> 1) ^ -(u & 1)`, truncated to a byte. */
  function Unzigzag(u: int): (v: int)
    requires 0 <= u < 256
    ensures 0 <= v < 256
  {
    XorMask(u / 2, -(u % 2)) % 256
  }

  lemma ZigzagBijective(v: int)
    requires 0 <= v < 256
    ensures Unzigzag(Zigzag(v)) == v && Zigzag(Unzigzag(v)) == v
  {
    if v % 2 == 0 {
      assert Unzigzag(v) == v / 2;
    } else {
      assert Unzigzag(v) == 255 - v / 2;
    }
    if v < 128 {
      assert Zigzag(v) == 2 * v;
    } else {
      assert Zigzag(v) == 2 * (255 - v) + 1;
    }
  }

  function ZigzagAll(s: seq<int>): (r: seq<int>)
    requires Bytes(s)
    ensures |r| == |s| && Bytes(r)
  {
    seq(|s|, i requires 0 <= i < |s| => Zigzag(s[i]))
  }

  function UnzigzagAll(s: seq<int>): (r: seq<int>)
    requires Bytes(s)
    ensures |r| == |s| && Bytes(r)
  {
    seq(|s|, i requires 0 <= i < |s| => Unzigzag(s[i]))
  }

  lemma ZigzagAllBijective(s: seq<int>)
    requires Bytes(s)
    ensures UnzigzagAll(ZigzagAll(s)) == s && ZigzagAll(UnzigzagAll(s)) == s
  {
    forall i | 0 <= i < |s| ensures Unzigzag(Zigzag(s[i])) == s[i] && Zigzag(Unzigzag(s[i])) == s[i] {
      ZigzagBijective(s[i]);
    }
  }

  // ----- Bits of bytes, most significant first

  function ByteBits(v: nat): (bits: seq<int>)
    ensures |bits| == 8 && Digits(bits, 2)
  {
    Reverse(ToDigits(v, 2, 8))
  }

  function BitsByte(bits: seq<int>): (v: nat)
    requires |bits| == 8 && Digits(bits, 2)
  {
    FromDigits(Reverse(bits), 2)
  }

  lemma ByteBitsRoundTrip(v: nat)
    requires v < 256
    ensures BitsByte(ByteBits(v)) == v
  {
    assert Reverse(ByteBits(v)) == ToDigits(v, 2, 8);
    TwoToEight();
    NumberOfDigits(v, 2, 8);
  }

  lemma BitsByteRoundTrip(bits: seq<int>)
    requires |bits| == 8 && Digits(bits, 2)
    ensures ByteBits(BitsByte(bits)) == bits && BitsByte(bits) < 256
  {
    DigitsOfNumber(Reverse(bits), 2);
    FromDigitsBound(Reverse(bits), 2);
    TwoToEight();
    assert Reverse(Reverse(bits)) == bits;
  }

  lemma TwoToEight()
    ensures Power(2, 8) == 256
  {
    assert Power(2, 4) == 16;
    assert Power(2, 8) == 2 * (2 * (2 * (2 * Power(2, 4))));
  }

  /** Concatenation of `n` rows of eight. */
  function Join(n: nat, rows: nat --> seq<int>): (r: seq<int>)
    requires forall i: nat | i < n :: rows.requires(i) && |rows(i)| == 8
    ensures |r| == 8 * n
  {
    seq(8 * n, t requires 0 <= t < 8 * n => rows(t / 8)[t % 8])
  }

  lemma JoinedRow(n: nat, rows: nat --> seq<int>, i: nat)
    requires forall j: nat | j < n :: rows.requires(j) && |rows(j)| == 8
    requires i < n
    ensures Join(n, rows)[8 * i..8 * i + 8] == rows(i)
  {
    var part := Join(n, rows)[8 * i..8 * i + 8];
    forall k | 0 <= k < 8 ensures part[k] == rows(i)[k] {
      assert (8 * i + k) / 8 == i && (8 * i + k) % 8 == k;
    }
  }

  lemma JoinIs(n: nat, rows: nat --> seq<int>, bits: seq<int>)
    requires |bits| == 8 * n && forall i: nat | i < n :: rows.requires(i) && rows(i) == bits[8 * i..8 * i + 8]
    ensures Join(n, rows) == bits
  {
    forall t | 0 <= t < 8 * n ensures Join(n, rows)[t] == bits[t] {
      var i := t / 8;
      assert rows(i) == bits[8 * i..8 * i + 8];
    }
  }

  function ByteRows(s: seq<int>): (rows: nat --> seq<int>)
    requires Bytes(s)
    ensures forall i: nat | i < |s| :: rows.requires(i) && rows(i) == ByteBits(s[i])
  {
    (i: nat) requires i < |s| && 0 <= s[i] => ByteBits(s[i])
  }

  /** `np.unpackbits`. */
  function UnpackBits(s: seq<int>): (bits: seq<int>)
    requires Bytes(s)
    ensures |bits| == 8 * |s| && Digits(bits, 2)
  {
    Join(|s|, ByteRows(s))
  }

  /** `np.packbits` of whole bytes. */
  function PackBits(bits: seq<int>): (s: seq<int>)
    requires Digits(bits, 2) && |bits| % 8 == 0
    ensures |s| == |bits| / 8 && Bytes(s)
  {
    assert forall i | 0 <= i < |bits| / 8 :: BitsByte(bits[8 * i..8 * i + 8]) < 256 by {
      forall i | 0 <= i < |bits| / 8 ensures BitsByte(bits[8 * i..8 * i + 8]) < 256 {
        BitsByteRoundTrip(bits[8 * i..8 * i + 8]);
      }
    }
    seq(|bits| / 8, i requires 0 <= i < |bits| / 8 => BitsByte(bits[8 * i..8 * i + 8]))
  }

  lemma UnpackedRow(s: seq<int>, i: nat)
    requires Bytes(s) && i < |s|
    ensures UnpackBits(s)[8 * i..8 * i + 8] == ByteBits(s[i])
  {
    JoinedRow(|s|, ByteRows(s), i);
  }

  lemma PackedByte(bits: seq<int>, i: nat, v: nat)
    requires Digits(bits, 2) && |bits| % 8 == 0 && i < |bits| / 8
    requires v < 256 && bits[8 * i..8 * i + 8] == ByteBits(v)
    ensures PackBits(bits)[i] == v
  {
    ByteBitsRoundTrip(v);
  }

  lemma PackUnpackBits(s: seq<int>)
    requires Bytes(s)
    ensures PackBits(UnpackBits(s)) == s
  {
    var bits := UnpackBits(s);
    forall i: nat | i < |s| ensures PackBits(bits)[i] == s[i] {
      UnpackedRow(s, i);
      PackedByte(bits, i, s[i]);
    }
  }

  lemma UnpackPackBits(bits: seq<int>)
    requires Digits(bits, 2) && |bits| % 8 == 0
    ensures UnpackBits(PackBits(bits)) == bits
  {
    var s := PackBits(bits);
    forall i: nat | i < |s| ensures ByteRows(s)(i) == bits[8 * i..8 * i + 8] {
      PackedRow(bits, i);
    }
    JoinIs(|s|, ByteRows(s), bits);
  }

  lemma PackedRow(bits: seq<int>, i: nat)
    requires Digits(bits, 2) && |bits| % 8 == 0 && i < |bits| / 8
    ensures ByteBits(PackBits(bits)[i]) == bits[8 * i..8 * i + 8]
  {
    BitsByteRoundTrip(bits[8 * i..8 * i + 8]);
  }

  // ----- Planes

  lemma QuotientBelow(t: nat, n: nat, q: nat)
    requires n > 0 && t < q * n
    ensures t / n < q
  {
    var k := t / n;
    assert t == n * k + t % n;
    assert k - q >= 0 ==> n * (k - q) >= 0;
    assert n * k == n * q + n * (k - q);
  }

  /** Where position t of the planes comes from: bit t / n of byte t % n. */
  function PlaneSource(t: nat, n: nat): (u: nat)
    requires n > 0 && t < 8 * n
    ensures u < 8 * n && u / 8 == t % n && u % 8 == t / n
  {
    QuotientBelow(t, n, 8);
    var i, k := t % n, t / n;
    i * 8 + k
  }

  /** Where bit t % 8 of byte t / 8 is found in the planes. */
  function RowSource(t: nat, n: nat): (u: nat)
    requires n > 0 && t < 8 * n
    ensures u < 8 * n && u / n == t % 8 && u % n == t / 8
  {
    var i, k := t / 8, t % 8;
    QuotientUnique(k * n + i, n, k, i);
    assert k * n <= 7 * n;
    k * n + i
  }

  lemma SourcesInverse(t: nat, n: nat)
    requires n > 0 && t < 8 * n
    ensures PlaneSource(RowSource(t, n), n) == t && RowSource(PlaneSource(t, n), n) == t
  {
    var u := PlaneSource(RowSource(t, n), n);
    assert u == u / 8 * 8 + u % 8 && t == t / 8 * 8 + t % 8;
    SameQuotientAndRemainder(RowSource(PlaneSource(t, n), n), t, n);
  }

  lemma SameQuotientAndRemainder(a: nat, b: nat, n: nat)
    requires n > 0 && a / n == b / n && a % n == b % n
    ensures a == b
  {
    assert a == n * (a / n) + a % n;
    assert b == n * (b / n) + b % n;
  }

  /** Bit k of byte i goes to position k * n + i. */
  function ToPlanes(bits: seq<int>, n: nat): (r: seq<int>)
    requires n > 0 && |bits| == 8 * n && Digits(bits, 2)
    ensures |r| == |bits| && Digits(r, 2)
  {
    seq(8 * n, t requires 0 <= t < 8 * n => bits[PlaneSource(t, n)])
  }

  function FromPlanes(bits: seq<int>, n: nat): (r: seq<int>)
    requires n > 0 && |bits| == 8 * n && Digits(bits, 2)
    ensures |r| == |bits| && Digits(r, 2)
  {
    seq(8 * n, t requires 0 <= t < 8 * n => bits[RowSource(t, n)])
  }

  /** Transposing there and back is the identity, both ways. */
  lemma TransposeBijective(bits: seq<int>, n: nat)
    requires n > 0 && |bits| == 8 * n && Digits(bits, 2)
    ensures FromPlanes(ToPlanes(bits, n), n) == bits && ToPlanes(FromPlanes(bits, n), n) == bits
  {
    forall t | 0 <= t < 8 * n
      ensures FromPlanes(ToPlanes(bits, n), n)[t] == bits[t] && ToPlanes(FromPlanes(bits, n), n)[t] == bits[t]
    {
      SourcesInverse(t, n);
    }
  }

  // ----- The codec

  /** The bytes that the forward direction transposes. */
  function CodedAll(raw: seq<int>, mode: Mode): (r: seq<int>)
    requires Bytes(raw)
    ensures |r| == |raw| && Bytes(r)
  {
    if mode.ZigzagBitplanes? then ZigzagAll(raw) else raw
  }

  function Forward(raw: seq<int>, mode: Mode): (r: seq<int>)
    requires raw != [] && Bytes(raw)
    ensures |r| == |raw| && Bytes(r)
  {
    if mode.Zlib1? then raw
    else
      PackBits(ToPlanes(UnpackBits(CodedAll(raw, mode)), |raw|))
  }

  function Backward(raw: seq<int>, mode: Mode): (r: seq<int>)
    requires raw != [] && Bytes(raw)
    ensures |r| == |raw| && Bytes(r)
  {
    if mode.Zlib1? then raw
    else
      var value := PackBits(FromPlanes(UnpackBits(raw), |raw|));
      if mode.ZigzagBitplanes? then UnzigzagAll(value) else value
  }

  /** `transform`; None is the ValueError for an empty or overlarge frame. */
  function Transform(raw: seq<int>, mode: Mode, inverse: bool): (r: Option<seq<int>>)
    requires Bytes(raw)
    ensures r.Some? <==> 0 < |raw| <= FRAME_LIMIT
    ensures r.Some? ==> |r.value| == |raw| && Bytes(r.value)
  {
    if !(0 < |raw| <= FRAME_LIMIT) then None
    else Some(if inverse then Backward(raw, mode) else Forward(raw, mode))
  }

  lemma PlanesRoundTrip(s: seq<int>)
    requires s != [] && Bytes(s)
    ensures PackBits(FromPlanes(UnpackBits(PackBits(ToPlanes(UnpackBits(s), |s|))), |s|)) == s
    ensures PackBits(ToPlanes(UnpackBits(PackBits(FromPlanes(UnpackBits(s), |s|))), |s|)) == s
  {
    var bits := UnpackBits(s);
    UnpackPackBits(ToPlanes(bits, |s|));
    UnpackPackBits(FromPlanes(bits, |s|));
    TransposeBijective(bits, |s|);
    PackUnpackBits(s);
  }

  // ----- What is written

  /** `v >> j`. */
  function Halved(v: nat, j: nat): nat {
    if j == 0 then v else Halved(v / 2, j - 1)
  }

  /** Bit `k` of a byte, counted from the most significant. */
  function MsbBit(v: nat, k: nat): int
    requires k < 8
  {
    Halved(v, 7 - k) % 2
  }

  lemma {:induction false} DigitHalved(n: nat, count: nat, j: nat)
    requires j < count
    ensures ToDigits(n, 2, count)[j] == Halved(n, j) % 2
    decreases j
  {
    if j > 0 {
      DigitHalved(n / 2, count - 1, j - 1);
    }
  }

  lemma ByteBitsAt(v: nat, k: nat)
    requires k < 8
    ensures ByteBits(v)[k] == MsbBit(v, k)
  {
    DigitHalved(v, 8, 7 - k);
  }

  lemma SliceEntry(s: seq<int>, start: nat, part: seq<int>, k: nat)
    requires k < |part| && start + |part| <= |s| && s[start..start + |part|] == part
    ensures s[start + k] == part[k]
  {
    assert s[start..start + |part|][k] == s[start + k];
  }

  lemma PackedBit(bits: seq<int>, t: nat)
    requires Digits(bits, 2) && |bits| % 8 == 0 && t < |bits|
    ensures t / 8 < |bits| / 8 && MsbBit(PackBits(bits)[t / 8], t % 8) == bits[t]
  {
    var i := t / 8;
    PackedRow(bits, i);
    ByteBitsAt(PackBits(bits)[i], t % 8);
    SliceEntry(bits, 8 * i, ByteBits(PackBits(bits)[i]), t % 8);
  }

  lemma PlaneBit(bits: seq<int>, n: nat, i: nat, k: nat, t: nat)
    requires i < n && k < 8 && t == k * n + i && |bits| == 8 * n && Digits(bits, 2)
    ensures t < 8 * n && ToPlanes(bits, n)[t] == bits[8 * i + k]
  {
    assert (8 * i + k) / 8 == i && (8 * i + k) % 8 == k;
    assert RowSource(8 * i + k, n) == t;
    SourcesInverse(8 * i + k, n);
  }

  /** What the forward direction transposes: the byte, or twice its signed value, folded. */
  function Coded(v: int, mode: Mode): int {
    var s := if v < 128 then v else v - 256;
    if !mode.ZigzagBitplanes? then v else if s >= 0 then 2 * s else -2 * s - 1
  }

  /**
   What the encoder writes: bit t = k * n + i of the output, most significant first, is bit k
   of the i-th byte, zigzag-coded if the mode says so.
   */
  lemma EncodedBits(raw: seq<int>, mode: Mode, i: nat, k: nat, t: nat)
    requires Bytes(raw) && 0 < |raw| <= FRAME_LIMIT && !mode.Zlib1?
    requires i < |raw| && k < 8 && t == k * |raw| + i
    ensures 0 <= Coded(raw[i], mode) < 256 && t / 8 < |raw| && Transform(raw, mode, false).Some?
    ensures MsbBit(Transform(raw, mode, false).value[t / 8], t % 8) == MsbBit(Coded(raw[i], mode), k)
  {
    CodedAt(raw, mode, i);
    TransformIs(raw, mode);
    CodedBits(CodedAll(raw, mode), i, k, t);
  }

  lemma CodedAt(raw: seq<int>, mode: Mode, i: nat)
    requires Bytes(raw) && i < |raw|
    ensures CodedAll(raw, mode)[i] == Coded(raw[i], mode)
  {
  }

  lemma TransformIs(raw: seq<int>, mode: Mode)
    requires Bytes(raw) && 0 < |raw| <= FRAME_LIMIT && !mode.Zlib1?
    ensures Transform(raw, mode, false) == Some(PackBits(ToPlanes(UnpackBits(CodedAll(raw, mode)), |raw|)))
  {
  }

  lemma CodedBits(value: seq<int>, i: nat, k: nat, t: nat)
    requires Bytes(value) && i < |value| && k < 8 && t == k * |value| + i
    ensures t / 8 < |value|
    ensures MsbBit(PackBits(ToPlanes(UnpackBits(value), |value|))[t / 8], t % 8) == MsbBit(value[i], k)
  {
    UnpackedRow(value, i);
    ByteBitsAt(value[i], k);
    TransposedBit(UnpackBits(value), |value|, i, k, t, ByteBits(value[i]));
  }

  /** Entry `k` of row `i` is found at position k * n + i of the packed planes. */
  lemma TransposedBit(bits: seq<int>, n: nat, i: nat, k: nat, t: nat, row: seq<int>)
    requires i < n && k < |row| == 8 && t == k * n + i && |bits| == 8 * n && Digits(bits, 2)
    requires bits[8 * i..8 * i + 8] == row
    ensures t / 8 < n && MsbBit(PackBits(ToPlanes(bits, n))[t / 8], t % 8) == row[k]
  {
    PlaneBit(bits, n, i, k, t);
    PackedBit(ToPlanes(bits, n), t);
    SliceEntry(bits, 8 * i, row, k);
  }

  /** The plain mode leaves the frame alone, in both directions. */
  lemma PlainModeKeeps(raw: seq<int>, inverse: bool)
    requires Bytes(raw) && 0 < |raw| <= FRAME_LIMIT
    ensures Transform(raw, Zlib1, inverse) == Some(raw)
  {
  }

  /** Each direction undoes the other, for every mode and every nonempty frame within the limit. */
  lemma TransformRoundTrip(raw: seq<int>, mode: Mode, inverse: bool)
    requires Bytes(raw) && 0 < |raw| <= FRAME_LIMIT
    ensures Transform(raw, mode, inverse).Some?
    ensures Transform(Transform(raw, mode, inverse).value, mode, !inverse) == Some(raw)
  {
    if !mode.Zlib1? {
      if inverse {
        var value := PackBits(FromPlanes(UnpackBits(raw), |raw|));
        ZigzagAllBijective(value);
        PlanesRoundTrip(raw);
      } else {
        PlanesRoundTrip(CodedAll(raw, mode));
        ZigzagAllBijective(raw);
      }
    }
  }
}
