/**
 Codecs that split a sequence into blocks of sixteen and a shorter tail. If the
 block codec is lossless and canonical, so is the whole codec.
 */
module BlockedCodec {
  import opened Wrappers

  const BLOCK := 16

  /** Encoded size, encoder and decoder of one block; a decoder also takes the block's length. */
  datatype Codec = Codec(size: nat -> nat, enc: seq<int> -> seq<int>, dec: (seq<int>, nat) -> Option<seq<int>>)

  ghost predicate All(s: seq<int>, ok: int -> bool) {
    forall i | 0 <= i < |s| :: ok(s[i])
  }

  /** Every block of valid values has the announced size and decodes to itself. */
  ghost predicate Lossless(c: Codec, value: int -> bool, byte: int -> bool) {
    forall b | |b| <= BLOCK && All(b, value) ::
      |c.enc(b)| == c.size(|b|) && All(c.enc(b), byte) && c.dec(c.enc(b), |b|) == Some(b)
  }

  /** Every accepted block is the encoding of what it decodes to. */
  ghost predicate CanonicalBlocks(c: Codec, value: int -> bool, byte: int -> bool) {
    forall p, k: nat | k <= BLOCK && |p| == c.size(k) && All(p, byte) && c.dec(p, k).Some? ::
      var b := c.dec(p, k).value;
      |b| == k && All(b, value) && c.enc(b) == p
  }

  function Min(a: nat, b: nat): nat {
    if a < b then a else b
  }

  function Size(c: Codec, count: nat): nat {
    if count == 0 then 0 else c.size(Min(BLOCK, count)) + Size(c, count - Min(BLOCK, count))
  }

  function Pack(c: Codec, values: seq<int>): seq<int> {
    if values == [] then []
    else
      var k := Min(BLOCK, |values|);
      c.enc(values[..k]) + Pack(c, values[k..])
  }

  function Unpack(c: Codec, payload: seq<int>, count: nat): Option<seq<int>>
    requires |payload| == Size(c, count)
    decreases count
  {
    if count == 0 then Some([])
    else
      var k := Min(BLOCK, count);
      var size := c.size(k);
      var first, later := c.dec(payload[..size], k), Unpack(c, payload[size..], count - k);
      if first.None? || later.None? then None else Some(first.value + later.value)
  }

  lemma {:induction false} PackLength(c: Codec, value: int -> bool, byte: int -> bool, values: seq<int>)
    requires Lossless(c, value, byte) && All(values, value)
    ensures |Pack(c, values)| == Size(c, |values|) && All(Pack(c, values), byte)
    decreases |values|
  {
    if values != [] {
      var k := Min(BLOCK, |values|);
      PackLength(c, value, byte, values[k..]);
      assert All(values[..k], value);
    }
  }

  /** Unpacking a packed vector returns it. */
  lemma {:induction false} PackThenUnpack(c: Codec, value: int -> bool, byte: int -> bool, values: seq<int>)
    requires Lossless(c, value, byte) && All(values, value)
    ensures |Pack(c, values)| == Size(c, |values|) && Unpack(c, Pack(c, values), |values|) == Some(values)
    decreases |values|
  {
    PackLength(c, value, byte, values);
    if values != [] {
      var k := Min(BLOCK, |values|);
      var block, rest := values[..k], values[k..];
      assert All(block, value) && All(rest, value);
      PackThenUnpack(c, value, byte, rest);
      var payload, size := Pack(c, values), c.size(k);
      assert payload[..size] == c.enc(block) && payload[size..] == Pack(c, rest);
      assert values == block + rest;
    }
  }

  /** The q-th block of the values. */
  function BlockOf(values: seq<int>, q: nat): (b: seq<int>)
    requires BLOCK * q < |values|
    ensures |b| == Min(BLOCK, |values| - BLOCK * q)
  {
    values[BLOCK * q..BLOCK * q + Min(BLOCK, |values| - BLOCK * q)]
  }

  /** The size of `q` full blocks. */
  function FullSize(c: Codec, q: nat): nat {
    if q == 0 then 0 else c.size(BLOCK) + FullSize(c, q - 1)
  }

  lemma LaterBlock(values: seq<int>, q: nat)
    requires q > 0 && BLOCK * q < |values|
    ensures BlockOf(values, q) == BlockOf(values[BLOCK..], q - 1)
  {
  }

  lemma PackHead(c: Codec, value: int -> bool, byte: int -> bool, values: seq<int>)
    requires Lossless(c, value, byte) && All(values, value) && values != []
    ensures var k := Min(BLOCK, |values|);
            Pack(c, values) == c.enc(values[..k]) + Pack(c, values[k..]) && |c.enc(values[..k])| == c.size(k)
            && All(values[k..], value)
  {
    assert All(values[..Min(BLOCK, |values|)], value);
  }

  /** `part` stands in `s` from `offset` on. */
  ghost predicate Stands(s: seq<int>, offset: nat, part: seq<int>) {
    offset + |part| <= |s| && s[offset..offset + |part|] == part
  }

  lemma Shifted(head: seq<int>, tail: seq<int>, offset: nat, part: seq<int>)
    requires Stands(tail, offset, part)
    ensures Stands(head + tail, |head| + offset, part)
  {
  }

  /** The encoding of block `q` stands after those of the full blocks before it. */
  lemma {:induction false} PackedBlockAt(c: Codec, value: int -> bool, byte: int -> bool, values: seq<int>, q: nat)
    requires Lossless(c, value, byte) && All(values, value) && BLOCK * q < |values|
    ensures Stands(Pack(c, values), FullSize(c, q), c.enc(BlockOf(values, q)))
    decreases q
  {
    PackHead(c, value, byte, values);
    if q == 0 {
      assert BlockOf(values, 0) == values[..Min(BLOCK, |values|)];
    } else {
      var rest := values[BLOCK..];
      LaterBlock(values, q);
      PackedBlockAt(c, value, byte, rest, q - 1);
      Shifted(c.enc(values[..BLOCK]), Pack(c, rest), FullSize(c, q - 1), c.enc(BlockOf(rest, q - 1)));
    }
  }

  lemma PackCons(c: Codec, block: seq<int>, rest: seq<int>)
    requires block != [] && |block| == Min(BLOCK, |block| + |rest|)
    ensures Pack(c, block + rest) == c.enc(block) + Pack(c, rest)
  {
    var values := block + rest;
    assert values[..|block|] == block && values[|block|..] == rest;
  }

  lemma CanonicalBlock(c: Codec, value: int -> bool, byte: int -> bool, payload: seq<int>, size: nat, k: nat)
    requires CanonicalBlocks(c, value, byte) && All(payload, byte) && k <= BLOCK
    requires size == c.size(k) <= |payload| && c.dec(payload[..size], k).Some?
    ensures var b := c.dec(payload[..size], k).value;
            |b| == k && All(b, value) && c.enc(b) == payload[..size]
  {
    assert All(payload[..size], byte);
  }

  lemma AllConcat(s: seq<int>, t: seq<int>, ok: int -> bool)
    requires All(s, ok) && All(t, ok)
    ensures All(s + t, ok)
  {
  }

  lemma UnpackParts(c: Codec, payload: seq<int>, count: nat)
    requires count > 0 && |payload| == Size(c, count) && Unpack(c, payload, count).Some?
    ensures var k, size := Min(BLOCK, count), c.size(Min(BLOCK, count));
            && size <= |payload| && |payload[size..]| == Size(c, count - k)
            && c.dec(payload[..size], k).Some? && Unpack(c, payload[size..], count - k).Some?
            && Unpack(c, payload, count).value ==
               c.dec(payload[..size], k).value + Unpack(c, payload[size..], count - k).value
  {
  }

  /** An accepted payload is the packing of what it unpacks to: no two payloads mean the same. */
  lemma {:induction false} UnpackThenPack(c: Codec, value: int -> bool, byte: int -> bool, payload: seq<int>,
                                          count: nat)
    requires CanonicalBlocks(c, value, byte) && All(payload, byte)
    requires |payload| == Size(c, count) && Unpack(c, payload, count).Some?
    ensures var values := Unpack(c, payload, count).value;
            |values| == count && All(values, value) && Pack(c, values) == payload
    decreases count
  {
    if count > 0 {
      var k := Min(BLOCK, count);
      var size := c.size(k);
      UnpackParts(c, payload, count);
      CanonicalBlock(c, value, byte, payload, size, k);
      assert All(payload[size..], byte);
      UnpackThenPack(c, value, byte, payload[size..], count - k);
      var block, rest := c.dec(payload[..size], k).value, Unpack(c, payload[size..], count - k).value;
      PackCons(c, block, rest);
      AllConcat(block, rest, value);
      assert payload == payload[..size] + payload[size..];
    }
  }

  lemma PackStep(c: Codec, values: seq<int>, start: nat, k: nat, output: seq<int>)
    requires start < |values| && k == Min(BLOCK, |values| - start)
    ensures output + Pack(c, values[start..])
            == (output + c.enc(values[start..start + k])) + Pack(c, values[start + k..])
  {
    var tail := values[start..];
    assert tail[..k] == values[start..start + k] && tail[k..] == values[start + k..];
  }

  /** What is left to unpack, appended to the output so far, gives the whole result. */
  ghost predicate Continues(c: Codec, tail: seq<int>, count: nat, output: seq<int>, whole: Option<seq<int>>) {
    && |tail| == Size(c, count)
    && match Unpack(c, tail, count)
       case None => whole.None?
       case Some(rest) => whole == Some(output + rest)
  }

  lemma ContinuesStep(c: Codec, tail: seq<int>, count: nat, output: seq<int>, whole: Option<seq<int>>)
    requires count > 0 && Continues(c, tail, count, output, whole)
    ensures var k := Min(BLOCK, count);
            var size := c.size(k);
            && size <= |tail|
            && match c.dec(tail[..size], k)
               case None => whole.None?
               case Some(block) => Continues(c, tail[size..], count - k, output + block, whole)
  {
    var k := Min(BLOCK, count);
    var first, later := c.dec(tail[..c.size(k)], k), Unpack(c, tail[c.size(k)..], count - k);
    if first.Some? && later.Some? {
      assert output + (first.value + later.value) == (output + first.value) + later.value;
    }
  }
}
