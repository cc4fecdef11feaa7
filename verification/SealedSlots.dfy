/**
 `SealedSlots`: encrypted one-use slots. The class follows the source's object;
 the state machine carries the laws over every run. The cipher is a parameter
 that may fail, so an allocation whose encryption fails is covered.
 */
module SealedSlots {
  import opened Wrappers
  import opened RadixCodec
  import opened Sequences

  const MAX_SLOTS := 4096
  const MAX_BYTES := 0x80_0000
  const TAG := 16

  /** Authenticated encryption: nonce, text, associated data. None is a raised error. */
  datatype Aead = Aead(encrypt: (seq<int>, seq<int>, seq<int>) -> Option<seq<int>>,
                       decrypt: (seq<int>, seq<int>, seq<int>) -> Option<seq<int>>)

  /** Decryption inverts encryption, and a ciphertext is a tag longer than its text. */
  ghost predicate Correct(a: Aead) {
    forall n, d, ad | a.encrypt(n, d, ad).Some? ::
      && |a.encrypt(n, d, ad).value| == |d| + TAG
      && a.decrypt(n, a.encrypt(n, d, ad).value, ad) == Some(d)
  }

  // ----- Fixed-width integers

  /** `n.to_bytes(size, "big")`. */
  function BigEndian(n: nat, size: nat): (b: seq<int>)
    ensures |b| == size
  {
    Reverse(ToDigits(n, 256, size))
  }

  /** Byte `i` weighs the power of 256 that counts the bytes behind it. */
  lemma BigEndianAt(n: nat, size: nat, i: nat)
    requires i < size
    ensures Power(256, size - 1 - i) > 0 && BigEndian(n, size)[i] == n / Power(256, size - 1 - i) % 256
  {
    DigitAt(n, 256, size, size - 1 - i);
  }

  lemma BigEndianInjective(m: nat, n: nat, size: nat)
    requires m < Power(256, size) && n < Power(256, size) && BigEndian(m, size) == BigEndian(n, size)
    ensures m == n
  {
    assert Reverse(BigEndian(m, size)) == ToDigits(m, 256, size);
    assert Reverse(BigEndian(n, size)) == ToDigits(n, 256, size);
    NumberOfDigits(m, 256, size);
    NumberOfDigits(n, 256, size);
  }

  lemma {:induction false} ByteSpace(size: nat)
    requires size >= 2
    ensures Power(256, size) >= 65536
  {
    if size == 2 {
      assert Power(256, 2) == 256 * (256 * Power(256, 0));
    } else {
      ByteSpace(size - 1);
      assert 256 * Power(256, size - 1) >= Power(256, size - 1);
    }
  }

  function Nonce(index: nat): seq<int> {
    BigEndian(index, 12)
  }

  /** `struct.pack(">IQ", index, length)`. */
  function Header(index: nat, length: nat): (h: seq<int>)
    ensures |h| == 12
  {
    BigEndian(index, 4) + BigEndian(length, 8)
  }

  lemma NoncesDistinct(i: nat, j: nat)
    requires i < MAX_SLOTS && j < MAX_SLOTS && i != j
    ensures Nonce(i) != Nonce(j)
  {
    ByteSpace(12);
    if Nonce(i) == Nonce(j) {
      BigEndianInjective(i, j, 12);
    }
  }

  lemma HeadersDistinct(i: nat, j: nat, a: nat, b: nat)
    requires i < MAX_SLOTS && j < MAX_SLOTS && i != j
    ensures Header(i, a) != Header(j, b)
  {
    ByteSpace(4);
    if Header(i, a) == Header(j, b) {
      assert Header(i, a)[..4] == BigEndian(i, 4) && Header(j, b)[..4] == BigEndian(j, 4);
      BigEndianInjective(i, j, 4);
    }
  }

  // ----- The state machine

  datatype State = State(lengths: seq<nat>, burned: set<int>, closed: bool)

  datatype Operation = Seal(data: seq<int>) | Open(index: int, frame: seq<int>, consume: bool) | Close

  datatype Outcome = Returned(bytes: seq<int>) | Refused | Mismatch | CipherFailed | Done

  predicate CanSeal(s: State, data: seq<int>) {
    !s.closed && |s.lengths| < MAX_SLOTS && 0 < |data| <= MAX_BYTES
  }

  /** The checks before any state change or decryption: live owner, allocated and unconsumed slot. */
  predicate CanOpen(s: State, index: int) {
    !s.closed && 0 <= index < |s.lengths| && index !in s.burned
  }

  function Next(s: State, op: Operation): State {
    match op
    case Seal(data) => if CanSeal(s, data) then s.(lengths := s.lengths + [|data|]) else s
    case Open(index, _, consume) => if CanOpen(s, index) && consume then s.(burned := s.burned + {index}) else s
    case Close => s.(closed := true)
  }

  function Ciphered(r: Option<seq<int>>, prefix: seq<int>): Outcome {
    match r
    case None => CipherFailed
    case Some(b) => Returned(prefix + b)
  }

  function Reply(s: State, a: Aead, context: seq<int>, op: Operation): Outcome {
    match op
    case Seal(data) =>
      if !CanSeal(s, data) then Refused else SealedAs(a, context, |s.lengths|, data)
    case Open(index, frame, _) =>
      if !CanOpen(s, index) then Refused else OpenedAs(a, context, index, s.lengths[index], frame)
    case Close => Done
  }

  /** What sealing `data` in slot `index` returns. */
  function SealedAs(a: Aead, context: seq<int>, index: nat, data: seq<int>): Outcome {
    var header := Header(index, |data|);
    Ciphered(a.encrypt(Nonce(index), data, context + header), header)
  }

  /** What opening `frame` at slot `index`, allocated with `length` bytes, returns. */
  function OpenedAs(a: Aead, context: seq<int>, index: nat, length: nat, frame: seq<int>): Outcome {
    var header := Header(index, length);
    if |frame| != 12 + TAG + length || frame[..12] != header then Mismatch
    else Ciphered(a.decrypt(Nonce(index), frame[12..], context + header), [])
  }

  class Owner {
    const aead: Aead
    const context: seq<int>
    var lengths: seq<nat>
    var burned: set<int>
    var closed: bool

    function Abstract(): State
      reads this
    {
      State(lengths, burned, closed)
    }

    constructor (aead: Aead, context: seq<int>)
      ensures Abstract() == State([], {}, false) && this.aead == aead && this.context == context
    {
      this.aead := aead;
      this.context := context;
      lengths, burned, closed := [], {}, false;
    }

    method SealData(data: seq<int>) returns (r: Outcome)
      modifies this
      ensures r == Reply(old(Abstract()), aead, context, Seal(data))
      ensures Abstract() == Next(old(Abstract()), Seal(data))
      ensures burned == old(burned) && closed == old(closed)
      ensures r == Refused <==> old(closed) || |old(lengths)| >= 4096 || !(0 < |data| <= 0x80_0000)
      ensures lengths == if r == Refused then old(lengths) else old(lengths) + [|data|]
      ensures r != Refused ==>
        var index := |old(lengths)|;
        var header := BigEndian(index, 4) + BigEndian(|data|, 8);
        var sealed := aead.encrypt(BigEndian(index, 12), data, context + header);
        r == if sealed.Some? then Returned(header + sealed.value) else CipherFailed
    {
      if closed || |lengths| >= MAX_SLOTS || !(0 < |data| <= MAX_BYTES) {
        return Refused;
      }
      var index := |lengths|;
      lengths := lengths + [|data|];
      var header := Header(index, |data|);
      return Ciphered(aead.encrypt(Nonce(index), data, context + header), header);
    }

    method OpenFrame(index: int, frame: seq<int>, consume: bool) returns (r: Outcome)
      modifies this
      ensures r == Reply(old(Abstract()), aead, context, Open(index, frame, consume))
      ensures Abstract() == Next(old(Abstract()), Open(index, frame, consume))
      ensures lengths == old(lengths) && closed == old(closed)
      ensures r == Refused <==> old(closed) || !(0 <= index < |old(lengths)|) || index in old(burned)
      ensures burned == if r != Refused && consume then old(burned) + {index} else old(burned)
    {
      if closed || !(0 <= index < |lengths|) {
        return Refused;
      }
      if index in burned {
        return Refused;
      }
      if consume {
        burned := burned + {index};
      }
      var header := Header(index, lengths[index]);
      if |frame| != 28 + lengths[index] || frame[..12] != header {
        return Mismatch;
      }
      return Ciphered(aead.decrypt(Nonce(index), frame[12..], context + header), []);
    }

    method CloseOwner() returns (r: Outcome)
      modifies this
      ensures r == Reply(old(Abstract()), aead, context, Close)
      ensures Abstract() == Next(old(Abstract()), Close)
      ensures closed && lengths == old(lengths) && burned == old(burned)
    {
      closed := true;
      return Done;
    }
  }

  const MAX_CONTEXT := 4096

  /** The domain label that is hashed before the caller's context. */
  const LABEL := "pllm/client-offload-probe/v1\0"

  function LabelBytes(): (b: seq<int>)
    ensures |b| == |LABEL| && forall i | 0 <= i < |b| :: b[i] == LABEL[i] as int
  {
    seq(|LABEL|, i requires 0 <= i < |LABEL| => LABEL[i] as int)
  }

  /** Creating an owner: the context is bounded, and bound to the label by the digest. None is the ValueError. */
  method CreateOwner(aead: Aead, digest: seq<int> -> seq<int>, context: seq<int>) returns (r: Option<Owner>)
    ensures r.Some? <==> 1 <= |context| <= MAX_CONTEXT
    ensures r.Some? ==> fresh(r.value) && r.value.Abstract() == State([], {}, false)
    ensures r.Some? ==> r.value.aead == aead && r.value.context == digest(LabelBytes() + context)
  {
    if context == [] || |context| > MAX_CONTEXT {
      return None;
    }
    var owner := new Owner(aead, digest(LabelBytes() + context));
    return Some(owner);
  }

  // ----- Laws of every run

  function RunFrom(s: State, ops: seq<Operation>): State
    decreases |ops|
  {
    if ops == [] then s else RunFrom(Next(s, ops[0]), ops[1..])
  }

  /** The slots whose encryption was started, in order. */
  function SlotsUsed(s: State, ops: seq<Operation>): seq<nat>
    decreases |ops|
  {
    if ops == [] then []
    else (if ops[0].Seal? && CanSeal(s, ops[0].data) then [|s.lengths|] else []) + SlotsUsed(Next(s, ops[0]), ops[1..])
  }

  /** The nonces handed to the cipher; a failed encryption has used its nonce too. */
  function NoncesUsed(s: State, ops: seq<Operation>): seq<seq<int>> {
    var slots := SlotsUsed(s, ops);
    seq(|slots|, k requires 0 <= k < |slots| => Nonce(slots[k]))
  }

  lemma {:induction false} SlotsConsecutive(s: State, ops: seq<Operation>, k: nat)
    requires |s.lengths| <= MAX_SLOTS && k < |SlotsUsed(s, ops)|
    ensures SlotsUsed(s, ops)[k] == |s.lengths| + k < MAX_SLOTS
    decreases |ops|
  {
    if ops[0].Seal? && CanSeal(s, ops[0].data) {
      if k > 0 {
        SlotsConsecutive(Next(s, ops[0]), ops[1..], k - 1);
      }
    } else {
      SlotsConsecutive(Next(s, ops[0]), ops[1..], k);
    }
  }

  /** The k-th nonce of a run is the k-th slot number. */
  lemma NonceAt(ops: seq<Operation>, k: nat)
    requires k < |NoncesUsed(State([], {}, false), ops)|
    ensures k < MAX_SLOTS && NoncesUsed(State([], {}, false), ops)[k] == Nonce(k)
  {
    SlotsConsecutive(State([], {}, false), ops, k);
  }

  /** No nonce is used twice in any run (the rule of section 3.1 of RFC 5116). */
  lemma NonceNeverReused(ops: seq<Operation>, j: nat, k: nat)
    requires j < k < |NoncesUsed(State([], {}, false), ops)|
    ensures NoncesUsed(State([], {}, false), ops)[j] != NoncesUsed(State([], {}, false), ops)[k]
  {
    NonceAt(ops, j);
    NonceAt(ops, k);
    NoncesDistinct(j, k);
  }

  /** Slots, burned marks and closure are never taken back. */
  lemma {:induction false} RunMonotone(s: State, ops: seq<Operation>)
    ensures var t := RunFrom(s, ops); s.lengths <= t.lengths && s.burned <= t.burned && (s.closed ==> t.closed)
    decreases |ops|
  {
    if ops != [] {
      RunMonotone(Next(s, ops[0]), ops[1..]);
    }
  }

  /** After a consuming open that passed the checks, returned or failed, the slot can never be opened again. */
  lemma ConsumedSlotStaysShut(s: State, a: Aead, context: seq<int>, index: int, frame: seq<int>,
                              ops: seq<Operation>, later: seq<int>, consume: bool)
    requires CanOpen(s, index)
    ensures Reply(RunFrom(Next(s, Open(index, frame, true)), ops), a, context, Open(index, later, consume)) == Refused
  {
    RunMonotone(Next(s, Open(index, frame, true)), ops);
  }

  /** A closed owner refuses everything, for good. */
  lemma ClosedRefuses(s: State, a: Aead, context: seq<int>, ops: seq<Operation>,
                      data: seq<int>, index: int, frame: seq<int>, consume: bool)
    requires s.closed
    ensures Reply(RunFrom(s, ops), a, context, Seal(data)) == Refused
    ensures Reply(RunFrom(s, ops), a, context, Open(index, frame, consume)) == Refused
  {
    RunMonotone(s, ops);
  }

  /** An owner is closed exactly after a Close. */
  lemma {:induction false} ClosedIff(s: State, ops: seq<Operation>)
    ensures RunFrom(s, ops).closed <==> s.closed || exists i :: 0 <= i < |ops| && ops[i].Close?
    decreases |ops|
  {
    if ops != [] {
      ClosedIff(Next(s, ops[0]), ops[1..]);
      assert forall i | 0 <= i < |ops[1..]| :: ops[1..][i] == ops[i + 1];
      assert (exists i :: 0 <= i < |ops| && ops[i].Close?) ==>
             ops[0].Close? || exists i :: 0 <= i < |ops[1..]| && ops[1..][i].Close? by {
        if i :| 0 <= i < |ops| && ops[i].Close? {
          assert i > 0 ==> ops[1..][i - 1].Close?;
        }
      }
    }
  }

  /** Operation `j` consumes the slot: an allocated slot, a live owner, and a consuming open. */
  ghost predicate Consumes(s: State, ops: seq<Operation>, j: nat, index: int) {
    && j < |ops| && ops[j].Open? && ops[j].index == index && ops[j].consume
    && !RunFrom(s, ops[..j]).closed && 0 <= index < |RunFrom(s, ops[..j]).lengths|
  }

  lemma {:induction false} RunSnoc(s: State, ops: seq<Operation>, op: Operation)
    ensures RunFrom(s, ops + [op]) == Next(RunFrom(s, ops), op)
    decreases |ops|
  {
    if ops == [] {
      assert ops + [op] == [op] && [op][1..] == [];
    } else {
      assert (ops + [op])[1..] == ops[1..] + [op];
      RunSnoc(Next(s, ops[0]), ops[1..], op);
    }
  }

  /** A slot is burned exactly if some operation of the run consumed it: reading opens burn nothing. */
  lemma {:induction false} BurnedIffConsumed(s: State, ops: seq<Operation>, index: int)
    ensures index in RunFrom(s, ops).burned <==> index in s.burned || exists j :: Consumes(s, ops, j, index)
    decreases |ops|
  {
    if ops != [] {
      var n := |ops| - 1;
      assert ops == ops[..n] + [ops[n]];
      RunSnoc(s, ops[..n], ops[n]);
      BurnedIffConsumed(s, ops[..n], index);
      forall j: nat | j < n ensures Consumes(s, ops, j, index) <==> Consumes(s, ops[..n], j, index) {
        assert ops[..n][..j] == ops[..j];
      }
      assert Consumes(s, ops, n, index) <==>
             && ops[n].Open? && ops[n].index == index && ops[n].consume
             && !RunFrom(s, ops[..n]).closed && 0 <= index < |RunFrom(s, ops[..n]).lengths|;
      if j: nat :| Consumes(s, ops, j, index) && j != n {
        assert Consumes(s, ops[..n], j, index);
      }
      if j: nat :| Consumes(s, ops[..n], j, index) {
        assert Consumes(s, ops, j, index);
      }
    }
  }

  /** No operation closes the owner or consumes the slot. */
  ghost predicate LeavesOpen(ops: seq<Operation>, index: int) {
    forall i | 0 <= i < |ops| :: !ops[i].Close? && !(ops[i].Open? && ops[i].index == index && ops[i].consume)
  }

  lemma {:induction false} StaysOpen(s: State, ops: seq<Operation>, index: int)
    requires CanOpen(s, index) && LeavesOpen(ops, index)
    ensures CanOpen(RunFrom(s, ops), index)
    decreases |ops|
  {
    if ops != [] {
      assert forall i | 0 <= i < |ops[1..]| :: ops[1..][i] == ops[i + 1];
      StaysOpen(Next(s, ops[0]), ops[1..], index);
    }
  }

  /** Only allocated slots are burned. */
  lemma {:induction false} BurnedAllocated(s: State, ops: seq<Operation>)
    requires forall i | i in s.burned :: 0 <= i < |s.lengths|
    ensures forall i | i in RunFrom(s, ops).burned :: 0 <= i < |RunFrom(s, ops).lengths|
    decreases |ops|
  {
    if ops != [] {
      BurnedAllocated(Next(s, ops[0]), ops[1..]);
    }
  }

  /**
   After any run, what was sealed is returned by every later open, as long as no operation
   between them closes the owner or consumes the slot; reading opens of it are harmless.
   */
  lemma SealThenOpen(before: seq<Operation>, a: Aead, context: seq<int>, data: seq<int>, ops: seq<Operation>,
                     consume: bool)
    requires Correct(a) && CanSeal(RunFrom(State([], {}, false), before), data)
    requires Reply(RunFrom(State([], {}, false), before), a, context, Seal(data)).Returned?
    requires LeavesOpen(ops, |RunFrom(State([], {}, false), before).lengths|)
    ensures var s := RunFrom(State([], {}, false), before);
            Reply(RunFrom(Next(s, Seal(data)), ops), a, context,
                  Open(|s.lengths|, Reply(s, a, context, Seal(data)).bytes, consume)) == Returned(data)
  {
    var s := RunFrom(State([], {}, false), before);
    BurnedAllocated(State([], {}, false), before);
    StaysOpen(Next(s, Seal(data)), ops, |s.lengths|);
    OpenReturns(s, a, context, data, RunFrom(Next(s, Seal(data)), ops)) by {
      RunMonotone(Next(s, Seal(data)), ops);
    }
  }

  lemma OpenReturns(s: State, a: Aead, context: seq<int>, data: seq<int>, t: State)
    requires Correct(a) && SealedAs(a, context, |s.lengths|, data).Returned?
    requires |s.lengths| < |t.lengths| && t.lengths[|s.lengths|] == |data|
    ensures OpenedAs(a, context, |s.lengths|, t.lengths[|s.lengths|], SealedAs(a, context, |s.lengths|, data).bytes)
            == Returned(data)
  {
    var index, header := |s.lengths|, Header(|s.lengths|, |data|);
    var sealed := a.encrypt(Nonce(index), data, context + header);
    var frame := header + sealed.value;
    assert frame[..12] == header && frame[12..] == sealed.value;
    assert [] + data == data;
  }

  /** A frame sealed for one slot is refused at every other slot. */
  lemma FrameBoundToSlot(s: State, a: Aead, context: seq<int>, data: seq<int>, t: State, index: int, consume: bool)
    requires CanSeal(s, data) && Reply(s, a, context, Seal(data)).Returned?
    requires |t.lengths| <= MAX_SLOTS && index != |s.lengths|
    ensures !Reply(t, a, context, Open(index, Reply(s, a, context, Seal(data)).bytes, consume)).Returned?
  {
    if CanOpen(t, index) {
      var frame := Reply(s, a, context, Seal(data)).bytes;
      assert frame[..12] == Header(|s.lengths|, |data|);
      HeadersDistinct(|s.lengths|, index, |data|, t.lengths[index]);
    }
  }

  /** `f(slot, data)` for the accepted seals of a run, in order. */
  function Collect<T>(s: State, ops: seq<Operation>, f: (nat, seq<int>) -> T): seq<T>
    decreases |ops|
  {
    if ops == [] then []
    else (if ops[0].Seal? && CanSeal(s, ops[0].data) then [f(|s.lengths|, ops[0].data)] else [])
         + Collect(Next(s, ops[0]), ops[1..], f)
  }

  /** The data of the accepted seals, slot by slot. */
  function DataSealed(s: State, ops: seq<Operation>): seq<seq<int>> {
    Collect(s, ops, (_, data) => data)
  }

  /** The replies to the accepted seals, slot by slot: a frame, or the cipher's failure. */
  function FramesSealed(s: State, a: Aead, context: seq<int>, ops: seq<Operation>): seq<Outcome> {
    Collect(s, ops, (index, data) => SealedAs(a, context, index, data))
  }

  lemma {:induction false} CollectCount<T>(s: State, ops: seq<Operation>, f: (nat, seq<int>) -> T)
    requires |s.lengths| <= MAX_SLOTS
    ensures |RunFrom(s, ops).lengths| == |s.lengths| + |Collect(s, ops, f)| <= MAX_SLOTS
    decreases |ops|
  {
    if ops != [] {
      CollectCount(Next(s, ops[0]), ops[1..], f);
    }
  }

  lemma {:induction false} CollectAt<T>(s: State, ops: seq<Operation>, f: (nat, seq<int>) -> T, k: nat)
    requires k < |Collect(s, ops, f)| == |DataSealed(s, ops)|
    ensures Collect(s, ops, f)[k] == f(|s.lengths| + k, DataSealed(s, ops)[k])
    decreases |ops|
  {
    var t, rest := Next(s, ops[0]), ops[1..];
    if ops[0].Seal? && CanSeal(s, ops[0].data) {
      assert Collect(s, ops, f) == [f(|s.lengths|, ops[0].data)] + Collect(t, rest, f);
      assert DataSealed(s, ops) == [ops[0].data] + DataSealed(t, rest);
      if k > 0 {
        CollectAt(t, rest, f, k - 1);
      }
    } else {
      CollectAt(t, rest, f, k);
    }
  }

  /** The k-th slot of a run is allocated with the length of its data. */
  lemma {:induction false} LengthAt(s: State, ops: seq<Operation>, k: nat)
    requires k < |DataSealed(s, ops)|
    ensures |s.lengths| + k < |RunFrom(s, ops).lengths|
    ensures RunFrom(s, ops).lengths[|s.lengths| + k] == |DataSealed(s, ops)[k]|
    decreases |ops|
  {
    var t, rest := Next(s, ops[0]), ops[1..];
    if ops[0].Seal? && CanSeal(s, ops[0].data) {
      assert DataSealed(s, ops) == [ops[0].data] + DataSealed(t, rest);
      if k > 0 {
        LengthAt(t, rest, k - 1);
      } else {
        RunMonotone(t, rest);
      }
    } else {
      LengthAt(t, rest, k);
    }
  }

  /**
   The presented triple is no forgery: if it decrypts, it was produced by one of the
   run's own encryptions. Nothing is assumed of any other nonce, text or associated data.
   */
  ghost predicate NotForged(a: Aead, context: seq<int>, sealed: seq<seq<int>>, n: seq<int>, c: seq<int>, ad: seq<int>) {
    a.decrypt(n, c, ad).Some? ==>
      exists k | 0 <= k < |sealed| ::
        n == Nonce(k) && ad == context + Header(k, |sealed[k]|) && a.encrypt(n, sealed[k], ad) == Some(c)
  }

  /**
   Whatever frame is presented, a live slot returns if and only if the frame is the one
   its own seal returned, and then it returns the data of that seal.
   */
  lemma OpenYieldsSealedData(ops: seq<Operation>, a: Aead, context: seq<int>, index: int, frame: seq<int>,
                             consume: bool)
    requires Correct(a) && CanOpen(RunFrom(State([], {}, false), ops), index)
    requires |frame| >= 12 ==>
             NotForged(a, context, DataSealed(State([], {}, false), ops), Nonce(index), frame[12..],
                       context + Header(index, RunFrom(State([], {}, false), ops).lengths[index]))
    ensures index < |FramesSealed(State([], {}, false), a, context, ops)| == |DataSealed(State([], {}, false), ops)|
    ensures var r := Reply(RunFrom(State([], {}, false), ops), a, context, Open(index, frame, consume));
            && (r.Returned? <==> FramesSealed(State([], {}, false), a, context, ops)[index] == Returned(frame))
            && (r.Returned? ==> r == Returned(DataSealed(State([], {}, false), ops)[index]))
  {
    var s := State([], {}, false);
    var reply := (index, data) => SealedAs(a, context, index, data);
    CollectCount(s, ops, reply);
    CollectCount(s, ops, (_, data) => data);
    LengthAt(s, ops, index);
    CollectAt(s, ops, reply, index);
    OpenedIffSealed(a, context, DataSealed(s, ops), index, frame);
  }

  lemma OpenedIffSealed(a: Aead, context: seq<int>, sealed: seq<seq<int>>, index: nat, frame: seq<int>)
    requires Correct(a) && index < |sealed| <= MAX_SLOTS
    requires |frame| >= 12 ==>
             NotForged(a, context, sealed, Nonce(index), frame[12..], context + Header(index, |sealed[index]|))
    ensures var r := OpenedAs(a, context, index, |sealed[index]|, frame);
            && (r.Returned? <==> SealedAs(a, context, index, sealed[index]) == Returned(frame))
            && (r.Returned? ==> r == Returned(sealed[index]))
  {
    var data, header := sealed[index], Header(index, |sealed[index]|);
    assert [] + data == data;
    if SealedAs(a, context, index, data) == Returned(frame) {
      var c := a.encrypt(Nonce(index), data, context + header).value;
      assert frame == header + c && frame[..12] == header && frame[12..] == c;
    }
    if OpenedAs(a, context, index, |data|, frame).Returned? {
      OwnEncryption(a, context, sealed, index, frame[12..], context + header);
      assert frame == header + frame[12..];
    }
  }

  lemma OwnEncryption(a: Aead, context: seq<int>, sealed: seq<seq<int>>, index: nat, c: seq<int>, ad: seq<int>)
    requires index < |sealed| <= MAX_SLOTS && NotForged(a, context, sealed, Nonce(index), c, ad)
    requires a.decrypt(Nonce(index), c, ad).Some?
    ensures a.encrypt(Nonce(index), sealed[index], ad) == Some(c)
  {
    var n := Nonce(index);
    var k :| 0 <= k < |sealed| && n == Nonce(k) && ad == context + Header(k, |sealed[k]|)
             && a.encrypt(n, sealed[k], ad) == Some(c);
    if k != index {
      NoncesDistinct(k, index);
    }
  }
}
