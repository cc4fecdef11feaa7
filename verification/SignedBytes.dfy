/** The signed-i8 range of weights and activations. */
module SignedBytes {

  predicate SignedByte(w: int) {
    -128 <= w < 128
  }

  predicate AllSignedBytes(s: seq<int>) {
    forall i | 0 <= i < |s| :: SignedByte(s[i])
  }

  /** A matrix of signed bytes with `n` columns. */
  predicate ByteMatrix(weights: seq<seq<int>>, n: nat) {
    forall j | 0 <= j < |weights| :: |weights[j]| == n && AllSignedBytes(weights[j])
  }

  function Abs(x: int): nat {
    if x < 0 then -x else x
  }
}
