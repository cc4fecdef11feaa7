/**
 The byte-pair merge loop of `IndexedTokenizer.encode`, and its agreement with
 the compiled finite language: a word's canonical encoding is always accepted.

 The regular-expression split, the normaliser and the pre-tokenizer are outside
 the model: `Encode` takes them as one function from texts to segments.
 */
module BytePairEncoding {
  import opened Wrappers
  import opened Bits
  import opened LanguageSpec
  import opened ByteLevelTokenizer
  import opened LanguageCompiler

  type Merges = map<(string, string), nat>

  /** The rank returned for a pair that is not in the merge table: 2 to the 60. */
  const UNRANKED := 0x1000_0000_0000_0000

  /** Ranks are line numbers of the merge table, far below `UNRANKED`. */
  ghost predicate ValidMerges(merges: Merges) {
    forall pair | pair in merges :: merges[pair] < UNRANKED
  }

  function Rank(merges: Merges, left: string, right: string): nat {
    if (left, right) in merges then merges[(left, right)] else UNRANKED
  }

  function Flatten(symbols: seq<string>): string {
    if symbols == [] then "" else symbols[0] + Flatten(symbols[1..])
  }

  function Chars(token: string): seq<string> {
    seq(|token|, i requires 0 <= i < |token| => [token[i]])
  }

  /** Merging stops at a single symbol or when no adjacent pair has a rank. */
  ghost predicate Settled(merges: Merges, symbols: seq<string>) {
    forall i | 0 <= i < |symbols| - 1 :: (symbols[i], symbols[i + 1]) !in merges
  }

  /** Position `i` holds the leftmost adjacent pair of least rank. */
  ghost predicate LeftmostBest(merges: Merges, symbols: seq<string>, i: nat) {
    && i + 1 < |symbols|
    && (forall j | 0 <= j < |symbols| - 1 ::
          Rank(merges, symbols[i], symbols[i + 1]) <= Rank(merges, symbols[j], symbols[j + 1]))
    && (forall j | 0 <= j < i ::
          Rank(merges, symbols[i], symbols[i + 1]) < Rank(merges, symbols[j], symbols[j + 1]))
  }

  function MergeAt(symbols: seq<string>, i: nat): (r: seq<string>)
    requires i + 1 < |symbols|
    ensures |r| == |symbols| - 1
  {
    symbols[..i] + [symbols[i] + symbols[i + 1]] + symbols[i + 2..]
  }

  /** The pair becomes one symbol, and every other symbol stays. */
  lemma MergeAtJoinsPair(symbols: seq<string>, i: nat)
    requires i + 1 < |symbols|
    ensures MergeAt(symbols, i)[i] == symbols[i] + symbols[i + 1]
    ensures forall j | 0 <= j < i :: MergeAt(symbols, i)[j] == symbols[j]
    ensures forall j | i + 1 < j < |symbols| :: MergeAt(symbols, i)[j - 1] == symbols[j]
  {
  }

  /** `steps` are the successive leftmost-best merges that turn `start` into `end`. */
  ghost predicate Derives(merges: Merges, start: seq<string>, steps: seq<nat>, end: seq<string>)
    decreases |steps|
  {
    if steps == [] then start == end
    else
      && LeftmostBest(merges, start, steps[0])
      && (start[steps[0]], start[steps[0] + 1]) in merges
      && Derives(merges, MergeAt(start, steps[0]), steps[1..], end)
  }

  lemma {:induction false} FlattenConcat(a: seq<string>, b: seq<string>)
    ensures Flatten(a + b) == Flatten(a) + Flatten(b)
  {
    if a == [] {
      assert a + b == b;
    } else {
      assert (a + b)[1..] == a[1..] + b;
      FlattenConcat(a[1..], b);
    }
  }

  lemma {:induction false} MergeKeepsText(symbols: seq<string>, i: nat)
    requires i + 1 < |symbols|
    ensures Flatten(MergeAt(symbols, i)) == Flatten(symbols)
  {
    var merged := MergeAt(symbols, i);
    if i == 0 {
      assert merged[1..] == symbols[2..] == symbols[1..][1..];
      assert Flatten(symbols) == symbols[0] + (symbols[1] + Flatten(symbols[2..]));
    } else {
      assert merged[1..] == MergeAt(symbols[1..], i - 1);
      MergeKeepsText(symbols[1..], i - 1);
    }
  }

  lemma {:induction false} FlattenChars(token: string)
    ensures Flatten(Chars(token)) == token
  {
    if token != "" {
      assert Chars(token)[1..] == Chars(token[1..]);
      FlattenChars(token[1..]);
    }
  }

  lemma {:induction false} DerivesExtend(merges: Merges, start: seq<string>, steps: seq<nat>, end: seq<string>, i: nat)
    requires Derives(merges, start, steps, end)
    requires LeftmostBest(merges, end, i) && (end[i], end[i + 1]) in merges
    ensures Derives(merges, start, steps + [i], MergeAt(end, i))
    decreases |steps|
  {
    if steps != [] {
      assert (steps + [i])[1..] == steps[1..] + [i];
      DerivesExtend(merges, MergeAt(start, steps[0]), steps[1..], end, i);
    } else {
      assert [i][1..] == [];
    }
  }

  /** The merge sequence is unique, so the settled symbols are a function of the token. */
  lemma {:induction false} DerivationUnique(merges: Merges, start: seq<string>, s: seq<nat>, t: seq<nat>,
                                            a: seq<string>, b: seq<string>)
    requires Derives(merges, start, s, a) && Settled(merges, a)
    requires Derives(merges, start, t, b) && Settled(merges, b)
    ensures a == b && s == t
    decreases |s|
  {
    if s != [] && t != [] {
      assert s[0] == t[0];
      DerivationUnique(merges, MergeAt(start, s[0]), s[1..], t[1..], a, b);
      assert s == [s[0]] + s[1..] && t == [t[0]] + t[1..];
    }
  }

  /** The minimum over (rank, index) of all adjacent pairs. */
  method BestPair(merges: Merges, symbols: seq<string>) returns (rank: nat, index: nat)
    requires |symbols| > 1
    ensures LeftmostBest(merges, symbols, index)
    ensures rank == Rank(merges, symbols[index], symbols[index + 1])
  {
    index := 0;
    rank := Rank(merges, symbols[0], symbols[1]);
    for i := 1 to |symbols| - 1
      invariant index < i && rank == Rank(merges, symbols[index], symbols[index + 1])
      invariant forall j | 0 <= j < i :: rank <= Rank(merges, symbols[j], symbols[j + 1])
      invariant forall j | 0 <= j < index :: rank < Rank(merges, symbols[j], symbols[j + 1])
    {
      var r := Rank(merges, symbols[i], symbols[i + 1]);
      if r < rank {
        rank, index := r, i;
      }
    }
  }

  /** The pair merged next has the least rank of all ranked pairs, and is the leftmost of that rank. */
  lemma BestHasLeastRank(merges: Merges, symbols: seq<string>, i: nat)
    requires ValidMerges(merges) && LeftmostBest(merges, symbols, i) && (symbols[i], symbols[i + 1]) in merges
    ensures forall j | 0 <= j < |symbols| - 1 && (symbols[j], symbols[j + 1]) in merges ::
              var best, other := merges[(symbols[i], symbols[i + 1])], merges[(symbols[j], symbols[j + 1])];
              if j < i then best < other else best <= other
  {
    forall j | 0 <= j < |symbols| - 1 && (symbols[j], symbols[j + 1]) in merges
      ensures var best, other := merges[(symbols[i], symbols[i + 1])], merges[(symbols[j], symbols[j + 1])];
              if j < i then best < other else best <= other
    {
      assert Rank(merges, symbols[i], symbols[i + 1]) <= Rank(merges, symbols[j], symbols[j + 1]);
    }
  }

  /** Each merge joins two symbols. */
  lemma {:induction false} DerivesLength(merges: Merges, start: seq<string>, steps: seq<nat>, end: seq<string>)
    requires Derives(merges, start, steps, end)
    ensures |steps| + |end| == |start|
    decreases |steps|
  {
    if steps != [] {
      DerivesLength(merges, MergeAt(start, steps[0]), steps[1..], end);
    }
  }

  method MergeLoop(merges: Merges, token: string) returns (symbols: seq<string>, ghost steps: seq<nat>)
    requires ValidMerges(merges)
    ensures Derives(merges, Chars(token), steps, symbols)
    ensures Settled(merges, symbols)
    ensures Flatten(symbols) == token
    // The loop starts from single characters.
    ensures |steps| + |symbols| == |token|
  {
    symbols, steps := Chars(token), [];
    FlattenChars(token);
    while |symbols| > 1
      invariant Derives(merges, Chars(token), steps, symbols)
      invariant Flatten(symbols) == token
      decreases |symbols|
    {
      var rank, index := BestPair(merges, symbols);
      if rank == UNRANKED {
        forall i | 0 <= i < |symbols| - 1 ensures (symbols[i], symbols[i + 1]) !in merges {
          assert rank <= Rank(merges, symbols[i], symbols[i + 1]);
        }
        break;
      }
      DerivesExtend(merges, Chars(token), steps, symbols, index);
      MergeKeepsText(symbols, index);
      steps := steps + [index];
      symbols := MergeAt(symbols, index);
    }
    DerivesLength(merges, Chars(token), steps, symbols);
  }

  // ----- Encoding

  datatype EncodeError = TextTooLong | PieceTooLong | SymbolAbsent

  /** One part of a split text: an added token, or pre-tokenized ordinary text. */
  datatype Segment = AddedToken(id: int) | Text(tokens: seq<string>)

  /** The canonical identifiers of one pre-token: the settled symbols, looked up. */
  ghost predicate Canonical(vocab: map<string, int>, merges: Merges, token: string, ids: seq<int>) {
    exists steps, symbols ::
      && Derives(merges, Chars(token), steps, symbols) && Settled(merges, symbols)
      && Flatten(symbols) == token && Looked(vocab, symbols, ids)
  }

  ghost predicate Looked(vocab: map<string, int>, symbols: seq<string>, ids: seq<int>) {
    && |ids| == |symbols|
    && forall i | 0 <= i < |ids| :: symbols[i] in vocab && ids[i] == vocab[symbols[i]]
  }

  /** `ids` is the concatenation of the canonical identifiers of every part. */
  ghost predicate CanonicalText(vocab: map<string, int>, merges: Merges, tokens: seq<string>, ids: seq<int>) {
    if tokens == [] then ids == []
    else exists k | 0 <= k <= |ids| ::
           && CanonicalText(vocab, merges, tokens[..|tokens| - 1], ids[..k])
           && Canonical(vocab, merges, tokens[|tokens| - 1], ids[k..])
  }

  ghost predicate Encoded(vocab: map<string, int>, merges: Merges, segments: seq<Segment>, ids: seq<int>) {
    if segments == [] then ids == []
    else exists k | 0 <= k <= |ids| ::
           && Encoded(vocab, merges, segments[..|segments| - 1], ids[..k])
           && SegmentEncoded(vocab, merges, segments[|segments| - 1], ids[k..])
  }

  ghost predicate SegmentEncoded(vocab: map<string, int>, merges: Merges, segment: Segment, ids: seq<int>) {
    match segment
    case AddedToken(id) => ids == [id]
    case Text(tokens) => CanonicalText(vocab, merges, tokens, ids)
  }

  /** No two adjacent characters are a ranked pair. */
  ghost predicate NoPairRanked(merges: Merges, token: string) {
    forall i | 0 <= i < |token| - 1 :: ([token[i]], [token[i + 1]]) !in merges
  }

  /** One identifier for each character. */
  ghost predicate ByCharacter(vocab: map<string, int>, token: string, ids: seq<int>) {
    |ids| == |token| && forall i | 0 <= i < |token| :: [token[i]] in vocab && ids[i] == vocab[[token[i]]]
  }

  /** Such a token is encoded character by character. */
  lemma UnmergedByCharacter(vocab: map<string, int>, merges: Merges, token: string, ids: seq<int>)
    requires NoPairRanked(merges, token) && Canonical(vocab, merges, token, ids)
    ensures ByCharacter(vocab, token, ids)
  {
    var steps, symbols :| Derives(merges, Chars(token), steps, symbols) && Settled(merges, symbols)
                          && Flatten(symbols) == token && Looked(vocab, symbols, ids);
    assert steps == [] && symbols == Chars(token);
    assert forall i | 0 <= i < |token| :: symbols[i] == [token[i]];
  }

  /** Canonical identifiers are determined by the token. */
  lemma CanonicalUnique(vocab: map<string, int>, merges: Merges, token: string, a: seq<int>, b: seq<int>)
    requires Canonical(vocab, merges, token, a) && Canonical(vocab, merges, token, b)
    ensures a == b
  {
    var s, left :| Derives(merges, Chars(token), s, left) && Settled(merges, left)
                   && Flatten(left) == token && Looked(vocab, left, a);
    var t, right :| Derives(merges, Chars(token), t, right) && Settled(merges, right)
                    && Flatten(right) == token && Looked(vocab, right, b);
    DerivationUnique(merges, Chars(token), s, t, left, right);
  }

  lemma SameParts(a: seq<int>, j: nat, b: seq<int>, k: nat)
    requires j <= |a| && k <= |b| && a[..j] == b[..k] && a[j..] == b[k..]
    ensures a == b
  {
    assert a == a[..j] + a[j..] && b == b[..k] + b[k..];
  }

  lemma {:induction false} CanonicalTextUnique(vocab: map<string, int>, merges: Merges, tokens: seq<string>,
                                               a: seq<int>, b: seq<int>)
    requires CanonicalText(vocab, merges, tokens, a) && CanonicalText(vocab, merges, tokens, b)
    ensures a == b
    decreases |tokens|
  {
    if tokens != [] {
      var n := |tokens| - 1;
      var j :| 0 <= j <= |a| && CanonicalText(vocab, merges, tokens[..n], a[..j])
               && Canonical(vocab, merges, tokens[n], a[j..]);
      var k :| 0 <= k <= |b| && CanonicalText(vocab, merges, tokens[..n], b[..k])
               && Canonical(vocab, merges, tokens[n], b[k..]);
      CanonicalTextUnique(vocab, merges, tokens[..n], a[..j], b[..k]);
      CanonicalUnique(vocab, merges, tokens[n], a[j..], b[k..]);
      SameParts(a, j, b, k);
    }
  }

  /** A split text has at most one encoding. */
  lemma {:induction false} EncodedUnique(vocab: map<string, int>, merges: Merges, segments: seq<Segment>,
                                         a: seq<int>, b: seq<int>)
    requires Encoded(vocab, merges, segments, a) && Encoded(vocab, merges, segments, b)
    ensures a == b
    decreases |segments|
  {
    if segments != [] {
      var n := |segments| - 1;
      var j :| 0 <= j <= |a| && Encoded(vocab, merges, segments[..n], a[..j])
               && SegmentEncoded(vocab, merges, segments[n], a[j..]);
      var k :| 0 <= k <= |b| && Encoded(vocab, merges, segments[..n], b[..k])
               && SegmentEncoded(vocab, merges, segments[n], b[k..]);
      EncodedUnique(vocab, merges, segments[..n], a[..j], b[..k]);
      if segments[n].Text? {
        CanonicalTextUnique(vocab, merges, segments[n].tokens, a[j..], b[k..]);
      }
      SameParts(a, j, b, k);
    }
  }

  // ----- When encoding succeeds

  const MAX_TEXT_BYTES := 4096
  const MAX_SYMBOLS := 1024

  /** `len(text.encode())`. */
  function Utf8Length(text: string): nat {
    if text == "" then 0
    else
      var c := text[0] as int;
      (if c < 0x80 then 1 else if c < 0x800 then 2 else if c < 0x1_0000 then 3 else 4) + Utf8Length(text[1..])
  }

  /** The length of a text is that of its parts. */
  lemma {:induction false} Utf8LengthConcat(a: string, b: string)
    ensures Utf8Length(a + b) == Utf8Length(a) + Utf8Length(b)
  {
    if a == "" {
      assert a + b == b;
    } else {
      assert (a + b)[1..] == a[1..] + b;
      Utf8LengthConcat(a[1..], b);
    }
  }

  /** A character takes the shortest of the forms that hold 7, 11, 16 or 21 bits of its code. */
  lemma Utf8LengthShortest(c: char)
    ensures var k, code := Utf8Length([c]), c as int;
            && 1 <= k <= 4
            && code < Pow2([7, 11, 16, 21][k - 1])
            && (k > 1 ==> code >= Pow2([7, 11, 16, 21][k - 2]))
  {
    assert [c][1..] == "" && Utf8Length([c]) == Utf8Length([c][..1]);
    PowersOfForms();
  }

  lemma PowersOfForms()
    ensures Pow2(7) == 0x80 && Pow2(11) == 0x800 && Pow2(16) == 0x1_0000 && Pow2(21) == 0x20_0000
  {
    assert Pow2(7) == 128;
    assert Pow2(11) == 16 * Pow2(7);
    assert Pow2(16) == 32 * Pow2(11);
    assert Pow2(21) == 32 * Pow2(16);
  }

  /** Every pre-token of the split text, in order. */
  function AllTokens(segments: seq<Segment>): seq<string> {
    if segments == [] then []
    else AllTokens(segments[..|segments| - 1]) + TokensOf(segments[|segments| - 1])
  }

  function TokensOf(segment: Segment): seq<string> {
    if segment.Text? then segment.tokens else []
  }

  ghost predicate Encodable(vocab: map<string, int>, merges: Merges, token: string) {
    exists ids :: Canonical(vocab, merges, token, ids)
  }

  ghost predicate Fine(vocab: map<string, int>, merges: Merges, token: string) {
    |token| <= MAX_SYMBOLS && Encodable(vocab, merges, token)
  }

  /** The error a token raises: too long, or else some settled symbol without an identifier. */
  ghost predicate TokenFails(vocab: map<string, int>, merges: Merges, token: string, e: EncodeError) {
    if |token| > MAX_SYMBOLS then e == PieceTooLong
    else e == SymbolAbsent && !Encodable(vocab, merges, token)
  }

  /** Token `k` is the first that raises, and it raises `e`. */
  ghost predicate FailsAt(vocab: map<string, int>, merges: Merges, tokens: seq<string>, k: nat, e: EncodeError) {
    k < |tokens| && TokenFails(vocab, merges, tokens[k], e) && forall j | 0 <= j < k :: Fine(vocab, merges, tokens[j])
  }

  /** The split text has an encoding, with every pre-token in bounds. */
  ghost predicate HasEncoding(vocab: map<string, int>, merges: Merges, segments: seq<Segment>) {
    && (forall token | token in AllTokens(segments) :: |token| <= MAX_SYMBOLS)
    && exists ids :: Encoded(vocab, merges, segments, ids)
  }

  /** The first pre-token that raises, raises `e`. */
  ghost predicate FirstError(vocab: map<string, int>, merges: Merges, segments: seq<Segment>, e: EncodeError) {
    exists k: nat :: FailsAt(vocab, merges, AllTokens(segments), k, e)
  }

  lemma {:induction false} CanonicalTextTokens(vocab: map<string, int>, merges: Merges, tokens: seq<string>,
                                               ids: seq<int>)
    requires CanonicalText(vocab, merges, tokens, ids)
    ensures forall token | token in tokens :: Encodable(vocab, merges, token)
    decreases |tokens|
  {
    if tokens != [] {
      var n := |tokens| - 1;
      var k :| 0 <= k <= |ids| && CanonicalText(vocab, merges, tokens[..n], ids[..k])
               && Canonical(vocab, merges, tokens[n], ids[k..]);
      CanonicalTextTokens(vocab, merges, tokens[..n], ids[..k]);
      EncodableSnoc(vocab, merges, tokens, ids[k..]);
    }
  }

  lemma EncodableSnoc(vocab: map<string, int>, merges: Merges, tokens: seq<string>, ids: seq<int>)
    requires tokens != [] && Canonical(vocab, merges, tokens[|tokens| - 1], ids)
    requires forall token | token in tokens[..|tokens| - 1] :: Encodable(vocab, merges, token)
    ensures forall token | token in tokens :: Encodable(vocab, merges, token)
  {
    assert tokens == tokens[..|tokens| - 1] + [tokens[|tokens| - 1]];
  }

  /** A text with an encoding has only encodable pre-tokens. */
  lemma {:induction false} EncodedTokens(vocab: map<string, int>, merges: Merges, segments: seq<Segment>, ids: seq<int>)
    requires Encoded(vocab, merges, segments, ids)
    ensures forall token | token in AllTokens(segments) :: Encodable(vocab, merges, token)
    decreases |segments|
  {
    if segments != [] {
      var n := |segments| - 1;
      var k :| 0 <= k <= |ids| && Encoded(vocab, merges, segments[..n], ids[..k])
               && SegmentEncoded(vocab, merges, segments[n], ids[k..]);
      EncodedTokens(vocab, merges, segments[..n], ids[..k]);
      if segments[n].Text? {
        CanonicalTextTokens(vocab, merges, segments[n].tokens, ids[k..]);
      }
    }
  }

  lemma NotCanonical(vocab: map<string, int>, merges: Merges, token: string, steps: seq<nat>, symbols: seq<string>,
                     i: nat)
    requires Derives(merges, Chars(token), steps, symbols) && Settled(merges, symbols)
    requires i < |symbols| && symbols[i] !in vocab
    ensures !Encodable(vocab, merges, token)
  {
    forall ids, s, other | Derives(merges, Chars(token), s, other) && Settled(merges, other)
      ensures !Looked(vocab, other, ids)
    {
      DerivationUnique(merges, Chars(token), steps, s, symbols, other);
    }
  }

  method EncodeToken(vocab: map<string, int>, merges: Merges, token: string) returns (r: Result<seq<int>, EncodeError>)
    requires ValidMerges(merges)
    ensures r.Success? <==> Fine(vocab, merges, token)
    ensures r.Success? ==> Canonical(vocab, merges, token, r.value)
    ensures r.Failure? ==> TokenFails(vocab, merges, token, r.error)
    ensures r.Success? && NoPairRanked(merges, token) ==>
            ByCharacter(vocab, token, r.value)
  {
    if |token| > MAX_SYMBOLS {
      return Failure(PieceTooLong);
    }
    var symbols, steps := MergeLoop(merges, token);
    var ids := [];
    for i := 0 to |symbols|
      invariant |ids| == i
      invariant forall j | 0 <= j < i :: symbols[j] in vocab && ids[j] == vocab[symbols[j]]
    {
      if symbols[i] !in vocab {
        NotCanonical(vocab, merges, token, steps, symbols, i);
        return Failure(SymbolAbsent);
      }
      ids := ids + [vocab[symbols[i]]];
    }
    assert Canonical(vocab, merges, token, ids);
    if NoPairRanked(merges, token) {
      UnmergedByCharacter(vocab, merges, token, ids);
    }
    return Success(ids);
  }

  method EncodeText(vocab: map<string, int>, merges: Merges, tokens: seq<string>)
    returns (r: Result<seq<int>, EncodeError>)
    requires ValidMerges(merges)
    ensures r.Success? ==> CanonicalText(vocab, merges, tokens, r.value)
    ensures r.Success? ==> forall token | token in tokens :: Fine(vocab, merges, token)
    ensures r.Failure? ==> exists k: nat :: FailsAt(vocab, merges, tokens, k, r.error)
  {
    var ids := [];
    for i := 0 to |tokens|
      invariant CanonicalText(vocab, merges, tokens[..i], ids)
      invariant FineUpTo(vocab, merges, tokens, i)
    {
      var part := EncodeToken(vocab, merges, tokens[i]);
      if part.Failure? {
        FailsHere(vocab, merges, tokens, i, part.error);
        return part;
      }
      FineNext(vocab, merges, tokens, i);
      CanonicalTextExtend(vocab, merges, tokens, i, ids, part.value);
      ids := ids + part.value;
    }
    assert tokens[..|tokens|] == tokens;
    AllFine(vocab, merges, tokens);
    return Success(ids);
  }

  ghost predicate FineUpTo(vocab: map<string, int>, merges: Merges, tokens: seq<string>, i: nat) {
    i <= |tokens| && forall j | 0 <= j < i :: Fine(vocab, merges, tokens[j])
  }

  lemma FineNext(vocab: map<string, int>, merges: Merges, tokens: seq<string>, i: nat)
    requires FineUpTo(vocab, merges, tokens, i) && i < |tokens| && Fine(vocab, merges, tokens[i])
    ensures FineUpTo(vocab, merges, tokens, i + 1)
  {
  }

  lemma FailsHere(vocab: map<string, int>, merges: Merges, tokens: seq<string>, i: nat, e: EncodeError)
    requires FineUpTo(vocab, merges, tokens, i) && i < |tokens| && TokenFails(vocab, merges, tokens[i], e)
    ensures FailsAt(vocab, merges, tokens, i, e)
  {
  }

  lemma AllFine(vocab: map<string, int>, merges: Merges, tokens: seq<string>)
    requires FineUpTo(vocab, merges, tokens, |tokens|)
    ensures forall token | token in tokens :: Fine(vocab, merges, token)
  {
  }

  lemma CanonicalTextExtend(vocab: map<string, int>, merges: Merges, tokens: seq<string>, i: nat,
                            ids: seq<int>, part: seq<int>)
    requires i < |tokens| && CanonicalText(vocab, merges, tokens[..i], ids)
    requires Canonical(vocab, merges, tokens[i], part)
    ensures CanonicalText(vocab, merges, tokens[..i + 1], ids + part)
  {
    var next := ids + part;
    assert next[..|ids|] == ids && next[|ids|..] == part;
    assert tokens[..i + 1][..i] == tokens[..i];
  }

  lemma EncodedExtend(vocab: map<string, int>, merges: Merges, segments: seq<Segment>, i: nat,
                      ids: seq<int>, part: seq<int>)
    requires i < |segments| && Encoded(vocab, merges, segments[..i], ids)
    requires SegmentEncoded(vocab, merges, segments[i], part)
    ensures Encoded(vocab, merges, segments[..i + 1], ids + part)
  {
    var next := ids + part;
    assert next[..|ids|] == ids && next[|ids|..] == part;
    assert segments[..i + 1][..i] == segments[..i];
  }

  lemma AllTokensExtend(segments: seq<Segment>, i: nat)
    requires i < |segments|
    ensures AllTokens(segments[..i + 1]) == AllTokens(segments[..i]) + TokensOf(segments[i])
  {
    assert segments[..i + 1][..i] == segments[..i];
  }

  /** A failure inside segment `i` is the first failure of the whole text. */
  lemma FailureInText(vocab: map<string, int>, merges: Merges, segments: seq<Segment>, i: nat, k: nat, e: EncodeError)
    requires i < |segments| && FailsAt(vocab, merges, TokensOf(segments[i]), k, e)
    requires forall token | token in AllTokens(segments[..i]) :: Fine(vocab, merges, token)
    ensures FailsAt(vocab, merges, AllTokens(segments), |AllTokens(segments[..i])| + k, e)
  {
    var before, tokens := AllTokens(segments[..i]), TokensOf(segments[i]);
    AllTokensPrefix(segments, i + 1);
    AllTokensExtend(segments, i);
    forall j | 0 <= j < |before| + k ensures Fine(vocab, merges, AllTokens(segments)[j]) {
      if j < |before| {
        assert before[j] in before;
      } else {
        assert AllTokens(segments)[j] == tokens[j - |before|];
      }
    }
  }

  lemma {:induction false} AllTokensPrefix(segments: seq<Segment>, i: nat)
    requires i <= |segments|
    ensures AllTokens(segments[..i]) <= AllTokens(segments)
    decreases |segments|
  {
    if i < |segments| {
      var n := |segments| - 1;
      AllTokensPrefix(segments[..n], i);
      assert segments[..n][..i] == segments[..i];
    } else {
      assert segments[..i] == segments;
    }
  }

  lemma FineHasEncoding(vocab: map<string, int>, merges: Merges, segments: seq<Segment>, ids: seq<int>)
    requires Encoded(vocab, merges, segments, ids)
    requires forall token | token in AllTokens(segments) :: Fine(vocab, merges, token)
    ensures HasEncoding(vocab, merges, segments)
    ensures forall e :: !FirstError(vocab, merges, segments, e)
  {
    var tokens := AllTokens(segments);
    forall k: nat, e ensures !FailsAt(vocab, merges, tokens, k, e) {
      assert k < |tokens| ==> Fine(vocab, merges, tokens[k]);
    }
    forall token | token in tokens ensures |token| <= MAX_SYMBOLS {
      assert Fine(vocab, merges, token);
    }
  }

  lemma FailureHasNone(vocab: map<string, int>, merges: Merges, segments: seq<Segment>, k: nat, e: EncodeError)
    requires FailsAt(vocab, merges, AllTokens(segments), k, e)
    ensures !HasEncoding(vocab, merges, segments)
    ensures forall f :: FirstError(vocab, merges, segments, f) <==> f == e
  {
    var tokens := AllTokens(segments);
    assert tokens[k] in tokens;
    forall ids | Encoded(vocab, merges, segments, ids) ensures Encodable(vocab, merges, tokens[k]) {
      EncodedTokens(vocab, merges, segments, ids);
    }
    forall j: nat, f | FailsAt(vocab, merges, tokens, j, f) ensures f == e {
      assert j == k;
    }
  }

  /** One part of a split text. */
  method EncodeSegment(vocab: map<string, int>, merges: Merges, segment: Segment)
    returns (r: Result<seq<int>, EncodeError>)
    requires ValidMerges(merges)
    ensures r.Success? ==> SegmentEncoded(vocab, merges, segment, r.value)
    ensures r.Success? ==> forall token | token in TokensOf(segment) :: Fine(vocab, merges, token)
    ensures r.Failure? ==> exists k: nat :: FailsAt(vocab, merges, TokensOf(segment), k, r.error)
  {
    match segment {
      case AddedToken(id) =>
        r := Success([id]);
      case Text(tokens) =>
        r := EncodeText(vocab, merges, tokens);
        assert TokensOf(segment) == tokens;
    }
  }

  /** The loop over the parts of a split text. */
  method EncodeSegments(vocab: map<string, int>, merges: Merges, segments: seq<Segment>)
    returns (r: Result<seq<int>, EncodeError>)
    requires ValidMerges(merges)
    ensures r.Success? ==> Encoded(vocab, merges, segments, r.value)
    ensures r.Success? <==> HasEncoding(vocab, merges, segments)
    ensures forall e :: r == Failure(e) <==> FirstError(vocab, merges, segments, e)
  {
    var ids := [];
    for i := 0 to |segments|
      invariant Encoded(vocab, merges, segments[..i], ids)
      invariant forall token | token in AllTokens(segments[..i]) :: Fine(vocab, merges, token)
    {
      var part := EncodeSegment(vocab, merges, segments[i]);
      if part.Failure? {
        ghost var k: nat :| FailsAt(vocab, merges, TokensOf(segments[i]), k, part.error);
        FailureInText(vocab, merges, segments, i, k, part.error);
        FailureHasNone(vocab, merges, segments, |AllTokens(segments[..i])| + k, part.error);
        return part;
      }
      EncodedExtend(vocab, merges, segments, i, ids, part.value);
      AllTokensExtend(segments, i);
      ids := ids + part.value;
    }
    assert segments[..|segments|] == segments;
    FineHasEncoding(vocab, merges, segments, ids);
    return Success(ids);
  }

  lemma FirstErrorOfToken(vocab: map<string, int>, merges: Merges, segments: seq<Segment>)
    ensures !FirstError(vocab, merges, segments, TextTooLong)
  {
  }

  /**
   `encode`; `split` stands for the added-token pattern, the normaliser and the
   pre-tokenizer. It succeeds exactly on texts in bounds that have an encoding, and
   otherwise raises the error of the first pre-token that fails.
   */
  method Encode(vocab: map<string, int>, merges: Merges, split: string -> seq<Segment>, text: string)
    returns (r: Result<seq<int>, EncodeError>)
    requires ValidMerges(merges)
    ensures r.Success? ==> Encoded(vocab, merges, split(text), r.value)
    ensures r.Success? <==> Utf8Length(text) <= MAX_TEXT_BYTES && HasEncoding(vocab, merges, split(text))
    ensures r == Failure(TextTooLong) <==> Utf8Length(text) > MAX_TEXT_BYTES
    ensures forall e | e != TextTooLong ::
              r == Failure(e) <==>
              Utf8Length(text) <= MAX_TEXT_BYTES && FirstError(vocab, merges, split(text), e)
  {
    if Utf8Length(text) > MAX_TEXT_BYTES {
      return Failure(TextTooLong);
    }
    var segments := split(text);
    FirstErrorOfToken(vocab, merges, segments);
    r := EncodeSegments(vocab, merges, segments);
  }

  // ----- Canonical encodings are sentences of the compiled language

  lemma {:induction false} SegmentsConcat(pieces: map<nat, Word>, a: seq<nat>, b: seq<nat>, v: Word, w: Word)
    requires Segments(pieces, a, v) && Segments(pieces, b, w)
    ensures Segments(pieces, a + b, v + w)
    decreases |a|
  {
    if a == [] {
      assert a + b == b && v + w == w;
    } else {
      var t := a[0];
      var v' := Spelling(pieces, a[1..]);
      SegmentsConcat(pieces, a[1..], b, v', w);
      assert (a + b)[1..] == a[1..] + b;
      assert a + b == [t] + (a[1..] + b);
      assert v + w == pieces[t] + (v' + w);
    }
  }

  /** What looked-up symbols spell: identifiers, and the bytes their text decodes to. */
  ghost predicate SpellsText(pieces: map<nat, Word>, ids: seq<int>, text: string) {
    && IsByteLevel(text)
    && (forall i | 0 <= i < |ids| :: ids[i] >= 0)
    && Segments(pieces, ids, Decode(text))
  }

  lemma SpellsTextConcat(pieces: map<nat, Word>, a: seq<int>, b: seq<int>, s: string, t: string)
    requires SpellsText(pieces, a, s) && SpellsText(pieces, b, t)
    ensures SpellsText(pieces, a + b, s + t)
  {
    SegmentsConcat(pieces, a, b, Decode(s), Decode(t));
    DecodeConcat(s, t);
  }

  lemma SpellsTextJoin(pieces: map<nat, Word>, ids: seq<int>, k: nat, s: string, t: string)
    requires k <= |ids| && SpellsText(pieces, ids[..k], s) && SpellsText(pieces, ids[k..], t)
    ensures SpellsText(pieces, ids, s + t)
  {
    SpellsTextConcat(pieces, ids[..k], ids[k..], s, t);
    assert ids == ids[..k] + ids[k..];
  }

  lemma OneSymbolSpells(tok: Tokenizer, vocabulary: int, pieces: map<nat, Word>, symbol: string)
    requires VocabularyOk(tok, vocabulary) && VocabularySpelled(tok, pieces) && symbol in tok.vocab
    ensures SpellsText(pieces, [tok.vocab[symbol]], symbol)
  {
    var id: nat := tok.vocab[symbol];
    assert Spells(pieces, id, Decode(symbol));
    assert Spelling(pieces, [id]) == pieces[id] + [];
  }

  lemma {:induction false} LookedSpells(tok: Tokenizer, vocabulary: int, pieces: map<nat, Word>,
                                        symbols: seq<string>, ids: seq<int>)
    requires VocabularyOk(tok, vocabulary) && VocabularySpelled(tok, pieces) && Looked(tok.vocab, symbols, ids)
    ensures SpellsText(pieces, ids, Flatten(symbols))
    decreases |symbols|
  {
    if symbols != [] {
      LookedSpells(tok, vocabulary, pieces, symbols[1..], ids[1..]);
      OneSymbolSpells(tok, vocabulary, pieces, symbols[0]);
      SpellsTextConcat(pieces, [ids[0]], ids[1..], symbols[0], Flatten(symbols[1..]));
      assert ids == [ids[0]] + ids[1..];
    }
  }

  lemma CanonicalSpells(tok: Tokenizer, vocabulary: int, pieces: map<nat, Word>, merges: Merges,
                        token: string, ids: seq<int>)
    requires VocabularyOk(tok, vocabulary) && VocabularySpelled(tok, pieces)
    requires Canonical(tok.vocab, merges, token, ids)
    ensures SpellsText(pieces, ids, token)
  {
    var steps, symbols :| Derives(merges, Chars(token), steps, symbols) && Settled(merges, symbols)
                          && Flatten(symbols) == token && Looked(tok.vocab, symbols, ids);
    LookedSpells(tok, vocabulary, pieces, symbols, ids);
  }

  lemma FlattenLast(tokens: seq<string>)
    requires tokens != []
    ensures Flatten(tokens) == Flatten(tokens[..|tokens| - 1]) + tokens[|tokens| - 1]
  {
    var n := |tokens| - 1;
    FlattenConcat(tokens[..n], [tokens[n]]);
    assert tokens == tokens[..n] + [tokens[n]];
    assert Flatten([tokens[n]]) == tokens[n] + "";
  }

  lemma {:induction false} CanonicalTextSpells(tok: Tokenizer, vocabulary: int, pieces: map<nat, Word>, merges: Merges,
                                               tokens: seq<string>, ids: seq<int>)
    requires VocabularyOk(tok, vocabulary) && VocabularySpelled(tok, pieces)
    requires CanonicalText(tok.vocab, merges, tokens, ids)
    ensures SpellsText(pieces, ids, Flatten(tokens))
    decreases |tokens|
  {
    if tokens != [] {
      var n := |tokens| - 1;
      var k :| 0 <= k <= |ids| && CanonicalText(tok.vocab, merges, tokens[..n], ids[..k])
               && Canonical(tok.vocab, merges, tokens[n], ids[k..]);
      CanonicalTextSpells(tok, vocabulary, pieces, merges, tokens[..n], ids[..k]);
      CanonicalSpells(tok, vocabulary, pieces, merges, tokens[n], ids[k..]);
      SpellsTextJoin(pieces, ids, k, Flatten(tokens[..n]), tokens[n]);
      FlattenLast(tokens);
    }
  }

  /** The pre-tokens of a split that matched no added token. */
  function PlainText(segments: seq<Segment>): string {
    if segments == [] then ""
    else PlainText(segments[..|segments| - 1]) +
         (if segments[|segments| - 1].Text? then Flatten(segments[|segments| - 1].tokens) else "")
  }

  lemma {:induction false} EncodedSpells(tok: Tokenizer, vocabulary: int, pieces: map<nat, Word>, merges: Merges,
                                         segments: seq<Segment>, ids: seq<int>)
    requires VocabularyOk(tok, vocabulary) && VocabularySpelled(tok, pieces)
    requires Encoded(tok.vocab, merges, segments, ids) && forall s | s in segments :: s.Text?
    ensures SpellsText(pieces, ids, PlainText(segments))
    decreases |segments|
  {
    if segments != [] {
      var n := |segments| - 1;
      var k :| 0 <= k <= |ids| && Encoded(tok.vocab, merges, segments[..n], ids[..k])
               && SegmentEncoded(tok.vocab, merges, segments[n], ids[k..]);
      EncodedSpells(tok, vocabulary, pieces, merges, segments[..n], ids[..k]);
      CanonicalTextSpells(tok, vocabulary, pieces, merges, segments[n].tokens, ids[k..]);
      SpellsTextJoin(pieces, ids, k, PlainText(segments[..n]), Flatten(segments[n].tokens));
    }
  }

  /**
   The tokenizer meets the compiler: however the text of a language word is split,
   its encoding followed by EOS drives the compiled automaton to acceptance.
   */
  lemma CanonicalAccepted(tok: Tokenizer, vocabulary: int, eos: nat, pieces: map<nat, Word>, lang: FiniteLanguage,
                          merges: Merges, segments: seq<Segment>, ids: seq<nat>, word: Word)
    requires Admitted(tok, vocabulary, eos) && PiecesFor(tok, pieces)
    requires Faithful(lang, pieces) && lang.eos == eos && word in lang.words
    requires Encoded(tok.vocab, merges, segments, ids) && forall s | s in segments :: s.Text?
    requires IsByteLevel(PlainText(segments)) && Decode(PlainText(segments)) == word
    ensures Accepts(lang.transitions, 0, ids + [eos])
  {
    EncodedSpells(tok, vocabulary, pieces, merges, segments, ids);
    var toks := ids + [eos];
    assert toks[..|toks| - 1] == ids;
    assert Sentence(pieces, eos, lang.words, toks);
  }
}
