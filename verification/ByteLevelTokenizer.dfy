/**
 Byte-level vocabularies: the printable alphabet that stands for the 256 bytes,
 and `tokenizer_pieces`, which turns a tokenizer file into the bytes of each
 token identifier.
 */
module ByteLevelTokenizer {
  import opened Wrappers
  import opened LanguageSpec

  const MAX_VOCABULARY := 262144
  const MAX_TOKENIZER_BYTES := 0x400_0000

  // ----- The byte alphabet

  predicate Printable(b: int) {
    33 <= b < 127 || 161 <= b < 173 || 174 <= b < 256
  }

  /** The byte that a character stands for, if it stands for one. */
  function ByteOf(c: int): (r: Option<Byte>)
    ensures r.Some? && c >= 256 ==> !Printable(r.value)
  {
    if Printable(c) then Some(c)
    else if 256 <= c < 289 then Some(c - 256)
    else if 289 <= c < 323 then Some(c - 289 + 127)
    else if c == 323 then Some(173)
    else None
  }

  function CodeOf(b: Byte): (c: nat)
    ensures ByteOf(c) == Some(b)
  {
    if Printable(b) then b
    else if b < 33 then b + 256
    else if b < 161 then b - 127 + 289
    else 323
  }

  /** The alphabet is a bijection between 256 characters and the 256 bytes. */
  lemma AlphabetBijective(c: int, d: int)
    requires ByteOf(c).Some?
    ensures CodeOf(ByteOf(c).value) == c
    ensures ByteOf(c) == ByteOf(d) ==> c == d
  {
  }

  /** How many bytes below `b` have no printable character of their own. */
  function UnprintableBelow(b: nat): nat {
    if b == 0 then 0 else UnprintableBelow(b - 1) + if Printable(b - 1) then 0 else 1
  }

  lemma {:induction false} UnprintableCount(b: nat)
    requires b <= 256
    ensures UnprintableBelow(b) ==
            if b <= 33 then b else if b <= 127 then 33 else if b <= 161 then b - 94 else if b <= 173 then 67 else 68
  {
    if b > 0 {
      UnprintableCount(b - 1);
    }
  }

  /** Printable bytes stand for themselves, and the others for the characters from 256 on, in order. */
  lemma AlphabetOrder(b: Byte)
    ensures CodeOf(b) == if Printable(b) then b else 256 + UnprintableBelow(b)
  {
    UnprintableCount(b);
  }

  predicate IsByteLevel(s: string) {
    forall i | 0 <= i < |s| :: ByteOf(s[i] as int).Some?
  }

  function Decode(s: string): (w: Word)
    requires IsByteLevel(s)
    ensures |w| == |s| && forall i | 0 <= i < |s| :: CodeOf(w[i]) == s[i] as int
  {
    assert forall i | 0 <= i < |s| :: CodeOf(ByteOf(s[i] as int).value) == s[i] as int;
    seq(|s|, i requires 0 <= i < |s| => ByteOf(s[i] as int).value)
  }

  lemma DecodeConcat(a: string, b: string)
    requires IsByteLevel(a) && IsByteLevel(b)
    ensures IsByteLevel(a + b) && Decode(a + b) == Decode(a) + Decode(b)
  {
  }

  // ----- Tokenizer files

  /** One `added_tokens` entry with its matching flags. */
  datatype Added = Added(id: int, special: bool, content: string,
                         singleWord: bool, lstrip: bool, rstrip: bool, normalized: bool)
  {
    predicate Plain() {
      !singleWord && !lstrip && !rstrip && !normalized
    }
  }

  /** The kind of model and decoder, and which optional settings of the model are switched on. */
  datatype Model = Model(kind: string, dropout: bool, unknownToken: bool, subwordPrefix: bool, wordSuffix: bool,
                         byteFallback: bool, ignoreMerges: bool, decoder: string)
  {
    /** Decoding must not depend on context. */
    predicate Supported() {
      && kind == "BPE" && decoder == "ByteLevel"
      && !dropout && !unknownToken && !subwordPrefix && !wordSuffix && !byteFallback && !ignoreMerges
    }
  }

  /** A parsed tokenizer file of `size` bytes. */
  datatype Tokenizer = Tokenizer(size: nat, model: Model, vocab: map<string, int>, added: seq<Added>)

  predicate TokenText(s: string) {
    1 <= |s| <= MAX_LANGUAGE_BYTES
  }

  predicate VocabularyOk(tok: Tokenizer, vocabulary: int) {
    && (forall s | s in tok.vocab :: 0 <= tok.vocab[s] < vocabulary && TokenText(s) && IsByteLevel(s))
    && (forall s, u | s in tok.vocab && u in tok.vocab && s != u :: tok.vocab[s] != tok.vocab[u])
  }

  /** The k-th added token is admissible after the vocabulary and the earlier added tokens. */
  predicate EntryOk(tok: Tokenizer, vocabulary: int, k: nat)
    requires k < |tok.added|
  {
    var a := tok.added[k];
    && 0 <= a.id < vocabulary && 1 <= |a.content| <= 4096
    && !a.singleWord && !a.lstrip && !a.rstrip && !a.normalized
    && (!a.special ==> IsByteLevel(a.content))
    && (forall s | s in tok.vocab :: tok.vocab[s] != a.id)
    && (forall j | 0 <= j < k :: tok.added[j].id != a.id)
  }

  predicate AddedOk(tok: Tokenizer, vocabulary: int, n: nat)
    requires n <= |tok.added|
  {
    forall k | 0 <= k < n :: EntryOk(tok, vocabulary, k)
  }

  /** Exactly the tokenizers that `tokenizer_pieces` does not reject. */
  predicate Admitted(tok: Tokenizer, vocabulary: int, eos: int) {
    && 1 <= vocabulary <= MAX_VOCABULARY && 0 <= eos < vocabulary
    && 1 <= tok.size <= 0x400_0000
    && tok.model.kind == "BPE" && tok.model.decoder == "ByteLevel"
    && !tok.model.dropout && !tok.model.unknownToken && !tok.model.subwordPrefix && !tok.model.wordSuffix
    && !tok.model.byteFallback && !tok.model.ignoreMerges
    && 1 <= |tok.vocab| <= MAX_VOCABULARY && |tok.added| <= 256
    && VocabularyOk(tok, vocabulary)
    && AddedOk(tok, vocabulary, |tok.added|)
    && exists k | 0 <= k < |tok.added| :: tok.added[k].special && tok.added[k].id == eos
  }

  ghost predicate Spells(pieces: map<nat, Word>, id: int, w: Word) {
    id in pieces && pieces[id] == w
  }

  /** Vocabulary and ordinary added tokens spell their decoded text; nothing else does. */
  ghost predicate PiecesFor(tok: Tokenizer, pieces: map<nat, Word>) {
    && VocabularySpelled(tok, pieces)
    && AddedSpelled(tok, |tok.added|, pieces)
    && (forall t | t in pieces :: InVocabulary(tok, t) || HasAdded(tok, |tok.added|, false, t))
  }

  /** Spelling of the vocabulary entries, or None on an invalid or duplicate entry. */
  method VocabularyPieces(tok: Tokenizer, vocabulary: int) returns (r: Option<map<nat, Word>>)
    ensures r.Some? <==> VocabularyOk(tok, vocabulary)
    ensures r.Some? ==> VocabularySpelled(tok, r.value)
    ensures r.Some? ==> forall t | t in r.value :: InVocabulary(tok, t)
  {
    var pieces: map<nat, Word> := map[];
    var todo := tok.vocab.Keys;
    while todo != {}
      invariant todo <= tok.vocab.Keys
      invariant forall s | s in tok.vocab && s !in todo ::
                  && 0 <= tok.vocab[s] < vocabulary && TokenText(s) && IsByteLevel(s)
                  && Spells(pieces, tok.vocab[s], Decode(s))
      invariant forall s, u | s in tok.vocab && u in tok.vocab && s !in todo && u !in todo && s != u ::
                  tok.vocab[s] != tok.vocab[u]
      invariant forall t | t in pieces :: exists s | s in tok.vocab && s !in todo :: tok.vocab[s] == t
    {
      var s :| s in todo;
      var index := tok.vocab[s];
      if !(0 <= index < vocabulary) || index in pieces || !TokenText(s) || !IsByteLevel(s) {
        return None;
      }
      pieces := pieces[index := Decode(s)];
      todo := todo - {s};
      assert tok.vocab[s] == index;
    }
    return Some(pieces);
  }

  ghost predicate HasAdded(tok: Tokenizer, n: nat, special: bool, t: int)
    requires n <= |tok.added|
  {
    exists k | 0 <= k < n :: tok.added[k].special == special && tok.added[k].id == t
  }

  ghost predicate InVocabulary(tok: Tokenizer, t: int) {
    exists s | s in tok.vocab :: tok.vocab[s] == t
  }

  ghost predicate Taken(tok: Tokenizer, n: nat, t: int)
    requires n <= |tok.added|
  {
    InVocabulary(tok, t) || exists k | 0 <= k < n :: tok.added[k].id == t
  }

  ghost predicate VocabularySpelled(tok: Tokenizer, pieces: map<nat, Word>) {
    forall s | s in tok.vocab && IsByteLevel(s) :: Spells(pieces, tok.vocab[s], Decode(s))
  }

  ghost predicate AddedSpelled(tok: Tokenizer, n: nat, pieces: map<nat, Word>)
    requires n <= |tok.added|
  {
    forall k | 0 <= k < n && !tok.added[k].special && IsByteLevel(tok.added[k].content) ::
      Spells(pieces, tok.added[k].id, Decode(tok.added[k].content))
  }

  /** Spelling extended by the ordinary added tokens, with the special identifiers. */
  method AddedPieces(tok: Tokenizer, vocabulary: int, start: map<nat, Word>)
    returns (r: Option<map<nat, Word>>, special: set<int>)
    requires VocabularyOk(tok, vocabulary)
    requires VocabularySpelled(tok, start)
    requires forall t | t in start :: InVocabulary(tok, t)
    ensures r.Some? <==> AddedOk(tok, vocabulary, |tok.added|)
    ensures r.Some? ==> PiecesFor(tok, r.value)
    ensures r.Some? ==> forall t :: t in special <==> HasAdded(tok, |tok.added|, true, t)
  {
    var pieces: map<nat, Word> := start;
    var ids: set<int> := set t | t in start :: t as int;
    special := {};
    for k := 0 to |tok.added|
      invariant AddedOk(tok, vocabulary, k)
      invariant forall t :: t in ids <==> Taken(tok, k, t)
      invariant forall t :: t in special <==> HasAdded(tok, k, true, t)
      invariant AddedSpelled(tok, k, pieces) && VocabularySpelled(tok, pieces)
      invariant forall t | t in pieces :: InVocabulary(tok, t) || HasAdded(tok, k, false, t)
      invariant forall t | t in pieces :: t in ids
    {
      var a := tok.added[k];
      var ok := 0 <= a.id < vocabulary && a.id !in ids && TokenText(a.content) && a.Plain()
                && (a.special || IsByteLevel(a.content));
      assert ok <==> EntryOk(tok, vocabulary, k);
      if !ok {
        return None, special;
      }
      if a.special {
        special := special + {a.id};
      } else {
        ghost var before := pieces;
        pieces := pieces[a.id := Decode(a.content)];
        SpelledStep(tok, k, before, pieces);
      }
      ids := ids + {a.id};
      HasAddedStep(tok, k);
    }
    return Some(pieces), special;
  }

  lemma SpelledStep(tok: Tokenizer, k: nat, before: map<nat, Word>, after: map<nat, Word>)
    requires k < |tok.added| && tok.added[k].id >= 0 && IsByteLevel(tok.added[k].content)
    requires AddedSpelled(tok, k, before) && VocabularySpelled(tok, before)
    requires tok.added[k].id !in before && after == before[tok.added[k].id := Decode(tok.added[k].content)]
    ensures AddedSpelled(tok, k + 1, after) && VocabularySpelled(tok, after)
  {
  }

  lemma HasAddedStep(tok: Tokenizer, k: nat)
    requires k < |tok.added|
    ensures forall s, t :: HasAdded(tok, k + 1, s, t) <==>
                           HasAdded(tok, k, s, t) || (s == tok.added[k].special && t == tok.added[k].id)
    ensures forall t :: Taken(tok, k + 1, t) <==> Taken(tok, k, t) || t == tok.added[k].id
  {
    forall s, t
      ensures HasAdded(tok, k + 1, s, t) <==>
              HasAdded(tok, k, s, t) || (s == tok.added[k].special && t == tok.added[k].id)
    {
      var a := tok.added[k];
      assert a.special == s && a.id == t ==>
               exists j | 0 <= j < k + 1 :: tok.added[j].special == s && tok.added[j].id == t;
    }
    forall t ensures Taken(tok, k + 1, t) <==> Taken(tok, k, t) || t == tok.added[k].id {
      assert tok.added[k].id == t ==> exists j | 0 <= j < k + 1 :: tok.added[j].id == t;
    }
  }

  method TokenizerPieces(tok: Tokenizer, vocabulary: int, eos: int) returns (r: Option<map<nat, Word>>)
    ensures r.Some? <==> Admitted(tok, vocabulary, eos)
    ensures r.Some? ==> PiecesFor(tok, r.value) && ValidPieces(r.value, eos)
    ensures r.Some? ==> forall t | t in r.value :: t < vocabulary
  {
    if !(1 <= tok.size <= MAX_TOKENIZER_BYTES) || !(1 <= vocabulary <= MAX_VOCABULARY && 0 <= eos < vocabulary) {
      return None;
    }
    if !tok.model.Supported() || !(1 <= |tok.vocab| <= MAX_VOCABULARY) || |tok.added| > 256 {
      return None;
    }
    r := VocabularyPieces(tok, vocabulary);
    if r.Some? {
      var special;
      r, special := AddedPieces(tok, vocabulary, r.value);
      if r.Some? && eos !in special {
        return None;
      }
      if r.Some? {
        PiecesValid(tok, vocabulary, eos, r.value);
      }
    }
  }

  lemma PiecesValid(tok: Tokenizer, vocabulary: int, eos: int, pieces: map<nat, Word>)
    requires Admitted(tok, vocabulary, eos) && PiecesFor(tok, pieces)
    ensures ValidPieces(pieces, eos) && forall t | t in pieces :: t < vocabulary
  {
    var e :| 0 <= e < |tok.added| && tok.added[e].special && tok.added[e].id == eos;
    assert EntryOk(tok, vocabulary, e);
    forall t | t in pieces ensures t != eos && t < vocabulary && pieces[t] != [] {
      if InVocabulary(tok, t) {
        var s :| s in tok.vocab && tok.vocab[s] == t;
        assert Spells(pieces, tok.vocab[s], Decode(s));
      } else {
        var k :| 0 <= k < |tok.added| && tok.added[k].special == false && tok.added[k].id == t;
        assert EntryOk(tok, vocabulary, k);
        assert Spells(pieces, tok.added[k].id, Decode(tok.added[k].content));
      }
    }
  }
}
