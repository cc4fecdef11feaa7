/**
 The words of a finite language: their admission checks and their order. The
 compiler sorts the encoded words first; no check and no count depends on it.
 */
module LanguageWords {
  import opened LanguageSpec
  import opened LanguageBuild
  import opened Sequences

  predicate WordsOk(words: seq<Word>) {
    1 <= |words| <= 32 && forall w | w in words :: w != []
  }

  function TotalBytes(words: seq<Word>): nat {
    if words == [] then 0 else |words[0]| + TotalBytes(words[1..])
  }

  /** All words, one after the other. */
  function Concatenation(words: seq<Word>): Word {
    if words == [] then [] else words[0] + Concatenation(words[1..])
  }

  /** `sum(map(len, words))` is the length of all words written out. */
  lemma {:induction false} TotalBytesWritten(words: seq<Word>)
    ensures TotalBytes(words) == |Concatenation(words)|
  {
    if words != [] {
      TotalBytesWritten(words[1..]);
    }
  }

  predicate SizesOk(words: seq<Word>) {
    && (forall i, j | 0 <= i < j < |words| :: words[i] != words[j])
    && TotalBytes(words) <= MAX_LANGUAGE_BYTES
    && forall w | w in words :: |w| <= 256
  }

  function InsertWord(s: seq<Word>, w: Word): (r: seq<Word>)
    ensures multiset(r) == multiset(s) + multiset{w} && |r| == |s| + 1
  {
    if s == [] || LexLeq(w, s[0]) then [w] + s
    else
      assert s == [s[0]] + s[1..];
      [s[0]] + InsertWord(s[1..], w)
  }

  /** `sorted(words)`. */
  function SortWords(words: seq<Word>): (r: seq<Word>)
    ensures multiset(r) == multiset(words) && |r| == |words|
  {
    if words == [] then []
    else
      assert words == [words[0]] + words[1..];
      InsertWord(SortWords(words[1..]), words[0])
  }

  ghost predicate InByteOrder(s: seq<Word>) {
    forall i, j | 0 <= i < j < |s| :: LexLeq(s[i], s[j])
  }

  lemma {:induction false} InsertInOrder(s: seq<Word>, w: Word)
    requires InByteOrder(s)
    ensures InByteOrder(InsertWord(s, w))
  {
    if s == [] {
    } else if LexLeq(w, s[0]) {
      forall j | 0 < j < |s| ensures LexLeq(w, s[j]) {
        LexTransitive(w, s[0], s[j]);
      }
    } else {
      LexTotal(w, s[0]);
      InsertInOrder(s[1..], w);
      var rest := InsertWord(s[1..], w);
      forall j | 0 <= j < |rest| ensures LexLeq(s[0], rest[j]) {
        assert rest[j] in multiset(rest);
        assert rest[j] == w || rest[j] in s[1..];
      }
    }
  }

  lemma {:induction false} SortInByteOrder(words: seq<Word>)
    ensures InByteOrder(SortWords(words))
  {
    if words != [] {
      SortInByteOrder(words[1..]);
      InsertInOrder(SortWords(words[1..]), words[0]);
    }
  }

  lemma SameMembers(words: seq<Word>, w: Word)
    ensures w in SortWords(words) <==> w in words
  {
    assert w in SortWords(words) <==> w in multiset(SortWords(words));
    assert w in words <==> w in multiset(words);
  }

  lemma {:induction false} InsertTotal(s: seq<Word>, w: Word)
    ensures TotalBytes(InsertWord(s, w)) == |w| + TotalBytes(s)
  {
    if s == [] || LexLeq(w, s[0]) {
      assert ([w] + s)[1..] == s;
    } else {
      InsertTotal(s[1..], w);
      assert InsertWord(s, w)[1..] == InsertWord(s[1..], w);
    }
  }

  lemma {:induction false} SortTotal(words: seq<Word>)
    ensures TotalBytes(SortWords(words)) == TotalBytes(words)
  {
    if words != [] {
      SortTotal(words[1..]);
      InsertTotal(SortWords(words[1..]), words[0]);
    }
  }

  /** A sequence is without repetitions when no element is counted twice. */
  lemma {:induction false} DistinctIffCounted(s: seq<Word>)
    ensures Distinct(s) <==> forall w :: multiset(s)[w] <= 1
  {
    if s != [] {
      var head, rest := s[0], s[1..];
      assert s == [head] + rest;
      DistinctIffCounted(rest);
      assert multiset(s) == multiset{head} + multiset(rest);
      if Distinct(s) {
        assert head !in rest;
      }
      if forall w :: multiset(s)[w] <= 1 {
        assert multiset(s)[head] <= 1;
        forall w ensures multiset(rest)[w] <= 1 {
          assert multiset(s)[w] <= 1;
        }
        assert head !in multiset(rest);
        assert forall j | 0 <= j < |rest| :: rest[j] in multiset(rest);
      }
    }
  }

  /** Sorting changes no check, no member and no edge. */
  lemma SortKeepsChecks(words: seq<Word>)
    ensures WordsOk(SortWords(words)) <==> WordsOk(words)
    ensures SizesOk(SortWords(words)) <==> SizesOk(words)
    ensures forall w :: w in SortWords(words) <==> w in words
  {
    forall w ensures w in SortWords(words) <==> w in words {
      SameMembers(words, w);
    }
    SortTotal(words);
    DistinctIffCounted(words);
    DistinctIffCounted(SortWords(words));
  }

  lemma SortKeepsEdges(pieces: map<nat, Word>, eos: nat, words: seq<Word>)
    ensures EdgePairs(pieces, eos, SortWords(words)) == EdgePairs(pieces, eos, words)
  {
    SortKeepsChecks(words);
    var sorted := SortWords(words);
    assert PrefixSet(sorted) == PrefixSet(words);
    forall p, t ensures Continues(pieces, eos, sorted, p, t) <==> Continues(pieces, eos, words, p, t) {
      assert t in pieces ==> (PrefixOfSome(p + pieces[t], sorted) <==> PrefixOfSome(p + pieces[t], words));
    }
  }
}
