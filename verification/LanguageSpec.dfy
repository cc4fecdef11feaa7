/**
 The meaning of a finite byte language over a token vocabulary, and of the
 automata that `compile_language` builds for it.

 A transition row (a tuple of (token, destination) pairs sorted by token, with
 distinct tokens) is a `map`; destination `ACCEPT` (-1) is the final state.
 */
module LanguageSpec {
  import opened Wrappers

  type Byte = b: int | 0 <= b < 256
  type Word = seq<Byte>
  type Row = map<nat, int>

  const ACCEPT := -1
  const MAX_LANGUAGE_BYTES := 4096
  const MAX_EDGES := 65536

  /** What `tokenizer_pieces` guarantees: no empty piece, and EOS spells nothing. */
  ghost predicate ValidPieces(pieces: map<nat, Word>, eos: nat) {
    eos !in pieces && forall t | t in pieces :: pieces[t] != []
  }

  /** The bytes a token sequence decodes to. */
  ghost function Spelling(pieces: map<nat, Word>, toks: seq<nat>): Word
    requires forall t | t in toks :: t in pieces
  {
    if toks == [] then [] else pieces[toks[0]] + Spelling(pieces, toks[1..])
  }

  /** `toks` is one segmentation of `word` into vocabulary pieces. */
  ghost predicate Segments(pieces: map<nat, Word>, toks: seq<nat>, word: Word) {
    (forall t | t in toks :: t in pieces) && Spelling(pieces, toks) == word
  }

  /** The denotational language: any segmentation of any word, then EOS. */
  ghost predicate Sentence(pieces: map<nat, Word>, eos: nat, words: seq<Word>, toks: seq<nat>) {
    && toks != []
    && toks[|toks| - 1] == eos
    && exists word | word in words :: Segments(pieces, toks[..|toks| - 1], word)
  }

  lemma {:induction false} SpellingAppend(pieces: map<nat, Word>, toks: seq<nat>, t: nat)
    requires forall u | u in toks :: u in pieces
    requires t in pieces
    ensures Spelling(pieces, toks + [t]) == Spelling(pieces, toks) + pieces[t]
  {
    if toks == [] {
      assert toks + [t] == [t];
    } else {
      assert (toks + [t])[1..] == toks[1..] + [t];
      SpellingAppend(pieces, toks[1..], t);
    }
  }

  lemma {:induction false} SpellingLength(pieces: map<nat, Word>, eos: nat, toks: seq<nat>)
    requires ValidPieces(pieces, eos)
    requires forall t | t in toks :: t in pieces
    ensures |toks| <= |Spelling(pieces, toks)|
  {
    if toks != [] {
      SpellingLength(pieces, eos, toks[1..]);
    }
  }

  // ----- Automata whose edges only go to later states or to ACCEPT

  ghost predicate WellFormed(rows: seq<Row>) {
    forall s, t | 0 <= s < |rows| && t in rows[s] :: rows[s][t] == ACCEPT || s < rows[s][t] < |rows|
  }

  /** The state reached from `s` by reading `toks`, or None when stuck. */
  ghost function Walk(rows: seq<Row>, s: int, toks: seq<nat>): (d: Option<int>)
    requires WellFormed(rows)
    requires s == ACCEPT || 0 <= s < |rows|
    ensures d.Some? ==> d.value == ACCEPT || 0 <= d.value < |rows|
    decreases |toks|
  {
    if toks == [] then Some(s)
    else if s == ACCEPT || toks[0] !in rows[s] then None
    else Walk(rows, rows[s][toks[0]], toks[1..])
  }

  ghost predicate Accepts(rows: seq<Row>, s: int, toks: seq<nat>)
    requires WellFormed(rows)
    requires s == ACCEPT || 0 <= s < |rows|
  {
    Walk(rows, s, toks) == Some(ACCEPT)
  }

  lemma {:induction false} WalkAppend(rows: seq<Row>, s: int, toks: seq<nat>, t: nat)
    requires WellFormed(rows)
    requires s == ACCEPT || 0 <= s < |rows|
    ensures Walk(rows, s, toks + [t]) ==
            match Walk(rows, s, toks)
            case None => None
            case Some(d) => if d == ACCEPT || t !in rows[d] then None else Some(rows[d][t])
    decreases |toks|
  {
    if toks == [] {
      assert toks + [t] == [t];
      assert [t][1..] == [];
    } else if s != ACCEPT && toks[0] in rows[s] {
      assert (toks + [t])[1..] == toks[1..] + [t];
      WalkAppend(rows, rows[s][toks[0]], toks[1..], t);
    }
  }

  // ----- Shortest completions

  /** Every entry is one more than the cheapest successor's entry. */
  ghost predicate ShortestTable(rows: seq<Row>, minimum: seq<nat>)
    requires WellFormed(rows)
  {
    && |minimum| == |rows|
    && (forall s, t | 0 <= s < |rows| && t in rows[s] :: minimum[s] <= EdgeCost(rows, minimum, s, t))
    && (forall s | 0 <= s < |rows| && rows[s] != map[] ::
          exists t :: t in rows[s] && minimum[s] == EdgeCost(rows, minimum, s, t))
  }

  ghost function EdgeCost(rows: seq<Row>, minimum: seq<nat>, s: nat, t: nat): nat
    requires WellFormed(rows) && s < |rows| && t in rows[s] && |minimum| == |rows|
  {
    if rows[s][t] == ACCEPT then 1 else minimum[rows[s][t]] + 1
  }

  lemma {:induction false} NothingShorter(rows: seq<Row>, minimum: seq<nat>, s: nat, toks: seq<nat>)
    requires WellFormed(rows) && ShortestTable(rows, minimum)
    requires s < |rows| && Accepts(rows, s, toks)
    ensures minimum[s] <= |toks|
    decreases |toks|
  {
    var d := rows[s][toks[0]];
    if d != ACCEPT {
      NothingShorter(rows, minimum, d, toks[1..]);
    }
    assert minimum[s] <= EdgeCost(rows, minimum, s, toks[0]);
  }

  /** In an automaton without dead states the table's bound is attained everywhere. */
  lemma {:induction false} ShortestWitness(rows: seq<Row>, minimum: seq<nat>, s: nat) returns (toks: seq<nat>)
    requires WellFormed(rows) && ShortestTable(rows, minimum)
    requires forall k | 0 <= k < |rows| :: rows[k] != map[]
    requires s < |rows|
    ensures Accepts(rows, s, toks) && |toks| == minimum[s]
    decreases |rows| - s
  {
    var t :| t in rows[s] && minimum[s] == EdgeCost(rows, minimum, s, t);
    var rest := [];
    if rows[s][t] != ACCEPT {
      rest := ShortestWitness(rows, minimum, rows[s][t]);
    }
    toks := [t] + rest;
    assert toks[1..] == rest;
  }
}
