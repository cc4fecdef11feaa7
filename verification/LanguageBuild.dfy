/**
 The build phase of `compile_language`: numbering the prefixes of all words and
 linking them by vocabulary pieces. The built automaton accepts exactly the
 sentences of the language, but may hold dead and unreachable states.
 */
module LanguageBuild {
  import opened Wrappers
  import opened LanguageSpec
  import opened Sequences

  // ----- Prefixes in (length, bytes) order

  predicate PrefixLeq(p: Word, q: Word) {
    |p| < |q| || (|p| == |q| && LexLeq(p, q))
  }

  ghost predicate Ordered(s: seq<Word>) {
    forall i, j | 0 <= i < j < |s| :: PrefixLeq(s[i], s[j])
  }

  ghost predicate Distinct<T>(s: seq<T>) {
    forall i, j | 0 <= i < j < |s| :: s[i] != s[j]
  }

  method InsertOrdered(s: seq<Word>, p: Word) returns (r: seq<Word>)
    requires Ordered(s) && Distinct(s) && p !in s
    ensures Ordered(r) && Distinct(r)
    ensures forall q :: q in r <==> q in s || q == p
  {
    var k := 0;
    while k < |s| && PrefixLeq(s[k], p)
      invariant k <= |s|
      invariant forall i | 0 <= i < k :: PrefixLeq(s[i], p)
    {
      k := k + 1;
    }
    r := s[..k] + [p] + s[k..];
    forall j | k <= j < |s| ensures PrefixLeq(p, s[j]) {
      LexTotal(p, s[k]);
      if k < j && |p| == |s[k]| == |s[j]| {
        LexTransitive(p, s[k], s[j]);
      }
    }
    forall q ensures q in r <==> q in s || q == p {
      assert s == s[..k] + s[k..];
    }
  }

  ghost predicate PrefixOfSome(p: Word, words: seq<Word>) {
    exists w | w in words :: p <= w
  }

  /** The distinct prefixes of all words, shortest first. */
  method Prefixes(words: seq<Word>) returns (prefixes: seq<Word>)
    ensures Ordered(prefixes) && Distinct(prefixes)
    ensures forall p :: p in prefixes <==> PrefixOfSome(p, words)
  {
    prefixes := [];
    for k := 0 to |words|
      invariant Ordered(prefixes) && Distinct(prefixes)
      invariant forall p :: p in prefixes <==> exists j | 0 <= j < k :: p <= words[j]
    {
      ghost var before := prefixes;
      for i := 0 to |words[k]| + 1
        invariant Ordered(prefixes) && Distinct(prefixes)
        invariant forall p :: p in prefixes <==> p in before || (p <= words[k] && |p| < i)
      {
        var p := words[k][..i];
        if p !in prefixes {
          prefixes := InsertOrdered(prefixes, p);
        }
        assert forall q :: q <= words[k] && |q| == i ==> q == p;
      }
    }
    forall p ensures p in prefixes <==> PrefixOfSome(p, words) {
      if PrefixOfSome(p, words) {
        var w :| w in words && p <= w;
        var j :| 0 <= j < |words| && words[j] == w;
        assert p <= words[j];
      }
      if p in prefixes {
        var j :| 0 <= j < |words| && p <= words[j];
        assert words[j] in words;
      }
    }
  }

  // ----- The untrimmed automaton

  /** The inputs of the build phase: vocabulary, words, and numbered prefixes. */
  datatype Source = Source(pieces: map<nat, Word>, eos: nat, words: seq<Word>,
                           prefixes: seq<Word>, positions: map<Word, nat>)
  {
    ghost predicate Valid() {
      && ValidPieces(pieces, eos)
      && Ordered(prefixes) && Distinct(prefixes)
      && (forall p :: p in prefixes <==> PrefixOfSome(p, words))
      && (forall p :: p in positions <==> p in prefixes)
      && (forall p | p in positions :: positions[p] < |prefixes| && prefixes[positions[p]] == p)
    }

    ghost predicate HasEdge(p: Word, t: nat) {
      if t == eos then p in words else t in pieces && p + pieces[t] in positions
    }

    /** Independent description of one row: every token that keeps a prefix of some word. */
    ghost function RowAt(p: Word): Row {
      map t | t in pieces.Keys + {eos} && HasEdge(p, t) ::
        if t == eos then ACCEPT else positions[p + pieces[t]]
    }

    ghost function Rows(): (rows: seq<Row>)
      ensures |rows| == |prefixes|
    {
      seq(|prefixes|, i requires 0 <= i < |prefixes| => RowAt(prefixes[i]))
    }
  }

  ghost function EdgeCount(rows: seq<Row>): nat {
    if rows == [] then 0 else EdgeCount(rows[..|rows| - 1]) + |rows[|rows| - 1]|
  }

  lemma {:induction false} EdgeCountPrefix(rows: seq<Row>, n: nat)
    requires n <= |rows|
    ensures EdgeCount(rows[..n]) <= EdgeCount(rows)
    decreases |rows|
  {
    if n < |rows| {
      EdgeCountPrefix(rows[..|rows| - 1], n);
      assert rows[..|rows| - 1][..n] == rows[..n];
    } else {
      assert rows[..n] == rows;
    }
  }

  lemma ShorterFirst(prefixes: seq<Word>, i: nat, j: nat)
    requires Ordered(prefixes) && i <= j < |prefixes|
    ensures |prefixes[i]| <= |prefixes[j]|
  {
    assert i < j ==> PrefixLeq(prefixes[i], prefixes[j]);
  }

  lemma RowsWellFormed(src: Source)
    requires src.Valid()
    ensures WellFormed(src.Rows())
  {
    var rows := src.Rows();
    forall s, t | 0 <= s < |rows| && t in rows[s]
      ensures rows[s][t] == ACCEPT || s < rows[s][t] < |rows|
    {
      if t != src.eos {
        var p := src.prefixes[s];
        var d := src.positions[p + src.pieces[t]];
        assert |src.prefixes[d]| > |p|;
        if d <= s {
          ShorterFirst(src.prefixes, d, s);
        }
      }
    }
  }

  /** Tokens grouped by their bytes. */
  method GroupByPiece(pieces: map<nat, Word>) returns (byPiece: map<Word, set<nat>>)
    ensures GroupsPieces(byPiece, pieces)
  {
    byPiece := map[];
    var todo := pieces.Keys;
    while todo != {}
      invariant todo <= pieces.Keys
      invariant forall x, t :: (x in byPiece && t in byPiece[x]) <==>
                               (t in pieces && t !in todo && pieces[t] == x)
    {
      var t :| t in todo;
      var x := pieces[t];
      byPiece := byPiece[x := (if x in byPiece then byPiece[x] else {}) + {t}];
      todo := todo - {t};
    }
  }

  /** Every edge is one that the row should hold. */
  ghost predicate RowSound(src: Source, p: Word, edges: Row) {
    forall t | t in edges :: t in src.RowAt(p) && edges[t] == src.RowAt(p)[t]
  }

  /** Every piece that continues `p` along one of the first `n` words has its edge. */
  ghost predicate RowCovers(src: Source, p: Word, edges: Row, n: nat)
    requires n <= |src.words|
  {
    forall t, j | t in src.pieces && 0 <= j < n && p + src.pieces[t] <= src.words[j] :: t in edges
  }

  ghost predicate GroupsPieces(byPiece: map<Word, set<nat>>, pieces: map<nat, Word>) {
    forall x, t :: (x in byPiece && t in byPiece[x]) <==> (t in pieces && pieces[t] == x)
  }

  /** Edges out of prefix `p` along one word: every vocabulary piece that continues it. */
  method EdgesAlong(src: Source, byPiece: map<Word, set<nat>>, p: Word, word: Word, start: Row)
    returns (edges: Row)
    requires src.Valid() && word in src.words && p <= word
    requires GroupsPieces(byPiece, src.pieces) && RowSound(src, p, start)
    ensures RowSound(src, p, edges)
    ensures forall t | t in start :: t in edges
    ensures forall t | t in src.pieces && p + src.pieces[t] <= word :: t in edges
  {
    edges := start;
    for end := |p| + 1 to |word| + 1
      invariant RowSound(src, p, edges)
      invariant forall t | t in start :: t in edges
      invariant forall t | t in src.pieces && p + src.pieces[t] <= word && |p + src.pieces[t]| < end :: t in edges
    {
      var x := word[|p|..end];
      assert p + x == word[..end];
      assert PrefixOfSome(word[..end], src.words);
      var tokens := if x in byPiece then byPiece[x] else {};
      edges := edges + map t | t in tokens :: src.positions[word[..end]];
      forall t | t in src.pieces && p + src.pieces[t] <= word && |p + src.pieces[t]| < end + 1
        ensures t in edges
      {
        if |p + src.pieces[t]| == end {
          assert p + src.pieces[t] == word[..end] == p + x;
          assert src.pieces[t] == (p + src.pieces[t])[|p|..] == (p + x)[|p|..] == x;
        }
      }
    }
  }

  /** A sound row that covers all words and has EOS where a word ends is the whole row. */
  lemma RowComplete(src: Source, p: Word, edges: Row)
    requires src.Valid() && RowSound(src, p, edges) && RowCovers(src, p, edges, |src.words|)
    requires p in src.words ==> src.eos in edges
    ensures edges == src.RowAt(p)
  {
    forall t | t in src.RowAt(p) ensures t in edges {
      if t != src.eos {
        assert PrefixOfSome(p + src.pieces[t], src.words);
        var w :| w in src.words && p + src.pieces[t] <= w;
        var j :| 0 <= j < |src.words| && src.words[j] == w;
        assert p + src.pieces[t] <= src.words[j];
      }
    }
  }

  lemma NothingAlong(src: Source, p: Word, word: Word)
    requires !(p <= word)
    ensures forall t | t in src.pieces :: !(p + src.pieces[t] <= word)
  {
  }

  method BuildRow(src: Source, byPiece: map<Word, set<nat>>, p: Word) returns (edges: Row)
    requires src.Valid() && GroupsPieces(byPiece, src.pieces)
    ensures edges == src.RowAt(p)
  {
    edges := if p in src.words then map[src.eos := ACCEPT] else map[];
    for k := 0 to |src.words|
      invariant RowSound(src, p, edges) && RowCovers(src, p, edges, k)
      invariant p in src.words ==> src.eos in edges
    {
      if p <= src.words[k] {
        edges := EdgesAlong(src, byPiece, p, src.words[k], edges);
      } else {
        NothingAlong(src, p, src.words[k]);
      }
    }
    RowComplete(src, p, edges);
  }

  lemma NextRow(all: seq<Row>, i: nat, row: Row)
    requires i < |all| && row == all[i]
    ensures all[..i] + [row] == all[..i + 1]
    ensures EdgeCount(all[..i + 1]) == EdgeCount(all[..i]) + |row|
  {
    var next := all[..i + 1];
    assert next[..|next| - 1] == all[..i];
  }

  /** All rows, or None once the running edge count passes MAX_EDGES. */
  method BuildRows(src: Source) returns (r: Option<seq<Row>>)
    requires src.Valid()
    ensures r.None? <==> EdgeCount(src.Rows()) > MAX_EDGES
    ensures r.Some? ==> r.value == src.Rows()
  {
    var byPiece := GroupByPiece(src.pieces);
    var rows: seq<Row>, count := [], 0;
    for i := 0 to |src.prefixes|
      invariant rows == src.Rows()[..i]
      invariant count == EdgeCount(rows) <= MAX_EDGES
    {
      var edges := BuildRow(src, byPiece, src.prefixes[i]);
      NextRow(src.Rows(), i, edges);
      count := count + |edges|;
      if count > MAX_EDGES {
        EdgeCountPrefix(src.Rows(), i + 1);
        return None;
      }
      rows := rows + [edges];
    }
    assert src.Rows()[..|src.prefixes|] == src.Rows();
    return Some(rows);
  }

  lemma EdgeMeaning(src: Source, s: nat, t: nat)
    requires src.Valid() && s < |src.prefixes|
    ensures t in src.Rows()[s] && t != src.eos <==>
            t in src.pieces && PrefixOfSome(src.prefixes[s] + src.pieces[t], src.words)
    ensures t in src.Rows()[s] && t != src.eos ==>
            src.Rows()[s][t] < |src.prefixes| && src.prefixes[src.Rows()[s][t]] == src.prefixes[s] + src.pieces[t]
    ensures t in src.Rows()[s] && t != src.eos ==> src.Rows()[s][t] >= 0
    ensures src.eos in src.Rows()[s] <==> src.prefixes[s] in src.words
    ensures src.eos in src.Rows()[s] ==> src.Rows()[s][src.eos] == ACCEPT
  {
  }

  /** An edge other than EOS extends the prefix labelling its state by the token's piece. */
  ghost predicate Labelled(rows: seq<Row>, prefixes: seq<Word>, pieces: map<nat, Word>) {
    && |rows| == |prefixes|
    && forall s, t | 0 <= s < |rows| && t in rows[s] && rows[s][t] != ACCEPT ::
         && t in pieces && 0 <= rows[s][t] < |rows|
         && prefixes[rows[s][t]] == prefixes[s] + pieces[t]
  }

  lemma RowsLabelled(src: Source)
    requires src.Valid()
    ensures Labelled(src.Rows(), src.prefixes, src.pieces)
  {
    var rows := src.Rows();
    forall s, t | 0 <= s < |rows| && t in rows[s] && rows[s][t] != ACCEPT
      ensures t in src.pieces && 0 <= rows[s][t] < |rows|
      ensures src.prefixes[rows[s][t]] == src.prefixes[s] + src.pieces[t]
    {
      EdgeMeaning(src, s, t);
    }
  }

  /** A labelled automaton follows the spelling: its state is the emitted prefix. */
  lemma {:induction false} WalkSpells(rows: seq<Row>, prefixes: seq<Word>, pieces: map<nat, Word>, s: nat,
                                      toks: seq<nat>)
    requires WellFormed(rows) && Labelled(rows, prefixes, pieces) && s < |rows|
    requires Walk(rows, s, toks).Some? && Walk(rows, s, toks).value != ACCEPT
    ensures forall t | t in toks :: t in pieces
    ensures prefixes[s] + Spelling(pieces, toks) == prefixes[Walk(rows, s, toks).value]
    decreases |toks|
  {
    if toks == [] {
      assert prefixes[s] + [] == prefixes[s];
    } else {
      var t, rest := toks[0], toks[1..];
      WalkSpells(rows, prefixes, pieces, rows[s][t], rest);
      assert toks == [t] + rest;
      assert prefixes[s] + Spelling(pieces, toks) == (prefixes[s] + pieces[t]) + Spelling(pieces, rest);
    }
  }

  /** Conversely, spelling out a prefix of a word leads to the state of that prefix. */
  lemma {:induction false} SpellingWalks(src: Source, s: nat, toks: seq<nat>, d: nat)
    requires src.Valid() && WellFormed(src.Rows()) && s < |src.prefixes| && d < |src.prefixes|
    requires forall t | t in toks :: t in src.pieces
    requires src.prefixes[s] + Spelling(src.pieces, toks) == src.prefixes[d]
    ensures Walk(src.Rows(), s, toks) == Some(d)
    decreases |toks|
  {
    if toks == [] {
      assert src.prefixes[s] + [] == src.prefixes[s];
    } else {
      var t, rest := toks[0], toks[1..];
      var q := src.prefixes[s] + src.pieces[t];
      assert q + Spelling(src.pieces, rest) == src.prefixes[d];
      ExtendsSome(src, q, Spelling(src.pieces, rest), d);
      EdgeMeaning(src, s, t);
      SpellingWalks(src, src.Rows()[s][t], rest, d);
    }
  }

  lemma ExtendsSome(src: Source, q: Word, more: Word, d: nat)
    requires src.Valid() && d < |src.prefixes| && q + more == src.prefixes[d]
    ensures PrefixOfSome(q, src.words)
  {
    assert src.prefixes[d] in src.prefixes;
    var w :| w in src.words && src.prefixes[d] <= w;
    assert q <= w;
  }

  /** The untrimmed automaton accepts exactly the sentences. */
  lemma BuiltLanguage(src: Source, toks: seq<nat>)
    requires src.Valid() && WellFormed(src.Rows())
    requires [] in src.prefixes && src.prefixes[0] == []
    ensures Accepts(src.Rows(), 0, toks) <==>
            Sentence(src.pieces, src.eos, src.words, toks)
  {
    if toks != [] {
      var rows, n := src.Rows(), |toks| - 1;
      var init, t := toks[..n], toks[n];
      assert toks == init + [t];
      WalkAppend(rows, 0, init, t);
      if Accepts(rows, 0, toks) {
        var d := Walk(rows, 0, init).value;
        EdgeMeaning(src, d, t);
        RowsLabelled(src);
        WalkSpells(rows, src.prefixes, src.pieces, 0, init);
        assert [] + Spelling(src.pieces, init) == src.prefixes[d];
        assert Segments(src.pieces, init, src.prefixes[d]);
      }
      if Sentence(src.pieces, src.eos, src.words, toks) {
        var w :| w in src.words && Segments(src.pieces, init, w);
        assert PrefixOfSome(w, src.words);
        var d := src.positions[w];
        assert [] + w == w;
        SpellingWalks(src, 0, init, d);
        EdgeMeaning(src, d, t);
      }
    }
  }

  // ----- The edge budget, counted without the automaton

  ghost predicate Continues(pieces: map<nat, Word>, eos: nat, words: seq<Word>, p: Word, t: nat) {
    if t == eos then p in words else t in pieces && PrefixOfSome(p + pieces[t], words)
  }

  ghost function PrefixSet(words: seq<Word>): set<Word> {
    set w, i | w in words && 0 <= i <= |w| :: w[..i]
  }

  /** All pairs of a word prefix and a token that may follow it. */
  ghost function EdgePairs(pieces: map<nat, Word>, eos: nat, words: seq<Word>): set<(Word, nat)> {
    set p, t | p in PrefixSet(words) && t in pieces.Keys + {eos} && Continues(pieces, eos, words, p, t) :: (p, t)
  }

  ghost function RowPairs(p: Word, row: Row): set<(Word, nat)> {
    set t | t in row :: (p, t)
  }

  lemma {:induction false} RowPairsSize(p: Word, row: Row)
    ensures |RowPairs(p, row)| == |row|
  {
    if row == map[] {
      assert RowPairs(p, row) == {};
    } else {
      var t :| t in row;
      var rest := row - {t};
      RowPairsSize(p, rest);
      assert rest.Keys == row.Keys - {t};
      assert RowPairs(p, row) == RowPairs(p, rest) + {(p, t)};
    }
  }

  ghost function AllPairs(prefixes: seq<Word>, rows: seq<Row>): (s: set<(Word, nat)>)
    requires |prefixes| == |rows|
    ensures forall x :: x in s <==> InRow(prefixes, rows, x.0, x.1)
  {
    var n := |rows| - 1;
    if rows == [] then {} else AllPairs(prefixes[..n], rows[..n]) + RowPairs(prefixes[n], rows[n])
  }

  lemma {:induction false} AllPairsSize(prefixes: seq<Word>, rows: seq<Row>)
    requires |prefixes| == |rows| && Distinct(prefixes)
    ensures |AllPairs(prefixes, rows)| == EdgeCount(rows)
    decreases |rows|
  {
    if rows != [] {
      var n := |rows| - 1;
      AllPairsSize(prefixes[..n], rows[..n]);
      RowPairsSize(prefixes[n], rows[n]);
      assert AllPairs(prefixes[..n], rows[..n]) !! RowPairs(prefixes[n], rows[n]);
    }
  }

  lemma RowAtContinues(src: Source, p: Word, t: nat)
    requires src.Valid()
    ensures t in src.RowAt(p) <==> t in src.pieces.Keys + {src.eos} && Continues(src.pieces, src.eos, src.words, p, t)
  {
  }

  lemma PrefixSetPrefixes(src: Source, p: Word)
    requires src.Valid()
    ensures p in PrefixSet(src.words) <==> p in src.prefixes
  {
    if PrefixOfSome(p, src.words) {
      var w :| w in src.words && p <= w;
      assert p == w[..|p|];
    }
    if p in PrefixSet(src.words) {
      var w, i :| w in src.words && 0 <= i <= |w| && p == w[..i];
      assert p <= w;
      assert PrefixOfSome(p, src.words);
    }
  }

  lemma PairInBoth(src: Source, p: Word, t: nat)
    requires src.Valid()
    ensures (p, t) in EdgePairs(src.pieces, src.eos, src.words) <==> p in src.prefixes && t in src.RowAt(p)
  {
    RowAtContinues(src, p, t);
    PrefixSetPrefixes(src, p);
  }

  ghost predicate InRow(prefixes: seq<Word>, rows: seq<Row>, p: Word, t: nat)
    requires |prefixes| == |rows|
  {
    exists i | 0 <= i < |rows| :: prefixes[i] == p && t in rows[i]
  }

  lemma RowsInRow(src: Source, p: Word, t: nat)
    ensures InRow(src.prefixes, src.Rows(), p, t) <==> p in src.prefixes && t in src.RowAt(p)
  {
    if p in src.prefixes && t in src.RowAt(p) {
      var i :| 0 <= i < |src.prefixes| && src.prefixes[i] == p;
      assert t in src.Rows()[i];
    }
  }

  lemma EdgeCountPairs(src: Source)
    requires src.Valid()
    ensures EdgeCount(src.Rows()) == |EdgePairs(src.pieces, src.eos, src.words)|
  {
    var pairs, edges := AllPairs(src.prefixes, src.Rows()), EdgePairs(src.pieces, src.eos, src.words);
    AllPairsSize(src.prefixes, src.Rows());
    forall x: (Word, nat) ensures x in pairs <==> x in edges {
      PairInBoth(src, x.0, x.1);
      RowsInRow(src, x.0, x.1);
      assert x == (x.0, x.1);
    }
    assert pairs == edges;
  }
}
