/**
 `compile_language` as a whole: input checks, the build and trim phases, and the
 theorem that the compiled automaton is exactly the language of all
 segmentations, with an exact shortest-completion table.
 */
module LanguageCompiler {
  import opened Wrappers
  import opened Sequences
  import opened LanguageSpec
  import opened LanguageBuild
  import opened LanguageTrim
  import opened LanguageWords
  import opened ByteLevelTokenizer

  datatype FiniteLanguage = FiniteLanguage(
    vocabulary: int, eos: nat, words: seq<Word>, prefixes: seq<Word>,
    transitions: seq<Row>, minimumSelections: seq<nat>)

  datatype CompileError =
    | NotPublic | InvalidWords | Overlarge | InvalidTokenizer | EdgeBudget | Unrepresentable | DeadEnd

  ghost predicate Representable(pieces: map<nat, Word>, word: Word) {
    exists toks :: Segments(pieces, toks, word)
  }

  /** A completion table that is exact locally, on an automaton without dead states. */
  ghost predicate Budgeted(lang: FiniteLanguage) {
    var rows, minimum := lang.transitions, lang.minimumSelections;
    && |lang.prefixes| == |rows| > 0 && WellFormed(rows) && ShortestTable(rows, minimum)
    && (forall s | 0 <= s < |rows| :: rows[s] != map[] && 1 <= minimum[s] <= MAX_LANGUAGE_BYTES + 1)
  }

  /** What a successful compilation promises about its result. */
  ghost predicate Faithful(lang: FiniteLanguage, pieces: map<nat, Word>) {
    var rows := lang.transitions;
    // The table is exact and within the budget range; no state is dead.
    && Budgeted(lang)
    // The language: every segmentation of every word, and nothing else.
    && (forall toks :: Accepts(rows, 0, toks) <==> Sentence(pieces, lang.eos, lang.words, toks))
    // States are the emitted byte prefixes, and all are reachable.
    && Labelled(rows, lang.prefixes, pieces) && lang.prefixes[0] == []
    && (forall s | 0 <= s < |rows| :: Reached(rows, s))
  }

  method NumberPrefixes(prefixes: seq<Word>) returns (positions: map<Word, nat>)
    requires Distinct(prefixes)
    ensures forall p :: p in positions <==> p in prefixes
    ensures forall p | p in positions :: positions[p] < |prefixes| && prefixes[positions[p]] == p
  {
    positions := map[];
    for i := 0 to |prefixes|
      invariant forall p :: p in positions <==> p in prefixes[..i]
      invariant forall p | p in positions :: positions[p] < i && prefixes[positions[p]] == p
    {
      positions := positions[prefixes[i] := i];
    }
  }

  lemma EmptyIsPrefix(words: seq<Word>)
    requires words != []
    ensures PrefixOfSome([], words)
  {
    assert words[0] in words && [] <= words[0];
  }

  /** The empty prefix is state 0. */
  lemma EmptyPrefixFirst(src: Source)
    requires src.Valid() && src.words != []
    ensures src.prefixes != [] && src.prefixes[0] == []
  {
    EmptyIsPrefix(src.words);
    var k := src.positions[[]];
    assert k > 0 ==> PrefixLeq(src.prefixes[0], src.prefixes[k]);
  }

  /** A word's state is reached in the pruned automaton iff the word has a segmentation. */
  lemma ReachedIffRepresentable(src: Source, rows: seq<Row>, w: Word)
    requires src.Valid() && src.prefixes != [] && src.prefixes[0] == [] && w in src.words
    requires WellFormed(src.Rows()) && WellFormed(rows) && IsPruned(src.Rows(), rows)
    requires w in src.positions
    ensures Reached(rows, src.positions[w]) <==> Representable(src.pieces, w)
  {
    var d := src.positions[w];
    if Reached(rows, d) {
      var toks :| Walk(rows, 0, toks) == Some(d);
      PruneWalk(src.Rows(), rows, 0, toks);
      RowsLabelled(src);
      WalkSpells(src.Rows(), src.prefixes, src.pieces, 0, toks);
      assert [] + Spelling(src.pieces, toks) == w;
      assert Segments(src.pieces, toks, w);
    }
    if Representable(src.pieces, w) {
      var toks :| Segments(src.pieces, toks, w);
      assert [] + w == w;
      SpellingWalks(src, 0, toks, d);
      WalkAppend(src.Rows(), 0, toks, src.eos);
      EdgeMeaning(src, d, src.eos);
      PruneExact(src.Rows(), rows, 0, toks + [src.eos]);
      WalkAppend(rows, 0, toks, src.eos);
      PruneWalk(src.Rows(), rows, 0, toks);
    }
  }

  /** What later phases need to know of the built automaton. */
  ghost predicate BuiltFor(built: seq<Row>, prefixes: seq<Word>, pieces: map<nat, Word>, eos: nat, words: seq<Word>) {
    && built != [] && WellFormed(built) && Labelled(built, prefixes, pieces) && prefixes[0] == []
    && forall toks :: Accepts(built, 0, toks) <==> Sentence(pieces, eos, words, toks)
  }

  lemma RowsBuiltFor(src: Source)
    requires src.Valid() && src.words != [] && src.prefixes != [] && src.prefixes[0] == []
    requires WellFormed(src.Rows())
    ensures BuiltFor(src.Rows(), src.prefixes, src.pieces, src.eos, src.words)
  {
    RowsLabelled(src);
    EmptyIsPrefix(src.words);
    forall toks ensures Accepts(src.Rows(), 0, toks) <==> Sentence(src.pieces, src.eos, src.words, toks) {
      BuiltLanguage(src, toks);
    }
  }

  lemma SomeSentence(pieces: map<nat, Word>, eos: nat, words: seq<Word>, w: Word) returns (toks: seq<nat>)
    requires w in words && Representable(pieces, w)
    ensures Sentence(pieces, eos, words, toks)
  {
    var ts :| Segments(pieces, ts, w);
    toks := ts + [eos];
    assert toks[..|toks| - 1] == ts;
  }

  /** No reached state is dead: pruning only keeps edges into states that have edges. */
  lemma PrunedLive(built: seq<Row>, pruned: seq<Row>, some: seq<nat>, d: nat)
    requires WellFormed(built) && WellFormed(pruned) && IsPruned(built, pruned) && built != []
    requires Accepts(built, 0, some)
    requires d < |pruned| && Reached(pruned, d)
    ensures pruned[d] != map[]
  {
    var toks :| Walk(pruned, 0, toks) == Some(d);
    if toks == [] {
      StartLive(built, pruned, some);
    } else {
      var n := |toks| - 1;
      assert toks == toks[..n] + [toks[n]];
      WalkAppend(pruned, 0, toks[..n], toks[n]);
      KeptEdgeLive(built, pruned, Walk(pruned, 0, toks[..n]).value, toks[n]);
    }
  }

  lemma StartLive(built: seq<Row>, pruned: seq<Row>, some: seq<nat>)
    requires WellFormed(built) && WellFormed(pruned) && IsPruned(built, pruned) && built != []
    requires Accepts(built, 0, some)
    ensures pruned[0] != map[]
  {
    PruneExact(built, pruned, 0, some);
    assert some[0] in pruned[0];
  }

  lemma KeptEdgeLive(built: seq<Row>, pruned: seq<Row>, k: nat, t: nat)
    requires WellFormed(pruned) && IsPruned(built, pruned)
    requires k < |pruned| && t in pruned[k] && pruned[k][t] != ACCEPT
    ensures pruned[pruned[k][t]] != map[]
  {
    assert RowKept(built[k], pruned[k], LiveStates(pruned));
  }

  lemma RenumberedLive(pruned: seq<Row>, selected: seq<nat>, rows: seq<Row>, i: nat)
    requires WellFormed(pruned) && WellFormed(rows) && IsRenumbered(pruned, selected, rows)
    requires selected != [] && selected[0] == 0 && i < |rows|
    requires pruned[selected[i]] != map[] && Reached(pruned, selected[i])
    ensures rows[i] != map[] && Reached(rows, i)
  {
    assert RowRenumbered(pruned[selected[i]], selected, rows[i]);
    assert pruned[selected[i]].Keys != {};
    var toks :| Walk(pruned, 0, toks) == Some(selected[i]);
    RenumberWalk(pruned, selected, rows, 0, toks);
    assert Walk(rows, 0, toks) == Some(i);
  }

  lemma TrimLabelled(built: seq<Row>, pruned: seq<Row>, selected: seq<nat>, rows: seq<Row>,
                     prefixes: seq<Word>, kept: seq<Word>, pieces: map<nat, Word>)
    requires Labelled(built, prefixes, pieces) && IsPruned(built, pruned) && IsRenumbered(pruned, selected, rows)
    requires |kept| == |selected| && forall i | 0 <= i < |selected| :: kept[i] == prefixes[selected[i]]
    ensures Labelled(rows, kept, pieces)
  {
    forall i, t | 0 <= i < |rows| && t in rows[i] && rows[i][t] != ACCEPT
      ensures t in pieces && 0 <= rows[i][t] < |rows|
      ensures kept[rows[i][t]] == kept[i] + pieces[t]
    {
      assert RowRenumbered(pruned[selected[i]], selected, rows[i]);
      assert RowKept(built[selected[i]], pruned[selected[i]], LiveStates(pruned));
    }
  }

  lemma StartSelected(pruned: seq<Row>, selected: seq<nat>)
    requires WellFormed(pruned) && pruned != [] && Increasing(selected)
    requires forall s: nat :: s in selected <==> s < |pruned| && Reached(pruned, s)
    ensures selected != [] && selected[0] == 0
  {
    assert Walk(pruned, 0, []) == Some(0);
    assert 0 in selected;
  }

  lemma TrimLive(built: seq<Row>, pruned: seq<Row>, selected: seq<nat>, rows: seq<Row>, some: seq<nat>)
    requires built != [] && WellFormed(built) && WellFormed(pruned) && IsPruned(built, pruned)
    requires Accepts(built, 0, some)
    requires WellFormed(rows) && IsRenumbered(pruned, selected, rows)
    requires selected != [] && selected[0] == 0
    requires forall s: nat :: s in selected <==> s < |pruned| && Reached(pruned, s)
    ensures forall i | 0 <= i < |rows| :: rows[i] != map[] && Reached(rows, i)
  {
    forall i | 0 <= i < |rows| ensures rows[i] != map[] && Reached(rows, i) {
      assert selected[i] in selected;
      PrunedLive(built, pruned, some, selected[i]);
      RenumberedLive(pruned, selected, rows, i);
    }
  }

  lemma TrimLanguage(built: seq<Row>, pruned: seq<Row>, selected: seq<nat>, rows: seq<Row>,
                     pieces: map<nat, Word>, eos: nat, words: seq<Word>)
    requires built != [] && WellFormed(built) && WellFormed(pruned) && IsPruned(built, pruned)
    requires forall toks :: Accepts(built, 0, toks) <==> Sentence(pieces, eos, words, toks)
    requires WellFormed(rows) && IsRenumbered(pruned, selected, rows)
    requires selected != [] && selected[0] == 0
    ensures forall toks :: Accepts(rows, 0, toks) <==> Sentence(pieces, eos, words, toks)
  {
    forall toks ensures Accepts(rows, 0, toks) <==> Sentence(pieces, eos, words, toks) {
      RenumberWalk(pruned, selected, rows, 0, toks);
      PruneExact(built, pruned, 0, toks);
      assert Accepts(built, 0, toks) <==> Sentence(pieces, eos, words, toks);
    }
  }

  lemma CompletionThrough(rows: seq<Row>, minimum: seq<nat>, s: nat) returns (toks: seq<nat>)
    requires WellFormed(rows) && ShortestTable(rows, minimum) && s < |rows|
    requires forall k | 0 <= k < |rows| :: rows[k] != map[]
    requires Reached(rows, s)
    ensures Accepts(rows, 0, toks) && 1 <= minimum[s] <= |toks|
  {
    var tail := ShortestWitness(rows, minimum, s);
    assert tail != [];
    var lead :| Walk(rows, 0, lead) == Some(s);
    WalkConcat(rows, 0, lead, tail);
    toks := lead + tail;
  }

  /** Each selection but EOS spells a byte, so no sentence is longer than the longest word and EOS. */
  lemma SentenceBounded(pieces: map<nat, Word>, eos: nat, words: seq<Word>, toks: seq<nat>)
    requires ValidPieces(pieces, eos) && Sentence(pieces, eos, words, toks)
    requires forall w | w in words :: |w| <= 256
    ensures |toks| <= 257
  {
    var init := toks[..|toks| - 1];
    var w :| w in words && Segments(pieces, init, w);
    SpellingLength(pieces, eos, init);
  }

  lemma MinimumBounded(rows: seq<Row>, minimum: seq<nat>, pieces: map<nat, Word>, eos: nat, words: seq<Word>)
    requires ValidPieces(pieces, eos) && rows != [] && WellFormed(rows) && ShortestTable(rows, minimum)
    requires forall w | w in words :: |w| <= 256
    requires forall i | 0 <= i < |rows| :: rows[i] != map[] && Reached(rows, i)
    requires forall toks :: Accepts(rows, 0, toks) <==> Sentence(pieces, eos, words, toks)
    ensures forall i | 0 <= i < |rows| :: 1 <= minimum[i] <= MAX_LANGUAGE_BYTES + 1
  {
    forall i | 0 <= i < |rows| ensures 1 <= minimum[i] <= MAX_LANGUAGE_BYTES + 1 {
      var toks := CompletionThrough(rows, minimum, i);
      assert Sentence(pieces, eos, words, toks);
      SentenceBounded(pieces, eos, words, toks);
    }
  }

  lemma {:induction false} WalkConcat(rows: seq<Row>, s: int, a: seq<nat>, b: seq<nat>)
    requires WellFormed(rows)
    requires s == ACCEPT || 0 <= s < |rows|
    requires Walk(rows, s, a).Some?
    ensures Walk(rows, s, a + b) == Walk(rows, Walk(rows, s, a).value, b)
    decreases |a|
  {
    if a == [] {
      assert a + b == b;
    } else {
      assert (a + b)[1..] == a[1..] + b;
      WalkConcat(rows, rows[s][a[0]], a[1..], b);
    }
  }

  method MakeSource(words: seq<Word>, pieces: map<nat, Word>, eos: nat) returns (src: Source)
    requires words != [] && ValidPieces(pieces, eos)
    ensures src.Valid() && src.words == words && src.pieces == pieces && src.eos == eos
    ensures src.prefixes != [] && src.prefixes[0] == []
    ensures BuiltFor(src.Rows(), src.prefixes, pieces, eos, words)
  {
    var prefixes := Prefixes(words);
    var positions := NumberPrefixes(prefixes);
    src := Source(pieces, eos, words, prefixes, positions);
    RowsWellFormed(src);
    EmptyPrefixFirst(src);
    RowsBuiltFor(src);
  }

  lemma WordsReached(src: Source, pruned: seq<Row>, reachable: set<nat>)
    requires src.Valid() && src.prefixes != [] && src.prefixes[0] == []
    requires WellFormed(src.Rows()) && WellFormed(pruned) && IsPruned(src.Rows(), pruned)
    requires forall d: nat :: d in reachable <==> d < |pruned| && Reached(pruned, d)
    ensures forall w | w in src.words ::
              w in src.positions && (src.positions[w] in reachable <==> Representable(src.pieces, w))
  {
    forall w | w in src.words
      ensures w in src.positions && (src.positions[w] in reachable <==> Representable(src.pieces, w))
    {
      WordNumbered(src, w);
      ReachedIffRepresentable(src, pruned, w);
    }
  }

  lemma WordNumbered(src: Source, w: Word)
    requires src.Valid() && w in src.words
    ensures w in src.positions && src.positions[w] < |src.prefixes|
  {
    assert PrefixOfSome(w, src.words);
  }

  /** The source's test that every word's state is reachable. */
  method AllRepresentable(words: seq<Word>, positions: map<Word, nat>, reachable: set<nat>,
                          ghost pieces: map<nat, Word>) returns (ok: bool)
    requires forall w | w in words :: w in positions && (positions[w] in reachable <==> Representable(pieces, w))
    ensures ok <==> forall w | w in words :: Representable(pieces, w)
  {
    ok := true;
    for k := 0 to |words|
      invariant ok <==> forall j | 0 <= j < k :: Representable(pieces, words[j])
    {
      if positions[words[k]] !in reachable {
        ok := false;
      }
    }
  }

  /** The trimmed automaton: live, reachable, labelled by prefixes, and with the language it should have. */
  ghost predicate TrimmedFor(rows: seq<Row>, kept: seq<Word>, pieces: map<nat, Word>, eos: nat, words: seq<Word>) {
    && rows != [] && WellFormed(rows) && Labelled(rows, kept, pieces) && kept[0] == []
    && (forall i | 0 <= i < |rows| :: rows[i] != map[] && Reached(rows, i))
    && forall toks :: Accepts(rows, 0, toks) <==> Sentence(pieces, eos, words, toks)
  }

  method Trim(built: seq<Row>, pruned: seq<Row>, reachable: set<nat>, prefixes: seq<Word>, ghost pieces: map<nat, Word>,
              words: seq<Word>, eos: nat, ghost some: seq<nat>) returns (rows: seq<Row>, kept: seq<Word>)
    requires BuiltFor(built, prefixes, pieces, eos, words) && Accepts(built, 0, some)
    requires WellFormed(pruned) && IsPruned(built, pruned)
    requires forall d: nat :: d in reachable <==> d < |pruned| && Reached(pruned, d)
    ensures TrimmedFor(rows, kept, pieces, eos, words)
    ensures Ordered(prefixes) && Distinct(prefixes) ==> Ordered(kept) && Distinct(kept)
  {
    ReachedClosed(pruned, reachable);
    var selected;
    selected, rows := Renumber(pruned, reachable);
    StartSelected(pruned, selected);
    kept := seq(|selected|, i requires 0 <= i < |selected| => prefixes[selected[i]]);
    KeptOrdered(prefixes, selected, kept);
    TrimLabelled(built, pruned, selected, rows, prefixes, kept, pieces);
    TrimLive(built, pruned, selected, rows, some);
    TrimLanguage(built, pruned, selected, rows, pieces, eos, words);
  }

  /** Renumbering keeps the order of the states. */
  lemma KeptOrdered(prefixes: seq<Word>, selected: seq<nat>, kept: seq<Word>)
    requires Increasing(selected) && |kept| == |selected|
    requires forall i | 0 <= i < |selected| :: selected[i] < |prefixes| && kept[i] == prefixes[selected[i]]
    ensures Ordered(prefixes) && Distinct(prefixes) ==> Ordered(kept) && Distinct(kept)
  {
  }

  /** The source's last test: no completion is longer than any admitted budget. */
  method WithinBudget(minimum: seq<nat>) returns (ok: bool)
    ensures ok <==> forall i | 0 <= i < |minimum| :: minimum[i] <= MAX_LANGUAGE_BYTES + 1
  {
    ok := true;
    for i := 0 to |minimum|
      invariant ok <==> forall j | 0 <= j < i :: minimum[j] <= MAX_LANGUAGE_BYTES + 1
    {
      ok := ok && minimum[i] <= MAX_LANGUAGE_BYTES + 1;
    }
  }

  /** Tabulation and the dead-end test, which no trimmed automaton fails. */
  method Assemble(rows: seq<Row>, kept: seq<Word>, ghost pieces: map<nat, Word>, words: seq<Word>,
                  vocabulary: int, eos: nat) returns (r: Result<FiniteLanguage, CompileError>)
    requires TrimmedFor(rows, kept, pieces, eos, words) && ValidPieces(pieces, eos)
    requires forall w | w in words :: |w| <= 256
    ensures r.Success? && Faithful(r.value, pieces)
    ensures r.value.words == words && r.value.eos == eos && r.value.vocabulary == vocabulary
    ensures r.value.prefixes == kept
  {
    var minimum := Minimum(rows);
    var ok := WithinBudget(minimum);
    MinimumBounded(rows, minimum, pieces, eos, words);
    r := if ok then Success(FiniteLanguage(vocabulary, eos, words, kept, rows, minimum)) else Failure(DeadEnd);
  }

  /** The pruned automaton and its reachable states, and whether every word can be spelled. */
  method PruneAndReach(src: Source, built: seq<Row>) returns (pruned: seq<Row>, reachable: set<nat>, ok: bool)
    requires src.Valid() && src.prefixes != [] && src.prefixes[0] == []
    requires built == src.Rows() && WellFormed(built)
    ensures WellFormed(pruned) && IsPruned(built, pruned)
    ensures forall d: nat :: d in reachable <==> d < |pruned| && Reached(pruned, d)
    ensures ok <==> forall w | w in src.words :: Representable(src.pieces, w)
  {
    pruned := Prune(built);
    reachable := Reach(pruned);
    WordsReached(src, pruned, reachable);
    ok := AllRepresentable(src.words, src.positions, reachable, src.pieces);
  }

  /** Renumbering and tabulation, once every word was found representable. */
  method Finish(built: seq<Row>, pruned: seq<Row>, reachable: set<nat>, prefixes: seq<Word>,
                ghost pieces: map<nat, Word>, words: seq<Word>, vocabulary: int, eos: nat)
    returns (r: Result<FiniteLanguage, CompileError>)
    requires BuiltFor(built, prefixes, pieces, eos, words) && ValidPieces(pieces, eos)
    requires words != [] && forall w | w in words :: |w| <= 256 && Representable(pieces, w)
    requires WellFormed(pruned) && IsPruned(built, pruned)
    requires forall d: nat :: d in reachable <==> d < |pruned| && Reached(pruned, d)
    ensures r.Success? && Faithful(r.value, pieces)
    ensures r.value.words == words && r.value.eos == eos && r.value.vocabulary == vocabulary
    ensures Ordered(prefixes) && Distinct(prefixes) ==> Ordered(r.value.prefixes) && Distinct(r.value.prefixes)
  {
    ghost var some := SomeSentence(pieces, eos, words, words[0]);
    var rows, kept := Trim(built, pruned, reachable, prefixes, pieces, words, eos, some);
    r := Assemble(rows, kept, pieces, words, vocabulary, eos);
  }

  /** The compiler proper, for a vocabulary that passed `tokenizer_pieces`. */
  method CompilePieces(words: seq<Word>, pieces: map<nat, Word>, vocabulary: int, eos: nat)
    returns (r: Result<FiniteLanguage, CompileError>)
    requires WordsOk(words) && SizesOk(words) && ValidPieces(pieces, eos)
    ensures r.Success? ==> Faithful(r.value, pieces)
    ensures r.Success? ==> r.value.words == words && r.value.eos == eos && r.value.vocabulary == vocabulary
    ensures r.Success? ==> Ordered(r.value.prefixes) && Distinct(r.value.prefixes)
    ensures r.Failure? ==> r.error == EdgeBudget || r.error == Unrepresentable
    ensures r == Failure(EdgeBudget) <==> |EdgePairs(pieces, eos, words)| > MAX_EDGES
    ensures r == Failure(Unrepresentable) <==>
            |EdgePairs(pieces, eos, words)| <= MAX_EDGES && !forall w | w in words :: Representable(pieces, w)
  {
    var src := MakeSource(words, pieces, eos);
    EdgeCountPairs(src);
    var built := BuildRows(src);
    if built.None? {
      return Failure(EdgeBudget);
    }
    var pruned, reachable, ok := PruneAndReach(src, built.value);
    if !ok {
      return Failure(Unrepresentable);
    }
    assert Ordered(src.prefixes) && Distinct(src.prefixes);
    r := Finish(built.value, pruned, reachable, src.prefixes, pieces, words, vocabulary, eos);
  }

  lemma ReachedClosed(rows: seq<Row>, reachable: set<nat>)
    requires WellFormed(rows) && rows != []
    requires forall d: nat :: d in reachable <==> d < |rows| && Reached(rows, d)
    ensures forall s, t | s in reachable && t in rows[s] && rows[s][t] != ACCEPT :: rows[s][t] in reachable
  {
    forall s, t | s in reachable && t in rows[s] && rows[s][t] != ACCEPT ensures rows[s][t] in reachable {
      ReachedStep(rows, s, t);
    }
  }

  ghost predicate Precedes(p: Word, q: Word) {
    exists k: nat :: FirstSmaller(p, q, k)
  }

  /** Each word precedes the later ones at their first difference. */
  ghost predicate ByFirstDifference(words: seq<Word>) {
    forall i, j | 0 <= i < j < |words| :: Precedes(words[i], words[j])
  }

  /** Shorter prefixes come first, and those of one length by their first difference. */
  ghost predicate ByLengthThenDifference(prefixes: seq<Word>) {
    forall i, j | 0 <= i < j < |prefixes| ::
      |prefixes[i]| < |prefixes[j]| || (|prefixes[i]| == |prefixes[j]| && Precedes(prefixes[i], prefixes[j]))
  }

  lemma WordsAscend(words: seq<Word>)
    requires InByteOrder(words) && Distinct(words)
    ensures ByFirstDifference(words)
  {
    forall i, j | 0 <= i < j < |words| ensures Precedes(words[i], words[j]) {
      assert LexLeq(words[i], words[j]) && words[i] != words[j];
      var k := LexDiffers(words[i], words[j]);
    }
  }

  lemma PrefixesAscend(prefixes: seq<Word>)
    requires Ordered(prefixes) && Distinct(prefixes)
    ensures ByLengthThenDifference(prefixes)
  {
    forall i, j | 0 <= i < j < |prefixes|
      ensures |prefixes[i]| < |prefixes[j]| || (|prefixes[i]| == |prefixes[j]| && Precedes(prefixes[i], prefixes[j]))
    {
      assert PrefixLeq(prefixes[i], prefixes[j]);
      if |prefixes[i]| == |prefixes[j]| {
        var k := LexDiffers(prefixes[i], prefixes[j]);
      }
    }
  }

  /** The checks before the words are compiled. */
  predicate Compilable(tok: Tokenizer, words: seq<Word>, vocabulary: int, eos: int, visibility: string) {
    visibility == "public" && WordsOk(words) && SizesOk(words) && Admitted(tok, vocabulary, eos)
  }

  /** `compile_language`, on the encoded words; they are sorted before anything else looks at them. */
  method CompileLanguage(tok: Tokenizer, words: seq<Word>, vocabulary: int, eos: int, visibility: string)
    returns (r: Result<FiniteLanguage, CompileError>, ghost pieces: map<nat, Word>)
    ensures Compilable(tok, words, vocabulary, eos, visibility) ==> PiecesFor(tok, pieces)
    ensures r.Success? <==>
            && Compilable(tok, words, vocabulary, eos, visibility)
            && |EdgePairs(pieces, eos, words)| <= MAX_EDGES && forall w | w in words :: Representable(pieces, w)
    ensures r.Success? ==> Faithful(r.value, pieces) && r.value.eos == eos && r.value.vocabulary == vocabulary
    ensures r.Success? ==> multiset(r.value.words) == multiset(words)
    // Words ascend by their first different byte, states by length and then by that byte.
    ensures r.Success? ==> ByFirstDifference(r.value.words) && ByLengthThenDifference(r.value.prefixes)
    ensures r == Failure(NotPublic) <==> visibility != "public"
    ensures r == Failure(InvalidWords) <==>
            visibility == "public" && !(1 <= |words| <= 32 && forall w | w in words :: w != [])
    ensures r == Failure(Overlarge) <==>
            && visibility == "public" && WordsOk(words)
            && !((forall i, j | 0 <= i < j < |words| :: words[i] != words[j])
                 && |Concatenation(words)| <= 4096 && forall w | w in words :: |w| <= 256)
    ensures r == Failure(InvalidTokenizer) <==>
            visibility == "public" && WordsOk(words) && SizesOk(words) && !Admitted(tok, vocabulary, eos)
    ensures r == Failure(EdgeBudget) <==>
            Compilable(tok, words, vocabulary, eos, visibility) && |EdgePairs(pieces, eos, words)| > MAX_EDGES
    ensures r == Failure(Unrepresentable) <==>
            && Compilable(tok, words, vocabulary, eos, visibility)
            && |EdgePairs(pieces, eos, words)| <= MAX_EDGES && !forall w | w in words :: Representable(pieces, w)
    ensures r != Failure(DeadEnd)
  {
    pieces := map[];
    if visibility != "public" {
      return Failure(NotPublic), pieces;
    }
    if !WordsOk(words) {
      return Failure(InvalidWords), pieces;
    }
    var sorted := SortWords(words);
    SortKeepsChecks(words);
    TotalBytesWritten(words);
    if !SizesOk(sorted) {
      return Failure(Overlarge), pieces;
    }
    var decoded := TokenizerPieces(tok, vocabulary, eos);
    if decoded.None? {
      return Failure(InvalidTokenizer), pieces;
    }
    pieces := decoded.value;
    SortKeepsEdges(pieces, eos, words);
    SortInByteOrder(words);
    r := CompilePieces(sorted, decoded.value, vocabulary, eos);
    if r.Success? {
      WordsAscend(sorted);
      PrefixesAscend(r.value.prefixes);
    }
  }
}
