/**
 Decoding with a compiled language under a selection budget: `allowed`,
 `advance`, and the safety and liveness of every run that respects them.
 */
module LanguageRuntime {
  import opened Wrappers
  import opened LanguageSpec
  import opened LanguageTrim
  import opened LanguageCompiler

  datatype SelectionError = InvalidState | BudgetTooSmall | TokenRefused

  /** The destination can still be completed after spending one selection to get there. */
  predicate Fits(lang: FiniteLanguage, dest: int, remaining: int)
    requires dest == ACCEPT || 0 <= dest < |lang.minimumSelections|
  {
    dest == ACCEPT || remaining > lang.minimumSelections[dest]
  }

  /** One budgeted selection: an edge whose destination still fits. */
  ghost predicate Selectable(lang: FiniteLanguage, s: int, t: nat, remaining: int)
    requires WellFormed(lang.transitions) && |lang.minimumSelections| == |lang.transitions|
  {
    && 0 <= s < |lang.transitions| && 1 <= remaining <= MAX_LANGUAGE_BYTES + 1
    && t in lang.transitions[s] && Fits(lang, lang.transitions[s][t], remaining)
  }

  /** Tokens that may be selected with `remaining` selections left, EOS included. */
  function Allowed(lang: FiniteLanguage, state: int, remaining: int): (r: Result<set<nat>, SelectionError>)
    requires WellFormed(lang.transitions) && |lang.minimumSelections| == |lang.transitions| == |lang.prefixes|
    ensures r == Failure(InvalidState) <==>
            !(0 <= state < |lang.transitions|) || !(1 <= remaining <= MAX_LANGUAGE_BYTES + 1)
    ensures r == Failure(BudgetTooSmall) <==>
            r != Failure(InvalidState) && forall t :: !Selectable(lang, state, t, remaining)
    ensures r != Failure(TokenRefused)
    ensures r.Success? ==> r.value != {} && forall t :: t in r.value <==> Selectable(lang, state, t, remaining)
  {
    if !(0 <= state < |lang.prefixes|) || !(1 <= remaining <= MAX_LANGUAGE_BYTES + 1) then Failure(InvalidState)
    else
      var row := lang.transitions[state];
      var tokens := set t | t in row && Fits(lang, row[t], remaining);
      assert forall t :: t in tokens <==> Selectable(lang, state, t, remaining);
      if tokens == {} then Failure(BudgetTooSmall) else Success(tokens)
  }

  function Advance(lang: FiniteLanguage, state: int, token: nat, remaining: int): (r: Result<int, SelectionError>)
    requires WellFormed(lang.transitions) && |lang.minimumSelections| == |lang.transitions| == |lang.prefixes|
    ensures r.Success? <==> Selectable(lang, state, token, remaining)
    ensures r.Success? ==> r.value == lang.transitions[state][token]
    ensures r.Success? ==> r.value == ACCEPT || state < r.value < |lang.transitions|
  {
    var allowed := Allowed(lang, state, remaining);
    if allowed.Failure? then Failure(allowed.error)
    else if token !in allowed.value then Failure(TokenRefused)
    else Success(lang.transitions[state][token])
  }

  /** `minimumSelections` is exact: some completion attains it and none is shorter. */
  lemma MinimumExact(lang: FiniteLanguage, s: nat)
    requires Budgeted(lang) && s < |lang.transitions|
    ensures exists toks :: Accepts(lang.transitions, s, toks) && |toks| == lang.minimumSelections[s]
    ensures forall toks | Accepts(lang.transitions, s, toks) :: lang.minimumSelections[s] <= |toks|
  {
    var shortest := ShortestWitness(lang.transitions, lang.minimumSelections, s);
    forall toks | Accepts(lang.transitions, s, toks) ensures lang.minimumSelections[s] <= |toks| {
      NothingShorter(lang.transitions, lang.minimumSelections, s, toks);
    }
  }

  /** `allowed` refuses a state exactly when the budget is below its shortest completion. */
  lemma RefusedIffTooSmall(lang: FiniteLanguage, s: nat, remaining: int)
    requires Budgeted(lang) && s < |lang.transitions|
    requires 1 <= remaining <= MAX_LANGUAGE_BYTES + 1
    ensures Allowed(lang, s, remaining) == Failure(BudgetTooSmall) <==> remaining < lang.minimumSelections[s]
    ensures Allowed(lang, s, remaining).Success? <==> remaining >= lang.minimumSelections[s]
  {
    var rows, minimum := lang.transitions, lang.minimumSelections;
    var t :| t in rows[s] && minimum[s] == EdgeCost(rows, minimum, s, t);
    var tokens := set u | u in rows[s] && Fits(lang, rows[s][u], remaining);
    if remaining >= minimum[s] {
      assert t in tokens;
    }
    forall u | u in tokens ensures remaining >= minimum[s] {
      assert minimum[s] <= EdgeCost(rows, minimum, s, u);
    }
  }

  /** A token is allowed exactly when some completion within the budget begins with it. */
  lemma AllowedIffCompletable(lang: FiniteLanguage, s: nat, t: nat, remaining: int)
    requires Budgeted(lang) && s < |lang.transitions| && 1 <= remaining <= MAX_LANGUAGE_BYTES + 1
    ensures Selectable(lang, s, t, remaining) <==>
            exists rest :: Accepts(lang.transitions, s, [t] + rest) && |rest| < remaining
  {
    var rows, minimum := lang.transitions, lang.minimumSelections;
    if Selectable(lang, s, t, remaining) {
      var d, rest := rows[s][t], [];
      if d != ACCEPT {
        rest := ShortestWitness(rows, minimum, d);
      }
      assert ([t] + rest)[1..] == rest;
      assert Accepts(rows, s, [t] + rest) && |rest| < remaining;
    }
    forall rest | Accepts(rows, s, [t] + rest) && |rest| < remaining ensures Selectable(lang, s, t, remaining) {
      assert ([t] + rest)[1..] == rest;
      var d := rows[s][t];
      if d != ACCEPT {
        NothingShorter(rows, minimum, d, rest);
      }
    }
  }

  /** `advance` succeeds exactly on tokens that begin a completion within the budget, and follows the edge. */
  lemma AdvanceIffCompletable(lang: FiniteLanguage, s: nat, t: nat, remaining: int)
    requires Budgeted(lang) && s < |lang.transitions| && 1 <= remaining <= MAX_LANGUAGE_BYTES + 1
    ensures Advance(lang, s, t, remaining).Success? <==>
            exists rest :: Accepts(lang.transitions, s, [t] + rest) && |rest| < remaining
    ensures Advance(lang, s, t, remaining).Success? ==>
            Walk(lang.transitions, s, [t]) == Some(Advance(lang, s, t, remaining).value)
  {
    AllowedIffCompletable(lang, s, t, remaining);
    assert [t][1..] == [];
  }

  /** `toks` are successive selections, each one within the budget left at that point. */
  ghost predicate LegalRun(lang: FiniteLanguage, s: int, remaining: int, toks: seq<nat>)
    requires WellFormed(lang.transitions) && |lang.minimumSelections| == |lang.transitions|
    decreases |toks|
  {
    toks == [] ||
    (&& Selectable(lang, s, toks[0], remaining)
     && LegalRun(lang, lang.transitions[s][toks[0]], remaining - 1, toks[1..]))
  }

  /**
   Safety and progress over every run, whichever allowed token is picked: the run
   either has selected EOS within the budget, or another selection is allowed.
   Each selection uses one unit of budget, so every maximal run selects EOS.
   */
  lemma RunNeverStuck(lang: FiniteLanguage, s: nat, remaining: int, toks: seq<nat>)
    requires Budgeted(lang) && s < |lang.transitions|
    requires lang.minimumSelections[s] <= remaining <= MAX_LANGUAGE_BYTES + 1
    requires LegalRun(lang, s, remaining, toks)
    ensures Walk(lang.transitions, s, toks).Some?
    ensures var d := Walk(lang.transitions, s, toks).value;
            if d == ACCEPT then |toks| <= remaining
            else |toks| < remaining && Allowed(lang, d, remaining - |toks|).Success?
  {
    RunKeepsBudget(lang, s, remaining, toks);
    var d := Walk(lang.transitions, s, toks).value;
    if d != ACCEPT {
      RefusedIffTooSmall(lang, d, remaining - |toks|);
    }
  }

  /** Every legal run can be followed, and the budget left still covers the state it is in. */
  lemma {:induction false} RunKeepsBudget(lang: FiniteLanguage, s: nat, remaining: int, toks: seq<nat>)
    requires WellFormed(lang.transitions) && |lang.minimumSelections| == |lang.transitions|
    requires s < |lang.transitions| && lang.minimumSelections[s] <= remaining
    requires LegalRun(lang, s, remaining, toks)
    ensures Walk(lang.transitions, s, toks).Some?
    ensures var d := Walk(lang.transitions, s, toks).value;
            if d == ACCEPT then |toks| <= remaining else lang.minimumSelections[d] <= remaining - |toks|
    decreases |toks|
  {
    if toks != [] {
      var d, rest := lang.transitions[s][toks[0]], toks[1..];
      assert Walk(lang.transitions, s, toks) == Walk(lang.transitions, d, rest);
      if d != ACCEPT {
        RunKeepsBudget(lang, d, remaining - 1, rest);
      } else {
        assert rest == [];
      }
    }
  }

  /** The budget guard blocks no completion that fits: it is exactly a legal run. */
  lemma {:induction false} FittingCompletionLegal(lang: FiniteLanguage, s: nat, remaining: int, toks: seq<nat>)
    requires WellFormed(lang.transitions) && ShortestTable(lang.transitions, lang.minimumSelections)
    requires s < |lang.transitions|
    requires Accepts(lang.transitions, s, toks) && |toks| <= remaining <= MAX_LANGUAGE_BYTES + 1
    ensures LegalRun(lang, s, remaining, toks)
    decreases |toks|
  {
    var d, rest := lang.transitions[s][toks[0]], toks[1..];
    assert Walk(lang.transitions, d, rest) == Some(ACCEPT);
    if d == ACCEPT {
      assert rest == [];
    } else {
      NothingShorter(lang.transitions, lang.minimumSelections, d, rest);
      FittingCompletionLegal(lang, d, remaining - 1, rest);
    }
    assert Selectable(lang, s, toks[0], remaining);
  }

  /**
   Decoding from the start state with a sufficient budget: the finished legal
   runs are exactly the sentences that fit the budget.
   */
  lemma FinishedRunsAreSentences(lang: FiniteLanguage, pieces: map<nat, Word>, remaining: int, toks: seq<nat>)
    requires Faithful(lang, pieces)
    requires lang.minimumSelections[0] <= remaining <= MAX_LANGUAGE_BYTES + 1
    ensures LegalRun(lang, 0, remaining, toks) && Walk(lang.transitions, 0, toks) == Some(ACCEPT) <==>
            Sentence(pieces, lang.eos, lang.words, toks) && |toks| <= remaining
  {
    assert Accepts(lang.transitions, 0, toks) <==> Sentence(pieces, lang.eos, lang.words, toks);
    if LegalRun(lang, 0, remaining, toks) && Walk(lang.transitions, 0, toks) == Some(ACCEPT) {
      RunNeverStuck(lang, 0, remaining, toks);
    }
    if Sentence(pieces, lang.eos, lang.words, toks) && |toks| <= remaining {
      FittingCompletionLegal(lang, 0, remaining, toks);
    }
  }

  // ----- The union of all rows

  /** `union`: the tokens of all rows, to which the head is specialised. */
  function Union(lang: FiniteLanguage): set<nat> {
    set s, t | 0 <= s < |lang.transitions| && t in lang.transitions[s] :: t
  }

  lemma {:induction false} WalkedTokenInUnion(lang: FiniteLanguage, s: int, toks: seq<nat>, t: nat)
    requires WellFormed(lang.transitions) && (s == ACCEPT || 0 <= s < |lang.transitions|)
    requires Walk(lang.transitions, s, toks).Some? && t in toks
    ensures t in Union(lang)
    decreases |toks|
  {
    if t != toks[0] {
      WalkedTokenInUnion(lang, lang.transitions[s][toks[0]], toks[1..], t);
    }
  }

  lemma SentenceThrough(lang: FiniteLanguage, pieces: map<nat, Word>, s: nat, t: nat) returns (toks: seq<nat>)
    requires Faithful(lang, pieces) && s < |lang.transitions| && t in lang.transitions[s]
    ensures t in toks && Sentence(pieces, lang.eos, lang.words, toks)
  {
    var rows := lang.transitions;
    var d, rest := rows[s][t], [];
    if d != ACCEPT {
      rest := ShortestWitness(rows, lang.minimumSelections, d);
    }
    var tail := [t] + rest;
    assert tail[0] == t && tail[1..] == rest && Accepts(rows, s, tail);
    assert Reached(rows, s);
    var lead :| Walk(rows, 0, lead) == Some(s);
    WalkConcat(rows, 0, lead, tail);
    toks := lead + tail;
    assert toks[|lead|] == t;
    assert Accepts(rows, 0, toks);
  }

  /** The union holds exactly the tokens that occur in some sentence: none is missing, none is useless. */
  lemma UnionIsUsedTokens(lang: FiniteLanguage, pieces: map<nat, Word>, t: nat)
    requires Faithful(lang, pieces)
    ensures t in Union(lang) <==> exists toks :: t in toks && Sentence(pieces, lang.eos, lang.words, toks)
  {
    if t in Union(lang) {
      var s :| 0 <= s < |lang.transitions| && t in lang.transitions[s];
      var toks := SentenceThrough(lang, pieces, s, t);
    }
    forall toks | t in toks && Sentence(pieces, lang.eos, lang.words, toks) ensures t in Union(lang) {
      assert Accepts(lang.transitions, 0, toks);
      WalkedTokenInUnion(lang, 0, toks, t);
    }
  }
}
