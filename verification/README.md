# Verified models of the pllm research algorithms

This project models the self-contained algorithms under `scripts/` of pllm and proves
what they are for: exact algebra, finite automata, optimisers, codecs and one-use state
machines. Each module follows one component of the system.

| module | component |
|---|---|
| `LanguageSpec`, `LanguageWords`, `LanguageBuild`, `LanguageTrim`, `LanguageCompiler`, `LanguageRuntime` | the finite-language compiler and decoding under a selection budget |
| `ByteLevelTokenizer`, `BytePairEncoding` | byte-level vocabularies, the BPE merge loop, and its agreement with the compiler |
| `RowDemand` | the backward row-demand analysis of a compiled graph |
| `EpochScheduler`, `MaterialLifecycle` | schedules of correction epochs, their ledger and optimiser; one-use prepared rows |
| `Placement` | the exact 0/1 placement of matrix groups |
| `PrimeField`, `FieldSolver`, `BitHeap`, `XorBasis` | Gauss-Jordan over a prime field and the solver around it, the Wallace bit heap and its cost model, GF(2) rank |
| `RingWidths`, `RowLifting`, `Anchors` | ring widths, row lifting and anchored decompositions of signed-i8 matrices |
| `BlockedCodec`, `RadixCodec`, `BitPlanes` | the radix codec and the bit-plane codec |
| `SealedSlots` | encrypted one-use slots |
| `Modular`, `Bits`, `Sequences`, `SignedBytes`, `Wrappers` | shared arithmetic and outcome types |

A raised exception is a `Failure`, `None`, or a refused outcome; where the source changes
state before raising, the model changes it too. Sets and dictionaries are Dafny sets and
maps; a loop over a dictionary picks its entries in any order, and the contracts hold for
every order.

Where the code and its own text differ, the model follows the code. `lifting_forest` says
that the identity is always available, but it raises for every matrix that has no more rows
than `neighbours`, because the first empty candidate block is rejected: `LiftingForest`
states exactly when it returns. `solve_field` presents itself as an exact oracle, but its
closing assertion multiplies in wrapping int64 and fails on some admitted systems with large
entries: `SelfCheckFails` gives one, and `FailsIffRowOverflows` says of every matrix, by a bound
on its entries, whether some target fails. A stage that is bound by two steps can be selected
for one of them and corrupt the other: `SharedStageChangesOutput` gives a graph, and
`SelectedSafeIffServedLast` the exact condition, for row-local and for row-wise operators.

## Model

| member | source | states |
|---|---|---|
| ByteLevelTokenizer.AlphabetBijective | scripts/finite_language_boundary.py:23-27 | the printable alphabet is a bijection between 256 characters and the 256 bytes |
| ByteLevelTokenizer.AlphabetOrder | scripts/finite_language_boundary.py:23-27 | printable bytes stand for themselves; the others for the characters from 256 on, in increasing order |
| ByteLevelTokenizer.VocabularyPieces | scripts/finite_language_boundary.py:48-58 | succeeds exactly on vocabularies with in-range unique ids and byte-level text, and spells every entry |
| ByteLevelTokenizer.AddedPieces | scripts/finite_language_boundary.py:59-74 | succeeds exactly when every added token is admissible after the vocabulary and the earlier ones; lists the special ids |
| ByteLevelTokenizer.TokenizerPieces | scripts/finite_language_boundary.py:30-77 | succeeds exactly on admitted tokenizers, file size, model settings and flags included; pieces are nonempty, in range, and EOS spells nothing |
| LanguageBuild.Prefixes | scripts/finite_language_boundary.py:138-140 | lists each prefix of each word once, in (length, bytes) order |
| LanguageBuild.GroupByPiece | scripts/finite_language_boundary.py:135-137 | groups exactly the tokens that share their bytes |
| LanguageBuild.BuildRow | scripts/finite_language_boundary.py:144-151 | the row of a prefix holds exactly the tokens that extend it to another prefix, and EOS where a word ends |
| LanguageBuild.BuildRows | scripts/finite_language_boundary.py:142-155 | returns all rows, or stops exactly when the total edge count exceeds the budget |
| LanguageBuild.EdgeCountPairs | scripts/finite_language_boundary.py:152-154 | the counted edges are the pairs of a word prefix and a token that may follow it |
| LanguageBuild.WalkSpells | scripts/finite_language_boundary.py:144-155 | reading tokens leads to the state of the spelled prefix |
| LanguageBuild.BuiltLanguage | scripts/finite_language_boundary.py:135-155 | the untrimmed automaton accepts exactly the segmentations of the words followed by EOS |
| LanguageTrim.Prune | scripts/finite_language_boundary.py:156-161 | keeps exactly the edges into acceptance or into states that keep an edge |
| LanguageTrim.PruneExact | scripts/finite_language_boundary.py:156-161 | pruning changes the accepted sequences of no state |
| LanguageTrim.Reach | scripts/finite_language_boundary.py:162-165 | finds exactly the states that some token sequence reaches from state 0 |
| LanguageTrim.Renumber | scripts/finite_language_boundary.py:169-172 | renumbers exactly the reachable states in order, keeping every edge |
| LanguageTrim.RenumberWalk | scripts/finite_language_boundary.py:169-172 | the renumbered automaton simulates the original step for step |
| LanguageTrim.Minimum | scripts/finite_language_boundary.py:173-176 | every table entry is one more than the cheapest successor's |
| LanguageCompiler.ReachedIffRepresentable | scripts/finite_language_boundary.py:166-167 | a word's state is reachable after pruning if and only if the word has a segmentation |
| LanguageCompiler.SentenceBounded | scripts/finite_language_boundary.py:131-133 | no sentence is longer than the longest word and EOS, so the budget range always suffices |
| LanguageCompiler.MinimumBounded | scripts/finite_language_boundary.py:173-179 | every shortest completion lies within the budget range |
| LanguageCompiler.Assemble | scripts/finite_language_boundary.py:173-181 | tabulates the trimmed automaton; the final dead-end test is made and never fires |
| LanguageWords.SortInByteOrder | scripts/finite_language_boundary.py:130 | the compiled words are in byte order |
| LanguageWords.SortKeepsChecks | scripts/finite_language_boundary.py:127-133 | sorting changes no member and no verdict of the checks |
| LanguageWords.TotalBytesWritten | scripts/finite_language_boundary.py:131 | the size checked is the length of all words written out |
| Sequences.FirstDifferenceDecides | scripts/finite_language_boundary.py:130 | the order of byte strings is decided by the smaller entry at the first difference |
| Sequences.PrefixDecides | scripts/finite_language_boundary.py:130 | a proper prefix comes strictly first |
| LanguageCompiler.CompilePieces | scripts/finite_language_boundary.py:135-181 | on success the automaton is the language of all segmentations, trimmed, with an exact table; the two later errors are raised exactly when too many edges exist or some word has no segmentation |
| LanguageCompiler.CompileLanguage | scripts/finite_language_boundary.py:124-181 | each of the six errors is raised exactly on its condition, success on all other inputs, the dead-end error never; the words ascend by their first different byte, and the states by the length of their prefix and then by that byte |
| LanguageRuntime.Allowed | scripts/finite_language_boundary.py:94-102 | holds exactly the edges that fit the budget; each error exactly on its condition |
| LanguageRuntime.Advance | scripts/finite_language_boundary.py:104-107 | succeeds exactly on the allowed tokens and follows their edge |
| LanguageRuntime.MinimumExact | scripts/finite_language_boundary.py:173-176 | the table entry is attained by a completion and no completion is shorter |
| LanguageRuntime.RefusedIffTooSmall | scripts/finite_language_boundary.py:94-102 | a state is refused exactly when the remaining budget is below its shortest completion |
| LanguageRuntime.AllowedIffCompletable | scripts/finite_language_boundary.py:94-102 | a token is allowed if and only if some completion within the budget begins with it |
| LanguageRuntime.AdvanceIffCompletable | scripts/finite_language_boundary.py:104-107 | advancing succeeds exactly on those tokens, and walks the automaton |
| LanguageRuntime.UnionIsUsedTokens | scripts/finite_language_boundary.py:90-92 | the union holds exactly the tokens that occur in some sentence |
| LanguageRuntime.RunNeverStuck | scripts/finite_language_boundary.py:94-107 | whichever allowed token is picked, the decode has reached EOS within budget or has another allowed token |
| LanguageRuntime.FittingCompletionLegal | scripts/finite_language_boundary.py:94-107 | the budget guard blocks no completion that fits |
| LanguageRuntime.FinishedRunsAreSentences | scripts/finite_language_boundary.py:94-107 | finished budgeted decodes are exactly the sentences of the language within the budget |
| BytePairEncoding.BestPair | scripts/client_offload_tokenizer.py:128-129 | finds the leftmost adjacent pair of least rank |
| BytePairEncoding.BestHasLeastRank | scripts/client_offload_tokenizer.py:128-129 | the merged pair has the least table rank of all ranked pairs, and is the leftmost of that rank |
| BytePairEncoding.MergeAtJoinsPair | scripts/client_offload_tokenizer.py:132 | the pair becomes one symbol and every other symbol stays |
| BytePairEncoding.MergeLoop | scripts/client_offload_tokenizer.py:124-132 | starts from single characters, ends, keeps the text, and stops only when no adjacent pair has a rank, after leftmost-best merges only |
| BytePairEncoding.DerivationUnique | scripts/client_offload_tokenizer.py:127-132 | the merges and the settled symbols are determined by the token and the table |
| BytePairEncoding.EncodeToken | scripts/client_offload_tokenizer.py:123-133 | succeeds exactly on tokens in bounds that have canonical ids, and returns them, one for each character if no adjacent characters have a rank; each error exactly on its condition |
| BytePairEncoding.Utf8LengthShortest | scripts/client_offload_tokenizer.py:112 | a character counts the fewest bytes whose form holds its code |
| BytePairEncoding.Encode | scripts/client_offload_tokenizer.py:111-134 | succeeds exactly on texts in bounds that have an encoding, and returns it; otherwise raises the error of the first pre-token that fails |
| BytePairEncoding.EncodedUnique | scripts/client_offload_tokenizer.py:111-134 | a split text has at most one encoding |
| BytePairEncoding.CanonicalAccepted | scripts/client_offload_tokenizer.py:111-134 | for any split of a language word without added tokens, the encoding and EOS are accepted by the compiled language |
| RowDemand.Demand | scripts/aggregate_network_hypotheses.py:36-45 | the worklist ends at the least solution of the demand constraints |
| RowDemand.DemandTable | scripts/aggregate_network_hypotheses.py:34-44 | what each operator asks of its inputs: its own demand for the ten row-wise ones, the last row for last_token, everything else in full |
| RowDemand.TerminalGroups | scripts/aggregate_network_hypotheses.py:32-55 | selects exactly the stages bound by a remote step whose operations are all linear and demanded at their last row; each error is that of the first step that raises |
| RowDemand.SelectionMeans | scripts/aggregate_network_hypotheses.py:47-54 | the selection condition of one step, spelled out on the graph, the demand and the bindings |
| RowDemand.PruningPreservesOutputs | scripts/aggregate_network_hypotheses.py:15-21 | arbitrary garbage before the last row of last-demanded operations leaves output and state outputs unchanged, in every acyclic graph of row-local operators |
| RowDemand.ServedOnlyLast | scripts/aggregate_network_hypotheses.py:46-55 | if stages belong to one step each, every operation a selected stage serves is demanded at its last row |
| RowDemand.SelectedStagesDroppable | scripts/aggregate_network_hypotheses.py:32-55 | whatever the selected stages return before their last rows, all results of the graph are unchanged |
| RowDemand.RowWiseIsLocal | scripts/aggregate_network_hypotheses.py:34-35 | operators that map aligned rows one by one, and a last_token that returns the last row, are row-local |
| RowDemand.SafeIffLastDemand | scripts/aggregate_network_hypotheses.py:15-21 | dropping rows of a set of operations is safe for all row-local operators if and only if the least solution demands none of them in full |
| RowDemand.RowWisePruning | scripts/aggregate_network_hypotheses.py:15-21 | with row-wise operators, garbage in last-demanded or single-row operations leaves output and state outputs unchanged |
| RowDemand.SafeRowWiseIff | scripts/aggregate_network_hypotheses.py:15-21 | with row-wise operators on aligned graphs, dropping is safe if and only if each dropped operation is demanded at most at its last row or has a single row |
| RowDemand.SelectedSafeIffServedLast | scripts/aggregate_network_hypotheses.py:46-55 | whatever the ownership, selected stages are safe under exactly these conditions on the operations they serve |
| RowDemand.SharedStageChangesOutput | scripts/aggregate_network_hypotheses.py:47-54 | on a schedule without errors, a stage shared by two steps is selected, and its corrupted rows change a state output |
| EpochScheduler.Schedule | scripts/probe_adaptive_correction_epochs.py:47-59 | every epoch but the clipped last one has the constant or doubled size, and the schedule always passes validation |
| EpochScheduler.SessionsAreFirstCover | scripts/probe_adaptive_correction_epochs.py:88-94 | the sessions used are the shortest prefix of the schedule that covers the selections |
| EpochScheduler.Account | scripts/probe_adaptive_correction_epochs.py:83-113 | sessions, rows and traffic of every stop; an early stop executes as many positions as it emits tokens; claimed rows are those of the executed selections, burned rows those of the covered rest |
| EpochScheduler.StopIsOutput | scripts/probe_adaptive_correction_epochs.py:87 | a decode stopped at a position emits that many tokens and draws as often as the ledger counts selections |
| EpochScheduler.CostIsObjective | scripts/probe_adaptive_correction_epochs.py:127-136 | the optimiser's survival-weighted cost is the ledger's expected rows and pause penalties, less a constant no schedule changes |
| EpochScheduler.ChoicesAreValidSchedules | scripts/probe_adaptive_correction_epochs.py:62-70 | the optimiser's choices are exactly the schedules that validate |
| EpochScheduler.Solve | scripts/probe_adaptive_correction_epochs.py:148-162 | the recursion returns the least tail by cost, length and sizes among all tails |
| EpochScheduler.Optimize | scripts/probe_adaptive_correction_epochs.py:139-164 | the result is valid, strictly cheaper than every other valid schedule for every prompt, or as cheap with fewer epochs, or first by the first different size; refused exactly on invalid input |
| EpochScheduler.LeastExpectation | scripts/probe_adaptive_correction_epochs.py:127-136 | a least weighted objective is a least expectation |
| EpochScheduler.ToyOracle | scripts/probe_adaptive_correction_epochs.py:209-232 | splitting a decode into sessions changes neither state, tokens, pending token nor random draws, and never runs out of epochs |
| MaterialLifecycle.Lifecycle.constructor | scripts/probe_adaptive_correction_epochs.py:170-174 | starts idle with an empty ledger |
| MaterialLifecycle.Lifecycle.PrepareRows | scripts/probe_adaptive_correction_epochs.py:176-181 | accepted only when idle with positive rows, which become pending |
| MaterialLifecycle.Lifecycle.AdmitSession | scripts/probe_adaptive_correction_epochs.py:183-190 | an unacknowledged admission counts the session, burns its rows and is refused |
| MaterialLifecycle.Lifecycle.ClaimRows | scripts/probe_adaptive_correction_epochs.py:192-196 | moves at most the pending rows to claimed, only when online |
| MaterialLifecycle.Lifecycle.RetireRows | scripts/probe_adaptive_correction_epochs.py:198-206 | burns online rows, discards prepared ones, and ends idle or closed |
| MaterialLifecycle.EveryRunConserves | scripts/probe_adaptive_correction_epochs.py:167-206 | after every sequence of calls, issued is claimed, burned, discarded and pending, and idle or closed hold no rows |
| MaterialLifecycle.NothingBurnedUnadmitted | scripts/probe_adaptive_correction_epochs.py:183-206 | without an admission no row is ever claimed or burned |
| MaterialLifecycle.NothingDiscardedOnline | scripts/probe_adaptive_correction_epochs.py:198-206 | rows are discarded only by retiring a preparation that was not admitted |
| MaterialLifecycle.ClosedIsAbsorbing | scripts/probe_adaptive_correction_epochs.py:198-206 | a closed lifecycle accepts nothing and never changes |
| MaterialLifecycle.SessionClaimsBounded | scripts/probe_adaptive_correction_epochs.py:176-196 | until the next preparation, claims never exceed the rows freshly prepared |
| MaterialLifecycle.IdleForgetsRows | scripts/probe_adaptive_correction_epochs.py:192-206 | after an idle point no earlier row can be claimed |
| Placement.UnitDivides | scripts/probe_all_link_frontier.py:115 | the unit divides every item's work |
| Placement.UnitGreatest | scripts/probe_all_link_frontier.py:115 | every common divisor of the work divides the unit, so it is the greatest |
| Placement.OfferItem | scripts/probe_all_link_frontier.py:120-126 | one item improves exactly the table keys it should, whatever the order of the snapshot |
| Placement.TableStep | scripts/probe_all_link_frontier.py:120-126 | stored states stay achievable, and the table keeps dominating every subset of nonnegative items |
| Placement.DropLossesGain | scripts/probe_all_link_frontier.py:125 | dropping items of negative value never loses value or adds work, so unstored negative sums cost nothing |
| Placement.BestState | scripts/probe_all_link_frontier.py:127 | the state of greatest saving, and of least work among those |
| Placement.ChoosePlacement | scripts/probe_all_link_frontier.py:105-133 | the selected set is within budget, of greatest saving over all subsets, and of fewest MACs among the optimal ones, with its totals; each error exactly on its condition |
| PrimeField.Inverse | scripts/network_first_principles.py:36 | the modular inverse exists and is canonical for every nonzero residue |
| PrimeField.PivotSolves | scripts/network_first_principles.py:35-39 | swapping, scaling and eliminating keep the solution set |
| PrimeField.PivotReduces | scripts/network_first_principles.py:33-40 | pivot columns stay unit vectors, and rows stay zero left of their pivot |
| PrimeField.GaussJordan | scripts/network_first_principles.py:28-42 | the reduced system has the same solutions |
| FieldSolver.AdmittedIsPrime | scripts/network_first_principles.py:20 | the five admitted moduli are primes |
| PrimeField.Solve | scripts/network_first_principles.py:26-46 | returns the one canonical solution that uses no column depending on earlier columns; None exactly when there is no solution |
| PrimeField.BasicUnique | scripts/network_first_principles.py:45-46 | that solution is unique, so the result is determined by the system |
| FieldSolver.SelfCheckIff | scripts/network_first_principles.py:47 | on a solution the closing assertion holds if and only if the prime divides how often each wrapping product wraps |
| FieldSolver.SmallRowsPass | scripts/network_first_principles.py:47 | it always holds when no row's L1 norm times the largest residue reaches 2 to the 63 |
| FieldSolver.NoOverflowPasses | scripts/network_first_principles.py:47 | it holds on every target when no row overflows: neither the positive nor the negative entries in independent columns, times the largest residue, leave int64 |
| FieldSolver.FailsIffRowOverflows | scripts/network_first_principles.py:47 | some admitted target makes the assertion fail if and only if some row overflows in that sense |
| PrimeField.PivotsAreIndependent | scripts/network_first_principles.py:28-42 | the elimination picks its pivots in exactly the columns that depend on no earlier column |
| FieldSolver.SelfCheckFails | scripts/network_first_principles.py:47 | it fails on the admitted system 2 to the 62 times x = 1 modulo 65537 |
| FieldSolver.SolveField | scripts/network_first_principles.py:15-48 | the basic solution; None exactly when no vector solves; the ValueError exactly on unadmitted input, the failed assertion exactly when the basic solution does not survive wrapping, and never on a matrix without an overflowing row |
| BitHeap.Fill | scripts/network_first_principles.py:550-557 | the filled heap weighs the biased dot product modulo the ring, with the heights the patterns give |
| BitHeap.CompressValue | scripts/network_first_principles.py:562-567 | a 3:2 compression keeps the weighted column sum modulo the ring |
| BitHeap.CompressColumn | scripts/network_first_principles.py:562-567 | a column ends at height two or less after exactly the predicted number of compressions |
| BitHeap.Evaluate | scripts/network_first_principles.py:550-568 | the value is the signed dot product modulo the ring, after exactly the compressions that the cost model counts |
| BitHeap.WallaceEvaluate | scripts/network_first_principles.py:543-568 | the same value, compressions and final heights behind the input checks; each error exactly on its condition |
| BitHeap.HistogramHeightIsHeight | scripts/network_first_principles.py:519-526 | histogram times pattern table is the height of the filled column |
| BitHeap.CountRow | scripts/network_first_principles.py:526-537 | the counted full adders are those of the same reduction, and every height ends at two or less |
| BitHeap.WallaceCounts | scripts/network_first_principles.py:506-540 | full adders and AND gates of every row; the error exactly on unadmitted shapes |
| XorBasis.ReduceWord | scripts/network_algebra_hypotheses.py:145-150 | reduction ends at zero or at a new leading bit and changes the word only by a member of the space |
| XorBasis.NewWord | scripts/network_algebra_hypotheses.py:147-148 | a word with a new leading bit doubles the space |
| XorBasis.GeneratedByBasis | scripts/network_algebra_hypotheses.py:142-150 | every XOR of rows is a XOR of basis words with decreasing leading bits |
| XorBasis.SpanIsParities | scripts/network_algebra_hypotheses.py:142-150 | the spanned words are the parities of the sums of selected rows of the integer matrix |
| XorBasis.Gf2Rank | scripts/network_algebra_hypotheses.py:137-151 | two to the result is the number of distinct XORs of rows, so it is the rank |
| RingWidths.WidthRecoversOutput | scripts/network_algebra_hypotheses.py:13-21 | for inputs up to 127 the row width recovers the exact signed output by centred lift |
| RingWidths.WidthLeast | scripts/network_algebra_hypotheses.py:13-21 | no smaller width does: some input up to 127 is not recovered |
| RingWidths.AnnihilatorWidths | scripts/network_algebra_hypotheses.py:24-38 | each width is the least of at least one bit that meets every row's need |
| RingWidths.WidthsSound | scripts/network_algebra_hypotheses.py:25-29 | inputs that agree in their rings give outputs that agree in theirs, for all integers |
| RingWidths.WidthsMinimal | scripts/network_algebra_hypotheses.py:25-29 | any narrower ring of at least one bit changes some output for some input |
| RadixCodec.RadixPack | scripts/network_algebra_hypotheses.py:55-68 | packs admitted residues to exactly the announced length; each error exactly on its condition |
| RadixCodec.RadixUnpack | scripts/network_algebra_hypotheses.py:71-85 | unpacks payloads of the announced length, refusing exactly those with a block out of range |
| RadixCodec.BlockLeast | scripts/network_algebra_hypotheses.py:51-52 | one byte less per block would not hold every residue vector |
| RadixCodec.RadixSizeIsSize | scripts/network_algebra_hypotheses.py:45-52 | the closed size formula is the sum of the block sizes |
| RadixCodec.RadixRoundTrip | scripts/network_algebra_hypotheses.py:55-85 | unpacking a packed vector returns it, for every residue vector and modulus |
| RadixCodec.RadixPackedByte | scripts/network_algebra_hypotheses.py:60-68 | every packed byte: blocks in order, each the little-endian bytes of the positional value of its residues |
| RadixCodec.DigitAt | scripts/network_algebra_hypotheses.py:79-82 | digit i is the quotient by the i-th power, modulo the base |
| RadixCodec.RadixAcceptsOnlyCanonical | scripts/network_algebra_hypotheses.py:71-85 | packing what an accepted payload unpacks to gives the payload back |
| Anchors.AnchorMinimises | scripts/aggregate_network_hypotheses.py:80-88 | in both variants the clipped median keeps its parts signed-i8 and minimises the L1 norm of the group among all admissible integers |
| Anchors.MedianRanks | scripts/network_algebra_hypotheses.py:98-99 | the medians are those of the sorted group by rank: the lower middle entry, and the floored mean of the two middle entries |
| Anchors.AnchorIsClippedMedian | scripts/aggregate_network_hypotheses.py:80-83 | the anchor is the median, or the nearest admissible integer |
| Anchors.IntegerAnchors | scripts/aggregate_network_hypotheses.py:72-95 | residual and anchors reproduce the weights on every input; every anchor is the clipped lower median of its group and minimises it; the error exactly when the block does not divide the width |
| Anchors.AdmissibleIffBounded | scripts/network_algebra_hypotheses.py:100-103 | the two clipping bounds are exactly the anchors that keep the residual signed-i8 |
| Anchors.MomentBypass | scripts/network_algebra_hypotheses.py:88-104 | the split is exact on every input; every centre is the clipped floored median of its group, a signed byte, and minimises it; the error exactly on its conditions |
| RowLifting.LiftingForest | scripts/aggregate_network_hypotheses.py:98-123 | edges are a legal forest of exact differences, each strictly narrower than its row and the first of the narrowest candidates; returns exactly for more rows than neighbours |
| RowLifting.RestoreLifted | scripts/aggregate_network_hypotheses.py:126-134 | additions in edge order, refused on an illegal order |
| RowLifting.LiftingLossless | scripts/aggregate_network_hypotheses.py:126-134 | restoring the residual outputs gives the original outputs for every input |
| RowLifting.LiftingNeverWider | scripts/aggregate_network_hypotheses.py:66-69 | a lifted matrix never packs larger |
| RowLifting.PackedSizeLeast | scripts/aggregate_network_hypotheses.py:66-69 | the packed size is the fewest bytes that hold the bits of all rows |
| BitPlanes.ZigzagBijective | scripts/probe_all_link_frontier.py:261-267 | zigzag and its inverse are a bijection on bytes |
| BitPlanes.TransposeBijective | scripts/probe_all_link_frontier.py:259-268 | the bit transposition and its inverse undo each other |
| BitPlanes.Transform | scripts/probe_all_link_frontier.py:253-269 | keeps the length; the error exactly on empty or overlarge frames |
| BitPlanes.EncodedBits | scripts/probe_all_link_frontier.py:263-268 | bit k * n + i of the output is bit k of the i-th byte, zigzag-coded if the mode says so |
| BitPlanes.PlainModeKeeps | scripts/probe_all_link_frontier.py:256-257 | the plain mode returns the frame |
| BitPlanes.TransformRoundTrip | scripts/probe_all_link_frontier.py:253-269 | each direction undoes the other for every mode and frame |
| SealedSlots.CreateOwner | scripts/client_offload_sealed.py:19-26 | contexts of 1 to 4096 bytes are accepted and bound to the label by the digest; the owner starts live and without slots |
| SealedSlots.Owner.constructor | scripts/client_offload_sealed.py:22-26 | a live owner without slots |
| SealedSlots.Owner.SealData | scripts/client_offload_sealed.py:28-34 | allocates the slot before encrypting, also when encryption fails; nonce, associated data and frame spelled out |
| SealedSlots.Owner.OpenFrame | scripts/client_offload_sealed.py:36-46 | burns a consumed slot before looking at the frame, and changes nothing else; refused exactly on closed owners, unallocated and burned slots |
| SealedSlots.Owner.CloseOwner | scripts/client_offload_sealed.py:48-50 | closes the owner |
| SealedSlots.NonceNeverReused | scripts/client_offload_sealed.py:31-34 | no two encryptions of any sequence of calls share a nonce |
| SealedSlots.BigEndianAt | scripts/client_offload_sealed.py:32-34 | nonce and header bytes weigh descending powers of 256 |
| SealedSlots.ConsumedSlotStaysShut | scripts/client_offload_sealed.py:36-46 | after a consuming open that passed the checks, successful or not, the slot is refused for good |
| SealedSlots.BurnedIffConsumed | scripts/client_offload_sealed.py:36-46 | a slot is burned if and only if some operation of the run consumed it while the owner was live and the slot allocated |
| SealedSlots.ClosedRefuses | scripts/client_offload_sealed.py:48-50 | a closed owner refuses every later call |
| SealedSlots.ClosedIff | scripts/client_offload_sealed.py:48-50 | an owner is closed exactly after a close |
| SealedSlots.SealThenOpen | scripts/client_offload_sealed.py:28-46 | after any run, what was sealed is returned by every later open, if no operation between closes the owner or consumes the slot |
| SealedSlots.FrameBoundToSlot | scripts/client_offload_sealed.py:43-45 | a frame sealed for one slot is refused at every other slot |
| SealedSlots.OpenYieldsSealedData | scripts/client_offload_sealed.py:28-46 | unless the presented frame is a forgery, a live slot returns if and only if the frame is the one its own seal returned, and then it returns the data of that seal |

## Left out

- The order of tuples: transition rows are maps and the allowed tokens a set, so their order by token and the digests of `to_spec` are not modelled.
- `dense_restricted` of the finite language: a scatter of floating-point logits.
- The parsing of tokenizer files and the UTF-8 encoding of words: a tokenizer is its file size, its parsed settings, vocabulary and added tokens, and words are byte strings.
- The regular-expression split, the normaliser and the pre-tokenizer of `IndexedTokenizer.encode`: one function from texts to segments, given as a parameter.
- SQLite, the caches of `rank` and `token_id`, and the memo of the optimiser: lookups and recursion are pure.
- NumPy integer widths outside `solve_field`: products and outputs are exact integers; where the source keeps them in int64 it holds them modulo 2 to the 64, in which the stated equations hold too.
- NumPy row and batch axes: matrices are sequences of rows, updated as values rather than in place, and `restore_lifted` is stated for one output vector.
- Division in `expectation`: exact rationals instead of floating point.
- RowDemand.PruningPreservesOutputs: assumes that the listed operators act row by row on aligned inputs, and an acyclic graph; the operators themselves are parameters.
- RowDemand.SafeRowWiseIff: necessity assumes that row-wise operations combine values of equally many rows; NumPy broadcasting of a single row over many is not modelled.
- AES-GCM, SHA-256 and key generation in `SealedSlots`: cipher and digest are parameters. The cipher is assumed correct, and only the presented frame is assumed not to be a forgery.
- `signed_row_dictionary`, `batch_inverse`, `sparse_syndrome_decode`, `payload_bytes`, `placement_screen`: easier members of the same files.
- Benchmark drivers, audits, HTTP roles, file handling and every floating-point oracle.
