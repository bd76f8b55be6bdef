# Coverage-penalised beam search

This project models the beam-search decoder of `modules/search.py`, together with the proofs about it. The decoder is `beam_with_coverage` with its `Hypothesis` record and the `by_sentence` grouping.

For a batch of source sentences, the decoder keeps one beam of partial output hypotheses per sentence. Each round of its loop does the following:

- It splits the beams into active and completed hypotheses.
- It asks a step oracle (a neural decoder) for a new state, a symbol distribution and an attention row for every active hypothesis.
- It floors the stop symbol's probability while the minimum length has not been reached, and takes logarithms.
- It pre-prunes each distribution to its `beam_size + 1` best symbols.
- It extends every active hypothesis by each of those symbols. A child that stops gets a normalised score: its raw score divided by a length penalty, plus a coverage penalty and an over-attending penalty.
- It prunes each sentence group: a keep rule against the group's best normalised score, then a cap of `beam_size` hypotheses ranked by raw score.

The loop ends early once no hypothesis is active. It returns the grouped beams and an iteration count.

The modules follow that structure:

- `Numerics` (numerics.dfy): reals instead of floats. The logarithm and the power function are passed in as a `Math` record. `Sound` lists the only facts used about them: `log 1 = 0`, `log` is increasing, and powers of positive bases are positive and monotone in the base.
- `Sorting` (sorting.dfy): a stable insertion sort that stands in for Python's `sorted`.
- `Hypotheses` (hypothesis.dfy): the hypothesis record, the active/completed split, and `by_sentence` as a sort followed by grouping into maximal runs.
- `Scoring` (scoring.dfy): the options record and the three penalties.
- `Expansion` (expansion.dfy):
  - the oracle's contract and the inputs built for it;
  - the log-probabilities and the pre-pruning;
  - the children of a hypothesis;
  - the two nested expansion loops, as methods.
- `Pruning` (pruning.dfy): the keep rule, the per-group cap, and the pruning loop as a method.
- `Search` (search.dfy):
  - the initial beams and one round of the loop (`Step`);
  - the loop as a recursive function (`SearchFrom`), its invariant and its outcome;
  - `BeamWithCoverage`, the loop as a method, proved to compute `Search`.

Points of the code the model follows closely:

- The history of a hypothesis starts with the start symbol. The initial hypothesis has an empty history and the start symbol as its last symbol (modules/search.py:59), and every extension appends the parent's last symbol (modules/search.py:97). The length penalty therefore counts `len(history) - 1` emitted symbols (modules/search.py:105-107), and a hypothesis that stops in the first round has the history `[start]`.
- With `beta > 0`, the mask lift `coverage += 1 - mask` (modules/search.py:114) changes the child's coverage before the over-attending penalty is computed (modules/search.py:121). That penalty is therefore taken on the lifted coverage, and the lifted coverage is what the completed hypothesis stores (modules/search.py:133; `Scoring.PaddingChargedByOverattendPenalty`).
- The function returns `(by_sentence(beams), i)` on an early return (modules/search.py:69) and `(by_sentence(beams), max_length - 1)` once the loop runs out (modules/search.py:158). Its docstring (modules/search.py:46-57) describes arrays that are not returned.
- Pruning can empty a group. With `beam_size = 0` the cap (modules/search.py:155) removes every hypothesis. With `prune` on, a completed hypothesis whose normalised score is not within 1e-6 of the group's best is dropped (modules/search.py:144,152). The model states the cases in which a hypothesis provably survives (`Pruning.BestCompletedSurvives`, `Pruning.FreshGroupKeepsActive`).

## Model

| member | source | states |
|---|---|---|
| Hypotheses.Active | modules/search.py:66 | a hypothesis is active exactly when it is in the beams and its last symbol is not the stop symbol |
| Hypotheses.Completed | modules/search.py:67 | a hypothesis is completed exactly when it is in the beams and its last symbol is the stop symbol |
| Hypotheses.KeyOrderIsPreorder | modules/search.py:21-22 | the sort key (sentence, -norm_score, -score) is a total, transitive order |
| Sorting.Insert | modules/search.py:21-22 | insertion adds exactly the one element |
| Sorting.Sort | modules/search.py:21-22 | `sorted` returns a permutation of its input |
| Sorting.InsertSorted | modules/search.py:21-22 | inserting into a sorted list keeps it sorted |
| Sorting.SortSorted | modules/search.py:21-22 | `sorted` returns a list in key order |
| Sorting.SortOfSorted | modules/search.py:21-22 | sorting an already sorted list changes nothing |
| Hypotheses.Runs | modules/search.py:20-23 | the groups of `groupby`, concatenated, give back the sorted list |
| Hypotheses.RunsShape | modules/search.py:20-23 | every group is non-empty and of one sentence; adjacent groups differ in sentence |
| Hypotheses.RunsAscending | modules/search.py:20-23 | on a list sorted by sentence, group sentences strictly ascend |
| Hypotheses.RunsKeySorted | modules/search.py:20-23 | on a key-sorted list, every group is key-sorted |
| Hypotheses.BySentence | modules/search.py:19-23 | every group of `by_sentence` is non-empty |
| Hypotheses.BySentenceSpec | modules/search.py:19-23 | the groups hold exactly the given hypotheses; each group is of one sentence; the sentences strictly ascend; each group is ranked by normalised score, then raw score, both descending |
| Hypotheses.GroupedFrom | modules/search.py:19-23 | every hypothesis of a group comes from the grouped list |
| Hypotheses.GroupingIdempotent | modules/search.py:19-23 | grouping the concatenated groups again gives the same groups |
| Hypotheses.GroupSizeIsCount | modules/search.py:19-23 | a group holds exactly as many hypotheses as its sentence has in the input |
| Hypotheses.CountSort | modules/search.py:21 | sorting does not change how many hypotheses a sentence has |
| Numerics.MaxOf | modules/search.py:121 | `np.max` is an upper bound of the vector and is attained |
| Numerics.SumOfNonPositive | modules/search.py:115-116 | a sum of non-positive terms is non-positive, and it is zero exactly when every term is zero |
| Scoring.DefaultConfig | modules/search.py:33-40 | the keyword defaults switch every penalty and the keep rule on, keep the length penalty defined, and give `beam_size >= 1` and `speed_prune >= 1` |
| Scoring.LengthPenalty | modules/search.py:106-110 | the length penalty is positive, so the division by it is defined |
| Scoring.MaskAdjust | modules/search.py:114 | the lift `coverage + (1 - mask)` keeps one entry per source position |
| Scoring.Accumulate | modules/search.py:102 | adding an attention row keeps one entry per source position |
| Scoring.CoveragePenalty | modules/search.py:113-118 | `beta * sum(log(min(coverage, 1)))`, or 0 when `beta <= 0`; its sign and its zero case are stated by `Scoring.CoveragePenaltySign` |
| Scoring.NormScore | modules/search.py:124 | `score / lp + cp + oap`; `Scoring.NormScoreBelowLengthNormalised` bounds it |
| Scoring.OverattendPenalty | modules/search.py:120-123 | the over-attending penalty is never positive; with `gamma > 0` it is zero exactly when no position exceeds one unit, and it charges at least `gamma` times every position's excess |
| Scoring.CoveragePenaltySign | modules/search.py:113-118 | on positive coverage the coverage penalty is never positive; with `beta > 0` it is zero exactly when every position has at least one unit of attention |
| Scoring.LengthPenaltyMonotone | modules/search.py:106-110 | the length penalty does not decrease with the history length |
| Scoring.LengthNormalisationFavoursLonger | modules/search.py:106-124 | at equal non-positive raw score, a longer completion gets at least the length-normalised score of a shorter one |
| Scoring.NormScoreBelowLengthNormalised | modules/search.py:103-124 | on positive coverage, the penalties only lower the normalised score below `score / lp` |
| Scoring.PaddingIgnoredByCoveragePenalty | modules/search.py:112-118 | after the mask lift, coverages that agree on real source positions get the same coverage penalty |
| Scoring.PaddingChargedByOverattendPenalty | modules/search.py:114-123 | with the lift applied first, attention mass `c` on a padding position costs at least `gamma * c` in over-attending penalty |
| Expansion.StepInputs | modules/search.py:71-78 | the oracle's inputs are the active hypotheses' states, their last symbols, an all-ones mask and their sentence ids, position by position |
| Expansion.LogProbs | modules/search.py:84-87 | one log-probability row per hypothesis, one entry per vocabulary symbol |
| Expansion.PermutationOfIndices | modules/search.py:92 | a permutation of `0..n-1` lists each index exactly once |
| Expansion.SuffixIsTop | modules/search.py:92 | the last `k` entries of `argsort` are the `k` best symbols, distinct and ascending by value |
| Expansion.TopSymbols | modules/search.py:92 | the pre-pruned symbols are the `beam_size + 1` best of the row (all of it if shorter): distinct, in ascending order of value, with no symbol left out scoring above one kept |
| Expansion.MinLengthSuppressesStop | modules/search.py:84-92 | while `i <= min_length`, the stop symbol is pre-pruned in only when every symbol left out has probability at most 1e-30 |
| Expansion.Child | modules/search.py:97-133 | a child has the parent's sentence, the history extended by the parent's last symbol, the score plus one log-probability, the oracle's state, and the coverage plus one attention row (plus the mask lift when it stops while `beta > 0`); its normalised score is the sentinel unless it stops, otherwise `score / lp + cp + oap` |
| Expansion.Children | modules/search.py:98-133 | one child per pre-pruned symbol, in pre-pruning order; stated by `Expansion.ChildrenSpec` |
| Expansion.ChildrenSpec | modules/search.py:96-133 | the children of one hypothesis carry exactly the pre-pruned symbols, and each derives from the parent as `Child` states with its symbol among the row's `beam_size + 1` best |
| Expansion.ChildDerives | modules/search.py:96-133 | one child derives from the parent as `Child` states, by one of the row's `beam_size + 1` best symbols |
| Expansion.Extended | modules/search.py:95-133 | the children of the first `n` active hypotheses, in order; stated by `Expansion.ExtendedDerive` and computed by `Expansion.ExtendActive` |
| Expansion.ExtendedDerive | modules/search.py:95-133 | every expanded hypothesis derives from one of the active hypotheses, by one of the `beam_size + 1` best symbols of that hypothesis's log-probability row |
| Expansion.ExtendBy | modules/search.py:99-133 | the inner loop body builds exactly the child of the hypothesis for one symbol |
| Expansion.ExtendOne | modules/search.py:97-133 | the inner loop produces the children of one hypothesis, in pre-pruning order |
| Expansion.ExtendActive | modules/search.py:95-133 | the outer loop produces the children of every active hypothesis, in order |
| Expansion.ExtendedNext | modules/search.py:95-98 | expanding one more active hypothesis appends its children |
| Pruning.BestNorm | modules/search.py:152 | the best normalised score bounds every one in the group and is attained by one of them |
| Pruning.Keep | modules/search.py:140-147 | the keep rule: everything when `prune` is off; a completed hypothesis exactly when its normalised score exceeds the best minus 1e-6; an active one exactly when its raw score exceeds the best times `speed_prune`; its consequences are stated by `Pruning.Survivors`, `Pruning.BestCompletedSurvives` and `Pruning.FreshGroupKeepsActive` |
| Pruning.Survivors | modules/search.py:140-153 | a hypothesis survives exactly when it is in the group and passes the keep rule; with pruning off, the whole group survives |
| Pruning.ByScoreIsPreorder | modules/search.py:155 | the key `-score` is a total, transitive order |
| Pruning.RankedPrefix | modules/search.py:155 | the first `beam_size` of the raw-score ranking are in descending order, and none left out scores above one kept |
| Pruning.PruneGroup | modules/search.py:150-155 | one group pruned: the keep filter, the sort by `-score`, the cap of `beam_size`; stated by `Pruning.PruneGroupSpec` |
| Pruning.PruneGroupSpec | modules/search.py:140-155 | a pruned group holds `min(beam_size, survivors)` hypotheses, all survivors of the keep rule from the group and each at most as often as it survives (a sub-multiset of the survivors), in descending raw score, with no survivor left out scoring above one kept |
| Pruning.UnprunedKeepsAll | modules/search.py:140-155 | with `prune` off, the whole group survives, and the cap still keeps `min(beam_size, group size)` |
| Pruning.BestCompletedSurvives | modules/search.py:142-155 | a completed hypothesis whose normalised score is the group's best passes the keep rule, so then the group is non-empty after pruning when `beam_size >= 1`; with `prune` on, a completed hypothesis 1e-6 or more below the best is dropped from the pruned group |
| Pruning.FreshGroupKeepsActive | modules/search.py:145-152 | a group whose normalised scores are all the sentinel (as when it holds no completed hypothesis) has the sentinel as best score; with `speed_prune >= 1`, every active hypothesis scoring above the sentinel is kept |
| Pruning.SurvivorsWithin | modules/search.py:153 | the keep filter takes each hypothesis at most as often as the group holds it |
| Pruning.PruneAllWithin | modules/search.py:148-155 | the concatenated pruned groups are a sub-multiset of the flattened groups |
| Pruning.PruneAllMembers | modules/search.py:148-155 | every hypothesis kept is in the pruned form of one of the groups |
| Pruning.PruneAll | modules/search.py:148-155 | the pruned groups concatenated in group order; stated by `Pruning.PruneAllMembers` and `Pruning.PruneAllCount` |
| Pruning.Prune | modules/search.py:148-155 | the pool grouped by `by_sentence` and every group pruned; stated by `Pruning.PruneSpec` and `Pruning.PruneKeeps`, with the per-group keep rule, order and cap stated by `Pruning.PruneGroupSpec` |
| Pruning.PruneGroupCount | modules/search.py:148-155 | a pruned group holds at most `beam_size` hypotheses, all of its own sentence |
| Pruning.PruneAllCount | modules/search.py:148-155 | after pruning the groups, no sentence holds more than `beam_size` hypotheses, and a sentence with no group holds none |
| Pruning.PruneSpec | modules/search.py:140-155 | pruning keeps only hypotheses of the pool, each at most as often as the pool holds it (a sub-multiset of the pool), at most `beam_size` per sentence, and each one kept is in the pruned group of its own sentence and passed the keep rule against that group's best normalised score |
| Pruning.PruneKeeps | modules/search.py:140-155 | a hypothesis kept by pruning belongs to the group of its own sentence, is in that group's pruned form (so among its top `beam_size` survivors by raw score, by `Pruning.PruneGroupSpec`) and passed the keep rule against the group's best |
| Pruning.PruneGroups | modules/search.py:148-155 | the pruning loop extends the beams with every pruned group, in group order |
| Pruning.PruneBeams | modules/search.py:148-155 | grouping the pool and running the pruning loop gives the pruned beams |
| Search.Init | modules/search.py:59-62 | one initial hypothesis per sentence of the batch, in sentence order, carrying that sentence's initial state |
| Search.InitSpec | modules/search.py:59-62 | the initial beams hold exactly one hypothesis of each sentence `0..batch_size-1` and none of any other; they have score 0, the sentinel, an empty history, the start symbol and coverage 1e-30 (the beam invariant for round 0) |
| Search.CountConsecutive | modules/search.py:59-62 | hypotheses numbered consecutively by sentence count once per sentence |
| Search.Query | modules/search.py:82-83 | the oracle applied to the states, last symbols, all-ones mask and sentence ids of the active hypotheses; its shape is stated by `Search.QueryReady` |
| Search.QueryReady | modules/search.py:82-86 | the oracle's output has one state, distribution and attention row per active hypothesis, with the right widths |
| Search.Step | modules/search.py:66-155 | one round once a hypothesis is active: query, log-probabilities, expansion, and pruning of the completed hypotheses with the expansions; stated by `Search.StepDerivation`, `Search.StepSurvivors` and `Search.StepPreserves`, and computed by `Search.Round` |
| Search.StepDerivation | modules/search.py:66-155 | after a round, every hypothesis is either a completed hypothesis carried over unchanged, or a child of an active hypothesis, built from the oracle's state, log-probabilities and attention for that hypothesis, whose symbol is among the `beam_size + 1` best of that hypothesis's log-probability row |
| Search.StepPool | modules/search.py:66-149 | the pool a round prunes, `completed + extended`; its survivors are stated by `Search.StepSurvivors` |
| Search.StepSurvivors | modules/search.py:140-155 | every hypothesis after a round is in the pruned group of its own sentence of the round's pool (`Search.StepPool`: the completed hypotheses followed by the expansions) and passed the keep rule against that group's best normalised score |
| Search.StepAligned | modules/search.py:95-155 | a round keeps every hypothesis within the batch and sized to the source |
| Search.ChildFits | modules/search.py:97-133 | a child of an active hypothesis of round `i` fits round `i + 1`: its history has `i + 1` symbols and starts with the start symbol, its coverage stays at least 1e-30, and its normalised score is consistent |
| Search.StepPreserves | modules/search.py:64-155 | a round keeps the beam invariant for the next round and leaves at most `beam_size` hypotheses per sentence |
| Search.StepKeeps | modules/search.py:64-155 | the loop body keeps the loop invariant from one iteration to the next |
| Search.SearchFrom | modules/search.py:64-158 | the loop from iteration `i`: `max_length - 1` once the range runs out, the iteration itself when no hypothesis is active, otherwise one more round; stated by `Search.SearchFromSpec` and `Search.SearchFromTrace` |
| Search.Continue | modules/search.py:64-158 | one more round, then the loop from the next iteration |
| Search.Iterate | modules/search.py:64-155 | the beams after `n` rounds with no early return stay within the batch and sized to the source |
| Search.SearchFromSpec | modules/search.py:64-158 | from any iteration satisfying the invariant, the loop reports `max_length - 1`, or an earlier iteration at which no hypothesis is active; the final beams satisfy the invariant of the rounds taken |
| Search.SearchFromTrace | modules/search.py:64-158 | the loop ends on the beams of exactly the rounds it reports, and every iteration before those rounds still had an active hypothesis |
| Search.GroupsOf | modules/search.py:158 | grouping the final beams keeps the per-sentence width and the beam invariant, and keeps "all stopped" |
| Search.Search | modules/search.py:59-158 | the loop from the initial beams, with the final beams grouped by sentence; stated by `Search.SearchSpec` |
| Search.BeamsAfter | modules/search.py:59-155 | the beams after `n` rounds of the loop body from the initial beams |
| Search.SearchSpec | modules/search.py:59-158 | `beam_with_coverage` returns the grouped beams of exactly the rounds it reports. It returns as soon as no hypothesis is active: at every earlier iteration some hypothesis was active, and at a reported iteration below `max_length - 1` none is. Its groups ascend by sentence and are ranked by normalised score, then raw score. Each group holds at most `beam_size` hypotheses (one when no round ran). Every hypothesis belongs to a sentence of the batch, with a consistent normalised score and a history of at most the number of rounds taken, exactly that many while active |
| Search.Round | modules/search.py:71-155 | one round of the loop body computes the next beams of the search |
| Search.Advance | modules/search.py:64-155 | after a round from iteration `i`, the search continues from iteration `i + 1` with the new beams |
| Search.Start | modules/search.py:59-64 | the loop starts from well-formed beams with a loop body it can run |
| Search.BeamWithCoverage | modules/search.py:59-158 | the loop method returns exactly the groups and the count of the search |

## Left out

- Floating point: scores are reals. `np.log` and `**` are caller-supplied functions, of which only `Sound` is assumed. IEEE rounding, infinities, NaN and `log(0)` are not modelled.
- Numeric preconditions: `Valid` requires `len_smooth > 0` when `alpha > 0`, so that the length penalty is a positive real. It also requires a source length of at least 1, because `np.max` of an empty coverage raises, and a stop symbol inside the vocabulary.
- Mask entries: `Valid` requires every entry of `inputs_mask` to lie in [0, 1]. Other masks are not modelled; the lift then could lower a coverage below 1e-30.
- `beam_size` is a natural number. A negative `beam_size` would change what the slices at modules/search.py:92 and 155 select (`[:beam_size]` would then drop entries from the end of the ranking); that is not modelled.
- The keyword defaults (modules/search.py:33-40) are the `Scoring.DefaultConfig` record. The search itself takes any options record, so the model covers every choice of options and not only the defaults.
- The oracle's contract: `Conforms` requires one row per active hypothesis, the right widths and non-negative attention. A malformed result, which would make numpy raise, is not modelled.
- The step oracle is a Theano model and is a function parameter here. Its internals, and the numpy stacking of states into arrays (`zip`, `np.array`), are not modelled. A decoder state is a sequence of real vectors, taken as a whole.
- Initial coverage: the source stores the scalar 1e-30 and lets numpy broadcast it on the first addition. The model stores a row of 1e-30 of the source length, which gives the same sums.
- Expansion.TopSymbols: `np.argsort`'s tie-breaking among equal values is not fixed. Only the top `beam_size + 1` by value, in ascending order, is stated.
- Hypotheses.BySentence: the stability of Python's sort (the order among hypotheses with equal keys) is not stated, only that each group is ranked by the key.
- Pruning.Survivors: states which hypotheses pass the keep rule, not that the filter keeps their order.
- Search.SearchSpec: ties the final beams to the rounds of `Search.Step` from the initial beams (`Search.BeamsAfter`), and `Search.StepDerivation` ties each round's hypotheses to the round before. The coverage of a surviving hypothesis is not stated, in one lemma, as the sum of the attention rows along its whole lineage.
- The loop of `beam_with_coverage` is split: the nested expansion loops are the `Expansion.ExtendActive`/`Expansion.ExtendOne`/`Expansion.ExtendBy` methods, and the pruning loop is `Pruning.PruneGroups`. `Search.SearchFrom` describes the loop with the loop body passed as a function value, and `Search.BeamWithCoverage` is proved to compute it.
- The in-place overwrite of the stop symbol's column before the logarithm (`all_dists[:, stop] = 1e-30`) is modelled as building new rows (`Expansion.LogProbs`). Python lists are modelled as sequences, with no aliasing.
- The debug prints and the commented-out maximum-length discount are not modelled.
- `app/views/api.py` (the web service that calls the translator) is not part of this model.
