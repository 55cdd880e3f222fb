# Causalab, modelled and verified in Dafny

A verification project kept beside `causalab`. It models the parts of the repository where a wrong step would corrupt
an experiment without an error, in the form the source has (classes for the objects that update themselves, loops
for loops, functions for expressions), and proves what they promise.

- **Causal traces** (`CausalSpec`, `Trace`, `Runs`, `Interchange`, `ModelGraph`, `Chains`, `LivePaths`,
  `Confounding`). A trace recomputes descendants depth first, immediately, even while other parents are stale. The
  project proves that after construction and after any run of reads and interventions every read is the recursive
  evaluation of the mechanisms in force, exactly as long as no lazy variable without a value feeds another; that copies
  are isolated, that interchange is simultaneous surgery, that timesteps are longest-path levels, and that the live-path
  search lists exactly the live chains.
- **Token positions** (`Templates`, `TokenPositions`, `Positions`, `PositionCache`, `Recency`). Two implementations
  of one specification language: closures on each example's own encoding, and a resolver on rows of the padded
  batch. The second is proved to be the first shifted by the padding, and where it is not, exactly when. The cache holds
  the most recently used keys, and its answers are right exactly when keys decide tokens.
- **Sequences** (`OutputOffsets`, `Sequences`, `Activations`, `Cohorts`, `Pairing`). Character spans of output tokens
  under a decoder that revises earlier characters, target positions, the three addresses of a target's activation,
  and the pairing of rows.
- **Documents** (`Imports`, `ImportClosure`, `Combos`, `Trees`, `Axes`, `Labels`, `Expansion`, `ExpansionCases`,
  `Bands`). The import closure as reachability, and the expansion of named axes.
- **Codecs and stores** (`NestedKeys`, `NestedPaths`, `NestedArtifacts`, `Events`, `Masks`, `Base64`, `RandomMask`,
  `EditGroups`, `Decimals`, with `Wrappers` shared by all).

`dafny verify dfyconfig.toml` checks everything.

## What the proofs found

Each of these is a property that reads as if it always held and does not; the row named in brackets gives the exact
condition or a concrete input.

- A variable that depends on a lazy one that was not supplied cannot be read from a new trace, although the recursive
  evaluation gives it a value (`CausalSpec.ReadsAreEvaluationIff`). Later it can: once the lazy parent was read and
  another parent set it is computed, and after that it can keep a stale value (`Runs.LazyFeederGoesStale`). Every read
  of every run is right exactly when no such variable feeds another (`Runs.EveryReadIsEvaluation`). A copy may then read
  less than its original (`Runs.CopyFallsBehind`).
- The longest-path filter raises, instead of answering, when no edge is live (`LivePaths.PathMaxLenFilter`,
  `LivePaths.FilterRaises`).
- Under a chat template that alters one variable, the per-example path refuses every specification that needs any
  variable of that template, while the batch path refuses only those that need the altered one; under a tokenizer
  without a name the first refuses them all and the second none
  (`TokenPositions.RowRefinesExample`, `TokenPositions.AlteredSibling`).
- A pair nested under another pair's counterfactual member resolves differently on the two paths
  (`Positions.NestedPairsPart`, `Positions.PathsAgreeIff`).
- The position cache's key holds the filled text but not how it was filled: two examples of one template with the
  same text and other values share an entry, and the second is answered with the first one's tokens
  (`PositionCache.EveryRunIsRightIff`, `PositionCache.SameTextGoesWrong`).
- Nested values do not round trip for every dictionary: a key that does not decode to itself, two siblings written
  alike, or a tensor under an empty key that a sibling overwrites lose something, and nothing else does
  (`NestedArtifacts.SaveThenLoad`, `NestedArtifacts.EmptyKeyLosesTensor`). Text in a tuple key that spells a number
  comes back as that number (`NestedKeys.TextThatSpellsANumber`).
- Substitution runs over the `axes` block as well, so a block holding a mapping with the single key `axis`, such as
  an axis of that name declared alone, makes expansion raise (`Axes.SourceIsCovered`, `ExpansionCases.AxisCalledAxis`).
- A plain sweep may list a value twice, and two sweeps at different paths may have one dotted label; then two points
  share their coordinates (`Expansion.CoordinatesTellPointsApart`, `ExpansionCases.ValueRepeats`,
  `ExpansionCases.LabelsMeet`).
- The assertion that a clipped band is never empty fails for a centre too far outside the model
  (`Bands.ClippedBands`, `Bands.CentreOutside`).
- With an explicit count, a complement draw is taken from the units under the threshold, which can be units the
  ranked cut keeps (`RandomMask.ComplementMissesCut`, `RandomMask.ComplementDrawsRankedUnit`).
- A zero-length edit span inside a token has a token run, but no variable position resolves to it
  (`EditGroups.RunIsCharRange`, `EditGroups.EmptySpanInsideToken`).

## Model

| member | source | states |
|---|---|---|
| `CausalSpec.EvalIsFixpoint` | causalab/causal/trace.py:24-26 | evaluating the mechanisms recursively on the root values gives a store in which every variable holds what its own mechanism asks for |
| `CausalSpec.FixpointUnique` | causalab/causal/trace.py:197-222 | on an acyclic graph two such stores agree on every variable, so there is one meaning to end in |
| `CausalSpec.SolutionIsEval` | causalab/causal/trace.py:197-222 | that one store is the recursive evaluation, whatever ranking of the graph justifies the recursion |
| `CausalSpec.StoredIsEvaluated` | causalab/causal/trace.py:208-222 | whatever the eager propagation stores, lazy variables counting as absent, agrees with full evaluation |
| `CausalSpec.ReadsAreEvaluationIff` | causalab/causal/trace.py:119-129 | the first read of a new run returns the recursive evaluation, whichever variable it reads, if and only if no variable that has a value has a lazy parent that was not supplied |
| `CausalSpec.DeferredParentBlocksRead` | causalab/causal/trace.py:208-217 | on the first read of a new run a variable with an unsupplied lazy parent cannot be read |
| `CausalSpec.FedByStoredReadsEvaluation` | causalab/causal/trace.py:119-129 | where no unsupplied lazy variable feeds another one, the first read is the recursive evaluation for every variable |
| `CausalSpec.ReadsKeepMeaning` | causalab/causal/trace.py:119-125 | storing what a parentless lazy variable gave when it was read changes no variable's evaluation |
| `CausalSpec.SequentialIsSimultaneous` | causalab/causal/trace.py:187-191 | any run of interventions is one simultaneous surgery with the last value written to each variable |
| `CausalSpec.InterventionsCommute` | causalab/causal/trace.py:187-191 | interventions on distinct variables give the same model in every order |
| `CausalSpec.SurgeryMeaning` | causalab/causal/trace.py:168-191 | after surgery an edited variable has its new value and every other obeys its own mechanism on its parents' new values |
| `CausalSpec.InterveningWithOwnValue` | causalab/causal/trace.py:168-191 | setting a variable to the value it already has changes no variable's value |
| `Trace.StoreChild` | causalab/causal/trace.py:217-219 | one recomputation: storing a child's value leaves at most that child's own children stale, although other parents may still be stale |
| `Trace.DropCache` | causalab/causal/trace.py:209-212 | dropping a lazy child's cached value settles it without touching its descendants, sound because no cached lazy variable feeds another |
| `Trace.UnreadyIsSettled` | causalab/causal/trace.py:216-219 | a child one of whose parents has no value yet is settled by having none itself |
| `Trace.SettledIsSolution` | causalab/causal/trace.py:197-222 | a store without stale variables is the fixpoint of the mechanisms in force, cached lazy leaves aside |
| `Trace.StoreReads` | causalab/causal/trace.py:119-129 | reading a settled store, lazy mechanisms computed from stored parents, is the model's reading of the variable |
| `Trace.WalkSettles` | causalab/causal/trace.py:197-222 | the whole depth-first walk: if before it everything outside the children still to be visited and S is settled, afterwards everything outside S is, no root is touched and no pin overwritten |
| `Trace.WalkAnyRanking` | causalab/causal/trace.py:197-222 | the walk is one function of the store: it does not depend on the ranking of the graph that shows it to end |
| `Trace.PinsAreSurgery` | causalab/causal/trace.py:83-93 | construction with supplied values is surgery: supplied variables hold and everything else obeys its mechanism |
| `Trace.PushedIsBuilt` | causalab/causal/trace.py:83-93 | so whatever order the supplied variables are pushed in, construction ends in that surgery's one solution |
| `Trace.WriteIsSurgery` | causalab/causal/trace.py:187-191 | setting a variable in a settled store and pushing it leaves a settled store, that of the model with the variable intervened on |
| `Trace.ReadIsMeaning` | causalab/causal/trace.py:119-129 | where everything a lazy variable feeds is stored, a read is the variable's evaluation and caching keeps the store current |
| `Trace.BuildChildren` | causalab/causal/trace.py:72-76 | the children lists are the inverse of the parents relation |
| `Trace.CausalTrace.constructor` | causalab/causal/trace.py:50-93 | whatever is supplied, the variables are pushed one after the other, pinned ones never overwritten; unless a lazy variable with parents is among them, the store is the solution of that surgery |
| `Trace.CausalTrace.RecomputeDescendants` | causalab/causal/trace.py:197-222 | the store after it is the depth-first walk over the variable's children, on any graph a ranking orders; what that leaves settled is WalkSettles |
| `Trace.CausalTrace.Get` | causalab/causal/trace.py:105-129 | in any state a read returns the stored value, computes and caches a lazy one whose parents are stored, and is an error otherwise; in a valid trace that is the variable's evaluation, and no variable's meaning changes |
| `Trace.CausalTrace.Intervene` | causalab/causal/trace.py:168-191 | in any state the value is stored, the mechanism replaced by the constant and the change pushed, an undeclared variable being an error after it was stored; in a valid trace the new state is exactly the old model with the variable intervened on |
| `Trace.CausalTrace.Copy` | causalab/causal/trace.py:152-166 | in any state the copy has its own storage and the same mechanisms and values, with children lists rebuilt from the mechanisms in force; a valid trace has a valid copy |
| `Trace.FirstRead` | causalab/causal/trace.py:50-129 | the first read of a new run, lazy variables anywhere, is what the model observes: stored, or lazy on stored parents |
| `Runs.Perform` | causalab/causal/trace.py:105-191 | a trace goes through the stores of the run, read by read and intervention by intervention, and answers from them |
| `Runs.EveryReadIsEvaluation` | causalab/causal/trace.py:105-222 | every read of every run of reads and interventions returns the recursive evaluation if and only if no lazy variable that was not supplied feeds another one |
| `Runs.NewRun` | causalab/causal/trace.py:50-222 | where none does, each answer of a new run is the evaluation of the model its interventions so far have made |
| `Runs.LazyFeederGoesStale` | causalab/causal/trace.py:208-219 | a model where one does: a variable cannot be read, can be read after its lazy parent was and another parent was set, and then keeps the old value when the input changes |
| `Runs.CopyFallsBehind` | causalab/causal/trace.py:152-222 | another where one does: after a variable was set and the lazy one read, a copy lacks an edge the original still pushes along, and when the input is set on both only the original can be read |
| `Interchange.KeyRoundTrip` | causalab/causal/causal_model.py:336-340 | a key written as target, arrow and source is read back as the two names, with any spaces around either |
| `Interchange.UsualKeys` | causalab/causal/causal_model.py:336-340 | so is the usual spelling, with a blank on either side of the arrow or none |
| `Interchange.ParsedIsAsked` | causalab/causal/causal_model.py:336-349 | a key is read as target and source exactly when it is both of them without an arrow, or the target stands before its one arrow and the source behind it, spaces aside; any other key is an error |
| `Interchange.InterveneInTurn` | causalab/causal/trace.py:168-191 | over any sequence of interventions the trace means the model with all of them made |
| `Interchange.CopyThenDiverge` | causalab/causal/trace.py:152-166 | later interventions give the same values on copy and original, and those made on one are never seen by the other |
| `Interchange.ApplyAll` | causalab/causal/causal_model.py:334-350 | entry after entry until one is malformed, unreadable or undeclared; the donors keep meaning what they meant |
| `Interchange.RunInterchange` | causalab/causal/causal_model.py:331-352 | in the result a target means what the donor of the last entry that writes it meant at that entry's source, and a variable no entry writes obeys its own mechanism; it is an error exactly when an entry asks for no declared target or for a source without a value; donors unchanged |
| `Interchange.InterchangeMeans` | causalab/causal/causal_model.py:334-350 | simultaneous surgery with the last write to each target has just that meaning |
| `Interchange.AcceptedIs` | causalab/causal/causal_model.py:334-350 | a dictionary is applied exactly when every one of its entries can be, and then entry by entry |
| `Interchange.AcceptedWhen` | causalab/causal/causal_model.py:334-350 | and that is exactly when each key asks for a declared target and a source its donor has a value for |
| `Interchange.DictionaryOrder` | causalab/causal/causal_model.py:334-350 | when no two entries write one target, any order of the dictionary is refused or accepted alike and gives the same surgery |
| `ModelGraph.NextLevel` | causalab/causal/causal_model.py:151-160 | after step s the timesteps hold, for every variable, the longest walk from an input of length at most s, and the loop goes on exactly while some walk is that long |
| `ModelGraph.WalksEndIff` | causalab/causal/causal_model.py:147-161 | walks from an input are bounded in length, so that the loop ends, if and only if no cycle is reached from an input |
| `ModelGraph.AcyclicIff` | causalab/causal/causal_model.py:147-161 | a graph is acyclic if and only if the loop ends and every variable is reached |
| `ModelGraph.ComputeTimesteps` | causalab/causal/causal_model.py:147-161 | where no cycle is reached the loop ends, with exactly the reached variables at their longest-path levels and the end time the largest of them |
| `ModelGraph.ComputeOutputs` | causalab/causal/causal_model.py:141-145 | the outputs are the variables that are nobody's parent, in declaration order |
| `ModelGraph.RaisedIsRanking` | causalab/causal/causal_model.py:162-163 | where every variable is reached, raising the outputs to the end time keeps every parent strictly below its child |
| `ModelGraph.SortByTimestep` | causalab/causal/causal_model.py:212-213 | the sorted list is a stable permutation ordered by timestep |
| `ModelGraph.SortedByRankingIsTopological` | causalab/causal/causal_model.py:212-213 | a list sorted by such timesteps is topological |
| `ModelGraph.DerivedGraphPasses` | causalab/causal/causal_model.py:185-210 | every check of two variables of a derived graph passes, except that the second has no timestep when it is not reached |
| `ModelGraph.ChecksMean` | causalab/causal/causal_model.py:184-210 | on any graph the pair checks pass exactly when both edge lists and the timesteps agree |
| `ModelGraph.KnownEverywhere` | causalab/causal/causal_model.py:165-182 | and the checks of a variable alone when it has values, children, a mechanism and a timestep |
| `ModelGraph.Validate` | causalab/causal/causal_model.py:165-210 | the checks pass exactly when every variable has declared values and is reached from an input, and what they report is a variable without values or one that is not reached |
| `ModelGraph.UnreachedParent` | causalab/causal/causal_model.py:162-163 | a variable that is not reached has a parent that is not either, and is no output, so that outputs raised to the end time hide none |
| `ModelGraph.CreateModel` | causalab/causal/causal_model.py:118-213 | where no cycle is reached from an input the constructor ends; it succeeds exactly with raw_input, raw_output, all value ranges present and every variable reached, and then its graph and variable order are the derived ones |
| `Chains.NextPathsAre` | causalab/causal/causal_utils.py:624-638 | one round extends exactly the listed paths by exactly the successors whose edge tests positive |
| `Chains.NextLevelIsExact` | causalab/causal/causal_utils.py:624-641 | if a level lists exactly the chains of its length, the next one does too |
| `LivePaths.ReadAfter` | causalab/causal/causal_utils.py:631-635 | a fresh trace with one variable set reads the child's value in that surgery |
| `LivePaths.StillHasAValue` | causalab/causal/causal_utils.py:631-635 | a variable that has a value still has one after an intervention, so only the actual run can fail a test |
| `LivePaths.NothingRaises` | causalab/causal/causal_utils.py:617-635 | given every input, no test of an edge raises |
| `LivePaths.TestEdge` | causalab/causal/causal_utils.py:628-638 | an edge tests positive exactly when some declared value of the variable gives the child another value than it actually has, and raises exactly when there is a value to try and the child has none |
| `LivePaths.FindLivePaths` | causalab/causal/causal_utils.py:617-643 | the search raises exactly when some edge's test does; otherwise it ends, and for each length it lists exactly the chains of that many variables whose every edge is live |
| `LivePaths.ChainsAreListed` | causalab/causal/causal_utils.py:617-643 | every live chain of two or more variables is in the listing |
| `LivePaths.SpecificPathFilter` | causalab/causal/causal_utils.py:725-732 | true exactly when a live chain joins the two variables, unless the search raises |
| `LivePaths.PathMaxLenFilter` | causalab/causal/causal_utils.py:666-672 | whether the longest live chain's length is among those asked for; it raises exactly when the search does or no edge at all is live |
| `LivePaths.FilterRaises` | causalab/causal/causal_utils.py:666-672 | a model of raw_input and a raw_output that ignores it, on which the filter raises for all lengths |
| `Confounding.GroupConfounded` | causalab/causal/causal_utils.py:255-262 | one group for each vector of outputs that occurs, holding exactly the hypotheses with those outputs, in order |
| `Confounding.Audit` | causalab/causal/causal_utils.py:252-265 | the groups of several and the hypotheses left alone; neither is reported without a sampled pair |
| `Confounding.ReportedIff` | causalab/causal/causal_utils.py:252-265 | a hypothesis is in a reported group exactly when another one never disagrees with it, and reported alone exactly when every other one does |
| `Confounding.DisagreementRate` | causalab/causal/causal_utils.py:152-154 | the fraction of pairs on which two hypotheses differ, none without pairs |
| `Confounding.GroupedIffNeverApart` | causalab/causal/causal_utils.py:245-262 | two hypotheses share a group exactly when they disagree on no pair, and every hypothesis is in exactly one group |
| `Confounding.DisagreementTriangle` | causalab/causal/causal_utils.py:152-154 | two hypotheses disagree on no more pairs than each of them does with a third, put together |
| `Templates.ParseTemplate` | causalab/neural/token_positions.py:727-748 | the parts found by scanning for placeholders, left to right |
| `Templates.PartsAreTheTemplate` | causalab/neural/token_positions.py:727-748 | spelled out again the parts are the template, and no name and no literal is empty |
| `Templates.ParsesBack` | causalab/neural/token_positions.py:727-748 | parsing what canonical parts are spelled as gives them back: sound parts, no literal behind another, no placeholder inside a literal |
| `Templates.ParsedIs` | causalab/neural/token_positions.py:727-748 | a template's parts are the one canonical list that is spelled like it |
| `Templates.FillWithPositions` | causalab/neural/token_positions.py:798-847 | filling gives the text and every variable's spans, refuses a missing value and a prompt other than the one the model runs |
| `Templates.FillsWhen` | causalab/neural/token_positions.py:798-847 | an example fills a template exactly when every variable has a value and the prompt it runs, if it has one, is the filled text |
| `Templates.SpansAreOrdered` | causalab/neural/token_positions.py:812-838 | a variable has one span for each occurrence, in text order and pairwise disjoint |
| `Templates.SpansSliceTheText` | causalab/neural/token_positions.py:812-838 | every span slices the filled text to exactly the substituted value |
| `Templates.AlikeFillAlike` | causalab/neural/token_positions.py:812-838 | values of equal lengths that fill a template to equal texts fill it at equal spans |
| `TokenPositions.RegionOfPadded` | causalab/neural/token_positions.py:1373-1382 | on a left- or right-padded row the content region is where the encoding was put |
| `TokenPositions.TokensShareCharacters` | causalab/neural/token_positions.py:437-477 | a token with characters of its own is among a range's tokens exactly when they share one, in ascending order; padding never is |
| `TokenPositions.RebasedMeans` | causalab/neural/token_positions.py:480-523 | behind a chat template a span moves by where the content begins, refused exactly when its value does not stand there |
| `TokenPositions.TokensShift` | causalab/neural/token_positions.py:437-477 | a character range overlaps the same tokens in the padded row, behind the padding, and never padding itself |
| `TokenPositions.PaddedCarries` | causalab/neural/token_positions.py:317-369 | every contiguously padded row carries its example's encoding, shifted by the left padding |
| `TokenPositions.VariableOnRow` | causalab/neural/token_positions.py:1385-1428 | for one variable the row's tokens are the example's, shifted, unless the chat template altered some variable of the template or the tokenizer has no name |
| `TokenPositions.PaddingOnlyShifts` | causalab/neural/token_positions.py:1385-1506 | for every specification, dynamic ones included, the row resolver answers on any padded row what it answers on the bare encoding, shifted, and refuses when it refuses there |
| `TokenPositions.ExampleRefusesMore` | causalab/neural/token_positions.py:880-1276 | the per-example indexers are that same function, except that they refuse whatever needs a variable once the chat template altered any variable of the template, and under a tokenizer without a name |
| `TokenPositions.RefusedIs` | causalab/neural/token_positions.py:1431-1506 | a specification has no answer on an example's encoding exactly when a field is missing, the template lacks the variable, the example cannot fill it, the variable itself was altered, or the position is out of range |
| `TokenPositions.AnswerIs` | causalab/neural/token_positions.py:1431-1506 | otherwise it is all of a variable's tokens, the one at the position from either end, the last moved forward or the first moved back, or the slot itself |
| `TokenPositions.RowRefinesExample` | causalab/neural/token_positions.py:1431-1506 | so the two agree, failures included, if and only if no template variable was altered and the tokenizer has a name, or no variable is needed, or one of those refusals applies |
| `TokenPositions.AlteredSibling` | causalab/neural/token_positions.py:919-929 | a concrete prompt where they part: the per-example path refuses a variable whose characters survived because another variable's did not |
| `Positions.BatchIsSettledAlone` | causalab/neural/token_positions.py:317-369 | whatever the chat template did and however pairs are nested, the batch holds, row by row and behind the padding, what the resolver answers on each example's own encoding for the position with every pair replaced by the member the flag asks for; it raises exactly when one of those is refused |
| `Positions.ExampleIsAskedAlone` | causalab/neural/token_positions.py:1309-1363 | the per-example path ends with the position in which the flag was asked once and forgotten below a pair, and answers what the resolver does, except where a variable is needed that cannot be indexed, its template altered or the tokenizer without a name |
| `Positions.RefusesIs` | causalab/neural/token_positions.py:317-369 | a concatenation is refused exactly when one of its specifications is |
| `Positions.PathsAgreeIff` | causalab/neural/token_positions.py:317-369 | the batch gives each example what it gives by itself if and only if both raise, or neither does, every variable needed can be indexed, and the two members answer alike |
| `Positions.BatchRefinesExamples` | causalab/neural/token_positions.py:317-369 | for original inputs, or where no pair sits under a counterfactual member: if and only if every variable needed can be indexed or some example is refused anyway |
| `Positions.NestedPairsPart` | causalab/neural/token_positions.py:1309-1317 | a pair under a counterfactual member on a two-token prompt: the per-example path answers the first token, the batch path the last |
| `Recency.ByRecencyMeans` | causalab/neural/token_positions.py:897-935 | the recency list holds the keys of the history once each, in the order of their last uses |
| `Recency.UseAfterCut` | causalab/neural/token_positions.py:933-935 | cutting the list to its bound before a use changes nothing after it |
| `PositionCache.KeysAfterTouch` | causalab/neural/token_positions.py:897-935 | after a use the cache's keys are again the most recent ones, up to the bound, in recency order |
| `PositionCache.KeysAreRecent` | causalab/neural/token_positions.py:892-937 | over every run of lookups, refused ones included, the cache's keys are the most recently used distinct ones up to the bound |
| `PositionCache.ReplyIsOrigin` | causalab/neural/token_positions.py:892-937 | over every run a hit is answered with the tokens of the fill that last missed, a miss with those of its own spans |
| `PositionCache.OriginIsLastMiss` | causalab/neural/token_positions.py:892-937 | that fill is the one of the last request of the key that was neither a hit nor refused |
| `PositionCache.HitsAreRecomputations` | causalab/neural/token_positions.py:892-937 | where requests with one key have the same tokens, every lookup of every run gives what recomputing would |
| `PositionCache.EveryRunIsRightIff` | causalab/neural/token_positions.py:892-937 | every lookup of every run over given requests is right if and only if their keys decide their tokens |
| `PositionCache.OneTemplateRunsAreRight` | causalab/neural/token_positions.py:892-937 | for one template it is enough that examples filled to one text have values of the same lengths |
| `PositionCache.SameTextOtherTokens` | causalab/neural/token_positions.py:892-896 | two examples of one template fill to one text with different tokens |
| `PositionCache.SameTextGoesWrong` | causalab/neural/token_positions.py:892-901 | looked up one after the other, the second of them is answered with the first one's tokens |
| `PositionCache.Cache.constructor` | causalab/neural/token_positions.py:793-796 | the cache starts empty, with no request behind it |
| `PositionCache.Cache.GetVariablePositions` | causalab/neural/token_positions.py:849-937 | on a hit the answer is the tokens of the fill that last missed, on a miss those of its own spans; the entries are what the run of requests leaves, and a refusal changes nothing |
| `PositionCache.ResolveAll` | causalab/neural/token_positions.py:919-929 | every variable's tokens, or a refusal when one of them was altered |
| `OutputOffsets.CommonPrefix` | causalab/neural/sequences.py:439-444 | the length of the longest common prefix |
| `OutputOffsets.TrackOffsets` | causalab/neural/sequences.py:422-449 | the spans after all tokens, or a refusal when the decoder revises the decoded prompt |
| `OutputOffsets.SpansAreTidy` | causalab/neural/sequences.py:445-448 | one span for each token, starts and ends never decreasing, from character 0 without a gap to the end of the text |
| `OutputOffsets.SpansMean` | causalab/neural/sequences.py:438-449 | token i's span starts exactly after the longest prefix no token from i on touched, and ends exactly with the first text from token i on that nothing later revised |
| `OutputOffsets.DisjointThroughout` | causalab/neural/sequences.py:438-448 | the spans are pairwise disjoint after every token if and only if every token only appends or only truncates |
| `OutputOffsets.DisjointAtTheEnd` | causalab/neural/sequences.py:438-449 | the spans returned are pairwise disjoint if and only if every token's settled text, the first from it on that nothing later revised, is a prefix of everything decoded from it on |
| `OutputOffsets.AppendedSpan` | causalab/neural/sequences.py:438-448 | if the decoder only appends, token i's span is exactly what it appended |
| `Sequences.FrozenKeepsIds` | causalab/neural/sequences.py:399-454 | one offset for every token, the prompt's tokens first; a recorded output is kept ID for ID behind the prompt's text and offsets, a text output is the tokenization of both together |
| `Sequences.RolloutFreezes` | causalab/neural/sequences.py:413-437 | a recorded rollout freezes exactly when the prompt has tokens, its IDs are the vocabulary's and no decoding of it touches the prompt's characters; it is then the output |
| `Sequences.RecordedTextIs` | causalab/neural/sequences.py:421-438 | what the prompt and the first tokens decode to is the decoded prompt and the text recorded for the last of them |
| `Sequences.RecordedOffsetsMean` | causalab/neural/sequences.py:421-454 | a recorded token's offset is its span among the decoded texts moved behind the prompt, inside the frozen text, and slices it to what that span slices the decoded text to |
| `Sequences.PrepareSequence` | causalab/neural/sequences.py:380-512 | the first refusal that applies, or a row whose targets sit after the prompt and are predicted from the position before |
| `Sequences.AcceptedRollout` | causalab/neural/sequences.py:380-478 | which recorded rollouts are accepted: prompt, IDs and decodings as for freezing, roles that name targets, EOS IDs of the vocabulary, and nothing behind one |
| `Sequences.AcceptedText` | causalab/neural/sequences.py:399-478 | which text outputs are accepted: tokenized behind the prompt they keep its tokens, add some, and fit in the same way |
| `Sequences.RefusedForEos` | causalab/neural/sequences.py:474-478 | an output that passes every other check is refused for EOS exactly when a token ends it and another follows |
| `Sequences.EosMayFollow` | causalab/neural/sequences.py:474-478 | an accepted rollout that nothing ends yet stays accepted behind its EOS token exactly when the decoder keeps the prompt |
| `Sequences.LastIsEos` | causalab/neural/sequences.py:497-511 | and then exactly the last target is marked as EOS |
| `Sequences.TargetMeans` | causalab/neural/sequences.py:497-511 | a target's record holds its token, its place, the place before it, its role or output_<i>, and whether it is an EOS ID |
| `Sequences.ReadsResolveToPredictions` | causalab/neural/sequences.py:567-576 | target i's negative read index resolves, on every left-padded row, to its own prediction position behind the padding |
| `Sequences.ResolvedSlot` | causalab/neural/sequences.py:567-576 | an integer position is counted from the row's end when negative, otherwise behind padding and prefix, and is none outside the row's own tokens |
| `Activations.Gather` | causalab/analysis/sequence_activations.py:25-43 | each row's window at its prediction positions, from a dense or a flattened harvest, and the first error in order |
| `Activations.GatherAccepts` | causalab/analysis/sequence_activations.py:25-43 | it gives no error exactly for rows with equally many targets, windows as wide as the rows or as long as all together, and positions inside them |
| `Activations.Split` | causalab/analysis/sequence_activations.py:33-34 | cutting a flat harvest gives each row the window at its offset |
| `Activations.SplitConcat` | causalab/analysis/sequence_activations.py:33-34 | cutting undoes flattening |
| `Activations.LayoutsAgree` | causalab/analysis/sequence_activations.py:29-36 | a cohort saved densely and saved flat has the same windows |
| `Activations.ThreeAddresses` | causalab/analysis/sequence_activations.py:37-42 | gathered, read at the negative index and looked up in the flat harvest, a target's activation is the same one |
| `Cohorts.SequenceCohorts` | causalab/neural/sequences.py:69-90 | the rows grouped by key in their order, or an error exactly when some example or donor occurs in two splits |
| `Cohorts.SplitsHoldMeans` | causalab/neural/sequences.py:80-88 | keeping to splits means that rows naming an example, as their own or as their donor, are of one split |
| `Cohorts.EachRowHasItsPlace` | causalab/neural/sequences.py:88-89 | every row is in its key's cohort, behind exactly the earlier rows of that key |
| `Cohorts.EachPlaceHasItsRow` | causalab/neural/sequences.py:88-89 | every place in a cohort is one row's: nothing added, lost or repeated |
| `Cohorts.KeysGroupExactly` | causalab/neural/sequences.py:88-88 | under a legal prefix condition two rows share a key exactly when all four grouping fields agree, a missing donor length read as zero |
| `Cohorts.OtherConditionsCollide` | causalab/neural/sequences.py:88-88 | under other conditions two rows of different splits can share a key |
| `Pairing.PairSequences` | causalab/neural/sequences.py:23-66 | the first refusal that applies, or the base's row naming its donor with the donor's own token for every base target |
| `Pairing.PairingAccepts` | causalab/neural/sequences.py:37-59 | what is paired: rows of one split and condition with equal roles, or with an alignment that takes a donor target of its own for every base target |
| `Pairing.PairedRow` | causalab/neural/sequences.py:60-66 | the paired row is its base's in everything but the donor it names and that one's length |
| `Pairing.PairHolds` | causalab/neural/sequences.py:56-66 | for every base target a pair holds the token of the donor target aligned to it, without an alignment of the one at its place |
| `Pairing.ValuesCount` | causalab/neural/sequences.py:47-52 | counting distinct values, as the check does, is the same as asking that no two targets share one |
| `Pairing.DonorIsLongEnough` | causalab/neural/sequences.py:47-55 | an accepted alignment never has fewer donor than base targets, and with as many it takes every one |
| `Pairing.LayoutsSuffice` | causalab/neural/sequences.py:39-46 | without an explicit alignment, rows are paired exactly when split, condition, length and roles agree |
| `Pairing.PairsKeepSplits` | causalab/neural/sequences.py:35-39 | however rows are paired, pairs of rows whose examples keep to their splits keep to them too |
| `Pairing.CohortsOfPairs` | causalab/neural/sequences.py:88-89 | pairs share a cohort exactly when condition, split, base length and donor length agree |
| `NestedKeys.EscapeRoundTrip` | causalab/io/nested_artifacts.py:42-47 | unescaping undoes escaping exactly on text without %2F |
| `NestedKeys.JoinedByCommas` | causalab/io/nested_artifacts.py:33-40 | a tuple's parts are put together with one comma between any two |
| `NestedKeys.IntTextReads` | causalab/io/nested_artifacts.py:33-40 | an integer part is written in decimal, a negative one behind a sign |
| `NestedKeys.TupleRoundTrip` | causalab/io/nested_artifacts.py:49-58 | a tuple decodes to itself, part by part, if and only if it is not empty and no part holds a comma or spells something else: integers always do, text does unless it spells a number |
| `NestedKeys.KeyRoundTrip` | causalab/io/nested_artifacts.py:33-58 | a key decodes to itself if and only if it is text without %2F or such a tuple |
| `NestedKeys.TextThatSpellsANumber` | causalab/io/nested_artifacts.py:49-58 | the tuple of the texts a and 1 comes back as the text a and the integer 1 |
| `NestedPaths.JoinInjective` | causalab/io/nested_artifacts.py:79-85 | joined by slashes, lists of nonempty segments without a slash are told apart |
| `NestedPaths.ZipInOrder` | causalab/io/nested_artifacts.py:75-82 | keys that encode differently are all kept, in order |
| `NestedPaths.WrittenIsHeld` | causalab/io/nested_artifacts.py:72-80 | every tensor written is still there at the end if and only if those that share a path are the same |
| `NestedPaths.ZipFull` | causalab/io/nested_artifacts.py:75-82 | a dictionary filled key by key keeps every entry if and only if no two keys are written alike |
| `NestedArtifacts.Flattening.Flatten` | causalab/io/nested_artifacts.py:61-102 | the skeleton, and every tensor below the value written into the shared dictionary under its path, in order; an error exactly on an unsupported leaf |
| `NestedArtifacts.Load` | causalab/io/nested_artifacts.py:105-126 | the value a skeleton stands for, or an error exactly when a tensor it refers to is missing |
| `NestedArtifacts.FlatKeysAreDistinct` | causalab/io/nested_artifacts.py:77-86 | no two tensor leaves share a flat key, for keys that are nonempty and decode to themselves |
| `NestedArtifacts.ReadsBack` | causalab/io/nested_artifacts.py:105-126 | from any dictionary of tensors, reading the skeleton gives the value back if and only if its keys decode to themselves, siblings are written apart, and its own tensors are the ones held |
| `NestedArtifacts.SaveThenLoad` | causalab/io/nested_artifacts.py:61-126 | saving and loading gives a supported value back if and only if keys decode to themselves, siblings are written apart, and tensors that share a flat key are the same |
| `NestedArtifacts.WellFormedKeysComeBack` | causalab/io/nested_artifacts.py:33-126 | nonempty text without %2F and nonempty integer tuples, siblings written apart, are always enough |
| `NestedArtifacts.SaveAndLoad` | causalab/io/nested_artifacts.py:129-158 | the same for the two runs, one after the other |
| `NestedArtifacts.EmptyKeyCollides` | causalab/io/nested_artifacts.py:79-79 | under an empty key two tensors are written to the same place |
| `NestedArtifacts.EmptyKeyLosesTensor` | causalab/io/nested_artifacts.py:79-79 | so a value of two tensors with an empty key does not come back |
| `Imports.ImportRefs` | causalab/protocol/code.py:358-383 | the stack walk finds every import statement that runs, exactly as often as it occurs |
| `Imports.TypeCheckingIsSkipped` | causalab/protocol/code.py:369-372 | nothing in a type-checking body counts, its else branch does |
| `Imports.OtherIfsAreRead` | causalab/protocol/code.py:369-383 | any other conditional declares both what its body and what its else branch does |
| `Imports.PartsDeclare` | causalab/protocol/code.py:382 | a node declares what its parts do, each as often as it occurs |
| `Imports.StatementsDeclare` | causalab/protocol/code.py:373-381 | an import of several modules declares one reference for each, a from-import one with its level and names |
| `ImportClosure.Probe` | causalab/protocol/code.py:440-455 | a dotted name is found inside existing packages only, as a package before a module, and nowhere else |
| `ImportClosure.ProbeOne` | causalab/protocol/code.py:440-455 | a single name is its package's initialiser where there is one, otherwise its module file |
| `ImportClosure.ProbeBelow` | causalab/protocol/code.py:446-451 | a dotted name is looked up below its first part, which must be a package |
| `ImportClosure.ResolveRef` | causalab/protocol/code.py:392-437 | the files one statement declares: submodules where they exist, the package otherwise, parents when asked for |
| `ImportClosure.RelativeIsAbsolute` | causalab/protocol/code.py:402-412 | a relative statement declares what the absolute one for its own package does: level 1 is the file's directory, each further level one up; above the root it declares nothing, unless the root is the top of the file system |
| `ImportClosure.ImportedName` | causalab/protocol/code.py:421-429 | a name bound from a package declares its submodule's file where there is one on disk, the package's initialiser otherwise |
| `ImportClosure.ImportedModule` | causalab/protocol/code.py:417-431 | a module imported by itself, or names bound from one that is no package, declare the module's file |
| `ImportClosure.ImportedNames` | causalab/protocol/code.py:424-429 | several names declare what each of them does |
| `ImportClosure.WithParents` | causalab/protocol/code.py:432-437 | with parents, every initialiser on the way is declared as well, if anything is |
| `ImportClosure.EdgeMeans` | causalab/protocol/code.py:336-354 | a file leads to the targets of its running statements outside the package, and nowhere when it does not parse |
| `ImportClosure.TargetsExist` | causalab/protocol/code.py:417-437 | every file a statement declares exists, under the root |
| `ImportClosure.ProgressStep` | causalab/protocol/code.py:336-354 | reading one pending file keeps: seen files are reached, files read are closed and recorded |
| `ImportClosure.ClosedHoldsAll` | causalab/protocol/code.py:336-354 | what is closed under declared imports and holds the start holds everything reached |
| `ImportClosure.Closure` | causalab/protocol/code.py:326-355 | whatever order pending files are taken in, it ends and records exactly the files reached without passing through the package, the start left out, each with its digest |
| `Combos.CrossIs` | causalab/protocol/sweep.py:284-291 | the k-th combination is k in mixed radix, first choice slowest, and there are as many as the product of the sizes |
| `Combos.RankDigits` | causalab/protocol/axes.py:791-794 | numbering a combination and taking its digits are inverse |
| `Combos.RankIsLexicographic` | causalab/protocol/axes.py:791-794 | the order of combinations is lexicographic |
| `Combos.DigitsConcat` | causalab/protocol/axes.py:838-846 | block by block, combinations of two products are the combinations of their concatenation |
| `Trees.CoveredWhenFound` | causalab/protocol/axes.py:633-664 | with no wrapper hidden in a list, substitution finds a value for every wrapper exactly when every wrapper found has one |
| `Trees.NoneSurvives` | causalab/protocol/axes.py:776-788 | substituting plain values leaves no wrapper |
| `Trees.SweepsUnchanged` | causalab/protocol/axes.py:829-833 | substituting axis wrappers changes no sweep: the same ones are found in the same order |
| `Trees.DisplayGivesPoint` | causalab/protocol/axes.py:759-773 | choosing a row's values in the display form gives the very point the row gives |
| `Trees.DisplayChoices` | causalab/protocol/axes.py:759-773 | those choices are among the values the display form's sweeps list |
| `Trees.KindsApart` | causalab/protocol/axes.py:633-664 | an axis wrapper and a sweep never share their path |
| `Trees.SpotsDiffer` | causalab/protocol/axes.py:633-664 | no two wrappers of one kind share their path |
| `Trees.ChosenValueStands` | causalab/protocol/sweep.py:276-281 | after both substitutions a sweep's place holds the value chosen for it |
| `Axes.OneRowTogether` | causalab/protocol/axes.py:797-806 | in every point all fields of one axis, and of every axis that depends on it, stand replaced by their columns' entries at the one index the point has for that axis |
| `Axes.ReferenceReads` | causalab/protocol/axes.py:667-679 | a wrapper's text is an axis name, or one with a field behind its first dot |
| `Axes.SweepInPoint` | causalab/protocol/axes.py:828-847 | in every point a sweep's place holds the very value the combination picks from its list |
| `Axes.DeclaredFits` | causalab/protocol/axes.py:797-806 | declarations that parsing accepts give every wrapper a column as long as the axis it follows |
| `Axes.NamesAreUsedOnce` | causalab/protocol/axes.py:223-262 | accepted declarations use no name twice |
| `Axes.DependentFollows` | causalab/protocol/axes.py:492-551 | and a dependent axis has a column entry for each entry of the coordinate axis it names |
| `Axes.AssignmentMatchesColumns` | causalab/protocol/axes.py:801-806 | every wrapper's value in a row is in the column the display form sweeps over |
| `Axes.RowTreeIsClean` | causalab/protocol/axes.py:797-810 | no axis wrapper survives in a combination's tree, and its sweeps are the document's |
| `Axes.SourceIsCovered` | causalab/protocol/axes.py:807-810 | substitution over the whole document finds every value if and only if the axes block itself holds no mapping with the single key axis |
| `Axes.NoAxisSurvives` | causalab/protocol/axes.py:797-810 | no axis wrapper survives in any point |
| `Axes.PointsAreInDisplay` | causalab/protocol/axes.py:759-773 | every point is in the cross product of the display form |
| `Expansion.BuildRowTree` | causalab/protocol/axes.py:797-810 | the concrete tree of a combination, or an error exactly when the block holds such a mapping |
| `Expansion.ExpandTree` | causalab/protocol/sweep.py:276-281 | one point for every combination of the tree's sweep values, in order, its coordinates a dictionary under dotted labels |
| `Expansion.ExpandAxes` | causalab/protocol/axes.py:813-847 | the error of a block with a wrapper, then the cap on the true total, otherwise the points of every combination |
| `Expansion.PointsInOrder` | causalab/protocol/axes.py:828-847 | the capped total is the number of points, and point k belongs to the k-th combination of all coordinates |
| `Expansion.PointShowsCoordinates` | causalab/protocol/axes.py:838-846 | the value in a sweep's place is the coordinate under its label, unless a later label overwrites that |
| `Expansion.CoordinateAt` | causalab/protocol/axes.py:838-846 | where no later label overwrites it a coordinate is under its label, with the value its combination picks |
| `Expansion.PointsAreLexicographic` | causalab/protocol/axes.py:816-824 | the points come in lexicographic order of their combinations |
| `Expansion.CoordinatesTellPointsApart` | causalab/protocol/axes.py:838-846 | points have pairwise different coordinates if and only if every coordinate whose label a later one repeats has a single entry and no other lists a value twice |
| `Labels.SameDict` | causalab/protocol/axes.py:838-846 | two runs of assignments to the same labels leave the same dictionary if and only if they agree wherever no later label repeats |
| `Labels.SectionRooted` | causalab/protocol/schema.py:1427-1437 | a path inside one of the twelve method sections is spelled from that section on, any other in full, keys joined by dots |
| `ExpansionCases.LabelsMeet` | causalab/protocol/axes.py:838-846 | a position q with a swept index and a swept position called q.index have one label: two points share their coordinates |
| `ExpansionCases.ValueRepeats` | causalab/protocol/axes.py:838-846 | a sweep that lists a value twice: two points share their coordinates |
| `ExpansionCases.AxisCalledAxis` | causalab/protocol/axes.py:807-810 | an axis declared alone under the name axis: substitution over the document is not covered |
| `Bands.ClippedBands` | causalab/protocol/axes.py:608-615 | every band, or the failed assertion exactly when some centre reaches no layer of the model |
| `Bands.CentreOutside` | causalab/protocol/axes.py:608-615 | a centre of 12 in a model of 8 layers fails it |
| `Bands.BandIs` | causalab/protocol/axes.py:608-614 | a band is exactly the model's layers within the window around its centre, in order |
| `Bands.FullWhereUnclipped` | causalab/protocol/axes.py:608-615 | a centre inside the model is in its band, which is as wide as the window exactly where it is not clipped |
| `Events.ReadEvents` | causalab/io/events.py:125-157 | a stream is read exactly when every line is well formed, terminated and numbered by its place |
| `Events.ReadableMeans` | causalab/io/events.py:125-157 | which lines those are: terminated, of schema version 1, one of the seven events, numbered by their place |
| `Events.Terminal` | causalab/io/events.py:160-170 | whether the last line is the terminal event, an error on a stream that does not read |
| `Events.RewritingIsNoticed` | causalab/io/events.py:137-157 | a stream made of a readable stream's lines is readable if and only if it is a prefix of it |
| `Events.DeletionIsNoticed` | causalab/io/events.py:137-157 | deleting a line is noticed exactly when it is not the last |
| `Events.DuplicationIsNoticed` | causalab/io/events.py:137-157 | repeating a line anywhere is noticed |
| `Events.EveryRun` | causalab/io/events.py:194-262 | over any run of openings, emissions and sink failures the stream reads, and without the sink warnings it is exactly what was emitted |
| `Events.OpeningOwnsItsLines` | causalab/io/events.py:207-210 | the lines numbered from the opening's first on are exactly those it wrote, behind what was there before |
| `Events.EventLog.constructor` | causalab/io/events.py:194-210 | a log continues the stream it finds |
| `Events.EventLog.Emit` | causalab/io/events.py:212-244 | the line, and after it a warning when the sink raises; an unknown event is refused and writes nothing |
| `Events.EmissionAppends` | causalab/io/events.py:212-244 | what is appended: the next line with the log's identity, the event and its text, and a numbered warning exactly when a sink raises on it |
| `Events.OpenLog` | causalab/io/events.py:201-210 | opening is refused exactly for shadowed keys or a stream that does not read |
| `Masks.RunsDecode` | causalab/analysis/export_dbm.py:42-45 | a unit is set exactly when it lies in one of the ranges |
| `Masks.RunsAreMaximal` | causalab/analysis/export_dbm.py:42-45 | the ranges are nonempty, in order, apart from each other, and cannot be extended |
| `Masks.PackedBit` | causalab/analysis/export_dbm.py:46-52 | bit i of the packed bytes, lowest bit first, is unit i |
| `Base64.RoundTrip` | causalab/analysis/export_dbm.py:48-50 | decoding undoes encoding (section 4 of RFC 4648) |
| `Base64.LettersInOrder` | causalab/analysis/export_dbm.py:48-50 | the letters are those of Table 1 of RFC 4648, in its order |
| `Masks.EncodedMaskIsLossless` | causalab/analysis/export_dbm.py:42-53 | whichever encoding is shorter, every unit decodes to what the mask holds |
| `Masks.EncodedMaskIsShortest` | causalab/analysis/export_dbm.py:42-53 | the encoding chosen is the shorter one, the ranges where they are equally long |
| `RandomMask.UniformDraw` | causalab/analysis/random_mask.py:218-227 | a matched draw is as many distinct units of its entry as the fit keeps |
| `RandomMask.ComplementDraw` | causalab/analysis/random_mask.py:200-217 | a complement draw keeps the count and holds no unit over the threshold |
| `RandomMask.UnmatchedConserves` | causalab/analysis/random_mask.py:228-239 | cut back into the entries, the unmatched draw adds up to the total count |
| `RandomMask.DrawAll` | causalab/analysis/random_mask.py:132-239 | the first refusal that applies; otherwise every entry receives distinct units of its own, matched as many as its count and none over the threshold for a complement, unmatched all counts together |
| `RandomMask.DrawAccepts` | causalab/analysis/random_mask.py:132-214 | what is drawn at all: complements only matched, budget gates only with a count, counts no larger than the entry and, for a complement, than its dropped units |
| `RandomMask.CountIsKept` | causalab/analysis/random_mask.py:185-199 | the count to match is the one asked for, or the number of units over the threshold |
| `RandomMask.TotalOfBoth` | causalab/analysis/random_mask.py:228-236 | the unmatched total is the counts of all entries together |
| `RandomMask.KeptAboveHalf` | causalab/analysis/random_mask.py:256-301 | a gate keeps exactly the units whose own mask value is over one half: squashed, clipped, or stretched and clipped |
| `RandomMask.PolesAreDecisive` | causalab/analysis/random_mask.py:315-325 | a control is written on the unit interval's ends for a clamp gate, one unit either side of the threshold otherwise |
| `RandomMask.WriteControl` | causalab/analysis/random_mask.py:241-246 | off everywhere and on at exactly the drawn units, so that the hard split of what is written is the draw |
| `RandomMask.HardSplitIsDraw` | causalab/analysis/random_mask.py:304-312 | read by the gate's own threshold, a written control is the drawn set |
| `RandomMask.ComplementMissesCut` | causalab/analysis/random_mask.py:185-205 | where a consumer cuts the ranking at a count, the complement is free of what it keeps if and only if it keeps no more than lie over the threshold |
| `RandomMask.ComplementDrawsRankedUnit` | causalab/analysis/random_mask.py:185-217 | two units under the threshold, and a complement draw of one is the unit that ranks first |
| `EditGroups.ParseSideSpans` | causalab/causal/pairs.py:317-345 | one side's spans are accepted exactly when they are pairs inside the text, each starting no earlier than the one before ends |
| `EditGroups.SideSpansAscend` | causalab/causal/pairs.py:317-345 | and that is exactly when walking through their edges never goes back and stays inside the text |
| `EditGroups.ParseEditGroups` | causalab/causal/pairs.py:239-313 | a list is accepted exactly when it is what some valid groups are written as, and parsing returns those groups |
| `EditGroups.WrittenGroup` | causalab/causal/pairs.py:239-313 | a group is written as its four fields and nothing else, span by span on either side |
| `EditGroups.ValidGroupMeans` | causalab/causal/pairs.py:239-313 | a valid group is named, has as many constituents on both sides, one at least and two when atomic, and such spans |
| `EditGroups.SpansAreDisjoint` | causalab/causal/pairs.py:333-344 | accepted spans are ordered and pairwise disjoint |
| `EditGroups.RunIsCharRange` | causalab/causal/pairs.py:353-370 | a constituent's run is what a variable position resolves to, if and only if the span is nonempty or no token holds its place strictly inside |
| `EditGroups.EmptySpanInsideToken` | causalab/causal/pairs.py:353-370 | an empty span inside a token of two characters has that token as its run and none as a position |
| `EditGroups.CheckComponentWise` | causalab/causal/pairs.py:649-694 | accepted exactly when every atomic group is untouched or wholly covered by nonempty runs |
| `EditGroups.TouchedAndWhole` | causalab/causal/pairs.py:649-668 | a span is touched when one of the slots that share its characters is addressed, and whole when there are some and all are |
| `EditGroups.CheckLocationCoverage` | causalab/causal/pairs.py:615-646 | the number of constituents when every one is wholly covered, an error otherwise |
| `EditGroups.ConstituentsAreAll` | causalab/causal/pairs.py:615-646 | the number is that of all constituents of all groups on that side |
| `EditGroups.CoverageImpliesComponentWise` | causalab/causal/pairs.py:615-694 | full coverage leaves no atomic group addressed in part |
| `EditGroups.RefusedWhenPartial` | causalab/causal/pairs.py:669-694 | a group is refused exactly when it is atomic, touched somewhere and not whole somewhere |

## Left out

- Mechanisms are pure functions of the values of their declared parents; a mechanism that reads other variables of
  its trace, or has effects, is not modelled. The state outside the methods above (`__delitem__`, the internal
  `_set`) is not either.
- Trace.CausalTrace.constructor: every supplied variable is declared (an undeclared one is a `KeyError`). When a lazy
  variable with parents is supplied only the order of pushes is stated, not a solution: its value is dropped when one
  of its parents is pushed.
- Interchange.InterveneInTurn: stated for valid traces, those whose lazy variables feed nobody unless they have no
  parents and a value. By `Runs.EveryReadIsEvaluation` these are exactly the ones whose reads can be relied on;
  `Runs.Perform` states the stores of all others.
- Interchange.CopyThenDiverge: valid traces; for others it is false (`Runs.CopyFallsBehind`).
- Interchange.ApplyAll: valid traces, for the same reason.
- Interchange.RunInterchange: valid traces, for the same reason. An undeclared target ends the run with the error; the
  copy it was stored in is dropped.
- ModelGraph.CreateModel: graphs on which a cycle is reached from an input, where the timestep loop does not end
  (`ModelGraph.WalksEndIff`), are excluded, and so are parents that are not declared, a `KeyError`.
- LivePaths.FindLivePaths: the setting supplies input variables only, as the model's documentation asks, and no lazy
  variable without a value feeds another. Plotting, scoring, sampling and the labelling helpers are left out.
- Confounding.Audit: the output vectors are given, one output for each sampled pair.
- TokenPositions.RowRefinesExample: the encoding is that of the example's own prompt, and truncation is left out.
  The tokenizer is any row of character offsets and a name, `max_length` is none, lookups go uncached (the cache is
  `PositionCache`), and a dynamic specification is a table from examples to specifications.
- Positions.BatchRefinesExamples: positions built from specifications; one with a hand-built closure has no batch
  answer, and its callers shift the per-example one.
- PositionCache.Cache.GetVariablePositions: the tokenizer is a function of the cache key, and the answer is a value (the
  source returns the cached dictionary itself, which a caller could change in place).
- Templates.FillWithPositions: values are already text; an example's own prompt is present or absent, never lazy.
- OutputOffsets.TrackOffsets: the tokenizer is any sequence of decoded texts, one for each token.
- Sequences.PrepareSequence: the prompt is the rendered one, and digests, display tokens and the type checks of
  Python values are left out, and so are the protocol documents built around the readouts and the workflow files.
- Pairing.PairSequences: the rows come from preparation; an alignment's keys and values are integers.
- Cohorts.KeysGroupExactly: lengths are those of prepared rows, which are never zero, so that a missing length read as
  zero cannot be taken for one.
- Cohorts.SequenceCohorts: the order in which the cohorts themselves are listed is not modelled.
- NestedKeys.KeyRoundTrip: how the language reads a text as an integer or a float is a parameter that reads back the
  integers it writes; a float whose text it reads as another value, as it does for a NaN, does not survive. Keys of
  other types are written as text and never read back as such.
- NestedArtifacts.Flattening.Flatten: the state of the shared dictionary after an unsupported leaf is not stated. The
  safetensors and JSON files, tensor dtypes and devices are left out.
- ImportClosure.Closure: one root, as the loaders use it; keys are absolute paths, all under that root. Symbolic
  links, the parse cache and the Python parser are left out; syntax trees are given.
- Axes.SourceIsCovered: the axes block is taken to be the document's first group.
- Expansion.CoordinatesTellPointsApart: a scalar's text stands for its value up to equality, under which 1, 1.0 and true
  are one; a sweep over values that are equal in that sense lists a value twice.
- ExpansionCases.LabelsMeet: the document shows only the entries that hold wrappers; the others change no label.
- Axes.OneRowTogether: the declarations are given as parsing leaves them next to their block; reading them off the block
  is not modelled.
- Expansion.ExpandAxes: families of `at_once` wrappers, range sugar, the canonical block and the refusals of parsing are
  left out; a parsed document is one that passed them.
- Bands.ClippedBands: the registry lookup of the layer count is a parameter.
- Events.EventLog.Emit: writers take turns on one stream; timestamps and the JSON text of a line are not modelled.
- Masks.EncodedMaskIsLossless: the length of a JSON text is any function of the encoding.
- RandomMask.DrawAll: a generator's draw is any permutation, a hard-concrete threshold is given (`RandomMask.KeptAboveHalf`
  says where it has to lie), and metadata is left out.
- EditGroups.CheckComponentWise: the message of a refusal is not modelled, nor are the diff-based checks of a pair.
- Numerical analyses (PCA, probes, distances, statistics), engines and hooks, command lines, rendering, and the
  sharding and equivalence helpers are left out: they have no exact property here or would only add easy members.
