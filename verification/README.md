# Cube-pruning search, neural scorer state and mblas matrix shapes

This project is a Dafny model of three parts of a Moses decoder fork that adds a
neural translation model to phrase-based cube-pruning search.

- **The search control of `SearchCubePruning`.** Stack `s` holds the
  hypotheses that cover `s` source words. For each stack:
  - the bitmap containers are ordered by `BitmapContainerOrderer` and popped
    best first, at most `pop_limit` times;
  - each container is topped up to `diversity` hypotheses;
  - the stack is pruned to `stack_size`;
  - the stack is offered to the neural features, whose candidates are filtered
    (`ProcessStackForNeuro`);
  - every container of the stack registers forward edges into later stacks
    (`CreateForwardTodos`), behind the distortion gate (`CheckDistortion`).

  The class `Search.SearchCubePruning` keeps the fields the source mutates:
  - the stacks;
  - every `SetBitmapAccessor` registration;
  - `m_transOptionLists`;
  - `m_dynamicOptions`.

  Each loop of the source is its own method with invariants. Each method is
  proved against specification functions: `Tried`, `RegsOver`, `RegsFrom`,
  `Kept`, `AllKept` and `StackSearch`. `Decode` returns a ghost trace of
  rounds, one per filled stack, chained through the fields.

  The search hands each edge every neural option filed under its new
  coverage, as the code does. The corrected lookup, by the edge's own span,
  is proved separately (see Findings).

- **The state and batching logic of `NeuralScoreFeature`.**
  - `NeuralScoreState` is a bounded word context. The model covers its
    successor constructor, `Compare`, `operator==`, `hash`, `ToString` and
    `LimitLength`.
  - It also covers the constructor with `ReadParameters` and `SetParameter`,
    the batching of `RescoreStack`, the grid
    shape of `RescoreStackBatch`, and the successor context of
    `EvaluateWhenApplied`.

- **The shape and row-copy logic of the mblas `TMatrix`.** `TMatrix` is a
  row-major buffer with `rows`, `cols` and `data`. The model covers:
  - its constructors, `Resize`, `Reshape` and `Clear`;
  - the free functions `Swap`, `Copy`, `AppendRow(s)`, `PrependRows`,
    `PasteRow`, `CopyRow`, `CopyRows` and its `Functor`, and `Assemble`;
  - the broadcasts, with their `fill1`/`fill2` row-pair fillers.

  Every operation is generic over the element type.

**Files**

| file | contents |
|---|---|
| `coverage.dfy` | Coverage bitmaps (`seq<bool>`) and their ranges. |
| `sorting.dfy` | The stable best-first sort used for option lists, and the `PruneToSize` stand-in. |
| `text.dfy` | Joining and splitting with single spaces, lexicographic order, and the deque trim. |
| `search_types.dfy` | The values the search passes around. |
| `cube_queue.dfy` | The container order, the pop-limited loop and the diversity pass. |
| `forward.dfy` | The distortion gate, the span enumerator, the option merge and the registrations. |
| `neuro_filter.dfy` | The neural candidate filter. |
| `search.dfy` | The `SearchCubePruning` class. |
| `neural_score.dfy` | `NeuralScoreState` and `NeuralScoreFeature`. |
| `matrix.dfy` | `TMatrix` and the mblas free functions. |

**What the model takes as parameters**
- **Scores** are integers.
- **Parameters of the search input** (`Forward.SearchInput`). These collaborators are not part of this model:
  - `ReorderingConstraint::Check`;
  - `ComputeDistortionDistance`;
  - the static translation-option lists.
- **Parameters of `Decode`:**
  - the clock (`out_of_time`);
  - the target-phrase comparison;
  - the neural candidates each stack receives.
- **`BitmapContainer` and `HypothesisStackCubePruning` are stand-ins**, because their code is not part of this model:
  - a container's candidates are the hypotheses its registered edges yield, best first;
  - `ProcessBestHypothesis` moves the best candidate onto the stack;
  - `PruneToSize` keeps the best `stack_size` hypotheses.

## Model

| member | source | states |
|---|---|---|
| Coverage.Initial | moses/SearchCubePruning.cpp:130-132 | The initial bitmap has one entry per source word and covers none of them. |
| Coverage.NumCovered | moses/SearchCubePruning.cpp:371 | The covered count never exceeds the sentence length. |
| Coverage.Union | moses/SearchCubePruning.cpp:332 | `GetBitmap(bitmap, range)`: same length; a word is covered iff it was covered before or lies in the range. |
| Coverage.FirstGap | moses/SearchCubePruning.cpp:436 | Every word before the first gap is covered; the gap itself is uncovered unless it is the sentence end. |
| Coverage.NumCoveredUnion | moses/SearchCubePruning.cpp:371-389 | Adding an in-sentence range disjoint from the coverage raises the covered count by exactly the range length; this is the stack index the edge goes to. |
| Coverage.CompleteIff | moses/SearchCubePruning.cpp:272 | `IsSourceCompleted` holds exactly when every source word is covered. |
| Sorting.InsertPermutes | moses/SearchCubePruning.cpp:384 | Inserting into the sorted list adds exactly that option: the multiset grows by one element. |
| Sorting.InsertSorted | moses/SearchCubePruning.cpp:384 | Inserting into a list sorted best first keeps it sorted. |
| Sorting.SortByKeyCorrect | moses/SearchCubePruning.cpp:384 | `std::sort` with `Better`: the result is a permutation of the input and is sorted best first. |
| Sorting.BestKeepsBest | moses/SearchCubePruning.cpp:226 | The `PruneToSize` stand-in keeps a sub-multiset of min(n, size) hypotheses, sorted best first, none scoring below any dropped one. |
| Text.JoinSnoc | moses/FF/NeuralScoreFeature.cpp:46-55 | Joining one more word adds a single space and the word; the first word gets no space. |
| Text.SplitJoin | moses/FF/NeuralScoreFeature.cpp:46-55 | Joining words that contain no space and splitting at the spaces gives the words back. |
| Text.JoinLength | moses/SearchCubePruning.cpp:276-280 | The joined phrase is the words' total length plus one space between each neighbouring pair. |
| Text.LexIrreflexive | moses/FF/NeuralScoreFeature.cpp:65-67 | `lexicographical_compare` never puts a sequence below itself when the element order is irreflexive. |
| Text.LexTrichotomous | moses/FF/NeuralScoreFeature.cpp:65-67 | Under a strict total element order, two different sequences are ordered one way or the other. |
| Text.LexTransitive | moses/FF/NeuralScoreFeature.cpp:65-67 | The lexicographic order is transitive under a strict total element order. |
| Text.LexAsymmetric | moses/FF/NeuralScoreFeature.cpp:65-67 | The lexicographic order never holds both ways. |
| Text.StringLessStrictTotalOrder | moses/FF/NeuralScoreFeature.cpp:65-67 | `std::string`'s `<` on words is a strict total order. |
| Text.ContextTrichotomy | moses/FF/NeuralScoreFeature.cpp:57-68 | Equal contexts are below neither way; different contexts are below in exactly one direction. |
| Text.LastNProperties | moses/FF/NeuralScoreFeature.cpp:79-82 | Trimming to n keeps the last min(size, n) words, is a suffix, leaves a short context alone, and is idempotent. |
| CubeQueue.OrdererLess | moses/SearchCubePruning.cpp:19-53 | `BitmapContainerOrderer`: A ranks below B (B pops first) only if A is empty or scores no higher than B, and always when both have tops and A's future score is lower. Empty pairs compare by address, equal scores by `TargetPhrase::Compare` > 0, with the id as fallback. |
| CubeQueue.EmptyRanksBelow | moses/SearchCubePruning.cpp:20-28 | An empty container ranks below a non-empty one, and never the other way round. |
| CubeQueue.HigherScorePopsFirst | moses/SearchCubePruning.cpp:31-37 | Between non-empty containers, the lower top future score ranks below, so the higher one pops first. |
| CubeQueue.EqualScoresComparePhrases | moses/SearchCubePruning.cpp:38-51 | On equal scores with both phrases present, a ranks below b exactly when `Compare(a, b) > 0`; the smaller phrase pops first. |
| CubeQueue.OrdererIrreflexive | moses/SearchCubePruning.cpp:19-53 | A container never ranks below itself, given that a phrase does not compare greater than itself. |
| CubeQueue.OrdererAsymmetric | moses/SearchCubePruning.cpp:19-53 | Between distinct containers the order never holds both ways, given a sign-antisymmetric phrase comparison. |
| CubeQueue.AfterPop | moses/SearchCubePruning.cpp:196 | `ProcessBestHypothesis` stand-in: a non-empty container loses exactly its best candidate and counts one more added; an empty one is unchanged. |
| CubeQueue.RemainingUpdate | moses/SearchCubePruning.cpp:183-205 | Changing one container changes the total of unprocessed candidates by that container's difference. |
| CubeQueue.ConsumedAfterPop | moses/SearchCubePruning.cpp:196 | Popping keeps a container's remaining candidates a suffix of its initial ones; the popped hypothesis was one of them. |
| CubeQueue.PopBest | moses/SearchCubePruning.cpp:186-187 | `BCQueue.top()`: a queued container that is non-empty whenever any queued one is, with the highest top score of all non-empty queued containers. |
| CubeQueue.RemoveFromQueue | moses/SearchCubePruning.cpp:187 | `BCQueue.pop()` removes exactly the popped container from a queue of distinct containers. |
| CubeQueue.PopStep | moses/SearchCubePruning.cpp:184-204 | One iteration keeps the queue invariant (entries distinct, every non-empty container queued, nothing lost, everything produced from a container). It pops a queued container, whose top, if any, is produced and scores at least every non-empty container's top; if it is empty, all containers are. |
| CubeQueue.PopKeepsInv | moses/SearchCubePruning.cpp:186-203 | Popping, processing and re-pushing only a non-empty container keeps the queue invariant. |
| CubeQueue.QueueAfterPop | moses/SearchCubePruning.cpp:202-203 | After the pop, the queue still holds distinct in-range containers, and every container outside it is exhausted. |
| CubeQueue.CubesAfterPop | moses/SearchCubePruning.cpp:196 | Processing one container keeps every container a suffix of its start, conserves candidates, and every produced hypothesis comes from a container. |
| CubeQueue.PopLoop | moses/SearchCubePruning.cpp:183-205 | At most PopLimit pops; if fewer, or if some pop produced nothing, every container is exhausted; candidates are conserved; the stack receives at most one hypothesis per pop, each from a container. When the containers are best first, production is best first and scores at least everything left. |
| CubeQueue.PopRound | moses/SearchCubePruning.cpp:183-205 | One pop keeps the loop state `Popping`: the queue invariant, at most one hypothesis per pop, fewer only once all containers are exhausted, and best-first production from best-first containers. |
| CubeQueue.ExhaustedStep | moses/SearchCubePruning.cpp:186-204 | A pop that produces nothing finds every container exhausted, and they stay so. |
| CubeQueue.PopKeepsBestFirst | moses/SearchCubePruning.cpp:186-196 | Popping the best top of sorted containers keeps them sorted and production best first. |
| CubeQueue.AfterPopSorted | moses/SearchCubePruning.cpp:196 | What is left of a best-first container after `ProcessBestHypothesis` is best first. |
| CubeQueue.BestPopDominates | moses/SearchCubePruning.cpp:186-196 | The best top scores no higher than anything already produced and at least as high as anything left. |
| CubeQueue.AllQueuedInv | moses/SearchCubePruning.cpp:167-180 | Queuing every container before the first pop establishes the queue invariant. |
| CubeQueue.DiversityStep | moses/SearchCubePruning.cpp:213-215 | Topping up one more container keeps the diversity pass's invariant `ToppedUp`: earlier containers reached diversity or emptied, candidates are conserved, and what moved came from the containers. |
| CubeQueue.EnsureMinStackHyps | moses/SearchCubePruning.cpp:214 | Stand-in: the container is topped up until it has added `diversity` hypotheses or is empty. What it moves is a prefix of its candidates, and nothing moves if it already added enough. |
| CubeQueue.DiversityPass | moses/SearchCubePruning.cpp:209-219 | With diversity 0 nothing changes; otherwise every container reaches diversity or empties. Candidates are conserved and come from the containers. |
| Forward.CheckDistortion | moses/SearchCubePruning.cpp:418-451 | A negative limit accepts everything. Otherwise: reject when the reordering constraint fails; accept when the span starts at the first gap; otherwise accept iff the distance to the first gap is within the limit. |
| Forward.DistortionLimitMonotone | moses/SearchCubePruning.cpp:423-450 | Raising a non-negative distortion limit never rejects a span the lower limit accepted. |
| Forward.FirstGapAlwaysAllowed | moses/SearchCubePruning.cpp:436-438 | The single word at the first gap always passes when the reordering constraint allows it. |
| Forward.TriedExtSound | moses/SearchCubePruning.cpp:344-348 | Every span the endPos loop tries starts at startPos, ends below the bound, and covers no covered word. |
| Forward.TriedExtComplete | moses/SearchCubePruning.cpp:344-348 | Every span below the bound whose words are all uncovered is tried by the endPos loop. |
| Forward.TriedExtStep | moses/SearchCubePruning.cpp:344-348 | One more endPos iteration moves its span from the spans still to try to the spans done. |
| Forward.TriedAtSound | moses/SearchCubePruning.cpp:324-359 | A span tried from startPos begins there, lies in the sentence, is uncovered, and is no longer than max(1, max_phrase_length). |
| Forward.TriedAtComplete | moses/SearchCubePruning.cpp:324-359 | Every such span beginning at startPos is tried from it. |
| Forward.TriedAtIff | moses/SearchCubePruning.cpp:324-359 | Both directions of the two lemmas above, for one start position. |
| Forward.TriedFromSound | moses/SearchCubePruning.cpp:324-360 | Spans tried from start positions at or after `start` begin there or later and can be translated. |
| Forward.TriedFromComplete | moses/SearchCubePruning.cpp:324-360 | Every translatable span beginning at `start` or later is tried. |
| Forward.TriedIff | moses/SearchCubePruning.cpp:323-360 | The enumerator tries exactly the spans inside the sentence that cover no covered word and are at most max(1, max_phrase_length) long; a single word is always tried. |
| Forward.OnRange | moses/SearchCubePruning.cpp:334-335 | Corrected lookup: the neural options kept for an edge are exactly those of the filed list that translate the edge's own span, in filing order. |
| Forward.MergedAsWritten | moses/SearchCubePruning.cpp:373-384 | The extended list as written: the static options followed by every neural option filed under the new coverage, stably sorted with `Better`. |
| Forward.MergedPermutes | moses/SearchCubePruning.cpp:373-384 | As written: the extended list (the static options, then every neural option filed under the new coverage, sorted with `Better`) is a permutation of the two lists together, best first, of their combined length. |
| Forward.MergedOnRange | moses/SearchCubePruning.cpp:334-335 | Corrected: when only the neural options for the edge's own span join its list, every option of the merged list translates that span. |
| Forward.MergedAsWrittenCounterexample | moses/SearchCubePruning.cpp:334-335 | Two different (coverage, span) pairs lead to the same new coverage, so the list as written gives an edge a neural option for another, partly covered span. |
| Forward.RegsOverAppend | moses/SearchCubePruning.cpp:324-360 | Forwarding two runs of spans registers the first run's edges, then the second's. |
| Forward.ListsOverAppend | moses/SearchCubePruning.cpp:373-374 | Forwarding two runs of spans allocates the first run's extended lists, then the second's. |
| Forward.OverSnoc | moses/SearchCubePruning.cpp:331-338 | Forwarding one more span appends exactly what that span registers and allocates. |
| Forward.RegsFromAppend | moses/SearchCubePruning.cpp:310-361 | Forwarding two runs of containers registers the first run's edges, then the second's. |
| Forward.ListsFromAppend | moses/SearchCubePruning.cpp:310-361 | The same for the allocated extended lists. |
| Forward.RegForWellFormed | moses/SearchCubePruning.cpp:331-393 | A registered edge goes to stack NumCovered(old ∪ span) = old count + span length, its span is uncovered and inside the sentence, and its option list is non-empty. With a neural map, that list is a permutation of the span's static options plus every option filed under the new coverage; an option for another span can only come from that map. |
| Forward.RegsOverMember | moses/SearchCubePruning.cpp:324-360 | An edge is registered from a coverage iff one of the tried spans registers it. |
| Forward.RegsOverWellFormed | moses/SearchCubePruning.cpp:323-360 | Every edge registered from one full-length coverage is well formed. |
| Forward.RegisteredSound | moses/SearchCubePruning.cpp:331-414 | A registered edge's span is tried, passes the distortion gate and has a non-empty static list. |
| Forward.RegisteredComplete | moses/SearchCubePruning.cpp:331-414 | A tried span that passes the gate and has a non-empty static list always gets an edge. |
| Forward.RegisteredIff | moses/SearchCubePruning.cpp:387-393 | From a coverage, an edge for a span is registered iff the span is tried, passes the gate and has a non-empty static list; neural options alone never register one. |
| Forward.RegsFromMember | moses/SearchCubePruning.cpp:310-361 | Every edge the stack enumerator registers comes from one of the stack's coverages. |
| Forward.RegsFromWellFormed | moses/SearchCubePruning.cpp:303-362 | Every edge registered from full-length coverages is well formed. |
| NeuroFilter.FiledUnderSnoc | moses/SearchCubePruning.cpp:295 | Filing one option extends the list of its own coverage and no other. |
| NeuroFilter.OptionsOfSnoc | moses/SearchCubePruning.cpp:293 | `m_dynamicOptions` grows by the filed option, in filing order. |
| NeuroFilter.Kept | moses/SearchCubePruning.cpp:267-296 | One feature's candidate loop: stop at the first candidate whose hypothesis is complete, skip a candidate with no coverage or whose span overlaps its hypothesis, otherwise make an option of its span, joined words and score, filed under the hypothesis's coverage ∪ span. |
| NeuroFilter.AllKept | moses/SearchCubePruning.cpp:262-298 | What every feature's loop keeps, feature after feature. |
| NeuroFilter.KeptSound | moses/SearchCubePruning.cpp:267-296 | Every kept filing is made from one candidate the loop reaches (no earlier one extends a complete hypothesis): that candidate has a coverage, its hypothesis is not complete, its span lies inside the sentence and does not overlap the hypothesis, and the filing is exactly its span, joined words and score under the hypothesis's coverage ∪ span. |
| NeuroFilter.KeptComplete | moses/SearchCubePruning.cpp:267-296 | Conversely, every reached candidate with a coverage, an incomplete hypothesis and a non-overlapping span yields that filing. |
| NeuroFilter.AllKeptSound | moses/SearchCubePruning.cpp:262-298 | Every option kept over all neural features is made, as in KeptSound, from one reached candidate of its own feature. |
| NeuroFilter.AllKeptComplete | moses/SearchCubePruning.cpp:262-298 | Every such candidate of any feature yields its filing in what all features keep. |
| NeuroFilter.KeptStopsAtComplete | moses/SearchCubePruning.cpp:272 | The loop ends at the first candidate whose hypothesis is source-complete: later candidates never affect what is kept. |
| Search.ExtendBy | moses/SearchCubePruning.cpp:391-392 | One hypothesis along an edge yields one successor per option, each with the edge's new coverage. |
| Search.EdgeCandidates | moses/SearchCubePruning.cpp:391-392 | Every successor an edge yields has the edge's new coverage. |
| Search.ContainerCandidates | moses/SearchCubePruning.cpp:172 | `InitializeEdges` stand-in: every candidate of a container has the container's coverage. |
| Search.NewBitmaps | moses/SearchCubePruning.cpp:165-167 | Every container of a stack is the target of some edge registered into that stack. |
| Search.ContainersAt | moses/SearchCubePruning.cpp:165-180 | Containers built from well-formed edges into stack s hold only full-length hypotheses covering s words. |
| Search.ConsumedKeepsAt | moses/SearchCubePruning.cpp:207-215 | What containers have left after popping still covers s words. |
| Search.ProducedAt | moses/SearchCubePruning.cpp:183-219 | Every hypothesis taken from such containers covers s of the sentence's words. |
| Search.ContainersSorted | moses/SearchCubePruning.cpp:167-172 | Every container's candidates are best first. |
| Search.FromConsumed | moses/SearchCubePruning.cpp:207-215 | What comes from what the containers have left comes from the containers. |
| Search.RoundsExtend | moses/SearchCubePruning.cpp:140-248 | A round that fills the next stack from the state the trace ends with extends the trace by that round. |
| Search.RoundStays | moses/SearchCubePruning.cpp:140-248 | Filling a later stack leaves every earlier round of the trace as it was. |
| Search.ListsFromNone | moses/SearchCubePruning.cpp:331-338 | Forwarding without a neural map allocates no extended list, over any coverages. |
| Search.ListsOverNone | moses/SearchCubePruning.cpp:331-338 | The same for the spans of one coverage. |
| Search.Coverages | moses/SearchCubePruning.cpp:308-317 | `AddHypothesesToBitmapContainers`: each container the enumerator visits is the coverage of a stack hypothesis, so empty containers are skipped. |
| Search.CoveragesComplete | moses/SearchCubePruning.cpp:308-317 | Every stack hypothesis's coverage is visited, and no coverage twice. |
| Search.CoveragesSized | moses/SearchCubePruning.cpp:308-317 | The coverages of full-length hypotheses are full length. |
| Search.FileStep | moses/SearchCubePruning.cpp:295 | `neuroTranslationOptions[&bitMap].push_back` keeps the map equal, coverage by coverage, to the filings so far. |
| Search.ExtendedList | moses/SearchCubePruning.cpp:373-382 | The two copy loops produce the static options followed by every neural option passed in, in order. |
| Search.JoinPhrase | moses/SearchCubePruning.cpp:276-280 | The string-stream loop yields the candidate's words joined with single spaces. |
| Search.JoinPrefixStep | moses/SearchCubePruning.cpp:276-280 | Each loop iteration adds a space and the next word to the phrase joined so far. |
| Search.InitialCountsNothing | moses/SearchCubePruning.cpp:130-138 | The initial bitmap covers no word, so the initial hypothesis belongs to stack 0. |
| Search.SearchCubePruning.constructor | moses/SearchCubePruning.cpp:77-97 | One empty stack per covered count 0 .. size; no registrations or allocated lists. |
| Search.SearchCubePruning.ForwardStatic | moses/SearchCubePruning.cpp:396-415 | Registers an edge for the span exactly when its static list is non-empty, and touches nothing else. |
| Search.SearchCubePruning.ForwardNeuro | moses/SearchCubePruning.cpp:331-394 | Allocates one extended list: the static options plus every option filed under the new coverage, sorted. It registers an edge only for a non-empty static list, and leaves the neural map's lookups unchanged (`operator[]` only adds an empty entry). |
| Search.SearchCubePruning.Forward | moses/SearchCubePruning.cpp:331-338 | Picks the overload by whether a neural map is present; appends exactly that span's registration and allocation. |
| Search.SearchCubePruning.ForwardOne | moses/SearchCubePruning.cpp:349-358 | Forwarding one tried span extends the registrations and allocated lists by that span's share. |
| Search.SearchCubePruning.ForwardLonger | moses/SearchCubePruning.cpp:341-359 | The endPos loop forwards exactly `TriedExt`: the spans from startPos up to the first covered word or the length bound. |
| Search.SearchCubePruning.ForwardAt | moses/SearchCubePruning.cpp:325-359 | One startPos iteration forwards exactly the spans `TriedAt` lists, in order. |
| Search.SearchCubePruning.ForwardFrom | moses/SearchCubePruning.cpp:323-360 | The startPos loop over one container registers exactly `RegsOver(b, Tried(b))` and allocates `ListsOver(b, Tried(b))`. |
| Search.SearchCubePruning.CreateForwardTodos | moses/SearchCubePruning.cpp:303-362 | Over all containers of the stack: registrations and allocated lists grow by exactly `RegsFrom` and `ListsFrom` of the stack's coverages; stacks and dynamic options are untouched. |
| Search.SearchCubePruning.ForwardContainer | moses/SearchCubePruning.cpp:310-360 | One container of the stack extends what the earlier containers registered by its own share. |
| Search.SearchCubePruning.FromStep | moses/SearchCubePruning.cpp:310-361 | Adding one container extends the stack enumerator's output by that container's share, whatever agreeing map it is forwarded with. |
| Search.SearchCubePruning.AgreeSameRegFor | moses/SearchCubePruning.cpp:334 | Two neural maps that agree on every lookup forward a span alike, so the empty entries `operator[]` adds are harmless. |
| Search.SearchCubePruning.AgreeSameRegs | moses/SearchCubePruning.cpp:324-360 | The same for every run of spans. |
| Search.SearchCubePruning.FileFeature | moses/SearchCubePruning.cpp:267-296 | One feature's candidate loop appends exactly `Kept` to the dynamic options and files each under its coverage. |
| Search.SearchCubePruning.ProcessStackForNeuro | moses/SearchCubePruning.cpp:251-300 | The dynamic options grow by exactly what all features keep, in order. Each coverage's list in the returned map is exactly the kept options filed under it. |
| Search.SearchCubePruning.FillStack | moses/SearchCubePruning.cpp:160-226 | `StackSearch` over the stack's containers: at most PopLimit pops, fewer (or a pop that produced nothing) only when every container is exhausted, so it takes min(PopLimit, all candidates); the popped hypotheses are exactly what the containers gave up, best first; with diversity > 0 every container then reaches diversity or empties; the stack is the best stack_size of everything produced. Each hypothesis is full-length and covers s words. |
| Search.SearchCubePruning.Decode | moses/SearchCubePruning.cpp:119-249 | Stack 0 holds only the initial hypothesis and every stack is sound. The returned rounds trace the search: round i fills stack i + 1 by `StackSearch` from the containers the earlier rounds registered, then files its neural options and forwards it, and each round starts from the state the previous one left. The loop stops only at the last stack or when time has run out, and later stacks stay empty. Every registered edge is well formed. |
| Search.SearchCubePruning.Seed | moses/SearchCubePruning.cpp:129-138 | The initial hypothesis alone seeds stack 0 and is forwarded without neural options: the registrations are exactly `RegsFrom` of its coverage, no list or dynamic option is added, and the edges are well formed. |
| Search.SearchCubePruning.DecodeRound | moses/SearchCubePruning.cpp:140-248 | One iteration of the stack loop fills stack stackNo and extends the trace by that round, keeping the decoding invariant. |
| Search.SearchCubePruning.DecodeStack | moses/SearchCubePruning.cpp:152-247 | One round (`RoundOf`): only stack s changes; it becomes the `StackSearch` result over the containers registered into it; the dynamic options grow by what the features keep for it, filed by coverage; the registrations and lists grow by exactly what forwarding its coverages with that map adds. At most stack_size sound hypotheses; registrations stay well formed. |
| Search.SearchCubePruning.RegistrationsWellFormed | moses/SearchCubePruning.cpp:241 | The edges forwarded from a sound stack are well formed. |
| NeuralScore.NeuralScoreState.Extend | moses/FF/NeuralScoreFeature.cpp:25-35 | The successor context is the old context followed by the last words in order; the last word is the last of them. |
| NeuralScore.NeuralScoreState.Empty | moses/FF/NeuralScoreFeature.cpp:37-44 | An empty context and an empty last word. |
| NeuralScore.NeuralScoreState.Compare | moses/FF/NeuralScoreFeature.cpp:57-68 | Returns 0 exactly when the contexts are equal, and otherwise ±1. |
| NeuralScore.NeuralScoreState.ToString | moses/FF/NeuralScoreFeature.cpp:46-55 | The context joined with single spaces; splitting it again gives the words back (`Text.SplitJoin`). |
| NeuralScore.NeuralScoreState.LimitLength | moses/FF/NeuralScoreFeature.cpp:79-82 | The context becomes its last min(size, length) words, dropped from the front. |
| NeuralScore.CompareLess | moses/FF/NeuralScoreFeature.cpp:64-67 | Compare is −1 exactly when this context is lexicographically less, and +1 exactly when it differs and is not less. |
| NeuralScore.CompareAntisymmetric | moses/FF/NeuralScoreFeature.cpp:57-68 | Swapping the states negates the comparison. |
| NeuralScore.NeuralScoreState.EqualsAsWritten | moses/FF/NeuralScoreFeature.cpp:70-73 | `operator==` as written holds exactly when the contexts differ. |
| NeuralScore.NeuralScoreState.Equals | moses/FF/NeuralScoreFeature.cpp:70-73 | The corrected `operator==` holds exactly when the contexts are equal. |
| NeuralScore.NeuralScoreState.Hash | moses/FF/NeuralScoreFeature.cpp:75-77 | `hash()` puts every state in bucket 0. |
| NeuralScore.EqualsAsWrittenMeansDifferent | moses/FF/NeuralScoreFeature.cpp:70-73 | As written, `operator==` holds exactly between states whose contexts differ. |
| NeuralScore.EqualsAsWrittenIrreflexive | moses/FF/NeuralScoreFeature.cpp:70-73 | As written, no state equals itself. |
| NeuralScore.EqualsIsContextEquality | moses/FF/NeuralScoreFeature.cpp:70-77 | The corrected `operator==` is context equality: reflexive and symmetric, and equal states hash alike (`hash()` is always 0). |
| NeuralScore.DigitPrefix | moses/FF/NeuralScoreFeature.cpp:267 | The leading digits `Scan<size_t>` reads are a prefix of the value and are all digits. |
| NeuralScore.Decimal | moses/FF/NeuralScoreFeature.cpp:267 | A number's decimal notation is a non-empty string of digits. |
| NeuralScore.DigitPrefixOfDigits | moses/FF/NeuralScoreFeature.cpp:267 | On a string of digits, the scanned prefix is the whole string. |
| NeuralScore.DigitsValueOfDecimal | moses/FF/NeuralScoreFeature.cpp:267 | The digits of n's decimal notation denote n. |
| NeuralScore.ScanNatDecimal | moses/FF/NeuralScoreFeature.cpp:266-267 | `Scan<size_t>` of a number's decimal notation gives the number back, so "state-length" takes the written value. |
| NeuralScore.LongestPhrase | moses/FF/NeuralScoreFeature.cpp:281-293 | maxLength before the completion bump: at least 1, at least every target-phrase length, and 1 or the length of one of the phrases. |
| NeuralScore.GridHoldsEveryPhrase | moses/FF/NeuralScoreFeature.cpp:296-313 | The grid has room for every phrase, plus "</s>" when any hypothesis is complete, and its last row stays −1. |
| NeuralScore.NeuralScoreFeature.constructor | moses/FF/NeuralScoreFeature.cpp:104-112 | The defaults (state length 5, mode "rescore", no config path, batch size 1000), then `ReadParameters`: the three settings equal `ReadParameters` of the line's key=value pairs, each applied by `SetParameter` in order. |
| NeuralScore.Applied | moses/FF/NeuralScoreFeature.cpp:265-276 | One key=value pair: "state-length" sets the scanned number, "mode" and "config-path" their strings, any other key changes none of the three. |
| NeuralScore.ReadParameters | moses/FF/NeuralScoreFeature.cpp:104-112 | The defaults (5, "rescore", no path), then every pair applied in order. |
| NeuralScore.LastSettingWins | moses/FF/NeuralScoreFeature.cpp:265-276 | When a pair is the last to name its key, that key's setting is its value (scanned for "state-length"). |
| NeuralScore.UnsetKeepsDefault | moses/FF/NeuralScoreFeature.cpp:106-109 | A setting no pair names keeps its default. |
| NeuralScore.NeuralScoreFeature.SetParameter | moses/FF/NeuralScoreFeature.cpp:265-276 | Each of the three keys sets its own field and only it; "state-length" is scanned as a number. Any other key goes to the base class with nothing changed here. |
| NeuralScore.NeuralScoreFeature.RescoreStack | moses/FF/NeuralScoreFeature.cpp:162-185 | Unless mode is "rescore", no batch is made. Otherwise the batches are consecutive, non-empty slices of at most 1000 that concatenate back to the hypotheses, all but the last full. |
| NeuralScore.NeuralScoreFeature.RescoreStackBatch | moses/FF/NeuralScoreFeature.cpp:279-354 | Requires non-empty target phrases only when the states are built (no id 0), because the state constructor reads the last word. Returns before any state change exactly when a hypothesis with id 0 is present. Otherwise the grid is (maxLength + 1) × n, holding each phrase's word ids, "</s>" when any hypothesis is complete, and −1 elsewhere; each new context is the previous context plus the phrase. |
| NeuralScore.NeuralScoreFeature.EvaluateWhenApplied | moses/FF/NeuralScoreFeature.cpp:212-248 | The new state's context is the previous context plus the target words, plus "</s>" iff the source is complete, trimmed to the last state-length words. Its last word is the last applied word. |
| NeuralScore.BatchStep | moses/FF/NeuralScoreFeature.cpp:284-294 | One more hypothesis updates the longest phrase and the completion flag by that hypothesis alone. |
| NeuralScore.BatchMaxLength | moses/FF/NeuralScoreFeature.cpp:281-298 | The first loop and the bump compute `MaxLength`: the longest phrase, at least 1, plus 1 if any hypothesis is complete. |
| NeuralScore.FillColumn | moses/FF/NeuralScoreFeature.cpp:305-313 | Filling column i writes that hypothesis's word ids and "</s>" row and leaves every other column unchanged. |
| NeuralScore.FlattenSnoc | moses/FF/NeuralScoreFeature.cpp:167-180 | Passing one more batch extends the concatenation of the batches by it. |
| NeuralScore.SuccessorContextEndsWithPhrase | moses/FF/NeuralScoreFeature.cpp:236-246 | The successor context has min(old + phrase length, state length) words, and ends with the applied phrase whenever that fits. |
| Mblas.Resized | moses/FF/NMT/mblas/matrix.h:85 | `vector::resize(n, fill)`: length n, old elements kept below n, fill beyond. |
| Mblas.Overwrite | moses/FF/NMT/mblas/matrix.h:277 | `copy` into a buffer at an offset: same length, the source in its window, everything else unchanged. |
| Mblas.Row | moses/FF/NMT/mblas/matrix.h:70-72 | Row i of a row-major buffer of width w: element j is `data[i * w + j]`. |
| Mblas.RowOf | moses/FF/NMT/mblas/matrix.h:308-310 | Index `i * w + j` with `j < w` divides back into row i, column j. |
| Mblas.RowsDisjoint | moses/FF/NMT/mblas/matrix.h:318-347 | Different rows of the same width never share an element. |
| Mblas.RowOfConcat | moses/FF/NMT/mblas/matrix.h:258-265 | In two buffers laid end to end, the first n rows come from the first and the rest from the second. |
| Mblas.TMatrix.Empty | moses/FF/NMT/mblas/matrix.h:53-55 | A 0 × 0 matrix with no data. |
| Mblas.TMatrix.Sized | moses/FF/NMT/mblas/matrix.h:57-59 | A rows × cols matrix whose rows·cols elements are value-initialised. |
| Mblas.TMatrix.Filled | moses/FF/NMT/mblas/matrix.h:61-63 | A rows × cols matrix whose rows·cols elements are all `val`. |
| Mblas.TMatrix.Get | moses/FF/NMT/mblas/matrix.h:70-72 | `operator()(i, j)`: element `i * cols + j` of the buffer. |
| Mblas.TMatrix.Resize | moses/FF/NMT/mblas/matrix.h:82-86 | New dimensions; the data has length rows·cols, keeps its prefix and is padded with value-initialised elements. |
| Mblas.TMatrix.ResizeFill | moses/FF/NMT/mblas/matrix.h:88-92 | The same, padded with `val`. |
| Mblas.TMatrix.Reshape | moses/FF/NMT/mblas/matrix.h:98-101 | Only the dimensions change; the data is untouched. |
| Mblas.TMatrix.Clear | moses/FF/NMT/mblas/matrix.h:109-113 | No data and both dimensions 0. |
| Mblas.GetIsRowElement | moses/FF/NMT/mblas/matrix.h:70-72 | `operator()(i, j)` of a valid matrix is element j of row i. |
| Mblas.Swap | moses/FF/NMT/mblas/matrix.h:187-198 | The two matrices exchange both their dimensions and their buffers. |
| Mblas.Copy | moses/FF/NMT/mblas/matrix.h:230-245 | Out takes In's dimensions, and its data begins with In's data; a valid In is copied exactly. |
| Mblas.AppendedData | moses/FF/NMT/mblas/matrix.h:248-254 | The resize, resize and copy sequence leaves the old data as prefix (truncated or padded at rows·cols) and the appended row at the end. |
| Mblas.AppendRow | moses/FF/NMT/mblas/matrix.h:247-256 | One more row equal to In's row i; the old data stays as prefix, and a valid Out stays valid. |
| Mblas.AppendRows | moses/FF/NMT/mblas/matrix.h:258-265 | The rows add up, the data ends with In's data, and for valid matrices the data is old ++ In. |
| Mblas.PrependedAsWrittenOverlong | moses/FF/NMT/mblas/matrix.h:267-271 | As written, the buffer is rows·cols plus the length of In's data long, which is never rows·cols when In has data. |
| Mblas.PrependRowsCounterexample | moses/FF/NMT/mblas/matrix.h:267-271 | A 1 × 1 matrix [1] prepended with [2] becomes [2, 1, 0]: three elements for a 2 × 1 matrix. |
| Mblas.PrependRowsAsWritten | moses/FF/NMT/mblas/matrix.h:267-271 | As written: the dimensions add up, and the data is In's data before the old data resized to the new rows·cols. |
| Mblas.PrependRows | moses/FF/NMT/mblas/matrix.h:267-271 | Corrected: the dimensions add up, the data is In's data followed by the old data, and valid inputs give a valid matrix. |
| Mblas.PrependedRows | moses/FF/NMT/mblas/matrix.h:267-271 | After prepending, the first In.rows rows are In's and the rest are the old rows in order. |
| Mblas.PasteRow | moses/FF/NMT/mblas/matrix.h:273-279 | In's data overwrites Out from `r * cols + c`, and everything else is unchanged. |
| Mblas.CopyRow | moses/FF/NMT/mblas/matrix.h:281-290 | Out becomes a valid 1 × (cols − c) matrix equal to In's row r from column c. |
| Mblas.Functor | moses/FF/NMT/mblas/matrix.h:296-316 | Flat index k goes to column k mod L of the row that pair k div L names (first or second). |
| Mblas.FunctorRowMajor | moses/FF/NMT/mblas/matrix.h:308-315 | The functor sends position `p * rowLength + j` to column j of the pair's destination row, or of its source row. |
| Mblas.CopiedRows | moses/FF/NMT/mblas/matrix.h:318-347 | Copying rows keeps the buffer length. |
| Mblas.CopiedRowsUntouched | moses/FF/NMT/mblas/matrix.h:318-347 | A position in no destination row keeps its old value. |
| Mblas.CopiedRowsLast | moses/FF/NMT/mblas/matrix.h:339-345 | The last pair's row is written last: inside it the source row, elsewhere what the earlier pairs wrote. |
| Mblas.CopiedRowsWritten | moses/FF/NMT/mblas/matrix.h:318-347 | With distinct destinations, each element of a destination row equals the same element of its source row. |
| Mblas.CopiedRowEqualsSource | moses/FF/NMT/mblas/matrix.h:318-347 | With distinct destinations, row dst of Out equals row src of In for every pair. |
| Mblas.CopyPairRow | moses/FF/NMT/mblas/matrix.h:339-345 | Copying one pair writes In's source row over Out's destination row and nothing else. |
| Mblas.CopyRows | moses/FF/NMT/mblas/matrix.h:349-355 | The dimensions stay the same and the data becomes `CopiedRows`: every pair's source row copied over its destination row, in order. |
| Mblas.Assemble | moses/FF/NMT/mblas/matrix.h:357-366 | Out is a valid matrix with one row per index and In.cols columns, whose row i is In's row `indeces[i]`. |
| Mblas.TileSourceOf | moses/FF/NMT/mblas/matrix.h:384-392 | `fill1`: output row `i * r + j` reads input row j. |
| Mblas.RepeatSourceOf | moses/FF/NMT/mblas/matrix.h:394-403 | `fill2`: output row `i * factor + j` reads input row i. |
| Mblas.SourcesInRange | moses/FF/NMT/mblas/matrix.h:384-403 | Both fillers name only existing input rows. |
| Mblas.Fill1 | moses/FF/NMT/mblas/matrix.h:384-392 | The nested loops write pair k = (k, k mod r) for every k < r·factor and nothing beyond. |
| Mblas.Fill2 | moses/FF/NMT/mblas/matrix.h:394-403 | The nested loops write pair k = (k, k div factor) for every k < r·factor and nothing beyond. |
| Mblas.Broadcast | moses/FF/NMT/mblas/matrix.h:410-428 | Out becomes a valid (rows·factor) × cols matrix whose row k is the old row the filler names for k. |
| Mblas.Broadcast1 | moses/FF/NMT/mblas/matrix.h:430-433 | Tiling: row `i * r + j` of the result is old row j. |
| Mblas.Broadcast2 | moses/FF/NMT/mblas/matrix.h:435-438 | Repeating: row `i * factor + j` of the result is old row i. |

## Left out

- Floating-point and BLAS work in `matrix.h` is not modelled, because it is numeric: `Transpose`, `Prod`, `SoftmaxRows`, the `Element` variants, `PairwiseReduce`, `Reserve` and `Purge` (capacity only). The GPU/host choice of `lib::copy` is also left out.
- The Python glue (`NMT_Wrapper.cpp`, `nmt_wrapper.py`), the GPU decoder (`nmt_decoder.h`) and `DynamicCacheBasedLanguageModel.h` are not part of this model. They are foreign code, GPU code or declarations only.
- From `NeuralScoreFeature.cpp`, these are left out as calls into the NMT engine or thread-local setup:
  - `InitializeForInput`;
  - `EmptyHypothesisState`;
  - `BatchSteps`, with the scores and states it returns;
  - `RescoreNBestList`;
  - `CleanUpAfterSentenceProcessing`;
  - the chart-decoding `EvaluateWhenApplied`;
  - `ProcessStack` (which only throws in "precalculate" mode).
- `TargetVocab` is a parameter (`vocab`).
- The score vector of `EvaluateWhenApplied` is not modelled. The source writes `newScores[1]` while the feature has one score component. Neither `PlusEquals` nor `Recalc` is modelled.
- The `amunmt::States` member of `NeuralScoreState` is not modelled: it is an opaque NMT state that no modelled operation reads.
- NeuralScore.NeuralScoreFeature.RescoreStackBatch: the replacement of each hypothesis's feature state is described by the new contexts it returns, not by mutating hypotheses.
- NeuralScore.NeuralScoreFeature.SetParameter: forwarding to `StatefulFeatureFunction::SetParameter` is reported as a flag. `Scan<size_t>` is modelled on leading decimal digits only: no sign, whitespace, overflow or error handling.
- NeuralScore.NeuralScoreFeature.RescoreStack: the batches handed to `RescoreStackBatch` are returned instead of scored. The `batchSize` is the constant 1000, as no parameter sets it.
- Search.SearchCubePruning.FillStack: `BitmapContainer`, `BackwardsEdge` and `HypothesisStackCubePruning` are not part of this model. The consequences:
  - candidates are the hypotheses a container's edges yield, best first;
  - recombination, the beam threshold, and the arc lists and their cleanup are not modelled;
  - `PruneToSize` is `Sorting.Best`.
- Search.SearchCubePruning.Decode: the statistics timers, `VERBOSE` logging, the lookup of the first phrase table (`m_pt`) and the `m_inputPathsMap` lookup are left out. `CreateNeuralTargetPhrase` becomes a translation option made of the span, the joined words and the score.
- `CleanAfterDecode`, the destructor, `GetBestHypothesis`, `OutputHypoStack*`, `PrintBitmapContainerGraph` and `CollectorCube`/`ExpanderCube` are not modelled: they are memory management, logging or other search modes.
- Search.SearchCubePruning.ProcessStackForNeuro: the `std::cerr` dump of each candidate is not modelled. The candidates of each feature are a parameter, because `RescoreStack` is declared `void` in the source and returns none.
  - `Readable` requires what the loop reads without checks. The candidate's hypothesis index must be in range, and a non-empty coverage must have a first word and a span inside the sentence.
- Search.SearchCubePruning.ForwardNeuro: the neural overload reads the static list before its null check (line 376). `ListsExist` requires that list to exist for every span the enumerator may reach.
- The neural map is keyed by bitmap pointers in the source and by bitmap value here. `Bitmaps::GetBitmap` interns bitmaps, so equal values share a pointer.
- Container order is not modelled:
  - the order of the accessor map's containers, and of ties in the priority queue and in `std::sort`;
  - `PopBest` picks a best container, but the tie-break of `BitmapContainerOrderer` is proved separately, in `CubeQueue`.
  - The order of `BitmapContainerOrderer` on pointers (`A < B`) is the container id.
- NeuralScore.NeuralScoreFeature.constructor: `ReadParameters` is given the line already split into key=value pairs. The tokenising of the line, the base-class keys and `InitGod` with its thread setup are not modelled.
- `size_t` wrap-around is not modelled: sizes and indices are unbounded naturals.
- Mblas: each two-matrix operation requires `Out != In` (aliasing the matrices would read a buffer while it is resized). A `CopyRows` with two pairs writing the same destination row is modelled in order, last write wins.

## Findings

| source | as written | input that shows it | evidently intended | confidence | as-written member | corrected member |
|---|---|---|---|---|---|---|
| moses/FF/NMT/mblas/matrix.h:267-271 | `PrependRows` resizes Out to the new rows·cols and then inserts In's data in front, so the buffer is longer than rows·cols by In's size. | Out = 1 × 1 [1], In = 1 × 1 [2]: the result is 2 × 1 with data [2, 1, 0]. | data = In's data followed by Out's old data, of length rows·cols. | high; not executed | Mblas.PrependRowsAsWritten | Mblas.PrependRows |
| moses/FF/NeuralScoreFeature.cpp:70-73 | `operator==` returns true when `Compare` is non-zero, that is when the contexts differ. | Any state compared with itself: Compare gives 0, so `operator==` is false. | true exactly when Compare is 0 (equal contexts), consistent with `hash()`. | high; not executed | NeuralScore.EqualsAsWrittenIrreflexive | NeuralScore.EqualsIsContextEquality |
| moses/SearchCubePruning.cpp:334-335 | The neural options for an edge are looked up by the new coverage alone, so an option filed for another (hypothesis, span) pair with the same resulting coverage joins the edge's list. | 3 words; a neural option for span [0, 1] extending coverage {2}; the container {0} extended by [1, 2] reaches the same coverage {0, 1, 2} and receives the [0, 1] option. | only the neural options translating the edge's own span join its list. | medium; not executed | Forward.MergedAsWrittenCounterexample | Forward.MergedOnRange |
