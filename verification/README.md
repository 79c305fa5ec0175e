# speakrs: proofs about the diarization pipeline

A Dafny model of the logic of speakrs around its neural networks: scoring, assignment, the concurrent
embedding pipeline, the job queue, clustering, batching and the transforms between frames, windows and
segments. Numbers that the program keeps in floating point are exact reals here; a missing (NaN)
embedding is an absent option; each model call is a function of its own inputs, and a batched call is
the pointwise one.

| files | what they model |
|---|---|
| `Counting`, `Matrices`, `Options`, `ExtendedReals` | sums, permutations, extremes, matrix columns, optional values and infinity, shared by the rest |
| `Hungarian`, `SpeakerMapping` | the shortest-augmenting-path assignment solver with potentials, as a class over arrays, and the best one-to-one speaker mapping |
| `Segments`, `ErrorRate`, `ScoringTrack`, `ErrorRateTheorems` | the diarization error rate: the sweep over elementary intervals, its accounting and its minimality |
| `Coverage` | measure of unions of intervals and the overlap of two timelines |
| `Chunking`, `ChunkPipeline`, `SequentialFeed` | bridge, preparation workers and the stealing GPU worker over bounded channels, as a step system over all interleavings, and the sequential loop behind the same bridge |
| `Collector`, `Collection`, `CollectorLoops`, `BatchCollection`, `ChunkPreparation`, `ChunkRun` | the slot-addressed collectors, the pipelined, sequential and batch loops, the masks of a chunk, and all of it together |
| `JobQueue`, `QueueReceiver` | the background queue as a step system, its receiver and iterator as classes |
| `AssignmentSearch`, `ChunkAssignment` | exhaustive assignment search and the labelling of a chunk's speakers |
| `Dendrogram` | cutting a dendrogram into flat clusters |
| `SpeakerMasks`, `BatchedEmbedding`, `MultiMask` | mask selection, fused and unfused, and the batched embedding paths with buffer eviction |
| `Enumeration`, `Powerset` | combinations, powerset classes, decoding and encoding |
| `Runs`, `Binarize` | hysteresis, duration filters, padding |
| `Windows`, `Layout`, `Strides` | sliding windows and frame layout |
| `Reconstruction` | speaker counts, cluster activations and their discrete reconstruction |
| `SegmentExtraction`, `SegmentMerging` | segments out of frames, and merging across gaps |

Code that updates state is modelled by methods with loops over arrays and fields, each proved against
a function or a predicate; concurrent code by steps with guards, where a blocking receive, a non-blocking
one and a `select!` between two channels are separate steps and the scheduler is free. Where a reading
holds only under a condition a caller can check, a lemma states it as an equivalence:
`Binarize.LatchedIffOrdered`, `Windows.AllReachedIffStepFits`, `Reconstruction.ConsistentIffNoSlip` and
`SegmentMerging.LosesNothingIff`.

The code differs from its documentation in two places, and the model follows the code. The comment at
`src/metrics.rs:45-47` names a Jonker-Volgenant algorithm where the code is the potential-based
augmenting-path method modelled here. `src/binarize.rs:12-13` calls `min_duration_off` the maximum gap
that is filled, where `fill_short_off` (line 89) fills only strictly shorter gaps, so that it is the
minimum length of the gaps that stay.

Verify everything with `dafny verify dfyconfig.toml`.

## Model

| member | source | states |
|---|---|---|
| `Hungarian.HungarianSolver.Relax` | src/metrics.rs:222-237 | one scan lowers every unvisited column to the cheaper of its old path and the path through the current column, remembers where it came from, and returns the nearest unvisited column with its distance |
| `Hungarian.HungarianSolver.Shift` | src/metrics.rs:239-246 | the potentials of the visited tree and the open distances move by exactly the minimum, nothing else moves |
| `Hungarian.HungarianSolver.Sweep` | src/metrics.rs:217-246 | one visit relaxes through the current column and shifts by the least label, both stated exactly over the arrays |
| `Hungarian.HungarianSolver.Pass` | src/metrics.rs:217-252 | one round keeps feasibility, tight tree edges and distinct rows, and reaches one new column by a tight edge |
| `Hungarian.HungarianSolver.FindFree` | src/metrics.rs:211-252 | the rounds end at a column without a row, reached by a tight edge of the tree |
| `Hungarian.HungarianSolver.Augment` | src/metrics.rs:254-262 | walking the predecessors shifts rows along the path back to column 0 and leaves one more row matched, all pairs tight |
| `Hungarian.HungarianSolver.AssignRow` | src/metrics.rs:209-263 | from a solved state for the earlier rows to a solved state that also matches this row: reduced costs of processed rows stay non-negative, matched pairs stay tight, no two columns share a row |
| `Hungarian.HungarianSolver.IntoAssignment` | src/metrics.rs:265-271 | the result is the inverse of the column-to-row table: row r goes to column c exactly if c holds r |
| `Hungarian.ShiftKeepsFeasible` | src/metrics.rs:239-246 | moving the potentials by the least open distance makes no reduced cost negative, for any real costs |
| `Hungarian.ShiftKeepsTree` | src/metrics.rs:239-246 | edges of the search tree stay tight under the move |
| `Hungarian.VisitKeepsTree` | src/metrics.rs:217-237 | visiting the chosen column keeps the predecessor chain a tree that ends at column 0 |
| `Hungarian.FreeColumn` | src/metrics.rs:222-237 | while a row is being assigned an unvisited column always exists, so the search cannot run out |
| `Hungarian.HoleMoves` | src/metrics.rs:255-261 | one augmentation step moves the hole one column towards the root and keeps every other pair |
| `Hungarian.SolvedAfterAugment` | src/metrics.rs:254-262 | after the last step all rows up to the new one are matched by tight pairs |
| `Hungarian.WeakDuality` | src/metrics.rs:209-263 | under feasible potentials no assignment costs less than the sum of all potentials |
| `Hungarian.MatchingIsOptimal` | src/metrics.rs:274-284 | a full tight matching under feasible potentials costs at most any permutation |
| `Hungarian.InverseIsPermutation` | src/metrics.rs:265-271 | the assignment read out of a full matching is a permutation |
| `Hungarian.HungarianAlgorithm` | src/metrics.rs:277-284 | for every square real matrix, negative entries included, the result is a permutation that costs at most every other permutation |
| `SpeakerMapping.ExtendToPermutation` | src/metrics.rs:172-187 | every one-to-one partial mapping extends to a permutation of the padded square |
| `SpeakerMapping.InsideIsFullSize` | src/metrics.rs:183-187 | cutting a permutation back to the matrix leaves a one-to-one mapping with exactly min(rows, columns) pairs |
| `SpeakerMapping.CheapestIsBest` | src/metrics.rs:172-187 | padding with zeros and negating turns a cheapest permutation into a mapping that picks the most: most of all full-size mappings, and of all one-to-one mappings when entries are not negative |
| `SpeakerMapping.OptimalMapping` | src/metrics.rs:167-188 | that best mapping is returned for every matrix shape, the empty ones included |
| `ErrorRate.Boundaries` | src/metrics.rs:59-65 | the boundary list is strictly increasing and holds exactly the starts and ends of the segments |
| `ErrorRate.CollectSpeakers` | src/metrics.rs:134-142 | every speaker once, in order of first appearance |
| `ErrorRate.ListedByAppearance` | src/metrics.rs:134-142 | of two listed speakers the one listed first has the earlier first segment |
| `ErrorRate.ActiveSpeakersAt` | src/metrics.rs:145-163 | the numbers listed are exactly those of the speakers talking at the midpoint, each once |
| `ErrorRate.BuildCooccurrence` | src/metrics.rs:71-89 | each entry is the time during which that reference speaker and that hypothesis speaker talk together |
| `ErrorRate.ScoreWindow` | src/metrics.rs:101-124 | one window adds its missed, false-alarm and confused speaker time to the totals; the subtraction for confusion cannot go below zero |
| `ErrorRate.ComputeDer` | src/metrics.rs:48-132 | with a reference, the result is the accounting of the whole timeline under a best speaker mapping; without one it is the summed hypothesis time as false alarm |
| `ErrorRate.RateIsShare` | src/metrics.rs:18-26 | the rate times the reference time is the three errors together, and the rate is zero without reference time |
| `ErrorRate.DurationIsTotal` | src/metrics.rs:49-56 | the false alarm of an empty reference adds up end minus start |
| `ErrorRateTheorems.BoundariesCut` | src/metrics.rs:59-68 | consecutive boundaries leave no segment end strictly between them |
| `ErrorRateTheorems.MidpointIsExact` | src/metrics.rs:145-163 | inside an elementary interval a speaker talks at the midpoint exactly if he talks at every instant of it |
| `ErrorRateTheorems.SpeakerTimeIsMeasure` | src/metrics.rs:68-124 | the time a speaker is counted for equals the length of the union of his segments |
| `ErrorRateTheorems.TotalIsUnionTime` | src/metrics.rs:107-124 | the total is the sum over reference speakers of the length of the union of their segments |
| `ErrorRateTheorems.ScoreAccounts` | src/metrics.rs:93-131 | under the best mapping the score was made with, total = missed + confusion + correctly matched time and hypothesis speaker time = false alarm + confusion + correctly matched time, with all parts non-negative |
| `ErrorRateTheorems.HypTimeIsUnionTime` | src/metrics.rs:107-124 | hypothesis speaker time is the sum over hypothesis speakers of the length of the union of their segments |
| `ErrorRateTheorems.ConfusionIsLeast` | src/metrics.rs:90-124 | no one-to-one mapping of speakers, full-size or partial, would give less confusion than the reported one |
| `ErrorRateTheorems.RelabelledScoresZero` | src/metrics.rs:48-132 | scored against any reordering and injective relabelling of itself a reference has no missed time, no false alarm, no confusion and a zero rate |
| `ScoringTrack.MatchedAtMostPairable` | src/metrics.rs:115-124 | in a window no more speakers are matched than the smaller side has |
| `ScoringTrack.PickedIsMatchedTime` | src/metrics.rs:91-124 | the entries a mapping picks in the co-occurrence matrix add up to the time it matches |
| `ScoringTrack.ReferenceAccounting` | src/metrics.rs:107-124 | every second of reference speech is missed, confused or matched |
| `ScoringTrack.HypothesisAccounting` | src/metrics.rs:107-124 | every second of hypothesis speech is a false alarm, confused or matched |
| `ScoringTrack.OneSidedSurplus` | src/metrics.rs:107-124 | one window has missed time or a false alarm, never both |
| `ScoringTrack.ErrorsAddUp` | src/metrics.rs:107-124 | the errors of a timeline are those of its windows, added up |
| `ScoringTrack.BestMappingConfusesLeast` | src/metrics.rs:91-124 | a mapping that is best on the co-occurrence matrix minimises confusion over all one-to-one mappings |
| `Coverage.UncoveredReorders` | xtask/src/compare_rttm.rs:50-54 | the measure left uncovered does not depend on the order of the intervals |
| `Coverage.UncoveredMerge` | xtask/src/compare_rttm.rs:60-70 | replacing two overlapping intervals by their hull covers the same measure |
| `Coverage.MergeIntervals` | xtask/src/compare_rttm.rs:60-70 | the merged list is sorted, strictly separated and covers the same measure of every stretch |
| `Coverage.AddOverlap` | xtask/src/compare_rttm.rs:73-85 | the inner loop adds the measure of the segment inside the merged intervals; the early break skips nothing |
| `Coverage.TimelineOverlap` | xtask/src/compare_rttm.rs:49-87 | the result is the sum over the first timeline of the measure of each segment inside the union of the second |
| `Coverage.CoveredSpeechIsTotal` | xtask/src/compare_rttm.rs:49-87 | that is, turn by turn, the measure of the stretch from its start for its duration inside the turns of the other timeline |
| `Chunking.ChunksAreStretches` | src/pipeline/chunk_embedding.rs:124-152 | each chunk is a non-empty stretch of its file of at most the capacity |
| `Chunking.ChunksCoverAll` | src/pipeline/chunk_embedding.rs:124-152 | every window of a file lies in one of its chunks |
| `Chunking.ChunkCount` | src/pipeline/chunk_embedding.rs:253-263 | the number of chunks is the number of windows over the capacity, rounded up |
| `Chunking.ChunkAt` | src/pipeline/chunk_embedding.rs:302-333 | the k-th chunk of a file starts k times the capacity windows in, so counting chunks and counting windows address the same slots |
| `Chunking.AllDistinct` | src/pipeline/chunk_embedding.rs:302-333 | no chunk occurs twice among those of all files |
| `ChunkPipeline.StepKeepsPlaces` | src/pipeline/chunk_embedding/gpu.rs:71-190 | with at least one worker no step of bridge, workers, stealing GPU worker or collector loses, repeats or invents a chunk, and the two sends that could drop one are never enabled |
| `ChunkPipeline.StepKeepsInv` | src/pipeline/chunk_embedding/gpu.rs:71-128 | every step keeps the invariant: channel bounds, one place for each chunk, and what a closed channel and the decoded-done flag imply |
| `ChunkPipeline.ExactlyOnePlace` | src/pipeline/chunk_embedding/orchestrate.rs:69-94 | in every reachable state of every interleaving each chunk of the input is in exactly one place |
| `ChunkPipeline.GpuStopsLast` | src/pipeline/chunk_embedding/gpu.rs:79-127 | once the GPU worker has stopped, the raw queue is closed and empty, all workers have left and no prepared chunk is waiting |
| `ChunkPipeline.NeverStuck` | src/pipeline/chunk_embedding/orchestrate.rs:69-94 | with at least one worker some step is possible in every reachable state that is not finished, whatever the channel capacities |
| `ChunkPipeline.StepReducesWork` | src/pipeline/chunk_embedding/gpu.rs:142-183 | every step reduces a measure of the work left |
| `ChunkPipeline.MaximalRunsDeliverAll` | src/pipeline/chunk_embedding/orchestrate.rs:69-156 | every run that cannot go on has ended with every chunk delivered exactly once, within a bound fixed by the input |
| `Collector.FileCollector.constructor` | src/pipeline/chunk_embedding/collect.rs:56-69 | a new collector is blank in every slot and has received nothing |
| `Collector.FileCollector.Add` | src/pipeline/chunk_embedding/collect.rs:71-101 | the arrays become exactly the old ones with the chunk written from the slot that its number in the file times the capacity gives, inactive cells and slots past the end untouched |
| `Collector.FileCollector.IntoArtifacts` | src/pipeline/chunk_embedding/collect.rs:107-124 | the arrays cut to the slots in use, or nothing if none is |
| `Collection.AddKeepsCollected` | src/pipeline/chunk_embedding/collect.rs:71-101 | whatever arrived before, one more chunk of the file leaves every covered slot with its own window and embeddings and every other slot blank |
| `Collection.AllAddedIsComplete` | src/pipeline/chunk_embedding/collect.rs:103-124 | once every chunk of a file has arrived, in any order, the arrays hold exactly the file and the used count is its number of windows |
| `CollectorLoops.RunPipelined` | src/pipeline/chunk_embedding/orchestrate.rs:116-160 | the slot-addressed loop ends with what was collected from the chunks in arrival order |
| `CollectorLoops.ChunksFollowOn` | src/pipeline/chunk_embedding/orchestrate.rs:194-308 | chunks in file order follow on one another, so the running index equals the start of each chunk |
| `SequentialFeed.TakenInFileOrder` | src/pipeline/chunk_embedding.rs:124-152 | in every interleaving of segmentation, bridge and loop, once the raw channel is closed and empty the loop has taken exactly the chunks of the files, in file order |
| `SequentialFeed.MaximalRunsDrain` | src/pipeline/chunk_embedding.rs:110-152 | every run that cannot go on has closed and emptied the raw channel, within a bound fixed by the input |
| `CollectorLoops.RunSequentialChunks` | src/pipeline/chunk_embedding/orchestrate.rs:184-318 | given the chunks taken in any such run the loop with the running index ends with the complete file and its number of windows |
| `CollectorLoops.PipelinedEqualsSequential` | src/pipeline/chunk_embedding/orchestrate.rs:46-318 | for every interleaving the pipelined arrays and count equal those of the sequential loop |
| `BatchCollection.CountedIsComplete` | src/pipeline/chunk_embedding.rs:405-418 | a collector that has counted as many chunks as expected holds its whole file |
| `BatchCollection.MessageTaken` | src/pipeline/chunk_embedding.rs:386-418 | after one message its file is still being collected, with one chunk more, or was completed by exactly its last chunk |
| `BatchCollection.TakeMessage` | src/pipeline/chunk_embedding.rs:386-418 | the collector object is made if missing, given the chunk, and gives up its artifacts once it has counted the expected chunks, as the step on values says |
| `BatchCollection.HandleMessage` | src/pipeline/chunk_embedding.rs:380-418 | among the collector objects of all files, which share no array, only that of the message changes |
| `BatchCollection.CollectMessages` | src/pipeline/chunk_embedding.rs:380-419 | the loop over collector objects computes the fold of that step over the messages |
| `BatchCollection.AllComplete` | src/pipeline/chunk_embedding.rs:380-419 | for messages in any order that fold completes every file once, each with its own windows and embeddings |
| `BatchCollection.RunBatch` | src/pipeline/chunk_embedding.rs:380-419 | for chunks of many files in any order every file completes exactly once, with its own windows and embeddings |
| `BatchCollection.CollectRun` | src/pipeline/chunk_embedding.rs:290-419 | at the end of every run of the many-file pipeline, whatever the interleaving, every file has completed once with its own windows and embeddings |
| `ChunkPreparation.CollectChunkMasks` | src/pipeline/chunk_embedding/prep.rs:85-117 | each mask slot that fits the buffer holds its own speaker's selected weights or zeros, the rest of the buffer is zero, and the active list holds exactly the slots with weights |
| `ChunkPreparation.NothingDropped` | src/pipeline/chunk_embedding/prep.rs:98-112 | a buffer with a slot for every window and speaker loses no active speaker |
| `ChunkPreparation.EmbedChunk` | src/pipeline/chunk_embedding/prep.rs:119-142 | preparing and predicting a chunk yields its masks' rows, its active list and its windows |
| `ChunkPreparation.PreparedChunkEmbeds` | src/pipeline/chunk_embedding/prep.rs:119-142 | a prepared and predicted chunk carries exactly the embedding of each of its windows and speakers |
| `ChunkPreparation.ChunkCellIsSelected` | src/pipeline/chunk_embedding/prep.rs:81-142 | that embedding is of the chunk's filterbank under the weights selected in the speaker's window |
| `ChunkRun.ChunkOfIsUnique` | src/pipeline/chunk_embedding.rs:124-152 | a window of a file lies in one chunk only, so its embeddings are determined |
| `ChunkRun.RunEmbeds` | src/pipeline/chunk_embedding/prep.rs:119-142 | whoever prepares a chunk of the run, it carries the embeddings of its own windows |
| `ChunkRun.CollectPrepared` | src/pipeline/chunk_embedding.rs:290-419 | from prepared and predicted chunks, in every interleaving and arrival order, every file of the batch ends with its own windows in order and, for each chunk, window and speaker, the embedding of that speaker's selected weights or none |
| `ChunkRun.CollectPreparedFile` | src/pipeline/chunk_embedding/orchestrate.rs:46-160 | the same for the pipeline over one file |
| `JobQueue.StepKeepsOrder` | src/pipeline/queued.rs:402-434 | every step keeps: accepted = delivered ++ result channel ++ worker ++ request channel, by job number and file name |
| `JobQueue.BatchReportsAll` | src/pipeline/queued.rs:436-475 | a processed batch answers each of its jobs once, in order, under its number and file name: with its own text on the chunked path when every slot came back filled, with its own outcome when there is no chunked path and every file succeeds alone, and otherwise with its own retry |
| `JobQueue.AnswersPassUnchanged` | src/pipeline/queued.rs:402-434 | over every run the results delivered, waiting or still to be sent are the answers the worker made, unchanged and in order; a prefix of them if the worker gave up because the receiver was gone |
| `JobQueue.DeliveredInOrder` | src/pipeline/queued.rs:402-434 | in every reachable state the delivered results answer the first accepted jobs in order |
| `JobQueue.ClosedMeansAllDelivered` | src/pipeline/queued.rs:282-295 | Closed is reported only when every accepted job was delivered and no sender is left |
| `JobQueue.EndIsExplained` | src/pipeline/queued.rs:282-340 | a receiver at the end reports Closed exactly if the worker finished, and its panic with its message if it panicked |
| `JobQueue.AcceptedIdsDiffer` | src/pipeline/queued.rs:240-251 | accepted jobs have different numbers across cloned senders, for the first 2^64 tickets |
| `JobQueue.TicketsCollideIff` | src/pipeline/queued.rs:244 | two tickets of one run carry the same number exactly if a multiple of 2^64 tickets were taken from the first up to the second |
| `JobQueue.PushAnswered` | src/pipeline/queued.rs:240-259 | with any steps of others between its ticket and its send, a push to a full queue gets its request back, a push to a queue whose worker is gone is refused without it, both leave the queue as it is, and any other push puts its job at the end under its ticket number |
| `JobQueue.TerminalStatesAbsorb` | src/pipeline/queued.rs:286-340 | a receiver that has left Running never changes again |
| `JobQueue.WindingDownIsBounded` | src/pipeline/queued.rs:408-416 | after the last sender is gone the number of further steps is bounded by what is pending |
| `JobQueue.SettledMeansAllDelivered` | src/pipeline/queued.rs:402-434 | without a panic a run that can go no further has delivered every accepted job and reported Closed |
| `QueueReceiver.ResultReceiver.Recv` | src/pipeline/queued.rs:286-295 | a running receiver takes the first result or joins the worker once; any other repeats its terminal error and changes nothing |
| `QueueReceiver.ResultReceiver.TryRecv` | src/pipeline/queued.rs:301-311 | as Recv, but an empty open channel yields nothing and leaves state and worker handle alone |
| `QueueReceiver.ResultIterator.Next` | src/pipeline/queued.rs:356-369 | the iterator yields results, then at most one error, then nothing |
| `QueueReceiver.EndsAfterOneError` | src/pipeline/queued.rs:343-369 | over any number of calls at most one error is yielded and nothing after it |
| `QueueReceiver.ErrorIsRepeated` | src/pipeline/queued.rs:343-369 | an iterator made after the error was seen yields that error once more and then nothing |
| `QueueReceiver.IteratorYieldsAccepted` | src/pipeline/queued.rs:353-369 | over every run of the queue the iterator yields the results of the accepted jobs in order; once closed it has yielded one for each and then ends, and after a panic the last item carries its message |
| `AssignmentSearch.Problem.SkipDominates` | src/pipeline/clustering.rs:318-322 | skipping a place only when enough remain loses no better completion |
| `AssignmentSearch.Search.Run` | src/pipeline/clustering.rs:305-339 | the recursion restores used clusters and current pairs; on finite scores the best is afterwards at least every completion and is the old best or a completion that beats it and everything met before; on scores that are all minus infinity nothing is kept |
| `AssignmentSearch.BestAssignment` | src/pipeline/clustering.rs:266-275 | on finite scores a full-size choice is returned that no full-size choice beats, the first such one that the search meets: at the first difference leaving a speaker out comes before his clusters in increasing order; on scores that are all minus infinity nothing is |
| `AssignmentSearch.BestIsUnique` | src/pipeline/clustering.rs:305-339 | so there is one answer, ties included |
| `AssignmentSearch.BestIsOneToOne` | src/pipeline/clustering.rs:266-275 | it has min(active, clusters) pairs with different speakers and different clusters |
| `AssignmentSearch.BestIsMaximal` | src/pipeline/clustering.rs:305-339 | it is maximal over all one-to-one assignments of that size |
| `AssignmentSearch.SearchAgreesWithSolver` | src/pipeline/clustering.rs:266-340 | exhaustive search and the assignment solver reach the same optimum on the same matrix |
| `ChunkAssignment.FindMask` | src/pipeline/clustering.rs:235-243 | one below the smallest real score of the chunk, or none when the chunk has no real score |
| `ChunkAssignment.AssignChunk` | src/pipeline/clustering.rs:211-260 | the labels are those of the first best assignment on the masked scores, and all -2 without a real score |
| `ChunkAssignment.LabelsAreUnique` | src/pipeline/clustering.rs:211-260 | a chunk has one labelling: equally good assignments are decided by the order of the search |
| `ChunkAssignment.LabelsAreBest` | src/pipeline/clustering.rs:211-260 | no one-to-one assignment of as many active speakers has a larger total of similarities, masked speakers counting with the mask |
| `ChunkAssignment.ActiveIffTalks` | src/pipeline/clustering.rs:216-219 | on activities that are not negative a speaker is active exactly if he talks in some frame |
| `ChunkAssignment.LabelsAreOneToOne` | src/pipeline/clustering.rs:245-260 | only active speakers are labelled, with different clusters, as many as possible |
| `ChunkAssignment.LeftOutScoresLess` | src/pipeline/clustering.rs:305-339 | in a best assignment a place left out scores no more on a cluster than the place that has it |
| `ChunkAssignment.ScoredSpeakersFirst` | src/pipeline/clustering.rs:233-243 | a speaker with a usable embedding is never left out while one without gets a cluster |
| `Dendrogram.LabelSubtree` | src/clustering/ahc.rs:131-146 | exactly the observations below the node get the label, every other label stays |
| `Dendrogram.AssignFlatLabels` | src/clustering/ahc.rs:89-129 | the observations below the node get exactly the next labels, from the first child to the second, two of them the same one exactly if a common ancestor within the subtree is low |
| `Dendrogram.SiblingsDisjoint` | src/clustering/ahc.rs:110-128 | the two children of a merge have no observation in common |
| `Dendrogram.FlatClusters` | src/clustering/ahc.rs:56-87 | for every well-formed dendrogram, monotone or not, each observation is labelled, the labels are 0..K-1, two observations share one exactly if some common ancestor has height at most the threshold, and where two part the one below the first child has no larger label |
| `Dendrogram.FlatCutIsUnique` | src/clustering/ahc.rs:56-129 | these properties leave one labelling |
| `SpeakerMasks.CleanMasks` | src/pipeline/clustering.rs:353-370 | frames of overlapping speakers are blanked, all others kept |
| `SpeakerMasks.CleanColumnSum` | src/pipeline/clustering.rs:413-419 | the fused sum equals that of the clean column |
| `SpeakerMasks.WeightsAreSelection` | src/pipeline/clustering.rs:372-444 | a speaker of total activity below ten has no weights; any other is weighted by the frames with less than two speakers' total activity if his total there exceeds the smallest n with n times the audio length at least the mask length times the minimum length, and by his whole column otherwise |
| `Chunking.DivCeilIsLeast` | src/inference/embedding.rs:352 | rounding up gives the least whole number whose product with the divisor reaches the dividend |
| `SpeakerMasks.WriteSpeakerMaskToSlice` | src/pipeline/clustering.rs:397-444 | the fused form reports a speaker active exactly when the two-step form selects weights, writes exactly those weights, and writes nothing else |
| `SpeakerMasks.ActiveIffPositive` | src/pipeline/types/extract.rs:376-390 | testing a mask for a positive entry tells active from inactive speakers |
| `BatchedEmbedding.FlushSplit` | src/pipeline/types/extract.rs:337-362 | exactly the waiting cells are stored, each with its own unbatched embedding |
| `BatchedEmbedding.QueueSpeaker` | src/pipeline/concurrent.rs:99-121 | queuing and flushing, in mid-window too, keep every pending item on its own filterbank and every earlier cell stored or pending |
| `BatchedEmbedding.PushKeepsProgress` | src/pipeline/concurrent.rs:99-104 | a pushed item points at its own filterbank and keeps the account of stored and waiting cells |
| `BatchedEmbedding.ExtractSplit` | src/pipeline/types/extract.rs:126-199 | for every batch size each cell holds the unbatched embedding, inactive cells nothing |
| `BatchedEmbedding.CellIsSelected` | src/pipeline/types/extract.rs:126-199 | the unbatched embedding is that of the window's own audio under the weights selected for the speaker, none where none are |
| `BatchedEmbedding.RunSplit` | src/pipeline/concurrent.rs:50-130 | the streaming run stores the same cells and is cut to the windows received |
| `MultiMask.FlushMultiMask` | src/pipeline/types/extract.rs:364-393 | a flush stores exactly the active cells of its windows with their unbatched embeddings |
| `MultiMask.FlushMultiMaskFlat` | src/pipeline/concurrent.rs:263-300 | the flag-driven flush of the flat buffer stores the same cells |
| `MultiMask.AddWindow` | src/pipeline/types/extract.rs:212-240 | a window's masks and filterbank take the next slots of the batch and leave the earlier ones right |
| `MultiMask.ExtractMultiMask` | src/pipeline/types/extract.rs:201-277 | for every batch size the buffered path stores exactly the unbatched cells |
| `MultiMask.WriteSlot` | src/pipeline/concurrent.rs:192-205 | a slot of the zeroed flat buffer ends with its speaker's mask, other slots untouched, and the flag says whether the mask has a positive entry |
| `MultiMask.RunMultiMask` | src/pipeline/concurrent.rs:132-261 | for every batch size of at least one the streaming path returns exactly the unbatched cells of the windows received |
| `Enumeration.TuplesCount` | src/powerset.rs:63-95 | the number of tuples is the binomial coefficient |
| `Enumeration.TuplesHaveAll` | src/powerset.rs:63-95 | every increasing tuple is listed |
| `Enumeration.TuplesAreOrdered` | src/powerset.rs:63-95 | the list is strictly increasing in lexicographic order, so nothing is listed twice |
| `Enumeration.NoGap` | src/powerset.rs:78-93 | between a tuple and its raised successor there is no other tuple |
| `Enumeration.LimitIsListedLast` | src/powerset.rs:85-87 | a tuple with every position at its limit is the last one |
| `Enumeration.Combinations` | src/powerset.rs:64-95 | the loop terminates and lists exactly the reference enumeration, for every total and size |
| `Powerset.NewMapping` | src/powerset.rs:10-32 | the mapping rows are pairwise distinct and are exactly the binary rows with at most the allowed number of marks, silence first, fewer marks before more, and rows of one size in lexicographic order of their speakers |
| `Powerset.MappingIsUnique` | src/powerset.rs:10-32 | nothing else has those rows in that order, so every class means one set of speakers |
| `Powerset.ArgMax` | src/powerset.rs:50-55 | the last of the largest entries |
| `Powerset.HardDecode` | src/powerset.rs:40-60 | each frame decodes to the mapping row of its last largest logit, a frame without logits to silence |
| `Powerset.EncodeDecoded` | src/powerset.rs:106-125 | encoding inverts decoding on one-hot rows |
| `Powerset.DecodeEncoded` | src/powerset.rs:106-125 | decoding inverts encoding on every binary row with at most the allowed number of marks |
| `Runs.FindRuns` | src/binarize.rs:109-126 | the pairs are the maximal runs of the target value, in order and complete |
| `Binarize.StateIsLatched` | src/binarize.rs:53-66 | with offset at most onset a frame is on exactly if some frame up to it crossed the onset with no later one below the offset |
| `Binarize.LatchedIffOrdered` | src/binarize.rs:53-66 | that reading holds for all scores if and only if the offset is at most the onset |
| `Binarize.CrossedStateSwitches` | src/binarize.rs:53-66 | with the offset above the onset, a score at the offset is on, one below the onset is off, and every score in between switches |
| `Binarize.Hysteresis` | src/binarize.rs:53-66 | the loop computes the state after each frame |
| `Binarize.RemoveShortOn` | src/binarize.rs:68-79 | exactly the frames of active regions of the minimum length stay |
| `Binarize.FillShortOff` | src/binarize.rs:81-93 | exactly the interior gaps below the minimum length are filled |
| `Binarize.SmoothedDurations` | src/binarize.rs:39-43 | after removing and filling every active region and every interior gap has its minimum length |
| `Binarize.SmoothedIsBridgedLong` | src/binarize.rs:39-43 | before padding a frame is on exactly if it lies in a long enough region of the raw hysteresis state or in a short enough stretch between two neighbouring such regions |
| `Binarize.PadRegions` | src/binarize.rs:95-106 | a frame ends active exactly if an active one lies within the padding before or after it |
| `Binarize.Binarize` | src/binarize.rs:33-51 | every column is the padded, smoothed hysteresis of its scores |
| `Binarize.BinarizeIsIdempotent` | src/binarize.rs:33-51 | without padding and with thresholds in (0, 1] a second pass changes nothing |
| `Windows.Collect` | src/inference/segmentation/tensor.rs:60-127 | the windows emitted are as many as the closed form says; each index below the count gives its audio followed by zeros, every other index an error |
| `Windows.WindowSamples` | src/inference/segmentation/tensor.rs:60-127 | sample j of a window is the audio j samples after its start, and zero past the end |
| `Windows.EmittedIff` | src/inference/segmentation/tensor.rs:42-57 | a window is emitted exactly if it is the first of some audio, or starts inside audio longer than a window right after one that was full |
| `Windows.WindowsStartInside` | src/inference/segmentation/tensor.rs:42-57 | every emitted window starts inside the audio |
| `Windows.AllReachedIffStepFits` | src/inference/segmentation/tensor.rs:60-96 | the windows reach every sample of every recording if and only if the step is at most the window |
| `Layout.StartFramesAdvance` | src/pipeline/types/layout.rs:66-72 | starts advance by 59 or 60 frames for one-second steps and 118 or 119 for two-second steps |
| `Layout.StartIsNearest` | src/pipeline/types/layout.rs:66-72 | window k starts at the frame nearest to k steps |
| `Layout.OutputIsNearest` | src/pipeline/types/layout.rs:74-84 | the output ends with the frame nearest to the end of the last ten-second window, and is empty without a window |
| `Layout.WindowsFit` | src/pipeline/types/layout.rs:74-84 | no window reaches past the output frames, so overlap-add drops nothing |
| `Layout.CoveredFrames` | src/pipeline/types/layout.rs:66-88 | an output frame is covered exactly if it lies before the end of the last window, which is all but the last four or five |
| `Reconstruction.RoundIsNearest` | src/reconstruct.rs:250-268 | rounding gives an integer nearer than half by the tolerance, or an even one within the tolerance of a tie |
| `Reconstruction.RoundedIsUnique` | src/reconstruct.rs:250-268 | no other integer has that property |
| `Reconstruction.AddWindow` | src/reconstruct.rs:54-68 | one window adds its activity and its weight to the frames it covers outside the warm-up |
| `Reconstruction.SpeakerCount` | src/reconstruct.rs:43-83 | each frame's count is the rounded mean activity of the windows that cover it, zero where none does |
| `Reconstruction.CountIsRoundedMean` | src/reconstruct.rs:43-83 | a frame's count is the rounded quotient of the total activity of its windows by their number, at least zero, and zero without a window |
| `Reconstruction.BuildClusterMapping` | src/reconstruct.rs:193-204 | each cluster lists exactly its local speakers, in increasing order; unassigned ones are listed nowhere |
| `Reconstruction.StrongestIsMaximum` | src/reconstruct.rs:116-119 | a cluster's score in a window is the maximum of zero and its speakers' activities |
| `Reconstruction.FrameActivations` | src/reconstruct.rs:85-135 | each activation is the sum over covering windows of the cluster's strongest speaker, with enough columns for every frame's count |
| `Reconstruction.ActivationIsTotal` | src/reconstruct.rs:85-135 | an activation is the sum, over the windows that cover the frame outside their warm-up, of the maximum of zero and the cluster's speakers |
| `Reconstruction.ActivationCounts` | src/reconstruct.rs:110-121 | on windows of zeros and ones it is the number of windows in which the cluster talks in that frame |
| `Reconstruction.ColumnsAreNeeded` | src/reconstruct.rs:88-132 | the output has just enough columns for every cluster number and every frame's count |
| `Reconstruction.TopK` | src/reconstruct.rs:206-218 | k distinct columns, each with a larger score than every other column or an equal one further left |
| `Reconstruction.Reconstruct` | src/reconstruct.rs:137-146 | every frame marks exactly as many clusters as it has speakers, the most active ones |
| `Reconstruction.BinaryFrameIsMajority` | src/reconstruct.rs:137-146 | on windows of zeros and ones a marked cluster talks in more windows than an unmarked one, or in as many and is further left |
| `Reconstruction.ConsistentIffNoSlip` | src/reconstruct.rs:236-245 | the smoothed comparison is a consistent order exactly when no three scores step down by less than the tolerance twice and by at least the tolerance together without a speaker of the previous frame to decide it |
| `Reconstruction.ActivationIsWhole` | src/reconstruct.rs:110-121 | on windows of zeros and ones every activation is a whole number |
| `Reconstruction.WholeIsConsistent` | src/reconstruct.rs:236-245 | on whole scores and a tolerance of at most one the comparison is always consistent |
| `Reconstruction.BinaryChoiceFavours` | src/reconstruct.rs:148-167 | on windows of zeros and ones and a tolerance of at most one every chosen cluster scores at least as much as every unchosen one, ties going to the speakers of the previous frame and then to the left |
| `Reconstruction.SmoothedTopK` | src/reconstruct.rs:220-248 | k distinct columns, in the comparison's order wherever it is consistent, tied columns from left to right |
| `Reconstruction.SmoothedIsTopK` | src/reconstruct.rs:236-248 | where scores are at least the tolerance apart smoothing changes nothing |
| `Reconstruction.ReconstructSmoothed` | src/reconstruct.rs:148-167 | every frame marks exactly as many clusters as it has speakers, each choice made with the previous frame's speakers; on windows of zeros and ones the choice is the strongest one, ties going to those speakers |
| `SegmentExtraction.ColumnSegments` | src/segment.rs:52-82 | one segment for each maximal active run, ending at the first inactive or the last frame; durations add up to a step for each active frame but the last |
| `SegmentExtraction.ActiveIsLatched` | src/segment.rs:60-78 | a speaker is active exactly if his column was above one half and has not been below it since |
| `SegmentExtraction.MiddleOfFrame` | src/segment.rs:89-91 | a frame's time lies halfway between its start and its end |
| `SegmentExtraction.LabelsDiffer` | src/segment.rs:53 | different speakers have different labels |
| `SegmentExtraction.LabelIsPadded` | src/segment.rs:53 | a label is the fixed word and the speaker's number in decimal, padded to two digits |
| `SegmentExtraction.ToSegments` | src/segment.rs:44-87 | segments sorted by start, of those that start together the smaller speaker number first, and for a positive frame step each speaker's are those of his column and no others, their durations a step for each active frame but the last |
| `SegmentExtraction.SpeakerDuration` | src/segment.rs:44-87 | on binary activations each speaker's segments last the frame step times his frames at 1, the last frame excluded |
| `SegmentExtraction.SortOfSpeaker` | src/segment.rs:85 | the stable sort keeps each speaker's own segments in the order a sort of them alone would |
| `SegmentExtraction.SegmentsAreDisjoint` | src/segment.rs:44-87 | no two segments of one speaker overlap or touch |
| `SegmentMerging.MergeSegments` | src/segment.rs:94-114 | the loop computes the left-to-right merge |
| `SegmentMerging.MergedIsDisjoint` | src/segment.rs:94-114 | merging keeps segments sorted and disjoint for each speaker |
| `SegmentMerging.MergedCovers` | src/segment.rs:94-114 | a speaker is covered afterwards exactly where he was before or in a gap below the limit between neighbouring segments of his |
| `SegmentMerging.MergedUnchangedIff` | src/segment.rs:94-114 | for every input and every gap limit the list stays as it is, and as long as it is, exactly when no segment follows one of its own speaker across a gap below the limit |
| `SegmentMerging.MergedWithoutGap` | src/segment.rs:101-104 | segments that are disjoint for each speaker, as extraction yields them, stay as they are under gap limit 0 |
| `SegmentMerging.MergedAreChains` | src/segment.rs:99-111 | for every input the result is one segment for each maximal chain of bridged neighbours, from the start of its first to the end of its last |
| `SegmentMerging.LosesNothingIff` | src/segment.rs:94-114 | for segments of any speakers sorted by start and any gap limit, it is enough to look at chain ends: no covered time is lost exactly when the merged list covers every chain end that lies inside a segment of its speaker |
| `SegmentMerging.LosesNothingIffChainsEndLast` | src/segment.rs:94-114 | for one speaker and a positive gap limit, no covered time is lost exactly when no segment ends after the last one of its chain |

## Left out

- Neural models, ONNX Runtime and CoreML sessions, filterbank assembly from audio segments: each is a function of its own inputs; in the chunk pipeline one chunk's rows depend on that chunk's filterbank, and both paths cut the same chunks.
- Floating-point rounding, infinities and NaN: reals, an extended value for the solver's infinity, an option for missing embeddings. The epsilon in `round_ties_even` is kept.
- VBx, PLDA, cosine similarity, linkage and centroids: similarities and dendrograms are inputs; the dendrogram is assumed well-formed, as the linkage library promises.
- Errors, panics and early returns of the chunk pipeline and of the sequential loop, timing, tracing and statistics; windows arrive in order from segmentation.
- `run_masked` in `src/pipeline/concurrent.rs` and `extract_masked_embeddings`: they batch as the modelled paths do, without shared buffers.
- RTTM, WAV and TextGrid text, configuration checks, command line, downloads and benchmarks.
- `make_exclusive`, `mark_inactive_speakers` and the training-set selection: single passes without interplay.
- Library sorts are insertion sorts (stable) in `Coverage`, `SegmentExtraction` and `Reconstruction`, and an arbitrary stable sort that honours consistent comparisons in `Reconstruction.ReconstructSmoothed`.
- ErrorRate.ComputeDer: for an empty reference the false alarm is the sum of the durations, as in the code, and is kept out of the accounting theorems.
- BatchCollection.RunBatch: every file has at least one window, which the caller checks; what post-inference makes of a file's artifacts is not modelled.
- ChunkRun.CollectPrepared: for a prediction with a mask for every window and speaker of a chunk; `ChunkPreparation.CollectChunkMasks` says what a smaller one drops.
- CollectorLoops.RunPipelined: the arrays are allocated before the first chunk arrives rather than at it, and the final cut to the used slots is the `used` field; `chunk_embedding`'s two single-file loops fill the arrays of a `FileCollector` where the code has two local arrays.
- BatchedEmbedding.RunSplit: the arrays are allocated up front rather than at the first window or flush.
- AssignmentSearch.BestAssignment: scores are all finite or all minus infinity, the two cases its caller leaves after masking.
- MultiMask.RunMultiMask: the frame count of the first window is a parameter, and all windows have it.
- JobQueue.BatchReportsAll: the chunked path keeps one result slot for each file, as `BatchCollection.RunBatch` shows; the outcomes themselves are parameters.
- ChunkPipeline.MaximalRunsDeliverAll: for at least one preparation worker; configurations offer one, two or four.
- JobQueue.AcceptedIdsDiffer: holds for the first 2^64 tickets, after which the counter wraps; no bound on the size of a drained batch is claimed.
- SegmentExtraction.ToSegments: for a frame step that is not positive only the order of the segments is stated.
- Layout.StartFramesAdvance: only the one- and two-second steps that the configurations use.
- SegmentMerging.LosesNothingIff: its condition is coverage of the merged list itself, reduced to the chain ends; only `SegmentMerging.LosesNothingIffChainsEndLast`, for one speaker and a positive limit, reads off the given segments.
- Reconstruction.SmoothedTopK: the order the library sort leaves is a parameter, because a comparison that is not consistent leaves it open; `Reconstruction.WholeIsConsistent` shows that decoded windows never make it so.
- SegmentMerging.MergedCovers: for sorted segments that are disjoint for each speaker, which is what extraction yields.
- Reconstruction.Reconstruct: clusters are always supplied; without them the code has no columns to mark.
