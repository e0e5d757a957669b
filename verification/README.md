# Acceptance tooling: models and proofs

The repository's acceptance scripts decide whether a build is good. This project models the parts of
those scripts that carry an argument, and proves the arguments. Code that changes state is modelled by
classes and by methods with loops, each proved against a specification that says what it means; the
laws of the specifications are lemmas.

| module | what it is about |
|---|---|
| `CommitGraph` | selecting a first-parent range, or the last n commits, of a history |
| `Replay`, `ReplayMeaning` | replaying first-parent diffs onto another, dirty repository; what that means for trees, index and worktree, and when it succeeds |
| `CompareStep`, `ReplayOracle` | comparing a snapshot with the expected outcome of a step; a replay's report as that outcome |
| `FastImport`, `GitBatch`, `StatusRows` | the fast-import printer; the readers of `cat-file --batch`, `diff-tree -z --raw` and `status --porcelain=v2 -z` |
| `DebugString` | the selector filter line and the search that recognises one query in it |
| `Frames`, `Relay` | length-prefixed frames under short reads; two relay threads and their shared meter |
| `OutputMonitor`, `PipeReader`, `TickLoop`, `TickMeaning`, `ProcessTree` | the memory harness: bounded marker search, reading a pipe into it, the sampling loop and when it ends how, the process-tree search |
| `Trend`, `Trace` | the leak gate: least-squares trend with heap correction; emission order and order checks |
| `Workload`, `Shards` | generated benchmark histories; shard coverage and merging |
| `Prelude`, `Text`, `Utf8` | options, results, lists and bytes; decimal numbers, fields and splitting; UTF-8 |

Seven promises turned out to hold only under a condition. The code is modelled as it is; each case has an
input that shows the failure and a lemma that says exactly when the promise holds.

- "A readiness marker on the wrong exe fails." The loop looks for the marker twice per tick, only in valid
  samples, and checks the binary only at the first look. While a known wrong binary runs, the run fails for its
  readiness exactly when the sample is valid and the first look sees the marker (`TickLoop.MarkerOnWrongExe`).
  Readiness is set on a wrong binary exactly at a tick that shows that binary throughout a valid sample and the
  marker at the second look only (`TickLoop.WrongReadiness`, `TickLoop.ReadinessCertifiesExe`). The runs in
  `TickLoop.MarkerBetweenLooks` and `TickLoop.MarkerOnUnreadableTick` finish although the launcher showed the
  marker.
- The marker search sees only what is kept of a chunk. For chunks of given lengths it is exact, whatever they
  contain, exactly when no chunk is longer than the log limit or the limit is 0 (`OutputMonitor.ExactIffUncut`;
  hidden markers in `OutputMonitor.HidingChunkHides` and `OutputMonitor.OversizedChunkHidesMarker`).
- The reader of a pipe stays within that limit but decodes each read on its own. A marker is found exactly when
  its bytes were printed, for every output and every cutting into reads, exactly when it is ASCII
  (`PipeReader.ExactIffAscii`; a lost marker in `PipeReader.SplitMarkerIsLost`, a false one in
  `PipeReader.FalseMarkerIsFound`).
- A legal range need not be replayable although the destination holds every copyable file of the base: a
  skipped binary file that is later renamed while it becomes text makes `git add` fail
  (`ReplayMeaning.RenameFromBinaryFails`). `ReplayMeaning.RangeReplays` says exactly when such a range
  replays, in terms of the records and the destination before the replay.
- A file step accepts what its own operations leave exactly when every path it deletes is in the index
  (`CompareStep.OwnFileStepAccepted`): a deleted untracked file is expected among the absent paths, where no
  snapshot lists it (`CompareStep.UntrackedDeleteFails`).
- "Exactly num_commits commits" holds if and only if at least five are asked for, because the loop after
  the merge always adds one; files likewise from eight on (`Workload.RequestedCounts`; four give five in
  `Workload.FourCommitsGiveFive`).
- Running and merging shards 1/n to n/n passes exactly when there are no more shards than steps
  (`Shards.AllShardsPass`, `Shards.MergedShardsComplete`): a shard without steps passes no step list on and runs
  every step again (`Shards.TwoShardsOfOneStep`).

Text is a sequence of characters; where the program works on bytes a character stands for one byte, and
the theorems hold for all character strings. Git commands are specified by what they are documented to
do. Time, process listings, marker visibility, read sizes and thread schedules are inputs.

## Model

| member | source | states |
|---|---|---|
| CommitGraph.SelectRange | scripts/collaboration_fixture.py:1105-1142 | in every acyclic history the range is legal exactly when the base is a proper first-parent ancestor of the tip; the ids are then that chain, oldest first; the reason, merge and root flags are exact, and a legal range never includes a root |
| CommitGraph.LegalIffAncestor | scripts/collaboration_fixture.py:1127-1132 | comparing only the oldest line's first parent with the base decides ancestry, both ways |
| CommitGraph.ChainIsTheWalk | scripts/collaboration_fixture.py:1108 | if some first-parent chain leads from tip to base, the rev-list walk lists exactly it, although the walk stops at commits reachable through any parent |
| CommitGraph.WalkIsAChain | scripts/collaboration_fixture.py:1127-1131 | a walk whose oldest commit has the base as first parent is a first-parent chain down to the base |
| CommitGraph.ChainAt | scripts/collaboration_fixture.py:1128-1129 | in a selected chain each commit's first parent is the commit before it, the oldest one's is the base |
| CommitGraph.RootIsOldest | scripts/collaboration_fixture.py:1141 | only the oldest listed commit can be a root |
| CommitGraph.RevListExists | scripts/collaboration_fixture.py:1108 | the rev-list specification always has an output in an acyclic history |
| CommitGraph.SelectLast | scripts/collaboration_fixture.py:1145-1173 | legal exactly when the tip's first-parent line has the asked number of commits and does not run into a shallow cut; the ids are that line |
| CommitGraph.LastFromTip | scripts/collaboration_fixture.py:1150 | `-n count` lists count commits exactly when the line is that long |
| Replay.Scratch.ApplyRecord | scripts/collaboration_fixture.py:1268-1299 | one record changes the worktree by exactly its effect; skipped records change nothing and are reported with the reason |
| Replay.Scratch.ApplyRecords | scripts/collaboration_fixture.py:1266-1299 | all records of a commit change the worktree by their joined effects, and the named paths are exactly the affected ones |
| Replay.Scratch.StageAndCommit | scripts/collaboration_fixture.py:1300-1344 | staging and committing only the named paths succeeds exactly when the message is non-empty, every removal is known to index and HEAD, and the held file stays out; HEAD and index then change by the same effects |
| Replay.Scratch.ReplayCommit | scripts/collaboration_fixture.py:1245-1358 | one source commit: HEAD, index and worktree all change by its effects, one created commit carries its message and author |
| Replay.StageFacts | scripts/collaboration_fixture.py:1305-1323 | `add -A` and `commit --only` on the named paths amount to the same overlay on index and HEAD, although both start from other contents than the worktree |
| Replay.ApplyTwice | scripts/collaboration_fixture.py:1268-1299 | applying effects one after the other is applying their join, later ones winning |
| Replay.SkipReasonIs | scripts/collaboration_fixture.py:1213-1292 | a record is not copied as "unsupported-type" exactly when a mode that counts for its status is that of a symbolic link or a submodule; else as "binary" exactly when a NUL stands anywhere in its bytes; else as "non-utf8" exactly when they are not the encoding of any text; else it is copied |
| Replay.RecordMeaning | scripts/collaboration_fixture.py:1268-1299 | files change exactly when none of the three holds, by the removal of the path, the move of the old path or the new bytes |
| Utf8.ValidIffText | scripts/collaboration_fixture.py:1216-1219 | strict decoding succeeds exactly on the encodings of texts, and then gives that text |
| Replay.ReplayCommits | scripts/collaboration_fixture.py:1235-1371 | a whole replay succeeds exactly on the replayable sequences; HEAD, index and worktree end as the old ones under all effects, the i-th created tree as the old HEAD under the first i+1; the untouched check at the end never raises |
| Replay.AssertUntouched | scripts/collaboration_fixture.py:1415-1443 | accepts exactly when worktree files and index entries, stages included, agree outside the applied paths |
| Replay.KeptEntriesEqual | scripts/collaboration_fixture.py:1435-1443 | comparing the filtered index maps is comparing every entry outside the applied paths |
| Replay.UntouchedAfterApply | scripts/collaboration_fixture.py:1363 | a replay changes no worktree file and no index entry outside its applied paths |
| ReplayMeaning.EffectsAreNewContent | scripts/collaboration_fixture.py:1268-1299 | exactly the paths of copied records are affected, and the effect is the path's content in the source commit, removal included |
| ReplayMeaning.ReplayFollowsTip | scripts/collaboration_fixture.py:1235-1371 | HEAD holds the source tip's content at every path whose last change was copied, or that never changed and agreed at the start |
| ReplayMeaning.LegalRangeReplay | scripts/collaboration_fixture.py:1105-1142 | selection and replay together: a legal range replayed onto any destination leaves the tip's content at every such path |
| ReplayMeaning.ReplayFromBaseIsExact | scripts/collaboration_fixture.py:1335-1358 | from the base tree with nothing skipped, every created commit's tree has the contents of its source commit's tree, and is that tree if all its files are regular (mode 100644); nothing is reported as not copied |
| ReplayMeaning.UncopiedPathStays | scripts/collaboration_fixture.py:1268-1323 | a path no copied record names keeps its content, or its absence, in HEAD, index and worktree |
| ReplayMeaning.StagedOnlyFileStays | scripts/collaboration_fixture.py:1342-1344 | a file staged but absent from HEAD and from the copied records stays staged and enters no created tree |
| ReplayMeaning.AppliedPathsEndClean | scripts/collaboration_fixture.py:1305-1323 | on every applied path HEAD, index and worktree agree in the end |
| ReplayMeaning.RangeReplays | scripts/collaboration_fixture.py:1245-1344 | onto a destination that knows the copyable files of the base, a range replays exactly when every message is non-empty, the old path of each copied rename from an uncopyable file is still there in HEAD and index, and the held file stays out of every new tree; all of it read off the records and the destination before the replay |
| ReplayMeaning.CopyableRangeReplays | scripts/collaboration_fixture.py:1245-1344 | without such renames and with the held file not involved, only the messages decide |
| ReplayMeaning.StaysIsApplied | scripts/collaboration_fixture.py:1268-1299 | whether a path is there after any part of the range is foretold by the records and the files before it |
| ReplayMeaning.KnowsAlong | scripts/collaboration_fixture.py:1245-1323 | after every part of the range the destination knows the copyable files of the source side |
| ReplayMeaning.RemovalsAreKnown | scripts/collaboration_fixture.py:1272-1296 | one commit's removals name paths that the destination has exactly when it has the old paths of its renames from uncopyable files |
| ReplayMeaning.KnowsIsKept | scripts/collaboration_fixture.py:1268-1323 | each replayed commit keeps the destination knowing the copyable files of the source side |
| ReplayMeaning.RenameFromBinaryFails | scripts/collaboration_fixture.py:1289-1306 | without the rename condition the replay fails: a concrete two-commit history |
| CompareStep.NewCommits | scripts/collaboration_fixture.py:2399-2415 | succeeds exactly when a finite chain of at most 20 commits leads from HEAD to the baseline or off a root, and returns it oldest first |
| CompareStep.LoopNeverEnds | scripts/collaboration_fixture.py:2405-2406 | a commit met twice means that no finite chain exists, so refusing is right |
| CompareStep.LeadsIsPrefix | scripts/collaboration_fixture.py:2404-2413 | what has been walked is a prefix of every chain from HEAD |
| CompareStep.ChainIsUnique | scripts/collaboration_fixture.py:2399-2415 | there is at most one chain |
| CompareStep.ChainPlaces | scripts/collaboration_fixture.py:2399-2415 | a chain, place by place: it goes on from the head and then from the first of each commit's parents, and ends exactly at the baseline or after a root |
| CompareStep.LastWithId | scripts/collaboration_fixture.py:2400 | the walk knows exactly the ids of the listed commits, and an id stands for the last commit listed with it |
| CompareStep.ApplyFileDelta | scripts/collaboration_fixture.py:2377-2396 | the last operation on a path decides its row and its absence; everything else is kept |
| CompareStep.FileOutcomeIsUnique | scripts/collaboration_fixture.py:2377-2396 | that description determines the file listing |
| CompareStep.OwnFileStepAccepted | scripts/collaboration_fixture.py:2456-2459 | a file step accepts the snapshot its own operations leave exactly when every path deleted last is in the index |
| CompareStep.UntrackedDeleteFails | scripts/collaboration_fixture.py:1524-1537 | deleting an untracked file, which making a step allows, leaves a snapshot the step refuses |
| CompareStep.Compare | scripts/collaboration_fixture.py:2418-2493 | accepts exactly: the full baseline for no-write steps, the file outcome for file steps, the replayed chain with index, worktree, refs and all other repositories unchanged for commit steps |
| CompareStep.NothingWritten | scripts/collaboration_fixture.py:2436-2449 | before the action, and for a step that writes nothing, exactly one snapshot is accepted: the one taken before if it is given, else the manifest's, and none where a strict step needs the one taken before |
| CompareStep.CompareCommitStep | scripts/collaboration_fixture.py:2462-2493 | accepts exactly when some chain of at most 20 single-parent commits with the expected trees, authors and messages, none with its source's id, stands between HEAD and the baseline, and branch, index, files and refs are as expected |
| CompareStep.AcceptedReachesBaseline | scripts/collaboration_fixture.py:2450-2493 | an accepted step really reaches the baseline HEAD, through exactly the expected commits in order, although the walk also ends at a root |
| ReplayOracle.OwnReplayAccepted | scripts/collaboration_fixture.py:1703-1758 | the step made from a replay's report accepts the snapshot that replaying the same commits leaves on the real destination, exactly up to 20 commits with no id equal to its source's |
| ReplayOracle.AcceptedCarriesReplay | scripts/collaboration_fixture.py:2418-2493 | whoever made it, an accepted snapshot has one new commit per source in order, each with its source's message and author and the tree that replaying up to it gives; index and worktree are the old ones under all effects |
| ReplayOracle.AcceptedFollowsTip | scripts/collaboration_fixture.py:2418-2493 | if tree ids identify trees, an accepted HEAD holds the source tip's content at every path whose last change was copied, or that never changed and agreed at the start |
| ReplayOracle.AcceptedFromBaseIsExact | scripts/collaboration_fixture.py:2418-2493 | if the destination started at the base with nothing to skip, each accepted commit holds exactly its source commit's contents |
| Replay.ReplayedIsUnique | scripts/collaboration_fixture.py:2353-2364 | two replays of the same commits onto the same destination report the same, as the comparison with a fresh replay expects |
| OutputMonitor.BoundedOutputMonitor.AddChunk | scripts/memory_harness.py:116-139 | after any sequence of chunks the flag says whether the marker is in the whole kept output, the log is the longest run of recent chunks that fits, its total is its length, and the tail stays bounded |
| OutputMonitor.BoundedOutputMonitor.UpdateLog | scripts/memory_harness.py:124-130 | dropping oldest chunks after each append leaves the same as choosing from all chunks ever kept |
| OutputMonitor.BoundedOutputMonitor.UpdateTail | scripts/memory_harness.py:132-139 | the flag and the bounded tail speak for the whole output |
| OutputMonitor.BoundedOutputMonitor.IsMarkerFound | scripts/memory_harness.py:141-143 | answers for the whole kept output |
| OutputMonitor.RecentIsLongest | scripts/memory_harness.py:124-130 | what is left after dropping is a run of most recent chunks that fits the limit, and one chunk more would not fit |
| OutputMonitor.ClampMeaning | scripts/memory_harness.py:120-122 | an oversized chunk keeps exactly its last characters up to the limit; at limit 0 it stays whole, and a negative limit drops characters from its front |
| OutputMonitor.TailSearch | scripts/memory_harness.py:133-139 | looking for a new occurrence in a tail at least as long as the marker finds exactly what looking in the whole output would find |
| OutputMonitor.ExactIffUncut | scripts/memory_harness.py:116-139 | for chunks of given lengths the search is exact for all contents and all non-empty markers exactly when no chunk is longer than the limit or the limit is 0 |
| OutputMonitor.UncutIsExact | scripts/memory_harness.py:116-139 | with chunks that are kept whole a non-empty marker is found exactly when it is a substring of the whole output |
| OutputMonitor.HidingChunkHides | scripts/memory_harness.py:120-122 | a chunk of any oversized length, among others of any lengths, can hold a marker that is not found |
| OutputMonitor.CuttingIsIrrelevant | scripts/memory_harness.py:116-139 | two cuttings of one text into chunks that fit give the same verdict |
| OutputMonitor.OversizedChunkHidesMarker | scripts/memory_harness.py:120-122 | for every marker and positive limit some oversized chunk contains the marker and hides it |
| PipeReader.StreamChunkReader | scripts/memory_harness.py:904-914 | reads of at most 4096 bytes, each decoded on its own, against the default log of 65536: the marker is found exactly when it is in the decoded output, an ASCII marker exactly when its bytes were printed; the log is the longest fitting run of reads |
| PipeReader.ExactIffAscii | scripts/memory_harness.py:908-914 | found exactly when the marker's bytes were printed, for every output and every cutting into reads, exactly when the marker is ASCII |
| PipeReader.AsciiIsExact | scripts/memory_harness.py:908-914 | an ASCII marker is in the decoded reads exactly when its bytes are in the output |
| PipeReader.SplitMarkerIsLost | scripts/memory_harness.py:908-914 | a marker with a character beyond ASCII (and other than U+FFFD), printed and read byte by byte, is not found |
| PipeReader.FalseMarkerIsFound | scripts/memory_harness.py:913 | a marker whose characters beyond ASCII are U+FFFD is found in bytes that are not UTF-8 |
| PipeReader.ByteCutsAgree | scripts/memory_harness.py:908-914 | for an ASCII marker two cuttings of the same bytes give the same verdict |
| PipeReader.DecodeReads | scripts/memory_harness.py:913 | decoding gives each ASCII byte by itself and each other character from bytes beyond ASCII |
| Utf8.DecodeEncode | scripts/memory_harness.py:913 | decoding an encoded text gives back the text, for all Unicode scalar values |
| TickLoop.Run | scripts/memory_harness.py:1037-1264 | a run ends with the verdict of its last tick, every earlier tick let it go on, and its samples are those the whole past defines; after the loop it fails if the expected binary was never seen or no sample is steady, and never for lack of samples or for a sample on a wrong binary |
| TickLoop.Loop.Pass | scripts/memory_harness.py:1038-1195 | one pass decides as the specification does from the whole past, and keeps the running variables in step with it |
| TickLoop.Loop.BrokenTick | scripts/memory_harness.py:1074-1106 | a tick whose identity changed yields no sample, may note that the expected binary was entered, refuses an unexpected one and may time out |
| TickLoop.Loop.StableTick | scripts/memory_harness.py:1108-1193 | a stable tick: unexpected binaries, readiness timeout and the end of the steady time |
| TickLoop.Loop.Measure | scripts/memory_harness.py:1123-1181 | the unreadable budget, the marker on a wrong binary, the sample and readiness |
| TickMeaning.Failures | scripts/memory_harness.py:1038-1192 | deadline, crash, unexpected binary, unreadable budget and wrong readiness: each is a tick's verdict exactly when its own condition on the observations holds and no earlier one does |
| TickMeaning.ClockDecides | scripts/memory_harness.py:1183-1193 | a tick times out exactly when it is free of those failures, readiness is unset after it and the readiness timeout is over; it finishes the run exactly when it is stable, free of them, readiness is set and the steady time is over; else the run goes on |
| TickMeaning.UnreadyIsInTime | scripts/memory_harness.py:1183-1192 | as long as a run goes on and readiness is unset, no tick stands beyond the readiness timeout |
| TickMeaning.Labels | scripts/memory_harness.py:780-803 | each label of a sample exactly by what was observed up to it: binary, readiness, the gate's publication and the sight of the expected binary |
| TickLoop.LaunchExcludesPreReady | scripts/memory_harness.py:780-803 | launch and pre-ready samples never both occur in a run |
| TickLoop.SteadyIsLast | scripts/memory_harness.py:780-803 | no launch or pre-ready sample follows a steady one |
| TickLoop.LaunchNeedsGateAndTransition | scripts/memory_harness.py:790-803 | with an expected binary a launch sample needs a gate published on another binary and a tick no later than the sample that saw the expected one |
| TickLoop.SampleSource | scripts/memory_harness.py:1068-1178 | every sample comes from one tick that saw one process and one binary before and after it |
| TickLoop.ReadySample | scripts/memory_harness.py:1159-1181 | the tick that set readiness is the first that could, and appended a sample that is not steady |
| TickLoop.FinishedRun | scripts/memory_harness.py:1180-1233 | a finished run ends at least the steady time after the sample that set readiness, saw the expected binary and has a steady sample |
| TickLoop.WrongReadiness | scripts/memory_harness.py:1145-1181 | a tick sets readiness on a wrong binary and the run goes on exactly when it is in time, not ready before, and shows a known wrong binary throughout a valid sample with the marker at the second look only |
| TickLoop.MarkerOnWrongExe | scripts/memory_harness.py:1123-1151 | while a known wrong binary runs and nothing is ready, the tick fails for a wrong readiness exactly when its sample is valid and the first look sees the marker |
| TickLoop.MarkerOnUnreadableTick | scripts/memory_harness.py:1123-1147 | a run that finishes although both looks of an unreadable tick on the launcher would have seen the marker; no gap tick occurs |
| TickLoop.ReadinessCertifiesExe | scripts/memory_harness.py:1145-1181 | in every run that has not failed, readiness certifies the expected binary exactly when the tick that set it is no such tick |
| TickLoop.SteadyIffSampled | scripts/memory_harness.py:1226-1233 | a run has a steady sample exactly when some tick after readiness was sampled on the target |
| TickLoop.SampleExe | scripts/memory_harness.py:1259-1264 | every sample not labelled launcher-setup ran the expected binary, so that check never raises |
| TickLoop.MarkerBetweenLooks | scripts/memory_harness.py:1145-1181 | a marker that appears between the two looks is accepted on the launcher, and the run finishes |
| TickLoop.UnreadableBudget | scripts/memory_harness.py:1123-1144 | a run that goes on never has more than ten unreadable samples in a row |
| ProcessTree.TreePids | scripts/memory_harness.py:162-216 | terminates and returns, without duplicates, exactly the processes reachable through live processes; unreadable are exactly their dead children, once each, and in strict mode the processes whose children cannot be told |
| ProcessTree.GetTreePids | scripts/memory_harness.py:162-234 | the group scan adds exactly the other live processes of the group, without duplicates |
| ProcessTree.Search.VisitProcess | scripts/memory_harness.py:181-216 | one process: its live unvisited children are queued, all its children become visited |
| ProcessTree.TreeIsReachable | scripts/memory_harness.py:180-205 | the least closed set is what paths of live children reach |
| ProcessTree.ExploreOne | scripts/memory_harness.py:180-205 | searching one more process keeps searched and waiting processes inside the least closed set |
| ProcessTree.ExploredIsTree | scripts/memory_harness.py:180-216 | with nothing waiting, that set is the tree and the report is exact |
| Frames.ReadExact | scripts/bench_remote_paste.py:217-228 | whatever the reads return: the next bytes, nothing at the end, an error part way |
| Frames.ReadFrame | scripts/bench_remote_paste.py:231-241 | reads what the format says is next, with all its error cases, and consumes exactly that |
| Frames.ReadAll | scripts/bench_remote_paste.py:317-340 | reading until there is no frame succeeds exactly on the bytes of a list of frames, and yields it |
| Frames.EncodeThenParse | scripts/bench_remote_paste.py:319 | a written frame is read back, whatever follows |
| Frames.ParseIsEncode | scripts/bench_remote_paste.py:231-241 | a frame that was read is exactly the bytes consumed |
| Frames.PrefixCode | scripts/bench_remote_paste.py:231-241 | frame lists are a prefix code: a byte stream has one reading |
| Frames.CutBetweenFrames | scripts/bench_remote_paste.py:223-227 | a cut stream reads cleanly only if it was cut between two frames |
| Frames.Be32RoundTrip | scripts/bench_remote_paste.py:235 | the four length bytes determine the length |
| Relay.Meter.Count | scripts/bench_remote_paste.py:293-303 | the meter always shows, per direction, length plus four summed and kinds counted over the frames metered since the start event |
| Relay.PlanFrames | scripts/bench_remote_paste.py:36 | what starts a warm count: one of the four plan kinds, on the way up |
| Relay.ForwardedBytes | scripts/bench_remote_paste.py:317-349 | under every interleaving of the two threads what one has written is a prefix of its input bytes, and all of them once it is done |
| Relay.RunKeeps | scripts/bench_remote_paste.py:317-349 | every reachable state: metered and pending frames are the input, and written bytes are the metered frames up to the one in hand |
| Relay.WarmUploadCount | scripts/bench_remote_paste.py:293-303 | a warm upload count depends only on the upload's own order, not on the interleaving |
| Relay.ColdRunMetersForwardedBytes | scripts/bench_remote_paste.py:293-349 | a cold run's count is the number of bytes forwarded, per direction |
| Relay.WarmRunMetersFromPlan | scripts/bench_remote_paste.py:293-303 | a warm run's upload count is that of the frames from the first plan frame on |
| Trend.SlopePlus | scripts/check_native_leaks.py:289-298 | the slope of a sum of series is the sum of the slopes |
| Trend.SlopeAffine | scripts/check_native_leaks.py:289-298 | data affine in the switch count with coefficient k has slope exactly k |
| Trend.NoSpread | scripts/check_native_leaks.py:294-296 | the variance vanishes exactly when all switch counts are equal |
| Trend.SlopeIgnoresOrder | scripts/check_native_leaks.py:471-474 | sorting the rows does not change the slope |
| Trend.HeapUntouched | scripts/check_native_leaks.py:445-454 | for each sample the reserve of its last usable row, and none for the others |
| Trend.TrendIsSum | scripts/check_native_leaks.py:457-474 | the trend is the slope of memory plus the slope of untouched heap |
| Trend.ConstantHeapSpan | scripts/check_native_leaks.py:457-474 | with a constant heap span the trend is the slope of everything but the heap, however heap pages become resident |
| Trend.LeakShowsAsItsRate | scripts/check_native_leaks.py:457-474 | a steady leak of k per switch shows as k |
| Trend.TrendExists | scripts/check_native_leaks.py:457-474 | there is a trend exactly when every sample has its heap row and two samples differ in switches |
| Trace.OrderViolation | scripts/check_native_leaks.py:735-801 | the checks report a violation exactly when the rows are not in the specified order |
| Trace.TerminalCheck | scripts/check_native_leaks.py:749-772 | after the terminal sample only a quit row, and in a long run extension and final samples; at most one quit row; no final sample before it |
| Trace.FinalCheck | scripts/check_native_leaks.py:773-789 | the span of the final samples, row kind by row kind |
| Trace.EndpointCheck | scripts/check_native_leaks.py:742-748 | every endpoint that claims k switches stands after the k-th measured action |
| Trace.Drive | scripts/check_native_leaks.py:2099-2307 | a completed run emits exactly the rows of some script that fits what was asked for: clipboard, warm-up batches, baseline window, measured batches, tab-cycle batches up to an error if there was one, their note and the other notes, clipboard or note, settle samples, terminal sample, extension and final window of a long run, quit; its endpoints are one after every tenth measured switch and one after the last, each claiming exactly the measured switches before it, and its tab endpoints one per measured tab batch that was completed |
| Trace.Recorder.TabCycles | scripts/check_native_leaks.py:2197-2217 | warm-up tab cycles then measured ones in batches of five, at least three samples each, the last a tab endpoint when measured; after an error what had been emitted by then |
| Trace.Recorder.Emit | scripts/check_native_leaks.py:2117-2121 | each row takes the next sequence number and keeps the trace staged |
| Trace.Recorder.Batch | scripts/check_native_leaks.py:2173-2190 | appends the clicks of one batch and at least three samples, the last one an endpoint that claims exactly the switches done |
| Trace.Recorder.Phase | scripts/check_native_leaks.py:2161-2190 | appends batches of ten, the last one with the rest, until exactly the switches asked for are done |
| Trace.RunClaims | scripts/check_native_leaks.py:2173-2217 | the endpoints and tab endpoints of a script's rows, with what each claims and how many measured actions stand before it: as many as batches, none in the warm-up, none after the measured switches or the tab cycles |
| Trace.CompletedRunPasses | scripts/check_native_leaks.py:2099-2307 | every trace a completed run can emit passes all order checks, has one terminal sample and at most one clipboard row of each phase |
| Trace.ShortPassingTrace | scripts/check_native_leaks.py:749-766 | in a short profile a passing trace with one terminal sample has at most one row after it, a quit row |
| Trace.PassingEndpoints | scripts/check_native_leaks.py:742-748 | in a passing trace an endpoint claiming k stands after the k-th entry of the list of measured actions |
| FastImport.StreamRoundTrip | scripts/collaboration_fixture.py:355-406 | reading a whole printed stream by exact byte counts gives back its commands, whatever the payloads hold |
| FastImport.CommitRoundTrip | scripts/collaboration_fixture.py:364-399 | one printed commit is read back with mark, identities, message, parent, merges and changes |
| FastImport.DataRoundTrip | scripts/collaboration_fixture.py:355-356 | a payload is read back by its count, also when it is not newline-terminated or looks like commands |
| FastImport.ResetRoundTrip | scripts/collaboration_fixture.py:401-402 | a reset is read back and is not taken for a commit |
| FastImport.Stream.Commit | scripts/collaboration_fixture.py:364-399 | appends exactly the printed commit of the call, under a fresh mark: the deletes then the files in order, the message with a newline added if it does not end in one, the parents as given, signed by the four authors in turn at the pair's day and the commit's hour and by the committer a minute later |
| FastImport.Stream.Reset | scripts/collaboration_fixture.py:401-402 | appends exactly the printed reset and no mark |
| FastImport.Stream.Finish | scripts/collaboration_fixture.py:404-406 | the finished bytes read back as exactly the calls made |
| FastImport.CommitIsPrintable | scripts/collaboration_fixture.py:378-399 | every call with one-line refs and plain paths is readable, for every message and file content |
| Text.DecOfValue | scripts/collaboration_fixture.py:356 | a number without leading zeros is printed as the digits it was read from |
| FastImport.ParentIsGits | scripts/collaboration_fixture.py:390-391 | the first parent read back is the one Git makes exactly when the commit names one or is the first command on its ref |
| GitBatch.ParseCatBatch | scripts/collaboration_fixture.py:904-922 | the index loop reads what the format says, error cases included, to the end of the input |
| GitBatch.CatBatchRoundTrip | scripts/collaboration_fixture.py:904-922 | reading undoes printing for every list of objects with arbitrary bodies |
| GitBatch.HeaderRoundTrip | scripts/collaboration_fixture.py:911-916 | a printed header line is read back and never taken for a missing object |
| GitBatch.HeaderMeaning | scripts/collaboration_fixture.py:911-916 | a header is taken for a missing object exactly when it ends so, and else for an object exactly when it is an id, a kind and a decimal size |
| GitBatch.ParseDiffTree | scripts/collaboration_fixture.py:1176-1210 | the index loop reads what the format says, error cases included, to the end of the input |
| GitBatch.DiffTreeRoundTrip | scripts/collaboration_fixture.py:1176-1210 | reading what Git prints for a list of changes, one path each or the old and the new one for a rename or copy, gives their records with old and new path in place, also when paths start with a colon |
| GitBatch.RawRoundTrip | scripts/collaboration_fixture.py:1183-1209 | one printed change is read back, whatever follows |
| GitBatch.ReadsExactlyListings | scripts/collaboration_fixture.py:1176-1210 | the reader accepts exactly the texts that are such lists, with NULs between them, and fails on all others |
| GitBatch.ReadIsListing | scripts/collaboration_fixture.py:1176-1210 | whatever was read is the records of the list that the text is |
| DebugString.RustDebugStr | scripts/check_native_collaboration.py:1152-1164 | the loop prints the quoted escape of the whole text |
| DebugString.QuotedInjective | scripts/check_native_collaboration.py:1152-1164 | no two texts print alike |
| DebugString.LiteralRoundTrip | scripts/check_native_collaboration.py:1152-1164 | a reader that stops at the first quote no escape takes gives back the text and whatever follows |
| DebugString.PlainText | scripts/check_native_collaboration.py:1155-1163 | text without quotes, backslashes and control characters is printed as it is |
| DebugString.EscapesOf | scripts/check_native_collaboration.py:1155-1167 | the six short escapes, and the lower-case hexadecimal escape of every other control character |
| DebugString.HexOfValue | scripts/check_native_collaboration.py:1161 | lower-case hexadecimal digits without leading zeros are what is printed for their value |
| DebugString.ReadCharUndoes | scripts/check_native_collaboration.py:1155-1163 | a decoder undoes the escape of any character, whatever follows |
| DebugString.Search | scripts/check_native_collaboration.py:1175 | the leftmost match with the longest query group, or none if there is no match, for any digit class that includes the ASCII digits |
| DebugString.MatchMeaning | scripts/check_native_collaboration.py:1175 | a match is a place where the pattern's pieces stand, and what it finds is the group and the number there |
| DebugString.SearchFindsPrinted | scripts/check_native_collaboration.py:1175 | on a printed line the match is the printed query and count, even if the query holds text like the end of a line |
| DebugString.SelectorFilterItems | scripts/check_native_collaboration.py:1170-1178 | the count of the found line if its group is the printed query asked for |
| DebugString.FilterLineAnswers | scripts/check_native_collaboration.py:1170-1178 | asking a printed line gives its count exactly when the query asked for is the one printed |
| StatusRows.ReadGroups | scripts/bench_native_memory.py:618-660 | the index loop reads the records one by one, skipping a rename's original path, error cases included |
| StatusRows.StatusIsRead | scripts/bench_native_memory.py:620-660 | reading the fields of some entries, with empty fields anywhere between them, gives what they mean; an original path is never read as an entry |
| StatusRows.ReadsExactlyStatus | scripts/bench_native_memory.py:620-660 | the reader accepts exactly the fields of entry lists and fails on all others |
| StatusRows.StatusRoundTrip | scripts/bench_native_memory.py:610-660 | the same from the raw output of any entry list |
| StatusRows.GroupsAreRows | scripts/bench_native_memory.py:662-670 | one row per staged side, unstaged side, untracked path and conflict, in entry order; none for a dot, deleted exactly for the letter D |
| StatusRows.SourceRows | scripts/bench_native_memory.py:603-672 | fails exactly when the output is not that of an entry list; else its rows are sorted by path and hold, per path, the staged, unstaged, untracked and conflicted rows of the entries in this order and no other |
| StatusRows.StableSortIsUnique | scripts/bench_native_memory.py:671 | a stable sort by path has one result |
| StatusRows.AnswerIsUnique | scripts/bench_native_memory.py:603-672 | that description determines the rows |
| StatusRows.LeqMeaning | scripts/bench_native_memory.py:671 | paths are ordered by the first character in which they differ, a prefix before what it begins |
| Workload.SpreadPaths | scripts/workload_generator.py:266-302 | the ceiling-division loop makes one commit per share, in order, each on the one before |
| Workload.SharesAreFair | scripts/workload_generator.py:283-292 | the shares place every remaining path once, never increase and differ by at most one |
| Workload.Generate | scripts/workload_generator.py:113-321 | the history has the workload's shape and exactly as many refs as asked for (at least two): main, the divergent branch, and topics and tags evenly spaced on commits that exist |
| Workload.AddRefs | scripts/workload_generator.py:307-321 | new refs under new names at evenly spaced commits, older refs untouched, and the clamp never changes a target |
| Workload.TipTree | scripts/workload_generator.py:141-160 | the tip tree is the eight fixed paths and the numbered ones from 1 to the number of files less eight |
| Workload.TreeAfter | scripts/workload_generator.py:266-302 | after each commit the tree holds exactly the paths placed so far |
| Workload.ReachesAll | scripts/workload_generator.py:162-302 | every commit is reachable from main, the divergent one through the merge |
| Workload.RequestedCounts | scripts/workload_generator.py:120-139 | there are max(5, n) commits for n asked for; the numbers of commits and of files are the ones asked for exactly from five commits and eight files on |
| Workload.FourCommitsGiveFive | scripts/workload_generator.py:269-271 | asking for four commits gives five, all reachable |
| Shards.StridesPartition | scripts/run_native_acceptance.py:211-213 | the n strides of a list hold each element exactly as often as the list does |
| Shards.ShardStepsAt | scripts/run_native_acceptance.py:211-213 | the i-th step of shard k of n is the one at position k - 1 + i * n |
| Shards.DriverShardsKeepAll | scripts/run_native_acceptance.py:223-225 | dropping empty shards loses no test |
| Shards.StepsMatchIsOnceEach | scripts/check_native_collaboration.py:526-532 | the check by set and length passes exactly when every required step occurs once and nothing else does |
| Shards.Pigeonhole | scripts/check_native_collaboration.py:528 | as many different elements as places means no repetition |
| Shards.AllShardsPass | scripts/run_native_acceptance.py:250-258 | what shards 1/n to n/n run, all steps where a shard has none, passes that check exactly when n is at most the number of steps (or there is no step) |
| Shards.ShardsHaveAll | scripts/run_native_acceptance.py:211-213 | the step lists of shards 1/n to n/n together have every step once |
| Shards.TwoShardsOfOneStep | scripts/run_native_acceptance.py:250-251 | one step in two shards is run twice and refused |
| Shards.MergedShardsComplete | scripts/run_native_acceptance.py:250-343 | if all n shards of a split passed, in whatever order they ran their steps, the merged report has every required step once exactly when n is at most the number of steps (or there is no step) |
| Shards.OneStepOffFails | scripts/check_native_collaboration.py:526-532 | dropping or adding one step never passes |
| Shards.StepsInOrder | scripts/run_native_acceptance.py:339 | the merged report has the steps of the shards' reports one after the other |
| Shards.Merge | scripts/run_native_acceptance.py:313-343 | succeeds exactly when every shard passed on this build, the gates are covered, the reports agree, the merged steps are the required ones once each, and the merged report has no other problem; returns all commands |

## Left out

- Git itself: object ids are opaque and a blob's id is its content; rename detection, pathspecs and the commands used are specified, not modelled.
- Replay.ReplayCommits: destination files are regular stage-0 entries without file/directory clashes, so the refusal to delete a directory and mode changes in the destination are not modelled; dates and author identities are taken as ones Git accepts.
- Replay.Record: paths and messages are taken as already decoded; a path that is not UTF-8 makes the script fail before it copies anything.
- CommitGraph.SelectRange: `rev-list --parents` is taken to print all parents of a commit, and revisions as already resolved.
- ReplayOracle.OwnReplayAccepted: the encodings of trees, index rows, file rows and author fields are parameters; commit ids and committer fields are whatever the replay came out with, each id listed once.
- CompareStep.Compare: the step is given, not looked up by id; snapshot listings are maps, so the order and duplicates of listings are not modelled.
- PipeReader.StreamChunkReader: one pipe at a time; the chunks of two pipes reach the monitor in some order, which is then the order of its output. The ready file is part of a tick's marker visibility.
- TickLoop.Run: sleeping, cleaning up processes, the memory figures of samples with their checks and statistics, and the checks before the gate is published are left out.
- ProcessTree.GetTreePids: the listing of /proc is fixed during one search; races between existence checks and reads appear only as unreadable files.
- Relay.Meter.Count: the resource samplers, the preamble, the kind's extraction from the body and the snapshot files are left out; a frame comes with its kind.
- Trend.SlopePlus: arithmetic is over the reals, without rounding; the two lists of `_slope` are two functions of one list of rows, so the check for unequal lengths has no counterpart.
- Trace.OrderViolation: sample ids are positions, so that "the last resource rows are the final rows" is said of row kinds; fields of rows other than kind, phase, claimed switches and quit are left out, and so are the checks of `_canonical_measurement` that are not about order.
- Trace.Recorder.Notes: how many notes the tries after the tab cycles make is left open (at least three with those of the tab cycles, hide and tray).
- Trace.Drive: a run that is aborted by an exception is not modelled; which repository is clicked is left out, since only batch sizes matter for the order.
- FastImport.Stream.Commit: deletes and files are one list of changes, deletes first; text is given as bytes.
- GitBatch.ParseCatBatch: a size is a string of decimal digits, as Git prints it; other strings that Python's `int` accepts (signs, blanks, underscores) count as malformed, and a negative size, which would move the index back, is not modelled.
- DebugString.SelectorFilterItems: characters are Unicode scalar values; the digit class and the set of control characters are parameters.
- Workload.Generate: file contents, messages and dates are left out; numbered paths are numbers, refs are names.
- Shards.Merge: the parts of the full check of a report other than its step set are a parameter; missing fields of receipts are not modelled.
- `calculate_p95`, `parse_ls_files`, the remaining branches of `functional_problems` and the report writers.
- The Rust crates, the user interface drivers and everything that talks to X11, D-Bus or the clipboard.
