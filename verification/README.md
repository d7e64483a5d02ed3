# Race photo service: verified model

A Dafny model of the parts of the race photo service whose behaviour is
hardest to see from the code, with proofs about every input, every run or every
reachable state. `dafny verify dfyconfig.toml` checks everything.

Code that changes rows, tables or buffers is modelled as classes and loops,
each proved equal to a function on values; the theorems are about those
functions, and about runs that apply them in any order.

| files | subject |
|---|---|
| `JobModel`, `JobStore`, `JobRuns`, `JobOutcomes`, `JobPhotos` | the durable job leases of the worker API, what each message comes to, and the photo status derived from them |
| `Bytes`, `Crc32Polynomial`, `DownloadNames`, `ZipLayout`, `ZipFormat`, `ZipBytes`, `ZipStream` | the streaming ZIP writer, with a reader written for PKWARE's APPNOTE.TXT 6.3.x (sections 4.3.7, 4.3.9, 4.3.12, 4.3.16), every byte of its records, and the polynomial of its CRC |
| `FaceClusters`, `FacePlacement`, `FaceVote`, `FaceSeeds`, `FaceAverage`, `SeedLaws`, `FaceExact` | seed clustering, the consensus vote and the seeds of the winner |
| `FaceTopK`, `FaceProbe`, `Cosine`, `PartialBib` | bounded top-k search, cosine similarity, partial bib matches |
| `Outbox`, `OutboxRuns`, `OutboxOutcomes` | the outbox of object deletions |
| `SlidingWindow`, `SlidingRuns`, `SlidingExact`, `FixedWindow`, `FixedExact` | the two rate limiters |
| `Matches`, `MatchKeys`, `MatchRebuild` | the keys of a text, the merging upsert of matches, the rebuild of their OCR part, and the rebuild against computing from scratch |
| `BoundedJson`, `FairPoller` | the bound on nested payloads; the worker's round of queues |

## Assumptions

- Every endpoint, transaction or batch phase is one atomic step. In the job
  protocol and the limiters time does not go back; in the outbox clocks may
  disagree at will.
- `uuid4` draws an id never drawn before. Jitter is any number between 0.8 and
  1.2. Rows locked by other transactions (`skip_locked`) are an arbitrary set.
- Messages may be lost, duplicated, delayed and reordered: a step may name any
  job and any attempt at any time.
- Scores and vectors are real numbers; a square root is a non-negative number
  with the right square, where needed a function given as a parameter.
- Answers of the claim query of the outbox are any that the query allows: oldest
  claimable unlocked rows, as many as the batch takes.
- The case-folding table, the upper-casing of strings and the object store are
  parameters. The keyed hash of rate limit
  keys is taken to be injective.

## Where the code differs from what it promises

- **Photo status** (`JobPhotos`). The status of a photo is meant to be the
  aggregate of its jobs. The fail path and the reaper query the job rows before
  the pending write is flushed, and `backend/app/db.py:38` turns automatic
  flushing off. So a photo whose last open job is failed or dead-lettered stays
  in progress for good (`StuckPhoto` is such a run, `SpoiledForGood` says it is
  not repaired). `PhotoStatusIsAggregate`, `FailLeavesPhotoRight` and
  `ClaimLeavesPhotoRight` say exactly when the status is right.
- **Seed clusters** (`FaceExact`). That cluster founders are pairwise below the
  threshold holds exactly for positive thresholds; two strangers in one photo
  break it for every other one.
- **Consensus vote** (`FaceExact`). That quality never decides between clusters
  holds, over all inputs a search can form, exactly when the lead ratio is above
  1 or another setting leaves no winner at all (`StrictExactlyWithLeadRatio`).
  The default ratio is 1.5.
- **Partial bib match** (`PartialBib`). The shortcut for contained candidates
  changes the answer exactly for two characters inside a bib of three.
- **Top-k search** (`FaceTopK`). With a result limit of zero or less, the search
  fails on exactly the streams in which some row passes the threshold.
- **Sliding window** (`SlidingWindow`). A limit of zero or less raises on a key
  without hits and leaves its entry behind, so a full table grows past
  `max_keys` exactly then.
- **Fixed window** (`FixedRuns`). A row's expiry follows the last hit on it, so
  two window lengths in one bucket can make a purge forget counts of an open
  window. Purges never change a decision exactly when the longest window is at
  most twice the shortest (`PurgesAreInvisibleExactly`); the callers use one
  length for each bucket.
- **Deletion backoff** (`OutboxModel`). The cap of an hour is never reached: the
  exponent is capped at 10, so the longest delay is 1024 seconds.
- **Retry backoff** (`JobModel`). The cap of 20 on the exponent never shows: the
  delay reaches its maximum before (`ExponentialIsBackoff`).
- **Rebuild** (`MatchRebuild`). A pair found by both OCR and face keeps its merged
  confidence when its OCR evidence disappears (`ConfidenceOutlivesOcr`). A
  rebuild equals computing the pair from scratch exactly when it has no face
  evidence, or its confidence is backed by a face offer or a current detection
  (`HistoryRebuildsAnewExactly`); the sources are always those of a fresh
  computation (`RebuildSourceIsAnew`).

## Model

| member | source | states |
|---|---|---|
| JobStore.PhotoJob.MarkClaimed | backend/app/worker_api.py:423-431 | a grant sets the new attempt id and lease, counts the attempt and clears retry time, error and dead letter |
| JobStore.PhotoJob.MarkFailed | backend/app/worker_api.py:464-481 | a failure queues the row for a retry, dead-letters it or fails it, by retryability and attempts left |
| JobStore.PhotoJob.DeadLetter | backend/app/worker_api.py:339-346 | a dead letter ends the row and clears its lease and retry time |
| JobStore.JobTable.QueryStatuses | backend/app/worker_api.py:311 | the status column of the rows of one photo, in order |
| JobStore.JobTable.SyncTerminalParent | backend/app/worker_api.py:309-319 | the photo gets the aggregate of the statuses the query sees, pending write or not |
| JobStore.JobTable.HeartbeatJob | backend/app/worker_api.py:486-493 | renews only the lease of the active attempt, otherwise conflict and no change |
| JobStore.JobTable.CompleteJob | backend/app/worker_api.py:624-659 | stores the result of the active attempt, repeats its answer for the same attempt, refuses everyone else and misfitting payloads |
| JobStore.JobTable.FailJob | backend/app/worker_api.py:459-483 | the failure path with its repeated answers and conflicts; JobOutcomes.FailOutcome and FailReply say what comes of it |
| JobStore.JobTable.ReapExhausted | backend/app/worker_api.py:361-386 | dead-letters the first 50 unlocked exhausted rows that are due, each with its photo's status |
| JobStore.JobTable.ClaimJob | backend/app/worker_api.py:389-435 | reaps, then grants the oldest unlocked due row with attempts left, and marks its photo |
| JobStore.JobTable.UploadPhoto | backend/app/photographer.py:616-653 | a published photo starts in progress with one queued job of each type |
| JobModel.RetryDelayGrows | backend/app/worker_api.py:451-456 | retries wait at least a second, at most 1.2 times the maximum, and with equal jitter never less than the retry before |
| JobModel.ExponentialIsBackoff | backend/app/worker_api.py:452-455 | the wait before jitter doubles with each attempt from the base, up to the maximum; the cap on the exponent never shows |
| JobModel.RetryDelayIsBackoff | backend/app/worker_api.py:451-456 | the delay is that wait times the jitter, in whole seconds and at least one |
| JobRuns.StepRow | backend/app/worker_api.py:361-493 | what one step of the whole system can do to one row |
| JobRuns.ReachableInv | backend/app/worker_api.py:389-483 | invariant of every reachable row: attempts within bounds, queued only with attempts left, a lease exactly while processing, a result exactly when completed |
| JobRuns.OwnershipIsExclusive | backend/app/worker_api.py:293-306 | in every run, no two attempts own a job at the same time, counting the longest lease either was ever told of |
| JobRuns.RegrantWaitsForLease | backend/app/worker_api.py:402-435 | a job is granted again only after its holder gave it up or the lease it was told of ran out |
| JobRuns.GrantGivesOwnership | backend/app/worker_api.py:423-435 | a claim gives ownership for the whole lease, so exclusivity is not empty |
| JobRuns.SpentAttemptHasNoEffect | backend/app/worker_api.py:293-306 | once a lease is lost, no later heartbeat, completion or failure of that attempt changes anything |
| JobRuns.EffectAtMostOnce | backend/app/worker_api.py:459-483 | after an accepted completion or failure, whatever the same attempt sends again changes nothing |
| JobRuns.HolderHasLatestGrant | backend/app/worker_api.py:389-435 | the attempt on a processing row is the latest granted and has not been given up |
| JobRuns.EffectNeedsLatestGrant | backend/app/worker_api.py:293-306 | only the latest granted attempt, within its lease, ever changes a job |
| JobRuns.TerminalIsAbsorbing | backend/app/worker_api.py:293-306 | completed, failed and dead-lettered rows never change again |
| JobRuns.CompletedRowWasStored | backend/app/worker_api.py:624-659 | a completed row holds the payload of an accepted completion by the attempt on the row |
| JobRuns.CompletedReplyMeansStored | raceframe-worker/worker.py:152-197 | a "completed" reply, also to a repeated request, means that attempt's own result is stored, then and in every later state |
| JobRuns.WorkIsBounded | backend/app/worker_api.py:389-483 | renewals apart, a job changes at most 2 * max_attempts times in any run |
| JobRuns.AttemptCountIsGrants | backend/app/worker_api.py:423-425 | attempt_count is the number of grants and never exceeds max_attempts |
| JobRuns.NoJobIsStuck | backend/app/worker_api.py:368-419 | past its retry and lease times, an unfinished job meets exactly one of the claim and reap filters |
| JobRuns.ClaimMakesProgress | backend/app/worker_api.py:389-435 | a claim with a due, unlocked row of its types hands out a job or dead-letters one |
| JobOutcomes.FailOutcome | backend/app/worker_api.py:459-483 | in every run a failure changes the tables if and only if its sender owns the job; it queues the job if and only if it was retryable and fewer than max_attempts were granted, fails it if and only if it was not retryable, and otherwise makes a dead letter |
| JobOutcomes.DeadLetterHadAllAttempts | backend/app/worker_api.py:361-386 | in every reachable state a dead letter has been granted max_attempts times |
| JobOutcomes.RetryIsBackoff | backend/app/worker_api.py:451-473 | the retry time told to the sender is the backoff for the attempts granted so far |
| JobOutcomes.RetryWaits | backend/app/worker_api.py:402-417 | a job queued for a retry is never handed out before its retry time, in any run |
| JobOutcomes.QueuedIsDue | backend/app/worker_api.py:402-417 | from its retry time on, and not before, a queued job is handed out to whoever asks for its type and finds every other row locked |
| JobOutcomes.ClaimOutcome | backend/app/worker_api.py:389-435 | a claim hands out a job if and only if it is the oldest unlocked row that is due with attempts left, and the row is then held for a whole lease |
| JobOutcomes.ReapOutcome | backend/app/worker_api.py:361-386 | a claim ends exactly the first 50 unlocked rows that are due without attempts left, and leaves every row alone but those and the one it hands out |
| JobOutcomes.HeartbeatOutcome | backend/app/worker_api.py:486-493 | a heartbeat renews the lease if and only if its sender owns the job, for a whole lease from its own time |
| JobOutcomes.CompleteOutcome | backend/app/worker_api.py:624-659 | a completion takes effect if and only if its sender owns the job and sends no list of the other job type; the row then holds what was sent |
| JobOutcomes.CompleteReply | backend/app/worker_api.py:624-659 | the answer to every completion, first or repeated: completed exactly for the attempt whose result is stored, unprocessable, or a conflict |
| JobOutcomes.FailReply | backend/app/worker_api.py:459-483 | the answer to every failure, first or repeated, told by the state of the row |
| JobOutcomes.UploadOutcome | backend/app/photographer.py:616-653 | a published photo gets one job of each type, which may be handed out at once |
| JobOutcomes.RowsAreDated | backend/app/worker_api.py:339-346 | in every reachable state a row has a claim time exactly when it was ever granted, and shows as a dead letter exactly when it is one, since the time it ended |
| JobPhotos.AggregatorsAgree | backend/app/face.py:1091-1106 | the two aggregators agree whenever all jobs are finished |
| JobPhotos.AggregatorsAreRight | backend/app/worker_api.py:309-319 | both compute the reference aggregate of a photo's jobs, the first one only once all are finished |
| JobPhotos.PhotoStatusIsAggregate | backend/app/worker_api.py:309-319 | in every reachable state a photo's status is the aggregate, except exactly when its last open job ended unseen by the query |
| JobPhotos.FailLeavesPhotoRight | backend/app/db.py:38 | a final failure leaves the photo right if and only if the session flushes or a sibling job is open |
| JobPhotos.ClaimLeavesPhotoRight | backend/app/worker_api.py:376-386 | a claim keeps a photo right if and only if the session flushes, no job of it is open, or one of its open jobs is not among the first 50 unlocked exhausted due rows |
| JobPhotos.ReapEnds | backend/app/worker_api.py:376-386 | the reaper ends exactly those rows and leaves the others as they are |
| JobPhotos.SpoiledForGood | backend/app/worker_api.py:309-319 | nothing repairs a photo left in progress that way |
| JobPhotos.StuckPhoto | backend/app/db.py:38 | a reachable state with both jobs failed and the photo in progress |
| DownloadNames.SafeNameIsSafe | backend/app/photo_archive.py:16-20 | whatever the uploaded name, the result is one clean path component of at most 200 characters, or the fallback |
| DownloadNames.SafeNameIs | backend/app/photo_archive.py:16-20 | the name is the last path component's first 200 kept characters without dots and blanks at the ends, or the fallback exactly when nothing else is among them |
| DownloadNames.NoComponent | backend/app/photo_archive.py:18-20 | a path without a component gets the fallback |
| DownloadNames.SafeComponentIsKept | backend/app/photo_archive.py:16-20 | a last path component that is safe is the name, unchanged |
| DownloadNames.FallbackIsSafe | backend/app/photo_archive.py:27 | the fallbacks of an archive are such names themselves |
| DownloadNames.BaseNamesAreSafe | backend/app/photo_archive.py:16-27 | so is every name of an archive before its suffix |
| DownloadNames.ArchiveNamesAreClean | backend/app/photo_archive.py:23-36 | every entry of an archive, suffixed or not, is one path component without separators, control characters, quotes or colons, and without a dot or blank at either end |
| DownloadNames.CandidatesDiffer | backend/app/photo_archive.py:28-33 | two suffixes of one name never fold to the same string |
| DownloadNames.FindFree | backend/app/photo_archive.py:28-33 | the suffix search ends within one more than the number of used names, at the first free candidate |
| DownloadNames.NamesAreDistinct | backend/app/photo_archive.py:23-36 | no two names of an archive are equal after case folding |
| DownloadNames.UniqueDownloadNames | backend/app/photo_archive.py:23-36 | one name for each file, each the first free candidate of its safe name; DownloadNames.UniqueIsNamedAfterFiles says which name that is |
| DownloadNames.UniqueIsNamedAfterFiles | backend/app/photo_archive.py:23-36 | a file whose last component is safe keeps it as its name if no earlier name folds to it, and gets its first free suffix otherwise; a file without one is numbered |
| DownloadNames.CandidateKeepsExtension | backend/app/photo_archive.py:30-32 | a suffix goes between the stem and the extension, as a decimal number |
| DownloadNames.CandidateWithoutExtension | backend/app/photo_archive.py:30-32 | a name without an extension gets the suffix at its end |
| Bytes.PackRoundTrip | backend/app/photo_archive.py:58-71 | unpacking a packed little-endian record gives the record back |
| Crc32.CrcOfChunks | backend/app/photo_archive.py:76-85 | the chunked CRC is the CRC of the whole file |
| Crc32Polynomial.CrcIsRemainder | backend/app/photo_archive.py:80 | the CRC of any bytes is the inverted remainder of their bits modulo the CRC-32 polynomial of APPNOTE.TXT section 4.4.7, lowest bits first, started from all ones |
| Crc32Polynomial.ConstantIsGenerator | backend/app/photo_archive.py:80 | the constant of the bitwise step is that polynomial |
| Utf8.RoundTrip | backend/app/photo_archive.py:55 | encoded names decode to themselves |
| ZipBytes.Utf8Bytes | backend/app/photo_archive.py:55 | a character has as many bytes as its code point needs, with the lead byte that says so |
| ZipLayout.ReadsBody | backend/app/photo_archive.py:96-119 | a directory whose entries hold the offsets of the local records leads back to every file in order |
| ZipFormat.RoundTrip | backend/app/photo_archive.py:47-132 | the reader, starting from the last 22 bytes, recovers exactly the files of an archive |
| ZipFormat.ArchiveIsInjective | backend/app/photo_archive.py:47-132 | different lists of files have different archives |
| ZipBytes.LocalLayout | backend/app/photo_archive.py:58-71 | every field of a local header stands at its place in section 4.3.7 of APPNOTE.TXT |
| ZipBytes.DescriptorLayout | backend/app/photo_archive.py:89-90 | the data descriptor holds the CRC and both sizes, as in section 4.3.9 |
| ZipBytes.CentralLayout | backend/app/photo_archive.py:98-118 | every field of a directory entry stands at its place in section 4.3.12 |
| ZipBytes.EndLayout | backend/app/photo_archive.py:122-132 | every field of the end record stands at its place in section 4.3.16 |
| ZipStream.DosRoundTrip | backend/app/photo_archive.py:39-44 | the packed stamp keeps every field, seconds to two and the year within range |
| ZipStream.StreamBody | backend/app/photo_archive.py:75-85 | passes the object on unchanged with its CRC and size, or stops exactly when it is too large |
| ZipStream.StreamEntry | backend/app/photo_archive.py:54-94 | emits the local record of the entry's file, or stops exactly when there is none that fits |
| ZipStream.StreamLocals | backend/app/photo_archive.py:54-94 | the hand-kept offset is the number of bytes emitted, and each record keeps where its file starts |
| ZipStream.StreamDirectory | backend/app/photo_archive.py:96-119 | emits the directory of those files |
| ZipStream.StreamEnd | backend/app/photo_archive.py:121-132 | ends the archive, or raises exactly when a count, size or offset does not fit |
| ZipStream.StreamPhotoZip | backend/app/photo_archive.py:47-132 | raises exactly when some object is missing or some field does not fit; otherwise a reader extracts from the chunks exactly the (name, content) list, in order, under names that are unique and clean, and the file's own last path component wherever that is safe and unused |
| ZipStream.StreamedArchiveReadsBack | backend/app/photo_archive.py:47-132 | from the archive of any streamable entries the reader extracts every requested name and content, in order |
| ZipStream.StreamsExactly | backend/app/photo_archive.py:47-132 | an archive can be made for the entries if and only if every object exists and every count, size and offset fits, told by the lengths of the names and contents alone |
| FaceClusters.FindBestCluster | backend/app/face.py:830-836 | the inner loop finds the cluster of strictly best positive similarity, the first of equals |
| FaceClusters.ClusterSeedFaces | backend/app/face.py:824-841 | the greedy loop computes the clusters whose every step FacePlacement.EachFaceIsPlaced describes |
| FaceClusters.ClustersPartition | backend/app/face.py:824-841 | the clusters hold every usable face exactly as often as given |
| FaceClusters.ClustersGrow | backend/app/face.py:831-840 | every member but the founder reaches the threshold with an earlier member; later founders do not reach earlier ones |
| FaceClusters.ClustersAreConnected | backend/app/face.py:824-841 | each cluster is connected in the graph of pairs at or above the threshold |
| FaceClusters.ClustersAreMadeOf | backend/app/face.py:824-841 | clusters hold only usable faces that were given |
| FacePlacement.EachFaceIsPlaced | backend/app/face.py:824-841 | a usable face that reaches the threshold with an earlier usable face joins the first cluster of a most similar face and changes no other; any other usable face founds a cluster at the end; an unusable one changes nothing |
| FacePlacement.BestIsMostSimilar | backend/app/face.py:830-836 | the best cluster holds a face at least as similar as every clustered face, and more similar than all in the clusters before |
| FacePlacement.ClusteredAreUsable | backend/app/face.py:824-841 | a face is in some cluster if and only if it was given and is usable |
| FaceExact.FoundersBelowExactly | backend/app/face.py:837-840 | with cosine similarity, founders are pairwise below the threshold on all faces if and only if the threshold is positive |
| FaceExact.StrangersFoundClusters | backend/app/face.py:832-840 | the usable, unlike faces of one photo that break it for every other threshold |
| FaceSeeds.SelectConsensusSeeds | backend/app/face.py:782-821 | the seeds are the average and the two best faces of the winning cluster, without near-duplicates (SeedLaws.SelectedSeeds says which); there are some if and only if there is a winner, at most three, pairwise apart |
| FaceSeeds.BestFaceIsFirst | backend/app/face.py:818 | the first of the sorted faces has the best quality of the cluster |
| SeedLaws.SortIsStable | backend/app/face.py:818 | the faces are listed by falling quality, those of equal quality in their order, none added and none lost |
| FaceAverage.AverageIsDirection | backend/app/face.py:844-857 | the average is nothing if and only if the unit vectors of the faces cancel; otherwise it has length 1, and along every vector it is one positive factor times the sum of their normalized dot products |
| SeedLaws.AverageOfCluster | backend/app/face.py:818-819 | so the average of the sorted faces is the direction of the cluster's own mean |
| SeedLaws.UnitIsDirection | backend/app/face.py:1238-1253 | the normalized embedding of a face has length 1 and its direction |
| SeedLaws.SelectedSeeds | backend/app/face.py:818-821 | the first seed of a cluster is its average, or its best face when there is none; the others are its two best faces as unit vectors, each left out only when it is nearly a seed already |
| FaceSeeds.SeedsOfCluster | backend/app/face.py:818-821 | every cluster yields a seed, because its best face can be normalized |
| FaceConsensus.RankedList | backend/app/face.py:792-803 | the sorted list ranks each eligible cluster once, by photo count |
| FaceConsensus.WinnerIsLeader | backend/app/face.py:802-816 | for ratios above 1, a cluster wins if and only if it has the majority and leads every other eligible cluster |
| FaceConsensus.WinnerIsStrict | backend/app/face.py:802-816 | a winner has strictly more photos than every other cluster, so quality ties cannot decide |
| FaceVote.WinnerExactly | backend/app/face.py:782-816 | with any settings, a cluster wins if and only if it is ahead of every other eligible one by photos, then average quality, then place, has the majority, and leads the one with the next most photos |
| FaceVote.VoteTargets | backend/app/face.py:804-814 | majority and lead are the least whole numbers at or above the given shares |
| FaceVote.SeedQualityIs | backend/app/face.py:730-734 | the quality of a face is its area times its quality score, else its detection score, never less than a quarter |
| FaceVote.AverageIsShare | backend/app/face.py:798 | the average quality times the number of faces is their total |
| FaceExact.SelectionUsesCosine | backend/app/face.py:833 | the similarity of the selection is the cosine the exactness results speak of |
| FaceExact.GuestsCluster | backend/app/face.py:824-841 | two unlike people in each of n photos form two clusters of n photos |
| FaceExact.NoWinner | backend/app/face.py:802-816 | a majority above everything, too few photos, or a threshold above 1 with clusters of two leaves no winner |
| FaceExact.TieWithLowRatio | backend/app/face.py:811-816 | when no setting rules it out, a search can form two clusters of equally many photos, and the vote still answers |
| FaceExact.StrictExactlyWithLeadRatio | backend/app/face.py:782-816 | over all faces and supports a search can form, winners are strict if and only if the lead ratio is above 1 or another setting leaves no winner |
| FaceTopK.ResultTable.CreateFaceSearchResults | backend/app/face.py:885-945 | one probe keeps the specified rows and max-merges them into the table, or fails and leaves it alone |
| FaceTopK.KeepsTheLargest | backend/app/face.py:902-920 | the kept scores are exactly the k largest at or above the threshold |
| FaceTopK.RowOrderIsIrrelevant | backend/app/face.py:902-920 | the order of the rows does not change the kept scores |
| FaceTopK.KeptAreRows | backend/app/face.py:902-920 | what is kept are rows that were read, none twice |
| FaceTopK.FailsExactlyWithoutRoom | backend/app/face.py:917-920 | the search fails if and only if the limit is not positive and some row passes |
| FaceProbe.EachItemIsWeighed | backend/app/face.py:912-920 | each item is kept while there is room, then takes the place of the least by score and id if it scores more, and is dropped otherwise |
| FaceProbe.ProbeKeepsBest | backend/app/face.py:902-920 | a probe keeps rows that reach the threshold, as many as there are up to the limit, and leaves out none that scores more than one it keeps |
| FaceProbe.ContributionIsBest | backend/app/face.py:892-925 | so it upserts its best rows, the greatest first, or nothing in an event above the cap |
| FaceTopK.StoredIsBest | backend/app/face.py:922-945 | after any probes a stored score is the maximum over the probes that kept the detection |
| FaceTopK.ProbeOrderIsIrrelevant | backend/app/face.py:922-945 | the order of the probes does not change the table |
| FaceTopK.SearchSession | backend/app/face.py:652-658 | a series of probes leaves the table of their contributions |
| FaceTopK.SessionKeepsBest | backend/app/face.py:902-945 | after a session a detection has a score if and only if some probe kept it, and then the largest that any kept |
| FaceTopK.SessionOrderIsIrrelevant | backend/app/face.py:922-945 | the probes of a session may come in any order and be repeated |
| FaceTopK.ScoresOnlyRise | backend/app/face.py:932-945 | a stored score never falls |
| Cosine.CauchySchwarz | backend/app/face.py:1256-1267 | the squared dot product is at most the product of the squared lengths, in any dimension |
| Cosine.ClampIsIdle | backend/app/face.py:1265-1267 | in exact arithmetic the clamp to [-1, 1] never changes the score |
| Cosine.Symmetric | backend/app/face.py:1256-1267 | the score does not depend on the order of its vectors |
| Cosine.ScalingKeepsSimilarity | backend/app/face.py:1256-1267 | a positive factor on either vector keeps the score |
| Cosine.NormalizingKeepsDecisions | backend/app/face.py:1250-1267 | normalizing both vectors first preserves every threshold decision |
| Cosine.SimilarToItself | backend/app/face.py:1256-1267 | a vector that is not zero scores 1 against its positive multiples |
| Cosine.UsableByLength | backend/app/face.py:1238-1253 | the length test of the payload check decides as its square does |
| SeedVectors.DedupeSeedEmbeddings | backend/app/face.py:860-869 | the loop keeps the specified embeddings |
| SeedVectors.DedupedAreApart | backend/app/face.py:865-868 | no kept seed is a near-duplicate of an earlier one |
| SeedVectors.DedupedCovers | backend/app/face.py:860-869 | every usable embedding is near one that is kept |
| PartialBib.LongestCommonSubstringLength | backend/app/face.py:1078-1088 | the two rolling rows compute the full table's maximum |
| PartialBib.LongestIsLongest | backend/app/face.py:1078-1088 | that maximum is the greatest length of a block standing in both strings |
| PartialBib.ShortcutMattersOnlyForThree | backend/app/face.py:1067-1075 | the shortcut changes the answer if and only if the bib has three characters and contains the two of the candidate |
| PartialBib.MatchIsSharedBlock | backend/app/face.py:1067-1075 | bibs of four or more match if and only if a block of all but one character is shared; bibs of three by containment |
| OutboxModel.BackoffDoubles | backend/app/maintenance.py:130-131 | the delay doubles from 2 to 1024 seconds and stays there |
| OutboxModel.ClaimTakes | backend/app/maintenance.py:100-107 | each selected row is claimed once, with its own attempt id |
| OutboxModel.ClaimHolds | backend/app/maintenance.py:99-114 | after a claim every selected row is held by its attempt |
| OutboxModel.BatchHolds | backend/app/maintenance.py:112-115 | executing one row of a batch takes no other row of it away |
| OutboxStore.DeletionTask.Requeue | backend/app/maintenance.py:44-55 | a re-enqueue resets every column but the row's id, creation time and maximum |
| OutboxStore.DeletionTask.MarkSwept | backend/app/maintenance.py:70-77 | a swept row is dead-lettered without attempt, lease or retry time |
| OutboxStore.DeletionTask.MarkClaimed | backend/app/maintenance.py:103-107 | a claim sets the attempt id and a lease of two minutes, and counts the attempt |
| OutboxStore.DeletionTask.MarkFailed | backend/app/maintenance.py:119-131 | a failure dead-letters the row at the maximum of attempts, otherwise queues it with its backoff |
| OutboxStore.DeletionTask.MarkCompleted | backend/app/maintenance.py:134-140 | a success completes the row and clears attempt, lease, retry time and error |
| OutboxStore.Outbox.EnqueueObjectDeletion | backend/app/maintenance.py:35-57 | inserts a row, or resets the row of the key completely; ignores empty keys; OutboxOutcomes.EnqueueOutcome says what the row then is |
| OutboxStore.Outbox.SweepExhausted | backend/app/maintenance.py:63-79 | dead-letters exactly the exhausted rows with a lost lease |
| OutboxStore.Outbox.ClaimBatch | backend/app/maintenance.py:99-108 | claims the selected rows in order |
| OutboxStore.Outbox.ExecuteDeletion | backend/app/maintenance.py:113-141 | acts only for the attempt that holds the row, and completes, requeues or dead-letters it |
| OutboxStore.Outbox.ProcessObjectDeletions | backend/app/maintenance.py:60-142 | a whole run is sweep, claim and executions; uninterrupted, the two counts are the successes and failures of the batch |
| OutboxStore.Outbox.PurgeCompleted | backend/app/maintenance.py:191-201 | removes exactly the rows completed before the cutoff, and counts them |
| OutboxRuns.StepKey | backend/app/maintenance.py:35-142 | what one step of the whole system can do to the entry of one key |
| OutboxRuns.ReachableOk | backend/app/maintenance.py:60-142 | invariant of every reachable row: attempts within bounds, an attempt id and a lease exactly while processing |
| OutboxRuns.NoDeletionIsLost | backend/app/maintenance.py:35-142 | for every key ever enqueued, a deletion succeeded since the latest enqueue if and only if its row is completed or gone |
| OutboxOutcomes.EnqueueOutcome | backend/app/maintenance.py:35-57 | after every effective enqueue the row is queued with no attempts and claimable at every time, and no other row changes |
| OutboxOutcomes.DeadLetterHadAllAttempts | backend/app/maintenance.py:119-131 | in every reachable state a dead letter was claimed ten times since the latest enqueue |
| OutboxOutcomes.FailureOutcome | backend/app/maintenance.py:116-131 | a failed attempt queues its row with its backoff if and only if fewer than ten claims were made since the latest enqueue, and ends it otherwise |
| OutboxOutcomes.SuccessOutcome | backend/app/maintenance.py:133-140 | a successful attempt completes its row at the time of the deletion |
| OutboxOutcomes.ClaimOutcome | backend/app/maintenance.py:80-108 | a claim takes waiting unlocked rows, each with an attempt id of its own and a lease of two minutes; one it leaves out finds the batch full of rows no newer |
| OutboxOutcomes.SweepOutcome | backend/app/maintenance.py:63-79 | a sweep ends exactly the rows that used all attempts and lost their lease |
| OutboxOutcomes.PurgeOutcome | backend/app/maintenance.py:191-201 | a purge removes exactly the rows completed more than the retention time ago |
| OutboxOutcomes.RetryWaits | backend/app/maintenance.py:85-91 | after a failure the row is not claimed before its backoff has passed |
| OutboxOutcomes.RetryIsDue | backend/app/maintenance.py:85-91 | from then on it may be claimed, and not before |
| OutboxOutcomes.LeaseIsKept | backend/app/maintenance.py:68-107 | a claimed row is neither claimed again nor swept for two minutes, unless its attempt ends or the key is enqueued again |
| OutboxRuns.LeavesOnlyCompleted | backend/app/maintenance.py:191-201 | a row leaves the table only by a purge that finds it completed long enough |
| OutboxRuns.ReEnqueueCancelsAttempts | backend/app/maintenance.py:40-57 | after a re-enqueue no earlier attempt deletes the object or changes the table, whatever happens in between |
| OutboxRuns.AttemptActsOnce | backend/app/maintenance.py:113-141 | an attempt changes the table at most once |
| OutboxRuns.AttemptsAreClaims | backend/app/maintenance.py:103-107 | attempt_count is the number of claims since the latest enqueue and never exceeds 10 |
| OutboxRuns.WorkIsBounded | backend/app/maintenance.py:60-142 | between two enqueues the entry of a key changes at most 21 times |
| OutboxRuns.NoTaskIsStuck | backend/app/maintenance.py:63-91 | from some time on, an unfinished task is claimable or swept, never both |
| OutboxRuns.OldestIsPicked | backend/app/maintenance.py:80-98 | a claim never passes over the oldest claimable row |
| SlidingWindow.SlidingWindowLimiter.HitKey | backend/app/web_security.py:310-324 | one hit expires, moves, refuses or records and evicts as specified, and keeps the table well formed |
| SlidingWindow.SlidingWindowLimiter.Trim | backend/app/web_security.py:322-323 | drops least recently used keys down to max_keys; raises when max_keys is negative |
| SlidingWindow.EvictKeepsLatest | backend/app/web_security.py:322-323 | what is left are the most recently used keys, with their stamps |
| SlidingWindow.HitKeepsSize | backend/app/web_security.py:310-324 | a hit keeps the table within max_keys if and only if it is not a limit of zero or less on a new key in a full table; the key just hit stays |
| SlidingRuns.WindowHoldsLimit | backend/app/web_security.py:310-324 | while a key is not evicted, every half-open interval of the window's length holds at most `limit` accepted hits |
| SlidingRuns.HitKeyIsKept | backend/app/web_security.py:318-323 | with max_keys >= 1 a hit never evicts its own key |
| SlidingRuns.TableIsBounded | backend/app/web_security.py:322-323 | with positive limits the table never exceeds max_keys in any history |
| SlidingRuns.RetryAfterIsEnough | backend/app/web_security.py:319-320 | a next hit on the key after the returned wait is accepted |
| SlidingRuns.RetryAfterIsTight | backend/app/web_security.py:319-320 | a hit more than a second before that is refused |
| SlidingExact.AdmittedExactly | backend/app/web_security.py:310-324 | a hit is accepted if and only if fewer than `limit` hits on its key were accepted in the window up to now, since the key came into the table |
| SlidingExact.TableHoldsLatest | backend/app/web_security.py:318-323 | with positive limits the table holds the keys used last, as many as fit, in the order of their last use |
| SlidingExact.ByLastUseIs | backend/app/web_security.py:318 | of two keys in that order, the first was last used before the second |
| SlidingExact.ByLastUseHolds | backend/app/web_security.py:318 | that order holds exactly the keys that were hit |
| FixedWindow.RateLimitBuckets.HitPersistentLimit | backend/app/rate_limits.py:20-61 | one hit counts its units in its window's row and decides from the new count; bad configuration changes nothing |
| FixedWindow.RateLimitBuckets.PurgeExpiredRateLimits | backend/app/maintenance.py:185-188 | exactly the expired rows go and are counted, the others keep their values, and no decision from then on changes while the row it needs outlives its window |
| FixedWindow.WaitPassesWindow | backend/app/rate_limits.py:61 | the returned wait always lands past the window's end |
| FixedRuns.PurgesAreInvisible | backend/app/maintenance.py:185-188 | wherever purges are interleaved, each decision is the one of the history without them, for windows at most a factor of two apart |
| FixedRuns.PurgesAreInvisibleExactly | backend/app/maintenance.py:185-188 | purges are invisible in every history if and only if the longest window is at most twice the shortest |
| FixedRuns.WindowHoldsLimit | backend/app/rate_limits.py:38-60 | an aligned window admits at most `limit` units of a key |
| FixedRuns.IntervalHoldsTwice | backend/app/rate_limits.py:28-31 | any interval of a window's length admits at most twice the limit |
| FixedRuns.RetryAfterIsEnough | backend/app/rate_limits.py:61 | a hit that waits lands in a later window and is admitted unless others used that window up |
| FixedRuns.PurgeLosesCount | backend/app/rate_limits.py:31-57 | for windows further apart, a history in which a purge changes a decision |
| FixedExact.AdmittedExactly | backend/app/rate_limits.py:20-61 | a hit is admitted if and only if it and all earlier hits of the same bucket, key and aligned window, admitted or not, ask for no more than its limit; a refused one is told the rest of the window to within a second |
| FixedExact.RowsAreHit | backend/app/rate_limits.py:28-57 | a row stands for a window that was hit, and expires two window lengths after its start |
| FixedExact.PurgedInTime | backend/app/maintenance.py:185-188 | a purge leaves no row more than two window lengths after its start |
| Matches.ExtractMatchCandidates | backend/app/photographer.py:890-905 | the loop with its seen set computes the specified candidates |
| Matches.DistinctHolds | backend/app/photographer.py:899-905 | a string is a candidate if and only if it is the non-empty key of some token |
| Matches.DistinctRepeatsNone | backend/app/photographer.py:899-905 | no candidate is repeated |
| MatchKeys.RunsAreMaximal | backend/app/photographer.py:891 | the tokens of a text are its maximal runs of capital letters and digits, in order |
| MatchKeys.CandidatesAreKeys | backend/app/photographer.py:890-905 | a string is a candidate if and only if it is the first 64 token characters of the whole text or of one of its runs, and not empty |
| MatchKeys.WholeTextIsFirst | backend/app/photographer.py:895-897 | the key of the whole text is the first candidate |
| MatchKeys.OwnerIsLast | backend/app/photographer.py:862-866 | a key is owned by the last participant that has it, and by nobody if none has |
| Matches.MatchTable.UpsertFinalMatch | backend/app/face.py:370-422 | source and confidence of the pair become the least above what was there and what is offered; every other row stays |
| Matches.MatchTable.ParticipantsByBib | backend/app/photographer.py:862-866 | of participants with the same key the last one owns it |
| Matches.MatchTable.MatchDetection | backend/app/photographer.py:869-884 | offers a match to the owner of each candidate of one detection, in order |
| Matches.MatchTable.StripOcr | backend/app/photographer.py:820-826 | no OCR evidence is left, face evidence is exactly what it was, with its confidence, and rows by face alone are untouched |
| Matches.MatchTable.CreateParticipantMatches | backend/app/photographer.py:849-887 | makes one offer for each owned candidate of each detection |
| Matches.MatchTable.RebuildEventPhotoMatches | backend/app/photographer.py:812-846 | strips the OCR part, makes all offers again, and counts the photos with detections |
| MatchLaws.UpsertsAreJoin | backend/app/face.py:393-422 | after any upserts, source and confidence are the least that cover the old row and everything offered |
| MatchLaws.OfferOrderIsIrrelevant | backend/app/face.py:393-422 | offers in any order and any multiplicity leave the same source and confidence |
| MatchKeys.ValueKeepsHistory | backend/app/face.py:402-410 | the value of a row by one source is what it offered last; when another source adds to it the old value is its start and the new one its end, unless the text is too long |
| MatchKeys.EventOffersExact | backend/app/photographer.py:849-887 | what is offered for an event is exactly, for each detection of a photo and each of its candidates with an owner, the pair with the detection's confidence |
| MatchLaws.RebuildIsExact | backend/app/photographer.py:812-887 | after a rebuild a pair has OCR evidence if and only if some detection yields the participant's key, and face evidence if and only if it had it before |
| MatchLaws.RebuildKeepsFaceConfidence | backend/app/photographer.py:820-826 | a rebuild never lowers the confidence of a pair with face evidence |
| MatchLaws.RebuildTwice | backend/app/photographer.py:812-846 | rebuilding twice changes neither source nor confidence |
| MatchRebuild.RebuildIsAnewExactly | backend/app/photographer.py:812-846 | a rebuild equals computing the pair from the face offers and the current detections if and only if it has no face evidence or its confidence is backed by one of those |
| MatchRebuild.RebuildSourceIsAnew | backend/app/photographer.py:812-846 | the sources of a rebuild are always those of computing from scratch |
| MatchRebuild.HistoryRebuildsAnewExactly | backend/app/photographer.py:812-846 | the same after any history of offers and rebuilds |
| MatchRebuild.FirstRebuildIsAnewExactly | backend/app/photographer.py:812-846 | for a first rebuild the condition is that every offer ever made for the pair is matched by a standing one at least as confident |
| MatchRebuild.HistoryCovers | backend/app/photographer.py:820-826 | in every history a row has face evidence if and only if it was offered, and covers all face offers |
| MatchRebuild.ConfidenceOutlivesOcr | backend/app/photographer.py:823-825 | a face match at 0.5 keeps the 0.9 of an OCR match that is gone |
| BoundedJson.ValidateBoundedJson | backend/app/worker_api.py:70-84 | the stack walk accepts a value if and only if it is at most 10 levels deep with at most 10000 contained items, in whatever order it visits them |
| BoundedJson.DepthIsLongestPath | backend/app/worker_api.py:70-84 | the depth of a value is the length of the longest path into it |
| BoundedJson.ItemsArePaths | backend/app/worker_api.py:70-84 | its size is the number of paths into it |
| FairPoller.FairClaimPoller.WorkOnce | raceframe-worker/worker.py:927-941 | one call scans the queues once from the cursor and moves it past the queue it served |
| FairPoller.ScanIs | raceframe-worker/worker.py:927-941 | the first queue from the cursor on that has a job or fails ends the call: a job is served and the cursor moves past its queue, a failure is raised with the cursor where it was; without any the cursor moves by one |
| FairPoller.ScanReaches | raceframe-worker/worker.py:927-941 | passing over a ready queue brings the cursor strictly nearer to it |
| FairPoller.ServedWithinRound | raceframe-worker/worker.py:918-941 | a queue that always has work is served within n calls that return normally |

## Left out

- JobStore.JobTable.CompleteJob: the detections, matches and diagnostics written on completion are represented by the accepted payload, because their content is decided by other modules.
- The participant-face and face-search job tables share the claim, heartbeat, fail and reap code; only the photo table is modelled, because the others differ in their parent rows alone.
- FaceTopK.ResultTable.CreateFaceSearchResults: the photo id stored beside each score is not modelled, because it is a fixed attribute of the detection.
- SlidingRuns.WindowHoldsLimit: says nothing about a key that was evicted, whose hits the limiter forgets.
- The theorems of both limiters on admitted hits assume one limit and one window for each key, as every caller has.
- FixedRuns.IntervalHoldsTwice: clocks before 1970 are not covered, where truncation toward zero makes the first window a second longer.
- Matches.MatchTable.UpsertFinalMatch: stripping blanks from the offered value is not modelled; bib keys contain none.
- MatchLaws.OfferOrderIsIrrelevant: the displayed matched value does depend on the order and is left out.
- FaceTopK.KeepsTheLargest: the heap is the ordered list of its items; that heapq keeps the least item in front is taken for granted.
- OutboxStore.Outbox.ProcessObjectDeletions: a batch with nothing in between; what other processes may do between its steps is in the runs.
- BoundedJson.ValidateBoundedJson: the limit on encoded bytes is not modelled, because it rests on the JSON encoder.
- Deleting a photo also deletes its jobs (backend/app/photographer.py:809) and is not a step of the job runs: that rows never change or stay stored holds for runs without it.
- Withdrawing face evidence, by deleting enrolled images or photos, is not a step of the match histories.
- Sharing within one transaction is not modelled: rows are read and written in one step.
- The alternative seed choices for a bib-only search, adaptive reinforcement, pagination, the in-flight limiter and the worker's retry loop would add easy members; any repetition the retry loop can cause is covered by the runs.
- Floating-point rounding, HTTP and authentication, hashes and signatures, image processing and the object store are outside the model.
