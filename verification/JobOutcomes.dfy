// What each message to the job protocol comes to, in every run: when it takes
// effect, what the row then is, and which row a claim hands out.
module JobOutcomes {
  import opened Common
  import opened JobModel
  import opened JobRuns
  import JobPhotos

  // The attempt holds the job, and its lease runs beyond `now`.
  predicate Owner(w: World, j: nat, attempt: AttemptId, now: Time) {
    && HeldBy(w, j, attempt)
    && w.db.jobs[j].leaseExpiresAt.Some? && now < w.db.jobs[j].leaseExpiresAt.value
  }

  // Nothing but row j, and the photo statuses, differs between two tables.
  predicate OnlyRow(before: Db, after: Db, j: nat) {
    && j < |before.jobs| == |after.jobs|
    && forall i | 0 <= i < |before.jobs| && i != j :: after.jobs[i] == before.jobs[i]
  }

  // ----- failures -----

  lemma FailStep(cfg: Config, w: World, op: Op)
    requires op.FailOp? && Inv(cfg, w) && Enabled(w, op)
    ensures Next(cfg, w, op).db != w.db <==> Owner(w, op.job, op.attempt, op.now)
    ensures Owner(w, op.job, op.attempt, op.now) ==>
      && OnlyRow(w.db, Next(cfg, w, op).db, op.job)
      && var row, row' := w.db.jobs[op.job], Next(cfg, w, op).db.jobs[op.job];
      && (row'.status == Queued <==> op.retryable && row.attemptCount < row.maxAttempts)
      && (row'.status == Failed <==> !op.retryable)
      && (row'.status == DeadLettered <==> op.retryable && row.attemptCount == row.maxAttempts)
      && row'.maxAttempts == row.maxAttempts && row'.attemptCount == row.attemptCount
      && (|op.text| <= 2_000 ==> row'.errorMessage == Some(op.text))
  {
    if op.job < |w.db.jobs| {
      assert RowOk(cfg, w, w.db.jobs[op.job]);
      StepRow(cfg, w, op, op.job);
    }
  }

  // A failure changes the tables exactly when its sender owns the job. It then
  // queues the job for another attempt if and only if it was retryable and fewer
  // than max_attempts were granted, and fails it if and only if it was not
  // retryable; otherwise every attempt was used and the job is a dead letter.
  lemma FailOutcome(cfg: Config, ws: seq<World>, ops: seq<Op>, k: nat)
    requires Run(cfg, ws, ops) && StepAt(cfg, ws, ops, k) && ops[k].FailOp?
    ensures ws[k + 1].db != ws[k].db <==> Owner(ws[k], ops[k].job, ops[k].attempt, ops[k].now)
    ensures ws[k + 1].db != ws[k].db ==>
      && OnlyRow(ws[k].db, ws[k + 1].db, ops[k].job)
      && var row, row' := ws[k].db.jobs[ops[k].job], ws[k + 1].db.jobs[ops[k].job];
         var grants := CountGrants(cfg, ws, ops, ops[k].job, k);
      && (row'.status == Queued <==> ops[k].retryable && grants < row.maxAttempts)
      && (row'.status == Failed <==> !ops[k].retryable)
      && (row'.status == DeadLettered <==> ops[k].retryable && grants == row.maxAttempts)
      && row'.maxAttempts == row.maxAttempts && row'.attemptCount == grants
      && (|ops[k].text| <= 2_000 ==> row'.errorMessage == Some(ops[k].text))
  {
    ReachableInv(cfg, ws, ops, k);
    FailStep(cfg, ws[k], ops[k]);
    if ws[k + 1].db != ws[k].db {
      AttemptCountIsGrants(cfg, ws, ops, ops[k].job, k);
    }
  }

  // The text of a failure carries its code and message, cut at 2000 characters.
  lemma FailureTextShows(code: Option<string>, message: string)
    ensures |FailureText(code, message)| <= 2_000
    ensures code == None && |message| <= 2_000 ==> FailureText(code, message) == message
    ensures code.Some? && |code.value| + |message| <= 1_997 ==>
              FailureText(code, message) == "[" + code.value + "] " + message
  {
  }

  // In every reachable state a dead letter has been granted max_attempts times.
  lemma {:induction false} DeadLetterHadAllAttempts(cfg: Config, ws: seq<World>, ops: seq<Op>, k: nat, j: nat)
    requires Run(cfg, ws, ops) && k < |ws| && j < |ws[k].db.jobs| && ws[k].db.jobs[j].status == DeadLettered
    ensures ws[k].db.jobs[j].attemptCount == ws[k].db.jobs[j].maxAttempts == CountGrants(cfg, ws, ops, j, k)
  {
    AttemptCountIsGrants(cfg, ws, ops, j, k);
    assert k > 0 && StepAt(cfg, ws, ops, k - 1);
    if j < |ws[k - 1].db.jobs| {
      ReachableInv(cfg, ws, ops, k - 1);
      assert RowOk(cfg, ws[k - 1], ws[k - 1].db.jobs[j]);
      StepRow(cfg, ws[k - 1], ops[k - 1], j);
      if ws[k - 1].db.jobs[j].status == DeadLettered {
        DeadLetterHadAllAttempts(cfg, ws, ops, k - 1, j);
      }
    } else {
      StepNewRow(cfg, ws[k - 1], ops[k - 1], j);
    }
  }

  // ----- what a claim hands out -----

  // The row may be handed out: it has attempts left, and its retry time or its
  // lease has passed.
  predicate Waiting(job: Job, types: set<JobType>, now: Time) {
    && job.jobType in types && job.attemptCount < job.maxAttempts
    && match job.status
       case Queued => job.retryAfter.Some? ==> job.retryAfter.value <= now
       case Processing => job.leaseExpiresAt.Some? ==> job.leaseExpiresAt.value <= now
       case _ => false
  }

  lemma ReapedRowIs(cfg: Config, w: World, op: Op, i: nat)
    requires op.ClaimOp? && i < |w.db.jobs|
    ensures var r := Reap(cfg, w.db, w.db.jobs, 0, REAP_LIMIT, op.types, op.locked, op.now).jobs[i];
      Waiting(r, op.types, op.now) <==> Waiting(w.db.jobs[i], op.types, op.now)
  {
    ReapRows(cfg, w.db, w.db.jobs, 0, REAP_LIMIT, op.types, op.locked, op.now, i);
  }

  // A claim hands out job k exactly when k is the oldest unlocked row that may be
  // handed out, and the row is then held for a whole lease.
  lemma ClaimOutcome(cfg: Config, w: World, op: Op, k: nat)
    requires op.ClaimOp?
    ensures ReplyOf(cfg, w, op) == Claimed(k) <==>
      && k < |w.db.jobs| && k !in op.locked && Waiting(w.db.jobs[k], op.types, op.now)
      && forall i | 0 <= i < k :: i in op.locked || !Waiting(w.db.jobs[i], op.types, op.now)
    ensures ReplyOf(cfg, w, op) == Claimed(k) ==>
      && Holds(Next(cfg, w, op), k, op.newId, op.now + cfg.LeaseSeconds())
      && w.db.jobs[k].photo < |Next(cfg, w, op).db.photos|
      && Next(cfg, w, op).db.photos[w.db.jobs[k].photo] == InProgress
  {
    forall i | 0 <= i < |w.db.jobs|
      ensures var r := Reap(cfg, w.db, w.db.jobs, 0, REAP_LIMIT, op.types, op.locked, op.now).jobs[i];
        ClaimFilter(r, op.types, op.now) <==> Waiting(w.db.jobs[i], op.types, op.now)
    {
      ReapedRowIs(cfg, w, op, i);
    }
    if ReplyOf(cfg, w, op) == Claimed(k) {
      StepRow(cfg, w, op, k);
    }
  }

  // ----- what a claim gives up -----

  // The row may not be handed out again: it is due, and its attempts are used up.
  predicate Spent(job: Job, types: set<JobType>, now: Time) {
    && job.jobType in types && job.attemptCount >= job.maxAttempts
    && match job.status
       case Queued => job.retryAfter.Some? ==> job.retryAfter.value <= now
       case Processing => job.leaseExpiresAt.Some? ==> job.leaseExpiresAt.value <= now
       case _ => false
  }

  // The unlocked spent rows from row i to before row m.
  ghost function SpentBetween(jobs: seq<Job>, i: nat, m: nat, types: set<JobType>, locked: set<nat>, now: Time): nat
    requires i <= m <= |jobs|
    decreases m - i
  {
    if i == m then 0
    else SpentBetween(jobs, i + 1, m, types, locked, now) + if i !in locked && Spent(jobs[i], types, now) then 1 else 0
  }

  lemma {:induction false} ReapedExactly(jobs: seq<Job>, i: nat, budget: nat, types: set<JobType>, locked: set<nat>,
                                         now: Time, m: nat)
    requires i <= m < |jobs|
    ensures m in JobPhotos.Reaped(jobs, i, budget, types, locked, now)
       <==> m !in locked && Spent(jobs[m], types, now) && SpentBetween(jobs, i, m, types, locked, now) < budget
    decreases m - i
  {
    if i < m && budget > 0 {
      ReapedExactly(jobs, i + 1, budget - 1, types, locked, now, m);
      ReapedExactly(jobs, i + 1, budget, types, locked, now, m);
    } else if i == m && budget > 0 && !(i !in locked && Spent(jobs[i], types, now))
              && m in JobPhotos.Reaped(jobs, i, budget, types, locked, now) {
      JobPhotos.ReapedFrom(jobs, i + 1, budget, types, locked, now, m);
    }
  }

  // A row given up shows its last failure, or that its attempts ran out.
  predicate ShowsLastFailure(job: Job, dead: Job) {
    && (job.errorMessage == None || job.errorMessage.value == "" ==>
          dead.errorMessage == Some("Maximum processing attempts exhausted."))
    && (job.errorMessage.Some? && 1 <= |job.errorMessage.value| <= 2_000 ==> dead.errorMessage == job.errorMessage)
  }

  // A claim ends the first 50 unlocked spent rows as dead letters. Every other row
  // it leaves as it is, but for the one it hands out.
  lemma ReapOutcome(cfg: Config, w: World, op: Op, m: nat)
    requires op.ClaimOp? && WellFormed(w.db) && m < |w.db.jobs|
    ensures m < |Next(cfg, w, op).db.jobs|
    ensures var job, r := w.db.jobs[m], Next(cfg, w, op).db.jobs[m];
      if m !in op.locked && Spent(job, op.types, op.now)
         && SpentBetween(w.db.jobs, 0, m, op.types, op.locked, op.now) < 50
      then r.status == DeadLettered && r.photo == job.photo && ShowsLastFailure(job, r)
      else r == job || ReplyOf(cfg, w, op) == Claimed(m)
  {
    ReapRows(cfg, w.db, w.db.jobs, 0, REAP_LIMIT, op.types, op.locked, op.now, m);
    ReapedExactly(w.db.jobs, 0, REAP_LIMIT, op.types, op.locked, op.now, m);
    JobPhotos.ReapEnds(cfg, w.db, w.db.jobs, 0, REAP_LIMIT, op.types, op.locked, op.now, m);
  }

  // ----- retries -----

  lemma QueuedStep(cfg: Config, w: World, op: Op, j: nat, r: Time)
    requires Inv(cfg, w) && Enabled(w, op) && j < |w.db.jobs|
    requires w.db.jobs[j].status == Queued && w.db.jobs[j].retryAfter == Some(r)
    ensures j < |Next(cfg, w, op).db.jobs|
    ensures Next(cfg, w, op).db.jobs[j] == w.db.jobs[j] || r <= op.now
    ensures ReplyOf(cfg, w, op) == Claimed(j) ==> r <= op.now
  {
    assert RowOk(cfg, w, w.db.jobs[j]);
    StepRow(cfg, w, op, j);
  }

  lemma {:induction false} QueuedUntil(cfg: Config, ws: seq<World>, ops: seq<Op>, k: nat, m: nat, j: nat, r: Time)
    requires Run(cfg, ws, ops) && k <= m < |ws| && j < |ws[k].db.jobs|
    requires ws[k].db.jobs[j].status == Queued && ws[k].db.jobs[j].retryAfter == Some(r)
    ensures j < |ws[m].db.jobs| && (ws[m].db.jobs[j] == ws[k].db.jobs[j] || r <= ws[m].now)
    decreases m
  {
    if k < m {
      QueuedUntil(cfg, ws, ops, k, m - 1, j, r);
      ReachableInv(cfg, ws, ops, m - 1);
      assert StepAt(cfg, ws, ops, m - 1);
      if ws[m - 1].db.jobs[j] == ws[k].db.jobs[j] {
        QueuedStep(cfg, ws[m - 1], ops[m - 1], j, r);
      } else {
        StepRow(cfg, ws[m - 1], ops[m - 1], j);
      }
    }
  }

  // The retry time told to the sender of a failure: the backoff for the attempts
  // granted so far, times the jitter, after the failure.
  lemma RetryIsBackoff(cfg: Config, ws: seq<World>, ops: seq<Op>, k: nat, r: Time)
    requires Run(cfg, ws, ops) && StepAt(cfg, ws, ops, k) && ops[k].FailOp?
    requires ReplyOf(cfg, ws[k], ops[k]) == RetryScheduled(r)
    ensures IsJittered(Backoff(cfg.RetryBase(), cfg.RetryMax(), CountGrants(cfg, ws, ops, ops[k].job, k)),
                       ops[k].jitter, r - ops[k].now)
  {
    var count := ws[k].db.jobs[ops[k].job].attemptCount;
    AttemptCountIsGrants(cfg, ws, ops, ops[k].job, k);
    RetryDelayIsBackoff(cfg, count, ops[k].jitter);
    assert r - ops[k].now == RetryDelay(cfg, count, ops[k].jitter);
  }

  // Before its retry time a queued job is not handed out to anyone.
  lemma RetryWaits(cfg: Config, ws: seq<World>, ops: seq<Op>, k: nat, m: nat, b: AttemptId, r: Time)
    requires Run(cfg, ws, ops) && StepAt(cfg, ws, ops, k) && ops[k].FailOp? && k < m < |ops|
    requires ReplyOf(cfg, ws[k], ops[k]) == RetryScheduled(r) && Grants(cfg, ws[m], ops[m], ops[k].job, b)
    ensures ops[k].now < r <= ops[m].now
  {
    var j := ops[k].job;
    RetryIsQueued(cfg, ws, ops, k, r);
    QueuedUntil(cfg, ws, ops, k + 1, m, j, r);
    ReachableInv(cfg, ws, ops, m);
    assert StepAt(cfg, ws, ops, m);
    if ws[m].db.jobs[j] == ws[k + 1].db.jobs[j] {
      QueuedStep(cfg, ws[m], ops[m], j, r);
    }
  }

  lemma RetryIsQueued(cfg: Config, ws: seq<World>, ops: seq<Op>, k: nat, r: Time)
    requires Run(cfg, ws, ops) && StepAt(cfg, ws, ops, k) && ops[k].FailOp?
    requires ReplyOf(cfg, ws[k], ops[k]) == RetryScheduled(r)
    ensures ops[k].job < |ws[k + 1].db.jobs| && ops[k].now < r
    ensures ws[k + 1].db.jobs[ops[k].job].status == Queued && ws[k + 1].db.jobs[ops[k].job].retryAfter == Some(r)
  {
    RetryDelayGrows(cfg, ws[k].db.jobs[ops[k].job].attemptCount, ops[k].jitter);
  }

  // A failure that queues its job says so with the retry time, and no other does.
  lemma QueuedIsTold(cfg: Config, ws: seq<World>, ops: seq<Op>, k: nat)
    requires Run(cfg, ws, ops) && StepAt(cfg, ws, ops, k) && ops[k].FailOp? && ws[k + 1].db != ws[k].db
    ensures ops[k].job < |ws[k + 1].db.jobs|
    ensures ws[k + 1].db.jobs[ops[k].job].status == Queued <==> ReplyOf(cfg, ws[k], ops[k]).RetryScheduled?
  {
  }

  // From its retry time on, and not before, a queued job is handed out to whoever
  // asks for its type and meets no other unlocked row.
  lemma QueuedIsDue(cfg: Config, ws: seq<World>, ops: seq<Op>, k: nat, j: nat, r: Time, newId: AttemptId,
                    locked: set<nat>, now: Time)
    requires Run(cfg, ws, ops) && k < |ws| && j < |ws[k].db.jobs|
    requires ws[k].db.jobs[j].status == Queued && ws[k].db.jobs[j].retryAfter == Some(r)
    requires j !in locked && forall i | 0 <= i < |ws[k].db.jobs| && i != j :: i in locked
    ensures ReplyOf(cfg, ws[k], ClaimOp({ws[k].db.jobs[j].jobType}, locked, newId, now)) == Claimed(j) <==> r <= now
  {
    ReachableInv(cfg, ws, ops, k);
    assert RowOk(cfg, ws[k], ws[k].db.jobs[j]);
    ClaimOutcome(cfg, ws[k], ClaimOp({ws[k].db.jobs[j].jobType}, locked, newId, now), j);
  }

  // ----- heartbeats, completions, uploads -----

  // A heartbeat renews the lease exactly when its sender owns the job, for a
  // whole lease from its own time.
  lemma HeartbeatOutcome(cfg: Config, w: World, op: Op)
    requires op.HeartbeatOp?
    ensures ReplyOf(cfg, w, op) == Renewed(op.now + cfg.LeaseSeconds()) <==> Owner(w, op.job, op.attempt, op.now)
    ensures Owner(w, op.job, op.attempt, op.now) ==>
      && OnlyRow(w.db, Next(cfg, w, op).db, op.job)
      && Holds(Next(cfg, w, op), op.job, op.attempt, op.now + cfg.LeaseSeconds())
    ensures !Owner(w, op.job, op.attempt, op.now) ==> Next(cfg, w, op).db == w.db
  {
  }

  // The list a worker may not send for a job of the other type.
  function Misplaced(job: Job, payload: Payload): seq<string> {
    if job.jobType == Ocr then payload.faces else payload.detections
  }

  // A completion changes the tables exactly when its sender owns the job and
  // sends no list of the other job type; the row then holds what was sent.
  lemma CompleteOutcome(cfg: Config, w: World, op: Op)
    requires op.CompleteOp?
    ensures Next(cfg, w, op).db != w.db <==>
      Owner(w, op.job, op.attempt, op.now) && Misplaced(w.db.jobs[op.job], op.payload) == []
    ensures Next(cfg, w, op).db != w.db ==>
      && OnlyRow(w.db, Next(cfg, w, op).db, op.job)
      && Next(cfg, w, op).db.jobs[op.job].status == Completed
      && Next(cfg, w, op).db.jobs[op.job].result == Some(op.payload)
      && Next(cfg, w, op).db.jobs[op.job].attemptId == Some(op.attempt)
      && ReplyOf(cfg, w, op) == StatusReply(Completed)
    ensures Owner(w, op.job, op.attempt, op.now) && Misplaced(w.db.jobs[op.job], op.payload) != [] ==>
      ReplyOf(cfg, w, op) == Unprocessable
  {
    if op.job < |w.db.jobs| {
      StepRow(cfg, w, op, op.job);
    }
  }

  // Every completion is answered by what became of its attempt: completed, also
  // when it is sent again, unprocessable, or a conflict.
  lemma CompleteReply(cfg: Config, w: World, op: Op)
    requires op.CompleteOp?
    ensures var reply := ReplyOf(cfg, w, op);
      if op.job >= |w.db.jobs| then reply == NotFound
      else
        var job, owner := w.db.jobs[op.job], Owner(w, op.job, op.attempt, op.now);
        && (reply == StatusReply(Completed) <==>
              (job.attemptId == Some(op.attempt) && job.status == Completed)
              || (owner && Misplaced(job, op.payload) == []))
        && (reply == Unprocessable <==> owner && Misplaced(job, op.payload) != [])
        && (reply == StatusReply(Completed) || reply == Unprocessable || reply == Conflict)
  {
  }

  // Every failure is answered by the state of its attempt's job, also when it is
  // sent again; nobody but the attempt on the row is told anything.
  lemma FailReply(cfg: Config, w: World, op: Op)
    requires op.FailOp? && op.job < |w.db.jobs|
    ensures op.job < |Next(cfg, w, op).db.jobs|
    ensures var job, job', reply := w.db.jobs[op.job], Next(cfg, w, op).db.jobs[op.job], ReplyOf(cfg, w, op);
      if Owner(w, op.job, op.attempt, op.now) then
        if job'.status == Queued then job'.retryAfter.Some? && reply == RetryScheduled(job'.retryAfter.value)
        else reply == StatusReply(job'.status)
      else if job.attemptId != Some(op.attempt) || job.status == Processing then reply == Conflict
      else if job.status == Queued then reply == RetryAlreadyScheduled
      else reply == StatusReply(job.status)
  {
  }

  // A published photo gets one job of each type, and either is handed out at any
  // time to whoever asks for its type first.
  lemma UploadOutcome(cfg: Config, w: World, op: Op, now: Time)
    requires op.UploadOp?
    ensures ReplyOf(cfg, w, op) == Accepted <==> op.maxAttempts > 0
    ensures op.maxAttempts > 0 ==>
      && var p, n := |w.db.photos|, |w.db.jobs|;
         var r := Next(cfg, w, op).db;
      && |r.photos| == p + 1 && r.photos[..p] == w.db.photos && r.photos[p] == InProgress
      && |r.jobs| == n + 2 && r.jobs[..n] == w.db.jobs
      && r.jobs[n].photo == r.jobs[n + 1].photo == p
      && {r.jobs[n].jobType, r.jobs[n + 1].jobType} == {Ocr, FacePhotoScan}
      && forall i | n <= i < n + 2 ::
           r.jobs[i].maxAttempts == op.maxAttempts && Waiting(r.jobs[i], {r.jobs[i].jobType}, now)
    ensures op.maxAttempts <= 0 ==> Next(cfg, w, op).db == w.db
  {
  }

  // ----- the times in a row -----

  predicate NotAfter(t: Option<Time>, now: Time) {
    t.Some? ==> t.value <= now
  }

  // A row shows when it was last handed out and when it ended, and a dead letter
  // shows that it is one.
  predicate Dated(job: Job, now: Time) {
    && (job.claimedAt.Some? <==> job.attemptCount > 0)
    && (job.deadLetteredAt == if job.status == DeadLettered then job.finishedAt else None)
    && NotAfter(job.claimedAt, now) && NotAfter(job.finishedAt, now)
    && (job.status == DeadLettered ==> job.errorMessage.Some? && |job.errorMessage.value| <= 2_000)
  }

  lemma StepIsDated(cfg: Config, w: World, op: Op, j: nat)
    requires Inv(cfg, w) && Enabled(w, op) && j < |w.db.jobs| && Dated(w.db.jobs[j], w.now)
    ensures j < |Next(cfg, w, op).db.jobs| && Dated(Next(cfg, w, op).db.jobs[j], Next(cfg, w, op).now)
    ensures var job, job' := w.db.jobs[j], Next(cfg, w, op).db.jobs[j];
      && (Terminal(job'.status) && !Terminal(job.status) ==> job'.finishedAt == Some(op.now))
      && (job'.attemptCount > job.attemptCount ==>
            job'.claimedAt == Some(op.now) && job'.errorMessage == None && job'.status == Processing)
  {
    assert RowOk(cfg, w, w.db.jobs[j]);
    StepRow(cfg, w, op, j);
  }

  lemma {:induction false} RowsAreDated(cfg: Config, ws: seq<World>, ops: seq<Op>, k: nat, j: nat)
    requires Run(cfg, ws, ops) && k < |ws| && j < |ws[k].db.jobs|
    ensures Dated(ws[k].db.jobs[j], ws[k].now)
  {
    if k > 0 {
      assert StepAt(cfg, ws, ops, k - 1);
      ReachableInv(cfg, ws, ops, k - 1);
      if j < |ws[k - 1].db.jobs| {
        RowsAreDated(cfg, ws, ops, k - 1, j);
        StepIsDated(cfg, ws[k - 1], ops[k - 1], j);
      } else {
        StepNewRow(cfg, ws[k - 1], ops[k - 1], j);
      }
    }
  }
}
