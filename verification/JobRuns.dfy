// Theorems about every run of the job protocol: any interleaving of claims,
// heartbeats, completions, failures and uploads, with messages duplicated,
// delayed or reordered at will (an operation may name any job and any attempt
// at any time). Assumed: each endpoint is one atomic step, time never goes
// back, and a claim draws an id never drawn before.
module JobRuns {
  import opened Common
  import opened JobModel

  datatype Op =
    | ClaimOp(types: set<JobType>, locked: set<nat>, newId: AttemptId, now: Time)
    | HeartbeatOp(job: nat, attempt: AttemptId, now: Time)
    | CompleteOp(job: nat, attempt: AttemptId, payload: Payload, now: Time)
    | FailOp(job: nat, attempt: AttemptId, retryable: bool, text: string, jitter: real, now: Time)
    | UploadOp(maxAttempts: int, now: Time)

  type Tables = db: Db | WellFormed(db) witness Db([], [])

  // `issued` are the attempt ids drawn so far, `now` the time of the last step.
  datatype World = World(db: Tables, issued: set<AttemptId>, now: Time)

  function Apply(cfg: Config, db: Tables, op: Op): (r: Outcome)
    ensures WellFormed(r.db)
  {
    match op
    case ClaimOp(types, locked, newId, now) => Claim(cfg, db, types, locked, newId, now)
    case HeartbeatOp(j, attempt, now) => Heartbeat(cfg, db, j, attempt, now)
    case CompleteOp(j, attempt, payload, now) => Complete(db, j, attempt, payload, now)
    case FailOp(j, attempt, retryable, text, jitter, now) => Fail(cfg, db, j, attempt, retryable, text, jitter, now)
    case UploadOp(maxAttempts, now) => Upload(db, maxAttempts)
  }

  function ReplyOf(cfg: Config, w: World, op: Op): Reply {
    Apply(cfg, w.db, op).reply
  }

  function Next(cfg: Config, w: World, op: Op): World {
    World(Apply(cfg, w.db, op).db, if op.ClaimOp? then w.issued + {op.newId} else w.issued, op.now)
  }

  predicate Enabled(w: World, op: Op) {
    && w.now <= op.now
    && (op.ClaimOp? ==> op.newId !in w.issued)
    && (op.FailOp? ==> 0.8 <= op.jitter <= 1.2)
  }

  predicate StepAt(cfg: Config, ws: seq<World>, ops: seq<Op>, i: nat) {
    i < |ops| && |ws| == |ops| + 1 && Enabled(ws[i], ops[i]) && ws[i + 1] == Next(cfg, ws[i], ops[i])
  }

  ghost predicate Run(cfg: Config, ws: seq<World>, ops: seq<Op>) {
    && |ws| == |ops| + 1
    && ws[0].db == Db([], []) && ws[0].issued == {}
    && forall i | 0 <= i < |ops| :: StepAt(cfg, ws, ops, i)
  }

  // ----- what one step does to one row -----

  ghost predicate RowStep(cfg: Config, op: Op, i: nat, reply: Reply, job: Job, job': Job) {
    match op
    case ClaimOp(types, locked, newId, now) =>
      if reply == Claimed(i) then ClaimFilter(job, types, now) && job' == Claiming(cfg, job, newId, now)
      else job' == job || (ReapFilter(job, types, now) && job' == DeadLettering(job, ReapReason(job), now))
    case HeartbeatOp(j, attempt, now) =>
      if i == j && Verify(job, attempt, false, now) == Active
      then job' == job.(leaseExpiresAt := Some(now + cfg.LeaseSeconds()))
      else job' == job
    case CompleteOp(j, attempt, payload, now) =>
      if i == j && Verify(job, attempt, true, now) == Active && PayloadFits(job.jobType, payload)
      then job' == Completing(job, payload, now)
      else job' == job
    case FailOp(j, attempt, retryable, text, jitter, now) =>
      if i == j && Verify(job, attempt, true, now) == Active
      then job' == Failing(cfg, job, retryable, text, jitter, now)
      else job' == job
    case UploadOp(maxAttempts, now) => job' == job
  }

  lemma {:induction false} ReapRows(cfg: Config, db: Db, committed: seq<Job>, i: nat, budget: nat,
                                    types: set<JobType>, locked: set<nat>, now: Time, m: nat)
    requires WellFormed(db) && i <= |db.jobs| && m < |db.jobs|
    ensures var r := Reap(cfg, db, committed, i, budget, types, locked, now);
      || r.jobs[m] == db.jobs[m]
      || (i <= m && m !in locked && ReapFilter(db.jobs[m], types, now)
          && r.jobs[m] == DeadLettering(db.jobs[m], ReapReason(db.jobs[m]), now))
    decreases |db.jobs| - i
  {
    if i < |db.jobs| && budget > 0 {
      if i !in locked && ReapFilter(db.jobs[i], types, now) {
        var dead := DeadLettering(db.jobs[i], ReapReason(db.jobs[i]), now);
        var db' := WriteAndSync(cfg, db, committed, i, dead);
        ReapRows(cfg, db', committed, i + 1, budget - 1, types, locked, now, m);
      } else {
        ReapRows(cfg, db, committed, i + 1, budget, types, locked, now, m);
      }
    }
  }

  lemma StepRow(cfg: Config, w: World, op: Op, i: nat)
    requires i < |w.db.jobs|
    ensures |Next(cfg, w, op).db.jobs| >= |w.db.jobs|
    ensures RowStep(cfg, op, i, ReplyOf(cfg, w, op), w.db.jobs[i], Next(cfg, w, op).db.jobs[i])
  {
    if op.ClaimOp? {
      ReapRows(cfg, w.db, w.db.jobs, 0, REAP_LIMIT, op.types, op.locked, op.now, i);
    }
  }

  lemma StepNewRow(cfg: Config, w: World, op: Op, i: nat)
    requires |w.db.jobs| <= i < |Next(cfg, w, op).db.jobs|
    ensures op.UploadOp? && op.maxAttempts > 0
    ensures exists t :: Next(cfg, w, op).db.jobs[i] == NewJob(|w.db.photos|, t, op.maxAttempts)
  {
    if op.UploadOp? {
      var t := if i == |w.db.jobs| then Ocr else FacePhotoScan;
      assert Next(cfg, w, op).db.jobs[i] == NewJob(|w.db.photos|, t, op.maxAttempts);
    }
  }

  // ----- the invariant of every reachable row -----

  predicate RowOk(cfg: Config, w: World, job: Job) {
    && 1 <= job.maxAttempts && job.attemptCount <= job.maxAttempts
    && (job.attemptCount == 0 <==> job.attemptId == None)
    && (job.attemptId.Some? ==> job.attemptId.value in w.issued)
    && (job.status == Queued ==> job.attemptCount < job.maxAttempts)
    && (job.status == Processing ==>
          job.attemptId.Some? && job.leaseExpiresAt.Some? && job.leaseExpiresAt.value <= w.now + cfg.LeaseSeconds())
    && (job.status != Processing ==> job.leaseExpiresAt == None)
    && (job.retryAfter.Some? ==> job.status == Queued)
    && (job.status == Completed <==> job.result.Some?)
    && (Terminal(job.status) <==> job.finishedAt.Some?)
    && (Terminal(job.status) ==> job.attemptId.Some?)
  }

  ghost predicate Inv(cfg: Config, w: World) {
    forall i | 0 <= i < |w.db.jobs| :: RowOk(cfg, w, w.db.jobs[i])
  }

  lemma StepKeepsInv(cfg: Config, w: World, op: Op)
    requires Inv(cfg, w) && Enabled(w, op)
    ensures Inv(cfg, Next(cfg, w, op))
  {
    var w' := Next(cfg, w, op);
    forall i | 0 <= i < |w'.db.jobs| ensures RowOk(cfg, w', w'.db.jobs[i]) {
      if i < |w.db.jobs| {
        StepRow(cfg, w, op, i);
        assert RowOk(cfg, w, w.db.jobs[i]);
      } else {
        StepNewRow(cfg, w, op, i);
      }
    }
  }

  lemma {:induction false} ReachableInv(cfg: Config, ws: seq<World>, ops: seq<Op>, k: nat)
    requires Run(cfg, ws, ops) && k < |ws|
    ensures Inv(cfg, ws[k])
  {
    if k > 0 {
      assert StepAt(cfg, ws, ops, k - 1);
      ReachableInv(cfg, ws, ops, k - 1);
      StepKeepsInv(cfg, ws[k - 1], ops[k - 1]);
    }
  }

  lemma {:induction false} TimeAndRowsGrow(cfg: Config, ws: seq<World>, ops: seq<Op>, i: nat, k: nat)
    requires Run(cfg, ws, ops) && i <= k < |ws|
    ensures ws[i].now <= ws[k].now && ws[i].issued <= ws[k].issued && |ws[i].db.jobs| <= |ws[k].db.jobs|
    ensures forall m | i <= m < k :: ws[i].now <= ops[m].now <= ws[k].now
    decreases k - i
  {
    if i < k {
      assert StepAt(cfg, ws, ops, k - 1);
      TimeAndRowsGrow(cfg, ws, ops, i, k - 1);
      if |ws[k - 1].db.jobs| > 0 {
        StepRow(cfg, ws[k - 1], ops[k - 1], 0);
      }
    }
  }

  // ----- lease exclusivity -----

  predicate Holds(w: World, j: nat, attempt: AttemptId, until: Time) {
    && j < |w.db.jobs|
    && w.db.jobs[j].status == Processing
    && w.db.jobs[j].attemptId == Some(attempt)
    && w.db.jobs[j].leaseExpiresAt.Some?
    && until <= w.db.jobs[j].leaseExpiresAt.value
  }

  // The worker of `attempt` itself gives job j up: an accepted completion or failure.
  predicate GivesUp(w: World, op: Op, j: nat, attempt: AttemptId) {
    && j < |w.db.jobs|
    && (op.CompleteOp? || op.FailOp?) && op.job == j && op.attempt == attempt
    && Verify(w.db.jobs[j], attempt, true, op.now) == Active
    && (op.CompleteOp? ==> PayloadFits(w.db.jobs[j].jobType, op.payload))
  }

  predicate Grants(cfg: Config, w: World, op: Op, j: nat, attempt: AttemptId) {
    op.ClaimOp? && op.newId == attempt && ReplyOf(cfg, w, op) == Claimed(j)
  }

  lemma StepKeepsHolder(cfg: Config, w: World, op: Op, j: nat, attempt: AttemptId, until: Time)
    requires Inv(cfg, w) && Enabled(w, op)
    requires Holds(w, j, attempt, until) && op.now < until && !GivesUp(w, op, j, attempt)
    ensures Holds(Next(cfg, w, op), j, attempt, until)
  {
    StepRow(cfg, w, op, j);
    assert RowOk(cfg, w, w.db.jobs[j]);
  }

  lemma {:induction false} HolderKeepsJob(cfg: Config, ws: seq<World>, ops: seq<Op>, i: nat, k: nat, j: nat,
                                          attempt: AttemptId, until: Time)
    requires Run(cfg, ws, ops) && i <= k < |ws|
    requires Holds(ws[i], j, attempt, until)
    requires forall m | i <= m < k :: ops[m].now < until && !GivesUp(ws[m], ops[m], j, attempt)
    ensures Holds(ws[k], j, attempt, until)
    decreases k - i
  {
    if i < k {
      assert StepAt(cfg, ws, ops, k - 1);
      HolderKeepsJob(cfg, ws, ops, i, k - 1, j, attempt, until);
      ReachableInv(cfg, ws, ops, k - 1);
      StepKeepsHolder(cfg, ws[k - 1], ops[k - 1], j, attempt, until);
    }
  }

  // At time t the worker of `attempt` may rely on job j: some state reached by
  // t granted it a lease beyond t, and it has not given the job up by t. The
  // lease may be one the worker was told of long ago.
  ghost predicate Owns(cfg: Config, ws: seq<World>, ops: seq<Op>, j: nat, attempt: AttemptId, t: Time)
    requires Run(cfg, ws, ops)
  {
    exists i | 0 <= i < |ws| ::
      && ws[i].now <= t
      && Holds(ws[i], j, attempt, t + 1)
      && forall m | i <= m < |ops| && GivesUp(ws[m], ops[m], j, attempt) :: t < ops[m].now
  }

  lemma HoldersAgree(cfg: Config, ws: seq<World>, ops: seq<Op>, i: nat, k: nat, j: nat,
                     a: AttemptId, b: AttemptId, t: Time)
    requires Run(cfg, ws, ops) && i <= k < |ws| && ws[k].now <= t
    requires Holds(ws[i], j, a, t + 1) && Holds(ws[k], j, b, t + 1)
    requires forall m | i <= m < |ops| && GivesUp(ws[m], ops[m], j, a) :: t < ops[m].now
    ensures a == b
  {
    TimeAndRowsGrow(cfg, ws, ops, i, k);
    HolderKeepsJob(cfg, ws, ops, i, k, j, a, t + 1);
  }

  // Lease exclusivity: no two attempts ever own a job at the same time.
  lemma OwnershipIsExclusive(cfg: Config, ws: seq<World>, ops: seq<Op>, j: nat, a: AttemptId, b: AttemptId, t: Time)
    requires Run(cfg, ws, ops)
    requires Owns(cfg, ws, ops, j, a, t) && Owns(cfg, ws, ops, j, b, t)
    ensures a == b
  {
    var i :| 0 <= i < |ws| && ws[i].now <= t && Holds(ws[i], j, a, t + 1)
          && forall m | i <= m < |ops| && GivesUp(ws[m], ops[m], j, a) :: t < ops[m].now;
    var k :| 0 <= k < |ws| && ws[k].now <= t && Holds(ws[k], j, b, t + 1)
          && forall m | k <= m < |ops| && GivesUp(ws[m], ops[m], j, b) :: t < ops[m].now;
    if i <= k {
      HoldersAgree(cfg, ws, ops, i, k, j, a, b, t);
    } else {
      HoldersAgree(cfg, ws, ops, k, i, j, b, a, t);
    }
  }

  // The same from the claimant's side: job j is granted again only after the
  // previous holder gave it up, or once the lease it was told of has run out.
  lemma RegrantWaitsForLease(cfg: Config, ws: seq<World>, ops: seq<Op>, i: nat, k: nat, j: nat,
                             a: AttemptId, b: AttemptId, until: Time)
    requires Run(cfg, ws, ops) && i <= k < |ops|
    requires Holds(ws[i], j, a, until) && Grants(cfg, ws[k], ops[k], j, b)
    ensures a != b
    ensures until <= ops[k].now || exists m :: i <= m < k && GivesUp(ws[m], ops[m], j, a)
  {
    assert StepAt(cfg, ws, ops, k);
    TimeAndRowsGrow(cfg, ws, ops, i, k);
    ReachableInv(cfg, ws, ops, i);
    assert RowOk(cfg, ws[i], ws[i].db.jobs[j]);
    if ops[k].now < until && forall m | i <= m < k :: !GivesUp(ws[m], ops[m], j, a) {
      HolderKeepsJob(cfg, ws, ops, i, k, j, a, until);
      StepRow(cfg, ws[k], ops[k], j);
    }
  }

  // A grant does give ownership, for the whole lease unless it is given up.
  lemma GrantGivesOwnership(cfg: Config, ws: seq<World>, ops: seq<Op>, k: nat, j: nat, a: AttemptId, t: Time)
    requires Run(cfg, ws, ops) && k < |ops| && Grants(cfg, ws[k], ops[k], j, a)
    requires ops[k].now <= t < ops[k].now + cfg.LeaseSeconds()
    requires forall m | k < m < |ops| && GivesUp(ws[m], ops[m], j, a) :: t < ops[m].now
    ensures Owns(cfg, ws, ops, j, a, t)
  {
    assert StepAt(cfg, ws, ops, k);
    if j < |ws[k].db.jobs| {
      StepRow(cfg, ws[k], ops[k], j);
    }
    assert ws[k + 1].now <= t && Holds(ws[k + 1], j, a, t + 1);
  }

  // ----- a lost lease is lost for good -----

  // The attempt was drawn, and it does not hold an unexpired lease on job j.
  predicate Spent(w: World, j: nat, attempt: AttemptId) {
    && j < |w.db.jobs| && attempt in w.issued
    && var job := w.db.jobs[j];
       || job.attemptId != Some(attempt)
       || job.status != Processing
       || job.leaseExpiresAt == None
       || job.leaseExpiresAt.value <= w.now
  }

  predicate ByAttempt(op: Op, j: nat, attempt: AttemptId) {
    (op.HeartbeatOp? || op.CompleteOp? || op.FailOp?) && op.job == j && op.attempt == attempt
  }

  lemma StepKeepsSpent(cfg: Config, w: World, op: Op, j: nat, attempt: AttemptId)
    requires Inv(cfg, w) && Enabled(w, op) && Spent(w, j, attempt)
    ensures Spent(Next(cfg, w, op), j, attempt)
  {
    assert RowOk(cfg, w, w.db.jobs[j]);
    StepRow(cfg, w, op, j);
  }

  lemma {:induction false} SpentForever(cfg: Config, ws: seq<World>, ops: seq<Op>, i: nat, k: nat, j: nat,
                                        attempt: AttemptId)
    requires Run(cfg, ws, ops) && i <= k < |ws|
    requires Spent(ws[i], j, attempt)
    ensures Spent(ws[k], j, attempt)
    decreases k - i
  {
    if i < k {
      assert StepAt(cfg, ws, ops, k - 1);
      SpentForever(cfg, ws, ops, i, k - 1, j, attempt);
      ReachableInv(cfg, ws, ops, k - 1);
      StepKeepsSpent(cfg, ws[k - 1], ops[k - 1], j, attempt);
    }
  }

  // No heartbeat, completion or failure of a spent attempt, whenever it
  // arrives, changes anything.
  lemma SpentAttemptHasNoEffect(cfg: Config, ws: seq<World>, ops: seq<Op>, i: nat, k: nat, j: nat,
                                attempt: AttemptId)
    requires Run(cfg, ws, ops) && i <= k < |ops|
    requires Spent(ws[i], j, attempt) && ByAttempt(ops[k], j, attempt)
    ensures ws[k + 1].db == ws[k].db
  {
    assert StepAt(cfg, ws, ops, k);
    SpentForever(cfg, ws, ops, i, k, j, attempt);
  }

  // A completion or failure takes effect at most once: whatever the same
  // attempt sends later, in any order and any number of times, changes nothing.
  lemma EffectAtMostOnce(cfg: Config, ws: seq<World>, ops: seq<Op>, i: nat, k: nat, j: nat, attempt: AttemptId)
    requires Run(cfg, ws, ops) && i < k < |ops|
    requires (ops[i].CompleteOp? || ops[i].FailOp?) && ByAttempt(ops[i], j, attempt)
    requires ws[i + 1].db != ws[i].db && ByAttempt(ops[k], j, attempt)
    ensures ws[k + 1].db == ws[k].db
  {
    assert StepAt(cfg, ws, ops, i);
    ReachableInv(cfg, ws, ops, i);
    assert j < |ws[i].db.jobs| && RowOk(cfg, ws[i], ws[i].db.jobs[j]);
    StepRow(cfg, ws[i], ops[i], j);
    SpentAttemptHasNoEffect(cfg, ws, ops, i + 1, k, j, attempt);
  }

  predicate HeldBy(w: World, j: nat, attempt: AttemptId) {
    j < |w.db.jobs| && w.db.jobs[j].status == Processing && w.db.jobs[j].attemptId == Some(attempt)
  }

  // The step neither grants the job to anyone nor takes it from the attempt.
  ghost predicate Quiet(cfg: Config, w: World, op: Op, j: nat, attempt: AttemptId) {
    (forall b :: !Grants(cfg, w, op, j, b)) && !GivesUp(w, op, j, attempt)
  }

  lemma StepToHolder(cfg: Config, w: World, op: Op, j: nat, attempt: AttemptId)
    requires HeldBy(Next(cfg, w, op), j, attempt)
    ensures || Grants(cfg, w, op, j, attempt)
            || (HeldBy(w, j, attempt) && Quiet(cfg, w, op, j, attempt))
  {
    if j < |w.db.jobs| {
      StepRow(cfg, w, op, j);
    } else {
      StepNewRow(cfg, w, op, j);
    }
  }

  // Whoever changes a job holds its latest grant: the job was granted to that
  // attempt, and neither granted again nor given up since.
  lemma {:induction false} HolderHasLatestGrant(cfg: Config, ws: seq<World>, ops: seq<Op>, k: nat, j: nat,
                                                attempt: AttemptId) returns (g: nat)
    requires Run(cfg, ws, ops) && k < |ws| && HeldBy(ws[k], j, attempt)
    ensures g < k && Grants(cfg, ws[g], ops[g], j, attempt)
    ensures forall m | g < m < k :: Quiet(cfg, ws[m], ops[m], j, attempt)
  {
    assert k > 0 && StepAt(cfg, ws, ops, k - 1);
    StepToHolder(cfg, ws[k - 1], ops[k - 1], j, attempt);
    if Grants(cfg, ws[k - 1], ops[k - 1], j, attempt) {
      g := k - 1;
    } else {
      g := HolderHasLatestGrant(cfg, ws, ops, k - 1, j, attempt);
    }
  }

  lemma EffectNeedsLatestGrant(cfg: Config, ws: seq<World>, ops: seq<Op>, k: nat, j: nat, attempt: AttemptId)
    returns (g: nat)
    requires Run(cfg, ws, ops) && k < |ops|
    requires ByAttempt(ops[k], j, attempt) && ws[k + 1].db != ws[k].db
    ensures g < k && Grants(cfg, ws[g], ops[g], j, attempt)
    ensures forall m | g < m < k :: Quiet(cfg, ws[m], ops[m], j, attempt)
    ensures j < |ws[k].db.jobs| && ws[k].db.jobs[j].leaseExpiresAt.Some?
    ensures ops[k].now < ws[k].db.jobs[j].leaseExpiresAt.value
  {
    assert StepAt(cfg, ws, ops, k);
    g := HolderHasLatestGrant(cfg, ws, ops, k, j, attempt);
  }

  // ----- terminal rows and stored results -----

  lemma StepKeepsTerminal(cfg: Config, w: World, op: Op, j: nat)
    requires j < |w.db.jobs| && Terminal(w.db.jobs[j].status)
    ensures var w' := Next(cfg, w, op); j < |w'.db.jobs| && w'.db.jobs[j] == w.db.jobs[j]
  {
    StepRow(cfg, w, op, j);
  }

  lemma {:induction false} TerminalIsAbsorbing(cfg: Config, ws: seq<World>, ops: seq<Op>, i: nat, k: nat, j: nat)
    requires Run(cfg, ws, ops) && i <= k < |ws| && j < |ws[i].db.jobs|
    requires Terminal(ws[i].db.jobs[j].status)
    ensures j < |ws[k].db.jobs| && ws[k].db.jobs[j] == ws[i].db.jobs[j]
    decreases k - i
  {
    if i < k {
      assert StepAt(cfg, ws, ops, k - 1);
      TerminalIsAbsorbing(cfg, ws, ops, i, k - 1, j);
      StepKeepsTerminal(cfg, ws[k - 1], ops[k - 1], j);
    }
  }

  ghost predicate StoredBy(ws: seq<World>, ops: seq<Op>, m: nat, j: nat, attempt: AttemptId, payload: Payload)
    requires |ws| == |ops| + 1
  {
    && m < |ops| && ops[m].CompleteOp? && ops[m].job == j && ops[m].attempt == attempt
    && ops[m].payload == payload && GivesUp(ws[m], ops[m], j, attempt)
  }

  lemma {:induction false} CompletedRowWasStored(cfg: Config, ws: seq<World>, ops: seq<Op>, k: nat, j: nat)
    returns (m: nat)
    requires Run(cfg, ws, ops) && k < |ws| && j < |ws[k].db.jobs| && ws[k].db.jobs[j].status == Completed
    ensures ws[k].db.jobs[j].attemptId.Some? && ws[k].db.jobs[j].result.Some?
    ensures m < k && StoredBy(ws, ops, m, j, ws[k].db.jobs[j].attemptId.value, ws[k].db.jobs[j].result.value)
  {
    assert k > 0 && StepAt(cfg, ws, ops, k - 1);
    if j >= |ws[k - 1].db.jobs| {
      StepNewRow(cfg, ws[k - 1], ops[k - 1], j);
      assert false;
    } else {
      StepRow(cfg, ws[k - 1], ops[k - 1], j);
      if ws[k - 1].db.jobs[j].status == Completed {
        m := CompletedRowWasStored(cfg, ws, ops, k - 1, j);
      } else {
        m := k - 1;
      }
    }
  }

  // A "completed" reply to a completion means that what is stored, now and in
  // every later state, is a result that very attempt sent while it owned the job.
  lemma CompletedReplyMeansStored(cfg: Config, ws: seq<World>, ops: seq<Op>, k: nat, n: nat) returns (m: nat)
    requires Run(cfg, ws, ops) && k < n < |ws| && ops[k].CompleteOp?
    requires ReplyOf(cfg, ws[k], ops[k]) == StatusReply(Completed)
    ensures m <= k && m < |ops| && ops[m].CompleteOp?
    ensures StoredBy(ws, ops, m, ops[k].job, ops[k].attempt, ops[m].payload)
    ensures ops[k].job < |ws[n].db.jobs| && ws[n].db.jobs[ops[k].job].result == Some(ops[m].payload)
  {
    assert StepAt(cfg, ws, ops, k);
    var j := ops[k].job;
    StepRow(cfg, ws[k], ops[k], j);
    m := CompletedRowWasStored(cfg, ws, ops, k + 1, j);
    TerminalIsAbsorbing(cfg, ws, ops, k + 1, n, j);
  }

  // ----- bounded work -----

  // How many more changes a row can undergo, lease renewals apart.
  function Fuel(job: Job): int {
    if Terminal(job.status) then 0
    else 2 * (job.maxAttempts - job.attemptCount) + (if job.status == Processing then 1 else 0)
  }

  ghost predicate Changes(w: World, w': World, op: Op, j: nat) {
    j < |w.db.jobs| && j < |w'.db.jobs| && w'.db.jobs[j] != w.db.jobs[j] && !op.HeartbeatOp?
  }

  ghost function CountChanges(ws: seq<World>, ops: seq<Op>, j: nat, k: nat): nat
    requires |ws| == |ops| + 1 && k <= |ops|
  {
    if k == 0 then 0 else
      var rest := CountChanges(ws, ops, j, k - 1);
      if Changes(ws[k - 1], ws[k], ops[k - 1], j) then rest + 1 else rest
  }

  lemma StepBurnsFuel(cfg: Config, w: World, op: Op, j: nat)
    requires Inv(cfg, w) && Enabled(w, op) && j < |w.db.jobs|
    ensures var w' := Next(cfg, w, op);
      && j < |w'.db.jobs|
      && 0 <= Fuel(w'.db.jobs[j]) <= Fuel(w.db.jobs[j])
      && w'.db.jobs[j].maxAttempts == w.db.jobs[j].maxAttempts
      && (Changes(w, w', op, j) ==> Fuel(w'.db.jobs[j]) < Fuel(w.db.jobs[j]))
  {
    assert RowOk(cfg, w, w.db.jobs[j]);
    StepRow(cfg, w, op, j);
    StepKeepsInv(cfg, w, op);
    assert RowOk(cfg, Next(cfg, w, op), Next(cfg, w, op).db.jobs[j]);
  }

  // In every run a job changes at most 2 * max_attempts times, renewals apart:
  // every claim, retry, completion, failure and dead letter is counted.
  lemma {:induction false} WorkIsBounded(cfg: Config, ws: seq<World>, ops: seq<Op>, j: nat, k: nat)
    requires Run(cfg, ws, ops) && k < |ws|
    ensures if j < |ws[k].db.jobs|
            then CountChanges(ws, ops, j, k) + Fuel(ws[k].db.jobs[j]) <= 2 * ws[k].db.jobs[j].maxAttempts
            else CountChanges(ws, ops, j, k) == 0
    ensures j < |ws[k].db.jobs| ==> CountChanges(ws, ops, j, k) <= 2 * ws[k].db.jobs[j].maxAttempts
  {
    if k > 0 {
      assert StepAt(cfg, ws, ops, k - 1);
      WorkIsBounded(cfg, ws, ops, j, k - 1);
      ReachableInv(cfg, ws, ops, k - 1);
      ReachableInv(cfg, ws, ops, k);
      TimeAndRowsGrow(cfg, ws, ops, k - 1, k);
      if j < |ws[k - 1].db.jobs| {
        StepBurnsFuel(cfg, ws[k - 1], ops[k - 1], j);
      } else if j < |ws[k].db.jobs| {
        StepNewRow(cfg, ws[k - 1], ops[k - 1], j);
      }
      if j < |ws[k].db.jobs| {
        assert RowOk(cfg, ws[k], ws[k].db.jobs[j]);
      }
    }
  }

  ghost function CountGrants(cfg: Config, ws: seq<World>, ops: seq<Op>, j: nat, k: nat): nat
    requires |ws| == |ops| + 1 && k <= |ops|
  {
    if k == 0 then 0 else
      var rest := CountGrants(cfg, ws, ops, j, k - 1);
      if ReplyOf(cfg, ws[k - 1], ops[k - 1]) == Claimed(j) then rest + 1 else rest
  }

  lemma StepCountsGrant(cfg: Config, w: World, op: Op, j: nat)
    ensures var w', granted := Next(cfg, w, op), if ReplyOf(cfg, w, op) == Claimed(j) then 1 else 0;
      if j < |w.db.jobs| then j < |w'.db.jobs| && w'.db.jobs[j].attemptCount == w.db.jobs[j].attemptCount + granted
      else granted == 0 && (j < |w'.db.jobs| ==> w'.db.jobs[j].attemptCount == 0)
  {
    if j < |w.db.jobs| {
      StepRow(cfg, w, op, j);
    } else if j < |Next(cfg, w, op).db.jobs| {
      StepNewRow(cfg, w, op, j);
    }
  }

  lemma {:induction false} AttemptCountIs(cfg: Config, ws: seq<World>, ops: seq<Op>, j: nat, k: nat)
    requires Run(cfg, ws, ops) && k < |ws|
    ensures CountGrants(cfg, ws, ops, j, k) == if j < |ws[k].db.jobs| then ws[k].db.jobs[j].attemptCount else 0
  {
    if k > 0 {
      assert StepAt(cfg, ws, ops, k - 1);
      AttemptCountIs(cfg, ws, ops, j, k - 1);
      StepCountsGrant(cfg, ws[k - 1], ops[k - 1], j);
    }
  }

  // attempt_count is the number of times the job was handed out, never more
  // than max_attempts.
  lemma AttemptCountIsGrants(cfg: Config, ws: seq<World>, ops: seq<Op>, j: nat, k: nat)
    requires Run(cfg, ws, ops) && k < |ws| && j < |ws[k].db.jobs|
    ensures ws[k].db.jobs[j].attemptCount == CountGrants(cfg, ws, ops, j, k) <= ws[k].db.jobs[j].maxAttempts
  {
    AttemptCountIs(cfg, ws, ops, j, k);
    ReachableInv(cfg, ws, ops, k);
    assert RowOk(cfg, ws[k], ws[k].db.jobs[j]);
  }

  // ----- no job is stuck -----

  // Once its retry time and its lease have passed, a job that is not finished
  // satisfies exactly one of the two filters; only a processing one can be
  // exhausted.
  lemma NoJobIsStuck(cfg: Config, ws: seq<World>, ops: seq<Op>, k: nat, j: nat, now: Time)
    requires Run(cfg, ws, ops) && k < |ws| && j < |ws[k].db.jobs|
    requires var job := ws[k].db.jobs[j];
      && !Terminal(job.status)
      && (job.retryAfter.Some? ==> job.retryAfter.value <= now)
      && (job.leaseExpiresAt.Some? ==> job.leaseExpiresAt.value <= now)
    ensures var job := ws[k].db.jobs[j];
      && (ClaimFilter(job, {job.jobType}, now) <==> !ReapFilter(job, {job.jobType}, now))
      && (job.status == Queued ==> ClaimFilter(job, {job.jobType}, now))
  {
    ReachableInv(cfg, ws, ops, k);
    assert RowOk(cfg, ws[k], ws[k].db.jobs[j]);
  }

  lemma {:induction false} ReapTakesFirst(cfg: Config, db: Db, committed: seq<Job>, i: nat, budget: nat,
                                          types: set<JobType>, locked: set<nat>, now: Time, m: nat) returns (d: nat)
    requires WellFormed(db) && i <= m < |db.jobs| && budget > 0
    requires m !in locked && ReapFilter(db.jobs[m], types, now)
    ensures i <= d <= m && db.jobs[d].status != DeadLettered
    ensures Reap(cfg, db, committed, i, budget, types, locked, now).jobs[d].status == DeadLettered
    decreases |db.jobs| - i
  {
    if i !in locked && ReapFilter(db.jobs[i], types, now) {
      d := i;
      var dead := DeadLettering(db.jobs[i], ReapReason(db.jobs[i]), now);
      ReapRows(cfg, WriteAndSync(cfg, db, committed, i, dead), committed, i + 1, budget - 1, types, locked, now, i);
    } else {
      d := ReapTakesFirst(cfg, db, committed, i + 1, budget, types, locked, now, m);
    }
  }

  // A claim call with a due, unlocked row of a requested type always makes
  // progress: it hands a job out, or buries an exhausted one.
  lemma ClaimMakesProgress(cfg: Config, w: World, op: Op, j: nat)
    requires op.ClaimOp? && j < |w.db.jobs| && j !in op.locked
    requires w.db.jobs[j].jobType in op.types && Due(w.db.jobs[j], op.now)
    ensures var w' := Next(cfg, w, op);
      || (exists k: nat :: ReplyOf(cfg, w, op) == Claimed(k))
      || (exists d | 0 <= d < |w.db.jobs| <= |w'.db.jobs| ::
            w.db.jobs[d].status != DeadLettered && w'.db.jobs[d].status == DeadLettered)
  {
    var db := w.db;
    var r := Reap(cfg, db, db.jobs, 0, REAP_LIMIT, op.types, op.locked, op.now);
    if ReapFilter(db.jobs[j], op.types, op.now) {
      var d := ReapTakesFirst(cfg, db, db.jobs, 0, REAP_LIMIT, op.types, op.locked, op.now, j);
      var k := PickFrom(r.jobs, 0, op.types, op.locked, op.now);
      if k == |r.jobs| {
        assert Next(cfg, w, op).db.jobs[d].status == DeadLettered;
      } else {
        assert ReplyOf(cfg, w, op) == Claimed(k);
      }
    } else {
      ReapRows(cfg, db, db.jobs, 0, REAP_LIMIT, op.types, op.locked, op.now, j);
      assert ClaimFilter(r.jobs[j], op.types, op.now);
      var k := PickFrom(r.jobs, 0, op.types, op.locked, op.now);
      assert ReplyOf(cfg, w, op) == Claimed(k);
    }
  }
}
