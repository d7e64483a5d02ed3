// The job lease protocol of backend/app/worker_api.py on values: what each
// endpoint does to one row and to the tables. JobStore.dfy holds the same
// endpoints as methods that update rows in place; JobRuns.dfy has the theorems
// about every run.
module JobModel {
  import opened Common

  datatype JobType = Ocr | FacePhotoScan

  datatype Status = Queued | Processing | Completed | Failed | DeadLettered

  datatype PhotoStatus = InProgress | Ready | PartiallyReady | Unusable

  type AttemptId = nat

  // What a worker returns: one list per job type.
  datatype Payload = Payload(detections: seq<string>, faces: seq<string>)

  datatype Config = Config(leaseSetting: int, retryBaseSetting: int, retryMaxSetting: int, autoflush: bool) {
    function LeaseSeconds(): (seconds: int)
      ensures 30 <= seconds <= 3_600 && (30 <= leaseSetting <= 3_600 ==> seconds == leaseSetting)
    {
      Max(30, Min(leaseSetting, 3_600))
    }

    function RetryBase(): (seconds: int)
      ensures 1 <= seconds <= 3_600 && (1 <= retryBaseSetting <= 3_600 ==> seconds == retryBaseSetting)
    {
      Max(1, Min(retryBaseSetting, 3_600))
    }

    function RetryMax(): (seconds: int)
      ensures RetryBase() <= seconds <= 86_400
      ensures RetryBase() <= retryMaxSetting <= 86_400 ==> seconds == retryMaxSetting
    {
      Max(RetryBase(), Min(retryMaxSetting, 86_400))
    }
  }

  // One row of photo_jobs; `result` stands for the detections stored for it.
  datatype Job = Job(
    photo: nat,
    jobType: JobType,
    status: Status,
    attemptCount: nat,
    maxAttempts: nat,
    attemptId: Option<AttemptId>,
    claimedAt: Option<Time>,
    leaseExpiresAt: Option<Time>,
    retryAfter: Option<Time>,
    deadLetteredAt: Option<Time>,
    errorMessage: Option<string>,
    result: Option<Payload>,
    finishedAt: Option<Time>)

  // The tables: jobs in created_at order, and the status column of photos.
  datatype Db = Db(jobs: seq<Job>, photos: seq<PhotoStatus>)

  datatype Reply =
    | Claimed(job: nat)
    | NoJob
    | Renewed(lease: Time)
    | StatusReply(status: Status)
    | RetryScheduled(retryAfter: Time)
    | RetryAlreadyScheduled
    | Conflict
    | NotFound
    | Unprocessable
    | Accepted
    | Refused

  datatype Outcome = Outcome(db: Db, reply: Reply)

  predicate Terminal(s: Status) {
    s == Completed || s == Failed || s == DeadLettered
  }

  // ----- ownership of a job -----

  datatype Verdict = Active | Settled(status: Status) | RetryPending | Stale

  function Verify(job: Job, attempt: AttemptId, allowTerminal: bool, now: Time): Verdict {
    var matches := job.attemptId == Some(attempt);
    if allowTerminal && matches && Terminal(job.status) then Settled(job.status)
    else if allowTerminal && matches && job.status == Queued then RetryPending
    else if job.status != Processing || !matches then Stale
    else if job.leaseExpiresAt == None || job.leaseExpiresAt.value <= now then Stale
    else Active
  }

  // ----- photo status -----

  // The status column of the jobs of photo p, as the query returns it.
  function StatusesOf(jobs: seq<Job>, p: nat): seq<Status> {
    if jobs == [] then []
    else
      var rest := StatusesOf(jobs[..|jobs| - 1], p);
      if jobs[|jobs| - 1].photo == p then rest + [jobs[|jobs| - 1].status] else rest
  }

  function CountCompleted(statuses: seq<Status>): nat {
    if statuses == [] then 0
    else CountCompleted(statuses[1..]) + (if statuses[0] == Completed then 1 else 0)
  }

  // The aggregator the fail path and the reaper use.
  function SyncTerminalPhoto(statuses: seq<Status>, current: PhotoStatus): PhotoStatus {
    if statuses != [] && forall s | s in statuses :: Terminal(s) then
      if forall s | s in statuses :: s == Completed then Ready
      else if Completed in statuses then PartiallyReady
      else Unusable
    else current
  }

  // The aggregator the completion path uses.
  function MarkPhotoReady(statuses: seq<Status>, current: PhotoStatus): PhotoStatus {
    if statuses != [] && forall s | s in statuses :: Terminal(s) then
      var completed := CountCompleted(statuses);
      if completed == |statuses| then Ready
      else if completed > 0 then PartiallyReady
      else Unusable
    else if statuses != [] then InProgress
    else current
  }

  // ----- one row -----

  function Exponential(cfg: Config, attemptCount: nat): int {
    Min(cfg.RetryMax(), cfg.RetryBase() * Pow2(Min(20, Max(0, attemptCount - 1))))
  }

  function Jittered(seconds: int, jitter: real): int {
    Max(1, (seconds as real * jitter).Floor)
  }

  function RetryDelay(cfg: Config, attemptCount: nat, jitter: real): int {
    Jittered(Exponential(cfg, attemptCount), jitter)
  }

  function DeadLettering(job: Job, reason: string, now: Time): Job {
    job.(status := DeadLettered, errorMessage := Some(Take(reason, 2_000)), retryAfter := None,
         leaseExpiresAt := None, finishedAt := Some(now), deadLetteredAt := Some(now))
  }

  function Claiming(cfg: Config, job: Job, newId: AttemptId, now: Time): Job {
    job.(status := Processing, attemptCount := job.attemptCount + 1, attemptId := Some(newId),
         claimedAt := Some(now), leaseExpiresAt := Some(now + cfg.LeaseSeconds()), retryAfter := None,
         deadLetteredAt := None, errorMessage := None, finishedAt := None)
  }

  function Completing(job: Job, payload: Payload, now: Time): Job {
    job.(status := Completed, leaseExpiresAt := None, retryAfter := None, result := Some(payload),
         finishedAt := Some(now))
  }

  function FailureText(code: Option<string>, message: string): string {
    var prefix := if code.Some? then "[" + code.value + "] " else "";
    Take(prefix + message, 2_000)
  }

  function Failing(cfg: Config, job: Job, retryable: bool, text: string, jitter: real, now: Time): Job {
    if retryable && job.attemptCount < job.maxAttempts then
      job.(status := Queued, errorMessage := Some(text), leaseExpiresAt := None,
           retryAfter := Some(now + RetryDelay(cfg, job.attemptCount, jitter)), finishedAt := None)
    else if retryable then
      DeadLettering(job, text, now)
    else
      job.(status := Failed, errorMessage := Some(text), leaseExpiresAt := None, retryAfter := None,
           finishedAt := Some(now))
  }

  // The availability condition of both queries.
  predicate Due(job: Job, now: Time) {
    || (job.status == Queued && (job.retryAfter == None || job.retryAfter.value <= now))
    || (job.status == Processing && (job.leaseExpiresAt == None || job.leaseExpiresAt.value <= now))
  }

  predicate ClaimFilter(job: Job, types: set<JobType>, now: Time) {
    job.jobType in types && job.attemptCount < job.maxAttempts && Due(job, now)
  }

  predicate ReapFilter(job: Job, types: set<JobType>, now: Time) {
    job.jobType in types && job.attemptCount >= job.maxAttempts && Due(job, now)
  }

  // ----- endpoints -----

  predicate WellFormed(db: Db) {
    forall j | 0 <= j < |db.jobs| :: db.jobs[j].photo < |db.photos|
  }

  function Heartbeat(cfg: Config, db: Db, j: nat, attempt: AttemptId, now: Time): Outcome {
    if j >= |db.jobs| then Outcome(db, NotFound)
    else if Verify(db.jobs[j], attempt, false, now) != Active then Outcome(db, Conflict)
    else
      var lease := now + cfg.LeaseSeconds();
      Outcome(db.(jobs := db.jobs[j := db.jobs[j].(leaseExpiresAt := Some(lease))]), Renewed(lease))
  }

  predicate PayloadFits(jobType: JobType, payload: Payload) {
    match jobType
    case Ocr => payload.faces == []
    case FacePhotoScan => payload.detections == []
  }

  function Complete(db: Db, j: nat, attempt: AttemptId, payload: Payload, now: Time): Outcome
    requires WellFormed(db)
  {
    if j >= |db.jobs| then Outcome(db, NotFound)
    else
      var job := db.jobs[j];
      var verdict := Verify(job, attempt, true, now);
      if verdict == Settled(Completed) then Outcome(db, StatusReply(Completed))
      else if verdict != Active then Outcome(db, Conflict)
      else if !PayloadFits(job.jobType, payload) then Outcome(db, Unprocessable)
      else
        var jobs := db.jobs[j := Completing(job, payload, now)];
        var status := MarkPhotoReady(StatusesOf(jobs, job.photo), db.photos[job.photo]);
        Outcome(Db(jobs, db.photos[job.photo := status]), StatusReply(Completed))
  }

  // Writes row j, then runs the fail path's aggregator on the rows its query
  // sees: the pending write only when the session flushes before queries.
  function WriteAndSync(cfg: Config, db: Db, committed: seq<Job>, j: nat, job: Job): Db
    requires WellFormed(db) && j < |db.jobs| && job.photo == db.jobs[j].photo
  {
    var jobs := db.jobs[j := job];
    var seen := if cfg.autoflush then jobs else committed;
    Db(jobs, db.photos[job.photo := SyncTerminalPhoto(StatusesOf(seen, job.photo), db.photos[job.photo])])
  }

  function Fail(cfg: Config, db: Db, j: nat, attempt: AttemptId, retryable: bool, text: string,
                jitter: real, now: Time): Outcome
    requires WellFormed(db)
  {
    if j >= |db.jobs| then Outcome(db, NotFound)
    else
      var job := db.jobs[j];
      match Verify(job, attempt, true, now)
      case Settled(status) => Outcome(db, StatusReply(status))
      case RetryPending => Outcome(db, RetryAlreadyScheduled)
      case Stale => Outcome(db, Conflict)
      case Active =>
        var failed := Failing(cfg, job, retryable, text, jitter, now);
        if failed.status == Queued then
          Outcome(db.(jobs := db.jobs[j := failed]), RetryScheduled(failed.retryAfter.value))
        else
          Outcome(WriteAndSync(cfg, db, db.jobs, j, failed), StatusReply(failed.status))
  }

  const EXHAUSTED := "Maximum processing attempts exhausted."

  function ReapReason(job: Job): string {
    if job.errorMessage.Some? && job.errorMessage.value != "" then job.errorMessage.value else EXHAUSTED
  }

  const REAP_LIMIT := 50

  // The reaper: rows i, i+1, ... that pass the filter and are not locked by
  // another transaction, at most `budget` of them.
  function Reap(cfg: Config, db: Db, committed: seq<Job>, i: nat, budget: nat, types: set<JobType>,
                locked: set<nat>, now: Time): (r: Db)
    requires WellFormed(db) && i <= |db.jobs|
    ensures WellFormed(r) && |r.jobs| == |db.jobs| && |r.photos| == |db.photos|
    decreases |db.jobs| - i
  {
    if i == |db.jobs| || budget == 0 then db
    else if i !in locked && ReapFilter(db.jobs[i], types, now) then
      var dead := DeadLettering(db.jobs[i], ReapReason(db.jobs[i]), now);
      Reap(cfg, WriteAndSync(cfg, db, committed, i, dead), committed, i + 1, budget - 1, types, locked, now)
    else Reap(cfg, db, committed, i + 1, budget, types, locked, now)
  }

  lemma ReapTakes(cfg: Config, db: Db, committed: seq<Job>, i: nat, budget: nat, types: set<JobType>,
                  locked: set<nat>, now: Time)
    requires WellFormed(db) && i < |db.jobs| && budget > 0
    requires i !in locked && ReapFilter(db.jobs[i], types, now)
    ensures var dead := DeadLettering(db.jobs[i], ReapReason(db.jobs[i]), now);
      Reap(cfg, db, committed, i, budget, types, locked, now)
      == Reap(cfg, WriteAndSync(cfg, db, committed, i, dead), committed, i + 1, budget - 1, types, locked, now)
  {
  }

  lemma ReapSkips(cfg: Config, db: Db, committed: seq<Job>, i: nat, budget: nat, types: set<JobType>,
                  locked: set<nat>, now: Time)
    requires WellFormed(db) && i < |db.jobs|
    requires i in locked || !ReapFilter(db.jobs[i], types, now)
    ensures Reap(cfg, db, committed, i, budget, types, locked, now)
         == Reap(cfg, db, committed, i + 1, budget, types, locked, now)
  {
  }

  // The first row the claim query returns, or |jobs| when there is none.
  function PickFrom(jobs: seq<Job>, i: nat, types: set<JobType>, locked: set<nat>, now: Time): (k: nat)
    requires i <= |jobs|
    ensures i <= k <= |jobs|
    ensures k < |jobs| ==> k !in locked && ClaimFilter(jobs[k], types, now)
    ensures forall m | i <= m < k :: m in locked || !ClaimFilter(jobs[m], types, now)
    decreases |jobs| - i
  {
    if i == |jobs| then i
    else if i !in locked && ClaimFilter(jobs[i], types, now) then i
    else PickFrom(jobs, i + 1, types, locked, now)
  }

  function Claim(cfg: Config, db: Db, types: set<JobType>, locked: set<nat>, newId: AttemptId, now: Time): Outcome
    requires WellFormed(db)
  {
    var reaped := Reap(cfg, db, db.jobs, 0, REAP_LIMIT, types, locked, now);
    var k := PickFrom(reaped.jobs, 0, types, locked, now);
    if k == |reaped.jobs| then Outcome(reaped, NoJob)
    else
      var job := reaped.jobs[k];
      Outcome(Db(reaped.jobs[k := Claiming(cfg, job, newId, now)], reaped.photos[job.photo := InProgress]),
              Claimed(k))
  }

  function NewJob(photo: nat, jobType: JobType, maxAttempts: nat): Job {
    Job(photo, jobType, Queued, 0, maxAttempts, None, None, None, None, None, None, None, None)
  }

  // Publishing a photo: its row and one job of each type. The table refuses
  // max_attempts <= 0, and then nothing is stored.
  function Upload(db: Db, maxAttempts: int): Outcome {
    if maxAttempts <= 0 then Outcome(db, Refused)
    else
      var p := |db.photos|;
      Outcome(Db(db.jobs + [NewJob(p, Ocr, maxAttempts), NewJob(p, FacePhotoScan, maxAttempts)],
                 db.photos + [InProgress]), Accepted)
  }

  // ----- backoff -----

  lemma Scaled(a: int, b: int, k: int)
    requires a <= b && k >= 0
    ensures k * a <= k * b
  {
    assert k * (b - a) >= 0;
  }

  lemma ExponentialGrows(cfg: Config, attemptCount: nat)
    ensures 1 <= Exponential(cfg, attemptCount) <= Exponential(cfg, attemptCount + 1) <= cfg.RetryMax()
  {
    var m, n := Min(20, Max(0, attemptCount - 1)), Min(20, attemptCount);
    Pow2Grows(0, m);
    Pow2Grows(m, n);
    Scaled(1, Pow2(m), cfg.RetryBase());
    Scaled(Pow2(m), Pow2(n), cfg.RetryBase());
  }

  // The backoff as it is meant: the base for the first retry, doubled for each
  // further one, never above the maximum.
  function Backoff(base: int, most: int, attempt: nat): int {
    if attempt <= 1 then Min(most, base) else Min(most, 2 * Backoff(base, most, attempt - 1))
  }

  lemma DoubleScaled(base: int, n: nat)
    requires base >= 1
    ensures base * Pow2(n + 1) == 2 * (base * Pow2(n)) && base * Pow2(n) >= Pow2(n)
  {
    Pow2Grows(0, n);
    Scaled(1, base, Pow2(n));
    assert base * (2 * Pow2(n)) == 2 * (base * Pow2(n));
  }

  // The cap on the exponent never shows: by then the maximum is reached.
  lemma {:induction false} ExponentialIsBackoff(cfg: Config, attemptCount: nat)
    ensures Exponential(cfg, attemptCount) == Backoff(cfg.RetryBase(), cfg.RetryMax(), attemptCount)
  {
    if attemptCount >= 2 {
      ExponentialIsBackoff(cfg, attemptCount - 1);
      DoubleScaled(cfg.RetryBase(), Min(20, attemptCount - 2));
      DoubleScaled(cfg.RetryBase(), 20);
      Pow2Sum(10, 10);
      assert Pow2(10) == 1_024;
    }
  }

  // The wait times the jitter, in whole seconds and at least one.
  predicate IsJittered(wait: int, jitter: real, seconds: int) {
    var wanted := wait as real * jitter;
    seconds >= 1 && wanted - 1.0 < seconds as real && (seconds as real <= wanted || seconds == 1)
  }

  lemma JitteredIs(wait: int, jitter: real)
    ensures IsJittered(wait, jitter, Jittered(wait, jitter))
  {
  }

  // The retry delay is the backoff times the jitter.
  lemma RetryDelayIsBackoff(cfg: Config, attemptCount: nat, jitter: real)
    ensures IsJittered(Backoff(cfg.RetryBase(), cfg.RetryMax(), attemptCount), jitter,
                       RetryDelay(cfg, attemptCount, jitter))
  {
    ExponentialIsBackoff(cfg, attemptCount);
    JitteredIs(Exponential(cfg, attemptCount), jitter);
  }

  lemma ProductGrows(a: real, b: real, jitter: real, x: real, y: real)
    requires 1.0 <= a <= b && 0.8 <= jitter <= 1.2 && x == a * jitter && y == b * jitter
    ensures x <= y <= b * 1.2
  {
    assert (b - a) * jitter >= 0.0 && b * (1.2 - jitter) >= 0.0;
    assert y - x == (b - a) * jitter;
    assert b * 1.2 - y == b * (1.2 - jitter);
  }

  lemma AtLeastOneGrows(x: real, y: real, most: real)
    requires x <= y <= most && most >= 1.0
    ensures 1 <= Max(1, x.Floor) <= Max(1, y.Floor)
    ensures Max(1, y.Floor) as real <= most
  {
  }

  lemma JitteredGrows(a: int, b: int, limit: int, jitter: real)
    requires 1 <= a <= b <= limit && 0.8 <= jitter <= 1.2
    ensures 1 <= Jittered(a, jitter) <= Jittered(b, jitter)
    ensures Jittered(b, jitter) as real <= limit as real * 1.2
  {
    var x, y := a as real * jitter, b as real * jitter;
    calc {
      x;
      <= { ProductGrows(a as real, b as real, jitter, x, y); }
      y;
    }
    calc {
      y;
      <= { ProductGrows(a as real, b as real, jitter, x, y); }
      b as real * 1.2;
      <=
      limit as real * 1.2;
    }
    AtLeastOneGrows(x, y, limit as real * 1.2);
  }

  // A retry waits at least a second, at most a fifth more than the configured
  // maximum, and with the same jitter never less than the retry before it.
  lemma RetryDelayGrows(cfg: Config, attemptCount: nat, jitter: real)
    requires 0.8 <= jitter <= 1.2
    ensures 1 <= RetryDelay(cfg, attemptCount, jitter) <= RetryDelay(cfg, attemptCount + 1, jitter)
    ensures RetryDelay(cfg, attemptCount + 1, jitter) as real <= cfg.RetryMax() as real * 1.2
  {
    ExponentialGrows(cfg, attemptCount);
    JitteredGrows(Exponential(cfg, attemptCount), Exponential(cfg, attemptCount + 1), cfg.RetryMax(), jitter);
  }
}
