// The endpoints of backend/app/worker_api.py on mutable rows. Each method
// updates the row in place and is proved against the function of the same
// endpoint in JobModel.
module JobStore {
  import opened Common
  import opened JobModel

  class PhotoJob {
    const photo: nat
    const jobType: JobType
    const maxAttempts: nat
    var status: Status
    var attemptCount: nat
    var attemptId: Option<AttemptId>
    var claimedAt: Option<Time>
    var leaseExpiresAt: Option<Time>
    var retryAfter: Option<Time>
    var deadLetteredAt: Option<Time>
    var errorMessage: Option<string>
    var result: Option<Payload>
    var finishedAt: Option<Time>

    function Row(): Job
      reads this
    {
      Job(photo, jobType, status, attemptCount, maxAttempts, attemptId, claimedAt, leaseExpiresAt,
          retryAfter, deadLetteredAt, errorMessage, result, finishedAt)
    }

    constructor (photo: nat, jobType: JobType, maxAttempts: nat)
      ensures Row() == NewJob(photo, jobType, maxAttempts)
    {
      this.photo, this.jobType, this.maxAttempts := photo, jobType, maxAttempts;
      status, attemptCount, attemptId := Queued, 0, None;
      claimedAt, leaseExpiresAt, retryAfter := None, None, None;
      deadLetteredAt, errorMessage, result, finishedAt := None, None, None, None;
    }

    method DeadLetter(reason: string, now: Time)
      modifies this
      ensures Row() == DeadLettering(old(Row()), reason, now)
    {
      status := DeadLettered;
      errorMessage := Some(Take(reason, 2_000));
      retryAfter := None;
      leaseExpiresAt := None;
      finishedAt := Some(now);
      deadLetteredAt := Some(now);
    }

    method MarkClaimed(cfg: Config, newId: AttemptId, now: Time)
      modifies this
      ensures Row() == Claiming(cfg, old(Row()), newId, now)
    {
      status := Processing;
      attemptCount := attemptCount + 1;
      attemptId := Some(newId);
      claimedAt := Some(now);
      leaseExpiresAt := Some(now + cfg.LeaseSeconds());
      retryAfter := None;
      deadLetteredAt := None;
      errorMessage := None;
      finishedAt := None;
    }

    method MarkFailed(cfg: Config, retryable: bool, text: string, jitter: real, now: Time)
      modifies this
      ensures Row() == Failing(cfg, old(Row()), retryable, text, jitter, now)
    {
      errorMessage := Some(text);
      leaseExpiresAt := None;
      if retryable && attemptCount < maxAttempts {
        status := Queued;
        retryAfter := Some(now + RetryDelay(cfg, attemptCount, jitter));
        finishedAt := None;
      } else if retryable {
        DeadLetter(text, now);
      } else {
        status := Failed;
        retryAfter := None;
        finishedAt := Some(now);
      }
    }
  }

  class JobTable {
    var jobs: seq<PhotoJob>
    var photos: seq<PhotoStatus>

    ghost predicate Valid()
      reads this
    {
      && (forall j | 0 <= j < |jobs| :: jobs[j].photo < |photos|)
      && (forall i, j | 0 <= i < j < |jobs| :: jobs[i] != jobs[j])
    }

    function Rows(): (rows: seq<Job>)
      reads this, jobs
      ensures |rows| == |jobs|
    {
      seq(|jobs|, j requires 0 <= j < |jobs| reads this, jobs => jobs[j].Row())
    }

    function View(): (db: Db)
      reads this, jobs
      ensures |db.jobs| == |jobs| && db.photos == photos
      ensures Valid() ==> WellFormed(db)
    {
      Db(Rows(), photos)
    }

    constructor ()
      ensures Valid() && View() == Db([], [])
    {
      jobs, photos := [], [];
    }

    // The status query, filtered by photo, over rows as the database holds them.
    method QueryStatuses(rows: seq<Job>, p: nat) returns (statuses: seq<Status>)
      ensures statuses == StatusesOf(rows, p)
    {
      statuses := [];
      for i := 0 to |rows|
        invariant statuses == StatusesOf(rows[..i], p)
      {
        assert rows[..i + 1][..i] == rows[..i];
        if rows[i].photo == p {
          statuses := statuses + [rows[i].status];
        }
      }
      assert rows[..|rows|] == rows;
    }

    // What a query sees inside a transaction that began with `committed`.
    method SyncTerminalParent(cfg: Config, j: nat, ghost before: Db, committed: seq<Job>)
      requires Valid() && j < |jobs| && WellFormed(before)
      requires j < |before.jobs| && before.jobs[j].photo == jobs[j].photo && before.photos == photos
      requires Rows() == before.jobs[j := jobs[j].Row()]
      modifies this`photos
      ensures Valid() && View() == WriteAndSync(cfg, before, committed, j, old(jobs[j].Row()))
    {
      var p := jobs[j].photo;
      var seen := if cfg.autoflush then Rows() else committed;
      var statuses := QueryStatuses(seen, p);
      if statuses != [] && forall s | s in statuses :: Terminal(s) {
        if forall s | s in statuses :: s == Completed {
          photos := photos[p := Ready];
        } else if Completed in statuses {
          photos := photos[p := PartiallyReady];
        } else {
          photos := photos[p := Unusable];
        }
      }
      assert Rows() == before.jobs[j := jobs[j].Row()];
      assert photos == before.photos[p := photos[p]];
    }

    method HeartbeatJob(cfg: Config, j: nat, attempt: AttemptId, now: Time) returns (reply: Reply)
      requires Valid()
      modifies jobs
      ensures Valid() && Outcome(View(), reply) == Heartbeat(cfg, old(View()), j, attempt, now)
    {
      if j >= |jobs| {
        return NotFound;
      }
      if Verify(jobs[j].Row(), attempt, false, now) != Active {
        return Conflict;
      }
      var lease := now + cfg.LeaseSeconds();
      jobs[j].leaseExpiresAt := Some(lease);
      reply := Renewed(lease);
      assert Rows() == old(Rows())[j := jobs[j].Row()];
    }

    method CompleteJob(j: nat, attempt: AttemptId, payload: Payload, now: Time) returns (reply: Reply)
      requires Valid()
      modifies this`photos, jobs
      ensures Valid() && Outcome(View(), reply) == Complete(old(View()), j, attempt, payload, now)
    {
      if j >= |jobs| {
        return NotFound;
      }
      var job := jobs[j];
      var verdict := Verify(job.Row(), attempt, true, now);
      if verdict == Settled(Completed) {
        return StatusReply(Completed);
      }
      if verdict != Active {
        return Conflict;
      }
      if !PayloadFits(job.jobType, payload) {
        return Unprocessable;
      }
      job.leaseExpiresAt := None;
      job.retryAfter := None;
      job.result := Some(payload);
      job.status := Completed;
      job.finishedAt := Some(now);
      assert Rows() == old(Rows())[j := job.Row()];
      var statuses := QueryStatuses(Rows(), job.photo);
      photos := photos[job.photo := MarkPhotoReady(statuses, photos[job.photo])];
      assert Rows() == old(Rows())[j := job.Row()];
      reply := StatusReply(Completed);
    }

    method FailJob(cfg: Config, j: nat, attempt: AttemptId, retryable: bool, code: Option<string>,
                   message: string, jitter: real, now: Time) returns (reply: Reply)
      requires Valid()
      modifies this`photos, jobs
      ensures Valid()
      ensures Outcome(View(), reply)
           == Fail(cfg, old(View()), j, attempt, retryable, FailureText(code, message), jitter, now)
    {
      if j >= |jobs| {
        return NotFound;
      }
      var job := jobs[j];
      match Verify(job.Row(), attempt, true, now) {
        case Settled(status) => return StatusReply(status);
        case RetryPending => return RetryAlreadyScheduled;
        case Stale => return Conflict;
        case Active =>
      }
      var committed := Rows();
      job.MarkFailed(cfg, retryable, FailureText(code, message), jitter, now);
      assert Rows() == old(Rows())[j := job.Row()];
      if job.status == Queued {
        return RetryScheduled(job.retryAfter.value);
      }
      SyncTerminalParent(cfg, j, old(View()), committed);
      reply := StatusReply(job.status);
    }

    method ReapOne(cfg: Config, i: nat, committed: seq<Job>, now: Time)
      requires Valid() && i < |jobs|
      modifies this`photos, jobs[i]
      ensures Valid()
      ensures View() == WriteAndSync(cfg, old(View()), committed, i,
                                     DeadLettering(old(jobs[i].Row()), ReapReason(old(jobs[i].Row())), now))
    {
      ghost var before := View();
      jobs[i].DeadLetter(ReapReason(jobs[i].Row()), now);
      assert Rows() == before.jobs[i := jobs[i].Row()];
      SyncTerminalParent(cfg, i, before, committed);
    }

    // One row of the reaper's loop; `left` is what remains of its limit.
    method ReapRow(cfg: Config, i: nat, budget: nat, committed: seq<Job>, types: set<JobType>, locked: set<nat>,
                   now: Time) returns (left: nat)
      requires Valid() && i < |jobs| && budget > 0
      modifies this`photos, jobs[i]
      ensures Valid() && left <= budget
      ensures Reap(cfg, View(), committed, i + 1, left, types, locked, now)
           == Reap(cfg, old(View()), committed, i, budget, types, locked, now)
    {
      if i !in locked && ReapFilter(jobs[i].Row(), types, now) {
        ReapTakes(cfg, View(), committed, i, budget, types, locked, now);
        ReapOne(cfg, i, committed, now);
        left := budget - 1;
      } else {
        ReapSkips(cfg, View(), committed, i, budget, types, locked, now);
        left := budget;
      }
    }

    method ReapExhausted(cfg: Config, types: set<JobType>, locked: set<nat>, now: Time)
      requires Valid()
      modifies this`photos, jobs
      ensures Valid() && jobs == old(jobs)
      ensures View() == Reap(cfg, old(View()), old(View().jobs), 0, REAP_LIMIT, types, locked, now)
    {
      var committed := Rows();
      var i, budget := 0, REAP_LIMIT;
      ghost var result := Reap(cfg, View(), committed, 0, REAP_LIMIT, types, locked, now);
      while i < |jobs| && budget > 0
        invariant 0 <= i <= |jobs| && 0 <= budget && Valid() && jobs == old(jobs)
        invariant Reap(cfg, View(), committed, i, budget, types, locked, now) == result
      {
        budget := ReapRow(cfg, i, budget, committed, types, locked, now);
        i := i + 1;
      }
    }

    method ClaimJob(cfg: Config, types: set<JobType>, locked: set<nat>, newId: AttemptId, now: Time)
      returns (reply: Reply)
      requires Valid()
      modifies this`photos, jobs
      ensures Valid() && Outcome(View(), reply) == Claim(cfg, old(View()), types, locked, newId, now)
    {
      ReapExhausted(cfg, types, locked, now);
      var k := 0;
      ghost var reaped := View();
      while k < |jobs| && (k in locked || !ClaimFilter(jobs[k].Row(), types, now))
        invariant 0 <= k <= |jobs|
        invariant PickFrom(reaped.jobs, k, types, locked, now) == PickFrom(reaped.jobs, 0, types, locked, now)
      {
        k := k + 1;
      }
      if k == |jobs| {
        return NoJob;
      }
      var job := jobs[k];
      job.MarkClaimed(cfg, newId, now);
      photos := photos[job.photo := InProgress];
      assert Rows() == reaped.jobs[k := job.Row()];
      reply := Claimed(k);
    }

    method UploadPhoto(maxAttempts: int) returns (reply: Reply)
      requires Valid()
      modifies this
      ensures Valid() && Outcome(View(), reply) == Upload(old(View()), maxAttempts)
    {
      if maxAttempts <= 0 {
        return Refused;
      }
      var ocr := new PhotoJob(|photos|, Ocr, maxAttempts);
      var face := new PhotoJob(|photos|, FacePhotoScan, maxAttempts);
      ghost var rows := Rows();
      photos := photos + [InProgress];
      jobs := jobs + [ocr, face];
      assert Rows() == rows + [ocr.Row(), face.Row()];
      reply := Accepted;
    }
  }
}
