// The status of a photo against the statuses of its jobs, over every run.
module JobPhotos {
  import opened Common
  import opened JobModel
  import opened JobRuns

  // ----- reference definition -----

  ghost predicate Open(jobs: seq<Job>, p: nat) {
    exists j | 0 <= j < |jobs| :: jobs[j].photo == p && !Terminal(jobs[j].status)
  }

  ghost predicate HasJob(jobs: seq<Job>, p: nat) {
    exists j | 0 <= j < |jobs| :: jobs[j].photo == p
  }

  ghost predicate SomeCompleted(jobs: seq<Job>, p: nat) {
    exists j | 0 <= j < |jobs| :: jobs[j].photo == p && jobs[j].status == Completed
  }

  ghost predicate AllCompleted(jobs: seq<Job>, p: nat) {
    forall j | 0 <= j < |jobs| :: jobs[j].photo == p ==> jobs[j].status == Completed
  }

  // What the status of photo p should be.
  ghost function Aggregate(jobs: seq<Job>, p: nat): PhotoStatus {
    if Open(jobs, p) then InProgress
    else if AllCompleted(jobs, p) then Ready
    else if SomeCompleted(jobs, p) then PartiallyReady
    else Unusable
  }

  // ----- the two aggregators -----

  lemma {:induction false} StatusesAre(jobs: seq<Job>, p: nat)
    ensures forall s :: s in StatusesOf(jobs, p) <==>
              exists j | 0 <= j < |jobs| :: jobs[j].photo == p && jobs[j].status == s
  {
    if jobs != [] {
      var init := jobs[..|jobs| - 1];
      StatusesAre(init, p);
      forall s
        ensures s in StatusesOf(jobs, p) <==>
                exists j | 0 <= j < |jobs| :: jobs[j].photo == p && jobs[j].status == s
      {
        if s in StatusesOf(init, p) {
          var j :| 0 <= j < |init| && init[j].photo == p && init[j].status == s;
          assert jobs[j] == init[j];
        }
        if j :| 0 <= j < |jobs| && jobs[j].photo == p && jobs[j].status == s {
          if j < |init| {
            assert init[j] == jobs[j];
          }
        }
      }
    }
  }

  lemma {:induction false} CountCompletedMeans(statuses: seq<Status>)
    ensures CountCompleted(statuses) <= |statuses|
    ensures CountCompleted(statuses) == |statuses| <==> forall s | s in statuses :: s == Completed
    ensures CountCompleted(statuses) > 0 <==> Completed in statuses
  {
    if statuses != [] {
      CountCompletedMeans(statuses[1..]);
      assert forall s :: s in statuses <==> s == statuses[0] || s in statuses[1..];
      if forall s | s in statuses :: s == Completed {
        assert forall s | s in statuses[1..] :: s in statuses;
        assert statuses[0] in statuses;
      }
    }
  }

  // The two aggregators agree whenever every job is finished.
  lemma AggregatorsAgree(statuses: seq<Status>, current: PhotoStatus)
    requires forall s | s in statuses :: Terminal(s)
    ensures SyncTerminalPhoto(statuses, current) == MarkPhotoReady(statuses, current)
  {
    CountCompletedMeans(statuses);
  }

  lemma AggregatorsAreRight(jobs: seq<Job>, p: nat, current: PhotoStatus)
    requires HasJob(jobs, p)
    ensures MarkPhotoReady(StatusesOf(jobs, p), current) == Aggregate(jobs, p)
    ensures SyncTerminalPhoto(StatusesOf(jobs, p), current)
         == if Open(jobs, p) then current else Aggregate(jobs, p)
  {
    StatusesAre(jobs, p);
    var statuses := StatusesOf(jobs, p);
    CountCompletedMeans(statuses);
    var j :| 0 <= j < |jobs| && jobs[j].photo == p;
    assert jobs[j].status in statuses;
    assert Open(jobs, p) <==> !(forall s | s in statuses :: Terminal(s));
    if forall s | s in statuses :: s == Completed {
      forall k | 0 <= k < |jobs| && jobs[k].photo == p ensures jobs[k].status == Completed {
        assert jobs[k].status in statuses;
      }
    }
    assert SomeCompleted(jobs, p) <==> Completed in statuses;
  }

  lemma AggregateFrame(jobs: seq<Job>, j: nat, job: Job, p: nat)
    requires j < |jobs| && job.photo == jobs[j].photo
    ensures HasJob(jobs[j := job], p) == HasJob(jobs, p)
    ensures p != job.photo || Terminal(job.status) == Terminal(jobs[j].status) ==>
              Open(jobs[j := job], p) == Open(jobs, p)
    ensures p != job.photo || job.status == jobs[j].status ==> Aggregate(jobs[j := job], p) == Aggregate(jobs, p)
  {
    var jobs' := jobs[j := job];
    if k :| 0 <= k < |jobs| && jobs[k].photo == p {
      assert jobs'[k].photo == p;
    }
    if k :| 0 <= k < |jobs'| && jobs'[k].photo == p {
      assert jobs[k].photo == p;
    }
    if p != job.photo || Terminal(job.status) == Terminal(jobs[j].status) {
      if k :| 0 <= k < |jobs| && jobs[k].photo == p && !Terminal(jobs[k].status) {
        assert jobs'[k].photo == p && !Terminal(jobs'[k].status);
      }
      if k :| 0 <= k < |jobs'| && jobs'[k].photo == p && !Terminal(jobs'[k].status) {
        assert jobs[k].photo == p && !Terminal(jobs[k].status);
      }
    }
    if p != job.photo || job.status == jobs[j].status {
      if k :| 0 <= k < |jobs| && jobs[k].photo == p && jobs[k].status == Completed {
        assert jobs'[k].photo == p && jobs'[k].status == Completed;
      }
      if k :| 0 <= k < |jobs'| && jobs'[k].photo == p && jobs'[k].status == Completed {
        assert jobs[k].photo == p && jobs[k].status == Completed;
      }
      assert AllCompleted(jobs, p) ==> AllCompleted(jobs', p);
      assert AllCompleted(jobs', p) ==> AllCompleted(jobs, p) by {
        if AllCompleted(jobs', p) {
          forall k | 0 <= k < |jobs| && jobs[k].photo == p ensures jobs[k].status == Completed {
            assert jobs'[k].photo == p;
          }
        }
      }
    }
  }

  // ----- one step -----

  // How the jobs of photo p and its status move together. When the last open
  // job finishes, the status becomes right only if the step repairs it.
  ghost predicate Moves(repairs: bool, jobs: seq<Job>, s: PhotoStatus, jobs': seq<Job>, s': PhotoStatus, p: nat) {
    && (HasJob(jobs, p) ==> HasJob(jobs', p))
    && (!Open(jobs, p) ==> !Open(jobs', p) && s' == s && Aggregate(jobs', p) == Aggregate(jobs, p))
    && (Open(jobs, p) && Open(jobs', p) ==> s' == InProgress)
    && (Open(jobs, p) && !Open(jobs', p) ==> s' == if repairs then Aggregate(jobs', p) else InProgress)
  }

  ghost predicate Tracked(db: Db, p: nat) {
    p < |db.photos| && HasJob(db.jobs, p) && (Open(db.jobs, p) ==> db.photos[p] == InProgress)
  }

  lemma OpenBecause(jobs: seq<Job>, j: nat)
    requires j < |jobs| && !Terminal(jobs[j].status)
    ensures Open(jobs, jobs[j].photo)
  {
  }

  lemma SyncMoves(cfg: Config, db: Db, committed: seq<Job>, j: nat, job: Job, p: nat)
    requires WellFormed(db) && j < |db.jobs| && Tracked(db, p)
    requires job.photo == db.jobs[j].photo && Terminal(job.status) && !Terminal(db.jobs[j].status)
    requires j < |committed| && committed[j] == db.jobs[j]
    ensures var r := WriteAndSync(cfg, db, committed, j, job);
      Moves(cfg.autoflush, db.jobs, db.photos[p], r.jobs, r.photos[p], p)
  {
    var r := WriteAndSync(cfg, db, committed, j, job);
    OpenBecause(db.jobs, j);
    OpenBecause(committed, j);
    AggregateFrame(db.jobs, j, job, p);
    if p == job.photo {
      AggregatorsAreRight(r.jobs, p, db.photos[p]);
      AggregatorsAreRight(committed, p, db.photos[p]);
    }
  }

  lemma {:induction false} ReapMoves(cfg: Config, db: Db, committed: seq<Job>, i: nat, budget: nat,
                                     types: set<JobType>, locked: set<nat>, now: Time, p: nat)
    requires WellFormed(db) && i <= |db.jobs| == |committed| && Tracked(db, p)
    requires forall m | i <= m < |committed| :: db.jobs[m] == committed[m]
    ensures var r := Reap(cfg, db, committed, i, budget, types, locked, now);
      Moves(cfg.autoflush, db.jobs, db.photos[p], r.jobs, r.photos[p], p)
    decreases |db.jobs| - i
  {
    if i < |db.jobs| && budget > 0 {
      if i !in locked && ReapFilter(db.jobs[i], types, now) {
        var dead := DeadLettering(db.jobs[i], ReapReason(db.jobs[i]), now);
        SyncMoves(cfg, db, committed, i, dead, p);
        var db' := WriteAndSync(cfg, db, committed, i, dead);
        ReapMoves(cfg, db', committed, i + 1, budget - 1, types, locked, now, p);
      } else {
        ReapMoves(cfg, db, committed, i + 1, budget, types, locked, now, p);
      }
    }
  }

  lemma ClaimMoves(cfg: Config, db: Db, types: set<JobType>, locked: set<nat>, newId: AttemptId, now: Time, p: nat)
    requires WellFormed(db) && Tracked(db, p)
    ensures var r := Claim(cfg, db, types, locked, newId, now).db;
      Moves(cfg.autoflush, db.jobs, db.photos[p], r.jobs, r.photos[p], p)
  {
    ReapMoves(cfg, db, db.jobs, 0, REAP_LIMIT, types, locked, now, p);
    var reaped := Reap(cfg, db, db.jobs, 0, REAP_LIMIT, types, locked, now);
    var k := PickFrom(reaped.jobs, 0, types, locked, now);
    if k < |reaped.jobs| {
      var job := Claiming(cfg, reaped.jobs[k], newId, now);
      OpenBecause(reaped.jobs, k);
      OpenBecause(reaped.jobs[k := job], k);
      AggregateFrame(reaped.jobs, k, job, p);
    }
  }

  lemma StepMoves(cfg: Config, w: World, op: Op, p: nat)
    requires Tracked(w.db, p)
    ensures var r := Next(cfg, w, op).db;
      p < |r.photos| && Moves(cfg.autoflush || op.CompleteOp?, w.db.jobs, w.db.photos[p], r.jobs, r.photos[p], p)
  {
    var db, r := w.db, Next(cfg, w, op).db;
    match op {
      case ClaimOp(types, locked, newId, now) => ClaimMoves(cfg, db, types, locked, newId, now, p);
      case HeartbeatOp(j, attempt, now) =>
        if r != db {
          AggregateFrame(db.jobs, j, r.jobs[j], p);
        }
      case CompleteOp(j, attempt, payload, now) =>
        if r != db {
          var job := Completing(db.jobs[j], payload, now);
          assert r.jobs == db.jobs[j := job];
          AggregateFrame(db.jobs, j, job, p);
          OpenBecause(db.jobs, j);
          if p == job.photo {
            AggregatorsAreRight(r.jobs, p, db.photos[p]);
          }
        }
      case FailOp(j, attempt, retryable, text, jitter, now) =>
        if r != db {
          var job := Failing(cfg, db.jobs[j], retryable, text, jitter, now);
          if job.status == Queued {
            AggregateFrame(db.jobs, j, job, p);
          } else {
            SyncMoves(cfg, db, db.jobs, j, job, p);
          }
        }
      case UploadOp(maxAttempts, now) =>
        UploadMoves(db, maxAttempts, p);
    }
  }

  lemma UploadMoves(db: Db, maxAttempts: int, p: nat)
    requires WellFormed(db) && Tracked(db, p)
    ensures var r := Upload(db, maxAttempts).db;
      p < |r.photos| && Moves(true, db.jobs, db.photos[p], r.jobs, r.photos[p], p)
      && Moves(false, db.jobs, db.photos[p], r.jobs, r.photos[p], p)
  {
    if maxAttempts > 0 {
      var r := Upload(db, maxAttempts).db;
      assert forall k | 0 <= k < |db.jobs| :: r.jobs[k] == db.jobs[k];
      assert forall k | |db.jobs| <= k < |r.jobs| :: r.jobs[k].photo != p;
      assert HasJob(r.jobs, p) by {
        var k :| 0 <= k < |db.jobs| && db.jobs[k].photo == p;
        assert r.jobs[k].photo == p;
      }
      assert Open(r.jobs, p) <==> Open(db.jobs, p) by {
        if k :| 0 <= k < |db.jobs| && db.jobs[k].photo == p && !Terminal(db.jobs[k].status) {
          assert r.jobs[k].photo == p;
        }
      }
      assert SomeCompleted(r.jobs, p) <==> SomeCompleted(db.jobs, p) by {
        if k :| 0 <= k < |db.jobs| && db.jobs[k].photo == p && db.jobs[k].status == Completed {
          assert r.jobs[k].photo == p;
        }
      }
      assert AllCompleted(r.jobs, p) <==> AllCompleted(db.jobs, p) by {
        if AllCompleted(r.jobs, p) {
          forall k | 0 <= k < |db.jobs| && db.jobs[k].photo == p ensures db.jobs[k].status == Completed {
            assert r.jobs[k].photo == p;
          }
        }
      }
    }
  }

  // ----- every run -----

  // Step m finished the last open job of photo p by a failure or a dead letter.
  ghost predicate ClosesUnseen(ws: seq<World>, ops: seq<Op>, m: nat, p: nat)
    requires |ws| == |ops| + 1
  {
    m < |ops| && !ops[m].CompleteOp? && Open(ws[m].db.jobs, p) && !Open(ws[m + 1].db.jobs, p)
  }

  ghost predicate Spoiled(cfg: Config, ws: seq<World>, ops: seq<Op>, k: nat, p: nat)
    requires |ws| == |ops| + 1
  {
    !cfg.autoflush && exists m | 0 <= m < k :: ClosesUnseen(ws, ops, m, p)
  }

  lemma NoJobsYet(cfg: Config, ws: seq<World>, ops: seq<Op>, i: nat, k: nat, p: nat)
    requires Run(cfg, ws, ops) && i <= k < |ws| && |ws[k].db.photos| <= p
    ensures !Open(ws[i].db.jobs, p)
    decreases k - i
  {
    if i < k {
      assert StepAt(cfg, ws, ops, k - 1);
      assert |ws[k - 1].db.photos| <= |ws[k].db.photos|;
      NoJobsYet(cfg, ws, ops, i, k - 1, p);
    }
  }

  lemma NewPhoto(cfg: Config, w: World, op: Op, p: nat)
    requires |w.db.photos| <= p < |Next(cfg, w, op).db.photos|
    ensures var r := Next(cfg, w, op).db;
      Tracked(r, p) && Open(r.jobs, p) && r.photos[p] == Aggregate(r.jobs, p)
  {
    var r := Next(cfg, w, op).db;
    assert op.UploadOp? && r == Upload(w.db, op.maxAttempts).db;
    assert r.jobs[|w.db.jobs|].photo == p;
    OpenBecause(r.jobs, |w.db.jobs|);
  }

  lemma NotSpoiledYet(cfg: Config, ws: seq<World>, ops: seq<Op>, k: nat, p: nat)
    requires Run(cfg, ws, ops) && 0 < k < |ws| && |ws[k - 1].db.photos| <= p
    ensures !Spoiled(cfg, ws, ops, k, p)
  {
    forall m | 0 <= m < k ensures !ClosesUnseen(ws, ops, m, p) {
      NoJobsYet(cfg, ws, ops, m, k - 1, p);
    }
  }

  lemma {:induction false} PhotosTracked(cfg: Config, ws: seq<World>, ops: seq<Op>, k: nat, p: nat)
    requires Run(cfg, ws, ops) && k < |ws| && p < |ws[k].db.photos|
    ensures Tracked(ws[k].db, p)
    ensures Spoiled(cfg, ws, ops, k, p) ==> !Open(ws[k].db.jobs, p) && ws[k].db.photos[p] == InProgress
    ensures !Spoiled(cfg, ws, ops, k, p) ==> ws[k].db.photos[p] == Aggregate(ws[k].db.jobs, p)
  {
    assert k > 0 && StepAt(cfg, ws, ops, k - 1);
    if p < |ws[k - 1].db.photos| {
      PhotosTracked(cfg, ws, ops, k - 1, p);
      StepMoves(cfg, ws[k - 1], ops[k - 1], p);
      assert Spoiled(cfg, ws, ops, k, p) <==>
             Spoiled(cfg, ws, ops, k - 1, p) || (!cfg.autoflush && ClosesUnseen(ws, ops, k - 1, p));
    } else {
      NewPhoto(cfg, ws[k - 1], ops[k - 1], p);
      NotSpoiledYet(cfg, ws, ops, k, p);
    }
  }

  // In every reachable state the status of a photo is the aggregate of its
  // jobs, with one exact exception: a session that does not flush before
  // queries, and a last open job that was failed or dead-lettered.
  lemma PhotoStatusIsAggregate(cfg: Config, ws: seq<World>, ops: seq<Op>, k: nat, p: nat)
    requires Run(cfg, ws, ops) && k < |ws| && p < |ws[k].db.photos|
    ensures ws[k].db.photos[p] == Aggregate(ws[k].db.jobs, p) <==> !Spoiled(cfg, ws, ops, k, p)
  {
    PhotosTracked(cfg, ws, ops, k, p);
  }

  // The same before the call: a failure that finishes job j leaves the photo
  // right exactly when the session flushes or a sibling job is still open.
  lemma FailLeavesPhotoRight(cfg: Config, ws: seq<World>, ops: seq<Op>, k: nat)
    requires Run(cfg, ws, ops) && StepAt(cfg, ws, ops, k) && ops[k].FailOp? && ws[k + 1].db != ws[k].db
    requires var job := ws[k].db.jobs[ops[k].job]; !ops[k].retryable || job.attemptCount >= job.maxAttempts
    ensures var j, jobs := ops[k].job, ws[k].db.jobs;
      && j < |jobs|
      && var p := jobs[j].photo;
         ws[k + 1].db.photos[p] == Aggregate(ws[k + 1].db.jobs, p)
         <==> cfg.autoflush
              || exists i | 0 <= i < |jobs| :: i != j && jobs[i].photo == p && !Terminal(jobs[i].status)
  {
    var j, jobs := ops[k].job, ws[k].db.jobs;
    var p := jobs[j].photo;
    PhotosTracked(cfg, ws, ops, k, p);
    StepMoves(cfg, ws[k], ops[k], p);
    OpenBecause(jobs, j);
    var jobs' := ws[k + 1].db.jobs;
    assert Open(jobs', p) <==>
           exists i | 0 <= i < |jobs| :: i != j && jobs[i].photo == p && !Terminal(jobs[i].status) by {
      if i :| 0 <= i < |jobs| && i != j && jobs[i].photo == p && !Terminal(jobs[i].status) {
        assert jobs'[i] == jobs[i];
      }
      if i :| 0 <= i < |jobs'| && jobs'[i].photo == p && !Terminal(jobs'[i].status) {
        assert i != j && jobs[i] == jobs'[i];
      }
    }
  }

  // The rows a claim's reaper takes: from row i on, the first `budget` unlocked,
  // exhausted rows that are due.
  ghost function Reaped(jobs: seq<Job>, i: nat, budget: nat, types: set<JobType>, locked: set<nat>, now: Time): set<nat>
    requires i <= |jobs|
    decreases |jobs| - i
  {
    if i == |jobs| || budget == 0 then {}
    else if i !in locked && ReapFilter(jobs[i], types, now) then
      {i} + Reaped(jobs, i + 1, budget - 1, types, locked, now)
    else Reaped(jobs, i + 1, budget, types, locked, now)
  }

  lemma {:induction false} ReapedFrom(jobs: seq<Job>, i: nat, budget: nat, types: set<JobType>, locked: set<nat>,
                                      now: Time, m: nat)
    requires i <= |jobs| && m in Reaped(jobs, i, budget, types, locked, now)
    ensures i <= m < |jobs| && m !in locked && ReapFilter(jobs[m], types, now)
    decreases |jobs| - i
  {
    if i !in locked && ReapFilter(jobs[i], types, now) {
      if m != i {
        ReapedFrom(jobs, i + 1, budget - 1, types, locked, now, m);
      }
    } else {
      ReapedFrom(jobs, i + 1, budget, types, locked, now, m);
    }
  }

  lemma {:induction false} ReapedAgain(jobs: seq<Job>, jobs': seq<Job>, i: nat, budget: nat, types: set<JobType>,
                                       locked: set<nat>, now: Time)
    requires i <= |jobs| == |jobs'| && forall m | i <= m < |jobs| :: jobs[m] == jobs'[m]
    ensures Reaped(jobs, i, budget, types, locked, now) == Reaped(jobs', i, budget, types, locked, now)
    decreases |jobs| - i
  {
    if i < |jobs| && budget > 0 {
      ReapedAgain(jobs, jobs', i + 1, budget, types, locked, now);
      ReapedAgain(jobs, jobs', i + 1, budget - 1, types, locked, now);
    }
  }

  // The reaper ends exactly those rows.
  lemma {:induction false} ReapEnds(cfg: Config, db: Db, committed: seq<Job>, i: nat, budget: nat, types: set<JobType>,
                                    locked: set<nat>, now: Time, m: nat)
    requires WellFormed(db) && i <= |db.jobs| && m < |db.jobs|
    ensures var r := Reap(cfg, db, committed, i, budget, types, locked, now).jobs[m];
      if m in Reaped(db.jobs, i, budget, types, locked, now)
      then r.status == DeadLettered && r.photo == db.jobs[m].photo
      else r == db.jobs[m]
    decreases |db.jobs| - i
  {
    if i < |db.jobs| && budget > 0 {
      if i !in locked && ReapFilter(db.jobs[i], types, now) {
        var dead := DeadLettering(db.jobs[i], ReapReason(db.jobs[i]), now);
        var db' := WriteAndSync(cfg, db, committed, i, dead);
        ReapEnds(cfg, db', committed, i + 1, budget - 1, types, locked, now, m);
        ReapedAgain(db.jobs, db'.jobs, i + 1, budget - 1, types, locked, now);
        ReapedElsewhere(db.jobs, i, budget, types, locked, now);
      } else {
        ReapEnds(cfg, db, committed, i + 1, budget, types, locked, now, m);
      }
    }
  }

  lemma ReapedElsewhere(jobs: seq<Job>, i: nat, budget: nat, types: set<JobType>, locked: set<nat>, now: Time)
    requires i < |jobs| && budget > 0
    ensures i !in Reaped(jobs, i + 1, budget - 1, types, locked, now)
  {
    if i in Reaped(jobs, i + 1, budget - 1, types, locked, now) {
      ReapedFrom(jobs, i + 1, budget - 1, types, locked, now, i);
    }
  }

  // A claim leaves row m unfinished exactly when it was and is not reaped.
  lemma ClaimEnds(cfg: Config, db: Db, op: Op, m: nat)
    requires WellFormed(db) && op.ClaimOp? && m < |db.jobs|
    ensures var r := Claim(cfg, db, op.types, op.locked, op.newId, op.now).db.jobs;
      && |r| == |db.jobs| && r[m].photo == db.jobs[m].photo
      && (!Terminal(r[m].status) <==>
            !Terminal(db.jobs[m].status) && m !in Reaped(db.jobs, 0, REAP_LIMIT, op.types, op.locked, op.now))
  {
    ReapEnds(cfg, db, db.jobs, 0, REAP_LIMIT, op.types, op.locked, op.now, m);
  }

  ghost predicate LeftOpen(jobs: seq<Job>, op: Op, p: nat)
    requires op.ClaimOp?
  {
    exists i | 0 <= i < |jobs| ::
      && jobs[i].photo == p && !Terminal(jobs[i].status)
      && i !in Reaped(jobs, 0, REAP_LIMIT, op.types, op.locked, op.now)
  }

  lemma ClaimLeavesOpen(cfg: Config, w: World, op: Op, p: nat)
    requires op.ClaimOp?
    ensures Open(Next(cfg, w, op).db.jobs, p) <==> LeftOpen(w.db.jobs, op, p)
  {
    var jobs, jobs' := w.db.jobs, Next(cfg, w, op).db.jobs;
    assert |jobs'| == |jobs|;
    if i :| 0 <= i < |jobs| && jobs'[i].photo == p && !Terminal(jobs'[i].status) {
      ClaimEnds(cfg, w.db, op, i);
    }
    if LeftOpen(jobs, op, p) {
      var i :| 0 <= i < |jobs| && jobs[i].photo == p && !Terminal(jobs[i].status)
            && i !in Reaped(jobs, 0, REAP_LIMIT, op.types, op.locked, op.now);
      ClaimEnds(cfg, w.db, op, i);
    }
  }

  // The same for the reaper: a claim keeps a photo's status right exactly when
  // the session flushes, or the photo has no open job, or one of its open jobs
  // is not among the rows the reaper takes.
  lemma ClaimLeavesPhotoRight(cfg: Config, ws: seq<World>, ops: seq<Op>, k: nat, p: nat)
    requires Run(cfg, ws, ops) && k < |ops| && ops[k].ClaimOp? && p < |ws[k].db.photos|
    requires ws[k].db.photos[p] == Aggregate(ws[k].db.jobs, p)
    ensures p < |ws[k + 1].db.photos|
    ensures ws[k + 1].db.photos[p] == Aggregate(ws[k + 1].db.jobs, p)
       <==> cfg.autoflush || !Open(ws[k].db.jobs, p) || LeftOpen(ws[k].db.jobs, ops[k], p)
  {
    assert StepAt(cfg, ws, ops, k);
    PhotosTracked(cfg, ws, ops, k, p);
    StepMoves(cfg, ws[k], ops[k], p);
    ClaimLeavesOpen(cfg, ws[k], ops[k], p);
  }

  // Nothing repairs a photo spoiled that way.
  lemma SpoiledForGood(cfg: Config, ws: seq<World>, ops: seq<Op>, i: nat, k: nat, p: nat)
    requires Run(cfg, ws, ops) && i <= k < |ws| && p < |ws[i].db.photos| && p < |ws[k].db.photos|
    requires Spoiled(cfg, ws, ops, i, p)
    ensures ws[k].db.photos[p] == InProgress && !Open(ws[k].db.jobs, p)
  {
    assert Spoiled(cfg, ws, ops, k, p);
    PhotosTracked(cfg, ws, ops, k, p);
  }

  ghost predicate Reachable(cfg: Config, w: World) {
    exists ws, ops :: Run(cfg, ws, ops) && ws[|ops|] == w
  }

  lemma ReachNext(cfg: Config, w: World, op: Op)
    requires Reachable(cfg, w) && Enabled(w, op)
    ensures Reachable(cfg, Next(cfg, w, op))
  {
    var ws, ops :| Run(cfg, ws, ops) && ws[|ops|] == w;
    var ws', ops' := ws + [Next(cfg, w, op)], ops + [op];
    forall i | 0 <= i < |ops'| ensures StepAt(cfg, ws', ops', i) {
      assert i < |ops| ==> StepAt(cfg, ws, ops, i);
    }
    assert Run(cfg, ws', ops');
  }

  // The exception happens: both jobs of the only photo failed, and the photo
  // stays in progress.
  lemma StuckPhoto() returns (cfg: Config, w: World)
    ensures Reachable(cfg, w) && !cfg.autoflush
    ensures |w.db.photos| == 1 && |w.db.jobs| == 2
    ensures w.db.jobs[0].status == Failed && w.db.jobs[1].status == Failed
    ensures w.db.photos[0] == InProgress
  {
    cfg := Config(300, 10, 900, false);
    w := OnePhoto(cfg);
    w := OneJobFails(cfg, w, 0, 1, 0);
    w := OneJobFails(cfg, w, 1, 2, 0);
  }

  lemma OnePhoto(cfg: Config) returns (w: World)
    ensures Reachable(cfg, w)
    ensures w.db == Db([NewJob(0, Ocr, 5), NewJob(0, FacePhotoScan, 5)], [InProgress])
    ensures w.issued == {} && w.now == 0
  {
    var start := World(Db([], []), {}, 0);
    var none: seq<Op> := [];
    assert Run(cfg, [start], none) && [start][|none|] == start;
    ReachNext(cfg, start, UploadOp(5, 0));
    w := Next(cfg, start, UploadOp(5, 0));
  }

  // A claim and a permanent failure of the job k.
  lemma OneJobFails(cfg: Config, w: World, k: nat, newId: AttemptId, now: Time) returns (w': World)
    requires Reachable(cfg, w) && !cfg.autoflush && w.now <= now && newId !in w.issued
    requires |w.db.jobs| == 2 && k < 2 && w.db.photos == [InProgress]
    requires ClaimFilter(w.db.jobs[k], {w.db.jobs[k].jobType}, now)
    requires w.db.jobs[1 - k].jobType != w.db.jobs[k].jobType
    ensures Reachable(cfg, w') && w'.now == now && w'.issued == w.issued + {newId}
    ensures |w'.db.jobs| == 2 && w'.db.jobs[1 - k] == w.db.jobs[1 - k] && w'.db.jobs[k].status == Failed
    ensures w'.db.jobs[k].jobType == w.db.jobs[k].jobType
    ensures w'.db.photos == [InProgress]
  {
    var types := {w.db.jobs[k].jobType};
    ClaimExample(cfg, w.db, types, newId, now, k);
    ReachNext(cfg, w, ClaimOp(types, {}, newId, now));
    w' := Next(cfg, w, ClaimOp(types, {}, newId, now));
    FailExample(cfg, w'.db, k, newId, now);
    ReachNext(cfg, w', FailOp(k, newId, false, "bad image", 1.0, now));
    w' := Next(cfg, w', FailOp(k, newId, false, "bad image", 1.0, now));
  }

  lemma FailExample(cfg: Config, db: Db, j: nat, attempt: AttemptId, now: Time)
    requires WellFormed(db) && j < |db.jobs| && !cfg.autoflush
    requires Verify(db.jobs[j], attempt, true, now) == Active
    ensures Fail(cfg, db, j, attempt, false, "bad image", 1.0, now).db
         == Db(db.jobs[j := Failing(cfg, db.jobs[j], false, "bad image", 1.0, now)], db.photos)
  {
    var p := db.jobs[j].photo;
    OpenBecause(db.jobs, j);
    AggregatorsAreRight(db.jobs, p, db.photos[p]);
    assert db.photos[p := db.photos[p]] == db.photos;
  }

  // With two rows and nothing exhausted, the claim hands out the one row of its type.
  lemma ClaimExample(cfg: Config, db: Db, types: set<JobType>, newId: AttemptId, now: Time, k: nat)
    requires WellFormed(db) && |db.jobs| == 2 && k < 2
    requires ClaimFilter(db.jobs[k], types, now) && db.jobs[1 - k].jobType !in types
    ensures Claim(cfg, db, types, {}, newId, now)
         == Outcome(Db(db.jobs[k := Claiming(cfg, db.jobs[k], newId, now)], db.photos[db.jobs[k].photo := InProgress]),
                    Claimed(k))
  {
    assert Reap(cfg, db, db.jobs, 2, REAP_LIMIT, types, {}, now) == db;
    assert Reap(cfg, db, db.jobs, 1, REAP_LIMIT, types, {}, now) == db;
    assert PickFrom(db.jobs, k, types, {}, now) == k;
  }
}
