// What each step of the deletion outbox comes to, in every run: what a row is
// after it, and when the row is next handed out.
module OutboxOutcomes {
  import opened Common
  import opened OutboxModel
  import opened OutboxRuns

  // Only the entry of k may differ.
  ghost predicate OnlyEntry(before: World, after: World, k: Key) {
    forall x: Key | x != k :: Entry(after, x) == Entry(before, x)
  }

  // ----- enqueues and dead letters -----

  // After every effective enqueue the row is queued with no attempts, waits for
  // nothing, and is claimable at every time; no other row changes.
  lemma EnqueueOutcome(cfg: Config, ws: seq<World>, ops: seq<Op>, n: nat, k: Key, now: Time)
    requires Run(cfg, ws, ops) && StepAt(cfg, ws, ops, n) && Enqueues(ops[n], k)
    ensures k in ws[n + 1].table && OnlyEntry(ws[n], ws[n + 1], k)
    ensures var t := ws[n + 1].table[k];
      && t.status == Queued && t.attemptCount == 0 && t.maxAttempts == 10
      && t.attemptId == None && t.retryAt == None && t.leaseExpiresAt == None
      && Claimable(t, now)
  {
    ReachableOk(cfg, ws, ops, n, k);
  }

  // A key that is empty or missing changes nothing.
  lemma EmptyKeyIsIgnored(cfg: Config, w: World, op: Op)
    requires op.EnqueueOp? && (op.name == None || op.name.value == "")
    ensures Next(cfg, w, op).table == w.table
  {
  }

  // In every reachable state a dead letter was claimed ten times since the latest
  // enqueue: no task is given up before it had all its attempts.
  lemma {:induction false} DeadLetterHadAllAttempts(cfg: Config, ws: seq<World>, ops: seq<Op>, n: nat, k: Key)
    requires Run(cfg, ws, ops) && n <= |ops| && k in ws[n].table && ws[n].table[k].status == DeadLettered
    ensures ClaimsSince(ops, n, k) == ws[n].table[k].attemptCount == DEFAULT_MAX_ATTEMPTS == 10
    decreases n
  {
    AttemptsAreClaims(cfg, ws, ops, n, k);
    assert n > 0 && StepAt(cfg, ws, ops, n - 1);
    StepKey(cfg, ws[n - 1], ops[n - 1], k);
    ReachableOk(cfg, ws, ops, n - 1, k);
    if k in ws[n - 1].table && ws[n - 1].table[k].status == DeadLettered {
      DeadLetterHadAllAttempts(cfg, ws, ops, n - 1, k);
    }
  }

  // ----- attempts -----

  // A failed attempt queues its row with a retry time if and only if fewer than
  // ten claims were made since the latest enqueue, and ends it otherwise.
  lemma FailureOutcome(cfg: Config, ws: seq<World>, ops: seq<Op>, n: nat, k: Key)
    requires Run(cfg, ws, ops) && StepAt(cfg, ws, ops, n) && Fails(ws[n], ops[n], k)
    ensures k in ws[n + 1].table && OnlyEntry(ws[n], ws[n + 1], k)
    ensures var t, claims := ws[n + 1].table[k], ClaimsSince(ops, n, k);
      && t.attemptCount == claims && t.attemptId == None && t.leaseExpiresAt == None
      && (claims < 10 ==> t.status == Queued && t.retryAt == Some(ops[n].now + Min(3_600, Pow2(Min(claims, 10)))))
      && (claims == 10 ==> t.status == DeadLettered && t.retryAt == None)
  {
    AttemptsAreClaims(cfg, ws, ops, n, k);
    ReachableOk(cfg, ws, ops, n, k);
  }

  // A successful attempt completes its row, at the time of the deletion.
  lemma SuccessOutcome(cfg: Config, ws: seq<World>, ops: seq<Op>, n: nat, k: Key)
    requires Run(cfg, ws, ops) && StepAt(cfg, ws, ops, n) && Deletes(ws[n], ops[n], k)
    ensures k in ws[n + 1].table && OnlyEntry(ws[n], ws[n + 1], k)
    ensures var t := ws[n + 1].table[k];
      t.status == Completed && t.completedAt == Some(ops[n].now) && t.attemptId == None && t.lastError == None
  {
  }

  // An attempt that no longer holds its row does nothing at all.
  lemma StrayAttemptOutcome(cfg: Config, w: World, op: Op)
    requires op.ExecuteOp? && !Deletes(w, op, op.key) && !Fails(w, op, op.key)
    ensures Next(cfg, w, op) == w
  {
  }

  // ----- claims, sweeps and purges -----

  // The row may be claimed: it has attempts left, nobody holds it, and its retry
  // time has passed.
  predicate Waiting(t: Task, now: Time) {
    && t.attemptCount < t.maxAttempts
    && (t.retryAt.Some? ==> t.retryAt.value <= now)
    && match t.status
       case Queued => true
       case Processing => t.leaseExpiresAt.Some? ==> t.leaseExpiresAt.value <= now
       case _ => false
  }

  // A claim takes waiting, unlocked rows, each with an attempt of its own and a
  // lease of two minutes; one it leaves out finds the batch full of rows no newer.
  lemma ClaimOutcome(cfg: Config, w: World, op: Op, k: Key)
    requires op.ClaimOp? && Enabled(cfg, w, op) && k in w.table
    ensures k in Next(cfg, w, op).table
    ensures Claims(op, k) ==>
      && Waiting(w.table[k], op.now) && k !in op.locked
      && var t := Next(cfg, w, op).table[k];
      && t.status == Processing && t.attemptCount == w.table[k].attemptCount + 1
      && t.attemptId.Some? && t.attemptId.value >= w.nextAttempt && t.leaseExpiresAt == Some(op.now + 120)
    ensures !Claims(op, k) ==>
      && Next(cfg, w, op).table[k] == w.table[k]
      && (Waiting(w.table[k], op.now) && k !in op.locked ==>
            |op.picks| == cfg.BatchSize(op.limit)
            && forall p | p in op.picks :: p in w.table && w.table[p].createdAt <= w.table[k].createdAt)
  {
    StepKey(cfg, w, op, k);
  }

  // A sweep ends exactly the rows that used all attempts and lost their lease.
  lemma SweepOutcome(cfg: Config, w: World, op: Op, k: Key)
    requires op.SweepOp? && k in w.table
    ensures k in Next(cfg, w, op).table
    ensures var t := w.table[k];
      if t.status == Processing && t.attemptCount >= t.maxAttempts
         && (t.leaseExpiresAt.Some? ==> t.leaseExpiresAt.value <= op.now)
      then Next(cfg, w, op).table[k].status == DeadLettered && Next(cfg, w, op).table[k].attemptId == None
           && Next(cfg, w, op).table[k].attemptCount == t.attemptCount
      else Next(cfg, w, op).table[k] == t
  {
  }

  // A purge removes exactly the rows completed more than the retention time ago.
  lemma PurgeOutcome(cfg: Config, w: World, op: Op, k: Key)
    requires op.PurgeOp? && k in w.table
    ensures k !in Next(cfg, w, op).table <==>
      && w.table[k].status == Completed && w.table[k].completedAt.Some?
      && w.table[k].completedAt.value < op.now - Max(1, cfg.retentionDays) * 86_400
    ensures k in Next(cfg, w, op).table ==> Next(cfg, w, op).table[k] == w.table[k]
  {
  }

  // ----- waiting -----

  // Nothing happens to the key at the step.
  predicate Untouched(w: World, op: Op, k: Key) {
    && !Enqueues(op, k) && !Claims(op, k) && !Deletes(w, op, k) && !Fails(w, op, k) && !Sweeps(w, op, k)
  }

  ghost predicate UntouchedUntil(ws: seq<World>, ops: seq<Op>, n: nat, m: nat, k: Key)
    requires m <= |ops| < |ws|
  {
    forall i | n < i < m :: Untouched(ws[i], ops[i], k)
  }

  lemma {:induction false} StaysUntil(cfg: Config, ws: seq<World>, ops: seq<Op>, n: nat, m: nat, k: Key)
    requires Run(cfg, ws, ops) && n < m <= |ops| && UntouchedUntil(ws, ops, n, m, k)
    requires k in ws[n + 1].table && ws[n + 1].table[k].status != Completed
    ensures k in ws[m].table && ws[m].table[k] == ws[n + 1].table[k]
    decreases m
  {
    if n + 1 < m {
      StaysUntil(cfg, ws, ops, n, m - 1, k);
      assert StepAt(cfg, ws, ops, m - 1) && Untouched(ws[m - 1], ops[m - 1], k);
      StepKey(cfg, ws[m - 1], ops[m - 1], k);
    }
  }

  // After a failure the row is not claimed before its backoff has passed.
  lemma RetryWaits(cfg: Config, ws: seq<World>, ops: seq<Op>, n: nat, m: nat, k: Key)
    requires Run(cfg, ws, ops) && n < m < |ops| && UntouchedUntil(ws, ops, n, m, k)
    requires Fails(ws[n], ops[n], k) && Claims(ops[m], k)
    ensures ops[m].now >= ops[n].now + Min(3_600, Pow2(Min(ClaimsSince(ops, n, k), 10)))
  {
    assert StepAt(cfg, ws, ops, n) && StepAt(cfg, ws, ops, m);
    FailureOutcome(cfg, ws, ops, n, k);
    AttemptsAreClaims(cfg, ws, ops, n, k);
    StaysUntil(cfg, ws, ops, n, m, k);
    StepKey(cfg, ws[m], ops[m], k);
  }

  // From then on, unless something happens to it, it may be claimed.
  lemma RetryIsDue(cfg: Config, ws: seq<World>, ops: seq<Op>, n: nat, m: nat, k: Key, now: Time)
    requires Run(cfg, ws, ops) && n < m <= |ops| && UntouchedUntil(ws, ops, n, m, k)
    requires Fails(ws[n], ops[n], k) && ClaimsSince(ops, n, k) < 10
    ensures k in ws[m].table
    ensures Claimable(ws[m].table[k], now) <==>
              now >= ops[n].now + Min(3_600, Pow2(Min(ClaimsSince(ops, n, k), 10)))
  {
    assert StepAt(cfg, ws, ops, n);
    FailureOutcome(cfg, ws, ops, n, k);
    ReachableOk(cfg, ws, ops, n + 1, k);
    StaysUntil(cfg, ws, ops, n, m, k);
  }

  // A claimed row is neither claimed again nor swept for two minutes, unless its
  // attempt ends or the key is enqueued again.
  lemma LeaseIsKept(cfg: Config, ws: seq<World>, ops: seq<Op>, n: nat, m: nat, k: Key)
    requires Run(cfg, ws, ops) && n < m < |ops| && UntouchedUntil(ws, ops, n, m, k)
    requires Claims(ops[n], k) && (Claims(ops[m], k) || Sweeps(ws[m], ops[m], k))
    ensures ops[m].now >= ops[n].now + 120
  {
    assert StepAt(cfg, ws, ops, n) && StepAt(cfg, ws, ops, m);
    StepKey(cfg, ws[n], ops[n], k);
    StaysUntil(cfg, ws, ops, n, m, k);
    StepKey(cfg, ws[m], ops[m], k);
  }
}
