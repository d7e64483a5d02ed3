// Theorems about every run of the deletion outbox: enqueues, sweeps, claims,
// attempts and purges of any number of processes, interleaved at will. An
// attempt is one atomic step, and may be repeated or arrive at any time with
// any row and attempt ids; clocks may disagree. Assumed: a new row and a claim
// draw ids never drawn before, here the next number.
module OutboxRuns {
  import opened Common
  import opened OutboxModel

  datatype Op =
    | EnqueueOp(name: Option<string>, now: Time)
    | SweepOp(now: Time)
    | ClaimOp(limit: Option<int>, locked: set<Key>, picks: seq<Key>, now: Time)
    | ExecuteOp(key: Key, id: nat, attempt: nat, failure: Option<string>, now: Time)
    | PurgeOp(now: Time)

  datatype World = World(table: Table, nextId: nat, nextAttempt: nat)

  function Next(cfg: Config, w: World, op: Op): World {
    match op
    case EnqueueOp(name, now) => World(Enqueue(w.table, name, w.nextId, now), w.nextId + 1, w.nextAttempt)
    case SweepOp(now) => w.(table := Sweep(w.table, now))
    case ClaimOp(limit, locked, picks, now) =>
      w.(table := Claim(w.table, picks, w.nextAttempt, now), nextAttempt := w.nextAttempt + |picks|)
    case ExecuteOp(key, id, attempt, failure, now) => w.(table := Execute(w.table, key, id, attempt, failure, now))
    case PurgeOp(now) => w.(table := Purge(w.table, cfg.Cutoff(now)))
  }

  ghost predicate Enabled(cfg: Config, w: World, op: Op) {
    op.ClaimOp? ==> Selects(w.table, op.locked, cfg.BatchSize(op.limit), op.now, op.picks)
  }

  ghost predicate StepAt(cfg: Config, ws: seq<World>, ops: seq<Op>, i: nat) {
    i < |ops| && |ws| == |ops| + 1 && Enabled(cfg, ws[i], ops[i]) && ws[i + 1] == Next(cfg, ws[i], ops[i])
  }

  ghost predicate Run(cfg: Config, ws: seq<World>, ops: seq<Op>) {
    && |ws| == |ops| + 1 && ws[0] == World(map[], 0, 0)
    && forall i | 0 <= i < |ops| :: StepAt(cfg, ws, ops, i)
  }

  // ----- one step seen from one key -----

  function Entry(w: World, k: Key): Option<Task> {
    if k in w.table then Some(w.table[k]) else None
  }

  predicate Enqueues(op: Op, k: Key) {
    op.EnqueueOp? && IsKey(op.name) && Key(op.name.value) == k
  }

  predicate Claims(op: Op, k: Key) {
    op.ClaimOp? && k in op.picks
  }

  // A successful call of the object store for the key.
  predicate Deletes(w: World, op: Op, k: Key) {
    op.ExecuteOp? && op.key == k && op.failure == None && Holds(w.table, k, op.id, op.attempt)
  }

  predicate Fails(w: World, op: Op, k: Key) {
    op.ExecuteOp? && op.key == k && op.failure.Some? && Holds(w.table, k, op.id, op.attempt)
  }

  predicate Sweeps(w: World, op: Op, k: Key) {
    op.SweepOp? && k in w.table && Sweepable(w.table[k], op.now)
  }

  predicate Purges(cfg: Config, w: World, op: Op, k: Key) {
    op.PurgeOp? && k in w.table && Purgeable(w.table[k], cfg.Cutoff(op.now))
  }

  // What one step makes of the entry of a key.
  ghost predicate KeyStep(cfg: Config, w: World, op: Op, k: Key, before: Option<Task>, after: Option<Task>) {
    if Enqueues(op, k) then
      after == Some(if before.Some? then Requeued(before.value) else NewTask(w.nextId, op.now))
    else if Claims(op, k) then
      && before.Some? && Claimable(before.value, op.now)
      && exists a | w.nextAttempt <= a < w.nextAttempt + |op.picks| :: after == Some(Claiming(before.value, a, op.now))
    else if Deletes(w, op, k) then
      before.Some? && before.value.status == Processing && after == Some(Completing(before.value, op.now))
    else if Fails(w, op, k) then
      && before.Some? && before.value.status == Processing
      && after == Some(Failing(before.value, op.failure.value, op.now))
    else if Sweeps(w, op, k) then before.Some? && after == Some(Sweeping(before.value, op.now))
    else if Purges(cfg, w, op, k) then before.Some? && before.value.status == Completed && after == None
    else after == before
  }

  lemma ClaimStep(cfg: Config, w: World, op: Op, k: Key)
    requires op.ClaimOp? && Enabled(cfg, w, op)
    ensures KeyStep(cfg, w, op, k, Entry(w, k), Entry(Next(cfg, w, op), k))
  {
    if k in op.picks {
      var i :| 0 <= i < |op.picks| && op.picks[i] == k;
      ClaimTakes(w.table, op.picks, w.nextAttempt, op.now, i);
    } else {
      ClaimSkips(w.table, op.picks, w.nextAttempt, op.now, k);
    }
  }

  lemma StepKey(cfg: Config, w: World, op: Op, k: Key)
    requires Enabled(cfg, w, op)
    ensures KeyStep(cfg, w, op, k, Entry(w, k), Entry(Next(cfg, w, op), k))
  {
    if op.ClaimOp? {
      ClaimStep(cfg, w, op, k);
    }
  }

  // ----- the invariant of every reachable row -----

  predicate RowOk(w: World, t: Task) {
    && t.maxAttempts == DEFAULT_MAX_ATTEMPTS && t.attemptCount <= t.maxAttempts
    && (t.attemptId.Some? <==> t.status == Processing)
    && (t.leaseExpiresAt.Some? <==> t.status == Processing)
    && (t.attemptId.Some? ==> t.attemptId.value < w.nextAttempt)
    && (t.status == Queued ==> t.attemptCount < t.maxAttempts)
    && (t.status == Processing && t.retryAt.Some? ==> t.retryAt.value <= t.leaseExpiresAt.value)
    && (t.status == Completed <==> t.completedAt.Some?)
  }

  predicate EntryOk(w: World, entry: Option<Task>) {
    entry.Some? ==> RowOk(w, entry.value)
  }

  lemma StepKeepsOk(cfg: Config, w: World, op: Op, k: Key)
    requires Enabled(cfg, w, op) && EntryOk(w, Entry(w, k))
    ensures EntryOk(Next(cfg, w, op), Entry(Next(cfg, w, op), k))
  {
    StepKey(cfg, w, op, k);
  }

  lemma {:induction false} ReachableOk(cfg: Config, ws: seq<World>, ops: seq<Op>, n: nat, k: Key)
    requires Run(cfg, ws, ops) && n <= |ops|
    ensures EntryOk(ws[n], Entry(ws[n], k))
    decreases n
  {
    if n > 0 {
      assert StepAt(cfg, ws, ops, n - 1);
      ReachableOk(cfg, ws, ops, n - 1, k);
      StepKeepsOk(cfg, ws[n - 1], ops[n - 1], k);
    }
  }

  // ----- no deletion is lost -----

  ghost predicate DeletedAt(ws: seq<World>, ops: seq<Op>, n: nat, k: Key, i: nat)
    requires n <= |ops| < |ws|
  {
    i < n && Deletes(ws[i], ops[i], k) && forall j | i < j < n :: !Enqueues(ops[j], k)
  }

  // A deletion of the object succeeded, and none was asked for since.
  ghost predicate Deleted(ws: seq<World>, ops: seq<Op>, n: nat, k: Key)
    requires n <= |ops| < |ws|
  {
    exists i: nat :: DeletedAt(ws, ops, n, k, i)
  }

  ghost predicate Asked(ops: seq<Op>, n: nat, k: Key)
    requires n <= |ops|
  {
    exists i | 0 <= i < n :: Enqueues(ops[i], k)
  }

  predicate Done(entry: Option<Task>) {
    entry.None? || entry.value.status == Completed
  }

  lemma DeletedGrows(ws: seq<World>, ops: seq<Op>, n: nat, k: Key)
    requires n < |ops| < |ws|
    ensures Deleted(ws, ops, n + 1, k)
       <==> Deletes(ws[n], ops[n], k) || (Deleted(ws, ops, n, k) && !Enqueues(ops[n], k))
  {
    if Deletes(ws[n], ops[n], k) {
      assert DeletedAt(ws, ops, n + 1, k, n);
    } else if Deleted(ws, ops, n, k) && !Enqueues(ops[n], k) {
      var i: nat :| DeletedAt(ws, ops, n, k, i);
      assert DeletedAt(ws, ops, n + 1, k, i);
    } else if Deleted(ws, ops, n + 1, k) {
      var i: nat :| DeletedAt(ws, ops, n + 1, k, i);
      assert DeletedAt(ws, ops, n, k, i);
    }
  }

  lemma AskedGrows(ops: seq<Op>, n: nat, k: Key)
    requires n < |ops|
    ensures Asked(ops, n + 1, k) <==> Asked(ops, n, k) || Enqueues(ops[n], k)
  {
  }

  // What holds of a key that was asked for, or not, and deleted since, or not.
  predicate Promised(asked: bool, deleted: bool, entry: Option<Task>) {
    if asked then deleted <==> Done(entry) else entry == None && !deleted
  }

  lemma StepKeepsPromise(cfg: Config, w: World, op: Op, k: Key, asked: bool, deleted: bool)
    requires Enabled(cfg, w, op) && Promised(asked, deleted, Entry(w, k))
    ensures Promised(asked || Enqueues(op, k), Deletes(w, op, k) || (deleted && !Enqueues(op, k)),
                     Entry(Next(cfg, w, op), k))
  {
    StepKey(cfg, w, op, k);
  }

  // Of every key ever asked for, the deletion has succeeded since the latest
  // request exactly when its row is completed or gone: no request is lost, and
  // no row says completed without a deletion after the latest request.
  lemma {:induction false} NoDeletionIsLost(cfg: Config, ws: seq<World>, ops: seq<Op>, n: nat, k: Key)
    requires Run(cfg, ws, ops) && n <= |ops|
    ensures Promised(Asked(ops, n, k), Deleted(ws, ops, n, k), Entry(ws[n], k))
    decreases n
  {
    if n > 0 {
      assert StepAt(cfg, ws, ops, n - 1);
      NoDeletionIsLost(cfg, ws, ops, n - 1, k);
      DeletedGrows(ws, ops, n - 1, k);
      AskedGrows(ops, n - 1, k);
      StepKeepsPromise(cfg, ws[n - 1], ops[n - 1], k, Asked(ops, n - 1, k), Deleted(ws, ops, n - 1, k));
    }
  }

  // A row leaves the table only by a purge that finds it completed.
  lemma LeavesOnlyCompleted(cfg: Config, w: World, op: Op, k: Key)
    requires Enabled(cfg, w, op) && k in w.table && k !in Next(cfg, w, op).table
    ensures op.PurgeOp? && w.table[k].status == Completed
    ensures w.table[k].completedAt.Some? && w.table[k].completedAt.value < cfg.Cutoff(op.now)
  {
    StepKey(cfg, w, op, k);
  }

  // ----- attempts -----

  // An attempt drawn earlier that no longer holds the row of the key.
  predicate Spent(w: World, k: Key, a: nat) {
    a < w.nextAttempt && (k in w.table ==> w.table[k].attemptId != Some(a))
  }

  lemma StepKeepsSpent(cfg: Config, w: World, op: Op, k: Key, a: nat)
    requires Enabled(cfg, w, op) && Spent(w, k, a)
    ensures Spent(Next(cfg, w, op), k, a)
  {
    StepKey(cfg, w, op, k);
  }

  lemma {:induction false} SpentForever(cfg: Config, ws: seq<World>, ops: seq<Op>, i: nat, j: nat, k: Key, a: nat)
    requires Run(cfg, ws, ops) && i <= j <= |ops| && Spent(ws[i], k, a)
    ensures Spent(ws[j], k, a)
    decreases j - i
  {
    if i < j {
      assert StepAt(cfg, ws, ops, j - 1);
      SpentForever(cfg, ws, ops, i, j - 1, k, a);
      StepKeepsSpent(cfg, ws[j - 1], ops[j - 1], k, a);
    }
  }

  // Once a key is enqueued again, no attempt drawn before deletes the object
  // or changes the table, whatever happens in between.
  lemma ReEnqueueCancelsAttempts(cfg: Config, ws: seq<World>, ops: seq<Op>, i: nat, j: nat, k: Key)
    requires Run(cfg, ws, ops) && i < j < |ops| && Enqueues(ops[i], k)
    requires ops[j].ExecuteOp? && ops[j].key == k && ops[j].attempt < ws[i].nextAttempt
    ensures ws[j + 1] == ws[j] && !Deletes(ws[j], ops[j], k)
  {
    assert StepAt(cfg, ws, ops, i) && StepAt(cfg, ws, ops, j);
    StepKey(cfg, ws[i], ops[i], k);
    assert Spent(ws[i + 1], k, ops[j].attempt);
    SpentForever(cfg, ws, ops, i + 1, j, k, ops[j].attempt);
  }

  // An attempt changes the table at most once.
  lemma AttemptActsOnce(cfg: Config, ws: seq<World>, ops: seq<Op>, i: nat, j: nat)
    requires Run(cfg, ws, ops) && i < j < |ops| && ops[i].ExecuteOp? && ops[j].ExecuteOp?
    requires ops[i].key == ops[j].key && ops[i].attempt == ops[j].attempt
    requires ws[i + 1] != ws[i]
    ensures ws[j + 1] == ws[j] && !Deletes(ws[j], ops[j], ops[j].key)
  {
    assert StepAt(cfg, ws, ops, i) && StepAt(cfg, ws, ops, j);
    var k, a := ops[i].key, ops[i].attempt;
    StepKey(cfg, ws[i], ops[i], k);
    ReachableOk(cfg, ws, ops, i, k);
    assert Spent(ws[i + 1], k, a);
    SpentForever(cfg, ws, ops, i + 1, j, k, a);
  }

  // ----- bounded work -----

  // How often the key was claimed since the latest enqueue.
  ghost function ClaimsSince(ops: seq<Op>, n: nat, k: Key): nat
    requires n <= |ops|
  {
    if n == 0 || Enqueues(ops[n - 1], k) then 0
    else ClaimsSince(ops, n - 1, k) + (if Claims(ops[n - 1], k) then 1 else 0)
  }

  // How often its entry changed since then.
  ghost function ChangesSince(ws: seq<World>, ops: seq<Op>, n: nat, k: Key): nat
    requires n <= |ops| < |ws|
  {
    if n == 0 || Enqueues(ops[n - 1], k) then 0
    else ChangesSince(ws, ops, n - 1, k) + (if Entry(ws[n], k) != Entry(ws[n - 1], k) then 1 else 0)
  }

  // An upper bound on the changes to come before the next enqueue.
  function Fuel(entry: Option<Task>): int {
    if entry.None? then 0
    else
      var t := entry.value;
      match t.status
      case Queued => 2 * (t.maxAttempts - t.attemptCount) + 1
      case Processing => 2 * (t.maxAttempts - t.attemptCount) + 2
      case Completed => 1
      case DeadLettered => 0
  }

  // The count of attempts is the number of claims since the latest enqueue and
  // never passes the maximum.
  lemma {:induction false} AttemptsAreClaims(cfg: Config, ws: seq<World>, ops: seq<Op>, n: nat, k: Key)
    requires Run(cfg, ws, ops) && n <= |ops| && k in ws[n].table
    ensures ws[n].table[k].attemptCount == ClaimsSince(ops, n, k) <= DEFAULT_MAX_ATTEMPTS
    decreases n
  {
    ReachableOk(cfg, ws, ops, n, k);
    if n > 0 {
      assert StepAt(cfg, ws, ops, n - 1);
      StepKey(cfg, ws[n - 1], ops[n - 1], k);
      if !Enqueues(ops[n - 1], k) {
        AttemptsAreClaims(cfg, ws, ops, n - 1, k);
      }
    }
  }

  lemma StepBurnsFuel(cfg: Config, w: World, op: Op, k: Key)
    requires Enabled(cfg, w, op) && EntryOk(w, Entry(w, k)) && !Enqueues(op, k)
    ensures var before, after := Entry(w, k), Entry(Next(cfg, w, op), k);
      after != before ==> 0 <= Fuel(after) < Fuel(before)
  {
    StepKey(cfg, w, op, k);
    StepKeepsOk(cfg, w, op, k);
  }

  // Between two enqueues the entry of a key changes at most 21 times.
  lemma {:induction false} WorkIsBounded(cfg: Config, ws: seq<World>, ops: seq<Op>, n: nat, k: Key)
    requires Run(cfg, ws, ops) && n <= |ops|
    ensures ChangesSince(ws, ops, n, k) + Fuel(Entry(ws[n], k)) <= 2 * DEFAULT_MAX_ATTEMPTS + 1
    ensures ChangesSince(ws, ops, n, k) <= 2 * DEFAULT_MAX_ATTEMPTS + 1
    decreases n
  {
    ReachableOk(cfg, ws, ops, n, k);
    if n > 0 {
      assert StepAt(cfg, ws, ops, n - 1);
      if Enqueues(ops[n - 1], k) {
        StepKey(cfg, ws[n - 1], ops[n - 1], k);
        ReachableOk(cfg, ws, ops, n - 1, k);
      } else {
        WorkIsBounded(cfg, ws, ops, n - 1, k);
        ReachableOk(cfg, ws, ops, n - 1, k);
        StepBurnsFuel(cfg, ws[n - 1], ops[n - 1], k);
      }
    }
  }

  // ----- no task is stuck -----

  // From some time on, a row that is neither completed nor dead is either
  // claimable or swept, and never both.
  lemma NoTaskIsStuck(cfg: Config, ws: seq<World>, ops: seq<Op>, n: nat, k: Key) returns (ready: Time)
    requires Run(cfg, ws, ops) && n <= |ops| && k in ws[n].table
    requires ws[n].table[k].status == Queued || ws[n].table[k].status == Processing
    ensures forall now: Time | now >= ready ::
              Claimable(ws[n].table[k], now) <==> !Sweepable(ws[n].table[k], now)
  {
    ReachableOk(cfg, ws, ops, n, k);
    var t := ws[n].table[k];
    ready := if t.status == Processing then t.leaseExpiresAt.value
             else if t.retryAt.Some? then t.retryAt.value
             else 0;
  }

  // A claim never passes over the oldest claimable row.
  lemma OldestIsPicked(cfg: Config, w: World, op: Op, k: Key)
    requires Enabled(cfg, w, op) && op.ClaimOp? && k in w.table && k !in op.locked && Claimable(w.table[k], op.now)
    requires forall p | p in w.table && p != k && Claimable(w.table[p], op.now) ::
               w.table[k].createdAt < w.table[p].createdAt
    ensures k in op.picks
  {
    assert op.picks != [] ==> op.picks[0] in op.picks;
  }
}
