// The outbox of object deletions (backend/app/maintenance.py) on values: what
// each transaction does to one row and to the table.
module OutboxModel {
  import opened Common

  datatype Status = Queued | Processing | Completed | DeadLettered

  datatype Key = Key(name: string)

  // A row of object_deletion_tasks; its object key is the key of the table.
  // `id` names the row: a key purged and enqueued again gets a new row.
  datatype Task = Task(
    id: nat,
    status: Status,
    attemptCount: nat,
    maxAttempts: nat,
    attemptId: Option<nat>,
    retryAt: Option<Time>,
    claimedAt: Option<Time>,
    leaseExpiresAt: Option<Time>,
    lastError: Option<string>,
    completedAt: Option<Time>,
    deadLetteredAt: Option<Time>,
    createdAt: Time)

  type Table = map<Key, Task>

  datatype Config = Config(batchSetting: int, retentionDays: int) {
    function BatchSize(limit: Option<int>): (n: nat)
      ensures 1 <= n <= 1_000
      ensures limit.Some? && 1 <= limit.value <= 1_000 ==> n == limit.value
      ensures (limit == None || limit.value == 0) && 1 <= batchSetting <= 1_000 ==> n == batchSetting
    {
      var wanted := if limit == None || limit.value == 0 then batchSetting else limit.value;
      Max(1, Min(wanted, 1_000))
    }

    function Cutoff(now: Time): Time {
      now - Max(1, retentionDays) * 86_400
    }
  }

  const DEFAULT_MAX_ATTEMPTS: nat := 10
  const LEASE: int := 120
  const SWEPT: string := "Maximum object-deletion attempts exhausted after a lost lease."

  // ----- one row -----

  function NewTask(id: nat, now: Time): Task {
    Task(id, Queued, 0, DEFAULT_MAX_ATTEMPTS, None, None, None, None, None, None, None, now)
  }

  function Requeued(t: Task): Task {
    Task(t.id, Queued, 0, t.maxAttempts, None, None, None, None, None, None, None, t.createdAt)
  }

  predicate LeaseOver(t: Task, now: Time) {
    t.leaseExpiresAt == None || t.leaseExpiresAt.value <= now
  }

  predicate Sweepable(t: Task, now: Time) {
    t.status == Processing && t.attemptCount >= t.maxAttempts && LeaseOver(t, now)
  }

  function Sweeping(t: Task, now: Time): Task {
    t.(status := DeadLettered, deadLetteredAt := Some(now), leaseExpiresAt := None, attemptId := None,
       retryAt := None, lastError := Some(SWEPT))
  }

  predicate Claimable(t: Task, now: Time) {
    && (t.status == Queued || (t.status == Processing && LeaseOver(t, now)))
    && t.attemptCount < t.maxAttempts
    && (t.retryAt == None || t.retryAt.value <= now)
  }

  function Claiming(t: Task, attempt: nat, now: Time): Task {
    t.(status := Processing, attemptId := Some(attempt), claimedAt := Some(now),
       leaseExpiresAt := Some(now + LEASE), attemptCount := t.attemptCount + 1)
  }

  function Backoff(attemptCount: nat): int {
    Min(3_600, Pow2(Min(attemptCount, 10)))
  }

  function Failing(t: Task, error: string, now: Time): Task {
    var failed := t.(lastError := Some(Take(error + ": object deletion failed", 2_000)),
                     leaseExpiresAt := None, attemptId := None);
    if t.attemptCount >= t.maxAttempts
    then failed.(status := DeadLettered, deadLetteredAt := Some(now), retryAt := None)
    else failed.(status := Queued, retryAt := Some(now + Backoff(t.attemptCount)))
  }

  function Completing(t: Task, now: Time): Task {
    t.(status := Completed, completedAt := Some(now), leaseExpiresAt := None, attemptId := None,
       retryAt := None, lastError := None)
  }

  predicate Purgeable(t: Task, cutoff: Time) {
    t.status == Completed && t.completedAt.Some? && t.completedAt.value < cutoff
  }

  // ----- the table -----

  predicate IsKey(name: Option<string>) {
    name.Some? && name.value != ""
  }

  function Enqueue(table: Table, name: Option<string>, newId: nat, now: Time): Table {
    if !IsKey(name) then table
    else
      var key := Key(name.value);
      table[key := if key in table then Requeued(table[key]) else NewTask(newId, now)]
  }

  function Sweep(table: Table, now: Time): Table {
    map k | k in table :: if Sweepable(table[k], now) then Sweeping(table[k], now) else table[k]
  }

  // The rows a claim selects: unlocked and claimable, the oldest first, as
  // many as the batch takes.
  ghost predicate Selects(table: Table, locked: set<Key>, batch: nat, now: Time, picks: seq<Key>) {
    && |picks| <= batch
    && Distinct(picks)
    && (forall k | k in picks :: k in table && k !in locked && Claimable(table[k], now))
    && (forall k | k in table && k !in locked && Claimable(table[k], now) && k !in picks ::
          |picks| == batch && forall p | p in picks :: p in table && table[p].createdAt <= table[k].createdAt)
  }

  // The rows of `picks` claimed in turn, with the attempt ids from `first` on.
  function Claim(table: Table, picks: seq<Key>, first: nat, now: Time): Table {
    if picks == [] then table
    else
      var last := |picks| - 1;
      var claimed := Claim(table, picks[..last], first, now);
      if picks[last] in claimed then claimed[picks[last] := Claiming(claimed[picks[last]], first + last, now)]
      else claimed
  }

  // Whether an attempt still holds its row.
  predicate Holds(table: Table, key: Key, id: nat, attempt: nat) {
    && key in table && table[key].id == id
    && table[key].status == Processing && table[key].attemptId == Some(attempt)
  }

  // One attempt; `failure` is the error the object store raises, if any.
  function Execute(table: Table, key: Key, id: nat, attempt: nat, failure: Option<string>, now: Time): Table {
    if !Holds(table, key, id, attempt) then table
    else table[key := if failure.Some? then Failing(table[key], failure.value, now) else Completing(table[key], now)]
  }

  function Purge(table: Table, cutoff: Time): Table {
    map k | k in table && !Purgeable(table[k], cutoff) :: table[k]
  }

  // What the object store answers to an attempt, and when.
  datatype Outcome = Outcome(failure: Option<string>, at: Time)

  // All attempts of a batch; outcomes[i] belongs to picks[i].
  function ExecuteAll(table: Table, picks: seq<Key>, ids: seq<nat>, first: nat, outcomes: seq<Outcome>): Table
    requires |ids| == |picks| == |outcomes|
  {
    if picks == [] then table
    else
      var last := |picks| - 1;
      var before := ExecuteAll(table, picks[..last], ids[..last], first, outcomes[..last]);
      Execute(before, picks[last], ids[last], first + last, outcomes[last].failure, outcomes[last].at)
  }

  // The delay doubles from two seconds up to 1024, so the cap of an hour is
  // never reached.
  lemma BackoffDoubles(attemptCount: nat)
    requires attemptCount >= 1
    ensures Backoff(1) == 2 && Backoff(attemptCount) <= 1_024
    ensures Backoff(attemptCount + 1) == if attemptCount < 10 then 2 * Backoff(attemptCount) else Backoff(attemptCount)
  {
    Pow2Grows(Min(attemptCount, 10), 10);
    Pow2Grows(Min(attemptCount + 1, 10), 10);
    assert Pow2(10) == 1_024;
  }

  // ----- batches -----

  ghost predicate Distinct(picks: seq<Key>) {
    forall i, j | 0 <= i < j < |picks| :: picks[i] != picks[j]
  }

  lemma {:induction false} ClaimSkips(table: Table, picks: seq<Key>, first: nat, now: Time, k: Key)
    requires k !in picks
    ensures var claimed := Claim(table, picks, first, now);
      (k in claimed <==> k in table) && (k in table ==> claimed[k] == table[k])
  {
    if picks != [] {
      ClaimSkips(table, picks[..|picks| - 1], first, now, k);
    }
  }

  lemma {:induction false} ClaimTakes(table: Table, picks: seq<Key>, first: nat, now: Time, i: nat)
    requires Distinct(picks) && i < |picks| && picks[i] in table
    ensures var claimed := Claim(table, picks, first, now);
      picks[i] in claimed && claimed[picks[i]] == Claiming(table[picks[i]], first + i, now)
  {
    var last := |picks| - 1;
    var init := picks[..last];
    assert forall j | 0 <= j < last :: init[j] == picks[j];
    if i == last {
      ClaimSkips(table, init, first, now, picks[last]);
    } else {
      ClaimTakes(table, init, first, now, i);
    }
  }

  lemma ClaimGrows(table: Table, picks: seq<Key>, first: nat, now: Time, i: nat)
    requires i < |picks| && picks[i] in table
    ensures var before := Claim(table, picks[..i], first, now);
      && picks[i] in before
      && Claim(table, picks[..i + 1], first, now)
         == before[picks[i] := Claiming(before[picks[i]], first + i, now)]
  {
    assert picks[..i + 1][..i] == picks[..i];
    ClaimKeepsKeys(table, picks[..i], first, now);
  }

  lemma {:induction false} ClaimKeepsKeys(table: Table, picks: seq<Key>, first: nat, now: Time)
    ensures Claim(table, picks, first, now).Keys == table.Keys
  {
    if picks != [] {
      ClaimKeepsKeys(table, picks[..|picks| - 1], first, now);
    }
  }

  function IdsOf(table: Table, picks: seq<Key>): (ids: seq<nat>)
    ensures |ids| == |picks|
  {
    seq(|picks|, i requires 0 <= i < |picks| => if picks[i] in table then table[picks[i]].id else 0)
  }

  lemma IdsGrow(table: Table, picks: seq<Key>, first: nat, now: Time, i: nat)
    requires i < |picks| && picks[i] in table
    ensures var claimed := Claim(table, picks[..i + 1], first, now);
      && picks[i] in claimed
      && IdsOf(table, picks[..i + 1]) == IdsOf(table, picks[..i]) + [claimed[picks[i]].id]
  {
    ClaimKeepsIds(table, picks[..i + 1], first, now, picks[i]);
  }

  lemma {:induction false} ClaimKeepsIds(table: Table, picks: seq<Key>, first: nat, now: Time, k: Key)
    requires k in table
    ensures var claimed := Claim(table, picks, first, now); k in claimed && claimed[k].id == table[k].id
  {
    if picks != [] {
      ClaimKeepsIds(table, picks[..|picks| - 1], first, now, k);
    }
  }

  // Every claimed row is held by the attempt that claimed it.
  lemma ClaimHolds(table: Table, picks: seq<Key>, first: nat, now: Time)
    requires Distinct(picks) && forall k | k in picks :: k in table
    ensures forall i | 0 <= i < |picks| ::
      Holds(Claim(table, picks, first, now), picks[i], IdsOf(table, picks)[i], first + i)
  {
    forall i | 0 <= i < |picks|
      ensures Holds(Claim(table, picks, first, now), picks[i], IdsOf(table, picks)[i], first + i)
    {
      ClaimTakes(table, picks, first, now, i);
    }
  }

  // A run of the batch with nothing in between.
  function Process(table: Table, picks: seq<Key>, first: nat, outcomes: seq<Outcome>, now: Time): Table
    requires |outcomes| == |picks|
  {
    var swept := Sweep(table, now);
    ExecuteAll(Claim(swept, picks, first, now), picks, IdsOf(swept, picks), first, outcomes)
  }

  lemma ExecuteGrows(table: Table, picks: seq<Key>, ids: seq<nat>, first: nat, outcomes: seq<Outcome>, i: nat)
    requires |ids| == |picks| == |outcomes| && i < |picks|
    ensures ExecuteAll(table, picks[..i + 1], ids[..i + 1], first, outcomes[..i + 1])
         == Execute(ExecuteAll(table, picks[..i], ids[..i], first, outcomes[..i]),
                    picks[i], ids[i], first + i, outcomes[i].failure, outcomes[i].at)
    ensures Failures(outcomes[..i + 1]) == Failures(outcomes[..i]) + (if outcomes[i].failure.Some? then 1 else 0)
  {
    assert picks[..i + 1][..i] == picks[..i] && ids[..i + 1][..i] == ids[..i];
    assert outcomes[..i + 1][..i] == outcomes[..i];
  }

  function Failures(outcomes: seq<Outcome>): nat {
    if outcomes == [] then 0
    else Failures(outcomes[..|outcomes| - 1]) + (if outcomes[|outcomes| - 1].failure.Some? then 1 else 0)
  }

  // With nothing in between, every attempt of a batch still holds its row.
  lemma {:induction false} BatchHolds(table: Table, picks: seq<Key>, ids: seq<nat>, first: nat,
                                      outcomes: seq<Outcome>, n: nat)
    requires |ids| == |picks| == |outcomes| && n <= |picks|
    requires Distinct(picks)
    requires forall i | 0 <= i < |picks| :: Holds(table, picks[i], ids[i], first + i)
    ensures var after := ExecuteAll(table, picks[..n], ids[..n], first, outcomes[..n]);
      forall i | n <= i < |picks| :: Holds(after, picks[i], ids[i], first + i)
    decreases n
  {
    if n > 0 {
      BatchHolds(table, picks, ids, first, outcomes, n - 1);
      assert picks[..n][..n - 1] == picks[..n - 1] && ids[..n][..n - 1] == ids[..n - 1];
      assert outcomes[..n][..n - 1] == outcomes[..n - 1];
    }
  }
}

// The same transactions on mutable rows, each proved against OutboxModel.
module OutboxStore {
  import opened Common
  import opened OutboxModel

  class DeletionTask {
    const id: nat
    const createdAt: Time
    const maxAttempts: nat
    var status: Status
    var attemptCount: nat
    var attemptId: Option<nat>
    var retryAt: Option<Time>
    var claimedAt: Option<Time>
    var leaseExpiresAt: Option<Time>
    var lastError: Option<string>
    var completedAt: Option<Time>
    var deadLetteredAt: Option<Time>

    function Row(): Task
      reads this
    {
      Task(id, status, attemptCount, maxAttempts, attemptId, retryAt, claimedAt, leaseExpiresAt, lastError,
           completedAt, deadLetteredAt, createdAt)
    }

    constructor (id: nat, now: Time)
      ensures Row() == NewTask(id, now)
    {
      this.id, createdAt, maxAttempts := id, now, DEFAULT_MAX_ATTEMPTS;
      status, attemptCount, attemptId := Queued, 0, None;
      retryAt, claimedAt, leaseExpiresAt, lastError := None, None, None, None;
      completedAt, deadLetteredAt := None, None;
    }

    method Requeue()
      modifies this
      ensures Row() == Requeued(old(Row()))
    {
      status, attemptCount, attemptId := Queued, 0, None;
      retryAt, claimedAt, leaseExpiresAt, lastError := None, None, None, None;
      completedAt, deadLetteredAt := None, None;
    }

    method MarkSwept(now: Time)
      modifies this
      ensures Row() == Sweeping(old(Row()), now)
    {
      status := DeadLettered;
      deadLetteredAt := Some(now);
      leaseExpiresAt, attemptId, retryAt := None, None, None;
      lastError := Some(SWEPT);
    }

    method MarkClaimed(attempt: nat, now: Time)
      modifies this
      ensures Row() == Claiming(old(Row()), attempt, now)
    {
      status := Processing;
      attemptId := Some(attempt);
      claimedAt := Some(now);
      leaseExpiresAt := Some(now + LEASE);
      attemptCount := attemptCount + 1;
    }

    method MarkFailed(error: string, now: Time)
      modifies this
      ensures Row() == Failing(old(Row()), error, now)
    {
      lastError := Some(Take(error + ": object deletion failed", 2_000));
      leaseExpiresAt, attemptId := None, None;
      if attemptCount >= maxAttempts {
        status := DeadLettered;
        deadLetteredAt := Some(now);
        retryAt := None;
      } else {
        status := Queued;
        retryAt := Some(now + Backoff(attemptCount));
      }
    }

    method MarkCompleted(now: Time)
      modifies this
      ensures Row() == Completing(old(Row()), now)
    {
      status := Completed;
      completedAt := Some(now);
      leaseExpiresAt, attemptId, retryAt, lastError := None, None, None, None;
    }
  }

  lemma SmallerMap(m: map<Key, DeletionTask>, n: map<Key, DeletionTask>)
    requires n.Keys <= m.Keys
    ensures |n| <= |m|
  {
    assert |m.Keys - n.Keys| == |m| - |n|;
  }

  class Outbox {
    var tasks: map<Key, DeletionTask>

    ghost predicate Valid()
      reads this
    {
      forall j, k | j in tasks && k in tasks && j != k :: tasks[j] != tasks[k]
    }

    function View(): (table: Table)
      reads this, tasks.Values
      ensures table.Keys == tasks.Keys
    {
      map k | k in tasks :: tasks[k].Row()
    }

    constructor ()
      ensures Valid() && View() == map[]
    {
      tasks := map[];
    }

    method EnqueueObjectDeletion(name: Option<string>, newId: nat, now: Time)
      requires Valid()
      modifies this, tasks.Values
      ensures Valid() && View() == Enqueue(old(View()), name, newId, now)
      ensures fresh(tasks.Values - old(tasks.Values))
    {
      if !IsKey(name) {
        return;
      }
      var key := Key(name.value);
      if key in tasks {
        tasks[key].Requeue();
      } else {
        var task := new DeletionTask(newId, now);
        tasks := tasks[key := task];
      }
    }

    method SweepExhausted(now: Time)
      requires Valid()
      modifies tasks.Values
      ensures Valid() && View() == Sweep(old(View()), now)
    {
      var keys := tasks.Keys;
      while keys != {}
        invariant keys <= tasks.Keys
        invariant forall k | k in tasks ::
          tasks[k].Row() == if k in keys then old(View())[k] else Sweep(old(View()), now)[k]
        decreases keys
      {
        var k :| k in keys;
        if Sweepable(tasks[k].Row(), now) {
          tasks[k].MarkSwept(now);
        }
        keys := keys - {k};
      }
    }

    // One row of the claim; `table` is the table the claim began with.
    method ClaimNext(ghost table: Table, picks: seq<Key>, i: nat, first: nat, now: Time) returns (id: nat)
      requires Valid() && i < |picks| && picks[i] in table
      requires View() == Claim(table, picks[..i], first, now)
      modifies tasks.Values
      ensures Valid() && View() == Claim(table, picks[..i + 1], first, now)
      ensures picks[i] in View() && id == View()[picks[i]].id
    {
      ClaimGrows(table, picks, first, now, i);
      var task := tasks[picks[i]];
      task.MarkClaimed(first + i, now);
      id := task.id;
    }

    // `picks` is what the claim query returns. The ids of the claimed rows
    // come back with it.
    method ClaimBatch(picks: seq<Key>, first: nat, now: Time) returns (ids: seq<nat>)
      requires Valid()
      requires forall k | k in picks :: k in tasks
      modifies tasks.Values
      ensures Valid() && tasks == old(tasks) && View() == Claim(old(View()), picks, first, now)
      ensures ids == IdsOf(old(View()), picks)
    {
      ids := [];
      ghost var table := View();
      for i := 0 to |picks|
        invariant Valid() && tasks == old(tasks) && View() == Claim(table, picks[..i], first, now)
        invariant ids == IdsOf(table, picks[..i])
      {
        var id := ClaimNext(table, picks, i, first, now);
        IdsGrow(table, picks, first, now, i);
        ids := ids + [id];
      }
      assert picks[..|picks|] == picks;
    }

    method ExecuteDeletion(key: Key, id: nat, attempt: nat, failure: Option<string>, now: Time)
      returns (ran: bool)
      requires Valid()
      modifies tasks.Values
      ensures Valid() && tasks == old(tasks)
      ensures View() == Execute(old(View()), key, id, attempt, failure, now)
      ensures ran == Holds(old(View()), key, id, attempt)
    {
      if key !in tasks || tasks[key].id != id || tasks[key].status != Processing
         || tasks[key].attemptId != Some(attempt) {
        return false;
      }
      if failure.Some? {
        tasks[key].MarkFailed(failure.value, now);
      } else {
        tasks[key].MarkCompleted(now);
      }
      ran := true;
    }

    // One attempt of the batch; `table` is the table the batch began with.
    method ExecuteNext(ghost table: Table, picks: seq<Key>, ids: seq<nat>, i: nat, first: nat,
                       outcomes: seq<Outcome>) returns (ran: bool)
      requires Valid() && |outcomes| == |picks| == |ids| && i < |picks|
      requires View() == ExecuteAll(table, picks[..i], ids[..i], first, outcomes[..i])
      modifies tasks.Values
      ensures Valid() && tasks == old(tasks)
      ensures View() == ExecuteAll(table, picks[..i + 1], ids[..i + 1], first, outcomes[..i + 1])
      ensures ran == Holds(old(View()), picks[i], ids[i], first + i)
      ensures Failures(outcomes[..i + 1]) == Failures(outcomes[..i]) + (if outcomes[i].failure.Some? then 1 else 0)
    {
      ExecuteGrows(table, picks, ids, first, outcomes, i);
      ran := ExecuteDeletion(picks[i], ids[i], first + i, outcomes[i].failure, outcomes[i].at);
    }

    method ExecuteBatch(picks: seq<Key>, ids: seq<nat>, first: nat, outcomes: seq<Outcome>)
      returns (completed: nat, failed: nat)
      requires Valid() && |outcomes| == |picks| == |ids|
      requires Distinct(picks) && forall i | 0 <= i < |picks| :: Holds(View(), picks[i], ids[i], first + i)
      modifies tasks.Values
      ensures Valid() && tasks == old(tasks)
      ensures View() == ExecuteAll(old(View()), picks, ids, first, outcomes)
      ensures failed == Failures(outcomes) && completed + failed == |picks|
    {
      completed, failed := 0, 0;
      ghost var table := View();
      for i := 0 to |picks|
        invariant Valid() && tasks == old(tasks)
        invariant View() == ExecuteAll(table, picks[..i], ids[..i], first, outcomes[..i])
        invariant failed == Failures(outcomes[..i]) && completed + failed == i
      {
        BatchHolds(table, picks, ids, first, outcomes, i);
        var ran := ExecuteNext(table, picks, ids, i, first, outcomes);
        if ran {
          if outcomes[i].failure.Some? {
            failed := failed + 1;
          } else {
            completed := completed + 1;
          }
        }
      }
      assert picks[..|picks|] == picks && ids[..|picks|] == ids && outcomes[..|picks|] == outcomes;
    }

    // A whole run: the sweep and one claim, at time `now`, and every claimed
    // deletion in turn, each at its own time. Uninterrupted, each attempt counts as a completion or as a failure.
    method ProcessObjectDeletions(cfg: Config, limit: Option<int>, locked: set<Key>, picks: seq<Key>,
                                  first: nat, outcomes: seq<Outcome>, now: Time)
      returns (completed: nat, failed: nat)
      requires Valid() && |outcomes| == |picks|
      requires Selects(Sweep(View(), now), locked, cfg.BatchSize(limit), now, picks)
      modifies tasks.Values
      ensures Valid() && tasks == old(tasks)
      ensures View() == Process(old(View()), picks, first, outcomes, now)
      ensures failed == Failures(outcomes) && completed + failed == |picks|
    {
      SweepExhausted(now);
      ghost var swept := View();
      var ids := ClaimBatch(picks, first, now);
      ClaimHolds(swept, picks, first, now);
      completed, failed := ExecuteBatch(picks, ids, first, outcomes);
    }

    method PurgeCompleted(cfg: Config, now: Time) returns (purged: nat)
      requires Valid()
      modifies this
      ensures Valid() && View() == Purge(old(View()), cfg.Cutoff(now))
      ensures purged == |old(tasks)| - |tasks|
    {
      var cutoff := cfg.Cutoff(now);
      var kept := map k | k in tasks && !Purgeable(tasks[k].Row(), cutoff) :: tasks[k];
      ghost var table := Purge(View(), cutoff);
      assert kept.Keys == table.Keys;
      SmallerMap(tasks, kept);
      purged := |tasks| - |kept|;
      tasks := kept;
      assert forall k | k in tasks :: tasks[k].Row() == table[k];
    }
  }
}
