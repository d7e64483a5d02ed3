// The persistent fixed-window limit (backend/app/rate_limits.py) and the purge
// of its rows (backend/app/maintenance.py).
module FixedWindow {
  import opened Common

  // A bucket name, at most 64 characters of it, with the hash of the key
  // limited in it; the keyed hash is taken to be injective.
  datatype Key = Key(bucket: string, hashed: string)

  datatype RowKey = RowKey(key: Key, start: int)

  datatype Row = Row(count: int, expires: int)

  type Table = map<RowKey, Row>

  datatype Hit = Hit(bucket: string, key: string, limit: int, window: int, units: int, now: real)

  datatype Reply = Admitted | RetryAfter(seconds: int) | BadConfiguration

  function KeyOf(h: Hit): Key {
    Key(Take(h.bucket, 64), h.key)
  }

  predicate Configured(h: Hit) {
    h.limit > 0 && h.window > 0 && h.units > 0
  }

  // The start of the aligned window a time falls in.
  function StartOf(now: real, window: int): int
    requires window > 0
  {
    var epoch := Truncate(now);
    epoch - epoch % window
  }

  function RowOf(h: Hit): RowKey
    requires Configured(h)
  {
    RowKey(KeyOf(h), StartOf(h.now, h.window))
  }

  function CountAt(table: Table, r: RowKey): int {
    if r in table then table[r].count else 0
  }

  function Wait(h: Hit): int
    requires Configured(h)
  {
    Max(1, Truncate((StartOf(h.now, h.window) + h.window) as real - h.now) + 1)
  }

  function ReplyTo(table: Table, h: Hit): Reply {
    if !Configured(h) then BadConfiguration
    else if CountAt(table, RowOf(h)) + h.units <= h.limit then Admitted
    else RetryAfter(Wait(h))
  }

  // Every configured hit is counted, admitted or not.
  function Counted(table: Table, h: Hit): Table {
    if !Configured(h) then table
    else
      var r := RowOf(h);
      table[r := Row(CountAt(table, r) + h.units, r.start + 2 * h.window)]
  }

  function Purged(table: Table, now: real): Table {
    map r | r in table && !(table[r].expires as real < now) :: table[r]
  }

  // The row the hit counts in does not expire before its window ends.
  predicate Outlives(table: Table, h: Hit) {
    Configured(h) && RowOf(h) in table ==> RowOf(h).start + h.window <= table[RowOf(h)].expires
  }

  lemma PurgeKeepsReply(table: Table, now: real, h: Hit)
    requires 0.0 <= now <= h.now && Outlives(table, h)
    ensures ReplyTo(Purged(table, now), h) == ReplyTo(table, h)
  {
    if Configured(h) {
      var _ := StartIs(h.now, h.window);
    }
  }

  lemma FewerRows(all: Table, some: Table)
    requires some.Keys <= all.Keys
    ensures |some| <= |all|
  {
    assert |all.Keys - some.Keys| == |all| - |some|;
  }

  class RateLimitBuckets {
    var rows: Table

    constructor ()
      ensures rows == map[]
    {
      rows := map[];
    }

    method HitPersistentLimit(h: Hit) returns (reply: Reply)
      modifies this
      ensures reply == ReplyTo(old(rows), h) && rows == Counted(old(rows), h)
    {
      if h.limit <= 0 || h.window <= 0 || h.units <= 0 {
        return BadConfiguration;
      }
      var epoch := Truncate(h.now);
      var start := epoch - epoch % h.window;
      var r := RowKey(Key(Take(h.bucket, 64), h.key), start);
      var count := h.units;
      if r in rows {
        count := rows[r].count + h.units;
      }
      rows := rows[r := Row(count, start + 2 * h.window)];
      if count <= h.limit {
        return Admitted;
      }
      reply := RetryAfter(Max(1, Truncate((start + h.window) as real - h.now) + 1));
    }

    // Exactly the expired rows go, and no decision from now on changes as long
    // as the row it needs outlives its window.
    method PurgeExpiredRateLimits(now: real) returns (purged: nat)
      modifies this
      ensures rows == Purged(old(rows), now) && purged == |old(rows)| - |rows|
      ensures forall r :: r in rows <==> r in old(rows) && now <= old(rows)[r].expires as real
      ensures forall r | r in rows :: rows[r] == old(rows)[r]
      ensures forall h: Hit | 0.0 <= now <= h.now && Outlives(old(rows), h) :: ReplyTo(rows, h) == ReplyTo(old(rows), h)
    {
      var kept := map r | r in rows && !(rows[r].expires as real < now) :: rows[r];
      FewerRows(rows, kept);
      forall h: Hit | 0.0 <= now <= h.now && Outlives(rows, h) ensures ReplyTo(kept, h) == ReplyTo(rows, h) {
        PurgeKeepsReply(rows, now, h);
      }
      purged := |rows| - |kept|;
      rows := kept;
    }
  }

  // ----- aligned windows -----

  predicate InWindow(now: real, start: int, window: int) {
    start as real <= now < (start + window) as real
  }

  // The start of aligned window number q.
  function Aligned(q: int, window: int): int {
    window * q
  }

  lemma NextAligned(q: int, window: int)
    ensures Aligned(q + 1, window) == Aligned(q, window) + window
  {
  }

  lemma {:induction false} AlignedGrows(p: int, q: int, window: int)
    requires window > 0 && p < q
    ensures Aligned(p, window) + window <= Aligned(q, window)
    decreases q - p
  {
    NextAligned(q - 1, window);
    if p < q - 1 {
      AlignedGrows(p, q - 1, window);
    }
  }

  // A time falls in exactly one aligned window.
  lemma StartIs(now: real, window: int) returns (q: int)
    requires window > 0 && now >= 0.0
    ensures StartOf(now, window) == Aligned(q, window) && InWindow(now, StartOf(now, window), window)
  {
    var epoch := now.Floor;
    q := epoch / window;
    assert epoch - epoch % window == window * q;
  }

  lemma OneWindow(now: real, p: int, q: int, window: int)
    requires window > 0 && InWindow(now, Aligned(p, window), window) && InWindow(now, Aligned(q, window), window)
    ensures p == q
  {
    if p < q {
      AlignedGrows(p, q, window);
    } else if q < p {
      AlignedGrows(q, p, window);
    }
  }

  // A refused hit that waits the given time comes after its window.
  lemma WaitPassesWindow(h: Hit, later: real)
    requires Configured(h) && h.now >= 0.0 && later >= h.now + Wait(h) as real
    ensures StartOf(later, h.window) >= StartOf(h.now, h.window) + h.window
  {
    var p := StartIs(h.now, h.window);
    var q := StartIs(later, h.window);
    assert later > (StartOf(h.now, h.window) + h.window) as real;
    if q > p {
      AlignedGrows(p, q, h.window);
    } else if q < p {
      AlignedGrows(q, p, h.window);
    }
  }
}

// Theorems about every history of hits and purges. Assumed: the clock reads a
// time after 1970 and does not go back.
module FixedRuns {
  import opened FixedWindow

  datatype Op = HitOp(hit: Hit) | PurgeOp(now: real)

  function TimeOf(op: Op): real {
    match op
    case HitOp(h) => h.now
    case PurgeOp(now) => now
  }

  function Next(table: Table, op: Op): Table {
    match op
    case HitOp(h) => Counted(table, h)
    case PurgeOp(now) => Purged(table, now)
  }

  predicate StepAt(ts: seq<Table>, ops: seq<Op>, i: nat) {
    i < |ops| && |ts| == |ops| + 1 && ts[i + 1] == Next(ts[i], ops[i]) && TimeOf(ops[i]) >= 0.0
  }

  ghost predicate Run(ts: seq<Table>, ops: seq<Op>) {
    && |ts| == |ops| + 1 && ts[0] == map[]
    && (forall i | 0 <= i < |ops| :: StepAt(ts, ops, i))
    && (forall i, j | 0 <= i < j < |ops| :: TimeOf(ops[i]) <= TimeOf(ops[j]))
  }

  predicate HitsKey(op: Op, k: Key) {
    op.HitOp? && Configured(op.hit) && KeyOf(op.hit) == k
  }

  predicate SettingAt(ops: seq<Op>, k: Key, limit: int, window: int, i: nat) {
    i < |ops| && (HitsKey(ops[i], k) ==> ops[i].hit.limit == limit && ops[i].hit.window == window)
  }

  // Every hit on the key asks for the same limit and window.
  ghost predicate Uniform(ops: seq<Op>, k: Key, limit: int, window: int) {
    window > 0 && limit > 0 && forall i | 0 <= i < |ops| :: SettingAt(ops, k, limit, window, i)
  }

  predicate WindowAt(ops: seq<Op>, k: Key, lo: int, hi: int, i: nat) {
    i < |ops| && (HitsKey(ops[i], k) ==> lo <= ops[i].hit.window <= hi)
  }

  // The windows asked for on the key lie between lo and hi.
  ghost predicate Windows(ops: seq<Op>, k: Key, lo: int, hi: int) {
    forall i | 0 <= i < |ops| :: WindowAt(ops, k, lo, hi, i)
  }

  lemma UniformWindows(ops: seq<Op>, k: Key, limit: int, window: int)
    requires Uniform(ops, k, limit, window)
    ensures Windows(ops, k, window, window)
  {
    forall i | 0 <= i < |ops| ensures WindowAt(ops, k, window, window, i) {
      assert SettingAt(ops, k, limit, window, i);
    }
  }

  // The hits of a history, without its purges.
  function HitsOf(ops: seq<Op>): seq<Hit> {
    if ops == [] then []
    else
      var init := HitsOf(ops[..|ops| - 1]);
      match ops[|ops| - 1]
      case HitOp(h) => init + [h]
      case PurgeOp(_) => init
  }

  // The units asked for in one window of a key.
  function UnitsAsked(hits: seq<Hit>, r: RowKey): int {
    if hits == [] then 0
    else
      var h := hits[|hits| - 1];
      UnitsAsked(hits[..|hits| - 1], r) + (if Configured(h) && RowOf(h) == r then h.units else 0)
  }

  // The decision as it would be in a history without purges.
  function Decision(hits: seq<Hit>, h: Hit): Reply {
    if !Configured(h) then BadConfiguration
    else if UnitsAsked(hits, RowOf(h)) + h.units <= h.limit then Admitted
    else RetryAfter(Wait(h))
  }

  // The units admitted by hits before op n whose time lies in [lo, hi).
  ghost function UnitsAdmitted(ts: seq<Table>, ops: seq<Op>, k: Key, lo: real, hi: real, n: nat): int
    requires n <= |ops| < |ts|
  {
    if n == 0 then 0
    else
      UnitsAdmitted(ts, ops, k, lo, hi, n - 1)
      + (if HitsKey(ops[n - 1], k) && lo <= TimeOf(ops[n - 1]) < hi && ReplyTo(ts[n - 1], ops[n - 1].hit) == Admitted
         then ops[n - 1].hit.units else 0)
  }

  // ----- purges are invisible -----

  predicate Expires(table: Table, r: RowKey, lo: int) {
    r in table ==> table[r].expires >= r.start + 2 * lo
  }

  lemma {:induction false} RowExpires(ts: seq<Table>, ops: seq<Op>, r: RowKey, lo: int, hi: int, n: nat)
    requires Run(ts, ops) && Windows(ops, r.key, lo, hi) && n <= |ops|
    ensures Expires(ts[n], r, lo)
  {
    if n > 0 {
      RowExpires(ts, ops, r, lo, hi, n - 1);
      assert StepAt(ts, ops, n - 1) && WindowAt(ops, r.key, lo, hi, n - 1);
    }
  }

  lemma HitsOfNext(ops: seq<Op>, n: nat)
    requires 0 < n <= |ops|
    ensures HitsOf(ops[..n]) == match ops[n - 1]
                                case HitOp(h) => HitsOf(ops[..n - 1]) + [h]
                                case PurgeOp(_) => HitsOf(ops[..n - 1])
  {
    assert ops[..n][..n - 1] == ops[..n - 1];
  }

  lemma UnitsNext(hits: seq<Hit>, h: Hit, r: RowKey)
    ensures UnitsAsked(hits + [h], r) == UnitsAsked(hits, r) + (if Configured(h) && RowOf(h) == r then h.units else 0)
  {
    assert (hits + [h])[..|hits|] == hits;
  }

  // Until the row of a window expires, it counts every unit asked for.
  lemma {:induction false} CountIsUnitsAsked(ts: seq<Table>, ops: seq<Op>, r: RowKey, lo: int, hi: int, n: nat)
    requires Run(ts, ops) && Windows(ops, r.key, lo, hi) && n <= |ops|
    requires n > 0 ==> TimeOf(ops[n - 1]) <= (r.start + 2 * lo) as real
    ensures CountAt(ts[n], r) == UnitsAsked(HitsOf(ops[..n]), r)
  {
    if n > 0 {
      CountIsUnitsAsked(ts, ops, r, lo, hi, n - 1);
      RowExpires(ts, ops, r, lo, hi, n - 1);
      assert StepAt(ts, ops, n - 1);
      HitsOfNext(ops, n);
      if ops[n - 1].HitOp? {
        UnitsNext(HitsOf(ops[..n - 1]), ops[n - 1].hit, r);
      }
    }
  }

  // With windows at most a factor of two apart, a decision depends on the hits
  // alone, wherever purges are interleaved.
  lemma PurgesAreInvisible(ts: seq<Table>, ops: seq<Op>, lo: int, hi: int, n: nat)
    requires Run(ts, ops) && n < |ops| && ops[n].HitOp? && Windows(ops, KeyOf(ops[n].hit), lo, hi) && hi <= 2 * lo
    ensures ReplyTo(ts[n], ops[n].hit) == Decision(HitsOf(ops[..n]), ops[n].hit)
  {
    var h := ops[n].hit;
    if Configured(h) {
      assert StepAt(ts, ops, n) && WindowAt(ops, KeyOf(h), lo, hi, n);
      var _ := StartIs(h.now, h.window);
      assert n > 0 ==> TimeOf(ops[n - 1]) <= TimeOf(ops[n]);
      CountIsUnitsAsked(ts, ops, RowOf(h), lo, hi, n);
    }
  }

  // ----- the limit -----

  lemma AdmittedStep(ts: seq<Table>, ops: seq<Op>, r: RowKey, limit: int, window: int, q: int, n: nat)
    requires Run(ts, ops) && Uniform(ops, r.key, limit, window) && n < |ops| && r.start == Aligned(q, window)
    requires HitsKey(ops[n], r.key) && InWindow(TimeOf(ops[n]), r.start, window)
    ensures RowOf(ops[n].hit) == r
    ensures ReplyTo(ts[n], ops[n].hit) == Admitted ==>
              UnitsAsked(HitsOf(ops[..n]), r) + ops[n].hit.units <= limit
  {
    var h := ops[n].hit;
    assert StepAt(ts, ops, n) && SettingAt(ops, r.key, limit, window, n);
    var p := StartIs(h.now, window);
    OneWindow(h.now, p, q, window);
    UniformWindows(ops, r.key, limit, window);
    PurgesAreInvisible(ts, ops, window, window, n);
  }

  lemma {:induction false} AdmittedWereAsked(ts: seq<Table>, ops: seq<Op>, r: RowKey, limit: int, window: int,
                                             q: int, n: nat)
    requires Run(ts, ops) && Uniform(ops, r.key, limit, window) && n <= |ops| && r.start == Aligned(q, window)
    ensures var admitted := UnitsAdmitted(ts, ops, r.key, r.start as real, (r.start + window) as real, n);
      0 <= admitted <= UnitsAsked(HitsOf(ops[..n]), r) && admitted <= limit
  {
    if n > 0 {
      AdmittedWereAsked(ts, ops, r, limit, window, q, n - 1);
      HitsOfNext(ops, n);
      if ops[n - 1].HitOp? {
        UnitsNext(HitsOf(ops[..n - 1]), ops[n - 1].hit, r);
      }
      if HitsKey(ops[n - 1], r.key) && InWindow(TimeOf(ops[n - 1]), r.start, window) {
        AdmittedStep(ts, ops, r, limit, window, q, n - 1);
      }
    }
  }

  // An aligned window admits at most `limit` units of a key.
  lemma WindowHoldsLimit(ts: seq<Table>, ops: seq<Op>, k: Key, limit: int, window: int, q: int, n: nat)
    requires Run(ts, ops) && Uniform(ops, k, limit, window) && n <= |ops|
    ensures var start := Aligned(q, window);
      UnitsAdmitted(ts, ops, k, start as real, (start + window) as real, n) <= limit
  {
    AdmittedWereAsked(ts, ops, RowKey(k, Aligned(q, window)), limit, window, q, n);
  }

  lemma {:induction false} AdmittedSplit(ts: seq<Table>, ops: seq<Op>, k: Key, lo: real, hi: real,
                                         a: real, b: real, c: real, n: nat)
    requires n <= |ops| < |ts| && a <= lo <= hi <= c && a <= b <= c
    ensures UnitsAdmitted(ts, ops, k, lo, hi, n)
         <= UnitsAdmitted(ts, ops, k, a, b, n) + UnitsAdmitted(ts, ops, k, b, c, n)
  {
    if n > 0 {
      AdmittedSplit(ts, ops, k, lo, hi, a, b, c, n - 1);
    }
  }

  // Any interval of a window's length admits at most twice the limit.
  lemma IntervalHoldsTwice(ts: seq<Table>, ops: seq<Op>, k: Key, limit: int, window: int, lo: real, hi: real, n: nat)
    requires Run(ts, ops) && Uniform(ops, k, limit, window) && n <= |ops| && lo >= 0.0 && hi == lo + window as real
    ensures UnitsAdmitted(ts, ops, k, lo, hi, n) <= 2 * limit
  {
    var start := StartOf(lo, window);
    var q := StartIs(lo, window);
    NextAligned(q, window);
    WindowHoldsLimit(ts, ops, k, limit, window, q, n);
    WindowHoldsLimit(ts, ops, k, limit, window, q + 1, n);
    AdmittedSplit(ts, ops, k, lo, hi, start as real, (start + window) as real, (start + window + window) as real, n);
  }

  // ----- Retry-After -----

  lemma {:induction false} NoneAsked(hits: seq<Hit>, r: RowKey)
    requires forall i | 0 <= i < |hits| :: Configured(hits[i]) ==> RowOf(hits[i]) != r
    ensures UnitsAsked(hits, r) == 0
  {
    if hits != [] {
      NoneAsked(hits[..|hits| - 1], r);
    }
  }

  // A hit that waits the given time lands past the window it was refused in,
  // and is admitted when nobody asks in its new window before it.
  lemma RetryAfterIsEnough(ts: seq<Table>, ops: seq<Op>, limit: int, window: int, i: nat, j: nat, seconds: int)
    requires Run(ts, ops) && i < j < |ops| && ops[i].HitOp? && ops[j].HitOp? && Configured(ops[j].hit)
    requires KeyOf(ops[i].hit) == KeyOf(ops[j].hit) && Uniform(ops, KeyOf(ops[i].hit), limit, window)
    requires ReplyTo(ts[i], ops[i].hit) == RetryAfter(seconds)
    requires TimeOf(ops[j]) >= TimeOf(ops[i]) + seconds as real
    ensures StartOf(TimeOf(ops[j]), window) >= StartOf(TimeOf(ops[i]), window) + window
    ensures UnitsAsked(HitsOf(ops[..j]), RowOf(ops[j].hit)) == 0 && ops[j].hit.units <= limit ==>
              ReplyTo(ts[j], ops[j].hit) == Admitted
  {
    var h, k := ops[i].hit, KeyOf(ops[i].hit);
    assert StepAt(ts, ops, i) && SettingAt(ops, k, limit, window, i) && SettingAt(ops, k, limit, window, j);
    WaitPassesWindow(h, TimeOf(ops[j]));
    UniformWindows(ops, k, limit, window);
    PurgesAreInvisible(ts, ops, window, window, j);
  }

  // ----- exactly when purges are invisible -----

  // With windows further apart a purge can change a decision: a short window
  // that starts with a long one makes the row they share expire early.
  lemma PurgeLosesCount(lo: int, hi: int) returns (ts: seq<Table>, ops: seq<Op>)
    requires 0 < lo && 2 * lo < hi
    ensures Run(ts, ops) && |ops| == 4 && ops[3].HitOp? && HasWindows(ops, lo, hi)
    ensures ReplyTo(ts[3], ops[3].hit) != Decision(HitsOf(ops[..3]), ops[3].hit)
  {
    var now := 2.0 * lo as real + 0.5;
    var first, again := Hit("b", "k", 1, hi, 1, 0.0), Hit("b", "k", 1, hi, 1, now);
    var other := Hit("b", "k", 5, lo, 1, 0.0);
    ops := [HitOp(first), HitOp(other), PurgeOp(now), HitOp(again)];
    SharedRow(first, other, again, lo, hi);
    var t1 := Counted(map[], first);
    var t2 := Counted(t1, other);
    var t3 := Purged(t2, now);
    ts := [map[], t1, t2, t3, Counted(t3, again)];
    SharedRowIsPurged(first, other, now);
    AskedInMix(ops, first, other, again, now);
    assert forall k: Key, i | 0 <= i < |ops| :: WindowAt(ops, k, lo, hi, i);
  }

  lemma SharedRow(first: Hit, other: Hit, again: Hit, lo: int, hi: int)
    requires 0 < lo && 2 * lo < hi && Configured(first) && Configured(other) && Configured(again)
    requires first.now == other.now == 0.0 && again.now == 2.0 * lo as real + 0.5
    requires first.window == again.window == hi && other.window == lo
    ensures StartOf(first.now, hi) == 0 && StartOf(other.now, lo) == 0 && StartOf(again.now, hi) == 0
  {
    assert again.now.Floor == 2 * lo;
    SmallRemainder(2 * lo, hi);
    SmallRemainder(0, hi);
    SmallRemainder(0, lo);
  }

  lemma SharedRowIsPurged(first: Hit, other: Hit, now: real)
    requires Configured(first) && Configured(other) && RowOf(first) == RowOf(other)
    requires (RowOf(other).start + 2 * other.window) as real < now
    ensures Purged(Counted(Counted(map[], first), other), now) == map[]
  {
    assert Counted(Counted(map[], first), other).Keys == {RowOf(other)};
  }

  lemma SmallRemainder(x: int, n: int)
    requires 0 <= x < n
    ensures x % n == x
  {
  }

  lemma AskedInMix(ops: seq<Op>, first: Hit, other: Hit, again: Hit, now: real)
    requires ops == [HitOp(first), HitOp(other), PurgeOp(now), HitOp(again)]
    requires Configured(first) && Configured(other) && Configured(again)
    requires RowOf(first) == RowOf(again)
    ensures UnitsAsked(HitsOf(ops[..3]), RowOf(again)) >= first.units
  {
    HitsOfNext(ops, 1);
    HitsOfNext(ops, 2);
    HitsOfNext(ops, 3);
    assert ops[..0] == [];
    UnitsNext([], first, RowOf(again));
    UnitsNext([first], other, RowOf(again));
    assert [] + [first] == [first] && HitsOf(ops[..3]) == [first] + [other];
  }

  ghost predicate Unseen(ts: seq<Table>, ops: seq<Op>, n: nat) {
    n < |ops| < |ts| && ops[n].HitOp? ==> ReplyTo(ts[n], ops[n].hit) == Decision(HitsOf(ops[..n]), ops[n].hit)
  }

  ghost predicate HasWindows(ops: seq<Op>, lo: int, hi: int) {
    forall k: Key :: Windows(ops, k, lo, hi)
  }

  // Purges never change a decision, in any history with windows between lo and
  // hi, if and only if hi is at most twice lo.
  lemma PurgesAreInvisibleExactly(lo: int, hi: int)
    requires 0 < lo <= hi
    ensures hi <= 2 * lo <==>
              forall ts: seq<Table>, ops: seq<Op>, n: nat ::
                Run(ts, ops) && HasWindows(ops, lo, hi) ==> Unseen(ts, ops, n)
  {
    if hi <= 2 * lo {
      forall ts: seq<Table>, ops: seq<Op>, n: nat | Run(ts, ops) && HasWindows(ops, lo, hi)
        ensures Unseen(ts, ops, n)
      {
        if n < |ops| && ops[n].HitOp? {
          assert Windows(ops, KeyOf(ops[n].hit), lo, hi);
          PurgesAreInvisible(ts, ops, lo, hi, n);
        }
      }
    } else {
      var ts, ops := PurgeLosesCount(lo, hi);
      assert !Unseen(ts, ops, 3);
      assert Run(ts, ops) && HasWindows(ops, lo, hi);
    }
  }
}
