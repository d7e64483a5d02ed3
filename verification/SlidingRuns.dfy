// Theorems about every history of hits on the sliding-window limiter.
// Assumed: the monotonic clock does not go back.
module SlidingRuns {
  import opened Common
  import opened SlidingWindow

  predicate StepAt(maxKeys: int, ts: seq<Table>, hits: seq<Hit>, i: nat) {
    i < |hits| && |ts| == |hits| + 1 && ts[i + 1] == After(maxKeys, ts[i], hits[i])
  }

  ghost predicate Run(maxKeys: int, ts: seq<Table>, hits: seq<Hit>) {
    && |ts| == |hits| + 1 && ts[0] == Table([], map[])
    && (forall i | 0 <= i < |hits| :: StepAt(maxKeys, ts, hits, i))
    && (forall i, j | 0 <= i < j < |hits| :: hits[i].now <= hits[j].now)
  }

  predicate SettingAt(hits: seq<Hit>, k: Key, limit: int, window: int, i: nat) {
    i < |hits| && (hits[i].key == k ==> hits[i].limit == limit && hits[i].window == window)
  }

  // Every hit on the key asks for the same limit and window.
  ghost predicate Uniform(hits: seq<Hit>, k: Key, limit: int, window: int) {
    forall i | 0 <= i < |hits| :: SettingAt(hits, k, limit, window, i)
  }

  predicate AcceptedOn(maxKeys: int, t: Table, h: Hit, k: Key) {
    h.key == k && ReplyTo(maxKeys, t, h) == Accepted
  }

  // The times of the accepted hits on a key, from hit a to before hit b.
  ghost function Times(maxKeys: int, ts: seq<Table>, hits: seq<Hit>, k: Key, a: nat, b: nat): seq<real>
    requires a <= b <= |hits| < |ts|
  {
    if b == a then []
    else
      Times(maxKeys, ts, hits, k, a, b - 1)
      + TimeOf(maxKeys, ts[b - 1], hits[b - 1], k)
  }

  // How many times are later than lo, and at most hi.
  function Within(times: seq<real>, lo: real, hi: real): nat {
    if times == [] then 0
    else (if lo < times[0] <= hi then 1 else 0) + Within(times[1..], lo, hi)
  }

  function Later(times: seq<real>, lo: real): nat {
    if times == [] then 0 else (if lo < times[0] then 1 else 0) + Later(times[1..], lo)
  }

  predicate KeptBy(before: Table, h: Hit, after: Table, k: Key) {
    k in before.stamps || h.key == k ==> k in after.stamps
  }

  predicate KeptAt(ts: seq<Table>, hits: seq<Hit>, k: Key, m: nat) {
    m < |hits| < |ts| && KeptBy(ts[m], hits[m], ts[m + 1], k)
  }

  // From hit a to hit b the key is never evicted, not even as it is hit.
  ghost predicate Kept(ts: seq<Table>, hits: seq<Hit>, k: Key, a: nat, b: nat)
    requires b <= |hits| < |ts|
  {
    forall m | a <= m < b :: KeptAt(ts, hits, k, m)
  }

  // ----- counting -----

  lemma {:induction false} WithinAppend(times: seq<real>, x: real, lo: real, hi: real)
    ensures Within(times + [x], lo, hi) == Within(times, lo, hi) + (if lo < x <= hi then 1 else 0)
    ensures Later(times + [x], lo) == Later(times, lo) + (if lo < x then 1 else 0)
  {
    if times != [] {
      assert (times + [x])[1..] == times[1..] + [x];
      WithinAppend(times[1..], x, lo, hi);
    }
  }

  lemma {:induction false} WithinIsLater(times: seq<real>, lo: real, hi: real)
    ensures Within(times, lo, hi) <= Later(times, lo) <= |times|
  {
    if times != [] {
      WithinIsLater(times[1..], lo, hi);
    }
  }

  lemma {:induction false} ExpireKeepsLater(stamps: seq<real>, cutoff: real, lo: real)
    requires cutoff <= lo
    ensures Later(Expire(stamps, cutoff), lo) == Later(stamps, lo)
  {
    if stamps != [] && stamps[0] <= cutoff {
      ExpireKeepsLater(stamps[1..], cutoff, lo);
    }
  }

  // ----- one hit seen from one key -----

  lemma {:induction false} EvictOnlyDrops(t: Table, size: nat, k: Key)
    ensures k in Evict(t, size).stamps ==> k in t.stamps && Evict(t, size).stamps[k] == t.stamps[k]
    decreases |t.order|
  {
    if |t.order| > size {
      EvictOnlyDrops(Table(t.order[1..], t.stamps - {t.order[0]}), size, k);
    }
  }

  lemma HitOnKey(maxKeys: int, t: Table, h: Hit)
    requires h.key in After(maxKeys, t, h).stamps
    ensures StampsOf(After(maxKeys, t, h), h.key)
         == if ReplyTo(maxKeys, t, h) == Accepted then Live(t, h) + [h.now] else Live(t, h)
  {
    if ReplyTo(maxKeys, t, h) == Accepted {
      var touched := Touched(t, h);
      EvictOnlyDrops(touched.(stamps := touched.stamps[h.key := Live(t, h) + [h.now]]), maxKeys, h.key);
    }
  }

  lemma HitElsewhere(maxKeys: int, t: Table, h: Hit, k: Key)
    requires h.key != k
    ensures k in After(maxKeys, t, h).stamps ==>
              k in t.stamps && StampsOf(After(maxKeys, t, h), k) == StampsOf(t, k)
  {
    if ReplyTo(maxKeys, t, h) == Accepted {
      var touched := Touched(t, h);
      EvictOnlyDrops(touched.(stamps := touched.stamps[h.key := Live(t, h) + [h.now]]), maxKeys, k);
    }
  }

  // ----- at most `limit` hits in a window -----

  function TimeOf(maxKeys: int, t: Table, h: Hit, k: Key): seq<real> {
    if AcceptedOn(maxKeys, t, h, k) then [h.now] else []
  }

  lemma CoversOnKey(maxKeys: int, t: Table, h: Hit, after: Table, times: seq<real>, lo: real)
    requires after == After(maxKeys, t, h) && h.key in after.stamps && h.now - h.window as real <= lo
    requires Later(times, lo) <= Later(StampsOf(t, h.key), lo)
    ensures Later(times + TimeOf(maxKeys, t, h, h.key), lo) <= Later(StampsOf(after, h.key), lo)
  {
    HitOnKey(maxKeys, t, h);
    ExpireKeepsLater(StampsOf(t, h.key), h.now - h.window as real, lo);
    if ReplyTo(maxKeys, t, h) == Accepted {
      WithinAppend(times, h.now, lo, lo);
      WithinAppend(Live(t, h), h.now, lo, lo);
    } else {
      assert times + [] == times;
    }
  }

  lemma CoversElsewhere(maxKeys: int, t: Table, h: Hit, after: Table, k: Key, times: seq<real>, lo: real)
    requires after == After(maxKeys, t, h) && h.key != k && KeptBy(t, h, after, k)
    requires Later(times, lo) <= Later(StampsOf(t, k), lo)
    ensures Later(times + TimeOf(maxKeys, t, h, k), lo) <= Later(StampsOf(after, k), lo)
  {
    HitElsewhere(maxKeys, t, h, k);
    assert times + [] == times;
  }

  lemma CoversAt(maxKeys: int, t: Table, h: Hit, after: Table, k: Key, window: int, times: seq<real>, lo: real)
    requires after == After(maxKeys, t, h) && KeptBy(t, h, after, k)
    requires h.key == k ==> h.window == window && h.now - window as real <= lo
    requires Later(times, lo) <= Later(StampsOf(t, k), lo)
    ensures Later(times + TimeOf(maxKeys, t, h, k), lo) <= Later(StampsOf(after, k), lo)
  {
    if h.key == k {
      CoversOnKey(maxKeys, t, h, after, times, lo);
    } else {
      CoversElsewhere(maxKeys, t, h, after, k, times, lo);
    }
  }

  ghost predicate Covers(maxKeys: int, ts: seq<Table>, hits: seq<Hit>, k: Key, a: nat, b: nat, lo: real)
    requires a <= b <= |hits| < |ts|
  {
    Later(Times(maxKeys, ts, hits, k, a, b), lo) <= Later(StampsOf(ts[b], k), lo)
  }

  lemma CoversNext(maxKeys: int, ts: seq<Table>, hits: seq<Hit>, k: Key, limit: int, window: int, a: nat, b: nat,
                   lo: real)
    requires a <= b < |hits| && StepAt(maxKeys, ts, hits, b) && SettingAt(hits, k, limit, window, b)
    requires KeptAt(ts, hits, k, b) && hits[b].now - window as real <= lo
    requires Covers(maxKeys, ts, hits, k, a, b, lo)
    ensures Covers(maxKeys, ts, hits, k, a, b + 1, lo)
  {
    CoversAt(maxKeys, ts[b], hits[b], ts[b + 1], k, window, Times(maxKeys, ts, hits, k, a, b), lo);
  }

  // The stamps of a kept key account for every accepted hit still in the window.
  lemma {:induction false} StampsCover(maxKeys: int, ts: seq<Table>, hits: seq<Hit>, k: Key, limit: int, window: int,
                                       a: nat, b: nat, lo: real)
    requires Run(maxKeys, ts, hits) && Uniform(hits, k, limit, window) && a <= b <= |hits|
    requires Kept(ts, hits, k, a, b) && (b > a ==> hits[b - 1].now - window as real <= lo)
    ensures Covers(maxKeys, ts, hits, k, a, b, lo)
    decreases b
  {
    if b > a {
      StampsCover(maxKeys, ts, hits, k, limit, window, a, b - 1, lo);
      CoversNext(maxKeys, ts, hits, k, limit, window, a, b - 1, lo);
    }
  }

  lemma AcceptedHasRoom(maxKeys: int, t: Table, h: Hit, lo: real)
    requires ReplyTo(maxKeys, t, h) == Accepted && h.now - h.window as real <= lo
    ensures Later(StampsOf(t, h.key), lo) < h.limit
  {
    ExpireKeepsLater(StampsOf(t, h.key), h.now - h.window as real, lo);
    WithinIsLater(Live(t, h), lo, lo);
  }

  lemma RoomStep(maxKeys: int, t: Table, h: Hit, times: seq<real>, start: real, end: real)
    requires end == start + h.window as real && ReplyTo(maxKeys, t, h) == Accepted
    requires start < h.now <= end ==> Later(times, start) <= Later(StampsOf(t, h.key), start)
    requires Within(times, start, end) <= Max(h.limit, 0)
    ensures Within(times + [h.now], start, end) <= Max(h.limit, 0)
  {
    WithinAppend(times, h.now, start, end);
    if start < h.now <= end {
      WithinIsLater(times, start, end);
      AcceptedHasRoom(maxKeys, t, h, start);
    }
  }

  lemma RoomOrNot(maxKeys: int, t: Table, h: Hit, k: Key, times: seq<real>, limit: int, start: real, end: real)
    requires h.key == k ==> h.limit == limit && end == start + h.window as real
    requires AcceptedOn(maxKeys, t, h, k) && start < h.now <= end ==>
               Later(times, start) <= Later(StampsOf(t, k), start)
    requires Within(times, start, end) <= Max(limit, 0)
    ensures Within(times + TimeOf(maxKeys, t, h, k), start, end) <= Max(limit, 0)
  {
    if AcceptedOn(maxKeys, t, h, k) {
      RoomStep(maxKeys, t, h, times, start, end);
    } else {
      assert times + [] == times;
    }
  }

  ghost predicate WithinLimit(maxKeys: int, ts: seq<Table>, hits: seq<Hit>, k: Key, limit: int, a: nat, b: nat,
                              start: real, end: real)
    requires a <= b <= |hits| < |ts|
  {
    Within(Times(maxKeys, ts, hits, k, a, b), start, end) <= Max(limit, 0)
  }

  lemma WindowNext(maxKeys: int, ts: seq<Table>, hits: seq<Hit>, k: Key, limit: int, a: nat, b: nat,
                   start: real, end: real)
    requires a <= b < |hits| < |ts|
    requires hits[b].key == k ==> hits[b].limit == limit && end == start + hits[b].window as real
    requires hits[b].now <= end ==> Covers(maxKeys, ts, hits, k, a, b, start)
    requires WithinLimit(maxKeys, ts, hits, k, limit, a, b, start, end)
    ensures WithinLimit(maxKeys, ts, hits, k, limit, a, b + 1, start, end)
  {
    RoomOrNot(maxKeys, ts[b], hits[b], k, Times(maxKeys, ts, hits, k, a, b), limit, start, end);
  }

  lemma KeptShorter(ts: seq<Table>, hits: seq<Hit>, k: Key, a: nat, b: nat)
    requires b < |hits| < |ts| && Kept(ts, hits, k, a, b + 1)
    ensures Kept(ts, hits, k, a, b)
  {
  }

  // What the step at hit b needs from the hits before it.
  lemma WindowNeeds(maxKeys: int, ts: seq<Table>, hits: seq<Hit>, k: Key, limit: int, window: int, a: nat, b: nat,
                    start: real, end: real)
    requires Run(maxKeys, ts, hits) && Uniform(hits, k, limit, window) && a <= b < |hits|
    requires Kept(ts, hits, k, a, b) && end == start + window as real
    ensures hits[b].key == k ==> hits[b].limit == limit && hits[b].window == window
    ensures hits[b].now <= end ==> Covers(maxKeys, ts, hits, k, a, b, start)
  {
    assert SettingAt(hits, k, limit, window, b);
    if hits[b].now <= end {
      StampsCover(maxKeys, ts, hits, k, limit, window, a, b, start);
    }
  }

  lemma {:induction false} WindowsStayWithin(maxKeys: int, ts: seq<Table>, hits: seq<Hit>, k: Key, limit: int,
                                             window: int, a: nat, b: nat, start: real, end: real)
    requires Run(maxKeys, ts, hits) && Uniform(hits, k, limit, window) && a <= b <= |hits|
    requires Kept(ts, hits, k, a, b) && end == start + window as real
    ensures WithinLimit(maxKeys, ts, hits, k, limit, a, b, start, end)
    decreases b
  {
    if b > a {
      KeptShorter(ts, hits, k, a, b - 1);
      WindowsStayWithin(maxKeys, ts, hits, k, limit, window, a, b - 1, start, end);
      WindowNeeds(maxKeys, ts, hits, k, limit, window, a, b - 1, start, end);
      WindowNext(maxKeys, ts, hits, k, limit, a, b - 1, start, end);
    }
  }

  // While a key is not evicted, every half-open interval of the window's
  // length holds at most `limit` accepted hits on it.
  lemma WindowHoldsLimit(maxKeys: int, ts: seq<Table>, hits: seq<Hit>, k: Key, limit: int, window: int, a: nat, b: nat,
                         start: real)
    requires Run(maxKeys, ts, hits) && Uniform(hits, k, limit, window) && a <= b <= |hits|
    requires Kept(ts, hits, k, a, b)
    ensures Within(Times(maxKeys, ts, hits, k, a, b), start, start + window as real) <= Max(limit, 0)
  {
    WindowsStayWithin(maxKeys, ts, hits, k, limit, window, a, b, start, start + window as real);
  }

  // With room for at least one key, only other keys' hits can evict a key.
  lemma HitKeyIsKept(maxKeys: int, ts: seq<Table>, hits: seq<Hit>, m: nat)
    requires Run(maxKeys, ts, hits) && m < |hits| && maxKeys >= 1
    ensures hits[m].key in ts[m + 1].stamps
  {
    WellFormedRun(maxKeys, ts, hits, m);
    assert StepAt(maxKeys, ts, hits, m);
    var t, h := ts[m], hits[m];
    TouchedIsWellFormed(t, h);
    if ReplyTo(maxKeys, t, h) == Accepted {
      var touched := Touched(t, h);
      AcceptedKeepsSize(maxKeys, touched.(stamps := touched.stamps[h.key := Live(t, h) + [h.now]]), h.key);
    }
  }

  lemma {:induction false} WellFormedRun(maxKeys: int, ts: seq<Table>, hits: seq<Hit>, m: nat)
    requires Run(maxKeys, ts, hits) && m <= |hits|
    ensures WellFormed(ts[m])
  {
    if m > 0 {
      WellFormedRun(maxKeys, ts, hits, m - 1);
      assert StepAt(maxKeys, ts, hits, m - 1);
      var t, h := ts[m - 1], hits[m - 1];
      TouchedIsWellFormed(t, h);
      if ReplyTo(maxKeys, t, h) == Accepted {
        var touched := Touched(t, h);
        AcceptedKeepsSize(maxKeys, touched.(stamps := touched.stamps[h.key := Live(t, h) + [h.now]]), h.key);
      }
    }
  }

  // With positive limits the table never grows past its size.
  lemma {:induction false} TableIsBounded(maxKeys: nat, ts: seq<Table>, hits: seq<Hit>, m: nat)
    requires Run(maxKeys, ts, hits) && m <= |hits|
    requires forall i | 0 <= i < |hits| :: hits[i].limit >= 1
    ensures |ts[m].order| <= maxKeys && |ts[m].stamps| <= maxKeys
  {
    WellFormedRun(maxKeys, ts, hits, m);
    OrderIsCount(ts[m]);
    if m > 0 {
      TableIsBounded(maxKeys, ts, hits, m - 1);
      assert StepAt(maxKeys, ts, hits, m - 1);
      WellFormedRun(maxKeys, ts, hits, m - 1);
      HitKeepsSize(maxKeys, ts[m - 1], hits[m - 1]);
    }
  }

  // ----- Retry-After -----

  lemma {:induction false} StampsAreFew(maxKeys: int, ts: seq<Table>, hits: seq<Hit>, k: Key, limit: int, window: int,
                                        m: nat)
    requires Run(maxKeys, ts, hits) && Uniform(hits, k, limit, window) && m <= |hits|
    ensures |StampsOf(ts[m], k)| <= Max(limit, 0)
  {
    if m > 0 {
      StampsAreFew(maxKeys, ts, hits, k, limit, window, m - 1);
      assert StepAt(maxKeys, ts, hits, m - 1) && SettingAt(hits, k, limit, window, m - 1);
      var t, h := ts[m - 1], hits[m - 1];
      if k in ts[m].stamps {
        if h.key == k {
          HitOnKey(maxKeys, t, h);
          ExpireIsSuffix(StampsOf(t, k), h.now - window as real);
        } else {
          HitElsewhere(maxKeys, t, h, k);
        }
      }
    }
  }

  // While only other keys are hit, the stamps of a key stay or are evicted.
  lemma {:induction false} StampsStay(maxKeys: int, ts: seq<Table>, hits: seq<Hit>, k: Key, i: nat, j: nat)
    requires Run(maxKeys, ts, hits) && i <= j <= |hits|
    requires forall m | i <= m < j :: hits[m].key != k
    ensures k in ts[j].stamps ==> k in ts[i].stamps && ts[j].stamps[k] == ts[i].stamps[k]
    decreases j
  {
    if j > i {
      StampsStay(maxKeys, ts, hits, k, i, j - 1);
      assert StepAt(maxKeys, ts, hits, j - 1);
      HitElsewhere(maxKeys, ts[j - 1], hits[j - 1], k);
    }
  }

  lemma WaitIs(h: Hit, first: real)
    requires first > h.now - h.window as real
    ensures var x := h.window as real - (h.now - first);
      x < Wait(h, first) as real <= x + 1.0
  {
  }

  lemma RefusedIs(maxKeys: int, t: Table, h: Hit, seconds: int)
    requires ReplyTo(maxKeys, t, h) == RetryAfter(seconds)
    ensures var live := Live(t, h);
      && live != [] && |live| >= h.limit && live[0] > h.now - h.window as real
      && seconds == Wait(h, live[0]) && StampsOf(After(maxKeys, t, h), h.key) == live
  {
    ExpireIsSuffix(StampsOf(t, h.key), h.now - h.window as real);
  }

  // After a refusal, a next hit on the key that has waited the given seconds is accepted.
  lemma RetryAfterIsEnough(maxKeys: nat, ts: seq<Table>, hits: seq<Hit>, k: Key, limit: int, window: int,
                           i: nat, j: nat, seconds: int)
    requires Run(maxKeys, ts, hits) && Uniform(hits, k, limit, window) && limit >= 1
    requires i < j < |hits| && hits[i].key == k == hits[j].key && forall m | i < m < j :: hits[m].key != k
    requires ReplyTo(maxKeys, ts[i], hits[i]) == RetryAfter(seconds)
    requires hits[j].now >= hits[i].now + seconds as real
    ensures ReplyTo(maxKeys, ts[j], hits[j]) == Accepted
  {
    assert StepAt(maxKeys, ts, hits, i);
    assert SettingAt(hits, k, limit, window, i) && SettingAt(hits, k, limit, window, j);
    RefusedIs(maxKeys, ts[i], hits[i], seconds);
    var first := Live(ts[i], hits[i])[0];
    WaitIs(hits[i], first);
    StampsStay(maxKeys, ts, hits, k, i + 1, j);
    StampsAreFew(maxKeys, ts, hits, k, limit, window, j);
    ExpireIsSuffix(StampsOf(ts[j], k), hits[j].now - window as real);
    assert first <= hits[j].now - window as real;
  }

  // The wait is right to within one second: a hit more than a second early is
  // refused again, unless the key was evicted.
  lemma RetryAfterIsTight(maxKeys: nat, ts: seq<Table>, hits: seq<Hit>, k: Key, limit: int, window: int,
                          i: nat, j: nat, seconds: int)
    requires Run(maxKeys, ts, hits) && Uniform(hits, k, limit, window) && limit >= 1
    requires i < j < |hits| && hits[i].key == k == hits[j].key && forall m | i < m < j :: hits[m].key != k
    requires ReplyTo(maxKeys, ts[i], hits[i]) == RetryAfter(seconds)
    requires hits[j].now < hits[i].now + (seconds - 1) as real && k in ts[j].stamps
    ensures ReplyTo(maxKeys, ts[j], hits[j]).RetryAfter?
  {
    assert StepAt(maxKeys, ts, hits, i);
    assert SettingAt(hits, k, limit, window, i) && SettingAt(hits, k, limit, window, j);
    RefusedIs(maxKeys, ts[i], hits[i], seconds);
    WaitIs(hits[i], Live(ts[i], hits[i])[0]);
    StampsStay(maxKeys, ts, hits, k, i + 1, j);
    ExpireIsSuffix(StampsOf(ts[j], k), hits[j].now - window as real);
  }
}
