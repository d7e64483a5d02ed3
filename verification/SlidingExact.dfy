// Exactly which hits the sliding-window limiter accepts, and which keys it
// keeps (backend/app/web_security.py).
module SlidingExact {
  import opened SlidingWindow
  import opened SlidingRuns

  // ----- admission -----

  ghost predicate Ascends(s: seq<real>) {
    forall i, j | 0 <= i < j < |s| :: s[i] <= s[j]
  }

  lemma {:induction false} AllLater(s: seq<real>, lo: real)
    requires forall i | 0 <= i < |s| :: lo < s[i]
    ensures Later(s, lo) == |s|
  {
    if s != [] {
      AllLater(s[1..], lo);
    }
  }

  // Of ascending stamps, those that stay are the ones after the cutoff.
  lemma {:induction false} ExpireCounts(s: seq<real>, cutoff: real)
    requires Ascends(s)
    ensures |Expire(s, cutoff)| == Later(s, cutoff) && Ascends(Expire(s, cutoff))
    ensures forall x | x in Expire(s, cutoff) :: x in s
  {
    if s != [] && s[0] <= cutoff {
      ExpireCounts(s[1..], cutoff);
    } else {
      AllLater(s, cutoff);
    }
  }

  // The stamps ascend, and none is after `now`.
  ghost predicate Ordered(stamps: seq<real>, now: real) {
    Ascends(stamps) && forall i | 0 <= i < |stamps| :: stamps[i] <= now
  }

  lemma LiveIsOrdered(t: Table, h: Hit, before: real)
    requires Ordered(StampsOf(t, h.key), before) && before <= h.now
    ensures Ordered(Live(t, h), before) && Ordered(Live(t, h) + [h.now], h.now)
    ensures |Live(t, h)| == Later(StampsOf(t, h.key), h.now - h.window as real)
  {
    ExpireCounts(StampsOf(t, h.key), h.now - h.window as real);
    var live := Live(t, h);
    forall i | 0 <= i < |live| ensures live[i] <= before {
      assert live[i] in live;
    }
  }

  lemma StepIsOrdered(maxKeys: int, t: Table, h: Hit, k: Key, before: real)
    requires Ordered(StampsOf(t, k), before) && before <= h.now
    ensures Ordered(StampsOf(After(maxKeys, t, h), k), h.now)
  {
    if k in After(maxKeys, t, h).stamps {
      if h.key == k {
        HitOnKey(maxKeys, t, h);
        LiveIsOrdered(t, h, before);
      } else {
        HitElsewhere(maxKeys, t, h, k);
      }
    }
  }

  lemma {:induction false} StampsAreOrdered(maxKeys: int, ts: seq<Table>, hits: seq<Hit>, k: Key, m: nat, now: real)
    requires Run(maxKeys, ts, hits) && m <= |hits| && (m > 0 ==> hits[m - 1].now <= now)
    ensures Ordered(StampsOf(ts[m], k), now)
  {
    if m > 0 {
      assert StepAt(maxKeys, ts, hits, m - 1);
      var before := if m > 1 then hits[m - 2].now else hits[m - 1].now;
      StampsAreOrdered(maxKeys, ts, hits, k, m - 1, before);
      StepIsOrdered(maxKeys, ts[m - 1], hits[m - 1], k, before);
    }
  }

  lemma CountsAt(maxKeys: int, t: Table, h: Hit, after: Table, k: Key, times: seq<real>, lo: real)
    requires after == After(maxKeys, t, h) && KeptBy(t, h, after, k)
    requires h.key == k ==> h.now - h.window as real <= lo
    requires Later(times, lo) == Later(StampsOf(t, k), lo)
    ensures Later(times + TimeOf(maxKeys, t, h, k), lo) == Later(StampsOf(after, k), lo)
  {
    if h.key == k {
      HitOnKey(maxKeys, t, h);
      ExpireKeepsLater(StampsOf(t, k), h.now - h.window as real, lo);
      WithinAppend(times, h.now, lo, lo);
      WithinAppend(Live(t, h), h.now, lo, lo);
      assert times + [] == times;
    } else {
      HitElsewhere(maxKeys, t, h, k);
      assert times + [] == times;
    }
  }

  ghost predicate Counts(maxKeys: int, ts: seq<Table>, hits: seq<Hit>, k: Key, a: nat, b: nat, lo: real)
    requires a <= b <= |hits| < |ts|
  {
    Later(Times(maxKeys, ts, hits, k, a, b), lo) == Later(StampsOf(ts[b], k), lo)
  }

  lemma CountsNext(maxKeys: int, ts: seq<Table>, hits: seq<Hit>, k: Key, limit: int, window: int, a: nat, b: nat,
                   lo: real)
    requires a <= b < |hits| && StepAt(maxKeys, ts, hits, b) && SettingAt(hits, k, limit, window, b)
    requires KeptAt(ts, hits, k, b) && hits[b].now - window as real <= lo
    requires Counts(maxKeys, ts, hits, k, a, b, lo)
    ensures Counts(maxKeys, ts, hits, k, a, b + 1, lo)
  {
    CountsAt(maxKeys, ts[b], hits[b], ts[b + 1], k, Times(maxKeys, ts, hits, k, a, b), lo);
  }

  // From a table without the key, its stamps count its accepted hits exactly.
  lemma {:induction false} StampsCount(maxKeys: int, ts: seq<Table>, hits: seq<Hit>, k: Key, limit: int, window: int,
                                       a: nat, b: nat, lo: real)
    requires Run(maxKeys, ts, hits) && Uniform(hits, k, limit, window) && a <= b <= |hits|
    requires k !in ts[a].stamps && Kept(ts, hits, k, a, b) && (b > a ==> hits[b - 1].now - window as real <= lo)
    ensures Counts(maxKeys, ts, hits, k, a, b, lo)
    decreases b
  {
    if b > a {
      StampsCount(maxKeys, ts, hits, k, limit, window, a, b - 1, lo);
      CountsNext(maxKeys, ts, hits, k, limit, window, a, b - 1, lo);
    }
  }

  lemma AcceptedByCount(maxKeys: nat, t: Table, h: Hit, times: seq<real>, limit: int, lo: real)
    requires Ordered(StampsOf(t, h.key), h.now) && h.limit == limit && lo == h.now - h.window as real
    requires Later(times, lo) == Later(StampsOf(t, h.key), lo)
    ensures ReplyTo(maxKeys, t, h) == Accepted <==> Later(times, lo) < limit
  {
    LiveIsOrdered(t, h, h.now);
  }

  lemma CountIsThere(maxKeys: nat, ts: seq<Table>, hits: seq<Hit>, k: Key, limit: int, window: int, a: nat, b: nat,
                     lo: real)
    requires Run(maxKeys, ts, hits) && Uniform(hits, k, limit, window) && a <= b < |hits|
    requires k !in ts[a].stamps && Kept(ts, hits, k, a, b) && hits[b].now - window as real <= lo
    ensures Counts(maxKeys, ts, hits, k, a, b, lo) && Ordered(StampsOf(ts[b], k), hits[b].now)
  {
    assert b > 0 ==> hits[b - 1].now <= hits[b].now;
    StampsCount(maxKeys, ts, hits, k, limit, window, a, b, lo);
    StampsAreOrdered(maxKeys, ts, hits, k, b, hits[b].now);
  }

  // A hit is accepted exactly when fewer than `limit` hits on its key were
  // accepted in the `window` seconds up to now, since the key came into the table.
  lemma AdmittedExactly(maxKeys: nat, ts: seq<Table>, hits: seq<Hit>, k: Key, limit: int, window: int, a: nat, b: nat,
                        lo: real)
    requires Run(maxKeys, ts, hits) && Uniform(hits, k, limit, window) && a <= b < |hits| && hits[b].key == k
    requires k !in ts[a].stamps && Kept(ts, hits, k, a, b) && lo == hits[b].now - window as real
    ensures ReplyTo(maxKeys, ts[b], hits[b]) == Accepted
       <==> Later(Times(maxKeys, ts, hits, k, a, b), lo) < limit
  {
    assert SettingAt(hits, k, limit, window, b);
    CountIsThere(maxKeys, ts, hits, k, limit, window, a, b, lo);
    AcceptedByCount(maxKeys, ts[b], hits[b], Times(maxKeys, ts, hits, k, a, b), limit, lo);
  }

  // ----- which keys are kept -----

  function Suffix(s: seq<Key>, n: nat): seq<Key> {
    if |s| <= n then s else s[|s| - n..]
  }

  // The keys hit, each at its last use.
  function ByLastUse(hits: seq<Hit>): seq<Key> {
    if hits == [] then []
    else Without(ByLastUse(hits[..|hits| - 1]), hits[|hits| - 1].key) + [hits[|hits| - 1].key]
  }

  lemma {:induction false} WithoutAdds(s: seq<Key>, t: seq<Key>, k: Key)
    ensures Without(s + t, k) == Without(s, k) + Without(t, k)
  {
    if s == [] {
      assert s + t == t;
    } else {
      assert (s + t)[1..] == s[1..] + t;
      WithoutAdds(s[1..], t, k);
    }
  }

  lemma {:induction false} ByLastUseIsDistinct(hits: seq<Hit>)
    ensures Distinct(ByLastUse(hits))
  {
    if hits != [] {
      var init, k := ByLastUse(hits[..|hits| - 1]), hits[|hits| - 1].key;
      ByLastUseIsDistinct(hits[..|hits| - 1]);
      WithoutIs(init, k);
      WithoutHolds(init, k);
    }
  }

  // Using one more key, and then keeping the last n, needs no more than the last n.
  lemma UseOfSuffix(keys: seq<Key>, n: nat, k: Key)
    requires Distinct(keys)
    ensures Suffix(Without(Suffix(keys, n), k) + [k], n) == Suffix(Without(keys, k) + [k], n)
    ensures Distinct(Suffix(keys, n))
  {
    if |keys| > n {
      var head, tail := keys[..|keys| - n], keys[|keys| - n..];
      assert keys == head + tail;
      WithoutAdds(head, tail, k);
      assert Distinct(tail);
      WithoutIs(tail, k);
      assert Without(keys, k) + [k] == Without(head, k) + (Without(tail, k) + [k]);
    }
  }

  lemma LiveIsThere(t: Table, h: Hit)
    requires WellFormed(t) && Live(t, h) != []
    ensures h.key in t.order
  {
  }

  lemma GrownIsEvicted(touched: Table, k: Key, stamps: seq<real>, maxKeys: nat)
    requires WellFormed(touched) && k in touched.order
    ensures Evict(touched.(stamps := touched.stamps[k := stamps]), maxKeys).order == Suffix(touched.order, maxKeys)
  {
    EvictKeepsLatest(touched.(stamps := touched.stamps[k := stamps]), maxKeys);
  }

  lemma StepKeepsLatest(maxKeys: nat, t: Table, h: Hit)
    requires WellFormed(t) && h.limit >= 1 && |t.order| <= maxKeys
    ensures After(maxKeys, t, h).order == Suffix(Without(t.order, h.key) + [h.key], maxKeys)
  {
    TouchedIsWellFormed(t, h);
    var touched := Touched(t, h);
    if ReplyTo(maxKeys, t, h) == Accepted {
      GrownIsEvicted(touched, h.key, Live(t, h) + [h.now], maxKeys);
    } else {
      LiveIsThere(t, h);
    }
  }

  // With positive limits the table holds the keys used last, as many as fit,
  // in the order of their last use.
  lemma {:induction false} TableHoldsLatest(maxKeys: nat, ts: seq<Table>, hits: seq<Hit>, m: nat)
    requires Run(maxKeys, ts, hits) && m <= |hits| && forall i | 0 <= i < |hits| :: hits[i].limit >= 1
    ensures ts[m].order == Suffix(ByLastUse(hits[..m]), maxKeys)
  {
    if m > 0 {
      assert StepAt(maxKeys, ts, hits, m - 1);
      TableHoldsLatest(maxKeys, ts, hits, m - 1);
      WellFormedRun(maxKeys, ts, hits, m - 1);
      StepKeepsLatest(maxKeys, ts[m - 1], hits[m - 1]);
      assert hits[..m][..m - 1] == hits[..m - 1];
      ByLastUseIsDistinct(hits[..m - 1]);
      UseOfSuffix(ByLastUse(hits[..m - 1]), maxKeys, hits[m - 1].key);
    }
  }

  // Hit i is the last one on its key.
  ghost predicate LastUse(hits: seq<Hit>, k: Key, i: nat) {
    i < |hits| && hits[i].key == k && forall j | i < j < |hits| :: hits[j].key != k
  }

  ghost predicate UsedBefore(hits: seq<Hit>, k: Key, l: Key) {
    forall i: nat, j: nat | LastUse(hits, k, i) && LastUse(hits, l, j) :: i < j
  }

  lemma LastUseNext(hits: seq<Hit>, h: Hit, k: Key, i: nat)
    ensures LastUse(hits + [h], k, i) <==> if h.key == k then i == |hits| else LastUse(hits, k, i)
  {
    var more := hits + [h];
    assert more[|hits|] == h;
    assert forall j | 0 <= j < |hits| :: hits[j] == more[j];
  }

  lemma {:induction false} WithoutKeepsOrder(s: seq<Key>, k: Key, i: nat, j: nat)
    returns (p: nat, q: nat)
    requires i < j < |Without(s, k)|
    ensures p < q < |s| && s[p] == Without(s, k)[i] && s[q] == Without(s, k)[j]
    ensures s[p] != k && s[q] != k
  {
    WithoutHolds(s, k);
    if s[0] == k {
      var x, y := WithoutKeepsOrder(s[1..], k, i, j);
      return x + 1, y + 1;
    } else if i > 0 {
      var x, y := WithoutKeepsOrder(s[1..], k, i - 1, j - 1);
      return x + 1, y + 1;
    } else {
      WithoutHolds(s[1..], k);
      assert Without(s[1..], k)[j - 1] in Without(s[1..], k);
      q :| 0 <= q < |s[1..]| && s[1..][q] == Without(s, k)[j];
      p, q := 0, q + 1;
    }
  }

  // The list by last use holds exactly the keys hit, earlier last uses first.
  lemma {:induction false} ByLastUseIs(hits: seq<Hit>, i: nat, j: nat)
    requires i < j < |ByLastUse(hits)|
    ensures UsedBefore(hits, ByLastUse(hits)[i], ByLastUse(hits)[j])
  {
    var init, h := hits[..|hits| - 1], hits[|hits| - 1];
    assert hits == init + [h];
    var rest, keys := Without(ByLastUse(init), h.key), ByLastUse(hits);
    forall x: nat, y: nat | LastUse(hits, keys[i], x) && LastUse(hits, keys[j], y) ensures x < y {
      WithoutHolds(ByLastUse(init), h.key);
      assert rest[i] in rest;
      LastUseNext(init, h, keys[i], x);
      LastUseNext(init, h, keys[j], y);
      if j < |rest| {
        var p, q := WithoutKeepsOrder(ByLastUse(init), h.key, i, j);
        ByLastUseIs(init, p, q);
      }
    }
  }

  lemma {:induction false} ByLastUseHolds(hits: seq<Hit>, k: Key)
    ensures k in ByLastUse(hits) <==> exists i :: 0 <= i < |hits| && hits[i].key == k
  {
    if hits != [] {
      var init, h := hits[..|hits| - 1], hits[|hits| - 1];
      ByLastUseHolds(init, k);
      WithoutHolds(ByLastUse(init), h.key);
      if k in ByLastUse(init) {
        var i :| 0 <= i < |init| && init[i].key == k;
        assert hits[i].key == k;
      }
      if i :| 0 <= i < |hits| && hits[i].key == k {
        assert i < |init| ==> init[i].key == k;
      }
    }
  }
}
