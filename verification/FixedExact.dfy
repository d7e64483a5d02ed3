// Exactly what the persistent limit decides, told by the hits alone
// (backend/app/rate_limits.py).
module FixedExact {
  import opened Common
  import opened FixedWindow
  import opened FixedRuns

  // The window of this length that starts at s, a multiple of it, holds `now`.
  ghost predicate Starts(now: real, window: int, s: int) {
    (exists q :: s == Aligned(q, window)) && s as real <= now < (s + window) as real
  }

  lemma StartsOnce(now: real, window: int, s: int)
    requires window > 0 && now >= 0.0
    ensures Starts(now, window, s) <==> s == StartOf(now, window)
  {
    var p := StartIs(now, window);
    if Starts(now, window, s) {
      var q :| s == Aligned(q, window);
      OneWindow(now, p, q, window);
    }
  }

  // Two hits count together: the same bucket up to 64 characters, the same key,
  // and a common start of their windows.
  ghost predicate Together(g: Hit, h: Hit) {
    && Configured(g) && Configured(h)
    && g.key == h.key && Take(g.bucket, 64) == Take(h.bucket, 64)
    && exists s :: Starts(g.now, g.window, s) && Starts(h.now, h.window, s)
  }

  lemma TogetherIsRow(g: Hit, h: Hit)
    requires g.now >= 0.0 && h.now >= 0.0
    ensures Together(g, h) <==> Configured(g) && Configured(h) && RowOf(g) == RowOf(h)
  {
    if Configured(g) && Configured(h) {
      StartsOnce(g.now, g.window, StartOf(g.now, g.window));
      StartsOnce(h.now, h.window, StartOf(g.now, g.window));
      if s :| Starts(g.now, g.window, s) && Starts(h.now, h.window, s) {
        StartsOnce(g.now, g.window, s);
        StartsOnce(h.now, h.window, s);
      }
    }
  }

  // The units asked for by those of the hits that count together with h.
  ghost function UnitsWith(hits: seq<Hit>, h: Hit): int {
    if hits == [] then 0
    else
      UnitsWith(hits[..|hits| - 1], h)
      + if Together(hits[|hits| - 1], h) then hits[|hits| - 1].units else 0
  }

  ghost predicate Since1970(hits: seq<Hit>) {
    forall i | 0 <= i < |hits| :: hits[i].now >= 0.0
  }

  lemma {:induction false} UnitsWithIs(hits: seq<Hit>, h: Hit)
    requires Since1970(hits) && h.now >= 0.0 && Configured(h)
    ensures UnitsWith(hits, h) == UnitsAsked(hits, RowOf(h))
  {
    if hits != [] {
      UnitsWithIs(hits[..|hits| - 1], h);
      TogetherIsRow(hits[|hits| - 1], h);
    }
  }

  lemma {:induction false} HitsSince1970(ts: seq<Table>, ops: seq<Op>, n: nat)
    requires Run(ts, ops) && n <= |ops|
    ensures Since1970(HitsOf(ops[..n]))
  {
    if n > 0 {
      HitsSince1970(ts, ops, n - 1);
      HitsOfNext(ops, n);
      assert StepAt(ts, ops, n - 1);
    }
  }

  // What a refused caller is told: the seconds left of the window, up to the
  // next whole second.
  ghost predicate TellsRest(h: Hit, seconds: int) {
    exists s :: Starts(h.now, h.window, s)
                && (s + h.window) as real - h.now < seconds as real <= (s + h.window) as real - h.now + 1.0
  }

  lemma WaitTellsRest(h: Hit)
    requires Configured(h) && h.now >= 0.0
    ensures TellsRest(h, Wait(h))
  {
    var s := StartOf(h.now, h.window);
    StartsOnce(h.now, h.window, s);
    assert Starts(h.now, h.window, s);
  }

  // With windows at most a factor of two apart, a hit is admitted exactly when it
  // and all earlier hits that count together with it, admitted or not, ask for no
  // more than its limit. Otherwise it is told the rest of its window.
  lemma AdmittedExactly(ts: seq<Table>, ops: seq<Op>, lo: int, hi: int, n: nat)
    requires Run(ts, ops) && n < |ops| && ops[n].HitOp? && Windows(ops, KeyOf(ops[n].hit), lo, hi) && hi <= 2 * lo
    ensures var h, reply := ops[n].hit, ReplyTo(ts[n], ops[n].hit);
      && (reply == BadConfiguration <==> h.limit <= 0 || h.window <= 0 || h.units <= 0)
      && (reply == Admitted <==>
            h.limit > 0 && h.window > 0 && h.units > 0 && UnitsWith(HitsOf(ops[..n]), h) + h.units <= h.limit)
      && (reply.RetryAfter? ==> TellsRest(h, reply.seconds))
  {
    var h := ops[n].hit;
    assert StepAt(ts, ops, n);
    PurgesAreInvisible(ts, ops, lo, hi, n);
    if Configured(h) {
      HitsSince1970(ts, ops, n);
      UnitsWithIs(HitsOf(ops[..n]), h);
      WaitTellsRest(h);
    }
  }

  // ----- the rows -----

  // Some hit before op n was counted in the row.
  ghost predicate WasHit(ops: seq<Op>, r: RowKey, n: nat)
    requires n <= |ops|
  {
    exists i | 0 <= i < n :: ops[i].HitOp? && Configured(ops[i].hit) && RowOf(ops[i].hit) == r
  }

  // A row stands for a window that was hit, and expires two lengths after its
  // start, of some window asked for on the key.
  lemma {:induction false} RowsAreHit(ts: seq<Table>, ops: seq<Op>, r: RowKey, lo: int, hi: int, n: nat)
    requires Run(ts, ops) && Windows(ops, r.key, lo, hi) && n <= |ops| && r in ts[n]
    ensures WasHit(ops, r, n) && r.start + 2 * lo <= ts[n][r].expires <= r.start + 2 * hi
  {
    if n > 0 {
      assert StepAt(ts, ops, n - 1) && WindowAt(ops, r.key, lo, hi, n - 1);
      if r in ts[n - 1] {
        RowsAreHit(ts, ops, r, lo, hi, n - 1);
      }
    }
  }

  // A purge leaves no row more than two window lengths after its start.
  lemma PurgedInTime(ts: seq<Table>, ops: seq<Op>, r: RowKey, lo: int, hi: int, n: nat)
    requires Run(ts, ops) && Windows(ops, r.key, lo, hi) && n < |ops| && ops[n].PurgeOp?
    requires ops[n].now > (r.start + 2 * hi) as real
    ensures r !in ts[n + 1]
  {
    assert StepAt(ts, ops, n);
    if r in ts[n] {
      RowsAreHit(ts, ops, r, lo, hi, n);
    }
  }
}
