// The sliding-window limiter with its table of recently used keys
// (backend/app/web_security.py).
module SlidingWindow {
  import opened Common

  // A bucket with the key limited in it.
  datatype Key = Key(bucket: string, key: string)

  // The table in order of last use, with the accepted hits of each key.
  datatype Table = Table(order: seq<Key>, stamps: map<Key, seq<real>>)

  datatype Reply = Accepted | RetryAfter(seconds: int) | IndexError | KeyError

  datatype Hit = Hit(key: Key, limit: int, window: int, now: real)

  function Expire(stamps: seq<real>, cutoff: real): seq<real> {
    if stamps != [] && stamps[0] <= cutoff then Expire(stamps[1..], cutoff) else stamps
  }

  function Without(order: seq<Key>, k: Key): seq<Key> {
    if order == [] then []
    else if order[0] == k then Without(order[1..], k)
    else [order[0]] + Without(order[1..], k)
  }

  function StampsOf(t: Table, k: Key): seq<real> {
    if k in t.stamps then t.stamps[k] else []
  }

  // Drops the least recently used keys until `size` are left.
  function Evict(t: Table, size: nat): Table
    decreases |t.order|
  {
    if |t.order| <= size then t else Evict(Table(t.order[1..], t.stamps - {t.order[0]}), size)
  }

  function Live(t: Table, h: Hit): seq<real> {
    Expire(StampsOf(t, h.key), h.now - h.window as real)
  }

  function Touched(t: Table, h: Hit): Table {
    Table(Without(t.order, h.key) + [h.key], t.stamps[h.key := Live(t, h)])
  }

  function Wait(h: Hit, first: real): int {
    Max(1, Truncate(h.window as real - (h.now - first)) + 1)
  }

  function ReplyTo(maxKeys: int, t: Table, h: Hit): Reply {
    var live := Live(t, h);
    if |live| >= h.limit then if live == [] then IndexError else RetryAfter(Wait(h, live[0]))
    else if maxKeys < 0 then KeyError
    else Accepted
  }

  function After(maxKeys: int, t: Table, h: Hit): Table {
    var touched := Touched(t, h);
    match ReplyTo(maxKeys, t, h)
    case Accepted => Evict(touched.(stamps := touched.stamps[h.key := Live(t, h) + [h.now]]), maxKeys)
    case KeyError => Table([], map[])
    case _ => touched
  }

  // ----- the limiter in place -----

  ghost predicate Distinct(order: seq<Key>) {
    forall i, j | 0 <= i < j < |order| :: order[i] != order[j]
  }

  ghost predicate WellFormed(t: Table) {
    && Distinct(t.order)
    && (forall k :: k in t.order <==> k in t.stamps)
  }

  class SlidingWindowLimiter {
    const maxKeys: int
    var order: seq<Key>
    var entries: map<Key, seq<real>>

    function View(): Table
      reads this
    {
      Table(order, entries)
    }

    constructor (maxKeys: int)
      ensures WellFormed(View()) && View() == Table([], map[]) && this.maxKeys == maxKeys
    {
      this.maxKeys := maxKeys;
      order, entries := [], map[];
    }

    method MoveToEnd(k: Key)
      modifies this`order
      ensures order == Without(old(order), k) + [k]
    {
      var rest: seq<Key>, i := [], |order|;
      while i > 0
        invariant 0 <= i <= |order|
        invariant rest == Without(order[i..], k)
      {
        i := i - 1;
        if order[i] != k {
          rest := [order[i]] + rest;
        }
        assert order[i..][1..] == order[i + 1..];
      }
      order := rest + [k];
    }

    method HitKey(h: Hit) returns (reply: Reply)
      requires WellFormed(View())
      modifies this
      ensures WellFormed(View())
      ensures reply == ReplyTo(maxKeys, old(View()), h) && View() == After(maxKeys, old(View()), h)
    {
      ghost var before := View();
      TouchedIsWellFormed(before, h);
      var cutoff := h.now - h.window as real;
      var timestamps := if h.key in entries then entries[h.key] else [];
      while timestamps != [] && timestamps[0] <= cutoff
        invariant Expire(timestamps, cutoff) == Live(before, h)
      {
        timestamps := timestamps[1..];
      }
      entries := entries[h.key := timestamps];
      MoveToEnd(h.key);
      if |timestamps| >= h.limit {
        if timestamps == [] {
          return IndexError;
        }
        return RetryAfter(Max(1, Truncate(h.window as real - (h.now - timestamps[0])) + 1));
      }
      entries := entries[h.key := timestamps + [h.now]];
      reply := Trim();
    }

    method Trim() returns (reply: Reply)
      requires WellFormed(View())
      modifies this
      ensures WellFormed(View())
      ensures maxKeys >= 0 ==> reply == Accepted && View() == Evict(old(View()), maxKeys)
      ensures maxKeys < 0 ==> reply == KeyError && View() == Table([], map[])
    {
      while |entries| > maxKeys
        invariant WellFormed(View())
        invariant maxKeys >= 0 ==> Evict(View(), maxKeys) == Evict(old(View()), maxKeys)
        decreases |order|
      {
        OrderIsCount(View());
        if order == [] {
          return KeyError;
        }
        EvictIsWellFormed(View());
        entries, order := entries - {order[0]}, order[1..];
      }
      OrderIsCount(View());
      reply := Accepted;
    }
  }

  // ----- the table -----

  function KeysIn(order: seq<Key>): set<Key> {
    set k | k in order
  }

  lemma {:induction false} DistinctCount(order: seq<Key>)
    requires Distinct(order)
    ensures |KeysIn(order)| == |order|
  {
    if order != [] {
      DistinctCount(order[1..]);
      assert KeysIn(order) == {order[0]} + KeysIn(order[1..]);
    }
  }

  lemma OrderIsCount(t: Table)
    requires WellFormed(t)
    ensures |t.order| == |t.stamps|
  {
    DistinctCount(t.order);
    assert KeysIn(t.order) == t.stamps.Keys;
  }

  lemma EvictIsWellFormed(t: Table)
    requires WellFormed(t) && t.order != []
    ensures WellFormed(Table(t.order[1..], t.stamps - {t.order[0]}))
  {
    var rest := t.order[1..];
    forall k ensures k in rest <==> k in t.order && k != t.order[0] {
      if k in rest {
        var i :| 0 <= i < |rest| && rest[i] == k;
        assert t.order[i + 1] == k;
      }
    }
  }

  lemma {:induction false} WithoutHolds(order: seq<Key>, k: Key)
    ensures forall x :: x in Without(order, k) <==> x in order && x != k
  {
    if order != [] {
      WithoutHolds(order[1..], k);
    }
  }

  lemma {:induction false} WithoutIs(order: seq<Key>, k: Key)
    requires Distinct(order)
    ensures Distinct(Without(order, k))
    ensures |Without(order, k)| == if k in order then |order| - 1 else |order|
  {
    if order != [] {
      var rest := order[1..];
      WithoutIs(rest, k);
      WithoutHolds(rest, k);
      if order[0] != k {
        assert order[0] !in Without(rest, k);
        assert k in order <==> k in rest;
      } else {
        assert k !in rest;
      }
    }
  }

  lemma TouchedIsWellFormed(t: Table, h: Hit)
    requires WellFormed(t)
    ensures WellFormed(Touched(t, h))
    ensures |Touched(t, h).order| == if h.key in t.order then |t.order| else |t.order| + 1
  {
    WithoutIs(t.order, h.key);
    WithoutHolds(t.order, h.key);
    assert Touched(t, h).order[|Touched(t, h).order| - 1] == h.key;
  }

  // What eviction leaves are the most recently used keys.
  lemma {:induction false} EvictKeepsLatest(t: Table, size: nat)
    requires WellFormed(t)
    ensures var r := Evict(t, size);
      && WellFormed(r) && |r.order| == Min(|t.order|, size)
      && r.order == t.order[|t.order| - |r.order|..]
      && forall k | k in r.stamps :: k in t.stamps && r.stamps[k] == t.stamps[k]
    decreases |t.order|
  {
    if |t.order| > size {
      EvictIsWellFormed(t);
      EvictKeepsLatest(Table(t.order[1..], t.stamps - {t.order[0]}), size);
    }
  }

  lemma {:induction false} EvictKeepsLast(t: Table, size: nat)
    requires t.order != [] && size >= 1
    ensures Evict(t, size).order != []
    ensures Evict(t, size).order[|Evict(t, size).order| - 1] == t.order[|t.order| - 1]
    decreases |t.order|
  {
    if |t.order| > size {
      EvictKeepsLast(Table(t.order[1..], t.stamps - {t.order[0]}), size);
    }
  }

  lemma AcceptedKeepsSize(maxKeys: nat, grown: Table, k: Key)
    requires WellFormed(grown) && grown.order != [] && grown.order[|grown.order| - 1] == k
    ensures var r := Evict(grown, maxKeys);
      WellFormed(r) && |r.order| <= maxKeys && (maxKeys >= 1 ==> k in r.stamps)
  {
    EvictKeepsLatest(grown, maxKeys);
    if maxKeys >= 1 {
      EvictKeepsLast(grown, maxKeys);
      assert k in Evict(grown, maxKeys).order;
    }
  }

  // A hit leaves the table within its size, unless a limit of zero or less
  // meets a new key in a full table. With room for one key, the key just hit stays.
  lemma HitKeepsSize(maxKeys: nat, t: Table, h: Hit)
    requires WellFormed(t) && |t.order| <= maxKeys
    ensures WellFormed(After(maxKeys, t, h))
    ensures |After(maxKeys, t, h).order| <= maxKeys
       <==> !(h.limit <= 0 && h.key !in t.order && |t.order| == maxKeys)
    ensures maxKeys >= 1 ==> h.key in After(maxKeys, t, h).stamps
  {
    TouchedIsWellFormed(t, h);
    ExpireIsSuffix(StampsOf(t, h.key), h.now - h.window as real);
    var touched := Touched(t, h);
    if ReplyTo(maxKeys, t, h) == Accepted {
      AcceptedKeepsSize(maxKeys, touched.(stamps := touched.stamps[h.key := Live(t, h) + [h.now]]), h.key);
    }
  }

  lemma {:induction false} ExpireIsSuffix(stamps: seq<real>, cutoff: real)
    ensures |Expire(stamps, cutoff)| <= |stamps|
    ensures Expire(stamps, cutoff) != [] ==> Expire(stamps, cutoff)[0] > cutoff
    ensures stamps != [] && stamps[0] > cutoff ==> Expire(stamps, cutoff) == stamps
    ensures stamps != [] && stamps[0] <= cutoff ==> |Expire(stamps, cutoff)| < |stamps|
  {
    if stamps != [] && stamps[0] <= cutoff {
      ExpireIsSuffix(stamps[1..], cutoff);
    }
  }
}
