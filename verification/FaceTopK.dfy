// The bounded search of one probe over all detections, and the table of
// results that several probes of a session share (backend/app/face.py).
module FaceTopK {
  import opened Common

  // A scored detection. Tuples compare by score, then by the detection's id.
  datatype Item = Item(score: real, detection: nat)

  // k is the largest number of results, `cap` of detections in an event.
  datatype Limits = Limits(k: int, cap: int, threshold: real)

  datatype Outcome = Count(n: nat) | StillIndexing | IndexError

  predicate AtMost(x: Item, y: Item) {
    x.score < y.score || (x.score == y.score && x.detection <= y.detection)
  }

  // The heap as the list of its items, least first.
  function Push(x: Item, heap: seq<Item>): seq<Item> {
    if heap == [] || AtMost(x, heap[0]) then [x] + heap else [heap[0]] + Push(x, heap[1..])
  }

  function Keep(k: int, x: Item, heap: seq<Item>): Option<seq<Item>> {
    if |heap| < k then Some(Push(x, heap))
    else if heap == [] then None
    else if x.score > heap[0].score then Some(Push(x, heap[1..]))
    else Some(heap)
  }

  function Passing(threshold: real, rows: seq<Item>): seq<Item> {
    if rows == [] then []
    else
      var rest := Passing(threshold, rows[..|rows| - 1]);
      var row := rows[|rows| - 1];
      if row.score < threshold then rest else rest + [row]
  }

  // The heap after a stream of items, None when it fails on an empty heap.
  function KeptOf(k: int, items: seq<Item>): Option<seq<Item>> {
    if items == [] then Some([])
    else
      var heap := KeptOf(k, items[..|items| - 1]);
      if heap.None? then None else Keep(k, items[|items| - 1], heap.value)
  }

  // ----- the table of results -----

  type Results = map<nat, real>

  function Upsert(table: Results, x: Item): Results {
    if x.detection in table && table[x.detection] >= x.score then table
    else table[x.detection := x.score]
  }

  function Upserts(table: Results, items: seq<Item>): Results {
    if items == [] then table else Upsert(Upserts(table, items[..|items| - 1]), items[|items| - 1])
  }

  function Backwards(items: seq<Item>): (r: seq<Item>)
    ensures |r| == |items| && forall i | 0 <= i < |r| :: r[i] == items[|items| - 1 - i]
  {
    seq(|items|, i requires 0 <= i < |items| => items[|items| - 1 - i])
  }

  class ResultTable {
    var scores: Results

    constructor ()
      ensures scores == map[]
    {
      scores := map[];
    }

    // One probe: `rows` are all the event's detections with their scores.
    method CreateFaceSearchResults(limits: Limits, rows: seq<Item>) returns (outcome: Outcome)
      modifies this
      ensures |rows| > limits.cap ==> outcome == StillIndexing && scores == old(scores)
      ensures |rows| <= limits.cap ==>
        match KeptOf(limits.k, Passing(limits.threshold, rows))
        case None => outcome == IndexError && scores == old(scores)
        case Some(kept) => outcome == Count(|kept|) && scores == Upserts(old(scores), Backwards(kept))
    {
      if |rows| > limits.cap {
        return StillIndexing;
      }
      var candidates: seq<Item> := [];
      for i := 0 to |rows|
        invariant scores == old(scores)
        invariant Some(candidates) == KeptOf(limits.k, Passing(limits.threshold, rows[..i]))
      {
        var item := rows[i];
        assert rows[..i + 1][..i] == rows[..i];
        var passed := Passing(limits.threshold, rows[..i]);
        if item.score < limits.threshold {
          continue;
        }
        assert (passed + [item])[..|passed|] == passed;
        if |candidates| < limits.k {
          candidates := Push(item, candidates);
        } else if candidates == [] {
          FailureLasts(limits.k, limits.threshold, rows, i + 1);
          return IndexError;
        } else if item.score > candidates[0].score {
          candidates := Push(item, candidates[1..]);
        }
      }
      assert rows[..|rows|] == rows;
      var ordered := Backwards(candidates);
      for i := 0 to |ordered|
        invariant scores == Upserts(old(scores), ordered[..i])
      {
        var item := ordered[i];
        assert ordered[..i + 1][..i] == ordered[..i];
        if item.detection !in scores || scores[item.detection] < item.score {
          scores := scores[item.detection := item.score];
        }
      }
      assert ordered[..|ordered|] == ordered;
      outcome := Count(|candidates|);
    }
  }

  lemma {:induction false} FailureLasts(k: int, threshold: real, rows: seq<Item>, i: nat)
    requires i <= |rows| && KeptOf(k, Passing(threshold, rows[..i])) == None
    ensures KeptOf(k, Passing(threshold, rows)) == None
    decreases |rows| - i
  {
    if i < |rows| {
      var next := rows[..i + 1];
      assert next[..i] == rows[..i];
      var passed := Passing(threshold, rows[..i]);
      assert (passed + [rows[i]])[..|passed|] == passed;
      FailureLasts(k, threshold, rows, i + 1);
    } else {
      assert rows[..i] == rows;
    }
  }

  // ----- the kept scores are the k largest -----

  function Scores(items: seq<Item>): (r: seq<real>)
    ensures |r| == |items| && forall i | 0 <= i < |r| :: r[i] == items[i].score
  {
    seq(|items|, i requires 0 <= i < |items| => items[i].score)
  }

  function InsertUp(x: real, s: seq<real>): seq<real> {
    if s == [] || x <= s[0] then [x] + s else [s[0]] + InsertUp(x, s[1..])
  }

  function SortUp(s: seq<real>): seq<real> {
    if s == [] then [] else InsertUp(s[|s| - 1], SortUp(s[..|s| - 1]))
  }

  function Last(s: seq<real>, k: nat): seq<real> {
    if |s| <= k then s else s[|s| - k..]
  }

  // The k largest of a list of scores, ascending.
  function Largest(s: seq<real>, k: nat): seq<real> {
    Last(SortUp(s), k)
  }

  ghost predicate Ascending(s: seq<real>) {
    forall i, j | 0 <= i < j < |s| :: s[i] <= s[j]
  }

  lemma {:induction false} InsertUpKeeps(x: real, s: seq<real>)
    ensures multiset(InsertUp(x, s)) == multiset(s) + multiset{x} && |InsertUp(x, s)| == |s| + 1
  {
    if s != [] && x > s[0] {
      InsertUpKeeps(x, s[1..]);
      assert s == [s[0]] + s[1..];
    }
  }

  lemma InsertUpMember(x: real, s: seq<real>, y: real)
    requires y in InsertUp(x, s)
    ensures y == x || y in s
  {
    InsertUpKeeps(x, s);
    assert y in multiset(InsertUp(x, s));
  }

  lemma {:induction false} InsertUpAscends(x: real, s: seq<real>)
    requires Ascending(s)
    ensures Ascending(InsertUp(x, s))
  {
    if s != [] && x > s[0] {
      var rest := InsertUp(x, s[1..]);
      InsertUpAscends(x, s[1..]);
      forall j | 0 <= j < |rest| ensures s[0] <= rest[j] {
        InsertUpMember(x, s[1..], rest[j]);
      }
    }
  }

  lemma InsertUpIs(x: real, s: seq<real>)
    requires Ascending(s)
    ensures Ascending(InsertUp(x, s)) && |InsertUp(x, s)| == |s| + 1
    ensures multiset(InsertUp(x, s)) == multiset(s) + multiset{x}
  {
    InsertUpKeeps(x, s);
    InsertUpAscends(x, s);
  }

  lemma {:induction false} SortUpIs(s: seq<real>)
    ensures Ascending(SortUp(s)) && multiset(SortUp(s)) == multiset(s) && |SortUp(s)| == |s|
  {
    if s != [] {
      SortUpIs(s[..|s| - 1]);
      InsertUpIs(s[|s| - 1], SortUp(s[..|s| - 1]));
      assert s == s[..|s| - 1] + [s[|s| - 1]];
    }
  }

  lemma HeadIsLeast(s: seq<real>, x: real)
    requires Ascending(s) && x in multiset(s)
    ensures s != [] && s[0] <= x
  {
    assert x in s;
  }

  lemma WithoutHead(s: seq<real>)
    requires s != []
    ensures multiset(s[1..]) == multiset(s) - multiset{s[0]}
  {
    assert s == [s[0]] + s[1..];
  }

  lemma SameHead(s: seq<real>, t: seq<real>)
    requires Ascending(s) && Ascending(t) && multiset(s) == multiset(t) && s != []
    ensures t != [] && s[0] == t[0]
  {
    assert s[0] in multiset(s);
    HeadIsLeast(t, s[0]);
    assert t[0] in multiset(t);
    HeadIsLeast(s, t[0]);
  }

  lemma TailAscends(s: seq<real>)
    requires Ascending(s) && s != []
    ensures Ascending(s[1..])
  {
  }

  lemma NothingCounted(t: seq<real>)
    requires multiset(t) == multiset{}
    ensures t == []
  {
    assert |multiset(t)| == |t|;
  }

  // Two ascending lists of the same numbers are equal.
  lemma {:induction false} AscendingIsUnique(s: seq<real>, t: seq<real>)
    requires Ascending(s) && Ascending(t) && multiset(s) == multiset(t)
    ensures s == t
  {
    if s == [] {
      NothingCounted(t);
    } else {
      SameHead(s, t);
      WithoutHead(s);
      WithoutHead(t);
      TailAscends(s);
      TailAscends(t);
      var rest, other := s[1..], t[1..];
      AscendingIsUnique(rest, other);
      assert s == [s[0]] + rest;
      assert t == [t[0]] + other;
    }
  }

  lemma {:induction false} PushScores(x: Item, heap: seq<Item>)
    requires Ascending(Scores(heap))
    ensures Scores(Push(x, heap)) == InsertUp(x.score, Scores(heap))
  {
    if heap == [] || AtMost(x, heap[0]) {
      assert Scores([x] + heap) == [x.score] + Scores(heap);
    } else {
      var rest := heap[1..];
      assert Scores(rest) == Scores(heap)[1..];
      PushScores(x, rest);
      assert Scores([heap[0]] + Push(x, rest)) == [heap[0].score] + Scores(Push(x, rest));
      if x.score == heap[0].score {
        assert rest == [] || x.score <= Scores(rest)[0];
        assert Scores(heap) == [x.score] + Scores(rest);
      }
    }
  }

  // What the heap does to the scores it holds.
  function KeepScore(k: nat, x: real, kept: seq<real>): seq<real> {
    if |kept| < k then InsertUp(x, kept)
    else if kept != [] && x > kept[0] then InsertUp(x, kept[1..])
    else kept
  }

  lemma KeepIsKeepScore(k: nat, x: Item, heap: seq<Item>)
    requires k >= 1 && Ascending(Scores(heap))
    ensures Keep(k, x, heap).Some? && Scores(Keep(k, x, heap).value) == KeepScore(k, x.score, Scores(heap))
  {
    if |heap| < k {
      PushScores(x, heap);
    } else {
      assert Scores(heap[1..]) == Scores(heap)[1..];
      PushScores(x, heap[1..]);
    }
  }

  lemma LastOfSmall(x: real, s: seq<real>, k: nat)
    requires Ascending(s) && k >= 1 && |s| <= k
    ensures Last(InsertUp(x, s), k) == KeepScore(k, x, Last(s, k))
  {
    InsertUpIs(x, s);
    if |s| == k && x > s[0] {
      assert ([s[0]] + InsertUp(x, s[1..]))[1..] == InsertUp(x, s[1..]);
    } else if |s| == k {
      assert ([x] + s)[1..] == s;
    }
  }

  lemma LastOfLonger(x: real, s: seq<real>, k: nat)
    requires |s| >= k
    ensures Last([x] + s, k) == Last(s, k)
  {
  }

  // Inserting one more score and keeping the last k is what the heap does.
  lemma {:induction false} LastOfInsert(x: real, s: seq<real>, k: nat)
    requires Ascending(s) && k >= 1
    ensures Last(InsertUp(x, s), k) == KeepScore(k, x, Last(s, k))
  {
    if |s| <= k {
      LastOfSmall(x, s, k);
    } else if x <= s[0] {
      LastOfLonger(x, s, k);
      assert Last(s, k)[0] == s[|s| - k];
    } else {
      LastOfInsert(x, s[1..], k);
      assert s == [s[0]] + s[1..];
      LastOfLonger(s[0], s[1..], k);
      InsertUpIs(x, s[1..]);
      LastOfLonger(s[0], InsertUp(x, s[1..]), k);
    }
  }

  lemma LastAscends(s: seq<real>, k: nat)
    requires Ascending(s)
    ensures Ascending(Last(s, k))
  {
  }

  // With room for at least one result the stream keeps exactly the k largest scores.
  lemma {:induction false} KeepsTheLargest(k: nat, items: seq<Item>)
    requires k >= 1
    ensures KeptOf(k, items).Some? && Scores(KeptOf(k, items).value) == Largest(Scores(items), k)
  {
    if items != [] {
      var init, x := items[..|items| - 1], items[|items| - 1];
      KeepsTheLargest(k, init);
      assert Scores(items)[..|items| - 1] == Scores(init);
      SortUpIs(Scores(init));
      LastAscends(SortUp(Scores(init)), k);
      LastOfInsert(x.score, SortUp(Scores(init)), k);
      KeepIsKeepScore(k, x, KeptOf(k, init).value);
    }
  }

  // The order of the rows does not matter for the kept scores.
  lemma RowOrderIsIrrelevant(k: nat, items: seq<Item>, others: seq<Item>)
    requires k >= 1 && multiset(Scores(items)) == multiset(Scores(others))
    ensures KeptOf(k, items).Some? && KeptOf(k, others).Some?
    ensures Scores(KeptOf(k, items).value) == Scores(KeptOf(k, others).value)
  {
    KeepsTheLargest(k, items);
    KeepsTheLargest(k, others);
    SortUpIs(Scores(items));
    SortUpIs(Scores(others));
    AscendingIsUnique(SortUp(Scores(items)), SortUp(Scores(others)));
  }

  lemma {:induction false} PushKeeps(x: Item, heap: seq<Item>)
    ensures multiset(Push(x, heap)) == multiset(heap) + multiset{x}
  {
    if heap != [] && !AtMost(x, heap[0]) {
      PushKeeps(x, heap[1..]);
      assert heap == [heap[0]] + heap[1..];
    }
  }

  lemma KeepItems(k: int, x: Item, heap: seq<Item>)
    requires Keep(k, x, heap).Some?
    ensures multiset(Keep(k, x, heap).value) <= multiset(heap) + multiset{x}
  {
    PushKeeps(x, heap);
    if |heap| >= 1 {
      PushKeeps(x, heap[1..]);
      assert heap == [heap[0]] + heap[1..];
      assert multiset(heap[1..]) <= multiset(heap);
    }
  }

  lemma OneMore(after: multiset<Item>, before: multiset<Item>, read: multiset<Item>, x: Item)
    requires after <= before + multiset{x} && before <= read
    ensures after <= read + multiset{x}
  {
  }

  ghost predicate AreFrom(kept: seq<Item>, items: seq<Item>) {
    multiset(kept) <= multiset(items)
  }

  lemma KeepFrom(k: int, x: Item, heap: seq<Item>, init: seq<Item>)
    requires Keep(k, x, heap).Some? && AreFrom(heap, init)
    ensures AreFrom(Keep(k, x, heap).value, init + [x])
  {
    KeepItems(k, x, heap);
    OneMore(multiset(Keep(k, x, heap).value), multiset(heap), multiset(init), x);
  }

  // What is kept are rows that were read, none of them twice.
  lemma {:induction false} KeptAreRows(k: int, items: seq<Item>)
    requires KeptOf(k, items).Some?
    ensures AreFrom(KeptOf(k, items).value, items)
  {
    if items != [] {
      var init, x := items[..|items| - 1], items[|items| - 1];
      KeptAreRows(k, init);
      KeepFrom(k, x, KeptOf(k, init).value, init);
      assert items == init + [x];
    }
  }

  // A limit of zero or less fails on exactly the streams that hold an item.
  lemma {:induction false} FailsExactlyWithoutRoom(k: int, items: seq<Item>)
    ensures KeptOf(k, items) == None <==> k <= 0 && items != []
  {
    if k >= 1 {
      KeepsTheLargest(k, items);
    } else if items != [] {
      FailsExactlyWithoutRoom(k, items[..|items| - 1]);
    }
  }

  // ----- several probes -----

  lemma {:induction false} UpsertsJoin(table: Results, items: seq<Item>, more: seq<Item>)
    ensures Upserts(table, items + more) == Upserts(Upserts(table, items), more)
  {
    if more == [] {
      assert items + more == items;
    } else {
      var init := more[..|more| - 1];
      assert (items + more)[..|items + more| - 1] == items + init;
      UpsertsJoin(table, items, init);
    }
  }

  // The score of a detection is the largest of those offered for it.
  ghost predicate IsBest(table: Results, items: seq<Item>, d: nat, best: real) {
    && (d in table ==> table[d] <= best)
    && (forall x | x in items && x.detection == d :: x.score <= best)
    && ((d in table && table[d] == best) || Item(best, d) in items)
  }

  lemma {:induction false} UpsertsAreBest(table: Results, items: seq<Item>, d: nat)
    ensures var r := Upserts(table, items);
      && (d in r <==> d in table || exists x :: x in items && x.detection == d)
      && (d in r ==> IsBest(table, items, d, r[d]))
  {
    if items != [] {
      var init, x := items[..|items| - 1], items[|items| - 1];
      UpsertsAreBest(table, init, d);
      assert items == init + [x];
      assert x in items;
    }
  }

  // The probes of a session, each with what it kept.
  function AfterProbes(table: Results, probes: seq<seq<Item>>): Results {
    if probes == [] then table
    else Upserts(AfterProbes(table, probes[..|probes| - 1]), probes[|probes| - 1])
  }

  function Offered(probes: seq<seq<Item>>): seq<Item> {
    if probes == [] then [] else Offered(probes[..|probes| - 1]) + probes[|probes| - 1]
  }

  lemma {:induction false} ProbesAreUpserts(table: Results, probes: seq<seq<Item>>)
    ensures AfterProbes(table, probes) == Upserts(table, Offered(probes))
  {
    if probes != [] {
      ProbesAreUpserts(table, probes[..|probes| - 1]);
      UpsertsJoin(table, Offered(probes[..|probes| - 1]), probes[|probes| - 1]);
    }
  }

  lemma {:induction false} OfferedIs(probes: seq<seq<Item>>, x: Item)
    ensures x in Offered(probes) <==> exists p | 0 <= p < |probes| :: x in probes[p]
  {
    if probes != [] {
      var init := probes[..|probes| - 1];
      OfferedIs(init, x);
      if x in Offered(init) {
        var p :| 0 <= p < |init| && x in init[p];
        assert x in probes[p];
      }
      if p :| 0 <= p < |probes| && x in probes[p] {
        assert p < |init| ==> x in init[p];
      }
    }
  }

  // After any probes a stored score is the largest that some probe kept for the
  // detection: never less than any probe's, and equal to one of them.
  lemma StoredIsBest(probes: seq<seq<Item>>, d: nat)
    ensures var r := AfterProbes(map[], probes);
      && (d in r <==> exists p, x | 0 <= p < |probes| && x in probes[p] :: x.detection == d)
      && (d in r ==>
            && (forall p, x | 0 <= p < |probes| && x in probes[p] && x.detection == d :: x.score <= r[d])
            && exists p | 0 <= p < |probes| :: Item(r[d], d) in probes[p])
  {
    ProbesAreUpserts(map[], probes);
    UpsertsAreBest(map[], Offered(probes), d);
    var r := AfterProbes(map[], probes);
    forall p, x | 0 <= p < |probes| && x in probes[p] && x.detection == d ensures d in r && x.score <= r[d] {
      OfferedIs(probes, x);
    }
    if d in r {
      OfferedIs(probes, Item(r[d], d));
      assert Item(r[d], d).detection == d;
    }
  }

  // Probes that keep the same items leave the same table, whatever their order
  // and however often one is repeated.
  lemma ProbeOrderIsIrrelevant(table: Results, probes: seq<seq<Item>>, others: seq<seq<Item>>)
    requires forall probe :: probe in probes <==> probe in others
    ensures AfterProbes(table, probes) == AfterProbes(table, others)
  {
    ProbesAreUpserts(table, probes);
    ProbesAreUpserts(table, others);
    forall x ensures x in Offered(probes) <==> x in Offered(others) {
      OfferedIs(probes, x);
      OfferedIs(others, x);
      SameProbes(probes, others, x);
      SameProbes(others, probes, x);
    }
    var r, s := AfterProbes(table, probes), AfterProbes(table, others);
    forall d: nat ensures (d in r <==> d in s) && (d in r && d in s ==> r[d] == s[d]) {
      UpsertsAreBest(table, Offered(probes), d);
      UpsertsAreBest(table, Offered(others), d);
    }
  }

  lemma SameProbes(probes: seq<seq<Item>>, others: seq<seq<Item>>, x: Item)
    requires forall probe | probe in probes :: probe in others
    ensures (exists p | 0 <= p < |probes| :: x in probes[p]) ==> exists q | 0 <= q < |others| :: x in others[q]
  {
    if p :| 0 <= p < |probes| && x in probes[p] {
      assert probes[p] in others;
      var q :| 0 <= q < |others| && others[q] == probes[p];
    }
  }

  // One more probe never lowers a stored score.
  lemma ScoresOnlyRise(table: Results, items: seq<Item>, d: nat)
    requires d in table
    ensures var r := Upserts(table, items); d in r && table[d] <= r[d]
  {
    UpsertsAreBest(table, items, d);
  }

  // ----- a session of probes -----

  // What one probe upserts, in its order: nothing when it fails.
  function Contribution(limits: Limits, rows: seq<Item>): seq<Item> {
    if |rows| > limits.cap then []
    else
      match KeptOf(limits.k, Passing(limits.threshold, rows))
      case None => []
      case Some(kept) => Backwards(kept)
  }

  function Contributions(limits: Limits, series: seq<seq<Item>>): (probes: seq<seq<Item>>)
    ensures |probes| == |series|
    ensures forall p | 0 <= p < |series| :: probes[p] == Contribution(limits, series[p])
  {
    seq(|series|, p requires 0 <= p < |series| => Contribution(limits, series[p]))
  }

  // The probes of a session, one after the other; one that fails adds nothing.
  method SearchSession(limits: Limits, series: seq<seq<Item>>) returns (table: ResultTable)
    ensures table.scores == AfterProbes(map[], Contributions(limits, series))
  {
    table := new ResultTable();
    ghost var probes := Contributions(limits, series);
    for p := 0 to |series|
      invariant table.scores == AfterProbes(map[], probes[..p])
    {
      ghost var before := table.scores;
      var _ := table.CreateFaceSearchResults(limits, series[p]);
      assert table.scores == Upserts(before, probes[p]);
      assert probes[..p + 1][..p] == probes[..p];
    }
    assert probes[..|series|] == probes;
  }

  // In a session, a detection has a score exactly when some successful probe
  // kept it, and then the largest score that any of them kept for it.
  lemma SessionKeepsBest(limits: Limits, series: seq<seq<Item>>, d: nat)
    ensures var r := AfterProbes(map[], Contributions(limits, series));
      && (d in r <==> exists p, x | 0 <= p < |series| && x in Contribution(limits, series[p]) :: x.detection == d)
      && (d in r ==>
            && (forall p, x | 0 <= p < |series| && x in Contribution(limits, series[p]) && x.detection == d ::
                  x.score <= r[d])
            && exists p | 0 <= p < |series| :: Item(r[d], d) in Contribution(limits, series[p]))
  {
    var probes := Contributions(limits, series);
    StoredIsBest(probes, d);
    var r := AfterProbes(map[], probes);
    forall p, x | 0 <= p < |series| && x in Contribution(limits, series[p]) && x.detection == d
      ensures d in r && x.score <= r[d]
    {
      assert x in probes[p];
    }
    if d in r {
      var p :| 0 <= p < |probes| && Item(r[d], d) in probes[p];
      assert Item(r[d], d) in Contribution(limits, series[p]) && Item(r[d], d).detection == d;
    }
  }

  lemma ContributionIn(limits: Limits, series: seq<seq<Item>>, probe: seq<Item>)
    ensures probe in Contributions(limits, series)
       <==> exists rows | rows in series :: Contribution(limits, rows) == probe
  {
    if rows :| rows in series && Contribution(limits, rows) == probe {
      var p :| 0 <= p < |series| && series[p] == rows;
      assert Contributions(limits, series)[p] == probe;
    }
    if probe in Contributions(limits, series) {
      var p :| 0 <= p < |series| && Contributions(limits, series)[p] == probe;
      assert series[p] in series && Contribution(limits, series[p]) == probe;
    }
  }

  // The probes of a session may come in any order and be repeated.
  lemma SessionOrderIsIrrelevant(limits: Limits, series: seq<seq<Item>>, others: seq<seq<Item>>)
    requires forall rows :: rows in series <==> rows in others
    ensures AfterProbes(map[], Contributions(limits, series)) == AfterProbes(map[], Contributions(limits, others))
  {
    forall probe ensures probe in Contributions(limits, series) <==> probe in Contributions(limits, others) {
      ContributionIn(limits, series, probe);
      ContributionIn(limits, others, probe);
    }
    ProbeOrderIsIrrelevant(map[], Contributions(limits, series), Contributions(limits, others));
  }
}
