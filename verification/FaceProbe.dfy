// Which detections one probe keeps, told by scores, ids and the order of the
// rows alone (backend/app/face.py).
module FaceProbe {
  import opened FaceTopK

  // By score, then by id.
  predicate Before(x: Item, y: Item) {
    x.score < y.score || (x.score == y.score && x.detection <= y.detection)
  }

  ghost predicate Ordered(heap: seq<Item>) {
    forall i, j | 0 <= i < j < |heap| :: Before(heap[i], heap[j])
  }

  ghost predicate IsLeast(least: Item, heap: seq<Item>) {
    least in heap && forall y | y in heap :: Before(least, y)
  }

  // An item is added while there is room. After that it takes the place of the
  // least item when it scores more, and is dropped otherwise.
  ghost predicate Weighed(k: nat, x: Item, heap: seq<Item>, after: seq<Item>) {
    if |heap| < k then multiset(after) == multiset(heap) + multiset{x}
    else exists least | IsLeast(least, heap) ::
      if x.score > least.score then multiset(after) == multiset(heap) - multiset{least} + multiset{x}
      else after == heap
  }

  lemma {:induction false} PushIsOrdered(x: Item, heap: seq<Item>)
    requires Ordered(heap)
    ensures Ordered(Push(x, heap))
  {
    PushKeeps(x, heap);
    if heap != [] && !AtMost(x, heap[0]) {
      var rest := Push(x, heap[1..]);
      PushIsOrdered(x, heap[1..]);
      PushKeeps(x, heap[1..]);
      forall j | 0 <= j < |rest| ensures Before(heap[0], rest[j]) {
        assert rest[j] in multiset(rest);
        assert rest[j] == x || rest[j] in heap[1..];
      }
    }
  }

  lemma FirstIsLeast(heap: seq<Item>)
    requires heap != [] && Ordered(heap)
    ensures IsLeast(heap[0], heap)
  {
  }

  lemma WithoutFirst(heap: seq<Item>)
    requires heap != [] && Ordered(heap)
    ensures multiset(heap[1..]) == multiset(heap) - multiset{heap[0]} && Ordered(heap[1..])
  {
    assert heap == [heap[0]] + heap[1..];
  }

  lemma FullWeighs(k: nat, x: Item, heap: seq<Item>)
    requires 1 <= k <= |heap| && Ordered(heap)
    ensures var after := if x.score > heap[0].score then Push(x, heap[1..]) else heap;
      Ordered(after) && Weighed(k, x, heap, after)
  {
    FirstIsLeast(heap);
    WithoutFirst(heap);
    PushIsOrdered(x, heap[1..]);
    PushKeeps(x, heap[1..]);
  }

  lemma KeepWeighs(k: nat, x: Item, heap: seq<Item>)
    requires k >= 1 && Ordered(heap)
    ensures Keep(k, x, heap).Some? && Ordered(Keep(k, x, heap).value) && Weighed(k, x, heap, Keep(k, x, heap).value)
  {
    if |heap| < k {
      PushIsOrdered(x, heap);
      PushKeeps(x, heap);
    } else {
      FullWeighs(k, x, heap);
    }
  }

  lemma {:induction false} KeptIsOrdered(k: nat, items: seq<Item>)
    requires k >= 1
    ensures KeptOf(k, items).Some? && Ordered(KeptOf(k, items).value)
  {
    if items != [] {
      var init, x := items[..|items| - 1], items[|items| - 1];
      KeptIsOrdered(k, init);
      KeepWeighs(k, x, KeptOf(k, init).value);
    }
  }

  // Every item of the stream is weighed against those kept before it, and what
  // is kept is listed from the least to the greatest.
  lemma EachItemIsWeighed(k: nat, items: seq<Item>, i: nat)
    requires k >= 1 && i < |items|
    ensures KeptOf(k, items[..i]).Some? && KeptOf(k, items[..i + 1]).Some?
    ensures Weighed(k, items[i], KeptOf(k, items[..i]).value, KeptOf(k, items[..i + 1]).value)
    ensures Ordered(KeptOf(k, items[..i + 1]).value)
  {
    KeptIsOrdered(k, items[..i]);
    KeptIsOrdered(k, items[..i + 1]);
    assert items[..i + 1][..i] == items[..i];
    KeepWeighs(k, items[i], KeptOf(k, items[..i]).value);
  }

  // ----- a whole probe -----

  // The rows at or above the threshold, each as often as it was read.
  lemma {:induction false} PassingIs(threshold: real, rows: seq<Item>, x: Item)
    ensures multiset(Passing(threshold, rows))[x] == if x.score >= threshold then multiset(rows)[x] else 0
  {
    if rows != [] {
      PassingIs(threshold, rows[..|rows| - 1], x);
      assert rows == rows[..|rows| - 1] + [rows[|rows| - 1]];
    }
  }

  // In the order of the rows: a split of the rows splits them.
  lemma {:induction false} PassingAdds(threshold: real, rows: seq<Item>, more: seq<Item>)
    ensures Passing(threshold, rows + more) == Passing(threshold, rows) + Passing(threshold, more)
  {
    if more == [] {
      assert rows + more == rows;
    } else {
      assert (rows + more)[..|rows + more| - 1] == rows + more[..|more| - 1];
      PassingAdds(threshold, rows, more[..|more| - 1]);
    }
  }

  // No kept item scores less than z.
  ghost predicate Outscored(z: Item, kept: seq<Item>) {
    forall y | y in kept :: z.score <= y.score
  }

  // What was dropped scores no more than anything kept, and only for want of room.
  ghost predicate KeptBest(k: nat, read: seq<Item>, kept: seq<Item>) {
    && multiset(kept) <= multiset(read) && |kept| == (if |read| < k then |read| else k)
    && forall x | multiset(kept)[x] < multiset(read)[x] :: |kept| == k && Outscored(x, kept)
  }

  lemma Replaced(least: Item, x: Item, heap: seq<Item>, after: seq<Item>, z: Item)
    requires IsLeast(least, heap) && x.score > least.score
    requires multiset(after) == multiset(heap) - multiset{least} + multiset{x}
    requires z == least || Outscored(z, heap)
    ensures |after| == |heap| && Outscored(z, after)
  {
    assert least in multiset(heap);
    assert |multiset(after)| == |after| && |multiset(heap)| == |heap|;
    forall y | y in after ensures z.score <= y.score {
      assert y in multiset(after);
      assert y == x || y in heap by {
        assert y == x || y in multiset(heap);
      }
    }
  }

  lemma Dropped(least: Item, x: Item, heap: seq<Item>)
    requires IsLeast(least, heap) && x.score <= least.score
    ensures Outscored(x, heap)
  {
  }

  lemma FullIsBest(k: nat, x: Item, read: seq<Item>, heap: seq<Item>, after: seq<Item>)
    requires k >= 1 && |heap| == k && Weighed(k, x, heap, after) && KeptBest(k, read, heap)
    ensures KeptBest(k, read + [x], after)
  {
    var least :| IsLeast(least, heap) && if x.score > least.score
      then multiset(after) == multiset(heap) - multiset{least} + multiset{x} else after == heap;
    assert least in multiset(heap);
    if x.score > least.score {
      Replaced(least, x, heap, after, least);
      forall z | multiset(after)[z] < multiset(read + [x])[z] ensures Outscored(z, after) {
        Replaced(least, x, heap, after, if multiset(heap)[z] < multiset(read)[z] then z else least);
      }
    } else {
      Dropped(least, x, heap);
    }
  }

  lemma RoomIsBest(k: nat, x: Item, read: seq<Item>, heap: seq<Item>, after: seq<Item>)
    requires |heap| < k && Weighed(k, x, heap, after) && KeptBest(k, read, heap)
    ensures KeptBest(k, read + [x], after)
  {
    assert |multiset(after)| == |after| && |multiset(heap)| == |heap|;
  }

  lemma WeighedIsBest(k: nat, x: Item, read: seq<Item>, heap: seq<Item>, after: seq<Item>)
    requires k >= 1 && Weighed(k, x, heap, after) && KeptBest(k, read, heap)
    ensures KeptBest(k, read + [x], after)
  {
    if |heap| < k {
      RoomIsBest(k, x, read, heap, after);
    } else {
      FullIsBest(k, x, read, heap, after);
    }
  }

  lemma {:induction false} KeptAreBest(k: nat, items: seq<Item>)
    requires k >= 1
    ensures KeptOf(k, items).Some? && KeptBest(k, items, KeptOf(k, items).value)
  {
    if items != [] {
      var init, x := items[..|items| - 1], items[|items| - 1];
      KeptAreBest(k, init);
      KeptIsOrdered(k, init);
      KeepWeighs(k, x, KeptOf(k, init).value);
      WeighedIsBest(k, x, init, KeptOf(k, init).value, KeptOf(k, items).value);
      assert items == init + [x];
    }
  }

  // The rows reaching the threshold, counted.
  ghost function Reaching(threshold: real, rows: seq<Item>): nat {
    if rows == [] then 0
    else Reaching(threshold, rows[..|rows| - 1]) + if rows[|rows| - 1].score >= threshold then 1 else 0
  }

  lemma {:induction false} PassingCount(threshold: real, rows: seq<Item>)
    ensures |Passing(threshold, rows)| == Reaching(threshold, rows)
  {
    if rows != [] {
      PassingCount(threshold, rows[..|rows| - 1]);
    }
  }

  // A probe keeps rows that reach the threshold, as many as there are up to k,
  // and none that it leaves out scores more than one that it keeps.
  ghost predicate BestRows(k: nat, threshold: real, rows: seq<Item>, kept: seq<Item>) {
    && multiset(kept) <= multiset(rows) && Ordered(kept)
    && (forall y | y in kept :: y.score >= threshold)
    && (forall x | multiset(kept)[x] < multiset(rows)[x] && x.score >= threshold ::
          |kept| == k && Outscored(x, kept))
    && |kept| == if Reaching(threshold, rows) < k then Reaching(threshold, rows) else k
  }

  lemma ProbeKeepsBest(k: nat, threshold: real, rows: seq<Item>)
    requires k >= 1
    ensures KeptOf(k, Passing(threshold, rows)).Some?
    ensures BestRows(k, threshold, rows, KeptOf(k, Passing(threshold, rows)).value)
  {
    var passing := Passing(threshold, rows);
    KeptAreBest(k, passing);
    KeptIsOrdered(k, passing);
    PassingCount(threshold, rows);
    var kept := KeptOf(k, passing).value;
    forall x: Item ensures multiset(passing)[x] == if x.score >= threshold then multiset(rows)[x] else 0 {
      PassingIs(threshold, rows, x);
    }
    forall y | y in kept ensures y.score >= threshold {
      assert y in multiset(kept);
      assert multiset(passing)[y] > 0;
    }
  }

  // In an event that is not too large for the cap, a probe upserts its best rows,
  // the greatest first; in a larger one it upserts nothing.
  lemma ContributionIsBest(limits: Limits, rows: seq<Item>)
    requires limits.k >= 1
    ensures if |rows| > limits.cap then Contribution(limits, rows) == []
            else BestRows(limits.k, limits.threshold, rows, Backwards(Contribution(limits, rows)))
  {
    if |rows| <= limits.cap {
      ProbeKeepsBest(limits.k, limits.threshold, rows);
      var kept := KeptOf(limits.k, Passing(limits.threshold, rows)).value;
      assert Backwards(Backwards(kept)) == kept;
    }
  }
}
