// Partial matches between bib numbers (backend/app/face.py).
module PartialBib {
  import opened Common

  // ----- the recurrence of the table -----

  // The longest common suffix of left[..i] and right[..j].
  function Run(left: string, right: string, i: nat, j: nat): nat
    requires i <= |left| && j <= |right|
  {
    if i == 0 || j == 0 || left[i - 1] != right[j - 1] then 0 else Run(left, right, i - 1, j - 1) + 1
  }

  // The largest run in row i, up to column j.
  function RowBest(left: string, right: string, i: nat, j: nat): nat
    requires i <= |left| && j <= |right|
  {
    if j == 0 then 0 else Max(RowBest(left, right, i, j - 1), Run(left, right, i, j))
  }

  function Best(left: string, right: string, i: nat): nat
    requires i <= |left|
  {
    if i == 0 then 0 else Max(Best(left, right, i - 1), RowBest(left, right, i, |right|))
  }

  function Longest(left: string, right: string): nat {
    Best(left, right, |left|)
  }

  ghost predicate IsRow(left: string, right: string, i: nat, row: seq<nat>)
    requires i <= |left|
  {
    |row| == |right| + 1 && forall j | 0 <= j <= |right| :: row[j] == Run(left, right, i, j)
  }

  method LongestCommonSubstringLength(left: string, right: string) returns (best: nat)
    ensures best == Longest(left, right)
  {
    best := 0;
    var previous := new nat[|right| + 1](_ => 0);
    for i := 0 to |left|
      invariant best == Best(left, right, i)
      invariant IsRow(left, right, i, previous[..])
    {
      var current := new nat[|right| + 1](_ => 0);
      for j := 0 to |right|
        invariant best == Max(Best(left, right, i), RowBest(left, right, i + 1, j))
        invariant IsRow(left, right, i, previous[..])
        invariant forall k | 0 <= k <= j :: current[k] == Run(left, right, i + 1, k)
        invariant forall k | j < k <= |right| :: current[k] == 0
      {
        if left[i] == right[j] {
          assert previous[..][j] == Run(left, right, i, j);
          current[j + 1] := previous[j] + 1;
          best := Max(best, current[j + 1]);
        }
        assert previous[..][j] == previous[j];
      }
      previous := current;
    }
  }

  // ----- what the number is -----

  predicate SharedAt(left: string, right: string, i: nat, j: nat, n: nat) {
    i + n <= |left| && j + n <= |right| && left[i..i + n] == right[j..j + n]
  }

  // Some block of n characters stands in both strings.
  ghost predicate Shared(left: string, right: string, n: nat) {
    exists i: nat, j: nat :: SharedAt(left, right, i, j, n)
  }

  lemma {:induction false} RunIsShared(left: string, right: string, i: nat, j: nat)
    requires i <= |left| && j <= |right|
    ensures var n := Run(left, right, i, j); n <= i && n <= j && SharedAt(left, right, i - n, j - n, n)
  {
    var n := Run(left, right, i, j);
    if n > 0 {
      RunIsShared(left, right, i - 1, j - 1);
      assert left[i - n..i] == left[i - n..i - 1] + [left[i - 1]];
      assert right[j - n..j] == right[j - n..j - 1] + [right[j - 1]];
    }
  }

  lemma {:induction false} SharedIsInRun(left: string, right: string, i: nat, j: nat, n: nat)
    requires SharedAt(left, right, i, j, n)
    ensures Run(left, right, i + n, j + n) >= n
  {
    if n > 0 {
      assert left[i..i + n][n - 1] == right[j..j + n][n - 1];
      assert left[i..i + n - 1] == left[i..i + n][..n - 1];
      assert right[j..j + n - 1] == right[j..j + n][..n - 1];
      SharedIsInRun(left, right, i, j, n - 1);
    }
  }

  lemma {:induction false} RowBestIs(left: string, right: string, i: nat, j: nat)
    requires i <= |left| && j <= |right|
    ensures forall k | 0 <= k <= j :: Run(left, right, i, k) <= RowBest(left, right, i, j)
    ensures exists k | 0 <= k <= j :: Run(left, right, i, k) == RowBest(left, right, i, j)
  {
    if j == 0 {
      assert Run(left, right, i, 0) == RowBest(left, right, i, 0);
    } else {
      RowBestIs(left, right, i, j - 1);
      var k :| 0 <= k <= j - 1 && Run(left, right, i, k) == RowBest(left, right, i, j - 1);
      var best := if Run(left, right, i, j) >= Run(left, right, i, k) then j else k;
      assert Run(left, right, i, best) == RowBest(left, right, i, j);
    }
  }

  lemma {:induction false} BestCovers(left: string, right: string, i: nat, k: nat, j: nat)
    requires k <= i <= |left| && j <= |right|
    ensures Run(left, right, k, j) <= Best(left, right, i)
    decreases i
  {
    if i > 0 {
      if k < i {
        BestCovers(left, right, i - 1, k, j);
      } else {
        RowBestIs(left, right, i, |right|);
      }
    }
  }

  lemma {:induction false} BestIsShared(left: string, right: string, i: nat)
    requires i <= |left|
    ensures Shared(left, right, Best(left, right, i))
  {
    if i == 0 {
      assert SharedAt(left, right, 0, 0, 0);
    } else {
      BestIsShared(left, right, i - 1);
      RowBestIs(left, right, i, |right|);
      var k :| 0 <= k <= |right| && Run(left, right, i, k) == RowBest(left, right, i, |right|);
      RunIsShared(left, right, i, k);
    }
  }

  // The table finds the greatest length of a block standing in both strings.
  lemma LongestIsLongest(left: string, right: string, n: nat)
    ensures Shared(left, right, Longest(left, right))
    ensures Shared(left, right, n) ==> n <= Longest(left, right)
  {
    BestIsShared(left, right, |left|);
    if Shared(left, right, n) {
      var i: nat, j: nat :| SharedAt(left, right, i, j, n);
      SharedIsInRun(left, right, i, j, n);
      BestCovers(left, right, |left|, i + n, j + n);
    }
  }

  // ----- the partial match -----

  predicate WithinAt(candidate: string, target: string, j: nat) {
    j + |candidate| <= |target| && target[j..j + |candidate|] == candidate
  }

  predicate Within(candidate: string, target: string) {
    exists j: nat | j <= |target| :: WithinAt(candidate, target, j)
  }

  predicate IsPartialBibMatch(candidate: string, target: string) {
    if |target| < 3 || |candidate| < 2 then false
    else if |candidate| > |target| then false
    else if Within(candidate, target) && |candidate| >= Max(2, |target| - 1) then true
    else Longest(candidate, target) >= Max(3, |target| - 1)
  }

  // The match by shared blocks alone.
  predicate SharesEnough(candidate: string, target: string) {
    2 <= |candidate| <= |target| && |target| >= 3 && Longest(candidate, target) >= Max(3, |target| - 1)
  }

  // The shortcut for contained candidates changes the answer exactly for two
  // characters inside a bib of three, so never for bibs of four or more.
  lemma ShortcutMattersOnlyForThree(candidate: string, target: string)
    ensures IsPartialBibMatch(candidate, target) != SharesEnough(candidate, target)
       <==> |target| == 3 && |candidate| == 2 && Within(candidate, target)
  {
    LongestIsLongest(candidate, target, |candidate|);
    WithinIsShared(candidate, target);
    LongestIsShort(candidate, target);
  }

  // A bib of three is matched by what it contains, a longer one by a shared
  // block that misses at most one of its characters.
  lemma MatchIsSharedBlock(candidate: string, target: string)
    ensures IsPartialBibMatch(candidate, target)
       <==> |target| >= 3 && 2 <= |candidate| <= |target|
            && if |target| == 3 then Within(candidate, target) else Shared(candidate, target, |target| - 1)
  {
    if |target| >= 3 && 2 <= |candidate| <= |target| {
      ShortcutMattersOnlyForThree(candidate, target);
      LongestIsLongest(candidate, target, |target| - 1);
      LongestIsLongest(candidate, target, |candidate|);
      WithinIsShared(candidate, target);
      LongestIsShort(candidate, target);
      ShorterIsShared(candidate, target, Longest(candidate, target), |target| - 1);
    }
  }

  lemma WithinIsShared(candidate: string, target: string)
    ensures Within(candidate, target) <==> Shared(candidate, target, |candidate|)
  {
    assert candidate[0..0 + |candidate|] == candidate;
    if j: nat :| j <= |target| && WithinAt(candidate, target, j) {
      assert SharedAt(candidate, target, 0, j, |candidate|);
    }
    if i: nat, j: nat :| SharedAt(candidate, target, i, j, |candidate|) {
      assert WithinAt(candidate, target, j);
    }
  }

  lemma LongestIsShort(left: string, right: string)
    ensures Longest(left, right) <= |left| && Longest(left, right) <= |right|
  {
    LongestIsLongest(left, right, 0);
    var i: nat, j: nat :| SharedAt(left, right, i, j, Longest(left, right));
  }

  lemma ShorterIsShared(left: string, right: string, n: nat, m: nat)
    requires Shared(left, right, n)
    ensures m <= n ==> Shared(left, right, m)
  {
    var i: nat, j: nat :| SharedAt(left, right, i, j, n);
    if m <= n {
      assert left[i..i + m] == left[i..i + n][..m] == right[j..j + n][..m] == right[j..j + m];
      assert SharedAt(left, right, i, j, m);
    }
  }
}
