// Exactly which cluster wins the consensus vote, with any settings
// (backend/app/face.py).
module FaceVote {
  import opened Common
  import opened FaceClusters
  import opened FaceConsensus

  // ----- quality -----

  // The area of a face, times its quality score, else its detection score, never
  // less than a quarter.
  lemma SeedQualityIs(f: Face)
    ensures f.qualityScore.Some? && f.qualityScore.value >= 0.25 ==>
              SeedQuality(f) == f.width * f.height * f.qualityScore.value
    ensures f.qualityScore.Some? && f.qualityScore.value != 0.0 && f.qualityScore.value < 0.25 ==>
              SeedQuality(f) == f.width * f.height * 0.25
    ensures (f.qualityScore == None || f.qualityScore.value == 0.0) ==>
              SeedQuality(f) == SeedQuality(f.(qualityScore := f.detectionScore))
    ensures (f.qualityScore == None || f.qualityScore.value == 0.0)
            && (f.detectionScore == None || f.detectionScore.value < 0.25) ==>
              SeedQuality(f) == f.width * f.height * 0.25
  {
  }

  lemma {:induction false} QualityAdds(s: seq<Face>, t: seq<Face>)
    ensures TotalQuality(s + t) == TotalQuality(s) + TotalQuality(t)
  {
    if s == [] {
      assert s + t == t;
    } else {
      assert (s + t)[1..] == s[1..] + t;
      QualityAdds(s[1..], t);
    }
  }

  lemma QualityOfOne(f: Face)
    ensures TotalQuality([f]) == SeedQuality(f)
  {
    assert [f][1..] == [];
  }

  // The average quality of a cluster, times its size, is the total over its faces.
  lemma AverageIsShare(cluster: seq<Face>, total: real)
    requires total == TotalQuality(cluster)
    ensures AverageQuality(cluster) * |cluster| as real == total
  {
    if cluster != [] {
      DivideBack(AverageQuality(cluster), total, |cluster| as real);
    }
  }

  lemma DivideBack(q: real, x: real, n: real)
    requires n > 0.0 && q == x / n
    ensures q * n == x
  {
  }

  // ----- the order of the clusters -----

  // By photos, then by average quality, then by place in the list.
  predicate Ahead(x: Ranked, y: Ranked) {
    x.photos > y.photos
    || (x.photos == y.photos && (x.quality > y.quality || (x.quality == y.quality && x.index < y.index)))
  }

  ghost predicate InOrder(s: seq<Ranked>) {
    forall i, j | 0 <= i < j < |s| :: Ahead(s[i], s[j])
  }

  lemma {:induction false} InsertInOrder(x: Ranked, s: seq<Ranked>)
    requires InOrder(s) && forall r | r in s :: r.index < x.index
    ensures InOrder(Insert(x, s))
  {
    if s != [] && !Above(x, s[0]) {
      InsertInOrder(x, s[1..]);
      InsertKeeps(x, s[1..]);
      var rest := Insert(x, s[1..]);
      forall j | 0 <= j < |rest| ensures Ahead(s[0], rest[j]) {
        assert rest[j] in multiset(rest);
        assert rest[j] == x || rest[j] in s[1..];
      }
    }
  }

  ghost predicate Climbs(s: seq<Ranked>) {
    forall i, j | 0 <= i < j < |s| :: s[i].index < s[j].index
  }

  lemma {:induction false} SortedInOrder(s: seq<Ranked>)
    requires Climbs(s)
    ensures InOrder(Sorted(s))
  {
    if s != [] {
      var init, x := s[..|s| - 1], s[|s| - 1];
      SortedInOrder(init);
      SortedKeeps(init);
      SameElements(Sorted(init), init);
      InsertInOrder(x, Sorted(init));
    }
  }

  // The entries of all clusters, eligible or not.
  function EntriesOf(quality: seq<Face> -> real, clusters: Clusters): (all: seq<Ranked>)
    ensures |all| == |clusters|
    ensures forall c | 0 <= c < |all| :: all[c] == Ranked(PhotoCount(clusters[c]), quality(clusters[c]), c)
  {
    seq(|clusters|, c requires 0 <= c < |clusters| => Ranked(PhotoCount(clusters[c]), quality(clusters[c]), c))
  }

  ghost predicate Numbered(all: seq<Ranked>) {
    forall c | 0 <= c < |all| :: all[c].index == c
  }

  predicate IsEntry(min: int, all: seq<Ranked>, r: Ranked) {
    r.index < |all| && r == all[r.index] && r.photos >= min
  }

  predicate IsListed(min: int, all: seq<Ranked>, list: seq<Ranked>, c: nat) {
    c < |all| && all[c].photos >= min ==> all[c] in list
  }

  // The list holds the eligible entries and no others.
  ghost predicate AreEligible(min: int, all: seq<Ranked>, list: seq<Ranked>) {
    (forall r | r in list :: IsEntry(min, all, r)) && (forall c: nat :: IsListed(min, all, list, c))
  }

  lemma EligibleNext(min: int, all: seq<Ranked>, list: seq<Ranked>, r: Ranked)
    requires AreEligible(min, all, list) && Climbs(list) && r.index == |all|
    ensures var more := if r.photos < min then list else list + [r]; AreEligible(min, all + [r], more) && Climbs(more)
  {
    var more := if r.photos < min then list else list + [r];
    forall x | x in more ensures IsEntry(min, all + [r], x) {
      assert x in list ==> IsEntry(min, all, x);
    }
    forall c: nat ensures IsListed(min, all + [r], more, c) {
      assert IsListed(min, all, list, c);
    }
    forall i | 0 <= i < |list| ensures list[i].index < r.index {
      assert IsEntry(min, all, list[i]);
    }
  }

  lemma {:induction false} EligibleEntries(min: int, quality: seq<Face> -> real, clusters: Clusters)
    ensures var list := Eligible(min, quality, clusters);
      AreEligible(min, EntriesOf(quality, clusters), list) && Climbs(list)
  {
    if clusters != [] {
      var last := |clusters| - 1;
      var init, all := EntriesOf(quality, clusters[..last]), EntriesOf(quality, clusters);
      EligibleEntries(min, quality, clusters[..last]);
      EligibleNext(min, init, Eligible(min, quality, clusters[..last]), all[last]);
      assert all == init + [all[last]];
    }
  }

  lemma RankedEntries(s: Settings, clusters: Clusters)
    ensures var ranked := RankedClusters(s, clusters);
      AreEligible(s.minPhotos, EntriesOf(AverageQuality, clusters), ranked) && InOrder(ranked)
  {
    var eligible := Eligible(s.minPhotos, AverageQuality, clusters);
    EligibleEntries(s.minPhotos, AverageQuality, clusters);
    SortedInOrder(eligible);
    SortedKeeps(eligible);
    SameElements(Sorted(eligible), eligible);
    assert forall c: nat :: IsListed(s.minPhotos, EntriesOf(AverageQuality, clusters), eligible, c)
                       ==> IsListed(s.minPhotos, EntriesOf(AverageQuality, clusters), Sorted(eligible), c);
  }

  // ----- the vote -----

  // The least whole number that is not below x.
  predicate IsCeiling(n: int, x: real) {
    x <= n as real < x + 1.0
  }

  // The majority is the larger of the two minimums, and the lead over n photos
  // is the least number of photos that is `leadRatio` times as many.
  lemma VoteTargets(s: Settings, support: int, n: nat)
    ensures var majority, share := Majority(s, support), support as real * s.majorityRatio;
      majority >= s.minPhotos && majority as real >= share && (majority == s.minPhotos || IsCeiling(majority, share))
    ensures IsCeiling(Target(s)(n), n as real * s.leadRatio)
  {
    CeilingIs(support as real * s.majorityRatio);
    CeilingIs(n as real * s.leadRatio);
  }

  lemma CeilingIs(x: real)
    ensures IsCeiling(Ceil(x), x)
  {
  }

  // Entry w is eligible and ahead of every other eligible one.
  ghost predicate IsBest(min: int, all: seq<Ranked>, w: nat) {
    && w < |all| && all[w].photos >= min
    && forall c | 0 <= c < |all| && c != w && all[c].photos >= min :: Ahead(all[w], all[c])
  }

  // Entry c is eligible, and has the most photos of those that are not w.
  ghost predicate IsRunnerUp(min: int, all: seq<Ranked>, w: nat, c: nat) {
    && c < |all| && c != w && all[c].photos >= min
    && forall d | 0 <= d < |all| && d != w && all[d].photos >= min :: all[d].photos <= all[c].photos
  }

  lemma FirstIsBest(min: int, all: seq<Ranked>, ranked: seq<Ranked>, w: nat)
    requires AreEligible(min, all, ranked) && InOrder(ranked) && Numbered(all)
    ensures ranked != [] && ranked[0].index == w <==> IsBest(min, all, w)
  {
    if ranked != [] && ranked[0].index == w {
      assert IsEntry(min, all, ranked[0]);
      forall c | 0 <= c < |all| && c != w && all[c].photos >= min ensures Ahead(all[w], all[c]) {
        assert IsListed(min, all, ranked, c);
        var i :| 0 <= i < |ranked| && ranked[i] == all[c];
      }
    }
    if IsBest(min, all, w) {
      assert IsListed(min, all, ranked, w) && IsEntry(min, all, ranked[0]);
      var i :| 0 <= i < |ranked| && ranked[i] == all[w];
      assert i > 0 ==> Ahead(ranked[0], ranked[i]);
    }
  }

  lemma SecondIsRunnerUp(min: int, all: seq<Ranked>, ranked: seq<Ranked>, w: nat, c: nat)
    requires AreEligible(min, all, ranked) && InOrder(ranked) && Numbered(all) && ranked != [] && ranked[0].index == w
    requires IsRunnerUp(min, all, w, c)
    ensures |ranked| > 1 && ranked[1].photos == all[c].photos
  {
    assert IsEntry(min, all, ranked[0]) && IsListed(min, all, ranked, c);
    var i :| 0 <= i < |ranked| && ranked[i] == all[c];
    assert IsEntry(min, all, ranked[1]);
    assert Ahead(ranked[0], ranked[1]);
    assert i > 1 ==> Ahead(ranked[1], ranked[i]);
  }

  lemma SecondExists(min: int, all: seq<Ranked>, ranked: seq<Ranked>, w: nat)
    requires AreEligible(min, all, ranked) && InOrder(ranked) && Numbered(all) && |ranked| > 1 && ranked[0].index == w
    ensures IsRunnerUp(min, all, w, ranked[1].index)
  {
    assert IsEntry(min, all, ranked[0]) && IsEntry(min, all, ranked[1]) && Ahead(ranked[0], ranked[1]);
    forall d | 0 <= d < |all| && d != w && all[d].photos >= min ensures all[d].photos <= ranked[1].photos {
      assert IsListed(min, all, ranked, d);
      var i :| 0 <= i < |ranked| && ranked[i] == all[d];
      assert i > 1 ==> Ahead(ranked[1], ranked[i]);
    }
  }

  // What the vote asks of a winner.
  ghost predicate Wins(min: int, majority: int, target: nat -> int, all: seq<Ranked>, w: nat) {
    && IsBest(min, all, w) && all[w].photos >= majority
    && forall c: nat | IsRunnerUp(min, all, w, c) :: LeadsOver(target, all[w].photos, all[c].photos)
  }

  lemma VoteExactly(min: int, majority: int, target: nat -> int, all: seq<Ranked>, ranked: seq<Ranked>, w: nat)
    requires AreEligible(min, all, ranked) && InOrder(ranked) && Numbered(all)
    ensures Vote(majority, target, ranked) == Some(w) <==> Wins(min, majority, target, all, w)
  {
    FirstIsBest(min, all, ranked, w);
    if ranked != [] && ranked[0].index == w {
      assert IsEntry(min, all, ranked[0]);
      forall c: nat | IsRunnerUp(min, all, w, c) ensures |ranked| > 1 && ranked[1].photos == all[c].photos {
        SecondIsRunnerUp(min, all, ranked, w, c);
      }
      if |ranked| > 1 {
        SecondExists(min, all, ranked, w);
        assert IsEntry(min, all, ranked[1]);
      }
    }
  }

  // A cluster wins exactly when it is ahead of all other eligible clusters, has a
  // majority, and leads the one with the next most photos; with any settings.
  lemma WinnerExactly(s: Settings, clusters: Clusters, support: int, w: nat)
    ensures Winner(s, clusters, support) == Some(w)
       <==> Wins(s.minPhotos, Majority(s, support), Target(s), EntriesOf(AverageQuality, clusters), w)
  {
    RankedEntries(s, clusters);
    VoteExactly(s.minPhotos, Majority(s, support), Target(s), EntriesOf(AverageQuality, clusters),
                RankedClusters(s, clusters), w);
  }
}
