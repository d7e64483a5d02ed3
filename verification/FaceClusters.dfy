// Seed faces for a bib-only search: greedy clustering and the consensus vote
// (backend/app/face.py).
module FaceClusters {
  import opened Common
  import Cosine

  datatype Face = Face(photo: nat, embedding: Cosine.Vector, width: real, height: real,
                       qualityScore: Option<real>, detectionScore: Option<real>)

  predicate Normalizes(f: Face) {
    Cosine.Usable(f.embedding)
  }

  // The similarity of a face to another one, the cosine of their embeddings.
  type Similarity = (Face, Face) -> real

  function ScoreOr(score: Option<real>, otherwise: real): real {
    if score.Some? && score.value != 0.0 then score.value else otherwise
  }

  function SeedQuality(f: Face): real {
    var quality := ScoreOr(f.qualityScore, ScoreOr(f.detectionScore, 0.0));
    f.width * f.height * (if quality >= 0.25 then quality else 0.25)
  }

  // ----- clustering -----

  function MaxSimilarity(sim: Similarity, f: Face, cluster: seq<Face>): (m: real)
    requires cluster != []
    ensures forall k | 0 <= k < |cluster| :: sim(f, cluster[k]) <= m
    ensures exists k | 0 <= k < |cluster| :: sim(f, cluster[k]) == m
  {
    var last := sim(f, cluster[|cluster| - 1]);
    if |cluster| == 1 then last
    else
      var rest := MaxSimilarity(sim, f, cluster[..|cluster| - 1]);
      assert forall k | 0 <= k < |cluster| - 1 :: cluster[..|cluster| - 1][k] == cluster[k];
      if last > rest then last else rest
  }

  type Clusters = cs: seq<seq<Face>> | forall c | 0 <= c < |cs| :: cs[c] != []

  // The cluster of strictly best positive similarity, the first of equals.
  function BestCluster(sim: Similarity, f: Face, clusters: Clusters): (best: (Option<nat>, real))
    ensures best.0.Some? ==> best.0.value < |clusters|
                             && best.1 == MaxSimilarity(sim, f, clusters[best.0.value]) && best.1 > 0.0
    ensures best.0 == None ==> best.1 == 0.0
    ensures forall c | 0 <= c < |clusters| :: MaxSimilarity(sim, f, clusters[c]) <= best.1
  {
    if clusters == [] then (None, 0.0)
    else
      var last := |clusters| - 1;
      var rest := BestCluster(sim, f, clusters[..last]);
      assert forall c | 0 <= c < last :: clusters[..last][c] == clusters[c];
      var score := MaxSimilarity(sim, f, clusters[last]);
      if score > rest.1 then (Some(last), score) else rest
  }

  function Place(sim: Similarity, threshold: real, f: Face, clusters: Clusters): (r: Clusters)
  {
    var (best, score) := BestCluster(sim, f, clusters);
    if best.Some? && score >= threshold then clusters[best.value := clusters[best.value] + [f]]
    else clusters + [[f]]
  }

  function ClustersOf(sim: Similarity, threshold: real, faces: seq<Face>): Clusters {
    if faces == [] then []
    else
      var rest := ClustersOf(sim, threshold, faces[..|faces| - 1]);
      var f := faces[|faces| - 1];
      if Normalizes(f) then Place(sim, threshold, f, rest) else rest
  }

  method FindBestCluster(sim: Similarity, f: Face, clusters: Clusters) returns (best: Option<nat>, bestScore: real)
    ensures (best, bestScore) == BestCluster(sim, f, clusters)
  {
    best, bestScore := None, 0.0;
    for c := 0 to |clusters|
      invariant (best, bestScore) == BestCluster(sim, f, clusters[..c])
    {
      assert clusters[..c + 1][..c] == clusters[..c];
      var score := MaxSimilarity(sim, f, clusters[c]);
      if score > bestScore {
        best, bestScore := Some(c), score;
      }
    }
    assert clusters[..|clusters|] == clusters;
  }

  method ClusterSeedFaces(sim: Similarity, threshold: real, faces: seq<Face>) returns (clusters: Clusters)
    ensures clusters == ClustersOf(sim, threshold, faces)
  {
    clusters := [];
    for i := 0 to |faces|
      invariant clusters == ClustersOf(sim, threshold, faces[..i])
    {
      assert faces[..i + 1][..i] == faces[..i];
      var f := faces[i];
      if Normalizes(f) {
        var best, bestScore := FindBestCluster(sim, f, clusters);
        if best.Some? && bestScore >= threshold {
          clusters := clusters[best.value := clusters[best.value] + [f]];
        } else {
          clusters := clusters + [[f]];
        }
      }
    }
    assert faces[..|faces|] == faces;
  }

  // ----- what the clusters are -----

  function Usable(faces: seq<Face>): seq<Face> {
    if faces == [] then []
    else
      var rest := Usable(faces[..|faces| - 1]);
      if Normalizes(faces[|faces| - 1]) then rest + [faces[|faces| - 1]] else rest
  }

  function Members(clusters: seq<seq<Face>>): multiset<Face> {
    if clusters == [] then multiset{}
    else Members(clusters[..|clusters| - 1]) + multiset(clusters[|clusters| - 1])
  }

  lemma {:induction false} MembersUpdate(clusters: seq<seq<Face>>, c: nat, f: Face)
    requires c < |clusters|
    ensures Members(clusters[c := clusters[c] + [f]]) == Members(clusters) + multiset{f}
  {
    var last, updated := |clusters| - 1, clusters[c := clusters[c] + [f]];
    if c == last {
      assert updated[..last] == clusters[..last];
    } else {
      MembersUpdate(clusters[..last], c, f);
      assert updated[..last] == clusters[..last][c := clusters[..last][c] + [f]];
    }
  }

  // The clusters hold every usable face exactly as often as it was given.
  lemma {:induction false} ClustersPartition(sim: Similarity, threshold: real, faces: seq<Face>)
    ensures Members(ClustersOf(sim, threshold, faces)) == multiset(Usable(faces))
  {
    if faces != [] {
      var init, f := faces[..|faces| - 1], faces[|faces| - 1];
      ClustersPartition(sim, threshold, init);
      var rest := ClustersOf(sim, threshold, init);
      if Normalizes(f) {
        var (best, score) := BestCluster(sim, f, rest);
        if best.Some? && score >= threshold {
          MembersUpdate(rest, best.value, f);
        } else {
          assert (rest + [[f]])[..|rest|] == rest;
        }
      }
    }
  }

  ghost predicate JoinsEarlier(sim: Similarity, threshold: real, cluster: seq<Face>, k: nat)
    requires k < |cluster|
  {
    exists m | 0 <= m < k :: sim(cluster[k], cluster[m]) >= threshold
  }

  // Each face but the founder reaches the threshold with an earlier member.
  ghost predicate Grown(sim: Similarity, threshold: real, cluster: seq<Face>) {
    forall k | 0 < k < |cluster| :: JoinsEarlier(sim, threshold, cluster, k)
  }

  // A later founder is below the threshold (or not similar at all) to every earlier founder.
  ghost predicate FoundersApart(sim: Similarity, threshold: real, clusters: Clusters) {
    forall c, d | 0 <= c < d < |clusters| ::
      sim(clusters[d][0], clusters[c][0]) < threshold || sim(clusters[d][0], clusters[c][0]) <= 0.0
  }

  lemma GrownAppend(sim: Similarity, threshold: real, cluster: seq<Face>, f: Face)
    requires Grown(sim, threshold, cluster)
    requires exists m | 0 <= m < |cluster| :: sim(f, cluster[m]) >= threshold
    ensures Grown(sim, threshold, cluster + [f])
  {
    var grown := cluster + [f];
    forall k | 0 < k < |grown| ensures JoinsEarlier(sim, threshold, grown, k) {
      if k < |cluster| {
        assert JoinsEarlier(sim, threshold, cluster, k);
        var m :| 0 <= m < k && sim(cluster[k], cluster[m]) >= threshold;
        assert grown[k] == cluster[k] && grown[m] == cluster[m];
      } else {
        var m :| 0 <= m < |cluster| && sim(f, cluster[m]) >= threshold;
        assert grown[k] == f && grown[m] == cluster[m];
      }
    }
  }

  lemma {:induction false} ClustersGrow(sim: Similarity, threshold: real, faces: seq<Face>)
    ensures var clusters := ClustersOf(sim, threshold, faces);
      && (forall c | 0 <= c < |clusters| :: Grown(sim, threshold, clusters[c]))
      && FoundersApart(sim, threshold, clusters)
  {
    if faces != [] {
      var init, f := faces[..|faces| - 1], faces[|faces| - 1];
      ClustersGrow(sim, threshold, init);
      var rest := ClustersOf(sim, threshold, init);
      if Normalizes(f) {
        var (best, score) := BestCluster(sim, f, rest);
        if best.Some? && score >= threshold {
          GrownAppend(sim, threshold, rest[best.value], f);
        }
      }
    }
  }

  // A path of members, consecutive ones similar, from member k to the founder.
  ghost predicate PathToFounder(sim: Similarity, threshold: real, cluster: seq<Face>, k: nat, path: seq<nat>) {
    && path != [] && path[0] == k && path[|path| - 1] == 0
    && (forall i | 0 <= i < |path| :: path[i] < |cluster|)
    && forall i | 0 <= i < |path| - 1 :: sim(cluster[path[i]], cluster[path[i + 1]]) >= threshold
  }

  lemma {:induction false} GrownIsConnected(sim: Similarity, threshold: real, cluster: seq<Face>, k: nat)
    returns (path: seq<nat>)
    requires Grown(sim, threshold, cluster) && k < |cluster|
    ensures PathToFounder(sim, threshold, cluster, k, path)
    decreases k
  {
    if k == 0 {
      path := [0];
    } else {
      assert JoinsEarlier(sim, threshold, cluster, k);
      var m :| 0 <= m < k && sim(cluster[k], cluster[m]) >= threshold;
      var rest := GrownIsConnected(sim, threshold, cluster, m);
      path := [k] + rest;
    }
  }

  // Every cluster is connected in the graph of pairs at or above the threshold.
  lemma ClustersAreConnected(sim: Similarity, threshold: real, faces: seq<Face>, c: nat, k: nat)
    returns (path: seq<nat>)
    requires var clusters := ClustersOf(sim, threshold, faces); c < |clusters| && k < |clusters[c]|
    ensures PathToFounder(sim, threshold, ClustersOf(sim, threshold, faces)[c], k, path)
  {
    ClustersGrow(sim, threshold, faces);
    path := GrownIsConnected(sim, threshold, ClustersOf(sim, threshold, faces)[c], k);
  }

  // Clusters hold only usable faces that were given.
  ghost predicate MadeOf(clusters: Clusters, faces: seq<Face>) {
    forall c, f | 0 <= c < |clusters| && f in clusters[c] :: f in faces && Normalizes(f)
  }

  lemma PlaceIsMadeOf(sim: Similarity, threshold: real, f: Face, clusters: Clusters, faces: seq<Face>)
    requires MadeOf(clusters, faces) && Normalizes(f)
    ensures MadeOf(Place(sim, threshold, f, clusters), faces + [f])
  {
    var (best, score) := BestCluster(sim, f, clusters);
    assert f in faces + [f];
  }

  lemma {:induction false} ClustersAreMadeOf(sim: Similarity, threshold: real, faces: seq<Face>)
    ensures MadeOf(ClustersOf(sim, threshold, faces), faces)
  {
    if faces != [] {
      var init, f := faces[..|faces| - 1], faces[|faces| - 1];
      ClustersAreMadeOf(sim, threshold, init);
      assert faces == init + [f];
      if Normalizes(f) {
        PlaceIsMadeOf(sim, threshold, f, ClustersOf(sim, threshold, init), init);
      }
    }
  }

  ghost predicate FoundersBelow(sim: Similarity, threshold: real, clusters: Clusters) {
    forall c, d | 0 <= c < d < |clusters| :: sim(clusters[d][0], clusters[c][0]) < threshold
  }
}

// The consensus vote over clusters.
module FaceConsensus {
  import opened Common
  import opened FaceClusters

  datatype Settings = Settings(minPhotos: int, majorityRatio: real, leadRatio: real)

  function Ceil(x: real): int {
    -((-x).Floor)
  }

  function PhotoCount(cluster: seq<Face>): nat {
    |set f | f in cluster :: f.photo|
  }

  function TotalQuality(cluster: seq<Face>): real {
    if cluster == [] then 0.0 else SeedQuality(cluster[0]) + TotalQuality(cluster[1..])
  }

  // An eligible cluster with its sort key; `index` is its place in the list.
  datatype Ranked = Ranked(photos: nat, quality: real, index: nat)

  function AverageQuality(cluster: seq<Face>): real {
    if cluster == [] then 0.0 else TotalQuality(cluster) / |cluster| as real
  }

  function Eligible(minPhotos: int, quality: seq<Face> -> real, clusters: Clusters): seq<Ranked> {
    if clusters == [] then []
    else
      var last := |clusters| - 1;
      var rest := Eligible(minPhotos, quality, clusters[..last]);
      var count := PhotoCount(clusters[last]);
      if count < minPhotos then rest else rest + [Ranked(count, quality(clusters[last]), last)]
  }

  predicate Above(x: Ranked, y: Ranked) {
    x.photos > y.photos || (x.photos == y.photos && x.quality > y.quality)
  }

  // A stable sort, best key first.
  function Insert(x: Ranked, s: seq<Ranked>): seq<Ranked> {
    if s == [] then [x] else if Above(x, s[0]) then [x] + s else [s[0]] + Insert(x, s[1..])
  }

  function Sorted(s: seq<Ranked>): seq<Ranked> {
    if s == [] then [] else Insert(s[|s| - 1], Sorted(s[..|s| - 1]))
  }

  // The vote on a sorted list: a majority, and a lead over the second of two
  // photos or of `target` of the second's photos.
  function Vote(majority: int, target: nat -> int, ranked: seq<Ranked>): Option<nat> {
    if ranked == [] then None
    else
      var best := ranked[0].photos;
      if best < majority then None
      else if |ranked| > 1 && best < ranked[1].photos + 2 && best < target(ranked[1].photos) then None
      else Some(ranked[0].index)
  }

  function Scaled(n: nat, ratio: real): int {
    Ceil(n as real * ratio)
  }

  function Target(s: Settings): nat -> int {
    (n: nat) => Scaled(n, s.leadRatio)
  }

  function Majority(s: Settings, support: int): int {
    Max(s.minPhotos, Ceil(support as real * s.majorityRatio))
  }

  function RankedClusters(s: Settings, clusters: Clusters): seq<Ranked> {
    Sorted(Eligible(s.minPhotos, AverageQuality, clusters))
  }

  // The winning cluster, if the vote has one.
  function Winner(s: Settings, clusters: Clusters, support: int): Option<nat> {
    Vote(Majority(s, support), Target(s), RankedClusters(s, clusters))
  }

  // ----- the sort -----

  lemma {:induction false} InsertKeeps(x: Ranked, s: seq<Ranked>)
    ensures multiset(Insert(x, s)) == multiset(s) + multiset{x}
  {
    if s != [] && !Above(x, s[0]) {
      InsertKeeps(x, s[1..]);
      assert s == [s[0]] + s[1..];
    }
  }

  lemma {:induction false} SortedKeeps(s: seq<Ranked>)
    ensures multiset(Sorted(s)) == multiset(s) && |Sorted(s)| == |s|
  {
    if s != [] {
      SortedKeeps(s[..|s| - 1]);
      InsertKeeps(s[|s| - 1], Sorted(s[..|s| - 1]));
      assert s == s[..|s| - 1] + [s[|s| - 1]];
      assert |multiset(Sorted(s))| == |multiset(s)|;
    }
  }

  ghost predicate Descending(s: seq<Ranked>) {
    forall i, j | 0 <= i < j < |s| :: !Above(s[j], s[i])
  }

  lemma {:induction false} InsertDescends(x: Ranked, s: seq<Ranked>)
    requires Descending(s)
    ensures Descending(Insert(x, s))
  {
    if s != [] && !Above(x, s[0]) {
      InsertDescends(x, s[1..]);
      InsertKeeps(x, s[1..]);
      var r := Insert(x, s[1..]);
      forall j | 0 <= j < |r| ensures !Above(r[j], s[0]) {
        assert r[j] in multiset(r);
        if r[j] != x {
          assert r[j] in s[1..];
        }
      }
    }
  }

  lemma {:induction false} SortedDescends(s: seq<Ranked>)
    ensures Descending(Sorted(s))
  {
    if s != [] {
      SortedDescends(s[..|s| - 1]);
      InsertDescends(s[|s| - 1], Sorted(s[..|s| - 1]));
    }
  }

  ghost predicate Distinct(s: seq<Ranked>) {
    forall i, j | 0 <= i < j < |s| :: s[i].index != s[j].index
  }

  lemma {:induction false} InsertIsDistinct(x: Ranked, s: seq<Ranked>)
    requires Distinct(s) && forall i | 0 <= i < |s| :: s[i].index != x.index
    ensures Distinct(Insert(x, s))
  {
    if s != [] && !Above(x, s[0]) {
      InsertIsDistinct(x, s[1..]);
      InsertKeeps(x, s[1..]);
      var r := Insert(x, s[1..]);
      forall j | 0 <= j < |r| ensures r[j].index != s[0].index {
        assert r[j] in multiset(r);
        if r[j] != x {
          assert r[j] in s[1..];
        }
      }
    }
  }

  lemma {:induction false} SortedIsDistinct(s: seq<Ranked>)
    requires Distinct(s)
    ensures Distinct(Sorted(s))
  {
    if s != [] {
      var init, x := s[..|s| - 1], s[|s| - 1];
      SortedIsDistinct(init);
      SortedKeeps(init);
      forall i | 0 <= i < |Sorted(init)| ensures Sorted(init)[i].index != x.index {
        assert Sorted(init)[i] in multiset(Sorted(init));
        assert Sorted(init)[i] in init;
      }
      InsertIsDistinct(x, Sorted(init));
    }
  }

  // ----- eligible clusters -----

  // One entry per listed cluster, with its photo count.
  ghost predicate Listed(min: int, counts: seq<nat>, list: seq<Ranked>) {
    && (forall r | r in list :: r.index < |counts| && r.photos == counts[r.index] && r.photos >= min)
    && (forall c | 0 <= c < |counts| && counts[c] >= min :: exists r :: r in list && r.index == c)
  }

  lemma {:induction false} EligibleAre(min: int, quality: seq<Face> -> real, clusters: Clusters)
    ensures Listed(min, PhotoCounts(clusters), Eligible(min, quality, clusters))
    ensures Distinct(Eligible(min, quality, clusters))
  {
    if clusters != [] {
      var last := |clusters| - 1;
      var init := clusters[..last];
      EligibleAre(min, quality, init);
      var rest := Eligible(min, quality, init);
      assert PhotoCounts(clusters)[..last] == PhotoCounts(init);
      AppendListed(min, PhotoCounts(init), rest, Ranked(PhotoCount(clusters[last]), quality(clusters[last]), last));
      assert PhotoCounts(clusters) == PhotoCounts(init) + [PhotoCount(clusters[last])];
    }
  }

  lemma AppendListed(min: int, counts: seq<nat>, list: seq<Ranked>, r: Ranked)
    requires Listed(min, counts, list) && Distinct(list) && r.index == |counts|
    ensures var all := if r.photos < min then list else list + [r];
      Listed(min, counts + [r.photos], all) && Distinct(all)
  {
    var all, more := if r.photos < min then list else list + [r], counts + [r.photos];
    forall c | 0 <= c < |more| && more[c] >= min ensures exists x :: x in all && x.index == c {
      if c < |counts| {
        assert counts[c] >= min;
        var x :| x in list && x.index == c;
        assert x in all && x.index == c;
      } else {
        assert r in all;
      }
    }
    assert forall i | 0 <= i < |list| :: list[i] in list;
  }

  lemma NonemptyHasPhotos(cluster: seq<Face>)
    requires cluster != []
    ensures PhotoCount(cluster) >= 1
  {
    var photos := set f | f in cluster :: f.photo;
    assert cluster[0] in cluster && cluster[0].photo in photos;
    assert |photos - {cluster[0].photo}| == |photos| - 1;
  }

  function PhotoCounts(clusters: Clusters): (counts: seq<nat>)
    ensures |counts| == |clusters| && forall c | 0 <= c < |counts| :: counts[c] == PhotoCount(clusters[c])
  {
    seq(|clusters|, c requires 0 <= c < |clusters| => PhotoCount(clusters[c]))
  }

  // Listed by photo count, each cluster at most once.
  ghost predicate Ranking(min: int, counts: seq<nat>, ranked: seq<Ranked>) {
    && Listed(min, counts, ranked)
    && (forall i, j | 0 <= i < j < |ranked| :: ranked[i].photos >= ranked[j].photos)
    && Distinct(ranked)
  }

  lemma SameElements(s: seq<Ranked>, t: seq<Ranked>)
    requires multiset(s) == multiset(t)
    ensures forall r :: r in s <==> r in t
  {
    forall r ensures r in s <==> r in t {
      assert r in s <==> r in multiset(s);
      assert r in t <==> r in multiset(t);
    }
  }

  lemma SortedIsListed(min: int, counts: seq<nat>, eligible: seq<Ranked>)
    requires Listed(min, counts, eligible)
    ensures Listed(min, counts, Sorted(eligible))
  {
    SortedKeeps(eligible);
    SameElements(Sorted(eligible), eligible);
    forall c | 0 <= c < |counts| && counts[c] >= min ensures exists r :: r in Sorted(eligible) && r.index == c {
      var r :| r in eligible && r.index == c;
      assert r in Sorted(eligible);
    }
  }

  lemma RankedList(s: Settings, clusters: Clusters)
    ensures Ranking(s.minPhotos, PhotoCounts(clusters), RankedClusters(s, clusters))
  {
    var counts, eligible := PhotoCounts(clusters), Eligible(s.minPhotos, AverageQuality, clusters);
    EligibleAre(s.minPhotos, AverageQuality, clusters);
    SortedIsListed(s.minPhotos, counts, eligible);
    SortedIsDistinct(eligible);
    DescendingByPhotos(eligible);
  }

  lemma DescendingByPhotos(s: seq<Ranked>)
    ensures forall i, j | 0 <= i < j < |Sorted(s)| :: Sorted(s)[i].photos >= Sorted(s)[j].photos
  {
    SortedDescends(s);
    forall i, j | 0 <= i < j < |Sorted(s)| ensures Sorted(s)[i].photos >= Sorted(s)[j].photos {
      assert !Above(Sorted(s)[j], Sorted(s)[i]);
    }
  }

  ghost predicate NoneEmpty(counts: seq<nat>) {
    forall c | 0 <= c < |counts| :: counts[c] >= 1
  }

  lemma NoClusterIsEmpty(clusters: Clusters)
    ensures NoneEmpty(PhotoCounts(clusters))
  {
    forall c | 0 <= c < |clusters| ensures PhotoCounts(clusters)[c] >= 1 {
      NonemptyHasPhotos(clusters[c]);
    }
  }

  // ----- the vote -----

  // What the lead target has to be: monotone, and above the count itself.
  ghost predicate Strict(target: nat -> int) {
    && (forall m: nat, n: nat | m <= n :: target(m) <= target(n))
    && forall n: nat | n >= 1 :: target(n) > n
  }

  predicate LeadsOver(target: nat -> int, best: nat, other: nat) {
    best >= other + 2 || best >= target(other)
  }

  // Cluster w meets every condition of the vote, stated cluster by cluster.
  ghost predicate Leads(min: int, majority: int, target: nat -> int, counts: seq<nat>, w: nat) {
    && w < |counts| && counts[w] >= majority
    && forall c | 0 <= c < |counts| && c != w && counts[c] >= min :: LeadsOver(target, counts[w], counts[c])
  }

  lemma VoteLeads(min: int, majority: int, target: nat -> int, counts: seq<nat>, ranked: seq<Ranked>, w: nat)
    requires Strict(target) && Ranking(min, counts, ranked) && Vote(majority, target, ranked) == Some(w)
    ensures Leads(min, majority, target, counts, w)
  {
    assert ranked[0] in ranked && ranked[0].index == w;
    forall c | 0 <= c < |counts| && c != w && counts[c] >= min ensures LeadsOver(target, counts[w], counts[c]) {
      var r :| r in ranked && r.index == c;
      var i :| 0 <= i < |ranked| && ranked[i] == r;
      assert counts[c] <= ranked[1].photos;
    }
  }

  lemma LeadIsStrict(target: nat -> int, best: nat, other: nat)
    requires Strict(target) && other >= 1 && LeadsOver(target, best, other)
    ensures best > other
  {
  }

  // The place of a leader in the ranking is the first.
  lemma LeaderIsFirst(min: int, target: nat -> int, counts: seq<nat>, ranked: seq<Ranked>, w: nat)
    requires Strict(target) && Ranking(min, counts, ranked) && NoneEmpty(counts)
    requires w < |counts| && counts[w] >= min
    requires forall c | 0 <= c < |counts| && c != w && counts[c] >= min :: LeadsOver(target, counts[w], counts[c])
    ensures ranked != [] && ranked[0].index == w
  {
    var r :| r in ranked && r.index == w;
    var i :| 0 <= i < |ranked| && ranked[i] == r;
    var top := ranked[0];
    assert top in ranked && top.photos >= r.photos;
    if top.index != w {
      LeadIsStrict(target, counts[w], counts[top.index]);
    }
  }

  lemma LeaderWins(min: int, majority: int, target: nat -> int, counts: seq<nat>, ranked: seq<Ranked>, w: nat)
    requires Strict(target) && Ranking(min, counts, ranked) && min <= majority && NoneEmpty(counts)
    requires Leads(min, majority, target, counts, w)
    ensures Vote(majority, target, ranked) == Some(w)
  {
    LeaderIsFirst(min, target, counts, ranked, w);
    assert ranked[0] in ranked;
    if |ranked| > 1 {
      assert ranked[1] in ranked && ranked[1].index != w;
      assert LeadsOver(target, counts[w], counts[ranked[1].index]);
    }
  }

  lemma CeilIsAbove(x: real, n: int)
    requires x > n as real
    ensures Ceil(x) > n
  {
  }

  lemma CeilIsMonotone(x: real, y: real)
    requires x <= y
    ensures Ceil(x) <= Ceil(y)
  {
  }

  lemma MulMonotone(x: real, y: real, r: real)
    requires x <= y && r >= 0.0
    ensures x * r <= y * r
  {
    assert (y - x) * r >= 0.0;
  }

  lemma MulAbove(x: real, r: real)
    requires x > 0.0 && r > 1.0
    ensures x * r > x
  {
    assert x * (r - 1.0) > 0.0;
  }

  lemma ScaledGrows(m: nat, n: nat, ratio: real)
    requires m <= n && ratio >= 0.0
    ensures Scaled(m, ratio) <= Scaled(n, ratio)
  {
    MulMonotone(m as real, n as real, ratio);
    CeilIsMonotone(m as real * ratio, n as real * ratio);
  }

  lemma ScaledIsAbove(n: nat, ratio: real)
    requires n >= 1 && ratio > 1.0
    ensures Scaled(n, ratio) > n
  {
    MulAbove(n as real, ratio);
    CeilIsAbove(n as real * ratio, n);
  }

  lemma ScaledIsLow(n: nat, ratio: real)
    requires ratio <= 1.0
    ensures Scaled(n, ratio) <= n
  {
    MulMonotone(ratio, 1.0, n as real);
    CeilIsMonotone(n as real * ratio, n as real);
  }

  lemma TargetIsStrict(s: Settings)
    requires s.leadRatio > 1.0
    ensures Strict(Target(s))
  {
    forall m: nat, n: nat | m <= n ensures Target(s)(m) <= Target(s)(n) {
      ScaledGrows(m, n, s.leadRatio);
    }
    forall n: nat | n >= 1 ensures Target(s)(n) > n {
      ScaledIsAbove(n, s.leadRatio);
    }
  }

  lemma WinnerIsCluster(s: Settings, clusters: Clusters, support: int)
    ensures Winner(s, clusters, support).Some? ==> Winner(s, clusters, support).value < |clusters|
  {
    RankedList(s, clusters);
    var ranked := RankedClusters(s, clusters);
    assert ranked != [] ==> ranked[0] in ranked;
  }

  // The vote picks cluster w exactly when w has a majority and leads every
  // other eligible cluster.
  lemma WinnerIsLeader(s: Settings, clusters: Clusters, support: int, w: nat)
    requires s.leadRatio > 1.0
    ensures Winner(s, clusters, support) == Some(w)
       <==> Leads(s.minPhotos, Majority(s, support), Target(s), PhotoCounts(clusters), w)
  {
    RankedList(s, clusters);
    NoClusterIsEmpty(clusters);
    TargetIsStrict(s);
    var counts, ranked := PhotoCounts(clusters), RankedClusters(s, clusters);
    if Vote(Majority(s, support), Target(s), ranked) == Some(w) {
      VoteLeads(s.minPhotos, Majority(s, support), Target(s), counts, ranked, w);
    }
    if Leads(s.minPhotos, Majority(s, support), Target(s), counts, w) {
      LeaderWins(s.minPhotos, Majority(s, support), Target(s), counts, ranked, w);
    }
  }

  // With a lead ratio above 1, a winner has strictly more photos than every
  // other cluster, so ties in quality never decide.
  lemma WinnerIsStrict(s: Settings, clusters: Clusters, support: int, w: nat, c: nat)
    requires s.leadRatio > 1.0 && Winner(s, clusters, support) == Some(w)
    requires c < |clusters| && c != w
    ensures w < |clusters| && PhotoCount(clusters[c]) < PhotoCount(clusters[w])
  {
    WinnerIsLeader(s, clusters, support, w);
    NonemptyHasPhotos(clusters[c]);
    TargetIsStrict(s);
    if PhotoCount(clusters[c]) >= s.minPhotos {
      assert LeadsOver(Target(s), PhotoCount(clusters[w]), PhotoCount(clusters[c]));
    }
  }
}
