// Exactly when the seed clusters and the consensus vote keep what they promise,
// over the inputs a bib-only search can form (backend/app/face.py).
module FaceExact {
  import opened Common
  import opened FaceClusters
  import opened FaceConsensus
  import FaceSeeds

  // ----- the inputs of a search -----

  ghost predicate IsCosine(sim: Similarity, f: Face, g: Face) {
    exists m: real, n: real ::
      && Cosine.IsRoot(m, Cosine.Dot(f.embedding, f.embedding))
      && Cosine.IsRoot(n, Cosine.Dot(g.embedding, g.embedding))
      && sim(f, g) == Cosine.Similarity(f.embedding, g.embedding, m, n)
  }

  ghost predicate CosineOn(sim: Similarity, faces: seq<Face>) {
    forall f, g | f in faces && g in faces && Normalizes(f) && Normalizes(g) :: IsCosine(sim, f, g)
  }

  // The similarity the selection uses is the cosine, given the square root.
  lemma SelectionUsesCosine(root: FaceSeeds.Root, faces: seq<Face>)
    ensures FaceSeeds.IsSquareRoot(root) ==> CosineOn(FaceSeeds.FaceCosine(root), faces)
  {
    forall f, g | f in faces && g in faces && FaceSeeds.IsSquareRoot(root)
      ensures IsCosine(FaceSeeds.FaceCosine(root), f, g)
    {
      Cosine.CauchySchwarz(f.embedding, f.embedding);
      Cosine.CauchySchwarz(g.embedding, g.embedding);
      var m, n := FaceSeeds.Length(root, f.embedding), FaceSeeds.Length(root, g.embedding);
      assert Cosine.IsRoot(m, Cosine.Dot(f.embedding, f.embedding));
      assert Cosine.IsRoot(n, Cosine.Dot(g.embedding, g.embedding));
      assert FaceSeeds.FaceCosine(root)(f, g) == Cosine.Similarity(f.embedding, g.embedding, m, n);
    }
  }

  function InPhoto(faces: seq<Face>, photo: nat): nat {
    if faces == [] then 0
    else InPhoto(faces[..|faces| - 1], photo) + (if faces[|faces| - 1].photo == photo then 1 else 0)
  }

  // Usable faces, at most four of a photo, with the number of their photos; at
  // most `limit` photos are looked at.
  ghost predicate Candidates(limit: int, faces: seq<Face>, support: int) {
    && (forall f | f in faces :: Normalizes(f))
    && (forall photo: nat :: InPhoto(faces, photo) <= 4)
    && support == PhotoCount(faces) <= Max(0, limit)
  }

  // ----- what clusters are made of -----

  lemma FewerPhotos(part: seq<Face>, all: seq<Face>)
    requires forall f | f in part :: f in all
    ensures PhotoCount(part) <= PhotoCount(all)
  {
    var some, more := set f | f in part :: f.photo, set f | f in all :: f.photo;
    assert some <= more;
    assert |more - some| == |more| - |some|;
  }

  lemma CosineIsAtMostOne(sim: Similarity, f: Face, g: Face)
    requires IsCosine(sim, f, g)
    ensures sim(f, g) <= 1.0
  {
  }

  // No similarity reaches a threshold above 1, so every face stays alone.
  lemma AloneAboveOne(sim: Similarity, threshold: real, faces: seq<Face>, c: nat)
    requires threshold > 1.0 && CosineOn(sim, faces) && c < |ClustersOf(sim, threshold, faces)|
    ensures |ClustersOf(sim, threshold, faces)[c]| == 1
  {
    var cluster := ClustersOf(sim, threshold, faces)[c];
    ClustersGrow(sim, threshold, faces);
    ClustersAreMadeOf(sim, threshold, faces);
    if |cluster| > 1 {
      assert JoinsEarlier(sim, threshold, cluster, 1);
      assert cluster[0] in cluster && cluster[1] in cluster;
      CosineIsAtMostOne(sim, cluster[1], cluster[0]);
    }
  }

  lemma AloneIsOnePhoto(f: Face)
    ensures PhotoCount([f]) == 1
  {
    assert (set g | g in [f] :: g.photo) == {f.photo};
  }

  // ----- two people in every photo -----

  function Guest(photo: nat, person: nat): Face {
    Face(photo, Cosine.Axis(Cosine.DIMENSION, person), 1.0, 1.0, None, None)
  }

  // The faces as the search collects them, photo by photo.
  function Guests(n: nat): seq<Face> {
    if n == 0 then [] else Guests(n - 1) + [Guest(n - 1, 0), Guest(n - 1, 1)]
  }

  function Group(n: nat, person: nat): (group: seq<Face>)
    ensures |group| == n && forall i | 0 <= i < n :: group[i] == Guest(i, person)
  {
    seq(n, i requires 0 <= i < n => Guest(i, person))
  }

  function Alike(): Similarity {
    (f: Face, g: Face) => if f.embedding == g.embedding then 1.0 else 0.0
  }

  lemma PeopleDiffer(i: nat, j: nat, photo: nat, other: nat)
    requires i < 2 && j < 2
    ensures Normalizes(Guest(photo, i)) && IsCosine(Alike(), Guest(photo, i), Guest(other, j))
    ensures Alike()(Guest(photo, i), Guest(other, j)) == if i == j then 1.0 else 0.0
  {
    Cosine.AxesAreUsable(i, j);
    Cosine.AxesAreUsable(j, i);
    assert Cosine.Axis(Cosine.DIMENSION, i)[i] == 1.0;
  }

  lemma {:induction false} GuestsAre(n: nat, f: Face)
    requires f in Guests(n)
    ensures f.photo < n && (f == Guest(f.photo, 0) || f == Guest(f.photo, 1))
  {
    if f in Guests(n - 1) {
      GuestsAre(n - 1, f);
    }
  }

  lemma {:induction false} TwoInEachPhoto(n: nat, photo: nat)
    ensures InPhoto(Guests(n), photo) == if photo < n then 2 else 0
  {
    if n > 0 {
      TwoInEachPhoto(n - 1, photo);
      var a, b := Guest(n - 1, 0), Guest(n - 1, 1);
      assert Guests(n)[..|Guests(n)| - 1] == Guests(n - 1) + [a];
      assert (Guests(n - 1) + [a])[..|Guests(n - 1)|] == Guests(n - 1);
    }
  }

  ghost function UpTo(n: nat): (r: set<nat>)
    ensures |r| == n && forall i: nat :: i in r <==> i < n
  {
    if n == 0 then {} else UpTo(n - 1) + {n - 1}
  }

  lemma {:induction false} GuestsHold(n: nat, i: nat)
    requires i < n
    ensures Guest(i, 0) in Guests(n) && Guest(i, 1) in Guests(n)
  {
    if i < n - 1 {
      GuestsHold(n - 1, i);
    }
  }

  lemma GuestsCount(n: nat)
    ensures PhotoCount(Guests(n)) == n
  {
    var photos := set f | f in Guests(n) :: f.photo;
    forall i: nat ensures i in photos <==> i < n {
      if i < n {
        GuestsHold(n, i);
        assert Guest(i, 0).photo == i;
      }
      if i in photos {
        var f :| f in Guests(n) && f.photo == i;
        GuestsAre(n, f);
      }
    }
    assert photos == UpTo(n);
  }

  lemma GroupCount(n: nat, person: nat)
    ensures PhotoCount(Group(n, person)) == n
  {
    var photos := set f | f in Group(n, person) :: f.photo;
    forall i: nat ensures i in photos <==> i < n {
      if i < n {
        assert Group(n, person)[i] in Group(n, person) && Group(n, person)[i].photo == i;
      }
    }
    assert photos == UpTo(n);
  }

  // A search can form these faces, and their similarity is the cosine.
  lemma GuestsAreCandidates(n: nat, limit: int)
    requires n <= limit
    ensures Candidates(limit, Guests(n), n) && CosineOn(Alike(), Guests(n))
  {
    GuestsCount(n);
    forall f | f in Guests(n) ensures Normalizes(f) {
      GuestsAre(n, f);
      PeopleDiffer(0, 0, f.photo, f.photo);
      PeopleDiffer(1, 1, f.photo, f.photo);
    }
    forall photo: nat ensures InPhoto(Guests(n), photo) <= 4 {
      TwoInEachPhoto(n, photo);
    }
    forall f, g | f in Guests(n) && g in Guests(n) ensures IsCosine(Alike(), f, g) {
      GuestsAre(n, f);
      GuestsAre(n, g);
      PeopleDiffer(0, 0, f.photo, g.photo);
      PeopleDiffer(0, 1, f.photo, g.photo);
      PeopleDiffer(1, 0, f.photo, g.photo);
      PeopleDiffer(1, 1, f.photo, g.photo);
    }
  }

  lemma GroupSimilarity(photo: nat, person: nat, n: nat, other: nat)
    requires n >= 1 && person < 2 && other < 2
    ensures MaxSimilarity(Alike(), Guest(photo, person), Group(n, other)) == if person == other then 1.0 else 0.0
  {
    var m := MaxSimilarity(Alike(), Guest(photo, person), Group(n, other));
    var k :| 0 <= k < n && Alike()(Guest(photo, person), Group(n, other)[k]) == m;
    PeopleDiffer(person, other, photo, k);
  }

  lemma PlaceAlone(sim: Similarity, threshold: real, f: Face, a: seq<Face>)
    requires a != [] && MaxSimilarity(sim, f, a) <= 0.0
    ensures Place(sim, threshold, f, [a]) == [a, [f]]
  {
    assert [a][..0] == [];
    assert BestCluster(sim, f, [a]) == (None, 0.0);
  }

  lemma BestOfTwo(sim: Similarity, f: Face, a: seq<Face>, b: seq<Face>)
    requires a != [] && b != []
    requires MaxSimilarity(sim, f, a) == 0.0 && MaxSimilarity(sim, f, b) == 1.0
    ensures BestCluster(sim, f, [a, b]) == (Some(1), 1.0) && BestCluster(sim, f, [b, a]) == (Some(0), 1.0)
  {
    assert [a][..0] == [] && [b][..0] == [];
    assert BestCluster(sim, f, [a]) == (None, 0.0) && BestCluster(sim, f, [b]) == (Some(0), 1.0);
    assert [a, b][..1] == [a] && [b, a][..1] == [b];
  }

  // A face joins the one of two clusters that it is alike.
  lemma PlaceAlike(sim: Similarity, threshold: real, f: Face, a: seq<Face>, b: seq<Face>)
    requires a != [] && b != [] && threshold <= 1.0
    requires MaxSimilarity(sim, f, a) == 0.0 && MaxSimilarity(sim, f, b) == 1.0
    ensures Place(sim, threshold, f, [a, b]) == [a, b + [f]] && Place(sim, threshold, f, [b, a]) == [b + [f], a]
  {
    BestOfTwo(sim, f, a, b);
    assert [a, b][1 := b + [f]] == [a, b + [f]] && [b, a][0 := b + [f]] == [b + [f], a];
  }

  lemma ClustersAppend(sim: Similarity, threshold: real, faces: seq<Face>, f: Face)
    requires Normalizes(f)
    ensures ClustersOf(sim, threshold, faces + [f]) == Place(sim, threshold, f, ClustersOf(sim, threshold, faces))
  {
    assert (faces + [f])[..|faces|] == faces;
  }

  // Two strangers found two clusters.
  lemma TwoFounders(sim: Similarity, threshold: real, a: Face, b: Face)
    requires Normalizes(a) && Normalizes(b) && MaxSimilarity(sim, b, [a]) <= 0.0
    ensures ClustersOf(sim, threshold, [a, b]) == [[a], [b]]
  {
    assert [] + [a] == [a] && [a] + [b] == [a, b];
    ClustersAppend(sim, threshold, [], a);
    assert ClustersOf(sim, threshold, [a]) == [[a]];
    ClustersAppend(sim, threshold, [a], b);
    PlaceAlone(sim, threshold, b, [a]);
  }

  // Two more faces, each alike one of two clusters.
  lemma TwoJoin(sim: Similarity, threshold: real, faces: seq<Face>, a: Face, b: Face, x: seq<Face>, y: seq<Face>)
    requires Normalizes(a) && Normalizes(b) && threshold <= 1.0 && x != [] && y != []
    requires ClustersOf(sim, threshold, faces) == [x, y]
    requires MaxSimilarity(sim, a, x) == 1.0 && MaxSimilarity(sim, a, y) == 0.0
    requires MaxSimilarity(sim, b, x + [a]) == 0.0 && MaxSimilarity(sim, b, y) == 1.0
    ensures ClustersOf(sim, threshold, faces + [a] + [b]) == [x + [a], y + [b]]
  {
    ClustersAppend(sim, threshold, faces, a);
    PlaceAlike(sim, threshold, a, y, x);
    ClustersAppend(sim, threshold, faces + [a], b);
    PlaceAlike(sim, threshold, b, x + [a], y);
  }

  lemma GroupGrows(n: nat, person: nat)
    ensures Group(n, person) + [Guest(n, person)] == Group(n + 1, person)
  {
  }

  predicate TwoGroups(threshold: real, n: nat) {
    ClustersOf(Alike(), threshold, Guests(n)) == [Group(n, 0), Group(n, 1)]
  }

  lemma FirstGuests(threshold: real)
    ensures TwoGroups(threshold, 1)
  {
    var a, b := Guest(0, 0), Guest(0, 1);
    PeopleDiffer(0, 0, 0, 0);
    PeopleDiffer(1, 1, 0, 0);
    GroupSimilarity(0, 1, 1, 0);
    assert [a] == Group(1, 0) && [b] == Group(1, 1);
    TwoFounders(Alike(), threshold, a, b);
    assert Guests(1) == [a, b];
  }

  lemma GuestsGrow(n: nat)
    ensures Guests(n + 1) == Guests(n) + [Guest(n, 0)] + [Guest(n, 1)]
  {
  }

  // A person resembles the group of that person and not at all the other one.
  lemma GuestFits(n: nat)
    requires n >= 1
    ensures var a, b, x, y := Guest(n, 0), Guest(n, 1), Group(n, 0), Group(n, 1);
      && Normalizes(a) && Normalizes(b)
      && MaxSimilarity(Alike(), a, x) == 1.0 && MaxSimilarity(Alike(), a, y) == 0.0
      && MaxSimilarity(Alike(), b, x + [a]) == 0.0 && MaxSimilarity(Alike(), b, y) == 1.0
  {
    PeopleDiffer(0, 0, n, n);
    PeopleDiffer(1, 1, n, n);
    GroupGrows(n, 0);
    GroupSimilarity(n, 0, n, 0);
    GroupSimilarity(n, 0, n, 1);
    GroupSimilarity(n, 1, n + 1, 0);
    GroupSimilarity(n, 1, n, 1);
  }

  lemma PairOf(x: seq<Face>, y: seq<Face>, z: seq<Face>, w: seq<Face>)
    requires x == z && y == w
    ensures [x, y] == [z, w]
  {
  }

  // Each further photo adds one face to both clusters.
  lemma NextGuests(threshold: real, n: nat)
    requires n >= 1 && threshold <= 1.0 && TwoGroups(threshold, n)
    ensures TwoGroups(threshold, n + 1)
  {
    var a, b, x, y := Guest(n, 0), Guest(n, 1), Group(n, 0), Group(n, 1);
    GuestFits(n);
    calc {
      ClustersOf(Alike(), threshold, Guests(n + 1));
      { GuestsGrow(n); }
      ClustersOf(Alike(), threshold, Guests(n) + [a] + [b]);
      { TwoJoin(Alike(), threshold, Guests(n), a, b, x, y); }
      [x + [a], y + [b]];
      {
        GroupGrows(n, 0);
        GroupGrows(n, 1);
        PairOf(x + [a], y + [b], Group(n + 1, 0), Group(n + 1, 1));
      }
      [Group(n + 1, 0), Group(n + 1, 1)];
    }
  }

  lemma {:induction false} FromOne(holds: nat -> bool, n: nat)
    requires n >= 1 && holds(1) && forall k: nat | 1 <= k < n :: holds(k) ==> holds(k + 1)
    ensures holds(n)
  {
    if n > 1 {
      FromOne(holds, n - 1);
    }
  }

  lemma GuestsCluster(threshold: real, n: nat)
    requires n >= 1 && (threshold <= 1.0 || n == 1)
    ensures TwoGroups(threshold, n)
  {
    var holds := (k: nat) => TwoGroups(threshold, k);
    FirstGuests(threshold);
    forall k: nat | 1 <= k < n && holds(k) ensures holds(k + 1) {
      NextGuests(threshold, k);
    }
    FromOne(holds, n);
  }

  // ----- founders -----

  // On the faces a search can form, founders are pairwise below the threshold
  // exactly when the threshold is positive.
  lemma FoundersBelowExactly(threshold: real)
    ensures threshold > 0.0 <==>
              forall sim: Similarity, faces: seq<Face> ::
                CosineOn(sim, faces) ==> FoundersBelow(sim, threshold, ClustersOf(sim, threshold, faces))
  {
    if threshold > 0.0 {
      forall sim: Similarity, faces: seq<Face> | CosineOn(sim, faces)
        ensures FoundersBelow(sim, threshold, ClustersOf(sim, threshold, faces))
      {
        ClustersGrow(sim, threshold, faces);
      }
    } else {
      StrangersFoundClusters(threshold);
      GuestsAreCandidates(1, 1);
    }
  }

  // Two strangers in one photo found two clusters, at similarity zero.
  lemma StrangersFoundClusters(threshold: real)
    requires threshold <= 0.0
    ensures !FoundersBelow(Alike(), threshold, ClustersOf(Alike(), threshold, Guests(1)))
  {
    FirstGuests(threshold);
    var clusters := ClustersOf(Alike(), threshold, Guests(1));
    assert clusters[0][0] == Guest(0, 0) && clusters[1][0] == Guest(0, 1);
    PeopleDiffer(1, 0, 0, 0);
  }

  // ----- the vote -----

  // Some setting rules a tie out: a lead or a majority above everything, too few
  // photos to be eligible, or faces that never share a cluster.
  predicate RulesOutTies(s: Settings, threshold: real, limit: int) {
    || s.leadRatio > 1.0
    || s.majorityRatio > 1.0
    || limit < Max(1, s.minPhotos)
    || (threshold > 1.0 && s.minPhotos > 1)
  }

  // A winner has strictly more photos than every other cluster.
  ghost predicate StrictAt(s: Settings, clusters: Clusters, support: int) {
    forall w: nat, c: nat ::
      Winner(s, clusters, support) == Some(w) && w < |clusters| && c < |clusters| && c != w
      ==> PhotoCount(clusters[c]) < PhotoCount(clusters[w])
  }

  lemma WinnerHasMajority(s: Settings, clusters: Clusters, support: int, w: nat)
    requires Winner(s, clusters, support) == Some(w)
    ensures w < |clusters| && PhotoCount(clusters[w]) >= Majority(s, support)
    ensures PhotoCount(clusters[w]) >= s.minPhotos && PhotoCount(clusters[w]) >= 1
  {
    RankedList(s, clusters);
    var ranked := RankedClusters(s, clusters);
    assert ranked[0] in ranked;
    NonemptyHasPhotos(clusters[w]);
  }

  lemma MajorityAbove(s: Settings, support: nat)
    requires support >= 1 && s.majorityRatio > 1.0
    ensures Majority(s, support) > support
  {
    ScaledIsAbove(support, s.majorityRatio);
  }

  lemma MajorityWithin(s: Settings, n: nat)
    requires n >= s.minPhotos && s.majorityRatio <= 1.0
    ensures s.minPhotos <= Majority(s, n) <= n
  {
    ScaledIsLow(n, s.majorityRatio);
  }

  lemma WinnerIsSupported(s: Settings, threshold: real, sim: Similarity, faces: seq<Face>, support: int, w: nat)
    requires Winner(s, ClustersOf(sim, threshold, faces), support) == Some(w) && support == PhotoCount(faces)
    ensures support >= 1 && support >= s.minPhotos && support >= Majority(s, support)
    ensures w < |ClustersOf(sim, threshold, faces)|
    ensures s.minPhotos <= PhotoCount(ClustersOf(sim, threshold, faces)[w])
  {
    var clusters := ClustersOf(sim, threshold, faces);
    WinnerHasMajority(s, clusters, support, w);
    ClustersAreMadeOf(sim, threshold, faces);
    FewerPhotos(clusters[w], faces);
  }

  lemma AloneHasOnePhoto(sim: Similarity, threshold: real, faces: seq<Face>, c: nat)
    requires threshold > 1.0 && CosineOn(sim, faces) && c < |ClustersOf(sim, threshold, faces)|
    ensures PhotoCount(ClustersOf(sim, threshold, faces)[c]) == 1
  {
    var cluster := ClustersOf(sim, threshold, faces)[c];
    AloneAboveOne(sim, threshold, faces, c);
    AloneIsOnePhoto(cluster[0]);
    assert cluster == [cluster[0]];
  }

  // Without a lead above 1, the other settings leave no winner at all.
  lemma NoWinner(s: Settings, threshold: real, limit: int, sim: Similarity, faces: seq<Face>, support: int, w: nat)
    requires RulesOutTies(s, threshold, limit) && s.leadRatio <= 1.0
    requires CosineOn(sim, faces) && Candidates(limit, faces, support)
    ensures Winner(s, ClustersOf(sim, threshold, faces), support) != Some(w)
  {
    if Winner(s, ClustersOf(sim, threshold, faces), support) == Some(w) {
      WinnerIsSupported(s, threshold, sim, faces, support, w);
      if s.majorityRatio > 1.0 {
        MajorityAbove(s, support);
      } else if limit >= Max(1, s.minPhotos) {
        AloneHasOnePhoto(sim, threshold, faces, w);
      }
    }
  }

  lemma TieAnswers(s: Settings, clusters: Clusters, n: nat)
    requires PhotoCounts(clusters) == [n, n] && n >= s.minPhotos && s.majorityRatio <= 1.0 && s.leadRatio <= 1.0
    ensures Winner(s, clusters, n) == Some(0) || Winner(s, clusters, n) == Some(1)
  {
    ScaledIsLow(n, s.leadRatio);
    MajorityWithin(s, n);
    RankedList(s, clusters);
    var w := VoteOnTie(s.minPhotos, Majority(s, n), Target(s), n, RankedClusters(s, clusters));
  }

  // When no setting rules ties out, two people in each of n photos tie, and the
  // vote still answers.
  lemma TieWithLowRatio(s: Settings, threshold: real, limit: int, n: nat)
    requires !RulesOutTies(s, threshold, limit) && n == Max(1, s.minPhotos)
    ensures CosineOn(Alike(), Guests(n)) && Candidates(limit, Guests(n), n)
    ensures var clusters := ClustersOf(Alike(), threshold, Guests(n));
      && |clusters| == 2 && PhotoCount(clusters[0]) == PhotoCount(clusters[1]) == n
      && (Winner(s, clusters, n) == Some(0) || Winner(s, clusters, n) == Some(1))
  {
    GuestsAreCandidates(n, limit);
    GuestsCluster(threshold, n);
    GroupCount(n, 0);
    GroupCount(n, 1);
    assert PhotoCounts([Group(n, 0), Group(n, 1)]) == [n, n];
    TieAnswers(s, [Group(n, 0), Group(n, 1)], n);
  }

  lemma VoteOnTie(min: int, majority: int, target: nat -> int, n: nat, ranked: seq<Ranked>) returns (w: nat)
    requires Ranking(min, [n, n], ranked) && n >= majority >= min && target(n) <= n
    ensures w < 2 && Vote(majority, target, ranked) == Some(w)
  {
    assert [n, n][0] == n && [n, n][1] == n;
    assert exists r :: r in ranked && r.index == 0;
    assert forall i | 0 <= i < |ranked| :: ranked[i] in ranked;
    w := ranked[0].index;
  }

  // Over all inputs a search can form, winners are strict if and only if the
  // lead ratio is above 1 or another setting leaves no winner.
  lemma StrictExactlyWithLeadRatio(s: Settings, threshold: real, limit: int)
    ensures RulesOutTies(s, threshold, limit) <==>
              forall sim: Similarity, faces: seq<Face>, support: int ::
                CosineOn(sim, faces) && Candidates(limit, faces, support)
                ==> StrictAt(s, ClustersOf(sim, threshold, faces), support)
  {
    if RulesOutTies(s, threshold, limit) {
      forall sim: Similarity, faces: seq<Face>, support: int | CosineOn(sim, faces) && Candidates(limit, faces, support)
        ensures StrictAt(s, ClustersOf(sim, threshold, faces), support)
      {
        StrictWhenRuledOut(s, threshold, limit, sim, faces, support);
      }
    } else {
      var n := Max(1, s.minPhotos);
      TieWithLowRatio(s, threshold, limit, n);
      assert !StrictAt(s, ClustersOf(Alike(), threshold, Guests(n)), n);
    }
  }

  lemma StrictWhenRuledOut(s: Settings, threshold: real, limit: int, sim: Similarity, faces: seq<Face>, support: int)
    requires RulesOutTies(s, threshold, limit) && CosineOn(sim, faces) && Candidates(limit, faces, support)
    ensures StrictAt(s, ClustersOf(sim, threshold, faces), support)
  {
    var clusters := ClustersOf(sim, threshold, faces);
    forall w: nat, c: nat | Winner(s, clusters, support) == Some(w) && w < |clusters| && c < |clusters| && c != w
      ensures PhotoCount(clusters[c]) < PhotoCount(clusters[w])
    {
      if s.leadRatio > 1.0 {
        WinnerIsStrict(s, clusters, support, w, c);
      } else {
        NoWinner(s, threshold, limit, sim, faces, support, w);
      }
    }
  }
}
