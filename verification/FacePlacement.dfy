// Where the clustering puts each face, told by similarities alone
// (backend/app/face.py).
module FacePlacement {
  import opened FaceClusters

  // Similar enough to belong together.
  predicate Reaches(sim: Similarity, threshold: real, f: Face, g: Face) {
    sim(f, g) > 0.0 && sim(f, g) >= threshold
  }

  // Member k of cluster c is at least as similar to f as every face of every
  // cluster, and more similar than every face of the clusters before.
  ghost predicate MostSimilar(sim: Similarity, f: Face, clusters: Clusters, c: nat, k: nat) {
    && c < |clusters| && k < |clusters[c]|
    && forall d, m | 0 <= d < |clusters| && 0 <= m < |clusters[d]| ::
         if d < c then sim(f, clusters[d][m]) < sim(f, clusters[c][k])
         else sim(f, clusters[d][m]) <= sim(f, clusters[c][k])
  }

  // f joins the first cluster of a most similar face, and nothing else changes.
  ghost predicate Joins(sim: Similarity, f: Face, before: Clusters, after: Clusters) {
    exists c: nat, k: nat :: MostSimilar(sim, f, before, c, k) && after == before[c := before[c] + [f]]
  }

  lemma {:induction false} BestIsFirst(sim: Similarity, f: Face, clusters: Clusters, c: nat)
    requires BestCluster(sim, f, clusters).0.Some? && c < BestCluster(sim, f, clusters).0.value
    ensures MaxSimilarity(sim, f, clusters[c]) < BestCluster(sim, f, clusters).1
  {
    var last := |clusters| - 1;
    var rest := BestCluster(sim, f, clusters[..last]);
    assert clusters[..last][c] == clusters[c];
    if MaxSimilarity(sim, f, clusters[last]) <= rest.1 {
      BestIsFirst(sim, f, clusters[..last], c);
    }
  }

  lemma BestIsMostSimilar(sim: Similarity, f: Face, clusters: Clusters) returns (k: nat)
    requires BestCluster(sim, f, clusters).0.Some?
    ensures var (best, score) := BestCluster(sim, f, clusters);
      MostSimilar(sim, f, clusters, best.value, k) && score == sim(f, clusters[best.value][k])
  {
    var (best, score) := BestCluster(sim, f, clusters);
    k :| 0 <= k < |clusters[best.value]| && sim(f, clusters[best.value][k]) == score;
    forall d, m | 0 <= d < |clusters| && 0 <= m < |clusters[d]|
      ensures if d < best.value then sim(f, clusters[d][m]) < score else sim(f, clusters[d][m]) <= score
    {
      if d < best.value {
        BestIsFirst(sim, f, clusters, d);
      }
    }
  }

  // Some face of the clusters is similar enough to f.
  ghost predicate HasPlace(sim: Similarity, threshold: real, f: Face, clusters: Clusters) {
    exists c, k | 0 <= c < |clusters| && 0 <= k < |clusters[c]| :: Reaches(sim, threshold, f, clusters[c][k])
  }

  lemma PlaceIsRight(sim: Similarity, threshold: real, f: Face, clusters: Clusters)
    ensures HasPlace(sim, threshold, f, clusters) ==> Joins(sim, f, clusters, Place(sim, threshold, f, clusters))
    ensures !HasPlace(sim, threshold, f, clusters) ==> Place(sim, threshold, f, clusters) == clusters + [[f]]
  {
    var (best, score) := BestCluster(sim, f, clusters);
    if best.Some? {
      var k := BestIsMostSimilar(sim, f, clusters);
      if score >= threshold {
        assert Reaches(sim, threshold, f, clusters[best.value][k]);
      }
    }
    if HasPlace(sim, threshold, f, clusters) {
      var c, k :| 0 <= c < |clusters| && 0 <= k < |clusters[c]| && Reaches(sim, threshold, f, clusters[c][k]);
      assert sim(f, clusters[c][k]) <= MaxSimilarity(sim, f, clusters[c]) <= score;
    }
  }

  // ----- the clustered faces -----

  ghost predicate InSome(f: Face, clusters: Clusters) {
    exists c, k | 0 <= c < |clusters| && 0 <= k < |clusters[c]| :: clusters[c][k] == f
  }

  lemma PlacedInSome(sim: Similarity, threshold: real, f: Face, clusters: Clusters, g: Face)
    requires g == f || InSome(g, clusters)
    ensures InSome(g, Place(sim, threshold, f, clusters))
  {
    var after := Place(sim, threshold, f, clusters);
    if InSome(g, clusters) {
      var c, k :| 0 <= c < |clusters| && 0 <= k < |clusters[c]| && clusters[c][k] == g;
      assert after[c][k] == g;
    } else {
      var (best, score) := BestCluster(sim, f, clusters);
      if best.Some? && score >= threshold {
        assert after[best.value][|clusters[best.value]|] == f;
      } else {
        assert after[|clusters|][0] == f;
      }
    }
  }

  // The clusters hold the usable faces and no others.
  lemma {:induction false} ClusteredAreUsable(sim: Similarity, threshold: real, faces: seq<Face>, f: Face)
    ensures InSome(f, ClustersOf(sim, threshold, faces)) <==> f in faces && Normalizes(f)
  {
    ClustersAreMadeOf(sim, threshold, faces);
    if faces != [] && f in faces && Normalizes(f) {
      var init, last := faces[..|faces| - 1], faces[|faces| - 1];
      assert faces == init + [last];
      ClusteredAreUsable(sim, threshold, init, f);
      if Normalizes(last) {
        PlacedInSome(sim, threshold, last, ClustersOf(sim, threshold, init), f);
      }
    }
  }

  // Some usable face before place i is similar enough to the face there.
  ghost predicate Placed(sim: Similarity, threshold: real, faces: seq<Face>, i: nat)
    requires i < |faces|
  {
    exists j | 0 <= j < i :: Normalizes(faces[j]) && Reaches(sim, threshold, faces[i], faces[j])
  }

  lemma PlacedHasPlace(sim: Similarity, threshold: real, faces: seq<Face>, i: nat)
    requires i < |faces| && Placed(sim, threshold, faces, i)
    ensures HasPlace(sim, threshold, faces[i], ClustersOf(sim, threshold, faces[..i]))
  {
    var f, clusters := faces[i], ClustersOf(sim, threshold, faces[..i]);
    var j :| 0 <= j < i && Normalizes(faces[j]) && Reaches(sim, threshold, f, faces[j]);
    ClusteredAreUsable(sim, threshold, faces[..i], faces[j]);
    assert faces[..i][j] == faces[j];
    var c, k :| 0 <= c < |clusters| && 0 <= k < |clusters[c]| && clusters[c][k] == faces[j];
    assert Reaches(sim, threshold, f, clusters[c][k]);
  }

  lemma PlaceIsPlaced(sim: Similarity, threshold: real, faces: seq<Face>, i: nat)
    requires i < |faces| && HasPlace(sim, threshold, faces[i], ClustersOf(sim, threshold, faces[..i]))
    ensures Placed(sim, threshold, faces, i)
  {
    var f, clusters := faces[i], ClustersOf(sim, threshold, faces[..i]);
    var c, k :| 0 <= c < |clusters| && 0 <= k < |clusters[c]| && Reaches(sim, threshold, f, clusters[c][k]);
    var g := clusters[c][k];
    assert InSome(g, clusters);
    ClusteredAreUsable(sim, threshold, faces[..i], g);
    var j :| 0 <= j < i && faces[..i][j] == g;
    assert faces[j] == g;
  }

  // An unusable face changes nothing. A usable one joins the first cluster of a
  // most similar face when any earlier usable face is similar enough, and founds
  // a cluster at the end otherwise.
  lemma EachFaceIsPlaced(sim: Similarity, threshold: real, faces: seq<Face>, i: nat)
    requires i < |faces|
    ensures var f, before, after :=
        faces[i], ClustersOf(sim, threshold, faces[..i]), ClustersOf(sim, threshold, faces[..i + 1]);
      if !Normalizes(f) then after == before
      else if Placed(sim, threshold, faces, i) then Joins(sim, f, before, after)
      else after == before + [[f]]
  {
    var f, before := faces[i], ClustersOf(sim, threshold, faces[..i]);
    assert faces[..i + 1][..i] == faces[..i];
    if Placed(sim, threshold, faces, i) {
      PlacedHasPlace(sim, threshold, faces, i);
    } else if HasPlace(sim, threshold, f, before) {
      PlaceIsPlaced(sim, threshold, faces, i);
    }
    PlaceIsRight(sim, threshold, f, before);
  }

  lemma NoFacesNoClusters(sim: Similarity, threshold: real)
    ensures ClustersOf(sim, threshold, []) == []
  {
  }
}
