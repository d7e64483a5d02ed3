// Which embeddings a winning cluster is searched by: the direction of all its
// faces first, then its two best faces (backend/app/face.py).
module SeedLaws {
  import opened Common
  import opened Cosine
  import opened SeedVectors
  import opened FaceSeeds
  import opened FaceAverage
  import FaceClusters

  // ----- the order of the faces -----

  ghost function OfQuality(s: seq<Face>, q: real): seq<Face> {
    if s == [] then []
    else if FaceClusters.SeedQuality(s[0]) == q then [s[0]] + OfQuality(s[1..], q)
    else OfQuality(s[1..], q)
  }

  lemma {:induction false} NoneAbove(s: seq<Face>, q: real)
    requires forall i | 0 <= i < |s| :: FaceClusters.SeedQuality(s[i]) < q
    ensures OfQuality(s, q) == []
  {
    if s != [] {
      NoneAbove(s[1..], q);
    }
  }

  lemma {:induction false} OfQualityAdds(s: seq<Face>, t: seq<Face>, q: real)
    ensures OfQuality(s + t, q) == OfQuality(s, q) + OfQuality(t, q)
  {
    if s == [] {
      assert s + t == t;
    } else {
      assert (s + t)[1..] == s[1..] + t;
      OfQualityAdds(s[1..], t, q);
    }
  }

  lemma {:induction false} InsertFaceIsStable(f: Face, s: seq<Face>, q: real)
    requires Descending(s)
    ensures OfQuality(InsertFace(f, s), q) == OfQuality(s, q) + OfQuality([f], q)
  {
    if s != [] && !(FaceClusters.SeedQuality(f) > FaceClusters.SeedQuality(s[0])) {
      InsertFaceIsStable(f, s[1..], q);
    } else {
      OfQualityAdds([f], s, q);
      if q == FaceClusters.SeedQuality(f) {
        NoneAbove(s, q);
      }
    }
  }

  // The faces are in descending order of quality, those of equal quality in the
  // order they were given, and no face is added or left out.
  lemma {:induction false} SortIsStable(faces: seq<Face>, q: real)
    ensures Descending(SortedFaces(faces)) && OfQuality(SortedFaces(faces), q) == OfQuality(faces, q)
    ensures |SortedFaces(faces)| == |faces|
  {
    SortedFacesDescend(faces);
    if faces != [] {
      var init, f := faces[..|faces| - 1], faces[|faces| - 1];
      SortIsStable(init, q);
      InsertFaceIsStable(f, SortedFaces(init), q);
      InsertFaceGrows(f, SortedFaces(init));
      assert faces == init + [f];
      OfQualityAdds(init, [f], q);
    }
  }

  lemma {:induction false} InsertFaceGrows(f: Face, s: seq<Face>)
    ensures |InsertFace(f, s)| == |s| + 1
  {
    if s != [] && !(FaceClusters.SeedQuality(f) > FaceClusters.SeedQuality(s[0])) {
      InsertFaceGrows(f, s[1..]);
    }
  }

  // ----- the order does not matter to the direction -----

  lemma {:induction false} PullsAdd(root: Root, s: seq<Face>, t: seq<Face>, u: Vector)
    requires |u| == DIMENSION
    ensures PullOfAll(root, s + t, u) == PullOfAll(root, s, u) + PullOfAll(root, t, u)
  {
    if t == [] {
      assert s + t == s;
    } else {
      assert (s + t)[..|s + t| - 1] == s + t[..|t| - 1];
      PullsAdd(root, s, t[..|t| - 1], u);
    }
  }

  lemma PullOfOne(root: Root, f: Face, u: Vector)
    requires |u| == DIMENSION
    ensures PullOfAll(root, [f], u) == Pull(root, f, u)
  {
    assert [f][..0] == [];
  }

  lemma {:induction false} InsertFacePulls(root: Root, f: Face, s: seq<Face>, u: Vector)
    requires |u| == DIMENSION
    ensures PullOfAll(root, InsertFace(f, s), u) == PullOfAll(root, s, u) + Pull(root, f, u)
  {
    PullOfOne(root, f, u);
    if s == [] || FaceClusters.SeedQuality(f) > FaceClusters.SeedQuality(s[0]) {
      PullsAdd(root, [f], s, u);
    } else {
      InsertFacePulls(root, f, s[1..], u);
      PullsAdd(root, [s[0]], InsertFace(f, s[1..]), u);
      PullsAdd(root, [s[0]], s[1..], u);
      assert [s[0]] + s[1..] == s;
    }
  }

  lemma {:induction false} SortedFacesPull(root: Root, faces: seq<Face>, u: Vector)
    requires |u| == DIMENSION
    ensures PullOfAll(root, SortedFaces(faces), u) == PullOfAll(root, faces, u)
  {
    if faces != [] {
      SortedFacesPull(root, faces[..|faces| - 1], u);
      InsertFacePulls(root, faces[|faces| - 1], SortedFaces(faces[..|faces| - 1]), u);
    }
  }

  // ----- a vector of length 1 is its own unit vector -----

  lemma {:induction false} EntryIsBounded(v: Vector, i: nat)
    requires i < |v|
    ensures v[i] * v[i] <= Dot(v, v)
  {
    CauchySchwarz(v[1..], v[1..]);
    SquareIsPositive(v[0]);
    if i > 0 {
      EntryIsBounded(v[1..], i - 1);
    }
  }

  lemma {:induction false} ScaleByOne(c: real, v: Vector)
    requires c == 1.0
    ensures Scale(c, v) == v
  {
    if v != [] {
      ScaleByOne(c, v[1..]);
    }
  }

  lemma UnitNormalizes(root: Root, v: Vector)
    requires IsSquareRoot(root) && |v| == DIMENSION && Length(root, v) == 1.0
    ensures NormalizeWith(root, v) == Some(v)
  {
    CauchySchwarz(v, v);
    assert IsRoot(Length(root, v), Dot(v, v));
    forall x | x in v ensures -100.0 <= x <= 100.0 {
      var i :| 0 <= i < |v| && v[i] == x;
      EntryIsBounded(v, i);
      Between(x, 1.0);
    }
    ScaleByOne(1.0 / Length(root, v), v);
  }

  // ----- the seeds -----

  // The unit vector of a face.
  ghost function Unit(root: Root, f: Face): Vector {
    match NormalizeWith(root, f.embedding)
    case None => []
    case Some(v) => v
  }

  // Length 1, and the pull of the face along every vector.
  lemma UnitIsDirection(root: Root, f: Face)
    requires IsSquareRoot(root) && FaceClusters.Normalizes(f)
    ensures |Unit(root, f)| == DIMENSION && Length(root, Unit(root, f)) == 1.0
    ensures forall u: Vector | |u| == DIMENSION :: Dot(Unit(root, f), u) == Pull(root, f, u)
    ensures NormalizeWith(root, f.embedding) == Some(Unit(root, f))
  {
    UsableHasLength(root, f.embedding);
    UnitLength(root, f.embedding);
    forall u: Vector | |u| == DIMENSION ensures Dot(Unit(root, f), u) == Pull(root, f, u) {
      NormalizedPull(root, f, u);
    }
  }

  lemma {:induction false} KeptArePrefix(normalize: Normalizer, sim: SeedVectors.Similarity, embeddings: seq<Vector>,
                                         i: nat)
    requires i <= |embeddings|
    ensures Deduped(normalize, sim, embeddings[..i]) <= Deduped(normalize, sim, embeddings)
  {
    if i < |embeddings| {
      KeptArePrefix(normalize, sim, embeddings[..|embeddings| - 1], i);
      assert embeddings[..|embeddings| - 1][..i] == embeddings[..i];
    } else {
      assert embeddings[..i] == embeddings;
    }
  }

  // Each embedding is kept, unless it is nearly one kept of those before it.
  lemma KeptOrNear(normalize: Normalizer, sim: SeedVectors.Similarity, embeddings: seq<Vector>, i: nat, v: Vector)
    requires i < |embeddings| && normalize(embeddings[i]) == Some(v)
    ensures var before, kept := Deduped(normalize, sim, embeddings[..i]), Deduped(normalize, sim, embeddings);
      before <= kept && (Near(sim, v, before) || before + [v] <= kept)
  {
    KeptArePrefix(normalize, sim, embeddings, i);
    KeptArePrefix(normalize, sim, embeddings, i + 1);
    assert embeddings[..i + 1][..i] == embeddings[..i];
  }

  lemma {:induction false} KeptAreGiven(normalize: Normalizer, sim: SeedVectors.Similarity, embeddings: seq<Vector>,
                                        v: Vector)
    requires v in Deduped(normalize, sim, embeddings)
    ensures exists i | 0 <= i < |embeddings| :: normalize(embeddings[i]) == Some(v)
  {
    var init, last := embeddings[..|embeddings| - 1], embeddings[|embeddings| - 1];
    if v in Deduped(normalize, sim, init) {
      KeptAreGiven(normalize, sim, init, v);
      var i :| 0 <= i < |init| && normalize(init[i]) == Some(v);
      assert embeddings[i] == init[i];
    } else {
      assert normalize(embeddings[|embeddings| - 1]) == Some(v);
    }
  }

  lemma NothingNormalizes(root: Root)
    ensures NormalizeWith(root, []) == None
  {
  }

  // What the average offers: itself when it has a direction, otherwise nothing.
  lemma AverageNormalizes(root: Root, faces: seq<Face>)
    requires IsSquareRoot(root)
    ensures NormalizeWith(root, Average(root, faces))
         == if Average(root, faces) == [] then None else Some(Average(root, faces))
  {
    var factor := AverageIsDirection(root, faces);
    if Average(root, faces) != [] {
      UnitNormalizes(root, Average(root, faces));
    }
  }

  ghost predicate AllNormalize(cluster: seq<Face>) {
    cluster != [] && forall f | f in cluster :: FaceClusters.Normalizes(f)
  }

  lemma BestNormalize(cluster: seq<Face>)
    requires AllNormalize(cluster)
    ensures AllNormalize(SortedFaces(cluster)) && |SortedFaces(cluster)| == |cluster|
  {
    SortIsStable(cluster, 0.0);
    forall f | f in SortedFaces(cluster) ensures FaceClusters.Normalizes(f) {
      SortedFacesKeep(cluster, f);
    }
  }

  // v is searched for, or nearly the same direction as a seed.
  ghost predicate Searched(sim: SeedVectors.Similarity, v: Vector, seeds: seq<Vector>) {
    v in seeds || Near(sim, v, seeds)
  }

  // The average a, when there is one, then the unit vectors of the best faces
  // that are not nearly a seed already.
  ghost predicate SeedsAre(sim: SeedVectors.Similarity, a: Vector, units: seq<Vector>, seeds: seq<Vector>)
    requires units != []
  {
    && seeds != [] && seeds[0] == (if a == [] then units[0] else a)
    && (units[0] in seeds || sim(units[0], seeds[0]) >= DUPLICATE_FROM)
    && (forall v | v in units :: Searched(sim, v, seeds))
    && (forall v | v in seeds :: v in [a] + units)
    && (|seeds| > |units| ==> seeds == [a] + units)
    && Apart(sim, seeds)
  }

  lemma FirstIsKept(normalize: Normalizer, sim: SeedVectors.Similarity, e: seq<Vector>)
    requires e != []
    ensures Deduped(normalize, sim, e[..1]) == if normalize(e[0]) == None then [] else [normalize(e[0]).value]
  {
    assert e[..1][..0] == [];
  }

  // The seeds after the average and the best face.
  ghost function FirstSeeds(sim: SeedVectors.Similarity, a: Vector, u: Vector): seq<Vector> {
    if a == [] then [u] else if Near(sim, u, [a]) then [a] else [a, u]
  }

  lemma FirstTwo(normalize: Normalizer, sim: SeedVectors.Similarity, a: Vector, e: Vector, u: Vector)
    requires normalize(e) == Some(u) && normalize(a) == if a == [] then None else Some(a)
    ensures Deduped(normalize, sim, [a, e]) == FirstSeeds(sim, a, u)
  {
    assert [a, e][..1] == [a] && [a][..0] == [];
    FirstIsKept(normalize, sim, [a]);
    assert [a][..1] == [a];
  }

  lemma SeedsWithOneFace(sim: SeedVectors.Similarity, a: Vector, u: Vector, kept: seq<Vector>)
    requires kept == FirstSeeds(sim, a, u) && Apart(sim, kept)
    ensures SeedsAre(sim, a, [u], kept)
  {
    assert Near(sim, u, [a]) ==> sim(u, a) >= DUPLICATE_FROM;
    assert u in [a, u] && [a, u] == [a] + [u];
    assert forall v :: v in [a] + [u] <==> v == a || v == u;
  }

  lemma SeedsWithTwoFaces(sim: SeedVectors.Similarity, a: Vector, u: Vector, w: Vector, first: seq<Vector>,
                          kept: seq<Vector>)
    requires SeedsAre(sim, a, [u], first) && Apart(sim, kept) && first == FirstSeeds(sim, a, u)
    requires (Near(sim, w, first) && kept == first) || kept == first + [w]
    ensures SeedsAre(sim, a, [u, w], kept)
  {
    assert kept[0] == first[0];
    assert Searched(sim, u, kept) by {
      assert u in [u];
      if u !in first {
        var k :| 0 <= k < |first| && sim(u, first[k]) >= DUPLICATE_FROM;
        assert kept[k] == first[k];
      }
    }
    forall v | v in kept ensures v in [a] + [u, w] {
      assert v in first ==> v in [a] + [u];
    }
    assert |kept| > 2 ==> first == [a] + [u] && kept == [a] + [u, w];
  }

  lemma SeedsOfProposed(normalize: Normalizer, sim: SeedVectors.Similarity, a: Vector, e: seq<Vector>,
                        units: seq<Vector>)
    requires |e| == |units| && 1 <= |e| <= 2 && forall i | 0 <= i < |e| :: normalize(e[i]) == Some(units[i])
    requires normalize(a) == if a == [] then None else Some(a)
    ensures SeedsAre(sim, a, units, Deduped(normalize, sim, [a] + e)) && |Deduped(normalize, sim, [a] + e)| <= 3
  {
    var p := [a] + e;
    var kept, first := Deduped(normalize, sim, p), Deduped(normalize, sim, [a, e[0]]);
    FirstTwo(normalize, sim, a, e[0], units[0]);
    DedupedAreApart(normalize, sim, [a, e[0]]);
    DedupedAreApart(normalize, sim, p);
    DedupedIsNotLonger(normalize, sim, p);
    SeedsWithOneFace(sim, a, units[0], first);
    if |e| == 2 {
      assert p[..2] == [a, e[0]] && units == [units[0], units[1]];
      SeedsWithTwoFaces(sim, a, units[0], units[1], first, kept);
    } else {
      assert p == [a, e[0]] && units == [units[0]];
    }
  }

  ghost function Units(root: Root, faces: seq<Face>): (us: seq<Vector>)
    ensures |us| == |faces| && forall i | 0 <= i < |us| :: us[i] == Unit(root, faces[i])
  {
    seq(|faces|, i requires 0 <= i < |faces| => Unit(root, faces[i]))
  }

  // A winning cluster is searched by its average and its two best faces.
  lemma ClusterSeeds(root: Root, cluster: seq<Face>)
    requires IsSquareRoot(root) && AllNormalize(cluster)
    ensures var best := SortedFaces(cluster);
      && |best| == |cluster|
      && SeedsAre(VectorCosine(root), Average(root, best), Units(root, Take(best, 2)), SeedsOf(root, cluster))
  {
    BestNormalize(cluster);
    var best := SortedFaces(cluster);
    var top := Take(best, 2);
    AverageNormalizes(root, best);
    forall i | 0 <= i < |top| ensures NormalizeWith(root, top[i].embedding) == Some(Unit(root, top[i])) {
      assert top[i] == best[i] && best[i] in best;
      UnitIsDirection(root, top[i]);
    }
    SeedsOfProposed(Normalizing(root), VectorCosine(root), Average(root, best), EmbeddingsOf(top), Units(root, top));
  }

  // The sorted faces of a cluster pull as the cluster does, so its average is
  // the direction of its own mean.
  lemma AverageOfCluster(root: Root, cluster: seq<Face>) returns (factor: real)
    requires IsSquareRoot(root)
    ensures var average := Average(root, SortedFaces(cluster));
      && (average == [] <==> Cancel(root, cluster))
      && (average != [] ==>
            Length(root, average) == 1.0 && factor > 0.0 && PullsAs(root, average, cluster, factor))
  {
    var best := SortedFaces(cluster);
    factor := AverageIsDirection(root, best);
    forall u: Vector | |u| == DIMENSION ensures PullOfAll(root, best, u) == PullOfAll(root, cluster, u) {
      SortedFacesPull(root, cluster, u);
    }
  }

  // What the selection returns, for the winning cluster of any faces.
  lemma SelectedSeeds(root: Root, threshold: real, faces: seq<Face>, w: nat)
    requires IsSquareRoot(root) && w < |ClustersOf(root, threshold, faces)|
    ensures var cluster := ClustersOf(root, threshold, faces)[w];
      var best := SortedFaces(cluster);
      && |best| == |cluster|
      && SeedsAre(VectorCosine(root), Average(root, best), Units(root, Take(best, 2)), SeedsOf(root, cluster))
  {
    FaceClusters.ClustersAreMadeOf(FaceCosine(root), threshold, faces);
    ClusterSeeds(root, ClustersOf(root, threshold, faces)[w]);
  }
}
