// The seeds of a bib-only search: from candidate faces to the embeddings that
// are searched for (backend/app/face.py).
module FaceSeeds {
  import opened Common
  import opened Cosine
  import opened SeedVectors
  import FaceClusters
  import FaceConsensus

  type Face = FaceClusters.Face

  // The square root is a parameter.
  type Root = real -> real

  ghost predicate IsSquareRoot(root: Root) {
    forall x: real | x >= 0.0 :: IsRoot(root(x), x)
  }

  // ----- vectors -----

  function Length(root: Root, v: Vector): real {
    root(Dot(v, v))
  }

  function CosineOf(root: Root, a: Vector, b: Vector): real {
    Cosine.Similarity(a, b, Length(root, a), Length(root, b))
  }

  // The payload check: the dimension, the range and the length of a vector.
  function NormalizeWith(root: Root, v: Vector): (r: Option<Vector>)
    ensures r.Some? ==> |r.value| == DIMENSION
  {
    if |v| != DIMENSION || (exists x | x in v :: x < -100.0 || x > 100.0) then None
    else if Length(root, v) <= 0.000_000_000_001 then None
    else Some(Scale(1.0 / Length(root, v), v))
  }

  function Plus(a: Vector, b: Vector): (r: Vector)
    requires |a| == |b|
    ensures |r| == |a|
  {
    seq(|a|, i requires 0 <= i < |a| => a[i] + b[i])
  }

  function Sum(vs: seq<Vector>): (r: Vector)
    requires vs != [] && forall i | 0 <= i < |vs| :: |vs[i]| == DIMENSION
    ensures |r| == DIMENSION
  {
    if |vs| == 1 then vs[0] else Plus(Sum(vs[..|vs| - 1]), vs[|vs| - 1])
  }

  function NormalizedOf(root: Root, faces: seq<Face>): (vs: seq<Vector>)
    ensures forall i | 0 <= i < |vs| :: |vs[i]| == DIMENSION
  {
    if faces == [] then []
    else
      var before := NormalizedOf(root, faces[..|faces| - 1]);
      match NormalizeWith(root, faces[|faces| - 1].embedding)
      case None => before
      case Some(v) => before + [v]
  }

  // The direction of the mean of the faces, or nothing when it has none.
  function Average(root: Root, faces: seq<Face>): Vector {
    var vs := NormalizedOf(root, faces);
    if vs == [] then []
    else
      var mean := Scale(1.0 / |vs| as real, Sum(vs));
      var norm := Length(root, mean);
      if norm <= 0.0 then [] else Scale(1.0 / norm, mean)
  }

  // ----- the best faces -----

  // A stable sort, best quality first.
  function InsertFace(f: Face, s: seq<Face>): seq<Face> {
    if s == [] || FaceClusters.SeedQuality(f) > FaceClusters.SeedQuality(s[0]) then [f] + s
    else [s[0]] + InsertFace(f, s[1..])
  }

  function SortedFaces(faces: seq<Face>): seq<Face> {
    if faces == [] then [] else InsertFace(faces[|faces| - 1], SortedFaces(faces[..|faces| - 1]))
  }

  function EmbeddingsOf(faces: seq<Face>): (r: seq<Vector>)
    ensures |r| == |faces| && forall i | 0 <= i < |r| :: r[i] == faces[i].embedding
  {
    seq(|faces|, i requires 0 <= i < |faces| => faces[i].embedding)
  }

  // The average of a cluster and its two best faces.
  function Proposed(root: Root, cluster: seq<Face>): seq<Vector> {
    var best := SortedFaces(cluster);
    [Average(root, best)] + EmbeddingsOf(Take(best, 2))
  }

  function Normalizing(root: Root): Normalizer {
    (v: Vector) => NormalizeWith(root, v)
  }

  function VectorCosine(root: Root): SeedVectors.Similarity {
    (a: Vector, b: Vector) => CosineOf(root, a, b)
  }

  function SeedsOf(root: Root, cluster: seq<Face>): seq<Vector> {
    Take(Deduped(Normalizing(root), VectorCosine(root), Proposed(root, cluster)), 3)
  }

  function FaceCosine(root: Root): FaceClusters.Similarity {
    (f: Face, g: Face) => CosineOf(root, f.embedding, g.embedding)
  }

  // ----- the selection -----

  function ClustersOf(root: Root, threshold: real, faces: seq<Face>): FaceClusters.Clusters {
    FaceClusters.ClustersOf(FaceCosine(root), threshold, faces)
  }

  // The seeds are those of the winning cluster: there are some exactly when there
  // is a winner, at most three, no two of them nearly the same direction.
  method SelectConsensusSeeds(root: Root, threshold: real, s: FaceConsensus.Settings, faces: seq<Face>, support: int)
    returns (seeds: seq<Vector>)
    ensures var clusters := ClustersOf(root, threshold, faces);
      match FaceConsensus.Winner(s, clusters, support)
      case None => seeds == []
      case Some(w) => w < |clusters| && seeds == if support > 0 then SeedsOf(root, clusters[w]) else []
    ensures IsSquareRoot(root) ==>
              (seeds != [] <==>
                 support > 0 && FaceConsensus.Winner(s, ClustersOf(root, threshold, faces), support).Some?)
    ensures |seeds| <= 3 && Apart(VectorCosine(root), seeds)
  {
    FaceConsensus.WinnerIsCluster(s, ClustersOf(root, threshold, faces), support);
    if faces == [] || support <= 0 {
      NoFacesNoWinner(root, threshold, s, support);
      return [];
    }
    var clusters := FaceClusters.ClusterSeedFaces(FaceCosine(root), threshold, faces);
    var winner := FaceConsensus.Winner(s, clusters, support);
    if winner == None {
      return [];
    }
    SeedsOfCluster(root, threshold, faces, winner.value);
    seeds := SeedsOf(root, clusters[winner.value]);
  }

  lemma NoFacesNoWinner(root: Root, threshold: real, s: FaceConsensus.Settings, support: int)
    ensures FaceConsensus.Winner(s, ClustersOf(root, threshold, []), support) == None
  {
  }

  // ----- there is always a seed -----

  lemma {:induction false} InsertFaceKeeps(f: Face, s: seq<Face>, x: Face)
    ensures x in InsertFace(f, s) <==> x == f || x in s
  {
    if s != [] && !(FaceClusters.SeedQuality(f) > FaceClusters.SeedQuality(s[0])) {
      InsertFaceKeeps(f, s[1..], x);
      assert s == [s[0]] + s[1..];
    }
  }

  lemma {:induction false} SortedFacesKeep(faces: seq<Face>, x: Face)
    ensures x in SortedFaces(faces) <==> x in faces
    ensures faces != [] ==> SortedFaces(faces) != []
  {
    if faces != [] {
      var init, f := faces[..|faces| - 1], faces[|faces| - 1];
      SortedFacesKeep(init, x);
      InsertFaceKeeps(f, SortedFaces(init), x);
      assert faces == init + [f];
    }
  }

  ghost predicate Descending(s: seq<Face>) {
    forall i, j | 0 <= i < j < |s| :: FaceClusters.SeedQuality(s[j]) <= FaceClusters.SeedQuality(s[i])
  }

  lemma {:induction false} InsertFaceDescends(f: Face, s: seq<Face>)
    requires Descending(s)
    ensures Descending(InsertFace(f, s))
  {
    if s != [] && !(FaceClusters.SeedQuality(f) > FaceClusters.SeedQuality(s[0])) {
      var rest := InsertFace(f, s[1..]);
      InsertFaceDescends(f, s[1..]);
      forall j | 0 <= j < |rest| ensures FaceClusters.SeedQuality(rest[j]) <= FaceClusters.SeedQuality(s[0]) {
        InsertFaceKeeps(f, s[1..], rest[j]);
        assert rest[j] in rest;
      }
    }
  }

  lemma {:induction false} SortedFacesDescend(faces: seq<Face>)
    ensures Descending(SortedFaces(faces))
  {
    if faces != [] {
      SortedFacesDescend(faces[..|faces| - 1]);
      InsertFaceDescends(faces[|faces| - 1], SortedFaces(faces[..|faces| - 1]));
    }
  }

  // The first of the sorted faces has the best quality of the cluster.
  lemma BestFaceIsFirst(cluster: seq<Face>, f: Face)
    requires f in cluster
    ensures var best := SortedFaces(cluster);
      best != [] && best[0] in cluster && FaceClusters.SeedQuality(f) <= FaceClusters.SeedQuality(best[0])
  {
    var best := SortedFaces(cluster);
    SortedFacesKeep(cluster, f);
    SortedFacesKeep(cluster, best[0]);
    SortedFacesDescend(cluster);
  }

  lemma {:induction false} DedupedKeepsOne(normalize: Normalizer, sim: SeedVectors.Similarity, embeddings: seq<Vector>,
                                           i: nat)
    requires i < |embeddings| && normalize(embeddings[i]).Some?
    ensures Deduped(normalize, sim, embeddings) != []
  {
    var init := embeddings[..|embeddings| - 1];
    if i < |init| {
      DedupedKeepsOne(normalize, sim, init, i);
    }
  }

  lemma {:induction false} DedupedIsNotLonger(normalize: Normalizer, sim: SeedVectors.Similarity,
                                              embeddings: seq<Vector>)
    ensures |Deduped(normalize, sim, embeddings)| <= |embeddings|
  {
    if embeddings != [] {
      DedupedIsNotLonger(normalize, sim, embeddings[..|embeddings| - 1]);
    }
  }

  lemma UsableNormalizes(root: Root, v: Vector)
    ensures IsSquareRoot(root) ==> (NormalizeWith(root, v).Some? <==> Usable(v))
  {
    if IsSquareRoot(root) && |v| == DIMENSION && forall x | x in v :: -100.0 <= x <= 100.0 {
      CauchySchwarz(v, v);
      UsableByLength(v, Length(root, v));
    }
  }

  lemma SeedsOfCluster(root: Root, threshold: real, faces: seq<Face>, w: nat)
    requires w < |ClustersOf(root, threshold, faces)|
    ensures var seeds := SeedsOf(root, ClustersOf(root, threshold, faces)[w]);
      (IsSquareRoot(root) ==> seeds != []) && |seeds| <= 3 && Apart(VectorCosine(root), seeds)
  {
    var cluster := ClustersOf(root, threshold, faces)[w];
    var best, proposed := SortedFaces(cluster), Proposed(root, cluster);
    var normalize, sim := Normalizing(root), VectorCosine(root);
    FaceClusters.ClustersAreMadeOf(FaceCosine(root), threshold, faces);
    BestFaceIsFirst(cluster, cluster[0]);
    UsableNormalizes(root, best[0].embedding);
    assert FaceClusters.Normalizes(best[0]);
    assert proposed[1] == best[0].embedding && |proposed| <= 3;
    assert normalize(proposed[1]) == NormalizeWith(root, best[0].embedding);
    if IsSquareRoot(root) {
      DedupedKeepsOne(normalize, sim, proposed, 1);
    }
    DedupedIsNotLonger(normalize, sim, proposed);
    DedupedAreApart(normalize, sim, proposed);
  }
}
