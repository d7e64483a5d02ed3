// What the seeds of a cluster are: the direction of the mean of its faces, and
// its two best faces (backend/app/face.py).
module FaceAverage {
  import opened Common
  import opened Cosine
  import opened FaceSeeds

  // ----- dot products of sums -----

  lemma {:induction false} DotAdds(a: Vector, b: Vector, u: Vector)
    requires |a| == |b| == |u|
    ensures Dot(Plus(a, b), u) == Dot(a, u) + Dot(b, u)
  {
    if u != [] {
      assert Plus(a, b)[1..] == Plus(a[1..], b[1..]);
      DotAdds(a[1..], b[1..], u[1..]);
      Product(a[0], b[0], u[0]);
    }
  }

  lemma Product(x: real, y: real, z: real)
    ensures (x + y) * z == x * z + y * z
  {
  }

  // What a face pulls along u: the dot product of its unit vector with u.
  ghost function Pull(root: Root, f: Face, u: Vector): real
    requires |u| == DIMENSION
  {
    var v := f.embedding;
    if Usable(v) && Length(root, v) > 0.0 then Dot(v, u) / Length(root, v) else 0.0
  }

  ghost function PullOfAll(root: Root, faces: seq<Face>, u: Vector): real
    requires |u| == DIMENSION
  {
    if faces == [] then 0.0
    else PullOfAll(root, faces[..|faces| - 1], u) + Pull(root, faces[|faces| - 1], u)
  }

  ghost function DotsOf(vs: seq<Vector>, u: Vector): real
    requires |u| == DIMENSION && forall i | 0 <= i < |vs| :: |vs[i]| == DIMENSION
  {
    if vs == [] then 0.0 else DotsOf(vs[..|vs| - 1], u) + Dot(vs[|vs| - 1], u)
  }

  lemma {:induction false} DotOfSum(vs: seq<Vector>, u: Vector)
    requires vs != [] && |u| == DIMENSION && forall i | 0 <= i < |vs| :: |vs[i]| == DIMENSION
    ensures Dot(Sum(vs), u) == DotsOf(vs, u)
  {
    if |vs| == 1 {
      assert DotsOf(vs[..0], u) == 0.0;
    } else {
      DotOfSum(vs[..|vs| - 1], u);
      DotAdds(Sum(vs[..|vs| - 1]), vs[|vs| - 1], u);
    }
  }

  // ----- unit vectors -----

  lemma UsableHasLength(root: Root, v: Vector)
    requires IsSquareRoot(root) && Usable(v)
    ensures Length(root, v) > 0.0 && NormalizeWith(root, v) == Some(Scale(1.0 / Length(root, v), v))
  {
    CauchySchwarz(v, v);
    UsableByLength(v, Length(root, v));
  }

  lemma QuotientIsProduct(d: real, l: real)
    requires l > 0.0
    ensures 1.0 / l * d == d / l
  {
    assert (1.0 / l * d) * l == (1.0 / l * l) * d;
    assert d / l * l == d;
  }

  lemma NormalizedPull(root: Root, f: Face, u: Vector)
    requires IsSquareRoot(root) && |u| == DIMENSION
    ensures match NormalizeWith(root, f.embedding)
            case None => Pull(root, f, u) == 0.0
            case Some(v) => Dot(v, u) == Pull(root, f, u)
  {
    UsableNormalizes(root, f.embedding);
    if Usable(f.embedding) {
      UsableHasLength(root, f.embedding);
      DotScales(1.0 / Length(root, f.embedding), f.embedding, u);
      QuotientIsProduct(Dot(f.embedding, u), Length(root, f.embedding));
    }
  }

  lemma {:induction false} NormalizedPulls(root: Root, faces: seq<Face>, u: Vector)
    requires IsSquareRoot(root) && |u| == DIMENSION
    ensures DotsOf(NormalizedOf(root, faces), u) == PullOfAll(root, faces, u)
  {
    if faces != [] {
      var init, f := faces[..|faces| - 1], faces[|faces| - 1];
      NormalizedPulls(root, init, u);
      NormalizedPull(root, f, u);
      var before := NormalizedOf(root, init);
      if NormalizeWith(root, f.embedding).Some? {
        assert (before + [NormalizeWith(root, f.embedding).value])[..|before|] == before;
      }
    }
  }

  // A scaled vector of positive length, divided by its length, has length 1.
  lemma UnitLength(root: Root, v: Vector)
    requires IsSquareRoot(root) && Length(root, v) > 0.0
    ensures Length(root, Scale(1.0 / Length(root, v), v)) == 1.0
  {
    var c := 1.0 / Length(root, v);
    CauchySchwarz(v, v);
    CauchySchwarz(Scale(c, v), Scale(c, v));
    LengthScales(c, v, Length(root, v), Length(root, Scale(c, v)));
  }

  // ----- the average -----

  // The embeddings of the faces cancel: they pull nowhere.
  ghost predicate Cancel(root: Root, faces: seq<Face>) {
    forall u: Vector | |u| == DIMENSION :: PullOfAll(root, faces, u) == 0.0
  }

  // The sum of the unit vectors of the faces, scaled by a positive share.
  ghost predicate IsMean(root: Root, faces: seq<Face>, share: real, mean: Vector) {
    var vs := NormalizedOf(root, faces);
    vs != [] && share > 0.0 && mean == Scale(share, Sum(vs))
  }

  function Times(c: real, x: real): real {
    c * x
  }

  lemma ScaledDot(c: real, v: Vector, u: Vector)
    requires |v| == |u|
    ensures Dot(Scale(c, v), u) == Times(c, Dot(v, u))
  {
    DotScales(c, v, u);
  }

  lemma MeanPulls(root: Root, faces: seq<Face>, share: real, mean: Vector, u: Vector)
    requires IsSquareRoot(root) && |u| == DIMENSION && IsMean(root, faces, share, mean)
    ensures Dot(mean, u) == Times(share, PullOfAll(root, faces, u))
  {
    NormalizedPulls(root, faces, u);
    DotOfSum(NormalizedOf(root, faces), u);
    ScaledDot(share, Sum(NormalizedOf(root, faces)), u);
  }

  lemma ZeroLength(root: Root, v: Vector, u: Vector)
    requires IsSquareRoot(root) && |v| == |u|
    ensures Length(root, v) >= 0.0
    ensures Length(root, v) == 0.0 ==> Dot(v, u) == 0.0
    ensures Dot(v, v) == 0.0 ==> Length(root, v) == 0.0
  {
    CauchySchwarz(v, v);
    CauchySchwarz(v, u);
    assert IsRoot(Length(root, v), Dot(v, v));
    if Length(root, v) == 0.0 {
      ZeroDot(Dot(v, v), Dot(v, u), Dot(u, u));
    }
    if Dot(v, v) == 0.0 {
      RootIsUnique(Length(root, v), 0.0, 0.0);
    }
  }

  lemma ZeroDot(aa: real, ab: real, bb: real)
    requires Bounded(aa, ab, bb) && aa == 0.0
    ensures ab == 0.0
  {
    calc {
      ab * ab;
      <= aa * bb;
      == 0.0;
    }
    ZeroSquare(ab);
  }

  lemma MeanIsZero(root: Root, faces: seq<Face>, share: real, mean: Vector)
    requires IsSquareRoot(root) && IsMean(root, faces, share, mean)
    ensures Length(root, mean) <= 0.0 <==> Cancel(root, faces)
  {
    MeanPulls(root, faces, share, mean, mean);
    ZeroLength(root, mean, mean);
    if Length(root, mean) <= 0.0 {
      forall u: Vector | |u| == DIMENSION ensures PullOfAll(root, faces, u) == 0.0 {
        MeanPulls(root, faces, share, mean, u);
        ZeroLength(root, mean, u);
        NoFactor(share, PullOfAll(root, faces, u));
      }
    }
    if Cancel(root, faces) {
      assert PullOfAll(root, faces, mean) == 0.0;
    }
  }

  lemma NoFactor(c: real, x: real)
    requires c > 0.0
    ensures Times(c, x) == 0.0 <==> x == 0.0
  {
  }

  lemma NoFacesCancel(root: Root, faces: seq<Face>)
    requires IsSquareRoot(root) && NormalizedOf(root, faces) == []
    ensures Cancel(root, faces)
  {
    forall u: Vector | |u| == DIMENSION ensures PullOfAll(root, faces, u) == 0.0 {
      NormalizedPulls(root, faces, u);
    }
  }

  lemma AverageOfMean(root: Root, faces: seq<Face>) returns (share: real, mean: Vector, inverse: real)
    requires IsSquareRoot(root) && NormalizedOf(root, faces) != []
    ensures IsMean(root, faces, share, mean) && |mean| == DIMENSION
    ensures if Length(root, mean) <= 0.0 then Average(root, faces) == []
            else inverse > 0.0 && Average(root, faces) == Scale(inverse, mean)
                 && Length(root, Average(root, faces)) == 1.0
  {
    var vs := NormalizedOf(root, faces);
    share := 1.0 / |vs| as real;
    mean := Scale(share, Sum(vs));
    var norm := Length(root, mean);
    inverse := if norm <= 0.0 then 1.0 else 1.0 / norm;
    if norm > 0.0 {
      UnitLength(root, mean);
    }
  }

  lemma AveragePulls(root: Root, faces: seq<Face>, share: real, mean: Vector, inverse: real, u: Vector)
    requires IsSquareRoot(root) && |u| == DIMENSION && IsMean(root, faces, share, mean)
    ensures Dot(Scale(inverse, mean), u) == Times(Times(inverse, share), PullOfAll(root, faces, u))
  {
    MeanPulls(root, faces, share, mean, u);
    ScaledDot(inverse, mean, u);
    Associate(inverse, share, PullOfAll(root, faces, u));
  }

  // Along every vector, v pulls as the faces do together, up to one factor.
  ghost predicate PullsAs(root: Root, v: Vector, faces: seq<Face>, factor: real) {
    && |v| == DIMENSION
    && forall u: Vector | |u| == DIMENSION :: Dot(v, u) == Times(factor, PullOfAll(root, faces, u))
  }

  // The average is nothing exactly when the unit vectors of the faces cancel;
  // otherwise it has length 1, and along every vector it pulls as the faces do
  // together, up to one positive factor.
  lemma AverageIsDirection(root: Root, faces: seq<Face>) returns (factor: real)
    requires IsSquareRoot(root)
    ensures Average(root, faces) == [] <==> Cancel(root, faces)
    ensures Average(root, faces) != [] ==>
      && Length(root, Average(root, faces)) == 1.0
      && factor > 0.0 && PullsAs(root, Average(root, faces), faces, factor)
  {
    factor := 1.0;
    if NormalizedOf(root, faces) == [] {
      NoFacesCancel(root, faces);
    } else {
      var share, mean, inverse := AverageOfMean(root, faces);
      MeanIsZero(root, faces, share, mean);
      if Length(root, mean) > 0.0 {
        factor := Times(inverse, share);
        ProductIsPositive(inverse, share);
        forall u: Vector | |u| == DIMENSION
          ensures Dot(Average(root, faces), u) == Times(factor, PullOfAll(root, faces, u))
        {
          AveragePulls(root, faces, share, mean, inverse, u);
        }
      }
    }
  }

  lemma Associate(a: real, b: real, x: real)
    ensures Times(a, Times(b, x)) == Times(Times(a, b), x)
  {
  }
}
