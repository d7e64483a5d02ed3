// Cosine similarity of embeddings over the real numbers, and the removal of
// near-duplicate seeds (backend/app/face.py).
module Cosine {
  type Vector = seq<real>

  const DIMENSION: nat := 512

  function Dot(a: Vector, b: Vector): real
    requires |a| == |b|
  {
    if a == [] then 0.0 else a[0] * b[0] + Dot(a[1..], b[1..])
  }

  predicate IsRoot(s: real, x: real) {
    s >= 0.0 && s * s == x
  }

  function Clamp(x: real): real {
    var low := if x < 1.0 then x else 1.0;
    if low > -1.0 then low else -1.0
  }

  function Score(dot: real, m: real, n: real): real {
    if m <= 0.0 || n <= 0.0 then 0.0 else Clamp(dot / (m * n))
  }

  // `m` and `n` are the square roots of the two sums of squares.
  function Similarity(a: Vector, b: Vector, m: real, n: real): real {
    if a == [] || b == [] || |a| != |b| then 0.0 else Score(Dot(a, b), m, n)
  }

  function Scale(c: real, v: Vector): (r: Vector)
    ensures |r| == |v|
  {
    if v == [] then [] else [c * v[0]] + Scale(c, v[1..])
  }

  // An embedding that can be normalized: its length is more than 1e-12.
  predicate Usable(v: Vector) {
    |v| == DIMENSION && (forall x | x in v :: -100.0 <= x <= 100.0) && Dot(v, v) > 0.000_000_000_000_000_000_000_001
  }

  // ----- Cauchy-Schwarz -----

  lemma SquareIsPositive(x: real)
    ensures x * x >= 0.0
    ensures x != 0.0 ==> x * x > 0.0
  {
  }

  lemma ZeroSquare(x: real)
    requires x * x <= 0.0
    ensures x == 0.0
  {
    if x != 0.0 {
      calc {
        0.0;
        < { SquareIsPositive(x); }
        x * x;
        <= 0.0;
      }
    }
  }

  lemma SignOfProduct(x: real, y: real)
    requires x > 0.0
    ensures x * y >= 0.0 <==> y >= 0.0
  {
  }

  predicate Bounded(aa: real, ab: real, bb: real) {
    aa >= 0.0 && bb >= 0.0 && ab * ab <= aa * bb
  }

  lemma CompletedSquare(x: real, y: real, aa: real, ab: real, bb: real)
    requires Bounded(aa, ab, bb)
    ensures aa * (aa * y * y + bb * x * x - 2.0 * ab * x * y) >= 0.0
  {
    SquareIsPositive(aa * y - ab * x);
    SquareIsPositive(x);
    assert (aa * bb - ab * ab) * (x * x) >= 0.0;
    assert aa * (aa * y * y + bb * x * x - 2.0 * ab * x * y)
        == (aa * y - ab * x) * (aa * y - ab * x) + (aa * bb - ab * ab) * (x * x);
  }

  lemma FlatCrossTerm(x: real, y: real, aa: real, ab: real, bb: real)
    requires aa == 0.0 && ab == 0.0 && bb >= 0.0
    ensures 2.0 * ab * x * y <= aa * y * y + bb * x * x
  {
    SquareIsPositive(x);
    assert bb * (x * x) >= 0.0;
  }

  lemma CrossTerm(x: real, y: real, aa: real, ab: real, bb: real)
    requires Bounded(aa, ab, bb)
    ensures 2.0 * ab * x * y <= aa * y * y + bb * x * x
  {
    if aa > 0.0 {
      CompletedSquare(x, y, aa, ab, bb);
      SignOfProduct(aa, aa * y * y + bb * x * x - 2.0 * ab * x * y);
    } else {
      calc {
        ab * ab;
        <= aa * bb;
        == 0.0;
      }
      ZeroSquare(ab);
      FlatCrossTerm(x, y, aa, ab, bb);
    }
  }

  lemma OneMoreDimension(x: real, y: real, aa: real, ab: real, bb: real)
    requires Bounded(aa, ab, bb)
    ensures Bounded(x * x + aa, x * y + ab, y * y + bb)
  {
    SquareIsPositive(x);
    SquareIsPositive(y);
    CrossTerm(x, y, aa, ab, bb);
    assert (x * x + aa) * (y * y + bb) - (x * y + ab) * (x * y + ab)
        == (aa * bb - ab * ab) + (aa * y * y + bb * x * x - 2.0 * ab * x * y);
  }

  lemma {:induction false} CauchySchwarz(a: Vector, b: Vector)
    requires |a| == |b|
    ensures Bounded(Dot(a, a), Dot(a, b), Dot(b, b))
  {
    if a != [] {
      CauchySchwarz(a[1..], b[1..]);
      OneMoreDimension(a[0], b[0], Dot(a[1..], a[1..]), Dot(a[1..], b[1..]), Dot(b[1..], b[1..]));
    }
  }

  // ----- the clamp -----

  lemma SquaresCompare(x: real, y: real)
    requires x >= 0.0
    ensures x < y ==> x * x < y * y
  {
    if x < y {
      assert x * (y - x) >= 0.0 && (y - x) * y > 0.0;
      assert x * (y - x) == x * y - x * x && (y - x) * y == y * y - x * y;
    }
  }

  lemma Between(d: real, p: real)
    requires p > 0.0 && d * d <= p * p
    ensures -p <= d <= p
  {
    SquaresCompare(p, d);
    SquaresCompare(p, -d);
    assert (-d) * (-d) == d * d;
  }

  lemma Divide(d: real, e: real, p: real)
    requires p > 0.0 && d <= e
    ensures d / p <= e / p
  {
    assert (e / p - d / p) * p == e - d;
    SignOfProduct(p, e / p - d / p);
  }

  lemma Quotient(d: real, p: real)
    requires p > 0.0 && -p <= d <= p
    ensures -1.0 <= d / p <= 1.0
  {
    Divide(d, p, p);
    Divide(-p, d, p);
  }

  lemma SquaresMultiply(m: real, n: real, aa: real, bb: real)
    requires m * m == aa && n * n == bb
    ensures (m * n) * (m * n) == aa * bb
  {
    assert (m * n) * (m * n) == (m * m) * (n * n);
  }

  lemma ProductIsPositive(m: real, n: real)
    requires m > 0.0 && n > 0.0
    ensures m * n > 0.0
  {
  }

  lemma ScoreInRange(d: real, aa: real, bb: real, m: real, n: real)
    requires IsRoot(m, aa) && IsRoot(n, bb) && m > 0.0 && n > 0.0 && Bounded(aa, d, bb)
    ensures m * n > 0.0 && -1.0 <= d / (m * n) <= 1.0
    ensures Score(d, m, n) == d / (m * n)
  {
    ProductIsPositive(m, n);
    SquaresMultiply(m, n, aa, bb);
    Between(d, m * n);
    Quotient(d, m * n);
  }

  // In exact arithmetic the clamp never changes the value, in any dimension.
  lemma ClampIsIdle(a: Vector, b: Vector, m: real, n: real)
    requires |a| == |b| && a != [] && IsRoot(m, Dot(a, a)) && IsRoot(n, Dot(b, b)) && m > 0.0 && n > 0.0
    ensures m * n > 0.0 && -1.0 <= Dot(a, b) / (m * n) <= 1.0
    ensures Similarity(a, b, m, n) == Dot(a, b) / (m * n)
  {
    CauchySchwarz(a, b);
    ScoreInRange(Dot(a, b), Dot(a, a), Dot(b, b), m, n);
  }

  // Vectors of different lengths or without any, and zero vectors, are not similar.
  lemma NothingInCommon(a: Vector, b: Vector, m: real, n: real)
    requires |a| != |b| || a == [] || m <= 0.0 || n <= 0.0
    ensures Similarity(a, b, m, n) == 0.0
  {
  }

  // ----- symmetry and scaling -----

  lemma {:induction false} DotCommutes(a: Vector, b: Vector)
    requires |a| == |b|
    ensures Dot(a, b) == Dot(b, a)
  {
    if a != [] {
      DotCommutes(a[1..], b[1..]);
    }
  }

  lemma Symmetric(a: Vector, b: Vector, m: real, n: real)
    ensures Similarity(a, b, m, n) == Similarity(b, a, n, m)
  {
    if |a| == |b| {
      DotCommutes(a, b);
      assert m * n == n * m;
    }
  }

  lemma {:induction false} DotScales(c: real, a: Vector, b: Vector)
    requires |a| == |b|
    ensures Dot(Scale(c, a), b) == c * Dot(a, b)
  {
    if a != [] {
      assert Scale(c, a)[1..] == Scale(c, a[1..]);
      DotScales(c, a[1..], b[1..]);
      Distribute(c, a[0], b[0], Dot(a[1..], b[1..]));
    }
  }

  lemma Distribute(c: real, x: real, y: real, rest: real)
    ensures (c * x) * y + c * rest == c * (x * y + rest)
  {
  }

  lemma RootIsUnique(s: real, t: real, x: real)
    requires IsRoot(s, x) && IsRoot(t, x)
    ensures s == t
  {
    SquaresCompare(s, t);
    SquaresCompare(t, s);
  }

  // A scaled vector has the scaled length, and no other.
  lemma LengthScales(c: real, a: Vector, m: real, k: real)
    requires c > 0.0 && IsRoot(m, Dot(a, a)) && IsRoot(k, Dot(Scale(c, a), Scale(c, a)))
    ensures k == c * m
  {
    var s := Scale(c, a);
    DotScales(c, a, s);
    DotCommutes(a, s);
    DotScales(c, a, a);
    SquareOfScaled(c, m, Dot(a, a));
    RootIsUnique(k, c * m, Dot(s, s));
  }

  lemma SquareOfScaled(c: real, m: real, x: real)
    requires c > 0.0 && IsRoot(m, x)
    ensures IsRoot(c * m, c * (c * x))
  {
    assert (c * m) * (c * m) == c * (c * (m * m));
  }

  lemma QuotientScales(c: real, d: real, e: real, p: real, q: real)
    requires c > 0.0 && p > 0.0 && q > 0.0 && e == c * d && q == c * p
    ensures e / q == d / p
  {
    var x := d / p;
    assert x * p == d;
    assert x * q == e by {
      assert x * (c * p) == c * (x * p);
    }
  }

  lemma ProductScales(c: real, m: real, k: real, n: real)
    requires k == c * m
    ensures k * n == c * (m * n)
  {
  }

  lemma ScoreIsQuotient(dot: real, m: real, n: real, p: real)
    requires m > 0.0 && n > 0.0 && p == m * n
    ensures p > 0.0 && Score(dot, m, n) == Clamp(dot / p)
  {
    calc {
      p;
      == m * n;
      > { ProductIsPositive(m, n); }
      0.0;
    }
  }

  lemma ClampScales(c: real, d: real, e: real, p: real, q: real)
    requires c > 0.0 && p > 0.0 && q > 0.0 && e == c * d && q == c * p
    ensures Clamp(e / q) == Clamp(d / p)
  {
    QuotientScales(c, d, e, p, q);
  }

  lemma ScoreScales(c: real, dot: real, scaled: real, m: real, k: real, n: real)
    requires c > 0.0 && scaled == c * dot && k == c * m
    ensures Score(scaled, k, n) == Score(dot, m, n)
  {
    SignOfScaled(c, m, k);
    if m > 0.0 && n > 0.0 {
      ProductScales(c, m, k, n);
      ScoreIsQuotient(dot, m, n, m * n);
      ScoreIsQuotient(scaled, k, n, k * n);
      ClampScales(c, dot, scaled, m * n, k * n);
    }
  }

  lemma SignOfScaled(c: real, m: real, k: real)
    requires c > 0.0 && k == c * m
    ensures k <= 0.0 <==> m <= 0.0
  {
    SignOfProduct(c, m);
    SignOfProduct(c, -m);
    assert c * (-m) == -(c * m);
  }

  lemma ScalingTheFirst(c: real, a: Vector, b: Vector, m: real, k: real, n: real)
    requires c > 0.0 && k == c * m
    ensures Similarity(Scale(c, a), b, k, n) == Similarity(a, b, m, n)
  {
    if |a| == |b| && a != [] {
      DotScales(c, a, b);
      ScoreScales(c, Dot(a, b), Dot(Scale(c, a), b), m, k, n);
    }
  }

  // A positive factor on either vector leaves the similarity as it is.
  lemma ScalingKeepsSimilarity(c: real, a: Vector, b: Vector, m: real, n: real, k: real)
    requires c > 0.0 && IsRoot(m, Dot(a, a)) && IsRoot(k, Dot(Scale(c, a), Scale(c, a)))
    ensures Similarity(Scale(c, a), b, k, n) == Similarity(a, b, m, n)
    ensures Similarity(b, Scale(c, a), n, k) == Similarity(b, a, n, m)
  {
    LengthScales(c, a, m, k);
    ScalingTheFirst(c, a, b, m, k, n);
    Symmetric(Scale(c, a), b, k, n);
    Symmetric(a, b, m, n);
  }

  // Normalizing both vectors first preserves every threshold decision.
  lemma NormalizingKeepsDecisions(a: Vector, b: Vector, m: real, n: real, k: real, l: real, threshold: real)
    requires IsRoot(m, Dot(a, a)) && IsRoot(n, Dot(b, b)) && m > 0.0 && n > 0.0
    requires IsRoot(k, Dot(Scale(1.0 / m, a), Scale(1.0 / m, a)))
    requires IsRoot(l, Dot(Scale(1.0 / n, b), Scale(1.0 / n, b)))
    ensures k == 1.0 && l == 1.0
    ensures Similarity(Scale(1.0 / m, a), Scale(1.0 / n, b), k, l) >= threshold
       <==> Similarity(a, b, m, n) >= threshold
  {
    LengthScales(1.0 / m, a, m, k);
    LengthScales(1.0 / n, b, n, l);
    ScalingKeepsSimilarity(1.0 / m, a, Scale(1.0 / n, b), m, l, k);
    ScalingKeepsSimilarity(1.0 / n, b, a, n, m, l);
  }

  lemma FullScore(m: real, d: real)
    requires IsRoot(m, d) && m > 0.0
    ensures d > 0.0 && Score(d, m, m) == 1.0
  {
    calc {
      d;
      == m * m;
      > { ProductIsPositive(m, m); }
      0.0;
    }
    assert d / d == 1.0;
  }

  // A vector that is not zero is fully similar to every positive multiple of itself.
  lemma SimilarToItself(c: real, a: Vector, m: real, k: real)
    requires c > 0.0 && IsRoot(m, Dot(a, a)) && m > 0.0
    requires IsRoot(k, Dot(Scale(c, a), Scale(c, a)))
    ensures Similarity(Scale(c, a), a, k, m) == 1.0
  {
    FullScore(m, Dot(a, a));
    ScalingKeepsSimilarity(c, a, a, m, m, k);
  }

  // The length decides as its square does.
  lemma UsableByLength(v: Vector, m: real)
    requires IsRoot(m, Dot(v, v)) && |v| == DIMENSION && forall x | x in v :: -100.0 <= x <= 100.0
    ensures Usable(v) <==> m > 0.000_000_000_001
  {
    SquaresCompare(0.000_000_000_001, m);
    SquaresCompare(m, 0.000_000_000_001);
  }

  // ----- unit vectors -----

  function Axis(n: nat, i: int): (v: Vector)
    ensures |v| == n
  {
    seq(n, j requires 0 <= j < n => if j == i then 1.0 else 0.0)
  }

  lemma {:induction false} DotOfAxes(n: nat, i: int, j: int)
    ensures Dot(Axis(n, i), Axis(n, j)) == if i == j && 0 <= i < n then 1.0 else 0.0
  {
    if n > 0 {
      assert Axis(n, i)[1..] == Axis(n - 1, i - 1) && Axis(n, j)[1..] == Axis(n - 1, j - 1);
      DotOfAxes(n - 1, i - 1, j - 1);
    }
  }

  // Two coordinate axes are usable vectors, and not similar at all.
  lemma AxesAreUsable(i: nat, j: nat)
    requires i < DIMENSION && j < DIMENSION
    ensures Usable(Axis(DIMENSION, i)) && IsRoot(1.0, Dot(Axis(DIMENSION, i), Axis(DIMENSION, i)))
    ensures Similarity(Axis(DIMENSION, i), Axis(DIMENSION, j), 1.0, 1.0) == if i == j then 1.0 else 0.0
  {
    DotOfAxes(DIMENSION, i, i);
    DotOfAxes(DIMENSION, i, j);
  }
}

// Seeds that are nearly the same direction are searched once.
module SeedVectors {
  import opened Common

  type Vector = seq<real>

  // `normalize` yields nothing for an unusable embedding.
  type Normalizer = Vector -> Option<Vector>
  type Similarity = (Vector, Vector) -> real

  const DUPLICATE_FROM: real := 0.995

  predicate Near(sim: Similarity, v: Vector, kept: seq<Vector>) {
    exists k | 0 <= k < |kept| :: sim(v, kept[k]) >= DUPLICATE_FROM
  }

  function Deduped(normalize: Normalizer, sim: Similarity, embeddings: seq<Vector>): seq<Vector> {
    if embeddings == [] then []
    else
      var kept := Deduped(normalize, sim, embeddings[..|embeddings| - 1]);
      var normalized := normalize(embeddings[|embeddings| - 1]);
      if normalized.None? || Near(sim, normalized.value, kept) then kept else kept + [normalized.value]
  }

  method DedupeSeedEmbeddings(normalize: Normalizer, sim: Similarity, embeddings: seq<Vector>)
    returns (deduped: seq<Vector>)
    ensures deduped == Deduped(normalize, sim, embeddings)
  {
    deduped := [];
    for i := 0 to |embeddings|
      invariant deduped == Deduped(normalize, sim, embeddings[..i])
    {
      assert embeddings[..i + 1][..i] == embeddings[..i];
      var normalized := normalize(embeddings[i]);
      if normalized.None? {
        continue;
      }
      if Near(sim, normalized.value, deduped) {
        continue;
      }
      deduped := deduped + [normalized.value];
    }
    assert embeddings[..|embeddings|] == embeddings;
  }

  ghost predicate Apart(sim: Similarity, kept: seq<Vector>) {
    forall i, j | 0 <= i < j < |kept| :: sim(kept[j], kept[i]) < DUPLICATE_FROM
  }

  lemma MoreApart(sim: Similarity, kept: seq<Vector>, v: Vector)
    requires Apart(sim, kept) && !Near(sim, v, kept)
    ensures Apart(sim, kept + [v])
  {
  }

  // No kept seed is a near-duplicate of an earlier one.
  lemma {:induction false} DedupedAreApart(normalize: Normalizer, sim: Similarity, embeddings: seq<Vector>)
    ensures Apart(sim, Deduped(normalize, sim, embeddings))
  {
    if embeddings != [] {
      var last := embeddings[|embeddings| - 1];
      DedupedAreApart(normalize, sim, embeddings[..|embeddings| - 1]);
      var before := Deduped(normalize, sim, embeddings[..|embeddings| - 1]);
      if normalize(last).Some? && !Near(sim, normalize(last).value, before) {
        MoreApart(sim, before, normalize(last).value);
      }
    }
  }

  ghost predicate UsableNearItself(normalize: Normalizer, sim: Similarity, e: Vector) {
    normalize(e).Some? ==> sim(normalize(e).value, normalize(e).value) >= DUPLICATE_FROM
  }

  ghost predicate Covered(normalize: Normalizer, sim: Similarity, e: Vector, kept: seq<Vector>) {
    normalize(e).Some? ==> Near(sim, normalize(e).value, kept)
  }

  lemma CoveredByMore(normalize: Normalizer, sim: Similarity, e: Vector, kept: seq<Vector>, v: Vector)
    requires Covered(normalize, sim, e, kept)
    ensures Covered(normalize, sim, e, kept + [v])
  {
    if normalize(e).Some? {
      var k :| 0 <= k < |kept| && sim(normalize(e).value, kept[k]) >= DUPLICATE_FROM;
      assert (kept + [v])[k] == kept[k];
    }
  }

  // Every usable embedding is a near-duplicate of one that is kept.
  lemma {:induction false} DedupedCovers(normalize: Normalizer, sim: Similarity, embeddings: seq<Vector>)
    requires forall e | e in embeddings :: UsableNearItself(normalize, sim, e)
    ensures forall e | e in embeddings :: Covered(normalize, sim, e, Deduped(normalize, sim, embeddings))
  {
    if embeddings != [] {
      var init, last := embeddings[..|embeddings| - 1], embeddings[|embeddings| - 1];
      DedupedCovers(normalize, sim, init);
      assert embeddings == init + [last];
      var before, kept := Deduped(normalize, sim, init), Deduped(normalize, sim, embeddings);
      forall e | e in embeddings ensures Covered(normalize, sim, e, kept) {
        if e in init && kept != before {
          CoveredByMore(normalize, sim, e, before, kept[|before|]);
        } else if e !in init && kept != before {
          assert UsableNearItself(normalize, sim, last) && kept[|before|] == normalize(last).value;
        }
      }
    }
  }
}
