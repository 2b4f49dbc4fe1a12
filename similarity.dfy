/**
 * The similarity engine: cosine similarity between feature vectors, the
 * attribute overlap score, and the two best-of-N matchers built on them.
 *
 * Scores are reals. Dafny has no real square root, so the Euclidean norm is
 * a parameter `norm`; the operations accept any function, as the code's
 * guards do not depend on what the norm is, and the lemmas that need the
 * Euclidean norm ask for `IsNormOf(norm, v)` on the vectors they speak of.
 */
module Similarity {
  import opened Values
  import opened Text
  import opened Selection

  type Vector = seq<real>

  // ---------------------------------------------------------------------
  // Vectors
  // ---------------------------------------------------------------------

  /** `_to_vec`: None exactly for None; the float32 conversion and flattening are not modelled. */
  function ToVec(v: Option<Vector>): (r: Option<Vector>)
    ensures r.None? <==> v.None?
    ensures r.Some? ==> r.value == v.value
  {
    v
  }

  /** `np.dot` on two vectors of equal length: the sum of the pairwise products. */
  function Dot(a: Vector, b: Vector): (r: real)
    requires |a| == |b|
  {
    if a == [] then 0.0 else a[0] * b[0] + Dot(a[1..], b[1..])
  }

  /** The dot product with the zero vector is zero. */
  lemma {:induction false} DotZeroLeft(a: Vector, b: Vector)
    requires |a| == |b|
    requires forall i | 0 <= i < |a| :: a[i] == 0.0
    ensures Dot(a, b) == 0.0
  {
    if a != [] {
      assert forall i | 0 <= i < |a| - 1 :: a[1..][i] == a[i + 1];
      DotZeroLeft(a[1..], b[1..]);
    }
  }

  /** n is the Euclidean norm of v: non-negative and its square is v . v. */
  ghost predicate IsNormOf(norm: Vector -> real, v: Vector)
  {
    norm(v) >= 0.0 && norm(v) * norm(v) == Dot(v, v)
  }

  /** The cases the guards of cosine_similarity catch before any arithmetic on the pair. */
  predicate Degenerate(a: Vector, b: Vector, norm: Vector -> real)
  {
    |a| == 0 || |b| == 0 || norm(a) * norm(b) == 0.0
  }

  /** The pairs np.dot accepts once the guards have passed: equal lengths. */
  predicate Comparable(a: Vector, b: Vector, norm: Vector -> real)
  {
    Degenerate(a, b, norm) || |a| == |b|
  }

  /** `cosine_similarity`: dot(a, b) / (|a| |b|), and 0.0 when a guard fires. */
  function CosineSimilarity(a: Vector, b: Vector, norm: Vector -> real): (r: real)
    requires Comparable(a, b, norm)
    ensures Degenerate(a, b, norm) ==> r == 0.0
    ensures !Degenerate(a, b, norm) ==> |a| == |b| && r * (norm(a) * norm(b)) == Dot(a, b)
  {
    if |a| == 0 || |b| == 0 then 0.0
    else
      var denom := norm(a) * norm(b);
      if denom == 0.0 then 0.0 else Dot(a, b) / denom
  }

  lemma {:induction false} DotSymmetric(a: Vector, b: Vector)
    requires |a| == |b|
    ensures Dot(a, b) == Dot(b, a)
  {
    if a != [] {
      DotSymmetric(a[1..], b[1..]);
    }
  }

  lemma {:induction false} DotSelfNonNegative(a: Vector)
    ensures Dot(a, a) >= 0.0
  {
    if a != [] {
      DotSelfNonNegative(a[1..]);
    }
  }

  // Facts of real arithmetic the solver does not find alone. Positivity of a
  // square is stated through Positive, which keeps the fact usable inside sums.

  predicate Positive(r: real)
  {
    r > 0.0
  }

  lemma MulPositive(x: real, y: real)
    requires x > 0.0 && y > 0.0
    ensures Positive(x * y)
  {
  }

  lemma SquarePositive(x: real)
    requires x != 0.0
    ensures Positive(x * x)
  {
    assert x * x > 0.0;
  }

  lemma SquarePlusPositive(x: real, t: real)
    requires x != 0.0 && t >= 0.0
    ensures x * x + t > 0.0
  {
    SquarePositive(x);
  }

  /** A non-negative number is zero exactly when its square is. */
  lemma SquareZeroIff(n: real, d: real)
    requires n >= 0.0 && n * n == d
    ensures n == 0.0 <==> d == 0.0
  {
    if n != 0.0 && d == 0.0 {
      SquarePositive(n);
    }
  }

  /** r * (p * q) == d with p * q == d non-zero forces r == 1. */
  lemma CancelFactor(r: real, p: real, q: real, d: real)
    requires p * q == d && d != 0.0 && r * (p * q) == d
    ensures r == 1.0
  {
    if r > 1.0 {
      if d > 0.0 { MulPositive(r - 1.0, d); } else { MulPositive(r - 1.0, -d); }
    } else if r < 1.0 {
      if d > 0.0 { MulPositive(1.0 - r, d); } else { MulPositive(1.0 - r, -d); }
    }
  }

  lemma UnitSquare(n: real)
    requires n >= 0.0 && n * n == 1.0
    ensures n == 1.0
  {
    if n > 1.0 {
      MulPositive(n - 1.0, n + 1.0);
    } else if 0.0 < n < 1.0 {
      MulPositive(1.0 - n, n);
    }
  }

  /** t / d lies in [-1, 1] when |t| <= d. */
  lemma QuotientBound(t: real, d: real, r: real)
    requires d > 0.0 && -d <= t <= d && r * d == t
    ensures -1.0 <= r <= 1.0
  {
    if r > 1.0 {
      MulPositive(r - 1.0, d);
    } else if r < -1.0 {
      MulPositive(-1.0 - r, d);
    }
  }

  /** v . v is zero exactly for the zero vector. */
  lemma {:induction false} DotSelfZeroIff(a: Vector)
    ensures Dot(a, a) == 0.0 <==> forall i | 0 <= i < |a| :: a[i] == 0.0
  {
    if a != [] {
      DotSelfZeroIff(a[1..]);
      DotSelfNonNegative(a[1..]);
      assert forall i | 1 <= i < |a| :: a[i] == a[1..][i - 1];
      assert Dot(a, a) == a[0] * a[0] + Dot(a[1..], a[1..]);
      if a[0] != 0.0 {
        SquarePlusPositive(a[0], Dot(a[1..], a[1..]));
      }
    }
  }

  /** cosine_similarity is symmetric in its two vectors. */
  lemma CosineSymmetric(a: Vector, b: Vector, norm: Vector -> real)
    requires Comparable(a, b, norm)
    ensures Comparable(b, a, norm)
    ensures CosineSimilarity(a, b, norm) == CosineSimilarity(b, a, norm)
  {
    if !Degenerate(a, b, norm) {
      DotSymmetric(a, b);
      assert norm(a) * norm(b) == norm(b) * norm(a);
    }
  }

  /** Under the Euclidean norm a norm is zero exactly when v . v is. */
  lemma NormZeroIff(norm: Vector -> real, v: Vector)
    requires IsNormOf(norm, v)
    ensures norm(v) == 0.0 <==> Dot(v, v) == 0.0
  {
    SquareZeroIff(norm(v), Dot(v, v));
  }

  /** Under the Euclidean norm the denominator guard fires exactly for a zero vector. */
  lemma DenominatorZeroIff(a: Vector, b: Vector, norm: Vector -> real)
    requires IsNormOf(norm, a) && IsNormOf(norm, b)
    ensures norm(a) * norm(b) == 0.0 <==>
              (forall i | 0 <= i < |a| :: a[i] == 0.0) || (forall i | 0 <= i < |b| :: b[i] == 0.0)
  {
    DotSelfZeroIff(a);
    DotSelfZeroIff(b);
    NormZeroIff(norm, a);
    NormZeroIff(norm, b);
    if norm(a) != 0.0 && norm(b) != 0.0 {
      MulPositive(norm(a), norm(b));
    }
  }

  /** A vector other than the zero vector has similarity 1.0 with itself. */
  lemma CosineSelf(a: Vector, norm: Vector -> real)
    requires IsNormOf(norm, a)
    requires exists i | 0 <= i < |a| :: a[i] != 0.0
    ensures CosineSimilarity(a, a, norm) == 1.0
  {
    DotSelfZeroIff(a);
    NormZeroIff(norm, a);
    CancelFactor(CosineSimilarity(a, a, norm), norm(a), norm(a), Dot(a, a));
  }

  /** The zero vector scores 0.0 against every vector it can be compared with. */
  lemma ZeroVectorScoresZero(a: Vector, b: Vector, norm: Vector -> real)
    requires Comparable(a, b, norm) && IsNormOf(norm, a) && IsNormOf(norm, b)
    requires forall i | 0 <= i < |a| :: a[i] == 0.0
    ensures CosineSimilarity(a, b, norm) == 0.0
  {
    DenominatorZeroIff(a, b, norm);
  }

  /** The identity behind the cross-term bound: A(Ay^2 + Bx^2 - 2Cxy) = (Ay - Cx)^2 + x^2(AB - C^2). */
  lemma CrossTermIdentity(A: real, B: real, C: real, x: real, y: real)
    ensures A * (A * (y * y) + B * (x * x) - 2.0 * C * (x * y))
         == (A * y - C * x) * (A * y - C * x) + (x * x) * (A * B - C * C)
  {
  }

  /** e >= 0 when A * e == s with A > 0 and s >= 0. */
  lemma PositiveFactor(A: real, e: real, s: real)
    requires A > 0.0 && A * e == s && s >= 0.0
    ensures e >= 0.0
  {
    if e < 0.0 {
      MulPositive(A, -e);
    }
  }

  /** A sum of a square and a product of non-negatives is non-negative. */
  lemma SquarePlusProduct(u: real, v: real, w: real)
    requires v >= 0.0 && w >= 0.0
    ensures u * u + v * w >= 0.0
  {
    if u != 0.0 {
      SquarePositive(u);
    }
    if v != 0.0 && w != 0.0 {
      MulPositive(v, w);
    }
  }

  /** A square is never negative. */
  lemma NonNegSquare(x: real)
    ensures x * x >= 0.0
  {
    if x != 0.0 {
      SquarePositive(x);
    }
  }

  /** 2Cxy <= Ay^2 + Bx^2 whenever C^2 <= AB with A, B non-negative. */
  lemma CrossTermBound(A: real, B: real, C: real, x: real, y: real)
    requires A >= 0.0 && B >= 0.0 && C * C <= A * B
    ensures 2.0 * C * (x * y) <= A * (y * y) + B * (x * x)
  {
    if A == 0.0 {
      if C != 0.0 {
        SquarePositive(C);
      }
      assert B * (x * x) >= 0.0;
    } else {
      CrossTermIdentity(A, B, C, x, y);
      NonNegSquare(x);
      SquarePlusProduct(A * y - C * x, x * x, A * B - C * C);
      PositiveFactor(A, A * (y * y) + B * (x * x) - 2.0 * C * (x * y),
                     (A * y - C * x) * (A * y - C * x) + (x * x) * (A * B - C * C));
    }
  }

  /** The Cauchy-Schwarz inequality, in squared form. */
  lemma {:induction false} CauchySchwarz(a: Vector, b: Vector)
    requires |a| == |b|
    ensures Dot(a, b) * Dot(a, b) <= Dot(a, a) * Dot(b, b)
  {
    if a != [] {
      var a', b' := a[1..], b[1..];
      CauchySchwarz(a', b');
      DotSelfNonNegative(a');
      DotSelfNonNegative(b');
      CrossTermBound(Dot(a', a'), Dot(b', b'), Dot(a', b'), a[0], b[0]);
      assert Dot(a, b) == a[0] * b[0] + Dot(a', b');
      assert Dot(a, a) == a[0] * a[0] + Dot(a', a');
      assert Dot(b, b) == b[0] * b[0] + Dot(b', b');
    }
  }

  /** |t| <= d follows from t^2 <= d^2 when d is non-negative. */
  lemma AbsFromSquares(t: real, d: real)
    requires d >= 0.0 && t * t <= d * d
    ensures -d <= t <= d
  {
    if t > d {
      MulPositive(t - d, t + d);
    } else if t < -d {
      MulPositive(d - t, -t - d);
    }
  }

  /** Under the Euclidean norm every cosine score lies in [-1, 1]. */
  lemma CosineBounds(a: Vector, b: Vector, norm: Vector -> real)
    requires Comparable(a, b, norm)
    requires IsNormOf(norm, a) && IsNormOf(norm, b)
    ensures -1.0 <= CosineSimilarity(a, b, norm) <= 1.0
  {
    if !Degenerate(a, b, norm) {
      var na, nb := norm(a), norm(b);
      CauchySchwarz(a, b);
      assert na > 0.0 && nb > 0.0;
      MulPositive(na, nb);
      ProductSquare(na, nb, Dot(a, a), Dot(b, b));
      AbsFromSquares(Dot(a, b), na * nb);
      QuotientBound(Dot(a, b), na * nb, CosineSimilarity(a, b, norm));
    }
  }

  /** (pq)^2 == PQ when p^2 == P and q^2 == Q. */
  lemma ProductSquare(p: real, q: real, P: real, Q: real)
    requires p * p == P && q * q == Q
    ensures (p * q) * (p * q) == P * Q
  {
  }

  // ---------------------------------------------------------------------
  // Image matching
  // ---------------------------------------------------------------------

  /** The candidate's vector can be scored against the query without np.dot raising. */
  predicate CanScore(query: Vector, animal: Animal, norm: Vector -> real)
  {
    animal.featureVector.None? || Comparable(query, animal.featureVector.value, norm)
  }

  predicate CanScoreAll(query: Vector, animals: seq<Animal>, norm: Vector -> real)
  {
    forall i | 0 <= i < |animals| :: CanScore(query, animals[i], norm)
  }

  /** One iteration's score: None when the candidate has no feature vector and is skipped. */
  function ImageScore(query: Vector, animal: Animal, norm: Vector -> real): (r: Option<real>)
    requires CanScore(query, animal, norm)
    ensures r.None? <==> animal.featureVector.None?
    ensures r.Some? ==> r.value == CosineSimilarity(query, animal.featureVector.value, norm)
  {
    match ToVec(animal.featureVector)
    case None => None
    case Some(v) => Some(CosineSimilarity(query, v, norm))
  }

  function ImageScores(query: Vector, animals: seq<Animal>, norm: Vector -> real): (r: seq<Option<real>>)
    requires CanScoreAll(query, animals, norm)
    ensures |r| == |animals|
    ensures forall i | 0 <= i < |animals| :: r[i] == ImageScore(query, animals[i], norm)
  {
    seq(|animals|, i requires 0 <= i < |animals| => ImageScore(query, animals[i], norm))
  }

  /** What `find_best_image_match` returns, as a function of its inputs. */
  function ImageMatch(query: Vector, animals: seq<Animal>, norm: Vector -> real): (m: Match<Animal>)
    requires CanScoreAll(query, animals, norm)
  {
    SelectBest(animals, ImageScores(query, animals, norm))
  }

  /**
   * `find_best_image_match`. The query is a plain list here, so the `None`
   * test on its conversion (`if q_vec is None`) never succeeds: `.value` below is
   * proved to exist.
   */
  method FindBestImageMatch(query: Vector, animals: seq<Animal>, norm: Vector -> real)
    returns (best: Option<Animal>, bestScore: Option<real>)
    requires CanScoreAll(query, animals, norm)
    ensures Match(best, bestScore) == ImageMatch(query, animals, norm)
    ensures Describes(animals, ImageScores(query, animals, norm), Match(best, bestScore))
  {
    var qVec := ToVec(Some(query)).value;
    ghost var scores := ImageScores(query, animals, norm);
    ghost var bestIndex: Option<nat> := None;
    var bestAnimal: Option<Animal> := None;
    var bestSoFar: real := Sentinel;
    for i := 0 to |animals|
      invariant Scan(scores[..i]) == Pick(bestIndex, bestSoFar)
      invariant bestIndex.Some? ==> bestIndex.value < i
      invariant bestAnimal == if bestIndex.None? then None else Some(animals[bestIndex.value])
    {
      ScanStep(scores, i);
      var vec := ToVec(animals[i].featureVector);
      if vec.None? {
        continue;
      }
      var score := CosineSimilarity(qVec, vec.value, norm);
      if score > bestSoFar {
        bestSoFar := score;
        bestAnimal := Some(animals[i]);
        bestIndex := Some(i);
      }
    }
    assert scores[..|animals|] == scores;
    SelectBestDescribes(animals, scores);
    if bestAnimal.None? {
      return None, None;
    }
    return bestAnimal, Some(bestSoFar);
  }

  /** A candidate without a feature vector is never the match. */
  lemma UnusableNeverMatched(query: Vector, animals: seq<Animal>, norm: Vector -> real, k: int)
    requires CanScoreAll(query, animals, norm)
    requires 0 <= k < |animals| && animals[k].featureVector.None?
    ensures Scan(ImageScores(query, animals, norm)).index != Some(k)
  {
    ScanFindsFirstBest(ImageScores(query, animals, norm));
  }

  /** With no candidate that has a feature vector (an empty catalog included), there is no match. */
  lemma NoVectorsNoImageMatch(query: Vector, animals: seq<Animal>, norm: Vector -> real)
    requires forall i | 0 <= i < |animals| :: animals[i].featureVector.None?
    ensures ImageMatch(query, animals, norm) == Match(None, None)
  {
    ScanFindsFirstBest(ImageScores(query, animals, norm));
  }

  /**
   * Under the Euclidean norm a returned score lies in (-1, 1], and there is
   * no match exactly when every scored candidate has similarity -1.0.
   */
  lemma ImageMatchScoreRange(query: Vector, animals: seq<Animal>, norm: Vector -> real)
    requires CanScoreAll(query, animals, norm)
    requires IsNormOf(norm, query)
    requires forall i | 0 <= i < |animals| && animals[i].featureVector.Some? ::
               IsNormOf(norm, animals[i].featureVector.value)
    ensures ImageMatch(query, animals, norm).score.Some? ==>
              -1.0 < ImageMatch(query, animals, norm).score.value <= 1.0
    ensures ImageMatch(query, animals, norm).best.None? <==>
              forall i | 0 <= i < |animals| && animals[i].featureVector.Some? ::
                CosineSimilarity(query, animals[i].featureVector.value, norm) == -1.0
  {
    var scores := ImageScores(query, animals, norm);
    SelectBestDescribes(animals, scores);
    forall i | 0 <= i < |animals| && animals[i].featureVector.Some?
      ensures -1.0 <= CosineSimilarity(query, animals[i].featureVector.value, norm) <= 1.0
    {
      CosineBounds(query, animals[i].featureVector.value, norm);
    }
    assert forall i | 0 <= i < |animals| && animals[i].featureVector.Some? ::
      scores[i] == Some(CosineSimilarity(query, animals[i].featureVector.value, norm));
  }

  /**
   * The empty query: every candidate with a vector scores 0.0, so the first
   * such candidate is returned with score 0.0 rather than no match.
   */
  lemma EmptyQueryMatchesFirstUsable(animals: seq<Animal>, norm: Vector -> real, k: int)
    requires 0 <= k < |animals| && animals[k].featureVector.Some?
    requires forall i | 0 <= i < k :: animals[i].featureVector.None?
    ensures ImageMatch([], animals, norm) == Match(Some(animals[k]), Some(0.0))
  {
    var scores := ImageScores([], animals, norm);
    assert forall i | 0 <= i < |animals| && animals[i].featureVector.Some? :: scores[i] == Some(0.0);
    assert IsFirstBest(scores, k);
    var m := Match(Some(animals[k]), Some(0.0));
    assert Describes(animals, scores, m);
    DescribesUnique(animals, scores, m);
  }

  /** Query [1, 0] against [1, 0] and [0, 1]: the first candidate, with score 1.0. */
  lemma OrthogonalExample(norm: Vector -> real, first: Animal, second: Animal)
    requires IsNormOf(norm, [1.0, 0.0]) && IsNormOf(norm, [0.0, 1.0])
    requires first.featureVector == Some([1.0, 0.0]) && second.featureVector == Some([0.0, 1.0])
    ensures ImageMatch([1.0, 0.0], [first, second], norm) == Match(Some(first), Some(1.0))
  {
    var q := [1.0, 0.0];
    SquareZeroIff(norm([1.0, 0.0]), 1.0);
    SquareZeroIff(norm([0.0, 1.0]), 1.0);
    CosineSelf(q, norm);
    var scores := ImageScores(q, [first, second], norm);
    assert scores[0] == Some(1.0);
    assert Dot(q, [0.0, 1.0]) == 0.0;
    assert scores[1] == Some(0.0);
    assert IsFirstBest(scores, 0);
    var m := Match(Some(first), Some(1.0));
    assert Describes([first, second], scores, m);
    DescribesUnique([first, second], scores, m);
  }

  /** A candidate pointing exactly the other way scores -1.0 and cannot displace the sentinel. */
  lemma OppositeVectorNoMatch(norm: Vector -> real, only: Animal)
    requires IsNormOf(norm, [1.0]) && IsNormOf(norm, [-1.0])
    requires only.featureVector == Some([-1.0])
    ensures ImageMatch([1.0], [only], norm) == Match(None, None)
  {
    UnitSquare(norm([1.0]));
    UnitSquare(norm([-1.0]));
    var scores := ImageScores([1.0], [only], norm);
    assert scores[0] == Some(-1.0);
    ScanFindsFirstBest(scores);
  }

  // ---------------------------------------------------------------------
  // Attribute matching
  // ---------------------------------------------------------------------

  /** `float(v)`; parse stands for Python's float() on strings (NaN and infinities are not modelled). */
  function ToFloat(v: AttrValue, parse: string -> Option<real>): (r: Option<real>)
    ensures r.Some? <==> v.Num? || (v.Str? && parse(v.s).Some?)
    ensures v.Num? ==> r == Some(v.n)
    ensures v.Str? ==> r == parse(v.s)
  {
    match v
    case Num(n, _) => Some(n)
    case Str(s) => parse(s)
    case Other(_) => None
  }

  /** `str(v)`. */
  function Display(v: AttrValue): (r: string)
    ensures v.Str? ==> r == v.s
    ensures !v.Str? ==> r == v.text
  {
    match v
    case Num(_, text) => text
    case Str(s) => s
    case Other(text) => text
  }

  function Abs(x: real): (r: real)
  {
    if x < 0.0 then -x else x
  }

  function Max(x: real, y: real): (r: real)
  {
    if x >= y then x else y
  }

  /** d / m for d >= 0 and m >= 1 is non-negative, zero only for d == 0, and at least 1 exactly when d >= m. */
  lemma DivideFacts(d: real, m: real)
    requires d >= 0.0 && m >= 1.0
    ensures d / m >= 0.0
    ensures d / m == 0.0 <==> d == 0.0
    ensures d / m >= 1.0 <==> d >= m
  {
    var q := d / m;
    assert q * m == d;
    if q < 0.0 {
      MulPositive(-q, m);
    }
    if q > 0.0 {
      MulPositive(q, m);
    }
    if q >= 1.0 && d < m {
      if q > 1.0 { MulPositive(q - 1.0, m); }
    }
    if q < 1.0 && d >= m {
      MulPositive(1.0 - q, m);
    }
  }

  /** A total t of n scores, each in [0, 1], has its mean in [0, 1]. */
  lemma MeanFacts(t: real, n: real)
    requires 0.0 <= t <= n && n >= 1.0
    ensures 0.0 <= t / n <= 1.0
    ensures t / n == 1.0 <==> t == n
  {
    DivideFacts(t, n);
    if t / n == 1.0 {
      assert (t / n) * n == t;
    }
  }

  /**
   * The score of one numeric pair, `max(0.0, 1.0 - diff / max(abs(a_num), 1.0))`: closeness of the query value q to
   * the candidate value a, relative to max(|a|, 1), clipped at 0.
   */
  function NumericScore(q: real, a: real): (r: real)
    ensures 0.0 <= r <= 1.0
    ensures r == 1.0 <==> q == a
    ensures r == 0.0 <==> Abs(q - a) >= Max(Abs(a), 1.0)
  {
    DivideFacts(Abs(q - a), Max(Abs(a), 1.0));
    Max(0.0, 1.0 - Abs(q - a) / Max(Abs(a), 1.0))
  }

  /**
   * The score of one shared key, the body of the `try`/`except`: numeric when both values convert
   * with float(), otherwise 1.0 or 0.0 for equal or different normalised text.
   */
  function KeyScore(q: AttrValue, a: AttrValue, parse: string -> Option<real>): (r: real)
    ensures 0.0 <= r <= 1.0
    ensures ToFloat(q, parse).Some? && ToFloat(a, parse).Some? ==>
              r == NumericScore(ToFloat(q, parse).value, ToFloat(a, parse).value)
    ensures ToFloat(q, parse).None? || ToFloat(a, parse).None? ==>
              (r == 1.0 <==> Normalise(Display(q)) == Normalise(Display(a)))
              && (r == 0.0 || r == 1.0)
  {
    match (ToFloat(q, parse), ToFloat(a, parse))
    case (Some(x), Some(y)) => NumericScore(x, y)
    case _ => if Normalise(Display(q)) == Normalise(Display(a)) then 1.0 else 0.0
  }

  /** How many query keys the candidate shares (`count` after the loop). */
  function Compared(query: Attrs, attrs: Attrs): (n: nat)
    ensures n <= |query|
  {
    if query == [] then 0
    else
      var last := query[|query| - 1];
      Compared(query[..|query| - 1], attrs) + (if Lookup(attrs, last.0).Some? then 1 else 0)
  }

  /** The sum of the shared keys' scores (`total` after the loop). */
  function Total(query: Attrs, attrs: Attrs, parse: string -> Option<real>): (t: real)
    ensures 0.0 <= t <= Compared(query, attrs) as real
  {
    if query == [] then 0.0
    else
      var last := query[|query| - 1];
      Total(query[..|query| - 1], attrs, parse)
        + match Lookup(attrs, last.0)
          case None => 0.0
          case Some(a) => KeyScore(last.1, a, parse)
  }

  /** `total / count`. */
  function Mean(total: real, count: nat): (m: real)
    requires 0.0 <= total <= count as real && count > 0
    ensures 0.0 <= m <= 1.0
    ensures m == 1.0 <==> total == count as real
  {
    MeanFacts(total, count as real);
    total / count as real
  }

  /** What `attribute_similarity` returns: the mean score over the shared keys, or 0.0. */
  function AttributeScore(query: Attrs, attrs: Attrs, parse: string -> Option<real>): (r: real)
    ensures 0.0 <= r <= 1.0
    ensures query == [] ==> r == 0.0
    ensures Compared(query, attrs) == 0 ==> r == 0.0
  {
    if query == [] then 0.0
    else if Compared(query, attrs) == 0 then 0.0
    else Mean(Total(query, attrs, parse), Compared(query, attrs))
  }

  /** `attribute_similarity`. */
  method AttributeSimilarity(query: Attrs, attrs: Attrs, parse: string -> Option<real>) returns (r: real)
    ensures r == AttributeScore(query, attrs, parse)
  {
    if |query| == 0 {
      return 0.0;
    }
    var total := 0.0;
    var count := 0;
    for i := 0 to |query|
      invariant total == Total(query[..i], attrs, parse)
      invariant count == Compared(query[..i], attrs)
    {
      assert query[..i + 1][..i] == query[..i];
      var (key, qVal) := query[i];
      var found := Lookup(attrs, key);
      if found.None? {
        continue;
      }
      var score := KeyScore(qVal, found.value, parse);
      total := total + score;
      count := count + 1;
    }
    assert query[..|query|] == query;
    if count == 0 {
      return 0.0;
    }
    return Mean(total, count);
  }

  /** `animal.get("attributes") or {}`. */
  function CandidateAttrs(animal: Animal): (r: Attrs)
    ensures r == [] <==> animal.attributes.None? || animal.attributes.value == []
    ensures animal.attributes.Some? ==> r == animal.attributes.value
  {
    match animal.attributes
    case None => []
    case Some(d) => d
  }

  function AttributeScores(query: Attrs, animals: seq<Animal>, parse: string -> Option<real>): (r: seq<Option<real>>)
    ensures |r| == |animals|
    ensures forall i | 0 <= i < |animals| :: r[i] == Some(AttributeScore(query, CandidateAttrs(animals[i]), parse))
  {
    seq(|animals|, i requires 0 <= i < |animals| => Some(AttributeScore(query, CandidateAttrs(animals[i]), parse)))
  }

  /** What `find_best_attribute_match` returns, as a function of its inputs. */
  function AttributeMatch(query: Attrs, animals: seq<Animal>, parse: string -> Option<real>): (m: Match<Animal>)
  {
    SelectBest(animals, AttributeScores(query, animals, parse))
  }

  /** `find_best_attribute_match`. */
  method FindBestAttributeMatch(query: Attrs, animals: seq<Animal>, parse: string -> Option<real>)
    returns (best: Option<Animal>, bestScore: Option<real>)
    ensures Match(best, bestScore) == AttributeMatch(query, animals, parse)
    ensures Describes(animals, AttributeScores(query, animals, parse), Match(best, bestScore))
  {
    ghost var scores := AttributeScores(query, animals, parse);
    ghost var bestIndex: Option<nat> := None;
    var bestAnimal: Option<Animal> := None;
    var bestSoFar: real := Sentinel;
    for i := 0 to |animals|
      invariant Scan(scores[..i]) == Pick(bestIndex, bestSoFar)
      invariant bestIndex.Some? ==> bestIndex.value < i
      invariant bestAnimal == if bestIndex.None? then None else Some(animals[bestIndex.value])
    {
      ScanStep(scores, i);
      var score := AttributeSimilarity(query, CandidateAttrs(animals[i]), parse);
      assert scores[i] == Some(score);
      if score > bestSoFar {
        bestSoFar := score;
        bestAnimal := Some(animals[i]);
        bestIndex := Some(i);
      }
    }
    assert scores[..|animals|] == scores;
    SelectBestDescribes(animals, scores);
    if bestAnimal.None? {
      return None, None;
    }
    return bestAnimal, Some(bestSoFar);
  }

  /**
   * Every candidate is eligible: there is no match exactly for an empty
   * catalog, and a returned score lies in [0, 1].
   */
  lemma AttributeMatchNoneIffEmpty(query: Attrs, animals: seq<Animal>, parse: string -> Option<real>)
    ensures AttributeMatch(query, animals, parse).best.None? <==> animals == []
    ensures AttributeMatch(query, animals, parse).score.Some? ==>
              0.0 <= AttributeMatch(query, animals, parse).score.value <= 1.0
  {
    var scores := AttributeScores(query, animals, parse);
    SelectBestDescribes(animals, scores);
    if animals != [] {
      assert scores[0].value >= 0.0;
      assert !NoneAbove(scores);
    }
  }

  /** An empty query scores 0.0 everywhere, so the first candidate wins with 0.0. */
  lemma EmptyAttributeQueryMatchesFirst(animals: seq<Animal>, parse: string -> Option<real>)
    requires animals != []
    ensures AttributeMatch([], animals, parse) == Match(Some(animals[0]), Some(0.0))
  {
    var scores := AttributeScores([], animals, parse);
    assert IsFirstBest(scores, 0);
    var m := Match(Some(animals[0]), Some(0.0));
    assert Describes(animals, scores, m);
    DescribesUnique(animals, scores, m);
  }

  lemma {:induction false} ComparedAppend(p: Attrs, s: Attrs, attrs: Attrs)
    ensures Compared(p + s, attrs) == Compared(p, attrs) + Compared(s, attrs)
    decreases |s|
  {
    if s != [] {
      var n := |s| - 1;
      assert (p + s)[..|p + s| - 1] == p + s[..n];
      ComparedAppend(p, s[..n], attrs);
    } else {
      assert p + s == p;
    }
  }

  lemma {:induction false} TotalAppend(p: Attrs, s: Attrs, attrs: Attrs, parse: string -> Option<real>)
    ensures Total(p + s, attrs, parse) == Total(p, attrs, parse) + Total(s, attrs, parse)
    decreases |s|
  {
    if s != [] {
      var n := |s| - 1;
      assert (p + s)[..|p + s| - 1] == p + s[..n];
      TotalAppend(p, s[..n], attrs, parse);
    } else {
      assert p + s == p;
    }
  }

  /** A query key the candidate lacks adds nothing to the count or to the total. */
  lemma AbsentKeyAddsNothing(p: Attrs, s: Attrs, key: string, v: AttrValue, attrs: Attrs,
                             parse: string -> Option<real>)
    requires Lookup(attrs, key).None?
    ensures Compared(p + [(key, v)] + s, attrs) == Compared(p + s, attrs)
    ensures Total(p + [(key, v)] + s, attrs, parse) == Total(p + s, attrs, parse)
  {
    var e: Attrs := [(key, v)];
    assert e[..0] == [];
    assert Compared(e, attrs) == 0;
    assert Total(e, attrs, parse) == 0.0;
    ComparedAppend(p, e, attrs);
    ComparedAppend(p + e, s, attrs);
    ComparedAppend(p, s, attrs);
    TotalAppend(p, e, attrs, parse);
    TotalAppend(p + e, s, attrs, parse);
    TotalAppend(p, s, attrs, parse);
  }

  /** A query key the candidate lacks is skipped, wherever it stands in the query. */
  lemma AbsentKeySkipped(p: Attrs, s: Attrs, key: string, v: AttrValue, attrs: Attrs,
                         parse: string -> Option<real>)
    requires Lookup(attrs, key).None?
    ensures AttributeScore(p + [(key, v)] + s, attrs, parse) == AttributeScore(p + s, attrs, parse)
  {
    AbsentKeyAddsNothing(p, s, key, v, attrs, parse);
    if p + s == [] {
      assert Compared(p + s, attrs) == 0;
    }
  }

  /** No shared key means score 0.0; a shared key is counted. */
  lemma {:induction false} ComparedZeroIff(query: Attrs, attrs: Attrs)
    ensures Compared(query, attrs) == 0 <==>
              forall i | 0 <= i < |query| :: Lookup(attrs, query[i].0).None?
  {
    if query != [] {
      var n := |query| - 1;
      ComparedZeroIff(query[..n], attrs);
      assert forall i | 0 <= i < n :: query[..n][i] == query[i];
    }
  }

  /** The query entry is not shared, or it scores 1.0. */
  predicate KeyFull(entry: (string, AttrValue), attrs: Attrs, parse: string -> Option<real>)
  {
    Lookup(attrs, entry.0).Some? ==> KeyScore(entry.1, Lookup(attrs, entry.0).value, parse) == 1.0
  }

  /** Every element of s satisfies p. */
  predicate All<T>(s: seq<T>, p: T -> bool)
  {
    forall i | 0 <= i < |s| :: p(s[i])
  }

  /** All over a non-empty sequence: All over its front, and p of its last element. */
  lemma AllSnoc<T>(s: seq<T>, p: T -> bool)
    requires s != []
    ensures All(s, p) <==> All(s[..|s| - 1], p) && p(s[|s| - 1])
  {
    assert forall i | 0 <= i < |s| - 1 :: s[..|s| - 1][i] == s[i];
  }

  /** Every query key the candidate shares scores 1.0. */
  predicate AllSharedFull(query: Attrs, attrs: Attrs, parse: string -> Option<real>)
  {
    All(query, (e: (string, AttrValue)) => KeyFull(e, attrs, parse))
  }

  /** The total reaches the count exactly when every shared key scores 1.0. */
  lemma {:induction false} TotalFullIff(query: Attrs, attrs: Attrs, parse: string -> Option<real>)
    ensures Total(query, attrs, parse) == Compared(query, attrs) as real <==>
              AllSharedFull(query, attrs, parse)
    decreases |query|
  {
    if query != [] {
      var n := |query| - 1;
      var init := query[..n];
      var found := Lookup(attrs, query[n].0);
      var x := if found.Some? then KeyScore(query[n].1, found.value, parse) else 0.0;
      var c: nat := if found.Some? then 1 else 0;
      TotalFullIff(init, attrs, parse);
      AllSnoc(query, (e: (string, AttrValue)) => KeyFull(e, attrs, parse));
      assert KeyFull(query[n], attrs, parse) <==> (found.Some? ==> x == 1.0);
      assert Total(query, attrs, parse) == Total(init, attrs, parse) + x;
      assert Compared(query, attrs) == Compared(init, attrs) + c;
      StepFull(Total(init, attrs, parse), Compared(init, attrs) as real, x, c as real);
    }
  }

  /** t0 + x reaches c0 + c exactly when each part does, given t0 <= c0 and x <= c. */
  lemma StepFull(t0: real, c0: real, x: real, c: real)
    requires t0 <= c0 && x <= c
    ensures t0 + x == c0 + c <==> t0 == c0 && x == c
  {
  }

  /**
   * attribute_similarity returns 1.0 exactly when some key is shared and
   * every shared key scores 1.0.
   */
  lemma AttributeScoreOneIff(query: Attrs, attrs: Attrs, parse: string -> Option<real>)
    ensures AttributeScore(query, attrs, parse) == 1.0 <==>
              Compared(query, attrs) > 0 && AllSharedFull(query, attrs, parse)
  {
    TotalFullIff(query, attrs, parse);
  }

  /** A candidate sharing none of the query's keys scores 0.0. */
  lemma NoSharedKeyScoresZero(query: Attrs, attrs: Attrs, parse: string -> Option<real>)
    requires forall i | 0 <= i < |query| :: Lookup(attrs, query[i].0).None?
    ensures AttributeScore(query, attrs, parse) == 0.0
  {
    ComparedZeroIff(query, attrs);
  }

  /** Every value matches itself fully. */
  lemma KeyScoreSelf(v: AttrValue, parse: string -> Option<real>)
    ensures KeyScore(v, v, parse) == 1.0
  {
  }

  /** Under distinct keys, the value found for an entry's key is that entry's value. */
  lemma LookupEntry(d: Attrs, i: int)
    requires DistinctKeys(d) && 0 <= i < |d|
    ensures Lookup(d, d[i].0) == Some(d[i].1)
  {
    if i > 0 {
      assert DistinctKeys(d[1..]);
      assert d[1..][i - 1] == d[i];
      LookupEntry(d[1..], i - 1);
    }
  }

  lemma {:induction false} SelfTotal(d: Attrs, n: nat, parse: string -> Option<real>)
    requires DistinctKeys(d) && n <= |d|
    ensures Compared(d[..n], d) == n
    ensures Total(d[..n], d, parse) == n as real
  {
    if n > 0 {
      assert d[..n][..n - 1] == d[..n - 1];
      SelfTotal(d, n - 1, parse);
      LookupEntry(d, n - 1);
      KeyScoreSelf(d[n - 1].1, parse);
    }
  }

  /** A non-empty attribute map matches itself with score 1.0. */
  lemma AttributeScoreSelf(d: Attrs, parse: string -> Option<real>)
    requires d != [] && DistinctKeys(d)
    ensures AttributeScore(d, d, parse) == 1.0
  {
    SelfTotal(d, |d|, parse);
    assert d[..|d|] == d;
  }

  /** The numeric score divides by the candidate's value, so it is not symmetric. */
  lemma NumericScoreAsymmetric()
    ensures NumericScore(2.0, 4.0) == 0.5
    ensures NumericScore(4.0, 2.0) == 0.0
  {
  }

  /** `{"legs": 4}` against `{"legs": 4}` and against `{"legs": 2}`. */
  lemma LegsExample(parse: string -> Option<real>)
    ensures AttributeScore([("legs", Num(4.0, "4"))], [("legs", Num(4.0, "4"))], parse) == 1.0
    ensures AttributeScore([("legs", Num(4.0, "4"))], [("legs", Num(2.0, "2"))], parse) == 0.0
    ensures AttributeScore([("legs", Num(2.0, "2"))], [("legs", Num(4.0, "4"))], parse) == 0.5
  {
    SingleKeyScore("legs", Num(4.0, "4"), Num(4.0, "4"), parse);
    SingleKeyScore("legs", Num(4.0, "4"), Num(2.0, "2"), parse);
    SingleKeyScore("legs", Num(2.0, "2"), Num(4.0, "4"), parse);
    NumericScoreAsymmetric();
  }

  /** With one shared key, the overall score is that key's score. */
  lemma SingleKeyScore(key: string, q: AttrValue, a: AttrValue, parse: string -> Option<real>)
    ensures AttributeScore([(key, q)], [(key, a)], parse) == KeyScore(q, a, parse)
  {
    var query: Attrs := [(key, q)];
    assert query[..0] == [];
    assert Compared(query, [(key, a)]) == 1;
    assert Total(query, [(key, a)], parse) == KeyScore(q, a, parse);
    assert Mean(KeyScore(q, a, parse), 1) == KeyScore(q, a, parse);
  }

  /**
   * A text attribute matches a padded, differently cased copy of itself with
   * score 1.0, as `{"diet": "Herbivore"}` does `{"diet": " herbivore "}`.
   */
  lemma TextMatchIgnoresPaddingAndCase(key: string, q: string, a: string, pre: string, post: string,
                                       parse: string -> Option<real>)
    requires parse(q).None?
    requires AllSpace(pre) && AllSpace(post)
    requires q != [] && !IsSpace(q[0]) && !IsSpace(q[|q| - 1])
    requires a != [] && !IsSpace(a[0]) && !IsSpace(a[|a| - 1])
    requires |a| == |q| && forall i | 0 <= i < |q| :: LowerChar(a[i]) == LowerChar(q[i])
    ensures AttributeScore([(key, Str(q))], [(key, Str(pre + a + post))], parse) == 1.0
  {
    SingleKeyScore(key, Str(q), Str(pre + a + post), parse);
    NormaliseIgnoresPaddingAndCase(q, a, pre, post);
    assert Display(Str(pre + a + post)) == pre + a + post;
  }
}
