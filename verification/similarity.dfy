/** `calculate_similarity_score`: the cosine similarity of the request vector and
    the design vector, mapped linearly from [-1, 1] onto a 0-to-5 score. Vectors
    are sequences of reals; the Euclidean norm's square root is a parameter
    `root`, standing for the floating-point square root of the numeric library. */
module Similarity {
  import opened Common

  /** Why a score could not be computed: the dot product of vectors of different
      lengths is undefined (the numeric library raises an error). */
  datatype ScoreError = DimensionMismatch

  /** Real multiplication, named so that the vector lemmas below reason about
      products as terms and leave the arithmetic to small scalar lemmas. */
  function Mul(x: real, y: real): real { x * y }

  function Square(x: real): real { Mul(x, x) }

  /** The squared Euclidean norm. */
  function SumSquares(v: seq<real>): (s: real)
    ensures s >= 0.0
  {
    if |v| == 0 then 0.0
    else
      SquareNonNegative(v[0]);
      Square(v[0]) + SumSquares(v[1..])
  }

  function Dot(a: seq<real>, b: seq<real>): real
    requires |a| == |b|
  {
    if |a| == 0 then 0.0 else Mul(a[0], b[0]) + Dot(a[1..], b[1..])
  }

  /** The Euclidean norm, with the square root supplied by the caller. */
  function Norm(v: seq<real>, root: real -> real): real {
    root(SumSquares(v))
  }

  /** `root` behaves as the non-negative square root at `x`. */
  predicate RootAt(root: real -> real, x: real) {
    root(x) >= 0.0 && Square(root(x)) == x
  }

  /** The linear map from a cosine to the score: -1 gives 0, 0 gives 2.5 and 1 gives 5. */
  function ScoreFromCosine(c: real): (s: real)
    ensures -1.0 <= c <= 1.0 ==> 0.0 <= s <= 5.0
    ensures s * 2.0 / 5.0 - 1.0 == c
    ensures c == -1.0 ==> s == 0.0
    ensures c == 1.0 ==> s == 5.0
  {
    (c + 1.0) / 2.0 * 5.0
  }

  /** The score never decreases as the cosine grows, and strictly increases with it. */
  lemma ScoreMonotone(c: real, d: real)
    requires c <= d
    ensures ScoreFromCosine(c) <= ScoreFromCosine(d)
    ensures c < d ==> ScoreFromCosine(c) < ScoreFromCosine(d)
  {
  }

  /** `calculate_similarity_score`: 0 when either vector is empty or has norm zero;
      otherwise the dimensions must agree and the score is that of the cosine. */
  function Score(a: seq<real>, b: seq<real>, root: real -> real): (r: Result<real, ScoreError>)
    ensures (|a| == 0 || |b| == 0) ==> r == Ok(0.0)
    ensures |a| > 0 && |b| > 0 && (Norm(a, root) == 0.0 || Norm(b, root) == 0.0) ==> r == Ok(0.0)
    ensures r.Err? <==> |a| > 0 && |b| > 0 && Norm(a, root) != 0.0 && Norm(b, root) != 0.0 && |a| != |b|
    ensures r.Ok? && r.value != 0.0 ==> |a| == |b| && Norm(a, root) != 0.0 && Norm(b, root) != 0.0
  {
    if |a| == 0 || |b| == 0 then Ok(0.0)
    else
      var na := Norm(a, root);
      var nb := Norm(b, root);
      if na == 0.0 || nb == 0.0 then Ok(0.0)
      else if |a| != |b| then Err(DimensionMismatch)
      else Ok(ScoreFromCosine(Dot(a, b) / Mul(na, nb)))
  }

  // Scalar facts about products and squares.

  lemma SquareNonNegative(x: real)
    ensures Square(x) >= 0.0
  {
    assert Square(x) == x * x;
  }

  lemma Reciprocal(x: real)
    requires x != 0.0
    ensures x * (1.0 / x) == 1.0
  {
  }

  /** A non-zero number has a positive square: its square times the square of the
      reciprocal is 1. */
  lemma SquarePositive(x: real)
    requires x != 0.0
    ensures Square(x) > 0.0
  {
    Reciprocal(x);
    assert Square(x) * Square(1.0 / x) == (x * (1.0 / x)) * (x * (1.0 / x));
    SquareNonNegative(x);
  }

  lemma ProductPositive(x: real, y: real)
    requires x > 0.0 && y > 0.0
    ensures Mul(x, y) > 0.0
  {
  }

  lemma NegativeProduct(p: real, z: real)
    requires p > 0.0 && z < 0.0
    ensures p * z < 0.0
  {
  }

  /** A factor of a non-negative product with a positive factor is non-negative. */
  lemma SignFromProduct(p: real, z: real)
    requires p > 0.0 && Mul(p, z) >= 0.0
    ensures z >= 0.0
  {
    if z < 0.0 {
      NegativeProduct(p, z);
    }
  }

  /** Dividing a value in [-m, m] by a positive `m` gives a value in [-1, 1]. */
  lemma RatioBound(d: real, m: real)
    requires m > 0.0 && -m <= d <= m
    ensures -1.0 <= d / m <= 1.0
  {
    assert d / m * m == d;
  }

  lemma DivideBySelf(x: real)
    requires x != 0.0
    ensures x / x == 1.0
  {
  }

  // Zero vectors.

  /** A vector has squared norm zero exactly when all its components are zero. */
  lemma {:induction false} SumSquaresZeroIffAllZero(v: seq<real>)
    ensures SumSquares(v) == 0.0 <==> forall i :: 0 <= i < |v| ==> v[i] == 0.0
  {
    if |v| > 0 {
      SumSquaresZeroIffAllZero(v[1..]);
      assert forall i :: 0 <= i < |v| - 1 ==> v[1..][i] == v[i + 1];
      if v[0] != 0.0 {
        SquarePositive(v[0]);
      } else {
        assert Square(v[0]) == 0.0;
      }
    }
  }

  /** With a true square root, the norm is zero exactly when every component is. */
  lemma ZeroNormIffAllZero(v: seq<real>, root: real -> real)
    requires RootAt(root, SumSquares(v))
    ensures Norm(v, root) == 0.0 <==> forall i :: 0 <= i < |v| ==> v[i] == 0.0
  {
    SumSquaresZeroIffAllZero(v);
    if Norm(v, root) != 0.0 {
      SquarePositive(Norm(v, root));
    } else {
      assert Square(0.0) == 0.0;
    }
  }

  /** An all-zero vector on either side scores 0 instead of dividing by zero. */
  lemma ZeroVectorScoresZero(a: seq<real>, b: seq<real>, root: real -> real)
    requires RootAt(root, SumSquares(b))
    requires forall i :: 0 <= i < |b| ==> b[i] == 0.0
    ensures Score(a, b, root) == Ok(0.0)
    ensures Score(b, a, root) == Ok(0.0)
  {
    ZeroNormIffAllZero(b, root);
  }

  // Symmetry.

  lemma {:induction false} DotSymmetric(a: seq<real>, b: seq<real>)
    requires |a| == |b|
    ensures Dot(a, b) == Dot(b, a)
  {
    if |a| > 0 {
      DotSymmetric(a[1..], b[1..]);
      assert Mul(a[0], b[0]) == Mul(b[0], a[0]);
    }
  }

  /** The score does not depend on which vector is the request, errors included. */
  lemma ScoreSymmetric(a: seq<real>, b: seq<real>, root: real -> real)
    ensures Score(a, b, root) == Score(b, a, root)
  {
    if |a| == |b| {
      DotSymmetric(a, b);
      assert Mul(Norm(a, root), Norm(b, root)) == Mul(Norm(b, root), Norm(a, root));
    }
  }

  // The cosine bound (Cauchy-Schwarz).

  /** The componentwise combination `al * a + be * b`. */
  function Combine(a: seq<real>, b: seq<real>, al: real, be: real): (c: seq<real>)
    requires |a| == |b|
    ensures |c| == |a|
  {
    if |a| == 0 then [] else [Mul(al, a[0]) + Mul(be, b[0])] + Combine(a[1..], b[1..], al, be)
  }

  /** `al^2 sa + 2 al be d + be^2 sb`: the squared norm of `al * a + be * b` when
      `sa`, `d` and `sb` are the squared norms and the dot product of `a` and `b`. */
  function Expansion(al: real, be: real, sa: real, d: real, sb: real): real {
    Mul(Square(al), sa) + Mul(2.0 * Mul(al, be), d) + Mul(Square(be), sb)
  }

  lemma ExpansionStep(x: real, y: real, al: real, be: real, sa: real, d: real, sb: real)
    ensures Square(Mul(al, x) + Mul(be, y)) + Expansion(al, be, sa, d, sb)
         == Expansion(al, be, Square(x) + sa, Mul(x, y) + d, Square(y) + sb)
  {
  }

  /** Expanding the squared norm of a combination of two vectors. */
  lemma {:induction false} CombineSumSquares(a: seq<real>, b: seq<real>, al: real, be: real)
    requires |a| == |b|
    ensures SumSquares(Combine(a, b, al, be)) == Expansion(al, be, SumSquares(a), Dot(a, b), SumSquares(b))
  {
    if |a| > 0 {
      var c := Combine(a, b, al, be);
      CombineSumSquares(a[1..], b[1..], al, be);
      assert c[1..] == Combine(a[1..], b[1..], al, be);
      ExpansionStep(a[0], b[0], al, be, SumSquares(a[1..]), Dot(a[1..], b[1..]), SumSquares(b[1..]));
    }
  }

  /** With `m = na nb`, the expansion for `nb a - na b` is `2 m (m - d)`. */
  lemma GapAbove(d: real, na: real, nb: real)
    ensures Expansion(nb, -na, Square(na), d, Square(nb)) == Mul(2.0 * Mul(na, nb), Mul(na, nb) - d)
  {
  }

  /** With `m = na nb`, the expansion for `nb a + na b` is `2 m (m + d)`. */
  lemma GapBelow(d: real, na: real, nb: real)
    ensures Expansion(nb, na, Square(na), d, Square(nb)) == Mul(2.0 * Mul(na, nb), Mul(na, nb) + d)
  {
  }

  /** Cauchy-Schwarz in the form the cosine needs: the dot product lies between
      minus and plus the product of the norms. Each bound comes from the squared
      norm of `|b| a - |a| b` (respectively `|b| a + |a| b`), which is never negative. */
  lemma DotBetweenNorms(a: seq<real>, b: seq<real>, na: real, nb: real)
    requires |a| == |b|
    requires na > 0.0 && nb > 0.0
    requires Square(na) == SumSquares(a) && Square(nb) == SumSquares(b)
    ensures -Mul(na, nb) <= Dot(a, b) <= Mul(na, nb)
  {
    var m := Mul(na, nb);
    ProductPositive(na, nb);
    CombineSumSquares(a, b, nb, -na);
    GapAbove(Dot(a, b), na, nb);
    SignFromProduct(2.0 * m, m - Dot(a, b));
    CombineSumSquares(a, b, nb, na);
    GapBelow(Dot(a, b), na, nb);
    SignFromProduct(2.0 * m, m + Dot(a, b));
  }

  /** When both norms are non-zero and the lengths agree, the score is that of the cosine. */
  lemma ScoreOfCosine(a: seq<real>, b: seq<real>, root: real -> real)
    requires |a| == |b| > 0 && Norm(a, root) != 0.0 && Norm(b, root) != 0.0
    ensures Score(a, b, root) == Ok(ScoreFromCosine(Dot(a, b) / Mul(Norm(a, root), Norm(b, root))))
  {
  }

  /** With a true square root the cosine lies in [-1, 1], so every score lies in [0, 5]. */
  lemma ScoreInRange(a: seq<real>, b: seq<real>, root: real -> real)
    requires RootAt(root, SumSquares(a)) && RootAt(root, SumSquares(b))
    requires Score(a, b, root).Ok?
    ensures 0.0 <= Score(a, b, root).value <= 5.0
  {
    var na, nb := Norm(a, root), Norm(b, root);
    if |a| > 0 && |b| > 0 && na != 0.0 && nb != 0.0 {
      assert |a| == |b|;
      ScoreOfCosine(a, b, root);
      DotBetweenNorms(a, b, na, nb);
      ProductPositive(na, nb);
      RatioBound(Dot(a, b), Mul(na, nb));
    }
  }

  lemma {:induction false} DotSelf(a: seq<real>)
    ensures Dot(a, a) == SumSquares(a)
  {
    if |a| > 0 {
      DotSelf(a[1..]);
    }
  }

  /** A non-zero vector compared with itself scores the maximum, 5. */
  lemma SelfScoreIsFive(a: seq<real>, root: real -> real)
    requires RootAt(root, SumSquares(a))
    requires exists i :: 0 <= i < |a| && a[i] != 0.0
    ensures Score(a, a, root) == Ok(5.0)
  {
    var i :| 0 <= i < |a| && a[i] != 0.0;
    ZeroNormIffAllZero(a, root);
    var n := Norm(a, root);
    assert n != 0.0;
    ScoreOfCosine(a, a, root);
    DotSelf(a);
    SquarePositive(n);
    DivideBySelf(Square(n));
  }
}
