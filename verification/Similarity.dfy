/** Cosine similarity of embeddings, over the real numbers. */
module Similarity {

  type Vector = seq<real>

  function Times(x: real, y: real): real {
    x * y
  }

  function Dot(a: Vector, b: Vector): real
    requires |a| == |b|
  {
    if a == [] then 0.0 else Dot(a[..|a| - 1], b[..|b| - 1]) + Times(a[|a| - 1], b[|b| - 1])
  }

  /** The square root the program uses is one for the number at hand. */
  ghost predicate IsRoot(sqrt: real -> real, x: real) {
    sqrt(x) >= 0.0 && Times(sqrt(x), sqrt(x)) == x
  }

  lemma NonZeroProduct(x: real, y: real)
    requires x != 0.0 && y != 0.0
    ensures x * y != 0.0
  {
  }

  function Ratio(dotProduct: real, normA: real, normB: real): real
    requires normA != 0.0 && normB != 0.0
  {
    NonZeroProduct(normA, normB);
    dotProduct / (normA * normB)
  }

  function Cosine(a: Vector, b: Vector, sqrt: real -> real): real {
    if |a| != |b| then 0.0
    else
      var normA, normB := sqrt(Dot(a, a)), sqrt(Dot(b, b));
      if normA == 0.0 || normB == 0.0 then 0.0
      else Ratio(Dot(a, b), normA, normB)
  }

  method CosineSimilarity(a: Vector, b: Vector, sqrt: real -> real) returns (similarity: real)
    ensures similarity == Cosine(a, b, sqrt)
  {
    if |a| != |b| {
      return 0.0;
    }
    var dotProduct, normA, normB := 0.0, 0.0, 0.0;
    for i := 0 to |a|
      invariant dotProduct == Dot(a[..i], b[..i])
      invariant normA == Dot(a[..i], a[..i]) && normB == Dot(b[..i], b[..i])
    {
      DotNext(a, b, i);
      DotNext(a, a, i);
      DotNext(b, b, i);
      dotProduct := dotProduct + a[i] * b[i];
      normA := normA + a[i] * a[i];
      normB := normB + b[i] * b[i];
    }
    assert a[..|a|] == a && b[..|b|] == b;
    normA, normB := sqrt(normA), sqrt(normB);
    if normA == 0.0 || normB == 0.0 {
      return 0.0;
    }
    return Ratio(dotProduct, normA, normB);
  }

  lemma DotNext(a: Vector, b: Vector, i: nat)
    requires |a| == |b| && i < |a|
    ensures Dot(a[..i + 1], b[..i + 1]) == Dot(a[..i], b[..i]) + Times(a[i], b[i])
  {
    assert a[..i + 1][..i] == a[..i] && b[..i + 1][..i] == b[..i];
  }

  lemma {:induction false} DotSymmetric(a: Vector, b: Vector)
    requires |a| == |b|
    ensures Dot(a, b) == Dot(b, a)
  {
    if a != [] {
      DotSymmetric(a[..|a| - 1], b[..|b| - 1]);
    }
  }

  /** The squared norm of `t * a + b`, multiplied out, is not negative. */
  lemma {:induction false} QuadraticIsNonNegative(a: Vector, b: Vector, t: real)
    requires |a| == |b|
    ensures t * t * Dot(a, a) + 2.0 * t * Dot(a, b) + Dot(b, b) >= 0.0
  {
    if a != [] {
      var p, q := a[..|a| - 1], b[..|b| - 1];
      var x, y := a[|a| - 1], b[|b| - 1];
      QuadraticIsNonNegative(p, q, t);
      SquareOfSum(t, x, y);
      Distribute(t, Dot(p, p), Dot(p, q), Dot(q, q), Times(x, x), Times(x, y), Times(y, y));
    }
  }

  lemma SquareOfSum(t: real, x: real, y: real)
    ensures t * t * Times(x, x) + 2.0 * t * Times(x, y) + Times(y, y) >= 0.0
  {
    assert t * t * (x * x) + 2.0 * t * (x * y) + y * y == (t * x + y) * (t * x + y);
    NotNegative(t * x + y);
  }

  lemma NotNegative(z: real)
    ensures z * z >= 0.0
  {
  }

  lemma SameSign(x: real, y: real)
    requires (x > 0.0 && y > 0.0) || (x < 0.0 && y < 0.0)
    ensures Times(x, y) > 0.0
  {
  }

  lemma PositiveSquare(z: real)
    requires z != 0.0
    ensures Times(z, z) > 0.0
  {
    SameSign(z, z);
  }

  lemma Distribute(t: real, pp: real, pq: real, qq: real, xx: real, xy: real, yy: real)
    ensures t * t * (pp + xx) + 2.0 * t * (pq + xy) + (qq + yy)
      == (t * t * pp + 2.0 * t * pq + qq) + (t * t * xx + 2.0 * t * xy + yy)
  {
  }

  lemma {:induction false} SquaredNormIsNonNegative(a: Vector, b: Vector)
    requires |a| == |b|
    ensures Dot(a, a) >= 0.0
    ensures Dot(a, a) == 0.0 ==> Dot(a, b) == 0.0
    ensures Dot(a, a) == 0.0 <==> IsZero(a)
  {
    if a != [] {
      var p, x := a[..|a| - 1], a[|a| - 1];
      SquaredNormIsNonNegative(p, b[..|b| - 1]);
      if x != 0.0 {
        PositiveSquare(x);
      }
      assert Dot(a, a) == Dot(p, p) + Times(x, x);
      IsZeroSnoc(p, x);
      assert a == p + [x];
    }
  }

  ghost predicate IsZero(a: Vector) {
    forall i | 0 <= i < |a| :: a[i] == 0.0
  }

  lemma IsZeroSnoc(p: Vector, x: real)
    ensures IsZero(p + [x]) <==> IsZero(p) && x == 0.0
  {
    var a := p + [x];
    assert a[|p|] == x && forall i | 0 <= i < |p| :: a[i] == p[i];
  }

  /** The squared dot product is at most the product of the squared norms. */
  lemma {:induction false} CauchySchwarz(a: Vector, b: Vector)
    requires |a| == |b|
    ensures Dot(a, b) * Dot(a, b) <= Dot(a, a) * Dot(b, b)
  {
    var d, n, m := Dot(a, b), Dot(a, a), Dot(b, b);
    SquaredNormIsNonNegative(a, b);
    if n > 0.0 {
      var t := -d / n;
      QuadraticIsNonNegative(a, b, t);
      Discriminant(d, n, m, t);
    }
  }

  lemma Discriminant(d: real, n: real, m: real, t: real)
    requires n > 0.0 && t * n == -d && t * t * n + 2.0 * t * d + m >= 0.0
    ensures d * d <= n * m
  {
    assert t * t * n == t * (t * n) == -(t * d);
    assert t * d + m >= 0.0;
    assert n * (t * d + m) >= 0.0;
    assert n * (t * d) == (t * n) * d == -(d * d);
  }

  lemma LargerSquare(d: real, r: real)
    requires d > r > 0.0
    ensures d * d > r * r
  {
  }

  lemma SquareBound(d: real, r: real)
    requires r > 0.0 && d * d <= r * r
    ensures -1.0 <= d / r <= 1.0
  {
    if d > r {
      LargerSquare(d, r);
    }
    if d < -r {
      LargerSquare(-d, r);
    }
  }

  lemma ProductOfRoots(r: real, s: real)
    requires r > 0.0 && s > 0.0
    ensures r * s > 0.0 && (r * s) * (r * s) == (r * r) * (s * s)
  {
    assert (r * s) * (r * s) == r * (s * (r * s)) == r * (r * (s * s));
  }

  lemma RatioIsBounded(d: real, n: real, m: real, r: real, s: real)
    requires r > 0.0 && s > 0.0 && Times(r, r) == n && Times(s, s) == m && d * d <= n * m
    ensures -1.0 <= Ratio(d, r, s) <= 1.0
  {
    ProductOfRoots(r, s);
    SquareBound(d, r * s);
  }

  lemma RatioOfSquare(n: real, r: real)
    requires r != 0.0 && Times(r, r) == n
    ensures Ratio(n, r, r) == 1.0
  {
    PositiveSquare(r);
    SelfRatio(n);
    assert Times(r, r) == r * r;
  }

  /** Similarities lie between -1 and 1. */
  lemma CosineIsBounded(a: Vector, b: Vector, sqrt: real -> real)
    requires IsRoot(sqrt, Dot(a, a)) && IsRoot(sqrt, Dot(b, b))
    ensures -1.0 <= Cosine(a, b, sqrt) <= 1.0
  {
    if |a| == |b| {
      var r, s := sqrt(Dot(a, a)), sqrt(Dot(b, b));
      if r != 0.0 && s != 0.0 {
        CauchySchwarz(a, b);
        RatioIsBounded(Dot(a, b), Dot(a, a), Dot(b, b), r, s);
      }
    }
  }

  lemma CosineIsSymmetric(a: Vector, b: Vector, sqrt: real -> real)
    ensures Cosine(a, b, sqrt) == Cosine(b, a, sqrt)
  {
    if |a| == |b| {
      DotSymmetric(a, b);
    }
  }

  lemma SelfRatio(x: real)
    requires x != 0.0
    ensures x / x == 1.0
  {
  }

  /** A vector is most similar to itself, unless it is zero. */
  lemma CosineOfItself(a: Vector, sqrt: real -> real)
    requires IsRoot(sqrt, Dot(a, a))
    ensures Cosine(a, a, sqrt) == if IsZero(a) then 0.0 else 1.0
  {
    SquaredNormIsNonNegative(a, a);
    var r := sqrt(Dot(a, a));
    if r != 0.0 {
      RatioOfSquare(Dot(a, a), r);
      PositiveSquare(r);
    }
  }

  lemma {:induction false} DotConcat(a: Vector, b: Vector, c: Vector, d: Vector)
    requires |a| == |b| && |c| == |d|
    ensures Dot(a + c, b + d) == Dot(a, b) + Dot(c, d)
  {
    if c == [] {
      assert a + c == a && b + d == b;
    } else {
      DotConcat(a, b, c[..|c| - 1], d[..|d| - 1]);
      assert (a + c)[..|a + c| - 1] == a + c[..|c| - 1] && (b + d)[..|b + d| - 1] == b + d[..|d| - 1];
    }
  }

  /** The dot product of two components each, written out. */
  lemma DotOfTwo(a: real, b: real, x: real, y: real)
    ensures Dot([a, b], [x, y]) == a * x + b * y
  {
    assert [a][..0] == [] && [x][..0] == [];
    assert Dot([a], [x]) == Times(a, x);
    assert [a, b][..1] == [a] && [x, y][..1] == [x];
    assert Dot([a, b], [x, y]) == Dot([a], [x]) + Times(b, y);
  }

  /** Vectors of different lengths, and zero vectors, are similar to nothing; otherwise the similarity
      times both norms is the dot product. */
  lemma CosineIsNormalizedDot(a: Vector, b: Vector, sqrt: real -> real)
    requires IsRoot(sqrt, Dot(a, a)) && IsRoot(sqrt, Dot(b, b))
    ensures |a| != |b| || IsZero(a) || IsZero(b) ==> Cosine(a, b, sqrt) == 0.0
    ensures |a| == |b| ==> Times(Cosine(a, b, sqrt), Times(sqrt(Dot(a, a)), sqrt(Dot(b, b)))) == Dot(a, b)
  {
    SquaredNormIsNonNegative(a, a);
    SquaredNormIsNonNegative(b, b);
    var r, s := sqrt(Dot(a, a)), sqrt(Dot(b, b));
    if IsZero(a) {
      RootOfZero(r);
    }
    if IsZero(b) {
      RootOfZero(s);
    }
    if |a| == |b| {
      NormalizedDot(a, b, sqrt);
    }
  }

  lemma RootOfZero(r: real)
    requires r >= 0.0 && Times(r, r) == 0.0
    ensures r == 0.0
  {
    if r != 0.0 {
      PositiveSquare(r);
    }
  }

  lemma NormalizedDot(a: Vector, b: Vector, sqrt: real -> real)
    requires |a| == |b| && IsRoot(sqrt, Dot(a, a)) && IsRoot(sqrt, Dot(b, b))
    ensures Times(Cosine(a, b, sqrt), Times(sqrt(Dot(a, a)), sqrt(Dot(b, b)))) == Dot(a, b)
  {
    var r, s := sqrt(Dot(a, a)), sqrt(Dot(b, b));
    if r == 0.0 || s == 0.0 {
      ProductWithZero(r, s);
      SquaredNormIsNonNegative(a, b);
      SquaredNormIsNonNegative(b, a);
      DotSymmetric(a, b);
    } else {
      RatioTimesNorms(Dot(a, b), r, s);
      assert Cosine(a, b, sqrt) == Ratio(Dot(a, b), r, s);
    }
  }

  lemma RatioTimesNorms(d: real, r: real, s: real)
    requires r != 0.0 && s != 0.0
    ensures Times(Ratio(d, r, s), Times(r, s)) == d
  {
    NonZeroProduct(r, s);
    QuotientTimesDivisor(d, r * s);
  }

  lemma ProductWithZero(r: real, s: real)
    requires r == 0.0 || s == 0.0
    ensures Times(r, s) == 0.0 && Times(0.0, r * s) == 0.0
  {
  }

  lemma QuotientTimesDivisor(x: real, y: real)
    requires y != 0.0
    ensures Times(x / y, y) == x
  {
  }
}
