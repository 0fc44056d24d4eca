/** _pearson and estimate_strength. */
module Correlation {
  import opened Wrappers
  import opened Reals
  import opened ObservationMatching

  function Total(x: seq<real>): real {
    if x == [] then 0.0 else x[0] + Total(x[1..])
  }

  function Dot(x: seq<real>, y: seq<real>): real
    requires |x| == |y|
  {
    if x == [] then 0.0 else x[0] * y[0] + Dot(x[1..], y[1..])
  }

  function Mean(x: seq<real>): real
    requires x != []
  {
    Total(x) / |x| as real
  }

  function Minus(x: seq<real>, m: real): (d: seq<real>)
    ensures |d| == |x|
  {
    if x == [] then [] else [x[0] - m] + Minus(x[1..], m)
  }

  function Deviations(x: seq<real>): (d: seq<real>)
    requires x != []
    ensures |d| == |x|
  {
    Minus(x, Mean(x))
  }

  /** What is assumed of math.sqrt. */
  ghost predicate IsSqrt(sqrt: real -> real) {
    forall v :: v >= 0.0 ==> sqrt(v) >= 0.0 && sqrt(v) * sqrt(v) == v
  }

  lemma SqrtOf(sqrt: real -> real, v: real)
    requires IsSqrt(sqrt) && v >= 0.0
    ensures sqrt(v) >= 0.0 && sqrt(v) * sqrt(v) == v
  {
  }

  function Coefficient(cov: real, stdX: real, stdY: real): real {
    if stdX == 0.0 || stdY == 0.0 then 0.0
    else
      assert stdX * stdY != 0.0;
      cov / (stdX * stdY)
  }

  function Pearson(x: seq<real>, y: seq<real>, sqrt: real -> real): real {
    if |x| < 3 || |x| != |y| then 0.0
    else
      var dx, dy := Deviations(x), Deviations(y);
      Coefficient(Dot(dx, dy), sqrt(Dot(dx, dx)), sqrt(Dot(dy, dy)))
  }

  // ----- Cauchy-Schwarz -----

  lemma {:induction false} DotNonnegative(x: seq<real>)
    ensures Dot(x, x) >= 0.0
  {
    if x == [] {
    } else {
      DotNonnegative(x[1..]);
    }
  }

  lemma ProductPositive(a: real, b: real)
    requires a > 0.0 && b > 0.0
    ensures a * b > 0.0
  {
  }

  lemma LargerSquare(s: real, t: real)
    requires 0.0 <= s < t
    ensures s * s < t * t
  {
    assert t * t - s * s == (t - s) * (t + s);
    ProductPositive(t - s, t + s);
  }

  /** If s >= 0 and s*s >= t*t then s >= t. */
  lemma RootOrder(s: real, t: real)
    requires s >= 0.0 && s * s >= t * t
    ensures s >= t
  {
    if t > s {
      LargerSquare(s, t);
    }
  }

  /** With p = a^2, q = b^2 and r = ab: 2Cr <= Aq + Bp. */
  lemma MixedTerm(A: real, B: real, C: real, p: real, q: real, r: real)
    requires A >= 0.0 && B >= 0.0 && C * C <= A * B && p >= 0.0 && q >= 0.0 && r * r == p * q
    ensures 2.0 * (C * r) <= A * q + B * p
  {
    var u, v := A * q, B * p;
    assert u * v == (A * B) * (p * q);
    assert (C * r) * (C * r) == (C * C) * (r * r);
    assert (u + v) * (u + v) == (u - v) * (u - v) + 4.0 * (u * v);
    var t := 2.0 * (C * r);
    assert t * t == 4.0 * ((C * r) * (C * r));
    RootOrder(u + v, t);
  }

  /** One more pair of coordinates: (C + ab)^2 <= (A + a^2)(B + b^2). */
  lemma CauchyStep(A: real, B: real, C: real, a: real, b: real)
    requires A >= 0.0 && B >= 0.0 && C * C <= A * B
    ensures (C + a * b) * (C + a * b) <= (A + a * a) * (B + b * b)
  {
    var s, t := A * (b * b) + B * (a * a), 2.0 * (C * (a * b));
    MixedTerm(A, B, C, a * a, b * b, a * b);
    assert (C + a * b) * (C + a * b) == C * C + t + (a * b) * (a * b);
    assert (A + a * a) * (B + b * b) == A * B + s + (a * a) * (b * b);
    assert (a * b) * (a * b) == (a * a) * (b * b);
  }

  lemma CauchyEnlarged(A: real, B: real, C: real, a: real, b: real, P: real, Q: real, R: real)
    requires A >= 0.0 && B >= 0.0 && C * C <= A * B && P == A + a * a && Q == B + b * b && R == C + a * b
    ensures R * R <= P * Q
  {
    CauchyStep(A, B, C, a, b);
  }

  /** The squared covariance sum never exceeds the product of the two sums of squares. */
  lemma {:induction false} CauchySchwarz(x: seq<real>, y: seq<real>)
    requires |x| == |y|
    ensures Dot(x, y) * Dot(x, y) <= Dot(x, x) * Dot(y, y)
  {
    if x == [] {
    } else {
      CauchySchwarz(x[1..], y[1..]);
      DotNonnegative(x[1..]);
      DotNonnegative(y[1..]);
      CauchyEnlarged(Dot(x[1..], x[1..]), Dot(y[1..], y[1..]), Dot(x[1..], y[1..]), x[0], y[0],
                     Dot(x, x), Dot(y, y), Dot(x, y));
    }
  }

  lemma CoefficientBounded(A: real, B: real, C: real, s: real, t: real)
    requires s >= 0.0 && t >= 0.0 && s * s == A && t * t == B && C * C <= A * B
    ensures -1.0 <= Coefficient(C, s, t) <= 1.0
  {
    if s != 0.0 && t != 0.0 {
      var d := s * t;
      ProductPositive(s, t);
      assert d * d == (s * s) * (t * t);
      assert (-C) * (-C) == C * C;
      RootOrder(d, C);
      RootOrder(d, -C);
    }
  }

  /** The coefficient lies in [-1, 1], for series of any length. */
  lemma PearsonIsBounded(x: seq<real>, y: seq<real>, sqrt: real -> real)
    requires IsSqrt(sqrt)
    ensures -1.0 <= Pearson(x, y, sqrt) <= 1.0
  {
    if |x| >= 3 && |x| == |y| {
      hide Dot, Deviations, Coefficient, IsSqrt;
      var dx, dy := Deviations(x), Deviations(y);
      CauchySchwarz(dx, dy);
      DotNonnegative(dx);
      DotNonnegative(dy);
      SqrtOf(sqrt, Dot(dx, dx));
      SqrtOf(sqrt, Dot(dy, dy));
      assert Pearson(x, y, sqrt) == Coefficient(Dot(dx, dy), sqrt(Dot(dx, dx)), sqrt(Dot(dy, dy)));
      hide Pearson;
      CoefficientBounded(Dot(dx, dx), Dot(dy, dy), Dot(dx, dy), sqrt(Dot(dx, dx)), sqrt(Dot(dy, dy)));
    }
  }

  lemma {:induction false} DotSymmetric(x: seq<real>, y: seq<real>)
    requires |x| == |y|
    ensures Dot(x, y) == Dot(y, x)
  {
    if x == [] {
    } else {
      DotSymmetric(x[1..], y[1..]);
    }
  }

  // ----- Perfectly correlated series -----

  function Affine(x: seq<real>, m: real, c: real): (y: seq<real>)
    ensures |y| == |x|
  {
    if x == [] then [] else [Times(m, x[0]) + c] + Affine(x[1..], m, c)
  }

  function Scaled(d: seq<real>, m: real): (r: seq<real>)
    ensures |r| == |d|
  {
    if d == [] then [] else [Times(m, d[0])] + Scaled(d[1..], m)
  }

  lemma {:induction false} TotalOfAffine(x: seq<real>, m: real, c: real)
    ensures Total(Affine(x, m, c)) == m * Total(x) + |x| as real * c
  {
    if x == [] {
    } else {
      TotalOfAffine(x[1..], m, c);
      assert |x| as real * c == |x[1..]| as real * c + c;
      assert m * (x[0] + Total(x[1..])) == m * x[0] + m * Total(x[1..]);
    }
  }

  lemma TimesMinus(m: real, x: real, mean: real, c: real)
    ensures Times(m, x) + c - (Times(m, mean) + c) == Times(m, x - mean)
  {
  }

  lemma {:induction false} MinusOfAffine(x: seq<real>, m: real, c: real, mean: real)
    ensures Minus(Affine(x, m, c), Times(m, mean) + c) == Scaled(Minus(x, mean), m)
  {
    if x == [] {
    } else {
      MinusOfAffine(x[1..], m, c, mean);
      TimesMinus(m, x[0], mean, c);
      hide Times;
      var y, z := Affine(x, m, c), Minus(x, mean);
      assert y[1..] == Affine(x[1..], m, c) && z[1..] == Minus(x[1..], mean);
    }
  }

  lemma {:induction false} DotOfScaled(x: seq<real>, d: seq<real>, m: real)
    requires |x| == |d|
    ensures Dot(x, Scaled(d, m)) == m * Dot(x, d)
  {
    if x == [] {
    } else {
      DotOfScaled(x[1..], d[1..], m);
      var tail := Dot(x[1..], d[1..]);
      assert x[0] * Times(m, d[0]) == m * (x[0] * d[0]);
      assert m * (x[0] * d[0] + tail) == m * (x[0] * d[0]) + m * tail;
      assert Scaled(d, m)[1..] == Scaled(d[1..], m);
    }
  }

  lemma MeanMoves(total: real, n: real, m: real, c: real, mean: real)
    requires n > 0.0 && mean == total / n
    ensures (m * total + n * c) / n == Times(m, mean) + c
  {
    assert m * (mean * n) + n * c == (m * mean + c) * n;
  }

  lemma MeanOfAffine(x: seq<real>, m: real, c: real)
    requires x != []
    ensures Mean(Affine(x, m, c)) == Times(m, Mean(x)) + c
  {
    TotalOfAffine(x, m, c);
    MeanMoves(Total(x), |x| as real, m, c, Mean(x));
  }

  lemma DotsOfScaled(d: seq<real>, m: real)
    ensures Dot(d, Scaled(d, m)) == m * Dot(d, d)
    ensures Dot(Scaled(d, m), Scaled(d, m)) == (m * m) * Dot(d, d)
  {
    DotOfScaled(d, d, m);
    DotOfScaled(Scaled(d, m), d, m);
    DotSymmetric(d, Scaled(d, m));
    assert m * (m * Dot(d, d)) == (m * m) * Dot(d, d);
  }

  lemma PerfectQuotient(A: real, m: real, s: real, t: real)
    requires A > 0.0 && m != 0.0 && s >= 0.0 && t >= 0.0 && s * s == A && t * t == (m * m) * A
    ensures s != 0.0 && t != 0.0 && s * t != 0.0 && (m * A) / (s * t) == if m > 0.0 then 1.0 else -1.0
  {
    var k := if m > 0.0 then m else -m;
    assert s > 0.0;
    ProductPositive(k, s);
    assert (k * s) * (k * s) == (k * k) * (s * s) == (m * m) * A;
    RootOrder(t, k * s);
    RootOrder(k * s, t);
    assert s * t == k * A;
    ProductPositive(k, A);
  }

  lemma PerfectCoefficient(A: real, m: real, B: real, C: real, s: real, t: real)
    requires A > 0.0 && m != 0.0 && B == (m * m) * A && C == m * A
    requires s >= 0.0 && t >= 0.0 && s * s == A && t * t == B
    ensures Coefficient(C, s, t) == if m > 0.0 then 1.0 else -1.0
  {
    PerfectQuotient(A, m, s, t);
  }

  lemma ScaledIsPerfect(d: seq<real>, m: real, s: real, t: real)
    requires Dot(d, d) > 0.0 && m != 0.0
    requires s >= 0.0 && t >= 0.0 && s * s == Dot(d, d) && t * t == Dot(Scaled(d, m), Scaled(d, m))
    ensures Coefficient(Dot(d, Scaled(d, m)), s, t) == if m > 0.0 then 1.0 else -1.0
  {
    hide Dot, Coefficient;
    DotsOfScaled(d, m);
    PerfectCoefficient(Dot(d, d), m, Dot(Scaled(d, m), Scaled(d, m)), Dot(d, Scaled(d, m)), s, t);
  }

  lemma DeviationsOfAffine(x: seq<real>, m: real, c: real)
    requires x != []
    ensures Deviations(Affine(x, m, c)) == Scaled(Deviations(x), m)
  {
    MeanOfAffine(x, m, c);
    MinusOfAffine(x, m, c, Mean(x));
  }

  /** A series that is an increasing (decreasing) affine function of a non-constant one
      has correlation exactly 1 (-1) with it. */
  lemma AffineIsPerfect(x: seq<real>, m: real, c: real, sqrt: real -> real)
    requires IsSqrt(sqrt) && |x| >= 3 && m != 0.0 && Dot(Deviations(x), Deviations(x)) > 0.0
    ensures Pearson(x, Affine(x, m, c), sqrt) == if m > 0.0 then 1.0 else -1.0
  {
    DeviationsOfAffine(x, m, c);
    var dx, dy := Deviations(x), Deviations(Affine(x, m, c));
    assert Pearson(x, Affine(x, m, c), sqrt) == Coefficient(Dot(dx, dy), sqrt(Dot(dx, dx)), sqrt(Dot(dy, dy))) by {
      hide Affine, Deviations, Dot, Coefficient, IsSqrt;
    }
    hide Affine, Deviations, Dot, Coefficient, IsSqrt, Pearson;
    DotNonnegative(dy);
    SqrtOf(sqrt, Dot(dx, dx));
    SqrtOf(sqrt, Dot(dy, dy));
    ScaledIsPerfect(dx, m, sqrt(Dot(dx, dx)), sqrt(Dot(dy, dy)));
  }

  // ----- Least squares -----

  /** The squared distance of a point from the line of slope m through (0, c). */
  function ErrorAt(x: real, y: real, m: real, c: real): real {
    (y - m * x - c) * (y - m * x - c)
  }

  function SquaredError(x: seq<real>, y: seq<real>, m: real, c: real): real
    requires |x| == |y|
  {
    if x == [] then 0.0 else ErrorAt(x[0], y[0], m, c) + SquaredError(x[1..], y[1..], m, c)
  }

  /** A squared error from sums over deviations: of squares of y and x, of products, of y and
      of x, and their number. */
  function Expanded(B: real, A: real, C: real, Y: real, X: real, n: real, m: real, k: real): real {
    B - 2.0 * m * C + m * m * A + 2.0 * k * Y - 2.0 * k * m * X + n * (k * k)
  }

  lemma ExpandedSum(B: real, A: real, C: real, Y: real, X: real, n: real, bb: real, aa: real, ab: real, b: real,
                    a: real, m: real, k: real)
    ensures Expanded(bb + B, aa + A, ab + C, b + Y, a + X, n + 1.0, m, k)
         == Expanded(bb, aa, ab, b, a, 1.0, m, k) + Expanded(B, A, C, Y, X, n, m, k)
  {
  }

  /** One term, with the deviations a = x - meanX and b = y - meanY. */
  lemma ErrorTerm(x: real, y: real, meanX: real, meanY: real, m: real, c: real, k: real)
    requires k == meanY - m * meanX - c
    ensures var a, b := x - meanX, y - meanY;
      ErrorAt(x, y, m, c) == Expanded(b * b, a * a, a * b, b, a, 1.0, m, k)
  {
    var a, b := x - meanX, y - meanY;
    assert m * x == m * a + m * meanX;
    assert y - m * x - c == b - m * a + k;
    var p := m * a;
    assert (b - p + k) * (b - p + k) == b * b + p * p + k * k - 2.0 * (b * p) + 2.0 * (b * k) - 2.0 * (p * k);
    assert p * p == m * m * (a * a) && b * p == m * (a * b) && p * k == k * m * a;
  }

  lemma Unfolded(x: seq<real>, y: seq<real>, meanX: real, meanY: real, m: real, c: real)
    requires |x| == |y| && x != []
    ensures var dx, dy, tx, ty := Minus(x, meanX), Minus(y, meanY), Minus(x[1..], meanX), Minus(y[1..], meanY);
      var a, b := x[0] - meanX, y[0] - meanY;
      && Dot(dy, dy) == b * b + Dot(ty, ty) && Dot(dx, dx) == a * a + Dot(tx, tx) && Dot(dx, dy) == a * b + Dot(tx, ty)
      && Total(dx) == a + Total(tx) && Total(dy) == b + Total(ty)
      && SquaredError(x, y, m, c) == ErrorAt(x[0], y[0], m, c) + SquaredError(x[1..], y[1..], m, c)
  {
    hide ErrorAt;
  }

  /** The first point and the others: aa, bb and ab are the squares and the product of its
      deviations. */
  lemma FirstPoint(x: seq<real>, y: seq<real>, meanX: real, meanY: real, m: real, c: real, k: real)
    returns (aa: real, bb: real, ab: real)
    requires |x| == |y| && x != [] && k == meanY - m * meanX - c
    ensures var dx, dy, tx, ty := Minus(x, meanX), Minus(y, meanY), Minus(x[1..], meanX), Minus(y[1..], meanY);
      var a, b := x[0] - meanX, y[0] - meanY;
      && Dot(dy, dy) == bb + Dot(ty, ty) && Dot(dx, dx) == aa + Dot(tx, tx) && Dot(dx, dy) == ab + Dot(tx, ty)
      && Total(dx) == a + Total(tx) && Total(dy) == b + Total(ty)
      && SquaredError(x, y, m, c) == Expanded(bb, aa, ab, b, a, 1.0, m, k) + SquaredError(x[1..], y[1..], m, c)
  {
    var a, b := x[0] - meanX, y[0] - meanY;
    aa, bb, ab := a * a, b * b, a * b;
    hide ErrorAt, Expanded, Minus, Dot, Total, SquaredError;
    ErrorTerm(x[0], y[0], meanX, meanY, m, c, k);
    Unfolded(x, y, meanX, meanY, m, c);
  }

  lemma {:induction false} ErrorSplits(x: seq<real>, y: seq<real>, meanX: real, meanY: real, m: real, c: real, k: real)
    requires |x| == |y| && k == meanY - m * meanX - c
    ensures var dx, dy := Minus(x, meanX), Minus(y, meanY);
      SquaredError(x, y, m, c)
      == Expanded(Dot(dy, dy), Dot(dx, dx), Dot(dx, dy), Total(dy), Total(dx), |x| as real, m, k)
  {
    if x == [] {
    } else {
      hide Expanded, Minus, Dot, Total, SquaredError;
      ErrorSplits(x[1..], y[1..], meanX, meanY, m, c, k);
      var aa, bb, ab := FirstPoint(x, y, meanX, meanY, m, c, k);
      var tx, ty := Minus(x[1..], meanX), Minus(y[1..], meanY);
      ExpandedSum(Dot(ty, ty), Dot(tx, tx), Dot(tx, ty), Total(ty), Total(tx), |x[1..]| as real,
                  bb, aa, ab, y[0] - meanY, x[0] - meanX, m, k);
    }
  }

  lemma {:induction false} TotalOfMinus(x: seq<real>, m: real)
    ensures Total(Minus(x, m)) == Total(x) - |x| as real * m
  {
    if x == [] {
    } else {
      TotalOfMinus(x[1..], m);
      assert |x| as real * m == |x[1..]| as real * m + m;
    }
  }

  lemma DeviationsCancel(x: seq<real>)
    requires x != []
    ensures Total(Deviations(x)) == 0.0
  {
    TotalOfMinus(x, Mean(x));
  }

  /** The squared error of any line, by what it has to do with the deviations. */
  lemma ErrorOfLine(x: seq<real>, y: seq<real>, m: real, c: real, k: real)
    requires |x| == |y| && x != [] && k == Mean(y) - m * Mean(x) - c
    ensures var dx, dy := Deviations(x), Deviations(y);
      SquaredError(x, y, m, c) == Expanded(Dot(dy, dy), Dot(dx, dx), Dot(dx, dy), 0.0, 0.0, |x| as real, m, k)
  {
    hide Expanded, Dot, Mean, SquaredError, Total;
    ErrorSplits(x, y, Mean(x), Mean(y), m, c, k);
    DeviationsCancel(x);
    DeviationsCancel(y);
  }

  lemma Square(x: real)
    ensures x * x >= 0.0
  {
  }

  /** With the sums A, B and C of squares and products, no slope m and no offset k can be better
      than m = C / A and k = 0. */
  lemma LeastError(A: real, B: real, C: real, n: real, m: real, k: real, r: real)
    requires A >= 0.0 && n >= 0.0 && C * C == r * r * (A * B) && (A == 0.0 ==> C == 0.0 && r == 0.0)
    ensures Expanded(B, A, C, 0.0, 0.0, n, m, k) >= (1.0 - r * r) * B
    ensures A > 0.0 && m == C / A && k == 0.0 ==> Expanded(B, A, C, 0.0, 0.0, n, m, k) == (1.0 - r * r) * B
    ensures A == 0.0 && k == 0.0 ==> Expanded(B, A, C, 0.0, 0.0, n, m, k) == (1.0 - r * r) * B
  {
    Square(k);
    assert n * (k * k) >= 0.0;
    if A == 0.0 {
    } else {
      var best := C / A;
      assert C == best * A;
      assert r * r * B == best * C by {
        assert (r * r * B) * A == (best * C) * A;
      }
      var off := m - best;
      Square(off);
      assert A * (off * off) >= 0.0;
      assert A * (off * off) == m * m * A - 2.0 * m * C + best * C;
    }
  }

  lemma SignOfQuotient(c: real, d: real)
    requires d > 0.0
    ensures (c / d > 0.0 <==> c > 0.0) && (c / d < 0.0 <==> c < 0.0)
  {
    var q := c / d;
    assert q * d == c;
    if q > 0.0 {
      ProductPositive(q, d);
    } else if q < 0.0 {
      ProductPositive(-q, d);
    }
  }

  lemma NoSpread(A: real, B: real, C: real)
    requires C * C <= A * B
    ensures A == 0.0 || B == 0.0 ==> C == 0.0
  {
    if A == 0.0 || B == 0.0 {
      assert A * B == 0.0 * 0.0;
      RootOrder(0.0, C);
      assert (-C) * (-C) == C * C;
      RootOrder(0.0, -C);
    }
  }

  lemma CoefficientSquare(A: real, B: real, C: real, s: real, t: real)
    requires s >= 0.0 && t >= 0.0 && s * s == A && t * t == B && C * C <= A * B
    ensures var r := Coefficient(C, s, t);
      C * C == r * r * (A * B) && (r > 0.0 <==> C > 0.0) && (r < 0.0 <==> C < 0.0)
  {
    if s == 0.0 || t == 0.0 {
      assert A * B == 0.0;
      NoSpread(A, B, C);
    } else {
      var d := s * t;
      ProductPositive(s, t);
      var r := C / d;
      assert C == r * d;
      assert C * C == (r * r) * (d * d);
      assert d * d == A * B;
      SignOfQuotient(C, d);
    }
  }

  function Slope(A: real, C: real): (m: real)
    ensures A > 0.0 ==> m == C / A && (m > 0.0 <==> C > 0.0) && (m < 0.0 <==> C < 0.0)
    ensures A == 0.0 ==> m == 0.0
  {
    if A > 0.0 then SignOfQuotient(C, A); C / A else 0.0
  }

  lemma LevelError(A: real, B: real, C: real, n: real, k: real)
    requires n >= 0.0
    ensures Expanded(B, A, C, 0.0, 0.0, n, 0.0, 0.0) == B <= Expanded(B, A, C, 0.0, 0.0, n, 0.0, k)
  {
    Square(k);
    assert n * (k * k) >= 0.0;
  }

  /** The slope m and the height c describe a line no other fits the points better than, and
      mean is the height of the best level line. */
  ghost predicate BestLines(x: seq<real>, y: seq<real>, r: real, m: real, c: real, mean: real)
    requires |x| == |y|
  {
    && (forall d :: SquaredError(x, y, 0.0, mean) <= SquaredError(x, y, 0.0, d))
    && (forall n, d :: SquaredError(x, y, m, c) <= SquaredError(x, y, n, d))
    && SquaredError(x, y, m, c) == (1.0 - r * r) * SquaredError(x, y, 0.0, mean)
    && (r > 0.0 <==> m > 0.0) && (r < 0.0 <==> m < 0.0)
  }

  lemma PearsonIsLeastSquares(x: seq<real>, y: seq<real>, sqrt: real -> real) returns (m: real, c: real, mean: real)
    requires IsSqrt(sqrt) && |x| == |y| >= 3
    ensures BestLines(x, y, Pearson(x, y, sqrt), m, c, mean)
  {
    hide Dot, Deviations, Coefficient, IsSqrt, Expanded, SquaredError, Mean;
    var dx, dy, r, size := Deviations(x), Deviations(y), Pearson(x, y, sqrt), |x| as real;
    var A, B, C := Dot(dx, dx), Dot(dy, dy), Dot(dx, dy);
    CauchySchwarz(dx, dy);
    DotNonnegative(dx);
    DotNonnegative(dy);
    SqrtOf(sqrt, A);
    SqrtOf(sqrt, B);
    CoefficientSquare(A, B, C, sqrt(A), sqrt(B));
    NoSpread(A, B, C);
    m, mean := Slope(A, C), Mean(y);
    c := Mean(y) - m * Mean(x);
    ErrorOfLine(x, y, m, c, 0.0);
    LeastError(A, B, C, size, m, 0.0, r);
    ErrorOfLine(x, y, 0.0, mean, 0.0);
    forall d ensures SquaredError(x, y, 0.0, mean) == B <= SquaredError(x, y, 0.0, d) {
      ErrorOfLine(x, y, 0.0, d, mean - d);
      LevelError(A, B, C, size, mean - d);
    }
    forall n, d ensures SquaredError(x, y, n, d) >= (1.0 - r * r) * B {
      var k := Mean(y) - n * Mean(x) - d;
      ErrorOfLine(x, y, n, d, k);
      LeastError(A, B, C, size, n, k, r);
    }
  }

  // ----- estimate_strength -----

  /** The gap allowed by default, in seconds. */
  const MAX_GAP := 60.0

  function Firsts(pairs: seq<(real, real)>): seq<real> {
    seq(|pairs|, i requires 0 <= i < |pairs| => pairs[i].0)
  }

  function Seconds(pairs: seq<(real, real)>): seq<real> {
    seq(|pairs|, i requires 0 <= i < |pairs| => pairs[i].1)
  }

  function PairsStrength(pairs: seq<(real, real)>, sqrt: real -> real): real {
    Pearson(Firsts(pairs), Seconds(pairs), sqrt)
  }

  /** The sum of the squared distances of the pairs from a line. */
  function PairsError(pairs: seq<(real, real)>, m: real, c: real): real {
    if pairs == [] then 0.0
    else (pairs[0].1 - m * pairs[0].0 - c) * (pairs[0].1 - m * pairs[0].0 - c) + PairsError(pairs[1..], m, c)
  }

  lemma {:induction false} ErrorOfPairs(pairs: seq<(real, real)>, m: real, c: real)
    ensures SquaredError(Firsts(pairs), Seconds(pairs), m, c) == PairsError(pairs, m, c)
  {
    if pairs == [] {
    } else {
      ErrorOfPairs(pairs[1..], m, c);
      assert Firsts(pairs)[1..] == Firsts(pairs[1..]) && Seconds(pairs)[1..] == Seconds(pairs[1..]);
    }
  }

  /** Least squares: the strength r says how much better the best line fits the pairs than the
      best level line does, whose squared error it leaves 1 - r^2 of; it has the sign of the
      slope of that line.  Fewer than three pairs have strength 0. */
  lemma StrengthIsLeastSquares(pairs: seq<(real, real)>, sqrt: real -> real) returns (m: real, c: real, mean: real)
    requires IsSqrt(sqrt)
    ensures var r := PairsStrength(pairs, sqrt);
      if |pairs| < 3 then r == 0.0
      else
        && (forall d :: PairsError(pairs, 0.0, mean) <= PairsError(pairs, 0.0, d))
        && (forall n, d :: PairsError(pairs, m, c) <= PairsError(pairs, n, d))
        && PairsError(pairs, m, c) == (1.0 - r * r) * PairsError(pairs, 0.0, mean)
        && (r > 0.0 <==> m > 0.0) && (r < 0.0 <==> m < 0.0)
  {
    hide SquaredError, PairsError;
    m, c, mean := 0.0, 0.0, 0.0;
    if |pairs| >= 3 {
      hide Pearson, IsSqrt;
      m, c, mean := PearsonIsLeastSquares(Firsts(pairs), Seconds(pairs), sqrt);
      forall n, d ensures SquaredError(Firsts(pairs), Seconds(pairs), n, d) == PairsError(pairs, n, d) {
        ErrorOfPairs(pairs, n, d);
      }
    }
  }

  /** r is the strength of the pairs that matching the two series by time gives. */
  ghost predicate SeriesStrength(causes: seq<Observation>, effects: seq<Observation>, maxGap: real, sqrt: real -> real,
                                 r: real) {
    exists pairs ::
      Matched(SortByTime(causes), SortByTime(effects), maxGap, pairs) && r == PairsStrength(pairs, sqrt)
  }

  /** Strength estimated from given pairs of values, or else from two observation logs. */
  method EstimateStrength(observations: Option<seq<(real, real)>>, causes: seq<Observation>, effects: seq<Observation>,
                          sqrt: real -> real) returns (r: real)
    requires IsSqrt(sqrt)
    ensures -1.0 <= r <= 1.0
    ensures observations.Some? ==> r == PairsStrength(observations.value, sqrt)
    ensures observations.None? ==> SeriesStrength(causes, effects, 60.0, sqrt, r)
  {
    hide Matched;
    var pairs;
    if observations.Some? {
      pairs := observations.value;
    } else {
      pairs := MatchObservations(causes, effects, MAX_GAP);
    }
    PearsonIsBounded(Firsts(pairs), Seconds(pairs), sqrt);
    r := if |pairs| < 3 then 0.0 else Pearson(Firsts(pairs), Seconds(pairs), sqrt);
  }
}
