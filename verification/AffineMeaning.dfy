/** What the Jacobian and co-Z formulas compute: the chord and tangent law on affine points.
    (X, Y, Z) stands for the affine point (x, y) when X = x Z^2 and Y = y Z^3 modulo m. */
module AffineMeaning {
  import opened Bits
  import opened Congruence
  import opened CurveAlgebra

  ghost predicate StandsFor(X: int, Y: int, Z: int, x: int, y: int, m: int) {
    ScalesTo(x, y, Z, X, Y, m)
  }

  // (x3, y3) is the third point of the line of slope l through (x1, y1) and (x2, y2), reflected.
  ghost predicate ChordSum(l: int, x1: int, y1: int, x2: int, y2: int, x3: int, y3: int, m: int) {
    && Cong(l * (x2 - x1), y2 - y1, m)
    && Cong(x3, l * l - x1 - x2, m)
    && Cong(y3, l * (x1 - x3) - y1, m)
  }

  // The same for the tangent at (x, y) on y^2 = x^3 - 3 x + b.
  ghost predicate TangentSum(l: int, x: int, y: int, x3: int, y3: int, m: int) {
    && Cong(2 * (l * y), 3 * (x * x - 1), m)
    && Cong(x3, l * l - 2 * x, m)
    && Cong(y3, l * (x - x3) - y, m)
  }

  // Everything both formulas do once their scaled slope s is known to be l Z3:
  // u and c are the scaled abscissas, v the scaled ordinate.
  lemma SlopeGivesSum(l: int, s: int, u: int, v: int, c: int, X3: int, Y3: int, Z3: int,
                      x1: int, y1: int, x2: int, x3: int, y3: int, m: int)
    requires Cong(s, l * Z3, m)
    requires Cong(u, x1 * (Z3 * Z3), m) && Cong(v, y1 * (Z3 * (Z3 * Z3)), m) && Cong(c, x2 * (Z3 * Z3), m)
    requires Cong(X3, s * s - u - c, m) && Cong(Y3, s * (u - X3) - v, m)
    requires Cong(x3, l * l - x1 - x2, m) && Cong(y3, l * (x1 - x3) - y1, m)
    ensures StandsFor(X3, Y3, Z3, x3, y3, m)
  {
    hide Cong;
    var W := Z3 * Z3;
    // X3
    CongMul(s, l * Z3, s, l * Z3, m);
    CongSub(s * s, (l * Z3) * (l * Z3), u, x1 * W, m);
    CongSub(s * s - u, (l * Z3) * (l * Z3) - x1 * W, c, x2 * W, m);
    CongTrans(X3, s * s - u - c, (l * Z3) * (l * Z3) - x1 * W - x2 * W, m);
    XFactor(l, Z3, W, x1, x2);
    CongRefl(W, m);
    CongMul(x3, l * l - x1 - x2, W, W, m);
    CongSym(x3 * W, (l * l - x1 - x2) * W, m);
    CongTrans(X3, (l * l - x1 - x2) * W, x3 * W, m);
    // Y3
    CongSub(u, x1 * W, X3, x3 * W, m);
    CongMul(s, l * Z3, u - X3, x1 * W - x3 * W, m);
    CongSub(s * (u - X3), l * Z3 * (x1 * W - x3 * W), v, y1 * (Z3 * W), m);
    CongTrans(Y3, s * (u - X3) - v, l * Z3 * (x1 * W - x3 * W) - y1 * (Z3 * W), m);
    YFactor(l, Z3, W, x1, x3, y1);
    CongRefl(Z3 * W, m);
    CongMul(y3, l * (x1 - x3) - y1, Z3 * W, Z3 * W, m);
    CongSym(y3 * (Z3 * W), (l * (x1 - x3) - y1) * (Z3 * W), m);
    CongTrans(Y3, (l * (x1 - x3) - y1) * (Z3 * W), y3 * (Z3 * W), m);
  }

  lemma XFactor(l: int, Z: int, W: int, x1: int, x2: int)
    requires W == Z * Z
    ensures (l * Z) * (l * Z) - x1 * W - x2 * W == (l * l - x1 - x2) * W
  {
    assert (l * Z) * (l * Z) == (l * l) * W;
  }

  lemma YFactor(l: int, Z: int, W: int, x1: int, x3: int, y1: int)
    ensures l * Z * (x1 * W - x3 * W) - y1 * (Z * W) == (l * (x1 - x3) - y1) * (Z * W)
  {
    var V := Z * W;
    assert l * Z * (x1 * W) == l * x1 * V;
    assert l * Z * (x3 * W) == l * x3 * V;
    assert l * Z * (x1 * W - x3 * W) == l * Z * (x1 * W) - l * Z * (x3 * W);
    assert (l * (x1 - x3) - y1) * V == l * x1 * V - l * x3 * V - y1 * V;
  }

  // Rescaling changes Z and nothing else.
  lemma ScaleMeans(X: int, Y: int, Z: int, t: int, Xr: int, Yr: int, x: int, y: int, m: int)
    requires StandsFor(X, Y, Z, x, y, m) && ScalesTo(X, Y, t, Xr, Yr, m)
    ensures StandsFor(Xr, Yr, Z * t, x, y, m)
  {
    hide Cong;
    var W, T, V := Z * Z, t * t, Z * t;
    Cubes(Z, t);
    CongRefl(T, m);
    CongMul(X, x * W, T, T, m);
    CongTrans(Xr, X * T, x * W * T, m);
    Regroup(x, W, T);
    CongRefl(t * T, m);
    CongMul(Y, y * (Z * W), t * T, t * T, m);
    CongTrans(Yr, Y * (t * T), y * (Z * W) * (t * T), m);
    Regroup(y, Z * W, t * T);
  }

  lemma Cubes(Z: int, t: int)
    ensures (Z * Z) * (t * t) == (Z * t) * (Z * t)
    ensures (Z * (Z * Z)) * (t * (t * t)) == (Z * t) * ((Z * t) * (Z * t))
  {
    assert (Z * t) * (Z * t) == (Z * Z) * (t * t);
    assert (Z * (Z * Z)) * (t * (t * t)) == (Z * t) * ((Z * Z) * (t * t));
  }

  // Y2 - Y1 = (y2 - y1) Z^3 = l (x2 - x1) Z^3 = l (X2 - X1) Z
  lemma ScaledChordSlope(X1: int, Y1: int, X2: int, Y2: int, Z: int,
                         l: int, x1: int, y1: int, x2: int, y2: int, m: int)
    requires StandsFor(X1, Y1, Z, x1, y1, m) && StandsFor(X2, Y2, Z, x2, y2, m)
    requires Cong(l * (x2 - x1), y2 - y1, m)
    ensures Cong(Y2 - Y1, l * (Z * (X2 - X1)), m)
  {
    hide Cong;
    var d, s, W := X2 - X1, Y2 - Y1, Z * Z;
    var V := Z * W;
    DifferenceScales(X1, X2, x1, x2, W, m);
    DifferenceScales(Y1, Y2, y1, y2, V, m);
    CongTimes(l * Z, d, (x2 - x1) * W, m);
    CongRefl(V, m);
    CongMul(l * (x2 - x1), y2 - y1, V, V, m);
    Shuffle(l, Z, x2 - x1, W);
    Regroup(l, Z, d);
    CongTrans(l * Z * d, l * (x2 - x1) * V, (y2 - y1) * V, m);
    CongSym(l * Z * d, (y2 - y1) * V, m);
    CongTrans(s, (y2 - y1) * V, l * Z * d, m);
  }

  lemma DifferenceScales(a: int, b: int, x: int, y: int, c: int, m: int)
    requires Cong(a, x * c, m) && Cong(b, y * c, m)
    ensures Cong(b - a, (y - x) * c, m)
  {
    hide Cong;
    CongSub(b, y * c, a, x * c, m);
    assert y * c - x * c == (y - x) * c;
  }

  // Co-Z addition computes the chord sum.
  lemma AddMeans(X1: int, Y1: int, X2: int, Y2: int, Z: int, X3: int, Y3: int,
                 l: int, x1: int, y1: int, x2: int, y2: int, x3: int, y3: int, m: int)
    requires StandsFor(X1, Y1, Z, x1, y1, m) && StandsFor(X2, Y2, Z, x2, y2, m)
    requires AddsTo(X1, Y1, X2, Y2, X3, Y3, m)
    requires ChordSum(l, x1, y1, x2, y2, x3, y3, m)
    ensures StandsFor(X3, Y3, Z * (X2 - X1), x3, y3, m)
  {
    hide Cong;
    var d, s := X2 - X1, Y2 - Y1;
    var D, Z3 := d * d, Z * d;
    ScaledChordSlope(X1, Y1, X2, Y2, Z, l, x1, y1, x2, y2, m);
    ScaleMeans(X1, Y1, Z, d, X1 * D, Y1 * (d * D), x1, y1, m) by {
      CongRefl(X1 * D, m);
      CongRefl(Y1 * (d * D), m);
    }
    ScaleMeans(X2, Y2, Z, d, X2 * D, Y2 * (d * D), x2, y2, m) by {
      CongRefl(X2 * D, m);
      CongRefl(Y2 * (d * D), m);
    }
    SlopeGivesSum(l, s, X1 * D, Y1 * (d * D), X2 * D, X3, Y3, Z3, x1, y1, x2, x3, y3, m);
  }

  lemma Shuffle(a: int, b: int, c: int, d: int)
    ensures a * b * (c * d) == a * c * (b * d)
  {
  }

  // Jacobian doubling computes the tangent sum.
  lemma DoubleMeans(X: int, Y: int, Z: int, s: int, X3: int, Y3: int, Z3: int,
                    l: int, x: int, y: int, x3: int, y3: int, m: int)
    requires m % 2 == 1
    requires StandsFor(X, Y, Z, x, y, m) && DoublesTo(X, Y, Z, s, X3, Y3, Z3, m)
    requires TangentSum(l, x, y, x3, y3, m)
    ensures StandsFor(X3, Y3, Z3, x3, y3, m)
  {
    hide Cong;
    var T, V := Y * Y, Z * Y;
    TangentSlope(X, Y, Z, s, Z3, l, x, y, m);
    ScaleMeans(X, Y, Z, Y, X * T, Y * (Y * T), x, y, m) by {
      CongRefl(X * T, m);
      CongRefl(Y * (Y * T), m);
    }
    assert V == Y * Z;
    CongSym(Z3, V, m);
    CongMul(V, Z3, V, Z3, m);
    CongMul(V, Z3, V * V, Z3 * Z3, m);
    CongTimes(x, V * V, Z3 * Z3, m);
    CongTimes(y, V * (V * V), Z3 * (Z3 * Z3), m);
    CongTrans(X * T, x * (V * V), x * (Z3 * Z3), m);
    CongTrans(Y * (Y * T), y * (V * (V * V)), y * (Z3 * (Z3 * Z3)), m);
    assert Y * (Y * T) == T * T by { Regroup(Y, Y, T); }
    assert l * l - x - x == l * l - 2 * x && s * s - X * T - X * T == s * s - 2 * (X * T);
    SlopeGivesSum(l, s, X * T, Y * (Y * T), X * T, X3, Y3, Z3, x, y, x, x3, y3, m);
  }

  // 2 s = 3 (X^2 - Z^4) = Z^4 3 (x^2 - 1) = Z^4 2 l y = 2 l (Y Z), and 2 can be cancelled.
  lemma TangentSlope(X: int, Y: int, Z: int, s: int, Z3: int, l: int, x: int, y: int, m: int)
    requires m % 2 == 1
    requires StandsFor(X, Y, Z, x, y, m)
    requires Cong(2 * s, 3 * (X * X - Pow4(Z)), m) && Cong(Z3, Y * Z, m)
    requires Cong(2 * (l * y), 3 * (x * x - 1), m)
    ensures Cong(s, l * Z3, m)
  {
    hide Pow4, StandsFor, Cong;
    var F := Pow4(Z);
    ScaledTangent(X, Y, Z, F, x, y, m);
    CongTimes(3, X * X - F, F * (x * x - 1), m);
    CongTrans(2 * s, 3 * (X * X - F), 3 * (F * (x * x - 1)), m);
    assert 3 * (F * (x * x - 1)) == F * (3 * (x * x - 1)) by { Swap3(F, x * x - 1); }
    CongSym(2 * (l * y), 3 * (x * x - 1), m);
    CongTimes(F, 3 * (x * x - 1), 2 * (l * y), m);
    CongTrans(2 * s, F * (3 * (x * x - 1)), F * (2 * (l * y)), m);
    CongTrans(Z3, Y * Z, y * F, m);
    CongTimes(2 * l, Z3, y * F, m);
    Shuffle2(l, y, F);
    CongSym(2 * l * Z3, F * (2 * (l * y)), m);
    CongTrans(2 * s, F * (2 * (l * y)), 2 * l * Z3, m);
    assert 2 * l * Z3 == 2 * (l * Z3) by { Regroup(2, l, Z3); }
    CancelTwo(s, l * Z3, m);
  }

  lemma Swap3(a: int, b: int)
    ensures 3 * (a * b) == a * (3 * b)
  {
  }

  // X^2 - Z^4 = Z^4 (x^2 - 1) and Y Z = y Z^4.
  lemma ScaledTangent(X: int, Y: int, Z: int, F: int, x: int, y: int, m: int)
    requires StandsFor(X, Y, Z, x, y, m) && F == Pow4(Z)
    ensures Cong(X * X - F, F * (x * x - 1), m) && Cong(Y * Z, y * F, m)
  {
    hide Cong;
    var W := Z * Z;
    CongMul(X, x * W, X, x * W, m);
    CongRefl(F, m);
    CongSub(X * X, (x * W) * (x * W), F, F, m);
    SquareFactor(x, W, F);
    CongRefl(Z, m);
    CongMul(Y, y * (Z * W), Z, Z, m);
    FourthFactor(y, Z, W);
  }

  lemma FourthFactor(y: int, Z: int, W: int)
    requires W == Z * Z
    ensures y * (Z * W) * Z == y * (W * W)
  {
    assert (Z * W) * Z == W * W;
    Regroup(y, Z * W, Z);
  }

  lemma Shuffle2(l: int, y: int, F: int)
    ensures 2 * l * (y * F) == F * (2 * (l * y))
  {
    var c := l * y;
    assert l * (y * F) == c * F;
  }

  lemma SquareFactor(x: int, W: int, F: int)
    requires F == W * W
    ensures (x * W) * (x * W) - F == F * (x * x - 1)
  {
    assert (x * W) * (x * W) == F * (x * x);
  }
}
