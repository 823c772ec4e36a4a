/** The Jacobian and co-Z point formulas as relations between integers modulo m, and what they mean:
    they stay on the curve y^2 = x^3 - 3 x z^4 + b z^6, and they compute the chord and tangent law. */
module CurveAlgebra {
  import opened Bits
  import opened Congruence

  // x^3 - 3 x q + b s, the right-hand side of the curve with q = z^4 and s = z^6.
  ghost function Cubic(x: int, q: int, s: int, b: int): int {
    x * x * x - 3 * x * q + b * s
  }

  ghost function Pow4(z: int): int { (z * z) * (z * z) }
  ghost function Pow6(z: int): int { (z * z) * (z * z) * (z * z) }

  ghost predicate OnCurve(x: int, y: int, z: int, b: int, m: int) {
    Cong(y * y, Cubic(x, Pow4(z), Pow6(z), b), m)
  }

  // (x3, y3, z3) comes from doubling (x, y, z); l is the scaled tangent slope.
  ghost predicate DoublesTo(x: int, y: int, z: int, l: int, x3: int, y3: int, z3: int, m: int) {
    var a := x * (y * y);
    && Cong(2 * l, 3 * (x * x - Pow4(z)), m)
    && Cong(x3, l * l - 2 * a, m)
    && Cong(y3, l * (a - x3) - (y * y) * (y * y), m)
    && Cong(z3, y * z, m)
  }

  // (xr, yr) is (x, y) with its z multiplied by t.
  ghost predicate ScalesTo(x: int, y: int, t: int, xr: int, yr: int, m: int) {
    Cong(xr, x * (t * t), m) && Cong(yr, y * (t * (t * t)), m)
  }

  // (x3, y3) is the sum of (x1, y1) and (x2, y2), which share a z that is multiplied by x2 - x1.
  ghost predicate AddsTo(x1: int, y1: int, x2: int, y2: int, x3: int, y3: int, m: int) {
    var d, l := x2 - x1, y2 - y1;
    && Cong(x3, l * l - x1 * (d * d) - x2 * (d * d), m)
    && Cong(y3, l * (x1 * (d * d) - x3) - y1 * (d * (d * d)), m)
  }

  // The difference: the sum with the second ordinate negated.
  ghost predicate SubtractsTo(x1: int, y1: int, x2: int, y2: int, x3: int, y3: int, m: int) {
    AddsTo(x1, y1, x2, -y2, x3, y3, m)
  }

  /* ---- staying on the curve ---- */

  lemma CongTimes(c: int, a: int, b: int, m: int)
    requires Cong(a, b, m)
    ensures Cong(c * a, c * b, m)
  {
    hide Cong;
    CongRefl(c, m);
    CongMul(c, c, a, b, m);
  }

  lemma CongZero(a: int, b: int, m: int)
    requires Cong(a, b, m)
    ensures Cong(a - b, 0, m)
  {
    hide Cong;
    CongRefl(b, m);
    CongSub(a, b, b, b, m);
  }

  lemma CubicCong(x: int, x': int, q: int, q': int, s: int, s': int, b: int, m: int)
    requires Cong(x, x', m) && Cong(q, q', m) && Cong(s, s', m)
    ensures Cong(Cubic(x, q, s, b), Cubic(x', q', s', b), m)
  {
    hide Cong;
    CongMul(x, x', x, x', m);
    CongMul(x * x, x' * x', x, x', m);
    CongTimes(3, x, x', m);
    CongMul(3 * x, 3 * x', q, q', m);
    CongTimes(b, s, s', m);
    CongSub(x * x * x, x' * x' * x', 3 * x * q, 3 * x' * q', m);
    CongAdd(x * x * x - 3 * x * q, x' * x' * x' - 3 * x' * q', b * s, b * s', m);
  }

  lemma Pow46Cong(z: int, z': int, m: int)
    requires Cong(z, z', m)
    ensures Cong(Pow4(z), Pow4(z'), m) && Cong(Pow6(z), Pow6(z'), m)
  {
    hide Cong;
    CongMul(z, z', z, z', m);
    CongMul(z * z, z' * z', z * z, z' * z', m);
    CongMul(Pow4(z), Pow4(z'), z * z, z' * z', m);
  }

  // The scaled cubic: with T = t^2, scaling x by T and z by t multiplies the right-hand side by T^3.
  lemma CubicScales(x: int, T: int, q: int, s: int, b: int)
    ensures Cubic(x * T, T * T * q, T * T * T * s, b) == T * T * T * Cubic(x, q, s, b)
  {
    assert (x * T) * (x * T) * (x * T) == T * T * T * (x * x * x);
    assert (x * T) * (T * T * q) == T * T * T * (x * q);
    assert b * (T * T * T * s) == T * T * T * (b * s);
    var c := T * T * T;
    assert c * (x * x * x - 3 * x * q + b * s) == c * (x * x * x) - 3 * (c * (x * q)) + c * (b * s);
  }

  lemma PowScales(z: int, t: int)
    ensures Pow4(z * t) == (t * t) * (t * t) * Pow4(z)
    ensures Pow6(z * t) == (t * t) * (t * t) * (t * t) * Pow6(z)
  {
    var Z, T := z * z, t * t;
    assert (z * t) * (z * t) == Z * T;
    assert (Z * T) * (Z * T) == (T * T) * (Z * Z);
    assert (T * T) * (Z * Z) * (Z * T) == (T * T * T) * (Z * Z * Z);
  }

  // Rescaling keeps a point on the curve.
  lemma ScaledOnCurve(x: int, y: int, z: int, t: int, xr: int, yr: int, zr: int, b: int, m: int)
    requires OnCurve(x, y, z, b, m) && ScalesTo(x, y, t, xr, yr, m) && Cong(zr, z * t, m)
    ensures OnCurve(xr, yr, zr, b, m)
  {
    hide Cong;
    var T := t * t;
    Pow46Cong(zr, z * t, m);
    PowScales(z, t);
    CubicScales(x, T, Pow4(z), Pow6(z), b);
    CubicCong(xr, x * T, Pow4(zr), T * T * Pow4(z), Pow6(zr), T * T * T * Pow6(z), b, m);
    CongMul(yr, y * (t * T), yr, y * (t * T), m);
    assert (y * (t * T)) * (y * (t * T)) == T * T * T * (y * y) by { SquareScales(y, t); }
    CongTimes(T * T * T, y * y, Cubic(x, Pow4(z), Pow6(z), b), m);
    CongTrans(yr * yr, T * T * T * (y * y), T * T * T * Cubic(x, Pow4(z), Pow6(z), b), m);
    CongSym(Cubic(xr, Pow4(zr), Pow6(zr), b), T * T * T * Cubic(x, Pow4(z), Pow6(z), b), m);
    CongTrans(yr * yr, T * T * T * Cubic(x, Pow4(z), Pow6(z), b), Cubic(xr, Pow4(zr), Pow6(zr), b), m);
  }

  lemma SquareScales(y: int, t: int)
    ensures (y * (t * (t * t))) * (y * (t * (t * t))) == (t * t) * (t * t) * (t * t) * (y * y)
  {
    var T := t * t;
    assert (t * T) * (t * T) == T * (T * T);
    var c := t * T;
    assert (y * c) * (y * c) == (c * c) * (y * y);
  }

  // A line through a curve point (u, v) with slope l meets the cubic again where this bracket vanishes.
  lemma LineMeetsCubic(u: int, v: int, l: int, q: int, s: int, b: int, x3: int)
    ensures Cubic(x3, q, s, b) - (v + l * (x3 - u)) * (v + l * (x3 - u))
         == (Cubic(u, q, s, b) - v * v)
          + (x3 - u) * (3 * (u * u) - 3 * q - 2 * (l * v) + (2 * u + x3 - l * l) * (x3 - u))
  {
    hide Cubic;
    var d := x3 - u;
    CubicShifted(u, d, q, s, b);
    SquareOfSum(v, l, d);
    BracketExpands(u, v, l, q, d);
    assert 2 * u + x3 - l * l == 3 * u + d - l * l;
  }

  lemma CubicShifted(u: int, d: int, q: int, s: int, b: int)
    ensures Cubic(u + d, q, s, b)
         == Cubic(u, q, s, b) + 3 * (u * u) * d + 3 * u * (d * d) + d * (d * d) - 3 * q * d
  {
    CubeOfSum(u, d);
    Distribute(u, d, q);
    assert Cubic(u + d, q, s, b) == (u + d) * (u + d) * (u + d) - 3 * ((u + d) * q) + b * s by {
      Regroup(3, u + d, q);
    }
    assert Cubic(u, q, s, b) == u * u * u - 3 * (u * q) + b * s by {
      Regroup(3, u, q);
    }
    assert 3 * q * d == 3 * (d * q) by {
      Regroup(3, q, d);
      Commute(q, d);
    }
  }

  lemma CubeOfSum(u: int, d: int)
    ensures (u + d) * (u + d) * (u + d) == u * u * u + 3 * (u * u) * d + 3 * u * (d * d) + d * (d * d)
  {
    assert (u + d) * (u + d) == u * u + 2 * (u * d) + d * d;
    assert (u * u + 2 * (u * d) + d * d) * (u + d) == u * u * u + 3 * (u * u) * d + 3 * u * (d * d) + d * (d * d);
  }

  lemma SquareOfSum(v: int, l: int, d: int)
    ensures (v + l * d) * (v + l * d) == v * v + 2 * (l * v) * d + (l * l) * (d * d)
  {
    assert (v + l * d) * (v + l * d) == v * v + 2 * (v * (l * d)) + (l * d) * (l * d);
  }

  lemma BracketExpands(u: int, v: int, l: int, q: int, d: int)
    ensures d * (3 * (u * u) - 3 * q - 2 * (l * v) + (3 * u + d - l * l) * d)
         == 3 * (u * u) * d - 3 * q * d - 2 * (l * v) * d + 3 * u * (d * d) + d * (d * d) - (l * l) * (d * d)
  {
    assert (3 * u + d - l * l) * (d * d) == 3 * u * (d * d) + d * (d * d) - (l * l) * (d * d);
    var k := 3 * (u * u) - 3 * q - 2 * (l * v);
    assert d * (k + (3 * u + d - l * l) * d) == k * d + (3 * u + d - l * l) * (d * d);
  }

  lemma LineClosed(u: int, v: int, l: int, q: int, s: int, b: int, x3: int, y3: int, m: int)
    requires Cong(v * v, Cubic(u, q, s, b), m)
    requires Cong(3 * (u * u) - 3 * q - 2 * (l * v) + (2 * u + x3 - l * l) * (x3 - u), 0, m)
    requires Cong(y3, l * (u - x3) - v, m)
    ensures Cong(y3 * y3, Cubic(x3, q, s, b), m)
  {
    hide Cubic, Cong;
    var br := 3 * (u * u) - 3 * q - 2 * (l * v) + (2 * u + x3 - l * l) * (x3 - u);
    var w := v + l * (x3 - u);
    LineMeetsCubic(u, v, l, q, s, b, x3);
    CongTimes(x3 - u, br, 0, m);
    CongSym(v * v, Cubic(u, q, s, b), m);
    CongZero(Cubic(u, q, s, b), v * v, m);
    CongAdd(Cubic(u, q, s, b) - v * v, 0, (x3 - u) * br, (x3 - u) * 0, m);
    CongRefl(w * w, m);
    CongAdd(Cubic(x3, q, s, b) - w * w, 0, w * w, w * w, m);
    assert l * (u - x3) - v == -w;
    CongMul(y3, -w, y3, -w, m);
    assert (-w) * (-w) == w * w;
    CongSym(Cubic(x3, q, s, b), w * w, m);
    CongTrans(y3 * y3, w * w, Cubic(x3, q, s, b), m);
  }

  // Doubling stays on the curve.
  lemma DoubleOnCurve(x: int, y: int, z: int, l: int, x3: int, y3: int, z3: int, b: int, m: int)
    requires OnCurve(x, y, z, b, m) && DoublesTo(x, y, z, l, x3, y3, z3, m)
    ensures OnCurve(x3, y3, z3, b, m)
  {
    hide Cong;
    var T := y * y;
    var u, v, q, s := x * T, y * (y * T), Pow4(z3), Pow6(z3);
    assert v == T * T by { Regroup(y, y, T); }
    CongRefl(u, m);
    CongRefl(v, m);
    assert z * y == y * z;
    ScaledOnCurve(x, y, z, y, u, v, z3, b, m);
    TangentBracket(x, T, z, y, l, z3, x3, m);
    LineClosed(u, v, l, q, s, b, x3, y3, m);
  }

  lemma TangentBracket(x: int, T: int, z: int, y: int, l: int, z3: int, x3: int, m: int)
    requires T == y * y && Cong(z3, y * z, m)
    requires Cong(2 * l, 3 * (x * x - Pow4(z)), m) && Cong(x3, l * l - 2 * (x * T), m)
    ensures Cong(3 * (x * T * (x * T)) - 3 * Pow4(z3) - 2 * (l * (T * T))
      + (2 * (x * T) + x3 - l * l) * (x3 - x * T), 0, m)
  {
    hide Pow4, Pow6, Cong;
    var u, q, Q := x * T, Pow4(z3), T * T * Pow4(z);
    Pow46Cong(z3, y * z, m);
    assert y * z == z * y;
    PowScales(z, y);
    // 3 u^2 - 3 q = T^2 (3 (x^2 - z^4)) = T^2 (2 l)
    CongTimes(3, q, Q, m);
    CongRefl(3 * (u * u), m);
    CongSub(3 * (u * u), 3 * (u * u), 3 * q, 3 * Q, m);
    assert u * u == T * T * (x * x);
    Factor3(T * T, x * x, Pow4(z));
    CongSym(2 * l, 3 * (x * x - Pow4(z)), m);
    CongTimes(T * T, 3 * (x * x - Pow4(z)), 2 * l, m);
    CongTrans(3 * (u * u) - 3 * q, 3 * (u * u) - 3 * Q, T * T * (2 * l), m);
    assert T * T * (2 * l) == 2 * (l * (T * T));
    CongZero(3 * (u * u) - 3 * q, 2 * (l * (T * T)), m);
    // 2 u + x3 - l^2 = 0
    CongZero(x3, l * l - 2 * u, m);
    CongTimes(x3 - u, x3 - (l * l - 2 * u), 0, m);
    assert (2 * u + x3 - l * l) * (x3 - u) == (x3 - u) * (x3 - (l * l - 2 * u));
    CongAdd(3 * (u * u) - 3 * q - 2 * (l * (T * T)), 0, (2 * u + x3 - l * l) * (x3 - u), 0, m);
  }

  lemma Factor3(c: int, a: int, b: int)
    ensures 3 * (c * a) - 3 * (c * b) == c * (3 * (a - b))
  {
  }

  // Adding two curve points that share a z stays on the curve.
  lemma AddOnCurve(x1: int, y1: int, x2: int, y2: int, z: int, x3: int, y3: int, z3: int, b: int, m: int)
    requires OnCurve(x1, y1, z, b, m) && OnCurve(x2, y2, z, b, m)
    requires AddsTo(x1, y1, x2, y2, x3, y3, m) && Cong(z3, z * (x2 - x1), m)
    ensures OnCurve(x3, y3, z3, b, m)
  {
    hide Cong;
    var d, l := x2 - x1, y2 - y1;
    var D := d * d;
    var u, v, c, q := x1 * D, y1 * (d * D), x2 * D, D * D * Pow4(z);
    CongRefl(u, m);
    CongRefl(v, m);
    ScaledOnCurve(x1, y1, z, d, u, v, z * d, b, m) by { CongRefl(z * d, m); }
    PowScales(z, d);
    ChordBracket(x1, y1, x2, y2, z, x3, b, m);
    LineClosed(u, v, l, Pow4(z * d), Pow6(z * d), b, x3, y3, m);
    Pow46Cong(z3, z * d, m);
    CongRefl(x3, m);
    CubicCong(x3, x3, Pow4(z3), Pow4(z * d), Pow6(z3), Pow6(z * d), b, m);
    CongSym(Cubic(x3, Pow4(z3), Pow6(z3), b), Cubic(x3, Pow4(z * d), Pow6(z * d), b), m);
    CongTrans(y3 * y3, Cubic(x3, Pow4(z * d), Pow6(z * d), b), Cubic(x3, Pow4(z3), Pow6(z3), b), m);
  }

  // The difference of two values of the cubic is divisible by the difference of the arguments.
  lemma CubicDifference(x1: int, x2: int, q: int, s: int, b: int)
    ensures Cubic(x2, q, s, b) - Cubic(x1, q, s, b)
         == (x2 - x1) * (x2 * x2 + x2 * x1 + x1 * x1 - 3 * q)
  {
    assert (x2 - x1) * (x2 * x2 + x2 * x1 + x1 * x1) == x2 * x2 * x2 - x1 * x1 * x1;
    assert (x2 - x1) * (3 * q) == 3 * x2 * q - 3 * x1 * q;
  }

  // (y2 - y1) (y2 + y1) = (x2 - x1) (x2^2 + x2 x1 + x1^2 - 3 z^4) for two curve points.
  lemma ChordSlope(x1: int, y1: int, x2: int, y2: int, z: int, b: int, m: int)
    requires OnCurve(x1, y1, z, b, m) && OnCurve(x2, y2, z, b, m)
    ensures Cong((y2 - y1) * (y1 + y2), (x2 - x1) * (x2 * x2 + x2 * x1 + x1 * x1 - 3 * Pow4(z)), m)
  {
    hide Cong;
    CubicDifference(x1, x2, Pow4(z), Pow6(z), b);
    CongSub(y2 * y2, Cubic(x2, Pow4(z), Pow6(z), b), y1 * y1, Cubic(x1, Pow4(z), Pow6(z), b), m);
    assert (y2 - y1) * (y1 + y2) == y2 * y2 - y1 * y1;
  }

  lemma ChordBracket(x1: int, y1: int, x2: int, y2: int, z: int, x3: int, b: int, m: int)
    requires OnCurve(x1, y1, z, b, m) && OnCurve(x2, y2, z, b, m)
    requires var d, l := x2 - x1, y2 - y1; Cong(x3, l * l - x1 * (d * d) - x2 * (d * d), m)
    ensures var d, l := x2 - x1, y2 - y1; var u, v, q := x1 * (d * d), y1 * (d * (d * d)), Pow4(z * d);
      Cong(3 * (u * u) - 3 * q - 2 * (l * v) + (2 * u + x3 - l * l) * (x3 - u), 0, m)
  {
    hide Pow4, Pow6, OnCurve, Cong;
    var d, l := x2 - x1, y2 - y1;
    var D := d * d;
    var u, v, c, q := x1 * D, y1 * (d * D), x2 * D, Pow4(z * d);
    var e := x2 * x2 + x2 * x1 + x1 * x1 - 3 * Pow4(z);
    PowScales(z, d);
    ChordSlope(x1, y1, x2, y2, z, b, m);
    // The bracket with the true x3 put in for x3.
    BracketValue(x1, y1, x2, y2, d, D, q);
    CongTimes(d * D, l * (y1 + y2), d * e, m);
    ScaledSum(x1, x2, d, D, Pow4(z), e);
    assert d * D * (d * e) == D * D * e by { Regroup4(d, D, e); }
    CongSym(d * D * (l * (y1 + y2)), D * D * e, m);
    CongZero(D * D * e, d * D * (l * (y1 + y2)), m);
    // x3 enters the bracket through two congruent factors.
    var t := l * l - u - c;
    CongRefl(2 * u - l * l, m);
    CongAdd(2 * u - l * l, 2 * u - l * l, x3, t, m);
    CongRefl(u, m);
    CongSub(x3, t, u, u, m);
    CongMul(2 * u - l * l + x3, 2 * u - l * l + t, x3 - u, t - u, m);
    var k := 3 * (u * u) - 3 * q - 2 * (l * v);
    CongRefl(k, m);
    CongAdd(k, k, (2 * u - l * l + x3) * (x3 - u), (2 * u - l * l + t) * (t - u), m);
    CongTrans(k + (2 * u - l * l + x3) * (x3 - u), k + (2 * u - l * l + t) * (t - u), 0, m);
  }

  lemma Regroup4(d: int, D: int, e: int)
    requires D == d * d
    ensures d * D * (d * e) == D * D * e
  {
    assert d * D * (d * e) == (d * d) * (D * e);
  }

  lemma ScaledSum(x1: int, x2: int, d: int, D: int, z4: int, e: int)
    requires e == x2 * x2 + x2 * x1 + x1 * x1 - 3 * z4
    ensures (x2 * D) * (x2 * D) + (x2 * D) * (x1 * D) + (x1 * D) * (x1 * D) - 3 * (D * D * z4) == D * D * e
  {
    var E := D * D;
    assert (x2 * D) * (x2 * D) == E * (x2 * x2);
    assert (x2 * D) * (x1 * D) == E * (x2 * x1);
    assert (x1 * D) * (x1 * D) == E * (x1 * x1);
    assert E * (x2 * x2 + x2 * x1 + x1 * x1 - 3 * z4) == E * (x2 * x2) + E * (x2 * x1) + E * (x1 * x1) - 3 * (E * z4);
  }

  // The chord bracket in terms of u = x1 D and c = x2 D.
  lemma BracketValue(x1: int, y1: int, x2: int, y2: int, d: int, D: int, q: int)
    requires d == x2 - x1
    ensures var l, u, c, v := y2 - y1, x1 * D, x2 * D, y1 * (d * D);
      3 * (u * u) - 3 * q - 2 * (l * v) + (2 * u - l * l + (l * l - u - c)) * (l * l - u - c - u)
      == c * c + c * u + u * u - 3 * q - d * D * (l * (y1 + y2))
  {
    var l, u, c := y2 - y1, x1 * D, x2 * D;
    var w, L := d * D, l * l;
    assert c - u == w by { assert (x2 - x1) * D == x2 * D - x1 * D; }
    assert (u - c) * (L - 2 * u - c) == -(w * L) - 2 * (u * u) - u * c + 2 * (u * c) + c * c by {
      assert (u - c) * (L - 2 * u - c) == (u - c) * L - (u - c) * (2 * u) - (u - c) * c;
      assert (u - c) * L == -(w * L);
      assert (u - c) * (2 * u) == 2 * (u * u) - 2 * (u * c);
      assert (u - c) * c == u * c - c * c;
    }
    assert w * (l * (y1 + y2)) == w * L + 2 * (l * (y1 * w)) by {
      assert y1 + y2 == l + 2 * y1;
      assert l * (l + 2 * y1) == L + 2 * (l * y1);
      assert w * (L + 2 * (l * y1)) == w * L + 2 * (w * (l * y1));
      assert w * (l * y1) == l * (y1 * w);
    }
  }
}
