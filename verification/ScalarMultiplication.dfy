/** Scalar multiplication by the co-Z Montgomery ladder: relative to the group law of the curve, the
    routine returns the affine coordinates of scalar * P. */
module ScalarMultiplication {
  import opened Bits
  import opened Vli
  import opened VliMul
  import opened P256Field
  import opened P256Points
  import opened ModularProduct
  import opened ModularInverse
  import opened Congruence
  import opened CurveAlgebra
  import opened AffineMeaning
  import opened PrimeField
  import opened Groups
  import opened CurveGroup

  ghost function Difference(a: int, b: int): int {
    a - b
  }

  lemma SignedDifference(a: int, b: int)
    ensures Difference(a, b) == a - b
    ensures 1 * Difference(a, b) == Difference(a, b) && -1 * Difference(a, b) == Difference(b, a)
  {
  }

  /* ---- the point routines, read as group operations ---- */

  // (q, r) become (q, q + r) over a new common Z.
  method AddPoints(X1: array<Limb>, Y1: array<Limb>, X2: array<Limb>, Y2: array<Limb>,
                   ghost g: Group<Point>, ghost b: int, ghost Z: int, ghost q: Point, ghost r: Point)
    returns (ghost Z': int)
    requires X1.Length == Y1.Length == X2.Length == Y2.Length == 4
    requires X1 != Y1 && X1 != X2 && X1 != Y2 && Y1 != X2 && Y1 != Y2 && X2 != Y2
    requires N(X1) < P && N(Y1) < P && N(X2) < P && N(Y2) < P
    requires IsCurveGroup(g, b, P) && At(g, N(X1), N(Y1), Z, q, P) && At(g, N(X2), N(Y2), Z, r, P) && q.x != r.x
    modifies X1, Y1, X2, Y2
    ensures N(X1) < P && N(Y1) < P && N(X2) < P && N(Y2) < P
    ensures Z' == Z * Difference(old(N(X2)), old(N(X1)))
    ensures At(g, N(X1), N(Y1), Z', q, P) && At(g, N(X2), N(Y2), Z', g.add(q, r), P)
  {
    hide *;
    ghost var x1: int, y1: int, x2: int, y2: int := N(X1), N(Y1), N(X2), N(Y2);
    XYcZAdd(X1, Y1, X2, Y2);
    SignedDifference(x2, x1);
    Z' := Z * (x2 - x1);
    CoZCarries(g, b, P, x1, y1, x2, y2, Z, N(X1), N(Y1), q, r);
    CoZAdds(g, b, P, x1, y1, x2, y2, Z, N(X2), N(Y2), q, r);
  }

  // (q, r) become (q - r, q + r) over a new common Z; opposite points leave zeros in place of the difference.
  method AddSubPoints(X1: array<Limb>, Y1: array<Limb>, X2: array<Limb>, Y2: array<Limb>,
                      ghost g: Group<Point>, ghost b: int, ghost Z: int, ghost q: Point, ghost r: Point)
    returns (ghost Z': int)
    requires X1.Length == Y1.Length == X2.Length == Y2.Length == 4
    requires X1 != Y1 && X1 != X2 && X1 != Y2 && Y1 != X2 && Y1 != Y2 && X2 != Y2
    requires N(X1) < P && N(Y1) < P && N(X2) < P && N(Y2) < P
    requires IsCurveGroup(g, b, P) && At(g, N(X1), N(Y1), Z, q, P) && At(g, N(X2), N(Y2), Z, r, P)
    modifies X1, Y1, X2, Y2
    ensures N(X1) < P && N(Y1) < P && N(X2) < P && N(Y2) < P
    ensures q.x != r.x ==> At(g, N(X1), N(Y1), Z', g.add(q, g.neg(r)), P) && At(g, N(X2), N(Y2), Z', g.add(q, r), P)
    ensures q == g.neg(r) ==> N(X1) == 0 && N(Y1) == 0
  {
    hide *;
    ghost var x1: int, y1: int, x2: int, y2: int := N(X1), N(Y1), N(X2), N(Y2);
    XYcZAddC(X1, Y1, X2, Y2);
    Z' := Z * (x2 - x1);
    AtAffine(g, x1, y1, Z, q, P);
    AtAffine(g, x2, y2, Z, r, P);
    if q.x != r.x {
      CoZSubtracts(g, b, P, x1, y1, x2, y2, Z, N(X1), N(Y1), q, r);
      CoZAdds(g, b, P, x1, y1, x2, y2, Z, N(X2), N(Y2), q, r);
    }
    if q == g.neg(r) {
      OppositesVanish(g, b, x1, y1, x2, y2, Z, N(X1), N(Y1), q, r, P);
    }
  }

  lemma AtAffine(g: Group<Point>, X: int, Y: int, Z: int, q: Point, m: nat)
    requires At(g, X, Y, Z, q, m)
    ensures g.has(q) && q.Affine?
  {
  }

  // For opposite points d = 0 and the slope of the difference is 0, so both its coordinates vanish.
  lemma OppositesVanish(g: Group<Point>, b: int, x1: int, y1: int, x2: int, y2: int, Z: int, x3: int, y3: int,
                        q: Point, r: Point, m: nat)
    requires IsCurveGroup(g, b, m) && At(g, x1, y1, Z, q, m) && At(g, x2, y2, Z, r, m) && q == g.neg(r)
    requires 0 <= x1 < m && 0 <= x2 < m && 0 <= x3 < m && 0 <= y3 < m && SubtractsTo(x1, y1, x2, y2, x3, y3, m)
    ensures x3 == 0 && y3 == 0
  {
    hide IsCurveGroup, Cong, Nonzero;
    OppositeAt(g, b, m, x2, y2, Z, r);
    var V := Z * (Z * Z);
    CongSym(x2, q.x * (Z * Z), m);
    CongTrans(x1, q.x * (Z * Z), x2, m);
    CongUnique(x1, x2, m);
    CongSym(-y2, q.y * V, m);
    CongTrans(y1, q.y * V, -y2, m);
    CongRefl(-y2, m);
    CongSub(-y2, -y2, y1, -y2, m);
    var l := -y2 - y1;
    CongMul(l, 0, l, 0, m);
    assert l * l - x1 * (0 * 0) - x2 * (0 * 0) == l * l;
    CongTrans(x3, l * l, 0 * 0, m);
    CongUnique(x3, 0, m);
    CongRefl(x1 * (0 * 0) - x3, m);
    CongMul(l, 0, x1 * (0 * 0) - x3, x1 * (0 * 0) - x3, m);
    assert l * (x1 * (0 * 0) - x3) - y1 * (0 * (0 * 0)) == l * (x1 * (0 * 0) - x3);
    CongTrans(y3, l * (x1 * (0 * 0) - x3), 0 * (x1 * (0 * 0) - x3), m);
    CongUnique(y3, 0, m);
  }

  /* ---- one rung of the ladder ---- */

  // What the group says about j p, (j + 1) p and (2 j + 1) p.
  lemma Rung(g: Group<Point>, b: int, p: Point, n: nat, j: nat, m: nat) returns (A: Point, B: Point, S: Point)
    requires IsCurveGroup(g, b, m) && HasOrder(g, p, n) && p.Affine? && 1 <= j <= n - 2 && 2 * j + 1 != n && n % 2 == 1
    ensures A == Times(g, j, p) && B == Times(g, j + 1, p) && S == Times(g, 2 * j + 1, p)
    ensures A.Affine? && B.Affine? && S.Affine? && A.x != B.x && S.x != p.x
    ensures g.add(A, B) == S && g.add(B, A) == S && g.add(B, g.neg(A)) == p && g.add(A, g.neg(B)) == g.neg(p)
    ensures g.add(S, p) == Times(g, 2 * j + 2, p) && g.add(S, g.neg(p)) == Times(g, 2 * j, p)
    ensures g.neg(p).Affine? && g.neg(p).x == p.x && S.x != g.neg(p).x
  {
    hide IsCurveGroup, IsAbelianGroup, Times, HasOrder;
    IsGroup(g, b, m);
    OrderHas(g, p, n);
    A, B, S := Times(g, j, p), Times(g, j + 1, p), Times(g, 2 * j + 1, p);
    RungFactors(n, j);
    RungPoints(g, b, p, n, j, j + 1, m);
    RungPoints(g, b, p, n, 1, 2 * j + 1, m);
    TimesOne(g, p);
    Opposite(g, b, m, p);
    RungSums(g, p, j);
  }

  // Multiples that are not infinity, equal or opposite have different abscissas.
  lemma RungPoints(g: Group<Point>, b: int, p: Point, n: nat, i: nat, k: nat, m: nat)
    requires IsCurveGroup(g, b, m) && HasOrder(g, p, n) && i <= k
    requires i % n != 0 && k % n != 0 && (k - i) % n != 0 && (i + k) % n != 0
    ensures Times(g, i, p).Affine? && Times(g, k, p).Affine? && Times(g, i, p).x != Times(g, k, p).x
    ensures g.has(Times(g, i, p)) && g.has(Times(g, k, p))
  {
    hide IsCurveGroup, IsAbelianGroup, Times, HasOrder;
    IsGroup(g, b, m);
    OrderHas(g, p, n);
    TimesHas(g, i, p);
    TimesHas(g, k, p);
    VanishesExactly(g, p, n, i);
    VanishesExactly(g, p, n, k);
    Different(g, p, n, i, k);
    if Times(g, i, p).x == Times(g, k, p).x {
      SameAbscissa(g, b, m, Times(g, i, p), Times(g, k, p));
    }
  }

  lemma RungSums(g: Group<Point>, p: Point, j: nat)
    requires IsAbelianGroup(g) && g.has(p)
    ensures var A, B, S := Times(g, j, p), Times(g, j + 1, p), Times(g, 2 * j + 1, p);
            && g.add(A, B) == S && g.add(B, A) == S && g.add(B, g.neg(A)) == p && g.add(A, g.neg(B)) == g.neg(p)
            && g.add(S, p) == Times(g, 2 * j + 2, p) && g.add(S, g.neg(p)) == Times(g, 2 * j, p)
  {
    hide IsAbelianGroup, Times;
    var A, B := Times(g, j, p), Times(g, j + 1, p);
    TimesHas(g, j, p);
    TimesHas(g, j + 1, p);
    TimesHas(g, 2 * j, p);
    TimesOne(g, p);
    TimesSum(g, j, j + 1, p);
    Sum(g, A, B);
    assert j + (j + 1) == 2 * j + 1;
    TimesSum(g, j, 1, p);
    TimesSum(g, 2 * j + 1, 1, p);
    TimesSum(g, 2 * j, 1, p);
    assert 2 * j + 1 + 1 == 2 * j + 2;
    Differences(g, A, B, p);
    Groups.Inverse(g, p);
    Assoc(g, Times(g, 2 * j, p), p, g.neg(p));
    Unit(g, Times(g, 2 * j, p));
  }

  // None of the factors that would make two points of the rung equal, opposite or infinite is a multiple of n.
  lemma RungFactors(n: nat, j: nat)
    requires 1 <= j <= n - 2 && 2 * j + 1 != n && n % 2 == 1
    ensures j % n != 0 && (j + 1) % n != 0 && (2 * j + 1) % n != 0
    ensures (j + 1 - j) % n != 0 && (j + (j + 1)) % n != 0
    ensures (2 * j + 1 - 1) % n != 0 && (1 + (2 * j + 1)) % n != 0
  {
    NoMultiple(j, n);
    NoMultiple(j + 1, n);
    NoMultiple(2 * j + 1, n);
    NoMultiple(1, n);
    NoMultiple(2 * j, n);
    NoMultiple(2 * j + 2, n);
  }

  lemma NoMultiple(k: nat, n: nat)
    requires 0 < k < 2 * n && k != n
    ensures k % n != 0
  {
    if k < n {
      DivUnique(k, n, 0, k);
    } else {
      DivUnique(k, n, 1, k - n);
    }
  }

  // If B = A + p then B - A = p and A - B = -p.
  lemma Differences(g: Group<Point>, A: Point, B: Point, p: Point)
    requires IsAbelianGroup(g) && g.has(A) && g.has(B) && g.has(p) && B == g.add(A, p)
    ensures g.add(B, g.neg(A)) == p && g.add(A, g.neg(B)) == g.neg(p)
  {
    hide IsAbelianGroup;
    Groups.Inverse(g, A);
    Groups.Inverse(g, B);
    Groups.Inverse(g, p);
    Sum(g, A, p);
    Assoc(g, p, A, g.neg(A));
    Unit(g, p);
    // (A - B) + p = B - B = 0 = -p + p
    Sum(g, A, g.neg(B));
    Assoc(g, p, A, g.neg(B));
    Sum(g, p, g.add(A, g.neg(B)));
    Cancel(g, g.add(A, g.neg(B)), g.neg(p), p);
  }

  // (j p, (j + 1) p) becomes (2 j p, (2 j + 1) p) or ((2 j + 1) p, (2 j + 2) p).
  method LadderStep(X0: array<Limb>, Y0: array<Limb>, X1: array<Limb>, Y1: array<Limb>, bit: bool,
                    ghost g: Group<Point>, ghost b: int, ghost Z: int, ghost p: Point, ghost n: nat, ghost j: nat)
    returns (ghost Z': int)
    requires X0.Length == Y0.Length == X1.Length == Y1.Length == 4
    requires X0 != Y0 && X0 != X1 && X0 != Y1 && Y0 != X1 && Y0 != Y1 && X1 != Y1
    requires N(X0) < P && N(Y0) < P && N(X1) < P && N(Y1) < P
    requires IsCurveGroup(g, b, P) && HasOrder(g, p, n) && p.Affine? && j >= 1 && 2 * j + 2 < n && n % 2 == 1
    requires At(g, N(X0), N(Y0), Z, Times(g, j, p), P) && At(g, N(X1), N(Y1), Z, Times(g, j + 1, p), P)
    modifies X0, Y0, X1, Y1
    ensures N(X0) < P && N(Y0) < P && N(X1) < P && N(Y1) < P
    ensures var k := 2 * j + (if bit then 1 else 0);
      At(g, N(X0), N(Y0), Z', Times(g, k, p), P) && At(g, N(X1), N(Y1), Z', Times(g, k + 1, p), P)
  {
    hide *;
    ghost var A, B, S := Rung(g, b, p, n, j, P);
    if bit {
      ghost var Z1 := AddSubPoints(X1, Y1, X0, Y0, g, b, Z, B, A);
      Z' := AddPoints(X0, Y0, X1, Y1, g, b, Z1, S, p);
    } else {
      ghost var Z1 := AddSubPoints(X0, Y0, X1, Y1, g, b, Z, A, B);
      Z' := AddPoints(X1, Y1, X0, Y0, g, b, Z1, S, g.neg(p));
    }
  }

  /* ---- the inverse of the last Z ---- */

  // r := 1 / r modulo p; zero stays zero.
  method FInvert(r: array<Limb>)
    requires r.Length == 4 && N(r) < P && IsPrime(P)
    modifies r
    ensures N(r) < P
    ensures old(N(r)) != 0 ==> Cong(N(r) * old(N(r)), 1, P)
    ensures old(N(r)) == 0 ==> N(r) == 0
  {
    hide N, IsPrime, IsGcd, Cong;
    ghost var w := N(r);
    var p := CurveP();
    ghost var d := ModInv(r, r, p);
    if w != 0 {
      GcdIsOne(d, w, P);
    }
  }

  lemma GcdIsOne(d: int, w: nat, p: nat)
    requires IsPrime(p) && 0 < w < p && IsGcd(d, w, p)
    ensures d == 1
  {
    hide IsPrime;
    DivisorOfPrime(d, w, p);
  }

  // z = yP Xb / (xP Yb (X1 - X0)) is the inverse of the Z that the last addition will produce:
  // Xb = xP Z^2 and Yb = +-yP Z^3.
  lemma LastZ(x: int, y: int, X: int, Y: int, Z: int, D: int, sign: int, w: int, u: int, z: int, p: nat)
    requires sign == 1 || sign == -1
    requires Cong(X, x * (Z * Z), p) && Cong(Y, sign * y * (Z * (Z * Z)), p)
    requires Cong(w, D * Y * x, p) && Cong(u * w, 1, p) && Cong(z, u * y * X, p)
    ensures Cong(Z * (sign * D) * z, 1, p)
  {
    hide Cong;
    var W := Z * Z;
    // z Z s D = u y X Z s D = u (D x (s y Z^3)) = u w
    CongTimes(u * y, X, x * W, p);
    CongTrans(z, u * y * X, u * y * (x * W), p);
    CongTimes(Z * (sign * D), z, u * y * (x * W), p);
    CongTimes(D, Y, sign * y * (Z * W), p);
    CongRefl(x, p);
    CongMul(D * Y, D * (sign * y * (Z * W)), x, x, p);
    CongTrans(w, D * Y * x, D * (sign * y * (Z * W)) * x, p);
    CongTimes(u, w, D * (sign * y * (Z * W)) * x, p);
    LastZProduct(x, y, Z, W, D, sign, u);
    CongSym(u * w, u * (D * (sign * y * (Z * W)) * x), p);
    CongTrans(Z * (sign * D) * z, u * (D * (sign * y * (Z * W)) * x), u * w, p);
    CongTrans(Z * (sign * D) * z, u * w, 1, p);
  }

  lemma LastZProduct(x: int, y: int, Z: int, W: int, D: int, sign: int, u: int)
    ensures Z * (sign * D) * (u * y * (x * W)) == u * (D * (sign * y * (Z * W)) * x)
  {
    var a, c := Z * W, sign * D;
    assert Z * c * (u * y * (x * W)) == c * (u * y * x) * a by {
      var e := u * y * x;
      assert u * y * (x * W) == e * W;
      assert Z * c * (e * W) == c * e * (Z * W);
    }
    assert D * (sign * y * a) * x == c * (y * x) * a by {
      assert D * (sign * y * a) == c * y * a;
      assert c * y * a * x == c * (y * x) * a;
    }
    assert c * (u * y * x) * a == u * (c * (y * x) * a) by {
      var e := y * x;
      assert u * y * x == u * e;
      assert c * (u * e) * a == u * (c * e * a);
    }
  }

  // Coordinates over an invertible Z, rescaled by its inverse, are the affine coordinates.
  lemma BackToAffine(g: Group<Point>, b: int, X: int, Y: int, Z: int, z: int, x: int, y: int, q: Point, p: nat)
    requires IsCurveGroup(g, b, p) && At(g, X, Y, Z, q, p) && Cong(Z * z, 1, p) && ScalesTo(X, Y, z, x, y, p)
    requires 0 <= x < p && 0 <= y < p
    ensures q == Affine(x, y)
  {
    hide IsCurveGroup, Cong;
    Bounds(g, b, p, q);
    ScaleMeans(X, Y, Z, z, x, y, q.x, q.y, p);
    var V := Z * z;
    CongMul(V, 1, V, 1, p);
    CongTimes(q.x, V * V, 1, p);
    CongTrans(x, q.x * (V * V), q.x * 1, p);
    CongUnique(x, q.x, p);
    CongMul(V, 1, V * V, 1, p);
    CongTimes(q.y, V * (V * V), 1, p);
    CongTrans(y, q.y * (V * (V * V)), q.y * 1, p);
    CongUnique(y, q.y, p);
  }

  // z := yP Xb / (xP Yb (X1 - X0)), which is zero when Yb or xP is.
  method ComputeZ(z: array<Limb>, X1: array<Limb>, X0: array<Limb>, Yb: array<Limb>, Xb: array<Limb>,
                  px: array<Limb>, py: array<Limb>, ghost Z: int, ghost sign: int)
    requires z.Length == X1.Length == X0.Length == Yb.Length == Xb.Length == px.Length == py.Length == 4
    requires z != X1 && z != X0 && z != Yb && z != Xb && z != px && z != py
    requires N(X1) < P && N(X0) < P && N(px) < P && 0 < N(py) < P && IsPrime(P)
    modifies z
    ensures N(px) > 0 && Recoverable(N(X1), N(X0), N(Xb), N(Yb), N(px), N(py), Z, sign, P) ==>
      Cong(Z * (sign * Difference(N(X1), N(X0))) * N(z), 1, P)
    ensures N(Yb) == 0 || N(px) == 0 ==> N(z) == 0
  {
    hide *;
    ghost var x1: int, x0: int, x, y := N(X1), N(X0), N(px), N(py);
    FSub(z, X1, X0);
    ghost var d := N(z);
    FMul(z, z, Yb);
    ghost var e := N(z);
    FMul(z, z, px);
    ghost var w := N(z);
    FInvert(z);
    ghost var u := N(z);
    FMul(z, z, py);
    ghost var v := N(z);
    FMul(z, z, Xb);
    if N(Yb) == 0 || x == 0 {
      if x != 0 {
        ZeroProduct(e, d, 0, P);
      }
      ZeroProduct(w, e, x, P);
      ZeroProduct(v, u, y, P);
      ZeroProduct(N(z), v, N(Xb), P);
    }
    if x > 0 && Recoverable(x1, x0, N(Xb), N(Yb), x, y, Z, sign, P) {
      RecoveredZ(x1, x0, d, N(Xb), N(Yb), e, x, y, w, u, v, N(z), Z, sign, P);
    }
  }

  lemma ZeroProduct(a: nat, b: int, c: int, m: nat)
    requires a < m && Cong(a, Mul(b, c), m) && (b == 0 || c == 0)
    ensures a == 0
  {
    hide Cong;
    CongUnique(a, 0, m);
  }

  // Xb and Yb stand for the point or its opposite, and the abscissas of the ladder differ.
  ghost predicate Recoverable(x1: int, x0: int, X: int, Y: int, x: int, y: int, Z: int, sign: int, m: nat) {
    && x1 != x0 && Nonzero(Z, m) && (sign == 1 || sign == -1)
    && Cong(X, x * (Z * Z), m) && Cong(Y, sign * y * (Z * (Z * Z)), m)
  }

  lemma RecoveredZ(x1: int, x0: int, d: int, X: int, Y: int, e: int, x: int, y: int, w: nat, u: int, v: int, z: int,
                   Z: int, sign: int, m: nat)
    requires Recoverable(x1, x0, X, Y, x, y, Z, sign, m) && IsPrime(m)
    requires 0 <= x1 < m && 0 <= x0 < m && 0 < x < m && 0 < y < m && w < m
    requires Cong(d, x1 - x0, m) && Cong(e, Mul(d, Y), m) && Cong(w, Mul(e, x), m)
    requires w != 0 ==> Cong(u * w, 1, m)
    requires Cong(v, Mul(u, y), m) && Cong(z, Mul(v, X), m)
    ensures Cong(Z * (sign * Difference(x1, x0)) * z, 1, m)
  {
    hide Cong, Nonzero, IsPrime, Mul, Difference;
    Denominator(x1, x0, d, Y, e, x, y, w, Z, sign, m);
    Numerator(u, y, X, v, z, m);
    LastZ(x, y, X, Y, Z, Difference(x1, x0), sign, w, u, z, m);
  }

  lemma Numerator(u: int, y: int, X: int, v: int, z: int, m: int)
    requires Cong(v, Mul(u, y), m) && Cong(z, Mul(v, X), m)
    ensures Cong(z, u * y * X, m)
  {
    hide Cong;
    CongRefl(X, m);
    CongMul(v, u * y, X, X, m);
    CongTrans(z, v * X, u * y * X, m);
  }

  // The denominator is what it should be, and not zero.
  lemma Denominator(x1: int, x0: int, d: int, Y: int, e: int, x: int, y: int, w: nat, Z: int, sign: int, m: nat)
    requires IsPrime(m) && Nonzero(Z, m) && (sign == 1 || sign == -1) && 0 < x < m && 0 < y < m
    requires 0 <= x1 < m && 0 <= x0 < m && x1 != x0 && w < m
    requires Cong(Y, sign * y * (Z * (Z * Z)), m)
    requires Cong(d, x1 - x0, m) && Cong(e, Mul(d, Y), m) && Cong(w, Mul(e, x), m)
    ensures Cong(w, Difference(x1, x0) * Y * x, m) && w > 0
  {
    hide Cong, IsPrime, Nonzero;
    var D := Difference(x1, x0);
    CongRefl(Y, m);
    CongMul(d, D, Y, Y, m);
    CongTrans(e, d * Y, D * Y, m);
    CongRefl(x, m);
    CongMul(e, D * Y, x, x, m);
    CongTrans(w, e * x, D * Y * x, m);
    if D > 0 {
      NonzeroSmall(D, m);
    } else {
      NonzeroSmall(-D, m);
    }
    NonzeroSmall(x, m);
    NonzeroSmall(y, m);
    assert sign * y == y || sign * y == -y;
    NonzeroProduct(Z, Z, m);
    NonzeroProduct(Z, Z * Z, m);
    NonzeroProduct(sign * y, Z * (Z * Z), m);
    NonzeroCong(Y, sign * y * (Z * (Z * Z)), m);
    NonzeroProduct(D, Y, m);
    NonzeroProduct(D * Y, x, m);
    NonzeroCong(w, D * Y * x, m);
    NotZero(w, m);
  }

  lemma NotZero(w: int, m: int)
    requires Nonzero(w, m)
    ensures w != 0
  {
    CongRefl(0, m);
  }

  // A point and its opposite, over Z, in the form ComputeZ wants.
  lemma SignedAt(g: Group<Point>, b: int, X: int, Y: int, Z: int, p: Point, q: Point, sign: int, m: nat)
    requires IsCurveGroup(g, b, m) && At(g, X, Y, Z, q, m) && g.has(p) && p.Affine?
    requires (sign == 1 && q == p) || (sign == -1 && q == g.neg(p))
    ensures Cong(X, p.x * (Z * Z), m) && Cong(Y, sign * p.y * (Z * (Z * Z)), m) && Nonzero(Z, m)
  {
    hide IsCurveGroup, Cong, Nonzero;
    Opposite(g, b, m, p);
    var V := Z * (Z * Z);
    if sign == -1 {
      CongRefl(V, m);
      CongMul(q.y, -p.y, V, V, m);
      CongTrans(Y, q.y * V, -p.y * V, m);
    }
  }

  // A point of odd order above 2 is not its own opposite.
  lemma OrdinateNonzero(g: Group<Point>, b: int, p: Point, n: nat, m: nat)
    requires IsCurveGroup(g, b, m) && HasOrder(g, p, n) && p.Affine? && n > 2
    ensures 0 < p.y < m && 0 <= p.x < m && IsPrime(m)
  {
    hide IsCurveGroup, IsAbelianGroup, Times;
    Bounds(g, b, m, p);
    IsGroup(g, b, m);
    if p.y == 0 {
      Opposite(g, b, m, p);
      Bounds(g, b, m, g.neg(p));
      CongUnique(g.neg(p).y, 0, m);
      assert g.neg(p) == p;
      Groups.Inverse(g, p);
      TimesOne(g, p);
    }
  }

  // Where the last rung ends: on the next multiple, or on zeros when it would pass through infinity
  // or cannot recover its Z for want of an abscissa.
  ghost function LastRung(g: Group<Point>, p: Point, n: nat, j: nat, bit: bool): Point {
    if p.Affine? && p.x != 0 && 2 * j + 1 != n then Times(g, 2 * j + (if bit then 1 else 0), p) else Affine(0, 0)
  }

  // The last rung: the Z of the final addition is inverted while it can still be recovered.
  method LastStep(X0: array<Limb>, Y0: array<Limb>, X1: array<Limb>, Y1: array<Limb>,
                  px: array<Limb>, py: array<Limb>, bit: bool,
                  ghost g: Group<Point>, ghost b: int, ghost Z: int, ghost p: Point, ghost n: nat, ghost j: nat)
    requires X0.Length == Y0.Length == X1.Length == Y1.Length == px.Length == py.Length == 4
    requires X0 != Y0 && X0 != X1 && X0 != Y1 && Y0 != X1 && Y0 != Y1 && X1 != Y1
    requires px != X0 && px != Y0 && px != X1 && px != Y1 && py != X0 && py != Y0 && py != X1 && py != Y1
    requires N(X0) < P && N(Y0) < P && N(X1) < P && N(Y1) < P
    requires IsCurveGroup(g, b, P) && HasOrder(g, p, n) && p == Affine(N(px), N(py)) && n % 2 == 1
    requires 1 <= j <= n - 2
    requires At(g, N(X0), N(Y0), Z, Times(g, j, p), P) && At(g, N(X1), N(Y1), Z, Times(g, j + 1, p), P)
    modifies X0, Y0, X1, Y1
    ensures Affine(N(X0), N(Y0)) == LastRung(g, p, n, j, bit)
  {
    hide *;
    OrdinateNonzero(g, b, p, n, P);
    LastRungIs(g, p, n, j, bit);
    if bit {
      LastStepSet(X0, Y0, X1, Y1, px, py, g, b, Z, p, n, j);
    } else {
      LastStepClear(X0, Y0, X1, Y1, px, py, g, b, Z, p, n, j);
    }
  }

  lemma LastRungIs(g: Group<Point>, p: Point, n: nat, j: nat, bit: bool)
    requires p.Affine?
    ensures p.x != 0 && 2 * j + 1 != n && bit ==> LastRung(g, p, n, j, bit) == Times(g, 2 * j + 1, p)
    ensures p.x != 0 && 2 * j + 1 != n && !bit ==> LastRung(g, p, n, j, bit) == Times(g, 2 * j, p)
    ensures p.x == 0 || 2 * j + 1 == n ==> LastRung(g, p, n, j, bit) == Affine(0, 0)
  {
  }

  // The difference j p + p - j p = p is left in (X1, Y1), the sum in (X0, Y0), and z is the inverse of the next Z.
  method RungSet(z: array<Limb>, X0: array<Limb>, Y0: array<Limb>, X1: array<Limb>, Y1: array<Limb>,
                 px: array<Limb>, py: array<Limb>,
                 ghost g: Group<Point>, ghost b: int, ghost Z: int, ghost p: Point, ghost n: nat, ghost j: nat)
    returns (ghost Z1: int)
    requires z.Length == X0.Length == Y0.Length == X1.Length == Y1.Length == px.Length == py.Length == 4
    requires X0 != Y0 && X0 != X1 && X0 != Y1 && Y0 != X1 && Y0 != Y1 && X1 != Y1
    requires px != X0 && px != Y0 && px != X1 && px != Y1 && py != X0 && py != Y0 && py != X1 && py != Y1
    requires z != X0 && z != Y0 && z != X1 && z != Y1 && z != px && z != py
    requires N(X0) < P && N(Y0) < P && N(X1) < P && N(Y1) < P
    requires IsCurveGroup(g, b, P) && HasOrder(g, p, n) && p == Affine(N(px), N(py)) && n % 2 == 1
    requires 1 <= j <= n - 2
    requires At(g, N(X0), N(Y0), Z, Times(g, j, p), P) && At(g, N(X1), N(Y1), Z, Times(g, j + 1, p), P)
    modifies z, X0, Y0, X1, Y1
    ensures N(X0) < P && N(Y0) < P && N(X1) < P && N(Y1) < P
    ensures 2 * j + 1 != n ==>
      && At(g, N(X1), N(Y1), Z1, p, P) && At(g, N(X0), N(Y0), Z1, Times(g, 2 * j + 1, p), P)
      && Times(g, 2 * j + 1, p).x != p.x
    ensures if 2 * j + 1 != n && p.x != 0 then Cong(Z1 * Difference(N(X1), N(X0)) * N(z), 1, P) else N(z) == 0
  {
    hide *;
    OrdinateNonzero(g, b, p, n, P);
    HasIt(g, p, n);
    Z1 := AddSubPoints(X1, Y1, X0, Y0, g, b, Z, Times(g, j + 1, p), Times(g, j, p));
    if 2 * j + 1 != n {
      ghost var A, B, S := Rung(g, b, p, n, j, P);
      RecoverableAt(g, b, N(X1), N(Y1), N(X0), N(Y0), Z1, p, p, S, 1, N(X1), N(X0), P);
    } else {
      RungMeetsInfinity(g, b, p, n, j, P);
    }
    ComputeZ(z, X1, X0, Y1, X1, px, py, Z1, 1);
    SignedDifference(N(X1), N(X0));
  }

  method LastStepSet(X0: array<Limb>, Y0: array<Limb>, X1: array<Limb>, Y1: array<Limb>,
                     px: array<Limb>, py: array<Limb>,
                     ghost g: Group<Point>, ghost b: int, ghost Z: int, ghost p: Point, ghost n: nat, ghost j: nat)
    requires X0.Length == Y0.Length == X1.Length == Y1.Length == px.Length == py.Length == 4
    requires X0 != Y0 && X0 != X1 && X0 != Y1 && Y0 != X1 && Y0 != Y1 && X1 != Y1
    requires px != X0 && px != Y0 && px != X1 && px != Y1 && py != X0 && py != Y0 && py != X1 && py != Y1
    requires N(X0) < P && N(Y0) < P && N(X1) < P && N(Y1) < P
    requires IsCurveGroup(g, b, P) && HasOrder(g, p, n) && p == Affine(N(px), N(py)) && n % 2 == 1
    requires 1 <= j <= n - 2
    requires At(g, N(X0), N(Y0), Z, Times(g, j, p), P) && At(g, N(X1), N(Y1), Z, Times(g, j + 1, p), P)
    modifies X0, Y0, X1, Y1
    ensures Affine(N(X0), N(Y0)) ==
            if p.x != 0 && 2 * j + 1 != n then Times(g, 2 * j + 1, p) else Affine(0, 0)
  {
    hide *;
    var z := new Limb[4];
    ghost var Z1 := RungSet(z, X0, Y0, X1, Y1, px, py, g, b, Z, p, n, j);
    ghost var regular, S := 2 * j + 1 != n, Times(g, 2 * j + 1, p);
    ghost var x0: int, y0: int, x1: int, y1: int := N(X0), N(Y0), N(X1), N(Y1);
    XYcZAdd(X0, Y0, X1, Y1);
    SignedDifference(x1, x0);
    if regular {
      CoZCarries(g, b, P, x0, y0, x1, y1, Z1, N(X0), N(Y0), S, p);
    }
    Finish(X0, Y0, z, g, b, Z1 * Difference(x1, x0), S, regular && p.x != 0);
  }

  // (X, Y) stands for q, the point p or its opposite; (X', Y') for a point with another abscissa.
  lemma RecoverableAt(g: Group<Point>, b: int, X: int, Y: int, X': int, Y': int, Z: int,
                      p: Point, q: Point, S: Point, sign: int, x1: int, x0: int, m: nat)
    requires IsCurveGroup(g, b, m) && At(g, X, Y, Z, q, m) && At(g, X', Y', Z, S, m) && q.x != S.x
    requires g.has(p) && p.Affine? && ((sign == 1 && q == p) || (sign == -1 && q == g.neg(p)))
    requires (x1 == X && x0 == X') || (x1 == X' && x0 == X)
    ensures Recoverable(x1, x0, X, Y, p.x, p.y, Z, sign, m)
  {
    hide IsCurveGroup, Cong, Nonzero, At;
    SignedAt(g, b, X, Y, Z, p, q, sign, m);
    DistinctAt(g, b, X, Y, X', Y', Z, q, S, m);
  }

  // The difference j p - (j + 1) p = -p is left in (X0, Y0), the sum in (X1, Y1), and z is the inverse of the next Z.
  method RungClear(z: array<Limb>, X0: array<Limb>, Y0: array<Limb>, X1: array<Limb>, Y1: array<Limb>,
                   px: array<Limb>, py: array<Limb>,
                   ghost g: Group<Point>, ghost b: int, ghost Z: int, ghost p: Point, ghost n: nat, ghost j: nat)
    returns (ghost Z1: int)
    requires z.Length == X0.Length == Y0.Length == X1.Length == Y1.Length == px.Length == py.Length == 4
    requires X0 != Y0 && X0 != X1 && X0 != Y1 && Y0 != X1 && Y0 != Y1 && X1 != Y1
    requires px != X0 && px != Y0 && px != X1 && px != Y1 && py != X0 && py != Y0 && py != X1 && py != Y1
    requires z != X0 && z != Y0 && z != X1 && z != Y1 && z != px && z != py
    requires N(X0) < P && N(Y0) < P && N(X1) < P && N(Y1) < P
    requires IsCurveGroup(g, b, P) && HasOrder(g, p, n) && p == Affine(N(px), N(py)) && n % 2 == 1
    requires 1 <= j <= n - 2
    requires At(g, N(X0), N(Y0), Z, Times(g, j, p), P) && At(g, N(X1), N(Y1), Z, Times(g, j + 1, p), P)
    modifies z, X0, Y0, X1, Y1
    ensures N(X0) < P && N(Y0) < P && N(X1) < P && N(Y1) < P
    ensures 2 * j + 1 != n ==>
      && At(g, N(X0), N(Y0), Z1, g.neg(p), P) && At(g, N(X1), N(Y1), Z1, Times(g, 2 * j + 1, p), P)
      && g.neg(p).Affine? && Times(g, 2 * j + 1, p).Affine? && Times(g, 2 * j + 1, p).x != g.neg(p).x
      && g.add(Times(g, 2 * j + 1, p), g.neg(p)) == Times(g, 2 * j, p)
    ensures if 2 * j + 1 != n && p.x != 0 then Cong(Z1 * Difference(N(X0), N(X1)) * N(z), 1, P) else N(z) == 0
  {
    hide *;
    OrdinateNonzero(g, b, p, n, P);
    HasIt(g, p, n);
    Z1 := AddSubPoints(X0, Y0, X1, Y1, g, b, Z, Times(g, j, p), Times(g, j + 1, p));
    if 2 * j + 1 != n {
      ghost var A, B, S := Rung(g, b, p, n, j, P);
      RecoverableAt(g, b, N(X0), N(Y0), N(X1), N(Y1), Z1, p, g.neg(p), S, -1, N(X1), N(X0), P);
    } else {
      RungMeetsInfinity(g, b, p, n, j, P);
    }
    ComputeZ(z, X1, X0, Y0, X0, px, py, Z1, -1);
    SignedDifference(N(X1), N(X0));
  }

  method LastStepClear(X0: array<Limb>, Y0: array<Limb>, X1: array<Limb>, Y1: array<Limb>,
                       px: array<Limb>, py: array<Limb>,
                       ghost g: Group<Point>, ghost b: int, ghost Z: int, ghost p: Point, ghost n: nat, ghost j: nat)
    requires X0.Length == Y0.Length == X1.Length == Y1.Length == px.Length == py.Length == 4
    requires X0 != Y0 && X0 != X1 && X0 != Y1 && Y0 != X1 && Y0 != Y1 && X1 != Y1
    requires px != X0 && px != Y0 && px != X1 && px != Y1 && py != X0 && py != Y0 && py != X1 && py != Y1
    requires N(X0) < P && N(Y0) < P && N(X1) < P && N(Y1) < P
    requires IsCurveGroup(g, b, P) && HasOrder(g, p, n) && p == Affine(N(px), N(py)) && n % 2 == 1
    requires 1 <= j <= n - 2
    requires At(g, N(X0), N(Y0), Z, Times(g, j, p), P) && At(g, N(X1), N(Y1), Z, Times(g, j + 1, p), P)
    modifies X0, Y0, X1, Y1
    ensures p.x != 0 && 2 * j + 1 != n ==> Affine(N(X0), N(Y0)) == Times(g, 2 * j, p)
    ensures p.x == 0 || 2 * j + 1 == n ==> N(X0) == 0 && N(Y0) == 0
  {
    hide *;
    var z := new Limb[4];
    ghost var Z1 := RungClear(z, X0, Y0, X1, Y1, px, py, g, b, Z, p, n, j);
    ghost var regular, S := 2 * j + 1 != n, Times(g, 2 * j + 1, p);
    ghost var x0: int, y0: int, x1: int, y1: int := N(X0), N(Y0), N(X1), N(Y1);
    XYcZAdd(X1, Y1, X0, Y0);
    SignedDifference(x0, x1);
    if regular {
      CoZAdds(g, b, P, x1, y1, x0, y0, Z1, N(X0), N(Y0), S, g.neg(p));
    }
    Finish(X0, Y0, z, g, b, Z1 * Difference(x0, x1), Times(g, 2 * j, p), regular && p.x != 0);
  }

  // j p and (j + 1) p are opposite when (2 j + 1) p is infinity.
  lemma RungMeetsInfinity(g: Group<Point>, b: int, p: Point, n: nat, j: nat, m: nat)
    requires IsCurveGroup(g, b, m) && HasOrder(g, p, n) && 2 * j + 1 == n
    ensures Times(g, j, p) == g.neg(Times(g, j + 1, p)) && Times(g, j + 1, p) == g.neg(Times(g, j, p))
  {
    hide IsCurveGroup, IsAbelianGroup, Times;
    IsGroup(g, b, m);
    var A, B := Times(g, j, p), Times(g, j + 1, p);
    TimesHas(g, j, p);
    TimesHas(g, j + 1, p);
    TimesSum(g, j, j + 1, p);
    assert j + (j + 1) == n;
    Groups.Inverse(g, B);
    Cancel(g, A, g.neg(B), B);
    Groups.Inverse(g, A);
    Sum(g, A, B);
    Cancel(g, B, g.neg(A), A);
  }

  lemma ScaledByZero(x: int, y: int, X: int, Y: int, m: nat)
    requires ScalesTo(x, y, 0, X, Y, m) && 0 <= X < m && 0 <= Y < m
    ensures X == 0 && Y == 0
  {
    hide Cong;
    CongUnique(X, 0, m);
    CongUnique(Y, 0, m);
  }

  lemma HasIt(g: Group<Point>, p: Point, n: nat)
    requires HasOrder(g, p, n)
    ensures g.has(p)
  {
  }

  lemma DistinctAt(g: Group<Point>, b: int, X: int, Y: int, X': int, Y': int, Z: int, q: Point, r: Point, m: nat)
    requires IsCurveGroup(g, b, m) && At(g, X, Y, Z, q, m) && At(g, X', Y', Z, r, m) && q.x != r.x
    ensures X != X'
  {
    hide IsCurveGroup, Cong;
    Bounds(g, b, m, q);
    Bounds(g, b, m, r);
    AbscissasDiffer(X, X', Z, q.x, r.x, m);
    NotZero(X' - X, m);
  }

  // Divides by Z, given its inverse; the inverse zero leaves zeros.
  method Finish(X: array<Limb>, Y: array<Limb>, z: array<Limb>,
                ghost g: Group<Point>, ghost b: int, ghost Z: int, ghost q: Point, ghost regular: bool)
    requires X.Length == Y.Length == z.Length == 4 && X != Y && X != z && Y != z
    requires IsCurveGroup(g, b, P)
    requires if regular then At(g, N(X), N(Y), Z, q, P) && Cong(Z * N(z), 1, P) else N(z) == 0
    modifies X, Y
    ensures Affine(N(X), N(Y)) == if regular then q else Affine(0, 0)
  {
    hide *;
    ghost var x, y, w := N(X), N(Y), N(z);
    ApplyZ(X, Y, z);
    if regular {
      BackToAffine(g, b, x, y, Z, w, N(X), N(Y), q, P);
    } else {
      ScaledByZero(x, y, N(X), N(Y), P);
    }
  }

  /* ---- the whole multiplication ---- */

  // After the first doubling the ladder stands at (p, 2 p).
  lemma LadderStarts(g: Group<Point>, b: int, p: Point, n: nat, zs: int, xs: int, ys: int, slope: int, z: int,
                     X1: int, Y1: int, X0: int, Y0: int, m: nat)
    requires IsCurveGroup(g, b, m) && HasOrder(g, p, n) && p.Affine? && n > 2 && zs >= 0 && zs % m != 0
    requires ScalesTo(p.x, p.y, zs, xs, ys, m) && DoublesTo(xs, ys, zs, slope, X1, Y1, z, m)
    requires ScalesTo(p.x, p.y, z, X0, Y0, m)
    ensures At(g, X0, Y0, z, Times(g, 1, p), m) && At(g, X1, Y1, z, Times(g, 2, p), m)
  {
    hide IsCurveGroup, IsAbelianGroup, DoublesTo, ScalesTo, Times, Nonzero, Cong;
    OrdinateNonzero(g, b, p, n, m);
    HasIt(g, p, n);
    IsGroup(g, b, m);
    TimesOne(g, p);
    NonzeroModulo(zs, m);
    JacobianDoubles(g, b, m, xs, ys, zs, slope, X1, Y1, z, p);
  }

  lemma NonzeroModulo(z: nat, m: nat)
    requires m > 0 && z % m != 0
    ensures Nonzero(z, m)
  {
    hide Cong;
    CongMod(z, m);
    CongSym(z % m, z, m);
    NonzeroSmall(z % m, m);
    NonzeroCong(z, z % m, m);
  }

  // The longer prefixes of a scalar below 2 n - 2 stay away from the exceptional multiples.
  lemma PrefixRegular(s: nat, n: nat, i: nat)
    requires 2 <= s < 2 * n - 2 && n % 2 == 1 && 1 <= i && i + 2 <= BitLength(s)
    ensures High(s, i + 1) >= 1 && 2 * High(s, i + 1) + 2 < n
    ensures High(s, i) == 2 * High(s, i + 1) + Bit(s, i)
  {
    hide *;
    HighStep(s, i);
    BitIs(s, i);
    Pow2Monotone(i + 1, BitLength(s) - 1);
    NoBits(s);
    BitsBelow(s);
    HighAtLeastOne(s, i + 1);
    HighAtMostHalf(s, i);
    PrefixBelow(s, n, High(s, i), High(s, i + 1), Bit(s, i));
  }

  lemma PrefixBelow(s: nat, n: nat, h: nat, h': nat, bit: nat)
    requires s < 2 * n - 2 && n % 2 == 1 && 2 * h <= s && h == 2 * h' + bit
    ensures 2 * h' + 2 < n
  {
  }

  lemma BitsBelow(s: nat)
    requires s > 0
    ensures BitLength(s) > 0 && Pow2(BitLength(s) - 1) <= s
  {
  }

  lemma HighAtLeastOne(s: nat, k: nat)
    requires Pow2(k) <= s
    ensures High(s, k) >= 1
  {
    hide Pow2;
    DivFacts(s, Pow2(k));
  }

  lemma HighAtMostHalf(s: nat, i: nat)
    requires i >= 1
    ensures 2 * High(s, i) <= s
  {
    hide Pow2;
    Pow2Zero();
    Pow2Monotone(1, i);
    DivFacts(s, Pow2(i));
    MulMono(2, Pow2(i), High(s, i));
    Commute(High(s, i), Pow2(i));
  }

  lemma HighIs(s: nat, i: nat)
    ensures High(s, i) == s / Pow2(i)
  {
  }

  // Where the ladder stands before its last rung.
  function BeforeLast(s: nat): nat {
    if s < 2 then 1 else s / 2
  }

  // Processes the bits of the scalar below the first, down to bit 1.
  method Ladder(X0: array<Limb>, Y0: array<Limb>, X1: array<Limb>, Y1: array<Limb>, scalar: array<Limb>,
                ghost g: Group<Point>, ghost b: int, ghost startZ: int, ghost p: Point, ghost n: nat)
    returns (ghost Z: int)
    requires X0.Length == Y0.Length == X1.Length == Y1.Length == scalar.Length == 4
    requires X0 != Y0 && X0 != X1 && X0 != Y1 && Y0 != X1 && Y0 != Y1 && X1 != Y1
    requires scalar != X0 && scalar != Y0 && scalar != X1 && scalar != Y1
    requires N(X0) < P && N(Y0) < P && N(X1) < P && N(Y1) < P
    requires IsCurveGroup(g, b, P) && HasOrder(g, p, n) && p.Affine? && n % 2 == 1 && N(scalar) < 2 * n - 2
    requires At(g, N(X0), N(Y0), startZ, Times(g, 1, p), P) && At(g, N(X1), N(Y1), startZ, Times(g, 2, p), P)
    modifies X0, Y0, X1, Y1
    ensures N(X0) < P && N(Y0) < P && N(X1) < P && N(Y1) < P
    ensures At(g, N(X0), N(Y0), Z, Times(g, BeforeLast(N(scalar)), p), P)
    ensures At(g, N(X1), N(Y1), Z, Times(g, BeforeLast(N(scalar)) + 1, p), P)
  {
    hide *;
    ghost var s := N(scalar);
    NIsV(scalar);
    Z := startZ;
    var numBits := NumBits(scalar, 0, 4);
    NRange(scalar);
    BitsOfScalar(s);
    var i: int := (numBits as int) - 2;
    ghost var j := 1;
    while i > 0
      invariant i <= (numBits as int) - 2 && N(scalar) == s
      invariant if s < 2 then j == 1 && i < 0 else i >= 0 && j == High(s, i + 1)
      invariant N(X0) < P && N(Y0) < P && N(X1) < P && N(Y1) < P
      invariant At(g, N(X0), N(Y0), Z, Times(g, j, p), P) && At(g, N(X1), N(Y1), Z, Times(g, j + 1, p), P)
    {
      var bit := TestBit(scalar, 0, 4, i);
      NIsV(scalar);
      PrefixRegular(s, n, i);
      BitIs(s, i);
      Z := LadderStep(X0, Y0, X1, Y1, bit, g, b, Z, p, n, j);
      j := 2 * j + (if bit then 1 else 0);
      i := i - 1;
    }
    HighOne(s);
    BeforeLastIs(s);
  }

  lemma HighOne(s: nat)
    ensures High(s, 0 + 1) == s / 2
  {
  }

  lemma BeforeLastIs(s: nat)
    ensures BeforeLast(s) == if s < 2 then 1 else s / 2
  {
  }

  lemma BitIs(s: nat, i: nat)
    ensures Bit(s, i) == 0 || Bit(s, i) == 1
  {
  }

  lemma BitsOfScalar(s: nat)
    requires s < R
    ensures BitLength(s) <= 256
    ensures s < 2 ==> BitLength(s) < 2
    ensures s >= 2 ==> BitLength(s) >= 2 && High(s, BitLength(s) - 1) == 1
  {
    hide *;
    if s >= 2 && BitLength(s) >= 1 {
      HighIs(s, BitLength(s) - 1);
    }
    HighBitsAll(s);
    RIsPow2();
    HalfBitsIs();
    Pow2Zero();
    NoBits(s);
    var k := BitLength(s);
    if k > 256 {
      Pow2Monotone(HalfBits(), k - 1);
    }
    if k < 2 {
      Pow2Monotone(k, 1);
    }
    if k >= 2 {
      Pow2Monotone(1, k - 1);
    }
  }

  // What the routine computes for a point of odd order n and a scalar below 2 n - 2: the multiple itself, except that
  // the last rung always runs, so 0 and 1 come out two too high, n - 1 and n pass through infinity, and a point with
  // abscissa zero gives no inverse to finish with.
  ghost function LadderResult(g: Group<Point>, s: nat, p: Point, n: nat): Point {
    if (p.Affine? && p.x == 0) || s == n - 1 || s == n then Affine(0, 0)
    else if s < 2 then Times(g, s + 2, p)
    else Times(g, s, p)
  }

  // result := scalar * point, in affine coordinates.
  method EccMult(rx: array<Limb>, ry: array<Limb>, px: array<Limb>, py: array<Limb>, scalar: array<Limb>,
                 initialZ: array?<Limb>, ghost g: Group<Point>, ghost b: int, ghost n: nat)
    requires rx.Length == ry.Length == px.Length == py.Length == scalar.Length == 4 && rx != ry
    requires initialZ != null ==> initialZ.Length == 4 && N(initialZ) % P != 0
    requires IsCurveGroup(g, b, P) && HasOrder(g, Affine(N(px), N(py)), n) && n % 2 == 1 && n > 4
    requires N(scalar) < 2 * n - 2
    modifies rx, ry
    ensures Affine(N(rx), N(ry)) == LadderResult(g, old(N(scalar)), Affine(old(N(px)), old(N(py))), n)
  {
    hide *;
    var X0, Y0, X1, Y1 := new Limb[4], new Limb[4], new Limb[4], new Limb[4];
    Multiply(X0, Y0, X1, Y1, px, py, scalar, initialZ, g, b, Affine(N(px), N(py)), n);
    CopyPoint(rx, ry, X0, Y0);
  }

  // The multiplication with its working coordinates, ending in (X0, Y0).
  method Multiply(X0: array<Limb>, Y0: array<Limb>, X1: array<Limb>, Y1: array<Limb>,
                  px: array<Limb>, py: array<Limb>, scalar: array<Limb>, initialZ: array?<Limb>,
                  ghost g: Group<Point>, ghost b: int, ghost p: Point, ghost n: nat)
    requires X0.Length == Y0.Length == X1.Length == Y1.Length == px.Length == py.Length == scalar.Length == 4
    requires X0 != Y0 && X0 != X1 && X0 != Y1 && Y0 != X1 && Y0 != Y1 && X1 != Y1
    requires {X0, Y0, X1, Y1} !! {px, py, scalar}
    requires initialZ != X0 && initialZ != Y0 && initialZ != X1 && initialZ != Y1
    requires initialZ != null ==> initialZ.Length == 4 && N(initialZ) % P != 0
    requires IsCurveGroup(g, b, P) && HasOrder(g, p, n) && p == Affine(N(px), N(py)) && n % 2 == 1 && n > 4
    requires N(scalar) < 2 * n - 2
    modifies X0, Y0, X1, Y1
    ensures Affine(N(X0), N(Y0)) == LadderResult(g, N(scalar), p, n)
  {
    hide *;
    ghost var s := N(scalar);
    ghost var z := StartLadder(X0, Y0, X1, Y1, px, py, initialZ, g, b, p, n);
    assert N(scalar) == s && p == Affine(N(px), N(py));
    ghost var Z := Ladder(X0, Y0, X1, Y1, scalar, g, b, z, p, n);
    assert N(scalar) == s && p == Affine(N(px), N(py));
    BeforeLastFits(s, n);
    var odd := OddN(scalar);
    LastStep(X0, Y0, X1, Y1, px, py, odd, g, b, Z, p, n, BeforeLast(s));
    assert N(scalar) == s;
    LastRungGivesResult(g, s, p, n, odd);
  }

  lemma BeforeLastFits(s: nat, n: nat)
    requires s < 2 * n - 2 && n % 2 == 1 && n > 4
    ensures 1 <= BeforeLast(s) <= n - 2
  {
  }

  lemma LastRungGivesResult(g: Group<Point>, s: nat, p: Point, n: nat, odd: bool)
    requires s < 2 * n - 2 && n % 2 == 1 && n > 4 && (odd <==> s % 2 == 1) && p.Affine?
    ensures LastRung(g, p, n, BeforeLast(s), odd) == LadderResult(g, s, p, n)
  {
    hide Times;
  }

  method CopyPoint(rx: array<Limb>, ry: array<Limb>, X: array<Limb>, Y: array<Limb>)
    requires rx.Length == ry.Length == X.Length == Y.Length == 4 && rx != ry && rx != Y && ry != X
    modifies rx, ry
    ensures N(rx) == old(N(X)) && N(ry) == old(N(Y))
  {
    hide *;
    SetN(rx, X);
    SetN(ry, Y);
  }

  // Sets the ladder up at (p, 2 p).
  method StartLadder(X0: array<Limb>, Y0: array<Limb>, X1: array<Limb>, Y1: array<Limb>,
                     px: array<Limb>, py: array<Limb>, initialZ: array?<Limb>,
                     ghost g: Group<Point>, ghost b: int, ghost p: Point, ghost n: nat) returns (ghost z: int)
    requires X0.Length == Y0.Length == X1.Length == Y1.Length == px.Length == py.Length == 4
    requires X0 != Y0 && X0 != X1 && X0 != Y1 && Y0 != X1 && Y0 != Y1 && X1 != Y1
    requires py != X1
    requires initialZ != null ==> initialZ.Length == 4 && N(initialZ) % P != 0
    requires initialZ != X0 && initialZ != Y0 && initialZ != X1 && initialZ != Y1
    requires IsCurveGroup(g, b, P) && HasOrder(g, p, n) && p == Affine(N(px), N(py)) && n > 2
    modifies X0, Y0, X1, Y1
    ensures N(X0) < P && N(Y0) < P && N(X1) < P && N(Y1) < P
    ensures At(g, N(X0), N(Y0), z, Times(g, 1, p), P) && At(g, N(X1), N(Y1), z, Times(g, 2, p), P)
  {
    hide *;
    OrdinateNonzero(g, b, p, n, P);
    SetN(X1, px);
    SetN(Y1, py);
    assert N(X1) == p.x && N(Y1) == p.y;
    ghost var xs, ys, zs, slope;
    xs, ys, zs, slope, z := InitialDouble(X1, Y1, X0, Y0, initialZ);
    OrdinateNonzero(g, b, p, n, P);
    LadderStarts(g, b, p, n, zs, xs, ys, slope, z, N(X1), N(Y1), N(X0), N(Y0), P);
  }

  // The routine returns the multiple it is asked for exactly for points with an abscissa and scalars of two bits or
  // more other than n - 1 and n.
  lemma LadderCorrectExactly(g: Group<Point>, b: int, s: nat, p: Point, n: nat, m: nat)
    requires IsCurveGroup(g, b, m) && HasOrder(g, p, n) && p.Affine? && n % 2 == 1 && n > 4 && s < 2 * n - 2
    requires Nonzero(b, m)
    ensures LadderResult(g, s, p, n) == Times(g, s, p) <==> 2 <= s && s != n - 1 && s != n && p.x != 0
  {
    hide IsCurveGroup, IsAbelianGroup, Times;
    IsGroup(g, b, m);
    TimesHas(g, s, p);
    OriginNotOnCurve(g, b, m);
    if s == 0 {
      ZeroTimes(g, p);
    } else if s == 1 {
      Distinct(g, p, n, 1, 3);
    }
  }

  lemma ZeroTimes(g: Group<Point>, p: Point)
    ensures Times(g, 0, p) == g.zero
  {
  }

  lemma OriginNotOnCurve(g: Group<Point>, b: int, m: nat)
    requires IsCurveGroup(g, b, m) && Nonzero(b, m)
    ensures !g.has(Affine(0, 0))
  {
    hide IsCurveGroup, Cong;
    if g.has(Affine(0, 0)) {
      Bounds(g, b, m, Affine(0, 0));
      assert Cubic(0, Pow4(1), Pow6(1), b) == b;
      CongSym(0, b, m);
    }
  }
}
