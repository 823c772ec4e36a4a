/** u1 G + u2 Q by Shamir's trick, as signature verification computes it: one doubling per bit and one
    addition of G, Q or G + Q. */
module DoubleMultiplication {
  import opened Bits
  import opened Vli
  import opened VliMul
  import opened P256Field
  import opened P256Points
  import opened ModularProduct
  import opened Congruence
  import opened CurveAlgebra
  import opened AffineMeaning
  import opened PrimeField
  import opened Groups
  import opened CurveGroup
  import opened ScalarMultiplication

  // The sum over the bits from position i up.
  ghost function Partial(g: Group<Point>, G: Point, Q: Point, u1: nat, u2: nat, i: nat): Point {
    g.add(Times(g, High(u1, i), G), Times(g, High(u2, i), Q))
  }

  // The table entry for one bit of each scalar.
  ghost function Entry(g: Group<Point>, G: Point, Q: Point, b1: nat, b2: nat): Point {
    g.add(Times(g, b1, G), Times(g, b2, Q))
  }

  // Some position has the bits of both scalars set, so that the entry G + Q is used.
  ghost predicate SumUsed(u1: nat, u2: nat) {
    exists i: nat :: Bit(u1, i) == 1 && Bit(u2, i) == 1
  }

  lemma UsedAt(u1: nat, u2: nat, i: nat)
    ensures Bit(u1, i) == 1 && Bit(u2, i) == 1 ==> SumUsed(u1, u2)
  {
    hide Bit;
  }

  // The number of positions: the longer of the two scalars.
  function Positions(u1: nat, u2: nat): nat {
    if BitLength(u1) > BitLength(u2) then BitLength(u1) else BitLength(u2)
  }

  // One turn from A: no vertical tangent is doubled, and no points with equal abscissas are added.
  ghost predicate RegularTurn(g: Group<Point>, G: Point, Q: Point, A: Point, b1: nat, b2: nat) {
    && A.Affine? && A.y != 0
    && (b1 + b2 > 0 ==>
      var D, T := g.add(A, A), Entry(g, G, Q, b1, b2);
      D.Affine? && T.Affine? && D.x != T.x)
  }

  ghost predicate RegularAt(g: Group<Point>, G: Point, Q: Point, u1: nat, u2: nat, i: nat) {
    RegularTurn(g, G, Q, Partial(g, G, Q, u1, u2, i + 1), Bit(u1, i), Bit(u2, i))
  }

  // All turns from the top down to position i are regular.
  ghost predicate RegularDownTo(g: Group<Point>, G: Point, Q: Point, u1: nat, u2: nat, i: nat) {
    forall k: nat :: i <= k && k + 1 < Positions(u1, u2) ==> RegularAt(g, G, Q, u1, u2, k)
  }

  ghost predicate Regular(g: Group<Point>, G: Point, Q: Point, u1: nat, u2: nat) {
    RegularDownTo(g, G, Q, u1, u2, 0)
  }

  lemma RegularStep(g: Group<Point>, G: Point, Q: Point, u1: nat, u2: nat, i: nat)
    requires i + 1 < Positions(u1, u2)
    ensures RegularDownTo(g, G, Q, u1, u2, i) <==>
      RegularDownTo(g, G, Q, u1, u2, i + 1) && RegularAt(g, G, Q, u1, u2, i)
  {
    hide RegularAt, Positions;
  }

  lemma RegularAbove(g: Group<Point>, G: Point, Q: Point, u1: nat, u2: nat, i: nat)
    requires i + 1 == Positions(u1, u2)
    ensures RegularDownTo(g, G, Q, u1, u2, i)
  {
    hide RegularAt, Positions;
  }

  // The coordinates stand for A while the run is regular; after an irregular turn Z is zero for good.
  ghost predicate Standing(g: Group<Point>, X: int, Y: int, Z: int, A: Point, regular: bool) {
    if regular then At(g, X, Y, Z, A, P) else Z == 0
  }

  /* ---- the group side of one turn ---- */

  // (a + b) + (c + d) = (a + c) + (b + d)
  lemma Exchange(g: Group<Point>, a: Point, b: Point, c: Point, d: Point)
    requires IsAbelianGroup(g) && g.has(a) && g.has(b) && g.has(c) && g.has(d)
    ensures g.add(g.add(a, b), g.add(c, d)) == g.add(g.add(a, c), g.add(b, d))
  {
    hide IsAbelianGroup;
    Sum(g, a, b);
    Sum(g, c, d);
    Sum(g, b, d);
    Sum(g, b, c);
    Assoc(g, a, b, g.add(c, d));
    Assoc(g, b, c, d);
    Assoc(g, c, b, d);
    Assoc(g, a, c, g.add(b, d));
  }

  // One more bit of one scalar.
  lemma TimesBit(g: Group<Point>, p: Point, k: nat, bit: nat)
    requires IsAbelianGroup(g) && g.has(p)
    ensures Times(g, 2 * k + bit, p) == g.add(g.add(Times(g, k, p), Times(g, k, p)), Times(g, bit, p))
  {
    hide IsAbelianGroup, Times;
    TimesSum(g, k, k, p);
    assert k + k == 2 * k;
    TimesSum(g, 2 * k, bit, p);
  }

  lemma PartialStep(g: Group<Point>, G: Point, Q: Point, u1: nat, u2: nat, i: nat)
    requires IsAbelianGroup(g) && g.has(G) && g.has(Q)
    ensures g.has(Partial(g, G, Q, u1, u2, i + 1)) && g.has(Entry(g, G, Q, Bit(u1, i), Bit(u2, i)))
    ensures var A := Partial(g, G, Q, u1, u2, i + 1);
      Partial(g, G, Q, u1, u2, i) == g.add(g.add(A, A), Entry(g, G, Q, Bit(u1, i), Bit(u2, i)))
  {
    hide IsAbelianGroup, Times, Bit, High;
    HighStep(u1, i);
    HighStep(u2, i);
    var a, c := High(u1, i + 1), High(u2, i + 1);
    StepBoth(g, G, Q, a, c, Bit(u1, i), Bit(u2, i));
  }

  lemma StepBoth(g: Group<Point>, G: Point, Q: Point, a: nat, c: nat, b1: nat, b2: nat)
    requires IsAbelianGroup(g) && g.has(G) && g.has(Q)
    ensures g.has(g.add(Times(g, a, G), Times(g, c, Q))) && g.has(Entry(g, G, Q, b1, b2))
    ensures var A := g.add(Times(g, a, G), Times(g, c, Q));
      g.add(Times(g, 2 * a + b1, G), Times(g, 2 * c + b2, Q)) == g.add(g.add(A, A), Entry(g, G, Q, b1, b2))
  {
    hide IsAbelianGroup, Times;
    var p, q, s, t := Times(g, a, G), Times(g, c, Q), Times(g, b1, G), Times(g, b2, Q);
    TimesHas(g, a, G);
    TimesHas(g, c, Q);
    TimesHas(g, b1, G);
    TimesHas(g, b2, Q);
    TimesBit(g, G, a, b1);
    TimesBit(g, Q, c, b2);
    Sum(g, p, q);
    Sum(g, p, p);
    Sum(g, q, q);
    Sum(g, s, t);
    Exchange(g, g.add(p, p), s, g.add(q, q), t);
    Exchange(g, p, q, p, q);
  }

  // The four entries.
  lemma Entries(g: Group<Point>, G: Point, Q: Point)
    requires IsAbelianGroup(g) && g.has(G) && g.has(Q)
    ensures Entry(g, G, Q, 0, 0) == g.zero && Entry(g, G, Q, 1, 0) == G
    ensures Entry(g, G, Q, 0, 1) == Q && Entry(g, G, Q, 1, 1) == g.add(G, Q)
  {
    hide IsAbelianGroup;
    Unit(g, G);
    Unit(g, Q);
    Unit(g, g.zero);
    TimesOne(g, G);
    TimesOne(g, Q);
  }

  // At the top position the sum is the entry itself; at position 0 it is everything.
  lemma PartialEnds(g: Group<Point>, G: Point, Q: Point, u1: nat, u2: nat)
    requires u1 > 0 || u2 > 0
    ensures Positions(u1, u2) > 0
    ensures var t := Positions(u1, u2) - 1;
      && Partial(g, G, Q, u1, u2, t) == Entry(g, G, Q, Bit(u1, t), Bit(u2, t))
      && Bit(u1, t) + Bit(u2, t) > 0
    ensures Partial(g, G, Q, u1, u2, 0) == g.add(Times(g, u1, G), Times(g, u2, Q))
  {
    hide Times, High, Bit, BitLength;
    NoBits(u1);
    NoBits(u2);
    var t := Positions(u1, u2) - 1;
    TopBit(u1, t);
    TopBit(u2, t);
    AllBits(u1);
    AllBits(u2);
  }

  lemma AllBits(u: nat)
    ensures High(u, 0) == u
  {
    Pow2Zero();
  }

  lemma TopBit(u: nat, t: nat)
    requires BitLength(u) <= t + 1
    ensures High(u, t) == Bit(u, t)
    ensures BitLength(u) == t + 1 ==> Bit(u, t) == 1
  {
    hide BitLength, Pow2, Bit;
    HighStep(u, t);
    Pow2Monotone(BitLength(u), t + 1);
    DivUnique(u, Pow2(t + 1), 0, u);
    HighBitsAll(u);
    if BitLength(u) == t + 1 {
      NoBits(u);
      assert BitLength(u) - 1 == t;
    }
  }

  /* ---- the routine ---- */

  // Z may be replaced by a congruent number.
  lemma AtCongruent(g: Group<Point>, X: int, Y: int, Z: int, W: int, q: Point, p: nat)
    requires At(g, X, Y, Z, q, p) && Cong(W, Z, p)
    ensures At(g, X, Y, W, q, p)
  {
    hide Cong;
    if Cong(W, 0, p) {
      CongSym(W, Z, p);
      CongTrans(Z, W, 0, p);
    }
    CongSym(W, Z, p);
    CongMul(Z, W, Z, W, p);
    CongMul(Z, W, Z * Z, W * W, p);
    CongTimes(q.x, Z * Z, W * W, p);
    CongTimes(q.y, Z * (Z * Z), W * (W * W), p);
    CongTrans(X, q.x * (Z * Z), q.x * (W * W), p);
    CongTrans(Y, q.y * (Z * (Z * Z)), q.y * (W * (W * W)), p);
  }

  // An affine point stands over 1, and over every unit once rescaled.
  lemma AffineAt(g: Group<Point>, q: Point, z: int, X: int, Y: int, p: nat)
    requires g.has(q) && q.Affine? && Nonzero(z, p) && ScalesTo(q.x, q.y, z, X, Y, p)
    ensures At(g, X, Y, z, q, p)
  {
  }

  lemma OverOne(g: Group<Point>, q: Point, p: nat)
    requires g.has(q) && q.Affine? && p > 1
    ensures At(g, q.x, q.y, 1, q, p)
  {
    NonzeroSmall(1, p);
    CongRefl(q.x, p);
    CongRefl(q.y, p);
  }

  // (rx, ry, z) := 2 (rx, ry, z); a vertical tangent leaves Z zero, and so does Z zero.
  method DoubleStep(rx: array<Limb>, ry: array<Limb>, z: array<Limb>,
                    ghost g: Group<Point>, ghost b: int, ghost A: Point, ghost regular: bool)
    requires rx.Length == ry.Length == z.Length == 4 && rx != ry && rx != z && ry != z
    requires N(rx) < P && N(ry) < P && N(z) < P
    requires Standing(g, N(rx), N(ry), N(z), A, regular) && IsCurveGroup(g, b, P)
    modifies rx, ry, z
    ensures N(rx) < P && N(ry) < P && N(z) < P
    ensures Standing(g, N(rx), N(ry), N(z), g.add(A, A), regular && A.Affine? && A.y != 0)
  {
    hide *;
    ghost var x, y, w := N(rx), N(ry), N(z);
    StandingIs(g, x, y, w, A, regular);
    if regular {
      AtNonzero(g, x, y, w, A, P);
    }
    ghost var slope := DoubleJacobian(rx, ry, z);
    if regular {
      if A.y != 0 {
        JacobianDoubles(g, b, P, x, y, w, slope, N(rx), N(ry), N(z), A);
      } else {
        VerticalTangent(g, x, y, w, slope, N(rx), N(ry), N(z), A, P);
      }
    }
    StandingIs(g, N(rx), N(ry), N(z), g.add(A, A), regular && A.Affine? && A.y != 0);
  }

  lemma StandingIs(g: Group<Point>, X: int, Y: int, Z: int, A: Point, regular: bool)
    ensures Standing(g, X, Y, Z, A, regular) <==> if regular then At(g, X, Y, Z, A, P) else Z == 0
  {
  }

  // Doubling a point with ordinate zero gives Z = Y Z = 0.
  lemma VerticalTangent(g: Group<Point>, X: int, Y: int, Z: int, slope: int, X3: int, Y3: int, Z3: int,
                        A: Point, m: nat)
    requires At(g, X, Y, Z, A, m) && A.y == 0 && DoublesTo(X, Y, Z, slope, X3, Y3, Z3, m)
    requires 0 <= Y < m && 0 <= Z3 < m
    ensures Z3 == 0
  {
    hide Cong;
    assert A.y * (Z * (Z * Z)) == 0;
    CongUnique(Y, 0, m);
    CongUnique(Z3, 0, m);
  }

  lemma AtNonzero(g: Group<Point>, X: int, Y: int, Z: int, q: Point, p: nat)
    requires At(g, X, Y, Z, q, p)
    ensures Z != 0 && g.has(q) && q.Affine? && Nonzero(Z, p)
  {
    hide Nonzero;
    NotZero(Z, p);
  }

  // (rx, ry, z) := (rx, ry, z) + (tx, ty); equal abscissas leave Z zero, and so does Z zero.
  method AddEntry(rx: array<Limb>, ry: array<Limb>, z: array<Limb>, tx: array<Limb>, ty: array<Limb>,
                  ghost g: Group<Point>, ghost b: int, ghost D: Point, ghost T: Point, ghost regular: bool)
    requires rx.Length == ry.Length == z.Length == tx.Length == ty.Length == 4
    requires rx != ry && rx != z && ry != z && tx != ty
    requires tx != rx && tx != ry && tx != z && ty != rx && ty != ry && ty != z
    requires N(rx) < P && N(ry) < P && N(z) < P
    requires Standing(g, N(rx), N(ry), N(z), D, regular) && IsCurveGroup(g, b, P)
    requires g.has(T) && T == Affine(N(tx), N(ty))
    modifies rx, ry, z, tx, ty
    ensures N(rx) < P && N(ry) < P && N(z) < P
    ensures Standing(g, N(rx), N(ry), N(z), g.add(D, T), regular && D.Affine? && D.x != T.x)
  {
    hide *;
    ghost var w := N(z);
    ghost var adds := regular && D.Affine? && D.x != T.x;
    StandingIs(g, N(rx), N(ry), w, D, regular);
    if regular {
      AtNonzero(g, N(rx), N(ry), w, D, P);
    }
    IsGroup(g, b, P);
    ApplyZ(tx, ty, z);
    if regular {
      AffineAt(g, T, w, N(tx), N(ty), P);
    }
    var tz := new Limb[4];
    ghost var x2: int, x1: int, y2, y1 := N(rx), N(tx), N(ry), N(ty);
    FSub(tz, rx, tx);
    ghost var d := N(tz);
    XYcZAdd(tx, ty, rx, ry);
    FMul(z, z, tz);
    if adds {
      CoZAdds(g, b, P, x1, y1, x2, y2, w, N(rx), N(ry), T, D);
      SignedDifference(x2, x1);
      ProductSteps(w, Difference(x2, x1), d, N(z), P);
      MulIs(w, Difference(x2, x1));
      AtCongruent(g, N(rx), N(ry), w * Difference(x2, x1), N(z), g.add(T, D), P);
      Sum(g, D, T);
    } else {
      if regular {
        EqualAbscissas(g, x2, y2, x1, y1, w, D, T, d, P);
      }
      ZeroProduct(N(z), w, d, P);
    }
    StandingIs(g, N(rx), N(ry), N(z), g.add(D, T), adds);
  }

  // Over one Z, points with the same abscissa have the same coordinate X.
  lemma EqualAbscissas(g: Group<Point>, x2: int, y2: int, x1: int, y1: int, Z: int, D: Point, T: Point, d: int, m: nat)
    requires At(g, x2, y2, Z, D, m) && At(g, x1, y1, Z, T, m) && D.x == T.x
    requires Cong(d, x2 - x1, m) && 0 <= d < m
    ensures d == 0
  {
    hide Cong;
    CongSub(x2, D.x * (Z * Z), x1, T.x * (Z * Z), m);
    CongTrans(d, x2 - x1, 0, m);
    CongUnique(d, 0, m);
  }

  // (sx, sy) := G + Q in affine coordinates; equal abscissas leave zeros.
  method SumPoint(sx: array<Limb>, sy: array<Limb>, gx: array<Limb>, gy: array<Limb>,
                  qx: array<Limb>, qy: array<Limb>, ghost g: Group<Point>, ghost b: int, ghost G: Point, ghost Q: Point)
    requires sx.Length == sy.Length == gx.Length == gy.Length == qx.Length == qy.Length == 4
    requires sx != sy && {sx, sy} !! {gx, gy, qx, qy}
    requires G == Affine(N(gx), N(gy)) && Q == Affine(N(qx), N(qy))
    requires g.has(G) && g.has(Q) && IsCurveGroup(g, b, P)
    modifies sx, sy
    ensures Affine(N(sx), N(sy)) == if G.x != Q.x then g.add(G, Q) else Affine(0, 0)
  {
    hide *;
    Bounds(g, b, P, G);
    Bounds(g, b, P, Q);
    var tx, ty, z := new Limb[4], new Limb[4], new Limb[4];
    CopyPoint(sx, sy, qx, qy);
    CopyPoint(tx, ty, gx, gy);
    InverseDifference(z, sx, tx, g, b);
    ghost var w := N(z);
    ghost var Z := AddOverOne(tx, ty, sx, sy, g, b, G, Q);
    assert N(z) == w;
    if G.x != Q.x {
      Commute(w, Z);
    }
    Finish(sx, sy, z, g, b, Z, g.add(G, Q), G.x != Q.x);
  }

  // z := 1 / (x2 - x1), and zero for equal abscissas.
  method InverseDifference(z: array<Limb>, x2: array<Limb>, x1: array<Limb>, ghost g: Group<Point>, ghost b: int)
    requires z.Length == x2.Length == x1.Length == 4 && z != x1 && z != x2
    requires N(x1) < P && N(x2) < P && IsCurveGroup(g, b, P)
    modifies z
    ensures N(x1) != N(x2) ==> Cong(N(z) * Difference(N(x2), N(x1)), 1, P)
    ensures N(x1) == N(x2) ==> N(z) == 0
  {
    hide *;
    CurvePrime(g, b);
    ghost var v2: int, v1: int := N(x2), N(x1);
    FSub(z, x2, x1);
    ghost var d := N(z);
    SignedDifference(v2, v1);
    FInvert(z);
    if v1 != v2 {
      CongTimes(N(z), d, Difference(v2, v1), P);
      CongSym(N(z) * d, N(z) * Difference(v2, v1), P);
      CongTrans(N(z) * Difference(v2, v1), N(z) * d, 1, P);
    }
  }

  // Adds G to Q over Z = 1; nothing is said of the sum for equal abscissas.
  method AddOverOne(tx: array<Limb>, ty: array<Limb>, sx: array<Limb>, sy: array<Limb>,
                    ghost g: Group<Point>, ghost b: int, ghost G: Point, ghost Q: Point) returns (ghost Z: int)
    requires tx.Length == ty.Length == sx.Length == sy.Length == 4
    requires tx != ty && tx != sx && tx != sy && ty != sx && ty != sy && sx != sy
    requires G == Affine(N(tx), N(ty)) && Q == Affine(N(sx), N(sy))
    requires g.has(G) && g.has(Q) && IsCurveGroup(g, b, P)
    modifies tx, ty, sx, sy
    ensures Z == Difference(Q.x, G.x)
    ensures G.x != Q.x ==> At(g, N(sx), N(sy), Z, g.add(G, Q), P)
  {
    hide *;
    Bounds(g, b, P, G);
    Bounds(g, b, P, Q);
    PIsBig();
    OverOne(g, G, P);
    OverOne(g, Q, P);
    ghost var x1: int, y1: int, x2: int, y2: int := N(tx), N(ty), N(sx), N(sy);
    XYcZAdd(tx, ty, sx, sy);
    Z := Difference(x2, x1);
    SignedDifference(x2, x1);
    if G.x != Q.x {
      CoZAdds(g, b, P, x1, y1, x2, y2, 1, N(sx), N(sy), G, Q);
    }
  }

  function BitOf(set1: bool): nat {
    if set1 then 1 else 0
  }

  // (tx, ty) := the table entry for two bits that are not both clear.
  method SelectEntry(tx: array<Limb>, ty: array<Limb>, gx: array<Limb>, gy: array<Limb>,
                     qx: array<Limb>, qy: array<Limb>, sx: array<Limb>, sy: array<Limb>, bit1: bool, bit2: bool,
                     ghost g: Group<Point>, ghost G: Point, ghost Q: Point)
    requires tx.Length == ty.Length == gx.Length == gy.Length == qx.Length == qy.Length == sx.Length == sy.Length == 4
    requires tx != ty && tx != gy && tx != qy && tx != sy && ty != gx && ty != qx && ty != sx
    requires IsAbelianGroup(g) && g.has(G) && g.has(Q)
    requires G == Affine(N(gx), N(gy)) && Q == Affine(N(qx), N(qy))
    requires bit1 && bit2 ==> g.add(G, Q) == Affine(N(sx), N(sy))
    requires bit1 || bit2
    modifies tx, ty
    ensures Entry(g, G, Q, BitOf(bit1), BitOf(bit2)) == Affine(N(tx), N(ty))
  {
    hide N, IsAbelianGroup, Entry;
    Entries(g, G, Q);
    if bit1 && bit2 {
      CopyPoint(tx, ty, sx, sy);
    } else if bit1 {
      CopyPoint(tx, ty, gx, gy);
    } else {
      CopyPoint(tx, ty, qx, qy);
    }
  }

  // Adding the entry for two clear bits changes nothing.
  lemma NoEntry(g: Group<Point>, G: Point, Q: Point, D: Point)
    requires IsAbelianGroup(g) && g.has(G) && g.has(Q) && g.has(D)
    ensures g.add(D, Entry(g, G, Q, 0, 0)) == D
  {
    hide IsAbelianGroup, Entry;
    Entries(g, G, Q);
    Unit(g, D);
  }

  // One position: double, and add the entry unless both bits are clear.
  method Position(rx: array<Limb>, ry: array<Limb>, z: array<Limb>,
                  gx: array<Limb>, gy: array<Limb>, qx: array<Limb>, qy: array<Limb>,
                  sx: array<Limb>, sy: array<Limb>, bit1: bool, bit2: bool,
                  ghost g: Group<Point>, ghost b: int, ghost G: Point, ghost Q: Point, ghost A: Point,
                  ghost regular: bool)
    requires rx.Length == ry.Length == z.Length == gx.Length == gy.Length == 4
    requires qx.Length == qy.Length == sx.Length == sy.Length == 4
    requires rx != ry && rx != z && ry != z
    requires {rx, ry, z} !! {gx, gy, qx, qy, sx, sy}
    requires N(rx) < P && N(ry) < P && N(z) < P
    requires G == Affine(N(gx), N(gy)) && Q == Affine(N(qx), N(qy))
    requires bit1 && bit2 ==> g.add(G, Q) == Affine(N(sx), N(sy))
    requires Standing(g, N(rx), N(ry), N(z), A, regular) && (regular ==> A.Affine? && g.has(A))
    requires g.has(Entry(g, G, Q, BitOf(bit1), BitOf(bit2))) && g.has(G) && g.has(Q) && IsCurveGroup(g, b, P)
    modifies rx, ry, z
    ensures N(rx) < P && N(ry) < P && N(z) < P
    ensures Standing(g, N(rx), N(ry), N(z), g.add(g.add(A, A), Entry(g, G, Q, BitOf(bit1), BitOf(bit2))),
                     regular && RegularTurn(g, G, Q, A, BitOf(bit1), BitOf(bit2)))
  {
    hide *;
    ghost var D, T := g.add(A, A), Entry(g, G, Q, BitOf(bit1), BitOf(bit2));
    ghost var doubled := regular && A.Affine? && A.y != 0;
    IsGroup(g, b, P);
    DoubleStep(rx, ry, z, g, b, A, regular);
    StandingIs(g, N(rx), N(ry), N(z), D, doubled);
    if doubled {
      AtNonzero(g, N(rx), N(ry), N(z), D, P);
    }
    NoBitSet(bit1);
    NoBitSet(bit2);
    if bit1 || bit2 {
      var tx, ty := new Limb[4], new Limb[4];
      SelectEntry(tx, ty, gx, gy, qx, qy, sx, sy, bit1, bit2, g, G, Q);
      TurnIs(g, G, Q, A, BitOf(bit1), BitOf(bit2));
      AddEntry(rx, ry, z, tx, ty, g, b, D, T, doubled);
    } else {
      TurnIs(g, G, Q, A, 0, 0);
      if doubled {
        NoEntry(g, G, Q, D);
      }
      StandingIs(g, N(rx), N(ry), N(z), g.add(D, T), doubled);
    }
  }

  lemma TurnIs(g: Group<Point>, G: Point, Q: Point, A: Point, b1: nat, b2: nat)
    ensures RegularTurn(g, G, Q, A, b1, b2) <==>
      A.Affine? && A.y != 0 && (b1 + b2 > 0 ==>
      g.add(A, A).Affine? && Entry(g, G, Q, b1, b2).Affine? && g.add(A, A).x != Entry(g, G, Q, b1, b2).x)
  {
  }

  lemma NoBitSet(bit: bool)
    ensures BitOf(bit) == if bit then 1 else 0
  {
  }

  // (rx, ry) := u1 G + u2 Q in affine coordinates when the run is regular, zeros when it is not.
  method ShamirSum(rx: array<Limb>, ry: array<Limb>, u1: array<Limb>, u2: array<Limb>,
                   gx: array<Limb>, gy: array<Limb>, qx: array<Limb>, qy: array<Limb>,
                   ghost g: Group<Point>, ghost b: int, ghost G: Point, ghost Q: Point)
    requires rx.Length == ry.Length == u1.Length == u2.Length == 4
    requires gx.Length == gy.Length == qx.Length == qy.Length == 4
    requires rx != ry && {rx, ry} !! {u1, u2, gx, gy, qx, qy}
    requires N(u1) > 0 || N(u2) > 0
    requires G == Affine(N(gx), N(gy)) && Q == Affine(N(qx), N(qy)) && g.has(G) && g.has(Q)
    requires G.x != Q.x || !SumUsed(N(u1), N(u2))
    requires IsCurveGroup(g, b, P)
    modifies rx, ry
    ensures Affine(N(rx), N(ry)) ==
            if Regular(g, G, Q, old(N(u1)), old(N(u2)))
            then g.add(Times(g, old(N(u1)), G), Times(g, old(N(u2)), Q)) else Affine(0, 0)
    ensures N(rx) < P && N(ry) < P
  {
    hide *;
    ghost var s1, s2 := N(u1), N(u2);
    IsGroup(g, b, P);
    var sx, sy, z := new Limb[4], new Limb[4], new Limb[4];
    SumPoint(sx, sy, gx, gy, qx, qy, g, b, G, Q);
    PartialEnds(g, G, Q, s1, s2);
    var positions := CountPositions(u1, u2);
    FirstPosition(rx, ry, z, u1, u2, gx, gy, qx, qy, sx, sy, positions, g, b, G, Q);
    AllPositions(rx, ry, z, u1, u2, gx, gy, qx, qy, sx, sy, positions, g, b, G, Q);
    RegularIs(g, G, Q, s1, s2);
    LastInversion(rx, ry, z, g, b, Partial(g, G, Q, s1, s2, 0), Regular(g, G, Q, s1, s2));
  }

  lemma RegularIs(g: Group<Point>, G: Point, Q: Point, u1: nat, u2: nat)
    ensures Regular(g, G, Q, u1, u2) == RegularDownTo(g, G, Q, u1, u2, 0)
  {
    hide RegularDownTo;
  }

  // (rx, ry) := the entry for the top position.
  method TopEntry(rx: array<Limb>, ry: array<Limb>, u1: array<Limb>, u2: array<Limb>,
                  gx: array<Limb>, gy: array<Limb>, qx: array<Limb>, qy: array<Limb>,
                  sx: array<Limb>, sy: array<Limb>, positions: nat,
                  ghost g: Group<Point>, ghost G: Point, ghost Q: Point)
    requires rx.Length == ry.Length == u1.Length == u2.Length == 4
    requires gx.Length == gy.Length == qx.Length == qy.Length == sx.Length == sy.Length == 4
    requires rx != ry && {rx, ry} !! {u1, u2, gx, gy, qx, qy, sx, sy}
    requires 0 < positions == Positions(N(u1), N(u2)) <= 256 && (N(u1) > 0 || N(u2) > 0)
    requires G == Affine(N(gx), N(gy)) && Q == Affine(N(qx), N(qy))
    requires SumUsed(N(u1), N(u2)) ==> g.add(G, Q) == Affine(N(sx), N(sy))
    requires g.has(G) && g.has(Q) && IsAbelianGroup(g)
    modifies rx, ry
    ensures Affine(N(rx), N(ry)) == Partial(g, G, Q, old(N(u1)), old(N(u2)), positions - 1)
    ensures g.has(Partial(g, G, Q, old(N(u1)), old(N(u2)), positions - 1))
  {
    hide *;
    ghost var s1, s2 := N(u1), N(u2);
    PartialEnds(g, G, Q, s1, s2);
    PartialStep(g, G, Q, s1, s2, positions - 1);
    var bit1 := TestBit(u1, 0, 4, positions - 1);
    var bit2 := TestBit(u2, 0, 4, positions - 1);
    TestedBit(u1, positions - 1, bit1);
    TestedBit(u2, positions - 1, bit2);
    NoBitSet(bit1);
    NoBitSet(bit2);
    UsedAt(s1, s2, positions - 1);
    SelectEntry(rx, ry, gx, gy, qx, qy, sx, sy, bit1, bit2, g, G, Q);
  }

  // Starts from the entry for the top position, over Z = 1.
  method FirstPosition(rx: array<Limb>, ry: array<Limb>, z: array<Limb>, u1: array<Limb>, u2: array<Limb>,
                       gx: array<Limb>, gy: array<Limb>, qx: array<Limb>, qy: array<Limb>,
                       sx: array<Limb>, sy: array<Limb>, positions: nat,
                       ghost g: Group<Point>, ghost b: int, ghost G: Point, ghost Q: Point)
    requires rx.Length == ry.Length == z.Length == u1.Length == u2.Length == 4
    requires gx.Length == gy.Length == qx.Length == qy.Length == sx.Length == sy.Length == 4
    requires rx != ry && rx != z && ry != z && {rx, ry, z} !! {u1, u2, gx, gy, qx, qy, sx, sy}
    requires 0 < positions == Positions(N(u1), N(u2)) <= 256 && (N(u1) > 0 || N(u2) > 0)
    requires G == Affine(N(gx), N(gy)) && Q == Affine(N(qx), N(qy))
    requires SumUsed(N(u1), N(u2)) ==> g.add(G, Q) == Affine(N(sx), N(sy))
    requires g.has(G) && g.has(Q) && IsCurveGroup(g, b, P)
    modifies rx, ry, z
    ensures N(rx) < P && N(ry) < P && N(z) < P
    ensures At(g, N(rx), N(ry), N(z), Partial(g, G, Q, N(u1), N(u2), positions - 1), P)
  {
    hide *;
    ghost var A := Partial(g, G, Q, N(u1), N(u2), positions - 1);
    IsGroup(g, b, P);
    TopEntry(rx, ry, u1, u2, gx, gy, qx, qy, sx, sy, positions, g, G, Q);
    Load(z, 1, 0, 0, 0);
    Bounds(g, b, P, A);
    PIsBig();
    OverOne(g, A, P);
  }

  // Divides by the last Z.
  method LastInversion(rx: array<Limb>, ry: array<Limb>, z: array<Limb>,
                       ghost g: Group<Point>, ghost b: int, ghost A: Point, ghost regular: bool)
    requires rx.Length == ry.Length == z.Length == 4 && rx != ry && rx != z && ry != z
    requires N(rx) < P && N(ry) < P && N(z) < P
    requires Standing(g, N(rx), N(ry), N(z), A, regular) && IsCurveGroup(g, b, P)
    modifies rx, ry, z
    ensures Affine(N(rx), N(ry)) == (if regular then A else Affine(0, 0)) && N(rx) < P && N(ry) < P
  {
    hide *;
    ghost var Z := N(z);
    StandingIs(g, N(rx), N(ry), Z, A, regular);
    if regular {
      AtNonzero(g, N(rx), N(ry), Z, A, P);
      Bounds(g, b, P, A);
    }
    CurvePrime(g, b);
    FInvert(z);
    Commute(Z, N(z));
    Finish(rx, ry, z, g, b, Z, A, regular);
    PIsBig();
  }

  lemma CurvePrime(g: Group<Point>, b: int)
    requires IsCurveGroup(g, b, P)
    ensures IsPrime(P)
  {
    hide IsPrime;
  }

  method CountPositions(u1: array<Limb>, u2: array<Limb>) returns (positions: nat)
    requires u1.Length == u2.Length == 4
    ensures positions == Positions(N(u1), N(u2)) <= 256
  {
    var bits1 := NumBits(u1, 0, 4);
    var bits2 := NumBits(u2, 0, 4);
    NRange(u1);
    NRange(u2);
    AtMost256Bits(N(u1));
    AtMost256Bits(N(u2));
    positions := if bits1 > bits2 then bits1 else bits2;
  }

  lemma AtMost256Bits(s: nat)
    requires s < R
    ensures BitLength(s) <= 256
  {
    hide *;
    RIsPow2();
    HalfBitsIs();
    NoBits(s);
    if BitLength(s) > 256 {
      Pow2Monotone(HalfBits(), BitLength(s) - 1);
    }
  }

  lemma TestedBit(u: array<Limb>, p: nat, bit: bool)
    requires u.Length == 4 && (bit <==> Bit(V(u, 0, 4), p) == 1)
    ensures Bit(N(u), p) == BitOf(bit)
  {
    hide Bit;
    NIsV(u);
  }

  lemma RegularAtIs(g: Group<Point>, G: Point, Q: Point, u1: nat, u2: nat, i: nat)
    ensures RegularAt(g, G, Q, u1, u2, i) ==
      RegularTurn(g, G, Q, Partial(g, G, Q, u1, u2, i + 1), Bit(u1, i), Bit(u2, i))
  {
    hide RegularTurn, Partial, Bit;
  }

  // The positions below the top one.
  method AllPositions(rx: array<Limb>, ry: array<Limb>, z: array<Limb>, u1: array<Limb>, u2: array<Limb>,
                      gx: array<Limb>, gy: array<Limb>, qx: array<Limb>, qy: array<Limb>,
                      sx: array<Limb>, sy: array<Limb>, positions: nat,
                      ghost g: Group<Point>, ghost b: int, ghost G: Point, ghost Q: Point)
    requires rx.Length == ry.Length == z.Length == u1.Length == u2.Length == 4
    requires gx.Length == gy.Length == qx.Length == qy.Length == sx.Length == sy.Length == 4
    requires rx != ry && rx != z && ry != z && {rx, ry, z} !! {u1, u2, gx, gy, qx, qy, sx, sy}
    requires 0 < positions == Positions(N(u1), N(u2)) <= 256
    requires N(rx) < P && N(ry) < P && N(z) < P
    requires G == Affine(N(gx), N(gy)) && Q == Affine(N(qx), N(qy))
    requires SumUsed(N(u1), N(u2)) ==> g.add(G, Q) == Affine(N(sx), N(sy))
    requires At(g, N(rx), N(ry), N(z), Partial(g, G, Q, N(u1), N(u2), positions - 1), P)
    requires g.has(G) && g.has(Q) && IsCurveGroup(g, b, P)
    modifies rx, ry, z
    ensures N(rx) < P && N(ry) < P && N(z) < P
    ensures Standing(g, N(rx), N(ry), N(z), Partial(g, G, Q, N(u1), N(u2), 0), RegularDownTo(g, G, Q, N(u1), N(u2), 0))
  {
    hide *;
    IsGroup(g, b, P);
    ghost var s1, s2 := N(u1), N(u2);
    var i: int := positions - 2;
    RegularAbove(g, G, Q, s1, s2, positions - 1);
    StandingIs(g, N(rx), N(ry), N(z), Partial(g, G, Q, s1, s2, positions - 1), true);
    while i >= 0
      invariant -1 <= i <= positions - 2
      invariant N(rx) < P && N(ry) < P && N(z) < P
      invariant Standing(g, N(rx), N(ry), N(z), Partial(g, G, Q, s1, s2, i + 1), RegularDownTo(g, G, Q, s1, s2, i + 1))
    {
      var bit1 := TestBit(u1, 0, 4, i);
      var bit2 := TestBit(u2, 0, 4, i);
      TestedBit(u1, i, bit1);
      TestedBit(u2, i, bit2);
      NoBitSet(bit1);
      NoBitSet(bit2);
      UsedAt(s1, s2, i);
      PartialStep(g, G, Q, s1, s2, i);
      ghost var A, regular := Partial(g, G, Q, s1, s2, i + 1), RegularDownTo(g, G, Q, s1, s2, i + 1);
      StandingIs(g, N(rx), N(ry), N(z), A, regular);
      if regular {
        AtNonzero(g, N(rx), N(ry), N(z), A, P);
      }
      RegularStep(g, G, Q, s1, s2, i);
      RegularAtIs(g, G, Q, s1, s2, i);
      Position(rx, ry, z, gx, gy, qx, qy, sx, sy, bit1, bit2, g, b, G, Q, A, regular);
      i := i - 1;
    }
  }

  /* ---- which runs are regular, for keys with a known scalar ---- */

  // One turn from a G, adding t G when some bit is set: a G is not infinity, neither is the entry, and 2 a G is
  // neither the entry nor its opposite.
  predicate TurnByScalars(a: nat, t: nat, adds: bool, n: nat)
    requires n > 0
  {
    a % n != 0 && (adds ==> t % n != 0 && (2 * a - t) % n != 0 && (2 * a + t) % n != 0)
  }

  // The turn at position i of u1 G + u2 (d G).
  predicate PositionByScalars(u1: nat, u2: nat, d: nat, n: nat, i: nat)
    requires n > 0
  {
    TurnByScalars(High(u1, i + 1) + High(u2, i + 1) * d, Bit(u1, i) + Bit(u2, i) * d, Bit(u1, i) + Bit(u2, i) > 0, n)
  }

  predicate RunByScalars(u1: nat, u2: nat, d: nat, n: nat)
    requires n > 0
  {
    forall i: nat :: i + 1 < Positions(u1, u2) ==> PositionByScalars(u1, u2, d, n, i)
  }

  lemma SumOfMultiples(g: Group<Point>, G: Point, d: nat, a: nat, c: nat)
    requires IsAbelianGroup(g) && g.has(G)
    ensures c * d >= 0 && g.add(Times(g, a, G), Times(g, c, Times(g, d, G))) == Times(g, a + c * d, G)
  {
    hide IsAbelianGroup, Times;
    NonNegativeProduct(c, d);
    TimesProduct(g, c, d, G);
    TimesSum(g, a, c * d, G);
  }

  lemma NegatedMultiple(k: int, n: nat)
    requires n > 0
    ensures k % n == 0 <==> -k % n == 0
  {
    DivFacts(if k >= 0 then k else -k, n);
    if k % n == 0 {
      DivUnique(-k, n, -(k / n), 0);
    }
    if -k % n == 0 {
      DivUnique(k, n, -(-k / n), 0);
    }
  }

  // Two multiples of a point of order n have the same abscissa exactly when their factors agree up to sign modulo n.
  lemma SameAbscissaByScalars(g: Group<Point>, b: int, G: Point, n: nat, a: nat, c: nat, m: nat)
    requires IsCurveGroup(g, b, m) && HasOrder(g, G, n)
    ensures Times(g, a, G).Affine? <==> a % n != 0
    ensures Times(g, c, G).Affine? <==> c % n != 0
    ensures Times(g, a, G).Affine? && Times(g, c, G).Affine? ==>
      (Times(g, a, G).x == Times(g, c, G).x <==> (a - c) % n == 0 || (a + c) % n == 0)
  {
    hide IsCurveGroup, IsAbelianGroup, HasOrder, Times;
    IsGroup(g, b, m);
    OrderHas(g, G, n);
    NegatedMultiple(a - c, n);
    VanishesExactly(g, G, n, a);
    VanishesExactly(g, G, n, c);
    if a <= c {
      Different(g, G, n, a, c);
    } else {
      Different(g, G, n, c, a);
    }
    var A, C := Times(g, a, G), Times(g, c, G);
    TimesHas(g, a, G);
    TimesHas(g, c, G);
    if A.Affine? && C.Affine? {
      Opposite(g, b, m, A);
      Opposite(g, b, m, C);
      if A.x == C.x {
        SameAbscissa(g, b, m, A, C);
        SameAbscissa(g, b, m, C, A);
      }
    }
  }

  // A multiple of a point of odd order has no vertical tangent.
  lemma NoVerticalTangent(g: Group<Point>, b: int, G: Point, n: nat, a: nat, m: nat)
    requires IsCurveGroup(g, b, m) && HasOrder(g, G, n) && n % 2 == 1 && Times(g, a, G).Affine?
    ensures Times(g, a, G).y != 0
  {
    hide IsCurveGroup, IsAbelianGroup, HasOrder, Times;
    IsGroup(g, b, m);
    OrderHas(g, G, n);
    TimesHas(g, a, G);
    VanishesExactly(g, G, n, a);
    Different(g, G, n, a, a);
    var A := Times(g, a, G);
    if A.y == 0 {
      Opposite(g, b, m, A);
      Bounds(g, b, m, A);
      Bounds(g, b, m, g.neg(A));
      CongUnique(g.neg(A).y, 0, m);
      DoubledMultiple(a, n);
    }
  }

  lemma DoubledMultiple(a: nat, n: nat)
    requires n % 2 == 1 && (a + a) % n == 0
    ensures a % n == 0
  {
    var q := (a + a) / n;
    DivFacts(a + a, n);
    assert q % 2 == 0 by {
      if q % 2 == 1 {
        OddProduct(q, n);
      }
    }
    Distribute(q / 2, q / 2, n);
    DivUnique(a, n, q / 2, 0);
  }

  lemma OddProduct(q: nat, n: nat)
    requires q % 2 == 1 && n % 2 == 1
    ensures q * n % 2 == 1
  {
    var h, k := q / 2, n / 2;
    assert q * n == 2 * (h * n + k) + 1 by {
      Distribute(2 * h, 1, n);
      assert 2 * h * n == 2 * (h * n);
    }
  }

  lemma TurnOverMultiples(g: Group<Point>, b: int, G: Point, n: nat, a: nat, t: nat, adds: bool, m: nat)
    requires IsCurveGroup(g, b, m) && HasOrder(g, G, n) && n % 2 == 1
    ensures var A, D, T := Times(g, a, G), Times(g, 2 * a, G), Times(g, t, G);
      TurnByScalars(a, t, adds, n) <==>
        A.Affine? && A.y != 0 && (adds ==> D.Affine? && T.Affine? && D.x != T.x)
  {
    hide IsCurveGroup, HasOrder, Times;
    SameAbscissaByScalars(g, b, G, n, 2 * a, t, m);
    SameAbscissaByScalars(g, b, G, n, a, a, m);
    if Times(g, a, G).Affine? {
      NoVerticalTangent(g, b, G, n, a, m);
      if (2 * a) % n == 0 {
        DoubledMultiple(a, n);
      }
    }
  }

  lemma RegularTurnByScalars(g: Group<Point>, b: int, G: Point, Q: Point, n: nat, a: nat, t: nat, b1: nat, b2: nat,
                             A: Point, m: nat)
    requires IsCurveGroup(g, b, m) && HasOrder(g, G, n) && n % 2 == 1
    requires A == Times(g, a, G) && Entry(g, G, Q, b1, b2) == Times(g, t, G)
    ensures RegularTurn(g, G, Q, A, b1, b2) <==> TurnByScalars(a, t, b1 + b2 > 0, n)
  {
    hide IsCurveGroup, IsAbelianGroup, HasOrder, Times, TurnByScalars;
    IsGroup(g, b, m);
    OrderHas(g, G, n);
    TimesSum(g, a, a, G);
    assert a + a == 2 * a;
    TurnOverMultiples(g, b, G, n, a, t, b1 + b2 > 0, m);
  }

  lemma RegularAtByScalars(g: Group<Point>, b: int, G: Point, n: nat, d: nat, u1: nat, u2: nat, i: nat, m: nat)
    requires IsCurveGroup(g, b, m) && HasOrder(g, G, n) && n % 2 == 1
    ensures RegularAt(g, G, Times(g, d, G), u1, u2, i) <==> PositionByScalars(u1, u2, d, n, i)
  {
    hide IsCurveGroup, IsAbelianGroup, HasOrder, Times, RegularTurn, TurnByScalars, High, Bit;
    var Q, h1, h2, b1, b2 := Times(g, d, G), High(u1, i + 1), High(u2, i + 1), Bit(u1, i), Bit(u2, i);
    IsGroup(g, b, m);
    OrderHas(g, G, n);
    SumOfMultiples(g, G, d, h1, h2);
    SumOfMultiples(g, G, d, b1, b2);
    RegularTurnByScalars(g, b, G, Q, n, h1 + h2 * d, b1 + b2 * d, b1, b2, Partial(g, G, Q, u1, u2, i + 1), m);
  }

  // The run for Q = d G is regular exactly when the scalars say so.
  lemma RegularByScalars(g: Group<Point>, b: int, G: Point, n: nat, d: nat, u1: nat, u2: nat, m: nat)
    requires IsCurveGroup(g, b, m) && HasOrder(g, G, n) && n % 2 == 1
    ensures Regular(g, G, Times(g, d, G), u1, u2) <==> RunByScalars(u1, u2, d, n)
  {
    hide IsCurveGroup, HasOrder, Times, RegularAt, PositionByScalars, Positions;
    forall i: nat | i + 1 < Positions(u1, u2)
      ensures RegularAt(g, G, Times(g, d, G), u1, u2, i) <==> PositionByScalars(u1, u2, d, n, i)
    {
      RegularAtByScalars(g, b, G, n, d, u1, u2, i, m);
    }
  }
}
