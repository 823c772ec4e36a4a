/** The group of the curve y^2 = x^3 - 3 x + b over the field of p elements, taken as a hypothesis:
    some abelian group on the affine points and infinity whose sums are the chord and tangent sums.
    From it, what one co-Z or Jacobian step does to the points its coordinates stand for. */
module CurveGroup {
  import opened Congruence
  import opened CurveAlgebra
  import opened AffineMeaning
  import opened PrimeField
  import opened Groups

  datatype Point = Infinity | Affine(x: int, y: int)

  // Affine points of the group are reduced and on the curve.
  ghost predicate PointsOnCurve(g: Group<Point>, b: int, p: nat) {
    forall q: Point {:trigger g.has(q)} :: g.has(q) && q.Affine? ==>
      0 <= q.x < p && 0 <= q.y < p && OnCurve(q.x, q.y, 1, b, p)
  }

  ghost predicate ChordLaw(g: Group<Point>, p: nat) {
    forall q: Point, r: Point {:trigger g.add(q, r)} ::
      g.has(q) && g.has(r) && q.Affine? && r.Affine? && q.x != r.x ==>
        var s := g.add(q, r);
        s.Affine? && exists l: int :: ChordSum(l, q.x, q.y, r.x, r.y, s.x, s.y, p)
  }

  ghost predicate TangentLaw(g: Group<Point>, p: nat) {
    forall q: Point {:trigger g.add(q, q)} :: g.has(q) && q.Affine? && q.y != 0 ==>
      var s := g.add(q, q);
      s.Affine? && exists l: int :: TangentSum(l, q.x, q.y, s.x, s.y, p)
  }

  // The opposite of (x, y) is (x, -y), and infinity is the unit.
  ghost predicate OppositeLaw(g: Group<Point>, p: nat) {
    && g.zero == Infinity
    && forall q: Point {:trigger g.neg(q)} :: g.has(q) && q.Affine? ==>
        g.neg(q).Affine? && g.neg(q).x == q.x && Cong(g.neg(q).y, -q.y, p)
  }

  ghost predicate IsCurveGroup(g: Group<Point>, b: int, p: nat) {
    && p % 2 == 1 && IsPrime(p) && IsAbelianGroup(g)
    && PointsOnCurve(g, b, p) && ChordLaw(g, p) && TangentLaw(g, p) && OppositeLaw(g, p)
  }

  // Coordinates X, Y over Z stand for an affine point of the group, and Z is a unit.
  ghost predicate At(g: Group<Point>, X: int, Y: int, Z: int, q: Point, p: nat) {
    g.has(q) && q.Affine? && Nonzero(Z, p) && StandsFor(X, Y, Z, q.x, q.y, p)
  }

  /* ---- single laws ---- */

  lemma Bounds(g: Group<Point>, b: int, p: nat, q: Point)
    requires IsCurveGroup(g, b, p) && g.has(q) && q.Affine?
    ensures 0 <= q.x < p && 0 <= q.y < p && OnCurve(q.x, q.y, 1, b, p) && p % 2 == 1 && IsPrime(p)
  {
    hide IsAbelianGroup, ChordLaw, TangentLaw, OppositeLaw, OnCurve;
  }

  lemma IsGroup(g: Group<Point>, b: int, p: nat)
    requires IsCurveGroup(g, b, p)
    ensures IsAbelianGroup(g) && p % 2 == 1 && IsPrime(p) && g.zero == Infinity
  {
    hide IsAbelianGroup, ChordLaw, TangentLaw, PointsOnCurve;
  }

  lemma Opposite(g: Group<Point>, b: int, p: nat, q: Point)
    requires IsCurveGroup(g, b, p) && g.has(q) && q.Affine?
    ensures g.has(g.neg(q)) && g.neg(q).Affine? && g.neg(q).x == q.x && Cong(g.neg(q).y, -q.y, p)
  {
    hide ChordLaw, TangentLaw, PointsOnCurve, IsAbelianGroup;
    Groups.Inverse(g, q);
  }

  lemma Chord(g: Group<Point>, b: int, p: nat, q: Point, r: Point) returns (l: int)
    requires IsCurveGroup(g, b, p) && g.has(q) && g.has(r) && q.Affine? && r.Affine? && q.x != r.x
    ensures g.has(g.add(q, r)) && g.add(q, r).Affine?
    ensures ChordSum(l, q.x, q.y, r.x, r.y, g.add(q, r).x, g.add(q, r).y, p)
  {
    hide TangentLaw, PointsOnCurve, OppositeLaw, IsAbelianGroup, ChordSum;
    Sum(g, q, r);
    var s := g.add(q, r);
    l :| ChordSum(l, q.x, q.y, r.x, r.y, s.x, s.y, p);
  }

  lemma Tangent(g: Group<Point>, b: int, p: nat, q: Point) returns (l: int)
    requires IsCurveGroup(g, b, p) && g.has(q) && q.Affine? && q.y != 0
    ensures g.has(g.add(q, q)) && g.add(q, q).Affine?
    ensures TangentSum(l, q.x, q.y, g.add(q, q).x, g.add(q, q).y, p)
  {
    hide ChordLaw, PointsOnCurve, OppositeLaw, IsAbelianGroup, TangentSum;
    Sum(g, q, q);
    var s := g.add(q, q);
    l :| TangentSum(l, q.x, q.y, s.x, s.y, p);
  }

  /* ---- what the formulas do to points ---- */

  // Distinct abscissas stay distinct, and their difference is a unit.
  lemma AbscissasDiffer(X1: int, X2: int, Z: int, x1: int, x2: int, p: nat)
    requires IsPrime(p) && Nonzero(Z, p) && Cong(X1, x1 * (Z * Z), p) && Cong(X2, x2 * (Z * Z), p)
    requires 0 <= x1 < p && 0 <= x2 < p && x1 != x2
    ensures Nonzero(X2 - X1, p)
  {
    DifferenceScales(X1, X2, x1, x2, Z * Z, p);
    NonzeroProduct(Z, Z, p);
    if x2 > x1 {
      NonzeroSmall(x2 - x1, p);
    } else {
      NonzeroSmall(x1 - x2, p);
      assert -(x1 - x2) == x2 - x1;
    }
    NonzeroProduct(x2 - x1, Z * Z, p);
    NonzeroCong(X2 - X1, (x2 - x1) * (Z * Z), p);
  }

  // Co-Z addition adds; the first point is carried over to the new Z.
  lemma CoZAdds(g: Group<Point>, b: int, p: nat, X1: int, Y1: int, X2: int, Y2: int, Z: int,
                X3: int, Y3: int, q: Point, r: Point)
    requires IsCurveGroup(g, b, p) && At(g, X1, Y1, Z, q, p) && At(g, X2, Y2, Z, r, p) && q.x != r.x
    requires AddsTo(X1, Y1, X2, Y2, X3, Y3, p)
    ensures At(g, X3, Y3, Z * (X2 - X1), g.add(q, r), p)
  {
    hide IsCurveGroup, AddsTo, Cong, Nonzero;
    Bounds(g, b, p, q);
    Bounds(g, b, p, r);
    AbscissasDiffer(X1, X2, Z, q.x, r.x, p);
    NonzeroProduct(Z, X2 - X1, p);
    var l := Chord(g, b, p, q, r);
    var s := g.add(q, r);
    AddMeans(X1, Y1, X2, Y2, Z, X3, Y3, l, q.x, q.y, r.x, r.y, s.x, s.y, p);
  }

  lemma CoZCarries(g: Group<Point>, b: int, p: nat, X1: int, Y1: int, X2: int, Y2: int, Z: int,
                   Xr: int, Yr: int, q: Point, r: Point)
    requires IsCurveGroup(g, b, p) && At(g, X1, Y1, Z, q, p) && At(g, X2, Y2, Z, r, p) && q.x != r.x
    requires ScalesTo(X1, Y1, X2 - X1, Xr, Yr, p)
    ensures At(g, Xr, Yr, Z * (X2 - X1), q, p)
  {
    hide IsCurveGroup, Cong, Nonzero;
    Bounds(g, b, p, q);
    Bounds(g, b, p, r);
    AbscissasDiffer(X1, X2, Z, q.x, r.x, p);
    NonzeroProduct(Z, X2 - X1, p);
    ScaleMeans(X1, Y1, Z, X2 - X1, Xr, Yr, q.x, q.y, p);
  }

  lemma OppositeAt(g: Group<Point>, b: int, p: nat, X: int, Y: int, Z: int, q: Point)
    requires IsCurveGroup(g, b, p) && At(g, X, Y, Z, q, p)
    ensures At(g, X, -Y, Z, g.neg(q), p) && g.neg(q).x == q.x
  {
    hide IsCurveGroup, Cong, Nonzero;
    Opposite(g, b, p, q);
    var V := Z * (Z * Z);
    var y := g.neg(q).y;
    CongRefl(0, p);
    CongSub(0, 0, Y, q.y * V, p);
    CongRefl(V, p);
    CongMul(y, -q.y, V, V, p);
    assert -q.y * V == -(q.y * V);
    CongSym(y * V, -(q.y * V), p);
    CongTrans(-Y, -(q.y * V), y * V, p);
  }

  // Conjugate co-Z addition subtracts as well.
  lemma CoZSubtracts(g: Group<Point>, b: int, p: nat, X1: int, Y1: int, X2: int, Y2: int, Z: int,
                     X3: int, Y3: int, q: Point, r: Point)
    requires IsCurveGroup(g, b, p) && At(g, X1, Y1, Z, q, p) && At(g, X2, Y2, Z, r, p) && q.x != r.x
    requires SubtractsTo(X1, Y1, X2, Y2, X3, Y3, p)
    ensures At(g, X3, Y3, Z * (X2 - X1), g.add(q, g.neg(r)), p)
  {
    hide IsCurveGroup, AddsTo, Cong, Nonzero, At;
    OppositeAt(g, b, p, X2, Y2, Z, r);
    CoZAdds(g, b, p, X1, Y1, X2, -Y2, Z, X3, Y3, q, g.neg(r));
  }

  // Doubling doubles.
  lemma JacobianDoubles(g: Group<Point>, b: int, p: nat, X: int, Y: int, Z: int, s: int,
                        X3: int, Y3: int, Z3: int, q: Point)
    requires IsCurveGroup(g, b, p) && At(g, X, Y, Z, q, p) && q.y != 0
    requires DoublesTo(X, Y, Z, s, X3, Y3, Z3, p)
    ensures At(g, X3, Y3, Z3, g.add(q, q), p)
  {
    hide IsCurveGroup, Cong, Nonzero;
    Bounds(g, b, p, q);
    NonzeroSmall(q.y, p);
    NonzeroProduct(Z, Z, p);
    NonzeroProduct(Z, Z * Z, p);
    NonzeroProduct(q.y, Z * (Z * Z), p);
    NonzeroCong(Y, q.y * (Z * (Z * Z)), p);
    NonzeroProduct(Y, Z, p);
    NonzeroCong(Z3, Y * Z, p);
    var l := Tangent(g, b, p, q);
    var t := g.add(q, q);
    DoubleMeans(X, Y, Z, s, X3, Y3, Z3, l, q.x, q.y, t.x, t.y, p);
  }

  // Two points of the group with one abscissa are equal or opposite.
  lemma SameAbscissa(g: Group<Point>, b: int, p: nat, q: Point, r: Point)
    requires IsCurveGroup(g, b, p) && g.has(q) && g.has(r) && q.Affine? && r.Affine? && q.x == r.x
    ensures q == r || q == g.neg(r)
  {
    hide IsCurveGroup, Cong;
    Bounds(g, b, p, q);
    Bounds(g, b, p, r);
    Opposite(g, b, p, r);
    Bounds(g, b, p, g.neg(r));
    var c := Cubic(q.x, Pow4(1), Pow6(1), b);
    CongSym(r.y * r.y, c, p);
    CongTrans(q.y * q.y, c, r.y * r.y, p);
    CongZero(q.y * q.y, r.y * r.y, p);
    assert (q.y - r.y) * (q.y + r.y) == q.y * q.y - r.y * r.y;
    ProductZero(q.y - r.y, q.y + r.y, p);
    if Cong(q.y - r.y, 0, p) {
      CongRefl(r.y, p);
      CongAdd(q.y - r.y, 0, r.y, r.y, p);
      CongUnique(q.y, r.y, p);
    } else {
      CongRefl(-r.y, p);
      CongAdd(q.y + r.y, 0, -r.y, -r.y, p);
      CongSym(g.neg(r).y, -r.y, p);
      CongTrans(q.y, -r.y, g.neg(r).y, p);
      CongUnique(q.y, g.neg(r).y, p);
    }
  }
}
