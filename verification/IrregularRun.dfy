/** A signature over P-256 that verification rejects because a turn of the double multiplication meets
    equal abscissas. */
module IrregularRun {
  import opened Bits
  import opened Vli
  import opened P256Field
  import opened Congruence
  import opened AffineMeaning
  import opened PrimeField
  import opened Groups
  import opened CurveGroup
  import opened ScalarMultiplication
  import opened DoubleMultiplication
  import opened Signatures
  import opened Ecdsa

  // 2 G and 4 G, with the slopes of the tangents that give them.
  const Slope2: nat := 0xA249_BCB3_1918_02D3_CB56_FC75_A873_1F84_8E7B_2CAF_080F_3477_A4E4_D904_A671_AF9D
  const X2: nat := 0x7CF2_7B18_8D03_4F7E_8A52_3803_04B5_1AC3_C089_69E2_77F2_1B35_A60B_48FC_4766_9978
  const Y2: nat := 0x0777_5510_DB8E_D040_293D_9AC6_9F74_30DB_BA7D_ADE6_3CE9_8229_9E04_B79D_2278_73D1
  const Slope4: nat := 0xC248_9A9E_EF61_DFA0_6D37_41FF_3B40_5300_988B_D0DB_42A9_3785_9069_B9CE_FB57_6E35
  const X4: nat := 0xE253_4A35_32D0_8FBB_A02D_DE65_9EE6_2BD0_031F_E2DB_7855_96EF_5093_0244_6B03_0852
  const Y4: nat := 0xE0F1_575A_4C63_3CC7_19DF_EE5F_DA86_2D76_4EFC_96C3_F30E_E005_5C42_C23F_184E_D8C6

  // Private key 2, nonce 4 and a hash of twice the abscissa of 4 G modulo the order.
  const WitnessHash: nat := 2 * X4 - ORDER

  // The tangent of slope l at (x, y) leads to (x2, y2).
  predicate TangentBy(l: int, x: int, y: int, x2: int, y2: int, m: nat)
    requires m > 0
  {
    && (2 * (l * y) - 3 * (x * x - 1)) % m == 0
    && (x2 - (l * l - 2 * x)) % m == 0 && (y2 - (l * (x - x2) - y)) % m == 0
    && 0 < y < m && 0 <= x2 < m && 0 <= y2 < m
  }

  lemma TangentsAre()
    ensures TangentBy(Slope2, GX, GY, X2, Y2, P) && TangentBy(Slope4, X2, Y2, X4, Y4, P)
  {
  }

  lemma FourTimesBase(g: Group<Point>)
    requires IsP256Group(g)
    ensures Times(g, 4, Affine(GX, GY)) == Affine(X4, Y4)
  {
    hide *;
    GroupParts(g);
    HasIt(g, Affine(GX, GY), ORDER);
    TangentsAre();
    DoubledTwice(g, B, Affine(GX, GY), Slope2, Affine(X2, Y2), Slope4, Affine(X4, Y4), P);
  }

  lemma DoubledTwice(g: Group<Point>, b: int, q: Point, l: int, r: Point, l': int, s: Point, m: nat)
    requires IsCurveGroup(g, b, m) && g.has(q) && q.Affine? && r.Affine? && s.Affine? && m > 0
    requires TangentBy(l, q.x, q.y, r.x, r.y, m) && TangentBy(l', r.x, r.y, s.x, s.y, m)
    ensures Times(g, 4, q) == s
  {
    hide IsCurveGroup, TangentBy, Times, IsAbelianGroup;
    IsGroup(g, b, m);
    TimesOne(g, q);
    TimesHas(g, 2, q);
    TimesSum(g, 2, 2, q);
    DoubleIs(g, b, q, l, r.x, r.y, m);
    DoubleIs(g, b, r, l', s.x, s.y, m);
  }

  // The tangent sum is the double, whoever computed it.
  lemma DoubleIs(g: Group<Point>, b: int, q: Point, l: int, x: int, y: int, m: nat)
    requires IsCurveGroup(g, b, m) && g.has(q) && q.Affine? && m > 0 && TangentBy(l, q.x, q.y, x, y, m)
    ensures g.add(q, q) == Affine(x, y)
  {
    hide IsCurveGroup, Cong, IsPrime;
    IsGroup(g, b, m);
    CongWhole(2 * (l * q.y), 3 * (q.x * q.x - 1), m);
    CongWhole(x, l * l - 2 * q.x, m);
    CongWhole(y, l * (q.x - x) - q.y, m);
    var k := Tangent(g, b, m, q);
    var s := g.add(q, q);
    Bounds(g, b, m, s);
    SlopeUnique(k, l, q.x, q.y, m);
    CongMul(k, l, k, l, m);
    SumUnique(k, l, k * k - 2 * q.x, l * l - 2 * q.x, q, s.x, s.y, x, y, m);
  }

  lemma CongWhole(a: int, b: int, m: nat)
    requires m > 0 && (a - b) % m == 0
    ensures Cong(a, b, m)
  {
    hide Cong;
    var k := (a - b) / m;
    assert a - b == m * k + (a - b) % m;
    Commute(m, k);
    CongBy(a, b, m, k);
  }

  lemma SlopeUnique(k: int, l: int, x: int, y: int, m: nat)
    requires IsPrime(m) && m % 2 == 1 && 0 < y < m
    requires Cong(2 * (k * y), 3 * (x * x - 1), m) && Cong(2 * (l * y), 3 * (x * x - 1), m)
    ensures Cong(k, l, m)
  {
    hide Cong, IsPrime, Nonzero;
    CongSym(2 * (l * y), 3 * (x * x - 1), m);
    CongTrans(2 * (k * y), 3 * (x * x - 1), 2 * (l * y), m);
    CancelTwo(k * y, l * y, m);
    NonzeroSmall(y, m);
    Commute(k, y);
    Commute(l, y);
    CancelFactor(y, k, l, m);
  }

  lemma SumUnique(k: int, l: int, u: int, v: int, q: Point, sx: int, sy: int, x: int, y: int, m: nat)
    requires q.Affine? && Cong(k, l, m) && u == k * k - 2 * q.x && v == l * l - 2 * q.x && Cong(k * k, l * l, m)
    requires Cong(sx, u, m) && Cong(sy, k * (q.x - sx) - q.y, m) && Cong(x, v, m) && Cong(y, l * (q.x - x) - q.y, m)
    requires 0 <= sx < m && 0 <= sy < m && 0 <= x < m && 0 <= y < m
    ensures sx == x && sy == y
  {
    hide Cong;
    CongRefl(2 * q.x, m);
    CongSub(k * k, l * l, 2 * q.x, 2 * q.x, m);
    CongTrans(sx, u, v, m);
    CongSym(x, v, m);
    CongTrans(sx, v, x, m);
    CongUnique(sx, x, m);
    CongRefl(q.x - x, m);
    CongMul(k, l, q.x - x, q.x - x, m);
    CongRefl(q.y, m);
    CongSub(k * (q.x - x), l * (q.x - x), q.y, q.y, m);
    CongTrans(sy, k * (q.x - x) - q.y, l * (q.x - x) - q.y, m);
    CongSym(y, l * (q.x - x) - q.y, m);
    CongTrans(sy, l * (q.x - x) - q.y, y, m);
    CongUnique(sy, y, m);
  }

  // With private key 2 and nonce 4 the hash above is signed by a pair that is a signature and ought to be accepted,
  // but its run is not regular: the first doubling of verification gives 2 G, and the entry to add is Q = 2 G.
  lemma RegularityFails(g: Group<Point>)
    requires IsP256Group(g)
    ensures SignedWith(P256(g), 2, WitnessHash, 4, X4, X4) && IsSignature(P256(g), 2, WitnessHash, 4, X4, X4)
    ensures Accepts(P256(g), Times(g, 2, P256(g).base), WitnessHash, X4, X4)
    ensures !RegularRun(P256(g), Times(g, 2, P256(g).base), WitnessHash, X4, X4)
  {
    hide *;
    GroupParts(g);
    FourTimesBase(g);
    var D := P256(g);
    WitnessParts();
    WitnessSigned(D, WitnessHash, X4, Y4);
    SignedOverP256(g, 2, WitnessHash, 4, X4, X4);
    SignedIsSignature(g, 2, WitnessHash, 4, X4, X4);
    var w := SomeInverse(X4, D.n);
    WitnessFactors(w, X4, WitnessHash, D.n);
    RegularRunByScalars(g, 2, WitnessHash, X4, X4);
    TurnMeetsEntry(D.n);
    RunOfInverse(D.n, 2, WitnessHash, X4, X4, w);
  }

  lemma WitnessParts()
    ensures 0 < X4 < ORDER && WitnessHash == 2 * X4 - ORDER >= 0
  {
  }

  lemma WitnessSigned(D: Domain, e: nat, r: nat, y: int)
    requires 0 < r < D.n && e == 2 * r - D.n && Times(D.g, 4, D.base) == Affine(r, y)
    requires D.n > 5 && D.base.Affine? && D.base.x != 0
    ensures SignedWith(D, 2, e, 4, r, r)
  {
    hide Times, Cong;
    DivUnique(r, D.n, 0, r);
    CongBy(r * 4, e + r * 2, D.n, 1);
  }

  lemma WitnessFactors(w: nat, r: nat, e: nat, n: nat)
    requires IsInverse(w, r, n) && n > 2 && e == 2 * r - n
    ensures Factor(e, w, n) == 2 && Factor(r, w, n) == 1
  {
    hide Cong;
    InverseBound(w, r, n);
    Commute(w, r);
    CongResidue(r * w, 1, n);
    DivUnique(1, n, 0, 1);
    CongRefl(2, n);
    CongMul(2, 2, r * w, 1, n);
    Distribute(2 * r, n, w);
    Regroup(2, r, w);
    Commute(n, w);
    var turns: int := w;
    CongBy(e * w, 2 * (r * w), n, -turns);
    CongTrans(e * w, 2 * (r * w), 2, n);
    CongResidue(e * w, 2, n);
    DivUnique(2, n, 0, 2);
  }

  // 2 G + Q for Q = 2 G: after the first doubling the sum is the entry.
  lemma TurnMeetsEntry(n: nat)
    requires n > 0
    ensures !RunByScalars(2, 1, 2, n)
  {
    hide Bit, High, Positions, PositionByScalars;
    WitnessBits();
    AtSum(n);
    assert !PositionByScalars(2, 1, 2, n, 0);
  }

  lemma WitnessBits()
    ensures Bit(2, 0) == 0 && Bit(1, 0) == 1 && High(2, 1) == 1 && High(1, 1) == 0 && Positions(2, 1) == 2
  {
    assert Pow2(0) == 1 && Pow2(1) == 2;
    assert BitLength(1) == 1 && BitLength(2) == 2;
  }

  lemma AtSum(n: nat)
    requires n > 0
    ensures !PositionByScalars(2, 1, 2, n, 0)
  {
    WitnessBits();
    assert !TurnByScalars(1, 2, true, n);
  }

  lemma RunOfInverse(n: nat, d: nat, e: nat, r: nat, s: nat, w: nat)
    requires n > 0 && IsInverse(w, s, n)
    ensures RunOfScalars(n, d, e, r, s) ==> RunByScalars(Factor(e, w, n), Factor(r, w, n), d, n)
  {
    hide RunByScalars, IsInverse, Factor;
  }
}
