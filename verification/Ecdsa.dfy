/** ECDSA over P-256: the scalar arithmetic of signing and verification on limb buffers, the point
    arithmetic relative to the group law of the curve. */
module Ecdsa {
  import opened Bits
  import opened Vli
  import opened P256Field
  import opened ModularProduct
  import opened ModularInverse
  import opened Congruence
  import opened PrimeField
  import opened Groups
  import opened CurveGroup
  import opened ScalarMultiplication
  import opened DoubleMultiplication
  import opened Signatures

  // The order of the base point, the coefficient b and the base point of the curve.
  const ORDER: nat := 0xFFFF_FFFF_0000_0000_FFFF_FFFF_FFFF_FFFF_BCE6_FAAD_A717_9E84_F3B9_CAC2_FC63_2551
  const B: nat := 0x5AC6_35D8_AA3A_93E7_B3EB_BD55_7698_86BC_651D_06B0_CC53_B0F6_3BCE_3C3E_27D2_604B
  const GX: nat := 0x6B17_D1F2_E12C_4247_F8BC_E6E5_63A4_40F2_7703_7D81_2DEB_33A0_F4A1_3945_D898_C296
  const GY: nat := 0x4FE3_42E2_FE1A_7F9B_8EE7_EB4A_7C0F_9E16_2BCE_3357_6B31_5ECE_CBB6_4068_37BF_51F5

  method CurveN() returns (a: array<Limb>)
    ensures fresh(a) && a.Length == 4 && N(a) == ORDER
  {
    a := new Limb[4];
    Load(a, 0xF3B9_CAC2_FC63_2551, 0xBCE6_FAAD_A717_9E84, 0xFFFF_FFFF_FFFF_FFFF, 0xFFFF_FFFF_0000_0000);
  }

  method BasePoint() returns (x: array<Limb>, y: array<Limb>)
    ensures fresh(x) && fresh(y) && x != y && x.Length == y.Length == 4 && N(x) == GX && N(y) == GY
  {
    x, y := new Limb[4], new Limb[4];
    Load(x, 0xF4A1_3945_D898_C296, 0x7703_7D81_2DEB_33A0, 0xF8BC_E6E5_63A4_40F2, 0x6B17_D1F2_E12C_4247);
    Load(y, 0xCBB6_4068_37BF_51F5, 0x2BCE_3357_6B31_5ECE, 0x8EE7_EB4A_7C0F_9E16, 0x4FE3_42E2_FE1A_7F9B);
  }

  // The base point satisfies the curve equation.
  lemma BasePointOnCurve()
    ensures (GY * GY - (GX * GX * GX - 3 * GX + B)) % P == 0
  {
  }

  // The order lies where a theorem of Hasse puts the number of points.
  lemma OrderNearPrime()
    ensures (P + 1 - ORDER) * (P + 1 - ORDER) <= 4 * P
  {
  }

  // The domain parameters over a group of points.
  ghost function P256(g: Group<Point>): (D: Domain)
    ensures D.n > 0
  {
    Domain(g, Affine(GX, GY), ORDER)
  }

  // The hypothesis about the group: the base point has the prime order ORDER.
  ghost predicate IsP256Group(g: Group<Point>) {
    IsCurveGroup(g, B, P) && HasOrder(g, Affine(GX, GY), ORDER) && IsPrime(ORDER)
  }

  lemma GroupParts(g: Group<Point>)
    requires IsP256Group(g)
    ensures IsCurveGroup(g, B, P) && HasOrder(g, Affine(GX, GY), ORDER) && IsPrime(ORDER)
    ensures ORDER % 2 == 1 && GX != 0 && ORDER > 5 && R <= 2 * ORDER
    ensures P256(g) == Domain(g, Affine(GX, GY), ORDER)
  {
    hide IsCurveGroup, HasOrder, IsPrime;
  }

  lemma DomainOf(g: Group<Point>)
    requires IsP256Group(g)
    ensures IsDomain(P256(g))
  {
    hide IsCurveGroup, HasOrder, IsPrime, IsAbelianGroup;
    IsGroup(g, B, P);
  }

  /* ---- signing ---- */

  // One subtraction of n at most.
  function Reduced(v: nat, n: nat): nat {
    if v >= n then v - n else v
  }

  // x mod ORDER for x below the field prime.
  lemma AbscissaReduced(x: nat)
    requires x < P
    ensures Reduced(x, ORDER) == x % ORDER
  {
    if x >= ORDER {
      DivUnique(x, ORDER, 1, x - ORDER);
    } else {
      DivUnique(x, ORDER, 0, x);
    }
  }

  // a := a - n if a >= n
  method ReduceOnce(a: array<Limb>, n: array<Limb>)
    requires a.Length == n.Length == 4 && a != n
    modifies a
    ensures N(a) == Reduced(old(N(a)), N(n))
  {
    hide N;
    NRange(a);
    var sign := CmpN(n, a);
    if sign != 1 {
      var borrow := SubN(a, a, n);
    }
  }

  // r := 1 / a modulo the prime n; zero stays zero.
  method InvertScalar(r: array<Limb>, a: array<Limb>, n: array<Limb>)
    requires r.Length == a.Length == n.Length == 4 && r != n && N(n) % 2 == 1 && N(a) < N(n) && IsPrime(N(n))
    modifies r
    ensures N(r) < N(n)
    ensures old(N(a)) != 0 ==> IsInverse(N(r), old(N(a)), N(n))
    ensures old(N(a)) == 0 ==> N(r) == 0
  {
    hide N, IsPrime, IsGcd, Cong;
    ghost var w, m := N(a), N(n);
    PrimeAboveOne(m);
    ghost var d := ModInv(r, a, n);
    if w != 0 {
      GcdIsOne(d, w, m);
    }
  }

  lemma PrimeAboveOne(m: nat)
    requires IsPrime(m)
    ensures m > 1
  {
  }

  // The point whose abscissa a nonce contributes.
  ghost function NoncePoint(D: Domain, k: nat): Point {
    LadderResult(D.g, k, D.base, D.n)
  }

  // r for a reduced nonce.
  ghost function NonceAbscissa(D: Domain, k: nat): nat
    requires D.n > 0
  {
    if NoncePoint(D, k).Affine? then Residue(NoncePoint(D, k).x, D.n) else 0
  }

  ghost function Residue(x: int, n: nat): nat
    requires n > 0
  {
    x % n
  }

  // What signing makes of a reduced nonce k that gives r: a zero k yields s = 0.
  ghost predicate SignedWith(D: Domain, d: nat, e: nat, k: nat, r: nat, s: nat)
    requires D.n > 0
  {
    && r == NonceAbscissa(D, k) && 0 < r < D.n && s < D.n
    && (k == 0 ==> s == 0) && (k != 0 ==> Cong(s * k, e + r * d, D.n))
  }

  // What one turn of the drawing loop leaves in the abscissa buffer: a zero draw leaves it as it is.
  ghost function AfterDraw(D: Domain, nonce: nat, before: nat): nat
    requires D.n > 0
  {
    if nonce == 0 then before else NonceAbscissa(D, Reduced(nonce, D.n))
  }

  // The abscissa buffer after t turns; it starts with what the memory held before.
  ghost function AfterDraws(D: Domain, stale: nat, draws: seq<nat>, t: nat): nat
    requires D.n > 0 && t <= |draws|
  {
    if t == 0 then stale else AfterDraw(D, draws[t - 1], AfterDraws(D, stale, draws, t - 1))
  }

  const MaxTries: nat := 16

  // The loop ends with turn t: the first after which the abscissa buffer is not zero.
  ghost predicate EndsAfter(D: Domain, stale: nat, draws: seq<nat>, t: nat)
    requires D.n > 0
  {
    && 0 < t <= |draws| && t <= MaxTries && AfterDraws(D, stale, draws, t) != 0
    && forall i: nat :: 0 < i < t ==> AfterDraws(D, stale, draws, i) == 0
  }

  // What is returned when the last draw is the given nonce. A zero nonce ends the loop only with stale memory, which
  // is then passed off as r, with s = 0.
  ghost predicate Returned(D: Domain, d: nat, e: nat, stale: nat, nonce: nat, r: nat, s: nat)
    requires D.n > 0
  {
    if nonce == 0 then r == stale && r != 0 && s == 0 else SignedWith(D, d, e, Reduced(nonce, D.n), r, s)
  }

  // A drawn nonce, least significant limb first.
  type Draw = w: seq<Limb> | |w| == 4 witness [0, 0, 0, 0]

  ghost function Numbers(draws: seq<Draw>): (s: seq<nat>)
    ensures |s| == |draws|
  {
    seq(|draws|, i requires 0 <= i < |draws| => Number(draws[i]))
  }

  ghost function Number(w: Draw): nat {
    Join(w)
  }

  lemma NumberBelow(w: Draw)
    ensures Number(w) < R
  {
  }

  // Signs with the first usable nonce among the draws. On entry r holds whatever its memory held.
  method Sign(draws: seq<Draw>, secret: array<Limb>, hash: array<Limb>, r: array<Limb>, s: array<Limb>,
              ghost g: Group<Point>) returns (ok: bool, tries: nat)
    requires secret.Length == hash.Length == r.Length == s.Length == 4
    requires r != s && {r, s} !! {secret, hash}
    requires IsP256Group(g)
    modifies r, s
    ensures ok ==> EndsAfter(P256(g), old(N(r)), Numbers(draws), tries)
    ensures ok ==> Returned(P256(g), N(secret), N(hash), old(N(r)), Numbers(draws)[tries - 1], N(r), N(s))
    ensures !ok ==> forall t: nat :: !EndsAfter(P256(g), old(N(r)), Numbers(draws), t)
  {
    hide *;
    ghost var D, stale, d, e, numbers := P256(g), N(r), N(secret), N(hash), Numbers(draws);
    GroupParts(g);
    var n := CurveN();
    var nonce := new Limb[4];
    tries := 0;
    AtStart(D, stale, numbers);
    var zero := true;
    while zero
      invariant (zero || 0 < tries) && tries <= |draws| && tries <= MaxTries && N(n) == ORDER
      invariant N(secret) == d && N(hash) == e
      invariant N(r) == AfterDraws(D, stale, numbers, tries)
      invariant zero ==> forall i: nat :: 0 < i <= tries ==> AfterDraws(D, stale, numbers, i) == 0
      invariant !zero ==> EndsAfter(D, stale, numbers, tries)
      invariant !zero ==> N(nonce) == Reduced(numbers[tries - 1], ORDER) < ORDER
      decreases |draws| - tries, zero
    {
      if tries >= |draws| || tries >= MaxTries {
        NeverEnds(D, stale, numbers, tries);
        ok := false;
        return;
      }
      LoadTerm(nonce, draws[tries]);
      NumberAt(draws, tries);
      ghost var before := N(r);
      NonceTurn(nonce, r, n, g);
      AfterOneMore(D, stale, numbers, tries, N(r));
      tries := tries + 1;
      zero := IsZeroN(r);
    }
    ok := true;
    ghost var last := numbers[tries - 1];
    EndedWith(D, stale, numbers, tries);
    SignScalar(nonce, secret, hash, r, s, n);
    SignatureMade(D, d, e, stale, last, N(r), N(s));
  }

  lemma AtStart(D: Domain, stale: nat, draws: seq<nat>)
    requires D.n > 0
    ensures AfterDraws(D, stale, draws, 0) == stale
  {
  }

  lemma NumberAt(draws: seq<Draw>, t: nat)
    requires t < |draws|
    ensures Join(draws[t]) == Number(draws[t]) == Numbers(draws)[t]
  {
    hide Join;
  }

  lemma NeverEnds(D: Domain, stale: nat, draws: seq<nat>, t: nat)
    requires D.n > 0 && t <= |draws| && (t == |draws| || t == MaxTries)
    requires forall i: nat :: 0 < i <= t ==> AfterDraws(D, stale, draws, i) == 0
    ensures forall i: nat :: !EndsAfter(D, stale, draws, i)
  {
    hide AfterDraws;
  }

  lemma AfterOneMore(D: Domain, stale: nat, draws: seq<nat>, t: nat, x: nat)
    requires D.n > 0 && t < |draws| && t < MaxTries
    requires forall i: nat :: 0 < i <= t ==> AfterDraws(D, stale, draws, i) == 0
    requires x == AfterDraw(D, draws[t], AfterDraws(D, stale, draws, t))
    ensures x == AfterDraws(D, stale, draws, t + 1)
    ensures x != 0 ==> EndsAfter(D, stale, draws, t + 1)
    ensures x == 0 ==> forall i: nat :: 0 < i <= t + 1 ==> AfterDraws(D, stale, draws, i) == 0
  {
    hide AfterDraw;
  }

  lemma EndedWith(D: Domain, stale: nat, draws: seq<nat>, t: nat)
    requires D.n > 0 && EndsAfter(D, stale, draws, t)
    ensures AfterDraws(D, stale, draws, t) != 0
    ensures if draws[t - 1] == 0 then t == 1 && AfterDraws(D, stale, draws, t) == stale
            else AfterDraws(D, stale, draws, t) == NonceAbscissa(D, Reduced(draws[t - 1], D.n))
  {
    hide NonceAbscissa;
    AtStart(D, stale, draws);
    assert AfterDraws(D, stale, draws, t) == AfterDraw(D, draws[t - 1], AfterDraws(D, stale, draws, t - 1));
  }

  // A zero nonce ends the loop in exactly one case: it is the first one drawn, and the memory of the abscissa was
  // not zero. Otherwise another nonce is drawn.
  lemma ZeroNonceSigned(D: Domain, stale: nat, draws: seq<nat>)
    requires D.n > 0
    ensures (exists t: nat :: EndsAfter(D, stale, draws, t) && draws[t - 1] == 0) <==>
      |draws| > 0 && draws[0] == 0 && stale != 0
  {
    if t: nat :| EndsAfter(D, stale, draws, t) && draws[t - 1] == 0 {
      EndedWith(D, stale, draws, t);
    }
    if |draws| > 0 && draws[0] == 0 && stale != 0 {
      AtStart(D, stale, draws);
      assert EndsAfter(D, stale, draws, 1) && draws[1 - 1] == 0;
    }
  }

  // Up to sixteen nonces are drawn, and the sixteenth is still used.
  lemma SixteenTries(D: Domain, stale: nat, draws: seq<nat>, t: nat)
    requires D.n > 0 && |draws| >= 16
    requires 0 < t <= |draws| && AfterDraws(D, stale, draws, t) != 0
    requires forall i: nat :: 0 < i < t ==> AfterDraws(D, stale, draws, i) == 0
    ensures EndsAfter(D, stale, draws, t) <==> t <= 16
  {
    hide AfterDraws;
  }

  // Such an input: the memory holds 1 and the first draw is 0. The pair (1, 0) is returned, which no key verifies.
  lemma StaleSigned(D: Domain, Q: Point, d: nat, e: nat, r: nat, s: nat)
    requires D.n > 0 && Returned(D, d, e, 1, 0, r, s)
    ensures EndsAfter(D, 1, [0], 1) && r == 1 && s == 0 && !Accepts(D, Q, e, r, s)
  {
    ZeroNonceSigned(D, 1, [0]);
    AtStart(D, 1, [0]);
    OutOfRange(D, Q, e, r, s);
  }

  // One turn with a drawn nonce: it is reduced, and the abscissa buffer takes x(nonce G) unless the nonce is zero.
  method NonceTurn(nonce: array<Limb>, x: array<Limb>, n: array<Limb>, ghost g: Group<Point>)
    requires nonce.Length == x.Length == n.Length == 4 && nonce != x && nonce != n && x != n
    requires N(n) == ORDER && IsP256Group(g)
    modifies nonce, x
    ensures N(x) == AfterDraw(P256(g), old(N(nonce)), old(N(x)))
    ensures N(nonce) == Reduced(old(N(nonce)), ORDER) < ORDER
  {
    hide *;
    ghost var k, before := N(nonce), N(x);
    GroupParts(g);
    AfterDrawIs(P256(g), k, before);
    NRange(nonce);
    ReducedBound(k);
    var zero := IsZeroN(nonce);
    if zero {
      return;
    }
    ReduceOnce(nonce, n);
    AbscissaOf(nonce, x, n, g);
  }

  lemma AfterDrawIs(D: Domain, nonce: nat, before: nat)
    requires D.n > 0
    ensures nonce == 0 ==> Reduced(nonce, D.n) == 0
    ensures AfterDraw(D, nonce, before) == if nonce == 0 then before else NonceAbscissa(D, Reduced(nonce, D.n))
  {
    hide NonceAbscissa;
  }

  lemma ReducedBound(v: nat)
    requires v < R
    ensures Reduced(v, ORDER) < ORDER
  {
  }

  // What is signed with a nonce is a signature in the sense of the standard unless the reduced nonce is 0 or 1.
  lemma SignedIsSignature(g: Group<Point>, d: nat, e: nat, k: nat, r: nat, s: nat)
    requires IsP256Group(g) && k < P256(g).n && SignedWith(P256(g), d, e, k, r, s)
    ensures IsSignature(P256(g), d, e, k, r, s) <==> k >= 2
  {
    hide *;
    GroupParts(g);
    SignedParts(P256(g), d, e, k, r, s);
    if k == 1 {
      NonceOne(g);
    }
    if k == 0 {
      ZeroTimes(g, Affine(GX, GY));
      IsGroup(g, B, P);
    }
    SignatureParts(P256(g), d, e, k, r, s);
  }

  // The nonce point is the multiple for every nonce of the range the ladder handles.
  lemma SignedParts(D: Domain, d: nat, e: nat, k: nat, r: nat, s: nat)
    requires D.n > 0 && k < D.n && SignedWith(D, d, e, k, r, s)
    ensures 0 < r < D.n && s < D.n && (k == 0 ==> s == 0) && (k != 0 ==> Cong(s * k, e + r * d, D.n))
    ensures NoncePoint(D, k).Affine? && r == Residue(NoncePoint(D, k).x, D.n)
    ensures k >= 2 ==> NoncePoint(D, k) == Times(D.g, k, D.base)
    ensures k == 1 ==> NoncePoint(D, k) == Times(D.g, 3, D.base)
  {
    hide Cong, Times;
    assert Residue(0, D.n) == 0;
  }

  lemma SignatureParts(D: Domain, d: nat, e: nat, k: nat, r: nat, s: nat)
    requires D.n > 0
    ensures IsSignature(D, d, e, k, r, s) <==>
      && Times(D.g, k, D.base).Affine? && r == Residue(Times(D.g, k, D.base).x, D.n) && 0 < r < D.n && s < D.n
      && Cong(s * k, e + r * d, D.n)
  {
    hide Cong, Times;
  }

  // The nonce 1 contributes the abscissa of 3 G, which is not that of G modulo the order either.
  lemma NonceOne(g: Group<Point>)
    requires IsP256Group(g)
    ensures Times(g, 1, Affine(GX, GY)) == Affine(GX, GY) && Times(g, 3, Affine(GX, GY)).Affine?
    ensures Residue(Times(g, 3, Affine(GX, GY)).x, P256(g).n) != Residue(GX, P256(g).n)
  {
    hide *;
    GroupParts(g);
    var G := Affine(GX, GY);
    IsGroup(g, B, P);
    HasIt(g, G, ORDER);
    TimesOne(g, G);
    TimesHas(g, 3, G);
    Distinct(g, G, ORDER, 1, 3);
    OrderIs(g, G, ORDER, 3);
    var T := Times(g, 3, G);
    if T.x == GX {
      SameAbscissa(g, B, P, G, T);
    }
    Bounds(g, B, P, T);
    BaseAbscissa();
    OtherAbscissa(GX, T.x, ORDER, P);
  }

  lemma OrderIs(g: Group<Point>, p: Point, n: nat, k: nat)
    requires HasOrder(g, p, n) && 0 < k < n
    ensures Times(g, k, p) != g.zero
  {
    hide Times;
  }

  lemma BaseAbscissa()
    ensures 0 <= GX < ORDER && GX + ORDER >= P
  {
  }

  // An abscissa that stays out of the field when the order is added has no other abscissa congruent to it.
  lemma OtherAbscissa(x: int, y: int, n: nat, p: nat)
    requires 0 <= x < n && 0 <= y < p <= x + n && x != y
    ensures Residue(x, n) != Residue(y, n)
  {
    DivUnique(x, n, 0, x);
    if y < n {
      DivUnique(y, n, 0, y);
    } else {
      DivUnique(y, n, 1, y - n);
    }
  }

  // r := x(k G) modulo the order.
  method AbscissaOf(k: array<Limb>, r: array<Limb>, n: array<Limb>, ghost g: Group<Point>)
    requires k.Length == r.Length == n.Length == 4 && r != k && r != n && N(n) == ORDER
    requires N(k) < ORDER && IsP256Group(g)
    modifies r
    ensures N(r) == NonceAbscissa(P256(g), N(k))
  {
    hide *;
    GroupParts(g);
    var gx, gy := BasePoint();
    var y := new Limb[4];
    EccMult(r, y, gx, gy, k, null, g, B, ORDER);
    NoncePointBound(g, N(k), N(r), N(y));
    AbscissaReduced(N(r));
    NonceAbscissaIs(P256(g), N(k), N(r), N(y));
    ReduceOnce(r, n);
  }

  lemma NonceAbscissaIs(D: Domain, k: nat, x: int, y: int)
    requires D.n > 0 && NoncePoint(D, k) == Affine(x, y)
    ensures NonceAbscissa(D, k) == x % D.n
  {
    hide NoncePoint;
  }

  lemma NoncePointBound(g: Group<Point>, k: nat, x: int, y: int)
    requires IsP256Group(g) && k < ORDER && Affine(x, y) == LadderResult(g, k, Affine(GX, GY), ORDER)
    ensures NoncePoint(P256(g), k) == Affine(x, y) && 0 <= x < P
  {
    hide IsP256Group, Times;
    GroupParts(g);
    IsGroup(g, B, P);
    HasIt(g, Affine(GX, GY), ORDER);
    TimesHas(g, k, Affine(GX, GY));
    TimesHas(g, k + 2, Affine(GX, GY));
    if k <= ORDER - 2 {
      Bounds(g, B, P, Affine(x, y));
    }
  }

  lemma SignatureMade(D: Domain, d: nat, e: nat, stale: nat, nonce: nat, r: nat, s: nat)
    requires D.n > 0 && r != 0 && s < D.n
    requires if nonce == 0 then r == stale else r == NonceAbscissa(D, Reduced(nonce, D.n))
    requires var k := Reduced(nonce, D.n); (k == 0 ==> s == 0) && (k != 0 ==> Cong(s * k, e + r * d, D.n))
    ensures Returned(D, d, e, stale, nonce, r, s)
  {
    hide NoncePoint, Cong;
  }

  // s := (hash + r d) / k modulo the prime n, destroying k.
  method SignScalar(k: array<Limb>, d: array<Limb>, hash: array<Limb>, r: array<Limb>, s: array<Limb>, n: array<Limb>)
    requires k.Length == d.Length == hash.Length == r.Length == s.Length == n.Length == 4
    requires s != k && s != d && s != hash && s != r && s != n && k != n && k != r && k != hash && k != d
    requires N(n) % 2 == 1 && R <= 2 * N(n) && N(k) < N(n) && IsPrime(N(n))
    modifies k, s
    ensures N(s) < N(n)
    ensures old(N(k)) != 0 ==> Cong(N(s) * old(N(k)), N(hash) + N(r) * N(d), N(n))
    ensures old(N(k)) == 0 ==> N(s) == 0
  {
    hide *;
    ghost var k0, dv, e, rv, m := N(k), N(d), N(hash), N(r), N(n);
    PrimeAboveOne(m);
    NRange(r);
    NRange(d);
    RoomLong(rv, dv, m);
    ModMult(s, r, d, n);
    ghost var a := N(s);
    assert N(n) == m && N(hash) == e;
    ModAdd(s, hash, s, n);
    ghost var t := N(s);
    assert N(n) == m && N(k) == k0;
    InvertScalar(k, k, n);
    ghost var w := N(k);
    assert N(s) == t && N(n) == m;
    NRange(s);
    NRange(k);
    RoomReduced(t, w, m);
    ModMult(s, s, k, n);
    if k0 == 0 {
      NothingLeft(t, m);
    } else {
      ScalarSteps(k0, dv, e, rv, a, t, w, N(s), m);
    }
  }

  lemma NothingLeft(t: int, m: nat)
    requires m > 0
    ensures t * 0 % m == 0
  {
  }

  lemma ScalarSteps(k: nat, d: nat, e: nat, r: nat, a: nat, t: int, w: nat, s: nat, n: nat)
    requires n > 0 && a == r * d % n && t == Once(e + a, n) && IsInverse(w, k, n) && s == t * w % n
    ensures Cong(s * k, e + r * d, n)
  {
    hide Cong;
    InverseBound(w, k, n);
    CongMod(r * d, n);
    CongRefl(e, n);
    CongAdd(e, e, a, r * d, n);
    CongBy(t, e + a, n, if e + a >= n then -1 else 0);
    CongTrans(t, e + a, e + r * d, n);
    // s k = t w k = t
    CongMod(t * w, n);
    CongRefl(k, n);
    CongMul(s, t * w, k, k, n);
    CongRefl(t, n);
    CongMul(t, t, w * k, 1, n);
    Regroup(t, w, k);
    CongTrans(s * k, t * w * k, t * 1, n);
    CongTrans(s * k, t, e + r * d, n);
  }

  /* ---- verification ---- */

  // Accepts or rejects a signature (r, s) of a hash under the public key (qx, qy): it accepts exactly what it is
  // meant to accept, unless a turn of the combination meets equal abscissas, which makes it reject.
  method Verify(qx: array<Limb>, qy: array<Limb>, hash: array<Limb>, r: array<Limb>, s: array<Limb>,
                ghost g: Group<Point>) returns (accept: bool)
    requires qx.Length == qy.Length == hash.Length == r.Length == s.Length == 4
    requires g.has(Affine(N(qx), N(qy)))
    requires N(qx) != GX || SumUnused(P256(g).n, N(hash), N(r), N(s))
    requires IsP256Group(g)
    ensures var D, Q := P256(g), Affine(N(qx), N(qy));
            accept <==> Accepts(D, Q, N(hash), N(r), N(s)) && RegularRun(D, Q, N(hash), N(r), N(s))
  {
    hide *;
    ghost var Q, e, rv, sv := Affine(N(qx), N(qy)), N(hash), N(r), N(s);
    ghost var D := P256(g);
    GroupParts(g);
    var zeroR := IsZeroN(r);
    var zeroS := IsZeroN(s);
    var n := CurveN();
    var signR := CmpN(n, r);
    var signS := CmpN(n, s);
    RangeIs(D.n, rv, sv);
    if zeroR || zeroS || signR != 1 || signS != 1 {
      OutOfRange(D, Q, e, rv, sv);
      return false;
    }
    var z := new Limb[4];
    InvertScalar(z, s, n);
    ghost var w := N(z);
    InverseBound(w, sv, D.n);
    var u1, u2 := ComputeFactors(hash, r, z, n);
    FactorNonzero(rv, sv, w, D.n);
    UnusedWith(D.n, e, rv, sv, w);
    RegularWith(D, Q, e, rv, sv, w);
    var x := CombinedAbscissa(qx, qy, u1, u2, n, g, e, rv, w);
    var sign := CmpN(x, r);
    accept := sign == 0;
    AcceptsOnly(D, Q, e, rv, sv, w);
  }

  lemma RangeIs(n: nat, r: nat, s: nat)
    ensures InRange(n, r, s) <==> r != 0 && s != 0 && n > r && n > s
  {
  }

  lemma OutOfRange(D: Domain, Q: Point, e: nat, r: nat, s: nat)
    requires D.n > 0 && !InRange(D.n, r, s)
    ensures !Accepts(D, Q, e, r, s)
  {
  }

  // u1 := hash / s and u2 := r / s
  method ComputeFactors(hash: array<Limb>, r: array<Limb>, z: array<Limb>, n: array<Limb>)
    returns (u1: array<Limb>, u2: array<Limb>)
    requires hash.Length == r.Length == z.Length == n.Length == 4 && N(z) < N(n)
    ensures fresh(u1) && fresh(u2) && u1 != u2 && u1.Length == u2.Length == 4 && N(n) > 0
    ensures N(u1) == Factor(N(hash), N(z), N(n)) && N(u2) == Factor(N(r), N(z), N(n))
  {
    hide N;
    NRange(z);
    u1, u2 := new Limb[4], new Limb[4];
    NRange(hash);
    NRange(r);
    RoomReduced(N(hash), N(z), N(n));
    RoomReduced(N(r), N(z), N(n));
    ModMult(u1, hash, z, n);
    ModMult(u2, r, z, n);
  }

  // The abscissa of u1 G + u2 Q modulo the order, or zero.
  method CombinedAbscissa(qx: array<Limb>, qy: array<Limb>, u1: array<Limb>, u2: array<Limb>, n: array<Limb>,
                          ghost g: Group<Point>, ghost e: nat, ghost r: nat, ghost w: nat) returns (x: array<Limb>)
    requires qx.Length == qy.Length == u1.Length == u2.Length == n.Length == 4 && N(n) == P256(g).n
    requires N(u1) == Factor(e, w, P256(g).n) && N(u2) == Factor(r, w, P256(g).n) && N(u2) > 0
    requires g.has(Affine(N(qx), N(qy))) && (N(qx) != GX || !SumUsed(N(u1), N(u2)))
    requires IsP256Group(g)
    ensures x.Length == 4
    ensures var D, Q := P256(g), Affine(N(qx), N(qy)); var R := Combination(D, Q, e, r, w);
            if Regular(g, D.base, Q, Factor(e, w, D.n), Factor(r, w, D.n)) then R.Affine? && N(x) == R.x % D.n
            else N(x) == 0
  {
    hide *;
    GroupParts(g);
    HasIt(g, Affine(GX, GY), ORDER);
    ghost var D, Q := P256(g), Affine(N(qx), N(qy));
    var gx, gy := BasePoint();
    x := new Limb[4];
    var y := new Limb[4];
    ShamirSum(x, y, u1, u2, gx, gy, qx, qy, g, B, Affine(GX, GY), Q);
    ghost var R := Affine(N(x), N(y));
    if Regular(g, D.base, Q, Factor(e, w, D.n), Factor(r, w, D.n)) {
      CombinationIs(D, Q, e, r, w, R);
    }
    AbscissaReduced(N(x));
    ZeroStays(D.n);
    ReduceOnce(x, n);
  }

  lemma ZeroStays(n: nat)
    requires n > 0
    ensures Reduced(0, n) == 0 && 0 % n == 0
  {
  }

  lemma CombinationIs(D: Domain, Q: Point, e: nat, r: nat, w: nat, R: Point)
    requires D.n > 0 && R == D.g.add(Times(D.g, Factor(e, w, D.n), D.base), Times(D.g, Factor(r, w, D.n), Q))
    ensures R == Combination(D, Q, e, r, w)
  {
  }

  /* ---- signing and verifying ---- */

  lemma ResidueIs(x: int, n: nat)
    requires n > 0
    ensures Residue(x, n) == x % n
  {
  }

  // What is signed with a reduced nonce k is meant to be accepted under the matching key exactly when s is not zero
  // and the nonce is not 1.
  lemma SignedOverP256(g: Group<Point>, d: nat, e: nat, k: nat, r: nat, s: nat)
    requires IsP256Group(g) && k < P256(g).n && SignedWith(P256(g), d, e, k, r, s)
    ensures Accepts(P256(g), Times(g, d, P256(g).base), e, r, s) <==> s != 0 && k != 1
  {
    hide *;
    GroupParts(g);
    DomainOf(g);
    var D, Q := P256(g), Times(g, d, P256(g).base);
    SignedParts(D, d, e, k, r, s);
    if s == 0 {
      RangeIs(D.n, r, s);
      OutOfRange(D, Q, e, r, s);
    } else if k == 1 {
      NonceOne(g);
      RangeIs(D.n, r, s);
      var w := SomeInverse(s, D.n);
      VerificationPoint(D, d, e, k, r, s, w);
      AcceptsOnly(D, Q, e, r, s, w);
      ResidueIs(GX, D.n);
    } else {
      SignedIsSignature(g, d, e, k, r, s);
      SignedIsAccepted(D, d, e, k, r, s);
    }
  }

  // For a key d G the run of verification is regular exactly when the scalars say so.
  lemma RegularRunByScalars(g: Group<Point>, d: nat, e: nat, r: nat, s: nat)
    requires IsP256Group(g)
    ensures RegularRun(P256(g), Times(g, d, P256(g).base), e, r, s) <==> RunOfScalars(P256(g).n, d, e, r, s)
  {
    hide *;
    GroupParts(g);
    RunOverGroup(P256(g), B, d, e, r, s, P);
  }

  // Signs with the first usable nonce and verifies the result under the key of the signer: it is accepted exactly
  // when s is not zero, the nonce is not 1 and the run of verification is regular.
  method SignAndVerify(draws: seq<Draw>, secret: array<Limb>, qx: array<Limb>, qy: array<Limb>, hash: array<Limb>,
                       r: array<Limb>, s: array<Limb>, ghost g: Group<Point>)
    returns (ok: bool, tries: nat, accept: bool)
    requires secret.Length == qx.Length == qy.Length == hash.Length == r.Length == s.Length == 4
    requires r != s && {r, s} !! {secret, hash, qx, qy}
    requires IsP256Group(g)
    requires Affine(N(qx), N(qy)) == Times(g, N(secret), Affine(GX, GY)) && N(qx) != GX
    modifies r, s
    ensures ok ==> EndsAfter(P256(g), old(N(r)), Numbers(draws), tries)
    ensures accept <==>
      && ok && N(s) != 0 && Reduced(Numbers(draws)[tries - 1], ORDER) != 1
      && RunOfScalars(P256(g).n, N(secret), N(hash), N(r), N(s))
  {
    hide *;
    ghost var D, stale, d, e := P256(g), N(r), N(secret), N(hash);
    GroupParts(g);
    ghost var Q := Affine(N(qx), N(qy));
    ok, tries := Sign(draws, secret, hash, r, s, g);
    accept := false;
    if ok {
      EndsWithin(D, stale, Numbers(draws), tries);
      ghost var nonce := Numbers(draws)[tries - 1];
      NumberAt(draws, tries - 1);
      NumberBelow(draws[tries - 1]);
      HasMultiple(g, d);
      accept := Verify(qx, qy, hash, r, s, g);
      RegularRunByScalars(g, d, e, N(r), N(s));
      VerdictOnReturned(g, d, e, stale, nonce, N(r), N(s));
    }
  }

  lemma EndsWithin(D: Domain, stale: nat, draws: seq<nat>, t: nat)
    requires D.n > 0 && EndsAfter(D, stale, draws, t)
    ensures 0 < t <= |draws|
  {
  }

  lemma HasMultiple(g: Group<Point>, d: nat)
    requires IsP256Group(g)
    ensures g.has(Times(g, d, Affine(GX, GY)))
  {
    hide *;
    GroupParts(g);
    IsGroup(g, B, P);
    HasIt(g, Affine(GX, GY), ORDER);
    TimesHas(g, d, Affine(GX, GY));
  }

  lemma VerdictOnReturned(g: Group<Point>, d: nat, e: nat, stale: nat, nonce: nat, r: nat, s: nat)
    requires IsP256Group(g) && nonce < R && Returned(P256(g), d, e, stale, nonce, r, s)
    ensures Accepts(P256(g), Times(g, d, P256(g).base), e, r, s) <==> s != 0 && Reduced(nonce, P256(g).n) != 1
  {
    hide *;
    GroupParts(g);
    var D := P256(g);
    ReturnedIs(D, d, e, stale, nonce, r, s);
    if nonce == 0 {
      RangeIs(D.n, r, s);
      OutOfRange(D, Times(g, d, D.base), e, r, s);
    } else {
      ReducedBound(nonce);
      SignedOverP256(g, d, e, Reduced(nonce, D.n), r, s);
    }
  }

  lemma ReturnedIs(D: Domain, d: nat, e: nat, stale: nat, nonce: nat, r: nat, s: nat)
    requires D.n > 0 && Returned(D, d, e, stale, nonce, r, s)
    ensures if nonce == 0 then s == 0 else SignedWith(D, d, e, Reduced(nonce, D.n), r, s)
  {
    hide SignedWith;
  }
}
