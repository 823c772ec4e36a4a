/** The equations of ECDSA over any group of prime order: what is signed is accepted. */
module Signatures {
  import opened Bits
  import opened ModularProduct
  import opened ModularInverse
  import opened Congruence
  import opened PrimeField
  import opened Groups
  import opened CurveGroup
  import opened ScalarMultiplication
  import opened DoubleMultiplication

  // A group, a base point and the order of the base point.
  datatype Domain = Domain(g: Group<Point>, base: Point, n: nat)

  ghost predicate IsDomain(D: Domain) {
    IsAbelianGroup(D.g) && HasOrder(D.g, D.base, D.n) && IsPrime(D.n)
  }

  ghost predicate IsInverse(w: int, s: int, n: nat) {
    0 <= w < n && Cong(w * s, 1, n)
  }

  // r is the abscissa of k times the base point modulo n, and s k = e + r d.
  ghost predicate IsSignature(D: Domain, d: nat, e: nat, k: nat, r: nat, s: nat)
    requires D.n > 0
  {
    var R := Times(D.g, k, D.base);
    && R.Affine? && r == R.x % D.n && 0 < r < D.n && s < D.n
    && Cong(s * k, e + r * d, D.n)
  }

  // u1 and u2 of verification.
  ghost function Factor(x: nat, w: nat, n: nat): nat
    requires n > 0
  {
    DivNonNegative(x * w, n);
    x * w % n
  }

  ghost function Combination(D: Domain, Q: Point, e: nat, r: nat, w: nat): Point
    requires D.n > 0
  {
    D.g.add(Times(D.g, Factor(e, w, D.n), D.base), Times(D.g, Factor(r, w, D.n), Q))
  }

  predicate InRange(n: nat, r: nat, s: nat) {
    0 < r < n && 0 < s < n
  }

  ghost predicate AcceptsWith(D: Domain, Q: Point, e: nat, r: nat, s: nat, w: nat)
    requires D.n > 0
  {
    IsInverse(w, s, D.n) && Combination(D, Q, e, r, w).Affine? && Combination(D, Q, e, r, w).x % D.n == r
  }

  // What verification is meant to accept.
  ghost predicate Accepts(D: Domain, Q: Point, e: nat, r: nat, s: nat)
    requires D.n > 0
  {
    InRange(D.n, r, s) && exists w: nat :: AcceptsWith(D, Q, e, r, s, w)
  }

  // All turns of the double multiplication for this signature are free of exceptional cases.
  ghost predicate RegularRun(D: Domain, Q: Point, e: nat, r: nat, s: nat)
    requires D.n > 0
  {
    forall w: nat :: IsInverse(w, s, D.n) ==> Regular(D.g, D.base, Q, Factor(e, w, D.n), Factor(r, w, D.n))
  }

  // The entry G + Q is not used by the double multiplication for this signature.
  ghost predicate SumUnused(n: nat, e: nat, r: nat, s: nat)
    requires n > 0
  {
    forall w: nat :: IsInverse(w, s, n) ==> !SumUsed(Factor(e, w, n), Factor(r, w, n))
  }

  // What the scalars say of the turns for a key d G.
  ghost predicate RunOfScalars(n: nat, d: nat, e: nat, r: nat, s: nat)
    requires n > 0
  {
    forall w: nat :: IsInverse(w, s, n) ==> RunByScalars(Factor(e, w, n), Factor(r, w, n), d, n)
  }

  lemma RunOverGroup(D: Domain, b: int, d: nat, e: nat, r: nat, s: nat, m: nat)
    requires IsCurveGroup(D.g, b, m) && HasOrder(D.g, D.base, D.n) && D.n > 0 && D.n % 2 == 1
    ensures RegularRun(D, Times(D.g, d, D.base), e, r, s) <==> RunOfScalars(D.n, d, e, r, s)
  {
    hide IsCurveGroup, HasOrder, Times, Regular, RunByScalars, Factor, IsInverse;
    forall w: nat | IsInverse(w, s, D.n)
      ensures Regular(D.g, D.base, Times(D.g, d, D.base), Factor(e, w, D.n), Factor(r, w, D.n)) <==>
        RunByScalars(Factor(e, w, D.n), Factor(r, w, D.n), d, D.n)
    {
      RegularByScalars(D.g, b, D.base, D.n, d, Factor(e, w, D.n), Factor(r, w, D.n), m);
    }
  }

  /* ---- inverses ---- */

  lemma InverseBound(w: int, s: int, n: nat)
    requires IsInverse(w, s, n)
    ensures 0 <= w < n && Cong(w * s, 1, n)
  {
  }

  lemma InverseUnique(v: nat, w: nat, s: nat, n: nat)
    requires IsInverse(v, s, n) && IsInverse(w, s, n) && 0 < s < n && IsPrime(n)
    ensures v == w
  {
    hide Cong, IsPrime, Nonzero;
    InverseBound(v, s, n);
    InverseBound(w, s, n);
    CongSym(w * s, 1, n);
    CongTrans(v * s, 1, w * s, n);
    NonzeroSmall(s, n);
    Commute(v, s);
    Commute(w, s);
    CancelFactor(s, v, w, n);
    CongUnique(v, w, n);
  }

  lemma SomeInverse(s: nat, n: nat) returns (w: nat)
    requires IsPrime(n) && 0 < s < n
    ensures IsInverse(w, s, n)
  {
    hide IsPrime, Cong;
    var u := InverseExists(s, n);
    w := u % n;
    CongMod(u, n);
    CongRefl(s, n);
    CongMul(w, u, s, s, n);
    CongTrans(w * s, u * s, 1, n);
  }

  // The inverse is unique, so one inverse decides.
  lemma AcceptsOnly(D: Domain, Q: Point, e: nat, r: nat, s: nat, w: nat)
    requires D.n > 0 && InRange(D.n, r, s) && IsInverse(w, s, D.n) && IsPrime(D.n)
    ensures Accepts(D, Q, e, r, s) <==>
      Combination(D, Q, e, r, w).Affine? && Combination(D, Q, e, r, w).x % D.n == r
  {
    hide IsInverse, Combination, IsPrime;
    if Combination(D, Q, e, r, w).Affine? && Combination(D, Q, e, r, w).x % D.n == r {
      assert AcceptsWith(D, Q, e, r, s, w);
    }
    if Accepts(D, Q, e, r, s) {
      var v: nat :| AcceptsWith(D, Q, e, r, s, v);
      InverseUnique(v, w, s, D.n);
    }
  }

  // And the run for one inverse decides.
  lemma RegularWith(D: Domain, Q: Point, e: nat, r: nat, s: nat, w: nat)
    requires D.n > 0 && InRange(D.n, r, s) && IsInverse(w, s, D.n) && IsPrime(D.n)
    ensures RegularRun(D, Q, e, r, s) <==> Regular(D.g, D.base, Q, Factor(e, w, D.n), Factor(r, w, D.n))
  {
    hide Regular, IsInverse, Factor, IsPrime;
    forall v: nat | IsInverse(v, s, D.n)
      ensures v == w
    {
      InverseUnique(v, w, s, D.n);
    }
  }

  lemma UnusedWith(n: nat, e: nat, r: nat, s: nat, w: nat)
    requires n > 0 && IsInverse(w, s, n)
    ensures SumUnused(n, e, r, s) ==> !SumUsed(Factor(e, w, n), Factor(r, w, n))
  {
    hide SumUsed, IsInverse, Factor;
  }

  lemma FactorNonzero(r: nat, s: nat, w: nat, n: nat)
    requires InRange(n, r, s) && IsInverse(w, s, n) && IsPrime(n)
    ensures Factor(r, w, n) > 0
  {
    hide Cong, IsPrime, Nonzero;
    InverseBound(w, s, n);
    NonzeroSmall(r, n);
    if w == 0 {
      CongUnique(0, 1, n);
    }
    NonzeroSmall(w, n);
    NonzeroProduct(r, w, n);
    CongMod(r * w, n);
    NonzeroCong(Factor(r, w, n), r * w, n);
    NotZero(Factor(r, w, n), n);
  }

  /* ---- what is signed is accepted ---- */

  // u1 + u2 d = (e + r d) / s = k modulo the order.
  lemma ScalarsCombine(d: nat, e: nat, k: nat, r: nat, s: nat, w: nat, n: nat)
    requires n > 0 && Cong(s * k, e + r * d, n) && IsInverse(w, s, n)
    ensures Cong(Factor(e, w, n) + Factor(r, w, n) * d, k, n)
  {
    hide Cong;
    InverseBound(w, s, n);
    CongMod(e * w, n);
    CongMod(r * w, n);
    CongRefl(d, n);
    CongMul(Factor(r, w, n), r * w, d, d, n);
    CongAdd(Factor(e, w, n), e * w, Factor(r, w, n) * d, r * w * d, n);
    CombineTerms(e, r, w, d);
    CongRefl(w, n);
    CongSym(s * k, e + r * d, n);
    CongMul(w, w, e + r * d, s * k, n);
    CongTrans(Factor(e, w, n) + Factor(r, w, n) * d, w * (e + r * d), w * (s * k), n);
    CongRefl(k, n);
    CongMul(w * s, 1, k, k, n);
    Regroup(w, s, k);
    CongTrans(Factor(e, w, n) + Factor(r, w, n) * d, w * (s * k), 1 * k, n);
  }

  lemma CombineTerms(e: int, r: int, w: int, d: int)
    ensures e * w + r * w * d == w * (e + r * d)
  {
    assert r * w * d == w * (r * d);
    assert w * (e + r * d) == w * e + w * (r * d);
  }

  // Verification recomputes the point of the nonce.
  lemma VerificationPoint(D: Domain, d: nat, e: nat, k: nat, r: nat, s: nat, w: nat)
    requires IsDomain(D) && D.n > 0 && k < D.n && Cong(s * k, e + r * d, D.n) && IsInverse(w, s, D.n)
    ensures Combination(D, Times(D.g, d, D.base), e, r, w) == Times(D.g, k, D.base)
  {
    hide IsAbelianGroup, IsPrime, Cong, Times, Factor;
    var u1, u2 := Factor(e, w, D.n), Factor(r, w, D.n);
    TimesProduct(D.g, u2, d, D.base);
    TimesSum(D.g, u1, u2 * d, D.base);
    ScalarsCombine(d, e, k, r, s, w, D.n);
    TimesModulo(D.g, u1 + u2 * d, D.n, D.base);
    CongResidue(u1 + u2 * d, k, D.n);
    DivUnique(k, D.n, 0, k);
  }

  // A signature made by signing is accepted under the matching public key exactly when its s is not zero,
  // which signing does not check.
  lemma SignedIsAccepted(D: Domain, d: nat, e: nat, k: nat, r: nat, s: nat)
    requires IsDomain(D) && D.n > 0 && k < D.n && IsSignature(D, d, e, k, r, s)
    ensures Accepts(D, Times(D.g, d, D.base), e, r, s) <==> s != 0
  {
    hide IsAbelianGroup, Cong, Times, Combination;
    var n := D.n;
    if s != 0 {
      var w := SomeInverse(s, n);
      VerificationPoint(D, d, e, k, r, s, w);
      assert AcceptsWith(D, Times(D.g, d, D.base), e, r, s, w);
    }
  }
}
