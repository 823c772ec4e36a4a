/** Cancellation modulo a prime. */
module PrimeField {
  import opened Bits
  import opened Congruence
  import opened ModularInverse

  ghost predicate IsPrime(p: int) {
    p > 1 && forall d: int :: d > 0 && Divides(d, p) ==> d == 1 || d == p
  }

  // Coefficients with x a + y b = g for a g dividing both a and b.
  lemma {:induction false} Bezout(a: nat, b: nat) returns (g: int, x: int, y: int)
    requires a > 0 || b > 0
    ensures g > 0 && x * a + y * b == g && Divides(g, a) && Divides(g, b)
    decreases b
  {
    if b == 0 {
      g, x, y := a, 1, 0;
      DividesBy(a, a, 1);
      DividesBy(a, 0, 0);
    } else {
      var q, r := a / b, a % b;
      assert a == q * b + r;
      var x', y';
      g, x', y' := Bezout(b, r);
      x, y := y', x' - q * y';
      BezoutStep(a, b, q, r, x', y');
      var i: int :| b == i * g;
      var j: int :| r == j * g;
      LinearMultiple(q, i, j, g);
      DividesBy(g, a, q * i + j);
    }
  }

  lemma BezoutStep(a: int, b: int, q: int, r: int, x: int, y: int)
    requires a == q * b + r
    ensures y * a + (x - q * y) * b == x * b + y * r
  {
    Distribute(q * b, r, y);
    Distribute(x, q * y, b);
    MulAssoc(y, q, b);
    assert q * y * b == y * (q * b);
  }

  lemma LinearMultiple(q: int, i: int, j: int, g: int)
    ensures q * (i * g) + j * g == (q * i + j) * g
  {
    Distribute(q * i, j, g);
    assert q * (i * g) == q * i * g;
  }

  // A number that a prime does not divide has an inverse.
  lemma InverseExists(a: nat, p: nat) returns (u: int)
    requires IsPrime(p) && 0 < a < p
    ensures Cong(u * a, 1, p)
  {
    var g, x, y := Bezout(a, p);
    DivisorOfPrime(g, a, p);
    u := x;
    CongBy(x * a, 1, p, -y);
  }

  // The only common divisor of a prime p and a number below it is 1.
  lemma DivisorOfPrime(g: int, a: nat, p: nat)
    requires IsPrime(p) && 0 < a < p && g > 0 && Divides(g, a) && Divides(g, p)
    ensures g == 1
  {
    if g == p {
      var q: int :| a == q * g;
      if q >= 1 {
        MulMono(1, q, g);
      } else {
        MulMono(q, 0, g);
      }
    }
  }

  // A prime dividing a product divides a factor.
  lemma ProductZero(a: int, b: int, p: nat)
    requires IsPrime(p) && Cong(a * b, 0, p)
    ensures Cong(a, 0, p) || Cong(b, 0, p)
  {
    var r := a % p;
    CongMod(a, p);
    CongSym(r, a, p);
    if r != 0 {
      var u := InverseExists(r, p);
      // b = (u r) b = u (a b) = 0
      CongRefl(b, p);
      CongMul(r, a, b, b, p);
      CongTrans(r * b, a * b, 0, p);
      CongRefl(u, p);
      CongMul(u, u, r * b, 0, p);
      CongMul(u * r, 1, b, b, p);
      assert u * r * b == u * (r * b);
      CongSym(u * r * b, 1 * b, p);
      CongTrans(b, u * (r * b), u * 0, p);
    }
  }

  ghost predicate Nonzero(a: int, p: int) {
    !Cong(a, 0, p)
  }

  lemma NonzeroProduct(a: int, b: int, p: nat)
    requires IsPrime(p) && Nonzero(a, p) && Nonzero(b, p)
    ensures Nonzero(a * b, p)
  {
    if Cong(a * b, 0, p) {
      ProductZero(a, b, p);
    }
  }

  lemma NonzeroCong(a: int, b: int, p: nat)
    requires Nonzero(b, p) && Cong(a, b, p)
    ensures Nonzero(a, p)
  {
    if Cong(a, 0, p) {
      CongSym(a, b, p);
      CongTrans(b, a, 0, p);
    }
  }

  lemma NonzeroSmall(a: int, p: nat)
    requires 0 < a < p
    ensures Nonzero(a, p) && Nonzero(-a, p)
  {
    if Cong(a, 0, p) {
      CongUnique(a, 0, p);
    }
    if Cong(-a, 0, p) {
      CongRefl(p, p);
      CongBy(p, 0, p, 1);
      CongAdd(p, 0, -a, 0, p);
      CongUnique(p - a, 0, p);
    }
  }

  // A nonzero factor can be cancelled.
  lemma CancelFactor(c: int, a: int, b: int, p: nat)
    requires IsPrime(p) && Nonzero(c, p) && Cong(c * a, c * b, p)
    ensures Cong(a, b, p)
  {
    CongRefl(c * b, p);
    CongSub(c * a, c * b, c * b, c * b, p);
    assert c * a - c * b == c * (a - b);
    ProductZero(c, a - b, p);
    CongRefl(b, p);
    CongAdd(a - b, 0, b, b, p);
  }
}
