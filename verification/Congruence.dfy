/** Congruence of integers modulo m, with an explicit quotient. */
module Congruence {
  import opened Bits

  ghost predicate Cong(a: int, b: int, m: int) {
    exists k: int :: a == b + k * m
  }

  lemma CongBy(a: int, b: int, m: int, k: int)
    requires a == b + k * m
    ensures Cong(a, b, m)
  {
  }

  lemma CongRefl(a: int, m: int)
    ensures Cong(a, a, m)
  {
    CongBy(a, a, m, 0);
  }

  lemma CongSym(a: int, b: int, m: int)
    requires Cong(a, b, m)
    ensures Cong(b, a, m)
  {
    var k: int :| a == b + k * m;
    CongBy(b, a, m, -k);
  }

  lemma CongTrans(a: int, b: int, c: int, m: int)
    requires Cong(a, b, m) && Cong(b, c, m)
    ensures Cong(a, c, m)
  {
    var k: int :| a == b + k * m;
    var l: int :| b == c + l * m;
    Distribute(k, l, m);
    CongBy(a, c, m, k + l);
  }

  lemma CongAdd(a: int, b: int, c: int, d: int, m: int)
    requires Cong(a, b, m) && Cong(c, d, m)
    ensures Cong(a + c, b + d, m)
  {
    var k: int :| a == b + k * m;
    var l: int :| c == d + l * m;
    Distribute(k, l, m);
    CongBy(a + c, b + d, m, k + l);
  }

  lemma CongSub(a: int, b: int, c: int, d: int, m: int)
    requires Cong(a, b, m) && Cong(c, d, m)
    ensures Cong(a - c, b - d, m)
  {
    var k: int :| a == b + k * m;
    var l: int :| c == d + l * m;
    Distribute(k, l, m);
    CongBy(a - c, b - d, m, k - l);
  }

  lemma CongMul(a: int, b: int, c: int, d: int, m: int)
    requires Cong(a, b, m) && Cong(c, d, m)
    ensures Cong(a * c, b * d, m)
  {
    var k: int :| a == b + k * m;
    var l: int :| c == d + l * m;
    ProductQuotient(a, b, c, d, m, k, l);
    CongBy(a * c, b * d, m, k * c + b * l);
  }

  lemma ProductQuotient(a: int, b: int, c: int, d: int, m: int, k: int, l: int)
    requires a == b + k * m && c == d + l * m
    ensures a * c == b * d + (k * c + b * l) * m
  {
    calc {
      a * c;
      { Distribute(b, k * m, c); }
      b * c + k * m * c;
      { Distribute(d, l * m, b); }
      b * d + b * (l * m) + k * m * c;
      { MulAssoc(b, l, m); MulAssoc(k, m, c); }
      b * d + (b * l) * m + (k * c) * m;
      { Distribute(k * c, b * l, m); }
      b * d + (k * c + b * l) * m;
    }
  }

  // A residue is congruent to what it reduces.
  lemma CongMod(a: int, m: int)
    requires m > 0
    ensures Cong(a % m, a, m)
  {
    assert a == m * (a / m) + a % m;
    CongBy(a % m, a, m, -(a / m));
  }

  // Congruent numbers have the same residue.
  lemma CongResidue(a: int, b: int, m: int)
    requires m > 0 && Cong(a, b, m)
    ensures a % m == b % m
  {
    var k: int :| a == b + k * m;
    var q, r := b / m, b % m;
    assert b == m * q + r;
    Distribute(q, k, m);
    DivUnique(a, m, q + k, r);
  }

  lemma CongUnique(a: int, b: int, m: int)
    requires Cong(a, b, m) && 0 <= a < m && 0 <= b < m
    ensures a == b
  {
    CongResidue(a, b, m);
    DivUnique(a, m, 0, a);
    DivUnique(b, m, 0, b);
  }

  // Two can be cancelled modulo an odd number.
  lemma CancelTwo(a: int, b: int, m: int)
    requires m % 2 == 1 && Cong(2 * a, 2 * b, m)
    ensures Cong(a, b, m)
  {
    var k: int :| 2 * a == 2 * b + k * m;
    var h := m / 2;
    assert m == 2 * h + 1;
    assert k * m == 2 * (k * h) + k;
    var j := a - b - k * h;
    assert k == 2 * j;
    assert k * m == 2 * (j * m) by { assert 2 * j * m == 2 * (j * m); }
    CongBy(a, b, m, j);
  }
}
