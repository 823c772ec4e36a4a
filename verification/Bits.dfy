/** Powers of two, bit lengths and single bits of unbounded naturals. */
module Bits {

  // Powers of 2^32 with the limbs and half limbs of up to eight limbs.
  const W64: nat := 0x1_0000_0000_0000_0000
  const W96: nat := 0x1_0000_0000_0000_0000_0000_0000
  const W128: nat := 0x1_0000_0000_0000_0000_0000_0000_0000_0000
  const W160: nat := 0x1_0000_0000_0000_0000_0000_0000_0000_0000_0000_0000
  const W192: nat := 0x1_0000_0000_0000_0000_0000_0000_0000_0000_0000_0000_0000_0000
  const W224: nat := 0x1_0000_0000_0000_0000_0000_0000_0000_0000_0000_0000_0000_0000_0000_0000
  const W256: nat := 0x1_0000_0000_0000_0000_0000_0000_0000_0000_0000_0000_0000_0000_0000_0000_0000_0000
  const W320: nat :=
    0x100000000000000000000000000000000000000000000000000000000000000000000000000000000
  const W384: nat :=
    0x1000000000000000000000000000000000000000000000000000000000000000000000000000000000000000000000000
  const W448: nat :=
    0x10000000000000000000000000000000000000000000000000000000000000000000000000000000000000000000000000000000000000000

  function Pow2(k: nat): (p: nat)
    ensures p > 0
  {
    if k == 0 then 1 else 2 * Pow2(k - 1)
  }

  lemma {:induction false} Pow2Add(i: nat, j: nat)
    ensures Pow2(i + j) == Pow2(i) * Pow2(j)
    decreases j
  {
    if j > 0 {
      Pow2Add(i, j - 1);
      MulAssoc(2, Pow2(i), Pow2(j - 1));
    }
  }

  lemma Pow2Zero()
    ensures Pow2(0) == 1 && Pow2(1) == 2
  {
  }

  lemma EightBits()
    ensures Pow2(8) == 0x100
  {
  }

  lemma MulAssoc(a: int, b: int, c: int)
    ensures a * (b * c) == b * (a * c)
  {
  }

  lemma {:induction false} Pow2Monotone(i: nat, j: nat)
    requires i <= j
    ensures Pow2(i) <= Pow2(j)
    decreases j
  {
    if i < j {
      Pow2Monotone(i, j - 1);
    }
  }

  // The number of significant bits; zero for zero.
  function BitLength(v: nat): (k: nat)
    ensures v < Pow2(k)
    ensures v > 0 ==> k > 0 && Pow2(k - 1) <= v
  {
    if v == 0 then 0 else BitLength(v / 2) + 1
  }

  lemma BitLengthUnique(v: nat, k: nat)
    requires v < Pow2(k) && (k > 0 ==> Pow2(k - 1) <= v)
    ensures k == BitLength(v)
  {
    var m := BitLength(v);
    if k < m {
      Pow2Monotone(k, m - 1);
    } else if m < k {
      Pow2Monotone(m, k - 1);
    }
  }

  lemma BitLengthMonotone(v: nat, w: nat)
    requires v <= w
    ensures BitLength(v) <= BitLength(w)
  {
    var k, m := BitLength(v), BitLength(w);
    if m < k {
      Pow2Monotone(m, k - 1);
    }
  }

  // v without its lowest k bits.
  function High(v: nat, k: nat): nat {
    DivNonNegative(v, Pow2(k));
    v / Pow2(k)
  }

  lemma DivNonNegative(v: nat, d: nat)
    requires d > 0
    ensures v / d >= 0
  {
  }

  // Bit k of v.
  function Bit(v: nat, k: nat): (b: nat)
    ensures b <= 1
  {
    v / Pow2(k) % 2
  }

  lemma DivFacts(v: nat, d: nat)
    requires d > 0
    ensures v == v / d * d + v % d && 0 <= v % d < d && 0 <= v / d
  {
  }

  lemma DivUnique(x: int, d: int, q: int, r: int)
    requires d > 0 && x == q * d + r && 0 <= r < d
    ensures x / d == q && x % d == r
  {
    var q', r' := x / d, x % d;
    assert (q - q') * d == r' - r;
    if q > q' {
      MulMono(1, q - q', d);
    } else if q < q' {
      MulMono(q - q', -1, d);
    }
  }

  lemma MulMono(a: int, b: int, c: int)
    requires a <= b && 0 <= c
    ensures a * c <= b * c
  {
  }

  lemma Distribute(a: int, b: int, c: int)
    ensures (a + b) * c == a * c + b * c
    ensures (a - b) * c == a * c - b * c
  {
  }

  lemma Commute(a: int, b: int)
    ensures a * b == b * a
  {
  }

  lemma Regroup(a: int, b: int, c: int)
    ensures a * (b * c) == a * b * c
  {
  }

  // The bits from position k up form v / 2^k; one more bit is read off below them.
  lemma HighBitsStep(v: nat, k: nat)
    ensures v / Pow2(k) == 2 * (v / Pow2(k + 1)) + Bit(v, k)
  {
    var d := Pow2(k);
    var h := v / d;
    var q, r := h / 2, h % 2;
    assert h == 2 * q + r;
    Distribute(2 * q, r, d);
    MulAssoc(2, q, d);
    assert v == h * d + v % d;
    assert v == q * (2 * d) + (r * d + v % d);
    MulMono(r, 1, d);
    DivUnique(v, 2 * d, q, r * d + v % d);
  }

  lemma HighStep(v: nat, k: nat)
    ensures High(v, k) == 2 * High(v, k + 1) + Bit(v, k)
  {
    HighBitsStep(v, k);
  }

  lemma HighBitsAll(v: nat)
    ensures v / Pow2(0) == v
    ensures v / Pow2(BitLength(v)) == 0
    ensures v > 0 ==> v / Pow2(BitLength(v) - 1) == 1 && Bit(v, BitLength(v) - 1) == 1
  {
    DivUnique(v, Pow2(BitLength(v)), 0, v);
    if v > 0 {
      var d := Pow2(BitLength(v) - 1);
      DivUnique(v, d, 1, v - d);
    }
  }

  /* ---- the bits of sums, halves and parts ---- */

  lemma BitZero(v: nat)
    ensures Bit(v, 0) == v % 2
  {
    Pow2Zero();
  }

  lemma BitOfHalf(v: nat, i: nat)
    ensures Bit(v, i + 1) == Bit(v / 2, i)
  {
    var h, d := v / 2, Pow2(i);
    DivFacts(h, d);
    var q, r := h / d, h % d;
    MulAssoc(2, q, d);
    DivUnique(v, 2 * d, q, 2 * r + v % 2);
  }

  // The same number with its lowest bit split off.
  lemma SumHalves(lo: nat, hi: nat, p: nat, v: nat)
    requires v == lo + 2 * p * hi
    ensures v % 2 == lo % 2 && v / 2 == lo / 2 + p * hi
  {
    Regroup(2, p, hi);
    DivUnique(v, 2, lo / 2 + p * hi, lo % 2);
  }

  lemma NonNegativeProduct(a: nat, b: nat)
    ensures a * b >= 0
  {
  }

  // Below position m the bits of lo, from there on the bits of hi.
  lemma {:induction false} BitOfSum(lo: nat, hi: nat, m: nat, i: nat, v: nat)
    requires lo < Pow2(m) && v == lo + Pow2(m) * hi
    ensures Bit(v, i) == if i < m then Bit(lo, i) else Bit(hi, i - m)
    decreases m
  {
    hide Bit;
    if m > 0 {
      var p := Pow2(m - 1);
      NonNegativeProduct(p, hi);
      SumHalves(lo, hi, p, v);
      if i == 0 {
        BitZero(v);
        BitZero(lo);
      } else {
        BitOfHalf(v, i - 1);
        BitOfHalf(lo, i - 1);
        BitOfSum(lo / 2, hi, m - 1, i - 1, v / 2);
      }
    } else {
      Pow2Zero();
      assert Pow2(0) * hi == hi;
    }
  }

  // v modulo 2^k.
  function Low(v: nat, k: nat): (r: nat)
    ensures r < Pow2(k)
  {
    DivFacts(v, Pow2(k));
    v % Pow2(k)
  }

  lemma Parts(v: nat, k: nat)
    ensures v == Low(v, k) + Pow2(k) * High(v, k)
  {
    DivFacts(v, Pow2(k));
    Commute(v / Pow2(k), Pow2(k));
  }

  lemma BitOfParts(v: nat, k: nat, i: nat)
    ensures Bit(High(v, k), i) == Bit(v, i + k)
    ensures i < k ==> Bit(Low(v, k), i) == Bit(v, i)
  {
    hide Bit, High, Low;
    Parts(v, k);
    BitOfSum(Low(v, k), High(v, k), k, i, v);
    BitOfSum(Low(v, k), High(v, k), k, i + k, v);
  }

  // No bit is set from the length on.
  lemma BitAbove(v: nat, n: nat, i: nat)
    requires v < Pow2(n) && n <= i
    ensures Bit(v, i) == 0
  {
    Pow2Monotone(n, i);
    DivUnique(v, Pow2(i), 0, v);
  }

  // The number whose bits below n are the given ones.
  function FromBits(f: nat -> bool, n: nat): (v: nat)
    ensures v < Pow2(n)
  {
    if n == 0 then 0 else FromBits(f, n - 1) + (if f(n - 1) then Pow2(n - 1) else 0)
  }

  lemma {:induction false} BitOfFromBits(f: nat -> bool, n: nat, i: nat)
    requires i < n
    ensures Bit(FromBits(f, n), i) == if f(i) then 1 else 0
    decreases n
  {
    hide Bit;
    var lo, k := FromBits(f, n - 1), n - 1;
    BitOfSum(lo, if f(k) then 1 else 0, k, i, FromBits(f, n));
    BitZero(0);
    BitZero(1);
    if i < k {
      BitOfFromBits(f, n - 1, i);
    }
  }
}
