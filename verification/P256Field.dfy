/** Arithmetic on 256-bit numbers modulo the P-256 prime, on four-limb buffers. */
module P256Field {
  import opened Bits
  import opened Vli
  import opened VliMul

  const R: nat := W256
  const P: nat := 0xFFFF_FFFF_0000_0001_0000_0000_0000_0000_0000_0000_FFFF_FFFF_FFFF_FFFF_FFFF_FFFF

  // The number in a four-limb buffer.
  ghost function N(a: array<Limb>): nat
    requires a.Length == 4
    reads a
  {
    V(a, 0, 4)
  }

  lemma NRange(a: array<Limb>)
    requires a.Length == 4
    ensures N(a) < R
  {
    ValBound(a[0..4]);
    UpFour(1);
  }

  lemma UpFour(c: int)
    ensures Up(c, 4) == R * c
  {
    assert Up(c, 4) == W64 * Up(c, 3);
    assert Up(c, 2) == W64 * Up(c, 1);
    assert Up(c, 1) == W64 * Up(c, 0);
  }

  lemma PIsBig()
    ensures 3 < P < R
  {
  }

  lemma NIsV(a: array<Limb>)
    requires a.Length == 4
    ensures N(a) == V(a, 0, 4)
  {
  }

  /* ---- four-limb forms of the elementary routines ---- */

  method IsZeroN(a: array<Limb>) returns (zero: bool)
    requires a.Length == 4
    ensures zero <==> N(a) == 0
  {
    zero := IsZero(a, 0, 4);
  }

  method AddN(r: array<Limb>, a: array<Limb>, b: array<Limb>) returns (carry: Limb)
    requires r.Length == a.Length == b.Length == 4
    modifies r
    ensures carry <= 1 && N(r) + R * carry == old(N(a)) + old(N(b))
    ensures N(r) < R
  {
    carry := Add(r, 0, a, 0, b, 0, 4);
    UpFour(carry);
    NRange(r);
  }

  method SubN(r: array<Limb>, a: array<Limb>, b: array<Limb>) returns (borrow: Limb)
    requires r.Length == a.Length == b.Length == 4
    modifies r
    ensures borrow <= 1 && N(r) - R * borrow == old(N(a)) - old(N(b))
    ensures N(r) < R
  {
    borrow := Sub(r, 0, a, 0, b, 0, 4);
    UpFour(borrow);
    NRange(r);
  }

  method DoubleN(r: array<Limb>) returns (carry: Limb)
    requires r.Length == 4
    modifies r
    ensures carry <= 1 && N(r) + R * carry == 2 * old(N(r))
    ensures N(r) < R
  {
    assert Pow2(1) == 2;
    carry := Lshift(r, 0, r, 0, 1, 4);
    UpFour(carry);
    NRange(r);
  }

  // r := (r + carry * 2^256) >> 1: the carry of an addition becomes the top bit of the half.
  method HalveN(r: array<Limb>, carry: Limb)
    requires r.Length == 4 && carry <= 1
    modifies r
    ensures N(r) == (old(N(r)) + R * carry) / 2
    ensures N(r) < R
  {
    Rshift1(r, 0, 4);
    ghost var half := N(r);
    if carry != 0 {
      ghost var s := r[0..4];
      r[3] := SetTopBit(r[3]);
      TopBitAdds(s, r[0..4]);
    }
    NRange(r);
  }

  lemma TopBitAdds(s: seq<Limb>, t: seq<Limb>)
    requires |s| == |t| == 4 && s[..3] == t[..3] && s[3] < 0x8000_0000_0000_0000
    requires t[3] == s[3] + 0x8000_0000_0000_0000
    ensures Val(t) == Val(s) + R / 2
  {
    hide Val, Up;
    Val4(s, s[0], s[1], s[2], s[3]);
    Val4(t, t[0], t[1], t[2], t[3]);
    assert t[0] == t[..3][0] == s[0] && t[1] == t[..3][1] == s[1] && t[2] == t[..3][2] == s[2];
  }

  // The lowest bit.
  method OddN(a: array<Limb>) returns (odd: bool)
    requires a.Length == 4
    ensures odd <==> N(a) % 2 == 1
  {
    ValHorner(a[0..4]);
    odd := a[0] % 2 == 1;
  }

  method CmpN(a: array<Limb>, b: array<Limb>) returns (sign: int)
    requires a.Length == b.Length == 4
    ensures sign == if N(a) > N(b) then 1 else if N(a) < N(b) then -1 else 0
  {
    sign := Cmp(a, 0, b, 0, 4);
  }

  method SetN(r: array<Limb>, a: array<Limb>)
    requires r.Length == a.Length == 4
    modifies r
    ensures N(r) == old(N(a)) && N(r) < R
  {
    Set(r, 0, a, 0, 4);
    NRange(r);
  }

  // Stores four words.
  method Load(r: array<Limb>, w0: Limb, w1: Limb, w2: Limb, w3: Limb)
    requires r.Length == 4
    modifies r
    ensures N(r) == w0 + W64 * (w1 as int) + W128 * (w2 as int) + W192 * (w3 as int)
    ensures N(r) < R
  {
    r[0], r[1], r[2], r[3] := w0, w1, w2, w3;
    Val4(r[0..4], w0, w1, w2, w3);
    NRange(r);
  }

  // The prime p = 2^256 - 2^224 + 2^192 + 2^96 - 1 as limbs.
  method CurveP() returns (p: array<Limb>)
    ensures fresh(p) && p.Length == 4 && N(p) == P
  {
    p := new Limb[4];
    Load(p, 0xFFFF_FFFF_FFFF_FFFF, 0x0000_0000_FFFF_FFFF, 0x0000_0000_0000_0000, 0xFFFF_FFFF_0000_0001);
  }

  /* ---- sums and differences modulo m ---- */

  lemma ReducedOnce(x: int, m: int)
    ensures m > 0 && m <= x < 2 * m ==> x % m == x - m
    ensures m > 0 && 0 <= x < m ==> x % m == x
    ensures m > 0 && -m <= x < 0 ==> x % m == x + m
  {
    if m > 0 && m <= x < 2 * m {
      DivUnique(x, m, 1, x - m);
    } else if m > 0 && 0 <= x < m {
      DivUnique(x, m, 0, x);
    } else if m > 0 && -m <= x < 0 {
      DivUnique(x, m, -1, x + m);
    }
  }

  // A value below 2m reduced by a single subtraction.
  function Once(x: int, m: int): int {
    if x >= m then x - m else x
  }

  // result := (left + right) % mod.
  // The sum is reduced once: enough to fit when either operand is reduced, and to be reduced when both are.
  method ModAdd(r: array<Limb>, a: array<Limb>, b: array<Limb>, mod: array<Limb>)
    requires r.Length == a.Length == b.Length == mod.Length == 4 && r != mod
    requires N(a) < N(mod) || N(b) < N(mod)
    modifies r
    ensures N(r) == Once(old(N(a)) + old(N(b)), N(mod)) && N(r) < R
  {
    hide N;
    NRange(a);
    NRange(b);
    NRange(mod);
    var carry := AddN(r, a, b);
    var sign := CmpN(r, mod);
    if carry != 0 || sign >= 0 {
      var borrow := SubN(r, r, mod);
    }
  }

  // result := (left - right) % mod.
  method ModSub(r: array<Limb>, a: array<Limb>, b: array<Limb>, mod: array<Limb>)
    requires r.Length == a.Length == b.Length == mod.Length == 4 && r != mod
    requires N(a) < N(mod) && N(b) < N(mod)
    modifies r
    ensures N(r) == (old(N(a)) - old(N(b))) % N(mod) < N(mod)
  {
    hide N;
    NRange(a);
    NRange(b);
    NRange(mod);
    ghost var m, diff := N(mod), N(a) - N(b);
    var borrow := SubN(r, a, b);
    if borrow != 0 {
      var carry := AddN(r, r, mod);
    }
    ReducedOnce(diff, m);
  }

  /* ---- the fast reduction of FIPS 186-4, D.2.3 ---- */

  lemma Val8(s: seq<Limb>, p0: int, p1: int, p2: int, p3: int, p4: int, p5: int, p6: int, p7: int)
    requires |s| == 8 && s[0] == p0 && s[1] == p1 && s[2] == p2 && s[3] == p3
    requires s[4] == p4 && s[5] == p5 && s[6] == p6 && s[7] == p7
    ensures Val(s) == p0
      + W64 * p1
      + W128 * p2
      + W192 * p3
      + R * p4
      + W320 * p5
      + W384 * p6
      + W448 * p7
  {
    hide Val, Up;
    ValSplit(s, 4);
    Val4(s[..4], p0, p1, p2, p3);
    Val4(s[4..], p4, p5, p6, p7);
    UpFour(Val(s[4..]));
  }

  function Hi(x: Limb): (h: Limb)
    ensures h < 0x1_0000_0000
  {
    x / 0x1_0000_0000
  }

  function Lo(x: Limb): (l: Limb)
    ensures l < 0x1_0000_0000 && x == 0x1_0000_0000 * (Hi(x) as int) + l
  {
    x % 0x1_0000_0000
  }

  // x << 32
  function LoUp(x: Limb): (l: Limb)
    ensures l == 0x1_0000_0000 * (Lo(x) as int)
  {
    DivUnique(x * 0x1_0000_0000, W64, Hi(x), 0x1_0000_0000 * (Lo(x) as int));
    Wrap(x * 0x1_0000_0000)
  }

  // x & 0xffffffff00000000
  function HiUp(x: Limb): (l: Limb)
    ensures l == 0x1_0000_0000 * (Hi(x) as int)
  {
    x - Lo(x)
  }

  // The eight word-permuted terms, as functions of the high half of the product.
  function S1(p4: Limb, p5: Limb, p6: Limb, p7: Limb): (t: seq<Limb>)
    ensures |t| == 4
  {
    [0, HiUp(p5), p6, p7]
  }

  function S2(p4: Limb, p5: Limb, p6: Limb, p7: Limb): (t: seq<Limb>)
    ensures |t| == 4
  {
    [0, LoUp(p6), Hi(p6) + LoUp(p7), Hi(p7)]
  }

  function S3(p4: Limb, p5: Limb, p6: Limb, p7: Limb): (t: seq<Limb>)
    ensures |t| == 4
  {
    [p4, Lo(p5), 0, p7]
  }

  function S4(p4: Limb, p5: Limb, p6: Limb, p7: Limb): (t: seq<Limb>)
    ensures |t| == 4
  {
    [Hi(p4) + LoUp(p5), Hi(p5) + HiUp(p6), p7, Hi(p6) + LoUp(p4)]
  }

  function D1(p4: Limb, p5: Limb, p6: Limb, p7: Limb): (t: seq<Limb>)
    ensures |t| == 4
  {
    [Hi(p5) + LoUp(p6), Hi(p6), 0, Lo(p4) + LoUp(p5)]
  }

  function D2(p4: Limb, p5: Limb, p6: Limb, p7: Limb): (t: seq<Limb>)
    ensures |t| == 4
  {
    [p6, p7, 0, Hi(p4) + HiUp(p5)]
  }

  function D3(p4: Limb, p5: Limb, p6: Limb, p7: Limb): (t: seq<Limb>)
    ensures |t| == 4
  {
    [Hi(p6) + LoUp(p7), Hi(p7) + LoUp(p4), Hi(p4) + LoUp(p5), LoUp(p6)]
  }

  function D4(p4: Limb, p5: Limb, p6: Limb, p7: Limb): (t: seq<Limb>)
    ensures |t| == 4
  {
    [p7, HiUp(p4), p5, HiUp(p6)]
  }

  ghost function Join(t: seq<Limb>): int
    requires |t| == 4
  {
    t[0] + W64 * (t[1] as int) + W128 * (t[2] as int) + W192 * (t[3] as int)
  }

  // What the nine terms add up to.
  ghost function NineTerms(low: int, p4: Limb, p5: Limb, p6: Limb, p7: Limb): int {
    low + 2 * Join(S1(p4, p5, p6, p7)) + 2 * Join(S2(p4, p5, p6, p7))
      + Join(S3(p4, p5, p6, p7)) + Join(S4(p4, p5, p6, p7))
      - Join(D1(p4, p5, p6, p7)) - Join(D2(p4, p5, p6, p7)) - Join(D3(p4, p5, p6, p7)) - Join(D4(p4, p5, p6, p7))
  }

  // The multiple of p by which the product and the nine terms differ.
  ghost function Multiple(p4: Limb, p5: Limb, p6: Limb, p7: Limb): int {
    (Lo(p4) as int)
      + 0x1_0000_0001 * (Hi(p4) as int)
      + 0x1_0000_0001_0000_0000 * (Lo(p5) as int)
      + 0x1_0000_0000_FFFF_FFFF_FFFF_FFFF * (Hi(p5) as int)
      + 0x1_0000_0000_FFFF_FFFF_FFFF_FFFE_FFFF_FFFF * (Lo(p6) as int)
      + 0x1_0000_0000_FFFF_FFFF_FFFF_FFFE_FFFF_FFFE_FFFF_FFFF * (Hi(p6) as int)
      + 0x1_0000_0000_FFFF_FFFF_FFFF_FFFE_FFFF_FFFE_FFFF_FFFE_FFFF_FFFF * (Lo(p7) as int)
      + 0x1_0000_0000_FFFF_FFFF_FFFF_FFFE_FFFF_FFFE_FFFF_FFFE_FFFF_FFFF_0000_0000 * (Hi(p7) as int)
  }

  // The terms, word by word.
  lemma S1Words(p4: Limb, p5: Limb, p6: Limb, p7: Limb,
                l4: int, h4: int, l5: int, h5: int, l6: int, h6: int, l7: int, h7: int)
    requires l4 == Lo(p4) && h4 == Hi(p4) && l5 == Lo(p5) && h5 == Hi(p5)
    requires l6 == Lo(p6) && h6 == Hi(p6) && l7 == Lo(p7) && h7 == Hi(p7)
    ensures Join(S1(p4, p5, p6, p7)) ==
      W96 * h5 + W128 * l6 + W160 * h6 + W192 * l7 + W224 * h7
  {
    hide Lo, Hi, LoUp, HiUp;
  }

  lemma S2Words(p4: Limb, p5: Limb, p6: Limb, p7: Limb,
                l4: int, h4: int, l5: int, h5: int, l6: int, h6: int, l7: int, h7: int)
    requires l4 == Lo(p4) && h4 == Hi(p4) && l5 == Lo(p5) && h5 == Hi(p5)
    requires l6 == Lo(p6) && h6 == Hi(p6) && l7 == Lo(p7) && h7 == Hi(p7)
    ensures Join(S2(p4, p5, p6, p7)) ==
      W96 * l6 + W128 * h6 + W160 * l7 + W192 * h7
  {
    hide Lo, Hi, LoUp, HiUp;
  }

  lemma S3Words(p4: Limb, p5: Limb, p6: Limb, p7: Limb,
                l4: int, h4: int, l5: int, h5: int, l6: int, h6: int, l7: int, h7: int)
    requires l4 == Lo(p4) && h4 == Hi(p4) && l5 == Lo(p5) && h5 == Hi(p5)
    requires l6 == Lo(p6) && h6 == Hi(p6) && l7 == Lo(p7) && h7 == Hi(p7)
    ensures Join(S3(p4, p5, p6, p7)) ==
      l4 + 0x1_0000_0000 * h4 + W64 * l5 + W192 * l7 + W224 * h7
  {
    hide Lo, Hi, LoUp, HiUp;
  }

  lemma S4Words(p4: Limb, p5: Limb, p6: Limb, p7: Limb,
                l4: int, h4: int, l5: int, h5: int, l6: int, h6: int, l7: int, h7: int)
    requires l4 == Lo(p4) && h4 == Hi(p4) && l5 == Lo(p5) && h5 == Hi(p5)
    requires l6 == Lo(p6) && h6 == Hi(p6) && l7 == Lo(p7) && h7 == Hi(p7)
    ensures Join(S4(p4, p5, p6, p7)) ==
      h4 + 0x1_0000_0000 * l5 + W64 * h5 + W96 * h6 + W128 * l7 + W160 * h7 + W192 * h6 + W224 * l4
  {
    hide Lo, Hi, LoUp, HiUp;
  }

  lemma D1Words(p4: Limb, p5: Limb, p6: Limb, p7: Limb,
                l4: int, h4: int, l5: int, h5: int, l6: int, h6: int, l7: int, h7: int)
    requires l4 == Lo(p4) && h4 == Hi(p4) && l5 == Lo(p5) && h5 == Hi(p5)
    requires l6 == Lo(p6) && h6 == Hi(p6) && l7 == Lo(p7) && h7 == Hi(p7)
    ensures Join(D1(p4, p5, p6, p7)) ==
      h5 + 0x1_0000_0000 * l6 + W64 * h6 + W192 * l4 + W224 * l5
  {
    hide Lo, Hi, LoUp, HiUp;
  }

  lemma D2Words(p4: Limb, p5: Limb, p6: Limb, p7: Limb,
                l4: int, h4: int, l5: int, h5: int, l6: int, h6: int, l7: int, h7: int)
    requires l4 == Lo(p4) && h4 == Hi(p4) && l5 == Lo(p5) && h5 == Hi(p5)
    requires l6 == Lo(p6) && h6 == Hi(p6) && l7 == Lo(p7) && h7 == Hi(p7)
    ensures Join(D2(p4, p5, p6, p7)) ==
      l6 + 0x1_0000_0000 * h6 + W64 * l7 + W96 * h7 + W192 * h4 + W224 * h5
  {
    hide Lo, Hi, LoUp, HiUp;
  }

  lemma D3Words(p4: Limb, p5: Limb, p6: Limb, p7: Limb,
                l4: int, h4: int, l5: int, h5: int, l6: int, h6: int, l7: int, h7: int)
    requires l4 == Lo(p4) && h4 == Hi(p4) && l5 == Lo(p5) && h5 == Hi(p5)
    requires l6 == Lo(p6) && h6 == Hi(p6) && l7 == Lo(p7) && h7 == Hi(p7)
    ensures Join(D3(p4, p5, p6, p7)) ==
      h6 + 0x1_0000_0000 * l7 + W64 * h7 + W96 * l4 + W128 * h4 + W160 * l5 + W224 * l6
  {
    hide Lo, Hi, LoUp, HiUp;
  }

  lemma D4Words(p4: Limb, p5: Limb, p6: Limb, p7: Limb,
                l4: int, h4: int, l5: int, h5: int, l6: int, h6: int, l7: int, h7: int)
    requires l4 == Lo(p4) && h4 == Hi(p4) && l5 == Lo(p5) && h5 == Hi(p5)
    requires l6 == Lo(p6) && h6 == Hi(p6) && l7 == Lo(p7) && h7 == Hi(p7)
    ensures Join(D4(p4, p5, p6, p7)) ==
      l7 + 0x1_0000_0000 * h7 + W96 * h4 + W128 * l5 + W160 * h5 + W224 * h6
  {
    hide Lo, Hi, LoUp, HiUp;
  }

  // The nine terms and the 512-bit product differ by a multiple of p.
  lemma NineTermsCongruent(low: int, p4: Limb, p5: Limb, p6: Limb, p7: Limb)
    ensures low + R * (p4 as int) + W320 * (p5 as int)
      + W384 * (p6 as int) + W448 * (p7 as int)
      == NineTerms(low, p4, p5, p6, p7) + P * Multiple(p4, p5, p6, p7)
  {
    hide S1, S2, S3, S4, D1, D2, D3, D4, Join, Hi, Lo;
    var l4: int, h4: int := Lo(p4), Hi(p4);
    var l5: int, h5: int := Lo(p5), Hi(p5);
    var l6: int, h6: int := Lo(p6), Hi(p6);
    var l7: int, h7: int := Lo(p7), Hi(p7);
    S1Words(p4, p5, p6, p7, l4, h4, l5, h5, l6, h6, l7, h7);
    S2Words(p4, p5, p6, p7, l4, h4, l5, h5, l6, h6, l7, h7);
    S3Words(p4, p5, p6, p7, l4, h4, l5, h5, l6, h6, l7, h7);
    S4Words(p4, p5, p6, p7, l4, h4, l5, h5, l6, h6, l7, h7);
    D1Words(p4, p5, p6, p7, l4, h4, l5, h5, l6, h6, l7, h7);
    D2Words(p4, p5, p6, p7, l4, h4, l5, h5, l6, h6, l7, h7);
    D3Words(p4, p5, p6, p7, l4, h4, l5, h5, l6, h6, l7, h7);
    D4Words(p4, p5, p6, p7, l4, h4, l5, h5, l6, h6, l7, h7);
  }

  method LoadTerm(r: array<Limb>, t: seq<Limb>)
    requires r.Length == 4 && |t| == 4
    modifies r
    ensures N(r) == Join(t)
  {
    Load(r, t[0], t[1], t[2], t[3]);
  }

  // r += t or r -= t, giving the change of the running carry.
  method AddTerm(r: array<Limb>, tmp: array<Limb>, t: seq<Limb>) returns (carry: int)
    requires r.Length == tmp.Length == 4 && |t| == 4 && r != tmp
    modifies r, tmp
    ensures N(r) + R * carry == old(N(r)) + Join(t)
  {
    LoadTerm(tmp, t);
    carry := AddN(r, r, tmp);
  }

  method AddTwice(r: array<Limb>, tmp: array<Limb>, t: seq<Limb>) returns (carry: int)
    requires r.Length == tmp.Length == 4 && |t| == 4 && r != tmp
    modifies r, tmp
    ensures N(r) + R * carry == old(N(r)) + 2 * Join(t)
  {
    hide N, Join;
    LoadTerm(tmp, t);
    var c := DoubleN(tmp);
    var d := AddN(r, r, tmp);
    carry := c + d;
  }

  method SubTerm(r: array<Limb>, tmp: array<Limb>, t: seq<Limb>) returns (borrow: int)
    requires r.Length == tmp.Length == 4 && |t| == 4 && r != tmp
    modifies r, tmp
    ensures N(r) - R * borrow == old(N(r)) - Join(t)
  {
    LoadTerm(tmp, t);
    borrow := SubN(r, r, tmp);
  }

  // Sums the nine terms, with a signed running carry.
  method SumTerms(r: array<Limb>, product: array<Limb>) returns (carry: int)
    requires r.Length == 4 && product.Length == 8 && r != product
    modifies r
    ensures N(r) + R * carry == NineTerms(V(product, 0, 4), product[4], product[5], product[6], product[7])
  {
    hide N, V, Join, S1, S2, S3, S4, D1, D2, D3, D4;
    var p4, p5, p6, p7 := product[4], product[5], product[6], product[7];
    ghost var low := V(product, 0, 4);
    var tmp := new Limb[4];
    Set(r, 0, product, 0, 4);
    NIsV(r);
    var c := AddTwice(r, tmp, S1(p4, p5, p6, p7));
    carry := c;
    c := AddTwice(r, tmp, S2(p4, p5, p6, p7));
    carry := carry + c;
    c := AddTerm(r, tmp, S3(p4, p5, p6, p7));
    carry := carry + c;
    c := AddTerm(r, tmp, S4(p4, p5, p6, p7));
    carry := carry + c;
    c := SubTerm(r, tmp, D1(p4, p5, p6, p7));
    carry := carry - c;
    c := SubTerm(r, tmp, D2(p4, p5, p6, p7));
    carry := carry - c;
    c := SubTerm(r, tmp, D3(p4, p5, p6, p7));
    carry := carry - c;
    c := SubTerm(r, tmp, D4(p4, p5, p6, p7));
    carry := carry - c;
    assert V(product, 0, 4) == low;
  }

  // Adds or subtracts p until the number is reduced.
  method Correct(r: array<Limb>, carryIn: int) returns (ghost quotient: int)
    requires r.Length == 4
    modifies r
    ensures N(r) < P && old(N(r)) + R * carryIn == N(r) + quotient * P
  {
    hide N;
    var carry := carryIn;
    ghost var total, k := N(r) + R * carry, 0;
    NRange(r);
    var p := CurveP();
    if carry < 0 {
      while carry < 0
        invariant N(r) < R && N(p) == P && N(r) + R * carry < P
        invariant N(r) + R * carry == total + k * P
        decreases -(N(r) + R * carry)
      {
        var c := AddN(r, r, p);
        carry := carry + c;
        k := k + 1;
      }
    } else {
      var sign := CmpN(p, r);
      while carry != 0 || sign != 1
        invariant N(r) < R && N(p) == P && 0 <= carry && (sign == 1 <==> P > N(r))
        invariant N(r) + R * carry == total + k * P
        decreases N(r) + R * carry
      {
        var c := SubN(r, r, p);
        carry := carry - c;
        sign := CmpN(p, r);
        k := k - 1;
      }
    }
    quotient := -k;
  }

  // result := product % p.
  method MmodFast(r: array<Limb>, product: array<Limb>)
    requires r.Length == 4 && product.Length == 8 && r != product
    modifies r
    ensures N(r) == V(product, 0, 8) % P && N(r) < P
  {
    hide N, V, NineTerms, Multiple;
    ghost var p4, p5, p6, p7 := product[4], product[5], product[6], product[7];
    ghost var low, whole := V(product, 0, 4), V(product, 0, 8);
    ProductIs(product, low, p4, p5, p6, p7);
    NineTermsCongruent(low, p4, p5, p6, p7);
    var carry := SumTerms(r, product);
    ghost var total := NineTerms(low, p4, p5, p6, p7);
    ghost var k := Correct(r, carry);
    Reduced(whole, total, Multiple(p4, p5, p6, p7), k, N(r));
    assert V(product, 0, 8) == whole;
  }

  lemma Reduced(whole: int, total: int, m: int, k: int, rest: int)
    requires whole == total + P * m && total == rest + k * P && 0 <= rest < P
    ensures rest == whole % P
  {
    DivUnique(whole, P, k + m, rest);
  }

  lemma ProductIs(product: array<Limb>, low: int, p4: Limb, p5: Limb, p6: Limb, p7: Limb)
    requires product.Length == 8 && low == V(product, 0, 4)
    requires p4 == product[4] && p5 == product[5] && p6 == product[6] && p7 == product[7]
    ensures V(product, 0, 8) == low + R * (p4 as int) + W320 * (p5 as int)
      + W384 * (p6 as int) + W448 * (p7 as int)
  {
    hide Val;
    var p0, p1, p2, p3 := product[0], product[1], product[2], product[3];
    Val8(product[0..8], p0, p1, p2, p3, p4, p5, p6, p7);
    Val4(product[0..4], p0, p1, p2, p3);
  }

  // result := left * right % p.
  method ModMultFast(r: array<Limb>, a: array<Limb>, b: array<Limb>)
    requires r.Length == a.Length == b.Length == 4
    modifies r
    ensures N(r) == old(N(a)) * old(N(b)) % P && N(r) < P
  {
    var product := new Limb[8];
    Mult(product, a, b);
    MmodFast(r, product);
  }

  // result := left^2 % p.
  method ModSquareFast(r: array<Limb>, a: array<Limb>)
    requires r.Length == a.Length == 4
    modifies r
    ensures N(r) == old(N(a)) * old(N(a)) % P && N(r) < P
  {
    var product := new Limb[8];
    Square(product, a);
    MmodFast(r, product);
  }
}
