/** The in-place Jacobian and co-Z point routines on limb buffers. Each is proved to realise its
    relation of CurveAlgebra modulo the P-256 prime. */
module P256Points {
  import opened Bits
  import opened Vli
  import opened VliMul
  import opened P256Field
  import opened Congruence
  import opened CurveAlgebra

  /* ---- field operations, read as congruences ---- */

  method FMul(r: array<Limb>, a: array<Limb>, b: array<Limb>)
    requires r.Length == a.Length == b.Length == 4
    modifies r
    ensures N(r) < P && Cong(N(r), Mul(old(N(a)), old(N(b))), P)
  {
    CongMod(N(a) * N(b), P);
    ModMultFast(r, a, b);
  }

  method FSquare(r: array<Limb>, a: array<Limb>)
    requires r.Length == a.Length == 4
    modifies r
    ensures N(r) < P && Cong(N(r), Mul(old(N(a)), old(N(a))), P)
  {
    CongMod(N(a) * N(a), P);
    ModSquareFast(r, a);
  }

  method FAdd(r: array<Limb>, a: array<Limb>, b: array<Limb>)
    requires r.Length == a.Length == b.Length == 4 && N(a) < P && N(b) < P
    modifies r
    ensures N(r) < P && Cong(N(r), old(N(a)) + old(N(b)), P)
  {
    ghost var sum := N(a) + N(b);
    var p := CurveP();
    ModAdd(r, a, b, p);
    CongBy(N(r), sum, P, if sum >= P then -1 else 0);
  }

  method FSub(r: array<Limb>, a: array<Limb>, b: array<Limb>)
    requires r.Length == a.Length == b.Length == 4 && N(a) < P && N(b) < P
    modifies r
    ensures N(r) < P && Cong(N(r), old(N(a)) - old(N(b)), P)
    ensures N(r) == 0 <==> old(N(a)) == old(N(b))
  {
    ghost var diff := N(a) - N(b);
    CongMod(diff, P);
    ReducedOnce(diff, P);
    var p := CurveP();
    ModSub(r, a, b, p);
  }

  // x / 2 modulo p: an odd x is made even by adding p, and the carry becomes the top bit.
  method FHalve(r: array<Limb>)
    requires r.Length == 4 && N(r) < P
    modifies r
    ensures N(r) < P && Cong(2 * N(r), old(N(r)), P)
  {
    hide N;
    ghost var x := N(r);
    NRange(r);
    var odd := OddN(r);
    if odd {
      var p := CurveP();
      var carry := AddN(r, r, p);
      HalveN(r, carry);
      CongBy(2 * N(r), x, P, 1);
    } else {
      HalveN(r, 0);
      CongBy(2 * N(r), x, P, 0);
    }
  }

  /* ---- doubling ---- */

  // The values computed on the way, from the first square to the last difference.
  lemma DoubleSteps(x: int, y: int, z: int, a: int, y4: int, w: int, z2: int,
                    l: int, x3: int, g: int, k: int, y3: int, m: int)
    requires PowersOf(x, y, z, a, y4, w, z2, m)
    requires Cong(2 * l, 3 * (Mul(x, x) - Mul(z2, z2)), m) && Cong(x3, Mul(l, l) - (a + a), m)
    requires Cong(g, a - x3, m) && Cong(k, Mul(l, g), m) && Cong(y3, k - y4, m)
    ensures DoublesTo(x, y, z, l, x3, y3, w, m)
  {
    hide Cong;
    var Z := z * z;
    CongMul(z2, Z, z2, Z, m);
    CongRefl(x * x, m);
    CongSub(x * x, x * x, z2 * z2, Z * Z, m);
    CongTimes(3, x * x - z2 * z2, x * x - Z * Z, m);
    CongTrans(2 * l, 3 * (x * x - z2 * z2), 3 * (x * x - Z * Z), m);
    DoubleTail(x * (y * y), (y * y) * (y * y), a, y4, l, x3, g, k, y3, m);
  }

  // The products a doubling starts from: x y^2, y^4, y z and z^2.
  ghost predicate PowersOf(x: int, y: int, z: int, a: int, y4: int, w: int, z2: int, m: int) {
    Cong(a, x * (y * y), m) && Cong(y4, (y * y) * (y * y), m) && Cong(w, y * z, m) && Cong(z2, z * z, m)
  }

  lemma PowerSteps(x: int, y: int, z: int, y2: int, a: int, y4: int, w: int, z2: int, m: int)
    requires Cong(y2, Mul(y, y), m) && Cong(a, Mul(x, y2), m) && Cong(y4, Mul(y2, y2), m)
    requires Cong(w, Mul(y, z), m) && Cong(z2, Mul(z, z), m)
    ensures PowersOf(x, y, z, a, y4, w, z2, m)
  {
    hide Cong;
    CongTimes(x, y2, y * y, m);
    CongTrans(a, x * y2, x * (y * y), m);
    CongMul(y2, y * y, y2, y * y, m);
    CongTrans(y4, y2 * y2, (y * y) * (y * y), m);
  }

  // t4 := Y1^4, t5 := X1 Y1^2, Y1 := Y1 Z1, Z1 := Z1^2
  method Powers(X1: array<Limb>, Y1: array<Limb>, Z1: array<Limb>, t4: array<Limb>, t5: array<Limb>)
    requires X1.Length == Y1.Length == Z1.Length == t4.Length == t5.Length == 4
    requires X1 != Y1 && X1 != Z1 && Y1 != Z1 && t4 != t5
    requires t4 != X1 && t4 != Y1 && t4 != Z1 && t5 != X1 && t5 != Y1 && t5 != Z1
    modifies Y1, Z1, t4, t5
    ensures N(Y1) < P && N(Z1) < P && N(t4) < P && N(t5) < P
    ensures PowersOf(N(X1), old(N(Y1)), old(N(Z1)), N(t5), N(t4), N(Y1), N(Z1), P)
  {
    hide *;
    ghost var x, y, z := N(X1), N(Y1), N(Z1);
    FSquare(t4, Y1);
    ghost var y2 := N(t4);
    FMul(t5, X1, t4);
    FSquare(t4, t4);
    FMul(Y1, Y1, Z1);
    FSquare(Z1, Z1);
    PowerSteps(x, y, z, y2, N(t5), N(t4), N(Y1), N(Z1), P);
  }

  // 2 l = 3 (x + z2) (x - z2)
  lemma SlopeSteps(x: int, z2: int, sum: int, twice: int, diff: int, e: int, e2: int, e3: int, l: int, m: int)
    requires Cong(sum, x + z2, m) && Cong(twice, z2 + z2, m) && Cong(diff, sum - twice, m)
    requires Cong(e, Mul(sum, diff), m) && Cong(e2, e + e, m) && Cong(e3, e + e2, m) && Cong(2 * l, e3, m)
    ensures Cong(2 * l, 3 * (Mul(x, x) - Mul(z2, z2)), m)
  {
    hide Cong;
    CongSub(sum, x + z2, twice, z2 + z2, m);
    CongTrans(diff, sum - twice, x + z2 - (z2 + z2), m);
    CongMul(sum, x + z2, diff, x - z2, m);
    var f := (x + z2) * (x - z2);
    CongTrans(e, sum * diff, f, m);
    CongAdd(e, f, e, f, m);
    CongTrans(e2, e + e, f + f, m);
    CongAdd(e, f, e2, f + f, m);
    CongTrans(e3, e + e2, f + (f + f), m);
    CongTrans(2 * l, e3, f + (f + f), m);
    assert f == x * x - z2 * z2;
  }

  // X1 := 3 (X1^2 - Z1^2) / 2, destroying Z1.
  method TangentSlope(X1: array<Limb>, Z1: array<Limb>)
    requires X1.Length == Z1.Length == 4 && X1 != Z1 && N(X1) < P && N(Z1) < P
    modifies X1, Z1
    ensures N(X1) < P && N(Z1) < P
    ensures Cong(2 * N(X1), 3 * (Mul(old(N(X1)), old(N(X1))) - Mul(old(N(Z1)), old(N(Z1)))), P)
  {
    hide N, Cong, Mul;
    ghost var x, z2 := N(X1), N(Z1);
    FAdd(X1, X1, Z1);
    ghost var sum := N(X1);
    FAdd(Z1, Z1, Z1);
    ghost var twice := N(Z1);
    FSub(Z1, X1, Z1);
    ghost var diff := N(Z1);
    FMul(X1, X1, Z1);
    ghost var e := N(X1);
    FAdd(Z1, X1, X1);
    ghost var e2 := N(Z1);
    FAdd(X1, X1, Z1);
    ghost var e3 := N(X1);
    FHalve(X1);
    SlopeSteps(x, z2, sum, twice, diff, e, e2, e3, N(X1), P);
  }

  // x3 = l^2 - 2 A and y3 = l (A - x3) - Y
  lemma DoubleTail(A: int, Y: int, a: int, y4: int, l: int, x3: int, g: int, k: int, y3: int, m: int)
    requires Cong(a, A, m) && Cong(y4, Y, m) && Cong(x3, l * l - (a + a), m)
    requires Cong(g, a - x3, m) && Cong(k, l * g, m) && Cong(y3, k - y4, m)
    ensures Cong(x3, l * l - 2 * A, m) && Cong(y3, l * (A - x3) - Y, m)
  {
    hide Cong;
    CongAdd(a, A, a, A, m);
    CongRefl(l * l, m);
    CongSub(l * l, l * l, a + a, A + A, m);
    CongTrans(x3, l * l - (a + a), l * l - (A + A), m);
    CongRefl(l, m);
    LineTail(A, Y, a, y4, l, l, x3, g, k, y3, m);
  }

  // y3 = l (A - x3) - Y
  lemma LineTail(A: int, Y: int, a: int, y: int, l: int, l': int, x3: int, g: int, k: int, y3: int, m: int)
    requires Cong(a, A, m) && Cong(y, Y, m) && Cong(l', l, m)
    requires Cong(g, a - x3, m) && Cong(k, l' * g, m) && Cong(y3, k - y, m)
    ensures Cong(y3, l * (A - x3) - Y, m)
  {
    hide Cong;
    CongRefl(x3, m);
    CongSub(a, A, x3, x3, m);
    CongTrans(g, a - x3, A - x3, m);
    CongMul(l', l, g, A - x3, m);
    CongTrans(k, l' * g, l * (A - x3), m);
    CongSub(k, l * (A - x3), y, Y, m);
    CongTrans(y3, k - y, l * (A - x3) - Y, m);
  }

  // Doubles (X1, Y1, Z1) in place; a point with Z1 = 0 is left as it is.
  method DoubleJacobian(X1: array<Limb>, Y1: array<Limb>, Z1: array<Limb>) returns (ghost slope: int)
    requires X1.Length == Y1.Length == Z1.Length == 4 && X1 != Y1 && X1 != Z1 && Y1 != Z1
    requires N(X1) < P && N(Y1) < P
    modifies X1, Y1, Z1
    ensures N(X1) < P && N(Y1) < P && N(Z1) < P
    ensures old(N(Z1)) == 0 ==> N(X1) == old(N(X1)) && N(Y1) == old(N(Y1)) && N(Z1) == 0
    ensures old(N(Z1)) != 0 ==>
      DoublesTo(old(N(X1)), old(N(Y1)), old(N(Z1)), slope, N(X1), N(Y1), N(Z1), P)
  {
    hide *;
    ghost var x, y, z := N(X1), N(Y1), N(Z1);
    var atInfinity := IsZeroN(Z1);
    if atInfinity {
      PIsBig();
      return 0;
    }
    var t4, t5 := new Limb[4], new Limb[4];
    assert z != 0;
    Powers(X1, Y1, Z1, t4, t5);
    ghost var a, y4, w, z2 := N(t5), N(t4), N(Y1), N(Z1);
    TangentSlope(X1, Z1);
    slope := N(X1);
    ThirdAbscissa(Z1, X1, t5, t5);
    ghost var x3 := N(Z1);
    assert N(t5) == a && N(t4) == y4 && N(Y1) == w && N(X1) == slope;
    FSub(t5, t5, Z1);
    ghost var g := N(t5);
    FMul(X1, X1, t5);
    ghost var k := N(X1);
    FSub(t4, X1, t4);
    ghost var y3 := N(t4);
    SetN(X1, Z1);
    SetN(Z1, Y1);
    SetN(Y1, t4);
    DoubleSteps(x, y, z, a, y4, w, z2, slope, x3, g, k, y3, P);
  }

  /* ---- rescaling ---- */

  // (X1, Y1) := (X1 Z^2, Y1 Z^3)
  method ApplyZ(X1: array<Limb>, Y1: array<Limb>, Z: array<Limb>)
    requires X1.Length == Y1.Length == Z.Length == 4 && X1 != Y1 && X1 != Z && Y1 != Z
    modifies X1, Y1
    ensures N(X1) < P && N(Y1) < P
    ensures ScalesTo(old(N(X1)), old(N(Y1)), N(Z), N(X1), N(Y1), P)
  {
    hide N, Cong, Mul, ScalesTo;
    ghost var x, y, z := N(X1), N(Y1), N(Z);
    var t1 := new Limb[4];
    FSquare(t1, Z);
    ghost var z2 := N(t1);
    FMul(X1, X1, t1);
    FMul(t1, t1, Z);
    ghost var z3 := N(t1);
    FMul(Y1, Y1, t1);
    ScaleSteps(x, y, z, z2, N(X1), z3, N(Y1), P);
  }

  lemma ScaleSteps(x: int, y: int, z: int, z2: int, xr: int, z3: int, yr: int, m: int)
    requires Cong(z2, Mul(z, z), m) && Cong(xr, Mul(x, z2), m) && Cong(z3, Mul(z2, z), m) && Cong(yr, Mul(y, z3), m)
    ensures ScalesTo(x, y, z, xr, yr, m)
  {
    hide Cong;
    CongTimes(x, z2, z * z, m);
    CongTrans(xr, x * z2, x * (z * z), m);
    CongRefl(z, m);
    CongMul(z2, z * z, z, z, m);
    CongTrans(z3, z2 * z, z * z * z, m);
    Regroup(z, z, z);
    CongTimes(y, z3, z * (z * z), m);
    CongTrans(yr, y * z3, y * (z * (z * z)), m);
  }

  /* ---- co-Z addition ---- */

  // (X1, X2) := (X1 (X2 - X1)^2, X2 (X2 - X1)^2)
  method ScaleAbscissas(X1: array<Limb>, X2: array<Limb>)
    requires X1.Length == X2.Length == 4 && X1 != X2 && N(X1) < P && N(X2) < P
    modifies X1, X2
    ensures N(X1) < P && N(X2) < P
    ensures ScaledBy(old(N(X1)), old(N(X2)), N(X1), N(X2), P)
  {
    hide N, Cong, Mul;
    ghost var x1, x2 := N(X1), N(X2);
    var t5 := new Limb[4];
    FSub(t5, X2, X1);
    ghost var d0 := N(t5);
    FSquare(t5, t5);
    ghost var A := N(t5);
    FMul(X1, X1, t5);
    FMul(X2, X2, t5);
    AbscissaSteps(x1, x2, d0, A, N(X1), N(X2), P);
  }

  ghost predicate ScaledBy(x1: int, x2: int, B: int, C: int, m: int) {
    var d := x2 - x1;
    Cong(B, x1 * (d * d), m) && Cong(C, x2 * (d * d), m)
  }

  lemma AbscissaSteps(x1: int, x2: int, d0: int, A: int, B: int, C: int, m: int)
    requires Cong(d0, x2 - x1, m) && Cong(A, Mul(d0, d0), m) && Cong(B, Mul(x1, A), m) && Cong(C, Mul(x2, A), m)
    ensures ScaledBy(x1, x2, B, C, m)
  {
    hide Cong;
    var d := x2 - x1;
    CongMul(d0, d, d0, d, m);
    CongTrans(A, d0 * d0, d * d, m);
    CongTimes(x1, A, d * d, m);
    CongTrans(B, x1 * A, x1 * (d * d), m);
    CongTimes(x2, A, d * d, m);
    CongTrans(C, x2 * A, x2 * (d * d), m);
  }

  // r := l^2 - u - c
  method ThirdAbscissa(r: array<Limb>, l: array<Limb>, u: array<Limb>, c: array<Limb>)
    requires r.Length == l.Length == u.Length == c.Length == 4 && r != u && r != c
    requires N(u) < P && N(c) < P
    modifies r
    ensures N(r) < P && Cong(N(r), Mul(old(N(l)), old(N(l))) - (N(u) + N(c)), P)
  {
    hide N, Cong, Mul;
    ghost var x, y := N(u), N(c);
    ghost var sq := Mul(N(l), N(l));
    FSquare(r, l);
    ghost var l2 := N(r);
    FSub(r, r, u);
    ghost var h := N(r);
    FSub(r, r, c);
    TwoDifferences(sq, l2, x, y, h, N(r), P);
  }

  lemma TwoDifferences(sq: int, a: int, b: int, c: int, h: int, r: int, m: int)
    requires Cong(a, sq, m) && Cong(h, a - b, m) && Cong(r, h - c, m)
    ensures Cong(r, sq - (b + c), m)
  {
    hide Cong;
    CongRefl(c, m);
    CongSub(h, a - b, c, c, m);
    CongTrans(r, h - c, a - b - c, m);
    CongRefl(b + c, m);
    CongSub(a, sq, b + c, b + c, m);
    assert a - b - c == a - (b + c);
    CongTrans(r, a - (b + c), sq - (b + c), m);
  }

  // y := y (u - x) - v, using tmp for u - x.
  method LineOrdinate(y: array<Limb>, tmp: array<Limb>, u: array<Limb>, x: array<Limb>, v: array<Limb>)
    requires y.Length == tmp.Length == u.Length == x.Length == v.Length == 4
    requires y != tmp && y != v && tmp != v && N(u) < P && N(x) < P && N(v) < P
    modifies y, tmp
    ensures N(y) < P && N(tmp) < P
    ensures Cong(N(y), Mul(old(N(y)), old(N(u)) - old(N(x))) - N(v), P)
  {
    hide N, Cong, Mul;
    ghost var l, d := N(y), N(u) - N(x);
    FSub(tmp, u, x);
    ghost var g := N(tmp);
    FMul(y, y, tmp);
    ghost var k := N(y);
    FSub(y, y, v);
    OrdinateSteps(l, d, g, k, N(v), N(y), P);
  }

  lemma OrdinateSteps(l: int, d: int, g: int, k: int, v: int, y: int, m: int)
    requires Cong(g, d, m) && Cong(k, Mul(l, g), m) && Cong(y, k - v, m)
    ensures Cong(y, Mul(l, d) - v, m)
  {
    hide Cong;
    CongTimes(l, g, d, m);
    CongTrans(k, l * g, l * d, m);
    CongRefl(v, m);
    CongSub(k, l * d, v, v, m);
    CongTrans(y, k - v, l * d - v, m);
  }

  // The difference of the scaled abscissas is the cube of the difference of the abscissas.
  lemma CoZScaleSteps(x1: int, y1: int, x2: int, B: int, C: int, Y: int, m: int)
    requires ScaledBy(x1, x2, B, C, m) && Cong(Y, Mul(y1, C - B), m)
    ensures ScalesTo(x1, y1, x2 - x1, B, Y, m)
  {
    hide Cong;
    var d := x2 - x1;
    CongSub(C, x2 * (d * d), B, x1 * (d * d), m);
    CubeOfDifference(x1, x2, d);
    CongTimes(y1, C - B, d * (d * d), m);
    CongTrans(Y, y1 * (C - B), y1 * (d * (d * d)), m);
  }

  lemma CubeOfDifference(x1: int, x2: int, d: int)
    requires d == x2 - x1
    ensures x2 * (d * d) - x1 * (d * d) == d * (d * d)
  {
  }

  lemma CoZSumSteps(x1: int, y1: int, x2: int, y2: int, B: int, C: int, Y: int, l: int, x3: int, y3: int, m: int)
    requires ScaledBy(x1, x2, B, C, m) && ScalesTo(x1, y1, x2 - x1, B, Y, m)
    requires Cong(l, y2 - y1, m) && Cong(x3, Mul(l, l) - (B + C), m)
    requires Cong(y3, Mul(l, B - x3) - Y, m)
    ensures AddsTo(x1, y1, x2, y2, x3, y3, m)
  {
    hide Cong;
    var d, L := x2 - x1, y2 - y1;
    var U, V, W := x1 * (d * d), x2 * (d * d), y1 * (d * (d * d));
    CongMul(l, L, l, L, m);
    CongAdd(B, U, C, V, m);
    CongSub(l * l, L * L, B + C, U + V, m);
    CongTrans(x3, l * l - (B + C), L * L - (U + V), m);
    CongRefl(x3, m);
    CongSub(B, U, x3, x3, m);
    CongMul(l, L, B - x3, U - x3, m);
    CongSub(l * (B - x3), L * (U - x3), Y, W, m);
    CongTrans(y3, l * (B - x3) - Y, L * (U - x3) - W, m);
  }

  // P = (X1, Y1), Q = (X2, Y2) over a common Z become P and P + Q over Z (X2 - X1).
  method XYcZAdd(X1: array<Limb>, Y1: array<Limb>, X2: array<Limb>, Y2: array<Limb>)
    requires X1.Length == Y1.Length == X2.Length == Y2.Length == 4
    requires X1 != Y1 && X1 != X2 && X1 != Y2 && Y1 != X2 && Y1 != Y2 && X2 != Y2
    requires N(X1) < P && N(Y1) < P && N(X2) < P && N(Y2) < P
    modifies X1, Y1, X2, Y2
    ensures N(X1) < P && N(Y1) < P && N(X2) < P && N(Y2) < P
    ensures ScalesTo(old(N(X1)), old(N(Y1)), old(N(X2)) - old(N(X1)), N(X1), N(Y1), P)
    ensures AddsTo(old(N(X1)), old(N(Y1)), old(N(X2)), old(N(Y2)), N(X2), N(Y2), P)
  {
    hide N, Cong, AddsTo, ScalesTo, ScaledBy, Mul;
    ghost var x1, y1, x2, y2 := N(X1), N(Y1), N(X2), N(Y2);
    var t5 := new Limb[4];
    ScaleAbscissas(X1, X2);
    ghost var B, C := N(X1), N(X2);
    FSub(Y2, Y2, Y1);
    ghost var l := N(Y2);
    ThirdAbscissa(t5, Y2, X1, X2);
    assert N(Y1) == y1;
    ScaleOrdinate(Y1, X1, X2);
    CoZScaleSteps(x1, y1, x2, B, C, N(Y1), P);
    LineOrdinate(Y2, X2, X1, t5, Y1);
    SetN(X2, t5);
    CoZSumSteps(x1, y1, x2, y2, B, C, N(Y1), l, N(X2), N(Y2), P);
  }

  // X2 := X2 - X1 and Y1 := Y1 X2
  method ScaleOrdinate(Y1: array<Limb>, X1: array<Limb>, X2: array<Limb>)
    requires Y1.Length == X1.Length == X2.Length == 4 && Y1 != X1 && Y1 != X2 && X1 != X2
    requires N(X1) < P && N(X2) < P
    modifies Y1, X2
    ensures N(Y1) < P && N(X2) < P && Cong(N(Y1), Mul(old(N(Y1)), old(N(X2)) - N(X1)), P)
  {
    hide N, Cong, Mul;
    ghost var y, d := N(Y1), N(X2) - N(X1);
    FSub(X2, X2, X1);
    ghost var e := N(X2);
    FMul(Y1, Y1, X2);
    ProductSteps(y, d, e, N(Y1), P);
  }

  lemma ProductSteps(y: int, d: int, e: int, r: int, m: int)
    requires Cong(e, d, m) && Cong(r, Mul(y, e), m)
    ensures Cong(r, Mul(y, d), m)
  {
    hide Cong;
    CongTimes(y, e, d, m);
    CongTrans(r, y * e, y * d, m);
  }

  /* ---- conjugate co-Z addition ---- */

  // r := l^2 - s
  method SquareMinus(r: array<Limb>, l: array<Limb>, s: array<Limb>)
    requires r.Length == l.Length == s.Length == 4 && r != s && N(s) < P
    modifies r
    ensures N(r) < P && Cong(N(r), Mul(old(N(l)), old(N(l))) - N(s), P)
  {
    hide N, Cong, Mul;
    ghost var x: int, sq: int := N(s), Mul(N(l), N(l));
    FSquare(r, l);
    ghost var l2 := N(r);
    FSub(r, r, s);
    MinusSteps(sq, l2, x, N(r), P);
  }

  lemma MinusSteps(sq: int, l2: int, x: int, r: int, m: int)
    requires Cong(l2, sq, m) && Cong(r, l2 - x, m)
    ensures Cong(r, sq - x, m)
  {
    hide Cong;
    CongRefl(x, m);
    CongSub(l2, sq, x, x, m);
    CongTrans(r, l2 - x, sq - x, m);
  }

  // y := m (x - u) - y, using tmp for the product.
  method OppositeOrdinate(y: array<Limb>, tmp: array<Limb>, x: array<Limb>, u: array<Limb>, m: array<Limb>)
    requires y.Length == tmp.Length == x.Length == u.Length == m.Length == 4
    requires y != tmp && tmp != m && N(x) < P && N(u) < P && N(y) < P
    modifies y, tmp
    ensures N(y) < P && N(tmp) < P
    ensures Cong(N(y), Mul(old(N(x)) - old(N(u)), old(N(m))) - old(N(y)), P)
  {
    hide N, Cong, Mul;
    ghost var d, l, v := N(x) - N(u), N(m), N(y);
    FSub(tmp, x, u);
    ghost var g := N(tmp);
    FMul(tmp, tmp, m);
    ghost var k := N(tmp);
    FSub(y, tmp, y);
    MulCommutes(g, l);
    OrdinateSteps(l, d, g, k, v, N(y), P);
    MulCommutes(l, d);
  }

  // The difference is the sum with the second ordinate negated.
  lemma CoZDifferenceSteps(x1: int, y1: int, x2: int, y2: int, B: int, C: int, Y: int, mu: int, s: int,
                           x3: int, y3: int, m: int)
    requires ScaledBy(x1, x2, B, C, m) && ScalesTo(x1, y1, x2 - x1, B, Y, m)
    requires Cong(mu, y2 + y1, m) && Cong(s, B + C, m) && Cong(x3, Mul(mu, mu) - s, m)
    requires Cong(y3, Mul(x3 - B, mu) - Y, m)
    ensures SubtractsTo(x1, y1, x2, y2, x3, y3, m)
  {
    hide Cong;
    CongRefl(0, m);
    CongSub(0, 0, mu, y2 + y1, m);
    assert 0 - (y2 + y1) == -y2 - y1;
    assert Mul(mu, mu) == Mul(-mu, -mu);
    assert Mul(x3 - B, mu) == Mul(-mu, B - x3) by { NegateBoth(x3 - B, mu); }
    CongRefl(mu * mu, m);
    CongSub(mu * mu, mu * mu, s, B + C, m);
    CongTrans(x3, mu * mu - s, mu * mu - (B + C), m);
    CoZSumSteps(x1, y1, x2, -y2, B, C, Y, -mu, x3, y3, m);
  }

  lemma NegateBoth(a: int, b: int)
    ensures a * b == (-b) * (-a)
  {
  }

  // P = (X1, Y1), Q = (X2, Y2) over a common Z become P - Q and P + Q over Z (X2 - X1).
  method XYcZAddC(X1: array<Limb>, Y1: array<Limb>, X2: array<Limb>, Y2: array<Limb>)
    requires X1.Length == Y1.Length == X2.Length == Y2.Length == 4
    requires X1 != Y1 && X1 != X2 && X1 != Y2 && Y1 != X2 && Y1 != Y2 && X2 != Y2
    requires N(X1) < P && N(Y1) < P && N(X2) < P && N(Y2) < P
    modifies X1, Y1, X2, Y2
    ensures N(X1) < P && N(Y1) < P && N(X2) < P && N(Y2) < P
    ensures AddsTo(old(N(X1)), old(N(Y1)), old(N(X2)), old(N(Y2)), N(X2), N(Y2), P)
    ensures SubtractsTo(old(N(X1)), old(N(Y1)), old(N(X2)), old(N(Y2)), N(X1), N(Y1), P)
  {
    hide N, Cong, AddsTo, SubtractsTo, ScalesTo, ScaledBy, Mul;
    ghost var x1, y1, x2, y2 := N(X1), N(Y1), N(X2), N(Y2);
    var t5, t6, t7 := new Limb[4], new Limb[4], new Limb[4];
    RescaleBoth(X1, Y1, X2, Y2, t5, t6);
    ghost var B, C, Y, mu, l, s := N(X1), N(X2), N(Y1), N(t5), N(Y2), N(t6);
    SquareMinus(X2, Y2, t6);
    ghost var x3 := N(X2);
    LineOrdinate(Y2, t7, X1, X2, Y1);
    SumInstead(Mul(l, l), s, B + C, x3, P);
    CoZSumSteps(x1, y1, x2, y2, B, C, Y, l, x3, N(Y2), P);
    OtherPoint(X1, Y1, t5, t6, t7);
    CoZDifferenceSteps(x1, y1, x2, y2, B, C, Y, mu, s, N(X1), N(Y1), P);
  }

  // Brings P over the new Z, and leaves Y2 + Y1 in t5, Y2 - Y1 in Y2 and the sum of the abscissas in t6.
  method RescaleBoth(X1: array<Limb>, Y1: array<Limb>, X2: array<Limb>, Y2: array<Limb>,
                     t5: array<Limb>, t6: array<Limb>)
    requires X1.Length == Y1.Length == X2.Length == Y2.Length == t5.Length == t6.Length == 4
    requires X1 != Y1 && X1 != X2 && X1 != Y2 && Y1 != X2 && Y1 != Y2 && X2 != Y2 && t5 != t6
    requires t5 != X1 && t5 != Y1 && t5 != X2 && t5 != Y2 && t6 != X1 && t6 != Y1 && t6 != X2 && t6 != Y2
    requires N(X1) < P && N(Y1) < P && N(X2) < P && N(Y2) < P
    modifies X1, Y1, X2, Y2, t5, t6
    ensures N(X1) < P && N(Y1) < P && N(X2) < P && N(Y2) < P && N(t6) < P
    ensures ScaledBy(old(N(X1)), old(N(X2)), N(X1), N(X2), P)
    ensures ScalesTo(old(N(X1)), old(N(Y1)), old(N(X2)) - old(N(X1)), N(X1), N(Y1), P)
    ensures Cong(N(t5), old(N(Y2)) + old(N(Y1)), P) && Cong(N(Y2), old(N(Y2)) - old(N(Y1)), P)
    ensures Cong(N(t6), N(X1) + N(X2), P)
  {
    hide N, Cong, ScalesTo, ScaledBy, Mul;
    ghost var x1, y1, x2 := N(X1), N(Y1), N(X2);
    ScaleAbscissas(X1, X2);
    SumAndDifference(t5, Y1, Y2);
    FSub(t6, X2, X1);
    ghost var e := N(t6);
    FMul(Y1, Y1, t6);
    ProductSteps(y1, N(X2) - N(X1), e, N(Y1), P);
    CoZScaleSteps(x1, y1, x2, N(X1), N(X2), N(Y1), P);
    FAdd(t6, X1, X2);
  }

  // t := Y2 + Y1 and Y2 := Y2 - Y1
  method SumAndDifference(t: array<Limb>, Y1: array<Limb>, Y2: array<Limb>)
    requires t.Length == Y1.Length == Y2.Length == 4 && t != Y1 && t != Y2 && Y1 != Y2
    requires N(Y1) < P && N(Y2) < P
    modifies t, Y2
    ensures N(t) < P && N(Y2) < P
    ensures Cong(N(t), old(N(Y2)) + N(Y1), P) && Cong(N(Y2), old(N(Y2)) - N(Y1), P)
  {
    hide N, Cong;
    FAdd(t, Y2, Y1);
    FSub(Y2, Y2, Y1);
  }

  // (X1, Y1) := (mu^2 - s, mu (x - X1) - Y1) where mu is in t5 and s in t6.
  method OtherPoint(X1: array<Limb>, Y1: array<Limb>, t5: array<Limb>, t6: array<Limb>, t7: array<Limb>)
    requires X1.Length == Y1.Length == t5.Length == t6.Length == t7.Length == 4
    requires X1 != Y1 && X1 != t5 && X1 != t6 && X1 != t7 && Y1 != t5 && Y1 != t6 && Y1 != t7
    requires t5 != t6 && t5 != t7 && t6 != t7
    requires N(X1) < P && N(Y1) < P && N(t6) < P
    modifies X1, Y1, t6, t7
    ensures N(X1) < P && N(Y1) < P
    ensures Cong(N(X1), Mul(N(t5), N(t5)) - old(N(t6)), P)
    ensures Cong(N(Y1), Mul(N(X1) - old(N(X1)), N(t5)) - old(N(Y1)), P)
  {
    hide N, Cong, Mul;
    SquareMinus(t7, t5, t6);
    OppositeOrdinate(Y1, t6, t7, X1, t5);
    SetN(X1, t7);
  }

  lemma SumInstead(a: int, s: int, t: int, x: int, m: int)
    requires Cong(s, t, m) && Cong(x, a - s, m)
    ensures Cong(x, a - t, m)
  {
    hide Cong;
    CongRefl(a, m);
    CongSub(a, a, s, t, m);
    CongTrans(x, a - s, a - t, m);
  }

  /* ---- the first doubling of a scalar multiplication ---- */

  // Scaled by zero, everything is zero, and doubling leaves it so.
  lemma ZeroDoubles(x: int, y: int, xs: int, ys: int, m: int)
    requires ScalesTo(x, y, 0, xs, ys, m) && 0 <= xs < m && 0 <= ys < m
    ensures DoublesTo(xs, ys, 0, 0, xs, ys, 0, m)
  {
    hide Cong;
    CongUnique(xs, 0, m);
    CongUnique(ys, 0, m);
    CongRefl(0, m);
  }

  // P = (X1, Y1) with Z becomes 2P in (X1, Y1) and P in (X2, Y2), over the Z of the doubling.
  method InitialDouble(X1: array<Limb>, Y1: array<Limb>, X2: array<Limb>, Y2: array<Limb>, initialZ: array?<Limb>)
    returns (ghost xs: int, ghost ys: int, ghost zs: int, ghost slope: int, ghost z: int)
    requires X1.Length == Y1.Length == X2.Length == Y2.Length == 4
    requires X1 != Y1 && X1 != X2 && X1 != Y2 && Y1 != X2 && Y1 != Y2 && X2 != Y2
    requires initialZ != null ==> initialZ.Length == 4
    requires initialZ != X1 && initialZ != Y1 && initialZ != X2 && initialZ != Y2
    modifies X1, Y1, X2, Y2
    ensures N(X1) < P && N(Y1) < P && N(X2) < P && N(Y2) < P
    ensures zs == if initialZ == null then 1 else old(N(initialZ))
    ensures ScalesTo(old(N(X1)), old(N(Y1)), zs, xs, ys, P)
    ensures DoublesTo(xs, ys, zs, slope, N(X1), N(Y1), z, P)
    ensures ScalesTo(old(N(X1)), old(N(Y1)), z, N(X2), N(Y2), P)
  {
    hide N, Cong, ScalesTo, DoublesTo;
    ghost var x, y := N(X1), N(Y1);
    SetN(X2, X1);
    SetN(Y2, Y1);
    assert N(X2) == x && N(Y2) == y && N(X1) == x && N(Y1) == y;
    var w := new Limb[4];
    Load(w, 1, 0, 0, 0);
    if initialZ != null {
      SetN(w, initialZ);
    }
    zs := N(w);
    ApplyZ(X1, Y1, w);
    xs, ys := N(X1), N(Y1);
    slope := DoubleJacobian(X1, Y1, w);
    z := N(w);
    if zs == 0 {
      slope := 0;
      ZeroDoubles(x, y, xs, ys, P);
    }
    assert N(X2) == x && N(Y2) == y;
    ApplyZ(X2, Y2, w);
  }
}
