/** Reduction modulo the P-384 prime by folding: the high half of a product is multiplied by
    omega = 2^384 - p and added to the low half until nothing is left above. */
module P384Fold {
  import opened Bits
  import opened Vli
  import opened Congruence

  // NUM_ECC_DIGITS for the 384-bit curve, and the numbers the fold is about.
  const DIGITS: nat := 6
  const R384: nat := W384
  const P384: nat := 0xFFFFFFFFFFFFFFFFFFFFFFFFFFFFFFFFFFFFFFFFFFFFFFFFFFFFFFFFFFFFFFFEFFFFFFFF0000000000000000FFFFFFFF
  const OMEGA: nat := 0x1_0000_0000_FFFF_FFFF_FFFF_FFFF_0000_0001

  lemma OmegaIsComplement()
    ensures OMEGA == R384 - P384
  {
  }

  lemma UpSix(c: int)
    ensures Up(c, 6) == R384 * c && Up(c, 1) == 0x1_0000_0000_0000_0000 * c
    ensures Up(c, 2) == W128 * c && Up(c, 7) == W448 * c && Up(c, 8) == W64 * (W448 * c)
  {
    assert Up(c, 1) == 0x1_0000_0000_0000_0000 * Up(c, 0);
    assert Up(c, 2) == 0x1_0000_0000_0000_0000 * Up(c, 1);
    assert Up(c, 3) == 0x1_0000_0000_0000_0000 * Up(c, 2);
    assert Up(c, 4) == 0x1_0000_0000_0000_0000 * Up(c, 3);
    assert Up(c, 5) == 0x1_0000_0000_0000_0000 * Up(c, 4);
    assert Up(c, 6) == 0x1_0000_0000_0000_0000 * Up(c, 5);
    assert Up(c, 7) == 0x1_0000_0000_0000_0000 * Up(c, 6);
    assert Up(c, 8) == 0x1_0000_0000_0000_0000 * Up(c, 7);
  }

  // Changing n limbs from position i changes the number by the change of those limbs, moved up.
  lemma SliceChange(s: seq<Limb>, t: seq<Limb>, i: nat, n: nat)
    requires |s| == |t| && i + n <= |s| && s[..i] == t[..i] && s[i + n..] == t[i + n..]
    ensures Val(t) - Val(s) == Up(Val(t[i..i + n]) - Val(s[i..i + n]), i)
  {
    hide *;
    SliceSplit(s, i, n);
    SliceSplit(t, i, n);
    UpSum(Val(s[i..i + n]), Val(t[i..i + n]) - Val(s[i..i + n]), i);
  }

  lemma SliceSplit(s: seq<Limb>, i: nat, n: nat)
    requires i + n <= |s|
    ensures Val(s) == Val(s[..i]) + Up(Val(s[i..i + n]), i) + Up(Up(Val(s[i + n..]), n), i)
  {
    hide *;
    ValSplit(s, i);
    ValSplit(s[i..], n);
    assert s[i..][..n] == s[i..i + n] && s[i..][n..] == s[i + n..];
    UpSum(Val(s[i..i + n]), Up(Val(s[i + n..]), n), i);
  }

  lemma SingleLimb(x: Limb)
    ensures Val([x]) == x
  {
    assert [x][..0] == [];
  }

  /* ---- the steps of the multiplication, as changes of the whole buffer ---- */

  // The number in a twelve-limb buffer.
  ghost function W(a: array<Limb>): nat
    requires a.Length == 12
    reads a
  {
    V(a, 0, 12)
  }

  // Adds six limbs at position i, returning the carry out of them.
  method AddAt(a: array<Limb>, i: nat, b: array<Limb>, bo: nat) returns (carry: Limb)
    requires a.Length == 12 && bo + 6 <= b.Length && i + 6 <= 12 && a != b
    modifies a
    ensures carry <= 1
    ensures W(a) + Up(R384 * carry, i) == old(W(a)) + Up(V(b, bo, 6), i)
    ensures forall j :: 0 <= j < 12 && !(i <= j < i + 6) ==> a[j] == old(a[j])
  {
    hide Val, Up;
    ghost var s := a[0..12];
    carry := Add(a, i, a, i, b, bo, 6);
    UpSix(carry);
    ghost var t := a[0..12];
    assert s[i..i + 6] == old(a[i..i + 6]) && t[i..i + 6] == a[i..i + 6];
    SliceChange(s, t, i, 6);
    UpSum(Val(t[i..i + 6]) - Val(s[i..i + 6]), R384 * carry, i);
  }

  method SubAt(a: array<Limb>, i: nat, b: array<Limb>, bo: nat) returns (borrow: Limb)
    requires a.Length == 12 && bo + 6 <= b.Length && i + 6 <= 12 && a != b
    modifies a
    ensures borrow <= 1
    ensures W(a) + Up(V(b, bo, 6), i) == old(W(a)) + Up(R384 * borrow, i)
    ensures forall j :: 0 <= j < 12 && !(i <= j < i + 6) ==> a[j] == old(a[j])
  {
    hide Val, Up;
    ghost var s := a[0..12];
    borrow := Sub(a, i, a, i, b, bo, 6);
    UpSix(borrow);
    ghost var t := a[0..12];
    assert s[i..i + 6] == old(a[i..i + 6]) && t[i..i + 6] == a[i..i + 6];
    SliceChange(s, t, i, 6);
    UpSum(Val(t[i..i + 6]) - Val(s[i..i + 6]), V(b, bo, 6), i);
  }

  // Writes one limb.
  method PutLimb(a: array<Limb>, i: nat, x: Limb)
    requires a.Length == 12 && i < 12
    modifies a
    ensures W(a) == old(W(a)) + Up(x - old(a[i]), i)
    ensures a[i] == x && forall j :: 0 <= j < 12 && j != i ==> a[j] == old(a[j])
  {
    hide Val, Up;
    ghost var s := a[0..12];
    a[i] := x;
    ghost var t := a[0..12];
    SliceChange(s, t, i, 1);
    assert s[i..i + 1] == [s[i]] && t[i..i + 1] == [x];
    SingleLimb(s[i]);
    SingleLimb(x);
  }

  // Takes one from the number formed by the limbs from position 7 up. The loop has no bound of its own:
  // it stops inside the buffer because that number is not zero.
  method PropagateBorrow(a: array<Limb>)
    requires a.Length == 12 && V(a, 7, 5) > 0
    modifies a
    ensures W(a) == old(W(a)) - Up(1, 7)
    ensures forall j :: 0 <= j < 7 ==> a[j] == old(a[j])
  {
    hide Val, Up, W;
    ghost var s := a[0..12];
    var i := 7;
    assert s[7..12] == a[7..12];
    while true
      invariant 7 <= i < 12 && Val(s[i..]) > 0
      invariant W(a) == old(W(a)) + Up(1, i) - Up(1, 7)
      invariant forall j :: i <= j < 12 ==> a[j] == s[j]
      invariant forall j :: 0 <= j < 7 ==> a[j] == s[j]
      decreases 12 - i
    {
      ghost var before := a[i];
      PutLimb(a, i, Wrap((a[i] as int) - 1));
      ValHorner(s[i..]);
      assert s[i..][1..] == s[i + 1..];
      if a[i] != 0xFFFF_FFFF_FFFF_FFFF {
        UpNegOne(i);
        break;
      }
      UpSum(0xFFFF_FFFF_FFFF_FFFF, 1, i);
      UpBase(1, i);
      ValNonempty(s[i + 1..]);
      i := i + 1;
    }
  }

  lemma UpNegOne(i: nat)
    ensures Up(-1, i) == -Up(1, i)
  {
    UpNeg(1, i);
  }

  lemma ValNonempty(s: seq<Limb>)
    ensures |s| == 0 ==> Val(s) == 0
  {
  }

  /* ---- the multiplication by omega ---- */

  lemma Parts(a: array<Limb>)
    requires a.Length == 12
    ensures W(a) == V(a, 0, 6) + R384 * (a[6] as int) + Up(V(a, 7, 5), 7)
    ensures V(a, 0, 6) < R384
  {
    hide Val, Up;
    var s := a[0..12];
    SliceSplit(s, 6, 1);
    assert s[..6] == a[0..6] && s[6..7] == [a[6]] && s[7..] == a[7..12];
    SingleLimb(a[6]);
    UpSix(a[6]);
    UpUp(V(a, 7, 5), 1, 6);
    ValBound(a[0..6]);
    UpSix(1);
  }

  // W(a) is V(a, 0, 6) when the rest is zero.
  lemma LowOnly(a: array<Limb>)
    requires a.Length == 12 && forall j :: 6 <= j < 12 ==> a[j] == 0
    ensures W(a) == V(a, 0, 6)
  {
    hide Val, Up;
    Parts(a);
    ValZeros(a[7..12]);
    UpZero(7);
  }

  method ShiftBy32(tmp: array<Limb>, b: array<Limb>, bo: nat) returns (carry: Limb)
    requires tmp.Length == 6 && bo + 6 <= b.Length && tmp != b
    modifies tmp
    ensures carry < 0x1_0000_0000
    ensures V(tmp, 0, 6) + R384 * carry == 0x1_0000_0000 * V(b, bo, 6)
  {
    hide Val, Up, Pow2;
    Pow2Of64();
    carry := Lshift(tmp, 0, b, bo, 32, 6);
    UpSix(carry);
  }

  // result := right (1 + 2^96 + 2^128), by two additions one and two limbs up.
  method AddShifted(r: array<Limb>, tmp: array<Limb>, b: array<Limb>, bo: nat, carry: Limb)
    requires r.Length == 12 && tmp.Length == 6 && bo + 6 <= b.Length && r != b && r != tmp
    requires V(tmp, 0, 6) + R384 * carry == 0x1_0000_0000 * V(b, bo, 6) && carry < 0x1_0000_0000
    requires forall j :: 6 <= j < 12 ==> r[j] == 0
    requires V(r, 0, 6) == V(b, bo, 6)
    modifies r
    ensures W(r) == (1 + 0x1_0000_0000_0000_0000_0000_0000 + 0x1_0000_0000_0000_0000_0000_0000_0000_0000) * V(b, bo, 6)
  {
    hide *;
    LowOnly(r);
    ghost var w0, x, sh := W(r), V(b, bo, 6), V(tmp, 0, 6);
    var c1 := AddAt(r, 1, tmp, 0);
    ghost var w1 := W(r);
    PutLimb(r, 7, carry + c1);
    ghost var w2 := W(r);
    var c2 := AddAt(r, 2, b, bo);
    ghost var w3 := W(r);
    PutLimb(r, 8, c2);
    var top: int := carry + c1;
    ShiftedTotals(x, sh, carry, c1, c2, top, w0, w1, w2, w3, W(r));
  }

  lemma ShiftedTotals(x: int, sh: int, carry: int, c1: int, c2: int, top: int,
                      w0: int, w1: int, w2: int, w3: int, w4: int)
    requires w0 == x && sh + R384 * carry == 0x1_0000_0000 * x && top == carry + c1
    requires w1 + Up(R384 * c1, 1) == w0 + Up(sh, 1) && w2 == w1 + Up(top, 7)
    requires w3 + Up(R384 * c2, 2) == w2 + Up(x, 2) && w4 == w3 + Up(c2, 8)
    ensures w4 == (1 + 0x1_0000_0000_0000_0000_0000_0000 + 0x1_0000_0000_0000_0000_0000_0000_0000_0000) * x
  {
    hide Up;
    UpSix(R384 * c1);
    UpSix(sh);
    UpSix(top);
    UpSix(R384 * c2);
    UpSix(x);
    UpSix(c2);
  }

  // Takes a small number from limb 6, borrowing from above when it is larger.
  method SubtractHigh(r: array<Limb>, amount: Limb)
    requires r.Length == 12 && R384 * amount <= W(r)
    modifies r
    ensures W(r) == old(W(r)) - R384 * amount
  {
    hide Val, Up, V, W;
    Parts(r);
    ghost var six: int := r[6];
    var diff := Wrap((r[6] as int) - amount);
    if diff > r[6] {
      UpZero(7);
      PropagateBorrow(r);
    }
    UpSix(1);
    assert r[6] == six;
    PutLimb(r, 6, diff);
    UpSix((diff as int) - six);
  }

  // result := omega * right.
  method OmegaMult(r: array<Limb>, b: array<Limb>, bo: nat)
    requires r.Length == 12 && bo + 6 <= b.Length && r != b
    requires forall j :: 0 <= j < 12 ==> r[j] == 0
    modifies r
    ensures W(r) == OMEGA * V(b, bo, 6)
  {
    hide Val, Up, V, W;
    var tmp := new Limb[6];
    Set(r, 0, b, bo, 6);
    var carry := ShiftBy32(tmp, b, bo);
    AddShifted(r, tmp, b, bo, carry);
    var borrow := SubAt(r, 0, tmp, 0);
    UpNone(V(tmp, 0, 6));
    UpNone(R384 * borrow);
    SubtractHigh(r, carry + borrow);
  }

  lemma UpNone(d: int)
    ensures Up(d, 0) == d
  {
  }

  /* ---- folding ---- */

  lemma LowHigh(a: array<Limb>)
    requires a.Length == 12
    ensures W(a) == V(a, 0, 6) + R384 * V(a, 6, 6) && V(a, 0, 6) < R384 && V(a, 6, 6) < R384
  {
    hide Val, Up;
    var s := a[0..12];
    ValSplit(s, 6);
    assert s[..6] == a[0..6] && s[6..] == a[6..12];
    UpSix(V(a, 6, 6));
    ValBound(a[0..6]);
    ValBound(a[6..12]);
    UpSix(1);
  }

  // 2^576, the size of nine limbs.
  ghost function NineLimbs(): nat {
    0x1_0000_0000_0000_0000_0000_0000_0000_0000_0000_0000_0000_0000 * R384
  }

  lemma UpNine(c: int)
    ensures Up(c, 9) == NineLimbs() * c
  {
    UpSix(c);
    assert Up(c, 9) == 0x1_0000_0000_0000_0000 * Up(c, 8);
  }

  // A number below 2^576 lives in its nine low limbs.
  lemma NineSuffice(s: seq<Limb>)
    requires |s| == 12 && Val(s) < NineLimbs()
    ensures Val(s) == Val(s[..9]) && Val(s[9..]) == 0
  {
    hide Val, Up;
    ValSplit(s, 9);
    UpNine(Val(s[9..]));
    ValBound(s[..9]);
    ValBound(s[9..]);
    TopIsZero(Val(s[..9]), Val(s[9..]), Val(s));
  }

  lemma TopIsZero(lo: int, hi: int, v: int)
    requires 0 <= lo && 0 <= hi && v == lo + NineLimbs() * hi && v < NineLimbs()
    ensures hi == 0 && v == lo
  {
  }

  // a += b over nine limbs; the sum fits, so the last carry is zero.
  method AddNine(a: array<Limb>, b: array<Limb>)
    requires a.Length == 12 && b.Length == 12 && a != b && W(a) + W(b) < NineLimbs()
    modifies a
    ensures W(a) == old(W(a)) + W(b)
  {
    hide Val, Up, NineLimbs;
    ghost var s, t := a[0..12], b[0..12];
    NineSuffice(s);
    NineSuffice(t);
    assert s[..9] == a[0..9] && t[..9] == b[0..9] && s[9..] == a[9..12];
    var carry := Add(a, 0, a, 0, b, 0, 9);
    assert a[9..12] == s[9..];
    ghost var u := a[0..12];
    ValSplit(u, 9);
    assert u[..9] == a[0..9] && u[9..] == a[9..12];
    UpZero(9);
    UpNine(carry);
    ValBound(a[0..9]);
    TopIsZero(Val(a[0..9]), carry, Val(s) + Val(t));
  }

  // product := c0 + omega c1, where product was c0 + 2^384 c1.
  method Fold(product: array<Limb>)
    requires product.Length == 12
    modifies product
    ensures W(product) == old(V(product, 0, 6)) + OMEGA * old(V(product, 6, 6))
  {
    hide Val, Up, V, W;
    LowHigh(product);
    ghost var c0, c1 := V(product, 0, 6), V(product, 6, 6);
    var tmp := new Limb[12];
    Clear(tmp, 0, 12);
    OmegaMult(tmp, product, 6);
    ClearHigh(product);
    AddNine(product, tmp);
  }

  method ClearHigh(product: array<Limb>)
    requires product.Length == 12
    modifies product
    ensures W(product) == old(V(product, 0, 6))
  {
    hide Val, Up;
    ghost var low := product[0..6];
    Clear(product, 6, 6);
    assert product[0..6] == low;
    LowOnly(product);
  }

  // Folding keeps the residue, shrinks the number while its high half is not zero, and never reaches zero.
  lemma FoldStep(v: nat, v': nat, c0: nat, c1: nat)
    requires v == c0 + R384 * c1 && v' == c0 + OMEGA * c1
    ensures Cong(v', v, P384) && (c1 > 0 ==> v' < v) && (v' == 0 <==> v == 0)
  {
    OmegaIsComplement();
    var k: int := c1;
    CongBy(v', v, P384, -k);
  }

  // What the routine leaves: the residue, except that a nonzero multiple of p comes out as p.
  function Folded(v: nat): nat {
    if v % P384 == 0 && v != 0 then P384 else v % P384
  }

  method CurveP384() returns (p: array<Limb>)
    ensures fresh(p) && p.Length == 6 && V(p, 0, 6) == P384
  {
    p := new Limb[6];
    p[0], p[1], p[2] := 0x0000_0000_FFFF_FFFF, 0xFFFF_FFFF_0000_0000, 0xFFFF_FFFF_FFFF_FFFE;
    p[3], p[4], p[5] := 0xFFFF_FFFF_FFFF_FFFF, 0xFFFF_FFFF_FFFF_FFFF, 0xFFFF_FFFF_FFFF_FFFF;
    SixLimbs(p[0..6], 0x0000_0000_FFFF_FFFF, 0xFFFF_FFFF_0000_0000, 0xFFFF_FFFF_FFFF_FFFE,
      0xFFFF_FFFF_FFFF_FFFF, 0xFFFF_FFFF_FFFF_FFFF, 0xFFFF_FFFF_FFFF_FFFF);
  }

  lemma SixLimbs(s: seq<Limb>, s0: int, s1: int, s2: int, s3: int, s4: int, s5: int)
    requires |s| == 6 && s[0] == s0 && s[1] == s1 && s[2] == s2 && s[3] == s3 && s[4] == s4 && s[5] == s5
    ensures Val(s) == s0 + 0x1_0000_0000_0000_0000 * (s1 + 0x1_0000_0000_0000_0000 * (s2 + 0x1_0000_0000_0000_0000
      * (s3 + 0x1_0000_0000_0000_0000 * (s4 + 0x1_0000_0000_0000_0000 * s5))))
  {
    hide Val, Up;
    ValHorner(s);
    ValHorner(s[1..]);
    ValHorner(s[2..]);
    ValHorner(s[3..]);
    ValHorner(s[4..]);
    ValHorner(s[5..]);
    assert s[1..][1..] == s[2..] && s[2..][1..] == s[3..] && s[3..][1..] == s[4..] && s[4..][1..] == s[5..];
    ValNonempty(s[5..][1..]);
  }

  // result := product % p, by folding and then subtracting p while the number is larger than p.
  method ModFast384(r: array<Limb>, product: array<Limb>)
    requires r.Length == 6 && product.Length == 12 && r != product
    modifies r, product
    ensures V(r, 0, 6) == Folded(old(W(product)))
  {
    hide Val, Up, V, W, Cong;
    ghost var total := W(product);
    CongRefl(total, P384);
    LowHigh(product);
    var done := IsZero(product, 6, 6);
    while !done
      invariant Cong(W(product), total, P384) && (W(product) == 0 <==> total == 0)
      invariant done <==> V(product, 6, 6) == 0
      decreases W(product)
    {
      LowHigh(product);
      ghost var v, c0, c1 := W(product), V(product, 0, 6), V(product, 6, 6);
      Fold(product);
      FoldStep(v, W(product), c0, c1);
      CongTrans(W(product), v, total, P384);
      done := IsZero(product, 6, 6);
    }
    LowHigh(product);
    SubtractP(product, total);
    Set(r, 0, product, 0, 6);
  }

  method SubtractP(product: array<Limb>, ghost total: nat)
    requires product.Length == 12
    requires Cong(V(product, 0, 6), total, P384) && (V(product, 0, 6) == 0 <==> total == 0)
    modifies product
    ensures V(product, 0, 6) == Folded(total)
  {
    hide Val, Up, V, Cong;
    var p := CurveP384();
    var sign := Cmp(product, 0, p, 0, 6);
    while sign > 0
      invariant Cong(V(product, 0, 6), total, P384) && (V(product, 0, 6) == 0 <==> total == 0)
      invariant V(p, 0, 6) == P384 && (sign > 0 <==> V(product, 0, 6) > P384)
      decreases V(product, 0, 6)
    {
      ghost var v := V(product, 0, 6);
      var borrow := SubSix(product, p);
      CongBy(V(product, 0, 6), v, P384, -1);
      CongTrans(V(product, 0, 6), v, total, P384);
      sign := Cmp(product, 0, p, 0, 6);
    }
    FoldedIs(V(product, 0, 6), total);
  }

  method SubSix(a: array<Limb>, p: array<Limb>) returns (borrow: Limb)
    requires a.Length == 12 && p.Length == 6 && a != p && V(a, 0, 6) >= V(p, 0, 6)
    modifies a
    ensures V(a, 0, 6) == old(V(a, 0, 6)) - V(p, 0, 6)
  {
    hide Val, Up;
    borrow := Sub(a, 0, a, 0, p, 0, 6);
    UpSix(borrow);
    ValBound(a[0..6]);
    UpSix(1);
  }

  lemma FoldedIs(v: nat, total: nat)
    requires Cong(v, total, P384) && (v == 0 <==> total == 0) && v <= P384
    ensures v == Folded(total)
  {
    hide Cong;
    CongResidue(v, total, P384);
    if v < P384 {
      DivUnique(v, P384, 0, v);
    } else {
      DivUnique(v, P384, 1, 0);
    }
  }

  // The result is fully reduced exactly when the product is zero or not a multiple of p.
  lemma FoldedReduced(v: nat)
    ensures Folded(v) <= P384 && Folded(v) % P384 == v % P384
    ensures Folded(v) < P384 <==> v == 0 || v % P384 != 0
  {
    var r := v % P384;
    DivUnique(r, P384, 0, r);
    DivUnique(P384, P384, 1, 0);
  }

  // The prime itself is left as it is.
  lemma PrimeNotReduced()
    ensures Folded(P384) == P384
  {
    DivUnique(P384, P384, 1, 0);
  }
}
