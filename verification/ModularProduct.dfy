/** Multiplication modulo an arbitrary 256-bit number: shift the modulus up under the product,
    then subtract it at every position on the way down. */
module ModularProduct {
  import opened Bits
  import opened Vli
  import opened VliMul
  import opened P256Field
  import opened Congruence

  // The number in an eight-limb buffer.
  ghost function W(a: array<Limb>): nat
    requires a.Length == 8
    reads a
  {
    V(a, 0, 8)
  }

  lemma Halves(a: array<Limb>)
    requires a.Length == 8
    ensures W(a) == V(a, 0, 4) + R * V(a, 4, 4)
    ensures V(a, 0, 4) < R && V(a, 4, 4) < R
  {
    hide Val, Up;
    var s := a[0..8];
    ValSplit(s, 4);
    assert s[..4] == a[0..4] && s[4..] == a[4..8];
    UpFour(Val(s[4..]));
    ValBound(a[0..4]);
    ValBound(a[4..8]);
    UpFour(1);
  }

  // The bits of half a wide number, behind a name so that 2^256 is not unfolded bit by bit.
  function HalfBits(): nat { 256 }

  lemma RIsPow2()
    ensures R == Pow2(HalfBits())
  {
    UpIsPow2(4);
    UpFour(1);
  }

  method WideBits(a: array<Limb>) returns (bits: nat)
    requires a.Length == 8
    ensures bits == BitLength(W(a))
  {
    hide W, BitLength, V, Pow2;
    Halves(a);
    ghost var w, lo, hi := W(a), V(a, 0, 4), V(a, 4, 4);
    WideLength(w, lo, hi);
    bits := NumBits(a, 4, 4);
    if bits != 0 {
      bits := bits + 4 * 64;
    } else {
      bits := NumBits(a, 0, 4);
    }
  }

  lemma WideLength(w: nat, lo: nat, hi: nat)
    requires lo < R && w == lo + R * hi
    ensures BitLength(w) == if BitLength(hi) == 0 then BitLength(lo) else BitLength(hi) + HalfBits()
  {
    hide BitLength, Pow2, HalfBits;
    NoBits(hi);
    NoBits(0);
    if hi != 0 {
      RIsPow2();
      TopBits(lo, hi, HalfBits(), BitLength(hi));
      Commute(R, hi);
    }
  }

  lemma NoBits(v: nat)
    ensures BitLength(v) == 0 <==> v == 0
  {
  }

  // multiple <= product, comparing the high halves first.
  method WideAtMost(multiple: array<Limb>, product: array<Limb>) returns (below: bool)
    requires multiple.Length == product.Length == 8
    ensures below <==> W(multiple) <= W(product)
  {
    hide W, V;
    Halves(multiple);
    Halves(product);
    var high := Cmp(multiple, 4, product, 4, 4);
    var low := Cmp(multiple, 0, product, 0, 4);
    below := high < 0 || (high == 0 && low <= 0);
  }

  // One half of a wide buffer minus a four-limb number.
  method SubHalf(a: array<Limb>, off: nat, b: array<Limb>, bo: nat) returns (borrow: Limb)
    requires a.Length == 8 && (off == 0 || off == 4) && a != b && bo + 4 <= b.Length
    modifies a
    ensures borrow <= 1 && V(a, off, 4) - R * borrow == old(V(a, off, 4)) - V(b, bo, 4)
    ensures V(a, 4 - off, 4) == old(V(a, 4 - off, 4))
  {
    hide Val, Up;
    ghost var other := a[4 - off..8 - off];
    borrow := Sub(a, off, a, off, b, bo, 4);
    UpFour(borrow);
    assert a[4 - off..8 - off] == other;
  }

  // product -= multiple; a borrow out of the low halves is taken from the high half.
  method WideSub(product: array<Limb>, multiple: array<Limb>, one: array<Limb>)
    requires product.Length == multiple.Length == 8 && one.Length == 4
    requires product != multiple && product != one && N(one) == 1
    requires W(multiple) <= W(product)
    modifies product
    ensures W(product) == old(W(product)) - W(multiple)
  {
    hide *;
    Halves(product);
    Halves(multiple);
    NIsV(one);
    ghost var lo, hi, mlo, mhi := V(product, 0, 4), V(product, 4, 4), V(multiple, 0, 4), V(multiple, 4, 4);
    var borrow := SubHalf(product, 0, multiple, 0);
    var b1, b2 := 0, 0;
    if borrow != 0 {
      b1 := SubHalf(product, 4, one, 0);
    }
    b2 := SubHalf(product, 4, multiple, 4);
    Halves(product);
    WideDifference(lo, hi, mlo, mhi, V(product, 0, 4), V(product, 4, 4), borrow, b1 + b2);
  }

  // When the difference is not negative the top half cannot borrow.
  lemma WideDifference(lo: int, hi: int, mlo: int, mhi: int, lo': int, hi': int, borrow: int, top: int)
    requires mlo + R * mhi <= lo + R * hi
    requires lo' - R * borrow == lo - mlo && hi' - R * top == hi - mhi - borrow
    requires 0 <= lo' < R && 0 <= hi' < R && top >= 0
    ensures top == 0 && lo' + R * hi' == (lo + R * hi) - (mlo + R * mhi)
  {
  }

  // Moves a wide number down by one bit, carrying the bit between the halves.
  method WideHalve(a: array<Limb>)
    requires a.Length == 8
    modifies a
    ensures W(a) == old(W(a)) / 2
  {
    Halves(a);
    ghost var lo, hi := V(a, 0, 4), V(a, 4, 4);
    LowestBit(a);
    var carry := Wrap(a[4] % 2 * 0x8000_0000_0000_0000);
    ghost var low := a[0..4];
    Rshift1(a, 4, 4);
    assert a[0..4] == low;
    ghost var high := a[4..8];
    Rshift1(a, 0, 4);
    assert a[4..8] == high;
    ghost var s := a[0..4];
    if carry != 0 {
      a[3] := SetTopBit(a[3]);
      TopBitAdds(s, a[0..4]);
    }
    assert a[4..8] == high;
    Halves(a);
  }

  lemma LowestBit(a: array<Limb>)
    requires a.Length == 8
    ensures V(a, 4, 4) % 2 == a[4] % 2
  {
    ValHorner(a[4..8]);
  }

  /* ---- moving the modulus up ---- */

  // multiple := mod * 2^shift.
  method ShiftUp(multiple: array<Limb>, mod: array<Limb>, shift: nat)
    requires multiple.Length == 8 && mod.Length == 4 && multiple != mod && shift <= 256
    modifies multiple
    ensures W(multiple) == N(mod) * Pow2(shift)
  {
    hide Up, Val, Pow2;
    Clear(multiple, 0, 8);
    var digitShift, bitShift := shift / 64, shift % 64;
    ghost var m := N(mod);
    var carry := PlaceShifted(multiple, digitShift, mod, bitShift);
    Placed(multiple[0..8], digitShift, carry);
    ShiftSplits(m, shift, digitShift, bitShift);
    assert multiple[0..8][digitShift..digitShift + 4] == multiple[digitShift..digitShift + 4];
  }

  method PlaceShifted(multiple: array<Limb>, at: nat, mod: array<Limb>, bitShift: nat) returns (carry: Limb)
    requires multiple.Length == 8 && mod.Length == 4 && multiple != mod
    requires bitShift < 64 && at <= 4 && (at == 4 ==> bitShift == 0)
    requires forall j :: 0 <= j < 8 ==> multiple[j] == 0
    modifies multiple
    ensures V(multiple, at, 4) + R * carry == Pow2(bitShift) * N(mod)
    ensures at == 4 ==> carry == 0
    ensures at < 4 ==> multiple[at + 4] == carry
    ensures forall j :: 0 <= j < at || at + 5 <= j < 8 ==> multiple[j] == 0
  {
    hide Up, Val, Pow2;
    Pow2Zero();
    if bitShift != 0 {
      carry := Lshift(multiple, at, mod, 0, bitShift, 4);
      ghost var body := multiple[at..at + 4];
      multiple[at + 4] := carry;
      assert multiple[at..at + 4] == body;
      UpFour(carry);
    } else {
      carry := 0;
      Set(multiple, at, mod, 0, 4);
    }
  }

  // A limb sequence that is zero except for four limbs and a carry above them.
  lemma Placed(s: seq<Limb>, at: nat, carry: Limb)
    requires |s| == 8 && at <= 4 && (at == 4 ==> carry == 0)
    requires at < 4 ==> s[at + 4] == carry
    requires forall j :: 0 <= j < at || at + 5 <= j < 8 ==> s[j] == 0
    ensures Val(s) == Up(Val(s[at..at + 4]) + R * carry, at)
  {
    hide Val, Up;
    ValSplit(s, at);
    ValZeros(s[..at]);
    var t := s[at..];
    ValSplit(t, 4);
    assert t[..4] == s[at..at + 4];
    UpFour(Val(t[4..]));
    if at < 4 {
      ValHorner(t[4..]);
      ValZeros(t[4..][1..]);
    } else {
      ValZeros(t[4..]);
    }
  }

  lemma ShiftSplits(m: nat, shift: nat, digits: nat, bits: nat)
    requires shift == 64 * digits + bits
    ensures Up(Pow2(bits) * m, digits) == m * Pow2(shift)
  {
    hide Up, Pow2;
    UpIsPow2(digits);
    UpScale(Pow2(bits) * m, 1, digits);
    Pow2Add(bits, 64 * digits);
    assert Pow2(bits) * m * 1 == Pow2(bits) * m;
    MulAssoc(Pow2(bits), m, Pow2(64 * digits));
    assert Pow2(bits) * m * Pow2(64 * digits) == m * (Pow2(bits) * Pow2(64 * digits));
  }

  /* ---- the main loop ---- */

  // After shifting the modulus up by j bits: what is left of the product is congruent to the whole and
  // below twice the shifted modulus. The last turn leaves j = -1 and a reduced product.
  ghost predicate Turning(p: nat, q: nat, j: int, m: nat, total: nat) {
    && j >= -1 && Cong(p, total, m)
    && (j >= 0 ==> q == m * Pow2(j) && p < 2 * q)
    && (j == -1 ==> q == m / 2 && p < m)
  }

  lemma TurnStarts(total: nat, m: nat, j: nat)
    requires m > 0 && BitLength(total) == BitLength(m) + j
    ensures Turning(total, m * Pow2(j), j, m, total)
  {
    hide Cong, BitLength, Pow2;
    CongRefl(total, m);
    var k := BitLength(m);
    NoBits(m);
    Pow2Add(k, j);
    Pow2Step(k);
    var h, d := Pow2(k - 1), Pow2(j);
    MulMono(h, m, d);
    assert 2 * h * d == 2 * (h * d);
  }

  lemma Pow2Step(k: nat)
    requires k > 0
    ensures Pow2(k) == 2 * Pow2(k - 1)
  {
  }

  // The product of a number below 2^256 and a number below m is at most 256 bits longer than m.
  lemma ShiftFits(total: nat, x: nat, y: nat, m: nat)
    requires total == x * y && m > 0 && x < R && y < m
    ensures BitLength(total) <= BitLength(m) + 256
  {
    hide BitLength, Pow2, HalfBits;
    var k := BitLength(m);
    RIsPow2();
    HalfBitsIs();
    Pow2Add(HalfBits(), k);
    MulMono(x, R, y);
    ProductBelow(x, y, R, Pow2(k));
    var b := BitLength(total);
    if b > k + HalfBits() {
      Pow2Monotone(HalfBits() + k, b - 1);
      NoBits(total);
    }
  }

  lemma HalfBitsIs()
    ensures HalfBits() == 256
  {
  }

  lemma ProductBelow(x: nat, y: nat, a: nat, b: nat)
    requires x < a && y < b
    ensures x * y < a * b
  {
    MulMono(x, a, y);
    Commute(a, y);
    Commute(a, b);
    MulMono(y + 1, b, a);
    Distribute(y, 1, a);
  }

  lemma TurnStep(p: nat, q: nat, p': nat, j: int, m: nat, total: nat)
    requires m > 0 && j >= 0 && Turning(p, q, j, m, total) && p' == if q <= p then p - q else p
    ensures Turning(p', q / 2, j - 1, m, total)
  {
    hide Cong, Pow2;
    var d := Pow2(j);
    if q <= p {
      assert m * d == d * m;
      CongBy(p', p, m, -d);
      CongTrans(p', p, total, m);
    }
    if j > 0 {
      Pow2Step(j);
      assert m * (2 * Pow2(j - 1)) == 2 * (m * Pow2(j - 1));
    } else {
      Pow2Zero();
    }
  }

  // The loop guard decides exactly whether the modulus is still shifted up by zero bits or more.
  lemma GuardExact(p: nat, q: nat, lo: nat, hi: nat, j: int, m: nat, total: nat, bits: int)
    requires 0 < m < R && Turning(p, q, j, m, total) && q == lo + R * hi && lo < R
    requires bits == BitLength(m) + j
    ensures (bits > 256 || lo >= m) <==> j >= 0
  {
    hide Cong, BitLength, Pow2, HalfBits;
    var k := BitLength(m);
    RIsPow2();
    HalfBitsIs();
    if j >= 0 {
      Pow2Add(k, j);
      MulMono(m, Pow2(k) - 1, Pow2(j));
      Distribute(Pow2(k), 1, Pow2(j));
      MulMono(1, Pow2(j), m);
      Commute(Pow2(j), m);
      if bits <= 256 {
        Pow2Monotone(k + j, HalfBits());
        assert hi == 0;
      }
    } else {
      if k > 256 {
        Pow2Monotone(HalfBits(), k - 1);
        NoBits(m);
      }
    }
  }

  // The modulus shifted up under the product stays inside eight limbs.
  predicate Room(x: nat, y: nat, m: nat) {
    NonNegativeProduct(x, y);
    BitLength(x * y) <= BitLength(m) + 256
  }

  // There is room when one factor is reduced.
  lemma RoomReduced(x: nat, y: nat, m: nat)
    requires m > 0 && x < R && y < R && (x < m || y < m)
    ensures Room(x, y, m)
  {
    hide BitLength;
    if y < m {
      ShiftFits(x * y, x, y, m);
    } else {
      Commute(x, y);
      ShiftFits(x * y, y, x, m);
    }
  }

  // And when the modulus has 256 bits.
  lemma RoomLong(x: nat, y: nat, m: nat)
    requires x < R && y < R && R <= 2 * m
    ensures Room(x, y, m)
  {
    hide *;
    RIsPow2();
    HalfBitsIs();
    NonNegativeProduct(x, y);
    LongProduct(x, y, m, x * y, HalfBits(), R);
    RoomIs(x, y, m, x * y);
  }

  lemma LongProduct(x: nat, y: nat, m: nat, total: nat, h: nat, r: nat)
    requires h > 0 && r == Pow2(h) && x < r && y < r && r <= 2 * m && total == x * y
    ensures BitLength(total) <= BitLength(m) + h
  {
    hide BitLength, Pow2;
    NoBits(total);
    ProductBelow(x, y, r, r);
    Pow2Add(h, h);
    if BitLength(total) > h + h {
      Pow2Monotone(h + h, BitLength(total) - 1);
    }
    if BitLength(m) < h {
      Pow2Monotone(BitLength(m), h - 1);
      Pow2Step(h);
    }
  }

  lemma RoomIs(x: nat, y: nat, m: nat, total: int)
    requires total == x * y
    ensures total >= 0 && (Room(x, y, m) <==> BitLength(total) <= BitLength(m) + 256)
  {
    hide BitLength;
    NonNegativeProduct(x, y);
  }

  // result := left * right % mod.
  method ModMult(r: array<Limb>, left: array<Limb>, right: array<Limb>, mod: array<Limb>)
    requires r.Length == left.Length == right.Length == mod.Length == 4 && r != mod
    requires N(mod) > 0 && Room(N(left), N(right), N(mod))
    modifies r
    ensures N(r) == old(N(left)) * old(N(right)) % N(mod) && N(r) < N(mod)
  {
    hide *;
    ghost var x, y, m := N(left), N(right), N(mod);
    NRange(mod);
    var modBits := NumBits(mod, 0, 4);
    NIsV(mod);
    var product, multiple := new Limb[8], new Limb[8];
    WideProduct(product, left, right);
    RoomIs(x, y, m, W(product));
    var productBits := WideBits(product);
    if productBits < modBits {
      TakeShort(r, product, mod);
    } else {
      ReduceDown(r, product, multiple, mod, productBits, modBits);
    }
  }

  method WideProduct(product: array<Limb>, left: array<Limb>, right: array<Limb>)
    requires product.Length == 8 && left.Length == right.Length == 4 && product != left && product != right
    modifies product
    ensures W(product) == N(left) * N(right)
  {
    hide *;
    Mult(product, left, right);
    NIsV(left);
    NIsV(right);
    WIsV(product);
  }

  // A product shorter than the modulus is below it.
  method TakeShort(r: array<Limb>, product: array<Limb>, mod: array<Limb>)
    requires r.Length == mod.Length == 4 && product.Length == 8 && r != product && r != mod
    requires BitLength(W(product)) < BitLength(N(mod))
    modifies r
    ensures N(mod) > 0 && N(r) == W(product) % N(mod) && N(r) < N(mod)
  {
    hide *;
    ghost var total, m := W(product), N(mod);
    ShorterIsSmaller(total, m);
    TakeLow(r, product, mod);
    DivUnique(total, m, 0, total);
  }

  // What is below the modulus is in the low half.
  method TakeLow(r: array<Limb>, product: array<Limb>, ghost mod: array<Limb>)
    requires r.Length == mod.Length == 4 && product.Length == 8 && r != product && r != mod
    requires W(product) < N(mod)
    modifies r
    ensures N(r) == W(product)
  {
    hide *;
    ghost var total, m := W(product), N(mod);
    NRange(mod);
    Halves(product);
    Set(r, 0, product, 0, 4);
    NIsV(r);
    LowHalf(V(product, 0, 4), V(product, 4, 4), total, m);
  }

  lemma LowHalf(lo: nat, hi: nat, w: nat, m: nat)
    requires w == lo + R * hi && w < m < R
    ensures lo == w
  {
    if hi > 0 {
      MulMono(1, hi, R);
    }
  }

  // Shifts the modulus up under the product and subtracts it down to the remainder.
  method ReduceDown(r: array<Limb>, product: array<Limb>, multiple: array<Limb>, mod: array<Limb>,
                    productBits: nat, modBits: nat)
    requires r.Length == mod.Length == 4 && product.Length == multiple.Length == 8
    requires r != mod && r != product && r != multiple && product != multiple && product != mod && multiple != mod
    requires 0 < N(mod) < R && modBits == BitLength(N(mod)) && productBits == BitLength(W(product))
    requires modBits <= productBits <= modBits + 256
    modifies r, product, multiple
    ensures N(r) == old(W(product)) % N(mod) && N(r) < N(mod)
  {
    hide *;
    ghost var total, m := W(product), N(mod);
    ShiftUp(multiple, mod, productBits - modBits);
    Load(r, 1, 0, 0, 0);
    TurnStarts(total, m, productBits - modBits);
    SubtractDown(product, multiple, r, mod, productBits, modBits, total);
    TakeLow(r, product, mod);
    DivUniqueCong(N(r), total, m);
  }

  lemma WIsV(a: array<Limb>)
    requires a.Length == 8
    ensures W(a) == V(a, 0, 8)
  {
  }

  lemma ShorterIsSmaller(total: nat, m: nat)
    requires BitLength(total) < BitLength(m)
    ensures total < m
  {
    hide BitLength;
    if m <= total {
      BitLengthMonotone(m, total);
    }
  }

  lemma DivUniqueCong(a: nat, total: nat, m: nat)
    requires Cong(a, total, m) && a < m
    ensures a == total % m
  {
    hide Cong;
    CongResidue(a, total, m);
    DivUnique(a, m, 0, a);
  }

  // Subtracts the shifted modulus wherever it fits, moving it down one bit at a time.
  method SubtractDown(product: array<Limb>, multiple: array<Limb>, one: array<Limb>, mod: array<Limb>,
                      startBits: nat, modBits: nat, ghost total: nat)
    requires product.Length == multiple.Length == 8 && one.Length == mod.Length == 4
    requires product != multiple && product != one && product != mod && multiple != one && multiple != mod
    requires N(one) == 1 && 0 < N(mod) < R && modBits == BitLength(N(mod)) && startBits >= modBits
    requires Turning(W(product), W(multiple), startBits - modBits, N(mod), total)
    modifies product, multiple
    ensures W(product) < N(mod) && Cong(W(product), total, N(mod))
  {
    hide N, W, V, Turning, BitLength, Cong;
    ghost var m := N(mod);
    var productBits: int := startBits;
    ghost var j := startBits - modBits;
    var more := StillUp(product, multiple, mod, productBits, modBits, total);
    while more
      invariant N(mod) == m && N(one) == 1 && j == productBits - modBits
      invariant Turning(W(product), W(multiple), j, m, total)
      invariant more <==> j >= 0
      decreases j
    {
      ghost var p, q := W(product), W(multiple);
      var below := WideAtMost(multiple, product);
      if below {
        WideSub(product, multiple, one);
      }
      WideHalve(multiple);
      TurnStep(p, q, W(product), j, m, total);
      productBits := productBits - 1;
      j := j - 1;
      more := StillUp(product, multiple, mod, productBits, modBits, total);
    }
    TurnEnds(W(product), W(multiple), j, m, total);
  }

  lemma TurnEnds(p: nat, q: nat, j: int, m: nat, total: nat)
    requires Turning(p, q, j, m, total) && j < 0
    ensures p < m && Cong(p, total, m)
  {
  }

  method StillUp(product: array<Limb>, multiple: array<Limb>, mod: array<Limb>, productBits: int, modBits: nat,
                 ghost total: nat) returns (more: bool)
    requires product.Length == multiple.Length == 8 && mod.Length == 4
    requires 0 < N(mod) < R && modBits == BitLength(N(mod))
    requires Turning(W(product), W(multiple), productBits - modBits, N(mod), total)
    ensures more <==> productBits - modBits >= 0
  {
    hide N, W, V, Turning, BitLength;
    NIsV(mod);
    Halves(multiple);
    var sign := Cmp(multiple, 0, mod, 0, 4);
    more := productBits > 4 * 64 || sign >= 0;
    GuardExact(W(product), W(multiple), V(multiple, 0, 4), V(multiple, 4, 4), productBits - modBits, N(mod), total,
               productBits);
  }
}
