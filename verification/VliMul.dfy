/** Exact 256 x 256 -> 512 bit product and square, computed column by column with a 192-bit
    accumulator held as a 128-bit word and a 64-bit word. */
module VliMul {
  import opened Bits
  import opened Vli

  // An unsigned 128-bit word.
  type Wide = x: int | 0 <= x < W128

  // Integer product, named so that proofs about columns can treat each product as one unknown.
  function Mul(x: int, y: int): int {
    x * y
  }

  lemma MulIs(x: int, y: int)
    ensures Mul(x, y) == x * y
  {
  }

  lemma MulBounds(x: Limb, y: Limb)
    ensures 0 <= Mul(x, y) <= 0xFFFF_FFFF_FFFF_FFFE_0000_0000_0000_0001
  {
    var top := 0xFFFF_FFFF_FFFF_FFFF;
    MulMono(x, top, y);
    MulMono(y, top, top);
    MulMono(0, x, y);
  }

  // Row i of column k, and the columns as sums of rows.
  function FirstRow(k: nat): nat {
    if k < 4 then 0 else k - 3
  }

  function EndRow(k: nat): nat {
    if k < 4 then k + 1 else 4
  }

  ghost function Part(a: seq<Limb>, b: seq<Limb>, k: nat, i: nat): int
    requires |a| == |b| == 4 && k < 7 && FirstRow(k) <= i <= EndRow(k)
    decreases i
  {
    if i == FirstRow(k) then 0 else Part(a, b, k, i - 1) + Mul(a[i - 1], b[k - (i - 1)])
  }

  // Sum of the first k columns, each moved to its place.
  ghost function Columns(a: seq<Limb>, b: seq<Limb>, k: nat): int
    requires |a| == |b| == 4 && k <= 7
    decreases k
  {
    if k == 0 then 0 else Columns(a, b, k - 1) + Up(Part(a, b, k - 1, EndRow(k - 1)), k - 1)
  }

  lemma NoColumns(a: seq<Limb>, b: seq<Limb>)
    requires |a| == |b| == 4
    ensures Columns(a, b, 0) == 0
  {
  }

  /* ---- the columns add up to the product ---- */

  lemma Val4(s: seq<Limb>, s0: int, s1: int, s2: int, s3: int)
    requires |s| == 4 && s[0] == s0 && s[1] == s1 && s[2] == s2 && s[3] == s3
    ensures Val(s) == s0 + W64 * s1
      + W128 * s2
      + W192 * s3
  {
    assert s[..4] == s && s[..0] == [];
    ValSnoc(s, 3);
    ValSnoc(s, 2);
    ValSnoc(s, 1);
    ValSnoc(s, 0);
  }

  lemma MulSum(x: int, y: int, z: int)
    ensures Mul(x, y + z) == Mul(x, y) + Mul(x, z)
    ensures Mul(y + z, x) == Mul(y, x) + Mul(z, x)
  {
  }

  lemma MulScale(x: int, c: int, y: int)
    ensures Mul(x, c * y) == c * Mul(x, y)
    ensures Mul(c * y, x) == c * Mul(y, x)
  {
  }

  // A digit times a four-digit number, and a four-digit number times anything.
  lemma Row(x: int, b0: int, b1: int, b2: int, b3: int)
    ensures Mul(x, b0 + W64 * b1 + W128 * b2 + W192 * b3)
         == Mul(x, b0) + W64 * Mul(x, b1) + W128 * Mul(x, b2) + W192 * Mul(x, b3)
    ensures Mul(b0 + W64 * b1 + W128 * b2 + W192 * b3, x)
         == Mul(b0, x) + W64 * Mul(b1, x) + W128 * Mul(b2, x) + W192 * Mul(b3, x)
  {
    hide Mul;
    MulScale(x, W64, b1);
    MulScale(x, W128, b2);
    MulScale(x, W192, b3);
    MulSum(x, b0, W64 * b1);
    MulSum(x, b0 + W64 * b1, W128 * b2);
    MulSum(x, b0 + W64 * b1 + W128 * b2, W192 * b3);
  }

  lemma RowsAreColumns(a0: int, a1: int, a2: int, a3: int, b0: int, b1: int, b2: int, b3: int, a: int, b: int)
    requires a == a0 + W64 * a1 + W128 * a2 + W192 * a3
    requires b == b0 + W64 * b1 + W128 * b2 + W192 * b3
    ensures Mul(a, b) == Mul(a0, b0)
      + W64 * (Mul(a0, b1) + Mul(a1, b0))
      + W128 * (Mul(a0, b2) + Mul(a1, b1) + Mul(a2, b0))
      + W192 * (Mul(a0, b3) + Mul(a1, b2) + Mul(a2, b1) + Mul(a3, b0))
      + W256 * (Mul(a1, b3) + Mul(a2, b2) + Mul(a3, b1))
      + W320 * (Mul(a2, b3) + Mul(a3, b2))
      + W384 * (Mul(a3, b3))
  {
    hide Mul;
    Row(b, a0, a1, a2, a3);
    Row(a0, b0, b1, b2, b3);
    Row(a1, b0, b1, b2, b3);
    Row(a2, b0, b1, b2, b3);
    Row(a3, b0, b1, b2, b3);
  }

  lemma ColumnsAreProduct(a: seq<Limb>, b: seq<Limb>)
    requires |a| == |b| == 4
    ensures Columns(a, b, 7) == Val(a) * Val(b)
  {
    hide *;
    MulIs(Val(a), Val(b));
    Val4(a, a[0], a[1], a[2], a[3]);
    Val4(b, b[0], b[1], b[2], b[3]);
    RowsAreColumns(a[0], a[1], a[2], a[3], b[0], b[1], b[2], b[3], Val(a), Val(b));
    ColumnTable(a, b);
  }

  lemma ColumnParts(a: seq<Limb>, b: seq<Limb>)
    requires |a| == |b| == 4
    ensures Part(a, b, 0, EndRow(0)) == Mul(a[0], b[0])
    ensures Part(a, b, 1, EndRow(1)) == Mul(a[0], b[1]) + Mul(a[1], b[0])
    ensures Part(a, b, 2, EndRow(2)) == Mul(a[0], b[2]) + Mul(a[1], b[1]) + Mul(a[2], b[0])
    ensures Part(a, b, 3, EndRow(3)) == Mul(a[0], b[3]) + Mul(a[1], b[2]) + Mul(a[2], b[1]) + Mul(a[3], b[0])
    ensures Part(a, b, 4, EndRow(4)) == Mul(a[1], b[3]) + Mul(a[2], b[2]) + Mul(a[3], b[1])
    ensures Part(a, b, 5, EndRow(5)) == Mul(a[2], b[3]) + Mul(a[3], b[2])
    ensures Part(a, b, 6, EndRow(6)) == Mul(a[3], b[3])
  {
    hide Mul;
  }

  lemma ColumnTable(a: seq<Limb>, b: seq<Limb>)
    requires |a| == |b| == 4
    ensures Columns(a, b, 7) == Mul(a[0], b[0])
      + W64 * (Mul(a[0], b[1]) + Mul(a[1], b[0]))
      + W128 * (Mul(a[0], b[2]) + Mul(a[1], b[1]) + Mul(a[2], b[0]))
      + W192 * (Mul(a[0], b[3]) + Mul(a[1], b[2]) + Mul(a[2], b[1]) + Mul(a[3], b[0]))
      + W256 * (Mul(a[1], b[3]) + Mul(a[2], b[2]) + Mul(a[3], b[1]))
      + W320 * (Mul(a[2], b[3]) + Mul(a[3], b[2]))
      + W384 * (Mul(a[3], b[3]))
  {
    hide Mul, Part, EndRow;
    ColumnParts(a, b);
  }

  /* ---- the accumulator ---- */

  // r01 += product, counting the overflow in r2.
  method Accumulate(r01: Wide, r2: Limb, product: Wide) returns (s01: Wide, s2: Limb)
    requires r2 < 100
    ensures r2 <= s2 <= r2 + 1
    ensures s01 + W128 * s2
         == r01 + W128 * r2 + product
  {
    s01 := (r01 + product) % W128;
    s2 := r2 + (if s01 < product then 1 else 0);
  }

  // The low limb of the accumulator, and the accumulator moved down by one limb.
  method Emit(r01: Wide, r2: Limb) returns (digit: Limb, next: Wide)
    ensures digit + W64 * next == r01 + W128 * r2
  {
    digit := r01 % W64;
    next := r01 / W64 + r2 * W64;
  }

  // One more digit of the result is final; what is left over is at most 128 bits wide.
  lemma EmitDigit(low: seq<Limb>, before: int, a: seq<Limb>, b: seq<Limb>, digit: Limb, next: int)
    requires |a| == |b| == 4 && |low| < 7
    requires Val(low) + Up(before, |low|) == Columns(a, b, |low|)
    requires digit + W64 * next == before + Part(a, b, |low|, EndRow(|low|))
    ensures Val(low + [digit]) + Up(next, |low| + 1) == Columns(a, b, |low| + 1)
  {
    hide Val, Up, Part;
    var k := |low|;
    UpZero(k);
    CarryDigit(low, before, Columns(a, b, k), Part(a, b, k, EndRow(k)), 0, 0, digit, next);
  }

  // The last limb absorbs everything left over.
  lemma LastDigit(low: seq<Limb>, last: Wide, a: seq<Limb>, b: seq<Limb>)
    requires |a| == |b| == 4 && |low| == 7
    requires Val(low) + Up(last, 7) == Columns(a, b, 7)
    ensures last < 0x1_0000_0000_0000_0000 && Val(low + [last]) == Val(a) * Val(b)
  {
    hide *;
    ColumnsAreProduct(a, b);
    ProductBound(Val(a), Val(b), a, b);
    ValBound(low);
    if last >= 0x1_0000_0000_0000_0000 {
      UpMonotone(0x1_0000_0000_0000_0000, last, 7);
      UpBase(1, 7);
      assert false;
    }
    assert (low + [last])[..7] == low && (low + [last])[..8] == low + [last];
    ValSnoc(low + [last], 7);
  }

  lemma ProductBound(x: int, y: int, a: seq<Limb>, b: seq<Limb>)
    requires |a| == |b| == 4 && x == Val(a) && y == Val(b)
    ensures 0 <= x * y < Up(1, 8)
  {
    hide *;
    ValBound(a);
    ValBound(b);
    var u := Up(1, 4);
    UpScale(u, 1, 4);
    UpUp(1, 4, 4);
    assert Up(u, 4) == Up(1, 8);
    assert u * 1 == u;
    MulMono(0, x, y);
    MulMono(x, u, y);
    MulMono(y, u - 1, u);
    Distribute(u, 1, u);
  }

  // Adds column k of the product to the accumulator.
  method AddColumn(a: array<Limb>, b: array<Limb>, k: nat, before: Wide) returns (r01: Wide, r2: Limb)
    requires a.Length == 4 && b.Length == 4 && k < 7
    ensures r01 + W128 * r2
         == before + Part(a[0..4], b[0..4], k, EndRow(k))
  {
    hide Mul;
    ghost var A, B := a[0..4], b[0..4];
    r01, r2 := before, 0;
    var i := FirstRow(k);
    while i <= k && i < 4
      invariant FirstRow(k) <= i <= EndRow(k)
      invariant r2 <= i
      invariant r01 + W128 * r2 == before + Part(A, B, k, i)
    {
      MulBounds(a[i], b[k - i]);
      var product: Wide := Mul(a[i], b[k - i]);
      r01, r2 := Accumulate(r01, r2, product);
      i := i + 1;
    }
  }

  // result := left * right.
  method Mult(r: array<Limb>, a: array<Limb>, b: array<Limb>)
    requires r.Length == 8 && a.Length == 4 && b.Length == 4 && r != a && r != b
    modifies r
    ensures V(r, 0, 8) == V(a, 0, 4) * V(b, 0, 4)
  {
    hide Val, Up, Columns, Part, EndRow;
    ghost var A, B := a[0..4], b[0..4];
    ValEmpty();
    NoColumns(A, B);
    var r01: Wide, r2: Limb := 0, 0;
    assert r[0..0] == [];
    for k := 0 to 7
      invariant r2 == 0
      invariant a[0..4] == A && b[0..4] == B
      invariant Val(r[0..k]) + Up(r01, k) == Columns(A, B, k)
    {
      ghost var before, low := r01, r[0..k];
      r01, r2 := AddColumn(a, b, k, r01);
      var digit;
      digit, r01 := Emit(r01, r2);
      r2 := 0;
      EmitDigit(low, before, A, B, digit, r01);
      r[k] := digit;
      assert r[0..k + 1] == low + [digit];
    }
    ghost var low := r[0..7];
    LastDigit(low, r01, A, B);
    r[7] := Wrap(r01);
    assert r[0..8] == low + [r01];
  }

  /* ---- squaring ---- */

  // The rows of column k up to the middle, each pair of equal products taken once and doubled.
  ghost function HalfPart(a: seq<Limb>, k: nat, i: nat): int
    requires |a| == 4 && k < 7 && FirstRow(k) <= i <= k / 2 + 1
    decreases i
  {
    if i == FirstRow(k) then 0
    else HalfPart(a, k, i - 1) + (if i - 1 < k - (i - 1) then 2 else 1) * Mul(a[i - 1], a[k - (i - 1)])
  }

  lemma MulCommutes(x: int, y: int)
    ensures Mul(x, y) == Mul(y, x)
  {
    Commute(x, y);
  }

  lemma HalfIsWhole(a: seq<Limb>, k: nat)
    requires |a| == 4 && k < 7
    ensures HalfPart(a, k, k / 2 + 1) == Part(a, a, k, EndRow(k))
  {
    hide Mul;
    ColumnParts(a, a);
    HalfParts(a);
    MulCommutes(a[0], a[1]);
    MulCommutes(a[0], a[2]);
    MulCommutes(a[0], a[3]);
    MulCommutes(a[1], a[2]);
    MulCommutes(a[1], a[3]);
    MulCommutes(a[2], a[3]);
  }

  lemma HalfParts(a: seq<Limb>)
    requires |a| == 4
    ensures HalfPart(a, 0, 1) == Mul(a[0], a[0])
    ensures HalfPart(a, 1, 1) == 2 * Mul(a[0], a[1])
    ensures HalfPart(a, 2, 2) == 2 * Mul(a[0], a[2]) + Mul(a[1], a[1])
    ensures HalfPart(a, 3, 2) == 2 * Mul(a[0], a[3]) + 2 * Mul(a[1], a[2])
    ensures HalfPart(a, 4, 3) == 2 * Mul(a[1], a[3]) + Mul(a[2], a[2])
    ensures HalfPart(a, 5, 3) == 2 * Mul(a[2], a[3])
    ensures HalfPart(a, 6, 4) == Mul(a[3], a[3])
  {
    hide Mul;
  }

  // Doubles a product below the diagonal; the bit lost by doubling in 128 bits goes to r2.
  method Double(product: Wide, r2: Limb) returns (doubled: Wide, s2: Limb)
    requires r2 < 100
    ensures r2 <= s2 <= r2 + 1
    ensures doubled + W128 * s2
         == 2 * product + W128 * r2
  {
    s2 := r2 + product / 0x8000_0000_0000_0000_0000_0000_0000_0000;
    doubled := product * 2 % W128;
  }

  method AddHalfColumn(a: array<Limb>, k: nat, before: Wide) returns (r01: Wide, r2: Limb)
    requires a.Length == 4 && k < 7
    ensures r01 + W128 * r2
         == before + HalfPart(a[0..4], k, k / 2 + 1)
  {
    hide Mul;
    ghost var A := a[0..4];
    r01, r2 := before, 0;
    var i := FirstRow(k);
    while i <= k && i <= k - i
      invariant FirstRow(k) <= i <= k / 2 + 1
      invariant r2 <= 2 * i
      invariant r01 + W128 * r2 == before + HalfPart(A, k, i)
    {
      MulBounds(a[i], a[k - i]);
      var product: Wide := Mul(a[i], a[k - i]);
      if i < k - i {
        product, r2 := Double(product, r2);
      }
      r01, r2 := Accumulate(r01, r2, product);
      i := i + 1;
    }
  }

  // result := left^2.
  method Square(r: array<Limb>, a: array<Limb>)
    requires r.Length == 8 && a.Length == 4 && r != a
    modifies r
    ensures V(r, 0, 8) == V(a, 0, 4) * V(a, 0, 4)
  {
    hide Val, Up, Columns, Part, EndRow, HalfPart;
    ghost var A := a[0..4];
    ValEmpty();
    NoColumns(A, A);
    var r01: Wide, r2: Limb := 0, 0;
    assert r[0..0] == [];
    for k := 0 to 7
      invariant r2 == 0
      invariant a[0..4] == A
      invariant Val(r[0..k]) + Up(r01, k) == Columns(A, A, k)
    {
      ghost var before, low := r01, r[0..k];
      r01, r2 := AddHalfColumn(a, k, r01);
      HalfIsWhole(A, k);
      var digit;
      digit, r01 := Emit(r01, r2);
      r2 := 0;
      EmitDigit(low, before, A, A, digit, r01);
      r[k] := digit;
      assert r[0..k + 1] == low + [digit];
    }
    ghost var low := r[0..7];
    LastDigit(low, r01, A, A);
    r[7] := Wrap(r01);
    assert r[0..8] == low + [r01];
  }
}
