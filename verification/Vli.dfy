/** Little-endian multi-precision integers over 64-bit limbs.
    A C pointer into a buffer is an array and an offset; every method may be used in place, as the
    original is, and its contract speaks of the value the operands had before the call. */
module Vli {
  import opened Bits

  const BASE: nat := 0x1_0000_0000_0000_0000

  // An unsigned 64-bit word.
  type Limb = x: int | 0 <= x < 0x1_0000_0000_0000_0000

  // d * 2^(64 k). Defined by repeated scaling, so that sums of limbs stay linear terms.
  ghost function Up(d: int, k: nat): int
    decreases k
  {
    if k == 0 then d else 0x1_0000_0000_0000_0000 * Up(d, k - 1)
  }

  // The number a limb sequence stands for.
  ghost function Val(s: seq<Limb>): int
  {
    if |s| == 0 then 0 else Val(s[..|s| - 1]) + Up(s[|s| - 1], |s| - 1)
  }

  // The number stored in n limbs of a buffer, starting at an offset.
  ghost function V(a: array<Limb>, off: nat, n: nat): nat
    requires off + n <= a.Length
    reads a
  {
    ValBound(a[off..off + n]);
    Val(a[off..off + n])
  }

  // Arithmetic on unsigned 64-bit words wraps around.
  function Wrap(x: int): (r: Limb)
    ensures 0 <= x < BASE ==> r == x
    ensures BASE <= x < 2 * BASE ==> r == x - BASE
    ensures -0x1_0000_0000_0000_0000 <= x < 0 ==> r == x + 0x1_0000_0000_0000_0000
  {
    x % 0x1_0000_0000_0000_0000
  }

  /* ---- facts about values ---- */

  lemma {:induction false} UpSum(d: int, e: int, k: nat)
    ensures Up(d + e, k) == Up(d, k) + Up(e, k)
  {
    if k > 0 {
      UpSum(d, e, k - 1);
    }
  }

  lemma {:induction false} UpNeg(d: int, k: nat)
    ensures Up(-d, k) == -Up(d, k)
  {
    if k > 0 {
      UpNeg(d, k - 1);
    }
  }

  lemma {:induction false} UpMonotone(d: int, e: int, k: nat)
    requires d <= e
    ensures Up(d, k) <= Up(e, k)
  {
    if k > 0 {
      UpMonotone(d, e, k - 1);
    }
  }

  lemma {:induction false} UpSign(d: int, k: nat)
    ensures d > 0 ==> Up(d, k) > 0
    ensures d == 0 ==> Up(d, k) == 0
    ensures d < 0 ==> Up(d, k) < 0
  {
    if k > 0 {
      UpSign(d, k - 1);
    }
  }

  lemma {:induction false} UpUp(d: int, i: nat, j: nat)
    ensures Up(Up(d, i), j) == Up(d, i + j)
    decreases j
  {
    if j > 0 {
      UpUp(d, i, j - 1);
    }
  }

  lemma UpBase(d: int, k: nat)
    ensures Up(0x1_0000_0000_0000_0000 * d, k) == Up(d, k + 1)
  {
    UpUp(d, 1, k);
    assert Up(d, 1) == 0x1_0000_0000_0000_0000 * Up(d, 0);
  }

  lemma {:induction false} ValBound(s: seq<Limb>)
    ensures 0 <= Val(s) < Up(1, |s|)
  {
    if |s| > 0 {
      var k := |s| - 1;
      ValBound(s[..k]);
      UpMonotone(s[k], 0x1_0000_0000_0000_0000 - 1, k);
      UpSum(0x1_0000_0000_0000_0000 - 1, 1, k);
      UpBase(1, k);
      UpSign(s[k], k);
    }
  }

  lemma ValSnoc(s: seq<Limb>, i: nat)
    requires i < |s|
    ensures Val(s[..i + 1]) == Val(s[..i]) + Up(s[i], i)
  {
    assert s[..i + 1][..i] == s[..i];
  }

  // A number is its low limbs plus its high limbs moved up.
  lemma {:induction false} ValSplit(s: seq<Limb>, i: nat)
    requires i <= |s|
    ensures Val(s) == Val(s[..i]) + Up(Val(s[i..]), i)
    decreases |s| - i
  {
    if i == |s| {
      assert s[..i] == s;
      UpSign(0, i);
    } else {
      var k := |s| - 1;
      ValSplit(s[..k], i);
      assert s[..k][..i] == s[..i];
      assert s[i..][..k - i] == s[..k][i..];
      UpUp(s[k], k - i, i);
      UpSum(Val(s[..k][i..]), Up(s[k], k - i), i);
    }
  }

  lemma ValEmpty()
    ensures Val([]) == 0 && Up(0, 0) == 0
  {
  }

  lemma {:induction false} ValZeros(s: seq<Limb>)
    requires forall i :: 0 <= i < |s| ==> s[i] == 0
    ensures Val(s) == 0
  {
    if |s| > 0 {
      ValZeros(s[..|s| - 1]);
      UpSign(0, |s| - 1);
    }
  }

  // Two limb sequences of one length are equal when their values are.
  lemma {:induction false} ValInjective(s: seq<Limb>, t: seq<Limb>)
    requires |s| == |t| && Val(s) == Val(t)
    ensures s == t
  {
    if |s| > 0 {
      var k := |s| - 1;
      if s[k] != t[k] {
        if s[k] < t[k] { TopLimbDecides(s, t); } else { TopLimbDecides(t, s); }
        assert false;
      }
      ValInjective(s[..k], t[..k]);
      assert s == s[..k] + [s[k]] && t == t[..k] + [t[k]];
    }
  }

  lemma TopLimbDecides(s: seq<Limb>, t: seq<Limb>)
    requires |s| == |t| > 0 && s[|s| - 1] < t[|t| - 1]
    ensures Val(s) < Val(t)
  {
    var k := |s| - 1;
    ValBound(s[..k]);
    ValBound(t[..k]);
    UpSum(s[k], 1, k);
    UpMonotone(s[k] + 1, t[k], k);
  }

  // The top bits of two numbers that agree above limb i are decided below it.
  lemma EqualTails(s: seq<Limb>, t: seq<Limb>, i: nat)
    requires i <= |s| == |t| && s[i..] == t[i..]
    ensures Val(s) - Val(t) == Val(s[..i]) - Val(t[..i])
  {
    ValSplit(s, i);
    ValSplit(t, i);
  }

  // One digit of a schoolbook sum: the carry leaves position i and enters position i + 1.
  lemma CarryDigit(low: seq<Limb>, before: int, a: int, x: int, b: int, y: int, digit: Limb, carry: int)
    requires Val(low) + Up(before, |low|) == a + b
    requires x + y + before == digit + 0x1_0000_0000_0000_0000 * carry
    ensures Val(low + [digit]) + Up(carry, |low| + 1) == a + Up(x, |low|) + b + Up(y, |low|)
  {
    var i := |low|;
    assert (low + [digit])[..i] == low;
    UpSum(x, y, i);
    UpSum(x + y, before, i);
    UpSum(digit, 0x1_0000_0000_0000_0000 * carry, i);
    UpBase(carry, i);
  }

  lemma AddDigit(i: nat, low: seq<Limb>, before: int, A: seq<Limb>, B: seq<Limb>, digit: Limb, carry: int)
    requires |low| == i < |A| == |B|
    requires Val(low) + Up(before, i) == Val(A[..i]) + Val(B[..i])
    requires A[i] + B[i] + before == digit + 0x1_0000_0000_0000_0000 * carry
    ensures Val(low + [digit]) + Up(carry, i + 1) == Val(A[..i + 1]) + Val(B[..i + 1])
  {
    ValSnoc(A, i);
    ValSnoc(B, i);
    CarryDigit(low, before, Val(A[..i]), A[i], Val(B[..i]), B[i], digit, carry);
  }

  lemma SubDigit(i: nat, low: seq<Limb>, before: int, A: seq<Limb>, B: seq<Limb>, digit: Limb, borrow: int)
    requires |low| == i < |A| == |B|
    requires Val(low) - Up(before, i) == Val(A[..i]) - Val(B[..i])
    requires A[i] - B[i] - before == digit - 0x1_0000_0000_0000_0000 * borrow
    ensures Val(low + [digit]) - Up(borrow, i + 1) == Val(A[..i + 1]) - Val(B[..i + 1])
  {
    ValSnoc(A, i);
    ValSnoc(B, i);
    UpNeg(before, i);
    UpNeg(B[i], i);
    UpNeg(borrow, i + 1);
    var y: int := B[i];
    CarryDigit(low, -before, Val(A[..i]), A[i], -Val(B[..i]), -y, digit, -borrow);
  }

  /* ---- the elementary routines ---- */

  // Writing r[ro + i] never destroys a limb of a that is still to be read.
  predicate SafeOverlap(r: array<Limb>, ro: nat, a: array<Limb>, ao: nat, n: nat)
  {
    r == a ==> ro <= ao || ao + n <= ro
  }

  method Clear(r: array<Limb>, ro: nat, n: nat)
    requires ro + n <= r.Length
    modifies r
    ensures V(r, ro, n) == 0
    ensures forall j :: ro <= j < ro + n ==> r[j] == 0
    ensures forall j :: 0 <= j < r.Length && !(ro <= j < ro + n) ==> r[j] == old(r[j])
  {
    for i := 0 to n
      invariant forall j :: ro <= j < ro + i ==> r[j] == 0
      invariant forall j :: 0 <= j < r.Length && !(ro <= j < ro + i) ==> r[j] == old(r[j])
    {
      r[ro + i] := 0;
    }
    ValZeros(r[ro..ro + n]);
  }

  method IsZero(a: array<Limb>, ao: nat, n: nat) returns (zero: bool)
    requires ao + n <= a.Length
    ensures zero <==> V(a, ao, n) == 0
  {
    for i := 0 to n
      invariant forall j :: ao <= j < ao + i ==> a[j] == 0
    {
      if a[ao + i] != 0 {
        NonzeroLimb(a[ao..ao + n], i);
        return false;
      }
    }
    ValZeros(a[ao..ao + n]);
    return true;
  }

  lemma NonzeroLimb(s: seq<Limb>, i: nat)
    requires i < |s| && s[i] != 0
    ensures Val(s) > 0
  {
    ValSplit(s, i + 1);
    ValSnoc(s, i);
    ValBound(s[..i]);
    ValBound(s[i + 1..]);
    UpSign(s[i], i);
    UpSign(Val(s[i + 1..]), i + 1);
  }

  method Set(r: array<Limb>, ro: nat, a: array<Limb>, ao: nat, n: nat)
    requires ro + n <= r.Length && ao + n <= a.Length && SafeOverlap(r, ro, a, ao, n)
    modifies r
    ensures r[ro..ro + n] == old(a[ao..ao + n])
    ensures V(r, ro, n) == old(V(a, ao, n))
    ensures forall j :: 0 <= j < r.Length && !(ro <= j < ro + n) ==> r[j] == old(r[j])
  {
    ghost var A := a[ao..ao + n];
    for i := 0 to n
      invariant r[ro..ro + i] == A[..i]
      invariant forall j :: ao + i <= j < ao + n ==> a[j] == old(a[j])
      invariant forall j :: 0 <= j < r.Length && !(ro <= j < ro + i) ==> r[j] == old(r[j])
    {
      ghost var low := r[ro..ro + i];
      r[ro + i] := a[ao + i];
      assert r[ro..ro + i + 1] == low + [A[i]];
      assert A[..i + 1] == A[..i] + [A[i]];
    }
    assert A[..n] == A;
  }

  // The sign of left - right.
  method Cmp(a: array<Limb>, ao: nat, b: array<Limb>, bo: nat, n: nat) returns (sign: int)
    requires ao + n <= a.Length && bo + n <= b.Length
    ensures sign == if V(a, ao, n) > V(b, bo, n) then 1 else if V(a, ao, n) < V(b, bo, n) then -1 else 0
  {
    hide Up, Val;
    ghost var A, B := a[ao..ao + n], b[bo..bo + n];
    var i := n;
    while i > 0
      invariant 0 <= i <= n
      invariant A[i..] == B[i..]
    {
      i := i - 1;
      if a[ao + i] != b[bo + i] {
        EqualTails(A, B, i + 1);
        assert A[..i + 1][i] == a[ao + i] && B[..i + 1][i] == b[bo + i];
        if a[ao + i] > b[bo + i] {
          TopLimbDecides(B[..i + 1], A[..i + 1]);
          return 1;
        } else {
          TopLimbDecides(A[..i + 1], B[..i + 1]);
          return -1;
        }
      }
    }
    assert A == A[0..] == B[0..] == B;
    return 0;
  }

  // The wrapped sum of two limbs and a carry; the carry survives when the sum equals the left limb.
  method AddLimb(x: Limb, y: Limb, carryIn: Limb) returns (sum: Limb, carry: Limb)
    requires carryIn <= 1
    ensures carry <= 1 && x + y + carryIn == sum + 0x1_0000_0000_0000_0000 * carry
  {
    sum, carry := Wrap(x + y + carryIn), carryIn;
    if sum != x {
      carry := if sum < x then 1 else 0;
    }
  }

  method SubLimb(x: Limb, y: Limb, borrowIn: Limb) returns (diff: Limb, borrow: Limb)
    requires borrowIn <= 1
    ensures borrow <= 1 && x - y - borrowIn == diff - 0x1_0000_0000_0000_0000 * borrow
  {
    diff, borrow := Wrap(x - y - borrowIn), borrowIn;
    if diff != x {
      borrow := if diff > x then 1 else 0;
    }
  }

  // result := left + right, returning the carry.
  method Add(r: array<Limb>, ro: nat, a: array<Limb>, ao: nat, b: array<Limb>, bo: nat, n: nat)
    returns (carry: Limb)
    requires ro + n <= r.Length && ao + n <= a.Length && bo + n <= b.Length
    requires SafeOverlap(r, ro, a, ao, n) && SafeOverlap(r, ro, b, bo, n)
    modifies r
    ensures carry <= 1
    ensures V(r, ro, n) + Up(carry, n) == old(V(a, ao, n)) + old(V(b, bo, n))
    ensures forall j :: 0 <= j < r.Length && !(ro <= j < ro + n) ==> r[j] == old(r[j])
  {
    hide Up, Val;
    ValEmpty();
    ghost var A, B := a[ao..ao + n], b[bo..bo + n];
    carry := 0;
    ghost var low: seq<Limb> := [];
    assert A[..0] == B[..0] == [];
    for i := 0 to n
      invariant carry <= 1 && |low| == i && forall j :: 0 <= j < i ==> r[ro + j] == low[j]
      invariant Val(low) + Up(carry, i) == Val(A[..i]) + Val(B[..i])
      invariant forall j :: ao + i <= j < ao + n ==> a[j] == old(a[j])
      invariant forall j :: bo + i <= j < bo + n ==> b[j] == old(b[j])
      invariant forall j :: 0 <= j < r.Length && !(ro <= j < ro + i) ==> r[j] == old(r[j])
    {
      ghost var before := carry;
      assert a[ao + i] == A[i] && b[bo + i] == B[i];
      var sum;
      sum, carry := AddLimb(a[ao + i], b[bo + i], carry);
      AddDigit(i, low, before, A, B, sum, carry);
      r[ro + i] := sum;
      low := low + [sum];
    }
    assert A[..n] == A && B[..n] == B && r[ro..ro + n] == low;
  }

  // result := left - right, returning the borrow.
  method Sub(r: array<Limb>, ro: nat, a: array<Limb>, ao: nat, b: array<Limb>, bo: nat, n: nat)
    returns (borrow: Limb)
    requires ro + n <= r.Length && ao + n <= a.Length && bo + n <= b.Length
    requires SafeOverlap(r, ro, a, ao, n) && SafeOverlap(r, ro, b, bo, n)
    modifies r
    ensures borrow <= 1
    ensures V(r, ro, n) - Up(borrow, n) == old(V(a, ao, n)) - old(V(b, bo, n))
    ensures forall j :: 0 <= j < r.Length && !(ro <= j < ro + n) ==> r[j] == old(r[j])
  {
    hide Up, Val;
    ValEmpty();
    ghost var A, B := a[ao..ao + n], b[bo..bo + n];
    borrow := 0;
    ghost var low: seq<Limb> := [];
    assert A[..0] == B[..0] == [];
    for i := 0 to n
      invariant borrow <= 1 && |low| == i && forall j :: 0 <= j < i ==> r[ro + j] == low[j]
      invariant Val(low) - Up(borrow, i) == Val(A[..i]) - Val(B[..i])
      invariant forall j :: ao + i <= j < ao + n ==> a[j] == old(a[j])
      invariant forall j :: bo + i <= j < bo + n ==> b[j] == old(b[j])
      invariant forall j :: 0 <= j < r.Length && !(ro <= j < ro + i) ==> r[j] == old(r[j])
    {
      ghost var before := borrow;
      assert a[ao + i] == A[i] && b[bo + i] == B[i];
      var diff;
      diff, borrow := SubLimb(a[ao + i], b[bo + i], borrow);
      SubDigit(i, low, before, A, B, diff, borrow);
      r[ro + i] := diff;
      low := low + [diff];
    }
    assert A[..n] == A && B[..n] == B && r[ro..ro + n] == low;
  }

  /* ---- shifts ---- */

  lemma {:induction false} UpScale(m: int, d: int, k: nat)
    ensures Up(m * d, k) == m * Up(d, k)
  {
    if k > 0 {
      UpScale(m, d, k - 1);
      MulAssoc(m, 0x1_0000_0000_0000_0000, Up(d, k - 1));
    }
  }

  lemma {:induction false} UpIsPow2(k: nat)
    ensures Up(1, k) == Pow2(64 * k)
  {
    if k > 0 {
      UpIsPow2(k - 1);
      Pow2Add(64 * (k - 1), 64);
      Pow2Of64();
      assert 64 * (k - 1) + 64 == 64 * k;
    }
  }

  lemma Pow2Of64()
    ensures Pow2(32) == 0x1_0000_0000 && Pow2(63) == 0x8000_0000_0000_0000
    ensures Pow2(64) == 0x1_0000_0000_0000_0000
  {
    hide Pow2;
    EightBits();
    Pow2Add(8, 8);
    Pow2Add(16, 16);
    Pow2Add(32, 32);
    Pow2Pred(64);
  }

  // (limb << shift) | carryIn, and the bits shifted out. The low bits of limb << shift are clear, so or is sum.
  method ShiftLimb(limb: Limb, shift: nat, carryIn: Limb) returns (digit: Limb, carry: Limb)
    requires 0 < shift < 64 && carryIn < Pow2(shift)
    ensures carry < Pow2(shift)
    ensures digit + 0x1_0000_0000_0000_0000 * carry == Pow2(shift) * limb + carryIn
  {
    ghost var M, D := Pow2(shift), Pow2(64 - shift);
    Pow2Add(shift, 64 - shift);
    Pow2Of64();
    ghost var q, rest := limb / D, limb % D;
    ShiftParts(M, D, limb);
    digit := Wrap(limb * Pow2(shift)) + carryIn;
    carry := limb / Pow2(64 - shift);
  }

  lemma ShiftParts(M: nat, D: nat, x: Limb)
    requires M * D == 0x1_0000_0000_0000_0000 && M > 0 && D > 0
    ensures 0 <= x / D < M
    ensures Wrap(x * M) == M * (x % D) <= BASE - M
    ensures M * x == 0x1_0000_0000_0000_0000 * (x / D) + M * (x % D)
  {
    var q, rest := x / D, x % D;
    assert x == q * D + rest;
    ShiftProduct(M, D, q, rest);
    DivUnique(x * M, 0x1_0000_0000_0000_0000, q, rest * M);
    if q >= M {
      MulMono(M, q, D);
    }
  }

  lemma ShiftProduct(M: nat, D: nat, q: nat, rest: nat)
    requires M * D == 0x1_0000_0000_0000_0000 && rest < D
    ensures (q * D + rest) * M == 0x1_0000_0000_0000_0000 * q + rest * M
    ensures 0 <= rest * M <= 0x1_0000_0000_0000_0000 - M
  {
    Distribute(q * D, rest, M);
    MulAssoc(q, D, M);
    MulMono(rest, D - 1, M);
    Distribute(D, 1, M);
  }

  // result := in << shift, returning the bits shifted out.
  method Lshift(r: array<Limb>, ro: nat, a: array<Limb>, ao: nat, shift: nat, n: nat) returns (carry: Limb)
    requires 0 < shift < 64
    requires ro + n <= r.Length && ao + n <= a.Length && SafeOverlap(r, ro, a, ao, n)
    modifies r
    ensures carry < Pow2(shift)
    ensures V(r, ro, n) + Up(carry, n) == Pow2(shift) * old(V(a, ao, n))
    ensures forall j :: 0 <= j < r.Length && !(ro <= j < ro + n) ==> r[j] == old(r[j])
  {
    hide Up, Val, Pow2;
    ValEmpty();
    ghost var A := a[ao..ao + n];
    carry := 0;
    assert r[ro..ro + 0] == A[..0] == [];
    for i := 0 to n
      invariant carry < Pow2(shift)
      invariant V(r, ro, i) + Up(carry, i) == Pow2(shift) * Val(A[..i])
      invariant forall j :: ao + i <= j < ao + n ==> a[j] == old(a[j])
      invariant forall j :: 0 <= j < r.Length && !(ro <= j < ro + i) ==> r[j] == old(r[j])
    {
      ghost var before, low := carry, r[ro..ro + i];
      var digit;
      digit, carry := ShiftLimb(a[ao + i], shift, carry);
      ShiftDigit(i, low, before, Pow2(shift), A, digit, carry);
      r[ro + i] := digit;
      assert r[ro..ro + i + 1] == low + [digit];
    }
    assert A[..n] == A;
  }

  lemma ShiftDigit(i: nat, low: seq<Limb>, before: int, m: nat, A: seq<Limb>, digit: Limb, carry: int)
    requires |low| == i < |A|
    requires Val(low) + Up(before, i) == m * Val(A[..i])
    requires digit + 0x1_0000_0000_0000_0000 * carry == m * A[i] + before
    ensures Val(low + [digit]) + Up(carry, i + 1) == m * Val(A[..i + 1])
  {
    hide Up, Val;
    ValSnoc(A, i);
    UpScale(m, A[i], i);
    Distribute(Val(A[..i]), Up(A[i], i), m);
    UpZero(i);
    CarryDigit(low, before, m * Val(A[..i]), m * A[i], 0, 0, digit, carry);
  }

  lemma UpZero(k: nat)
    ensures Up(0, k) == 0
  {
    UpSign(0, k);
  }

  // The lowest limb is the number modulo 2^64.
  lemma ValHorner(s: seq<Limb>)
    requires |s| > 0
    ensures Val(s) == s[0] + 0x1_0000_0000_0000_0000 * Val(s[1..])
  {
    ValSplit(s, 1);
    assert s[..1] == [s[0]];
    assert Up(Val(s[1..]), 1) == 0x1_0000_0000_0000_0000 * Up(Val(s[1..]), 0);
  }

  // vli := vli >> 1.
  method Rshift1(r: array<Limb>, ro: nat, n: nat)
    requires ro + n <= r.Length
    modifies r
    ensures V(r, ro, n) == old(V(r, ro, n)) / 2
    ensures n > 0 ==> r[ro + n - 1] < 0x8000_0000_0000_0000
    ensures forall j :: 0 <= j < r.Length && !(ro <= j < ro + n) ==> r[j] == old(r[j])
  {
    hide Up, Val;
    ValEmpty();
    ghost var A := r[ro..ro + n];
    var carry: Limb := 0;
    ghost var bit := 0;
    assert r[ro + n..ro + n] == A[n..] == [];
    var i := n;
    while i > 0
      invariant 0 <= i <= n
      invariant 0 <= bit <= 1 && carry == bit * 0x8000_0000_0000_0000
      invariant Val(A[i..]) == 2 * V(r, ro + i, n - i) + bit
      invariant i == n ==> carry == 0
      invariant i < n ==> r[ro + n - 1] < 0x8000_0000_0000_0000
      invariant forall j :: ro <= j < ro + i ==> r[j] == old(r[j])
      invariant forall j :: 0 <= j < r.Length && !(ro <= j < ro + n) ==> r[j] == old(r[j])
    {
      i := i - 1;
      ghost var high, before := r[ro + i + 1..ro + n], carry;
      var half;
      half, carry := HalveLimb(r[ro + i], carry);
      HalveDigit(A, i, high, bit, half);
      bit := A[i] % 2;
      r[ro + i] := half;
      assert r[ro + i..ro + n] == [half] + high;
    }
    assert A[0..] == A;
    assert r[ro + 0..ro + n] == r[ro..ro + n];
  }

  // (limb >> 1) | carryIn, and limb << 63: the bit shifted out, in top position.
  method HalveLimb(limb: Limb, carryIn: Limb) returns (half: Limb, carry: Limb)
    requires carryIn == 0 || carryIn == 0x8000_0000_0000_0000
    ensures half == limb / 2 + carryIn && carry == limb % 2 * 0x8000_0000_0000_0000
  {
    DivUnique(limb * 0x8000_0000_0000_0000, BASE, limb / 2, limb % 2 * 0x8000_0000_0000_0000);
    half, carry := limb / 2 + carryIn, Wrap(limb * 0x8000_0000_0000_0000);
  }

  lemma HalveDigit(A: seq<Limb>, i: nat, high: seq<Limb>, bit: int, half: Limb)
    requires i < |A| && |high| == |A| - i - 1
    requires Val(A[i + 1..]) == 2 * Val(high) + bit
    requires half == A[i] / 2 + bit * 0x8000_0000_0000_0000
    ensures Val(A[i..]) == 2 * Val([half] + high) + A[i] % 2
  {
    hide Val;
    assert A[i..][1..] == A[i + 1..];
    ValHorner(A[i..]);
    assert ([half] + high)[1..] == high;
    ValHorner([half] + high);
  }

  // x | 0x8000000000000000
  function SetTopBit(x: Limb): (r: Limb)
  {
    if x < 0x8000_0000_0000_0000 then x + 0x8000_0000_0000_0000 else x
  }

  /* ---- bit counts ---- */

  method NumDigits(a: array<Limb>, ao: nat, n: nat) returns (k: nat)
    requires ao + n <= a.Length
    ensures k <= n && (k > 0 ==> a[ao + k - 1] != 0)
    ensures V(a, ao, n) == V(a, ao, k)
  {
    k := n;
    ghost var A := a[ao..ao + n];
    assert A[..n] == A;
    while k > 0 && a[ao + k - 1] == 0
      invariant 0 <= k <= n
      invariant Val(A) == Val(A[..k])
    {
      ValSnoc(A, k - 1);
      UpZero(k - 1);
      k := k - 1;
    }
    assert A[..k] == a[ao..ao + k];
  }

  method NumBits(a: array<Limb>, ao: nat, n: nat) returns (bits: nat)
    requires ao + n <= a.Length
    ensures bits == BitLength(V(a, ao, n))
  {
    ValBound(a[ao..ao + n]);
    var digits := NumDigits(a, ao, n);
    if digits == 0 {
      return 0;
    }
    var i := DigitBits(a[ao + digits - 1]);
    bits := (digits - 1) * 64 + i;
    TopDigitBits(a[ao..ao + digits], i);
  }

  method DigitBits(limb: Limb) returns (i: nat)
    ensures i == BitLength(limb)
  {
    var digit: nat := limb;
    i := 0;
    while digit != 0
      invariant BitLength(limb) == i + BitLength(digit)
    {
      digit := digit / 2;
      i := i + 1;
    }
  }

  lemma TopDigitBits(s: seq<Limb>, i: nat)
    requires |s| > 0 && s[|s| - 1] > 0 && i == BitLength(s[|s| - 1])
    ensures Val(s) >= 0 && BitLength(Val(s)) == (|s| - 1) * 64 + i
  {
    hide *;
    var k, top := |s| - 1, s[|s| - 1];
    ValSnoc(s, k);
    assert s[..k + 1] == s;
    ValBound(s[..k]);
    UpIsPow2(k);
    UpScale(top, 1, k);
    assert top * 1 == top;
    TopBits(Val(s[..k]), top, 64 * k, i);
  }

  lemma TopBits(lo: nat, top: nat, k: nat, i: nat)
    requires lo < Pow2(k) && top > 0 && i == BitLength(top)
    ensures BitLength(lo + top * Pow2(k)) == k + i
  {
    hide *;
    assert i > 0 && Pow2(i - 1) <= top < Pow2(i);
    Pow2Add(i, k);
    Pow2Add(i - 1, k);
    assert i + k == k + i && i - 1 + k == k + i - 1;
    Sandwich(lo, top, Pow2(k), Pow2(i - 1), Pow2(i));
    BitLengthUnique(lo + top * Pow2(k), k + i);
  }

  lemma Sandwich(lo: nat, top: nat, u: nat, p: nat, q: nat)
    requires lo < u && p <= top < q
    ensures p * u <= lo + top * u < q * u
  {
    MulMono(p, top, u);
    MulMono(top, q - 1, u);
    Distribute(q, 1, u);
  }

  // The bit p of the number is the bit p % 64 of its limb p / 64.
  method TestBit(a: array<Limb>, ao: nat, n: nat, p: nat) returns (isSet: bool)
    requires ao + n <= a.Length && p < 64 * n
    ensures isSet <==> Bit(V(a, ao, n), p) == 1
  {
    ValBound(a[ao..ao + n]);
    BitOfLimb(a[ao..ao + n], p / 64, p % 64);
    isSet := a[ao + p / 64] / Pow2(p % 64) % 2 != 0;
  }

  lemma BitOfLimb(s: seq<Limb>, i: nat, j: nat)
    requires i < |s| && j < 64
    ensures Val(s) >= 0 && Bit(Val(s), 64 * i + j) == s[i] / Pow2(j) % 2
  {
    hide *;
    ValBound(s);
    ValSplit(s, i);
    ValHorner(s[i..]);
    assert s[i..][0] == s[i];
    var lo, x, hi := Val(s[..i]), s[i], Val(s[i..][1..]);
    ValBound(s[..i]);
    ValBound(s[i..][1..]);
    UpIsPow2(i);
    UpScale(x + 0x1_0000_0000_0000_0000 * hi, 1, i);
    PlaceBit(lo, x, hi, 64 * i, j);
  }

  lemma PlaceBit(lo: nat, x: nat, hi: nat, k: nat, j: nat)
    requires lo < Pow2(k) && j < 64
    ensures Bit(lo + (x + 0x1_0000_0000_0000_0000 * hi) * Pow2(k), k + j) == x / Pow2(j) % 2
  {
    hide Pow2;
    Pow2Complement(j);
    Pow2Add(k, j);
    LimbBit(lo, x, hi, Pow2(k), Pow2(j), Pow2(64 - j));
  }

  lemma Pow2Complement(j: nat)
    requires j < 64
    ensures Pow2(j) * Pow2(64 - j) == 0x1_0000_0000_0000_0000
    ensures Pow2(64 - j) > 1 && Pow2(64 - j) % 2 == 0
  {
    hide Pow2;
    Pow2Of64();
    Pow2Add(j, 64 - j);
    Pow2Pred(64 - j);
  }

  lemma Pow2Pred(k: nat)
    requires k > 0
    ensures Pow2(k) == 2 * Pow2(k - 1) >= 2
  {
  }

  lemma LimbBit(lo: nat, x: nat, hi: nat, u: nat, d: nat, e: nat)
    requires lo < u && 0 < d && e > 1 && e % 2 == 0 && d * e == 0x1_0000_0000_0000_0000
    requires u * d > 0
    ensures (lo + (x + 0x1_0000_0000_0000_0000 * hi) * u) / (u * d) % 2 == x / d % 2
  {
    var q, r := x / d, x % d;
    var w := q + e * hi;
    LimbQuotient(x, hi, q, r, d, e);
    WordBit(lo, w, r, u, d);
    EvenMultiple(e, hi);
  }

  // x + 2^64 hi divided by d, where d e = 2^64.
  lemma LimbQuotient(x: nat, hi: nat, q: nat, r: nat, d: nat, e: nat)
    requires d > 0 && q == x / d && r == x % d && d * e == 0x1_0000_0000_0000_0000
    ensures x + 0x1_0000_0000_0000_0000 * hi == (q + e * hi) * d + r
  {
    assert x == q * d + r;
    Distribute(q, e * hi, d);
    MulAssoc(d, e, hi);
    assert e * hi * d == d * (e * hi);
    assert d * (e * hi) == (d * e) * hi;
  }

  lemma WordBit(lo: nat, w: nat, r: nat, u: nat, d: nat)
    requires lo < u && r < d
    ensures (lo + (w * d + r) * u) / (u * d) == w
  {
    Distribute(w * d, r, u);
    MulAssoc(w, d, u);
    Commute(d, u);
    MulMono(r, d - 1, u);
    Distribute(d, 1, u);
    DivUnique(lo + (w * d + r) * u, u * d, w, lo + r * u);
  }

  lemma EvenMultiple(e: nat, hi: nat)
    requires e % 2 == 0
    ensures e * hi % 2 == 0
  {
    var h := e / 2;
    assert e == 2 * h;
    assert e * hi == 2 * (h * hi);
  }
}
