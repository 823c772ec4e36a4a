/** Modular inversion by a binary extended greatest common divisor. */
module ModularInverse {
  import opened Bits
  import opened Vli
  import opened P256Field
  import opened Congruence

  /* ---- divisibility ---- */

  ghost predicate Divides(d: int, x: int) {
    exists q: int :: x == q * d
  }

  ghost predicate IsGcd(g: int, x: int, y: int) {
    && g > 0 && Divides(g, x) && Divides(g, y)
    && forall d: int :: d > 0 && Divides(d, x) && Divides(d, y) ==> Divides(d, g)
  }

  ghost predicate SameDivisors(a: int, b: int, x: int, y: int) {
    forall d: int {:trigger Divides(d, a)} {:trigger Divides(d, x)} :: d > 0 ==>
      (Divides(d, a) && Divides(d, b) <==> Divides(d, x) && Divides(d, y))
  }

  lemma DividesBy(d: int, x: int, q: int)
    requires x == q * d
    ensures Divides(d, x)
  {
  }

  lemma DividesSum(d: int, x: int, y: int)
    requires Divides(d, x) && Divides(d, y)
    ensures Divides(d, x + y) && Divides(d, x - y)
  {
    var p: int :| x == p * d;
    var q: int :| y == q * d;
    Distribute(p, q, d);
    DividesBy(d, x + y, p + q);
    DividesBy(d, x - y, p - q);
  }

  // An odd divisor of 2 h divides h; a divisor of an odd number is odd.
  lemma DividesHalf(d: int, h: int, b: int)
    requires Divides(d, 2 * h) && Divides(d, b) && b % 2 == 1
    ensures Divides(d, h)
  {
    var p: int :| 2 * h == p * d;
    var q: int :| b == q * d;
    ProductParity(q, d);
    ProductParity(p, d);
    var i := p / 2;
    assert p == 2 * i;
    assert p * d == 2 * (i * d);
    DividesBy(d, h, i);
  }

  lemma ProductParity(p: int, d: int)
    ensures p * d % 2 == 1 <==> p % 2 == 1 && d % 2 == 1
  {
    var i, r := p / 2, p % 2;
    var t := i * d;
    Distribute(2 * i, r, d);
    Regroup(2, i, d);
    assert p * d == 2 * t + r * d;
    EvenPart(p * d, t, r * d);
    if r == 1 {
      assert r * d == d;
    } else {
      assert r * d == 0;
    }
  }

  lemma EvenPart(x: int, t: int, y: int)
    requires x == 2 * t + y
    ensures x % 2 == y % 2
  {
  }

  lemma DividesDouble(d: int, h: int)
    requires Divides(d, h)
    ensures Divides(d, 2 * h)
  {
    DividesSum(d, h, h);
  }

  // Halving an even number beside an odd one keeps the common divisors.
  lemma HalfKeepsDivisors(a: int, b: int, x: int, y: int)
    requires a % 2 == 0 && b % 2 == 1 && SameDivisors(a, b, x, y)
    ensures SameDivisors(a / 2, b, x, y)
  {
    var h := a / 2;
    assert a == 2 * h;
    forall d: int | d > 0
      ensures Divides(d, h) && Divides(d, b) <==> Divides(d, x) && Divides(d, y)
    {
      if Divides(d, h) && Divides(d, b) {
        DividesDouble(d, h);
      }
      if Divides(d, a) && Divides(d, b) {
        DividesHalf(d, h, b);
      }
      assert Divides(d, a) && Divides(d, b) <==> Divides(d, x) && Divides(d, y);
    }
  }

  // So does replacing one of two odd numbers by half their difference.
  lemma DifferenceKeepsDivisors(a: int, b: int, x: int, y: int)
    requires a % 2 == 1 && b % 2 == 1 && SameDivisors(a, b, x, y)
    ensures SameDivisors((a - b) / 2, b, x, y)
  {
    var h := (a - b) / 2;
    assert a == 2 * h + b;
    forall d: int | d > 0
      ensures Divides(d, h) && Divides(d, b) <==> Divides(d, x) && Divides(d, y)
    {
      if Divides(d, h) && Divides(d, b) {
        DividesDouble(d, h);
        DividesSum(d, 2 * h, b);
      }
      if Divides(d, a) && Divides(d, b) {
        DividesSum(d, a, b);
        DividesHalf(d, h, b);
      }
      assert Divides(d, a) && Divides(d, b) <==> Divides(d, x) && Divides(d, y);
    }
  }

  lemma DivisorsSwap(a: int, b: int, x: int, y: int)
    requires SameDivisors(a, b, x, y)
    ensures SameDivisors(b, a, x, y)
  {
    forall d: int | d > 0
      ensures Divides(d, b) && Divides(d, a) <==> Divides(d, x) && Divides(d, y)
    {
      assert Divides(d, a) && Divides(d, b) <==> Divides(d, x) && Divides(d, y);
    }
  }

  lemma EqualIsGcd(g: int, x: int, y: int)
    requires g > 0 && SameDivisors(g, g, x, y)
    ensures IsGcd(g, x, y)
  {
    DividesBy(g, g, 1);
  }

  /* ---- halving and subtracting modulo m ---- */

  // u := u / 2 modulo m.
  method HalveMod(u: array<Limb>, mod: array<Limb>)
    requires u.Length == mod.Length == 4 && u != mod
    requires N(u) < N(mod) && N(mod) % 2 == 1
    modifies u
    ensures N(u) < N(mod) && Cong(2 * N(u), old(N(u)), N(mod))
  {
    hide N;
    ghost var x, m := N(u), N(mod);
    var odd := OddN(u);
    var carry: Limb := 0;
    if odd {
      carry := AddN(u, u, mod);
    }
    HalveN(u, carry);
    CongBy(2 * N(u), x, m, if odd then 1 else 0);
  }

  // u := u - v, plus m when that is negative. The sum u + m may overflow; subtracting v brings it back.
  method SubOrWrap(u: array<Limb>, v: array<Limb>, mod: array<Limb>)
    requires u.Length == v.Length == mod.Length == 4 && u != mod && u != v
    requires N(u) < N(mod) && N(v) < N(mod)
    modifies u
    ensures N(u) == if old(N(u)) < N(v) then old(N(u)) + N(mod) - N(v) else old(N(u)) - N(v)
  {
    hide N;
    NRange(mod);
    NRange(u);
    var sign := CmpN(u, v);
    if sign < 0 {
      var carry := AddN(u, u, mod);
    }
    var borrow := SubN(u, u, v);
  }

  // u := (u - v) / 2 modulo m.
  method SubHalveMod(u: array<Limb>, v: array<Limb>, mod: array<Limb>)
    requires u.Length == v.Length == mod.Length == 4 && u != mod && u != v
    requires N(u) < N(mod) && N(v) < N(mod) && N(mod) % 2 == 1
    modifies u
    ensures N(u) < N(mod) && Cong(2 * N(u), old(N(u)) - N(v), N(mod))
  {
    hide N, Cong;
    ghost var x: int, y: int, m := N(u), N(v), N(mod);
    SubOrWrap(u, v, mod);
    ghost var d := N(u);
    HalveMod(u, mod);
    CongBy(d, x - y, m, if x < y then 1 else 0);
    CongTrans(2 * N(u), d, x - y, m);
  }

  lemma HalfCong(u: int, w: int, x: int, h: int, m: int)
    requires m % 2 == 1 && Cong(2 * w, u, m) && Cong(u * x, 2 * h, m)
    ensures Cong(w * x, h, m)
  {
    CongRefl(x, m);
    CongMul(2 * w, u, x, x, m);
    CongTrans(2 * w * x, u * x, 2 * h, m);
    assert 2 * w * x == 2 * (w * x);
    CancelTwo(w * x, h, m);
  }

  lemma DifferenceCong(u: int, v: int, x: int, a: int, b: int, m: int)
    requires Cong(u * x, a, m) && Cong(v * x, b, m)
    ensures Cong((u - v) * x, a - b, m)
  {
    CongSub(u * x, a, v * x, b, m);
    Distribute(u, v, x);
  }

  /* ---- the main loop ---- */

  // What holds between turns: a and b share the divisors of x and m, u x = a and v x = b modulo m,
  // and a and b are not both even.
  ghost predicate Invariant(a: int, b: int, u: int, v: int, x: int, m: int) {
    && a > 0 && b > 0 && (a % 2 == 1 || b % 2 == 1)
    && 0 <= u < m && 0 <= v < m
    && Cong(u * x, a, m) && Cong(v * x, b, m) && SameDivisors(a, b, x, m)
  }

  lemma InvariantSwap(a: int, b: int, u: int, v: int, x: int, m: int)
    requires Invariant(a, b, u, v, x, m)
    ensures Invariant(b, a, v, u, x, m)
  {
    DivisorsSwap(a, b, x, m);
  }

  lemma EvenHalf(x: int)
    ensures x % 2 == 0 ==> x == 2 * (x / 2)
  {
  }

  lemma EvenTurn(a: int, b: int, u: int, v: int, w: int, x: int, m: int)
    requires m % 2 == 1 && Invariant(a, b, u, v, x, m) && a % 2 == 0
    requires 0 <= w < m && Cong(2 * w, u, m)
    ensures Invariant(a / 2, b, w, v, x, m)
  {
    hide Cong, SameDivisors, Divides;
    EvenHalf(a);
    HalfCong(u, w, x, a / 2, m);
    HalfKeepsDivisors(a, b, x, m);
  }

  lemma OddTurn(a: int, b: int, u: int, v: int, w: int, x: int, m: int)
    requires m % 2 == 1 && Invariant(a, b, u, v, x, m) && a % 2 == 1 && b % 2 == 1 && a > b
    requires 0 <= w < m && Cong(2 * w, u - v, m)
    ensures Invariant((a - b) / 2, b, w, v, x, m)
  {
    hide Cong, SameDivisors, Divides;
    EvenHalf(a - b);
    DifferenceCong(u, v, x, a, b, m);
    HalfCong(u - v, w, x, (a - b) / 2, m);
    DifferenceKeepsDivisors(a, b, x, m);
  }

  lemma InvariantStarts(x: int, m: int)
    requires x > 0 && m > 1 && m % 2 == 1
    ensures Invariant(x, m, 1, 0, x, m)
  {
    CongRefl(x, m);
    CongBy(0 * x, m, m, -1);
  }

  lemma InvariantEnds(a: int, u: int, v: int, x: int, m: int)
    requires Invariant(a, a, u, v, x, m)
    ensures IsGcd(a, x, m) && Cong(u * x, a, m)
  {
    EqualIsGcd(a, x, m);
  }

  // (a, u) := ((a - b) / 2, (u - v) / 2) for odd a > b.
  method Reduce(a: array<Limb>, b: array<Limb>, u: array<Limb>, v: array<Limb>, mod: array<Limb>, ghost x: int)
    requires a.Length == b.Length == u.Length == v.Length == mod.Length == 4
    requires a != b && a != u && a != v && a != mod && u != b && u != v && u != mod
    requires Invariant(N(a), N(b), N(u), N(v), x, N(mod)) && N(mod) % 2 == 1
    requires N(a) % 2 == 1 && N(b) % 2 == 1 && N(a) > N(b)
    modifies a, u
    ensures Invariant(N(a), N(b), N(u), N(v), x, N(mod)) && N(a) < old(N(a))
  {
    hide N, Invariant, Cong;
    ghost var a0, b0, u0, v0, m := N(a), N(b), N(u), N(v), N(mod);
    BoundOf(a0, b0, u0, v0, x, m);
    NRange(a);
    var borrow := SubN(a, a, b);
    HalveN(a, 0);
    SubHalveMod(u, v, mod);
    OddTurn(a0, b0, u0, v0, N(u), x, m);
  }

  // (a, u) := (a / 2, u / 2) for even a.
  method Halve(a: array<Limb>, b: array<Limb>, u: array<Limb>, v: array<Limb>, mod: array<Limb>, ghost x: int)
    requires a.Length == b.Length == u.Length == v.Length == mod.Length == 4
    requires a != b && a != u && a != v && a != mod && u != b && u != v && u != mod
    requires Invariant(N(a), N(b), N(u), N(v), x, N(mod)) && N(mod) % 2 == 1 && N(a) % 2 == 0
    modifies a, u
    ensures Invariant(N(a), N(b), N(u), N(v), x, N(mod)) && N(a) < old(N(a))
  {
    hide N, Invariant, Cong;
    ghost var a0, b0, u0, v0, m := N(a), N(b), N(u), N(v), N(mod);
    BoundOf(a0, b0, u0, v0, x, m);
    HalveN(a, 0);
    HalveMod(u, mod);
    EvenTurn(a0, b0, u0, v0, N(u), x, m);
  }

  // result := 1 / input modulo mod, up to the greatest common divisor of the two; 0 for input 0.
  method ModInv(r: array<Limb>, input: array<Limb>, mod: array<Limb>) returns (ghost g: int)
    requires r.Length == input.Length == mod.Length == 4
    requires N(mod) > 1 && N(mod) % 2 == 1
    modifies r
    ensures old(N(input)) == 0 ==> N(r) == 0
    ensures old(N(input)) != 0 ==>
      N(r) < old(N(mod)) && IsGcd(g, old(N(input)), old(N(mod))) && Cong(N(r) * old(N(input)), g, old(N(mod)))
  {
    hide N, Invariant, Cong, IsGcd;
    ghost var x, m := N(input), N(mod);
    g := 0;
    var zero := IsZeroN(input);
    if zero {
      Load(r, 0, 0, 0, 0);
      return;
    }
    var a, b, u, v := new Limb[4], new Limb[4], new Limb[4], new Limb[4];
    SetN(a, input);
    SetN(b, mod);
    Load(u, 1, 0, 0, 0);
    Load(v, 0, 0, 0, 0);
    assert N(a) == x && N(b) == m && N(u) == 1 && N(mod) == m;
    InvariantStarts(x, m);
    var sign := CmpN(a, b);
    while sign != 0
      invariant N(mod) == m && (sign == 0 <==> N(a) == N(b)) && (sign > 0 <==> N(a) > N(b))
      invariant Invariant(N(a), N(b), N(u), N(v), x, m)
      decreases N(a) + N(b)
    {
      sign := Turn(a, b, u, v, mod, sign, x);
    }
    InvariantEnds(N(a), N(u), N(v), x, m);
    g := N(a);
    assert N(u) < m by { BoundOf(N(a), N(b), N(u), N(v), x, m); }
    SetN(r, u);
  }

  lemma BoundOf(a: int, b: int, u: int, v: int, x: int, m: int)
    requires Invariant(a, b, u, v, x, m)
    ensures a > 0 && b > 0 && 0 <= u < m && 0 <= v < m && (a % 2 == 1 || b % 2 == 1)
  {
  }

  // One turn of the loop.
  method Turn(a: array<Limb>, b: array<Limb>, u: array<Limb>, v: array<Limb>, mod: array<Limb>, sign: int, ghost x: int)
    returns (next: int)
    requires a.Length == b.Length == u.Length == v.Length == mod.Length == 4
    requires a != b && a != u && a != v && a != mod && u != b && u != v && u != mod
    requires b != v && b != mod && v != mod
    requires Invariant(N(a), N(b), N(u), N(v), x, N(mod)) && N(mod) % 2 == 1
    requires sign != 0 && (sign > 0 <==> N(a) > N(b)) && N(a) != N(b)
    modifies a, b, u, v
    ensures Invariant(N(a), N(b), N(u), N(v), x, N(mod))
    ensures N(a) + N(b) < old(N(a)) + old(N(b))
    ensures (next == 0 <==> N(a) == N(b)) && (next > 0 <==> N(a) > N(b))
  {
    hide N, Invariant;
    BoundOf(N(a), N(b), N(u), N(v), x, N(mod));
    var oddA := OddN(a);
    var oddB := OddN(b);
    if !oddA {
      Halve(a, b, u, v, mod, x);
    } else if !oddB {
      InvariantSwap(N(a), N(b), N(u), N(v), x, N(mod));
      Halve(b, a, v, u, mod, x);
      InvariantSwap(N(b), N(a), N(v), N(u), x, N(mod));
    } else if sign > 0 {
      Reduce(a, b, u, v, mod, x);
    } else {
      InvariantSwap(N(a), N(b), N(u), N(v), x, N(mod));
      Reduce(b, a, v, u, mod, x);
      InvariantSwap(N(b), N(a), N(v), N(u), x, N(mod));
    }
    next := CmpN(a, b);
  }

  // For coprime input and modulus the result is the inverse.
  lemma InverseWhenCoprime(u: int, x: int, g: int, m: int)
    requires IsGcd(g, x, m) && Cong(u * x, g, m)
    requires forall d: int :: d > 0 && Divides(d, x) && Divides(d, m) ==> d == 1
    ensures Cong(u * x, 1, m)
  {
  }
}
