/** Regrouping of bits between two power-of-two bases with a masked accumulator. */
module BitGroups {
  import opened Bits
  import opened Radix

  /* ---- quotients and remainders by powers of two ---- */

  // (v / d) / e  is  v / (d * e).
  lemma DivDiv(v: nat, d: nat, e: nat)
    requires d > 0 && e > 0
    ensures d * e > 0 && v / (d * e) == v / d / e
  {
    DivFacts(v, d);
    var q := v / d;
    DivFacts(q, e);
    var h, r := q / e, q % e;
    PositiveProduct(d, e);
    Distribute(h * e, r, d);
    assert h * e * d == h * (d * e);
    MulMono(r + 1, e, d);
    Distribute(r, 1, d);
    MulMono(0, r, d);
    DivUnique(v, d * e, h, r * d + v % d);
  }

  lemma AddMultiple(v: nat, a: nat, d: nat)
    requires d > 0
    ensures (a * d + v) % d == v % d && (a * d + v) / d == a + v / d
  {
    DivFacts(v, d);
    Distribute(a, v / d, d);
    DivUnique(a * d + v, d, a + v / d, v % d);
  }

  // A window of t bits above bit k lies within the low m bits.
  lemma Window(v: nat, m: nat, k: nat, t: nat)
    requires k + t <= m
    ensures v % Pow2(m) >= 0 && v % Pow2(m) / Pow2(k) % Pow2(t) == v / Pow2(k) % Pow2(t)
  {
    hide Pow2;
    Pow2Add(k, t + (m - k - t));
    Pow2Add(t, m - k - t);
    DivFacts(v, Pow2(m));
    WindowOf(v / Pow2(m), v % Pow2(m), Pow2(k), Pow2(t), Pow2(m - k - t));
  }

  lemma WindowOf(q: nat, r: nat, d: nat, e: nat, w: nat)
    requires d > 0 && e > 0
    ensures q * (d * (e * w)) + r >= 0
    ensures (q * (d * (e * w)) + r) / d % e == r / d % e
  {
    NonNegative(q, w, e);
    DivFacts(r, d);
    var a: nat := q * w * e;
    assert q * (d * (e * w)) == a * d;
    AddMultiple(r, a, d);
    AddMultiple(r / d, q * w, e);
  }

  lemma NonNegative(q: nat, w: nat, e: nat)
    ensures q * w >= 0 && q * w * e >= 0
  {
  }

  // Masking commutes with taking in more bits.
  lemma MaskedStep(v: nat, acc: nat, m: nat, f: nat, x: nat)
    requires acc == v % Pow2(m)
    ensures (acc * Pow2(f) + x) % Pow2(m) == (v * Pow2(f) + x) % Pow2(m)
  {
    hide Pow2;
    var p, g := Pow2(m), Pow2(f);
    DivFacts(v, p);
    var q := v / p;
    Distribute(q * p, acc, g);
    assert q * p * g == q * g * p;
    NonNegative(q, g, p);
    NonNegative(acc, g, 1);
    AddMultiple(acc * g + x, q * g, p);
  }

  // The bits taken in do not change what lies above them.
  lemma AboveUnchanged(v: nat, b: nat, f: nat, x: nat)
    requires x < Pow2(f)
    ensures (v * Pow2(f) + x) / Pow2(b + f) == v / Pow2(b)
  {
    hide Pow2;
    Pow2Add(f, b);
    DivDiv(v * Pow2(f) + x, Pow2(f), Pow2(b));
    DivUnique(v * Pow2(f) + x, Pow2(f), v, x);
  }

  // One more group of t bits.
  lemma GroupStep(v: nat, b: nat, t: nat)
    ensures v / Pow2(b) == v / Pow2(b + t) * Pow2(t) + v / Pow2(b) % Pow2(t)
  {
    hide Pow2;
    Pow2Add(b, t);
    DivDiv(v, Pow2(b), Pow2(t));
    DivFacts(v / Pow2(b), Pow2(t));
  }

  // The bits left over, moved up to fill a group of t bits.
  lemma LeftOver(v: nat, m: nat, b: nat, t: nat)
    requires b <= t && b <= m
    ensures v % Pow2(m) >= 0
    ensures v % Pow2(m) * Pow2(t - b) % Pow2(t) == v % Pow2(b) * Pow2(t - b)
    ensures 0 <= v % Pow2(b) * Pow2(t - b) < Pow2(t)
    ensures v / Pow2(b) * Pow2(t) + v % Pow2(b) * Pow2(t - b) == v * Pow2(t - b)
  {
    hide Pow2;
    Pow2Add(b, t - b);
    Pow2Add(b, m - b);
    LowBits(v, Pow2(b), Pow2(m - b));
    ShiftedUp(v % Pow2(m), Pow2(b), Pow2(t - b));
    DivFacts(v, Pow2(b));
    ShiftedUp(v, Pow2(b), Pow2(t - b));
    RaisedWhole(v / Pow2(b), v % Pow2(b), Pow2(b), Pow2(t - b));
  }

  // Below bit b, v and v mod (d * w) agree.
  lemma LowBits(v: nat, d: nat, w: nat)
    requires d > 0 && w > 0
    ensures d * w > 0 && v % (d * w) >= 0 && v % (d * w) % d == v % d
  {
    PositiveProduct(d, w);
    DivFacts(v, d * w);
    var q, u := v / (d * w), v % (d * w);
    NonNegative(q, w, 1);
    assert q * (d * w) == q * w * d;
    AddMultiple(u, q * w, d);
  }

  lemma ShiftedUp(u: nat, d: nat, s: nat)
    requires d > 0 && s > 0
    ensures d * s > 0 && u * s >= 0 && u * s % (d * s) == u % d * s
    ensures 0 <= u % d * s < d * s
  {
    DivFacts(u, d);
    var q, r := u / d, u % d;
    PositiveProduct(d, s);
    Distribute(q * d, r, s);
    assert q * d * s == q * (d * s);
    MulMono(r + 1, d, s);
    Distribute(r, 1, s);
    MulMono(0, r, s);
    DivUnique(u * s, d * s, q, r * s);
  }

  lemma RaisedWhole(q: nat, r: nat, d: nat, s: nat)
    ensures q * (d * s) + r * s == (q * d + r) * s
  {
    Distribute(q * d, r, s);
    assert q * d * s == q * (d * s);
  }

  /* ---- the conversion ---- */

  // The bits that remain below the last whole group of t out of n.
  function Rest(n: nat, t: nat): (r: nat)
    requires t > 0
    ensures r < t
  {
    n % t
  }

  // The zero bits needed to fill the last group.
  function Fill(n: nat, t: nat): (r: nat)
    requires t > 0
    ensures r < t
  {
    if Rest(n, t) == 0 then 0 else t - Rest(n, t)
  }

  // Emits the groups of to bits that are complete. acc holds the low from + to - 1 bits of v.
  method EmitGroups(to: nat, ghost v: nat, ghost m: nat, acc: nat, bits: nat, out: seq<int>)
    returns (left: nat, res: seq<int>)
    requires to > 0 && bits <= m && acc == v % Pow2(m)
    requires AreDigits(out, Pow2(to)) && Num(out, Pow2(to)) == v / Pow2(bits)
    ensures left < to && left + to * |res| == bits + to * |out|
    ensures AreDigits(res, Pow2(to)) && Num(res, Pow2(to)) == v / Pow2(left)
  {
    hide Num, Pow2;
    left, res := bits, out;
    while left >= to
      invariant left <= m && left + to * |res| == bits + to * |out|
      invariant AreDigits(res, Pow2(to)) && Num(res, Pow2(to)) == v / Pow2(left)
    {
      left := left - to;
      Window(v, m, left, to);
      GroupStep(v, left, to);
      DivFacts(acc, Pow2(left));
      DivFacts(acc / Pow2(left), Pow2(to));
      ghost var d := acc / Pow2(left) % Pow2(to);
      NumSnoc(res, d, Pow2(to));
      Distribute(|res|, 1, to);
      res := res + [acc / Pow2(left) % Pow2(to)];
    }
  }

  // Takes in the whole input: bits of it are left in acc when no group is complete.
  method TakeIn(from: nat, to: nat, input: seq<int>) returns (acc: nat, bits: nat, out: seq<int>)
    requires from > 0 && to > 0 && AreDigits(input, Pow2(from))
    ensures bits < to && bits + to * |out| == from * |input|
    ensures Num(input, Pow2(from)) >= 0 && acc == Num(input, Pow2(from)) % Pow2(from + to - 1)
    ensures AreDigits(out, Pow2(to)) && Num(out, Pow2(to)) == Num(input, Pow2(from)) / Pow2(bits)
  {
    hide Num, Pow2;
    ghost var m := from + to - 1;
    var mask := Pow2(from + to - 1);
    var i := 0;
    acc, bits, out := 0, 0, [];
    Start(input[..0], out, from, to, m);
    while i < |input|
      invariant i <= |input| && bits < to && bits + to * |out| == from * i
      invariant Num(input[..i], Pow2(from)) >= 0 && acc == Num(input[..i], Pow2(from)) % mask
      invariant AreDigits(out, Pow2(to)) && Num(out, Pow2(to)) == Num(input[..i], Pow2(from)) / Pow2(bits)
    {
      TakeOne(input, i, from, m, acc, bits);
      acc := (acc * Pow2(from) + input[i]) % mask;
      bits := bits + from;
      Distribute(i, 1, from);
      bits, out := EmitGroups(to, Num(input[..i + 1], Pow2(from)), m, acc, bits, out);
      i := i + 1;
    }
    assert input[..i] == input;
  }

  // Whole groups of the bits of the input, most significant first; with pad the last group is filled with zeros,
  // without pad what is left over must be fewer bits than one input group, all zero.
  method ConvertBits(from: nat, to: nat, pad: bool, input: seq<int>) returns (ok: bool, out: seq<int>)
    requires from > 0 && to > 0 && AreDigits(input, Pow2(from))
    ensures AreDigits(out, Pow2(to)) && Num(input, Pow2(from)) >= 0
    ensures pad ==> ok && to * |out| == from * |input| + Fill(from * |input|, to)
    ensures pad ==> Num(out, Pow2(to)) == Num(input, Pow2(from)) * Pow2(Fill(from * |input|, to))
    ensures !pad ==> to * |out| == from * |input| - Rest(from * |input|, to)
    ensures !pad ==> Num(out, Pow2(to)) == Num(input, Pow2(from)) / Pow2(Rest(from * |input|, to))
    ensures !pad ==>
      (ok <==> Rest(from * |input|, to) < from && Num(input, Pow2(from)) % Pow2(Rest(from * |input|, to)) == 0)
  {
    hide Num, Pow2, Fill, Rest;
    var acc, bits;
    acc, bits, out := TakeIn(from, to, input);
    ghost var v: nat := Num(input, Pow2(from));
    RestIs(from * |input|, to, |out|, bits);
    LeftOver(v, from + to - 1, bits, to);
    DivFacts(v, Pow2(bits));
    if pad {
      ok := true;
      if bits > 0 {
        var last := acc * Pow2(to - bits) % Pow2(to);
        NumSnoc(out, last, Pow2(to));
        Distribute(|out|, 1, to);
        out := out + [last];
      } else {
        NoBitsLeft(v);
      }
    } else {
      ok := !(bits >= from || acc * Pow2(to - bits) % Pow2(to) != 0);
      ZeroProduct(v % Pow2(bits), Pow2(to - bits));
    }
  }

  lemma NoBitsLeft(v: nat)
    ensures v / Pow2(0) == v * Pow2(0)
  {
  }

  lemma Start(input: seq<int>, out: seq<int>, from: nat, to: nat, m: nat)
    requires |input| == 0 && |out| == 0
    ensures Num(input, Pow2(from)) == 0 == Num(out, Pow2(to)) && 0 % Pow2(m) == 0 && 0 / Pow2(0) == 0
  {
    DivUnique(0, Pow2(m), 0, 0);
  }

  // One more input group: what acc becomes, and what lies above the bits not yet emitted.
  lemma TakeOne(input: seq<int>, i: nat, from: nat, m: nat, acc: nat, bits: nat)
    requires i < |input| && AreDigits(input, Pow2(from))
    requires Num(input[..i], Pow2(from)) >= 0 && acc == Num(input[..i], Pow2(from)) % Pow2(m)
    ensures var w := Num(input[..i + 1], Pow2(from));
            && w >= 0 && acc * Pow2(from) + input[i] >= 0
            && 0 <= (acc * Pow2(from) + input[i]) % Pow2(m) == w % Pow2(m)
            && w / Pow2(bits + from) == Num(input[..i], Pow2(from)) / Pow2(bits)
  {
    hide Num, Pow2;
    var v: nat := Num(input[..i], Pow2(from));
    Consume(input, i, from);
    MaskedStep(v, acc, m, from, input[i]);
    AboveUnchanged(v, bits, from, input[i]);
    NonNegative(acc, Pow2(from), 1);
    DivFacts(acc * Pow2(from) + input[i], Pow2(m));
  }

  lemma Consume(input: seq<int>, i: nat, from: nat)
    requires i < |input| && AreDigits(input, Pow2(from))
    ensures Num(input[..i + 1], Pow2(from)) == Num(input[..i], Pow2(from)) * Pow2(from) + input[i]
    ensures Num(input[..i + 1], Pow2(from)) >= 0
  {
    hide Num, Pow2;
    assert input[..i + 1] == input[..i] + [input[i]];
    NumSnoc(input[..i], input[i], Pow2(from));
    NumBounds(input[..i + 1], Pow2(from));
  }

  lemma RestIs(n: nat, t: nat, k: nat, bits: nat)
    requires t > 0 && bits < t && n == bits + t * k
    ensures Rest(n, t) == bits && Fill(n, t) == if bits == 0 then 0 else t - bits
  {
    DivUnique(n, t, k, bits);
  }

  lemma ZeroProduct(r: nat, s: nat)
    requires s > 0
    ensures r * s == 0 <==> r == 0
  {
    if r > 0 {
      PositiveProduct(r, s);
    }
  }
}
