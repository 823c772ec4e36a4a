/** Numbers as big-endian digit sequences in any base. */
module Radix {
  import opened Bits

  // b^e
  ghost function Pow(b: nat, e: nat): (p: nat)
    requires b > 0
    ensures p > 0
    decreases e
  {
    if e == 0 then 1 else PositiveProduct(b, Pow(b, e - 1)); b * Pow(b, e - 1)
  }

  lemma PositiveProduct(a: nat, b: nat)
    requires a > 0 && b > 0
    ensures a * b > 0
  {
  }

  lemma {:induction false} PowSum(b: nat, i: nat, j: nat)
    requires b > 0
    ensures Pow(b, i + j) == Pow(b, i) * Pow(b, j)
    decreases j
  {
    if j > 0 {
      PowSum(b, i, j - 1);
      MulAssoc(b, Pow(b, i), Pow(b, j - 1));
    }
  }

  lemma {:induction false} PowPow(b: nat, i: nat, j: nat)
    requires b > 0
    ensures Pow(Pow(b, i), j) == Pow(b, i * j)
    decreases j
  {
    if j == 0 {
      assert i * 0 == 0;
    } else {
      PowPow(b, i, j - 1);
      assert i * j == i + i * (j - 1);
      PowSum(b, i, i * (j - 1));
    }
  }

  lemma {:induction false} PowMonotone(a: nat, b: nat, e: nat)
    requires 0 < a <= b
    ensures Pow(a, e) <= Pow(b, e)
    decreases e
  {
    if e > 0 {
      PowMonotone(a, b, e - 1);
      MulMono(a, b, Pow(a, e - 1));
      MulMono(Pow(a, e - 1), Pow(b, e - 1), b);
    }
  }

  lemma {:induction false} PowStrict(a: nat, b: nat, e: nat)
    requires 0 < a < b && e > 0
    ensures Pow(a, e) < Pow(b, e)
    decreases e
  {
    PowMonotone(a, b, e - 1);
    MulMono(Pow(a, e - 1), Pow(b, e - 1), a);
    MulMono(a + 1, b, Pow(b, e - 1));
    Distribute(a, 1, Pow(b, e - 1));
  }

  lemma {:induction false} PowGrows(b: nat, i: nat, j: nat)
    requires b > 0 && i <= j
    ensures Pow(b, i) <= Pow(b, j)
    decreases j
  {
    if i < j {
      PowGrows(b, i, j - 1);
      MulMono(1, b, Pow(b, j - 1));
    }
  }

  // Taking e-th roots keeps order.
  lemma Root(a: nat, b: nat, e: nat)
    requires a > 0 && b > 0 && e > 0 && Pow(a, e) <= Pow(b, e)
    ensures a <= b
  {
    if b < a {
      PowStrict(b, a, e);
    }
  }

  ghost predicate AreDigits(s: seq<int>, b: nat) {
    forall i :: 0 <= i < |s| ==> 0 <= s[i] < b
  }

  // The number a digit sequence stands for, most significant digit first.
  ghost function Num(s: seq<int>, b: nat): int {
    if |s| == 0 then 0 else Num(s[..|s| - 1], b) * b + s[|s| - 1]
  }

  lemma NumSnoc(s: seq<int>, d: int, b: nat)
    ensures Num(s + [d], b) == Num(s, b) * b + d
  {
    assert (s + [d])[..|s|] == s;
  }

  lemma {:induction false} NumCons(d: int, s: seq<int>, b: nat)
    requires b > 0
    ensures Num([d] + s, b) == d * Pow(b, |s|) + Num(s, b)
    decreases |s|
  {
    var t := [d] + s;
    if |s| == 0 {
      assert t[..0] == [];
      assert Num(t[..0], b) == 0;
    } else {
      var k := |s| - 1;
      NumCons(d, s[..k], b);
      assert t[..|t| - 1] == [d] + s[..k];
      NumConsStep(d, Pow(b, k), Num(s[..k], b), b);
    }
  }

  lemma NumConsStep(d: int, p: int, v: int, b: int)
    ensures (d * p + v) * b == d * (b * p) + v * b
  {
    Distribute(d * p, v, b);
    assert d * p * b == d * (b * p);
  }

  lemma {:induction false} NumBounds(s: seq<int>, b: nat)
    requires b > 0 && AreDigits(s, b)
    ensures 0 <= Num(s, b) < Pow(b, |s|)
    decreases |s|
  {
    if |s| > 0 {
      var k := |s| - 1;
      NumBounds(s[..k], b);
      BoundStep(Num(s[..k], b), s[k], Pow(b, k), b);
    }
  }

  lemma BoundStep(v: int, d: int, p: int, b: int)
    requires 0 <= v < p && 0 <= d < b
    ensures 0 <= v * b + d < b * p
  {
    MulMono(v, p - 1, b);
    MulMono(0, v, b);
    Distribute(p, 1, b);
  }

  // Leading zeros do not count.
  lemma NumLeadingZero(s: seq<int>, b: nat)
    requires b > 0
    ensures Num([0] + s, b) == Num(s, b)
  {
    NumCons(0, s, b);
  }

  // The digits of v without leading zeros.
  function ToDigits(v: nat, b: nat): (s: seq<int>)
    requires b > 1
    decreases v
  {
    if v == 0 then [] else DivShrinks(v, b); ToDigits(v / b, b) + [v % b]
  }

  lemma DivShrinks(v: nat, b: nat)
    requires v > 0 && b > 1
    ensures 0 <= v / b < v
  {
    assert v == v / b * b + v % b;
    if v / b >= v {
      MulMono(v, v / b, b);
      MulMono(2, b, v);
    }
  }

  lemma DigitStep(v: nat, b: nat)
    requires v > 0 && b > 1
    ensures 0 <= v / b < v && 0 <= v % b < b && v == v / b * b + v % b
    ensures ToDigits(v, b) == ToDigits(v / b, b) + [v % b]
  {
    DivShrinks(v, b);
  }

  lemma {:induction false} ToDigitsNum(v: nat, b: nat)
    requires b > 1
    ensures Num(ToDigits(v, b), b) == v && AreDigits(ToDigits(v, b), b)
    ensures v > 0 ==> |ToDigits(v, b)| > 0 && ToDigits(v, b)[0] != 0
    decreases v
  {
    if v > 0 {
      DigitStep(v, b);
      var q, d := v / b, v % b;
      ToDigitsNum(q, b);
      NumSnoc(ToDigits(q, b), d, b);
      FirstOfSnoc(q, d, v, b);
    }
  }

  lemma FirstOfSnoc(q: nat, d: nat, v: nat, b: nat)
    requires b > 1 && v > 0 && v == q * b + d
    requires q > 0 ==> |ToDigits(q, b)| > 0 && ToDigits(q, b)[0] != 0
    ensures |ToDigits(q, b) + [d]| > 0 && (ToDigits(q, b) + [d])[0] != 0
  {
  }

  // A digit sequence that does not begin with zero is the one its number has.
  lemma {:induction false} NumToDigits(s: seq<int>, b: nat)
    requires b > 1 && AreDigits(s, b) && (|s| > 0 ==> s[0] != 0)
    ensures Num(s, b) >= 0 && ToDigits(Num(s, b), b) == s
    decreases |s|
  {
    NumBounds(s, b);
    if |s| > 0 {
      var k := |s| - 1;
      NumBounds(s[..k], b);
      NumToDigits(s[..k], b);
      DivUnique(Num(s, b), b, Num(s[..k], b), s[k]);
      assert s == s[..k] + [s[k]];
      if k > 0 {
        NumPositive(s[..k], b);
      }
      assert Num(s, b) > 0 by {
        if k > 0 {
          MulMono(1, Num(s[..k], b), b);
        }
      }
    }
  }

  lemma NumPositive(s: seq<int>, b: nat)
    requires b > 1 && AreDigits(s, b) && |s| > 0 && s[0] != 0
    ensures Num(s, b) > 0
  {
    assert s == [s[0]] + s[1..];
    NumCons(s[0], s[1..], b);
    NumBounds(s[1..], b);
    MulMono(1, s[0], Pow(b, |s| - 1));
  }
}
