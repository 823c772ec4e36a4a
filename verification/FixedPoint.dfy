/** Fixed-point numbers from JSON number text. */
module FixedPoint {
  import opened Common
  import opened Bits
  import opened Radix

  /* ---- the grammar: section 6 of RFC 8259 ---- */

  // -? whole (. frac)? ((e|E) (+|-)? exp)?   frac is empty when there is no point, marker when there is no exponent.
  datatype Parts = Parts(negative: bool, whole: string, frac: string, marker: string, exp: string)

  predicate IsDigit(c: char) {
    '0' <= c <= '9'
  }

  predicate AllDigits(s: string) {
    forall i :: 0 <= i < |s| ==> IsDigit(s[i])
  }

  predicate IsMarker(s: string) {
    && 1 <= |s| <= 2 && (s[0] == 'e' || s[0] == 'E')
    && (|s| == 2 ==> s[1] == '+' || s[1] == '-')
  }

  predicate WellFormed(p: Parts) {
    && AllDigits(p.whole) && AllDigits(p.frac) && AllDigits(p.exp)
    && |p.whole| > 0 && (p.whole[0] == '0' ==> |p.whole| == 1)
    && ExponentFormed(p.marker, p.exp)
  }

  predicate ExponentFormed(marker: string, exp: string) {
    if |marker| == 0 then |exp| == 0 else IsMarker(marker) && |exp| > 0
  }

  function Sign(negative: bool): string {
    if negative then ['-'] else []
  }

  function Point(frac: string): string {
    if |frac| == 0 then [] else ['.'] + frac
  }

  function Render(p: Parts): string {
    Sign(p.negative) + (p.whole + (Point(p.frac) + (p.marker + p.exp)))
  }

  /* ---- reading the parts off a text ---- */

  function DigitCount(s: string): (k: nat)
    ensures k <= |s| && (k < |s| ==> !IsDigit(s[k])) && forall i :: 0 <= i < k ==> IsDigit(s[i])
  {
    if |s| > 0 && IsDigit(s[0]) then DigitCount(s[1..]) + 1 else 0
  }

  predicate Begins(s: string, c: char) {
    |s| > 0 && s[0] == c
  }

  function WholeLength(t: string): (k: nat)
    ensures k <= |t| && AllDigits(t[..k])
  {
    if Begins(t, '0') then 1 else DigitCount(t)
  }

  function MarkerLength(v: string): (k: nat)
    ensures k <= |v|
  {
    if !(Begins(v, 'e') || Begins(v, 'E')) then 0
    else if |v| > 1 && (v[1] == '+' || v[1] == '-') then 2
    else 1
  }

  function Unsigned(s: string): string {
    if Begins(s, '-') then s[1..] else s
  }

  function AfterWhole(s: string): string {
    var t := Unsigned(s);
    t[WholeLength(t)..]
  }

  function FracLength(u: string): (k: nat)
    ensures Begins(u, '.') ==> k < |u|
  {
    if Begins(u, '.') then DigitCount(u[1..]) else 0
  }

  function AfterFrac(u: string): string {
    if Begins(u, '.') then u[1 + FracLength(u)..] else u
  }

  function Frac(u: string): (f: string)
    ensures |f| == FracLength(u) && AllDigits(f)
  {
    if Begins(u, '.') then u[1..][..FracLength(u)] else []
  }

  function ExpLength(v: string): (k: nat)
    ensures MarkerLength(v) + k <= |v|
  {
    if MarkerLength(v) == 0 then 0 else DigitCount(v[MarkerLength(v)..])
  }

  function Scan(s: string): Option<Parts> {
    var t := Unsigned(s);
    var u := AfterWhole(s);
    var v := AfterFrac(u);
    var m, e := MarkerLength(v), ExpLength(v);
    if WholeLength(t) == 0 || (Begins(u, '.') && FracLength(u) == 0) || (m > 0 && e == 0) || m + e < |v| then None
    else Some(Parts(Begins(s, '-'), t[..WholeLength(t)], Frac(u), v[..m], v[m..]))
  }

  lemma DigitCountIs(s: string, k: nat)
    requires k <= |s| && (forall i :: 0 <= i < k ==> IsDigit(s[i])) && (k < |s| ==> !IsDigit(s[k]))
    ensures DigitCount(s) == k
  {
  }

  // What is read is well formed and is the text.
  lemma ScanSound(s: string)
    requires Scan(s).Some?
    ensures WellFormed(Scan(s).value) && Render(Scan(s).value) == s
  {
    hide DigitCount, WellFormed, Render, AfterWhole, AfterFrac, Unsigned, Frac, FracLength, WholeLength, MarkerLength,
         ExpLength;
    var p := Scan(s).value;
    var v := AfterFrac(AfterWhole(s));
    ScannedForm(p, Unsigned(s), v);
    PointRead(AfterWhole(s));
    ScannedText(p, s, AfterWhole(s), v);
  }

  lemma ScannedForm(p: Parts, t: string, v: string)
    requires 0 < WholeLength(t) && p.whole == t[..WholeLength(t)] && AllDigits(p.frac)
    requires p.marker == v[..MarkerLength(v)] && p.exp == v[MarkerLength(v)..]
    requires (MarkerLength(v) > 0 ==> ExpLength(v) > 0) && MarkerLength(v) + ExpLength(v) == |v|
    ensures WellFormed(p)
  {
    hide DigitCount, IsDigit, IsMarker, MarkerLength;
    MarkerRead(v);
  }

  lemma ScannedText(p: Parts, s: string, u: string, v: string)
    requires p.negative == Begins(s, '-') && u == AfterWhole(s) && p.whole == Unsigned(s)[..WholeLength(Unsigned(s))]
    requires u == Point(p.frac) + v && v == p.marker + p.exp
    ensures Render(p) == s
  {
    hide WholeLength, Point;
    assert Unsigned(s) == p.whole + u;
    assert s == Sign(p.negative) + Unsigned(s);
  }

  lemma PointRead(u: string)
    requires Begins(u, '.') ==> FracLength(u) > 0
    ensures u == Point(Frac(u)) + AfterFrac(u)
  {
    hide DigitCount;
  }

  lemma MarkerRead(v: string)
    ensures var m := MarkerLength(v);
            m == 0 || IsMarker(v[..m])
    ensures MarkerLength(v) + ExpLength(v) == |v| ==> AllDigits(v[MarkerLength(v)..])
  {
    hide DigitCount;
  }

  // Every text that is a number is read as its parts.
  lemma ScanComplete(p: Parts)
    requires WellFormed(p)
    ensures Scan(Render(p)) == Some(p)
  {
    hide DigitCount, IsMarker, Frac, AfterFrac, FracLength, MarkerLength, ExpLength, Point, IsDigit;
    var s := Render(p);
    var v := p.marker + p.exp;
    var u := Point(p.frac) + v;
    var t := p.whole + u;
    ExpRead(p.marker, p.exp);
    FracRead(p.frac, v);
    WholeRead(p.whole, u);
    UnsignedOf(p.negative, t);
    assert t[..|p.whole|] == p.whole && t[|p.whole|..] == u;
  }

  lemma UnsignedOf(negative: bool, t: string)
    requires !Begins(t, '-')
    ensures Unsigned(Sign(negative) + t) == t && (Begins(Sign(negative) + t, '-') <==> negative)
  {
  }

  lemma WholeRead(whole: string, u: string)
    requires |whole| > 0 && AllDigits(whole) && (whole[0] == '0' ==> |whole| == 1)
    requires |u| > 0 ==> !IsDigit(u[0])
    ensures WholeLength(whole + u) == |whole| && !Begins(whole + u, '-')
  {
    DigitCountIs(whole + u, |whole|);
  }

  lemma FracRead(frac: string, v: string)
    requires AllDigits(frac) && (|v| > 0 ==> v[0] == 'e' || v[0] == 'E')
    ensures var u := Point(frac) + v;
            && (Begins(u, '.') <==> |frac| > 0) && Frac(u) == frac && FracLength(u) == |frac| && AfterFrac(u) == v
            && (|u| > 0 ==> !IsDigit(u[0]))
  {
    hide DigitCount;
    var u := Point(frac) + v;
    if |frac| > 0 {
      assert u[1..] == frac + v;
      assert u[1..][..|frac|] == frac;
      DigitCountIs(u[1..], |frac|);
    }
  }

  lemma ExpRead(marker: string, exp: string)
    requires AllDigits(exp) && ExponentFormed(marker, exp)
    ensures var v := marker + exp;
            && MarkerLength(v) == |marker| && ExpLength(v) == |exp| && v[..|marker|] == marker && v[|marker|..] == exp
            && (|v| > 0 ==> v[0] == 'e' || v[0] == 'E')
  {
    hide DigitCount;
    var v := marker + exp;
    assert v[|marker|..] == exp;
    DigitCountIs(exp, |exp|);
  }

  // Exactly the JSON numbers are read, each in one way.
  lemma ScanExactly(s: string, p: Parts)
    ensures Scan(s) == Some(p) <==> WellFormed(p) && Render(p) == s
  {
    hide Scan, WellFormed, Render;
    if Scan(s) == Some(p) {
      ScanSound(s);
    }
    if WellFormed(p) && Render(p) == s {
      ScanComplete(p);
    }
  }

  /* ---- the number the text stands for ---- */

  function Digits(s: string): (d: seq<int>)
    ensures |d| == |s|
  {
    seq(|s|, i requires 0 <= i < |s| => s[i] as int - 48)
  }

  // Decimal value of digits.
  ghost function Decimal(s: string): (v: nat)
    requires AllDigits(s)
  {
    NumBounds(Digits(s), 10);
    Num(Digits(s), 10)
  }

  function Limit(): int {
    1000000000000000000
  }

  predicate IsNegative(marker: string) {
    |marker| == 2 && marker[1] == '-'
  }

  ghost function Exponent(p: Parts): int
    requires WellFormed(p)
  {
    var e: int := Decimal(p.exp);
    if IsNegative(p.marker) then -e else e
  }

  // m * 10^k if that is an integer below 10^18.
  ghost function Scaled(m: nat, k: int): Option<int> {
    if k >= 0 then
      if m * Pow(10, k) < Limit() then Some(m * Pow(10, k)) else None
    else
      if m % Pow(10, -k) == 0 && m / Pow(10, -k) < Limit() then Some(m / Pow(10, -k)) else None
  }

  // The number times 10^decimals, if that is an integer of magnitude below 10^18.
  ghost function Exact(p: Parts, decimals: int): Option<int>
    requires WellFormed(p)
  {
    match Scaled(Decimal(p.whole + p.frac), Exponent(p) - |p.frac| + decimals)
    case None => None
    case Some(v) => Some(if p.negative then -v else v)
  }

  // What the parser makes of it: zero is taken only with 0 <= exponent + decimals < 18.
  ghost function Amount(p: Parts, decimals: int): Option<int>
    requires WellFormed(p)
  {
    if Decimal(p.whole + p.frac) != 0 then Exact(p, decimals)
    else if 0 <= Exponent(p) + decimals < 18 then Some(0)
    else None
  }

  // The parser departs from the exact amount for zero only, and exactly when its exponent leaves 0 .. 17.
  lemma AmountExactly(p: Parts, decimals: int)
    requires WellFormed(p)
    ensures Amount(p, decimals) == Exact(p, decimals) <==>
      Decimal(p.whole + p.frac) != 0 || 0 <= Exponent(p) + decimals < 18
  {
    hide Pow, Num, Exponent, ExponentFormed;
    if Decimal(p.whole + p.frac) == 0 {
      ZeroScales(Exponent(p) - |p.frac| + decimals);
    }
  }

  lemma ZeroScales(k: int)
    ensures Scaled(0, k) == Some(0)
  {
    hide Pow;
    if k >= 0 {
      assert 0 * Pow(10, k) == 0;
    } else {
      DivUnique(0, Pow(10, -k), 0, 0);
    }
  }

  // Such a text: zero with exponent 18 is an integer below 10^18, and is refused.
  lemma ZeroRefused()
    ensures Scan("0e18").Some? && Parsed("0e18", 0) == None
    ensures WellFormed(Scan("0e18").value) && Exact(Scan("0e18").value, 0) == Some(0)
  {
    hide Scan, Render, Decimal, Scaled;
    var p := Parts(false, "0", "", "e", "18");
    ZeroParts(p);
    ScanComplete(p);
    ZeroScales(18);
  }

  lemma ZeroParts(p: Parts)
    requires p == Parts(false, "0", "", "e", "18")
    ensures WellFormed(p) && Render(p) == "0e18" && Decimal(p.whole + p.frac) == 0 && Decimal(p.exp) == 18
  {
    assert Digits("18") == [1, 8] && Digits("0" + "") == [0];
    assert Num([1, 8], 10) == 10 * Num([1], 10) + 8;
  }

  function Up(k: int): nat {
    if k > 0 then k else 0
  }

  // A scaled number is what both sides of an equation between powers of ten leave.
  lemma ScaledMeans(d: nat, v: int, a: nat, b: nat)
    ensures Scaled(d, b - a) == Some(v) <==> 0 <= v < 1000000000000000000 && v * Pow(10, a) == d * Pow(10, b)
  {
    hide Pow, Scaled;
    if a <= b {
      ScaledUp(d, b - a, v, Pow(10, b - a));
      PowSum(10, b - a, a);
      TimesPower(d, v, Pow(10, b - a), Pow(10, a), Pow(10, b));
    } else {
      ScaledDown(d, a - b, v, Pow(10, a - b));
      PowSum(10, a - b, b);
      OverPower(d, v, Pow(10, a - b), Pow(10, b), Pow(10, a));
    }
  }

  lemma ScaledUp(d: nat, k: nat, v: int, e: nat)
    requires e == Pow(10, k)
    ensures Scaled(d, k) == Some(v) <==> 0 <= v < Limit() && v == d * e
  {
    hide Pow;
    NonNegativeProduct(d, e);
  }

  lemma ScaledDown(d: nat, k: int, v: int, e: nat)
    requires k > 0 && e == Pow(10, k)
    ensures Scaled(d, -k) == Some(v) <==> 0 <= v < Limit() && d % e == 0 && v == d / e
  {
    hide Pow;
    DivFacts(d, e);
  }

  lemma TimesPower(d: nat, v: int, e: int, a: int, b: int)
    requires b == e * a && a > 0
    ensures v * a == d * b <==> v == d * e
  {
    Regroup(d, e, a);
    if v * a == d * b {
      CancelPositive(v, d * e, a);
    }
  }

  lemma OverPower(d: nat, v: int, e: nat, b: int, a: int)
    requires a == e * b && b > 0 && e > 0
    ensures v * a == d * b <==> d % e == 0 && v == d / e
  {
    Regroup(v, e, b);
    DivFacts(d, e);
    if v * a == d * b {
      CancelPositive(v * e, d, b);
      DivUnique(d, e, v, 0);
    }
  }

  // The value as an equation on the digits: with D the digits of the number, E those of the exponent and k decimals,
  // |v| is D * 10^(k - |frac|) times or divided by 10^E, as the marker has no minus sign or has one. A number
  // starts with a minus sign exactly when it is not taken as it is.
  lemma AmountMeans(p: Parts, k: int, v: int)
    requires WellFormed(p) && AllDigits(p.whole + p.frac) && Decimal(p.whole + p.frac) != 0
    ensures Amount(p, k) == Some(v) <==>
      var (D, E, m) := (Decimal(p.whole + p.frac), Decimal(p.exp), if Render(p)[0] == '-' then -v else v);
      && 0 <= m < 1000000000000000000
      && (if '-' in p.marker then m * Pow(10, E + |p.frac| + Up(-k)) == D * Pow(10, Up(k))
          else m * Pow(10, |p.frac| + Up(-k)) == D * Pow(10, E + Up(k)))
  {
    hide Pow, Num, Decimal, Scaled;
    var D, E := Decimal(p.whole + p.frac), Decimal(p.exp);
    var m := if p.negative then -v else v;
    FirstCharacter(p);
    MinusIn(p.marker);
    if '-' in p.marker {
      ScaledMeans(D, m, E + |p.frac| + Up(-k), Up(k));
    } else {
      ScaledMeans(D, m, |p.frac| + Up(-k), E + Up(k));
    }
  }

  // Zero is taken for a total exponent from 0 to 17 only.
  lemma ZeroMeans(p: Parts, k: int)
    requires WellFormed(p) && AllDigits(p.whole + p.frac) && Decimal(p.whole + p.frac) == 0
    ensures Amount(p, k) ==
      if 0 <= (if '-' in p.marker then -(Decimal(p.exp) as int) else Decimal(p.exp)) + k < 18 then Some(0) else None
  {
    hide Pow, Num, Decimal, Scaled;
    MinusIn(p.marker);
  }

  lemma FirstCharacter(p: Parts)
    requires WellFormed(p)
    ensures |Render(p)| > 0 && (Render(p)[0] == '-' <==> p.negative)
  {
    hide Decimal;
    assert p.whole[0] != '-';
  }

  lemma MinusIn(marker: string)
    requires |marker| == 0 || IsMarker(marker)
    ensures '-' in marker <==> IsNegative(marker)
  {
  }

  // The grammar written out: which texts are read, and as what.
  lemma ScanWritten(s: string, p: Parts)
    ensures Scan(s) == Some(p) <==>
      && s ==
         (if p.negative then "-" else "") + p.whole + (if p.frac == "" then "" else "." + p.frac) + p.marker + p.exp
      && p.whole != "" && (p.whole[0] == '0' ==> p.whole == "0")
      && (forall i :: 0 <= i < |p.whole| ==> p.whole[i] in "0123456789")
      && (forall i :: 0 <= i < |p.frac| ==> p.frac[i] in "0123456789")
      && (forall i :: 0 <= i < |p.exp| ==> p.exp[i] in "0123456789")
      && p.marker in {"", "e", "E", "e+", "E+", "e-", "E-"} && (p.marker == "" <==> p.exp == "")
  {
    hide Scan, AllDigits, IsMarker;
    ScanExactly(s, p);
    DigitsWritten(p.whole);
    DigitsWritten(p.frac);
    DigitsWritten(p.exp);
    MarkerWritten(p.marker);
    RenderWritten(p);
    if |p.whole| == 1 {
      assert p.whole == [p.whole[0]];
    }
  }

  lemma DigitsWritten(s: string)
    ensures AllDigits(s) <==> forall i :: 0 <= i < |s| ==> s[i] in "0123456789"
  {
  }

  lemma MarkerWritten(m: string)
    ensures IsMarker(m) <==> m in {"e", "E", "e+", "E+", "e-", "E-"}
  {
    if |m| == 1 {
      assert m == [m[0]];
    } else if |m| == 2 {
      assert m == [m[0], m[1]];
    }
  }

  lemma RenderWritten(p: Parts)
    ensures Render(p) ==
      (if p.negative then "-" else "") + p.whole + (if p.frac == "" then "" else "." + p.frac) + p.marker + p.exp
  {
    var a, b := Sign(p.negative), Point(p.frac);
    assert a + (p.whole + (b + (p.marker + p.exp))) == a + p.whole + b + p.marker + p.exp;
  }

  ghost function Parsed(s: string, decimals: int): Option<int> {
    if Scan(s).None? then None
    else
      ScanSound(s);
      Amount(Scan(s).value, decimals)
  }

  /* ---- mantissa with its trailing zeros set aside ---- */

  // d is m followed by tz zeros; m is zero or ends in another digit.
  ghost predicate Normal(d: nat, m: nat, tz: nat) {
    d == m * Pow(10, tz) && (m % 10 != 0 || m == 0) && m < Limit()
  }

  // However many trailing zeros are taken off, 18 digits do not hold it.
  ghost predicate TooLong(d: nat) {
    d > 0 && forall j: nat :: d % Pow(10, j) == 0 ==> d / Pow(10, j) >= Limit()
  }

  lemma PowStep(j: nat)
    ensures Pow(10, j + 1) == 10 * Pow(10, j)
  {
  }

  // m 10^t  is divisible by 10^j for j > t only if m is divisible by ten.
  lemma NotDivisible(m: nat, t: nat, j: nat)
    requires j > t && m * Pow(10, t) % Pow(10, j) == 0
    ensures m % 10 == 0
  {
    hide Pow;
    PowSum(10, t, j - t);
    PowStep(j - t - 1);
    var p, w := Pow(10, t), Pow(10, j - t - 1);
    DivFacts(m * p, Pow(10, j));
    var q := m * p / Pow(10, j);
    assert q * (p * (10 * w)) == q * (10 * w) * p;
    CancelPositive(m, q * (10 * w), p);
    assert q * (10 * w) == q * w * 10;
    DivUnique(m, 10, q * w, 0);
  }

  lemma CancelPositive(a: int, b: int, p: int)
    requires p > 0 && a * p == b * p
    ensures a == b
  {
    Distribute(a, b, p);
    if a < b {
      MulMono(a - b, -1, p);
    } else if b < a {
      MulMono(1, a - b, p);
    }
  }

  lemma ScaledNormal(d: nat, m: nat, tz: nat, k: int)
    requires Normal(d, m, tz) && m > 0
    ensures Scaled(d, k) == if k + tz >= 0 && m * Pow(10, k + tz) < Limit() then Some(m * Pow(10, k + tz)) else None
  {
    hide Pow;
    if k >= 0 {
      PowSum(10, k, tz);
      assert m * Pow(10, tz) * Pow(10, k) == m * (Pow(10, k) * Pow(10, tz));
    } else if k + tz < 0 {
      if d % Pow(10, -k) == 0 {
        NotDivisible(m, tz, -k);
      }
    } else {
      PowSum(10, k + tz, -k);
      assert d == m * Pow(10, k + tz) * Pow(10, -k);
      DivUnique(d, Pow(10, -k), m * Pow(10, k + tz), 0);
    }
  }

  lemma ScaledTooLong(d: nat, k: int)
    requires TooLong(d)
    ensures Scaled(d, k) == None
  {
    hide Pow;
    NoZerosOff(d);
    if k >= 0 {
      MulMono(1, Pow(10, k), d);
      assert d * Pow(10, k) >= d;
    }
  }

  lemma NoZerosOff(d: nat)
    requires TooLong(d)
    ensures d >= Limit()
  {
    assert Pow(10, 0) == 1;
    assert d % Pow(10, 0) == 0;
  }

  // One more digit does not make it shorter.
  lemma TooLongSnoc(d: nat, c: nat)
    requires TooLong(d) && c < 10
    ensures TooLong(10 * d + c)
  {
    hide Pow;
    NoZerosOff(d);
    forall j: nat | (10 * d + c) % Pow(10, j) == 0
      ensures (10 * d + c) / Pow(10, j) >= Limit()
    {
      TooLongStep(d, c, j);
    }
  }

  lemma TooLongStep(d: nat, c: nat, j: nat)
    requires TooLong(d) && d >= Limit() && c < 10 && (10 * d + c) % Pow(10, j) == 0
    ensures (10 * d + c) / Pow(10, j) >= Limit()
  {
    hide Pow;
    if j == 0 {
      PowZero();
    } else {
      PowStep(j - 1);
      var p := Pow(10, j - 1);
      DivFacts(10 * d + c, 10 * p);
      var q := (10 * d + c) / (10 * p);
      assert q * (10 * p) == 10 * (q * p);
      assert 10 * (q * p) == 10 * d + c;
      assert q * p == d;
      DivUnique(d, p, q, 0);
    }
  }

  lemma PowZero()
    ensures Pow(10, 0) == 1 && Pow(10, 1) == 10
  {
  }

  // A number of more than 18 digits that ends in another digit than zero.
  lemma TooLongNew(v: nat)
    requires v >= Limit() && v % 10 != 0
    ensures TooLong(v)
  {
    hide Pow;
    forall j: nat | v % Pow(10, j) == 0
      ensures v / Pow(10, j) >= Limit()
    {
      if j == 0 {
        PowZero();
      } else {
        TenDivides(v, j);
      }
    }
  }

  lemma TenDivides(v: nat, j: nat)
    requires j > 0 && v % Pow(10, j) == 0
    ensures v % 10 == 0
  {
    hide Pow;
    PowStep(j - 1);
    DivFacts(v, Pow(10, j));
    var q := v / Pow(10, j);
    assert q * (10 * Pow(10, j - 1)) == q * Pow(10, j - 1) * 10;
    DivUnique(v, 10, q * Pow(10, j - 1), 0);
  }

  lemma NormalSnoc(d: nat, m: nat, tz: nat, c: nat)
    requires Normal(d, m, tz) && c < 10
    ensures c == 0 ==> Normal(10 * d + c, m, tz + 1)
    ensures 10 * d + c == m * Pow(10, tz + 1) + c
    ensures c != 0 && m * Pow(10, tz + 1) + c < Limit() ==> Normal(10 * d + c, m * Pow(10, tz + 1) + c, 0)
    ensures c != 0 && m * Pow(10, tz + 1) + c >= Limit() ==> TooLong(10 * d + c)
  {
    hide Pow;
    PowStep(tz);
    PowZero();
    assert m * (10 * Pow(10, tz)) == 10 * (m * Pow(10, tz));
    DivUnique(10 * d + c, 10, d, c);
    if c != 0 && m * Pow(10, tz + 1) + c >= Limit() {
      TooLongNew(10 * d + c);
    }
  }

  /* ---- the parser; its variables are 64-bit numbers, so no step leaves their range ---- */

  type Int64 = x: int | -0x8000_0000_0000_0000 <= x < 0x8000_0000_0000_0000

  type Int32 = x: int | -0x8000_0000 <= x < 0x8000_0000

  method ProcessMantissaDigit(ch: char, mantissa: Int64, tzeros: nat, ghost d: nat)
    returns (ok: bool, m: Int64, tz: nat)
    requires IsDigit(ch) && 0 <= mantissa && Normal(d, mantissa, tzeros)
    ensures ok ==> 0 <= m && Normal(10 * d + (ch as int - 48), m, tz)
    ensures ok && m == 0 ==> mantissa == 0 && tz == tzeros + 1
    ensures tz <= tzeros + 1
    ensures !ok ==> TooLong(10 * d + (ch as int - 48))
  {
    hide Pow, TooLong;
    m, tz := mantissa, tzeros;
    ghost var c: nat := ch as int - 48;
    NormalSnoc(d, mantissa, tzeros, c);
    if ch == '0' {
      return true, m, tz + 1;
    }
    PowZero();
    var i := 0;
    while i <= tz
      invariant i <= tz + 1 && m == mantissa * Pow(10, i) && 0 <= m < Limit()
    {
      OneMoreZero(mantissa, i, m);
      if m > (Limit() - 1) / 10 {
        GrowsPast(mantissa, i + 1, tz + 1);
        return false, m, tz;
      }
      m := m * 10;
      i := i + 1;
    }
    m := m + (ch as int - 48);
    return true, m, 0;
  }

  lemma OneMoreZero(m: int, i: nat, v: int)
    requires v == m * Pow(10, i)
    ensures m * Pow(10, i + 1) == v * 10
  {
    hide Pow;
    PowStep(i);
    assert m * (10 * Pow(10, i)) == 10 * (m * Pow(10, i));
  }

  lemma GrowsPast(m: nat, i: nat, j: nat)
    requires i <= j && m * Pow(10, i) >= Limit()
    ensures m * Pow(10, j) >= Limit()
  {
    PowGrows(10, i, j);
    MulMono(Pow(10, i), Pow(10, j), m);
  }

  function Run(s: string, start: nat): (r: string)
    requires start <= |s|
    ensures AllDigits(r) && |r| == DigitCount(s[start..])
  {
    s[start..][..DigitCount(s[start..])]
  }

  lemma RunSnoc(s: string, start: nat, k: nat, d: string)
    requires start <= |s| && start + k < |s| && AllDigits(d)
    requires (forall i :: start <= i < start + k ==> IsDigit(s[i])) && IsDigit(s[start + k])
    ensures AllDigits(d + s[start..start + k]) && AllDigits(d + s[start..start + k + 1])
    ensures Decimal(d + s[start..start + k + 1]) == 10 * Decimal(d + s[start..start + k]) + (s[start + k] as int - 48)
  {
    hide Num;
    var t := d + s[start..start + k];
    assert d + s[start..start + k + 1] == t + [s[start + k]];
    assert AllDigits(t);
    DecimalSnoc(t, s[start + k]);
  }

  lemma DecimalSnoc(t: string, c: char)
    requires AllDigits(t) && IsDigit(c)
    ensures AllDigits(t + [c]) && Decimal(t + [c]) == 10 * Decimal(t) + (c as int - 48)
  {
    hide Num;
    assert AllDigits(t + [c]);
    assert Digits(t + [c]) == Digits(t) + [c as int - 48];
    NumSnoc(Digits(t), c as int - 48, 10);
  }

  lemma {:induction false} TooLongExtends(t: string, u: string)
    requires AllDigits(t) && AllDigits(u) && TooLong(Decimal(t))
    ensures AllDigits(t + u) && TooLong(Decimal(t + u))
    decreases |u|
  {
    hide TooLong, Num;
    if |u| == 0 {
      assert t + u == t;
    } else {
      var k := |u| - 1;
      TooLongExtends(t, u[..k]);
      assert t + u == t + u[..k] + [u[k]];
      DecimalSnoc(t + u[..k], u[k]);
      TooLongSnoc(Decimal(t + u[..k]), u[k] as int - 48);
    }
  }

  lemma RunStops(s: string, start: nat, k: nat)
    requires start + k <= |s| && (forall i :: start <= i < start + k ==> IsDigit(s[i]))
    requires start + k < |s| ==> !IsDigit(s[start + k])
    ensures Run(s, start) == s[start..start + k] && DigitCount(s[start..]) == k
  {
    DigitCountIs(s[start..], k);
  }

  // The run goes on at least to where digits have been seen.
  lemma RunReaches(s: string, start: nat, k: nat)
    requires start + k <= |s| && forall i :: start <= i < start + k ==> IsDigit(s[i])
    ensures k <= DigitCount(s[start..]) && Run(s, start) == s[start..start + k] + Run(s, start)[k..]
    ensures AllDigits(Run(s, start)[k..])
  {
    assert forall i :: 0 <= i < k ==> IsDigit(s[start..][i]);
  }

  // Takes in the digits from start on; before holds the digits taken in earlier.
  method MantissaDigits(val: string, start: nat, m0: Int64, tz0: nat, ghost before: string)
    returns (ok: bool, ptr: nat, m: Int64, tz: nat)
    requires start <= |val| && 0 <= m0 && AllDigits(before) && Normal(Decimal(before), m0, tz0)
    ensures AllDigits(before + Run(val, start))
    ensures ok ==> ptr == start + DigitCount(val[start..]) && 0 <= m && Normal(Decimal(before + Run(val, start)), m, tz)
    ensures ok && m == 0 ==> m0 == 0 && tz == tz0 + (ptr - start)
    ensures start <= ptr <= |val| && tz <= tz0 + (ptr - start)
    ensures !ok ==> TooLong(Decimal(before + Run(val, start)))
  {
    hide Num, Pow, TooLong, DigitCount, Normal;
    ok, ptr, m, tz := true, start, m0, tz0;
    assert before + val[start..ptr] == before;
    while ptr < |val| && '0' <= val[ptr] <= '9'
      invariant start <= ptr <= |val| && 0 <= m && forall i :: start <= i < ptr ==> IsDigit(val[i])
      invariant AllDigits(before + val[start..ptr]) && Normal(Decimal(before + val[start..ptr]), m, tz)
      invariant m == 0 ==> m0 == 0 && tz == tz0 + (ptr - start)
      invariant tz <= tz0 + (ptr - start)
    {
      RunSnoc(val, start, ptr - start, before);
      ok, m, tz := ProcessMantissaDigit(val[ptr], m, tz, Decimal(before + val[start..ptr]));
      ptr := ptr + 1;
      if !ok {
        RunReaches(val, start, ptr - start);
        TooLongExtends(before + val[start..ptr], Run(val, start)[ptr - start..]);
        assert before + val[start..ptr] + Run(val, start)[ptr - start..] == before + Run(val, start);
        return;
      }
    }
    RunStops(val, start, ptr - start);
  }

  // Takes in the digits of the exponent.
  method ExponentDigits(val: string, start: nat) returns (ok: bool, ptr: nat, exponent: Int64)
    requires start <= |val|
    ensures ok ==> ptr == start + DigitCount(val[start..]) && exponent == Decimal(Run(val, start)) < Limit()
    ensures !ok ==> Decimal(Run(val, start)) >= Limit()
  {
    hide Num, Pow, DigitCount;
    ok, ptr, exponent := true, start, 0;
    DecimalEmpty(val[start..ptr]);
    assert "" + val[start..ptr] == val[start..ptr];
    while ptr < |val| && '0' <= val[ptr] <= '9'
      invariant start <= ptr <= |val| && 0 <= exponent < Limit() && forall i :: start <= i < ptr ==> IsDigit(val[i])
      invariant AllDigits(val[start..ptr]) && exponent == Decimal(val[start..ptr])
    {
      RunSnoc(val, start, ptr - start, []);
      assert [] + val[start..ptr] == val[start..ptr] && [] + val[start..ptr + 1] == val[start..ptr + 1];
      if exponent > (Limit() - 1) / 10 {
        RunReaches(val, start, ptr + 1 - start);
        DecimalGrows(val[start..ptr + 1], Run(val, start)[ptr + 1 - start..]);
        return false, ptr, exponent;
      }
      exponent := exponent * 10 + (val[ptr] as int - 48);
      ptr := ptr + 1;
    }
    RunStops(val, start, ptr - start);
  }

  lemma DecimalEmpty(t: string)
    requires |t| == 0
    ensures Decimal(t) == 0
  {
  }

  lemma {:induction false} DecimalGrows(t: string, u: string)
    requires AllDigits(t) && AllDigits(u)
    ensures AllDigits(t + u) && Decimal(t + u) >= Decimal(t)
    decreases |u|
  {
    hide Num;
    if |u| == 0 {
      assert t + u == t;
    } else {
      var k := |u| - 1;
      DecimalGrows(t, u[..k]);
      assert t + u == t + u[..k] + [u[k]];
      DecimalSnoc(t + u[..k], u[k]);
    }
  }

  // Multiplies by 10^exponent.
  method Scale(mantissa: Int64, exponent: nat) returns (ok: bool, v: Int64)
    requires -Limit() < mantissa < Limit() && exponent < 18
    ensures ok <==> -Limit() < mantissa * Pow(10, exponent) < Limit()
    ensures ok ==> v == mantissa * Pow(10, exponent)
  {
    hide Pow;
    v := mantissa;
    PowZero();
    var i := 0;
    while i < exponent
      invariant i <= exponent && v == mantissa * Pow(10, i) && -Limit() < v < Limit()
    {
      OneMoreZero(mantissa, i, v);
      if v > (Limit() - 1) / 10 || v < -((Limit() - 1) / 10) {
        StaysPast(mantissa, i + 1, exponent);
        return false, v;
      }
      v := v * 10;
      i := i + 1;
    }
    ok := !(v > Limit() - 1 || v < -(Limit() - 1));
  }

  lemma StaysPast(m: int, i: nat, j: nat)
    requires i <= j && !(-Limit() < m * Pow(10, i) < Limit())
    ensures !(-Limit() < m * Pow(10, j) < Limit())
  {
    hide Pow;
    PowGrows(10, i, j);
    if m >= 0 {
      MulMono(Pow(10, i), Pow(10, j), m);
    } else {
      MulMono(Pow(10, i), Pow(10, j), -m);
      assert -m * Pow(10, i) == -(m * Pow(10, i)) && -m * Pow(10, j) == -(m * Pow(10, j));
    }
  }

  /* ---- the whole text ---- */

  // The digits of the whole part that reach the mantissa: a single 0 is passed over.
  function KeptOf(t: string): (d: string)
    ensures AllDigits(d)
  {
    if Begins(t, '0') then [] else t[..WholeLength(t)]
  }

  function Kept(s: string): (d: string)
    ensures AllDigits(d)
  {
    KeptOf(Unsigned(s))
  }

  function Mantissa(s: string): (d: string)
    ensures AllDigits(d)
  {
    Kept(s) + Frac(AfterWhole(s))
  }

  lemma MantissaIs(s: string)
    requires Scan(s).Some?
    ensures var p := Scan(s).value;
            AllDigits(p.whole + p.frac) && Decimal(p.whole + p.frac) == Decimal(Mantissa(s))
  {
    hide *;
    PartsAre(s);
    LeadingZero(Scan(s).value.frac);
  }

  lemma PartsAre(s: string)
    requires Scan(s).Some?
    ensures var p := Scan(s).value;
      && AllDigits(p.whole) && AllDigits(p.frac) && AllDigits(p.whole + p.frac)
      && (if Begins(Unsigned(s), '0') then p.whole == ['0'] && Mantissa(s) == p.frac
          else Mantissa(s) == p.whole + p.frac)
  {
    hide DigitCount, Frac, Num;
  }

  lemma LeadingZero(d: string)
    requires AllDigits(d)
    ensures AllDigits(['0'] + d) && Decimal(['0'] + d) == Decimal(d)
  {
    hide Num;
    assert Digits(['0'] + d) == [0] + Digits(d);
    NumLeadingZero(Digits(d), 10);
  }

  lemma WholePositive(whole: string)
    requires AllDigits(whole) && |whole| > 0 && whole[0] != '0'
    ensures Decimal(whole) > 0
  {
    hide Num;
    NumPositive(Digits(whole), 10);
  }

  // The amount in terms of the mantissa with its zeros set aside.
  lemma AmountIs(p: Parts, decimals: int, m: int, tz: nat)
    requires 0 <= m && WellFormed(p) && AllDigits(p.whole + p.frac) && Normal(Decimal(p.whole + p.frac), m, tz)
    requires m == 0 ==> tz == |p.frac|
    ensures var e := Exponent(p) - |p.frac| + tz + decimals;
            Amount(p, decimals) ==
            if 0 <= e < 18 && m * Pow(10, e) < Limit() then Some((if p.negative then -m else m) * Pow(10, e)) else None
  {
    hide Pow, Num, WellFormed, Exponent, Scaled;
    var e := Exponent(p) - |p.frac| + tz + decimals;
    if m > 0 {
      ScaledNormal(Decimal(p.whole + p.frac), m, tz, e - tz);
      if e >= 18 {
        EighteenZeros();
        GrowsPast(1, 18, e);
        MulMono(1, m, Pow(10, e));
      }
      if 0 <= e {
        assert -m * Pow(10, e) == -(m * Pow(10, e));
      }
    } else if 0 <= e {
      assert 0 * Pow(10, e) == 0;
    }
  }

  lemma EighteenZeros()
    ensures Pow(10, 18) == Limit()
  {
    PowSum(10, 9, 9);
    PowSum(10, 4, 5);
    assert Pow(10, 4) == 10000 && Pow(10, 5) == 100000;
  }

  lemma TooLongFails(s: string, decimals: int)
    requires TooLong(Decimal(Mantissa(s)))
    ensures Parsed(s, decimals) == None
  {
    hide Num, TooLong, Scan, Mantissa, Scaled, Pow;
    if Scan(s).Some? {
      MantissaIs(s);
      ScanSound(s);
      var p := Scan(s).value;
      NoZerosOff(Decimal(Mantissa(s)));
      ScaledTooLong(Decimal(Mantissa(s)), Exponent(p) - |p.frac| + decimals);
    }
  }

  // Reads the sign and the whole part.
  method ParseWhole(val: string) returns (ok: bool, ptr: nat, negative: bool, m: Int64, tz: nat)
    ensures negative == Begins(val, '-')
    ensures ok ==> WholeLength(Unsigned(val)) > 0 && ptr <= |val| && val[ptr..] == AfterWhole(val) && tz <= ptr
    ensures ok ==> 0 <= m && Normal(Decimal(Kept(val)), m, tz) && (m == 0 ==> tz == 0)
    ensures !ok ==> Scan(val) == None || TooLong(Decimal(Kept(val)))
  {
    hide Num, Pow, TooLong, DigitCount, Normal, WholeLength, KeptOf;
    ptr, negative := 0, false;
    if ptr < |val| && val[ptr] == '-' {
      negative := true;
      ptr := ptr + 1;
    }
    assert val[ptr..] == Unsigned(val);
    ok, ptr, m, tz := WholeDigits(val, ptr);
  }

  // A single 0, or a run of digits that starts with another one.
  method WholeDigits(val: string, start: nat) returns (ok: bool, ptr: nat, m: Int64, tz: nat)
    requires start <= |val|
    ensures ok ==> WholeLength(val[start..]) > 0 && ptr <= |val| && tz <= ptr
    ensures ok ==> val[ptr..] == val[start..][WholeLength(val[start..])..]
    ensures ok ==> 0 <= m && Normal(Decimal(KeptOf(val[start..])), m, tz) && (m == 0 ==> tz == 0)
    ensures !ok ==> WholeLength(val[start..]) == 0 || TooLong(Decimal(KeptOf(val[start..])))
  {
    hide *;
    ok, ptr, m, tz := false, start, 0, 0;
    NormalZero();
    WholeIs(val, start);
    if ptr < |val| {
      if val[ptr] == '0' {
        ptr := ptr + 1;
        ok := true;
      } else if '1' <= val[ptr] <= '9' {
        ok, ptr, m, tz := MantissaDigits(val, ptr, 0, 0, []);
        assert [] + Run(val, start) == KeptOf(val[start..]);
        if ok {
          WholePositive(KeptOf(val[start..]));
          NormalPositive(Decimal(KeptOf(val[start..])), m, tz);
        }
      }
    }
  }

  lemma WholeIs(s: string, i: nat)
    requires i <= |s|
    ensures WholeLength(s[i..]) == 0 <==> i == |s| || !('0' <= s[i] <= '9')
    ensures i < |s| && s[i] == '0' ==> WholeLength(s[i..]) == 1 && KeptOf(s[i..]) == [] && s[i..][1..] == s[i + 1..]
    ensures i < |s| && '1' <= s[i] <= '9' ==>
      && WholeLength(s[i..]) == DigitCount(s[i..]) <= |s| - i && KeptOf(s[i..]) == Run(s, i)
      && AllDigits(Run(s, i)) && |Run(s, i)| > 0 && Run(s, i)[0] != '0'
      && s[i..][DigitCount(s[i..])..] == s[i + DigitCount(s[i..])..]
  {
    HasDigit(s, i);
  }

  lemma NormalZero()
    ensures AllDigits([]) && Decimal([]) == 0 && Normal(0, 0, 0)
  {
  }

  lemma NormalPositive(d: nat, m: nat, tz: nat)
    requires Normal(d, m, tz) && d > 0
    ensures m > 0
  {
  }

  // Reads the point and the digits after it.
  method ParseFraction(val: string, start: nat, m0: Int64, tz0: nat)
    returns (ok: bool, ptr: nat, pointOfs: nat, m: Int64, tz: nat)
    requires start <= |val| && val[start..] == AfterWhole(val) && tz0 <= start
    requires 0 <= m0 && Normal(Decimal(Kept(val)), m0, tz0) && (m0 == 0 ==> tz0 == 0)
    ensures ok ==> ptr <= |val| && val[ptr..] == AfterFrac(AfterWhole(val)) && tz <= ptr
    ensures ok ==> pointOfs == |Frac(AfterWhole(val))| <= ptr
    ensures ok ==> (Begins(AfterWhole(val), '.') ==> FracLength(AfterWhole(val)) > 0)
    ensures ok ==> 0 <= m && Normal(Decimal(Mantissa(val)), m, tz) && (m == 0 ==> tz == pointOfs)
    ensures !ok ==> Scan(val) == None || TooLong(Decimal(Mantissa(val)))
  {
    hide Num, Pow, TooLong, DigitCount, Normal, Kept, AfterWhole, WholeLength, Unsigned;
    ok, ptr, pointOfs, m, tz := true, start, 0, m0, tz0;
    ghost var u := AfterWhole(val);
    assert start < |val| ==> val[start] == u[0];
    assert Kept(val) + [] == Kept(val);
    if ptr < |val| && val[ptr] == '.' {
      ptr := ptr + 1;
      assert val[ptr..] == u[1..];
      if ptr < |val| && '0' <= val[ptr] <= '9' {
        RunReaches(val, ptr, 1);
        ok, ptr, m, tz := MantissaDigits(val, ptr, m, tz, Kept(val));
        pointOfs := ptr - (start + 1);
        assert Run(val, start + 1) == Frac(u);
        if ok {
          assert val[ptr..] == u[1 + FracLength(u)..];
        }
      } else {
        DigitCountIs(u[1..], 0);
        ok := false;
      }
    }
  }

  function ExpDigits(v: string): (d: string)
    ensures AllDigits(d) && |d| == ExpLength(v)
  {
    if MarkerLength(v) == 0 then [] else v[MarkerLength(v)..][..ExpLength(v)]
  }

  // What is left after the fraction is an exponent of at most 18 significant digits, and nothing else.
  ghost predicate ExponentOk(v: string) {
    && (MarkerLength(v) > 0 ==> ExpLength(v) > 0)
    && MarkerLength(v) + ExpLength(v) == |v|
    && Decimal(ExpDigits(v)) < Limit()
  }

  ghost function SignedExponent(v: string): int {
    var e: int := Decimal(ExpDigits(v));
    if IsNegative(v[..MarkerLength(v)]) then -e else e
  }

  // Reads the exponent to the end of the text.
  method ParseExponent(val: string, start: nat) returns (ok: bool, exponent: Int64)
    requires start <= |val|
    ensures ok <==> ExponentOk(val[start..])
    ensures ok ==> exponent == SignedExponent(val[start..]) && -Limit() < exponent < Limit()
  {
    hide Num, Pow, DigitCount, IsDigit;
    ok, exponent := true, 0;
    ghost var v := val[start..];
    var ptr, sign := start, false;
    assert start < |val| ==> val[start] == v[0];
    assert start + 1 < |val| ==> val[start + 1] == v[1];
    DecimalEmpty([]);
    if ptr < |val| && (val[ptr] == 'e' || val[ptr] == 'E') {
      ptr := ptr + 1;
      if ptr < |val| && val[ptr] == '+' {
        ptr := ptr + 1;
      } else if ptr < |val| && val[ptr] == '-' {
        sign := true;
        ptr := ptr + 1;
      }
      assert ptr == start + MarkerLength(v) && val[ptr..] == v[MarkerLength(v)..];
      assert Run(val, ptr) == ExpDigits(v);
      HasDigit(val, ptr);
      if ptr < |val| && '0' <= val[ptr] <= '9' {
        ok, ptr, exponent := ExponentDigits(val, ptr);
        if !ok {
          return;
        }
      } else {
        return false, 0;
      }
    }
    ok := ptr == |val|;
    if sign {
      exponent := -exponent;
    }
  }

  lemma HasDigit(s: string, i: nat)
    requires i <= |s|
    ensures DigitCount(s[i..]) > 0 <==> i < |s| && '0' <= s[i] <= '9'
  {
  }

  // What is read before a well-formed exponent makes up the parts.
  lemma Scanned(s: string)
    requires WholeLength(Unsigned(s)) > 0 && (Begins(AfterWhole(s), '.') ==> FracLength(AfterWhole(s)) > 0)
    ensures var v := AfterFrac(AfterWhole(s));
            ExponentOk(v) ==> Scan(s).Some? && WellFormed(Scan(s).value) && Exponent(Scan(s).value) == SignedExponent(v)
    ensures Scan(s).Some? && !ExponentOk(AfterFrac(AfterWhole(s))) ==> Decimal(Scan(s).value.exp) >= Limit()
    ensures Scan(s).Some? ==> Scan(s).value.frac == Frac(AfterWhole(s)) && Scan(s).value.negative == Begins(s, '-')
  {
    hide Num, DigitCount, WellFormed, Render, AfterWhole, AfterFrac, Unsigned, Frac, IsDigit, MarkerLength;
    var v := AfterFrac(AfterWhole(s));
    assert MarkerLength(v) + ExpLength(v) == |v| && MarkerLength(v) > 0 ==> ExpDigits(v) == v[MarkerLength(v)..];
    assert |v| == 0 ==> v[MarkerLength(v)..] == [];
    if Scan(s).Some? {
      ScanSound(s);
    }
  }

  lemma HugeExponent(p: Parts)
    requires WellFormed(p) && Decimal(p.exp) >= Limit()
    ensures Exponent(p) >= Limit() || Exponent(p) <= -Limit()
  {
    hide Num;
  }

  lemma BadExponentFails(s: string, decimals: int, m: int, tz: nat)
    requires 0 <= m && Normal(Decimal(Mantissa(s)), m, tz) && (m == 0 ==> tz == |Frac(AfterWhole(s))|)
    requires tz <= |s| && |Frac(AfterWhole(s))| <= |s|
    requires Scan(s).Some? ==> Scan(s).value.frac == Frac(AfterWhole(s)) && Decimal(Scan(s).value.exp) >= Limit()
    requires |s| < 0x8000_0000 && -0x8000_0000 <= decimals < 0x8000_0000
    ensures Parsed(s, decimals) == None
  {
    hide Num, Scan, Mantissa, Amount, Pow, Normal, WellFormed, Render, Frac, AfterWhole, Exponent;
    if Scan(s).Some? {
      MantissaIs(s);
      ScanSound(s);
      HugeExponent(Scan(s).value);
      AmountIs(Scan(s).value, decimals, m, tz);
    }
  }

  // The exponent is in range, so the amount is the mantissa scaled.
  lemma ParsedIs(s: string, decimals: int, m: int, tz: nat)
    requires 0 <= m && Normal(Decimal(Mantissa(s)), m, tz) && (m == 0 ==> tz == |Frac(AfterWhole(s))|)
    requires Scan(s).Some? && Scan(s).value.frac == Frac(AfterWhole(s)) && WellFormed(Scan(s).value)
    ensures var p := Scan(s).value;
            var e := Exponent(p) - |p.frac| + tz + decimals;
            Parsed(s, decimals) ==
            if 0 <= e < 18 && m * Pow(10, e) < Limit() then Some((if p.negative then -m else m) * Pow(10, e)) else None
  {
    hide Num, Scan, Mantissa, Amount, Pow, Normal, WellFormed, Render, Frac, AfterWhole, Exponent;
    MantissaIs(s);
    ScanSound(s);
    AmountIs(Scan(s).value, decimals, m, tz);
  }

  // Succeeds exactly on the JSON numbers that Amount accepts, with its value.
  method ParseFixedPoint(val: string, decimals: Int32) returns (r: Option<int>)
    requires |val| < 0x8000_0000
    ensures r == Parsed(val, decimals)
  {
    hide Num, Scan, Pow, Normal, TooLong, WellFormed, Render, Frac, AfterFrac, AfterWhole, WholeLength, Unsigned,
         Exponent, Mantissa, Parsed, FracLength, ExponentOk, SignedExponent, Kept;
    var ok, ptr, negative, mantissa, tzeros := ParseWhole(val);
    if !ok {
      WholeTooLong(val, decimals);
      return None;
    }
    var pointOfs;
    ok, ptr, pointOfs, mantissa, tzeros := ParseFraction(val, ptr, mantissa, tzeros);
    if !ok {
      ScanOrTooLong(val, decimals);
      return None;
    }
    var exponent;
    ok, exponent := ParseExponent(val, ptr);
    Scanned(val);
    if !ok {
      BadExponentFails(val, decimals, mantissa, tzeros);
      return None;
    }
    ParsedIs(val, decimals, mantissa, tzeros);
    NormalBound(Decimal(Mantissa(val)), mantissa, tzeros);
    exponent := exponent - pointOfs + tzeros;
    if negative {
      mantissa := -mantissa;
    }
    exponent := exponent + decimals;
    if exponent < 0 || exponent >= 18 {
      return None;
    }
    var v;
    ok, v := Scale(mantissa, exponent);
    SignedScale(mantissa, Pow(10, exponent));
    return if ok then Some(v) else None;
  }

  lemma SignedScale(m: int, p: int)
    requires p > 0
    ensures -m * p == -(m * p) && (m >= 0 ==> m * p >= 0)
  {
  }

  lemma NormalBound(d: nat, m: int, tz: nat)
    requires 0 <= m && Normal(d, m, tz)
    ensures m < Limit()
  {
  }

  lemma ScanOrTooLong(s: string, decimals: int)
    requires Scan(s) == None || TooLong(Decimal(Mantissa(s)))
    ensures Parsed(s, decimals) == None
  {
    hide Num, TooLong, Scan, Mantissa;
    if Scan(s).Some? {
      TooLongFails(s, decimals);
    }
  }

  lemma WholeTooLong(s: string, decimals: int)
    requires Scan(s) == None || TooLong(Decimal(Kept(s)))
    ensures Parsed(s, decimals) == None
  {
    hide Num, TooLong, Scan, Kept;
    if Scan(s).Some? {
      TooLongExtends(Kept(s), Frac(AfterWhole(s)));
      TooLongFails(s, decimals);
    }
  }
}
