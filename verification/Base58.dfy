/** Base58 text: the in-place base conversion of both directions and their round trips. */
module Base58 {
  import opened Common
  import opened Bits
  import opened Radix

  /* ---- the alphabet: no 0, I, O or l ---- */

  function CharOf(d: int): (c: char)
    requires 0 <= d < 58
    ensures DigitOf(c) == d && !IsSpace(c)
    ensures c == '1' <==> d == 0
  {
    if d < 9 then (d + 49) as char            // 1 - 9
    else if d < 17 then (d + 56) as char      // A - H
    else if d < 22 then (d + 57) as char      // J - N
    else if d < 33 then (d + 58) as char      // P - Z
    else if d < 44 then (d + 64) as char      // a - k
    else (d + 65) as char                     // m - z
  }

  // -1 outside the alphabet.
  function DigitOf(c: char): (d: int)
    ensures -1 <= d < 58
  {
    var k := c as int;
    if 49 <= k <= 57 then k - 49
    else if 65 <= k <= 72 then k - 56
    else if 74 <= k <= 78 then k - 57
    else if 80 <= k <= 90 then k - 58
    else if 97 <= k <= 107 then k - 64
    else if 109 <= k <= 122 then k - 65
    else -1
  }

  lemma CharOfDigit(c: char)
    ensures DigitOf(c) != -1 ==> CharOf(DigitOf(c)) == c
    ensures IsSpace(c) ==> DigitOf(c) == -1
  {
  }

  // The characters in the order of their digits.
  lemma AlphabetWritten(d: int)
    requires 0 <= d < 58
    ensures CharOf(d) == ("123456789" + "ABCDEFGH" + "JKLMN" + "PQRSTUVWXYZ" + "abcdefghijk" + "mnopqrstuvwxyz")[d]
  {
    hide CharOf;
    if d < 22 {
      FirstCharacters(d);
    } else {
      LastCharacters(d);
    }
  }

  lemma FirstCharacters(d: int)
    requires 0 <= d < 22
    ensures CharOf(d) == ("123456789" + "ABCDEFGH" + "JKLMN")[d]
  {
  }

  lemma LastCharacters(d: int)
    requires 22 <= d < 58
    ensures CharOf(d) == ("PQRSTUVWXYZ" + "abcdefghijk" + "mnopqrstuvwxyz")[d - 22]
  {
  }

  lemma AlphabetOrdered(d: int, e: int)
    requires 0 <= d < e < 58
    ensures CharOf(d) < CharOf(e)
  {
  }

  // Digits and letters without those that look alike.
  lemma AlphabetIs(c: char)
    ensures DigitOf(c) != -1 <==>
      ('0' <= c <= '9' || 'A' <= c <= 'Z' || 'a' <= c <= 'z') && c != '0' && c != 'I' && c != 'O' && c != 'l'
  {
  }

  // isspace in the C locale.
  predicate IsSpace(c: char) {
    var k := c as int;
    9 <= k <= 13 || k == 32
  }

  /* ---- what the two directions compute ---- */

  function LeadingZeros(b: seq<int>): (z: nat)
    ensures z <= |b| && (z < |b| ==> b[z] != 0) && forall i :: 0 <= i < z ==> b[i] == 0
  {
    if |b| > 0 && b[0] == 0 then 1 + LeadingZeros(b[1..]) else 0
  }

  function Chars(d: seq<int>): (s: string)
    requires AreDigits58(d)
    ensures |s| == |d|
  {
    seq(|d|, i requires 0 <= i < |d| => CharOf(d[i]))
  }

  predicate AreDigits58(d: seq<int>) {
    forall i :: 0 <= i < |d| ==> 0 <= d[i] < 58
  }

  function Ones(z: nat): string {
    seq(z, _ => '1')
  }

  // One '1' for every leading zero byte, then the rest of the number in base 58.
  ghost function Encoding(b: seq<Byte>): string {
    NumBounds(b, 256);
    ToDigitsNum(Num(b, 256), 58);
    Ones(LeadingZeros(b)) + Chars(ToDigits(Num(b, 256), 58))
  }

  // As many ones as there are zero bytes in front, then the number in base 58 without zeros in front.
  lemma EncodingMeans(b: seq<Byte>)
    ensures var s, z := Encoding(b), LeadingZeros(b);
      && z <= |s| && (forall i :: 0 <= i < z ==> s[i] == '1') && (z < |s| ==> s[z] != '1')
      && (forall i :: z <= i < |s| ==> DigitOf(s[i]) != -1)
      && Num(Digits(s[z..]), 58) == Num(b, 256)
  {
    hide Num, ToDigits, LeadingZeros;
    NumBounds(b, 256);
    var v, z := Num(b, 256), LeadingZeros(b);
    ToDigitsNum(v, 58);
    EmptyWhenZero(v, 58);
    var d := ToDigits(v, 58);
    assert Encoding(b)[z..] == Chars(d);
    assert Digits(Chars(d)) == d;
  }

  // The length of the longest prefix of spaces, ones, or characters that are not spaces.
  function SpaceCount(s: string): (k: nat)
    ensures k <= |s| && (k < |s| ==> !IsSpace(s[k])) && forall i :: 0 <= i < k ==> IsSpace(s[i])
  {
    if |s| > 0 && IsSpace(s[0]) then 1 + SpaceCount(s[1..]) else 0
  }

  function OneCount(s: string): (k: nat)
    ensures k <= |s| && (k < |s| ==> s[k] != '1') && forall i :: 0 <= i < k ==> s[i] == '1'
  {
    if |s| > 0 && s[0] == '1' then 1 + OneCount(s[1..]) else 0
  }

  function WordCount(s: string): (k: nat)
    ensures k <= |s| && (k < |s| ==> IsSpace(s[k])) && forall i :: 0 <= i < k ==> !IsSpace(s[i])
  {
    if |s| > 0 && !IsSpace(s[0]) then 1 + WordCount(s[1..]) else 0
  }

  function Digits(s: string): (d: seq<int>)
    ensures |d| == |s|
  {
    seq(|s|, i requires 0 <= i < |s| => DigitOf(s[i]))
  }

  predicate AllValid(s: string) {
    forall i :: 0 <= i < |s| ==> DigitOf(s[i]) != -1
  }

  // Spaces, ones, digits, spaces.
  ghost function Decoding(s: string): Option<seq<Byte>> {
    var t := s[SpaceCount(s)..];
    var z := OneCount(t);
    var u := t[z..];
    var w := u[..WordCount(u)];
    if AllValid(w) && SpaceCount(u[|w|..]) == |u| - |w| then
      DigitsValid(w);
      NumBounds(Digits(w), 58);
      ToDigitsNum(Num(Digits(w), 58), 256);
      Some(Zeros(z) + AsBytes(ToDigits(Num(Digits(w), 58), 256)))
    else None
  }

  lemma DigitsValid(w: string)
    requires AllValid(w)
    ensures AreDigits(Digits(w), 58)
  {
  }

  /* ---- the buffers are large enough ---- */

  // 58^5 >= 2^29.
  lemma FifthPower()
    ensures Pow(2, 29) <= Pow(58, 5)
  {
    PowSum(2, 15, 14);
    assert Pow(2, 14) == 16384 && Pow(2, 15) == 32768;
    assert Pow(58, 5) == 656356768;
  }

  // 58^22 <= 2^129.
  lemma TwentySecondPower()
    ensures Pow(58, 22) <= Pow(2, 129)
  {
    PowSum(58, 11, 11);
    PowSum(58, 5, 6);
    assert Pow(58, 5) == 656356768 && Pow(58, 6) == 38068692544;
    TwoTo129();
  }

  lemma TwoTo129()
    ensures Pow(2, 129) == 0x2_00000000_00000000_00000000_00000000
  {
    hide Pow;
    EightBits();
    PowSum(2, 64, 65);
    PowSum(2, 64, 1);
    PowSum(2, 32, 32);
    PowSum(2, 16, 16);
    PowSum(2, 8, 8);
  }

  // log(256) / log(58), rounded up, as a ratio of 138 to 100.
  lemma EncodeBufferFits(n: nat)
    ensures Pow(256, n) <= Pow(58, n * 138 / 100 + 1)
  {
    hide Pow;
    var k := n * 138 / 100 + 1;
    assert 29 * k >= 40 * n;
    FifthPower();
    // 256^(5 n) = 2^(40 n) <= 2^(29 k) <= 58^(5 k)
    EightBits();
    PowPow(2, 8, n);
    PowPow(2, 8 * n, 5);
    PowGrows(2, 8 * n * 5, 29 * k);
    PowPow(2, 29, k);
    PowMonotone(Pow(2, 29), Pow(58, 5), k);
    PowPow(58, 5, k);
    PowPow(58, k, 5);
    assert 5 * k == k * 5;
    Root(Pow(256, n), Pow(58, k), 5);
  }

  lemma EightBits()
    ensures Pow(2, 8) == 256 && Pow(2, 1) == 2
  {
  }

  // log(58) / log(256), rounded up, as a ratio of 733 to 1000.
  lemma DecodeBufferFits(m: nat)
    ensures Pow(58, m) <= Pow(256, m * 733 / 1000 + 1)
  {
    hide Pow;
    var k := m * 733 / 1000 + 1;
    assert 176 * k >= 129 * m;
    TwentySecondPower();
    // 58^(22 m) <= 2^(129 m) <= 2^(176 k) = 256^(22 k)
    EightBits();
    PowPow(58, m, 22);
    PowPow(58, 22, m);
    assert 22 * m == m * 22;
    PowMonotone(Pow(58, 22), Pow(2, 129), m);
    PowPow(2, 129, m);
    PowGrows(2, 129 * m, 8 * k * 22);
    PowPow(2, 8 * k, 22);
    PowPow(2, 8, k);
    Root(Pow(58, m), Pow(256, k), 22);
  }

  /* ---- digits with zeros in front ---- */

  lemma {:induction false} ZeroPrefix(s: seq<int>, k: nat, b: nat)
    requires b > 0 && k <= |s| && forall i :: 0 <= i < k ==> s[i] == 0
    ensures Num(s, b) == Num(s[k..], b)
    decreases k
  {
    if k == 0 {
      assert s[0..] == s;
    } else {
      assert s == [0] + s[1..];
      NumLeadingZero(s[1..], b);
      ZeroPrefix(s[1..], k - 1, b);
      assert s[1..][k - 1..] == s[k..];
    }
  }

  // The digits of a number are what follows the zeros in front.
  lemma SignificantDigits(s: seq<int>, k: nat, b: nat)
    requires b > 1 && AreDigits(s, b) && k <= |s|
    requires forall i :: 0 <= i < k ==> s[i] == 0
    requires k < |s| ==> s[k] != 0
    ensures Num(s, b) >= 0 && ToDigits(Num(s, b), b) == s[k..]
  {
    ZeroPrefix(s, k, b);
    NumToDigits(s[k..], b);
  }

  /* ---- the conversion loop ---- */

  // carry' and the new digit after one digit of the multiplication.
  lemma CarryStep(carry: nat, factor: nat, d: nat, base: nat)
    requires carry <= factor && d < base
    ensures 0 <= (carry + factor * d) / base <= factor
    ensures 0 <= (carry + factor * d) % base < base
    ensures carry + factor * d == (carry + factor * d) / base * base + (carry + factor * d) % base
  {
    MulMono(0, d, factor);
    MulMono(d + 1, base, factor);
    Distribute(d, 1, factor);
    DivideCarry(carry + factor * d, base, factor);
  }

  lemma DivideCarry(t: nat, base: nat, factor: nat)
    requires base > 0 && t <= factor * base
    ensures 0 <= t / base <= factor && 0 <= t % base < base && t == t / base * base + t % base
  {
    var q, r := t / base, t % base;
    assert t == q * base + r;
    if q > factor {
      MulMono(factor + 1, q, base);
      Distribute(factor, 1, base);
    }
  }

  // value + carry * power == old * factor + ch  is kept when one more digit is taken in.
  lemma InvariantStep(now: int, now2: int, was: int, was2: int, p: int, p2: int, carry: int, carry2: int,
                      d: int, e: int, factor: int, ch: int, base: int)
    requires now + carry * p == was * factor + ch
    requires carry + factor * d == carry2 * base + e
    requires now2 == e * p + now && was2 == d * p + was && p2 == base * p
    ensures now2 + carry2 * p2 == was2 * factor + ch
  {
    calc {
      was2 * factor + ch;
      { Distribute(d * p, was, factor); }
      d * p * factor + now + carry * p;
      { assert d * p * factor == factor * d * p; Distribute(carry, factor * d, p); }
      now + (carry2 * base + e) * p;
      { Distribute(carry2 * base, e, p); assert carry2 * base * p == carry2 * (base * p); }
      now2 + carry2 * p2;
    }
  }

  lemma NoCarryLeft(value: int, carry: int, p: int)
    requires 0 <= value && 0 <= carry && 0 < p && value + carry * p < p
    ensures carry == 0
  {
    if carry > 0 {
      MulMono(1, carry, p);
    }
  }

  // a := a * factor + ch in place, from the last digit forwards, over the digits in use.
  method MultiplyAdd(a: array<int>, base: nat, factor: nat, ch: nat, length: nat) returns (used: nat)
    requires base > 1 && ch <= factor && length <= a.Length
    requires AreDigits(a[..], base)
    requires forall i :: 0 <= i < a.Length - length ==> a[i] == 0
    requires Num(a[..], base) * factor + ch < Pow(base, a.Length)
    modifies a
    ensures AreDigits(a[..], base)
    ensures Num(a[..], base) == old(Num(a[..], base)) * factor + ch
    ensures length <= used <= a.Length
    ensures forall i :: 0 <= i < a.Length - used ==> a[i] == 0
  {
    hide Num, Pow;
    ghost var was := a[..];
    var n := a.Length;
    var carry, i := ch, 0;
    EmptyNum(a[n..], base);
    EmptyNum(was[n..], base);
    while (carry != 0 || i < length) && i < n
      invariant 0 <= i <= n && 0 <= carry <= factor && length <= a.Length
      invariant forall k :: 0 <= k < n - i ==> a[k] == was[k]
      invariant AreDigits(a[..], base)
      invariant Num(a[n - i..], base) + carry * Pow(base, i) == Num(was[n - i..], base) * factor + ch
    {
      var j := n - 1 - i;
      ghost var before, carry0 := a[n - i..], carry;
      var t := carry + factor * a[j];
      CarryStep(carry, factor, a[j], base);
      a[j] := t % base;
      carry := t / base;
      TakeDigit(a[j..], before, was[j..], was[n - i..], carry0, carry, base, factor, ch);
      i := i + 1;
    }
    used := i;
    UsedDigits(was, a[..], i, carry, length, base, factor, ch);
  }

  lemma EmptyNum(s: seq<int>, base: nat)
    requires base > 0 && |s| == 0
    ensures Num(s, base) == 0 && Pow(base, 0) == 1
  {
  }

  // One turn of the loop.
  lemma TakeDigit(now: seq<int>, before: seq<int>, all: seq<int>, rest: seq<int>, carry: nat, carry2: nat,
                  base: nat, factor: nat, ch: nat)
    requires base > 1 && |before| == |rest| && |now| == |before| + 1 && |all| == |rest| + 1
    requires now[1..] == before && all[1..] == rest
    requires carry + factor * all[0] == carry2 * base + now[0]
    requires Num(before, base) + carry * Pow(base, |before|) == Num(rest, base) * factor + ch
    ensures Num(now, base) + carry2 * Pow(base, |before| + 1) == Num(all, base) * factor + ch
  {
    hide *;
    NextPower(base, |before|);
    HeadDigit(now, before, base);
    HeadDigit(all, rest, base);
    InvariantStep(Num(before, base), Num(now, base), Num(rest, base), Num(all, base),
                  Pow(base, |before|), Pow(base, |before| + 1), carry, carry2, all[0], now[0], factor, ch, base);
  }

  lemma HeadDigit(s: seq<int>, rest: seq<int>, base: nat)
    requires base > 0 && |s| == |rest| + 1 && s[1..] == rest
    ensures Num(s, base) == s[0] * Pow(base, |rest|) + Num(rest, base)
  {
    hide Num, Pow;
    assert s == [s[0]] + rest;
    NumCons(s[0], rest, base);
  }

  lemma NextPower(base: nat, k: nat)
    requires base > 0
    ensures Pow(base, k + 1) == base * Pow(base, k)
  {
  }

  // After the loop: no carry is left, and the number is whole.
  lemma UsedDigits(was: seq<int>, now: seq<int>, i: nat, carry: nat, length: nat, base: nat, factor: nat, ch: nat)
    requires base > 1 && i <= |was| == |now| && length <= |was|
    requires AreDigits(now, base) && forall k :: 0 <= k < |was| - i ==> now[k] == was[k]
    requires forall k :: 0 <= k < |was| - length ==> was[k] == 0
    requires Num(now[|now| - i..], base) + carry * Pow(base, i) == Num(was[|was| - i..], base) * factor + ch
    requires (carry == 0 && length <= i) || i == |was|
    requires Num(was, base) * factor + ch < Pow(base, |was|)
    ensures carry == 0 && Num(now, base) == Num(was, base) * factor + ch
  {
    hide Num, Pow;
    var n := |was|;
    ZeroPrefix(was, if i == n then 0 else n - i, base);
    ZeroPrefix(now, if i == n then 0 else n - i, base);
    if i == n {
      assert was[0..] == was && now[0..] == now;
      NumBounds(now, base);
      NoCarryLeft(Num(now, base), carry, Pow(base, n));
    }
  }

  /* ---- encoding ---- */

  lemma PrefixNum(b: seq<int>, k: nat, base: nat)
    requires base > 0 && k < |b|
    ensures Num(b[..k + 1], base) == Num(b[..k], base) * base + b[k]
  {
    assert b[..k + 1] == b[..k] + [b[k]];
    NumSnoc(b[..k], b[k], base);
  }

  // Every prefix of t fits into size digits of the other base.
  lemma PrefixFits(t: seq<int>, k: nat, from: nat, to: nat, size: nat)
    requires from > 0 && to > 0 && k <= |t| && AreDigits(t, from)
    requires Pow(from, |t|) <= Pow(to, size)
    ensures Num(t[..k], from) < Pow(to, size)
  {
    NumBounds(t[..k], from);
    PowGrows(from, k, |t|);
  }

  method EncodeBase58(bytes: seq<Byte>) returns (str: string)
    ensures str == Encoding(bytes)
  {
    hide Num, Pow, ToDigits, Chars, Encoding;
    var zeroes := 0;
    while zeroes < |bytes| && bytes[zeroes] == 0
      invariant zeroes <= |bytes| && forall i :: 0 <= i < zeroes ==> bytes[i] == 0
    {
      zeroes := zeroes + 1;
    }
    var rest: seq<int> := bytes[zeroes..];
    var size := |rest| * 138 / 100 + 1;
    EncodeBufferFits(|rest|);
    var b58 := new int[size](_ => 0);
    var p, length := 0, 0;
    ZeroNum(b58[..], 58);
    EmptyNum(rest[..0], 256);
    while p < |rest|
      invariant p <= |rest| && length <= b58.Length && fresh(b58)
      invariant AreDigits(b58[..], 58)
      invariant forall i :: 0 <= i < b58.Length - length ==> b58[i] == 0
      invariant Num(b58[..], 58) == Num(rest[..p], 256)
    {
      PrefixNum(rest, p, 256);
      PrefixFits(rest, p + 1, 256, 58, size);
      length := MultiplyAdd(b58, 58, 256, rest[p], length);
      p := p + 1;
    }
    assert rest[..p] == rest;
    var it := size - length;
    while it < size && b58[it] == 0
      invariant it <= size && forall i :: 0 <= i < it ==> b58[i] == 0
    {
      it := it + 1;
    }
    SignificantDigits(b58[..], it, 58);
    ghost var digits := b58[it..];
    assert digits == b58[..][it..];
    str := Translate(zeroes, b58, it);
    EncodingIs(bytes, zeroes, digits);
  }

  // The ones and the characters of the digits from start on.
  method Translate(zeroes: nat, b58: array<int>, start: nat) returns (str: string)
    requires start <= b58.Length && AreDigits58(b58[start..])
    ensures str == Ones(zeroes) + Chars(b58[start..])
  {
    ghost var digits := b58[start..];
    str := seq(zeroes, _ => '1');
    var it := start;
    assert digits[..0] == [];
    while it < b58.Length
      invariant start <= it <= b58.Length
      invariant str == Ones(zeroes) + Chars(digits[..it - start])
    {
      CharsSnoc(digits, it - start);
      assert digits[it - start] == b58[it];
      str := str + [CharOf(b58[it])];
      it := it + 1;
    }
    assert digits[..it - start] == digits;
  }

  lemma {:induction false} ZeroNum(s: seq<int>, base: nat)
    requires base > 0 && forall i :: 0 <= i < |s| ==> s[i] == 0
    ensures Num(s, base) == 0
  {
    ZeroPrefix(s, |s|, base);
  }

  lemma CharsSnoc(d: seq<int>, k: nat)
    requires AreDigits58(d) && k < |d|
    ensures Chars(d[..k + 1]) == Chars(d[..k]) + [CharOf(d[k])]
  {
  }

  lemma EncodingIs(bytes: seq<Byte>, z: nat, digits: seq<int>)
    requires z <= |bytes| && (forall i :: 0 <= i < z ==> bytes[i] == 0) && (z < |bytes| ==> bytes[z] != 0)
    requires AreDigits58(digits) && Num(bytes[z..], 256) >= 0
    requires digits == ToDigits(Num(bytes[z..], 256), 58)
    ensures Encoding(bytes) == Ones(z) + Chars(digits)
  {
    hide Num, ToDigits, Chars;
    ZeroPrefix(bytes, z, 256);
  }

  /* ---- decoding ---- */

  lemma SpaceCountIs(s: string, k: nat)
    requires k <= |s| && (forall i :: 0 <= i < k ==> IsSpace(s[i])) && (k < |s| ==> !IsSpace(s[k]))
    ensures SpaceCount(s) == k
  {
  }

  lemma OneCountIs(s: string, k: nat)
    requires k <= |s| && (forall i :: 0 <= i < k ==> s[i] == '1') && (k < |s| ==> s[k] != '1')
    ensures OneCount(s) == k
  {
  }

  lemma WordCountIs(s: string, k: nat)
    requires k <= |s| && (forall i :: 0 <= i < k ==> !IsSpace(s[i])) && (k < |s| ==> IsSpace(s[k]))
    ensures WordCount(s) == k
  {
  }

  // The characters of psz are those before the terminating NUL.
  method DecodeBase58(psz: string) returns (r: Option<seq<Byte>>)
    ensures r == Decoding(psz)
  {
    hide Num, Pow, ToDigits, Decoding, SpaceCount, OneCount, WordCount, Body, IsSpace, DigitOf, Digits;
    var zeroes, rest := SkipFront(psz);
    var w, number := DecodeWord(rest);
    if number.None? {
      InvalidWord(psz, w);
      return None;
    }
    WordCountIs(rest, w);
    var q := w;
    while q < |rest| && IsSpace(rest[q])
      invariant w <= q <= |rest| && forall i :: w <= i < q ==> IsSpace(rest[i])
    {
      q := q + 1;
    }
    SpaceCountIs(rest[w..], q - w);
    DecodingIs(psz);
    if q < |rest| {
      return None;
    }
    return Some(seq(zeroes, _ => 0) + number.value);
  }

  // Skips the spaces and counts the ones.
  method SkipFront(psz: string) returns (zeroes: nat, rest: string)
    ensures zeroes == OneCount(psz[SpaceCount(psz)..]) && rest == Body(psz)
  {
    hide SpaceCount, OneCount, IsSpace;
    var p := 0;
    while p < |psz| && IsSpace(psz[p])
      invariant p <= |psz| && forall i :: 0 <= i < p ==> IsSpace(psz[i])
    {
      p := p + 1;
    }
    SpaceCountIs(psz, p);
    var text := psz[p..];
    zeroes := 0;
    while zeroes < |text| && text[zeroes] == '1'
      invariant zeroes <= |text| && forall i :: 0 <= i < zeroes ==> text[i] == '1'
    {
      zeroes := zeroes + 1;
    }
    OneCountIs(text, zeroes);
    rest := text[zeroes..];
  }

  // The number the characters up to the first space stand for, without leading zeros; w is where reading stopped.
  method DecodeWord(s: string) returns (w: nat, number: Option<seq<Byte>>)
    ensures w <= |s| && (forall i :: 0 <= i < w ==> !IsSpace(s[i])) && AllValid(s[..w])
    ensures number.Some? ==> (w < |s| ==> IsSpace(s[w])) && Num(Digits(s[..w]), 58) >= 0
    ensures number.Some? ==> number.value == ToDigits(Num(Digits(s[..w]), 58), 256)
    ensures number.None? ==> w < |s| && !IsSpace(s[w]) && DigitOf(s[w]) == -1
  {
    hide Num, Pow, ToDigits;
    var size := |s| * 733 / 1000 + 1;
    DecodeBufferFits(|s|);
    var b256 := new int[size](_ => 0);
    var length := 0;
    w := 0;
    ZeroNum(b256[..], 256);
    EmptyNum(Digits(s[..0]), 58);
    while w < |s| && !IsSpace(s[w])
      invariant w <= |s| && length <= b256.Length && fresh(b256)
      invariant (forall i :: 0 <= i < w ==> !IsSpace(s[i])) && AllValid(s[..w])
      invariant AreDigits(b256[..], 256)
      invariant forall i :: 0 <= i < b256.Length - length ==> b256[i] == 0
      invariant Num(b256[..], 256) == Num(Digits(s[..w]), 58)
    {
      var carry := DigitOf(s[w]);
      if carry == -1 {
        return w, None;
      }
      WordFits(s, w, size);
      length := MultiplyAdd(b256, 256, 58, carry, length);
      w := w + 1;
    }
    var it := size - length;
    while it < size && b256[it] == 0
      invariant it <= size && forall i :: 0 <= i < it ==> b256[i] == 0
    {
      it := it + 1;
    }
    SignificantDigits(b256[..], it, 256);
    assert b256[it..] == b256[..][it..];
    number := Some(AsBytes(b256[it..]));
  }

  lemma WordFits(s: string, w: nat, size: nat)
    requires w < |s| && AllValid(s[..w]) && DigitOf(s[w]) != -1
    requires Pow(58, |s|) <= Pow(256, size)
    ensures Num(Digits(s[..w + 1]), 58) == Num(Digits(s[..w]), 58) * 58 + DigitOf(s[w]) < Pow(256, size)
    ensures AllValid(s[..w + 1])
  {
    hide Num, Pow;
    var t := s[..w + 1];
    forall i | 0 <= i < |t|
      ensures DigitOf(t[i]) != -1
    {
      assert i < w ==> t[i] == s[..w][i];
    }
    assert Digits(t) == Digits(s[..w]) + [DigitOf(s[w])];
    NumSnoc(Digits(s[..w]), DigitOf(s[w]), 58);
    NumBounds(Digits(t), 58);
    PowGrows(58, |t|, |s|);
  }

  lemma InvalidWord(psz: string, w: nat)
    requires var u := Body(psz); w < |u| && (forall i :: 0 <= i <= w ==> !IsSpace(u[i])) && DigitOf(u[w]) == -1
    ensures Decoding(psz) == None
  {
    var u := Body(psz);
    assert w < WordCount(u);
    assert DigitOf(u[..WordCount(u)][w]) == -1;
  }

  // What is left after the spaces and the ones.
  function Body(s: string): string {
    var t := s[SpaceCount(s)..];
    t[OneCount(t)..]
  }

  lemma DecodingIs(psz: string)
    requires var u := Body(psz); AllValid(u[..WordCount(u)])
    ensures var u := Body(psz); var w := WordCount(u);
            Decoding(psz).Some? <==> SpaceCount(u[w..]) == |u| - w
    ensures var u := Body(psz); var w := WordCount(u);
            Decoding(psz).Some? ==> Num(Digits(u[..w]), 58) >= 0
    ensures var u := Body(psz); var w := WordCount(u);
            Decoding(psz).Some? ==>
              Decoding(psz).value == Zeros(OneCount(psz[SpaceCount(psz)..])) + ToDigits(Num(Digits(u[..w]), 58), 256)
  {
    hide Num, ToDigits, SpaceCount, OneCount, WordCount;
    var u := Body(psz);
    DigitsValid(u[..WordCount(u)]);
    NumBounds(Digits(u[..WordCount(u)]), 58);
  }

  // The overload for std::string reads up to the first NUL.
  function CString(str: string): (psz: string)
    ensures psz <= str && '\0' !in psz && (|psz| < |str| ==> str[|psz|] == '\0')
  {
    if |str| == 0 || str[0] == '\0' then [] else [str[0]] + CString(str[1..])
  }

  method DecodeBase58String(str: string) returns (r: Option<seq<Byte>>)
    ensures r == Decoding(CString(str))
  {
    r := DecodeBase58(CString(str));
  }

  /* ---- round trips ---- */

  function TrimEnd(s: string): (t: string)
    ensures t <= s && (|t| > 0 ==> !IsSpace(t[|t| - 1])) && forall i :: |t| <= i < |s| ==> IsSpace(s[i])
  {
    if |s| > 0 && IsSpace(s[|s| - 1]) then TrimEnd(s[..|s| - 1]) else s
  }

  // s without the white space around it.
  function Trim(s: string): string {
    TrimEnd(s[SpaceCount(s)..])
  }

  lemma TrimEndIs(s: string, t: string)
    requires t <= s && (|t| > 0 ==> !IsSpace(t[|t| - 1])) && forall i :: |t| <= i < |s| ==> IsSpace(s[i])
    ensures TrimEnd(s) == t
  {
    var e := TrimEnd(s);
    assert |e| == |t|;
  }

  // Decoding what was encoded gives the bytes back.
  lemma DecodeAfterEncode(b: seq<Byte>)
    ensures Decoding(Encoding(b)) == Some(b)
  {
    hide Num, ToDigits, SpaceCount, OneCount, WordCount, LeadingZeros, Decoding, Body, Chars, Digits;
    var v, z := Num(b, 256), LeadingZeros(b);
    NumBounds(b, 256);
    ToDigitsNum(v, 58);
    EmptyWhenZero(v, 58);
    EncodedShape(Encoding(b), z, ToDigits(v, 58));
    DecodingIs(Encoding(b));
    SignificantDigits(b, z, 256);
    assert Zeros(z) + b[z..] == b;
  }

  lemma EncodedShape(s: string, z: nat, d: seq<int>)
    requires AreDigits58(d) && (|d| > 0 ==> d[0] != 0) && s == Ones(z) + Chars(d)
    ensures OneCount(s[SpaceCount(s)..]) == z && Body(s) == Chars(d)
    ensures var u := Body(s); var w := WordCount(u);
            w == |u| && u[..w] == u && SpaceCount(u[w..]) == |u| - w && AllValid(u) && Digits(u) == d
  {
    hide SpaceCount, OneCount, WordCount;
    var c := Chars(d);
    SpaceCountIs(s, 0);
    assert s[0..] == s;
    OneCountIs(s, z);
    assert s[z..] == c;
    WordCountIs(c, |c|);
    assert c[..|c|] == c && AllValid(c) && Digits(c) == d;
    SpaceCountIs(c[|c|..], 0);
  }

  lemma EmptyWhenZero(v: nat, base: nat)
    requires base > 1
    ensures v == 0 ==> ToDigits(v, base) == []
  {
  }

  // The trimmed text is the ones and the word between the spaces.
  lemma TrimmedText(s: string)
    requires Decoding(s).Some?
    ensures var u := Body(s); var w := u[..WordCount(u)];
            AllValid(w) && Trim(s) == Ones(OneCount(s[SpaceCount(s)..])) + w
  {
    hide Num, ToDigits, SpaceCount, OneCount, WordCount, TrimEnd, Decoding;
    DecodedShape(s);
    var t, u := s[SpaceCount(s)..], Body(s);
    SplitText(t, OneCount(t), u, WordCount(u));
  }

  lemma DecodedShape(s: string)
    requires Decoding(s).Some?
    ensures var u := Body(s); AllValid(u[..WordCount(u)]) && SpaceCount(u[WordCount(u)..]) == |u| - WordCount(u)
  {
    hide Num, ToDigits, SpaceCount, OneCount, WordCount;
  }

  lemma SplitText(t: string, z: nat, u: string, w: nat)
    requires z <= |t| && u == t[z..] && w <= |u|
    requires forall i :: 0 <= i < z ==> t[i] == '1'
    requires forall i :: 0 <= i < w ==> !IsSpace(u[i])
    requires SpaceCount(u[w..]) == |u| - w
    ensures TrimEnd(t) == Ones(z) + u[..w]
  {
    hide SpaceCount, TrimEnd;
    var e := t[..z + w];
    forall i | |e| <= i < |t|
      ensures IsSpace(t[i])
    {
      assert t[i] == u[w..][i - z - w];
    }
    assert w > 0 ==> e[|e| - 1] == u[w - 1];
    TrimEndIs(t, e);
    assert e == Ones(z) + u[..w];
  }

  // Encoding what was decoded gives the text back without the white space around it.
  lemma EncodeAfterDecode(s: string)
    requires Decoding(s).Some?
    ensures Encoding(Decoding(s).value) == Trim(s)
  {
    hide Num, ToDigits, SpaceCount, OneCount, WordCount, TrimEnd, Decoding, Encoding, LeadingZeros, Trim;
    TrimmedText(s);
    DecodingIs(s);
    var u := Body(s);
    var z, w := OneCount(s[SpaceCount(s)..]), u[..WordCount(u)];
    EncodingOfDecoded(z, w, Decoding(s).value);
  }

  lemma EncodingOfDecoded(z: nat, w: string, v: seq<Byte>)
    requires AllValid(w) && (|w| > 0 ==> w[0] != '1') && Num(Digits(w), 58) >= 0
    requires v == Zeros(z) + ToDigits(Num(Digits(w), 58), 256)
    ensures Encoding(v) == Ones(z) + w
  {
    hide Num, ToDigits, Encoding;
    var d := Digits(w);
    var n := Num(d, 58);
    DigitsValid(w);
    ToDigitsNum(n, 256);
    EmptyWhenZero(n, 256);
    assert v[z..] == ToDigits(n, 256);
    forall i | 0 <= i < |w|
      ensures CharOf(d[i]) == w[i]
    {
      CharOfDigit(w[i]);
    }
    assert Chars(d) == w;
    SignificantDigits(d, 0, 58);
    assert d[0..] == d;
    EncodingIs(v, z, d);
  }

  // Accepted are exactly the texts that are base 58 characters with white space around.
  lemma AcceptedExactly(s: string)
    ensures Decoding(s).Some? <==> AllValid(Trim(s))
  {
    hide Num, ToDigits, SpaceCount, OneCount, WordCount, TrimEnd, Decoding;
    if Decoding(s).Some? {
      TrimmedText(s);
    }
    if AllValid(Trim(s)) {
      var t, u := s[SpaceCount(s)..], Body(s);
      WordOfValid(t, TrimEnd(t), OneCount(t));
      DecodingIs(s);
    }
  }

  lemma WordOfValid(t: string, e: string, z: nat)
    requires e <= t && AllValid(e) && forall i :: |e| <= i < |t| ==> IsSpace(t[i])
    requires z <= |t| && forall i :: 0 <= i < z ==> t[i] == '1'
    ensures var u := t[z..]; var w := WordCount(u);
            AllValid(u[..w]) && SpaceCount(u[w..]) == |u| - w
  {
    hide SpaceCount, WordCount;
    assert |e| < |t| ==> IsSpace(t[|e|]);
    var u := t[z..];
    var w := |e| - z;
    NoSpaces(e);
    assert forall i :: 0 <= i < w ==> u[i] == e[i + z];
    assert w < |u| ==> u[w] == t[|e|];
    WordCountIs(u, w);
    assert forall i :: 0 <= i < |u| - w ==> u[w..][i] == t[i + |e|];
    SpaceCountIs(u[w..], |u| - w);
  }

  lemma NoSpaces(e: string)
    requires AllValid(e)
    ensures forall i :: 0 <= i < |e| ==> !IsSpace(e[i])
  {
    forall i | 0 <= i < |e|
      ensures !IsSpace(e[i])
    {
      CharOfDigit(e[i]);
    }
  }

  // The same in characters: white space, digits and letters other than 0, I, O and l, white space.
  lemma AcceptedWritten(s: string)
    ensures Decoding(s).Some? <==>
      exists a: nat, z: nat :: a <= z <= |s| && Blank(s[..a]) && Blank(s[z..]) && Alphanumeric(s[a..z])
  {
    hide Decoding, Num, CharOf, DigitOf, TrimEnd, SpaceCount;
    AcceptedExactly(s);
    var a := SpaceCount(s);
    var z := a + |TrimEnd(s[a..])|;
    SpacesBlank(s, a);
    assert s[a..z] == Trim(s);
    TailBlank(s, a, z);
    ValidWritten(Trim(s));
    if a: nat, z: nat :| a <= z <= |s| && Blank(s[..a]) && Blank(s[z..]) && Alphanumeric(s[a..z]) {
      TrimPart(s, a, z);
    }
  }

  predicate Blank(s: string) {
    forall i :: 0 <= i < |s| ==> s[i] == ' ' || '\t' <= s[i] <= '\r'
  }

  predicate Alphanumeric(s: string) {
    forall i :: 0 <= i < |s| ==>
      ('0' <= s[i] <= '9' || 'A' <= s[i] <= 'Z' || 'a' <= s[i] <= 'z') && s[i] !in {'0', 'I', 'O', 'l'}
  }

  lemma SpacesBlank(s: string, a: nat)
    requires a == SpaceCount(s)
    ensures Blank(s[..a])
  {
    hide SpaceCount;
  }

  lemma TailBlank(s: string, a: nat, z: nat)
    requires a <= |s| && z == a + |TrimEnd(s[a..])|
    ensures z <= |s| && Blank(s[z..])
  {
    hide TrimEnd;
    var e := TrimEnd(s[a..]);
    forall i | 0 <= i < |s[z..]|
      ensures IsSpace(s[z..][i])
    {
      assert s[z..][i] == s[a..][|e| + i];
    }
  }

  lemma ValidWritten(w: string)
    ensures AllValid(w) <==> Alphanumeric(w)
  {
    hide DigitOf;
    forall i | 0 <= i < |w|
      ensures DigitOf(w[i]) != -1 <==>
        ('0' <= w[i] <= '9' || 'A' <= w[i] <= 'Z' || 'a' <= w[i] <= 'z') && w[i] !in {'0', 'I', 'O', 'l'}
    {
      AlphabetIs(w[i]);
    }
  }

  // A word between white space is what trimming leaves.
  lemma TrimPart(s: string, a: nat, z: nat)
    requires a <= z <= |s| && Blank(s[..a]) && Blank(s[z..]) && Alphanumeric(s[a..z])
    ensures AllValid(Trim(s))
  {
    hide DigitOf, SpaceCount, TrimEnd;
    ValidWritten(s[a..z]);
    forall i | a <= i < z
      ensures !IsSpace(s[i])
    {
      assert s[i] == s[a..z][i - a];
    }
    forall i | 0 <= i < a
      ensures IsSpace(s[i])
    {
      assert s[i] == s[..a][i];
    }
    forall i | z <= i < |s|
      ensures IsSpace(s[i])
    {
      assert s[i] == s[z..][i - z];
    }
    if a < z {
      SpaceCountIs(s, a);
      assert s[a..z] == s[a..][..z - a];
      TrimEndIs(s[a..], s[a..z]);
    } else {
      SpaceCountIs(s, |s|);
      assert s[|s|..] == [];
      TrimEndIs([], []);
    }
  }
}
