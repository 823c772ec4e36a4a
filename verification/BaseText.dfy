/** Base64 and base32 text of bytes. */
module BaseText {
  import opened Common
  import opened Bits
  import opened Radix
  import opened BitGroups

  datatype Alphabet = Base64 | Base32

  // Bits per character, and characters per whole group of bytes.
  function Width(a: Alphabet): (w: nat)
    ensures 0 < w < 8
  {
    if a.Base64? then 6 else 5
  }

  function GroupSize(a: Alphabet): (g: nat)
    ensures g > 0
  {
    if a.Base64? then 4 else 8
  }

  function Size(a: Alphabet): (n: nat)
    ensures n == Pow2(Width(a))
  {
    Widths();
    if a.Base64? then 64 else 32
  }

  lemma Widths()
    ensures Pow2(6) == 64 && Pow2(5) == 32 && Pow2(8) == 256
  {
  }

  function CharOf(a: Alphabet, d: int): (c: char)
    requires 0 <= d < Size(a)
    ensures DigitOf(a, c) == d && Canonical(a, c) == c
  {
    hide Pow2;
    if a.Base64? then
      if d < 26 then (d + 65) as char          // A - Z
      else if d < 52 then (d + 71) as char     // a - z
      else if d < 62 then (d - 4) as char      // 0 - 9
      else if d == 62 then '+'
      else '/'
    else
      if d < 26 then (d + 97) as char          // a - z
      else (d + 24) as char                    // 2 - 7
  }

  // -1 outside the alphabet; base32 takes letters of either case.
  function DigitOf(a: Alphabet, c: char): (d: int)
    ensures -1 <= d < Size(a)
  {
    hide Pow2;
    var k := c as int;
    if a.Base64? then
      if 65 <= k <= 90 then k - 65
      else if 97 <= k <= 122 then k - 71
      else if 48 <= k <= 57 then k + 4
      else if c == '+' then 62
      else if c == '/' then 63
      else -1
    else
      if 65 <= k <= 90 then k - 65
      else if 97 <= k <= 122 then k - 97
      else if 50 <= k <= 55 then k - 24
      else -1
  }

  // Base32 does not distinguish the case of letters.
  function Canonical(a: Alphabet, c: char): char {
    if a.Base32? && 'A' <= c <= 'Z' then (c as int + 32) as char else c
  }

  lemma CharOfDigit(a: Alphabet, c: char)
    ensures DigitOf(a, c) != -1 ==> CharOf(a, DigitOf(a, c)) == Canonical(a, c)
    ensures DigitOf(a, Canonical(a, c)) == DigitOf(a, c)
    ensures DigitOf(a, '=') == -1 && (Canonical(a, c) == '=' <==> c == '=')
  {
    hide Pow2;
  }

  // The characters in the order of their digits.
  lemma Base64Written(d: int)
    ensures 0 <= d < 26 ==> CharOf(Base64, d) == ("ABCDEFGHIJKLM" + "NOPQRSTUVWXYZ")[d]
    ensures 26 <= d < 52 ==> CharOf(Base64, d) == ("abcdefghijklm" + "nopqrstuvwxyz")[d - 26]
    ensures 52 <= d < 64 ==> CharOf(Base64, d) == ("0123456789" + "+/")[d - 52]
  {
    hide Pow2;
  }

  lemma Base32Written(d: int)
    ensures 0 <= d < 26 ==> CharOf(Base32, d) == ("abcdefghijklm" + "nopqrstuvwxyz")[d]
    ensures 26 <= d < 32 ==> CharOf(Base32, d) == "234567"[d - 26]
  {
    hide Pow2;
  }

  // Base64 has digits for its characters only, base32 also for upper case letters, which count as lower case.
  lemma AlphabetsAre(c: char)
    ensures DigitOf(Base64, c) != -1 <==>
      'A' <= c <= 'Z' || 'a' <= c <= 'z' || '0' <= c <= '9' || c == '+' || c == '/'
    ensures DigitOf(Base32, c) != -1 <==> 'A' <= c <= 'Z' || 'a' <= c <= 'z' || '2' <= c <= '7'
    ensures 'A' <= c <= 'Z' ==> DigitOf(Base32, c) == DigitOf(Base32, c + ('a' - 'A'))
  {
    hide Pow2;
  }

  /* ---- digit sequences of a given length ---- */

  // The last len digits of v.
  function FixedDigits(v: int, b: nat, len: nat): (s: seq<int>)
    requires b > 0
    ensures |s| == len && AreDigits(s, b)
    decreases len
  {
    if len == 0 then [] else FixedDigits(v / b, b, len - 1) + [v % b]
  }

  // A digit sequence is determined by its length and its number.
  lemma {:induction false} FixedDigitsOf(s: seq<int>, b: nat)
    requires b > 0 && AreDigits(s, b)
    ensures FixedDigits(Num(s, b), b, |s|) == s
    decreases |s|
  {
    if |s| > 0 {
      var k := |s| - 1;
      FixedDigitsOf(s[..k], b);
      DivUnique(Num(s, b), b, Num(s[..k], b), s[k]);
      assert s == s[..k] + [s[k]];
    }
  }

  lemma {:induction false} FixedDigitsNum(v: nat, b: nat, len: nat)
    requires b > 0 && v < Pow(b, len)
    ensures Num(FixedDigits(v, b, len), b) == v
    decreases len
  {
    if len > 0 {
      DivFacts(v, b);
      if v / b >= Pow(b, len - 1) {
        MulMono(Pow(b, len - 1), v / b, b);
      }
      FixedDigitsNum(v / b, b, len - 1);
      NumSnoc(FixedDigits(v / b, b, len - 1), v % b, b);
    }
  }

  /* ---- what the two directions compute ---- */

  function Text(a: Alphabet, d: seq<int>): (s: string)
    requires AreDigits(d, Size(a))
    ensures |s| == |d|
  {
    seq(|d|, i requires 0 <= i < |d| => CharOf(a, d[i]))
  }

  function Equals(n: nat): string {
    seq(n, _ => '=')
  }

  // The characters a text of k characters lacks to a multiple of the group size.
  function Lacking(k: nat, g: nat): (p: nat)
    requires g > 0
    ensures p < g && (k + p) % g == 0
  {
    var r := k % g;
    DivUnique(k - r, g, k / g, 0);
    DivUnique(k - r + g, g, k / g + 1, 0);
    if r == 0 then 0 else g - r
  }

  // The digits of all bits of the bytes, filled with zero bits.
  ghost function EncodedDigits(a: Alphabet, b: seq<Byte>): (d: seq<int>)
    ensures AreDigits(d, Size(a))
  {
    var fill := Fill(8 * |b|, Width(a));
    FixedDigits(Num(b, 256) * Pow2(fill), Size(a), (8 * |b| + fill) / Width(a))
  }

  ghost function Encoding(a: Alphabet, b: seq<Byte>): string {
    var d := EncodedDigits(a, b);
    Text(a, d) + Equals(Lacking(|d|, GroupSize(a)))
  }

  // The length of the longest prefix of characters of the alphabet.
  function PrefixLength(a: Alphabet, s: string): (k: nat)
    ensures k <= |s| && (k < |s| ==> DigitOf(a, s[k]) == -1) && forall i :: 0 <= i < k ==> DigitOf(a, s[i]) != -1
  {
    if |s| > 0 && DigitOf(a, s[0]) != -1 then 1 + PrefixLength(a, s[1..]) else 0
  }

  function Digits(a: Alphabet, s: string): (d: seq<int>)
    ensures |d| == |s|
  {
    seq(|s|, i requires 0 <= i < |s| => DigitOf(a, s[i]))
  }

  ghost function Values(a: Alphabet, s: string): (d: seq<int>)
    ensures AreDigits(d, Size(a)) && |d| == PrefixLength(a, s) && Num(d, Size(a)) >= 0
  {
    var d := Digits(a, s[..PrefixLength(a, s)]);
    NumBounds(d, Size(a));
    d
  }

  // The bytes of the characters before the first one outside the alphabet.
  ghost function Decoding(a: Alphabet, s: string): seq<int> {
    var d := Values(a, s);
    var n := Width(a) * |d|;
    FixedDigits(Num(d, Size(a)) / Pow2(Rest(n, 8)), 256, n / 8)
  }

  ghost predicate Accepts(a: Alphabet, s: string) {
    var d := Values(a, s);
    var rest := Rest(Width(a) * |d|, 8);
    && rest < Width(a) && Num(d, Size(a)) % Pow2(rest) == 0
    && (forall i :: |d| <= i < |s| ==> s[i] == '=')
    && |s| % GroupSize(a) == 0 && |s| - |d| < GroupSize(a)
  }

  /* ---- the two directions ---- */

  method Encode(a: Alphabet, bytes: seq<Byte>) returns (str: string)
    ensures str == Encoding(a, bytes)
  {
    hide Pow2, Num, Size, CharOf, FixedDigits, EncodedDigits, Lacking, Text;
    Widths();
    var _, out := ConvertBits(8, Width(a), true, bytes);
    EncodedIs(a, bytes, out);
    str := [];
    var i := 0;
    while i < |out|
      invariant i <= |out| && str == Text(a, out[..i])
    {
      TextSnoc(a, out, i);
      str := str + [CharOf(a, out[i])];
      i := i + 1;
    }
    assert out[..i] == out;
    ghost var k := |str|;
    assert str == Text(a, out) + Equals(|str| - k);
    while |str| % GroupSize(a) != 0
      invariant k <= |str| <= k + Lacking(k, GroupSize(a))
      invariant str == Text(a, out) + Equals(|str| - k)
      decreases k + Lacking(k, GroupSize(a)) - |str|
    {
      LackingLeast(k, GroupSize(a), |str| - k);
      str := str + ['='];
    }
    LackingLeast(k, GroupSize(a), |str| - k);
  }

  lemma TextSnoc(a: Alphabet, d: seq<int>, i: nat)
    requires AreDigits(d, Size(a)) && i < |d|
    ensures Text(a, d[..i + 1]) == Text(a, d[..i]) + [CharOf(a, d[i])]
  {
    hide Pow2, Size, CharOf;
  }

  lemma LackingLeast(k: nat, g: nat, p: nat)
    requires g > 0 && p <= Lacking(k, g)
    ensures (k + p) % g == 0 <==> p == Lacking(k, g)
  {
    LackingUnique(k, g, p);
  }

  lemma LackingUnique(k: nat, g: nat, p: nat)
    requires g > 0 && p < g
    ensures (k + p) % g == 0 <==> p == Lacking(k, g)
  {
    hide Lacking;
    var q := Lacking(k, g);
    if (k + p) % g == 0 {
      DivFacts(k + p, g);
      DivFacts(k + q, g);
      SameMultiple((k + p) / g, (k + q) / g, g, k, p, q);
    }
  }

  lemma SameMultiple(x: int, y: int, g: nat, k: int, p: int, q: int)
    requires x * g == k + p && y * g == k + q && 0 <= p < g && 0 <= q < g
    ensures p == q
  {
    Distribute(x, y, g);
    if x < y {
      MulMono(1, y - x, g);
      Distribute(y, x, g);
    } else if y < x {
      MulMono(1, x - y, g);
    }
  }

  // What the conversion of the bytes emits.
  lemma EncodedIs(a: Alphabet, b: seq<Byte>, out: seq<int>)
    requires var fill := Fill(8 * |b|, Width(a));
             && Width(a) * |out| == 8 * |b| + fill
             && AreDigits(out, Size(a)) && Num(out, Size(a)) == Num(b, 256) * Pow2(fill)
    ensures EncodedDigits(a, b) == out
  {
    hide Pow2, Num, Size, FixedDigits;
    var fill := Fill(8 * |b|, Width(a));
    DivUnique(8 * |b| + fill, Width(a), |out|, 0);
    FixedDigitsOf(out, Size(a));
  }

  predicate OnlyEquals(s: string, q: nat) {
    forall i :: q <= i < |s| ==> s[i] == '='
  }

  // The conversion of the values succeeds.
  ghost predicate Converts(a: Alphabet, d: seq<int>) {
    var rest := Rest(Width(a) * |d|, 8);
    rest < Width(a) && Num(d, Size(a)) % Pow2(rest) == 0
  }

  method Decode(a: Alphabet, text: string) returns (ret: seq<int>, invalid: bool)
    ensures ret == Decoding(a, text) && invalid == !Accepts(a, text)
  {
    hide Pow2, Num, Size, DigitOf, FixedDigits, Decoding, Accepts, PrefixLength, Rest;
    var val := [];
    var p := 0;
    while p < |text| && DigitOf(a, text[p]) != -1
      invariant p <= |text| && forall i :: 0 <= i < p ==> DigitOf(a, text[i]) != -1
      invariant val == Digits(a, text[..p])
    {
      val := val + [DigitOf(a, text[p])];
      p := p + 1;
    }
    PrefixLengthIs(a, text, p);
    Widths();
    var valid;
    valid, ret := ConvertBits(Width(a), 8, false, val);
    DecodedIs(a, text, ret);
    var q := p;
    if valid {
      valid, p := SkipEquals(text, q);
    }
    valid := valid && p % GroupSize(a) == 0 && p - q < GroupSize(a);
    invalid := !valid;
  }

  method SkipEquals(text: string, q: nat) returns (valid: bool, p: nat)
    requires q <= |text|
    ensures q <= p <= |text| && valid == OnlyEquals(text, q) && (valid ==> p == |text|)
  {
    valid, p := true, q;
    while p < |text|
      invariant q <= p <= |text| && forall i :: q <= i < p ==> text[i] == '='
    {
      if text[p] != '=' {
        return false, p;
      }
      p := p + 1;
    }
  }

  lemma PrefixLengthIs(a: Alphabet, s: string, k: nat)
    requires k <= |s| && (k < |s| ==> DigitOf(a, s[k]) == -1) && forall i :: 0 <= i < k ==> DigitOf(a, s[i]) != -1
    ensures PrefixLength(a, s) == k && Values(a, s) == Digits(a, s[..k])
    ensures Accepts(a, s) <==>
      Converts(a, Values(a, s)) && OnlyEquals(s, k) && |s| % GroupSize(a) == 0 && |s| - k < GroupSize(a)
  {
    hide Pow2, Num, Size, DigitOf;
  }

  // What the conversion of the values emits.
  lemma DecodedIs(a: Alphabet, s: string, out: seq<int>)
    requires var d := Values(a, s); var n := Width(a) * |d|;
             && 8 * |out| == n - Rest(n, 8)
             && AreDigits(out, 256) && Num(out, 256) == Num(d, Size(a)) / Pow2(Rest(n, 8))
    ensures Decoding(a, s) == out
  {
    hide Pow2, Num, Size, FixedDigits;
    FixedDigitsOf(out, 256);
  }

  /* ---- round trips ---- */

  // The text of digits, with the equals signs, is read back as the digits.
  lemma ReadBack(a: Alphabet, d: seq<int>, p: nat)
    requires AreDigits(d, Size(a))
    ensures var s := Text(a, d) + Equals(p);
            PrefixLength(a, s) == |d| && Values(a, s) == d && OnlyEquals(s, |d|)
  {
    hide Pow2, Num, Size, DigitOf, PrefixLength;
    var s := Text(a, d) + Equals(p);
    CharOfDigit(a, '=');
    PrefixLengthIs(a, s, |d|);
    assert Digits(a, s[..|d|]) == d;
  }

  lemma {:induction false} PowIsPow2(w: nat, k: nat)
    ensures Pow(Pow2(w), k) == Pow2(w * k)
    decreases k
  {
    if k == 0 {
      assert w * 0 == 0;
    } else {
      PowIsPow2(w, k - 1);
      assert w * k == w + w * (k - 1);
      Pow2Add(w, w * (k - 1));
    }
  }

  // Filled up, a number of bits is a multiple of the group size.
  lemma FillCompletes(n: nat, w: nat)
    requires w > 0
    ensures w * ((n + Fill(n, w)) / w) == n + Fill(n, w)
  {
    DivFacts(n, w);
    var q := if Rest(n, w) == 0 then n / w else n / w + 1;
    Distribute(n / w, 1, w);
    DivUnique(n + Fill(n, w), w, q, 0);
  }

  // Bits of n bytes in groups of w < 8 bits: the filled groups hold n whole bytes and the filling.
  lemma FilledGroups(n: nat, w: nat, k: nat)
    requires 0 < w < 8 && w * k == 8 * n + Fill(8 * n, w)
    ensures Rest(w * k, 8) == Fill(8 * n, w) && w * k / 8 == n
  {
    DivUnique(w * k, 8, n, Fill(8 * n, w));
  }

  // The other way round: when less than one group is left over, filling the bytes gives the groups again.
  lemma GroupsFilled(k: nat, w: nat)
    requires 0 < w < 8 && Rest(w * k, 8) < w
    ensures var n := w * k / 8;
            && w * k >= 0 && w * k == 8 * n + Rest(w * k, 8)
            && Fill(8 * n, w) == Rest(w * k, 8) && (8 * n + Fill(8 * n, w)) / w == k
  {
    var n, r := w * k / 8, Rest(w * k, 8);
    DivFacts(w * k, 8);
    if r == 0 {
      DivUnique(8 * n, w, k, 0);
    } else {
      Distribute(k, 1, w);
      DivUnique(8 * n, w, k - 1, w - r);
    }
    DivUnique(w * k, w, k, 0);
  }

  // n bytes, shifted by the filling, fit into k groups of w bits.
  lemma EncodedFits(v: nat, n: nat, fill: nat, w: nat, k: nat)
    requires v < Pow(256, n) && w * k == 8 * n + fill
    ensures v * Pow2(fill) >= 0 && v * Pow2(fill) < Pow(Pow2(w), k)
  {
    hide Pow2, Pow;
    Widths();
    PowIsPow2(8, n);
    PowIsPow2(w, k);
    Pow2Add(8 * n, fill);
    NonNegative(v, Pow2(fill), 1);
    MulMono(v + 1, Pow2(8 * n), Pow2(fill));
    Distribute(v, 1, Pow2(fill));
  }

  // What is left of k groups of w bits without the bits left over fits into n bytes.
  lemma DecodedFits(v: nat, n: nat, rest: nat, w: nat, k: nat)
    requires v < Pow(Pow2(w), k) && w * k == 8 * n + rest
    ensures 0 <= v / Pow2(rest) < Pow(256, n)
  {
    hide Pow2, Pow;
    Widths();
    PowIsPow2(8, n);
    PowIsPow2(w, k);
    Pow2Add(8 * n, rest);
    DivFacts(v, Pow2(rest));
    if v / Pow2(rest) >= Pow2(8 * n) {
      MulMono(Pow2(8 * n), v / Pow2(rest), Pow2(rest));
    }
  }

  // The digits of the encoding carry the bytes and the filling.
  lemma EncodedValue(a: Alphabet, b: seq<Byte>)
    ensures var d := EncodedDigits(a, b); var fill := Fill(8 * |b|, Width(a));
            Width(a) * |d| == 8 * |b| + fill && Num(b, 256) >= 0 && Num(d, Size(a)) == Num(b, 256) * Pow2(fill)
  {
    hide Pow2, Num, Pow, Fill, Width, Size, FixedDigits;
    var w, fill := Width(a), Fill(8 * |b|, Width(a));
    NumBounds(b, 256);
    FillCompletes(8 * |b|, w);
    var k := (8 * |b| + fill) / w;
    EncodedFits(Num(b, 256), |b|, fill, w, k);
    FixedDigitsNum(Num(b, 256) * Pow2(fill), Size(a), k);
  }

  // Four characters for every three bytes begun, or eight for every five; those that carry bits of the bytes come
  // first, and equals signs fill the rest.
  lemma EncodingShape(b: seq<Byte>)
    ensures var s := Encoding(Base64, b);
      && |s| == 4 * ((|b| + 2) / 3)
      && forall i :: 0 <= i < |s| ==> (s[i] == '=' <==> i >= (8 * |b| + 5) / 6)
    ensures var s := Encoding(Base32, b);
      && |s| == 8 * ((|b| + 4) / 5)
      && forall i :: 0 <= i < |s| ==> (s[i] == '=' <==> i >= (8 * |b| + 4) / 5)
  {
    hide *;
    Counts(b);
    EqualsBehind(Base64, b);
    EqualsBehind(Base32, b);
    Groups64(|b|, |EncodedDigits(Base64, b)|, |Encoding(Base64, b)| - |EncodedDigits(Base64, b)|);
    Groups32(|b|, |EncodedDigits(Base32, b)|, |Encoding(Base32, b)| - |EncodedDigits(Base32, b)|);
  }

  lemma Counts(b: seq<Byte>)
    ensures 8 * |b| <= 6 * |EncodedDigits(Base64, b)| < 8 * |b| + 6
    ensures 8 * |b| <= 5 * |EncodedDigits(Base32, b)| < 8 * |b| + 5
  {
    hide Pow2, Num, Pow, Fill, Size, EncodedDigits;
    EncodedValue(Base64, b);
    EncodedValue(Base32, b);
    FillBelow(8 * |b|, 6);
    FillBelow(8 * |b|, 5);
  }

  // The digits come first, then fewer equals signs than a group has characters.
  lemma EqualsBehind(a: Alphabet, b: seq<Byte>)
    ensures var s, k, g := Encoding(a, b), |EncodedDigits(a, b)|, if a.Base64? then 4 else 8;
      && k <= |s| < k + g && |s| % g == 0 && forall i :: 0 <= i < |s| ==> (s[i] == '=' <==> i >= k)
  {
    hide Pow2, Num, Pow, Size, EncodedDigits, CharOf, DigitOf, Text, Lacking;
    var d := EncodedDigits(a, b);
    NoEquals(a, d);
    var s := Encoding(a, b);
    forall i | 0 <= i < |s|
      ensures s[i] == '=' <==> i >= |d|
    {
      if i < |d| {
        assert s[i] == Text(a, d)[i];
      }
    }
  }

  lemma Groups64(n: nat, k: nat, p: int)
    requires 8 * n <= 6 * k < 8 * n + 6 && 0 <= p < 4 && (k + p) % 4 == 0
    ensures k == (8 * n + 5) / 6 && k + p == 4 * ((n + 2) / 3)
  {
  }

  lemma Groups32(n: nat, k: nat, p: int)
    requires 8 * n <= 5 * k < 8 * n + 5 && 0 <= p < 8 && (k + p) % 8 == 0
    ensures k == (8 * n + 4) / 5 && k + p == 8 * ((n + 4) / 5)
  {
  }

  lemma FillBelow(n: nat, w: nat)
    requires w > 0
    ensures 0 <= Fill(n, w) < w
  {
  }

  lemma NoEquals(a: Alphabet, d: seq<int>)
    requires AreDigits(d, Size(a))
    ensures '=' !in Text(a, d)
  {
    hide Pow2, CharOf, DigitOf;
    forall i | 0 <= i < |d|
      ensures CharOf(a, d[i]) != '='
    {
      CharOfDigit(a, CharOf(a, d[i]));
    }
  }

  lemma DecodeAfterEncode(a: Alphabet, b: seq<Byte>)
    ensures Decoding(a, Encoding(a, b)) == b && Accepts(a, Encoding(a, b))
  {
    hide Pow2, Num, Pow, Fill, Rest, Width, Size, EncodedDigits, Text, Lacking, FixedDigits, GroupSize;
    var d := EncodedDigits(a, b);
    var p := Lacking(|d|, GroupSize(a));
    var fill := Fill(8 * |b|, Width(a));
    EncodedValue(a, b);
    ReadBack(a, d, p);
    FilledGroups(|b|, Width(a), |d|);
    DivUnique(Num(d, Size(a)), Pow2(fill), Num(b, 256), 0);
    FixedDigitsOf(b, 256);
  }

  // An accepted text is the encoding of what it decodes to, up to the case of base32 letters.
  lemma EncodeAfterDecode(a: Alphabet, s: string)
    requires Accepts(a, s)
    ensures Encoding(a, AsBytes(Decoding(a, s))) == CanonicalText(a, s)
  {
    hide Pow2, Num, Pow, Fill, Rest, Width, Size, Text, Lacking, FixedDigits, GroupSize, CharOf, DigitOf, Canonical;
    var d := Values(a, s);
    var w, v := Width(a), Num(d, Size(a));
    var rest := Rest(w * |d|, 8);
    var n := w * |d| / 8;
    GroupsFilled(|d|, w);
    NumBounds(d, Size(a));
    DecodedFits(v, n, rest, w, |d|);
    FixedDigitsNum(v / Pow2(rest), 256, n);
    DivFacts(v, Pow2(rest));
    FixedDigitsOf(d, Size(a));
    assert EncodedDigits(a, AsBytes(Decoding(a, s))) == d;
    LackingUnique(|d|, GroupSize(a), |s| - |d|);
    SameText(a, s);
  }

  lemma SameText(a: Alphabet, s: string)
    requires OnlyEquals(s, PrefixLength(a, s))
    ensures var d := Values(a, s);
            Text(a, d) + Equals(|s| - |d|) == CanonicalText(a, s)
  {
    hide Pow2, Num, Size, CharOf, DigitOf, Canonical;
    var d := Values(a, s);
    var t := Text(a, d) + Equals(|s| - |d|);
    forall i | 0 <= i < |s|
      ensures t[i] == Canonical(a, s[i])
    {
      CharOfDigit(a, s[i]);
    }
  }

  // Accepted are exactly the texts that are the encoding of some bytes, up to the case of base32 letters.
  lemma AcceptedExactly(a: Alphabet, s: string)
    ensures Accepts(a, s) <==> exists b :: Encoding(a, b) == CanonicalText(a, s)
  {
    hide Accepts, Encoding, CanonicalText, Decoding;
    if Accepts(a, s) {
      EncodeAfterDecode(a, s);
    }
    if b :| Encoding(a, b) == CanonicalText(a, s) {
      DecodeAfterEncode(a, b);
      CaseIgnored(a, s);
    }
  }

  lemma CaseIgnored(a: Alphabet, s: string)
    ensures Accepts(a, CanonicalText(a, s)) <==> Accepts(a, s)
  {
    hide Pow2, Num, Size, CharOf, DigitOf, Canonical, GroupSize, Rest, Width;
    var t := CanonicalText(a, s);
    var k := PrefixLength(a, s);
    forall i | 0 <= i < |s|
      ensures DigitOf(a, t[i]) == DigitOf(a, s[i]) && (t[i] == '=' <==> s[i] == '=')
    {
      CharOfDigit(a, s[i]);
    }
    PrefixLengthIs(a, t, k);
    PrefixLengthIs(a, s, k);
    assert Digits(a, t[..k]) == Digits(a, s[..k]);
    assert OnlyEquals(t, k) <==> OnlyEquals(s, k);
  }

  // Base64 texts are their own canonical form.
  lemma Base64Canonical(s: string)
    ensures CanonicalText(Base64, s) == s
  {
  }

  function CanonicalText(a: Alphabet, s: string): (t: string)
    ensures |t| == |s|
  {
    seq(|s|, i requires 0 <= i < |s| => Canonical(a, s[i]))
  }
}
