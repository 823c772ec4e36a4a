/** The incremental SHA-256 hasher: however a message is cut into pieces, the digest is that of the padded whole. */
module Sha256Stream {
  import opened Common
  import opened Sha256
  import opened Bits

  /* ---- the digest of a whole message ---- */

  // The blocks of m, one after the other.
  function Fold(h: seq<Word>, m: seq<Byte>): (r: seq<Word>)
    requires |h| == 8 && |m| % 64 == 0
    ensures |r| == 8
  {
    hide Compress;
    if |m| == 0 then h else Compress(Fold(h, m[..|m| - 64]), m[|m| - 64..])
  }

  function ByteAt(v: int, place: nat): Byte
    requires place > 0
  {
    v / place % 256
  }

  // The 64-bit number v, most significant byte first.
  function BigEndian64(v: int): (b: seq<Byte>)
    ensures |b| == 8
  {
    [ByteAt(v, 0x100_0000_0000_0000), ByteAt(v, 0x1_0000_0000_0000),
     ByteAt(v, 0x100_0000_0000), ByteAt(v, 0x1_0000_0000),
     ByteAt(v, 0x100_0000), ByteAt(v, 0x1_0000), ByteAt(v, 0x100), ByteAt(v, 1)]
  }

  // The least number of zero bytes that leaves room for the length: n + 1 + k is 56 modulo 64.
  function ZeroCount(n: nat): (k: nat)
    ensures k < 64 && (n + 1 + k) % 64 == 56
  {
    if n % 64 <= 55 then 55 - n % 64 else 119 - n % 64
  }

  // Section 5.1.1 of FIPS 180-4: a one bit, zeros, the length in bits.
  function Padding(n: nat): (p: seq<Byte>)
    ensures (n + |p|) % 64 == 0
  {
    hide BigEndian64, ZeroCount;
    WholeBlocks(n, ZeroCount(n));
    [0x80] + Zeros(ZeroCount(n)) + BigEndian64(8 * n % LENGTH)
  }

  lemma WholeBlocks(n: nat, k: nat)
    requires (n + 1 + k) % 64 == 56
    ensures (n + (1 + k + 8)) % 64 == 0
  {
  }

  function Digest(m: seq<Byte>): (h: seq<Word>)
    ensures |h| == 8
  {
    Fold(InitialDigest(), m + Padding(|m|))
  }

  lemma {:induction false} FoldConcat(h: seq<Word>, m: seq<Byte>, t: seq<Byte>)
    requires |h| == 8 && |m| % 64 == 0 && |t| % 64 == 0
    ensures Fold(h, m + t) == Fold(Fold(h, m), t)
    decreases |t|
  {
    hide Compress;
    if |t| == 0 {
      assert m + t == m;
    } else {
      var k := |t| - 64;
      FoldConcat(h, m, t[..k]);
      assert (m + t)[..|m + t| - 64] == m + t[..k];
      assert (m + t)[|m + t| - 64..] == t[k..];
    }
  }

  lemma FoldBlock(h: seq<Word>, m: seq<Byte>, block: seq<Byte>)
    requires |h| == 8 && |m| % 64 == 0 && |block| == 64
    ensures Fold(h, m + block) == Compress(Fold(h, m), block)
  {
    hide Compress;
    assert (m + block)[..|m|] == m && (m + block)[|m|..] == block;
  }

  /* ---- the length, as four digits of base 65536 ---- */

  function Place(i: nat): (p: nat)
    requires i <= 4
    ensures p > 0
  {
    if i == 0 then 1 else if i == 1 then 0x1_0000 else if i == 2 then 0x1_0000_0000
    else if i == 3 then 0x1_0000_0000_0000 else LENGTH
  }

  function LengthValue(d: seq<int>): int
    requires |d| == 4
  {
    d[0] + d[1] * 0x1_0000 + d[2] * 0x1_0000_0000 + d[3] * 0x1_0000_0000_0000
  }

  predicate AreLengthDigits(d: seq<int>) {
    forall i :: 0 <= i < |d| ==> 0 <= d[i] < 0x1_0000
  }

  lemma ReplaceDigit(d: seq<int>, i: nat, x: int)
    requires |d| == 4 && i < 4
    ensures LengthValue(d[i := x]) == LengthValue(d) + (x - d[i]) * Place(i)
  {
  }

  lemma NextPlace(i: nat)
    requires i < 4
    ensures Place(i + 1) == 0x1_0000 * Place(i) && Place(0) == 1 && Place(4) == LENGTH
  {
  }

  // What is carried out of place i goes into place i + 1.
  lemma CarryOut(d: seq<int>, i: nat, x: int, carry: int, total: int)
    requires |d| == 4 && i < 4 && LengthValue(d) + carry * Place(i) == total && x == d[i] + carry
    ensures LengthValue(d[i := x]) == total
    ensures LengthValue(d[i := x % 0x1_0000]) + x / 0x1_0000 * Place(i + 1) == total
  {
    hide LengthValue, Place;
    ReplaceDigit(d, i, x);
    ReplaceDigit(d, i, x % 0x1_0000);
    NextPlace(i);
    CarryArithmetic(x, x / 0x1_0000, x % 0x1_0000, d[i], carry, Place(i));
  }

  lemma CarryArithmetic(x: int, q: int, r: int, d: int, carry: int, p: int)
    requires x == d + carry && x == q * 0x1_0000 + r
    ensures (x - d) * p == carry * p
    ensures (r - d) * p + q * (0x1_0000 * p) == carry * p
  {
    assert q * (0x1_0000 * p) == q * 0x1_0000 * p;
    assert (r - d) * p + q * 0x1_0000 * p == (r - d + q * 0x1_0000) * p;
  }

  lemma LengthBounds(d: seq<int>)
    requires |d| == 4 && AreLengthDigits(d)
    ensures 0 <= LengthValue(d) < LENGTH
  {
  }

  lemma CarriesOut(v: int, carry: int, total: int)
    requires 0 <= v < LENGTH && v + carry * LENGTH == total
    ensures v == total % LENGTH
  {
  }

  // Adds n to the length modulo 2^64.
  method AddToDataLength(digits: array<int>, n: int)
    requires digits.Length == 4 && AreLengthDigits(digits[..]) && 0 <= n <= LENGTH - 0x1_0000
    modifies digits
    ensures AreLengthDigits(digits[..])
    ensures LengthValue(digits[..]) == (old(LengthValue(digits[..])) + n) % LENGTH
  {
    hide LengthValue, Place;
    ghost var total := LengthValue(digits[..]) + n;
    var carry, i := 0, 0;
    ReplaceDigit(digits[..], 0, digits[0] + n);
    NextPlace(0);
    digits[0] := digits[0] + n;
    assert digits[..] == old(digits[..])[0 := digits[0]];
    while i < 4
      invariant i <= 4 && 0 <= carry <= LENGTH / 0x1_0000 && (i == 0 ==> carry == 0)
      invariant LengthValue(digits[..]) + carry * Place(i) == total
      invariant forall j :: 0 <= j < 4 && j != 0 ==> 0 <= digits[j] < 0x1_0000
      invariant 0 <= digits[0] < if i == 0 then LENGTH else 0x1_0000
    {
      ghost var d := digits[..];
      var x := digits[i] + carry;
      // the sum stays within a 64-bit word
      assert 0 <= x < LENGTH;
      CarryOut(d, i, x, carry, total);
      digits[i] := x;
      assert digits[..] == d[i := x];
      if digits[i] >= 0x1_0000 {
        carry := digits[i] / 0x1_0000;
        digits[i] := digits[i] % 0x1_0000;
        assert digits[..] == d[i := x % 0x1_0000];
      } else {
        carry := 0;
        break;
      }
      i := i + 1;
    }
    NextPlace(3);
    LengthBounds(digits[..]);
    CarriesOut(LengthValue(digits[..]), carry, total);
  }

  // The value of the lowest i digits.
  function LowValue(d: seq<int>, i: nat): int
    requires |d| == 4 && i <= 4
  {
    if i == 0 then 0 else LowValue(d, i - 1) + d[i - 1] * Place(i - 1)
  }

  lemma LowValueAll(d: seq<int>)
    requires |d| == 4
    ensures LowValue(d, 4) == LengthValue(d) && LowValue(d, 0) == 0
  {
    NextLow(d, 0);
    NextLow(d, 1);
    NextLow(d, 2);
    NextLow(d, 3);
  }

  lemma {:induction false} LowValueKept(d: seq<int>, e: seq<int>, i: nat)
    requires |d| == 4 == |e| && i <= 4 && forall j :: 0 <= j < i ==> d[j] == e[j]
    ensures LowValue(d, i) == LowValue(e, i)
    decreases i
  {
    if i > 0 {
      LowValueKept(d, e, i - 1);
    }
  }

  // One digit shifted left by three bits.
  lemma ShiftDigit(low: int, was: int, carry: int, digit: int, p: int)
    requires low + carry * p == 8 * was && 0 <= carry < 8 && 0 <= digit < 0x1_0000
    ensures 0 <= digit / 0x2000 < 8
    ensures low + (8 * digit + carry) % 0x1_0000 * p + digit / 0x2000 * (0x1_0000 * p) == 8 * (was + digit * p)
  {
    var r, c := (8 * digit + carry) % 0x1_0000, digit / 0x2000;
    assert 8 * digit + carry == c * 0x1_0000 + r;
    assert (8 * digit + carry) * p == (c * 0x1_0000 + r) * p;
    assert c * (0x1_0000 * p) == c * 0x1_0000 * p;
  }

  // Multiplies the length by eight, modulo 2^64.
  method BitLengthDigits(digits: array<int>) returns (bits: array<int>)
    requires digits.Length == 4 && AreLengthDigits(digits[..])
    ensures fresh(bits) && bits.Length == 4 && AreLengthDigits(bits[..])
    ensures LengthValue(bits[..]) == 8 * LengthValue(digits[..]) % LENGTH
  {
    hide LengthValue, LowValue, Place;
    bits := new int[4](i requires 0 <= i < 4 reads digits => digits[i]);
    LowValueAll(digits[..]);
    LowValueAll(bits[..]);
    var carry, i := 0, 0;
    while i < 4
      invariant i <= 4 && 0 <= carry < 8
      invariant forall j :: 0 <= j < 4 ==> 0 <= bits[j] < 0x1_0000 && (i <= j ==> bits[j] == digits[j])
      invariant LowValue(bits[..], i) + carry * Place(i) == 8 * LowValue(digits[..], i)
    {
      ghost var was := bits[..];
      var before := bits[i];
      bits[i] := (8 * before + carry) % 0x1_0000;
      LowValueKept(was, bits[..], i);
      NextLow(bits[..], i);
      NextLow(digits[..], i);
      NextPlace(i);
      ShiftDigit(LowValue(was, i), LowValue(digits[..], i), carry, before, Place(i));
      carry := before / 0x2000;
      i := i + 1;
    }
    LowValueAll(bits[..]);
    NextPlace(3);
    LengthBounds(bits[..]);
    CarriesOut(LengthValue(bits[..]), carry, 8 * LengthValue(digits[..]));
  }

  lemma NextLow(d: seq<int>, i: nat)
    requires |d| == 4 && i < 4
    ensures LowValue(d, i + 1) == LowValue(d, i) + d[i] * Place(i)
  {
  }

  // Two bytes of v are the two bytes of its digit d, with high above and low below it.
  lemma DigitBytes(v: int, high: int, d: int, low: int, p: int)
    requires p > 0 && 0 <= high && v == (high * 0x1_0000 + d) * p + low && 0 <= low < p && 0 <= d < 0x1_0000
    ensures ByteAt(v, p) == d % 256 && ByteAt(v, 256 * p) == d / 256
  {
    DivUnique(v, p, high * 0x1_0000 + d, low);
    TwoBytes(high, d);
    SumNonNegative(v, high * 0x1_0000 + d, p, low);
    ByteStep(v, p);
    DivUnique(high * 0x1_0000 + d, 256, v / (256 * p), d % 256);
  }

  lemma TwoBytes(high: int, d: int)
    requires 0 <= d < 0x1_0000
    ensures (high * 0x1_0000 + d) % 256 == d % 256
    ensures (high * 0x1_0000 + d) / 256 == high * 256 + d / 256 && (high * 256 + d / 256) % 256 == d / 256
  {
  }

  lemma SumNonNegative(v: int, q: int, p: int, low: int)
    requires q >= 0 && p >= 0 && low >= 0 && v == q * p + low
    ensures v >= 0
  {
  }

  lemma LengthBytes(d: seq<int>)
    requires |d| == 4 && AreLengthDigits(d)
    ensures BigEndian64(LengthValue(d)) ==
            [d[3] / 256, d[3] % 256, d[2] / 256, d[2] % 256, d[1] / 256, d[1] % 256, d[0] / 256, d[0] % 256]
  {
    hide ByteAt;
    var v := LengthValue(d);
    DigitBytes(v, d[1] + d[2] * 0x1_0000 + d[3] * 0x1_0000_0000, d[0], 0, 1);
    DigitBytes(v, d[2] + d[3] * 0x1_0000, d[1], d[0], 0x1_0000);
    DigitBytes(v, d[3], d[2], d[0] + d[1] * 0x1_0000, 0x1_0000_0000);
    DigitBytes(v, 0, d[3], d[0] + d[1] * 0x1_0000 + d[2] * 0x1_0000_0000, 0x1_0000_0000_0000);
  }

  // Writes the length in bits behind the first 56 bytes.
  method WriteDataBitLength(digits: array<int>, temp: array<Byte>)
    requires digits.Length == 4 && AreLengthDigits(digits[..]) && temp.Length == 64
    modifies temp
    ensures temp[..56] == old(temp[..56])
    ensures temp[56..] == BigEndian64(8 * LengthValue(digits[..]) % LENGTH)
  {
    hide LengthValue, BigEndian64;
    var bits := BitLengthDigits(digits);
    ghost var d := bits[..];
    LengthBytes(d);
    var i, begin := 3, 56;
    while i >= 0
      invariant -1 <= i <= 3 && begin == 62 - 2 * i
      invariant temp[..56] == old(temp[..56]) && bits[..] == d
      invariant i < 3 ==> temp[56] == d[3] / 256 && temp[57] == d[3] % 256
      invariant i < 2 ==> temp[58] == d[2] / 256 && temp[59] == d[2] % 256
      invariant i < 1 ==> temp[60] == d[1] / 256 && temp[61] == d[1] % 256
      invariant i < 0 ==> temp[62] == d[0] / 256 && temp[63] == d[0] % 256
    {
      assert bits[i] == d[i];
      temp[begin] := bits[i] / 256 % 256;
      temp[begin + 1] := bits[i] % 256;
      begin := begin + 2;
      i := i - 1;
    }
    assert temp[56..] == BigEndian64(LengthValue(d));
  }

  /* ---- the hasher ---- */

  // The first n bytes of the words, most significant byte of each first.
  function WordBytes(h: seq<Word>, n: nat): (b: seq<Byte>)
    requires n <= 4 * |h|
    ensures |b| == n
  {
    seq(n, i requires 0 <= i < n => WordByte(h[i / 4], i % 4))
  }

  function WordByte(w: Word, i: nat): Byte
    requires i < 4
  {
    Shr(w, 24 - 8 * i) % 256
  }

  // The digest after the whole blocks of m.
  ghost predicate Folded(digest: seq<Word>, m: seq<Byte>) {
    |m| % 64 == 0 && digest == Fold(InitialDigest(), m)
  }

  lemma FoldedNone(zeros: seq<int>)
    requires |zeros| == 4 && zeros == [0, 0, 0, 0]
    ensures Folded(InitialDigest(), []) && LengthValue(zeros) == 0
  {
    hide InitialDigest;
  }

  lemma FoldedMore(digest: seq<Word>, m: seq<Byte>, block: seq<Byte>)
    requires Folded(digest, m) && |block| == 64 && |digest| == 8
    ensures Folded(Compress(digest, block), m + block)
  {
    hide Fold, InitialDigest, Compress;
    FoldBlock(InitialDigest(), m, block);
  }

  class Hasher {
    var buffer: seq<Byte>
    const lengthDigits: array<int>
    const h: array<Word>
    // Everything taken in so far.
    ghost var message: seq<Byte>

    ghost predicate Shaped()
      reads this, lengthDigits
    {
      && h.Length == 8 && lengthDigits.Length == 4 && h as object != lengthDigits as object
      && AreLengthDigits(lengthDigits[..])
      && LengthValue(lengthDigits[..]) == |message| % LENGTH
    }

    // The whole blocks of the message are in the digest, the rest is in the buffer.
    ghost predicate Valid()
      reads this, lengthDigits, h
    {
      && Shaped()
      && |buffer| < 64 && |buffer| <= |message|
      && var n := |message| - |buffer|;
        message[n..] == buffer && Folded(h[..], message[..n])
    }

    constructor ()
      ensures Valid() && message == [] && fresh(h) && fresh(lengthDigits)
    {
      hide Folded, LengthValue, InitialDigest;
      buffer, message := [], [];
      lengthDigits := new int[4](_ => 0);
      var initial := InitialDigest();
      h := new Word[8](i requires 0 <= i < 8 => initial[i]);
      new;
      assert h[..] == InitialDigest();
      FoldedNone(lengthDigits[..]);
      assert message[..0] == [];
    }

    method Process(data: seq<Byte>)
      requires Valid() && |data| <= LENGTH - 0x1_0000
      modifies this, lengthDigits, h
      ensures Valid() && message == old(message) + data
    {
      hide LengthValue, Folded, AreLengthDigits;
      ghost var front := message[..|message| - |buffer|];
      AddToDataLength(lengthDigits, |data|);
      LengthGrows(|message|, |data|);
      message := message + data;
      buffer := buffer + data;
      assert message == front + buffer;
      var i := AbsorbBlocks(front);
      buffer := buffer[i..];
      assert message[..|message| - |buffer|] == front + old(buffer + data)[..i];
    }

    // Compresses the whole blocks of the buffer; i is where the rest begins.
    method AbsorbBlocks(ghost front: seq<Byte>) returns (i: nat)
      requires h.Length == 8 && Folded(h[..], front)
      modifies h
      ensures i <= |buffer| < i + 64 && Folded(h[..], front + buffer[..i])
    {
      hide Compress, Folded;
      i := 0;
      assert front + buffer[..0] == front;
      while i + 64 <= |buffer|
        invariant i <= |buffer| && Folded(h[..], front + buffer[..i])
      {
        FoldedMore(h[..], front + buffer[..i], buffer[i..i + 64]);
        assert front + buffer[..i] + buffer[i..i + 64] == front + buffer[..i + 64];
        HashBlock(h, buffer[i..i + 64]);
        i := i + 64;
      }
    }

    // Puts the rest and the one bit into the last block; if the length does not fit behind them,
    // compresses that block and starts another.
    method StartPadding() returns (temp: array<Byte>, ghost front: seq<Byte>)
      requires Valid()
      modifies h
      ensures fresh(temp) && temp.Length == 64 && Folded(h[..], front)
      ensures front + temp[..56] == PaddedFront(message[..|message| - |buffer|], buffer)
    {
      hide Compress, Folded, LengthValue, AreLengthDigits, WORD;
      front := message[..|message| - |buffer|];
      ghost var digest := h[..];
      var remains, rest := |buffer|, buffer;
      temp := new Byte[64](i => if 0 <= i < remains then rest[i] else if i == remains then 0x80 else 0);
      assert temp[..] == rest + [0x80] + Zeros(63 - remains);
      if remains > 55 {
        ghost var block := temp[..];
        FoldedMore(h[..], front, block);
        HashBlock(h, temp[..]);
        front := front + block;
        digest := h[..];
        forall i | 0 <= i < 60 {
          temp[i] := 0;
        }
        assert temp[..56] == Zeros(56);
      } else {
        assert temp[..56] == rest + [0x80] + Zeros(55 - remains);
      }
      assert h[..] == digest;
      assert front + temp[..56] == PaddedFront(message[..|message| - remains], rest);
    }

    // Pads the rest and compresses it: one block, or two.
    method Finish()
      requires Valid()
      modifies h
      ensures h[..] == Digest(message)
    {
      hide Compress, Folded, Digest, LengthValue, BigEndian64, AreLengthDigits, WORD, Padding, PaddedFront;
      ghost var whole := message[..|message| - |buffer|];
      assert message == whole + buffer;
      FoldedWhole(h[..], whole);
      EightTimes(|message|);
      var temp;
      ghost var front;
      temp, front := StartPadding();
      WriteDataBitLength(lengthDigits, temp);
      assert temp[..] == temp[..56] + temp[56..];
      assert front + temp[..] == front + temp[..56] + temp[56..];
      FoldedMore(h[..], front, temp[..]);
      HashBlock(h, temp[..]);
      PaddedWhole(whole, buffer, temp[56..]);
      DigestIs(h[..], message);
    }

    // Writes the digest's bytes, as many as there is room for.
    method GetHashBytes(out: array<Byte>)
      requires h.Length == 8 && h as object != out as object
      modifies out
      ensures var n := if out.Length < 32 then out.Length else 32;
              out[..] == WordBytes(h[..], n) + old(out[n..])
    {
      hide WordByte;
      ghost var words, was := h[..], out[..];
      ghost var n := if out.Length < 32 then out.Length else 32;
      var first, word := 0, 0;
      while word < 8
        invariant word <= 8 && first == if n < 4 * word then n else 4 * word
        invariant forall j :: 0 <= j < first ==> out[j] == WordByte(words[j / 4], j % 4)
        invariant out[first..] == was[first..] && h[..] == words
      {
        var i := 0;
        while i < 4 && first != out.Length
          invariant 0 <= i <= 4 && first == if n < 4 * word + i then n else 4 * word + i
          invariant forall j :: 0 <= j < first ==> out[j] == WordByte(words[j / 4], j % 4)
          invariant out[first..] == was[first..] && h[..] == words
        {
          assert first / 4 == word && first % 4 == i;
          out[first] := WordByte(h[word], i);
          first := first + 1;
          i := i + 1;
        }
        word := word + 1;
      }
      assert out[..n] == WordBytes(words, n);
      assert out[..] == out[..n] + out[n..];
    }
  }

  /* ---- whole messages ---- */

  // The first n bytes of the digest, 32 at most.
  function HashBytes(m: seq<Byte>, n: nat): seq<Byte>
    requires n <= 32
  {
    WordBytes(Digest(m), n)
  }

  method Output(hasher: Hasher, n: nat) returns (out: array<Byte>)
    requires hasher.h.Length == 8 && n <= 32
    ensures fresh(out) && out[..] == WordBytes(hasher.h[..], n)
  {
    hide WordBytes;
    out := new Byte[n](_ => 0);
    hasher.GetHashBytes(out);
    assert out[..] == WordBytes(hasher.h[..], n) + [];
  }

  // hash256 over a random access range.
  method HashRange(data: seq<Byte>, n: nat) returns (out: array<Byte>)
    requires |data| <= LENGTH - 0x1_0000 && n <= 32
    ensures out[..] == HashBytes(data, n)
  {
    hide WordBytes, Digest;
    var hasher := new Hasher();
    hasher.Process(data);
    assert hasher.message == data;
    hasher.Finish();
    out := Output(hasher, n);
  }

  // hash256 over an input stream, read through a buffer of any positive size.
  method HashStream(data: seq<Byte>, bufferSize: nat, n: nat) returns (out: array<Byte>)
    requires 0 < bufferSize <= LENGTH - 0x1_0000 && n <= 32
    ensures out[..] == HashBytes(data, n)
  {
    hide *;
    var buffer := new Byte[bufferSize](_ => 0);
    var hasher := new Hasher();
    assert hasher.h as object != buffer as object && hasher.lengthDigits as object != buffer as object;
    var first := 0;
    while first < |data|
      invariant first <= |data| && hasher.Valid() && hasher.message == data[..first]
      invariant fresh(hasher) && fresh(hasher.h) && fresh(hasher.lengthDigits)
    {
      var size, next := FillBuffer(buffer, data, first);
      hasher.Process(buffer[..size]);
      assert data[..first] + data[first..next] == data[..next];
      first := next;
    }
    assert data[..first] == data;
    HashBytesOf(data, n);
    hasher.Finish();
    out := Output(hasher, n);
  }

  lemma HashBytesOf(m: seq<Byte>, n: nat)
    requires n <= 32
    ensures HashBytes(m, n) == WordBytes(Digest(m), n)
  {
  }

  method FillBuffer(buffer: array<Byte>, data: seq<Byte>, first: nat) returns (size: nat, next: nat)
    requires first < |data| && buffer.Length > 0
    modifies buffer
    ensures first < next <= |data| && size <= buffer.Length && buffer[..size] == data[first..next]
  {
    size, next := buffer.Length, first;
    var i := 0;
    while i != buffer.Length
      invariant i <= buffer.Length == size && next == first + i <= |data| && buffer[..i] == data[first..next]
      decreases buffer.Length - i
    {
      if next == |data| {
        size := i;
        return;
      }
      buffer[i] := data[next];
      i := i + 1;
      next := next + 1;
    }
  }

  function Concat(chunks: seq<seq<Byte>>): seq<Byte> {
    if |chunks| == 0 then [] else Concat(chunks[..|chunks| - 1]) + chunks[|chunks| - 1]
  }

  // However the message is cut into pieces, the digest is that of the whole.
  method HashChunks(chunks: seq<seq<Byte>>, n: nat) returns (out: array<Byte>)
    requires n <= 32 && forall i :: 0 <= i < |chunks| ==> |chunks[i]| <= LENGTH - 0x1_0000
    ensures out[..] == HashBytes(Concat(chunks), n)
  {
    hide WordBytes, Digest;
    var hasher := new Hasher();
    var i := 0;
    while i < |chunks|
      invariant i <= |chunks| && hasher.Valid() && hasher.message == Concat(chunks[..i])
      invariant fresh(hasher) && fresh(hasher.h) && fresh(hasher.lengthDigits)
    {
      hasher.Process(chunks[i]);
      assert chunks[..i + 1][..i] == chunks[..i];
      i := i + 1;
    }
    assert chunks[..i] == chunks;
    hasher.Finish();
    out := Output(hasher, n);
  }

  // Messages below 2^61 bytes have different paddings: the padded message determines the message.
  lemma PaddingInjective(m: seq<Byte>, m': seq<Byte>)
    requires |m| < LENGTH / 8 && |m'| < LENGTH / 8 && m + Padding(|m|) == m' + Padding(|m'|)
    ensures m == m'
  {
    hide Padding, BigEndian64;
    var p := m + Padding(|m|);
    PaddingEnd(m);
    PaddingEnd(m');
    BigEndian64Injective(8 * |m|, 8 * |m'|);
    assert m == p[..|m|] && m' == p[..|m'|];
  }

  lemma PaddingEnd(m: seq<Byte>)
    requires |m| < LENGTH / 8
    ensures var p := m + Padding(|m|); |p| >= 8 && p[|p| - 8..] == BigEndian64(8 * |m|)
  {
    hide BigEndian64;
  }

  lemma BigEndian64Injective(v: int, w: int)
    requires 0 <= v < LENGTH && 0 <= w < LENGTH && BigEndian64(v) == BigEndian64(w)
    ensures v == w
  {
    FromBytes(v);
    FromBytes(w);
  }

  lemma FromBytes(v: int)
    requires 0 <= v < LENGTH
    ensures v == ByteAt(v, 1) + 0x100 * ByteAt(v, 0x100)
                 + 0x1_0000 * ByteAt(v, 0x1_0000) + 0x100_0000 * ByteAt(v, 0x100_0000)
                 + 0x1_0000_0000 * ByteAt(v, 0x1_0000_0000) + 0x100_0000_0000 * ByteAt(v, 0x100_0000_0000)
                 + 0x1_0000_0000_0000 * ByteAt(v, 0x1_0000_0000_0000)
                 + 0x100_0000_0000_0000 * ByteAt(v, 0x100_0000_0000_0000)
  {
    hide ByteAt;
    ByteStep(v, 1);
    ByteStep(v, 0x100);
    ByteStep(v, 0x1_0000);
    ByteStep(v, 0x100_0000);
    ByteStep(v, 0x1_0000_0000);
    ByteStep(v, 0x100_0000_0000);
    ByteStep(v, 0x1_0000_0000_0000);
    ByteStep(v, 0x100_0000_0000_0000);
    DivUnique(v, LENGTH, 0, v);
    DivUnique(v, 1, v, 0);
  }

  lemma ByteStep(v: int, p: nat)
    requires p > 0 && v >= 0
    ensures v / p == 256 * (v / (256 * p)) + ByteAt(v, p)
  {
    var q := v / p;
    var h, r := q / 256, q % 256;
    assert v == q * p + v % p;
    Distribute(h * 256, r, p);
    assert h * 256 * p == h * (256 * p);
    MulMono(r + 1, 256, p);
    Distribute(r, 1, p);
    MulMono(0, r, p);
    DivUnique(v, 256 * p, h, r * p + v % p);
  }

  // The whole blocks, the rest, the one bit and the zeros.
  function PaddedFront(front: seq<Byte>, rest: seq<Byte>): seq<Byte>
    requires |rest| < 64
  {
    var r := |rest|;
    if r > 55 then front + (rest + [0x80] + Zeros(63 - r)) + Zeros(56) else front + (rest + [0x80] + Zeros(55 - r))
  }

  lemma FoldedWhole(digest: seq<Word>, m: seq<Byte>)
    requires Folded(digest, m)
    ensures |m| % 64 == 0
  {
  }

  lemma EightTimes(n: nat)
    ensures 8 * (n % LENGTH) % LENGTH == 8 * n % LENGTH
  {
    var r := 8 * (n % LENGTH);
    DivUnique(8 * n, LENGTH, 8 * (n / LENGTH) + r / LENGTH, r % LENGTH);
  }

  // The last block or two, as they are built, are the rest of the message with its padding.
  lemma PaddedWhole(front: seq<Byte>, rest: seq<Byte>, length: seq<Byte>)
    requires |front| % 64 == 0 && |rest| < 64 && length == BigEndian64(8 * |front + rest| % LENGTH)
    ensures var m := front + rest;
            m + Padding(|m|) == PaddedFront(front, rest) + length
  {
    hide BigEndian64;
    var r := |rest|;
    var m := front + rest;
    assert |m| % 64 == r;
    if r > 55 {
      assert Zeros(ZeroCount(|m|)) == Zeros(63 - r) + Zeros(56);
    }
  }

  lemma DigestIs(digest: seq<Word>, m: seq<Byte>)
    requires Folded(digest, m + Padding(|m|))
    ensures digest == Digest(m)
  {
  }

  lemma LengthGrows(n: nat, k: nat)
    ensures (n % LENGTH + k) % LENGTH == (n + k) % LENGTH
  {
    DivUnique(n + k, LENGTH, n / LENGTH + (n % LENGTH + k) / LENGTH, (n % LENGTH + k) % LENGTH);
  }
}
