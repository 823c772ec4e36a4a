/** What the functions and constants of SHA-256 are, bit by bit and root by root, and what the schedule and the rounds
    make of them. */
module Sha256Laws {
  import opened Common
  import opened Bits
  import opened Radix
  import opened Sha256
  import opened Sha256Stream

  /* ---- single bits ---- */

  lemma BitOfWord(f: nat -> bool, i: nat)
    requires i < 32
    ensures Bit(FromWordBits(f), i) == if f(i) then 1 else 0
  {
    BitOfFromBits(f, 32, i);
  }

  lemma BitOfXor(x: Word, y: Word, i: nat)
    requires i < 32
    ensures Bit(Xor(x, y), i) == (Bit(x, i) + Bit(y, i)) % 2
  {
    hide Bit;
    BitOfWord((k: nat) => Bit(x, k) != Bit(y, k), i);
  }

  lemma BitOfAnd(x: Word, y: Word, i: nat)
    requires i < 32
    ensures Bit(And(x, y), i) == Bit(x, i) * Bit(y, i)
  {
    hide Bit;
    BitOfWord((k: nat) => Bit(x, k) == 1 && Bit(y, k) == 1, i);
  }

  lemma {:induction false} BitOfComplement(v: nat, n: nat, i: nat)
    requires v < Pow2(n) && i < n
    ensures Bit(Pow2(n) - 1 - v, i) == 1 - Bit(v, i)
    decreases n
  {
    hide Bit;
    var w := Pow2(n) - 1 - v;
    if i == 0 {
      BitZero(v);
      BitZero(w);
    } else {
      BitOfHalf(v, i - 1);
      BitOfHalf(w, i - 1);
      BitOfComplement(v / 2, n - 1, i - 1);
      assert w / 2 == Pow2(n - 1) - 1 - v / 2;
    }
  }

  lemma BitOfNot(x: Word, i: nat)
    requires i < 32
    ensures Bit(Not(x), i) == 1 - Bit(x, i)
  {
    hide Bit, Pow2;
    WordIsPow2();
    BitOfComplement(x, 32, i);
  }

  // Shifting down by n places brings in zeros.
  lemma BitOfShr(x: Word, n: nat, i: nat)
    requires n < 32 && i < 32
    ensures Bit(Shr(x, n), i) == if i + n < 32 then Bit(x, i + n) else 0
  {
    hide Bit, Pow2;
    WordIsPow2();
    BitOfParts(x, n, i);
    if i + n >= 32 {
      BitAbove(x, 32, i + n);
    }
  }

  // Rotating down by n places brings the bits that fall off back in at the top.
  lemma BitOfRotr(x: Word, n: nat, i: nat)
    requires 0 < n < 32 && i < 32
    ensures Bit(Rotr(x, n), i) == Bit(x, (i + n) % 32)
  {
    hide Bit, Pow2, Low, High;
    var m := 32 - n;
    RotatedParts(x, n, m);
    BitOfSum(High(x, n), Low(x, n), m, i, Rotr(x, n));
    if i < m {
      BitOfParts(x, n, i);
      assert (i + n) % 32 == i + n;
    } else {
      BitOfParts(x, n, i - m);
      assert (i + n) % 32 == i - m;
    }
  }

  lemma RotatedParts(x: Word, n: nat, m: nat)
    requires 0 < n < 32 && n + m == 32
    ensures High(x, n) < Pow2(m) && Rotr(x, n) == High(x, n) + Pow2(m) * Low(x, n)
  {
    hide Pow2;
    WordIsPow2();
    Pow2Add(n, m);
    Parts(x, n);
    var q, r, d, e := High(x, n), Low(x, n), Pow2(n), Pow2(m);
    if q >= e {
      MulMono(e, q, d);
      Commute(d, q);
      Commute(d, e);
    }
    RotatedSum(q, r, d, e, x);
  }

  lemma RotatedSum(q: nat, r: nat, d: nat, e: nat, x: nat)
    requires d * e == WORD && x == r + d * q && r < d && q < e
    ensures (q + x * e) % WORD == q + e * r
  {
    Distribute(r, d * q, e);
    Commute(r, e);
    assert d * q * e == q * (d * e);
    MulMono(r, d - 1, e);
    Commute(e, r);
    Distribute(d, 1, e);
    DivUnique(q + x * e, WORD, q, q + e * r);
  }

  // Where x is set the bit of y, elsewhere the bit of z.
  lemma BitOfCh(x: Word, y: Word, z: Word, i: nat)
    requires i < 32
    ensures Bit(Ch(x, y, z), i) == if Bit(x, i) == 1 then Bit(y, i) else Bit(z, i)
  {
    hide Bit, Xor, And, Not;
    BitOfXor(And(x, y), And(Not(x), z), i);
    BitOfAnd(x, y, i);
    BitOfAnd(Not(x), z, i);
    BitOfNot(x, i);
  }

  // The bit that at least two of the three have.
  lemma BitOfMaj(x: Word, y: Word, z: Word, i: nat)
    requires i < 32
    ensures Bit(Maj(x, y, z), i) == if Bit(x, i) + Bit(y, i) + Bit(z, i) >= 2 then 1 else 0
  {
    hide Bit, Xor, And;
    BitOfXor(Xor(And(x, y), And(x, z)), And(y, z), i);
    BitOfXor(And(x, y), And(x, z), i);
    BitOfAnd(x, y, i);
    BitOfAnd(x, z, i);
    BitOfAnd(y, z, i);
  }

  lemma BitOfThree(x: Word, y: Word, z: Word, i: nat)
    requires i < 32
    ensures Bit(Xor(Xor(x, y), z), i) == (Bit(x, i) + Bit(y, i) + Bit(z, i)) % 2
  {
    hide Bit, Xor;
    BitOfXor(Xor(x, y), z, i);
    BitOfXor(x, y, i);
  }

  // The parity of three rotated bits, or of two and a shifted one.
  lemma BitOfBigSigmas(x: Word, i: nat)
    requires i < 32
    ensures Bit(BigSigma0(x), i) == (Bit(x, (i + 2) % 32) + Bit(x, (i + 13) % 32) + Bit(x, (i + 22) % 32)) % 2
    ensures Bit(BigSigma1(x), i) == (Bit(x, (i + 6) % 32) + Bit(x, (i + 11) % 32) + Bit(x, (i + 25) % 32)) % 2
  {
    hide Bit, Xor, Rotr;
    BitOfThree(Rotr(x, 2), Rotr(x, 13), Rotr(x, 22), i);
    BitOfThree(Rotr(x, 6), Rotr(x, 11), Rotr(x, 25), i);
    BitOfRotr(x, 2, i);
    BitOfRotr(x, 13, i);
    BitOfRotr(x, 22, i);
    BitOfRotr(x, 6, i);
    BitOfRotr(x, 11, i);
    BitOfRotr(x, 25, i);
  }

  lemma BitOfSmallSigmas(x: Word, i: nat)
    requires i < 32
    ensures Bit(SmallSigma0(x), i) ==
      (Bit(x, (i + 7) % 32) + Bit(x, (i + 18) % 32) + (if i < 29 then Bit(x, i + 3) else 0)) % 2
    ensures Bit(SmallSigma1(x), i) ==
      (Bit(x, (i + 17) % 32) + Bit(x, (i + 19) % 32) + (if i < 22 then Bit(x, i + 10) else 0)) % 2
  {
    hide Bit, Xor, Rotr, Shr;
    BitOfThree(Rotr(x, 7), Rotr(x, 18), Shr(x, 3), i);
    BitOfThree(Rotr(x, 17), Rotr(x, 19), Shr(x, 10), i);
    BitOfRotr(x, 7, i);
    BitOfRotr(x, 18, i);
    BitOfRotr(x, 17, i);
    BitOfRotr(x, 19, i);
    BitOfShr(x, 3, i);
    BitOfShr(x, 10, i);
  }

  /* ---- bytes and words ---- */

  // Byte 0 of a word has its eight highest bits, and so on down.
  lemma BitOfByte(w: Word, i: nat, k: nat)
    requires i < 4 && k < 8
    ensures Bit(WordByte(w, i), k) == Bit(w, 24 - 8 * i + k)
  {
    hide Bit, Pow2, Shr;
    EightBits();
    BitOfParts(Shr(w, 24 - 8 * i), 8, k);
    BitOfShr(w, 24 - 8 * i, k);
  }

  lemma Shifts(w: Word)
    ensures Shr(w, 24) == w / 0x100_0000 && Shr(w, 16) == w / 0x1_0000 && Shr(w, 8) == w / 0x100 && Shr(w, 0) == w
  {
    hide Pow2;
    EightBits();
    Pow2Add(8, 8);
    Pow2Add(16, 8);
    Pow2Zero();
  }

  // Four bytes make a word, the first worth 2^24, and the word gives them back.
  lemma BytesOfWord(b0: Byte, b1: Byte, b2: Byte, b3: Byte)
    ensures var w := BigEndian(b0, b1, b2, b3);
      WordByte(w, 0) == b0 && WordByte(w, 1) == b1 && WordByte(w, 2) == b2 && WordByte(w, 3) == b3
    ensures BigEndian(1, 0, 0, 0) == 0x100_0000
  {
    hide Shr;
    var w := BigEndian(b0, b1, b2, b3);
    Shifts(w);
    var h: int, m: int := b0 * 0x100 + b1, b2 * 0x100 + b3;
    var q: int := h * 0x100 + b2;
    DivUnique(w, 0x100_0000, b0, b1 * 0x1_0000 + m);
    DivUnique(w, 0x1_0000, h, m);
    DivUnique(w, 0x100, q, b3);
    DivUnique(h, 0x100, b0, b1);
    DivUnique(q, 0x100, h, b2);
  }

  lemma WordOfBytes(w: Word)
    ensures BigEndian(WordByte(w, 0), WordByte(w, 1), WordByte(w, 2), WordByte(w, 3)) == w
  {
    hide Shr;
    Shifts(w);
    ByteStep(w, 1);
    ByteStep(w, 0x100);
    ByteStep(w, 0x1_0000);
    DivUnique(w, 1, w, 0);
  }

  // The words of the digest are read back off the 32 bytes of the output.
  lemma DigestWords(m: seq<Byte>, k: nat)
    requires k < 8
    ensures var b := HashBytes(m, 32);
      |b| == 32 && BigEndian(b[4 * k], b[4 * k + 1], b[4 * k + 2], b[4 * k + 3]) == Digest(m)[k]
  {
    hide WordByte, Digest, BigEndian;
    WordOfBytes(Digest(m)[k]);
  }

  /* ---- the message schedule ---- */

  lemma {:induction false} SchedulePrefix(block: seq<Byte>, i: nat, j: nat)
    requires |block| == 64 && i <= j <= 64
    ensures Schedule(block, j)[..i] == Schedule(block, i)
    decreases j
  {
    hide SmallSigma0, SmallSigma1, BigEndian;
    if i < j {
      SchedulePrefix(block, i, j - 1);
      assert Schedule(block, j)[..j - 1] == Schedule(block, j - 1);
      assert Schedule(block, j)[..i] == Schedule(block, j - 1)[..i];
    }
  }

  // The first sixteen words hold the bytes of the block; every other word is the recurrence over all words.
  lemma ScheduleWords(block: seq<Byte>, t: nat)
    requires |block| == 64 && t < 64
    ensures var w := Schedule(block, 64);
      if t < 16 then
        forall j :: 0 <= j < 4 ==> WordByte(w[t], j) == block[4 * t + j]
      else
        (w[t] - SmallSigma1(w[t - 2]) - w[t - 7] - SmallSigma0(w[t - 15]) - w[t - 16]) % WORD == 0
  {
    hide SmallSigma0, SmallSigma1, BigEndian, WordByte;
    SchedulePrefix(block, t, 64);
    SchedulePrefix(block, t + 1, 64);
    var w := Schedule(block, 64);
    assert w[t] == Schedule(block, t + 1)[t];
    if t < 16 {
      BytesOfWord(block[4 * t], block[4 * t + 1], block[4 * t + 2], block[4 * t + 3]);
    } else {
      var v := Schedule(block, t);
      assert v[t - 2] == w[t - 2] && v[t - 7] == w[t - 7] && v[t - 15] == w[t - 15] && v[t - 16] == w[t - 16];
      MultipleLeft(SmallSigma1(w[t - 2]) + w[t - 7] + SmallSigma0(w[t - 15]) + w[t - 16]);
    }
  }

  lemma MultipleLeft(x: int)
    ensures (x % WORD - x) % WORD == 0
  {
  }

  /* ---- the rounds ---- */

  // The variables a and e after j rounds; before the first round, the starting values of a to d and of e to h.
  function A(s: Working, k: seq<Word>, w: seq<Word>, j: int): Word
    requires -3 <= j <= |k| && j <= |w|
  {
    if j == -3 then s.d else if j == -2 then s.c else if j == -1 then s.b else Rounds(s, k, w, j).a
  }

  function E(s: Working, k: seq<Word>, w: seq<Word>, j: int): Word
    requires -3 <= j <= |k| && j <= |w|
  {
    if j == -3 then s.h else if j == -2 then s.g else if j == -1 then s.f else Rounds(s, k, w, j).e
  }

  // The other six variables are the last three values of these two.
  lemma {:induction false} RoundsHistory(s: Working, k: seq<Word>, w: seq<Word>, i: nat)
    requires i <= |k| && i <= |w|
    ensures Rounds(s, k, w, i) ==
      Working(A(s, k, w, i), A(s, k, w, i - 1), A(s, k, w, i - 2), A(s, k, w, i - 3),
              E(s, k, w, i), E(s, k, w, i - 1), E(s, k, w, i - 2), E(s, k, w, i - 3))
  {
    hide BigSigma0, BigSigma1, Ch, Maj;
    if i > 0 {
      RoundsHistory(s, k, w, i - 1);
    }
  }

  // Two recurrences over four values back make up the rounds.
  lemma RoundsRecurrence(s: Working, k: seq<Word>, w: seq<Word>, i: nat)
    requires i < |k| && i < |w|
    ensures (E(s, k, w, i + 1) - A(s, k, w, i - 3) - E(s, k, w, i - 3) - BigSigma1(E(s, k, w, i))
             - Ch(E(s, k, w, i), E(s, k, w, i - 1), E(s, k, w, i - 2)) - k[i] - w[i]) % WORD == 0
    ensures (A(s, k, w, i + 1) - E(s, k, w, i + 1) + A(s, k, w, i - 3) - BigSigma0(A(s, k, w, i))
             - Maj(A(s, k, w, i), A(s, k, w, i - 1), A(s, k, w, i - 2))) % WORD == 0
  {
    hide BigSigma0, BigSigma1, Ch, Maj;
    RoundsHistory(s, k, w, i);
    var v := Rounds(s, k, w, i);
    var t1 := v.h + BigSigma1(v.e) + Ch(v.e, v.f, v.g) + k[i] + w[i];
    var t2 := BigSigma0(v.a) + Maj(v.a, v.b, v.c);
    assert Rounds(s, k, w, i + 1) == Round(v, k[i], w[i]);
    DifferenceLeft(v.d, t1, t2);
  }

  lemma DifferenceLeft(d: int, t1: int, t2: int)
    ensures ((d + t1) % WORD - d - t1) % WORD == 0
    ensures ((t1 + t2) % WORD - (d + t1) % WORD + d - t2) % WORD == 0
  {
  }

  // Compression adds the last values of the two recurrences, started from the old digest, to that digest.
  lemma CompressMeans(h: seq<Word>, block: seq<Byte>, j: nat)
    requires |h| == 8 && |block| == 64 && j < 4
    ensures var s, k, w := Working(h[0], h[1], h[2], h[3], h[4], h[5], h[6], h[7]), AddConstants(), Schedule(block, 64);
      && (Compress(h, block)[j] - h[j] - A(s, k, w, 64 - j)) % WORD == 0
      && (Compress(h, block)[4 + j] - h[4 + j] - E(s, k, w, 64 - j)) % WORD == 0
  {
    hide AddConstants, Rounds, Schedule, A, E, Added;
    var s, k, w := Unpack(h), AddConstants(), Schedule(block, 64);
    RoundsHistory(s, k, w, 64);
    AddedAre(h, Rounds(s, k, w, 64));
  }

  lemma AddedAre(h: seq<Word>, v: Working)
    requires |h| == 8
    ensures var r := Added(h, v);
      && (r[0] - h[0] - v.a) % WORD == 0 && (r[1] - h[1] - v.b) % WORD == 0
      && (r[2] - h[2] - v.c) % WORD == 0 && (r[3] - h[3] - v.d) % WORD == 0
      && (r[4] - h[4] - v.e) % WORD == 0 && (r[5] - h[5] - v.f) % WORD == 0
      && (r[6] - h[6] - v.g) % WORD == 0 && (r[7] - h[7] - v.h) % WORD == 0
  {
    hide WORD;
    AddedWord(h[0], v.a, Added(h, v)[0]);
    AddedWord(h[1], v.b, Added(h, v)[1]);
    AddedWord(h[2], v.c, Added(h, v)[2]);
    AddedWord(h[3], v.d, Added(h, v)[3]);
    AddedWord(h[4], v.e, Added(h, v)[4]);
    AddedWord(h[5], v.f, Added(h, v)[5]);
    AddedWord(h[6], v.g, Added(h, v)[6]);
    AddedWord(h[7], v.h, Added(h, v)[7]);
  }

  lemma AddedWord(x: int, y: int, r: int)
    requires r == (x + y) % WORD
    ensures (r - x - y) % WORD == 0
  {
  }

  // No block leaves the digest as it is, and one block is compressed into it.
  lemma FoldOne(h: seq<Word>, block: seq<Byte>)
    requires |h| == 8 && |block| == 64
    ensures Fold(h, []) == h && Fold(h, block) == Compress(h, block)
  {
    hide Compress;
    assert block[..|block| - 64] == [] && block[|block| - 64..] == block;
    assert Fold(h, []) == h;
  }

  /* ---- the padding ---- */

  // A byte 0x80, fewer than 64 zeros and eight bytes with the length in bits bring the message to whole blocks.
  lemma PaddingMeans(n: nat)
    ensures var p := Padding(n);
      && (n + |p|) % 64 == 0 && 9 <= |p| < 73 && p[0] == 0x80 && (forall i :: 1 <= i < |p| - 8 ==> p[i] == 0)
      && Num(p[|p| - 8..], 0x100) == 8 * n % LENGTH
  {
    hide BigEndian64, Num;
    var b := BigEndian64(8 * n % LENGTH);
    assert Padding(n)[|Padding(n)| - 8..] == b;
    LengthBytes(8 * n % LENGTH);
  }

  lemma LengthBytes(v: int)
    requires 0 <= v < LENGTH
    ensures Num(BigEndian64(v), 0x100) == v
  {
    hide ByteAt;
    var b := BigEndian64(v);
    DivUnique(v, LENGTH, 0, v);
    DivUnique(v, 1, v, 0);
    assert b[..0] == [] && b[..8] == b;
    TakeByte(b, 0, v, 0x100_0000_0000_0000);
    TakeByte(b, 1, v, 0x1_0000_0000_0000);
    TakeByte(b, 2, v, 0x100_0000_0000);
    TakeByte(b, 3, v, 0x1_0000_0000);
    TakeByte(b, 4, v, 0x100_0000);
    TakeByte(b, 5, v, 0x1_0000);
    TakeByte(b, 6, v, 0x100);
    TakeByte(b, 7, v, 1);
  }

  lemma TakeByte(b: seq<Byte>, k: nat, v: int, p: nat)
    requires k < |b| && v >= 0 && p > 0 && b[k] == ByteAt(v, p) && Num(b[..k], 0x100) == v / (256 * p)
    ensures Num(b[..k + 1], 0x100) == v / p
  {
    hide Num, ByteAt;
    assert b[..k + 1] == b[..k] + [b[k]];
    NumSnoc(b[..k], b[k], 0x100);
    ByteStep(v, p);
  }
}
