/** SHA-256: the compression of one block and the hasher that takes a message in pieces. */
module Sha256 {
  import opened Common
  import opened Bits

  type Word = x: int | 0 <= x < 0x1_0000_0000

  const WORD := 0x1_0000_0000
  const LENGTH := 0x1_0000_0000_0000_0000

  /* ---- the functions of section 4.1.2 of FIPS 180-4 ---- */

  function Xor(x: Word, y: Word): Word {
    FromWordBits((i: nat) => Bit(x, i) != Bit(y, i))
  }

  function And(x: Word, y: Word): Word {
    FromWordBits((i: nat) => Bit(x, i) == 1 && Bit(y, i) == 1)
  }

  function FromWordBits(f: nat -> bool): Word {
    WordIsPow2();
    FromBits(f, 32)
  }

  lemma WordIsPow2()
    ensures Pow2(32) == WORD
  {
    hide Pow2;
    EightBits();
    Pow2Add(8, 8);
    Pow2Add(16, 16);
  }

  function Not(x: Word): Word {
    WORD - 1 - x
  }

  function Shr(x: Word, n: nat): Word
    requires n < 32
  {
    QuotientBelow(x, Pow2(n));
    x / Pow2(n)
  }

  // The low n bits move to the top.
  function Rotr(x: Word, n: nat): Word
    requires 0 < n < 32
  {
    (x / Pow2(n) + x * Pow2(32 - n)) % WORD
  }

  lemma QuotientBelow(x: nat, d: nat)
    requires d > 0
    ensures 0 <= x / d <= x
  {
    DivFacts(x, d);
    MulMono(1, d, x / d);
    Commute(x / d, d);
  }

  function Ch(x: Word, y: Word, z: Word): Word {
    Xor(And(x, y), And(Not(x), z))
  }

  function Maj(x: Word, y: Word, z: Word): Word {
    Xor(Xor(And(x, y), And(x, z)), And(y, z))
  }

  function BigSigma0(x: Word): Word {
    Xor(Xor(Rotr(x, 2), Rotr(x, 13)), Rotr(x, 22))
  }

  function BigSigma1(x: Word): Word {
    Xor(Xor(Rotr(x, 6), Rotr(x, 11)), Rotr(x, 25))
  }

  function SmallSigma0(x: Word): Word {
    Xor(Xor(Rotr(x, 7), Rotr(x, 18)), Shr(x, 3))
  }

  function SmallSigma1(x: Word): Word {
    Xor(Xor(Rotr(x, 17), Rotr(x, 19)), Shr(x, 10))
  }

  function ConstantRow(row: nat): (k: seq<Word>)
    requires row < 8
    ensures |k| == 8
  {
    match row
    case 0 => [0x428a2f98, 0x71374491, 0xb5c0fbcf, 0xe9b5dba5, 0x3956c25b, 0x59f111f1, 0x923f82a4, 0xab1c5ed5]
    case 1 => [0xd807aa98, 0x12835b01, 0x243185be, 0x550c7dc3, 0x72be5d74, 0x80deb1fe, 0x9bdc06a7, 0xc19bf174]
    case 2 => [0xe49b69c1, 0xefbe4786, 0x0fc19dc6, 0x240ca1cc, 0x2de92c6f, 0x4a7484aa, 0x5cb0a9dc, 0x76f988da]
    case 3 => [0x983e5152, 0xa831c66d, 0xb00327c8, 0xbf597fc7, 0xc6e00bf3, 0xd5a79147, 0x06ca6351, 0x14292967]
    case 4 => [0x27b70a85, 0x2e1b2138, 0x4d2c6dfc, 0x53380d13, 0x650a7354, 0x766a0abb, 0x81c2c92e, 0x92722c85]
    case 5 => [0xa2bfe8a1, 0xa81a664b, 0xc24b8b70, 0xc76c51a3, 0xd192e819, 0xd6990624, 0xf40e3585, 0x106aa070]
    case 6 => [0x19a4c116, 0x1e376c08, 0x2748774c, 0x34b0bcb5, 0x391c0cb3, 0x4ed8aa4a, 0x5b9cca4f, 0x682e6ff3]
    case _ => [0x748f82ee, 0x78a5636f, 0x84c87814, 0x8cc70208, 0x90befffa, 0xa4506ceb, 0xbef9a3f7, 0xc67178f2]
  }

  function AddConstants(): (k: seq<Word>)
    ensures |k| == 64
  {
    hide ConstantRow;
    ConstantRow(0) + ConstantRow(1) + ConstantRow(2) + ConstantRow(3) +
    ConstantRow(4) + ConstantRow(5) + ConstantRow(6) + ConstantRow(7)
  }

  function InitialDigest(): (h: seq<Word>)
    ensures |h| == 8
  {
    [0x6a09e667, 0xbb67ae85, 0x3c6ef372, 0xa54ff53a, 0x510e527f, 0x9b05688c, 0x1f83d9ab, 0x5be0cd19]
  }

  /* ---- one block: section 6.2.2 of FIPS 180-4 ---- */

  function BigEndian(b0: Byte, b1: Byte, b2: Byte, b3: Byte): Word {
    b0 * 0x100_0000 + b1 * 0x1_0000 + b2 * 0x100 + b3
  }

  // The first i words of the message schedule.
  function Schedule(block: seq<Byte>, i: nat): (w: seq<Word>)
    requires |block| == 64 && i <= 64
    ensures |w| == i
  {
    hide SmallSigma0, SmallSigma1, BigEndian;
    if i == 0 then []
    else
      var w := Schedule(block, i - 1);
      var k := i - 1;
      if k < 16 then w + [BigEndian(block[k * 4], block[k * 4 + 1], block[k * 4 + 2], block[k * 4 + 3])]
      else w + [(SmallSigma1(w[k - 2]) + w[k - 7] + SmallSigma0(w[k - 15]) + w[k - 16]) % WORD]
  }

  datatype Working = Working(a: Word, b: Word, c: Word, d: Word, e: Word, f: Word, g: Word, h: Word)

  function Round(v: Working, k: Word, w: Word): Working {
    hide BigSigma0, BigSigma1, Ch, Maj;
    var t1 := v.h + BigSigma1(v.e) + Ch(v.e, v.f, v.g) + k + w;
    var t2 := BigSigma0(v.a) + Maj(v.a, v.b, v.c);
    Working((t1 + t2) % WORD, v.a, v.b, v.c, (v.d + t1) % WORD, v.e, v.f, v.g)
  }

  // The working variables after the first i rounds.
  function Rounds(v: Working, k: seq<Word>, w: seq<Word>, i: nat): Working
    requires i <= |k| && i <= |w|
  {
    hide Round;
    if i == 0 then v else Round(Rounds(v, k, w, i - 1), k[i - 1], w[i - 1])
  }

  function Added(h: seq<Word>, v: Working): (r: seq<Word>)
    requires |h| == 8
    ensures |r| == 8
  {
    [(h[0] + v.a) % WORD, (h[1] + v.b) % WORD, (h[2] + v.c) % WORD, (h[3] + v.d) % WORD,
     (h[4] + v.e) % WORD, (h[5] + v.f) % WORD, (h[6] + v.g) % WORD, (h[7] + v.h) % WORD]
  }

  function Unpack(h: seq<Word>): Working
    requires |h| == 8
  {
    Working(h[0], h[1], h[2], h[3], h[4], h[5], h[6], h[7])
  }

  function Compress(h: seq<Word>, block: seq<Byte>): (r: seq<Word>)
    requires |h| == 8 && |block| == 64
    ensures |r| == 8
  {
    hide Rounds, Schedule, AddConstants;
    Added(h, Rounds(Unpack(h), AddConstants(), Schedule(block, 64), 64))
  }

  method HashBlock(digest: array<Word>, block: seq<Byte>)
    requires digest.Length == 8 && |block| == 64
    modifies digest
    ensures digest[..] == Compress(old(digest[..]), block)
  {
    hide AddConstants, SmallSigma0, SmallSigma1, BigSigma0, BigSigma1, Ch, Maj, BigEndian, Schedule, Rounds, Added;
    var w := Expand(block);
    var v := RunRounds(Unpack(digest[..]), w);
    AddInto(digest, v);
  }

  lemma NextWord(block: seq<Byte>, w: seq<Word>, i: nat)
    requires |block| == 64 && i < 64 && w == Schedule(block, i)
    ensures Schedule(block, i + 1) == w +
      (if i < 16 then [BigEndian(block[i * 4], block[i * 4 + 1], block[i * 4 + 2], block[i * 4 + 3])]
       else [(SmallSigma1(w[i - 2]) + w[i - 7] + SmallSigma0(w[i - 15]) + w[i - 16]) % WORD])
  {
    hide SmallSigma0, SmallSigma1, BigEndian;
  }

  lemma NoWords(block: seq<Byte>)
    requires |block| == 64
    ensures Schedule(block, 0) == []
  {
  }

  method Expand(block: seq<Byte>) returns (w: array<Word>)
    requires |block| == 64
    ensures fresh(w) && w[..] == Schedule(block, 64)
  {
    hide SmallSigma0, SmallSigma1, BigEndian, Schedule;
    w := new Word[64](_ => 0);
    var i := 0;
    NoWords(block);
    while i < 16
      invariant i <= 16 && w[..i] == Schedule(block, i)
    {
      NextWord(block, w[..i], i);
      w[i] := BigEndian(block[i * 4], block[i * 4 + 1], block[i * 4 + 2], block[i * 4 + 3]);
      assert w[..i + 1] == w[..i] + [w[i]];
      i := i + 1;
    }
    while i < 64
      invariant 16 <= i <= 64 && w[..i] == Schedule(block, i)
    {
      NextWord(block, w[..i], i);
      w[i] := (SmallSigma1(w[i - 2]) + w[i - 7] + SmallSigma0(w[i - 15]) + w[i - 16]) % WORD;
      assert w[..i + 1] == w[..i] + [w[i]];
      i := i + 1;
    }
    assert w[..] == w[..64];
  }

  method RunRounds(start: Working, w: array<Word>) returns (v: Working)
    requires w.Length == 64
    ensures v == Rounds(start, AddConstants(), w[..], 64)
  {
    hide AddConstants, BigSigma0, BigSigma1, Ch, Maj;
    v := start;
    var k := AddConstants();
    var i := 0;
    while i < 64
      invariant i <= 64 && v == Rounds(start, k, w[..], i)
    {
      var t1 := v.h + BigSigma1(v.e) + Ch(v.e, v.f, v.g) + k[i] + w[i];
      var t2 := BigSigma0(v.a) + Maj(v.a, v.b, v.c);
      v := v.(h := v.g, g := v.f, f := v.e, e := (v.d + t1) % WORD,
              d := v.c, c := v.b, b := v.a, a := (t1 + t2) % WORD);
      i := i + 1;
    }
  }

  method AddInto(digest: array<Word>, v: Working)
    requires digest.Length == 8
    modifies digest
    ensures digest[..] == Added(old(digest[..]), v)
  {
    digest[0] := (digest[0] + v.a) % WORD;
    digest[1] := (digest[1] + v.b) % WORD;
    digest[2] := (digest[2] + v.c) % WORD;
    digest[3] := (digest[3] + v.d) % WORD;
    digest[4] := (digest[4] + v.e) % WORD;
    digest[5] := (digest[5] + v.f) % WORD;
    digest[6] := (digest[6] + v.g) % WORD;
    digest[7] := (digest[7] + v.h) % WORD;
  }
}
