/** Where the constants of SHA-256 come from: the cube and square roots of the first primes. */
module Sha256Constants {
  import opened Bits
  import opened ModularInverse
  import opened PrimeField
  import opened Sha256

  /* ---- the first primes ---- */

  // Divisible by a small prime only if it is that prime.
  predicate Sieved(n: nat) {
    && n >= 2 && (n % 2 != 0 || n == 2) && (n % 3 != 0 || n == 3) && (n % 5 != 0 || n == 5) && (n % 7 != 0 || n == 7)
    && (n % 11 != 0 || n == 11) && (n % 13 != 0 || n == 13) && (n % 17 != 0 || n == 17)
  }

  // Two factors of a number below 19^2 are not both above 18, and up to 18 every number has a small prime factor.
  lemma SmallFactor(m: nat) returns (p: nat)
    requires 2 <= m <= 18
    ensures p in {2, 3, 5, 7, 11, 13, 17} && p <= m && m % p == 0
  {
    p := if m % 2 == 0 then 2 else if m % 3 == 0 then 3 else m;
  }

  lemma SievedIsPrime(n: nat)
    requires n < 361
    ensures Sieved(n) <==> IsPrime(n)
  {
    if Sieved(n) {
      forall d: int | d > 0 && Divides(d, n)
        ensures d == 1 || d == n
      {
        var q: int :| n == q * d;
        FactorIsTrivial(n, d, q);
      }
    }
    if IsPrime(n) {
      PassesPrime(n, 2);
      PassesPrime(n, 3);
      PassesPrime(n, 5);
      PassesPrime(n, 7);
      PassesPrime(n, 11);
      PassesPrime(n, 13);
      PassesPrime(n, 17);
    }
  }

  lemma PassesPrime(n: nat, p: nat)
    requires IsPrime(n) && p > 1
    ensures n % p != 0 || n == p
  {
    if n % p == 0 {
      DivFacts(n, p);
      assert n == n / p * p;
      assert Divides(p, n);
    }
  }

  lemma FactorIsTrivial(n: nat, d: int, q: int)
    requires Sieved(n) && n < 361 && d > 0 && n == q * d
    ensures d == 1 || d == n
  {
    hide Sieved;
    if q <= 0 {
      MulMono(q, 0, d);
      assert n >= 2 by {
        AtLeastTwo(n);
      }
    } else if d > 1 && q > 1 {
      if d >= 19 && q >= 19 {
        MulMono(19, q, d);
      }
      Commute(q, d);
      NoFactor(n, if d < 19 then d else q, if d < 19 then q else d);
    }
  }

  lemma AtLeastTwo(n: nat)
    requires Sieved(n)
    ensures n >= 2
  {
  }

  lemma NoFactor(n: nat, m: nat, q: nat)
    requires 2 <= m <= 18 && q > 1 && n == m * q
    ensures !Sieved(n)
  {
    var p := SmallFactor(m);
    var k := m / p;
    DivFacts(m, p);
    assert m * q == k * q * p by {
      Commute(k, p);
      Regroup(p, k, q);
      Commute(p, k * q);
    }
    DivUnique(n, p, k * q, 0);
    MulMono(2, q, m);
    Commute(q, m);
  }

  function SievedBelow(n: nat): nat {
    if n == 0 then 0 else SievedBelow(n - 1) + (if Sieved(n - 1) then 1 else 0)
  }

  ghost function PrimesBelow(n: nat): set<nat> {
    set p: nat | p < n && IsPrime(p)
  }

  // The prime with i primes below it.
  ghost predicate IsPrimeNumber(p: nat, i: nat) {
    IsPrime(p) && |PrimesBelow(p)| == i
  }

  lemma {:induction false} SievedCount(n: nat)
    requires n <= 361
    ensures |PrimesBelow(n)| == SievedBelow(n)
  {
    hide IsPrime, Sieved;
    if n > 0 {
      var k: nat := n - 1;
      SievedCount(k);
      SievedIsPrime(k);
      assert PrimesBelow(n) == PrimesBelow(k) + (if IsPrime(k) then {k} else {});
    } else {
      assert PrimesBelow(0) == {};
    }
  }

  // Number i of the sieved numbers.
  predicate Number(p: nat, i: nat) {
    p < 361 && Sieved(p) && SievedBelow(p) == i
  }

  lemma PrimeNumber(p: nat, i: nat)
    requires Number(p, i)
    ensures IsPrimeNumber(p, i)
  {
    hide IsPrime, Sieved, SievedBelow;
    SievedCount(p);
    SievedIsPrime(p);
  }

  predicate NoneFrom(n: nat, q: nat)
    decreases q - n
  {
    n < q ==> !Sieved(n) && NoneFrom(n + 1, q)
  }

  lemma {:induction false} CountStays(n: nat, q: nat)
    requires n <= q && NoneFrom(n, q)
    ensures SievedBelow(q) == SievedBelow(n)
    decreases q - n
  {
    hide Sieved;
    if n < q {
      CountStays(n + 1, q);
    }
  }

  // The primes by rows of eight.
  function PrimeRow(row: nat): (p: seq<nat>)
    requires row < 8
    ensures |p| == 8
  {
    match row
    case 0 => [2, 3, 5, 7, 11, 13, 17, 19]
    case 1 => [23, 29, 31, 37, 41, 43, 47, 53]
    case 2 => [59, 61, 67, 71, 73, 79, 83, 89]
    case 3 => [97, 101, 103, 107, 109, 113, 127, 131]
    case 4 => [137, 139, 149, 151, 157, 163, 167, 173]
    case 5 => [179, 181, 191, 193, 197, 199, 211, 223]
    case 6 => [227, 229, 233, 239, 241, 251, 257, 263]
    case _ => [269, 271, 277, 281, 283, 293, 307, 311]
  }

  // q is the next sieved number after p.
  predicate Follows(p: nat, q: nat) {
    p < q < 361 && Sieved(q) && NoneFrom(p + 1, q)
  }

  lemma Step(p: nat, q: nat, i: nat)
    requires Number(p, i) && Follows(p, q)
    ensures Number(q, i + 1)
  {
    hide Sieved;
    CountStays(p + 1, q);
  }

  // A row whose first number is right goes on by the next ones.
  lemma RowOfPrimes(p: seq<nat>, i: nat)
    requires |p| == 8 && Number(p[0], i)
    requires Follows(p[0], p[1]) && Follows(p[1], p[2]) && Follows(p[2], p[3]) && Follows(p[3], p[4])
    requires Follows(p[4], p[5]) && Follows(p[5], p[6]) && Follows(p[6], p[7])
    ensures forall j :: 0 <= j < 8 ==> Number(p[j], i + j)
  {
    hide Number, Follows;
    Step(p[0], p[1], i);
    Step(p[1], p[2], i + 1);
    Step(p[2], p[3], i + 2);
    Step(p[3], p[4], i + 3);
    Step(p[4], p[5], i + 4);
    Step(p[5], p[6], i + 5);
    Step(p[6], p[7], i + 6);
  }

  lemma Gaps0()
    ensures Follows(2, 3) && Follows(3, 5) && Follows(5, 7) && Follows(7, 11)
    ensures Follows(11, 13) && Follows(13, 17) && Follows(17, 19) && Follows(19, 23)
  {
  }

  lemma Gaps1()
    ensures Follows(23, 29) && Follows(29, 31) && Follows(31, 37) && Follows(37, 41)
    ensures Follows(41, 43) && Follows(43, 47) && Follows(47, 53) && Follows(53, 59)
  {
  }

  lemma Gaps2()
    ensures Follows(59, 61) && Follows(61, 67) && Follows(67, 71) && Follows(71, 73)
    ensures Follows(73, 79) && Follows(79, 83) && Follows(83, 89) && Follows(89, 97)
  {
  }

  lemma Gaps3()
    ensures Follows(97, 101) && Follows(101, 103) && Follows(103, 107) && Follows(107, 109)
    ensures Follows(109, 113) && Follows(113, 127) && Follows(127, 131) && Follows(131, 137)
  {
  }

  lemma Gaps4()
    ensures Follows(137, 139) && Follows(139, 149) && Follows(149, 151) && Follows(151, 157)
    ensures Follows(157, 163) && Follows(163, 167) && Follows(167, 173) && Follows(173, 179)
  {
  }

  lemma Gaps5()
    ensures Follows(179, 181) && Follows(181, 191) && Follows(191, 193) && Follows(193, 197)
    ensures Follows(197, 199) && Follows(199, 211) && Follows(211, 223) && Follows(223, 227)
  {
  }

  lemma Gaps6()
    ensures Follows(227, 229) && Follows(229, 233) && Follows(233, 239) && Follows(239, 241)
    ensures Follows(241, 251) && Follows(251, 257) && Follows(257, 263) && Follows(263, 269)
  {
  }

  lemma Gaps7()
    ensures Follows(269, 271) && Follows(271, 277) && Follows(277, 281) && Follows(281, 283)
    ensures Follows(283, 293) && Follows(293, 307) && Follows(307, 311)
  {
  }

  // Every number of the rows follows the one before it.
  lemma RowGaps(row: nat)
    requires row < 8
    ensures var p := PrimeRow(row);
      && Follows(p[0], p[1]) && Follows(p[1], p[2]) && Follows(p[2], p[3]) && Follows(p[3], p[4])
      && Follows(p[4], p[5]) && Follows(p[5], p[6]) && Follows(p[6], p[7])
      && (row < 7 ==> Follows(p[7], PrimeRow(row + 1)[0]))
  {
    hide Follows;
    match row
    case 0 => Gaps0();
    case 1 => Gaps1();
    case 2 => Gaps2();
    case 3 => Gaps3();
    case 4 => Gaps4();
    case 5 => Gaps5();
    case 6 => Gaps6();
    case _ => Gaps7();
  }

  // Number j of the row is number 8 row + j of all primes.
  lemma {:induction false} RowNumbers(row: nat)
    requires row < 8
    ensures forall j :: 0 <= j < 8 ==> Number(PrimeRow(row)[j], 8 * row + j)
  {
    hide Number, Follows, PrimeRow;
    if row == 0 {
      FirstNumber();
    } else {
      RowNumbers(row - 1);
      RowGaps(row - 1);
      Step(PrimeRow(row - 1)[7], PrimeRow(row)[0], 8 * row - 1);
    }
    RowGaps(row);
    RowOfPrimes(PrimeRow(row), 8 * row);
  }

  lemma FirstNumber()
    ensures Number(PrimeRow(0)[0], 0)
  {
    assert SievedBelow(1) == 0;
  }

  /* ---- roots ---- */

  function Cube(x: nat): nat {
    x * x * x
  }

  function Square(x: nat): nat {
    x * x
  }

  // With the integer part a, k holds the first 32 fraction bits of the cube root of p.
  predicate CubeRoot(a: nat, k: nat, p: nat) {
    Cube(a * WORD + k) <= p * Cube(WORD) < Cube(a * WORD + k + 1)
  }

  predicate SquareRoot(a: nat, k: nat, p: nat) {
    Square(a * WORD + k) <= p * Square(WORD) < Square(a * WORD + k + 1)
  }

  // The integer part of the cube root, up to 7^3.
  function CubePart(p: nat): nat {
    if p < 8 then 1 else if p < 27 then 2 else if p < 64 then 3 else if p < 125 then 4 else if p < 216 then 5 else 6
  }

  lemma Roots0()
    ensures CubeRoot(1, 0x428a2f98, 2) && CubeRoot(1, 0x71374491, 3) && CubeRoot(1, 0xb5c0fbcf, 5)
    ensures CubeRoot(1, 0xe9b5dba5, 7) && CubeRoot(2, 0x3956c25b, 11) && CubeRoot(2, 0x59f111f1, 13)
    ensures CubeRoot(2, 0x923f82a4, 17) && CubeRoot(2, 0xab1c5ed5, 19)
  {
  }

  lemma Roots1()
    ensures CubeRoot(2, 0xd807aa98, 23) && CubeRoot(3, 0x12835b01, 29) && CubeRoot(3, 0x243185be, 31)
    ensures CubeRoot(3, 0x550c7dc3, 37) && CubeRoot(3, 0x72be5d74, 41) && CubeRoot(3, 0x80deb1fe, 43)
    ensures CubeRoot(3, 0x9bdc06a7, 47) && CubeRoot(3, 0xc19bf174, 53)
  {
  }

  lemma Roots2()
    ensures CubeRoot(3, 0xe49b69c1, 59) && CubeRoot(3, 0xefbe4786, 61) && CubeRoot(4, 0x0fc19dc6, 67)
    ensures CubeRoot(4, 0x240ca1cc, 71) && CubeRoot(4, 0x2de92c6f, 73) && CubeRoot(4, 0x4a7484aa, 79)
    ensures CubeRoot(4, 0x5cb0a9dc, 83) && CubeRoot(4, 0x76f988da, 89)
  {
  }

  lemma Roots3()
    ensures CubeRoot(4, 0x983e5152, 97) && CubeRoot(4, 0xa831c66d, 101) && CubeRoot(4, 0xb00327c8, 103)
    ensures CubeRoot(4, 0xbf597fc7, 107) && CubeRoot(4, 0xc6e00bf3, 109) && CubeRoot(4, 0xd5a79147, 113)
    ensures CubeRoot(5, 0x06ca6351, 127) && CubeRoot(5, 0x14292967, 131)
  {
  }

  lemma Roots4()
    ensures CubeRoot(5, 0x27b70a85, 137) && CubeRoot(5, 0x2e1b2138, 139) && CubeRoot(5, 0x4d2c6dfc, 149)
    ensures CubeRoot(5, 0x53380d13, 151) && CubeRoot(5, 0x650a7354, 157) && CubeRoot(5, 0x766a0abb, 163)
    ensures CubeRoot(5, 0x81c2c92e, 167) && CubeRoot(5, 0x92722c85, 173)
  {
  }

  lemma Roots5()
    ensures CubeRoot(5, 0xa2bfe8a1, 179) && CubeRoot(5, 0xa81a664b, 181) && CubeRoot(5, 0xc24b8b70, 191)
    ensures CubeRoot(5, 0xc76c51a3, 193) && CubeRoot(5, 0xd192e819, 197) && CubeRoot(5, 0xd6990624, 199)
    ensures CubeRoot(5, 0xf40e3585, 211) && CubeRoot(6, 0x106aa070, 223)
  {
  }

  lemma Roots6()
    ensures CubeRoot(6, 0x19a4c116, 227) && CubeRoot(6, 0x1e376c08, 229) && CubeRoot(6, 0x2748774c, 233)
    ensures CubeRoot(6, 0x34b0bcb5, 239) && CubeRoot(6, 0x391c0cb3, 241) && CubeRoot(6, 0x4ed8aa4a, 251)
    ensures CubeRoot(6, 0x5b9cca4f, 257) && CubeRoot(6, 0x682e6ff3, 263)
  {
  }

  lemma Roots7()
    ensures CubeRoot(6, 0x748f82ee, 269) && CubeRoot(6, 0x78a5636f, 271) && CubeRoot(6, 0x84c87814, 277)
    ensures CubeRoot(6, 0x8cc70208, 281) && CubeRoot(6, 0x90befffa, 283) && CubeRoot(6, 0xa4506ceb, 293)
    ensures CubeRoot(6, 0xbef9a3f7, 307) && CubeRoot(6, 0xc67178f2, 311)
  {
  }

  lemma RowRoots(row: nat)
    requires row < 8
    ensures forall j :: 0 <= j < 8 ==> CubeRoot(CubePart(PrimeRow(row)[j]), ConstantRow(row)[j], PrimeRow(row)[j])
  {
    hide CubeRoot;
    match row
    case 0 => Roots0();
    case 1 => Roots1();
    case 2 => Roots2();
    case 3 => Roots3();
    case 4 => Roots4();
    case 5 => Roots5();
    case 6 => Roots6();
    case _ => Roots7();
  }

  lemma ConstantAt(i: nat)
    requires i < 64
    ensures AddConstants()[i] == ConstantRow(i / 8)[i % 8]
  {
    hide ConstantRow;
  }

  // Constant i is made of the first 32 fraction bits of the cube root of the prime with i primes below it.
  lemma AddConstantsAre(i: nat)
    requires i < 64
    ensures exists p: nat, a: nat :: IsPrimeNumber(p, i) && CubeRoot(a, AddConstants()[i], p)
  {
    hide CubeRoot, ConstantRow, PrimeRow, Number, IsPrimeNumber, AddConstants, CubePart;
    var row, j := i / 8, i % 8;
    var p := PrimeRow(row)[j];
    RowNumbers(row);
    RowRoots(row);
    PrimeNumber(p, 8 * row + j);
    ConstantAt(i);
    assert IsPrimeNumber(p, i) && CubeRoot(CubePart(p), AddConstants()[i], p);
  }

  lemma SquareRoots()
    ensures SquareRoot(1, 0x6a09e667, 2) && SquareRoot(1, 0xbb67ae85, 3) && SquareRoot(2, 0x3c6ef372, 5)
    ensures SquareRoot(2, 0xa54ff53a, 7) && SquareRoot(3, 0x510e527f, 11) && SquareRoot(3, 0x9b05688c, 13)
    ensures SquareRoot(4, 0x1f83d9ab, 17) && SquareRoot(4, 0x5be0cd19, 19)
  {
  }

  function SquarePart(p: nat): nat {
    if p < 4 then 1 else if p < 9 then 2 else if p < 16 then 3 else 4
  }

  // Word i of the initial digest comes from the square root of that prime.
  lemma InitialDigestIs(i: nat)
    requires i < 8
    ensures exists p: nat, a: nat :: IsPrimeNumber(p, i) && SquareRoot(a, InitialDigest()[i], p)
  {
    hide SquareRoot, Number, IsPrimeNumber;
    RowNumbers(0);
    SquareRoots();
    var p := PrimeRow(0)[i];
    PrimeNumber(p, i);
    assert IsPrimeNumber(p, i) && SquareRoot(SquarePart(p), InitialDigest()[i], p);
  }
}
