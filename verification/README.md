# Verified models of bryllite-core

This project models the parts of bryllite-core that rest on carries, loop invariants and interleavings, and proves
what they are for. One module stands for one source component; routines that change arrays or fields in place are
methods over arrays and classes, and each is proved against plain numbers, sequences or an abstract state.

* **P-256 arithmetic.** `Vli` and `VliMul` are the four-limb routines (the `__int128` branch of multiplication),
  read as numbers: the value of a limb array is the sum of `a[i] * 2^(64 i)`. `P256Field` is the reduction modulo
  the field prime, `ModularInverse` the binary extended Euclidean algorithm, `ModularProduct` the shift-and-subtract
  multiplication over eight limbs. `Congruence` and `Bits` hold the arithmetic they share.
* **Points.** `CurveAlgebra` and `AffineMeaning` are the polynomial identities behind the Jacobian and co-Z
  formulas, `P256Points` the formulas themselves. `Groups`, `PrimeField` and `CurveGroup` state what is taken about
  the curve: that affine chords and tangents form an abelian group, and that the moduli are prime.
  `ScalarMultiplication` is the ladder, `DoubleMultiplication` Shamir's trick. `Signatures` is ECDSA over any group of
  prime order, `Ecdsa` signing and verification over P-256, `IrregularRun` a signature that verification rejects.
* **P-384.** `P384Fold` is the fold loop of the secp384r1 reduction.
* **Text.** `Radix` and `Base58`; `BitGroups` (the generic regrouping of bits) and `BaseText` (base64 and base32);
  `FixedPoint` (decimal text to a scaled integer).
* **Consensus.** `BcpState` is one node of the block commit protocol as a value, `BcpServer` the server updated in
  place, `BcpNetwork` any number of nodes with messages arriving in any order, `BcpManager` the manager that
  delivers every broadcast on the spot, which is one of those orders. `BcpLaws` says when a node broadcasts what,
  `BcpElection` how proposals lead to elections, `BcpDelivery` what a broadcast on the spot consists of and leaves
  behind. `IntSets` holds the majority argument.
* **Streams and state.** `Sha256` and `Sha256Stream`, with `Sha256Laws` and `Sha256Constants` for what its functions
  and constants are; `ByteStream`, `Ledger`.

Where the code does not do what one would expect, the exact boundary is proved:

* the ladder is right for points whose abscissa is not 0 and scalars from 2 up other than n - 1 and n
  (`LadderCorrectExactly`);
* a zero nonce is signed with when it is the first one drawn and the memory of the abscissa is not zero
  (`ZeroNonceSigned`, with the input in `StaleSigned`);
* signing checks neither s nor the nonce 1, so pairs are produced that are not accepted (`SignedOverP256`), and
  verification also rejects when a turn of its double multiplication meets equal abscissas (`SignAndVerify`, with the
  condition on the scalars; `RegularityFails` is such a signature);
* the secp384r1 reduction leaves p itself standing (`PrimeNotReduced`);
* a fixed-point zero is refused outside a range of exponents (`AmountExactly`, `ZeroRefused`);
* counts that the byte stream does not check can break it (`ReadCommit`, `WriteCommit`);
* a credit can wrap (`WrapHappens`).

`dafny verify dfyconfig.toml` checks everything.

## Model

| member | source | states |
|---|---|---|
| `Vli.Clear` | bryllite-core/secp256r1.cpp:139-146 | the limbs of the window become zero, so its number is 0, and nothing else changes |
| `Vli.IsZero` | bryllite-core/secp256r1.cpp:149-160 | true exactly when the number is 0 |
| `Vli.TestBit` | bryllite-core/secp256r1.cpp:163-166 | nonzero exactly when that bit of the number is 1 |
| `Vli.NumDigits` | bryllite-core/secp256r1.cpp:169-179 | the number of limbs up to the highest one that is not zero |
| `Vli.NumBits` | bryllite-core/secp256r1.cpp:182-200 | the bit length of the number |
| `Vli.TopBits` | bryllite-core/secp256r1.cpp:182-200 | bit length of a number from the bit length of its highest limb |
| `Vli.Set` | bryllite-core/secp256r1.cpp:203-210 | the destination becomes the source, overlapping windows included when copying upwards is safe |
| `Vli.Cmp` | bryllite-core/secp256r1.cpp:213-228 | 1, 0 or -1 as the left number is greater than, equal to or less than the right one |
| `Vli.Lshift` | bryllite-core/secp256r1.cpp:231-243 | result and carry together are the number times 2^shift, also in place |
| `Vli.Rshift1` | bryllite-core/secp256r1.cpp:246-258 | the number is halved, rounding down |
| `Vli.Add` | bryllite-core/secp256r1.cpp:261-275 | result plus carry times 2^(64 n) is the sum, also when the result overlaps an operand |
| `Vli.Sub` | bryllite-core/secp256r1.cpp:278-292 | result minus borrow times 2^(64 n) is the difference, also when the result overlaps an operand |
| `Vli.ValInjective` | bryllite-core/secp256r1.cpp:213-228 | limb sequences of one length with one number are equal |
| `VliMul.Accumulate` | bryllite-core/secp256r1.cpp:310-312 | the r2 counter catches the overflow of the 128-bit accumulator: no part of the product is lost |
| `VliMul.AddColumn` | bryllite-core/secp256r1.cpp:307-313 | r2 and r01 hold the true sum of one column of the product |
| `VliMul.ColumnsAreProduct` | bryllite-core/secp256r1.cpp:297-320 | the weighted columns of two four-limb numbers add up to their product |
| `VliMul.Mult` | bryllite-core/secp256r1.cpp:297-320 | the eight result limbs are the exact product, for all inputs |
| `VliMul.Double` | bryllite-core/secp256r1.cpp:334-339 | the bit pushed out by doubling an off-diagonal term is counted in r2 |
| `VliMul.HalfIsWhole` | bryllite-core/secp256r1.cpp:323-349 | the doubled half of a column is the whole column of the square |
| `VliMul.Square` | bryllite-core/secp256r1.cpp:323-349 | the eight result limbs are the exact square, for all inputs |
| `VliMul.Emit` | bryllite-core/secp256r1.cpp:314-316 | the digit written and the accumulator carried on lose nothing |
| `P256Field.ModAdd` | bryllite-core/secp256r1.cpp:449-456 | the sum less the modulus once, when it reaches the modulus: the residue for reduced operands |
| `P256Field.ModSub` | bryllite-core/secp256r1.cpp:460-468 | the difference modulo the modulus, below it |
| `P256Field.NineTermsCongruent` | bryllite-core/secp256r1.cpp:474-553 | a 512-bit number differs from the signed sum of the nine permuted terms by a multiple of p |
| `P256Field.SumTerms` | bryllite-core/secp256r1.cpp:479-537 | result and signed carry together are the signed sum of the nine terms |
| `P256Field.Correct` | bryllite-core/secp256r1.cpp:539-552 | both correction loops end with a value below p that differs by a multiple of p |
| `P256Field.MmodFast` | bryllite-core/secp256r1.cpp:474-553 | for every 512-bit number the result is that number modulo p, below p |
| `P256Field.ModMultFast` | bryllite-core/secp256r1.cpp:558-563 | product modulo p, for any operands |
| `P256Field.ModSquareFast` | bryllite-core/secp256r1.cpp:566-571 | square modulo p, for any operand |
| `ModularInverse.Turn` | bryllite-core/secp256r1.cpp:595-662 | one turn of the loop keeps u x = a, v x = b (mod m), the divisors common to a and b, and at most one of a, b even, and lowers a + b |
| `ModularInverse.SubHalveMod` | bryllite-core/secp256r1.cpp:624-661 | u := (u - v)/2 modulo the odd modulus, although carries are discarded |
| `ModularInverse.EqualIsGcd` | bryllite-core/secp256r1.cpp:595-595 | when a and b meet, their value is the greatest common divisor |
| `ModularInverse.ModInv` | bryllite-core/secp256r1.cpp:577-665 | zero gives zero; any other x gives u < m with u x congruent to gcd(x, m); the loop ends |
| `ModularInverse.InverseWhenCoprime` | bryllite-core/secp256r1.cpp:577-665 | the result is the inverse when x and m have no common divisor |
| `ModularProduct.ShiftUp` | bryllite-core/secp256r1.cpp:1030-1043 | the modulus moved up to the top bit of the product stays inside eight limbs |
| `ModularProduct.WideSub` | bryllite-core/secp256r1.cpp:1053-1057 | the subtraction in two halves with a borrow between them is exact on 512 bits |
| `ModularProduct.WideHalve` | bryllite-core/secp256r1.cpp:1059-1062 | the two-half shift by one is exact on 512 bits |
| `ModularProduct.TurnStep` | bryllite-core/secp256r1.cpp:1048-1065 | each turn keeps product < 2 modMultiple and the residue of the product |
| `ModularProduct.GuardExact` | bryllite-core/secp256r1.cpp:1048-1048 | the loop guard holds exactly while the shifted modulus has not come back to the modulus |
| `ModularProduct.ModMult` | bryllite-core/secp256r1.cpp:1005-1067 | left times right modulo the modulus, whenever the modulus shifted up under the product stays inside eight limbs |
| `ModularProduct.RoomReduced` | bryllite-core/secp256r1.cpp:1026-1043 | it does when one factor is below the modulus |
| `ModularProduct.RoomLong` | bryllite-core/secp256r1.cpp:1026-1043 | it does for any two factors when the modulus is at least 2^255 |
| `P256Points.DoubleJacobian` | bryllite-core/secp256r1.cpp:680-726 | for any Z the output satisfies the doubling equations modulo p with Z3 = Y Z; Z zero is left alone |
| `CurveAlgebra.DoubleOnCurve` | bryllite-core/secp256r1.cpp:680-726 | doubling a point with Y^2 = X^3 - 3 X Z^4 + b Z^6 gives such a point |
| `P256Points.ApplyZ` | bryllite-core/secp256r1.cpp:729-737 | (x, y) becomes (x z^2, y z^3) modulo p |
| `CurveAlgebra.ScaledOnCurve` | bryllite-core/secp256r1.cpp:729-737 | rescaling stays on the curve |
| `P256Points.InitialDouble` | bryllite-core/secp256r1.cpp:740-759 | for any initial Z, or none, both points end over one Z, one the double of the other |
| `P256Points.XYcZAdd` | bryllite-core/secp256r1.cpp:765-786 | the first point rescaled by X2 - X1, the second replaced by the co-Z sum |
| `P256Points.XYcZAddC` | bryllite-core/secp256r1.cpp:792-823 | the co-Z sum and the co-Z difference |
| `CurveAlgebra.AddOnCurve` | bryllite-core/secp256r1.cpp:765-823 | the co-Z sum of two points of the curve over one Z lies on the curve over Z (X2 - X1) |
| `AffineMeaning.DoubleMeans` | bryllite-core/secp256r1.cpp:680-726 | the doubled coordinates stand for the affine tangent sum |
| `AffineMeaning.AddMeans` | bryllite-core/secp256r1.cpp:765-823 | the co-Z sum stands for the affine chord sum over Z (X2 - X1) |
| `AffineMeaning.ScaleMeans` | bryllite-core/secp256r1.cpp:729-737 | rescaled coordinates stand for the same affine point |
| `CurveGroup.JacobianDoubles` | bryllite-core/secp256r1.cpp:680-726 | relative to the group law, doubled coordinates stand for q + q |
| `CurveGroup.CoZAdds` | bryllite-core/secp256r1.cpp:765-786 | relative to the group law, co-Z addition stands for q + r |
| `CurveGroup.CoZCarries` | bryllite-core/secp256r1.cpp:765-786 | and the first point, rescaled, still stands for q |
| `CurveGroup.CoZSubtracts` | bryllite-core/secp256r1.cpp:792-823 | relative to the group law, the co-Z difference stands for q - r |
| `ScalarMultiplication.Rung` | bryllite-core/secp256r1.cpp:839-847 | what j p, (j + 1) p and (2 j + 1) p are to one another, and that their abscissas differ where the formulas need it, for every j up to n - 2 unless (2 j + 1) p is infinity |
| `ScalarMultiplication.LadderStep` | bryllite-core/secp256r1.cpp:839-844 | (j p, (j + 1) p) becomes (k p, (k + 1) p) with k = 2 j + bit: the difference stays p |
| `ScalarMultiplication.Ladder` | bryllite-core/secp256r1.cpp:837-844 | the bits of the scalar above bit 0 bring the pair to half the scalar |
| `ScalarMultiplication.ComputeZ` | bryllite-core/secp256r1.cpp:849-856 | the inverse of the last Z, recovered from the point itself; zero when the abscissa is |
| `ScalarMultiplication.LastStep` | bryllite-core/secp256r1.cpp:846-860 | the last rung in affine coordinates, or zeros |
| `ScalarMultiplication.EccMult` | bryllite-core/secp256r1.cpp:825-864 | for every scalar below 2 n - 2, so for every 256-bit scalar over P-256: zeros for n - 1, n and a point with abscissa 0, (s + 2) P for 0 and 1, otherwise the multiple |
| `ScalarMultiplication.LadderCorrectExactly` | bryllite-core/secp256r1.cpp:825-864 | the result is s P if and only if 2 <= s, s is neither n - 1 nor n and the abscissa of P is not 0 |
| `DoubleMultiplication.PartialStep` | bryllite-core/secp256r1.cpp:1187-1202 | one position: twice the partial sum plus the table entry for the two bits |
| `DoubleMultiplication.PartialEnds` | bryllite-core/secp256r1.cpp:1178-1184 | the top position starts from the table entry, position 0 is u1 G + u2 Q, for every pair not both zero |
| `DoubleMultiplication.SumPoint` | bryllite-core/secp256r1.cpp:1166-1174 | the table entry G + Q in affine coordinates, and zeros for equal abscissas |
| `DoubleMultiplication.DoubleStep` | bryllite-core/secp256r1.cpp:1189-1189 | doubling, and that a vertical tangent leaves Z zero |
| `DoubleMultiplication.AddEntry` | bryllite-core/secp256r1.cpp:1193-1201 | addition of the table entry, and that equal abscissas leave Z zero |
| `DoubleMultiplication.AllPositions` | bryllite-core/secp256r1.cpp:1187-1202 | the coordinates stand for the partial sum as long as every turn was regular; afterwards Z is zero for good |
| `DoubleMultiplication.ShamirSum` | bryllite-core/secp256r1.cpp:1176-1206 | u1 G + u2 Q when every turn is regular, zeros otherwise, for every pair not both zero; G and Q have different abscissas or the scalars share no set bit |
| `DoubleMultiplication.SameAbscissaByScalars` | bryllite-core/secp256r1.cpp:1198-1198 | a G and c G have one abscissa exactly when n divides a - c or a + c |
| `DoubleMultiplication.RegularByScalars` | bryllite-core/secp256r1.cpp:1187-1202 | for Q = d G the run is regular exactly when at every position the prefix a = u1' + u2' d and the entry t = b1 + b2 d satisfy: n divides neither a nor, when a bit is set, t, 2 a - t or 2 a + t |
| `Ecdsa.BasePointOnCurve` | bryllite-core/secp256r1.cpp:55-57 | the base point constants satisfy the curve equation modulo p |
| `Ecdsa.NonceTurn` | bryllite-core/secp256r1.cpp:1094-1111 | one turn with a drawn nonce: the nonce is reduced and the abscissa buffer takes x(k G) modulo the order; a zero nonce leaves the buffer as it is |
| `Ecdsa.Sign` | bryllite-core/secp256r1.cpp:1080-1125 | the loop over at most 16 draws ends with the first turn that leaves the abscissa buffer nonzero, the unset memory before the first turn included, and fails when none does; r is the buffer and s k = e + r d for every 256-bit hash, s = 0 when the nonce is 0 or n |
| `Ecdsa.ZeroNonceSigned` | bryllite-core/secp256r1.cpp:1088-1112 | a zero nonce is signed with exactly when it is drawn first and the memory of the abscissa was not zero; otherwise another nonce is drawn |
| `Ecdsa.SixteenTries` | bryllite-core/secp256r1.cpp:1088-1093 | the first nonzero abscissa is used if and only if it comes with one of the first sixteen nonces |
| `Ecdsa.StaleSigned` | bryllite-core/secp256r1.cpp:1094-1124 | memory holding 1 and a first draw of 0: signing succeeds with (1, 0), which no key verifies |
| `Ecdsa.SignedIsSignature` | bryllite-core/secp256r1.cpp:1080-1125 | what is signed with a reduced nonce k is an ECDSA signature if and only if k is neither 0 nor 1 |
| `Ecdsa.Verify` | bryllite-core/secp256r1.cpp:1133-1215 | accepts exactly when 0 < r, s < n, the abscissa of u1 G + u2 Q is r modulo the order, and every turn of the combination is regular; the abscissa of Q is not that of G, or the entry G + Q is not used |
| `Signatures.ScalarsCombine` | bryllite-core/secp256r1.cpp:1160-1164 | u1 + u2 d = k modulo the order |
| `Signatures.VerificationPoint` | bryllite-core/secp256r1.cpp:1160-1206 | verification recomputes the point of the nonce |
| `Signatures.SignedIsAccepted` | bryllite-core/secp256r1.cpp:1080-1125 | a signature meets the acceptance equation of verification under the matching public key if and only if its s is not 0, hashes of n and above included |
| `Signatures.AcceptsOnly` | bryllite-core/secp256r1.cpp:1160-1214 | the inverse of s is unique, so the acceptance equation does not depend on it |
| `Ecdsa.SignedOverP256` | bryllite-core/secp256r1.cpp:1080-1215 | what is signed with a reduced nonce k over P-256, whatever k is, meets the acceptance equation under the matching key if and only if s is not 0 and k is not 1 |
| `Ecdsa.RegularRunByScalars` | bryllite-core/secp256r1.cpp:1187-1202 | whether verification meets equal abscissas for a key d G, as a condition on the scalars alone |
| `Ecdsa.SignAndVerify` | bryllite-core/secp256r1.cpp:1080-1215 | signing followed by verification under the key of the signer accepts exactly when signing succeeded, s is not 0, the nonce is not 1 and the scalars give a regular run |
| `IrregularRun.FourTimesBase` | bryllite-core/secp256r1.cpp:55-57 | the coordinates of 4 G, by two tangents with given slopes |
| `IrregularRun.RegularityFails` | bryllite-core/secp256r1.cpp:1187-1214 | private key 2, nonce 4 and a hash of twice the abscissa of 4 G: a signature that meets the acceptance equation and whose run is not regular |
| `P384Fold.PropagateBorrow` | tests/dev/ecc.c:635-646 | the borrow moves up within the buffer and is absorbed, as long as something stands above it |
| `P384Fold.OmegaMult` | tests/dev/ecc.c:623-648 | the product by 2^128 + 2^96 - 2^32 + 1, exactly |
| `P384Fold.Fold` | tests/dev/ecc.c:658-676 | one turn replaces c0 + 2^384 c1 by c0 + omega c1, exactly |
| `P384Fold.FoldStep` | tests/dev/ecc.c:657-677 | a turn keeps the residue modulo p and lowers the value while the high half is not zero |
| `P384Fold.ModFast384` | tests/dev/ecc.c:653-684 | terminates with the folded value, for every 768-bit number |
| `P384Fold.FoldedReduced` | tests/dev/ecc.c:653-684 | the result is at most p and congruent to the input; below p if and only if the input is 0 or no multiple of p |
| `P384Fold.PrimeNotReduced` | tests/dev/ecc.c:679-682 | the input p comes out as p: the comparison stops one short |
| `Base58.CharOf` | bryllite-core/base58.cpp:19-37 | digit to character; the digit table inverts it and the characters are no spaces |
| `Base58.CharOfDigit` | bryllite-core/base58.cpp:20-37 | character to digit and back, for every character of the alphabet |
| `Base58.AlphabetWritten` | bryllite-core/base58.cpp:20-20 | the 58 characters in the order of their digits |
| `Base58.AlphabetOrdered` | bryllite-core/base58.cpp:20-20 | which is the order of the characters |
| `Base58.AlphabetIs` | bryllite-core/base58.cpp:21-37 | a character has a digit exactly when it is a digit or a letter other than 0, I, O and l |
| `Base58.EncodeBufferFits` | bryllite-core/base58.cpp:98-98 | 256^n <= 58^(floor(138 n / 100) + 1) |
| `Base58.DecodeBufferFits` | bryllite-core/base58.cpp:52-52 | 58^m <= 256^(floor(733 m / 1000) + 1) |
| `Base58.MultiplyAdd` | bryllite-core/base58.cpp:58-68 | the number in the buffer becomes number * factor + digit; no carry is left, and digits above the used length stay zero |
| `Base58.EncodeBase58` | bryllite-core/base58.cpp:88-126 | one 1 for every leading zero byte, then the base 58 digits of the number without leading zeros |
| `Base58.DecodeWord` | bryllite-core/base58.cpp:51-79 | the number of the characters up to the first space, or failure at the first character outside the alphabet |
| `Base58.DecodeBase58` | bryllite-core/base58.cpp:39-86 | white space, ones, digits, white space; leading ones become zero bytes; anything else is refused |
| `Base58.DecodeBase58String` | bryllite-core/base58.cpp:133-136 | a std::string is read up to its first NUL |
| `Base58.DecodeAfterEncode` | bryllite-core/base58.cpp:39-126 | decode(encode(b)) = b for every byte string |
| `Base58.EncodeAfterDecode` | bryllite-core/base58.cpp:39-126 | encode(decode(s)) is s without surrounding white space, for every accepted s |
| `Base58.AcceptedExactly` | bryllite-core/base58.cpp:39-86 | accepted are exactly the texts that are alphabet characters once surrounding white space is removed |
| `Base58.AcceptedWritten` | bryllite-core/base58.cpp:40-86 | the same in characters: white space, alphabet characters, white space |
| `Base58.EncodingMeans` | bryllite-core/base58.cpp:88-127 | as many ones as zero bytes in front, then the number of the bytes in base 58 without a zero in front |
| `BitGroups.Window` | bryllite-core/utilstrencodings.hpp:160-165 | the masked accumulator holds every bit a group still needs |
| `BitGroups.MaskedStep` | bryllite-core/utilstrencodings.hpp:160-160 | masking commutes with taking in the next group |
| `BitGroups.EmitGroups` | bryllite-core/utilstrencodings.hpp:162-165 | emits the whole groups of the unbounded bit string |
| `BitGroups.TakeIn` | bryllite-core/utilstrencodings.hpp:155-167 | after the loop the output is the whole groups of the input bits and the accumulator their low bits |
| `BitGroups.ConvertBits` | bryllite-core/utilstrencodings.hpp:153-174 | the output is the regrouping of the whole bit string: filled with zero bits when padding, and otherwise refused unless the rest is shorter than an input group and zero |
| `BaseText.CharOfDigit` | bryllite-core/utilstrencodings.cpp:142-165 | the tables invert each other, up to the case of base32 letters |
| `BaseText.Base64Written` | bryllite-core/utilstrencodings.cpp:128-128 | the 64 characters in the order of their digits |
| `BaseText.Base32Written` | bryllite-core/utilstrencodings.cpp:197-197 | the 32 characters in the order of their digits |
| `BaseText.AlphabetsAre` | bryllite-core/utilstrencodings.cpp:142-165 | which characters have a digit, base32 letters in either case |
| `BaseText.Encode` | bryllite-core/utilstrencodings.cpp:126-135 | base64 and base32 text of any bytes (the base32 copy is at lines 195-204) |
| `BaseText.Decode` | bryllite-core/utilstrencodings.cpp:142-187 | the bytes of the characters before the first foreign one, and the validity flag (the base32 copy is at lines 211-256) |
| `BaseText.EncodedValue` | bryllite-core/utilstrencodings.cpp:126-135 | the digits carry the bytes and the filling, nothing else |
| `BaseText.EncodingShape` | bryllite-core/utilstrencodings.cpp:126-204 | four characters for every three bytes begun, eight for every five, the equals signs behind the characters that carry bits |
| `BaseText.DecodeAfterEncode` | bryllite-core/utilstrencodings.cpp:126-256 | the encoding of any bytes is valid and decodes to them |
| `BaseText.EncodeAfterDecode` | bryllite-core/utilstrencodings.cpp:126-256 | a valid text is the encoding of what it decodes to, up to the case of base32 letters |
| `BaseText.AcceptedExactly` | bryllite-core/utilstrencodings.cpp:142-256 | valid are exactly the texts the encoder can produce, up to the case of base32 letters |
| `BaseText.Base64Canonical` | bryllite-core/utilstrencodings.cpp:142-187 | for base64 there is no such freedom: a text is its own canonical form |
| `FixedPoint.ScanExactly` | bryllite-core/utilstrencodings.cpp:466-515 | the texts read are exactly the numbers of section 6 of RFC 8259, each in one way |
| `FixedPoint.ScanWritten` | bryllite-core/utilstrencodings.cpp:466-515 | the same with the characters of sign, point, marker and digits written out |
| `FixedPoint.ProcessMantissaDigit` | bryllite-core/utilstrencodings.cpp:439-453 | keeps value = mantissa * 10^zeros with the trailing zeros set aside; refuses exactly when 18 digits no longer hold it |
| `FixedPoint.MantissaDigits` | bryllite-core/utilstrencodings.cpp:474-480 | a run of digits appended to the mantissa, or a value that no number of dropped trailing zeros brings below 10^18 |
| `FixedPoint.ExponentDigits` | bryllite-core/utilstrencodings.cpp:505-511 | the exponent, refused exactly from 10^18 on |
| `FixedPoint.AmountIs` | bryllite-core/utilstrencodings.cpp:517-531 | the final test on exponent and mantissa is the test on value * 10^decimals |
| `FixedPoint.Scale` | bryllite-core/utilstrencodings.cpp:533-539 | multiplies by 10^exponent, or refuses exactly when the magnitude reaches 10^18 |
| `FixedPoint.TooLongExtends` | bryllite-core/utilstrencodings.cpp:439-453 | a mantissa once refused stays out of range whatever digits follow |
| `FixedPoint.ParseFixedPoint` | bryllite-core/utilstrencodings.cpp:455-545 | succeeds exactly on JSON numbers with Amount, and with that amount; mantissa and exponent are 64-bit variables, so no step overflows them |
| `FixedPoint.AmountExactly` | bryllite-core/utilstrencodings.cpp:517-531 | that is value * 10^decimals when it is an integer of magnitude below 10^18, except for zero outside 0 <= exponent + decimals < 18, and exactly then |
| `FixedPoint.AmountMeans` | bryllite-core/utilstrencodings.cpp:499-539 | for a number other than zero the amount is the integer below 10^18 that makes value * 10^decimals an equation on the digits of the text, divided by 10^E for a minus sign in the exponent and multiplied otherwise, negative for a minus sign in front |
| `FixedPoint.ZeroMeans` | bryllite-core/utilstrencodings.cpp:517-531 | for zero the same by the signed exponent |
| `FixedPoint.ZeroRefused` | bryllite-core/utilstrencodings.cpp:527-531 | the text 0e18 with no decimals is the integer 0 and is refused |
| `BcpServer.Server.constructor` | tests/dev/node-server-mono/bcp_server.cpp:4-6 | an idle server with empty boxes |
| `BcpServer.Server.Start` | tests/dev/node-server-mono/bcp_server.cpp:34-47 | waits for a round if the clock is synchronised; otherwise fails and stays idle |
| `BcpServer.Server.ClearIntermediateData` | tests/dev/node-server-mono/bcp_server.cpp:15-32 | all boxes and tallies are emptied, the block last verified is not |
| `BcpServer.Server.AppendNewRoundMessage` | tests/dev/node-server-mono/bcp_server.cpp:166-177 | the first announcement of a peer is counted, later ones are not |
| `BcpServer.Server.NewRoundStart` | tests/dev/node-server-mono/bcp_server.cpp:180-197 | the lowest round that every peer announced |
| `BcpServer.Server.AppendUserHeader` | tests/dev/node-server-mono/bcp_server.cpp:221-227 | the first header of an address stays |
| `BcpServer.Server.AppendProposedHeader` | tests/dev/node-server-mono/bcp_server.cpp:260-266 | the first proposal of a peer stays |
| `BcpServer.SelectLowest` | tests/dev/node-server-mono/bcp_server.cpp:230-292 | the header with the lowest hash, the first in key order among equals |
| `BcpServer.Server.VoteFor` | tests/dev/node-server-mono/bcp_server.cpp:295-311 | the first vote of a peer is recorded and counted; keeps the tally |
| `BcpServer.Server.GetElectedHeader` | tests/dev/node-server-mono/bcp_server.cpp:314-331 | the header with more than half of all votes, if any |
| `BcpServer.Server.AddVerifiedBlock` | tests/dev/node-server-mono/bcp_server.cpp:334-348 | accepted once per peer and only with the elected header |
| `BcpServer.Server.FindCommitBlock` | tests/dev/node-server-mono/bcp_server.cpp:350-361 | the last verified block once more than half of the peers sent one |
| `BcpServer.Server.ProcessWaiting` | tests/dev/node-server-mono/bcp_server.cpp:86-107 | announces a round once per block time, starts the round all announced |
| `BcpServer.Server.ProcessParticipation` | tests/dev/node-server-mono/bcp_server.cpp:108-116 | proposes the lowest user header after the timeout |
| `BcpServer.Server.ProcessPropose` | tests/dev/node-server-mono/bcp_server.cpp:117-125 | votes once, for the lowest proposed header, after the timeout |
| `BcpServer.Server.ProcessVote` | tests/dev/node-server-mono/bcp_server.cpp:126-143 | fails after the timeout; otherwise goes to commit when a header is elected |
| `BcpServer.Server.ProcessCommit` | tests/dev/node-server-mono/bcp_server.cpp:144-160 | fails at the next block time; otherwise commits the block found and clears |
| `BcpServer.Server.Process` | tests/dev/node-server-mono/bcp_server.cpp:78-163 | one call of process(): state and broadcast are those of the abstract step |
| `BcpServer.Server.OnPeerMessage` | tests/dev/node-server-mono/node_server.cpp:105-227 | one delivery: state and answer are those of the abstract step |
| `BcpState.QualifiedUnique` | tests/dev/node-server-mono/bcp_server.cpp:314-331 | at most one hash ever has more than half of the votes |
| `BcpState.ElectedByMajority` | tests/dev/node-server-mono/bcp_server.cpp:295-331 | a header is elected only with the recorded votes of a majority for its hash, and with one for itself |
| `BcpState.ElectionStays` | tests/dev/node-server-mono/bcp_server.cpp:295-311 | a further vote keeps the tally and what is elected |
| `BcpState.ReceivedKeepsTally` | tests/dev/node-server-mono/node_server.cpp:148-227 | whatever arrives, counts match the box, recorded headers match their hashes, verified blocks carry the elected header |
| `BcpState.ProcessedKeepsTally` | tests/dev/node-server-mono/bcp_server.cpp:78-163 | process() keeps the tally, and only a clear undoes an election |
| `BcpState.CommitHasQuorum` | tests/dev/node-server-mono/bcp_server.cpp:350-361 | the block found carries the elected header, and more than half of the peers reported a block with it |
| `BcpLaws.LowestMeans` | tests/dev/node-server-mono/bcp_server.cpp:230-292 | lowest is the entry with no lower hash, of equal hashes the one with the lowest key; there is one exactly when the box is not empty |
| `BcpLaws.ElectedMeans` | tests/dev/node-server-mono/bcp_server.cpp:314-331 | elected is the recorded header of the hash for which more than half of all peers are recorded |
| `BcpLaws.RoundsStayCounted` | tests/dev/node-server-mono/bcp_server.cpp:166-177 | the number kept for a round stays the number of peers that announced it |
| `BcpLaws.StartedMeans` | tests/dev/node-server-mono/bcp_server.cpp:180-197 | the round that starts is the one every peer announced |
| `BcpLaws.AnnouncesExactly` | tests/dev/node-server-mono/bcp_server.cpp:86-98 | a round is announced if and only if the node waits, the time for participating has not passed and the block time is a new one; it is the one after the height |
| `BcpLaws.ProposesExactly` | tests/dev/node-server-mono/bcp_server.cpp:108-116 | a header is proposed if and only if the time for participating is over and it is the lowest of the users |
| `BcpLaws.VotesExactly` | tests/dev/node-server-mono/bcp_server.cpp:117-125 | a header is voted for if and only if the time for proposing is over and it is the lowest proposal |
| `BcpLaws.AsksExactly` | tests/dev/node-server-mono/bcp_server.cpp:126-143 | a block is sent for verification if and only if it is the candidate and its header was elected in time |
| `BcpLaws.ConfirmsExactly` | tests/dev/node-server-mono/node_server.cpp:188-227 | a message is answered if and only if it is a valid block for verification whose header is elected, by confirming it |
| `BcpLaws.StepsExactly` | tests/dev/node-server-mono/bcp_server.cpp:78-163 | every change of step, with its exact condition |
| `BcpLaws.AppendsExactly` | tests/dev/node-server-mono/bcp_server.cpp:144-160 | a block is appended if and only if more than half of all peers confirmed one in time, and it is the last one |
| `BcpLaws.ClearsExactly` | tests/dev/node-server-mono/bcp_server.cpp:126-160 | when the boxes are emptied, and that they are otherwise left alone |
| `BcpLaws.ArrivesExactly` | tests/dev/node-server-mono/node_server.cpp:148-227 | a message enters the box of its kind, once per peer, and no other box |
| `BcpLaws.ChoicesKept` | tests/dev/node-server-mono/node_server.cpp:263-301 | what is proposed becomes the header of the candidate, what is voted for is remembered |
| `BcpLaws.TakesPart` | tests/dev/node-server-mono/node_server.cpp:237-261 | the own block becomes the candidate and joins the user headers when a round starts |
| `BcpNetwork.NextKeepsSound` | tests/dev/node-server-mono/node_server.cpp:148-344 | every step in any interleaving: boxes hold only what was broadcast, and every commit has both majorities behind it |
| `BcpNetwork.OneVoteUntilClear` | tests/dev/node-server-mono/node_server.cpp:285-301 | in any run in which nobody clears, each node broadcasts at most one vote |
| `BcpNetwork.OneVoteInRound` | tests/dev/node-server-mono/node_server.cpp:285-301 | so it is in any run in which no node votes again after it has cleared |
| `BcpNetwork.ElectedUntilClear` | tests/dev/node-server-mono/bcp_server.cpp:314-331 | an elected header stays elected at its node until that node clears |
| `BcpNetwork.ChosenUnique` | tests/dev/node-server-mono/bcp_server.cpp:314-331 | majorities for two hashes share a voter, so one vote per node leaves one hash |
| `BcpNetwork.ElectionAgreement` | tests/dev/node-server-mono/bcp_server.cpp:78-163 | any two elections at any nodes and any times of a run with one vote per node agree on the hash, and on the header unless voted headers collide |
| `BcpNetwork.CommitAgreement` | tests/dev/node-server-mono/node_server.cpp:317-329 | any two blocks appended anywhere in such a run carry the same header, which a majority verified |
| `BcpNetwork.ElectionsAgreeUntilClear` | tests/dev/node-server-mono/bcp_server.cpp:78-163 | in a run in which nobody clears, any two elections at any nodes and times agree |
| `BcpNetwork.RoundAgreement` | tests/dev/node-server-mono/bcp_server.cpp:78-163 | in a run in which no node votes again after it has cleared, any two elections and any two appended blocks agree, and a majority verified the block |
| `BcpNetwork.EndsAgree` | tests/dev/node-server-mono/bcp_server.cpp:314-331 | the same for the final state of a sequence of events |
| `BcpElection.VotesWereProposed` | tests/dev/node-server-mono/node_server.cpp:263-301 | in any run whatever is voted for was broadcast as a proposal |
| `BcpElection.VoteAlike` | tests/dev/node-server-mono/bcp_server.cpp:269-292 | nodes with equal proposals vote alike |
| `BcpElection.MajorityElects` | tests/dev/node-server-mono/bcp_server.cpp:314-331 | a hash with more than half of the votes is elected, and its header if no other voted header has that hash |
| `BcpElection.EqualProposalsElect` | tests/dev/node-server-mono/bcp_server.cpp:78-163 | when more than half of the peers vote over equal proposals, their lowest header is elected at every node that has their votes |
| `BcpManager.NodeManager.constructor` | tests/dev/node-server-mono/node_manager.cpp:10-22 | one server per peer, waiting or, without a synchronised clock, idle; nobody has voted |
| `BcpManager.NodeManager.DeliverTo` | tests/dev/node-server-mono/node_server.cpp:105-118 | one delivery to one node of many is one step of the network |
| `BcpDelivery.DeliveryEffect` | tests/dev/node-server-mono/node_server.cpp:148-227 | a delivery records the sender, loses no entry of any box, undoes no election, and is answered only for a valid block with the elected header |
| `BcpDelivery.VerifyDeliveriesReach` | tests/dev/node-server-mono/node_manager.cpp:68-82 | among the deliveries of a block and of its confirmations every node gets the block once, in ascending order |
| `BcpDelivery.SendingEnds` | tests/dev/node-server-mono/node_manager.cpp:68-82 | what a finished broadcast leaves in the boxes of all nodes, confirmations included |
| `BcpManager.NodeManager.SendAll` | tests/dev/node-server-mono/node_manager.cpp:68-82 | every node gets the message once, in ascending order, with only the deliveries of answers in between; afterwards the box for it holds the sender at every node; it is a run of the network, and every answer reaches everybody |
| `BcpManager.NodeManager.ProcessNode` | tests/dev/node-server-mono/node_server.cpp:45-62 | one call of process(), first of all, and what it broadcasts reaches every node once and in order; it is a run of the network |
| `BcpManager.NodeManager.MainTurn` | tests/dev/node-server-mono/node_manager.cpp:38-55 | one call of process() for every node, in order, with its own surroundings; it is a run of the network in which nothing broadcast stays undelivered |
| `Sha256.HashBlock` | bryllite-core/sha256.hpp:97-145 | the digest becomes the compression of the old digest and the block, section 6.2.2 of FIPS 180-4 |
| `Sha256.Expand` | bryllite-core/sha256.hpp:100-111 | the 64 words of the message schedule |
| `Sha256.RunRounds` | bryllite-core/sha256.hpp:113-131 | the working variables after 64 rounds |
| `Sha256Laws.BitOfXor` | bryllite-core/sha256.hpp:72-94 | a bit of an exclusive or is the sum of the bits modulo 2 |
| `Sha256Laws.BitOfRotr` | bryllite-core/sha256.hpp:78-81 | bit i of a rotation by n is bit (i + n) mod 32 |
| `Sha256Laws.BitOfShr` | bryllite-core/sha256.hpp:87-90 | bit i of a shift by n is bit i + n, or 0 |
| `Sha256Laws.BitOfCh` | bryllite-core/sha256.hpp:72-72 | bit by bit, y where x is set and z elsewhere |
| `Sha256Laws.BitOfMaj` | bryllite-core/sha256.hpp:74-76 | bit by bit, the value at least two arguments have |
| `Sha256Laws.BitOfBigSigmas` | bryllite-core/sha256.hpp:83-85 | bit by bit, the parity of three rotated bits |
| `Sha256Laws.BitOfSmallSigmas` | bryllite-core/sha256.hpp:92-94 | bit by bit, the parity of two rotated bits and a shifted one |
| `Sha256Constants.SievedIsPrime` | bryllite-core/sha256.hpp:55-66 | which numbers below 361 are prime |
| `Sha256Constants.AddConstantsAre` | bryllite-core/sha256.hpp:55-66 | constant i is the first 32 fraction bits of the cube root of the prime that has i primes below it |
| `Sha256Constants.InitialDigestIs` | bryllite-core/sha256.hpp:68-70 | and word i of the initial digest of its square root |
| `Sha256Laws.BytesOfWord` | bryllite-core/sha256.hpp:102-107 | four bytes make a word, the first worth 2^24, and the word gives them back |
| `Sha256Laws.WordOfBytes` | bryllite-core/sha256.hpp:231-238 | the four bytes of a word make the word |
| `Sha256Laws.BitOfByte` | bryllite-core/sha256.hpp:231-238 | byte i of a word has its bits from 24 - 8 i on |
| `Sha256Laws.ScheduleWords` | bryllite-core/sha256.hpp:100-111 | words 0 to 15 hold the bytes of the block, and every later one satisfies the recurrence over the whole schedule |
| `Sha256Laws.RoundsHistory` | bryllite-core/sha256.hpp:122-133 | after any number of rounds the eight variables are the last four values of a and of e |
| `Sha256Laws.RoundsRecurrence` | bryllite-core/sha256.hpp:122-133 | and these two sequences satisfy the recurrences of the rounds modulo 2^32 |
| `Sha256Laws.CompressMeans` | bryllite-core/sha256.hpp:113-145 | compression adds the last four values of each sequence to the digest modulo 2^32 |
| `Sha256Stream.AddToDataLength` | bryllite-core/sha256.hpp:241-254 | the four digits hold the byte count modulo 2^64 after any addition; no digit overflows its word |
| `Sha256Stream.BitLengthDigits` | bryllite-core/sha256.hpp:255-268 | eight times the length modulo 2^64 |
| `Sha256Stream.WriteDataBitLength` | bryllite-core/sha256.hpp:255-275 | the length in bits, most significant byte first, behind the first 56 bytes |
| `Sha256Stream.FoldConcat` | bryllite-core/sha256.hpp:199-208 | compressing in two goes is compressing the concatenation |
| `Sha256Laws.FoldOne` | bryllite-core/sha256.hpp:199-208 | no block changes nothing, one block is compressed: with concatenation this fixes the fold |
| `Sha256Stream.Hasher.constructor` | bryllite-core/sha256.hpp:189-196 | the initial digest, nothing buffered |
| `Sha256Stream.Hasher.Process` | bryllite-core/sha256.hpp:199-208 | the message grows by the data; whole blocks are compressed and fewer than 64 bytes are buffered |
| `Sha256Stream.Hasher.Finish` | bryllite-core/sha256.hpp:210-228 | the digest of the message padded as section 5.1.1 of FIPS 180-4 says |
| `Sha256Stream.PaddedWhole` | bryllite-core/sha256.hpp:210-227 | the last block, or two when the length does not fit, are the rest and its padding |
| `Sha256Laws.PaddingMeans` | bryllite-core/sha256.hpp:210-227 | the padding is 0x80, fewer than 64 zeros and eight bytes whose number is the length in bits modulo 2^64, up to whole blocks |
| `Sha256Laws.DigestWords` | bryllite-core/sha256.hpp:231-238 | the 32 bytes of output read back as the eight words of the digest |
| `Sha256Stream.Hasher.GetHashBytes` | bryllite-core/sha256.hpp:231-238 | the digest bytes, as many as there is room for |
| `Sha256Stream.HashRange` | bryllite-core/sha256.hpp:295-303 | the digest of the whole range |
| `Sha256Stream.HashStream` | bryllite-core/sha256.hpp:305-324 | the same digest through a buffer of any positive size |
| `Sha256Stream.HashChunks` | bryllite-core/sha256.hpp:199-228 | the same digest however the message is cut into pieces |
| `Sha256Stream.PaddingInjective` | bryllite-core/sha256.hpp:210-227 | messages below 2^61 bytes with one padded form are equal |
| `ByteStream.Stream.Resize` | tests/dev/p2p_server/byte_stream.cpp:63-97 | unread bytes move to the front of the new buffer, cut off only if it is shorter than they are |
| `ByteStream.Stream.Write` | tests/dev/p2p_server/byte_stream.cpp:130-141 | the bytes join the end of the queue; growth loses nothing unread |
| `ByteStream.Stream.Read` | tests/dev/p2p_server/byte_stream.cpp:144-155 | takes the whole queue when that is wanted, and otherwise as many bytes from the front as are |
| `ByteStream.Stream.ReadCommit` | tests/dev/p2p_server/byte_stream.cpp:158-170 | drops bytes from the front; a count above the queued length empties the stream when it passes the middle of the buffer, and breaks the stream exactly when it does not |
| `ByteStream.Stream.WriteCommit` | tests/dev/p2p_server/byte_stream.cpp:172-177 | the bytes behind the write position join the queue; a count past the end of the buffer breaks the stream, and no other does |
| `ByteStream.Stream.Prepare` | tests/dev/p2p_server/byte_stream.cpp:49-60 | an empty queue in a new buffer |
| `ByteStream.FirstInFirstOut` | tests/dev/p2p_server/byte_stream.cpp:130-155 | what was read followed by what is queued is what was written, for every sequence of operations |
| `ByteStream.Perform` | tests/dev/p2p_server/byte_stream.cpp:130-177 | a stream running any sequence of writes and reads behaves as the queue |
| `Ledger.BlockChain.Settle` | tests/dev/bcp_mono/block_chain.cpp:82-113 | one transaction: debit if the balance allows, credit in a 64-bit word, void otherwise |
| `Ledger.BlockChain.BuildBalanceFor` | tests/dev/bcp_mono/block_chain.cpp:78-117 | the transactions of a block in order |
| `Ledger.BlockChain.AppendBlock` | tests/dev/bcp_mono/block_chain.cpp:18-37 | appended once per index; balances in step with the chain stay so when indices ascend |
| `Ledger.BlockChain.RebuildBalance` | tests/dev/bcp_mono/block_chain.cpp:63-76 | settles all blocks in index order on top of the balances there are; over no balances this is the incremental result |
| `Ledger.SettledTotal` | tests/dev/bcp_mono/block_chain.cpp:82-113 | one transaction moves, mints or burns its value; a credit that wraps loses 2^64 |
| `Ledger.SettledExactly` | tests/dev/bcp_mono/block_chain.cpp:82-113 | the balance of every account after a transaction, with the condition for carrying it out |
| `Ledger.PaymentExactly` | tests/dev/bcp_mono/block_chain.cpp:82-113 | a payment is carried out if and only if the sender has the value, and moves just that |
| `Ledger.MintAndBurn` | tests/dev/bcp_mono/block_chain.cpp:82-113 | which transactions create and destroy value |
| `Ledger.Conservation` | tests/dev/bcp_mono/block_chain.cpp:78-117 | over any transactions the total changes by minted less burned less 2^64 per wrapped credit; none wraps while the sum fits 64 bits |
| `Ledger.ConservedExactly` | tests/dev/bcp_mono/block_chain.cpp:78-117 | the total is minted less burned if and only if no credit wrapped, and none does while the minted value fits 64 bits |
| `Ledger.BlocksConserve` | tests/dev/bcp_mono/block_chain.cpp:63-117 | the same over the blocks of a chain, from any balances |
| `Ledger.ChainConserves` | tests/dev/bcp_mono/block_chain.cpp:63-117 | the balances of a synchronised chain add up to what its blocks minted less what they burned if and only if no credit wrapped |
| `Ledger.WrapHappens` | tests/dev/bcp_mono/block_chain.cpp:104-107 | two coins of 2^63 for one account: the second credit wraps to zero |
| `Ledger.OrderedAppend` | tests/dev/bcp_mono/block_chain.cpp:67-73 | a block with a higher index than all others is settled last |
| `Ledger.OnlyPartiesChange` | tests/dev/bcp_mono/block_chain.cpp:82-113 | a transaction leaves the balances of all other accounts alone |

## Left out

- The portable (non-`__int128`) `vli_mult` and `vli_square`, which lose an overflow the other branch counts.
- `P256Field.ModAdd`: stated as one conditional subtraction, which is the residue when both operands are reduced; with one unreduced operand the code does no more.
- `DoubleMultiplication.ShamirSum`: asks that G and Q have different abscissas or that no position has the bits of both scalars set. For Q = G or Q = -G the table entry for G + Q is (0, 0), which is no point of the curve; what adding it gives is not described.
- `Ecdsa.Verify`: asks that the public key is on the curve, and that it is neither G nor -G or that the entry for G + Q is not used, for the same reason.
- `ScalarMultiplication.EccMult`: asks for a point of odd order n above 4, a scalar below 2 n - 2 and an initial Z, if any, that is not a multiple of p.
- `Ecdsa.Sign`: the random numbers are a sequence of draws, which may end early as the generator may fail; what the memory of the abscissa holds on entry is a parameter, the buffer r.
- Primality of the two moduli, associativity of the curve addition and the order of the base point are hypotheses (`IsP256Group`, `IsCurveGroup`), not theorems.
- The `|` of bit fields that do not overlap is written as a sum; C pointers into a buffer are an array with an offset.
- Byte order conversion of points and scalars, point decompression and the modular square root, key generation, shared secrets: outside the arithmetic proved here.
- The `int` width of lengths: buffer sizes and positions are taken to fit their C types, except where a bound is written in a contract.
- `BaseText.Encode`: one member for the base64 and the base32 copy of the routine, parameterised by the alphabet; likewise `BaseText.Decode`.
- `Base58.DecodeBase58`: characters are those of an unsigned char, and white space that of the C locale.
- `encode_base58_check` and `decode_base58_check` use hex helpers that are not part of this model.
- `BcpNetwork.ElectionAgreement`: for runs in which each node broadcasts one vote, which includes every run in which no node votes again after a clear (`RoundAgreement`); votes carry no round, so after a clear a late vote can enter a box and no agreement across rounds is claimed.
- `BcpServer.Server.OnPeerMessage`: block requests and their answers are left out. No part of the program sends a request, and an answer goes to the chain without touching the state of the protocol.
- `BcpServer.Server.Process`: callbacks return what they broadcast, and the step is set before delivery instead of after; delivery does not look at the step. Creating and signing a block, the height of the chain, the address of the node and the clock are parameters, and so is whether a block verifies. Appending to the chain is recorded as a list.
- Block headers compare as whole values and carry their hash, so hash collisions are possible in the model; the header class is not part of this model.
- `Sha256.HashBlock`: words are numbers below 2^32; the masks of the original, which keep 64-bit words in that range, are remainders.
- `Sha256Stream.Hasher.Process`: a single piece may not exceed 2^64 - 65536 bytes, so that its length fits a 64-bit word.
- The typed operators of the byte stream.
- `ByteStream.Stream.Write`: sizes do not reach 2^64.
- `Ledger`: locks and the lookup of a block by index are left out.
- Threads, timers, sockets, logging, key files and the database: input and output, not logic.
