# Proofs about the Aergo C client

Dafny models of the algorithms that the C client relies on, with proofs that they compute what they are for.
`dafny verify dfyconfig.toml` checks all of it.

- **Multi-precision integers** (`Arith`, `Limbs`, `MpiCore`, `Shift`, `AddSub`, `WordMul`, `Mul`, `WordDiv`,
  `LongDivision`, `Modulo`, `Montgomery`, `ExpMod`, `Gcd`, `InvMod`, `Binary`, `RadixText`). An `Mpi` is an object
  with a sign and limbs, and a ghost value. The limb base is symbolic: half a limb has 16 or 32 bits, and every
  statement holds for both. Machine arithmetic wraps explicitly. Results are stated on values, with the aliasing the
  callers use.
- **Base58Check addresses** (`Digits`, `Bytes`, `Sequences`, `Base58`, `Base58Encode`, `Account`). The two in-place
  base conversions, the checksum over any hash function, and the encoding of 33-byte keys.
- **Protocol Buffers** (`Bits`, `Wire`, `Schema`, `RoundTrip`, `Tolerance`, `InputStream`, `PbDecode`, `PbEncode`,
  `WireFormat`). A grammar of messages over any schema, its laws, and the stream-based decoder and two-pass encoder
  that refine it; `WireFormat` gives the bytes in numbers. The format is that of the Protocol Buffers encoding document
  ("Base 128 Varints", "Message Structure", "Length-Delimited Records").
- **Requests** (`Protocol`, `Requests`, `Reassembly`). The commit, receipt, retry and release state machine as steps
  with an invariant over all runs; the linked list and handlers that refine it step by step; and the reassembly of
  length-prefixed frames from chunks.
- **Ledger packets and amounts** (`Ledger`, `Amounts`). Packet splitting and joining, and the fixed-point text of
  token amounts.

What comes from outside is a parameter: the hash function, the outcome of each request, what the transport does with a
new request, and the chunks it delivers.

## Where the code and its documentation differ

The models follow the code.

- `mbedtls_mpi_gcd` returns 0 for gcd(A, 0) (`BinaryGcd.GcdMpi` says exactly when the result is the divisor).
- `mbedtls_mpi_exp_mod` returns N instead of 0 for a negative base and an odd exponent when N divides the power
  (`ExpMod.NegatedResult`, `ExpMod.NegativeWitness`).
- `mbedtls_mpi_div_mpi` reads the sign of A and B after Q has been overwritten, and copies a short A to R after Q has
  been zeroed (`LongDivision.QuotientExact`, `LongDivision.RemainderExact`, `LongDivision.AliasWitness`).
- `mbedtls_mpi_mod_int` drops bits for divisors above half a limb that do not divide the limb base
  (`Modulo.ModIntExact` is an equivalence with a two-limb witness for every other divisor).
- `mbedtls_mpi_mod_mpi` with R and B the same positive object does not end when the first remainder is not negative,
  and otherwise doubles R until the limit on the limbs refuses it (`Modulo.SameObjectTurns`,
  `Modulo.SameObjectRefused`).
- `b58enc` sizes its digit array with 138/100 and indexes below it for some short inputs
  (`Base58Encode.RoomExact`, `Base58Encode.RoomShort`).
- `decode_address` reads past its buffer for some texts with leading `1` characters (`Account.OverrunNeedsOne`,
  `Account.OverrunWitness`).
- `bignum_to_string` puts the point in the wrong place from 10^32 on, and cuts the text in a buffer that passes its
  size check but has fewer than 34 characters (`Amounts.AmountBack`, `Amounts.CutWitness`); `string_to_bignum` accepts a
  minus sign and drops it, ignores the size of its output, and has room for 17 characters before the point.
- The loop around a callback with a null argument does not end for a string that is not empty
  (`PbDecode.NullArgumentTurns`).
- The bit counter of the 32-bit varint decoder is a `uint_fast8_t`; with 8 bits it wraps, and some overlong varints are
  accepted (`Wire.WidthExact` says from which length on, `Wire.WrapWitness` is one).
- A chunk that ends inside a frame's header, or is empty and arrives between frames, makes the receiver read a header
  past its end (`Reassembly.ReceiveAll` is an equivalence, `Reassembly.BadCuts` gives both inputs).
- nanopb ignores the wire type sent for a static field, and an empty field table has a terminator of tag 0, which a
  search for tag 0 finds.
- The user's callback is not called for a rejected commit, for a commit whose receipt request cannot be sent, or for a
  receipt or a query answer that cannot be decoded; the flag `silent` of `Protocol.Info` marks a commit whose receipt
  was lost in this way. A request that cannot be handed to the transport stays on the list (`Protocol.UnsentStays`).

## Model

| member | source | states |
|---|---|---|
| `MpiCore.Copy` | mbedtls/bignum.c:198-235 | a copy has the value of the original, takes its sign and keeps the target array when it is large enough; the source may be the target |
| `MpiCore.CmpMpi` | mbedtls/bignum.c:1126-1156 | the signed comparison orders numbers by value, whatever leading zero limbs they carry (so that -0 equals 0) |
| `MpiCore.CmpAbs` | mbedtls/bignum.c:1094-1121 | the unsigned comparison orders magnitudes by value |
| `MpiCore.VTopGreater` | mbedtls/bignum.c:1110-1118 | the highest limb in which two arrays differ decides the order of the whole numbers |
| `MpiCore.SigUnique` | mbedtls/bignum.c:1100-1106 | the limb at which the downward scan stops is the unique significant length |
| `Shift.Bitlen` | mbedtls/bignum.c:421-435 | the bit length is the least e with |X| < 2^e |
| `Shift.Lsb` | mbedtls/bignum.c:387-398 | the number of zero bits below the lowest set bit; zero has none |
| `Shift.ShiftL` | mbedtls/bignum.c:999-1045 | shifting left multiplies by 2^count; the array grows to exactly the limbs needed |
| `Shift.ShiftR` | mbedtls/bignum.c:1050-1089 | shifting right divides by 2^count, also when everything is shifted out |
| `Shift.NoSpill` | mbedtls/bignum.c:1031-1040 | nothing is carried out of the top limb of a left shift |
| `AddSub.AddColumn` | mbedtls/bignum.c:1312-1317 | two wrapped additions and their two overflow tests give a column sum exactly, with a carry in {0,1} |
| `AddSub.CarryRun` | mbedtls/bignum.c:1319-1328 | the carry run adds the carry at its place, growing the array at most when the run leaves it |
| `AddSub.AddAbs` | mbedtls/bignum.c:1279-1333 | |A| + |B| under every aliasing of X with A and B |
| `AddSub.SubHlp` | mbedtls/bignum.c:1338-1354 | the subtraction of n limbs takes their number off, and the borrow run stops inside the array whenever the result is not negative |
| `AddSub.BorrowStaysInside` | mbedtls/bignum.c:1349-1353 | a borrow still pending at the end of the array would make the difference negative |
| `AddSub.SubAbs` | mbedtls/bignum.c:1359-1400 | |A| - |B|, refused with X unchanged exactly when it would be negative |
| `AddSub.AddMpi` | mbedtls/bignum.c:1405-1435 | A + B on signed values under every aliasing of X with A and B |
| `AddSub.SubMpi` | mbedtls/bignum.c:1440-1470 | A - B on signed values under every aliasing of X with A and B |
| `WordMul.MulAddDouble` | mbedtls/bn_mul.h:896-910 | the double-width multiply-accumulate core computes s*b + c + d exactly in two limbs |
| `WordMul.MulAddHalf` | mbedtls/bn_mul.h:913-935 | the half-limb core computes the same two limbs, so both configurations agree |
| `Mul.MulHlp` | mbedtls/bignum.c:1519-1578 | D += b * S at a limb offset; the carry run stops inside D whenever the sum fits, and no lower limb changes |
| `Mul.CarryStaysInside` | mbedtls/bignum.c:1574-1577 | a carry pending at the end of D contradicts that the total fits D |
| `Mul.MulMpi` | mbedtls/bignum.c:1583-1618 | A * B on signed values under every aliasing of X with A and B |
| `WordDiv.IntDivDouble` | mbedtls/bignum.c:1655-1675 | double-width two-by-one division returns the true quotient and remainder for all u1 < d, and all ones otherwise |
| `WordDiv.IntDivHalf` | mbedtls/bignum.c:1655-1731 | the half-limb form returns the same, with every wrapped intermediate accounted for |
| `WordDiv.TrialDone` | mbedtls/bignum.c:1702-1723 | a half-limb trial digit that passes the test is the true digit |
| `LongDivision.TruncatedUnique` | mbedtls/bignum.c:1737-1860 | quotient towards zero and remainder with the sign of A are the only pair with A = Q*B + R, |R| < |B| |
| `LongDivision.TrueDigitPasses` | mbedtls/bignum.c:1808-1822 | the true quotient digit passes the three-limb test |
| `LongDivision.PassingDigitClose` | mbedtls/bignum.c:1808-1834 | a digit that passes the three-limb test is the true one or one more |
| `LongDivision.TrueDigit` | mbedtls/bignum.c:1798-1834 | at every step of the division there is one true digit below the limb base, and no passing digit exceeds it by more than one |
| `LongDivision.DivStep` | mbedtls/bignum.c:1798-1835 | one step writes the true digit and leaves the true remainder, with at most one add-back |
| `LongDivision.DivMagnitudes` | mbedtls/bignum.c:1737-1860 | the whole loop computes the quotient and remainder of the magnitudes |
| `LongDivision.DivMpi` | mbedtls/bignum.c:1737-1860 | for every aliasing of Q, R, A and B, what Q and R hold, and exactly when that is the quotient towards zero and the remainder with the sign of A; with Q and R the same object the remainder stays; division by zero is refused with Q and R unchanged |
| `LongDivision.QuotientExact` | mbedtls/bignum.c:1768-1856 | the quotient is right if and only if |A| < |B|, or the overwritten signs (that of A for Q = A, that of B for Q = B) were both negative or both not |
| `LongDivision.RemainderExact` | mbedtls/bignum.c:1750-1757 | the remainder is right if and only if Q is not A, or A = 0, or |A| >= |B| and either B divides A or the sign of A is the one read in its place: that of B, or plus when Q is B too |
| `LongDivision.AliasWitness` | mbedtls/bignum.c:1737-1860 | inputs that fail: with Q = A, -7 / 2 gives 3 with the remainder 1, and the remainder of 1 by 2 is 0; with Q = B, 7 / -2 gives 3 |
| `Modulo.ModMpi` | mbedtls/bignum.c:1884-1905 | A mod B in [0, B) for B > 0 also for negative A, also with R = A; the correction loops end; zero and negative moduli are refused, with R = B too |
| `Modulo.SameObjectTurns` | mbedtls/bignum.c:1896-1900 | with R and B the same object and B > 0: if the first remainder is not negative, R is zero after one turn of the second loop and its guard, which compares R with itself, holds after any number of turns; if it is negative, every turn of the first loop doubles R, so that after n turns its limbs have more than n bits |
| `Modulo.SameObjectRefused` | mbedtls/bignum.c:1896-1897 | in the second case the doubling ends with the allocation error, at the first sum of more than 10000 limbs |
| `Modulo.ModInt` | mbedtls/bignum.c:1910-1964 | A mod b for a word b and either sign of A, with the errors for b = 0 and b < 0; exact for fold-safe b, and for every other b what the folding loop yields |
| `Modulo.ModIntExact` | mbedtls/bignum.c:1941-1952 | the word modulo is right for every number if and only if b <= 2^biH or b divides the limb base |
| `Montgomery.MontgInit` | mbedtls/bignum.c:1969-1981 | for every odd N the Newton loop ends with N[0] * mm = -1 modulo the limb base |
| `Montgomery.NewtonPrecision` | mbedtls/bignum.c:1977-1978 | each Newton step doubles the number of correct low bits |
| `Montgomery.WindowLowZero` | mbedtls/bignum.c:2006-2012 | the multiple of N that is added makes the low limb of the window zero |
| `Montgomery.RoundFits` | mbedtls/bignum.c:2001-2013 | each round fits the work array, so both row additions stop inside it |
| `Montgomery.MontMul` | mbedtls/bignum.c:1986-2024 | for A*B < N*R the result is below N and satisfies A_new * R = A * B modulo N; the final subtractions stay inside their arrays; a short work array is refused |
| `Montgomery.MontRed` | mbedtls/bignum.c:2029-2039 | A_new * R = A modulo N, below N |
| `ExpMod.FullWindow` | mbedtls/bignum.c:2199-2213 | when the bit just read fills the window, what was collected is an index in [2^(wsize-1), 2^wsize), the entry of the table there holds that power of A, and the consumed bits are c * 2^wsize plus that index |
| `ExpMod.BuildTable` | mbedtls/bignum.c:2132-2155 | every entry with an index in [2^(wsize-1), 2^wsize) holds A^index in Montgomery form |
| `ExpMod.TakeBit` | mbedtls/bignum.c:2177-2218 | for every exponent bit X stays the power of A for the bits consumed less the open window |
| `ExpMod.ScanExponent` | mbedtls/bignum.c:2157-2219 | the scan consumes every bit of E and leaves at most a partial window |
| `ExpMod.FinishWindow` | mbedtls/bignum.c:2221-2232 | the bits of an unfinished window complete the exponent |
| `ExpMod.PowerMod` | mbedtls/bignum.c:2044-2256 | A^E mod N for every odd N > 0 and E >= 0, exactly A^E mod N for A >= 0 and for even E; for a negative base and odd E it is congruent, and equal unless the residue is zero; X may be A; the cached R^2 stays right |
| `ExpMod.NegatedResult` | mbedtls/bignum.c:2239-2243 | N - v is the residue of (-a)^e exactly when that residue is not zero |
| `ExpMod.CoprimeResult` | mbedtls/bignum.c:2239-2243 | the result is exactly A^E mod N whenever gcd(|A|, N) = 1 and N > 1 |
| `ExpMod.NegativeWitness` | mbedtls/bignum.c:2239-2243 | an input that fails: (-3)^1 mod 3 gives 3 |
| `BinaryGcd.GcdTurn` | mbedtls/bignum.c:2287-2302 | each turn keeps the greatest common divisor and makes TA + TB strictly smaller |
| `BinaryGcd.CommonShift` | mbedtls/bignum.c:2276-2304 | 2^lz times the divisor of the shifted numbers is the divisor of the originals |
| `BinaryGcd.GcdMpi` | mbedtls/bignum.c:2261-2312 | gcd(|A|, |B|) for every B != 0, and 0 for B = 0: the result is the greatest common divisor if and only if B != 0 or A = 0 |
| `BinaryGcd.GcdUnique` | mbedtls/bignum.c:2261-2312 | the function the loop is proved against is the one common divisor that every common divisor divides |
| `InvMod.HalveTerm` | mbedtls/bignum.c:2389-2415 | a remainder is halved together with its coefficients; all halvings are exact and the linear combination stays |
| `InvMod.InvTurn` | mbedtls/bignum.c:2387-2430 | each turn keeps U1*TA + U2*TB = TU and V1*TA + V2*TB = TV and makes TU + TV smaller |
| `InvMod.InvModMpi` | mbedtls/bignum.c:2354-2447 | for N > 1: returns 0 <= X < N with X*A = 1 mod N if and only if gcd(A, N) = 1, otherwise "not acceptable" with X unchanged and no inverse existing; N <= 1 is refused |
| `InvMod.NoInverse` | mbedtls/bignum.c:2369-2375 | with a common factor no number at all is an inverse |
| `Binary.ReadBinary` | mbedtls/bignum.c:872-909 | the MPI has the value of the big-endian bytes and just the limbs they need |
| `Binary.ReversedLimbs` | mbedtls/bignum.c:807-834 | swapping the limbs from both ends and the bytes in each reverses the whole byte string |
| `Binary.ByteAt` | mbedtls/bignum.c:352-353 | the byte selected inside a limb is that byte of the whole number |
| `Binary.WriteBinary` | mbedtls/bignum.c:953-994 | the buffer holds |X| in big-endian, zero-filled; fails with the buffer unchanged exactly when |X| >= 256^buflen |
| `Binary.Size` | mbedtls/bignum.c:440-443 | the least number of bytes that hold |X| |
| `RadixText.ReadString` | mbedtls/bignum.c:465-534 | a text is read exactly when it is an optional minus sign and digits of the radix, and then X is the number it stands for |
| `RadixText.ReadHex` | mbedtls/bignum.c:481-502 | the backward hexadecimal scan puts every digit at its place |
| `RadixText.WriteHlp` | mbedtls/bignum.c:539-573 | the digits are written back to front and moved; fails exactly when they do not fit |
| `RadixText.WriteHex` | mbedtls/bignum.c:622-640 | the hexadecimal digits come in pairs from the highest non-zero byte, and the last byte is always written |
| `RadixText.WriteString` | mbedtls/bignum.c:578-660 | writes sign, digits and NUL exactly when the buffer has the estimated size, else asks for that size; never writes outside the buffer |
| `RadixText.RoomEnough` | mbedtls/bignum.c:592-605 | the size estimate covers sign, digits and terminator for every number and radix 2 to 16 |
| `RadixText.ReadBack` | mbedtls/bignum.c:465-660 | reading a written text gives the number back, for every radix 2 to 16, sign and number |
| `RadixText.ReadsDigits` | mbedtls/bignum.c:448-460 | a text is read if and only if its characters are 48 + d for d below 10, or 55 + d or 87 + d for d from 10 to 15, all below the radix, as the number with these digits; a minus sign negates it |
| `RadixText.WritesDigits` | mbedtls/bignum.c:536-640 | what is written is character 45 for a negative number, and then 48 + d or 55 + d for the digits of the magnitude, without a zero in front, or in pairs for radix 16 |
| `RadixText.EstimateIs` | mbedtls/bignum.c:592-605 | the size asked for is the even one of the two sizes three and four above the number of bits, half of it from radix 4 on, or a quarter for 16 |
| `Amounts.StringToBignum` | conversions.c:47-88 | the bytes are the minimal big-endian bytes of the scaled text; -1 exactly for unreadable text; overrun exactly when the integer part exceeds 17 characters or the bytes exceed the output |
| `Amounts.DecimalAmount` | conversions.c:52-74 | I.F stands for I * 10^18 plus the first 18 digits of F, zero-extended |
| `Amounts.WholeAmount` | conversions.c:61-69 | a text without a point stands for whole tokens |
| `Amounts.ReadsAmount` | conversions.c:52-74 | characters '0' to '9' with a point: the digits before it times 10^18, and the first 18 behind it with zeros filled in |
| `Amounts.WritesAmount` | conversions.c:14-43 | an amount below 10^32 is its 32 decimal digits in characters '0' to '9' with a point behind the first 14 |
| `Amounts.MinimalBytes` | conversions.c:79-80 | writing as many bytes as the size function says gives the base-256 digits without leading zero |
| `Amounts.BignumToString` | conversions.c:14-43 | the text is the digits right-aligned in 32 places with a point before the last 18, cut to the buffer; -1 exactly when the buffer is below the size estimate |
| `Amounts.AmountBack` | conversions.c:14-88 | the text of v that a buffer keeps is read back as v if and only if v < 10^32 and the characters cut off are zeros that the reader fills in again |
| `Amounts.RoomyBack` | conversions.c:14-88 | in a buffer of at least 34 characters that is the case if and only if v < 10^32 |
| `Amounts.CutWitness` | conversions.c:14-88 | an input that fails: 5 in a buffer of 4 characters becomes "000" and is read as 0 |
| `Amounts.ThereAndBack` | conversions.c:14-88 | bignum_to_string and then string_to_bignum on what is in the buffer: the bytes come back as the minimal bytes of the number if and only if the cut is harmless |
| `Base58.ConvertedBack` | base58.c:50-211 | converting between bases with leading zeros kept is its own inverse |
| `Base58.DecodeEncode` | base58.c:50-211 | decoding an encoding gives the data |
| `Base58.EncodeDecode` | base58.c:50-211 | encoding a decoding gives the text |
| `Base58.WritesPlaces` | base58.c:39-48 | a text is the encoding of some bytes if and only if the places of its characters in "123456789ABCDEFGHJKLMNPQRSTUVWXYZabcdefghijkmnopqrstuvwxyz" are base-58 digits of the same number, with as many zeros in front |
| `Base58.ReadsPlaces` | base58.c:50-137 | a text is read if and only if its characters stand in that alphabet and their places form a number that fits, and then as that number |
| `Base58.OneCharacter` | base58.c:167-211 | a byte d with 0 < d < 58 is written as the one character at place d, which stands for d |
| `Base58.MulAdd58` | base58.c:86-92 | one pass multiplies the word array by 58 and adds a digit; the carry is what did not fit |
| `Base58.FitsBytes` | base58.c:93-102 | the mask test on the first word is exact: the number fits the bytes or it does not |
| `Base58.B58ToBin` | base58.c:50-137 | succeeds if and only if every character is in the alphabet and the value is below 256^binsz; then the right end of the buffer is the decoding; a failed call changes nothing |
| `Base58.RightAligned` | base58.c:126-134 | the size reported is that of the exact decoding, and the bytes at the right end are it |
| `Base58Encode.MulAdd256` | base58.c:184-192 | one pass multiplies the digits by 256 and adds a byte, and the index passes below zero exactly when the number outgrows the array |
| `Base58Encode.B58Enc` | base58.c:169-211 | writes the encoding exactly when it fits the buffer, reports the size needed otherwise; the digit index leaves the array exactly when the number exceeds the room |
| `Base58Encode.RoomExact` | base58.c:179-192 | the index stays inside for all sequences of m bytes if and only if 256^m <= 58^(m*138/100) |
| `Base58Encode.RoomEnough` | base58.c:179-192 | this holds for m = 38 and every m >= 70 |
| `Base58Encode.RoomShort` | base58.c:179-192 | and fails for a single byte of 58 or more |
| `Base58Encode.RoundTrip` | base58.c:50-211 | what was encoded decodes into a buffer of the original size as exactly the data |
| `Account.B58Check` | base58.c:146-165 | the checksum comparison and the joint run over zero bytes and ones answer as specified |
| `Account.CheckAnswers` | base58.c:146-165 | the answers in numbers: -4 below four bytes, -1 for another checksum, -3 when only one of the runs of zero bytes and ones ends, and the first byte when both do |
| `Account.CheckFails` | base58.c:146-165 | -2 exactly when one of the two hashes fails |
| `Account.CheckExact` | base58.c:146-165 | the check passes with the address version exactly for buffers that hold the payload of a key |
| `Account.B58CheckEnc` | base58.c:213-229 | writes the encoding of version, data and the first four bytes of their double hash |
| `Account.AddressLength` | account.c:16-22 | for any hash, every 33-byte key has an address of exactly 52 characters |
| `Account.AddressInjective` | account.c:16-22 | different keys have different addresses |
| `Account.AddressIs` | account.c:16-22 | a text is the address of a key if and only if it stands for the byte 0x42, the key, and the first four bytes of the double hash of both |
| `Account.EncodeAddress` | account.c:16-22 | writes the base-58 form of version, data and checksum exactly when it fits with its terminator and the index stays inside; for a key exactly when there is room for 52 characters and the terminator |
| `Account.DecodeAddress` | account.c:24-41 | accepts exactly the addresses of keys, and then returns that key; otherwise the output is unchanged; a text that decodes to more than 38 bytes makes it read past its buffer |
| `Account.AcceptExact` | account.c:24-41 | the version and checksum test on the 38 bytes is the same as being an address |
| `Account.OverrunNeedsOne` | account.c:24-41 | only texts that start with the character 1 lead there |
| `Account.OverrunWitness` | account.c:24-41 | an input that leads there: 52 characters 1 |
| `Account.NoLeadingOne` | account.c:24-41 | no address of a key starts with the character 1 |
| `Wire.VarintBack` | nanopb/pb_decode.c:255-275 | a 64-bit varint comes back and exactly its bytes are consumed |
| `Wire.Varint32Back` | nanopb/pb_decode.c:187-247 | the same for the 32-bit decoder |
| `Wire.WrapWitness` | nanopb/pb_decode.c:187-247 | 37 bytes 0x80 and a byte 1 are read as 8 if and only if the bit counter has 8 bits, and refused otherwise |
| `Wire.WidthExact` | nanopb/pb_decode.c:187-247 | the width of the bit counter makes no difference to any number of n bytes if and only if 7 * (n - 1) is below the number of its values; with 8 bits, up to 37 bytes |
| `Wire.TagBack` | nanopb/pb_decode.c:298-319 | tag and wire type come back from a key |
| `Wire.OrShiftedIs` | nanopb/pb_decode.c:266-271 | or-ing a shifted group bit by bit into a word whose bits from there on are clear is addition cut off at the word |
| `Bits.OrDisjoint` | nanopb/pb_decode.c:266-271 | the bitwise or of numbers without a common bit is their sum |
| `Wire.RawValueExtend` | nanopb/pb_decode.c:321-331 | what a value consumes does not depend on the bytes behind it |
| `Wire.LittleEndianBack` | nanopb/pb_decode.c:1283-1315 | fixed-width numbers come back from their bytes |
| `Wire.ZigZagBack` | nanopb/pb_decode.c:1269-1281 | zigzag coding is undone for every 64-bit integer |
| `InputStream.IStream.Read` | nanopb/pb_decode.c:102-137 | reads exactly count bytes, or fails with the cursor unchanged; cursor + bytes left stays the end |
| `InputStream.IStream.DecodeVarint` | nanopb/pb_decode.c:255-275 | accepts exactly the varints of at most ten bytes and leaves the rest |
| `InputStream.IStream.DecodeVarint32` | nanopb/pb_decode.c:187-247 | accepts exactly the varints whose bytes past the fifth only extend zeros or the sign, with the bit counter wrapping at the width of its type |
| `InputStream.IStream.DecodeTag` | nanopb/pb_decode.c:298-319 | tells a key, the zero end mark, the end of the stream and a bad key apart |
| `InputStream.IStream.SkipField` | nanopb/pb_decode.c:321-331 | skips exactly one value of the wire type |
| `InputStream.IStream.ReadRawValue` | nanopb/pb_decode.c:336-367 | copies exactly the bytes of a scalar of at most ten bytes |
| `InputStream.IStream.MakeStringSubstream` | nanopb/pb_decode.c:372-385 | the substream is exactly the length-delimited value at the same cursor, and its end plus what is left is the end of the parent |
| `InputStream.IStream.CloseStringSubstream` | nanopb/pb_decode.c:387-400 | the parent goes on right behind the substream, also when not all of it was read |
| `PbDecode.FieldIter.Next` | nanopb/pb_common.c:20-76 | the iterator visits the fields in order and wraps around |
| `PbDecode.FieldIter.Find` | nanopb/pb_common.c:78-95 | the search finds a tag if and only if some field has it, from any start, and otherwise stays where it was |
| `PbDecode.SetToDefaults` | nanopb/pb_decode.c:836-919 | static fields are zeroed at every level, callbacks are kept |
| `PbDecode.DecodeNumber` | nanopb/pb_decode.c:1318-1429 | a scalar is accepted exactly when it survives the cast to its field |
| `PbDecode.CastKeeps` | nanopb/pb_decode.c:1329-1412 | the cast keeps a number exactly when the number is in the range of the field |
| `PbDecode.ReadBlob` | aergo.c:106-124 | the callback takes all bytes of its stream exactly when it has room |
| `PbDecode.DecodeCallback` | nanopb/pb_decode.c:677-729 | the callback receives exactly the bytes of the value; without a callback the value is skipped |
| `PbDecode.NullArgumentTurns` | nanopb/pb_decode.c:688-700 | a callback with a null argument, which reads nothing: an empty or a scalar value is skipped, and for any other string the guard of the loop holds after any number of turns |
| `PbDecode.DecodeSubmessage` | nanopb/pb_decode.c:1503-1525 | a submessage is decoded from its substream and the parent continues behind it |
| `PbDecode.DecodeNoInit` | nanopb/pb_decode.c:925-1073 | accepts exactly the byte strings the grammar of the schema accepts, with the same values and the same rest; `WireFormat` gives them in numbers |
| `PbDecode.Decode` | nanopb/pb_decode.c:1075-1087 | the same, starting from the default values |
| `PbEncode.VarintBytes` | nanopb/pb_encode.c:599-619 | the loop fills the buffer with the base-128 digits and clears the last top bit |
| `PbEncode.OStream.Write` | nanopb/pb_encode.c:103-121 | writes at the cursor and nowhere else, or counts on a stream without buffer; fails exactly when the limit would be passed |
| `PbEncode.CheckDefault` | nanopb/pb_encode.c:237-328 | a proto3 field is left out exactly when it holds its default, submessages included |
| `PbEncode.EncodeField` | nanopb/pb_encode.c:332-456 | writes tag and value, or nothing for a default |
| `PbEncode.EncodeSubmessage` | nanopb/pb_encode.c:708-756 | the sizing pass predicts the write pass exactly; it fails only for lack of room |
| `PbEncode.SecondPass` | nanopb/pb_encode.c:731-755 | the second pass writes exactly the number of bytes counted, so "submsg size changed" cannot happen |
| `PbEncode.Encode` | nanopb/pb_encode.c:519-541 | writes exactly the encoding of the message, which `WireFormat.FieldWritten` spells out byte by byte; succeeds exactly when it fits |
| `PbEncode.EncodeThenDecode` | nanopb/pb_decode.c:925-1087 | a message that fits the buffer decodes from it unchanged |
| `RoundTrip.MessageBack` | nanopb/pb_encode.c:519-541 | for every schema, decoding the encoding restores every field, left-out defaults included, and consumes all bytes |
| `RoundTrip.FieldBack` | nanopb/pb_encode.c:332-417 | the same for a single field in front of any bytes |
| `RoundTrip.OmittedIsDefault` | nanopb/pb_encode.c:237-328 | a field is left out only when the default restores it |
| `WireFormat.VarintDigits` | nanopb/pb_encode.c:599-619 | byte i of a varint is digit i of the number in base 128, and 128 more in every byte but the last |
| `WireFormat.VarintLength` | nanopb/pb_encode.c:599-619 | a varint has as many bytes as the number has digits in base 128 |
| `WireFormat.GroupsExact` | nanopb/pb_decode.c:255-275 | what is split off the front of some bytes is one varint, and any varint in front is split off |
| `WireFormat.GroupDigits` | nanopb/pb_decode.c:266-271 | digit i in base 128 of the number read is byte i without its top bit |
| `WireFormat.ReadsUpTo32` | nanopb/pb_decode.c:187-247 | which varints of up to 37 bytes the 32-bit decoder reads, and that it gives the low 32 bits of their number |
| `WireFormat.FieldWritten` | nanopb/pb_encode.c:332-456 | a field that is written starts with the varint of 8 * tag plus 0 (bool, integers), 1 (fixed64), 2 (submessage, bytes) or 5 (fixed32), and goes on with 1, the number in 64-bit two's complement or zigzag, its bytes from the lowest, or a length and that many bytes |
| `WireFormat.NothingWritten` | nanopb/pb_encode.c:237-328 | exactly false, zero, an unset or empty callback, and a submessage of such fields without a set callback leave no bytes |
| `WireFormat.WrittenInOrder` | nanopb/pb_encode.c:519-541 | the fields are written one behind the other in the order of the schema |
| `WireFormat.InitialValues` | nanopb/pb_decode.c:836-919 | before reading, bools are false, numbers 0, submessages the same, and callbacks as they were |
| `WireFormat.ReadsBytes` | nanopb/pb_decode.c:677-729 | behind 8 * tag + 2, a length n and n bytes give these bytes to a callback with room for them, and are an error without |
| `WireFormat.ReadsRaw` | nanopb/pb_decode.c:702-727 | behind wire type 0, 1 or 5 a callback is given the bytes of the scalar, of a varint at most ten |
| `WireFormat.ReadsSubmessage` | nanopb/pb_decode.c:1503-1525 | behind 8 * tag + 2, a length n and n bytes are the fields of a submessage |
| `WireFormat.ReadsVarint` | nanopb/pb_decode.c:1318-1429 | a varint in a number field gives the number that its low 64 bits show, unsigned, in zigzag or in two's complement of 64 or 32 bits, if it is in the range of 1, 2, 4 or 8 bytes, and is an error otherwise |
| `WireFormat.RefusesLong` | nanopb/pb_decode.c:255-275 | a varint of more than ten bytes is an error there |
| `WireFormat.ReadsFlag` | nanopb/pb_decode.c:1318-1327 | a varint in a bool field is true unless it is zero |
| `WireFormat.ReadsFixed` | nanopb/pb_decode.c:1283-1315 | four or eight bytes in a fixed field are its number, lowest byte first |
| `WireFormat.PassesOver` | nanopb/pb_decode.c:321-331 | an unknown field is passed over: a varint for wire type 0, 8 bytes for 1, a length and its bytes for 2, 4 bytes for 5 |
| `WireFormat.PassesUnset` | nanopb/pb_decode.c:688-690 | so is a byte field without a callback |
| `WireFormat.RefusesWire` | nanopb/pb_decode.c:321-331 | wire types 3, 4, 6 and 7 of an unknown field are errors |
| `WireFormat.EndsAtZero` | nanopb/pb_decode.c:298-319 | a zero byte in place of a key ends the message |
| `WireFormat.ShortBytes` | nanopb/pb_decode.c:677-729 | 0x0A, n below 128 and n bytes are these bytes in field 1 |
| `WireFormat.ShortNumber` | nanopb/pb_decode.c:1318-1429 | 0x08 and n below 128 is the number n in field 1 |
| `Tolerance.InsertUnknown` | nanopb/pb_decode.c:943-1021 | inserting a well-formed field with an unknown tag at any field boundary, at any nesting depth, leaves the decoded message unchanged |
| `Tolerance.Permuted` | nanopb/pb_decode.c:943-1021 | fields can be written in any order, mixed with unknown fields and in front of any bytes, as long as those of the schema occur once each |
| `Tolerance.PermutedAt` | nanopb/pb_decode.c:943-1021 | the same at any place inside nested submessages |
| `Tolerance.SwapWhole` | nanopb/pb_decode.c:943-1021 | two neighbouring fields can change places unless both are the same field of the schema |
| `Tolerance.Swap` | nanopb/pb_decode.c:943-1021 | two neighbouring fields with different tags can change places |
| `Requests.Client.ListAdd` | linked_list.c:12-28 | the request becomes the last of the list, which stays linked and free of repetitions |
| `Requests.Client.ListRemove` | linked_list.c:42-62 | exactly that request leaves the list, the others keep their order |
| `Requests.Client.NewRequest` | aergo.c:1342-1356 | a request with all flags cleared is appended |
| `Requests.Client.Start` | socket.c:324-340 | a request made by a user call is listed, and in flight if the transport takes it; if not, it stays listed and unprocessed |
| `Requests.Client.FreeRequest` | aergo.c:1358-1369 | a request leaves the list, no other changes |
| `Requests.Client.HandleCommit` | aergo.c:384-468 | an accepted commit asks for its receipt |
| `Requests.Client.HandleReceipt` | aergo.c:636-710 | the callback is called for a decoded receipt, and the commit stops waiting in every case |
| `Requests.Client.HandleQuery` | aergo.c:489-530 | the callback hears of a decoded answer, and only then |
| `Requests.Client.HandleQueryError` | aergo.c:470-487 | the callback hears of the error, and the request stays failed |
| `Requests.Client.HandleMessage` | aergo.c:347-382 | the callback hears of a decoded block or event, and only then |
| `Requests.Client.OnFailedReceipt` | aergo.c:1831-1865 | "tx not found" is tried again until the tenth failure; otherwise, and for a receipt without a commit, the callback hears of the error |
| `Requests.Client.ProcessRequestError` | socket.c:150-162 | a failed request is processed; its error handler, if it has one, calls the callback or arranges another attempt |
| `Requests.Client.GetReceipt` | aergo.c:1867-1895 | a receipt request is made for a commit, if it can be encoded |
| `Requests.Client.OnResponse` | socket.c:231-237 | a complete response is processed and its handler decides about success |
| `Requests.Client.CheckReceipts` | socket.c:71-96 | the scan restarts after every receipt asked for, ends, and leaves no commit that waits to be asked |
| `Requests.Client.ReleaseFinished` | socket.c:111-118 | the release loop restarts after every release, ends, and leaves no finished request |
| `Requests.Client.ProcessRequests` | socket.c:71-118 | scan and release together step the protocol state |
| `Protocol.DeliverKeeps` | aergo.c:384-425 | every outcome keeps the invariant of the protocol |
| `Protocol.CheckReceiptsKeeps` | socket.c:71-96 | the receipt scan keeps it |
| `Protocol.ReleaseKeeps` | socket.c:111-118 | releasing keeps it: a request that another one waits for is never released |
| `Protocol.ReceiptEffects` | aergo.c:1831-1865 | what each outcome of a receipt request does to the flags and counters of its commit: "tx not found" before the tenth failure calls nobody, counts one attempt and makes the commit ready to ask again; a receipt, another error and the tenth failure are heard once and end it; nothing else changes |
| `Protocol.AnswerEffects` | aergo.c:384-530 | a good answer marks a commit as wanting its receipt, is heard once by the callback of any other kind that has one, and nothing else changes |
| `Protocol.ErrorEffects` | socket.c:150-162 | an error is heard once by the callback of a query, and otherwise only marks the request as processed |
| `Protocol.TriedAgain` | aergo.c:1831-1895 | after "tx not found" before the tenth failure, the next round whose attempt is sent leaves a new receipt request in flight for the commit, both listed, and nobody called |
| `Protocol.ScanEffects` | socket.c:71-96 | the scan asks once for the receipt of every listed commit that is processed, successful, wants its receipt and is not being asked for, gives it up if that fails, and changes no other request |
| `Protocol.ReleasedExactly` | socket.c:111-118 | a request leaves the list if and only if it is processed, wants no receipt and is not kept active |
| `Protocol.OpenEffects` | aergo.c:1342-1356 | a new request is the last of the list, with every flag and counter cleared |
| `Protocol.Safe` | aergo.c:1831-1895 | in every run: at most ten receipt requests of a commit were sent, counted over the request records, at most one in flight, its parent listed meanwhile, no callback but that of an open stream called twice; a commit that no longer waits has been reported once, unless its receipt was lost without a call |
| `Protocol.TallyKeeps` | aergo.c:1831-1895 | every event keeps the counter of attempts of a commit equal to the number of its receipt requests sent |
| `Protocol.NothingForgotten` | socket.c:71-118 | after processing, every listed commit that wants a receipt has its receipt request in flight |
| `Protocol.UnsentStays` | socket.c:111-118 | a listed request that was not handed to the transport is never processed and never released, whatever events follow |
| `Protocol.UnsentOpened` | aergo.c:1409-1419 | a user call whose request cannot be handed over makes such a request |
| `Protocol.EveryMessageHeard` | socket.c:231-249 | in every run the callback of a request for blocks or events has been called exactly once for every good message |
| `Reassembly.EncodeFrame` | socket.c:141-148 | puts a zero byte and the size as a big-endian number of four bytes in front of a message, which makes it the frame of that message |
| `Reassembly.FrameIsFrame` | socket.c:141-148 | and that frame announces its own size |
| `Reassembly.HeaderNumber` | socket.c:193-196 | the size of a frame is read as the base-256 number in bytes 1 to 4, and five more |
| `Reassembly.FrameExact` | socket.c:193-206 | some bytes are a frame if and only if there are at least five, and that number and five more is their count, below 2^31 |
| `Reassembly.UniqueFrames` | socket.c:179-252 | a byte stream splits into frames in only one way |
| `Reassembly.Response.ReceivePiece` | socket.c:191-249 | a piece of the current frame is taken, bytes received and remaining add up to its size, and a complete frame is processed |
| `Reassembly.Response.Receive` | socket.c:179-252 | a chunk may hold parts of any number of frames; the bytes before a header that leaves the chunk, or announces 2^31 bytes or more, are taken, none lost or duplicated; without such a header all are |
| `Reassembly.HeadersExact` | socket.c:188-214 | between two positions of a stream of frames, the first outside headers, a header leaves the chunk if and only if the second is inside a header, or both are the same place between frames |
| `Reassembly.ReceiveAll` | socket.c:179-252 | however a stream of frames is cut into chunks, no header is read past the end of its chunk if and only if no chunk ends inside a header and no chunk between frames is empty, and then exactly these frames are processed, in order, and nothing stays buffered; otherwise only first ones of them are |
| `Reassembly.BadCuts` | socket.c:191-206 | inputs that fail, for every frame: cut after its second byte, or with an empty chunk in front of it |
| `Ledger.WrapCommandAPDU` | ledger/ledgerLayer.c:23-79 | fails exactly when the packet size is below 3 or the padded packets exceed the output; otherwise writes exactly the packets |
| `Ledger.Pad` | ledger/ledgerLayer.c:71-77 | zeros fill the last packet and stop exactly at its end |
| `Ledger.UnwrapReponseAPDU` | ledger/ledgerLayer.c:81-146 | for any data and packet size: error, more packets needed, or the whole response, as specified packet by packet |
| `Ledger.UnwrapStays` | ledger/ledgerLayer.c:117-136 | on whole packets no header is read past the end of the data |
| `Ledger.UnwrapWrapped` | ledger/ledgerLayer.c:23-146 | unwrapping a wrapped command gives the command, and the packets are whole |
| `Ledger.FirstPacket` | ledger/ledgerLayer.c:23-56 | two bytes of channel, the byte 5, a zero count in two bytes, the length in two bytes, and the first bytes of the command |
| `Ledger.LaterPacket` | ledger/ledgerLayer.c:57-77 | packet i begins i packet sizes later with two bytes of channel, the byte 5 and i in two bytes, and holds the next bytes of the command |
| `Ledger.OnlyWrapped` | ledger/ledgerLayer.c:81-146 | a response is only taken from data that begins with the packets of that response |
| `Ledger.PrefixAsksForMore` | ledger/ledgerLayer.c:110-121 | on every proper prefix of whole packets unwrapping asks for more, so reading ends exactly with the last packet |

## Left out

- MPI allocation failure, the limit on the number of limbs, zeroizing, constant-time selection and comparison, shrink,
  swap, single-bit access, little-endian binary, random fill, file access.
- `Mpi.p` is a sequence that operations replace: two MPIs never share a limb buffer, and spare capacity is the length.
- MULADDC unrolling by 8 and 16 limbs and all inline assembly of mbedtls/bn_mul.h; one step of each portable form is
  modelled.
- Modulo.ModMpi: R and B the same positive object is left to `Modulo.SameObjectTurns` and `Modulo.SameObjectRefused`,
  because the call then gives no residue: it does not return, or returns the allocation error.
- Modulo.ModInt: for a divisor that is not fold-safe it only ties the result to the folding loop, because the code does
  not compute the residue there.
- ExpMod.PowerMod: requires that A has at least one limb and that X, E, N and the cache are different objects.
- RadixText.WriteString: radix 2 requires at least one limb, because the code reads limb 0; the limit on the length of
  hexadecimal input to a quarter of the address space is not modelled.
- Amounts.BignumToString: lengths are those of the arrays; negative lengths are not modelled.
- SHA-256 is any function to 32 bytes, and one that may fail for the checksum functions.
- nanopb pointer, oneof, extension, repeated, packed and required fields, static strings and byte arrays, delimited and
  null-terminated messages; structs are values indexed by field, without offsets or aliasing.
- PbDecode.DecodeCallback: the callback is the one that copies a blob; with a null argument see
  `PbDecode.NullArgumentTurns`.
- PbEncode.Encode: messages of 2^64 bytes and more are excluded, and a read-back needs lengths below 2^32.
- Synchronous requests, which process requests from inside the scan; libcurl, sleeping, encoding of requests and the
  contents of responses other than whether they are good.
- Requests.Client.FreeRequest: the memory of a released request is kept as a ghost, so use after release is excluded by
  the invariant rather than by the type.
- Reassembly.Response.Receive: ends at a header that leaves its chunk or announces 2^31 bytes or more; what the code
  then makes of bytes that are not there, or of a size that its counters cannot hold, is not modelled.
- Ledger.UnwrapWrapped: packet sizes from 12 and commands of at most 65535 bytes, the range of the length field.
- HID transport, device exchange, key handling, JSON arguments, the exported wrappers and the generated message tables.
