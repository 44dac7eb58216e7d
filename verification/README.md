# A verified model of the big-integer library of sign-sdk

`BigUnsigned` is a natural number kept in a growable array of 64-bit blocks, least significant
first, the top block nonzero. On it stand `BigInteger` (a sign and a magnitude),
`BigUnsignedInABase` (digits in any base from 2 to 65535), the number-theory algorithms (gcd,
extended Euclid, modular inverse and exponentiation), decimal text, and `dataToBigInteger`.
Two companions with loops of their own are modelled beside it: `Bin128ToDec`, a second and
independent binary-to-decimal conversion, and `findDG2ImagePayload`, a flat walk over BER-TLV
bytes.

The classes have the source's fields, and their methods update them in place with the source's
own loops: carries and borrows are the wraparound comparisons, multiplication is shift-and-add,
division is shift-and-subtract through a work buffer. `Value()` is the number a state stands for
and `Valid()` adds that the form is canonical. `Apart` says that distinct objects own distinct
arrays; receivers may be the same object as an operand wherever the source allows it, and the
contracts cover those calls. A method proved here never leaves its arrays: Dafny checks every
access, also where the source tests no bound (the carry ripple of `multiply`, the borrow of `--`,
the digit buffer of the base conversion). An exception is an `Outcome` or a `Result`.

The layers, bottom up:

- `Powers`, `Radix`, `Bits`, `Divisibility`, `Symbols`, `Decimals`: arithmetic the rest is stated in. `Val(s, b)`
  is the number digits `s` spell in base `b`.
- `Blocks`, `BlockLoops`, `Multiplication`, `Division`, `Shifts`, `BlockBits`: the loops over blocks.
- `Leftovers`: what the division leaves, as a function of two numbers.
- `BigUnsigneds`, `BigIntegers`, `InABase`, `Text`, `Data`: the library.
- `Runs`, `PowerRuns`, `Algorithms`: the number-theory algorithms, on numbers and on objects.
- `Bin128`, `Tlv`: the two companions.

## Two readings of the division

The comment on line 514 of `big_unsigned.cpp` says that the portion of `subtractBuf` an attempt computed
is copied back. Line 515 copies up to the top block instead, and the entries above `i + b.len` are left
from earlier attempts. Everything that divides is modelled once, with a flag for the copy back, and
stated under both readings. `DivideWithRemainder`, `Gcd`, `FromBigUnsigned` and so on are the code with
the copy back of the comment: they do what the library promises, for all inputs. The members whose names
end in `AsWritten` are the code as it stands. What line 515 does to each of them:

| as written | right |
|---|---|
| unsigned division | quotient always; remainder if and only if every preliminary quotient block above the lowest nonzero one is odd (`Spared`) |
| signed division, `/`, `%` | quotient whenever one is returned; with equal signs the remainder if and only if the division of magnitudes is spared; with opposite signs it throws if and only if that division, of the magnitude less one, is not |
| digits and text of a number | if and only if the number is below 2^64; any other throws "too big" in the conversion of some digit, in every base |
| agreement of the two decimal printers | if and only if the two high words are zero |
| `gcd` | below 2^64, and 2^64 is the largest such bound; and whenever every division is spared; gcd(2^64, 9) never returns |
| `extendedEuclidean`, `modinv` | for magnitudes below 2^64, again the largest such bound; and whenever every division is spared; they never return on 2^64 and 9, and throw over -(2^64 + 6) and 3 |
| `modexp` | whenever every division is spared; for all exponents and all bases whose own reduction is spared if and only if the modulus is at most 2^32, or 2^64; a square, of any reduced base modulo any modulus, if and only if its division is spared |

The `if and only if` lines are exact. That every division is spared is sufficient and not necessary for
a single call of gcd, extended Euclid, inverse or power: a later step can undo the damage by luck, and
there is a witness for each (`LuckyGcd`, `LuckyEuclid`, `LuckyInverse`, `LuckyPower`). As written the
Euclidean loops need not end, so a run is followed for a number of rounds the caller chooses, and may be
reported as still running; a spared run is over within as many rounds as the second number has bits.

## Other places where the code and its comments disagree

- **`bitShiftLeft` of zero** by a block or more leaves zero blocks on top, against the class invariant.
  The contract says that this is the only result that is not canonical.
- **`modexp` with exponent 0 and modulus 1** returns 1, which is not below the modulus. The contract of
  `ModExp` says that this is the only wrong case besides those of line 515.
- **`extendedEuclidean`** promises the gcd; for negative n it gives the negative of it.
- **`modinv`** documents one failure. With n zero and x one it fails with division by zero instead.
- **`dataToBigInteger`** promises to use the low bytes of each piece, whatever the cast puts in the high
  ones. It does not mask them. `DataExact` says exactly when that does no harm, and
  `SignedPiecesSpill` gives signed bytes for which it does.

## Model

| member | source | states |
|---|---|---|
| Blocks.ShiftedBlockIsBlock | sign-sdk/src/big_unsigned.cpp:300-306 | The block the shift computes from two neighbours is block x of num * 2^y, also at x = 0, at x = len and for y = 0 |
| Blocks.ShiftedValue | sign-sdk/src/big_unsigned.cpp:277-306 | All len + 1 shifted blocks together spell num * 2^y; no bit is lost or counted twice |
| BlockLoops.AddWithCarry | sign-sdk/src/big_unsigned.cpp:161-169 | The two wraparound tests together are the carry of the column, for every pair of blocks and carry in |
| BlockLoops.SubtractWithBorrow | sign-sdk/src/big_unsigned.cpp:210-218 | The two reverse wraparound tests together are the borrow of the column |
| BlockLoops.AddBlocks | sign-sdk/src/big_unsigned.cpp:155-188 | The written blocks and the carry out are a + b |
| BlockLoops.SubtractBlocks | sign-sdk/src/big_unsigned.cpp:207-237 | Borrow out of the top if and only if a < b; otherwise the written blocks are a - b |
| BigUnsigneds.BigUnsigned.Add | sign-sdk/src/big_unsigned.cpp:132-189 | The sum, canonical, also when the receiver is an operand |
| BigUnsigneds.BigUnsigned.Subtract | sign-sdk/src/big_unsigned.cpp:191-240 | Fails if and only if a < b, and says what a failure leaves; otherwise the difference, canonical, also when the receiver is an operand |
| BigUnsigneds.BigUnsigned.CompareTo | sign-sdk/src/big_unsigned.cpp:79-100 | Decides the order of the numbers |
| BigUnsigneds.BigUnsigned.Equals | sign-sdk/include/numberlike_array.h:149-162 | Equal arrays if and only if equal numbers, on canonical operands |
| BigUnsigneds.BigUnsigned.ZapLeadingZeros | sign-sdk/include/big_unsigned.h:31-33 | Canonical afterwards, the number unchanged, only zeros dropped |
| BigUnsigneds.BigUnsigned.FromBlocks | sign-sdk/include/big_unsigned.h:46-49 | The number any block array spells, leading zeros allowed, in canonical form |
| BigUnsigneds.BigUnsigned.Allocate | sign-sdk/include/numberlike_array.h:86-96 | Capacity for c blocks; nothing moves when there is room already |
| BigUnsigneds.BigUnsigned.AllocateAndCopy | sign-sdk/include/numberlike_array.h:98-112 | Capacity for c blocks and the contents kept |
| BigUnsigneds.BigUnsigned.Assign | sign-sdk/include/numberlike_array.h:125-137 | The other's contents, without sharing its array; no effect on itself |
| Multiplication.RippleColumn | sign-sdk/src/big_unsigned.cpp:364-369 | While a carry is on there is a block left for it: the ripple cannot leave the buffer |
| Multiplication.AddShifted | sign-sdk/src/big_unsigned.cpp:335-369 | One set bit of a: the buffer grows by exactly b * 2^y * B^i |
| Multiplication.MultiplyBlock | sign-sdk/src/big_unsigned.cpp:332-371 | After bit y of block i, the low bits of a so far times b; at the end of the block, a[i] * b * B^i added |
| Multiplication.MultiplyBlocks | sign-sdk/src/big_unsigned.cpp:328-372 | The product of any two nonempty block strings, inside alen + blen blocks |
| BigUnsigneds.ProductLength | sign-sdk/src/big_unsigned.cpp:373-374 | A product of canonical numbers has at most one leading zero block, so dropping one is enough |
| BigUnsigneds.BigUnsigned.Multiply | sign-sdk/src/big_unsigned.cpp:308-375 | The product, canonical, also when the receiver is an operand |
| Division.AttemptDecides | sign-sdk/src/big_unsigned.cpp:498-509 | The final borrow tells whether the shifted divisor fits; the buffer holds the difference, modulo the window when it does not |
| Division.SettleBit | sign-sdk/src/big_unsigned.cpp:486-518 | The invariant of the bit loop: dividend = window + q * b and window < b * 2^y, kept by every attempt, hit or miss; and what the last attempt leaves on top |
| Division.AfterBlock | sign-sdk/src/big_unsigned.cpp:481-520 | The invariant of the block loop: a = rest + q * b * B^i and rest < b * B^i, and the block above the window is now zero, which is why columns i to i + b.len are enough |
| Division.DivideLoop | sign-sdk/src/big_unsigned.cpp:479-520 | a = r + q * b with r < b, and exactly what is left above the remainder under either reading of the copy back |
| Division.QuotientLength | sign-sdk/src/big_unsigned.cpp:521-522 | Of the preliminary quotient blocks at most the top one is zero |
| BigUnsigneds.BigUnsigned.ShiftSubtract | sign-sdk/src/big_unsigned.cpp:463-526 | Quotient and remainder canonical; quotient a / b; remainder under either reading of line 515 |
| BigUnsigneds.BigUnsigned.DivideWithRemainder | sign-sdk/src/big_unsigned.cpp:388-526 | With the copy back of the comment: old a = q * b + r with r < b; b = 0 gives q = 0 and leaves a; fails only for q the same object, changing nothing; b may be the receiver or q |
| BigUnsigneds.BigUnsigned.DivideWithRemainderAsWritten | sign-sdk/src/big_unsigned.cpp:388-526 | With line 515 as written: the quotient is exact, the remainder off by `Garbage`, and exact if and only if the quotient blocks in question are odd; fails only for q the same object, changing nothing |
| Division.GarbageFreeIff | sign-sdk/src/big_unsigned.cpp:511-516 | The leftover is zero if and only if every preliminary quotient block above the lowest nonzero one is odd |
| Leftovers.LeftoverDecides | sign-sdk/src/big_unsigned.cpp:511-516 | A spared division leaves the remainder; any other leaves more than the divisor, and at least 2^64 more than the remainder |
| Leftovers.GarbageByLength | sign-sdk/src/big_unsigned.cpp:474-516 | Operands of equal length never meet the leftover; b <= a < b * B^(alen - blen), a quotient whose top preliminary block is zero, always does |
| Leftovers.OddGarbage | sign-sdk/src/big_unsigned.cpp:474-516 | Two blocks by one, a < b * B: what stays above the remainder is exactly (B - 1) * B^2 |
| Leftovers.CountOfCanonical | sign-sdk/src/big_unsigned.cpp:463-475 | The lengths the division goes by are functions of the two values, so its outcome is too |
| Leftovers.RemainderOfMultipleOfThree | sign-sdk/src/big_unsigned.cpp:511-516 | (2^64 + 5) / 3 as written: remainder (B - 1) * B^2 where it should be 0 |
| BigUnsigneds.BigUnsigned.BitShiftLeft | sign-sdk/src/big_unsigned.cpp:578-600 | a * 2^b, or floor(a / 2^-b) for negative b; the minimum int is refused; canonical if and only if not zero shifted by a block or more |
| BigUnsigneds.BigUnsigned.BitShiftRight | sign-sdk/src/big_unsigned.cpp:602-634 | floor(a / 2^b), or a * 2^-b for negative b; the minimum int is refused |
| Shifts.RightShiftValue | sign-sdk/src/big_unsigned.cpp:618-633 | Shifting up by the complementary bits and dropping blocks is division by 2^b, with at most one leading zero |
| BigUnsigneds.BigUnsigned.BitLength | sign-sdk/src/big_unsigned.cpp:57-69 | n with 2^(n-1) <= value < 2^n, 0 for zero |
| BigUnsigneds.BigUnsigned.GetBit | sign-sdk/include/big_unsigned.h:109-111 | The bit of the number, across blocks, 0 beyond the length |
| BigUnsigneds.BigUnsigned.SetBlock | sign-sdk/src/big_unsigned.cpp:35-52 | The number changes by (new - old block) * B^i, canonical again whether it grows or shrinks |
| BigUnsigneds.BigUnsigned.SetBit | sign-sdk/src/big_unsigned.cpp:71-76 | The number changes by (new - old bit) * 2^bi and stays canonical |
| BigUnsigneds.BigUnsigned.ToUnsignedShort | sign-sdk/include/big_unsigned.h:379-395 | The value if it is below 2^16, otherwise refused |
| BigUnsigneds.BigUnsigned.BitAnd | sign-sdk/src/big_unsigned.cpp:532-540 | A bit is set if and only if it is set in both, operands of any lengths, aliased or not; canonical |
| BigUnsigneds.BigUnsigned.BitOr | sign-sdk/src/big_unsigned.cpp:542-558 | A bit is set if and only if it is set in either; canonical without zapping |
| BigUnsigneds.BigUnsigned.BitXor | sign-sdk/src/big_unsigned.cpp:560-576 | A bit is set if and only if it differs in the operands; canonical |
| BlockBits.BlockwiseValue | sign-sdk/src/big_unsigned.cpp:528-576 | Working block by block is working on the whole numbers |
| Bits.BitwiseBit | sign-sdk/src/big_unsigned.cpp:528-576 | The operators of the model act on every bit as and, or, difference |
| Bits.BitwiseSum | sign-sdk/src/big_unsigned.cpp:528-576 | x or y plus x and y is x + y; x xor y plus twice x and y is x + y |
| BigUnsigneds.BigUnsigned.Increment | sign-sdk/src/big_unsigned.cpp:639-652 | One more, canonical, growing by a block when every block rolls over |
| BigUnsigneds.BigUnsigned.Decrement | sign-sdk/src/big_unsigned.cpp:658-669 | One less, canonical; zero is refused |
| BigIntegers.BigInteger.FromParts | sign-sdk/src/big_integer.cpp:34-51 | Sign zero with a nonzero magnitude is refused; a zero magnitude forces the sign |
| BigIntegers.BigInteger.CompareTo | sign-sdk/src/big_integer.cpp:157-177 | Decides the order of the integers |
| BigIntegers.BigInteger.Add | sign-sdk/src/big_integer.cpp:192-224 | The sum for every pair of signs, sign zero exactly for zero, also when the receiver is an operand |
| BigIntegers.BigInteger.Subtract | sign-sdk/src/big_integer.cpp:226-264 | The difference, likewise |
| BigIntegers.BigInteger.Multiply | sign-sdk/src/big_integer.cpp:266-279 | The product, likewise |
| BigIntegers.BigInteger.DivideWithRemainder | sign-sdk/src/big_integer.cpp:303-380 | With the copy back of the comment, floor division for all signs: a = q * b + r, r zero or of b's sign, abs(r) < abs(b); b = 0 gives q = 0 and leaves a; b may be the receiver or q |
| BigIntegers.BigInteger.DivideWithRemainderAsWritten | sign-sdk/src/big_integer.cpp:303-380 | As written: throws a negative result if and only if the signs differ and the division of magnitudes is not spared, and says what is left then; otherwise the quotient is the floor quotient, and the remainder right if and only if spared |
| BigIntegers.SignedDivisionMeaning | sign-sdk/src/big_integer.cpp:303-380 | The outcome on numbers, for all signs and zeros: floor division as intended and whenever spared, otherwise a failure (signs differ) or a wrong remainder (signs equal) |
| BigIntegers.FailureMeaning | sign-sdk/src/big_integer.cpp:345-360 | What a failure leaves: the floor quotient, and under the dividend's sign more than the divisor where the remainder was to be |
| BigIntegers.SignedDivisionsThatFail | sign-sdk/src/big_integer.cpp:345-370 | As written (2^64 + 5) / 3 leaves (B - 1) * B^2, and -(2^64 + 6) / 3 throws |
| BigIntegers.CorrectedDivision | sign-sdk/src/big_integer.cpp:331-370 | The decrement, division, increment and (b - 1) - R corrections under either reading: the subtraction goes negative if and only if line 515 is in force and the division not spared |
| BigIntegers.FloorDividedUnique | sign-sdk/src/big_integer.cpp:281-302 | Only one pair (q, r) meets the description of floor division |
| BigIntegers.BigInteger.Negate | sign-sdk/src/big_integer.cpp:383-389 | The opposite number, also in place |
| BigIntegers.BigInteger.Increment | sign-sdk/src/big_integer.cpp:394-402 | One more, across zero |
| BigIntegers.BigInteger.Decrement | sign-sdk/src/big_integer.cpp:408-416 | One less, across zero |
| BigIntegers.BigInteger.Over | sign-sdk/include/big_integer.h:161-167 | The floor quotient, with the copy back of the comment; a zero divisor is refused |
| BigIntegers.BigInteger.OverAsWritten | sign-sdk/include/big_integer.h:161-167 | As written: fails for a zero divisor and for opposite signs not spared, and otherwise gives the floor quotient |
| BigIntegers.BigInteger.Modulo | sign-sdk/include/big_integer.h:168-174 | The floor remainder, with the copy back of the comment; a zero divisor is refused |
| BigIntegers.BigInteger.ModuloAsWritten | sign-sdk/include/big_integer.h:168-174 | As written: fails in the same cases, and otherwise gives the floor remainder if and only if spared |
| Algorithms.Gcd | sign-sdk/src/big_integer_algorithms.cpp:6-15 | With the copy back of the comment: terminates; the result divides both inputs and every common divisor divides it |
| Algorithms.GcdAsWritten | sign-sdk/src/big_integer_algorithms.cpp:6-15 | As written, followed for a number of rounds: computes the run `GcdRun`; the greatest common divisor, within as many rounds as b has bits, whenever every division is spared, so for all numbers below 2^64 |
| Runs.GcdRunCorrect | sign-sdk/src/big_integer_algorithms.cpp:8-14 | As intended every run ends in the greatest common divisor of the pair it started from |
| Runs.GcdRunSpared | sign-sdk/src/big_integer_algorithms.cpp:8-14 | When every division is spared the run as written is the intended one, over within two steps for each bit of b |
| Runs.SmallGcdSpared | sign-sdk/src/big_integer_algorithms.cpp:8-14 | Below 2^64 every division on the way is spared |
| Runs.GcdNeverReturns | sign-sdk/src/big_integer_algorithms.cpp:8-14 | gcd(2^64, 9) as written is still running after any number of steps |
| Runs.GcdBound | sign-sdk/src/big_integer_algorithms.cpp:6-15 | gcd as written returns the intended result for all numbers below a bound if and only if the bound is at most 2^64 |
| Runs.LuckyGcd | sign-sdk/src/big_integer_algorithms.cpp:8-14 | gcd(2^64 + 5, 3) meets a leftover and still returns 3, so the condition is not necessary |
| Divisibility.ReduceRun | sign-sdk/src/big_integer_algorithms.cpp:9-14 | Reducing either variable by the other keeps the common divisors of the original pair |
| Divisibility.GcdOfNaturals | sign-sdk/src/big_integer_algorithms.cpp:6-15 | That makes the result unique, and a itself or b itself when the other is zero |
| Runs.EuclidCorrect | sign-sdk/src/big_integer_algorithms.cpp:23-47 | From any rows that meet the two invariants of the comment, the run as intended ends in a gcd g with r * m + s * n = g |
| Runs.CofactorBound | sign-sdk/src/big_integer_algorithms.cpp:21-47 | The first coefficient never exceeds the second input |
| Runs.EuclidRunSpared | sign-sdk/src/big_integer_algorithms.cpp:23-47 | When every division is spared the run as written is the intended one, over within two steps for each bit of the second number |
| Runs.SmallEuclidSpared | sign-sdk/src/big_integer_algorithms.cpp:23-47 | For magnitudes below 2^64 and any signs, every division on the way is spared |
| Runs.ExtendedRunThrows | sign-sdk/src/big_integer_algorithms.cpp:30-31 | extendedEuclidean over -(2^64 + 6) and 3 throws as written |
| Runs.EuclidFollowsGcd | sign-sdk/src/big_integer_algorithms.cpp:6-48 | On natural numbers extended Euclid as written returns exactly when gcd does, with the same g |
| Runs.ExtendedRunNeverReturns | sign-sdk/src/big_integer_algorithms.cpp:17-48 | So extendedEuclidean over 2^64 and 9 never returns |
| Runs.ExtendedBound | sign-sdk/src/big_integer_algorithms.cpp:17-48 | extendedEuclidean as written gives the intended result for all magnitudes below a bound if and only if the bound is at most 2^64 |
| Runs.LuckyEuclid | sign-sdk/src/big_integer_algorithms.cpp:17-48 | 2^64 + 5 and 3: not spared, and still the intended gcd and coefficients |
| Algorithms.Rounds | sign-sdk/src/big_integer_algorithms.cpp:22-47 | The loop under either reading computes the run of `ExtendedRun`; as intended it terminates for all signed inputs, the magnitude strictly shrinking |
| Algorithms.ExtendedEuclidean | sign-sdk/src/big_integer_algorithms.cpp:17-48 | With the copy back of the comment: r * m + s * n = g for the inputs as they were, g a gcd with the sign of n, m itself when n is zero; abs(r) <= n for positive n; aliased outputs are refused |
| Algorithms.ExtendedEuclideanAsWritten | sign-sdk/src/big_integer_algorithms.cpp:17-48 | As written, followed for a number of rounds: the run `ExtendedRun`, outputs untouched when it fails; gcd and identity, within as many rounds as n has bits, whenever every division is spared, so for all magnitudes below 2^64 |
| Algorithms.ModInv | sign-sdk/src/big_integer_algorithms.cpp:50-58 | With the copy back of the comment: succeeds if and only if n > 0 and gcd(x, n) = 1, and then 0 <= v < n and x * v = 1 modulo n; and which error otherwise |
| Algorithms.ModInvAsWritten | sign-sdk/src/big_integer_algorithms.cpp:50-58 | As written, followed for a number of rounds: the same, within as many rounds as n has bits, whenever the divisions of the extended algorithm are spared, so for abs(x) and n below 2^64 |
| Runs.InverseRunMeaning | sign-sdk/src/big_integer_algorithms.cpp:50-58 | Under either reading, the final reduction modulo n included: the coefficient is no larger than n, so that one is always spared |
| Runs.InverseRunThrows | sign-sdk/src/big_integer_algorithms.cpp:50-58 | -(2^64 + 6) has an inverse modulo 3 and modinv as written throws over it |
| Runs.InverseBound | sign-sdk/src/big_integer_algorithms.cpp:50-58 | modinv as written gives the intended result for all abs(x) and n below a bound if and only if the bound is at most 2^64 |
| Runs.InverseRunNeverReturns | sign-sdk/src/big_integer_algorithms.cpp:50-58 | modinv(2^64, 9) never returns |
| Runs.LuckyInverse | sign-sdk/src/big_integer_algorithms.cpp:50-58 | 2^64 and 3: not spared, the second coefficient wrong, and still the inverse |
| Algorithms.ModExp | sign-sdk/src/big_integer_algorithms.cpp:60-78 | With the copy back of the comment: base^exponent mod modulus for every signed base, if and only if exponent > 0 or modulus > 1; modulus zero is refused |
| Algorithms.ModExpAsWritten | sign-sdk/src/big_integer_algorithms.cpp:60-78 | As written: throws if and only if the modulus is zero or the signs differ and the reduction of the base is not spared; computes the run `ModExpRun`; right for every modulus and exponent whenever every division is spared, so for every modulus up to 2^32, and 2^64, if the reduction of the base is |
| PowerRuns.ModExpRunMeaning | sign-sdk/src/big_integer_algorithms.cpp:60-78 | base^e mod m for every base, exponent and modulus, as intended always, as written whenever every division is spared |
| PowerRuns.ModulusLine | sign-sdk/src/big_integer_algorithms.cpp:60-78 | As written, right for all exponents and all bases whose reduction is spared, or all reduced bases, if and only if the modulus is at most 2^32, or 2^64 |
| PowerRuns.UnsafeModulus | sign-sdk/src/big_integer_algorithms.cpp:65-76 | For every other modulus, of any length, a reduced base is given whose square goes wrong |
| PowerRuns.TurnShows | sign-sdk/src/big_integer_algorithms.cpp:66-76 | A turn as written ends below the modulus if and only if its last division is spared, and otherwise above it |
| PowerRuns.SquareAsWritten | sign-sdk/src/big_integer_algorithms.cpp:65-76 | For every modulus and reduced base: the square as written is right if and only if its division is spared, and otherwise above the modulus |
| PowerRuns.SquareOfOneBlock | sign-sdk/src/big_integer_algorithms.cpp:65-76 | For a modulus of one block that is so if and only if base * base < 2^64 |
| PowerRuns.SquaresThatFail | sign-sdk/src/big_integer_algorithms.cpp:65-76 | (2^32)^2 modulo 2^32 + 1 and (2^40)^2 modulo 2^41 + 1 come out above the modulus |
| PowerRuns.LuckyPower | sign-sdk/src/big_integer_algorithms.cpp:60-78 | 2^64 modulo 3: the reduction of the base is not spared, and still the right power |
| PowerRuns.TurnKeepsPower | sign-sdk/src/big_integer_algorithms.cpp:66-76 | One bit takes ans from base^(exponent >> i + 1) to base^(exponent >> i) modulo the modulus and below it, as intended always, as written when its divisions are spared |
| InABase.DigitBound | sign-sdk/src/big_unsigned_in_a_base.cpp:43-48 | ceil(len * N / (bitLen(base) - 1)) digits hold any number of len blocks, for every base |
| InABase.PeelOne | sign-sdk/src/big_unsigned_in_a_base.cpp:53-61 | One digit: what is stored and what is left still spell the number, and there was room |
| InABase.BigUnsignedInABase.FromBigUnsigned | sign-sdk/src/big_unsigned_in_a_base.cpp:37-65 | With the copy back of the comment: the canonical digits of x for every base of 2 or more, within the buffer; smaller bases are refused |
| InABase.BigUnsignedInABase.FromBigUnsignedAsWritten | sign-sdk/src/big_unsigned_in_a_base.cpp:37-65 | As written: succeeds if and only if base >= 2 and x < 2^64, and then gives the canonical digits; otherwise a base too small or a value too big for a digit |
| InABase.DigitLoopFailsIff | sign-sdk/src/big_unsigned_in_a_base.cpp:53-61 | Some division of the digit loop is not spared if and only if x has two blocks or more, in every base |
| InABase.BigUnsignedInABase.ToBigUnsigned | sign-sdk/src/big_unsigned_in_a_base.cpp:67-76 | Horner's rule gives the number the digits spell |
| InABase.DigitsOfCorrect | sign-sdk/src/big_unsigned_in_a_base.cpp:37-76 | Round trip, number side: the digits of n are canonical, below the base, and spell n |
| InABase.DigitsOfVal | sign-sdk/src/big_unsigned_in_a_base.cpp:37-76 | Round trip, digit side: canonical digits come back from the number they spell |
| InABase.BigUnsignedInABase.FromDigits | sign-sdk/src/big_unsigned_in_a_base.cpp:8-21 | Digits at or above the base are refused; otherwise the digits without leading zeros |
| InABase.BigUnsignedInABase.Equals | sign-sdk/include/big_unsigned_in_a_base.h:116-118 | Equal if and only if same base and same number |
| InABase.BigUnsignedInABase.FromString | sign-sdk/src/big_unsigned_in_a_base.cpp:78-109 | The digits of the string, or the error of its rightmost bad symbol; bases over 36 are refused |
| InABase.BigUnsignedInABase.ToText | sign-sdk/src/big_unsigned_in_a_base.cpp:111-129 | The symbols of the digits, "0" for zero; bases over 36 are refused |
| Symbols.SymbolTable | sign-sdk/src/big_unsigned_in_a_base.cpp:97-102 | The symbols in order of value, 0 to 9 and A to Z when printed, lower case also when read |
| Symbols.SymbolAsDigit | sign-sdk/src/big_unsigned_in_a_base.cpp:97-108 | A symbol is its place in that order, or a digit too large for the base |
| Symbols.BadSymbols | sign-sdk/src/big_unsigned_in_a_base.cpp:97-105 | Every other character, and no other, is a bad symbol |
| Symbols.ScanFails | sign-sdk/src/big_unsigned_in_a_base.cpp:94-108 | Of several errors the rightmost in the string is reported |
| Symbols.PrintParsed | sign-sdk/src/big_unsigned_in_a_base.cpp:78-129 | Printing the digits of a parsed string gives it uppercased, leading zeros gone, "0" when nothing remains |
| Symbols.ParsePrinted | sign-sdk/src/big_unsigned_in_a_base.cpp:78-129 | Parsing printed digits gives the same digits |
| Text.NumeralSteps | sign-sdk/src/big_unsigned_in_a_base.cpp:111-129 | A numeral ends in the symbol of the remainder by the base, and starts with the numeral of the quotient if there is one; below the base it is one symbol |
| Text.ParseSteps | sign-sdk/src/big_unsigned_in_a_base.cpp:78-109 | One more symbol on the right multiplies by the base and adds its digit; the empty string is 0 |
| Text.ParseNumeral | sign-sdk/src/big_integer_utils.cpp:8-20 | Parsing the numeral of any number, in any base from 2 to 36, returns it |
| Text.NumeralOfParsed | sign-sdk/src/big_integer_utils.cpp:8-20 | The numeral of a parsed string is the string normalised |
| Text.ParseSigned | sign-sdk/src/big_integer_utils.cpp:22-30 | A leading minus negates, a leading plus does not, and neither is needed; errors are those of the rest |
| Text.DecIsParsedSigned | sign-sdk/src/big_integer_utils.cpp:22-30 | Decimal strings, with either sign or none, have their decimal value |
| Text.ParseSignedNumeral | sign-sdk/src/big_integer_utils.cpp:12-30 | Parsing the printed form of any signed number returns it |
| Text.BigUnsignedToString | sign-sdk/src/big_integer_utils.cpp:8-10 | With the copy back of the comment: prints the decimal numeral of the number |
| Text.BigUnsignedToStringAsWritten | sign-sdk/src/big_integer_utils.cpp:8-10 | As written: the numeral if and only if the number is below 2^64, otherwise a failure |
| Text.BigIntegerToString | sign-sdk/src/big_integer_utils.cpp:12-16 | With the copy back of the comment: a minus and the numeral of the magnitude for a negative number, the numeral for any other |
| Text.BigIntegerToStringAsWritten | sign-sdk/src/big_integer_utils.cpp:12-16 | As written: the same if and only if the magnitude is below 2^64, otherwise a failure |
| Text.RoundTripAsWritten | sign-sdk/src/big_integer_utils.cpp:12-30 | As written the text round trip holds if and only if the magnitude is below 2^64 |
| Text.TwoTo64DoesNotPrint | sign-sdk/src/big_integer_utils.cpp:8-10 | 2^64 does not print: its last digit would be 6 + (B - 1) * B^2 |
| Text.StringToBigUnsigned | sign-sdk/src/big_integer_utils.cpp:18-20 | The number the string stands for, or the parser's error |
| Text.StringToBigInteger | sign-sdk/src/big_integer_utils.cpp:22-30 | Minus the number after a minus, the number after a plus or without a sign, or the parser's error |
| Data.DataToBigInteger | sign-sdk/include/big_integer_utils.h:49-76 | The pieces packed into blocks with the requested sign; sign zero with a nonzero magnitude is refused |
| Data.PackedBit | sign-sdk/include/big_integer_utils.h:64-70 | A bit of a block is set if and only if some piece, moved to its place, sets it |
| Data.DataExact | sign-sdk/include/big_integer_utils.h:40-70 | The result is the number the low bits of the pieces spell if and only if no high bit spills where that number has a zero |
| Data.UnsignedPiecesExact | sign-sdk/include/big_integer_utils.h:40-70 | Pieces within their width, as every unsigned type gives them, are always right |
| Data.SignedPiecesSpill | sign-sdk/include/big_integer_utils.h:40-70 | Signed bytes -1, 0 give 2^64 - 1 where 255 was promised |
| Bin128.DoubleDigits | sign-sdk/src/xades_generator.cpp:560-568 | The digit string is doubled in decimal, carry in and carry out accounted for |
| Bin128.RoundsStep | sign-sdk/src/xades_generator.cpp:550-569 | Every round keeps the invariant, and its last carry is zero: nothing leaves the digit buffer |
| Bin128.RoundsBound | sign-sdk/src/xades_generator.cpp:550-569 | After i rounds the digits are floor(v / 2^(128 - i)) |
| Text.DecIsParsed | sign-sdk/src/xades_generator.cpp:537-576 | The meaning given to a string of decimal digits is that of the library's parser |
| Bin128.WordsAreDigits | sign-sdk/src/xades_generator.cpp:536-537 | The words are digits in base 2^32, least significant first |
| Bin128.Bin128ToDec | sign-sdk/src/xades_generator.cpp:537-576 | The numeral of the number its four words spell in base 2^32, leading zeros gone, "0" for zero |
| Bin128.PrintBoth | sign-sdk/src/xades_generator.cpp:537-576 | Called on equal values, this printer and the library's give the same text |
| Bin128.PrintBothAsWritten | sign-sdk/src/xades_generator.cpp:537-576 | With the library's printer as written: the same text if and only if the two high words are zero, otherwise a failure |
| Tlv.FlatWalkIsTreeSearch | pkcs11/src/csp/cie_read_chip.cpp:82-161 | For every forest of definite-length TLVs, the flat walk over its encoding finds the preorder-first image node, or nothing |
| Tlv.WalkRefines | pkcs11/src/csp/cie_read_chip.cpp:150-158 | From the start of any encoded forest, whatever bytes follow: the walk finds its preorder-first image node, and without one goes on right behind it; going on inside a constructed value needs no stack |
| Tlv.NothingIffNoImage | pkcs11/src/csp/cie_read_chip.cpp:82-161 | The tree search finds nothing if and only if no node of the tree, at any depth, has tag 5F2E or 7F2E |
| Tlv.NothingFoundIffNoImage | pkcs11/src/csp/cie_read_chip.cpp:82-161 | On an encoded forest the walk finds nothing if and only if no node at any depth has an image tag |
| Tlv.PreorderPlaces | pkcs11/src/csp/cie_read_chip.cpp:119-121 | The places the tree search gives are right: the bytes there are the node's value |
| Tlv.HeaderDecodes | pkcs11/src/csp/cie_read_chip.cpp:87-117 | Tags of one or two bytes and all four length forms decode to what was encoded |
| Tlv.WalkStep | pkcs11/src/csp/cie_read_chip.cpp:86-158 | One step on arbitrary bytes, in terms of the bytes: where the length is read, when the walk stops, what it returns, where it goes on |
| Tlv.WalkFindsTag | pkcs11/src/csp/cie_read_chip.cpp:86-121 | On arbitrary bytes, what is found has 5F 2E or 7F 2E in front of its length |
| Tlv.TagBits | pkcs11/src/csp/cie_read_chip.cpp:90-153 | The tag bits tested: bit 5 for constructed, bits 0 to 4 all set for a second byte |
| Tlv.ImageTags | pkcs11/src/csp/cie_read_chip.cpp:120 | A formed node is an image exactly when its tag is 5F 2E or 7F 2E |
| Tlv.FormedTags | pkcs11/src/csp/cie_read_chip.cpp:87-95 | Which tags the forests may have: one byte, or two with the second below 80 |
| Tlv.FittingLengths | pkcs11/src/csp/cie_read_chip.cpp:100-114 | Which lengths each form may carry |
| Tlv.NestedImage | pkcs11/src/csp/cie_read_chip.cpp:82-161 | 75 06 5F 2E 03 01 02 03 yields the three bytes at 5 |
| Tlv.SignatureBytes | pkcs11/src/csp/cie_read_chip.cpp:126-140 | The three signatures byte by byte |
| Tlv.FindSignature | pkcs11/src/csp/cie_read_chip.cpp:122-147 | The lowest place with one of the three signatures, given as bytes; 0 when there is none |
| Tlv.FindDG2ImagePayload | pkcs11/src/csp/cie_read_chip.cpp:82-161 | On arbitrary bytes it terminates, a returned slice lies inside the input, and it is what the walk finds, cut at the first signature |

## Left out

- BigUnsigneds.BigUnsigned.DivideWithRemainder: copies back blocks i to i + b.len, as the comment on line 514 says, not i to origLen as line 515 does; the code as written is DivideWithRemainderAsWritten.
- BigIntegers.BigInteger.DivideWithRemainder: stands on that reading; see DivideWithRemainderAsWritten.
- BigIntegers.BigInteger.Over: stands on that reading; see OverAsWritten.
- BigIntegers.BigInteger.Modulo: stands on that reading; see ModuloAsWritten.
- Algorithms.Gcd: stands on that reading; see GcdAsWritten.
- Algorithms.ExtendedEuclidean: stands on that reading; see ExtendedEuclideanAsWritten.
- Algorithms.ModInv: stands on that reading; see ModInvAsWritten.
- Algorithms.ModExp: stands on that reading; see ModExpAsWritten.
- InABase.BigUnsignedInABase.FromBigUnsigned: stands on that reading; see FromBigUnsignedAsWritten.
- Text.BigUnsignedToString: stands on that reading; see BigUnsignedToStringAsWritten.
- Text.BigIntegerToString: stands on that reading; see BigIntegerToStringAsWritten.
- Algorithms.GcdAsWritten: a run that is not spared is settled for single inputs only; `LuckyGcd` shows that sparing every division is not necessary.
- Algorithms.ExtendedEuclideanAsWritten: likewise, beyond `EuclidFollowsGcd`; see `LuckyEuclid`.
- Algorithms.ModInvAsWritten: likewise; see `LuckyInverse`.
- Algorithms.ModExpAsWritten: for a modulus off the safe line, a run that is not spared is settled for squares and for its last turn (`TurnShows`); see `LuckyPower`.
- Division.DivideBlock: collects the bits of a quotient block in a local and stores the block once, where the source sets them in q.blk[i] one by one; q is not read in between.
- Algorithms.Rounds: the updated numbers and rows are fresh objects each half round, grouped in a Row, where the source updates its six locals in place, so the reuse of their storage is not modelled.
- BigIntegers.BigInteger.FromNumber: one constructor stands for those from short, int and long, signed and unsigned.
- Data.DataToBigInteger: takes the pieces as already cast to blocks; the cast itself is the caller's type.
- Platforms where unsigned long has 32 bits: the block width is fixed at 64.
- Memory exhaustion, and lengths or bit counts beyond unsigned int: lengths are natural numbers.
- Conversions to C primitive types other than unsigned short, the stream operators, and the compound assignments, which only forward.
- The buffers with a closing zero byte that printing fills, and the static buffer Bin128ToDec returns a pointer into: the text is returned as a value.
- The bytes findDG2ImagePayload does not decode in the tree lemmas: indefinite lengths, tags of three bytes and more, lengths over three bytes. On such bytes only the walk's own contract holds.
- The rest of the repository: card and NFC input and output, PKCS#11 entry points, the RSA mechanisms, and the CMS, PAdES and XAdES code, which stand on libraries that are not part of this model.
