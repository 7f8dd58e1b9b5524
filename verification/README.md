# Reed–Solomon codec and QR version-1 placement, modelled in Dafny

The system builds a version-1 (21×21) QR symbol from a text message:

- `ReedSolomon` turns the message into the 19 data codewords of the byte mode. These are mode indicator 0100, an 8-bit length, the bytes, terminator 0000, and pad bytes up to 152 bits.
- `ReedSolomon` then appends seven error-correction bytes. They are the remainder of a division in GF(256), modulo the primitive polynomial 0x11D, by the generator (x + 2^0)…(x + 2^6).
- It also contains a Berlekamp–Massey/Forney decoder, `decode_message`.
- `QRCode` lays a codeword stream out in the symbol with mask pattern 3. It walks the two-column zig-zag over every free module, XORs each data bit with the mask, and writes the format bits for mask 3. It then draws the timing pattern, the three finder patterns and the dark module.

The project models both classes as pure functions over immutable values:

- Field elements are `int`s in 0..255 (`Field.Byte`).
- Polynomials are `seq<Byte>`, highest coefficient first, as the source's `std::vector<int>`.
- The exponent and logarithm tables are a value `Field.Tables` passed to every table-driven operation. It satisfies `Field.Valid`, which `GaloisField.InitTablesCorrect` proves `init_tables` establishes.
- The QR matrix is `seq<seq<int>>`.
- Every `throw` of the source becomes a `Failure` of `Outcomes.Result`. So do the out-of-range accesses the codec can reach from its inputs: `OutOfBounds` for the syndromes of an empty message, an empty error locator in `find_errors`, an erasure position outside the message, a result shorter than the check bytes, and a message with too few bits for `generate`; `TableIndexOutOfRange` for a negative index into the exponent table. Other out-of-range accesses are excluded by a `requires` or by the `Byte` type instead, as listed under "Left out".

Modules, in dependency order:

- `Outcomes`: results and error kinds.
- `GaloisField`: GF(2^8) on `bv8`, the no-table multiply and `init_tables`, and the field laws.
- `Field`: the `int` view the codec computes in: `gf_mul`, `gf_div`, `gf_inverse`, `gf_pow`.

The four table operations appear twice. `Field.Mul`, `Field.Div`, `Field.Inverse` and `Field.Pow` model `gf_mul`, `gf_div`, `gf_inverse` and `gf_pow` as the source computes them. They work on `int` symbols, and every other module calls them. `GaloisField.GfMul`, `GfDiv`, `GfInverse` and `GfPow` are the same lookups on `bv8`. They are the proof view, where the field laws are proved, and `Field`'s bridge lemmas (`MulMatches` and its companions) carry those laws over. Rows for both cite the same source lines.
- `Polynomial`: evaluation, addition, scaling, multiplication and division of polynomials, with their meaning as polynomial values.
- `Bits`: `std::bitset<8>` strings.
- `Codec`: `generator_poly`, `encode_message`, `get_code`, `encode`.
- `Decoder`: `decode_message` and all its helpers, as written.
- `QrCode`: the `QRCode` class.

## Model

| member | source | states |
|---|---|---|
| GaloisField.XTimeIsReduce | src/reed_solomon.cpp:24-26 | one shift-and-reduce step of `gf_mult_noLUT`, done on 16 bits, equals the 8-bit multiply-by-alpha |
| GaloisField.DoubleIsXTime | src/reed_solomon.cpp:12 | `gf_mult_noLUT(x, 2)`, the step between two table entries, is multiplication by alpha |
| GaloisField.AlphaOrder | include/reed_solomon.h:9 | alpha = 2 has order dividing 255 modulo 0x11D: alpha^255 = 1 |
| GaloisField.AlphaPowNotOne | include/reed_solomon.h:9 | no smaller positive power of alpha is 1, so 0x11D is primitive and alpha has order exactly 255 |
| GaloisField.PowersCoverNonZero | src/reed_solomon.cpp:9-13 | every non-zero byte is some power of alpha, so the first loop of `init_tables` gives every non-zero value a logarithm |
| GaloisField.AlphaPowInjective | src/reed_solomon.cpp:9-13 | the 255 powers written by the loop are pairwise distinct, so no logarithm is overwritten |
| GaloisField.InitTablesCorrect | src/reed_solomon.cpp:5-18 | from zero-filled tables, `init_tables` leaves exp[i] = alpha^(i mod 255) for all 512 entries and log[v] < 255 with alpha^log[v] = v for v ≠ 0 |
| GaloisField.ExpRecurrence | src/reed_solomon.cpp:7-17 | the exponent table the model builds starts at 1, each entry from 1 to 254 is the previous one doubled by `gf_mult_noLUT`, and each entry from 255 to 511 equals the entry 255 places before it |
| GaloisField.MulMatchesNoLut | src/reed_solomon.cpp:20-34 | the table multiply `gf_mul` agrees with the table-free `gf_mult_noLUT` on every pair of bytes |
| GaloisField.MulCommutative | src/reed_solomon.cpp:31-34 | table multiplication is commutative |
| GaloisField.MulDistributive | src/reed_solomon.cpp:31-34 | table multiplication distributes over XOR |
| GaloisField.MulAssociative | src/reed_solomon.cpp:31-34 | table multiplication is associative |
| GaloisField.GfMul | src/reed_solomon.cpp:31-34 | a product is zero exactly when a factor is zero |
| GaloisField.GfInverse | src/reed_solomon.cpp:50-53 | fails with InverseOfZero exactly on 0; otherwise x times the result is 1 |
| GaloisField.GfDiv | src/reed_solomon.cpp:36-41 | fails with DivisionByZero exactly when the divisor is 0; otherwise quotient times divisor is the dividend |
| GaloisField.PowCorrect | src/reed_solomon.cpp:43-48 | for a non-negative exponent `gf_pow` gives the repeated product x·x·…·x |
| GaloisField.NegativePow | src/reed_solomon.cpp:43-48 | for a negative exponent and x ≠ 0, `gf_pow` succeeds exactly when x^(-power) = 1, and then returns 1; otherwise the table read goes below index 0 |
| GaloisField.PowOfTwo | src/reed_solomon.cpp:43-48 | `gf_pow(2, i)` is alpha^i |
| Field.InitTables | src/reed_solomon.cpp:5-18 | the constructor's tables, in the `int` representation, are valid tables |
| Field.Inverse | src/reed_solomon.cpp:50-53 | fails exactly on 0; otherwise x times the result is 1 |
| Field.Div | src/reed_solomon.cpp:36-41 | fails exactly on divisor 0; otherwise the quotient times the divisor is the dividend (0 / y = 0 included) |
| Field.Pow | src/reed_solomon.cpp:43-48 | exponent 0 gives 1 whatever x is (0^0 = 1); 0 to any other power, negative included, is 0 without a table read; a failure happens only for a negative exponent, as a read before the table |
| Field.PowNonNegative | src/reed_solomon.cpp:43-48 | on a non-negative exponent `gf_pow` is repeated multiplication |
| Field.NegativePowOfTwo | src/reed_solomon.cpp:43-48 | `gf_pow(2, -l)` for l > 0 succeeds exactly when 255 divides l, and then gives 1 |
| Field.MulComm | src/reed_solomon.cpp:31-34 | `gf_mul` on ints is commutative |
| Field.MulAssoc | src/reed_solomon.cpp:31-34 | `gf_mul` on ints is associative |
| Field.MulDist | src/reed_solomon.cpp:31-34 | `gf_mul` on ints distributes over `^` |
| Field.Mul | src/reed_solomon.cpp:31-34 | `gf_mul` is zero exactly when a factor is zero, since every exponent-table entry is a non-zero power of alpha |
| Field.MulNonZero | src/reed_solomon.cpp:31-34 | a product is 0 exactly when a factor is 0 |
| Field.MulOne | src/reed_solomon.cpp:31-34 | 1 is the multiplicative identity |
| Polynomial.PolyEval | src/reed_solomon.cpp:55-61 | Horner's loop yields the polynomial's value, the sum of p[k]·x^(n-1-k) |
| Polynomial.ValueIsSum | src/reed_solomon.cpp:55-61 | the recursive value equals the explicit sum of terms |
| Polynomial.PolyAdd | src/reed_solomon.cpp:63-74 | the sum is as long as the longer operand; for equal lengths it is the coefficient-wise XOR |
| Polynomial.PolyAddLonger | src/reed_solomon.cpp:63-74 | the shorter operand is aligned at the low end, padded with leading zeros |
| Polynomial.ValueAdd | src/reed_solomon.cpp:63-74 | the value of the sum is the sum of the values at every point |
| Polynomial.ValueScale | src/reed_solomon.cpp:76-82 | scaling the coefficients by c scales the value by c |
| Polynomial.PolyMul | src/reed_solomon.cpp:84-93 | the product has \|p\| + \|q\| − 1 coefficients |
| Polynomial.ValueMul | src/reed_solomon.cpp:84-93 | the value of the product is the product of the values at every point |
| Polynomial.PolyMulIsProduct | src/reed_solomon.cpp:84-93 | the row-by-row loop computes the convolution of the coefficient sequences |
| Polynomial.PolyMulOne | src/reed_solomon.cpp:84-93 | multiplying by the constant 1 gives the polynomial back |
| Polynomial.PolyDiv | src/reed_solomon.cpp:95-113 | the quotient has \|dividend\| − \|divisor\| + 1 coefficients and the remainder \|divisor\| − 1 |
| Polynomial.DivisionIdentity | src/reed_solomon.cpp:95-113 | quotient × divisor + remainder = dividend, where the divisor is taken with leading coefficient 1, as the loop treats it |
| Polynomial.MonicDivision | src/reed_solomon.cpp:95-113 | for a divisor with leading coefficient 1 the loop is exact polynomial division |
| Polynomial.ValueDivision | src/reed_solomon.cpp:95-113 | the division identity holds at every point |
| Bits.ValueOfBits | src/reed_solomon.cpp:123-124 | the bits `bitset<k>::to_string` writes for v read back as v mod 2^k |
| Bits.BitsOfValue | src/reed_solomon.cpp:144-146 | writing out the value of a bit string gives the string back |
| Bits.PackFlatten | src/reed_solomon.cpp:143-147 | cutting the bit string of a byte sequence into bytes gives the bytes back |
| Bits.FlattenPack | src/reed_solomon.cpp:143-147 | a bit string whose length is a multiple of 8 is the bit string of its bytes |
| Codec.GeneratorPoly | src/reed_solomon.cpp:163-170 | the generator has 8 coefficients and leading coefficient 1 |
| Codec.GeneratorRoots | src/reed_solomon.cpp:163-170 | 2^0, …, 2^6 are roots of the generator |
| Codec.EncodeMessage | src/reed_solomon.cpp:151-161 | the codeword is the message followed by exactly seven check bytes |
| Codec.EncodeIsMultiple | src/reed_solomon.cpp:151-161 | the codeword is a multiple of the generator polynomial |
| Codec.EncodedRoots | src/reed_solomon.cpp:151-161 | every codeword vanishes at 2^0, …, 2^6 |
| Codec.PadLength | src/reed_solomon.cpp:135-142 | padding a whole number of bytes yields max(length, 152) bits |
| Codec.GetCode | src/reed_solomon.cpp:120-149 | `get_code` yields max(19, n + 2) codewords for an n-byte message |
| Codec.GetCodeLayout | src/reed_solomon.cpp:120-149 | the codewords are the packed frame (0100, length, bytes, 0000) followed by the pad bytes 0x11, 0xEC, 0x11, … |
| Codec.GetCodeReadBack | src/reed_solomon.cpp:120-149 | the 8-bit length field reads back as n mod 256 and the n message bytes read back from bit 12 on |
| Codec.Encode | src/reed_solomon.cpp:115-118 | `encode` is `get_code`'s codewords followed by seven check bytes |
| Decoder.CalcSyndromes | src/reed_solomon.cpp:172-179 | a leading 0, then the value of the message at 2^0, …, 2^6; an empty message fails as an out-of-bounds read |
| Decoder.SyndromesZero | src/reed_solomon.cpp:172-179 | all syndromes are zero exactly when the message vanishes at 2^0, …, 2^6 |
| Decoder.EncodedSyndromes | src/reed_solomon.cpp:151-179 | an encoded message has all-zero syndromes |
| Decoder.ForneyStepIsProduct | src/reed_solomon.cpp:261-266 | one pass of the inner Forney loop multiplies the syndrome polynomial by (x + X) and drops the leading term |
| Decoder.ForneySyndromes | src/reed_solomon.cpp:253-269 | drops the leading 0 of the syndromes and keeps their count; with no erasures it does nothing else; it succeeds whenever every erasure position is below nmess |
| Decoder.BmStepConstant | src/reed_solomon.cpp:216-225 | a Berlekamp–Massey step keeps the locator's constant term at 1 |
| Decoder.BmLoop | src/reed_solomon.cpp:208-226 | the locator has 1 to 8 coefficients and constant term 1 after the loop |
| Decoder.StripLeadingZeros | src/reed_solomon.cpp:228-230 | the result is a suffix after a run of zeros and does not start with 0 |
| Decoder.FindErrorLocator | src/reed_solomon.cpp:201-236 | on success the locator starts non-zero, ends in 1, and 2·(errors − erasures) + erasures ≤ 7; otherwise TooManyErrors |
| Decoder.FindErrorsExact | src/reed_solomon.cpp:238-251 | each reported position p is below nmess with the locator vanishing at 2^(nmess−1−p); every root 2^k with k < nmess is reported; positions strictly decrease |
| Decoder.FindErrors | src/reed_solomon.cpp:238-251 | success yields exactly deg(locator) positions; otherwise it fails with OutOfBounds for an empty locator, whose `poly[0]` cannot be read, or CouldNotFindErrorLocations when the root count differs from the degree |
| Decoder.ValueErasureLocator | src/reed_solomon.cpp:181-190 | the erasure locator evaluates to the product of the factors (1 + 2^e·x) |
| Decoder.ErasureLocatorRoots | src/reed_solomon.cpp:181-190 | the inverse of each 2^e is a root of the erasure locator |
| Decoder.EvaluatorIsLowTerms | src/reed_solomon.cpp:192-199 | the evaluator is the low nsym + 1 coefficients of synd × locator, since dividing by x^(nsym+1) leaves them as the remainder |
| Decoder.ErrataLocationsOnlyAtZero | src/reed_solomon.cpp:286-290 | the X loop succeeds exactly when every coefficient position is 0, since `gf_pow(2, -(255 − c))` reads below the table otherwise; each X is then 1 |
| Decoder.CorrectErrata | src/reed_solomon.cpp:271-321 | the corrected message has the input's length; positions not listed are unchanged |
| Decoder.CorrectErrataNoPositions | src/reed_solomon.cpp:271-321 | with no positions the message comes back unchanged |
| Decoder.MagnitudesRepeatedOne | src/reed_solomon.cpp:293-313 | two X values equal to 1 make the derivative 0, and the loop fails with CannotFindErrorMagnitude |
| Decoder.CorrectErrataOnlyLast | src/reed_solomon.cpp:271-321 | `correct_errata` can only succeed with no position or the single last position |
| Decoder.Erase | src/reed_solomon.cpp:329-334 | erased positions become 0, others are kept; a position outside the message fails |
| Decoder.Split | src/reed_solomon.cpp:342-346 | data followed by ecc is the message, ecc being its last seven symbols |
| Decoder.Repair | src/reed_solomon.cpp:349-369 | a successful repair is the output of `correct_errata` split, and that output has zero syndromes |
| Decoder.DecodeRejects | src/reed_solomon.cpp:325-338 | more than 255 symbols, an erasure outside the message, and more than seven erasures each fail with their own error |
| Decoder.DecodeResultIsCodeword | src/reed_solomon.cpp:323-370 | whatever a successful decode returns is seven check symbols after the data, and it vanishes at 2^0, …, 2^6 |
| Decoder.DecodeEncoded | src/reed_solomon.cpp:151-161 | decoding an encoded message without erasures returns the message and its check bytes |
| Decoder.DecodeEncode | src/reed_solomon.cpp:115-118 | decoding `encode`'s output gives back `get_code`'s codewords, whose length field and data read back as the message |
| Decoder.DecodeWithoutErasures | src/reed_solomon.cpp:340-358 | without erasures, decoding succeeds only on a message that is already a codeword, and returns it unchanged |
| Decoder.DecodeCorrectsOnlyLast | src/reed_solomon.cpp:349-358 | with erasures, a decode that must correct something succeeds only for the single erasure of the last symbol |
| QrCode.MaskConditionsStandard | src/qr_code.cpp:11-32 | for non-negative coordinates each of the eight cases is the mask condition of ISO/IEC 18004 section 7.8.2 for its pattern reference |
| QrCode.MaskFnDiagonal | src/qr_code.cpp:11-20 | with MASK_INDEX 3, `mask_fn(r, c)` holds exactly when 3 divides r + c, for all ints including negatives |
| QrCode.MaskFnPeriodic | src/qr_code.cpp:19-20 | mask 3 is symmetric in row and column and repeats every three rows |
| QrCode.FillAreaCells | src/qr_code.cpp:64-70 | `fill_area` sets exactly the rows row..row+height−1 of columns column..column+width−1, and nothing else |
| QrCode.ServiceInfoCells | src/qr_code.cpp:72-79 | `fill_service_info` sets exactly the three finder-and-format corners, the two timing strips and the dark module, and leaves other cells alone |
| QrCode.ServiceMapCells | src/qr_code.cpp:35-36 | in the scratch matrix a cell is 0 exactly when it is not reserved |
| QrCode.WalkBounded | src/qr_code.cpp:43-60 | every cell the walk records lies at or after the current position in walk order |
| QrCode.WalkRanked | src/qr_code.cpp:43-60 | the walk records cells in strictly decreasing walk order, so no cell twice |
| QrCode.ModuleSequence | src/qr_code.cpp:34-62 | every cell of the sequence lies on the grid, is free of the reserved areas and off column 6, and no cell repeats |
| QrCode.FillMatrixCells | src/qr_code.cpp:81-94 | the k-th cell of the sequence receives bit 7 − k mod 8 of codeword k / 8 XOR the mask; cells not in the sequence are unchanged |
| QrCode.ModuleBitFlatten | src/qr_code.cpp:88-91 | for a byte message, the bit read for module k is bit k of the message's bit string, most significant bit first |
| QrCode.ApplyMaskCells | src/qr_code.cpp:97-113 | `apply_mask` writes exactly the 31 format cells around the top-left finder and along the other two, with mask 3's format bits; cell (8, 8) is written twice and keeps the second line's last bit, the later write; everything else is unchanged |
| QrCode.TimingCells | src/qr_code.cpp:119-122 | the timing loop darkens (6, i) and (i, 6) for i = 8, 10, 12 and nothing else |
| QrCode.FindersCells | src/qr_code.cpp:125-138 | the finder loop darkens exactly the outlines of the three 7×7 finder patterns |
| QrCode.CentresCells | src/qr_code.cpp:141-147 | the centre loop darkens exactly the three 3×3 finder cores |
| QrCode.SpecLinesCells | src/qr_code.cpp:115-151 | `generate_spec_lines` darkens exactly the finder outlines and cores, the timing cells and the dark module (13, 8) |
| QrCode.MarkersAreService | src/qr_code.cpp:72-79 | every cell the function patterns darken is reserved by `fill_service_info` |
| QrCode.FormatIsService | src/qr_code.cpp:72-79 | every format cell `apply_mask` writes is reserved, so no data bit is overwritten |
| QrCode.Generate | src/qr_code.cpp:3-9 | succeeds with a 21×21 matrix exactly when the message has a codeword for every module of the sequence; otherwise it fails as an out-of-bounds read |
| QrCode.GenerateCells | src/qr_code.cpp:3-9 | a message with a codeword for every module of the sequence is accepted, and the generated symbol satisfies SymbolCells: each sequence cell holds its masked message bit; function-pattern cells are 1; remaining format cells hold the format bits; every other cell is 0 |

## Left out

- `main.cpp` and `save_qr_to_ppm` (include/qr_code.h:6-30) are program entry and file output, which are I/O.
- `ReedSolomon::decode` (src/reed_solomon.cpp:372-374) has an empty body and returns nothing, so there is nothing to model.
- The characters of the `std::string` message are taken as bytes 0..255. The signed-`char` conversion of `std::bitset<8>(c)` keeps the same low eight bits.
- Codec.GetCode: its length field is the message length mod 256, as `bitset<8>(message.size())` writes it. The pad loop starts with 0x11, not the 0xEC of ISO/IEC 18004, and this is modelled as written. A message longer than 17 bytes produces more than 19 codewords, as the source does, with no capacity check.
- GaloisField.MultNoLut works on bytes. The source's `int` arguments outside 0..255 are never passed by the codec and are not modelled.
- Polynomial.PolyMul: requires at least one non-empty operand. With both empty the source builds a vector of size −1, which throws `length_error`.
- Polynomial.DivisionIdentity: states the identity for the divisor with its leading coefficient replaced by 1 (`Monic`). The loop never reads that coefficient. All divisors the codec passes are monic, and `MonicDivision` states the plain identity for them.
- Undefined behaviour is modelled as a failure, not as whatever the compiled program does, except for the `gf_pow` overflow under `Field.Pow` below:
  - reads and writes outside a vector become `OutOfBounds`;
  - a negative index into `gf_exp_` becomes `TableIndexOutOfRange`;
  - `*max_element` of an empty range cannot occur, because the syndromes always hold eight entries.
- Field.Pow: multiplies `log[x] * power` as an unbounded integer. The source computes it in a 32-bit `int`. With log[x] = 254, any |power| >= 8,454,661 overflows, which is undefined behaviour. The model instead returns the table entry, and a failure only for a negative index. No caller comes near the bound: the codec calls `gf_pow` with exponents 0..6, erasure positions 0..254, 1, and −l for l in 1..255. The same holds for `GaloisField.GfPow`, `GaloisField.PowCorrect`, `GaloisField.NegativePow` and `Field.PowNonNegative`.
- Decoder.FindErrorLocator: requires at least seven syndromes, as does `Decoder.BmLoop`. With fewer, and fewer than seven erasures, the source reads `synd[K]` at a negative K = i + |synd| − 7. `decode_message` always passes the seven Forney syndromes that `forney_syndromes` returns for eight syndromes (src/reed_solomon.cpp:349-351), so the case is not modelled.
- Decoder.FindErrors: a non-positive `nmess` finds no positions, and the source's size comparison then fails unless the locator is constant. This is modelled that way but stated only as its success and failure shapes.
- Decoder.BmLoop: states the locator's length and constant term. The stronger claim, that Berlekamp–Massey yields the shortest LFSR generating the syndromes, is not proved.
- The decoder's correction capacity is not proved. It is not what the code does: `decode_message` passes `erase_pos` rather than the positions found to `correct_errata`, and `gf_pow(2, -l)` reads before the table, so corrections succeed only in the cases `DecodeCorrectsOnlyLast` allows.
- The format bit table `mask_lines` (include/qr_code.h:45-53) is taken as given. That its rows are the BCH-coded format information of ISO/IEC 18004 is not checked.
- QrCode.ModuleSequence: states that the walk visits only free cells, each once. Two facts are not proved: that it visits every free cell, and that it has exactly 208 cells. So `Generate` succeeding on the 26 codewords of an encoded message is not derived; it is stated as a condition on the message length.
- QrCode.Generate: models one call on a freshly constructed `QRCode`. The matrix `qr_code_` is a member and is not cleared between calls, so a second call would start from the first call's symbol.
- QrCode.FillArea: requires a non-negative width and a rectangle inside the grid. A negative width makes `std::vector` throw `length_error`, and larger rectangles write outside the matrix. `fill_service_info` passes only in-grid rectangles.
- Polynomial.PolyEval: requires a non-empty polynomial, since the source reads `poly[0]` unchecked. Every caller passes a non-empty one.
- Polynomial.PolyDiv: requires a non-empty divisor at most one coefficient longer than the dividend. With an empty divisor the loop reads one past the dividend. With a longer divisor `len_diff + 1` is negative and the `coeffs` vector throws `length_error`. The codec divides by two divisors, and both calls meet this bound. `encode_message` divides the message followed by seven zeros by the 8-coefficient generator, so the dividend has at least seven coefficients. `find_error_evaluator` divides the product of the syndromes and the locator by x^(nsym+1), which has nsym + 2 coefficients. `Decoder.FindErrorEvaluator` requires nsym + 2 to be at most the two factors' combined length, which is the product's length plus one.
- Decoder.CorrectErrata: requires every position to lie inside the message, since the source writes `E[err_pos[i]]` unchecked. In the model its only caller is `Repair`, which `DecodeMessage` reaches through `DecodeErased`. Before that, `DecodeMessage` calls `Erase`, which fails on any position outside the message. The source's erasure loop writes `msg_out[e_pos]` unchecked as well.
- Decoder.DecodeMessage: the received symbols are typed `Byte`, 0..255. `decode_message` takes a `std::vector<int>`, and a symbol outside 0..255 would make `gf_mul` index `gf_log_` out of range. That input is not modelled.
- `std::memcpy` of `width * sizeof(int)` bytes is modelled as the element-wise copy it performs.
