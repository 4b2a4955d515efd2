# Kingmos: verified models of the C library, the dynamic linker and the S3C2410 bootloader

This project models five parts of Kingmos and proves what each of them is for.

* **Software floating point** (`floatlib.c`). Words are natural numbers, and
  every routine works on their fields with integers, exactly as the code does.
  `Format` carries the constants of the two formats, so one proof serves
  `__addsf3` and `__adddf3`, and so on. `Value` is the number a word stands for
  as an exact integer: significand times 2^exponent, the common scale
  2^(excess + precision) factored out. All error bounds are about these exact
  values, never about rounded ones.
* **Numbers as text and the random generator** (`stdlib.c`, `_sprintf.c`). The
  printers fill and reverse a character array, the parser is a class with
  `errno`, the generator a class with its seed, and the printf engine is the loop
  over the format string, which stores into an array through a moving index.
* **ELF relocation** (`dlreloc.h`, `dldyn.h`, both `dlarch.h`). Memory is an
  array of words that the pass patches while it is still reading the tables out
  of that same memory.
* **Bootloader download and USB endpoint 0** (`usbout.c`, `u241mon.c`,
  `usblib.c`, `usbsetup.c`). The handlers are classes whose fields are the
  registers and globals they change. A ghost log records what was programmed.
* **Calendar and object list** (`time.c`, `objlist.c`). `IsLeap` is an arbitrary
  predicate, so the calendar results hold for any leap rule, the library's own in
  `ttime.c` among them, for which two more results hold (`CountsEnd`, `WeekdayOneEarly`).

Methods follow the loops and the in-place updates of the source and are proved
equal to functions. The theorems are about these functions: rounding, inverse
operations, coverage, conservation, order. `long` and `ULONG` are 32 bits wide
and wrap around; wrap-around is written out wherever the code can reach it.

Files named after an entity hold the model, files ending in `Theorems`, `Error`,
`Nearest`, `Limits`, `Standard`, `RoundTrip` or `ReadBack` the results about it. `Words` has
the 32-bit arithmetic, and `Powers` and `Rounding` the lemmas that several parts use.

## What the proofs found

Each of these is a lemma in the table. The code is modelled as it is.

* `__fixdfsi` returns 0 for every magnitude from 2^30 up to 2^31, because a shift
  of exactly 0 is treated like underflow; it truncates correctly everywhere else
  (`FixTruncates`). An integer therefore survives the round trip exactly when its
  magnitude is below 2^30 (`IntegerRoundTrip`).
* `__truncdfsf2` masks the rounding carry with 0xFE000000 and misses 2^24. It
  rounds to within half a unit exactly when the top 25 bits of the significand
  are not all ones (`TruncateRoundsUnlessCarry`; a double that fails is in
  `AllOnesLoseCarry`).
* `__divsf3` is documented to return NaN for a zero divisor; it returns one of
  two integer constants, converted to float (`DivSf3`).
* Multiplication is not always correctly rounded. It returns a nearest number
  exactly when the kept bits do not read just below half a unit while the dropped
  ones would have carried them over it, or the result is already the largest
  number (`MultiplicationNearestIff`).
* Addition is not always correctly rounded. It returns a nearest number exactly
  unless the guard bits read exactly half, bits were lost, and the even rule moves
  away from the exact sum (`AdditionNearestIff`). The early returns never fail, and
  neither do exponents at most 5 apart, or 8 for double (`NoTieLostWithinGuard`).
  Operands of both formats that do fail are in `MultiplicationMissesNearest` and
  `AdditionMissesNearest`.
* `std_strtoul` negates after saturating, so a minus sign with an overflowing
  number gives 1 instead of ULONG_MAX. The value it returns is the one
  ISO/IEC 9899:1999, section 7.20.1.4, asks for exactly when these two do not meet;
  that of `std_strtol` always is (`StrtoulMeetsStandard`, `StrtolMeetsStandard`,
  `MinusOverflowGivesOne`).
* Both parsers give up on a 0x mark without a hexadecimal digit behind it and set
  the end pointer to the start, where the standard's subject sequence is the 0.
  The end pointer is the standard's exactly when there is no such mark (the same
  two lemmas, and `LoneMarkGivesUp` for "0xg").
* `IsValidTime` accepts dates that do not exist and wrong weekdays. A time
  survives the trip through a file time exactly when it is proper and its count
  fits 32 bits (`FileRoundTrip`, `ThirtiethOfFebruary`).
* `std_sprintf` stores its terminator right behind the output exactly when the
  output is shorter than 2^31 bytes, because the index is an int (`Sprintf`,
  `CountTurnsNegative`).
* `_out_stream` prints what ISO/IEC 9899:1999, section 7.19.6.1, asks for, for
  every directive that fits an int, except exactly two: zero in the alternative
  octal form with a precision of zero prints nothing instead of 0, and %c of the
  character NUL moves on without storing it (`DirectiveMeetsStandard`).
* The weekday of a converted time is one day early under the library's own leap
  rule: the code takes 1 January 1980 for a Monday and it was a Tuesday; the clock
  driver counts Sunday as 0 (`WeekdayOneEarly`). The comment in `time.c` ends the
  valid dates with January 2116; they last until 7 February, 06:28:15 (`CountsEnd`).
* An ARM branch whose distance is in range is patched correctly exactly when place
  and target are a whole number of words apart (`BranchHitsTarget`).
* A DMA download ends exactly when its size is at most 2^32 - 0x80000: above that
  the 32-bit total goes back to 0 before it can reach the size (`DownloadEndsIff`).
* `ObjList_Add` reports success for the sole object of a list and ties it to
  itself (`Add`, `AddTwice`). `ObjList_Remove` of a detached object that is not in
  the list empties the list, and of the first object of another list turns the
  list into the rest of that one (`Remove`).

## Model

| member | source | states |
|---|---|---|
| FloatFormat.PackFields | library/stdlib/common/floatlib.c:65-83 | What PACK puts together, SIGN, EXP and MANT take apart, for every exponent that fits its field |
| FloatFormat.FieldsDetermine | library/stdlib/common/floatlib.c:64-83 | A word is the packing of its own fields, so two words with equal fields are equal |
| FloatFormat.ValueInjective | library/stdlib/common/floatlib.c:64-83 | No two normal words stand for the same number, so "the nearest number" names one word |
| FloatDivide.ShiftSubtract | library/stdlib/common/floatlib.c:358-370 | The restoring loop computes floor(n * 2^prec / d) |
| FloatDivide.DivideNonzero | library/stdlib/common/floatlib.c:347-383 | The word assembled from loop, rounding and packing is `QuotientWord`, on every bit pattern |
| FloatDivide.DivSf3 | library/stdlib/common/floatlib.c:322-384 | The whole of `__divsf3` with its zero cases, the zero divisor's integer constants included |
| FloatDivide.DivDf3 | library/stdlib/common/floatlib.c:868-937 | The whole of `__divdf3` with its zero cases |
| FloatDivide.NoTie | library/stdlib/common/floatlib.c:372-377 | Adding one and halving leaves an error strictly below half a unit: a tie cannot occur |
| FloatDivide.DivisionCorrectlyRounded | library/stdlib/common/floatlib.c:322-384 | Every normal word other than the result is strictly further from the exact quotient, whatever its sign and exponent |
| FloatMultiply.Multiply | library/stdlib/common/floatlib.c:266-319 | The whole of `__mulsf3` and `__muldf3`, zero operands first |
| FloatMultiply.PartialProductsLose | library/stdlib/common/floatlib.c:289-292 | For any two significands, leaving out one product and flooring two loses less than three units of split^2 |
| FloatMultiply.PartialProductsBounds | library/stdlib/common/floatlib.c:289-292 | On normalised significands the sum moreover stays in two binades |
| FloatMultiply.PartialProductsFit | library/stdlib/common/floatlib.c:289-292 | The sum fits the 32-bit (64-bit) unsigned it is kept in |
| FloatMultiply.MultiplicationError | library/stdlib/common/floatlib.c:266-319 | The result is normal, has the product's sign, and is off by less than (1/2 + 3/2^Guard) of its unit in the last place |
| FloatMultiply.MultiplicationErrorInUlps | library/stdlib/common/floatlib.c:266-319 | That bound in numbers: 35/64 for float, 259/512 for double |
| FloatMultiply.MultiplicationExact | library/stdlib/common/floatlib.c:266-319 | A product that is a normal number is returned exactly |
| FloatMultiply.MultiplicationExactWithZero | library/stdlib/common/floatlib.c:266-319 | With zero admitted on any side: a word whose number is the product of the operands' numbers is returned |
| FloatMultiply.ProductCommutes | library/stdlib/common/floatlib.c:266-319 | Swapped operands give the same bits |
| FloatMultiplyTheorems.HalfUnitIff | library/stdlib/common/floatlib.c:294-307 | Adding half a unit and shifting is within half a unit of the exact product if and only if the dropped products would not have carried the kept bits over the middle |
| FloatMultiplyTheorems.MultiplicationHalfUlp | library/stdlib/common/floatlib.c:266-319 | The error is at most half a unit in the last place of the result if and only if no tie is missed in that way |
| FloatMultiplyTheorems.MultiplicationNearestIff | library/stdlib/common/floatlib.c:266-319 | No normal word is nearer to the exact product than the result if and only if no tie is missed or the result is the largest number |
| FloatLimits.MultiplicationMissesNearest | library/stdlib/common/floatlib.c:289-306 | In both formats there are operands whose product another normal word approximates better |
| FloatAdd.NormaliseUp | library/stdlib/common/floatlib.c:190-195 | The normalise loop ends with the top bit in place and keeps the number it denotes |
| FloatAdd.Add | library/stdlib/common/floatlib.c:132-224 | The whole of `__addsf3` and `__adddf3`: zero operands, early returns, alignment, normalising, rounding, packing |
| FloatAdd.RoundEvenBounds | library/stdlib/common/floatlib.c:204-215 | Dropping the guard bits rounds to nearest, ties to the even significand |
| FloatAdd.SumCommutes | library/stdlib/common/floatlib.c:132-224 | Swapped operands give the same bits |
| FloatAddError.AlignedSumFloor | library/stdlib/common/floatlib.c:161-178 | Aligning with an arithmetic shift makes the sum of the significands the floor of the exact sum, for either sign |
| FloatAddError.AlignedSumExact | library/stdlib/common/floatlib.c:161-178 | Up to a gap of Guard nothing is shifted out |
| FloatAddError.AlignedSumSign | library/stdlib/common/floatlib.c:180-189 | The tests for a negative and a zero sum give the sign of the exact sum |
| FloatAddError.LittleCancellation | library/stdlib/common/floatlib.c:161-195 | When bits were shifted out, at most one leading bit can cancel |
| FloatAddError.NormalisedSumClose | library/stdlib/common/floatlib.c:161-202 | After normalising, the sum is within two guard units of the exact one, and equal to it when the exponents differ by less than Guard |
| FloatAddTheorems.AdditionError | library/stdlib/common/floatlib.c:132-224 | The result is normal and off by less than (1/2 + 2/2^Guard) of its unit, early returns included; an exact zero sum gives +0 |
| FloatAddTheorems.AdditionErrorInUlps | library/stdlib/common/floatlib.c:132-224 | That bound in numbers: 17/32 for float, 129/256 for double |
| FloatAddNearest.SumRounds | library/stdlib/common/floatlib.c:160-215 | The rounded sum is within half a unit if and only if no tie is lost, lies exactly half a unit off only when it is even, and otherwise has its neighbour on the other side nearer |
| FloatAddNearest.AdditionNearest | library/stdlib/common/floatlib.c:132-224 | Unless a tie is lost no normal word is nearer to the exact sum, and one as near means the result is even; early returns included |
| FloatAddNearest.AdditionNearestIff | library/stdlib/common/floatlib.c:132-224 | No normal word is nearer to the exact sum than the result if and only if no tie is lost |
| FloatAddNearest.NoTieLostWithinGuard | library/stdlib/common/floatlib.c:132-224 | With exponents at most 5 apart (8 for double) no tie is lost |
| FloatLimits.AdditionMissesNearest | library/stdlib/common/floatlib.c:198-205 | In every format there are operands with exponents Guard (6 or 9) apart whose sum another normal word approximates better: the limit in the row above is tight |
| FloatSubtract.AdditionExact | library/stdlib/common/floatlib.c:132-224 | A sum that is a normal number is returned exactly |
| FloatSubtract.AdditionExactWithZero | library/stdlib/common/floatlib.c:132-224 | With zero admitted on any side: for operands and a word c that are each the word 0 or normal, if the number of c is the sum of the numbers of the operands, c is returned; so 0 + y is y and x + -x is 0 |
| FloatSubtract.Subtract | library/stdlib/common/floatlib.c:226-243 | `__subsf3` and `__subdf3`: zero operands, sign flip, addition |
| FloatSubtract.Representable | library/stdlib/common/floatlib.c:57-72 | Every short significand at an exponent in range has a normal word, found by normalising |
| FloatSubtract.SubtractionExact | library/stdlib/common/floatlib.c:132-243 | For y/2 <= x <= 2y a difference that stays normal is exact, and x - x is +0 |
| FloatSubtract.SubtractionExactWithZero | library/stdlib/common/floatlib.c:226-243 | The same for the difference: 0 - y is exactly -y and x - 0 is x |
| FloatConvert.NormaliseInteger | library/stdlib/common/floatlib.c:404-414 | The coarse and the fine loop end with the top bit in place after exactly the needed doublings |
| FloatConvert.FloatSiDf | library/stdlib/common/floatlib.c:386-423 | The two halves `__floatsidf` stores are the packed integer |
| FloatConvert.FloatDiDf | library/stdlib/common/floatlib.c:425-453 | The word `__floatdidf` stores is the packed integer |
| FloatConvert.FromIntegerValue | library/stdlib/common/floatlib.c:386-453 | The result is the integer cut towards zero by less than a unit; exact for every 31-bit integer and every 63-bit one below 2^53 |
| FloatConvert.IntegerNumber | library/stdlib/common/floatlib.c:386-453 | Short integers, 0 among them, become the word whose number they are |
| FloatConvert.MantdIsTop | library/stdlib/common/floatlib.c:77-78 | MANTD of the two halves is the top 31 bits of the significand |
| FloatConvert.FixTruncates | library/stdlib/common/floatlib.c:593-618 | `__fixdfsi` truncates and saturates if and only if its shift is not exactly 0, where it returns 0 |
| FloatConvert.IntegerRoundTrip | library/stdlib/common/floatlib.c:387-618 | Converting to double and back gives n when its magnitude is below 2^30 and 0 otherwise |
| FloatConvert.ExtendHalves | library/stdlib/common/floatlib.c:509-531 | The two halves `__extendsfdf2` stores are the widened word |
| FloatConvert.ExtendExact | library/stdlib/common/floatlib.c:509-531 | Widening keeps number and sign, and the result is normal |
| FloatConvert.WideningKeepsNumber | library/stdlib/common/floatlib.c:509-531 | The word 0 and every normal float keep their number |
| FloatConvert.ExtendTruncateRoundTrip | library/stdlib/common/floatlib.c:509-567 | Narrowing a widened float, zero or normal, gives back its exact bits |
| FloatConvert.TruncateRoundsUnlessCarry | library/stdlib/common/floatlib.c:533-567 | For every normal double whose narrowed exponent is in range, `__truncdfsf2` keeps the sign, and rounds to within half a unit if and only if the top 25 bits are not all ones |
| FloatConvert.AllOnesLoseCarry | library/stdlib/common/floatlib.c:552-563 | A double on which it does not |
| Random.Generator.Seed | library/stdlib/common/stdlib.c:10-13 | Seeding sets the state |
| Random.Generator.Rand | library/stdlib/common/stdlib.c:15-19 | One step of the generator and the 15 bits it returns |
| Random.Generator.RandTimes | library/stdlib/common/stdlib.c:15-19 | The results of any number of calls, one after the other |
| Random.Generator.Random | library/stdlib/common/stdlib.c:21-29 | Two steps, joined into 32 bits |
| Random.GeometricDivisibility | library/stdlib/common/stdlib.c:4-5 | For a multiplier that is 1 mod 4, 2^k divides 1 + a + ... + a^(n-1) if and only if it divides n |
| Random.ReturnTime | library/stdlib/common/stdlib.c:10-19 | From any seed, n steps return to it if and only if n is a multiple of 2^32 |
| Random.NoEarlyRepeat | library/stdlib/common/stdlib.c:10-19 | No state occurs twice within 2^32 steps |
| Random.FullPeriod | library/stdlib/common/stdlib.c:10-19 | From any seed every 32-bit state is reached after exactly one number of steps below 2^32 |
| Random.EveryOutputOccurs | library/stdlib/common/stdlib.c:15-19 | Every 15-bit value comes out of `std_rand` whatever the seed |
| Random.RandomReturnTime | library/stdlib/common/stdlib.c:21-29 | `std_random`, two steps a call, has period exactly 2^31 |
| Random.FieldPeriod | library/stdlib/common/stdlib.c:10-29 | Bits 16 up to k of the seed, for any k up to 32, repeat after exactly the multiples of 2^k |
| Random.RandPeriod | library/stdlib/common/stdlib.c:15-19 | The results of `std_rand` repeat after a number of calls if and only if it is a multiple of 2^31 |
| Random.HighHalfPeriod | library/stdlib/common/stdlib.c:21-29 | The halves `std_random` is made of repeat after exactly the multiples of 2^32 |
| Random.FirstDraws | library/stdlib/common/stdlib.c:4-19 | After start-up `std_rand` gives 346, then 130 |
| NumberText.StoreDigits | library/stdlib/common/stdlib.c:54-63 | The digit loop stores the numeral back to front |
| NumberText.ReverseInPlace | library/stdlib/common/stdlib.c:68-76 | The swap loop reverses the stretch and nothing else |
| NumberText.Xtoa | library/stdlib/common/stdlib.c:32-77 | In any radix from 2, the buffer holds sign, numeral and terminator; the rest of it is unchanged |
| NumberText.Ltoa | library/stdlib/common/stdlib.c:79-92 | `std_itoa` and `std_ltoa`: a minus sign in radix 10 only, the unsigned pattern in any other |
| NumberText.Ultoa | library/stdlib/common/stdlib.c:94-98 | `std_ultoa` writes the numeral of the value |
| NumberText.Parser.ScanPrefix | library/stdlib/common/stdlib.c:179-213 | White space, sign, base detection and the 0x mark |
| NumberText.Parser.Accumulate | library/stdlib/common/stdlib.c:215-246 | The digit loop ends at the first non-digit with the exact value, or with the overflow flag if and only if it exceeds 32 bits |
| NumberText.Parser.StrToXl | library/stdlib/common/stdlib.c:154-275 | Result, end pointer and `errno` of the parser, invalid bases included |
| NumberText.TallyStep | library/stdlib/common/stdlib.c:232-242 | One digit keeps the accumulator exact or the overflow flag justified, even after an earlier overflow |
| NumberTextTheorems.StrtolSaturates | library/stdlib/common/stdlib.c:282-285 | `std_strtol` is the true value of the digits the scan finds clamped to long; `errno` is set if and only if it was clamped |
| NumberTextTheorems.StrtoulSaturates | library/stdlib/common/stdlib.c:277-280 | On the digits the scan finds, the value `std_strtoul` returns is ULONG_MAX for a number that does not fit and the number, negated in 32 bits, otherwise, if and only if there is no minus sign in front of an overflowing number, which gives 1; ERANGE if and only if it does not fit |
| NumberTextStandard.StrtolMeetsStandard | library/stdlib/common/stdlib.c:154-285 | With the subject sequence defined from the standard as the longest initial part of the expected form: value and range error of `std_strtol` are the standard's for every string and base, and its end pointer is if and only if no 0x mark stands without a hexadecimal digit behind it |
| NumberTextStandard.StrtoulMeetsStandard | library/stdlib/common/stdlib.c:154-280 | The same for `std_strtoul`, whose value is the standard's if and only if the value of the subject sequence is not below -ULONG_MAX |
| NumberTextStandard.MinusOverflowGivesOne | library/stdlib/common/stdlib.c:254-274 | The text -4294967296 is read as 1, where the standard asks for ULONG_MAX |
| NumberTextStandard.LoneMarkGivesUp | library/stdlib/common/stdlib.c:204-213 | On the text 0xg the standard's end is behind the 0, and the code's is the start |
| NumberTextStandard.WhiteSpace | library/stdlib/common/stdlib.c:179-185 | The characters skipped are the six white-space characters of the standard |
| NumberTextTheorems.WrittenNumberParses | library/stdlib/common/stdlib.c:154-280 | Text made of white space, sign, prefix, digits and anything else is read back as written and left at the first character after the digits |
| NumberTextTheorems.UltoaRoundTrip | library/stdlib/common/stdlib.c:32-280 | `std_strtoul` of `std_ultoa` is the value, in every radix, consuming all the text |
| NumberTextTheorems.LtoaRoundTrip | library/stdlib/common/stdlib.c:32-285 | `std_strtol` of `std_ltoa` is the value in radix 10, and `std_strtoul` its 32-bit pattern in every other |
| Digits.NumeralRoundTrip | library/stdlib/common/stdlib.c:54-63 | The digits produced by repeated division have the number as their value |
| Digits.NumeralUnique | library/stdlib/common/stdlib.c:54-63 | Text of digits in lower case without leading zeros is the numeral of the number it denotes, in every radix up to 36 |
| PrintfEngine.ScanFlags | library/stdlib/common/_sprintf.c:140-214 | The flag, width and precision loop with its two labels |
| PrintfEngine.OutMem | library/stdlib/common/_sprintf.c:57-66 | The copying loop stores up to a NUL and moves on by the full count |
| PrintfEngine.OutPad | library/stdlib/common/_sprintf.c:69-75 | The padding loop stores one character the given number of times |
| PrintfEngine.LayOut | library/stdlib/common/_sprintf.c:393-449 | The stores of one field, in order, put exactly its cells into memory; the count grows by max(width, fieldsz) in int arithmetic |
| PrintfEngine.OutStream | library/stdlib/common/_sprintf.c:84-456 | The outer loop of `_out_stream` leaves the cells of `Run` in memory from the buffer on, nothing else changed, and returns its count; what `Run` prints is in the rows of `PrintfStandard` |
| PrintfEngine.NumberToBuffer | library/stdlib/common/_sprintf.c:316-361 | The downward fill of the 33-byte buffer never leaves it and leaves the number's text in any of the three radices |
| PrintfTheorems.ScanCoherent | library/stdlib/common/_sprintf.c:140-214 | Left adjustment and zero fill are never both set, for every flag sequence |
| PrintfTheorems.FieldLength | library/stdlib/common/_sprintf.c:372-450 | A conversion occupies exactly max(width, fieldsz) bytes |
| PrintfTheorems.RunConserves | library/stdlib/common/_sprintf.c:84-456 | For every format and argument list the count and the bytes written agree as 32-bit quantities, and output only grows |
| PrintfTheorems.ReturnIsLength | library/stdlib/common/_sprintf.c:84-456 | The count is the number of bytes written whenever that fits an int |
| PrintfTheorems.CountIsLengthIff | library/stdlib/common/_sprintf.c:84-456 | The count is the number of bytes written if and only if that fits an int |
| PrintfTheorems.Sprintf | library/stdlib/common/_sprintf.c:458-475 | Memory holds the output and a NUL at the returned index, which is just behind the last field if and only if the output fits an int |
| PrintfTheorems.PlainField | library/stdlib/common/_sprintf.c:372-450 | A field without sign and zero fill is its text between blanks on one side, readable as a string |
| PrintfTheorems.PrintedNumberParses | library/stdlib/common/_sprintf.c:284-362 | The field of a %u, %#x, %#X or %#o at any width is text that reads back as the value in base 0 |
| PrintfRoundTrip.FormattedNumberParses | library/stdlib/common/_sprintf.c:84-456 | For every format of a percent sign, flags, a width and u, #o, #x or #X without zero fill: the run writes exactly that text, the count is its length, and it reads back in base 0 as the argument |
| PrintfRoundTrip.PrintThenParse | library/stdlib/common/_sprintf.c:458-467 | `std_sprintf` of such a format followed by `std_strtoul` of the string now in memory returns the argument and leaves `errno` alone |
| PrintfRoundTrip.CountTurnsNegative | library/stdlib/common/_sprintf.c:448-464 | The format %2147483647u! writes 2^31 bytes and returns -2^31 |
| PrintfStandard.FlagsMean | library/stdlib/common/_sprintf.c:140-214 | Flags have the effect of the set of them, in any order: - over 0, + over blank |
| PrintfStandard.ScansDirective | library/stdlib/common/_sprintf.c:137-214 | Flags, a width and a precision in digits or from the arguments, and a length modifier are taken apart as written |
| PrintfStandard.SpecMeans | library/stdlib/common/_sprintf.c:140-214 | The result is what section 7.19.6.1 of ISO/IEC 9899:1999 says they ask for, a negative width or precision argument included |
| PrintfStandard.FieldIsJustified | library/stdlib/common/_sprintf.c:372-450 | The order of a field: sign or radix prefix behind blanks and in front of zeros, blanks behind it with - |
| PrintfStandard.DirectiveMeetsStandard | library/stdlib/common/_sprintf.c:137-450 | Every directive (d i D u U o O x X p s c, percent signs and other characters) with any flags, width, precision and h or l prints what the standard says, defined here without the code, if and only if it is neither zero in # octal form with precision 0 nor the character NUL |
| PrintfStandard.FormatMeetsStandard | library/stdlib/common/_sprintf.c:84-456 | Every format of literal text and such directives prints their texts one after the other, arguments taken from left to right, returns the length, and %n stores the number of characters so far |
| PrintfReadBack.SignedReadsBack | library/stdlib/common/_sprintf.c:222-232 | For d, i and D with any flags, width and precision, `std_strtol` in base 10 reads the text back as the (short or long) argument, within range |
| PrintfReadBack.UnsignedReadsBack | library/stdlib/common/_sprintf.c:242-302 | For u, U, o, O, x, X and p so does `std_strtoul` in base 10, 8 or 16 |
| PrintfReadBack.PrintThenRead | library/stdlib/common/_sprintf.c:458-467 | `std_sprintf` of such a directive and the parser on the string then in memory: the argument comes back, the count is the length, `errno` stays |
| Relocation.BranchHitsTarget | kingmos_private/include/dlarch.h:237-266 | After an in-range PC24 patch the opcode byte is kept, and place plus four times the field equals value plus four times the old addend if and only if the distance is word aligned |
| Relocation.ArmBranchHitsTarget | kingmos_private/include/dlarch.h:237-266 | The same for what `__dlarch_rel` makes of a record of type R_ARM_PC24 whose signed distance is within 32 MB |
| Relocation.FarBranchHitsVeneer | kingmos_private/include/dlarch.h:251-266 | Out of that range the branch goes to what `fix_bad_pc24` returns, if that is aligned and in range |
| Relocation.AbsoluteAddsSymbol | kingmos_private/include/dlarch.h:234-236 | R_ARM_ABS32 (2) and R_386_32 (1): the new word less the old one is the symbol value mod 2^32 |
| Relocation.RelativeAddsBase | kingmos_private/include/dlarch.h:192-195 | R_ARM_RELATIVE (23) and R_386_RELATIVE (8): it is the load address |
| Relocation.SlotHoldsSymbol | kingmos_private/include/dlarch.h:224-233 | GLOB_DAT and JUMP_SLOT (21 and 22, 6 and 7): the symbol value, whatever stood there |
| Relocation.OtherTypesDoNothing | kingmos_private/include/dlarch.h:268-270 | NONE and unknown types leave memory alone |
| Relocation.PcRelativeHitsTarget | arch/i386-win/include/dlarch.h:151-153 | After PC32, place plus word equals value plus the old word mod 2^32 |
| Relocation.Rel | kingmos_private/include/dlarch.h:186-273 | `__dlarch_rel` patches one word in place, by type, for both architectures; what each type number leaves there is in `PatchRelocates` |
| Relocation.UntargetedUnchanged | kingmos_private/include/dlreloc.h:27-78 | Memory no record aims at is unchanged |
| Relocation.TargetPatchedOnce | kingmos_private/include/dlreloc.h:27-78 | With disjoint targets every target holds one patch of its original content |
| Relocation.PatchRelocates | kingmos_private/include/dlarch.h:186-273 | For every type number of either architecture a patch leaves the relation that type asks for between old word, new word, symbol, place and load address |
| Relocation.PassRelocates | kingmos_private/include/dlreloc.h:27-78 | After a whole pass with disjoint targets every record's target is in that relation to what it held before the pass |
| Relocation.PermutationDoesNotMatter | kingmos_private/include/dlreloc.h:27-78 | Every permutation of the records leaves the same memory |
| Relocation.PassKeepsTable | kingmos_private/include/dlreloc.h:27-78 | A pass leaves a table it does not aim into readable as it was |
| Relocation.DynamicRel | kingmos_private/include/dlreloc.h:27-78 | Reading records out of the memory being patched amounts to applying the table as it stood at the start |
| Relocation.RecordReadBack | kingmos_private/include/elf.h:477-515 | A record stored as offset and 256 times symbol plus type is read back |
| Relocation.AdjacentTables | kingmos_private/include/dldyn.h:209-219 | Two adjacent tables are one table |
| Relocation.TablesWalked | kingmos_private/include/dldyn.h:199-206 | Which tables count: the PLT table when there is one, unless its records are asked to be of REL type (17) and are not |
| Relocation.ChooseRanges | kingmos_private/include/dldyn.h:194-220 | The ranges chosen, with their sizes in int fields: joined if adjacent and not lazy, apart otherwise, the PLT table only when its type fits |
| Relocation.ApartMeansBoth | kingmos_private/include/dldyn.h:222-229 | Walking two ranges applies the records of both tables in turn |
| Relocation.JoinedMeansBoth | kingmos_private/include/dldyn.h:217-229 | So does walking the joined range |
| Relocation.RangesMeanBoth | kingmos_private/include/dldyn.h:189-229 | For tables of whole records that no record aims into, joined or not, memory ends as if both original tables had been applied once |
| Relocation.DoReloc | kingmos_private/include/dldyn.h:189-229 | For any sizes, memory after the guarded walks of the chosen ranges; for tables as in the row above, that of both tables |
| DmaDownload.Downloader.Start | arch/s3c2410/bootloader/u241mon.c:291-341 | For any 32-bit size the total is set, and for sizes on which sums do not wrap the first segments and the first reload are programmed; when the first packet was all, nothing is and the total is the size at once |
| DmaDownload.Downloader.Program | arch/s3c2410/bootloader/usbout.c:238-240 | Writing a count leaves the control bits above the 20-bit field alone |
| DmaDownload.Downloader.ConfigDmaMode | arch/s3c2410/bootloader/usblib.c:175-218 | Start-up of the channel with its first segment: destination, count cut to its field, and the mode bits above it |
| DmaDownload.Downloader.Interrupt | arch/s3c2410/bootloader/usbout.c:202-276 | One completion interrupt, in 32-bit arithmetic, keeps the total equal to `CodeTotal` for any size, and the log of programmed segments equal to the schedule where sums do not wrap |
| DmaDownload.DownloadEndsIff | arch/s3c2410/bootloader/usbout.c:214-232 | Some number of interrupts brings the total to the size if and only if the size is at most 2^32 - 0x80000 |
| DmaDownload.Download | arch/s3c2410/bootloader/u241mon.c:348-359 | The total reaches the size after exactly ceil(size / 0x80000) interrupts, none for a single packet, and the channel ends in interrupt mode if it was started |
| DmaDownload.SegmentsTile | arch/s3c2410/bootloader/usbout.c:202-276 | After every interrupt the addresses of all segments, in order, are one gap-free ascending range without overlap |
| DmaDownload.DownloadCovers | arch/s3c2410/bootloader/u241mon.c:291-359 | At the end that range is exactly downloadAddress + 56 up to downloadAddress + size - 8 |
| DmaDownload.CountsFit | arch/s3c2410/bootloader/usbout.c:238-240 | Every programmed count fits the 20-bit field |
| DmaDownload.OneAhead | arch/s3c2410/bootloader/usbout.c:202-276 | The schedule is always one segment ahead of the completed ones |
| Checksum.Receiver.ReadPacket | arch/s3c2410/bootloader/usbout.c:181-199 | A packet is stored and summed up in one loop, in 16-bit arithmetic |
| Checksum.Receiver.Receive | arch/s3c2410/bootloader/u241mon.c:365-417 | The receive loop stores the packets back to back and stops at the first that completes the image |
| Checksum.Receiver.CheckRunningSum | arch/s3c2410/bootloader/u241mon.c:452-464 | The running sum less the trailer bytes is the sum of the data bytes |
| Checksum.SumByWords | arch/s3c2410/bootloader/u241mon.c:426-450 | Whole words and then the byte tail sum up to the same data sum |
| Checksum.CheckByWords | arch/s3c2410/bootloader/u241mon.c:426-464 | The word path accepts exactly the images whose data sum is in the trailer |
| Checksum.PathsAgree | arch/s3c2410/bootloader/u241mon.c:362-464 | Both paths accept the same images, for any split into packets |
| Checksum.TrailerDecides | arch/s3c2410/bootloader/u241mon.c:452-464 | Data with two bytes behind it is accepted if and only if these are its sum mod 2^16, low byte first |
| Checksum.SingleByteDetected | arch/s3c2410/bootloader/u241mon.c:452-464 | An accepted image with one data byte changed is rejected |
| Endpoint0.Handler.constructor | arch/s3c2410/bootloader/usbsetup.c:624-686 | The descriptor tables as filled in: lengths, length fields, total length, descriptor types and endpoint addresses |
| Endpoint0.Handler.Decode | arch/s3c2410/bootloader/usbsetup.c:151-388 | Address, configuration, interface, remote wake-up and endpoint status are what the setup packets decoded so far made them; the acknowledgement is none for SYNCH_FRAME, an unknown descriptor type or another recipient's status, data end for requests without data, plain otherwise |
| Endpoint0.Handler.SendConfig | arch/s3c2410/bootloader/usbsetup.c:423-459 | The configuration answer is sliced across three descriptors without loss |
| Endpoint0.Handler.SendText | arch/s3c2410/bootloader/usbsetup.c:525-562 | A string is sliced by `ep0SubState`, which stays inside it |
| Endpoint0.Handler.SendData | arch/s3c2410/bootloader/usbsetup.c:391-606 | In a data state a call sends the next 8 bytes and stays, or the last fewer than 8 with DATA_END and returns to INIT |
| Endpoint0.Handler.Interrupt | arch/s3c2410/bootloader/usbsetup.c:102-607 | One interrupt, for every register content: the invariant, the packet sent and what remains to be sent |
| Endpoint0.Handler.Transfer | arch/s3c2410/bootloader/usbsetup.c:102-607 | The packets of every request with an answer join to it in at most 6 calls, all but the last full. GET_DESCRIPTOR: type and length bytes are those asked for, the joined configuration has its total length, string and endpoint are those of the index. GET_CONFIGURATION, GET_INTERFACE, GET_STATUS: what the last request that set it left, by the history of setup packets |
| Endpoint0.AnswerableIff | arch/s3c2410/bootloader/usbsetup.c:151-388 | The requests that have an answer, by their bytes |
| Endpoint0.EndpointAddresses | arch/s3c2410/bootloader/usbsetup.c:251-360 | The endpoint addresses accepted for each endpoint; none names two |
| Endpoint0.Handler.Serve | arch/s3c2410/bootloader/usbsetup.c:102-607 | Over every sequence of interrupts the invariant holds and no packet exceeds 8 bytes |
| Endpoint0.NextOne | arch/s3c2410/bootloader/usbsetup.c:391-606 | One more call extends the prefix already sent by one packet of the answer |
| Calendar.GetYMDHMS | library/stdlib/common/time.c:49-90 | The year and month loops leave the date and time of day of the count in the structure |
| Calendar.GetTotalSeconds | library/stdlib/common/time.c:92-123 | The loops back give the count mod 2^32 |
| Calendar.SystemToFile | library/stdlib/common/time.c:157-167 | Validation, then the count; that every date that exists passes is in `ProperIsValid` |
| Calendar.FileToSystem | library/stdlib/common/time.c:125-129 | The low word broken down |
| CalendarTheorems.CountRoundTrip | library/stdlib/common/time.c:49-123 | Every count breaks down to a proper date with the right weekday whose count it is |
| CalendarTheorems.TimeRoundTrip | library/stdlib/common/time.c:49-123 | Every proper date is what its count breaks down to |
| CalendarTheorems.FileRoundTrip | library/stdlib/common/time.c:125-167 | A valid time survives the two conversions if and only if it is proper and its count fits 32 bits |
| CalendarTheorems.ProperIsValid | library/stdlib/common/time.c:10-26 | Every date and time of day that exists passes the validity test |
| CalendarTheorems.MonthLengths | library/stdlib/common/time.c:46-47 | Both month tables: thirty days in April, June, September and November, 28 or 29 in February, 31 in the rest |
| CalendarTheorems.ThereAndBack | library/stdlib/common/time.c:125-167 | For every proper time whose count fits 32 bits, `Time_SystemToFile` returns TRUE and `Time_FileToSystem` of its result gives the time back |
| CalendarTheorems.BackAndThere | library/stdlib/common/time.c:125-167 | Every 32-bit count comes back the other way |
| CalendarTheorems.ThirtiethOfFebruary | library/stdlib/common/time.c:10-26 | 30 February is let through and does not survive, whatever the leap rule |
| CalendarTheorems.CountOrder | library/stdlib/common/time.c:92-123 | Counts are strictly monotone in the lexicographic order of dates |
| CalendarTheorems.CompareAgrees | library/stdlib/common/time.c:28-43 | `Time_CompareFile` on converted times is that lexicographic order, equality included |
| CalendarTheorems.ConvertAndCompare | library/stdlib/common/time.c:28-167 | `Time_CompareFile` of what `Time_SystemToFile` makes of two such times is their calendar order |
| CalendarTheorems.CompareIsOrder | library/stdlib/common/time.c:28-43 | `Time_CompareFile` is a strict order on all file times, equal only for equal ones, the low half first |
| CalendarTheorems.CountsStart | library/stdlib/common/time.c:7-62 | Count 0 is 1 January 1980, 00:00:00, with weekday 1 |
| CalendarTheorems.CountsEnd | library/stdlib/common/time.c:7-123 | Under the library's leap rule a proper time fits 32 bits if and only if it is before 7 February 2116, 06:28:16 |
| CalendarTheorems.WeekdayOneEarly | library/stdlib/common/time.c:8-62 | Under that rule the weekday stored, Sunday being 0, is always that of the day before |
| ObjectList.Init | library/stdlib/common/objlist.c:5-17 | For any object and any list or none: every field is set and the object becomes the head in front of the old one; a consistent list it was not in stays consistent and gains it |
| ObjectList.Add | library/stdlib/common/objlist.c:19-43 | For any object and any list or none: a detached object becomes the head, any other is refused and nothing changes; a consistent list stays consistent unless the object was its only one |
| ObjectList.AddTwice | library/stdlib/common/objlist.c:19-43 | A new object added twice is accepted twice and ends as its own neighbour |
| ObjectList.DetachedIsOutside | library/stdlib/common/objlist.c:19-43 | An object without links is in no list but one it makes up alone, which is what the guard relies on |
| ObjectList.Remove | library/stdlib/common/objlist.c:45-85 | All four cases, for an object of the list itself or of another one: the list it is in loses that object only, links stay consistent both ways, the object ends without links; a first object of another list turns the list into what followed |
| ObjectList.KeptAndDropped | library/stdlib/common/objlist.c:87-107 | Kept and dropped objects together are the list, and are told apart by owner alone |
| ObjectList.StepRemaining | library/stdlib/common/objlist.c:92-103 | One turn of the loop finds its object behind those already kept, and removes it or keeps it in place |
| ObjectList.Delete | library/stdlib/common/objlist.c:87-107 | An object stays if and only if it has another owner, in order and consistently linked; the callback gets each removed object once, in list order, after its links are null; the loop ends |

## Left out

- Float results whose exponent leaves its field, denormals, infinities, NaN and zeros of negative sign: the methods cover every bit pattern, the accuracy theorems ask for normal operands and a result exponent in range.
- FloatSiDf: -2^31 is not an input, because the source's loops do not end on it; nor is -2^63 for FloatDiDf.
- `__cmpsf2`, `__cmpdf2`, `__fixdfdi`, `__fixunsdfdi` and the wrappers through `float`: their comparisons and shifts do not match what they are named for, and they add no further algorithm.
- NumberText.Xtoa: radix 0 (a division by zero) and radix 1 (no end) are not inputs.
- PrintfTheorems.Sprintf: the bytes written and the terminator's place lie inside the memory modelled.
- PrintfTheorems.FieldLength: for a field longer than an int, only up to 2^32.
- PrintfEngine.OutStream: an argument slot holds both its word and its string, and an argument past the end reads as 0; the values %n stores are returned in order, their targets are not memory.
- PrintfRoundTrip.FormattedNumberParses: zero fill is excluded, because in base 0 zeros in front of a decimal number read back as octal; `PrintfReadBack` has all flags in the radix of the conversion.
- PrintfStandard.FormatMeetsStandard: width, precision and output fit an int; h and l stand behind the precision; where the standard leaves the 0 flag of %s and %c undefined, zeros are what the code prints; a percent sign at the very end is not a directive.
- `R_ARM_COPY` and `R_386_COPY`, the body of `fix_bad_pc24` (commented out in the source, here an arbitrary function), lazy binding and `__dlget_dynamic_info`.
- Relocation.Rel: memory is words, so a patched word is aligned; COPY records are not modelled.
- Relocation.DynamicRel: records miss their own table, as the method asks; symbol lookup is an arbitrary function that patches do not change.
- Relocation.DoReloc: REL tables only, as both architectures define.
- DmaDownload.Downloader.Interrupt: waiting for the autoreload, clearing pending bits and interrupt masks are not state.
- DmaDownload.Download: sizes above 2^32 - 0x80000, on which it does not end.
- DmaDownload.Downloader.Start: for those sizes the total is described, the segments are not.
- DmaDownload.DownloadCovers: asks that the image fits the 32-bit address space.
- Checksum.SumByWords: asks for a 4-byte-aligned address; what an unaligned word read returns is up to the processor.
- Checksum.CheckByWords: the same.
- Parsing of the download header in `Ep3Handler` and `GetHead`.
- Endpoint0.Handler.Decode: CSR writes are commands in order, not bits of a register; the device ignores `wLength`, as the source does.
- CalendarTheorems.CompareAgrees: the high word of a file time is always 0 there, as `Time_SystemToFile` makes it.
- ObjectList.Remove: the list and the one the object is in are consistent and share no object.
- ObjectList.Delete: the callback may change the object it is given but not the list or other objects; the assertions and debug messages of `ObjList_Remove` are its preconditions or nothing.
- Register writes for UART, LED, PLL and cache, delay loops, menus, display, keyboard, file and device wrappers, and character tables: no logic to prove.
