# parsing-int-series: the scalar decoders, in Dafny

This project models the scalar layer of `parsing-int-series`. That layer converts a byte buffer of ASCII decimal
numbers, separated by user-chosen separator characters, into a sequence of integers. It has four parts:

- `scalar::parse_unsigned` (`scalar_parse_unsigned.dfy`). It accumulates each maximal run of digits into a
  `uint32_t` that wraps modulo 2^32 and emits the accumulator when a separator closes the run. Any other byte
  throws. A run that ends the input is flushed after the loop.
- `scalar::parse_signed` (`scalar_parse_signed.dfy`). This is a four-state scanner (`Separator | Plus | Minus |
  Digit`). A sign must directly follow a separator or the start of input. It must be followed by a digit before
  the next separator; a sign that ends the input is accepted (see Findings).
- `parse_separators` (`separators.dfy`). This is the command-line check that turns the user's separator string
  into the set handed to the decoders: non-empty, at most sixteen distinct characters, none of `0`-`9`, `+`, `-`.
  It returns the distinct characters in `std::set<char>` order.
- `Verify::generate_input` and `Verify::compare` (`verify_sse_unsigned_conversion.dfy`). They come from the
  exhaustive SSE test. For each 16-bit mask the test lays out a window with digits at the set bits and `_`
  elsewhere. It decodes the window with the scalar unsigned decoder as the reference, then compares the SIMD
  output against it.

`digits.dfy` holds what the decoders share:
- bytes, and `uint32`/`int32` as newtypes;
- the decimal value of a run of digits;
- reduction modulo 2^32 (`Wrap`);
- a declarative description of the maximal digit runs of a byte string (`Runs`, with `Trail`, `Open` and
  `Closed` for the run at the end of a prefix).

`results.dfy` holds the outcome type. The source throws `std::runtime_error`; the model returns
`Err(kind, at)`, where `at` is the index of the byte that throws.

Each decoder is written as the source writes it: a loop over the bytes that updates the same variables. Each is
proved equal to a specification function. `ParseUnsignedSpec` and `ParseSignedSpec` are stated over `Runs`. The
properties the code promises are proved as lemmas about those functions. `parse_separators` keeps its two loops
(the set insertion, and the reserved-character scan with its flag and `break`). The test fixture is a class
with the 17-byte `buffer` as an array and the `result` and `reference` vectors as sequence fields.

The signed decoder's end-of-input block can never fire. Both the code as written and the evidently intended
behaviour are modelled (see Findings). The model follows the code. A plain description of the signed decoder
would instead say that the end of input flushes the final run the way the unsigned decoder does, so that
`"+1,-2,3"` decodes to `[1, -2, 3]`.

## Model

| member | source | states |
|---|---|---|
| ScalarParseUnsigned.ParseUnsigned | include/scalar/scalar-parse-unsigned.h:12-36 | The accumulator loop (digit test first, then separator membership, else throw; flush at the end) returns exactly `ParseUnsignedSpec`: the first stray byte's error, or the wrapped value of every maximal digit run |
| ScalarParseUnsigned.ParseUnsignedMeaning | include/scalar/scalar-parse-unsigned.h:17-35 | Throws iff some byte is neither a digit nor a separator, and then at the first such byte. Otherwise emits one value per maximal digit run (each a non-empty string of digits), in input order, each the run's decimal value modulo 2^32 |
| ScalarParseUnsigned.FirstStrayIsLeast | include/scalar/scalar-parse-unsigned.h:17-30 | The error position is the least byte that is neither a digit nor a separator; there is none exactly when every byte is admissible |
| ScalarParseUnsigned.AccumulatedIsWrappedValue | include/scalar/scalar-parse-unsigned.h:19-21 | Wrapping `10 * result + digit` at every step gives the run's full decimal value modulo 2^32 |
| ScalarParseUnsigned.ScanDigit | include/scalar/scalar-parse-unsigned.h:19-21 | A digit extends the counter and the accumulator and emits nothing |
| ScalarParseUnsigned.ScanSeparator | include/scalar/scalar-parse-unsigned.h:22-27 | A separator emits the accumulator iff the counter is positive, and leaves counter and accumulator at zero |
| ScalarParseUnsigned.ScanEnd | include/scalar/scalar-parse-unsigned.h:33-35 | The values emitted in the loop, plus the final flush when the counter is positive, are the wrapped values of all runs |
| ScalarParseUnsigned.EmittedIsClosedRuns | include/scalar/scalar-parse-unsigned.h:22-27 | What the loop has emitted after any prefix is the wrapped value of every run closed by a separator in that prefix |
| ScalarParseUnsigned.WrappedAt | include/scalar/scalar-parse-unsigned.h:20 | Each emitted value is its run's decimal value reduced modulo 2^32 |
| ScalarParseUnsigned.ParseUnsignedSplit | include/scalar/scalar-parse-unsigned.h:23-27 | Runs do not influence each other: decoding `a + [s] + b` for a separator `s` is decoding `a` and then `b`; the first error wins, and `b`'s error positions are shifted |
| ScalarParseUnsigned.ParseUnsignedOnlySeparators | include/scalar/scalar-parse-unsigned.h:22-27 | Leading, trailing and repeated separators emit nothing: empty or all-separator input decodes to `[]` |
| ScalarParseUnsigned.ParseUnsignedFlushesFinalRun | include/scalar/scalar-parse-unsigned.h:33-35 | A run that ends the input is still emitted, as the last value |
| ScalarParseUnsigned.ParseUnsignedLeadingZeros | include/scalar/scalar-parse-unsigned.h:20 | Leading zeros are harmless: zeros followed by digits decode to the value of the digits alone |
| ScalarParseUnsigned.ParseUnsignedExample | include/scalar/scalar-parse-unsigned.h:17-35 | `"12,345"` with separator `,` decodes to `[12, 345]` |
| ScalarParseUnsigned.ParseUnsignedStrayExample | include/scalar/scalar-parse-unsigned.h:28-30 | `"12a34"` throws "Wrong character" at index 2 |
| Digits.WrapIsMod | include/scalar/scalar-parse-unsigned.h:20 | `uint32_t` arithmetic on a non-negative value is reduction modulo 2^32 |
| Digits.WrapStep | include/scalar/scalar-parse-unsigned.h:20 | Reducing before `10 * result + digit` gives the same result as reducing after it |
| Digits.RunsSplit | include/scalar/scalar-parse-unsigned.h:23-27 | The digit runs of `a + [x] + b`, for a non-digit `x`, are the runs of `a` followed by the runs of `b` |
| Digits.RunsWithoutDigits | include/scalar/scalar-parse-unsigned.h:22-27 | Input without digits has no runs |
| ScalarParseSigned.ParseSigned | include/scalar/scalar-parse-signed.h:12-93 | The state/prev scanner returns exactly `ParseSignedSpec`. Classification order is `+`, `-`, digit, separator. The switch has the source's three throws. `prev = state` ends every iteration, and both inner branches of the end-of-input block are proved unreachable |
| ScalarParseSigned.ParseSignedMeaning | include/scalar/scalar-parse-signed.h:26-80 | Throws iff some byte faults, and then at the first faulty byte with that byte's error. Otherwise emits one value per digit run that is followed by another byte, in input order, each that run's decimal value with or without a minus |
| ScalarParseSigned.FirstFaultIsLeast | include/scalar/scalar-parse-signed.h:28-75 | The error is that of the least faulty byte; there is none exactly when no byte faults |
| ScalarParseSigned.SignedRunsAppendRun | include/scalar/scalar-parse-signed.h:53-72 | A run after a non-digit is emitted with its decimal value, negated exactly when a `-` directly precedes it; a run right after a separator or `+` is non-negative |
| ScalarParseSigned.SignedRunsMagnitudes | include/scalar/scalar-parse-signed.h:66-72 | Every signed run carries its run's decimal value, negated or not, and none is negated in input without `-` |
| ScalarParseSigned.ParseSignedOnlySeparators | include/scalar/scalar-parse-signed.h:73 | Input made only of separators, repeated or not, never throws and emits nothing |
| ScalarParseSigned.ParseSignedSplit | include/scalar/scalar-parse-signed.h:66-76 | A separator splits the input: decoding `a + [s] + b` is decoding `a + [s]` followed by decoding `b`, with an error in `b` moved to its index in the whole input. Leading and repeated separators add nothing; a trailing separator closes the last run (so emits it) and, after a sign, throws |
| ScalarParseSigned.SignedRunsSplit | include/scalar/scalar-parse-signed.h:66-76 | The signed runs of `a + [x] + b` for a non-digit `x` other than `-` are those of `a` followed by those of `b` |
| ScalarParseSigned.FirstFaultLeft | include/scalar/scalar-parse-signed.h:40-77 | Scanning `left + b`, where `left` ends in a separator, reports the first fault of `left` alone if it has one, and otherwise continues at the start of `b` |
| ScalarParseSigned.FirstFaultRight | include/scalar/scalar-parse-signed.h:40-77 | The first fault in `b` after a separator is the first fault in `b` alone, shifted by the length of what precedes it |
| ScalarParseSigned.MagnitudeIsOpenValue | include/scalar/scalar-parse-signed.h:57-63 | `number` holds the decimal value of the open run |
| ScalarParseSigned.SignedEmittedIsClosedRuns | include/scalar/scalar-parse-signed.h:66-76 | What the loop has emitted after any prefix is the signed value of every run closed by a separator in that prefix |
| ScalarParseSigned.ScanSign | include/scalar/scalar-parse-signed.h:41-55 | A sign after a separator sets `number` to 0 and `negative` to whether it is `-`, and emits nothing |
| ScalarParseSigned.ScanFirstDigit | include/scalar/scalar-parse-signed.h:57-60 | A digit after a separator opens a non-negative run with that digit's value |
| ScalarParseSigned.ScanNextDigit | include/scalar/scalar-parse-signed.h:61-63 | A digit after a sign or a digit computes `10 * number + digit` and keeps the sign |
| ScalarParseSigned.ScanSeparator | include/scalar/scalar-parse-signed.h:66-76 | A separator after a digit emits `number` or `-number`; after a separator it does nothing |
| ScalarParseSigned.NoOverflowStep | include/scalar/scalar-parse-signed.h:62 | Under `NoInt32Overflow`, `10*number + c` stays inside `int32_t` |
| ScalarParseSigned.NoFaultStep | include/scalar/scalar-parse-signed.h:40-77 | A byte whose class the switch accepts after the previous class raises nothing |
| ScalarParseSigned.ParseSignedDropsFinalRun | include/scalar/scalar-parse-signed.h:79-92 | As written, a digit run that ends the input is not emitted: one value fewer than there are runs, and exactly the value the intended decoder appends |
| ScalarParseSigned.ParseSignedAcceptsTrailingSign | include/scalar/scalar-parse-signed.h:79-92 | As written, a sign that ends the input is accepted and ignored, where the intended decoder throws |
| ScalarParseSigned.ParseSignedIntendedEmitsEveryRun | include/scalar/scalar-parse-signed.h:82-92 | The intended decoder emits every digit run. It throws exactly when some byte faults or the input ends in a sign. On a throw, either the error is that of the first faulty byte at its index, or no byte faults, the last byte is a sign, and the error is "sign without digits" at the end of input |
| ScalarParseSigned.ParseSignedIntendedAgrees | include/scalar/scalar-parse-signed.h:82-92 | On input that ends in a separator (or is empty) the code as written and the intended decoder agree |
| ScalarParseSigned.DroppedRunExample | include/scalar/scalar-parse-signed.h:79-92 | `"+1,-2,3"` decodes to `[1, -2]` as written; the intended decoder gives `[1, -2, 3]` |
| ScalarParseSigned.TrailingSignExample | include/scalar/scalar-parse-signed.h:79-92 | `"1,-"` decodes to `[1]` as written; the intended decoder throws at the end of input |
| ScalarParseSigned.TrailingSeparatorEmitsExample | include/scalar/scalar-parse-signed.h:66-72 | A trailing separator closes the last run: `"1"` decodes to `[]` as written, `"1,"` to `[1]` |
| ScalarParseSigned.TrailingSeparatorThrowsExample | include/scalar/scalar-parse-signed.h:73-75 | A trailing separator after a sign throws: `"+"` decodes to `[]`, `"+,"` throws "sign without digits" at index 1 |
| ScalarParseSigned.SignAfterDigitExample | include/scalar/scalar-parse-signed.h:49-52 | `"12-34"` throws at the `-`, which follows a digit |
| ScalarParseSigned.DoubleSignExample | include/scalar/scalar-parse-signed.h:49-52 | `"+-1"` throws at the `-`, which follows a sign |
| ScalarParseSigned.SignWithoutDigitsExample | include/scalar/scalar-parse-signed.h:73-75 | `"+,1"` throws at the `,`, which follows a sign |
| Separators.ParseSeparators | test/utils/application.cpp:38-63 | The set-insertion loop and the reserved-character scan with its flag and `break` return exactly `ParseSeparatorsSpec` |
| Separators.ParseSeparatorsMeaning | test/utils/application.cpp:46-62 | Throws iff the input is empty, has more than sixteen distinct characters, or holds a reserved one. Otherwise returns 1 to 16 characters, strictly ascending by `char` value, exactly the input's characters, none reserved |
| Separators.InCharOrderIsSorted | test/utils/application.cpp:62 | Iterating the set visits every member exactly once, in strictly ascending signed-`char` order |
| Separators.AscendingIsUnique | test/utils/application.cpp:62 | Two strictly ascending listings of the same characters are equal, so the output order is fully determined |
| Separators.CharsBound | test/utils/application.cpp:42-47 | A string has at most as many distinct characters as characters, so a string of at most sixteen passes the size check |
| Separators.ReservedCovers | test/utils/application.cpp:40 | Every digit and both signs are in the reserved string |
| Separators.ParseSeparatorsSetOnly | test/utils/application.cpp:42-44 | Only the set of characters matters: order and repeats in the input change nothing |
| Separators.ParseSeparatorsIdempotent | test/utils/application.cpp:38-63 | Fed its own accepted output, it returns that output unchanged |
| Separators.AcceptedAreSeparators | test/utils/application.cpp:48-56 | Every accepted character is neither a digit nor a sign, and both decoders classify it as a separator |
| Separators.ParseSeparatorsSortsExample | test/utils/application.cpp:62 | `";, ;"` becomes `" ,;"` |
| Separators.ParseSeparatorsSignedCharExample | test/utils/application.cpp:62 | A byte above 127 is a negative `char` and comes first: `",\xc8"` becomes `"\xc8,"` |
| Separators.ParseSeparatorsRepeatsExample | test/utils/application.cpp:42-47 | Twenty spaces are accepted as the single separator `" "` |
| Separators.ParseSeparatorsReservedExample | test/utils/application.cpp:48-60 | `",-"` is rejected |
| VerifySseUnsignedConversion.Verify.constructor | test/unittest/verify_sse_unsigned_conversion.cpp:23-26 | The buffer starts zeroed and `result` holds sixteen zeros |
| VerifySseUnsignedConversion.Verify.GenerateInput | test/unittest/verify_sse_unsigned_conversion.cpp:66-84 | Writes the window for mask `x` into `buffer[0..16)` and leaves the terminating byte alone. Fills `result` with sixteen `(uint32_t)-1`. Sets `reference` to the unsigned decoder's output for the window with separator `_`, which does not throw |
| VerifySseUnsignedConversion.Verify.Compare | test/unittest/verify_sse_unsigned_conversion.cpp:86-97 | Returns true iff `result[i] == reference[i]` for every `i < n` |
| VerifySseUnsignedConversion.PatternLayout | test/unittest/verify_sse_unsigned_conversion.cpp:68-76 | Byte `i` of the window is a digit iff bit `i` of the mask is set, and `_` otherwise; the digit is the number of set bits below `i`, modulo ten |
| VerifySseUnsignedConversion.PatternIsAccepted | test/unittest/verify_sse_unsigned_conversion.cpp:82-83 | With separator `_` the reference decode never throws on a generated window |
| VerifySseUnsignedConversion.PatternRunsAreBitBlocks | test/unittest/verify_sse_unsigned_conversion.cpp:68-76 | The window has one digit run per maximal block of consecutive set bits |
| VerifySseUnsignedConversion.ReferenceMeaning | test/unittest/verify_sse_unsigned_conversion.cpp:82-83 | The reference has one value per block of set bits, each the decimal value of its run modulo 2^32 |
| VerifySseUnsignedConversion.PatternInjective | test/unittest/verify_sse_unsigned_conversion.cpp:66-76 | Different masks give different windows, so the 65536 masks exercise 65536 distinct digit/separator layouts |
| VerifySseUnsignedConversion.BitsDetermine | test/unittest/verify_sse_unsigned_conversion.cpp:70 | A mask is determined by its bits `x & (1 << i)` |
| VerifySseUnsignedConversion.MaskZeroExample | test/unittest/verify_sse_unsigned_conversion.cpp:66-84 | Mask 0 gives sixteen underscores and an empty reference |
| VerifySseUnsignedConversion.MaskFiveWindow | test/unittest/verify_sse_unsigned_conversion.cpp:68-76 | Mask `0b101` gives `"0_1"` followed by thirteen underscores |
| VerifySseUnsignedConversion.MaskFiveExample | test/unittest/verify_sse_unsigned_conversion.cpp:66-84 | Mask `0b101` gives the reference `[0, 1]` |

## Left out

- `contains` comes from `scalar-parse-common.h`, and scalar-parse-common.h is not part of this model. Separator
  membership is modelled as membership of the byte in the separator sequence, without a C-string terminator.
- The SSE path is not modelled: `Verify::run`, the `blocks` table, `_mm_loadu_si128`, `_mm_shuffle_epi8` and
  the `sse::convert_*digits` kernels (test/unittest/verify_sse_unsigned_conversion.cpp:28-63). These are
  hardware intrinsics and code in headers that are not part of this model. The `input` register field and
  `dump` (printf only) are left out with them. In the model, `result` is what those kernels would overwrite.
- `parse_array` (test/utils/application.cpp:11-36) is not modelled. It rests on `strtol`, a C library call.
- The `Application` class is not modelled: command-line handling, random data generation, timing and printing.
- ScalarParseSigned.ParseSigned: the source's `int32_t` arithmetic is mathematical here, under the
  precondition `NoInt32Overflow`. It bounds only the digits the scan reaches: every digit run before the first
  faulty byte has a value that, plus `'0'`, stays below 2^31, which is where `10*number + c - '0'` would
  overflow. Signed overflow is undefined behaviour in the source. Digits after the first faulty byte are never
  read and are not bounded, so input such as `"x9999999999"` still meets the precondition and throws.
- ScalarParseSigned.ParseSigned: output is modelled as an append-only sequence. That is the reading under an
  insert iterator such as `std::back_inserter`, which the exhaustive test passes to the unsigned decoder
  (test/unittest/verify_sse_unsigned_conversion.cpp:83); no caller of the signed decoder is part of this
  model. The signed decoder writes `*output = v` without `++` (include/scalar/scalar-parse-signed.h:69, 71, 85,
  87), while the unsigned decoder writes `*output++` (include/scalar/scalar-parse-unsigned.h:24, 34). With a plain pointer or another forward iterator
  the signed decoder would overwrite one slot with each value; that reading is not modelled.
- ScalarParseSigned.ParseSignedMeaning: states each value as its run's value with or without a minus. Which
  sign it gets is stated by ScalarParseSigned.SignedRunsAppendRun, run by run.
- Values written through the output iterator before a throw stay with the caller in the source. The model
  returns only `Err(kind, at)`, without that prefix.
- VerifySseUnsignedConversion.Verify.Compare: requires `n <= |reference|`. The source reads
  `reference[i]` for every `i < n`, and an index past the end of a `std::vector` is undefined behaviour.
- The exception message texts are reduced to three error kinds: wrong character, sign after a non-separator,
  and sign without digits.
- A `char` is a byte from 0 to 255. Its signedness matters only for the `std::set<char>` order in
  `parse_separators`, where `char` is taken to be signed, as on x86-64.

## Findings

| source | as written | input that shows it | evidently intended | confidence | as-written member | corrected member |
|---|---|---|---|---|---|---|
| include/scalar/scalar-parse-signed.h:79-92 | `prev = state` ends every iteration, so the end-of-input block (guarded by `state == Separator`) always sees `prev == state`. It can neither flush a final run nor reject a trailing sign | `"+1,-2,3"` with separator `,` gives `[1, -2]`; `"1,-"` gives `[1]` without error | Flush a digit run that ends the input, as the unsigned decoder does, and throw "not followed by any digit" for a sign that ends it | not executed | ScalarParseSigned.DroppedRunExample | ScalarParseSigned.ParseSignedIntendedEmitsEveryRun |
