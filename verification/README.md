# Roadsend PHP runtime: verified models of five algorithms

Dafny models of five self-contained algorithms of the Roadsend PHP runtime, with proofs of what
each is for. `dafny verify dfyconfig.toml` checks everything.

| source file | modules | main results |
|---|---|---|
| `runtime/ext/standard/sha1.c` | `Sha1Spec`, `Sha1Answer`, `Sha1Context`, `Sha1Runs` | the streaming context computes SHA-1 of FIPS PUB 180-1 for every way of cutting a message, and gives the standard's own answer for "abc"; the status after any run of operations; the four register loops are the 80-step definition; padding is minimal and injective |
| `runtime/ext/sqlite/encode.c` | `SqliteEncode`, `SqliteCodec` | the offset found is the least one with the fewest escapes, the documented buffer always suffices, decoding (also in place) undoes encoding, and exactly the well-formed strings are encodings |
| `runtime/ext/standard/mt_rand.c` | `Bits`, `TwisterSpec`, `MersenneTwister`, `TwisterRuns` | the in-place reload is the MT19937 recurrence, also solved for its older words; the outputs of any run of seedings and draws, and the state words recovered from them; the range macro as a quotient of integers, and which half of its range `mt_rand` can reach |
| `runtime/ext/standard/strnatcmp.c` | `NaturalTokens`, `NaturalCompare`, `NaturalLaws` | the comparison is the lexicographic order of token sequences, hence a total preorder; numbers are ordered by value, or as decimal fractions behind a leading zero; exactly where spaces and letter case matter |
| `runtime/c-runtime.c` | `Strstr` | the unrolled search returns the least occurrence on every input except an exactly described family |

Each `*Spec`, `*Tokens`, `*Encode` module is a definition that does not follow the code; the
imperative modules hold the loops, arrays and contexts of the source and are proved against it.
`Sha1Answer`, `NaturalLaws` and the last sections of `TwisterSpec` state known answers
and laws that do not name the parts of these definitions.

## How the code is rendered

- `sha1.c`: octets are `bv8`, words `bv32`; the two length words are integers modulo 2^32 written
  out. `Message_Digest` and `Message_Block` are arrays of the context. An `unsigned` receives the
  length of a chunk, so `Accepted` cuts a chunk to its length modulo 2^32 as the source does.
- `encode.c`: an `unsigned char` is an integer below 256, with `% 256` at each truncation. The
  offset `e` is not initialised in the source; `ChooseOffset` starts from an arbitrary value and
  shows that it is always overwritten. The file's comment spells the escape of 0x27 both as
  `01 28` and as `01 03`; the code emits `01 28`, and so does the model. The comment also has the
  encoder add the offset and the decoder subtract it; the code does the reverse, as `EscapeTable` states.
- `mt_rand.c`: `uint32` is `unsigned long`, so the state is an array of 64-bit words. The
  recurrence is defined on 32-bit words, and `Wide` connects the two. Pointers are indices. The
  spare word at index 624 is read by the last turn of the second loop but occurs in no invariant,
  so no output depends on it.
- `strnatcmp.c`: a `char` is an integer in -128..255, which covers both signednesses; `isspace`,
  `isdigit` and `toupper` are those of the C locale.
- `c-runtime.c`: a string is a buffer of its bytes and one terminator. A read beyond the
  terminator leaves the buffer, and the model gives it an outcome of its own, `Overrun`.

## Where the code and its documentation differ

- `re_strstr` is meant to be safe for binary strings (`runtime/c-runtime.c:39-41`), but a NUL inside
  the needle can be matched with the haystack's terminator, and an empty needle is searched as a
  NUL. `Search` states exactly when the result is right, `StraddlingExample` gives an input on
  which it is not, and `NulFreeNeverStraddles` shows that no needle without NULs straddles the end.
- `sqlite_decode_binary` never returns the -1 its comment promises (`runtime/ext/sqlite/encode.c:169-170`).
  `MalformedIsAccepted` gives two inputs, `ResultAsDocumented` the exact condition over whole
  strings, and `DecoderStops` says exactly when decoding stays inside the string at all, which it
  does not for the empty string.
- `randomMT` halves every draw except the one that reloads, and `randomMTrange` halves again. So
  only one draw in 624 can reach the upper half of a requested range, although `MT_RAND_MAX` is
  declared as 2^31 - 1. `DrawMagnitude` and `UpperHalfNeedsReload` say exactly which draws do, and
  `FirstDrawReachesUpperHalf` shows that some do.

## Model

| member | source | states |
|---|---|---|
| Sha1Spec.PaddingIsMinimal | runtime/ext/standard/sha1.c:352-359 | no shorter run of zero octets brings message, 0x80 and length to a block boundary |
| Sha1Spec.PadIsInjective | runtime/ext/standard/sha1.c:352-359 | two messages of fewer than 2^64 bits with the same padded form are the same message |
| Sha1Spec.BigEndianRoundTrip | runtime/ext/standard/sha1.c:404-414 | the stored length octets, read back as a big-endian number, are the length |
| Sha1Spec.DigestRoundTrip | runtime/ext/standard/sha1.c:54-84 | the 20 digest octets determine the five chaining words |
| Sha1Answer.AbcAnswer | runtime/ext/standard/sha1.c:253-347 | the chaining words of "abc" are those of appendix A of FIPS PUB 180-1 |
| Sha1Answer.AbcDigest | runtime/ext/standard/sha1.c:54-84 | its twenty digest octets, in order |
| Sha1Context.Context.Reset | runtime/ext/standard/sha1.c:114-128 | any context becomes one that has absorbed the empty message |
| Sha1Context.Context.Input | runtime/ext/standard/sha1.c:186-231 | the status after a chunk: extended message, corruption when the total reaches 2^64 bits or when a digest was already computed, nothing at all for an empty chunk |
| Sha1Context.Context.InputOctet | runtime/ext/standard/sha1.c:204-230 | one octet keeps index, buffer, chain and both length words in step with the message, and corrupts exactly at 2^61 octets |
| Sha1Context.EightBitsCounted | runtime/ext/standard/sha1.c:209-222 | the two length words stay eight times the octet count modulo 2^64, and both reach zero exactly at 2^61 octets |
| Sha1Context.Context.ExpandSchedule | runtime/ext/standard/sha1.c:267-281 | the 80-word array filled by two loops is the recursive message schedule of the block |
| Sha1Context.Context.ChoiceRounds | runtime/ext/standard/sha1.c:289-299 | the first loop over the rotating registers is steps 0 to 19 of the 80-step definition |
| Sha1Context.Context.ParityRounds | runtime/ext/standard/sha1.c:301-333 | the second and the fourth loop are steps 20 to 39 and 60 to 79 |
| Sha1Context.Context.MajorityRounds | runtime/ext/standard/sha1.c:312-322 | the third loop is steps 40 to 59 |
| Sha1Context.Context.ProcessMessageBlock | runtime/ext/standard/sha1.c:253-347 | the chain becomes the compression of the old chain with the buffered block, and the buffer is empty |
| Sha1Context.PaddedInOneBlock | runtime/ext/standard/sha1.c:395-416 | with at most 55 pending octets the SHA-1 of the message needs one more block, made of the pending octets, 0x80, zeros and the length |
| Sha1Context.PaddedInTwoBlocks | runtime/ext/standard/sha1.c:380-416 | with more it needs exactly two, and these are their octets |
| Sha1Context.Context.PadMessage | runtime/ext/standard/sha1.c:372-417 | from any absorbing context the digest becomes the SHA-1 of the absorbed message |
| Sha1Context.Context.Result | runtime/ext/standard/sha1.c:147-162 | success unless corrupted; the first call finishes the digest, every later call changes no field, no buffer and no digest word |
| Sha1Context.Context.GetDigest | runtime/ext/standard/sha1.c:54-84 | a string of length 20 receives the digest octets, any other string is left alone |
| Sha1Runs.RunFromReset | runtime/ext/standard/sha1.c:147-231 | the status after every sequence of inputs and results; it is corrupted exactly when 2^64 bits were fed before the first result or anything was fed after it |
| Sha1Runs.AnyCutting | runtime/ext/standard/sha1.c:147-231 | every way of cutting a message into chunks finishes on the whole message |
| Sha1Runs.Drive | runtime/ext/standard/sha1.c:147-231 | a real context follows the status function over any run |
| Sha1Runs.HashPort | runtime/ext/standard/php-sha1.scm:33-44 | however a port cuts its contents into reads of up to 1024 octets, the output is the digest octets of the SHA-1 of the contents; from 2^61 octets on it is the chain after the first 2^61 of them |
| Sha1Answer.HashAbc | runtime/ext/standard/php-sha1.scm:33-44 | a real context outputs exactly these octets for "abc", read at once or in two pieces |
| SqliteEncode.EscapeTable | runtime/ext/sqlite/encode.c:150-162 | what each byte becomes at each offset: the three escapes, and otherwise the one byte that gives it back when the offset is added |
| SqliteEncode.OnlyQuotes | runtime/ext/sqlite/encode.c:51-58 | a string of n quotes becomes n bytes behind the offset 1, without a single escape |
| SqliteEncode.EncodingIsShortest | runtime/ext/sqlite/encode.c:89-101 | no allowed offset gives a shorter string than the one chosen |
| SqliteEncode.BestIsUnique | runtime/ext/sqlite/encode.c:136-146 | an allowed offset that beats all smaller ones and ties with no better one is the one chosen |
| SqliteEncode.FewEscapes | runtime/ext/sqlite/encode.c:111-114 | the chosen offset escapes at most 3 bytes in 254 |
| SqliteEncode.HitsAtMostThree | runtime/ext/sqlite/encode.c:140 | each input byte needs an escape at no more than three offsets |
| SqliteEncode.EncodingFits | runtime/ext/sqlite/encode.c:110-114 | output and terminator fit in 2 + (257*n)/254 bytes, for every input |
| SqliteEncode.EncodingIsClean | runtime/ext/sqlite/encode.c:104-105 | before the terminator no byte is a NUL or a quote |
| SqliteEncode.DecodeEncode | runtime/ext/sqlite/encode.c:123-187 | decoding an encoding, whatever follows it in the buffer, gives the original bytes, also for the empty input |
| SqliteEncode.DecodeEncodeWith | runtime/ext/sqlite/encode.c:150-187 | the same for every offset, chosen or not |
| SqliteEncode.EncodeDecode | runtime/ext/sqlite/encode.c:64-83 | re-encoding the decoded body gives the body back if and only if it is well formed |
| SqliteEncode.EncodingsAreWellFormed | runtime/ext/sqlite/encode.c:26-60 | the strings that encode something at an offset the encoder may use are exactly those with an allowed offset byte and a well-formed body, and each encodes what it decodes to |
| SqliteEncode.DecoderStops | runtime/ext/sqlite/encode.c:178-185 | the decoder stays inside a string if and only if the string is not empty and ends, behind its offset byte, in an even number of escape bytes |
| SqliteEncode.EmptyStringOverruns | runtime/ext/sqlite/encode.c:178-180 | on the empty string the terminator is taken for the offset and the decoder reads on |
| SqliteEncode.MalformedIsAccepted | runtime/ext/sqlite/encode.c:169-186 | two strings that encode nothing and are decoded to one byte each: one with a bad escape pair, one with a quote for its offset |
| SqliteEncode.ResultAsDocumented | runtime/ext/sqlite/encode.c:168-170 | for every string the decoder returns the documented result, -1 for a string that encodes nothing, if and only if the offset byte is allowed and the body well formed |
| SqliteCodec.Histogram | runtime/ext/sqlite/encode.c:134-135 | every cell counts the occurrences of its byte value |
| SqliteCodec.EscapesFromHistogram | runtime/ext/sqlite/encode.c:140 | three cells of the histogram add up to the escapes emitted at an offset |
| SqliteCodec.ChooseOffset | runtime/ext/sqlite/encode.c:136-146 | the search always assigns an offset, and it is the least with the fewest escapes in spite of the early exit |
| SqliteCodec.WriteByte | runtime/ext/sqlite/encode.c:153-158 | one turn of the writing loop stores the encoding of one byte and changes nothing behind it |
| SqliteCodec.WriteBody | runtime/ext/sqlite/encode.c:150-162 | the bytes written are offset, escaped body and terminator, and nothing behind them changes |
| SqliteCodec.EncodeBinary | runtime/ext/sqlite/encode.c:123-163 | the returned length is that of the encoding with and without an output buffer, and the buffer starts with the encoding |
| SqliteCodec.DecodeTurn | runtime/ext/sqlite/encode.c:180-184 | one turn of the decoder stops with everything decoded, or yields the next byte and stays inside the buffer |
| SqliteCodec.DecodeBinary | runtime/ext/sqlite/encode.c:175-187 | the output starts with the decoding of what the input buffer held, the same buffer or another, and the rest is unchanged |
| SqliteCodec.EncodeThenDecodeInPlace | runtime/ext/sqlite/encode.c:172-173 | encoding into a buffer and decoding that buffer onto itself brings the input back |
| TwisterSpec.SeedWordClosedForm | runtime/ext/standard/mt_rand.c:61-114 | seed word j is 69069^j times the odd seed modulo 2^32 |
| TwisterSpec.SeedWordIsOdd | runtime/ext/standard/mt_rand.c:71-77 | every seed word is odd |
| TwisterSpec.SeedBitsThatMatter | runtime/ext/standard/mt_rand.c:109 | two seeds give the same sequence if and only if they agree in bits 1 to 31 |
| TwisterSpec.FirstDrawFrom4357 | runtime/ext/standard/mt_rand.c:117-138 | seeded with 4357 the first draw is 0xD13C8AF5 |
| TwisterSpec.SecondDrawFrom4357 | runtime/ext/standard/mt_rand.c:148-152 | the second draw after that is 0x7FE13A41 |
| TwisterSpec.RecurrenceBackwards | runtime/ext/standard/mt_rand.c:127-133 | for every seed and k, words k+624 and k+397 determine the upper bit of word k and the lower bits of word k+1, for even and odd successors |
| TwisterSpec.UntemperTemper | runtime/ext/standard/mt_rand.c:134-137 | the tempering has an explicit inverse |
| TwisterSpec.WordFromDraw | runtime/ext/standard/mt_rand.c:134-152 | every draw gives back its word of the sequence, exactly if it reloads and up to the one halved bit if not |
| MersenneTwister.TwistFits | runtime/ext/standard/mt_rand.c:127-128 | the 64-bit expression of the loops is the 32-bit twist |
| MersenneTwister.TemperFits | runtime/ext/standard/mt_rand.c:134-137 | the four tempering steps on 64-bit words are the 32-bit ones |
| MersenneTwister.GenerateFits | runtime/ext/standard/mt_rand.c:112-113 | the low half of the unmasked product is the 32-bit product |
| MersenneTwister.Generator.constructor | runtime/ext/standard/mt_rand.c:56-58 | the static state before any call is unseeded |
| MersenneTwister.Generator.SeedMT | runtime/ext/standard/mt_rand.c:61-114 | in any state, the vector becomes the first 624 words of the seed's sequence and the countdown is zero |
| MersenneTwister.Generator.TwistStretch | runtime/ext/standard/mt_rand.c:127-131 | either loop advances the border between this block of the sequence and the next, although it reads words on both sides of it |
| MersenneTwister.Generator.TwistLast | runtime/ext/standard/mt_rand.c:133 | the final word uses the first word of the new block, and the vector is then the next 624 words |
| MersenneTwister.Generator.ReloadMT | runtime/ext/standard/mt_rand.c:117-138 | a reload replaces words k..k+623 of the sequence by k+624..k+1247, seeds with 4357 first if nothing was seeded, and returns the first new word tempered |
| MersenneTwister.Generator.RandomMT | runtime/ext/standard/mt_rand.c:141-153 | every draw is the next draw of the status, and pointer plus countdown stays 624 |
| MersenneTwister.Generator.StateWordsFit | runtime/ext/standard/mt_rand.c:56 | no state word exceeds 32 bits in any reachable state |
| TwisterRuns.DrawsAfterSeeding | runtime/ext/standard/mt_rand.c:141-153 | after any run, seeding and n draws yield the n tempered words that follow the seed words, one in 624 whole and the others halved |
| TwisterRuns.Drive | runtime/ext/standard/mt_rand.c:61-153 | a real generator yields the outputs of any run of seedings and draws |
| TwisterRuns.DrawMagnitude | runtime/ext/standard/mt_rand.c:156-157 | the value scaled by the range macro has 31 bits if and only if the draw reloads and the upper bit of its tempered word is set |
| TwisterRuns.UpperHalfNeedsReload | runtime/ext/standard/mt_rand.h:13-16 | the result lies between the bounds; for an even number of values it lies in the upper half if and only if the draw reloads with its upper bit set, for an odd number only the middle is open to both kinds of draw |
| TwisterRuns.ScaleInRange | runtime/ext/standard/mt_rand.h:15-16 | the macro's result for any 31-bit number and any span up to 2^53, with the product exact or rounded to a double |
| TwisterRuns.ScaleIsQuotient | runtime/ext/standard/mt_rand.h:15-16 | the macro adds to the lower bound the integer quotient of draw times number of values by 2^31 |
| TwisterRuns.RoundedQuotient | runtime/ext/standard/mt_rand.h:15-16 | with a product rounded to a double it adds that quotient or one more, and the quotient itself while draw times number of values is at most 2^53 |
| TwisterRuns.FirstDrawsUnseeded | runtime/ext/standard/mt_rand.c:122-123 | without any seeding the first two draws are 0xD13C8AF5 and 0x7FE13A41 |
| TwisterRuns.SecondThrowFrom4357 | runtime/ext/standard/mt_rand.c:156-160 | the second draw after seeding with 4357, scaled to 1..6, is 3 however the product is rounded |
| TwisterRuns.FirstDrawReachesUpperHalf | runtime/ext/standard/mt_rand.c:122-138 | the very first draw without seeding has 31 bits, so the upper half is reached |
| TwisterRuns.RandomMTRange | runtime/ext/standard/mt_rand.c:156-160 | one draw is taken, halved again and scaled, and is the lower bound plus the quotient or one more, between the bounds, whichever way the floating-point product was rounded |
| NaturalTokens.NatOrderSwap | runtime/ext/standard/strnatcmp.c:92-141 | swapping the arguments negates the result |
| NaturalTokens.NatOrderTie | runtime/ext/standard/strnatcmp.c:123-127 | the result is 0 if and only if the token sequences agree, up to case when folding |
| NaturalTokens.NatOrderTransitive | runtime/ext/standard/strnatcmp.c:92-141 | the order is transitive for both settings, strictly when a premise is strict |
| NaturalTokens.CaseFoldingByUpperCasing | runtime/ext/standard/strnatcmp.c:129-132 | comparing without case is comparing the upper-cased strings |
| NaturalTokens.RightOrderByValue | runtime/ext/standard/strnatcmp.c:45-48 | for runs of any length without leading zeros the right-aligned order is the order of their decimal values |
| NaturalTokens.LeftOrderByFraction | runtime/ext/standard/strnatcmp.c:73-74 | the left-aligned order compares the runs as decimal fractions, then by length |
| NaturalLaws.NumbersByValue | runtime/ext/standard/strnatcmp.c:112-120 | of two leading numbers without a leading zero the one of smaller value comes first |
| NaturalLaws.NumbersByFraction | runtime/ext/standard/strnatcmp.c:112-120 | if either has a leading zero, the smaller decimal fraction comes first, and of equal ones the shorter |
| NaturalLaws.SameNumbers | runtime/ext/standard/strnatcmp.c:110-139 | in every other case the two numbers are the same digits and what follows them decides |
| NaturalLaws.CommonText | runtime/ext/standard/strnatcmp.c:99-140 | a common beginning without digits does not change the result |
| NaturalLaws.Img2BeforeImg10 | runtime/ext/standard/strnatcmp.c:92-141 | "img2" comes before "img10" |
| NaturalLaws.CaseDoesNotMatter | runtime/ext/standard/strnatcmp.c:129-132 | strings that differ in the case of letters only tie when folding |
| NaturalLaws.CaseMattersWithoutFolding | runtime/ext/standard/strnatcmp.c:134-137 | otherwise the upper case of a letter comes before its lower case |
| NaturalLaws.CharactersByCode | runtime/ext/standard/strnatcmp.c:129-137 | characters that are not both digits are ordered by code, lower-case letters counting as upper-case ones when folding |
| NaturalLaws.SpacesSeparate | runtime/ext/standard/strnatcmp.c:103-108 | inserting any of the six spaces changes the tokens if and only if it is put between two digits |
| NaturalCompare.CompareRight | runtime/ext/standard/strnatcmp.c:40-67 | the loop that remembers one bias returns the right-aligned order of the two maximal digit runs |
| NaturalCompare.CompareLeft | runtime/ext/standard/strnatcmp.c:70-89 | the loop returns the left-aligned order of the two maximal digit runs |
| NaturalCompare.TiedRunsStep | runtime/ext/standard/strnatcmp.c:110-139 | after tied runs, going on one digit later gives the same outcome as going on behind the runs |
| NaturalCompare.StrNatCmp0 | runtime/ext/standard/strnatcmp.c:92-141 | the scan returns the lexicographic order of the token sequences |
| NaturalCompare.StrNatCmp | runtime/ext/standard/strnatcmp.c:145-147 | the case-sensitive natural order |
| NaturalCompare.StrNatCaseCmp | runtime/ext/standard/strnatcmp.c:151-153 | the case-insensitive natural order |
| Strstr.FindFirst | runtime/c-runtime.c:71-81 | the first loop finds the first place of the needle's first byte, with the counter at remaining length minus one |
| Strstr.FindPair | runtime/c-runtime.c:94-121 | the unrolled loop finds the next place of the first two needle bytes, keeps the counter in step, and leaves the buffer only for a NUL |
| Strstr.CompareRest | runtime/c-runtime.c:122-150 | the unrolled comparison decides the candidate, although it stops by a counter it decrements on several paths |
| Strstr.Search | runtime/c-runtime.c:53-156 | for every haystack and needle: the least occurrence if there is one, otherwise nothing, or a read beyond the terminator exactly when the needle straddles it; the documented result if and only if the needle is not empty and occurs or does not straddle |
| Strstr.CorrectUnlessStraddling | runtime/c-runtime.c:39-41 | a result as described is the documented one if and only if the needle is not empty and occurs or does not straddle the end |
| Strstr.NulFreeNeverStraddles | runtime/c-runtime.c:53-156 | a needle without NULs never straddles |
| Strstr.StraddlingExample | runtime/c-runtime.c:39-41 | searching 'a' for 'a' and a NUL must read beyond the terminator, where nothing should be found |
| Strstr.StrPos | runtime/c-runtime.c:271-295 | the least occurrence at or after the offset, as an index into the whole haystack, with the same exceptions |
| Strstr.PccStrPos | runtime/utils.scm:127-133 | the same for every offset and needle behind the caller's guard |
| Strstr.StrPosIndex | runtime/c-runtime.c:271-295 | for needles without NULs, the least occurrence not below the offset, or -1 exactly when there is none |

## Left out

- RandomMTRange: bounds are integers; a span above 2^53, or one that overflows `long`, is not bounded. Rounding of the product is a parameter, of which it is only assumed that the relative error is at most 2^-53 and that none of the integers and multiples of 2^-31 that are doubles is stepped over.
- Search: the value of a byte read beyond a terminator is not modelled, only that it is read.
- ParityRounds: the two loops that share the parity function are one method with the constant as a parameter; the zero-filling loops of the padding and the two twist loops are shared in the same way.
- EncodeBinary: lengths are unbounded integers, so an `int` overflow for inputs near 2^31 bytes is not modelled.
- `re_stristr` and the case-insensitive path of `re_strpos`: the third needle byte is compared without folding (`runtime/c-runtime.c:238`), so the search property does not carry over.
- The hexadecimal rendering of the digest in `php-sha1.scm`, which is a library conversion of each octet.
- Locales other than C in `strnatcmp.c`.
- The period and the statistical quality of MT19937, and cryptographic properties of SHA-1.
- The test program in `encode.c`, allocation of strings and contexts, and the rest of the runtime.
