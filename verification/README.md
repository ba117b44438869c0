# Verified model of simdutf's base64 engines, chunked drivers and boundary logic

simdutf converts and validates Unicode text and base64. This project models the complete algorithms
of the repository in which a fast, chunked or table-driven form has to agree with a simple meaning,
and proves that it does, for every capacity and every way of cutting the input up. Where the code
does not agree for some inputs, one is named, and it is proved for all inputs exactly when it does.

* **Meanings.** `Base64` gives base64 at the level of bits (sections 4 and 5 of RFC 4648). `Unicode`
  gives UTF-16 (sections 2.1 and 2.2 of RFC 2781) and UTF-8 (section 3 of RFC 3629).
* **Base64 engines.** `NodeBase64` is the Node.js codec with its four-symbol fast path,
  `SpaceRemoval` the NEON white-space compactor, `OpenSslDecoder` the streaming OpenSSL decoder,
  `ScalarBase64` the library's scalar decoder with all its alphabets, padding and last-chunk modes,
  `BlockBase64` the decoder of the SIMD kernels with its buffer of six blocks.
* **Chunked drivers.** `Fastbase64Files`, `Fastbase64Decode`, `Fastbase64Carry`, `Fastbase64Encode` and
  `Fastbase64RoundTrip` are the `fastbase64` tool, `SafeBase64` the two-part decoding with an output limit, `BufferedCalls` the run of
  such calls with a small buffer, `AtomicBase64` the base64 functions that make these calls,
  `SafeConversions` the capacity-limited UTF-16 and Latin-1 conversions, `Sutf` the multi-file loop of
  the `sutf` tool. `SimdutfBase64` says what a text decodes to and gives the contract of the one-shot
  decoder; what the documentation leaves open is left open there, and `ScalarBase64` and `BlockBase64`
  prove that the code meets it. `EncodedTexts` and `OpenSslTexts` say what the decoders make of the texts
  that encoders write. `Buffers` copies between arrays.
* **Boundary logic.** `Utf16Validation` is the bitmask validator, `SurrogateShuffle` the generator of
  the surrogate expansion table, `WellFormedUtf16` the surrogate repair loops, `StreamTrim` the
  trimming of a cut.
* **Feature conditions.** `FeatureConditions` is the explicit-stack parser of the amalgamation
  script.

Loops over buffers are methods on arrays (or on classes where the source keeps fields between
calls), each proved against a function of its input; the promises are then lemmas about these
functions. Sizes are unbounded integers unless a wrap-around matters (surrogate tests, shifts).

## Where the code differs from its documentation

* `base64_to_binary_safe` decodes a first part of the text on its own. If that part ends among what
  looks like padding behind a single symbol of a group, but is none, the call reports a remainder
  instead of the invalid character; otherwise its error is that of one pass
  (`SafeBase64.OneCallIsExact`). So the error may depend on the capacity
  (`AtomicBase64.PadInsideIsSplit`).
* `atomic_base64_to_binary_safe` makes such calls with a small buffer. It reports the remainder exactly
  if the cut of the call that meets the end of the text falls there (`BufferedCalls.RunVerdict`), and
  so agrees with a single call exactly if both cuts do or neither (`BufferedCalls.RunAgreesWithCall`).
  White space in front can make it differ where no capacity makes a single call differ
  (`AtomicBase64.MisreadsLater`). The position is the same in any case (`AtomicBase64.BuffersAgree`).
* Where garbage is accepted, the text is documented to end at the first '='. Both functions may read
  on behind it (`AtomicBase64.ReadsBehindPadding`). A call agrees with one pass exactly if it finds
  nothing to decode there (`BufferedCalls.SkipAgrees`), which may be so although symbols follow
  (`AtomicBase64.TwoPadsFirst`); for the driver the last call decides (`BufferedCalls.RunIsOnePass`),
  and `BufferedCalls.RunAgreesInGarbage` says when it agrees with a single call.
* `atomic_base64_to_binary_safe` is documented to return the position of an invalid character. It
  steps back over white space first, so it returns the position if and only if no white space
  precedes the character (`AtomicBase64.InvalidPosition`, `AtomicBase64.StepsOverSpace`).
* `tools/sutf.h` says that a buffer of four bytes is enough. With four bytes, a turn of the loop with
  a four-byte character in the buffer changes nothing at all (`Sutf.CommandLine.StallWithFourBytes`), so
  that a file of one such character is never finished (`Sutf.CommandLine.RunWithFourBytes`); five are
  enough (`Sutf.CommandLine.Run`).
* `And.__str__` and `Or.__str__` print an outer parenthesis that `parse_condition` cannot read
  (`FeatureConditions.StrIsReadBack`), and the parser gives `&&` and `||` equal rank, unlike the
  preprocessor whose lines it reads (`FeatureConditions.AgreesWithCExactlyUnmixed`).
* `convert_utf16_to_utf8_safe` returns 0 for ill-formed input exactly if four bytes are left at the
  error, or three and a chunk happens to end with it (`SafeConversions.SafeResult`).
* `fastbase64 -d` reads a file chunk by chunk, with one call for each. A file that one call rejects may be
  decoded (`Fastbase64Carry.JoinedTextsAreRead`), and one that a call accepts may be rejected, if a chunk
  ends between the two '=' of the padding and white space makes up all of it but the two symbols in
  front (`Fastbase64Carry.PaddingIsLost`). A file that a call accepts is decoded if it is unpadded, or
  padded by one '=', or holds no stretch of white space of almost a chunk
  (`Fastbase64Decode.DecodeTo`); every file the tool wrote is (`Fastbase64RoundTrip.EncodeThenDecode`).
* The carry of `encode_to` is lost if the file ends exactly with a full chunk; the chunk size of the
  tool is divisible by three, so that nothing is carried (`Fastbase64Encode.Encoder.EncodeTo`,
  `Fastbase64Encode.LostBytes`).

## Model

| member | source | states |
|---|---|---|
| Base64.DecodeBits | benchmarks/base64/node_base64.h:67-95 | the closed form of decoding keeps the concatenated six-bit values, bit by bit |
| Base64.DecodeIsUnique | benchmarks/base64/node_base64.h:67-95 | no other byte string of that length has those bits |
| Base64.DecodeConcat | benchmarks/base64/node_base64.h:101-136 | whole groups decode independently of what follows them |
| Base64.EncodeBits | benchmarks/base64/node_base64.h:195-222 | encoding keeps the bits of the bytes and fills the last symbol with zeros |
| Base64.RoundTrip | benchmarks/base64/node_base64.h:153-225 | decoding the encoding of any byte string gives it back |
| Base64.EncodeConcat | benchmarks/base64/node_base64.h:195-207 | groups of three bytes encode independently |
| Base64.SpellsIsLetter | include/simdutf/base64_tables.h:790-848 | the letter written for a value is the character at that place of the alphabet of RFC 4648 (tables 1 and 2), and no other character is |
| Base64.EncodeSixBits | benchmarks/base64/node_base64.h:195-222 | symbol i of an encoding is spelled by the six bits of the data from bit 6i on, zero behind the last byte |
| NodeBase64.ValueOfCharacter | benchmarks/base64/node_base64.h:35-54 | a character has a value iff it is at that place of one of the two alphabets |
| NodeBase64.SymbolCharacters | benchmarks/base64/node_base64.h:35-54 | the symbols are the characters of the two alphabets, all others are garbage or the '=' that ends the text |
| NodeBase64.NextSymbol | benchmarks/base64/node_base64.h:73-82 | the scan stops at the next symbol, or knows that none precedes the first '=' or the end |
| NodeBase64.NextByte | benchmarks/base64/node_base64.h:73-92 | one use of the macro adds at most the byte its symbol completes, or finds that nothing more can be decoded or fits |
| NodeBase64.DecodeGroupSlow | benchmarks/base64/node_base64.h:67-95 | four symbols among any garbage add three bytes; a stop means the output is final |
| NodeBase64.FastGroup | benchmarks/base64/node_base64.h:56-60 | one test of the top bits recognises four symbols, and the masked shifts are the bytes they spell |
| NodeBase64.FourMore | benchmarks/base64/node_base64.h:111-130 | four adjacent symbols lie before the first '=' and add exactly three bytes |
| NodeBase64.DecodeGroup4 | benchmarks/base64/node_base64.h:110-131 | one turn of the mixed loop, fast or slow, adds one group or is final |
| NodeBase64.DecodeFast | benchmarks/base64/node_base64.h:101-136 | the mixed fast and slow loop with its realigned bound leaves nothing that would fit undecoded |
| NodeBase64.DecodedSizeSuffices | benchmarks/base64/node_base64.h:138-150 | the size computed up front is never below the decoded size, whatever garbage the text holds |
| NodeBase64.Base64Decode | benchmarks/base64/node_base64.h:152-157 | writes exactly min(dstlen, 3n/4) bytes for the n symbols before the first '=', the prefix of their bit-level decoding, and nothing behind them |
| NodeBase64.GarbageIsIgnored | benchmarks/base64/node_base64.h:73-83 | inserting a character that is neither a symbol nor '=' anywhere changes nothing |
| NodeBase64.GarbageBetweenLetters | benchmarks/base64/node_base64.h:73-83 | between the letters of an encoding any characters may be inserted that are neither letters nor '=' |
| NodeBase64.DecodeSpelled | benchmarks/base64/node_base64.h:101-157 | whatever such characters stand among the letters of the encoding of x, decoding writes x and nothing behind it |
| NodeBase64.EncodedSizeOf | benchmarks/base64/node_base64.h:162-167 | in exact arithmetic both size formulas are the number of symbols, in normal mode rounded up to a whole group |
| NodeBase64.EncodeGroupAt | benchmarks/base64/node_base64.h:195-222 | the table lookups of a group of one, two or three bytes extend the encoding of what precedes it |
| NodeBase64.Base64Encode | benchmarks/base64/node_base64.h:176-225 | writes exactly the ceil(4n/3) letters of the encoding and nothing behind them |
| NodeBase64.EncodeThenDecode | benchmarks/base64/node_base64.h:138-225 | the decoder reads back what the encoder wrote in either alphabet, and the announced size is exact |
| SpaceRemoval.BlankCharacters | benchmarks/base64/arm_base64_spaces.h:166-178 | white space is the blank, the tabulator, the line feed and the carriage return |
| SpaceRemoval.WhitespaceMaskMarks | benchmarks/base64/arm_base64_spaces.h:166-178 | bit i of the mask is set iff byte i is one of the four white-space characters |
| SpaceRemoval.CompressIsFilter | benchmarks/base64/arm_base64_spaces.h:183-203 | two table lookups per register leave exactly the kept bytes, in order, at its front |
| SpaceRemoval.SingleBitIs | benchmarks/base64/arm_base64_spaces.h:205-249 | clearing the lowest set bit gives zero iff the mask is the one bit at the position that is counted |
| SpaceRemoval.CompressSingleIsFilter | benchmarks/base64/arm_base64_spaces.h:216-229 | the cheaper path for one dropped byte gives the same filter |
| SpaceRemoval.PackBlock | benchmarks/base64/arm_base64_spaces.h:239-257 | whichever of the three paths is taken, the counted bytes of the stored register are the block without white space |
| SpaceRemoval.RemoveSpaces | benchmarks/base64/arm_base64_spaces.h:231-267 | the result is the source without blanks, tabulators, line feeds and carriage returns, also when source and destination are one buffer; nothing behind the source length is written |
| SpaceRemoval.RemovalKeepsSymbols | benchmarks/base64/arm_base64_spaces.h:269-287 | cleaning first does not change what a decoder reads |
| OpenSslDecoder.LetterValue | benchmarks/base64/openssl3_base64.h:63-107 | but for '=', a character has a value iff it is at that place of the standard or the SRP alphabet, spelled out |
| OpenSslDecoder.OtherCharacters | benchmarks/base64/openssl3_base64.h:63-107 | which characters are white space, the end of the text and padding; all others but the letters are errors |
| OpenSslDecoder.ValueKinds | benchmarks/base64/openssl3_base64.h:57-107 | the masks applied to table values separate symbols, white space, '-' and errors |
| OpenSslDecoder.DecodeQuad | benchmarks/base64/openssl3_base64.h:283-296 | four characters are accepted iff all are symbols or '=', and give the three bytes of their bits |
| OpenSslDecoder.DecodeBlock | benchmarks/base64/openssl3_base64.h:256-298 | a block of symbols and '=' decodes iff its length is a multiple of four, '=' read as zero bits; no write beyond three bytes per group |
| OpenSslDecoder.BlockMeaning | benchmarks/base64/openssl3_base64.h:213-222 | dropping one byte per '=' turns that into the decoding of the symbols alone |
| OpenSslDecoder.FlushMeaning | benchmarks/base64/openssl3_base64.h:213-222 | flushing the last characters completes the decoding of all the characters kept |
| OpenSslDecoder.WrongPadding | benchmarks/base64/openssl3_base64.h:180-191 | a padding error is final: no later text repairs it |
| OpenSslDecoder.EvpEncodeCtx.DecodeInit | benchmarks/base64/openssl3_base64.h:118-124 | a fresh context with nothing pending |
| OpenSslDecoder.EvpEncodeCtx.Flush | benchmarks/base64/openssl3_base64.h:213-222 | never fails; afterwards every character kept is decoded |
| OpenSslDecoder.EvpEncodeCtx.Take | benchmarks/base64/openssl3_base64.h:173-222 | one turn of the loop: rejects iff the padding becomes wrong, keeps fewer than 64 characters, never reaches the overflow branch |
| OpenSslDecoder.EvpEncodeCtx.Scan | benchmarks/base64/openssl3_base64.h:172-223 | the whole text is kept up to the first '-', or rejected for an error or wrong padding, exactly |
| OpenSslDecoder.EvpEncodeCtx.EndUpdate | benchmarks/base64/openssl3_base64.h:225-247 | complete groups are flushed, an incomplete one stays, and the return value says which |
| OpenSslDecoder.EvpEncodeCtx.DecodeUpdate | benchmarks/base64/openssl3_base64.h:146-253 | the exact verdict, output and pending characters: what was pending and the new text are decoded but for an incomplete group, or, up to the rejected character, but for an incomplete buffer of 64; no write outside the room announced |
| OpenSslDecoder.EvpEncodeCtx.DecodeFinal | benchmarks/base64/openssl3_base64.h:300-313 | succeeds iff the number of pending characters is a multiple of four, and then writes their decoding, '=' read as zero bits |
| OpenSslDecoder.WholeText | benchmarks/base64/openssl3_base64.h:146-253 | one update on a fresh context decodes everything, or leaves an incomplete group, or reports an error |
| OpenSslDecoder.Base64Decode | benchmarks/base64/openssl3_base64.h:315-333 | accepts iff the text before '-' has no bad character, right padding and a multiple of four characters, and then writes its decoding |
| OpenSslDecoder.StreamStep | benchmarks/base64/openssl3_base64.h:146-253 | invariant of every run on symbols and white space: the bytes emitted are the decoding of all symbols seen but the pending ones |
| OpenSslDecoder.DecodeChunks | benchmarks/base64/openssl3_base64.h:118-313 | for every cutting of such a text the final verdict depends on the number of symbols only, the bytes are a prefix of its decoding less than 64 symbols behind, and all of it on success |
| OpenSslTexts.DecodeCutLetters | benchmarks/base64/openssl3_base64.h:118-313 | for every cutting of the letters of b with white space among them, the stream is accepted iff b is whole groups of three bytes, and then b is written; otherwise a prefix of it, fewer than 48 bytes short |
| OpenSslTexts.DecodePadded | benchmarks/base64/openssl3_base64.h:315-333 | the padded text of any b, with white space, is accepted in one call, which writes b |
| SimdutfBase64.ValueOfCharacter | include/simdutf/base64_tables.h:790-848 | for each set of letters that is read, a character has a value iff one of its alphabets has it at that place |
| SimdutfBase64.CharacterKinds | include/simdutf/base64_tables.h:790-848 | which characters are symbols, which are passed over and at which reading stops, by name |
| SimdutfBase64.ToBinaryDetails | README.md:2025-2029 | contract of the one-shot decoder for all alphabets, last-chunk modes and padding: exact error and error position, and the freedom in the bytes in front of an error and in the white space counted |
| SimdutfBase64.LooseIsForgiving | README.md:2142-2142 | loose decoding accepts an ending iff it is unpadded and not a single symbol, or padded to a multiple of four |
| SimdutfBase64.StrictIsCanonical | include/simdutf/implementation.h:4138-4139 | strict decoding accepts an ending iff the last chunk is whole, or padded to a multiple of four without extra bits |
| SimdutfBase64.StopBeforePartialIs | include/simdutf/scalar/base64.h:289-308 | stop_before_partial accepts an ending iff it is unpadded, completed by its padding, or two symbols and one '=', and decodes the last group iff it is complete |
| SimdutfBase64.OnlyFullChunksIs | include/simdutf/scalar/base64.h:289-308 | only_full_chunks accepts padding behind two or three symbols and never decodes an incomplete group |
| SimdutfBase64.PartialOutput | include/simdutf/scalar/base64.h:289-308 | a partial mode that succeeds writes whole groups, unless it is stop_before_partial and the padding completes the last group |
| SimdutfBase64.VerdictKinds | include/simdutf/scalar/base64.h:249-351 | which ends of a text each error can stem from, and how much is decoded otherwise |
| SimdutfBase64.BehindStop | include/simdutf/scalar/base64.h:93-150 | no symbol lies in the padding |
| SimdutfBase64.Canonical | src/implementation.cpp:1853-1861 | the position just behind the m-th symbol |
| SimdutfBase64.CanonicalIs | src/implementation.cpp:1853-1861 | a prefix that ends in a symbol is the shortest with its number of symbols |
| SimdutfBase64.CanonicalBehind | src/implementation.cpp:1840-1841 | positions behind a symbol add up over calls |
| SimdutfBase64.RestOfText | include/simdutf/base64_implementation.h:120-126 | behind whole groups the rest of a text is read as it is in the whole text, padding included |
| SimdutfBase64.VerdictBehind | include/simdutf/base64_implementation.h:120-126 | its verdict with the remaining room is the verdict on the whole |
| SimdutfBase64.StepBack | src/implementation.cpp:1855-1861 | going back over ignorable characters reaches the position just behind the last symbol |
| SimdutfBase64.ToTextConcat | src/implementation.cpp:2541-2561 | after whole groups of three bytes text can be appended, with padding at the end only |
| SimdutfBase64.CharacterOfText | include/simdutf/scalar/base64.h:415-643 | the text of an encoding, character by character: letters of the alphabet asked for at the values the bits of the data spell, then only '=' |
| SimdutfBase64.TextIsPadded | include/simdutf/scalar/base64.h:415-643 | a padded text has four characters for each group of three bytes, whole or not |
| EncodedTexts.TextIsRead | include/simdutf/scalar/base64.h:75-150 | whatever white space stands in it, the text of an encoding is read as the symbols of the data and their padding |
| EncodedTexts.EncodedVerdict | include/simdutf/scalar/base64.h:249-351 | the verdict on such a text in each mode, and how much of it is decoded |
| EncodedTexts.DetailsReadBack | README.md:2163-2163 | a one-shot decoder reads the data back; an unpadded last group is a remainder in strict mode and left out in the partial ones |
| EncodedTexts.SpaceAdded | include/simdutf/scalar/base64.h:249-264 | white space may be added anywhere |
| ScalarBase64.FastWord | include/simdutf/scalar/base64.h:207-219 | the four table words combine below the threshold iff all four characters are symbols, and hold their three bytes |
| ScalarBase64.TripleIsDecode | include/simdutf/scalar/base64.h:308-364 | the leading bytes of the word built from two to four symbols are their decoding |
| ScalarBase64.LastBits | include/simdutf/scalar/base64.h:310-333 | the masks of strict mode find exactly the extra bits behind the last byte |
| ScalarBase64.PartialGroup | include/simdutf/scalar/base64.h:248-264 | the symbols collected are those of the incomplete last group |
| ScalarBase64.TailDecode | include/simdutf/scalar/base64.h:156-364 | the loop of fast words and single characters ends with exact error, position and bytes, for each alphabet, last-chunk mode and number of '=', with and without a capacity; out of room, it stops just behind a symbol |
| ScalarBase64.FindEnd | include/simdutf/scalar/base64.h:93-150 | sets aside up to two '=' with the white space around them, or, where garbage is skipped, all from the first '=' on |
| ScalarBase64.EndMeans | include/simdutf/scalar/base64.h:93-150 | what is set aside is padding iff the rest has no bad character; a '=' left in the rest is none |
| ScalarBase64.WholeDecode | include/simdutf/scalar/base64.h:723-833 | exact error, position and bytes for every text, with the positions moved as the code does; its second check of the padding never fails |
| ScalarBase64.ToBinaryDetailsScalar | include/simdutf/scalar/base64.h:723-776 | what the scalar code returns is a result the one-shot contract allows |
| BlockBase64.DecodeBlocks | src/generic/base64.h:70-116 | the loop over blocks stops at the first bad character of the text, or leaves fewer than 64 characters; what it wrote and what the buffer keeps are all the symbols so far, in order |
| BlockBase64.FillUp | src/generic/base64.h:123-137 | filling up an incomplete block one by one keeps that, or stops at the bad character |
| BlockBase64.Drain | src/generic/base64.h:139-176 | everything in the buffer is decoded but for at most three symbols of an incomplete group |
| BlockBase64.WalkBack | src/generic/base64.h:178-191 | going back over these symbols and what lies between them reaches a place with only whole groups in front, without running past the start of the text |
| BlockBase64.TailBehind | src/generic/base64.h:193-199 | how the scalar loop ends behind whole groups is how it ends on all of the text |
| BlockBase64.CompressDecode | src/generic/base64.h:40-229 | for every text, alphabet, last-chunk mode and padding the block decoder returns a result the one-shot contract allows; its last check of the padding is never reached with padding; a partial mode writes whole groups unless the padding completes the last one |
| SafeBase64.Behind | include/simdutf/base64_implementation.h:120-126 | so any allowed result on the rest, shifted, is an allowed result on the whole |
| SafeBase64.FirstFails | include/simdutf/base64_implementation.h:88-113 | if the first part is rejected, the text is, with the same error and position, unless the cut splits a '=' from what shows that it is no padding |
| SafeBase64.FirstIsAll | include/simdutf/base64_implementation.h:115-119 | if the first part is the whole text, the room never runs out |
| SafeBase64.FirstGoesOn | include/simdutf/base64_implementation.h:88-103 | after a success on the first part whole groups are decoded, or, where garbage is skipped, the text has ended at a '=' |
| SafeBase64.NothingFollows | include/simdutf/base64_implementation.h:120-126 | in the latter case the second part changes nothing if no symbol follows |
| SafeBase64.SlowDecode | include/simdutf/base64_implementation.h:10-56 | the second run for decode_up_to_bad_char returns the same error and position with every whole group in front |
| SafeBase64.ToBinarySafe | include/simdutf/base64_implementation.h:58-161 | the two parts together give a result of one pass over the text, for every text, capacity and mode, except where the cut splits or skips a '=', and then exactly what is stated; out of room, it stops just behind its last symbol |
| SafeBase64.RegularIsWhole | include/simdutf/base64_implementation.h:72-76 | a test of the text alone that rules both out for every capacity |
| SafeBase64.OneCallIsExact | include/simdutf/base64_implementation.h:72-113 | where garbage is not skipped, a call gives the verdict of one pass iff its cut does not split a '=' from what shows that it is no padding |
| SafeBase64.SomeCutSplits | include/simdutf/base64_implementation.h:72-76 | some capacity makes the cut split it iff the first multiple of four behind the '=' does |
| BufferedCalls.CallIs | include/simdutf/base64_implementation.h:58-161 | a call has one error code; one byte string if it decodes, read-on text included; and one position and 3*floor(room/3) bytes if it runs out of room |
| BufferedCalls.FullCall | src/implementation.cpp:1830-1834 | a call that runs out of room has consumed whole groups and stopped just behind the last of them |
| BufferedCalls.LastBehind | src/implementation.cpp:1817-1847 | behind a full buffer the call that will meet the end of the text starts at the same place with the same room |
| BufferedCalls.RunVerdict | src/implementation.cpp:1817-1853 | where garbage is not skipped, the calls together report the verdict of one pass, or a remainder iff the cut of the call that meets the end of the text splits a '='; for every text, capacity and buffer |
| BufferedCalls.RunAgreesWithCall | src/implementation.cpp:1817-1853 | so they report the error of a single call iff both cuts split a '=' or neither does |
| BufferedCalls.SkipAgrees | include/simdutf/base64_implementation.h:120-126 | a call that skips a '=' has the error and bytes of one pass iff what it reads behind it is accepted and shorter than two symbols |
| BufferedCalls.RunIsOnePass | src/implementation.cpp:1817-1853 | where garbage is skipped, the calls together have the error and bytes of one pass iff the call that meets the end does not skip a '=' with something to decode behind it |
| BufferedCalls.RunFromLast | src/implementation.cpp:1817-1853 | the run is the groups of the full buffers followed by the run from the call that meets the end of the text |
| BufferedCalls.RunAgreesInGarbage | src/implementation.cpp:1817-1853 | and the error and bytes of a single call iff neither reads on, or both do and no later call does |
| AtomicBase64.RegularBehind | src/implementation.cpp:1817-1853 | the rest of a text passes that test iff the text does |
| AtomicBase64.AfterFullBuffer | src/implementation.cpp:1820-1847 | a temporary buffer that ran full adds whole groups and loses or repeats no symbol |
| AtomicBase64.LastBuffer | src/implementation.cpp:1820-1853 | the last call settles error, bytes and position of the whole input, also where it misreads a '=' |
| AtomicBase64.NextCall | src/implementation.cpp:1817-1847 | each turn of the loop moves one call from the run still to come to what is done |
| AtomicBase64.AtomicToBinarySafe | src/implementation.cpp:1798-1864 | terminates for every input, padded or not, alphabet, mode, capacity and buffer of at least three bytes; its error is that of the run of calls, and if it decodes so are its bytes and the number of symbols in front of its position; unless symbols follow a skipped '=', error, bytes and position are those of one pass over the whole input, the position just behind the last consumed symbol when input is left, but for the remainder reported iff the last cut splits a '=' |
| AtomicBase64.TextReturned | src/implementation.cpp:1798-1864 | for every buffer the text of an encoding, with any white space, gives the data back if there is room for it and the mode decodes its last bytes; if not, strict mode reports a remainder and the others leave them out |
| AtomicBase64.DecodeText | src/implementation.cpp:1798-1864 | this is what a call writes |
| AtomicBase64.OneCallReturns | src/implementation.cpp:1798-1864 | any result of one call on the whole input, its position moved like the driver's, is what the driver returns with a buffer as large as the output |
| AtomicBase64.BuffersAgree | src/implementation.cpp:1798-1864 | for two buffers of any size the errors are equal iff the last cut splits a '=' for both or neither, and then so are the bytes, but for those in front of an error; the position is always the same, but for white space at the end |
| AtomicBase64.RegularNeverSplits | src/implementation.cpp:1798-1864 | for every text that passes the test no cut ever does, for every capacity and buffer |
| AtomicBase64.PadInsideIsSplit | include/simdutf/base64_implementation.h:72-113 | a text with a '=' inside whose error depends on the capacity |
| AtomicBase64.ThreePadsAreSplit | include/simdutf/base64_implementation.h:72-113 | another one, in which only white space and '=' follow |
| AtomicBase64.MisreadsPadding | src/implementation.cpp:1798-1864 | on the first of them the driver reports a remainder where one call reports the invalid character |
| AtomicBase64.MisreadsLater | src/implementation.cpp:1798-1864 | on another text it does, although no capacity makes a single call report anything but the invalid character |
| AtomicBase64.ReadsBehindPadding | include/simdutf/implementation.h:4119-4121 | where garbage is skipped, the driver may decode bytes behind the '=' at which the text is documented to end, and one call none |
| AtomicBase64.TwoPadsFirst | include/simdutf/base64_implementation.h:120-126 | a call that skips a '=' with symbols behind it and still agrees with one pass |
| AtomicBase64.InvalidPosition | src/implementation.cpp:1854-1861 | for a rejected character the returned position is its own iff no character to be ignored stands directly before it |
| AtomicBase64.StepsOverSpace | src/implementation.cpp:1854-1861 | for a space and a bad character it is that of the space |
| AtomicBase64.AtomicBinaryToBase64 | src/implementation.cpp:2541-2561 | encoding in blocks of a multiple of three bytes is one-shot encoding, padded at the end only; each character is the one of the alphabet asked for at the value the bits of the input spell, or '=' behind them; nothing is written behind the text |
| AtomicBase64.EncodeThenDecode | src/implementation.cpp:1798-2561 | what is encoded in any alphabet and blocks is decoded to the input, for every buffer, reading that includes the alphabet and mode that decodes the last bytes |
| Fastbase64Files.InputFile.LoadChunk | tools/fastbase64.cpp:264-291 | the buffer is filled behind what was carried over, and only the end of the file makes it short |
| Fastbase64Decode.Compact | tools/fastbase64.cpp:386-399 | compaction in place keeps exactly the alphabet characters |
| Fastbase64Decode.BadPosition | tools/fastbase64.cpp:337-410 | a bad character in the buffer lies in the file at pos plus its index, also after carry-over and compaction |
| Fastbase64Decode.AfterWrite | tools/fastbase64.cpp:400-409 | what is carried over after whole groups were written loses and repeats no symbol, for any legal count |
| Fastbase64Decode.AfterCompact | tools/fastbase64.cpp:386-399 | neither does compaction |
| Fastbase64Decode.CarryOver | tools/fastbase64.cpp:386-409 | after a decoding call the buffer shrinks; it holds what was not consumed, or, if nothing was, the symbols alone; what was decoded is written and the position advanced |
| Fastbase64Decode.DecodeTo | tools/fastbase64.cpp:323-412 | terminates; without '=' the verdict is that of loose decoding of the whole file, with the exact file offset of the first bad character, and the bytes are the same, for every legal count and every chunk size of at least four; a file that one call accepts is decoded as by that call, padded or not, if no chunk loses its padding |
| Fastbase64Carry.IsAhead | tools/fastbase64.cpp:337-410 | invariant for files that one call accepts: what the next call sees ends as the file does, or is a beginning of it |
| Fastbase64Carry.NextCall | tools/fastbase64.cpp:364-385 | so the call succeeds, and takes all symbols if their padding completes them, and whole groups otherwise |
| Fastbase64Carry.FollowsBehind | tools/fastbase64.cpp:400-409 | carrying the unconsumed rest over keeps the invariant |
| Fastbase64Carry.FollowsCompacted | tools/fastbase64.cpp:386-399 | compaction keeps it too if more than three of the characters read last are not white space, or at most one '=' is in the padding |
| Fastbase64Carry.LastCall | tools/fastbase64.cpp:341-363 | the loose call on the rest accepts it and completes the decoding of the file |
| Fastbase64Carry.PaddingIsLost | tools/fastbase64.cpp:386-399 | a file that one call accepts and the tool rejects: two symbols, one '=' and white space fill a chunk, compaction drops the '=', and the other '=' is then invalid |
| Fastbase64Carry.JoinedTextsAreRead | tools/fastbase64.cpp:337-410 | files that one call rejects and the tool decodes: a padded text that fills a chunk with another text behind it |
| Fastbase64RoundTrip.FileIsText | tools/fastbase64.cpp:293-321 | whatever the wrap width, the file written is the padded text of the data but for white space, of which no two characters are adjacent |
| Fastbase64RoundTrip.FileIsReadable | tools/fastbase64.cpp:323-412 | one call accepts such a file, and chunks of ten characters or more lose none of its padding |
| Fastbase64RoundTrip.EncodeThenDecode | tools/fastbase64.cpp:323-463 | decoding what was encoded gives the input back, less what the carry of the encoder lost, for every wrap width and all chunk sizes |
| Fastbase64Encode.LinesAreFull | tools/fastbase64.cpp:293-321 | every line of a wrapped text but the last has the wrap width, and the lines join to the text |
| Fastbase64Encode.WrapPiece | tools/fastbase64.cpp:293-321 | a piece that fits the current line extends the wrapped text, with a line break iff the line is full |
| Fastbase64Encode.Encoder.WriteWithWrapping | tools/fastbase64.cpp:293-321 | the file holds the wrapped form of all the text written so far, however it was cut into calls |
| Fastbase64Encode.Encoder.EncodePart | tools/fastbase64.cpp:450-457 | encoding a part behind whole groups extends the encoding of the file |
| Fastbase64Encode.Encoder.EncodeChunk | tools/fastbase64.cpp:446-460 | a full chunk less its remainder modulo three is written, and the remainder carried over |
| Fastbase64Encode.Encoder.EncodeTo | tools/fastbase64.cpp:414-463 | the file holds the wrapped encoding of the input and one newline, less exactly the carry if the input ends with a full chunk |
| Fastbase64Encode.LostBytes | tools/fastbase64.cpp:414-463 | with the tool's chunk size nothing is ever lost; with four or five bytes a chunk something is |
| Unicode.Utf8Layout | include/simdutf/scalar/utf16_to_utf8/utf16_to_utf8.h:93-200 | a character announces its length, continues with marked bytes and can be read back |
| Unicode.WellFormedConcat | include/simdutf/scalar/utf16_to_utf8/utf16_to_utf8.h:93-200 | whole characters convert independently of what follows |
| Unicode.FittingFits | src/implementation.cpp:1962-2016 | the fitting prefix is well-formed, fits, and its conversion is a prefix of the whole one |
| Unicode.FittingIsLongest | src/implementation.cpp:1962-2016 | no longer run of whole characters fits |
| Unicode.DecodeOfEncode | include/simdutf/scalar/utf8_to_utf32/utf8_to_utf32.h:11-114 | the checks of the scalar converters accept the UTF-8 form of all scalar values and read them back |
| Unicode.EncodeOfDecode | include/simdutf/scalar/utf8_to_utf32/utf8_to_utf32.h:11-114 | they accept nothing else |
| Unicode.BoundarySplits | tools/sutf.cpp:491-504 | a text cut at a character boundary is the text of the characters on both sides |
| Unicode.BoundaryIsLargest | benchmarks/stream.cpp:52-82 | no character boundary lies between it and the cut |
| SafeConversions.ConvertWithErrors | include/simdutf/scalar/utf16_to_utf8/utf16_to_utf8.h:93-203 | stops at the first broken or non-fitting character, with what precedes it converted, for every input and capacity |
| SafeConversions.ConvertUtf16ToUtf8 | src/implementation.cpp:1989-1994 | the unchecked kernel, concretely: converts well-formed chunks, returns 0 for others |
| SafeConversions.CutBetweenCharacters | src/implementation.cpp:1974-1984 | a chunk that splits no pair is whole, or holds the first broken character |
| SafeConversions.BrokenChunk | src/implementation.cpp:1974-1994 | a chunk found to be ill-formed justifies the result 0: at least three bytes are left at its first broken character |
| SafeConversions.BreakEndsChunk | src/implementation.cpp:1974-1994 | if just three bytes are left, the chunk that breaks ends with the broken unit, behind 16 units of three bytes |
| SafeConversions.FirstChunk | src/implementation.cpp:1974-1984 | if just three bytes are left and all units in front of the broken one take three bytes, a chunk breaks iff the first one ends with the broken unit |
| SafeConversions.LastPart | src/implementation.cpp:2001-2016 | the scalar routine on the rest settles the result of the whole |
| SafeConversions.ConvertUtf16ToUtf8Safe | src/implementation.cpp:1962-2016 | terminates with exactly the longest whole-character prefix that fits for well-formed input, and with the exact result, 0 or what fits, for ill-formed input; never writes past the capacity |
| SafeConversions.ConvertSafe | include/simdutf/scalar/latin1_to_utf8/latin1_to_utf8.h:70-116 | the Latin-1 routine with its 16-byte steps writes the longest fitting prefix |
| SafeConversions.ConvertLatin1ToUtf8Safe | src/implementation.cpp:2567-2591 | chunked Latin-1 conversion writes exactly the longest fitting prefix of the one-shot conversion |
| Sutf.LastLeadingByte | tools/sutf.cpp:491-504 | in valid UTF-8 the cut found is the start of the character that holds the last byte |
| Sutf.CommandLine.LoadChunk | tools/sutf.cpp:448-489 | buffer and unread bytes together are conserved, and the buffer is full iff files remain |
| Sutf.CommandLine.NextFile | tools/sutf.cpp:477-486 | going on to the next file loses no byte |
| Sutf.CutBuffer | tools/sutf.cpp:126-143 | what is converted are whole characters, and the leftover with the unread bytes are all the others |
| Sutf.CommandLine.ConvertBuffer | tools/sutf.cpp:363-376 | one turn: the output grows by the conversion of the characters taken, at most four bytes are left over |
| Sutf.CommandLine.Run | tools/sutf.cpp:361-377 | for every list of files whose concatenation is valid UTF-8 the output is the conversion of the concatenation |
| Sutf.EmitAt | tools/sutf.cpp:126-143 | each character contributes its own conversion to the output, at its place |
| Sutf.FourBytesAreNotEnough | tools/sutf.h:15-15 | a buffer of four bytes that starts at a character is held back whole iff the character takes four bytes |
| Sutf.CommandLine.StallWithFourBytes | tools/sutf.cpp:361-377 | then a turn of the loop leaves buffer, files, position and output as they were |
| Sutf.CommandLine.RunWithFourBytes | tools/sutf.cpp:361-377 | a run on a file of one such character gets there: after any number of turns the file is open and nothing is written |
| Utf16Validation.FindErrorInWords | scripts/sse_validate_utf16le_proof.py:37-58 | finds no error iff all surrogates are paired but for a lead at the end; otherwise names the first violation |
| Utf16Validation.MaskBit | scripts/sse_validate_utf16le_proof.py:72-81 | a bit of the mask is set iff its word is no surrogate or half of a pair inside the block |
| Utf16Validation.AllOnes | scripts/sse_validate_utf16le_proof.py:99-109 | the mask is all ones iff the block consists of whole characters, for every width |
| Utf16Validation.AllButLast | scripts/sse_validate_utf16le_proof.py:111-121 | only the last bit is missing iff whole characters are followed by a surrogate that completes no pair |
| Utf16Validation.ProofOfScript | scripts/sse_validate_utf16le_proof.py:99-121 | the two claims the script enumerates for eight words, for any number of words |
| Utf16Validation.CompleteIsWellFormed | src/generic/validate_utf16.h:49-123 | pairing position by position is well-formedness character by character |
| Utf16Validation.BlockOfWellFormed | src/generic/validate_utf16.h:87-121 | a block cut out of well-formed text always shows one of the two masks |
| Utf16Validation.BrokenBlock | src/generic/validate_utf16.h:87-121 | any other mask means a broken character inside the block |
| Utf16Validation.ValidateBlocks | src/generic/validate_utf16.h:49-123 | everything in front of the returned position is whole characters; a rejection means the first error lies in the block there |
| Utf16Validation.ValidateScalar | include/simdutf/scalar/utf16.h:49-76 | returns the position of the first unpaired surrogate |
| Utf16Validation.Validate | src/westmere/implementation.cpp:343-362 | blocks and scalar rest together accept exactly the well-formed texts, for every block width of at least two |
| Utf16Validation.ValidateWithErrors | src/westmere/implementation.cpp:387-399 | returns the exact position of the first unpaired surrogate |
| SurrogateShuffle.FailsExactlyOnOddRuns | scripts/sse_convert_utf16_to_utf8.py:204-236 | reading characters fails iff a maximal run of set bits that ends before the last position has odd length |
| SurrogateShuffle.CharactersCoverTheMask | scripts/sse_convert_utf16_to_utf8.py:198-240 | the characters cover every word once, in order, but for a dangling last surrogate; a word is alone iff its bit is clear |
| SurrogateShuffle.LaneAt | scripts/sse_convert_utf16_to_utf8.py:214-234 | each character has its own four-byte lane, in order |
| SurrogateShuffle.ShuffleMask | scripts/sse_convert_utf16_to_utf8.py:200-246 | fails exactly then; otherwise gives one lane per complete character, padding up to the full width, and their number |
| SurrogateShuffle.BlockOfText | scripts/sse_convert_utf16_to_utf8.py:181-197 | a block that starts well-formed text never fails, and its characters are those of the text |
| SurrogateShuffle.ExpandedLane | scripts/sse_convert_utf16_to_utf8.py:164-178 | the byte shuffle puts a lone word zero-extended or both words of a pair into the lane of their character, and clears the others |
| WellFormedUtf16.SurrogateTests | benchmarks/benchmark_to_well_formed_utf16.cpp:99-106 | the masked comparisons recognise leading and trailing surrogates |
| WellFormedUtf16.WellFormedIsPaired | benchmarks/benchmark_to_well_formed_utf16.cpp:101-134 | a text is well-formed iff none of its surrogates is unpaired |
| WellFormedUtf16.RepairedIsWellFormed | benchmarks/benchmark_to_well_formed_utf16.cpp:101-134 | replacing the unpaired surrogates always gives well-formed text |
| WellFormedUtf16.RepairedIsIdentity | benchmarks/benchmark_to_well_formed_utf16.cpp:101-134 | exactly ill-formed texts are changed, and repairing twice is repairing once |
| WellFormedUtf16.RepairIsMinimal | benchmarks/benchmark_to_well_formed_utf16.cpp:101-134 | no choice of fewer replacements gives well-formed text |
| WellFormedUtf16.ReplaceUnpairedSurrogates | benchmarks/benchmark_to_well_formed_utf16.cpp:101-134 | replaces exactly the unpaired surrogates by U+FFFD, in place or out of place |
| WellFormedUtf16.ToWellFormedUtf16 | include/simdutf/scalar/utf16.h:188-214 | the library's scalar routine, which goes back to fix a lead, gives the same text, with U+FFFD for each unpaired surrogate |
| StreamTrim.TrimIsBoundary | benchmarks/stream.cpp:52-82 | for valid UTF-8 the trimmed length is the largest character boundary not above the cut |
| StreamTrim.TrimmedCutDecodes | benchmarks/stream.cpp:52-82 | both sides of a trimmed cut decode, and together to the whole |
| StreamTrim.AnyCutsDecode | benchmarks/stream.cpp:52-82 | so do all the pieces, for any sequence of cuts |
| StreamTrim.TrimUtf16 | benchmarks/stream.cpp:84-92 | both sides of a trimmed cut of well-formed UTF-16 are well-formed, and a unit is dropped iff the cut splits a pair |
| FeatureConditions.LexText | singleheader/amalgamate.py:497-497 | the text of a condition splits into its words and operators |
| FeatureConditions.ParseCondition | singleheader/amalgamate.py:496-532 | the loop computes the run of the explicit stack, with each of its errors |
| FeatureConditions.NamesAreKnown | singleheader/amalgamate.py:452-457 | a condition that is accepted has known names only, and a name that is refused is unknown |
| FeatureConditions.UnknownIsReported | singleheader/amalgamate.py:452-457 | an unknown operand behind any condition that is understood is reported by name |
| FeatureConditions.OperatorIsMissing | singleheader/amalgamate.py:518-524 | two operands without an operator between them are refused |
| FeatureConditions.Rebuilds | singleheader/amalgamate.py:496-532 | from any stack the parser rebuilds the expression of a condition and leaves the stack alone |
| FeatureConditions.GroupNeedsOperator | singleheader/amalgamate.py:506-517 | a parenthesis is understood iff an operator is on top of the stack |
| FeatureConditions.PrintThenParse | singleheader/amalgamate.py:452-532 | every expression printed with parentheses around compound right operands only is read back exactly |
| FeatureConditions.StrIsReadBack | singleheader/amalgamate.py:462-532 | what __str__ prints is read back if it is a single name and refused otherwise |
| FeatureConditions.EvaluateIsLeftToRight | singleheader/amalgamate.py:459-490 | evaluation of the parsed condition is its left-to-right meaning for every set of features |
| FeatureConditions.LeftToRightImpliesC | singleheader/amalgamate.py:471-490 | a condition the script takes for true is true for the preprocessor too, and without mixed operators they agree |
| FeatureConditions.AgreesWithCExactlyUnmixed | singleheader/amalgamate.py:496-532 | if each feature occurs once, they agree for all sets of features iff no && follows an \|\| at the same level |

## Left out

- NodeBase64.Base64Encode: the 32-bit unsigned loop counters are unbounded here, and in normal mode the returned length counts '=' characters that this copy of the encoder does not write, so the round trip is about the letters written.
- NodeBase64.EncodedSizeOf: the source computes the URL size with a double and std::ceil, which is exact only below 2^53; here it is an integer division.
- OpenSslDecoder.DecodeChunks: texts with '=' or '-' depend on the cut, as the source's own comments say; for those only single updates and one-shot decoding are modelled.
- SimdutfBase64.ToBinaryDetails: 16-bit input units.
- BlockBase64.CompressDecode: the operations on a block of 64 characters are their results, not instructions, and the output is the bytes counted, so nothing is said about what a block operation stores behind them.
- ScalarBase64.TailDecode: the four-at-a-time reading of garbage that one compiler enables.
- SafeBase64.ToBinarySafe: base64_length_from_binary is needed for multiples of three only, and taken as four symbols for three bytes.
- AtomicBase64.AtomicToBinarySafe: the relaxed atomic copies are plain copies, so nothing is said about memory ordering.
- Fastbase64Decode.DecodeTo: nothing is said about padded files that one call rejects, nor about those it accepts if the padding is two '=' and some stretch of two characters less than a chunk holds at most three that are not white space: where the chunks begin then depends on how much white space the library counts, and only one family is shown to fail. Read and write errors of the file system are not modelled.
- Fastbase64RoundTrip.EncodeThenDecode: decoding chunks of fewer than ten characters; the tool's have 65536.
- Fastbase64Encode.Encoder.EncodeTo: read and write errors are not modelled.
- Sutf.CommandLine.Run: files that cannot be opened, inputs that are not valid UTF-8 (where the tool drops the next file), the byte-swapping and UTF-16 sources, and the size of the output buffer.
- FeatureConditions.PrintThenParse: feature names are words without blanks, parentheses, & and |, as the known features are.
- SIMD kernels other than the compactor and the block validator: they enter by their contracts or as scalar code.
- The literal tables (NEON compaction, base64 values and words, the OpenSSL tables): each is modelled by the rule its comment states.
- The 32-lane byte order of the generated mask index in the surrogate table, and its last column.
- Dispatch, C wrappers, argument parsing, help text, benchmarks' timing code, fuzz harnesses and release scripts: no property beyond forwarding.
- Integer overflow of sizes: lengths are unbounded.
