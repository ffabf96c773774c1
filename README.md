# A verified model of small C snippets

This project models the verifiable core of a collection of small,
independent programs in Dafny. Most are C programs, with one C++ file and
one Python script. Each program becomes one Dafny module, named after its
file:

- encoders and decoders: octal bytes, hex to binary and back, `itoan`, `utob`, and the decimal writers of a toy `snprintf`;
- bit manipulation: byte bit reversal, 32- and 64-bit byte swaps with `htonll`/`ntohll`, single bits of a 64-bit union, the CGA RGBI palette, and the IEEE 754 binary32 field classifier;
- overflow-checked arithmetic: factorial tables and loops, the split-halves safe multiply, `n_choose_k`;
- combinatorial enumeration: four permutation generators and the k-combination successor;
- the Sieve of Eratosthenes over a bit array;
- the 32-bit string hashes kr1, kr2, djb2, djb2xor, sdbm and leveldb, with the modulo bucket;
- small containers and buffers: z-string, `str_list`, `sbuf`, `add_val`, a kernel module's byte buffer, the linked-list splice of a sleep sort, and a map from user name to user list;
- string helpers: a CSV field lexer, CR/LF chomping, line reversal;
- the task-status reduction of a small multiprocessing script.

The modules follow the code's own form:

- A function that loops or writes through pointers is a Dafny `method` over arrays or objects.
- Each such method is proved against a specification function.
- Pure expressions are functions.
- The properties the code and its self-tests rely on are lemmas: round trips, involutions, agreement between variants, enumeration counts, and "nothing else changes".

Some values come from outside the program and are given as parameters:

- random draws (`rand()`, `random.randint`);
- allocation results (`malloc`, `calloc`, `strdup`, `kmalloc`);
- whether a user copy succeeds;
- the widths of `size_t` and `unsigned long`.

C's fixed-width arithmetic is written out as wrap-around modulo 2^N, or as bit-vectors where the code works on bit patterns, wherever the result can exceed the width for lengths and values the program handles. The size computations named under "## Left out" are exact instead.

## Model

| member | source | states |
|---|---|---|
| OctalBytes.EncodeSizeNeeded | c/octal-bytes.c:63-69 | the room octal_encode needs is ceil(8n/3) digits plus one for the NUL, so never 0 |
| OctalBytes.DecodeSizeNeeded | c/octal-bytes.c:73-80 | floor(3n/8) bytes, one more only when rounding up is asked and 3n is not a multiple of 8 |
| OctalBytes.FirstNonOctal | c/octal-bytes.c:127-138 | the index found is at most the length, every char before it is in '0'..'7' and the char at it (if any) is not |
| OctalBytes.FindFirstNonOctal | c/octal-bytes.c:127-138 | the scanning loop returns the first non-octal index, or the length when every char is octal |
| OctalBytes.FirstNonOctalUnique | c/octal-bytes.c:127-138 | any index with only octal chars before it and a non-octal char (or the end) at it is the one octal_find_first_nonoctal returns |
| OctalBytes.GroupDigit | c/octal-bytes.c:114-118 | each digit taken from a 24-bit group is 0..7 |
| OctalBytes.EncodeGroup | c/octal-bytes.c:100-121 | one outer pass writes 8, 6 or 3 octal digits for a group of 3, 2 or 1 bytes |
| OctalBytes.Encoded | c/octal-bytes.c:100-123 | the encoder's text is made only of '0'..'7' |
| OctalBytes.SizeNeededByGroups | c/octal-bytes.c:63-69 | for 3q+r bytes the digits needed are 8q plus 8, 6 or 3 for the short group: the loop's jmax agrees with the room check |
| OctalBytes.EncodedGroupsLength | c/octal-bytes.c:100-121 | after g passes the encoder has written 8g digits while groups are full, and never more than needed-1 |
| OctalBytes.EncodedGroupsPrefix | c/octal-bytes.c:100-121 | later passes only append: the digits of g passes are a prefix of those of h >= g passes |
| OctalBytes.GroupsWithinEncoded | c/octal-bytes.c:100-121 | no pass writes beyond the final text, and once 3g covers the input the passes have written all of it |
| OctalBytes.EncodedLength | c/octal-bytes.c:100-123 | the encoder writes exactly needed-1 digits, so the NUL lands at octal[needed-1] |
| OctalBytes.PackGroup | c/octal-bytes.c:101-111 | the first inner loop packs up to three bytes, zero-padded, into b24 and counts the bytes that exist |
| OctalBytes.WriteGroupDigits | c/octal-bytes.c:113-120 | the second inner loop appends the first jmax digits of b24 at *written and touches nothing after them |
| OctalBytes.EncodeOneGroup | c/octal-bytes.c:100-121 | one outer pass extends the written prefix from the digits of g groups to those of g+1 groups |
| OctalBytes.EncodeAllGroups | c/octal-bytes.c:100-121 | the outer loop leaves exactly the encoded text at octal[0..written) and the rest of the buffer untouched |
| OctalBytes.Encode | c/octal-bytes.c:82-125 | fails iff octal_size < needed, leaving *written = 0 and octal[0] = NUL; otherwise writes needed-1 octal digits then NUL |
| OctalBytes.DigitValue | c/octal-bytes.c:172 | oc - '0' of an octal char is 0..7 |
| OctalBytes.DecodeGroup | c/octal-bytes.c:161-185 | one outer pass yields 3, 2 or 1 bytes only for exactly 8, 6 or 3 digits, and none for any other count |
| OctalBytes.DecodedGroupsPrefix | c/octal-bytes.c:161-185 | later passes only append bytes: the output of g passes is a prefix of that of h >= g passes |
| OctalBytes.GroupsWithinDecoded | c/octal-bytes.c:161-185 | no pass writes beyond the final output, and once 8g covers the digits the output is complete |
| OctalBytes.DecodeSizeByGroups | c/octal-bytes.c:73-80 | for 8q+r digits the room check asks for 3q + 3r/8 bytes, never less than the short group yields |
| OctalBytes.DecodedGroupsLength | c/octal-bytes.c:150-185 | full groups give three bytes each, and the decoder never writes more than octal_decode_size_needed_for_bytes(n, 0) |
| OctalBytes.DecodeSizeMonotone | c/octal-bytes.c:150-158 | trimming the input never makes the room check stricter |
| OctalBytes.DecodedBeforeCut | c/octal-bytes.c:167-170 | cutting octal_len below a group boundary does not change what the earlier groups decode to |
| OctalBytes.PartialGroupDropped | c/octal-bytes.c:179 | a trailing group of 1, 2, 4, 5 or 7 digits adds no byte |
| OctalBytes.ShortGroupYield | c/octal-bytes.c:179-184 | a trailing group of 3 or 6 digits appends 1 or 2 bytes after those of the full groups |
| OctalBytes.UnpackGroup | c/octal-bytes.c:162-177 | the first inner loop packs up to eight digits, zero-padded, counts those read, and cuts octal_len at the first non-octal char |
| OctalBytes.WriteGroupBytes | c/octal-bytes.c:179-184 | the second inner loop appends the top jmax bytes of b3 and touches nothing after them |
| OctalBytes.DecodeOneGroup | c/octal-bytes.c:161-185 | one outer pass extends the output from the bytes of g groups to those of g+1 groups of the octal prefix |
| OctalBytes.DecodeAllGroups | c/octal-bytes.c:161-185 | the outer loop writes exactly the decoding of the octal prefix and leaves the rest of the buffer untouched |
| OctalBytes.Decode | c/octal-bytes.c:140-187 | returns NULL iff bytes_size is too small even for the input trimmed at its first non-octal char; otherwise writes the decoding of that prefix |
| OctalRoundTrip.PackedBytes | c/octal-bytes.c:101-111 | the three bytes packed into b24 come back out at the decoder's shifts 16, 8 and 0 |
| OctalRoundTrip.RepackBits | c/octal-bytes.c:114-118 | re-shifting all 8 digits of a group gives the 24 bits back; 6 or 3 digits keep the top 18 or 9 bits |
| OctalRoundTrip.DigitValueOfChar | c/octal-bytes.c:172 | oc - '0' undoes '0' + oj for every digit 0..7 |
| OctalRoundTrip.EncodedGroupAt | c/octal-bytes.c:100-121 | the digits pass g writes sit at offset 8g of the final text, and a short group ends it |
| OctalRoundTrip.PackEncodedDigits | c/octal-bytes.c:164-177 | the decoder's b3 for an encoded group is the group's bits with the missing digits read as 0 |
| OctalRoundTrip.GroupBitsRoundTrip | c/octal-bytes.c:100-185 | a group of 3, 2 or 1 bytes, encoded to 8, 6 or 3 digits and read back, yields the same bytes |
| OctalRoundTrip.FullGroupAt | c/octal-bytes.c:100-185 | a full 3-byte group survives the trip through 8 digits |
| OctalRoundTrip.TwoByteGroupAt | c/octal-bytes.c:100-185 | a trailing 2-byte group survives the trip through 6 digits |
| OctalRoundTrip.OneByteGroupAt | c/octal-bytes.c:100-185 | a trailing 1-byte group survives the trip through 3 digits |
| OctalRoundTrip.EncodedGroupDigits | c/octal-bytes.c:113-120 | the encoded text holds, at 8g, the jmax digits of group g's b24, most significant first |
| OctalRoundTrip.DecodeGroupOfDigits | c/octal-bytes.c:161-185 | a group spelling the top digits of v decodes to v's bits repacked |
| OctalRoundTrip.EncodedGroupDecodes | c/octal-bytes.c:100-185 | decoding group g of the encoded text repacks the bits of group g of the bytes |
| OctalRoundTrip.GroupRoundTrip | c/octal-bytes.c:100-185 | decoding group g of the encoded text gives back bytes 3g..3g+2 |
| OctalRoundTrip.DecodedGroupsMatch | c/octal-bytes.c:161-185 | when each of the first g groups decodes to its three bytes, the output so far is the first 3g bytes |
| OctalRoundTrip.RoundTrip | c/octal-bytes.c:82-187 | octal_decode undoes octal_encode for every byte sequence |
| OctalRoundTrip.EncodedDecodeRoom | c/octal-bytes.c:63-80 | the room the decoder asks for the encoded text is exactly the original length, so no rounding up is needed |
| OctalRoundTrip.TerminatorStopsDecoding | c/octal-bytes.c:167-170 | the NUL written after the digits is the first non-octal char, so decoding octal_size chars reads just the digits |
| OctalRoundTrip.DemoRoundTrip | c/octal-bytes.c:207-249 | demo_round_trip reports 0 differences iff both buffers are large enough (or the input is empty), and then out holds the input |
| OctalRoundTrip.RoundTripStringAsWritten | c/octal-bytes.c:305-325 | with the uint8_t out_size as written, the round trip of a string succeeds iff it is shorter than 255 bytes |
| OctalRoundTrip.RoundTripString | c/octal-bytes.c:305-331 | with out_size as a size_t, round_trip_string reports no difference for every string, so main exits with success |
| OctalRoundTrip.LoopDemo | c/octal-bytes.c:251-272 | every loop_demo pass round-trips without a difference |
| RevU8.ReversalUnique | c/rev_u8.c:14-27 | a byte has exactly one bit reversal, so any two variants that reverse bits agree |
| RevU8.ReversalSymmetric | c/rev_u8.c:14-27 | if r reverses b then b reverses r |
| RevU8.ReverseTwiceIsIdentity | c/rev_u8.c:293-329 | reversing twice, by any two reversing variants, gives the byte back, as check_exhaustive's round trips expect |
| RevU8.RevLoop | c/rev_u8.c:15-27 | rev_u8_loop sets bit 7-i of the result exactly when bit i of b is set, and equals rev_u8_ugly |
| RevU8.RevUgly | c/rev_u8.c:30-42 | rev_u8_ugly reverses the bit order |
| RevU8.Rev8ShiftsMaskFirst | c/rev_u8.c:73-82 | the default spelling of rev_u8_8shifts (mask, then shift) reverses the bit order |
| RevU8.Rev8ShiftsShiftFirst | c/rev_u8.c:64-72 | the REV_U8_SHIFT_FIRST spelling (shift, then mask) reverses the bit order |
| RevU8.Rev3Swaps | c/rev_u8.c:86-116 | rev_u8_3swaps is a nibble swap, then a pair swap (0xCC/0x33), then a bit swap (0xAA/0x55), and the result reverses the bit order |
| RevU8.SwapStepsAreInvolutions | c/rev_u8.c:95-113 | each of the three swap steps undoes itself |
| RevU8.SwapNibbles | c/rev_u8.c:95 | the first step of rev_u8_3swaps; no contract of its own: SwapNibblesBits states what it moves |
| RevU8.SwapNibblesBits | c/rev_u8.c:95 | the nibble swap puts bit (i + 4) % 8 of b at bit i, for every i below 8 |
| RevU8.SwapPairs | c/rev_u8.c:102 | the second step of rev_u8_3swaps; no contract of its own: SwapPairsBits states what it moves |
| RevU8.SwapPairsBits | c/rev_u8.c:102 | the pair swap with masks 0xCC and 0x33 exchanges bits i and i + 2 within each nibble |
| RevU8.SwapAdjacentBits | c/rev_u8.c:109 | the last step of rev_u8_3swaps; no contract of its own: SwapAdjacentBitsBits states what it moves |
| RevU8.SwapAdjacentBitsBits | c/rev_u8.c:109 | the bit swap with masks 0xAA and 0x55 exchanges bits i and i + 1 within each pair |
| RevU8.RevTableLookup | c/rev_u8.c:118-158 | every entry of the 256-entry table is the bit reversal of its index |
| RevU8.VariantsAreInvolutions | c/rev_u8.c:293-329 | rev(rev(b)) == b for every variant and every byte |
| RevU8.VariantsAgree | c/rev_u8.c:293-337 | all the variants agree on every byte, and both REV_U8_SHIFT_FIRST spellings compute the same value |
| RevU8.KnownReversals | c/rev_u8.c:374-390 | 0x0F, 0x33 and 0x55 reverse to 0xF0, 0xCC and 0xAA |
| RevU8.Mismatch | c/rev_u8.c:276-289 | check_equals_u8 counts 0 exactly when the bytes are equal |
| RevU8.CheckKnownValues | c/rev_u8.c:374-390 | the fixed-value checks of main_loop report no failure |
| RevU8.CheckByte | c/rev_u8.c:296-335 | one pass of check_exhaustive over byte b adds no failure |
| RevU8.CheckExhaustive | c/rev_u8.c:293-337 | check_exhaustive returns 0 failures over all 256 bytes |
| RevU8.BitString | c/rev_u8.c:254-261 | byte_to_bitstr's text is 8 chars of '0'/'1', most significant bit first, then NUL at index 8 |
| RevU8.BitStringInjective | c/rev_u8.c:254-261 | distinct bytes print as distinct bit strings |
| RevU8.ByteToBitstr | c/rev_u8.c:254-261 | byte_to_bitstr fills buf[0..9) with that text and leaves the rest of the buffer alone |
| Cga.RgbiBitsToRgbi4 | c/cga.c:11-23 | packs I, R, G, B into bits 3, 2, 1, 0; the result is below 16 and each flag reads back from its bit |
| Cga.Intensity | c/cga.c:25-29 | cga_rgbi4_to_intensity is true exactly for the 4-bit values 8 .. 15, the ones with bit 3 set |
| Cga.Red | c/cga.c:31-35 | cga_rgbi4_to_red is true exactly when the 4-bit value mod 8 is at least 4, i.e. bit 2 is set |
| Cga.Green | c/cga.c:37-41 | cga_rgbi4_to_green is true exactly when the 4-bit value mod 4 is at least 2, i.e. bit 1 is set |
| Cga.Blue | c/cga.c:43-47 | cga_rgbi4_to_blue is true exactly for odd 4-bit values, i.e. bit 0 is set |
| Cga.Rgbi4RoundTrip | c/cga.c:148-164 | repacking the four bits the extractors read returns the original 4-bit value |
| Cga.IsRgbi4IffBelow16 | c/cga.c:25-47 | the extractors' assertion (0x0F & v) == v accepts exactly the values below 16 |
| Cga.ChannelLevel | c/cga.c:62-63 | a channel level is one byte: 0xFF/0x55 with intensity, 0xAA/0x00 without |
| Cga.PlainRgb24 | c/cga.c:53-68 | the colour fits in 24 bits and its red, green and blue bytes are the levels of the R, G and B bits under the intensity |
| Cga.Rgb24 | c/cga.c:53-75 | cga_rgbi4_to_rgb24 is below 2^24 and differs from the plain colour only by turning 0xAAAA00 into 0xAA5500 when asked |
| Cga.BrownOnlyReplacesDarkYellow | c/cga.c:49-75 | the brown flag changes the colour of value 6 alone, from 0xAAAA00 to 0xAA5500 |
| Cga.PaletteDistinct | c/cga.c:53-68 | the 16 values map to 16 distinct colours |
| Cga.Name24 | c/cga.c:100-142 | cga_name24 gives a non-empty name exactly for the 17 palette colours, "" for any other value |
| Cga.EveryOutputNamed | c/cga.c:100-142 | every colour cga_rgbi4_to_rgb24 returns, with or without brown, has a name |
| Itoan.AsUnsigned | c/itoan.c:58-63 | l = n on an unsigned int is the value below 2^32 congruent to n: n itself when n >= 0, 2^32 + n when negative |
| Itoan.DigitChar | c/itoan.c:74-79 | a digit value below 36 becomes '0'..'9' or 'A'..'Z' and reads back as the same value |
| Itoan.LittleEndianDigitsAreDigits | c/itoan.c:66-83 | every char the do-while loop emits is a digit below base |
| Itoan.LittleEndianRoundTrip | c/itoan.c:66-83 | the emitted little-endian digits read back, in base, as the unsigned value |
| Itoan.ReadReversed | c/itoan.c:99-104 | reading the reversed string most significant first gives the little-endian value |
| Itoan.DigitsReadBack | c/itoan.c:66-104 | the final digits, read back in base, equal the unsigned value of n |
| Itoan.NoLeadingZeros | c/itoan.c:66-104 | the result starts with '0' only for 0, which gives exactly "0" |
| Itoan.LittleEndianDigitAt | c/itoan.c:74-82 | digit k of the loop's output is (l / base^k) % base |
| Itoan.LittleEndianLength | c/itoan.c:67-83 | the loop stops after the first round whose quotient is 0, and not before |
| Itoan.BaseOneNonzeroNeverFits | c/itoan.c:66-83 | in base 1 a nonzero l never shrinks, so no buffer is long enough |
| Itoan.Strnlen | c/itoan.c:100 | strnlen stops at the first NUL or at the bound, whichever comes first |
| Itoan.EmittedDigits | c/itoan.c:66-83 | the first i chars written are the first i little-endian digits |
| Itoan.FirstZeroQuotient | c/itoan.c:67-83 | when the i-th quotient is the first 0 the loop has written exactly the whole digit string |
| Itoan.NoZeroQuotient | c/itoan.c:68-72 | if no quotient reaches 0 within maxlen rounds the digits do not fit |
| Itoan.EmitDigits | c/itoan.c:66-83 | the do-while loop either writes all digits, little-endian, or (when they need more than buflen-1 chars) sets buf[0] = NUL and reports failure |
| Itoan.Itoan | c/itoan.c:35-107 | NULL for a NULL buf, buflen 0, base 0 or base > 36; base 10 writes snprintf's "%d" (cut to buflen-1); other bases write the unsigned digits then NUL, or NULL with buf[0] = NUL when they do not fit |
| Itoan.DigitsInBase | c/itoan.c:58-106 | the non-decimal path writes the digits of l most significant first, NUL-terminated, iff they fit in buflen-1 chars |
| Itoan.SnprintfDecimal | c/itoan.c:53-56 | snprintf(buf, buflen, "%d", n) writes as much of n's decimal text as fits in buflen-1 chars, then NUL |
| Itoan.ReverseInPlace | c/itoan.c:99-104 | the swap loop reverses buf[0..len) in place and leaves the NUL and the rest alone |
| Decimal.Digits | c/itoan.c:54 | "%d" writes at least one digit |
| Decimal.DigitsRoundTrip | c/itoan.c:54 | the decimal digits of x are digit chars and read back as x |
| Decimal.NoLeadingZero | c/itoan.c:54 | the decimal text starts with '0' only for 0, which is "0" |
| Decimal.DigitsLength | c/itoan.c:54 | x has |Digits(x)| digits: 10^(len-1) <= x < 10^len |
| HexToBin.HexToNibble | c/hex-to-bin.c:34-47 | a char is a hex digit exactly when its nibble is below 16; every other char gives 255 |
| HexToBin.NibbleIgnoresCase | c/hex-to-bin.c:39-44 | 'a'..'f' and 'A'..'F' give the same nibble, 10..15 |
| HexToBin.HexCharsToByte | c/hex-to-bin.c:49-57 | two hex digits make the byte 16 * high + low |
| HexToBin.Step | c/hex-to-bin.c:90-113 | one input char writes at most one byte |
| HexToBin.ScanAppend | c/hex-to-bin.c:90-114 | scanning x + y is scanning x, then scanning y from the state x left, unless x already stopped |
| HexToBin.PairEmitsByte | c/hex-to-bin.c:105-113 | from an idle state two hex digits write exactly their byte and leave the scanner idle |
| HexToBin.SplitPairFails | c/hex-to-bin.c:91-99 | whitespace or '#' between the two digits of a pair stops the scan with status 1 |
| HexToBin.StrayCharFails | c/hex-to-bin.c:102-104 | outside a comment a char that is neither hex, whitespace nor '#' stops the scan |
| HexToBin.CommentIgnored | c/hex-to-bin.c:91-101 | a '#' comment up to the next newline or carriage return writes nothing and leaves the scanner idle |
| HexToBin.UnpairedDigitFails | c/hex-to-bin.c:115 | input ending after a lone hex digit returns 1 and writes nothing |
| HexToBin.HexToBinStream | c/hex-to-bin.c:82-116 | the read loop returns the status and writes the bytes of the scanner specification for the whole input |
| BinToHex.NibbleToHex | c/bin-to-hex.c:34-44 | a nibble below 16 becomes an upper-case hex digit that reads back as the same nibble; anything larger becomes '?' |
| BinToHex.ByteToHexChars | c/bin-to-hex.c:46-50 | the two chars are hex digits of the high nibble (b / 16) and the low nibble (b % 16) |
| BinToHex.HexCharsRoundTrip | c/bin-to-hex.c:46-50 | hex_chars_to_byte of the pair byte_to_hex_chars writes gives back the byte |
| BinToHex.FmtLastLine | c/bin-to-hex.c:60-75 | when the bytes end before the line fills, they are written space-separated and the final newline closes the line |
| BinToHex.FmtFullLine | c/bin-to-hex.c:60-72 | the byte that brings pos to 15 ends the line with a newline and the next line starts without a leading space |
| BinToHex.FmtShort | c/bin-to-hex.c:52-77 | fewer than 15 bytes make one line of space-separated hex pairs and a newline |
| BinToHex.FmtLong | c/bin-to-hex.c:52-77 | output is 15 hex pairs per line, each line ended by a newline, then the rest formatted the same way |
| BinToHex.WriteHexByte | c/bin-to-hex.c:61-71 | one loop round appends a space unless at line start, the hex pair, and a newline after the 15th pair, and advances pos modulo 15 |
| BinToHex.BinToHexStream | c/bin-to-hex.c:52-77 | bin_to_hex returns 0 and writes exactly the line-formatted hex of the whole input |
| HexRoundTrip.PieceScan | c/hex-to-bin.c:90-114 | the text one byte of bin-to-hex output takes reads back in hex-to-bin as that byte, leaving the scanner idle |
| HexRoundTrip.FmtScan | c/hex-to-bin.c:82-116 | hex-to-bin reading any tail of bin-to-hex output writes exactly the bytes it was made from |
| HexRoundTrip.RoundTrip | c/hex-to-bin.c:82-116 | hex-to-bin of bin-to-hex's output of any bytes returns 0 and the same bytes |
| HexRoundTrip.BinThenHex | c/bin-to-hex.c:52-77 | running bin_to_hex and then hex_to_bin on its output gives status 0 and the original bytes |
| ByteSwap64.Bswap32Bytes | c/byteswap64.c:41-43 | Bswap_32_constant moves byte 3 to byte 0, 2 to 1, 1 to 2 and 0 to 3 |
| ByteSwap64.Bswap32Constant | c/byteswap64.c:41-43 | the Bswap_32_constant macro; no contract of its own: Bswap32Bytes and Bswap32Involution state its byte moves and that it undoes itself |
| ByteSwap64.Bswap32Involution | c/byteswap64.c:41-43 | swapping the bytes of a 32-bit word twice gives it back |
| ByteSwap64.Bswap64Words | c/byteswap64.c:49-51 | the high word of Bswap_64_32x2 is the swapped low word of x and its low word the swapped high word |
| ByteSwap64.Bswap64Of32x2 | c/byteswap64.c:49-51 | the Bswap_64_32x2 macro built from two Bswap_32 calls; no contract of its own: Bswap64Words and Bswap64Reverses state its word and byte layout |
| ByteSwap64.Bswap64Reverses | c/byteswap64.c:49-51 | byte j of Bswap_64_32x2(x) is byte 7 - j of x, for every j |
| ByteSwap64.Bswap64 | c/byteswap64.c:53-55 | Bswap_64 reverses the order of the eight bytes |
| ByteSwap64.Recompose64 | c/byteswap64.c:49-51 | a 64-bit value is the OR of its eight bytes shifted into place |
| ByteSwap64.Bswap64Involution | c/byteswap64.c:49-55 | swapping the bytes of a 64-bit value twice gives it back |
| ByteSwap64.Bswap64ReversesBytes | c/byteswap64.c:49-55 | the little-endian byte list of Bswap_64(x) is that of x reversed |
| ByteSwap64.ByteSwapDemo | c/byteswap64.c:57-80 | 0x554E49584C4f5645 swapped is 0x45564f4c58494e55, so main returns 0 |
| NtoHll.HostTestIsFalse | c/ntohll.c:50-52 | Bswap_32_constant(1) is 0x01000000, never 1, so the test in htonll and ntohll always takes the swapping branch |
| NtoHll.Htonll | c/ntohll.c:71 | htonll without endian.h reverses the eight bytes |
| NtoHll.Ntohll | c/ntohll.c:72 | ntohll without endian.h reverses the eight bytes |
| NtoHll.NtohllHtonll | c/ntohll.c:71-72 | ntohll undoes htonll and htonll undoes ntohll |
| NtoHll.NtohllDemo | c/ntohll.c:75-97 | main prints no warning, htonll(0x554E49584C4f5645) is 0x45564f4c58494e55 and main returns 0 |
| Union64.MaskIsOneBit | c/union64.c:43 | 1ULL << bit has exactly one bit set, and different bits give disjoint masks |
| Union64.BitAt | c/union64.c:38-44 | union64_bit_at returns 0 or 1: 0 for bit > 63, otherwise 1 exactly when that bit is set |
| Union64.SetPath | c/union64.c:54-55 | adding the mask of a clear bit is setting it with OR |
| Union64.ClearPath | c/union64.c:56-57 | subtracting the mask of a set bit is clearing it with AND NOT |
| Union64.KeepSetPath | c/union64.c:54-58 | when val and the bit are both set, the value already equals the value with the bit set |
| Union64.KeepClearPath | c/union64.c:54-58 | when val and the bit are both zero, the value already equals the value with the bit cleared |
| Union64.BitSet | c/union64.c:46-60 | union64_bit_set returns the bit's previous value and its local copy becomes u with the bit set or cleared as val says (unchanged for bit > 63) |
| Union64.Updated | c/union64.c:54-58 | the new value of the local copy in union64_bit_set; no contract of its own: UpdatedSetsBit and UpdatedKeepsOtherBits state which bits it changes, and the four Path lemmas tie it to the += and -= branches |
| Union64.UpdatedSetsBit | c/union64.c:54-58 | after the update the chosen bit is 1 exactly when val is nonzero |
| Union64.UpdatedKeepsOtherBits | c/union64.c:54-58 | the update leaves every other bit as it was |
| Union64.DefaultValueBits | c/union64.c:71 | the default value (1 << 2) + (1 << 60) has bits 2 and 60 set and no others |
| BitFields.BitString | c/bit-fields.c:53-60 | the string has exactly bits chars, and char k is bit bits-1-k of val: most significant first |
| BitFields.Width | c/bit-fields.c:49-51 | a width below 1 stands for the bits of an unsigned long; any other width is kept |
| BitFields.Revstr | c/bit-fields.c:29-40 | the first strnlen(str, buf_size) chars are reversed in place and every other char is left alone |
| BitFields.UtobAsWritten | c/bit-fields.c:46-66 | as written, utob exits exactly when the width exceeds len; otherwise it writes the bit string and puts the NUL at index width |
| BitFields.UtobFullWidthOverrun | c/bit-fields.c:55-61 | with width == len the loop does not exit and the NUL lands at buf[len], one past the len chars the caller gave |
| BitFields.Utob | c/bit-fields.c:46-66 | with the NUL kept inside len, utob exits iff width >= len; otherwise it writes the bits most significant first (or least significant first with lil_endian) followed by NUL |
| BitFields.LittleEndianChars | c/bit-fields.c:62-64 | after revstr, char k of the string is bit k of val |
| Float32Graph.RawExpBound | c/float32-graph.c:80-81 | the biased exponent field, masked and shifted down by 23, is below 256 |
| Float32Graph.RawExp | c/float32-graph.c:80-81 | the biased exponent field (u32 & rexp_mask) >> 23; no contract of its own: RawExpBound bounds it and FieldsRecompose puts it back in place |
| Float32Graph.Exponent | c/float32-graph.c:82 | raw_exp - exp_max in uint32_t stored into int16_t; no contract of its own: ExponentUnbiased proves it is the field minus 127, within -127 .. 128 |
| Float32Graph.ToInt16 | c/float32-graph.c:82 | storing into int16_t keeps the value modulo 2^16 within -32768..32767 |
| Float32Graph.Unbias | c/float32-graph.c:82 | raw_exp - 127, computed in 32-bit unsigned and stored into int16_t, is the exact difference for every raw exponent below 256 |
| Float32Graph.ExponentUnbiased | c/float32-graph.c:80-82 | the exponent out-parameter is the field minus 127 and lies in -127..128 |
| Float32Graph.SignIsBit31 | c/float32-graph.c:78 | sign is bit 31 of the pattern |
| Float32Graph.FractionIsLow23 | c/float32-graph.c:84 | fraction is the low 23 bits of the pattern |
| Float32Graph.NaNAndInf | c/float32-graph.c:86-94 | NaN iff exponent 128 with a nonzero fraction; infinity iff exponent 128 with a zero fraction |
| Float32Graph.ZeroSubnormalNormal | c/float32-graph.c:96-106 | zero iff exponent -127 and fraction 0; subnormal iff exponent -127 and fraction nonzero; normal iff the exponent is strictly between |
| Float32Graph.ClassMatchesStandard | c/float32-graph.c:69-107 | the class equals the IEEE 754 binary32 classification by biased exponent (0, 1..254, 255) and fraction |
| Float32Graph.RadixTwoToFields | c/float32-graph.c:69-107 | eh_float32_radix_2_to_fields as written; no contract of its own: SignIsBit31, FractionIsLow23, ExponentUnbiased, NaNAndInf, ZeroSubnormalNormal and ClassMatchesStandard state its outputs |
| Float32Graph.StandardClass | c/float32-graph.c:86-106 | the independent reference classification of IEEE 754 binary32 by biased exponent field and trailing significand; ClassMatchesStandard proves the classifier agrees with it |
| Float32Graph.FieldsRecompose | c/float32-graph.c:64-84 | the sign bit, the exponent field shifted back into place and the fraction together rebuild the pattern |
| Float32Graph.PositiveNaNRange | c/float32-graph.c:86-89 | a pattern with the sign clear is NaN exactly from 0x7F800001 upward |
| Float32Graph.NegativeNaNRange | c/float32-graph.c:86-89 | a pattern with the sign set is NaN exactly from 0xFF800001 upward |
| StringHashing.CharValueLowByte | c/string-hashing.c:65 | (unsigned int)str[i] on a signed char keeps the byte as its low 8 bits and sign-extends bytes from 0x80 up to 0xFFFFFFxx |
| StringHashing.FoldAppend | c/string-hashing.c:63-66 | hashing s + t continues from the hash of s, one char at a time |
| StringHashing.Step | c/string-hashing.c:57-145 | one character's step of kr2, kr1, djb2, djb2xor and sdbm in multiplicative form modulo 2^32; it has no contract of its own, and the StepForm lemmas tie it to each loop body as written |
| StringHashing.StepInjective | c/string-hashing.c:57-145 | from the same accumulator, two different characters never give the same step result, in all five hashes |
| StringHashing.Hash | c/string-hashing.c:57-145 | the seed folded over the string's characters; it has no contract of its own, and HashSnoc, FoldAppend and the HashStr methods state what it is |
| StringHashing.HashSnoc | c/string-hashing.c:57-145 | each scheme starts from its seed (0 or 5381) and each further char applies one step |
| StringHashing.Kr2StepForm | c/string-hashing.c:64-65 | kr2's step is hash * 31 + c modulo 2^32 |
| StringHashing.Djb2StepForm | c/string-hashing.c:112 | djb2's step ((hash << 5) + hash) + c is hash * 33 + c modulo 2^32 |
| StringHashing.Djb2XorStepForm | c/string-hashing.c:126 | djb2xor's step is (hash * 33) ^ c modulo 2^32 |
| StringHashing.SdbmStepForm | c/string-hashing.c:140-141 | sdbm's step c + (hash << 6) + (hash << 16) - hash is c + hash * 65599 modulo 2^32 |
| StringHashing.Kr1FoldIsSum | c/string-hashing.c:79-82 | kr1 from any start adds the sum of the chars modulo 2^32 |
| StringHashing.Kr1OrderBlind | c/string-hashing.c:74-85 | kr1 is the char sum modulo 2^32, so swapping two parts of a string does not change it |
| StringHashing.Kr2HashStr | c/string-hashing.c:57-69 | the loop computes the kr2 hash of the whole string |
| StringHashing.Kr1HashStr | c/string-hashing.c:74-85 | the loop computes the kr1 hash of the whole string |
| StringHashing.Djb2HashStr | c/string-hashing.c:105-116 | the loop computes the djb2 hash, seeded with 5381 |
| StringHashing.Djb2XorHashStr | c/string-hashing.c:119-130 | the loop computes the djb2xor hash, seeded with 5381 |
| StringHashing.SdbmHashStr | c/string-hashing.c:133-145 | the loop computes the sdbm hash of the whole string |
| StringHashing.DecodeEncode | c/string-hashing.c:201-207 | leveldb_decode_fixed_32 of a word's four little-endian bytes is the word |
| StringHashing.EncodeDecode | c/string-hashing.c:201-207 | the four bytes read are recovered from the decoded word |
| StringHashing.LevelDbEmpty | c/string-hashing.c:213-248 | the empty string hashes to the seed 0xbc9f1d34 |
| StringHashing.TailIsPaddedWord | c/string-hashing.c:234-246 | the fall-through switch on 1 to 3 leftover bytes adds them as a zero-padded little-endian word, then multiplies by m and shifts by r = 24 (not the word loop's 16) |
| StringHashing.FallThrough3 | c/string-hashing.c:235-242 | the three fall-through additions add b0 + 256 b1 + 65536 b2 |
| StringHashing.FallThrough2 | c/string-hashing.c:238-242 | the two fall-through additions add b0 + 256 b1 |
| StringHashing.LevelDbHashStr | c/string-hashing.c:216-248 | the word loop and the tail switch compute the leveldb hash of the whole string |
| StringHashing.TailSwitch | c/string-hashing.c:234-246 | the switch on the leftover count computes the tail step, and does nothing for 0 leftover bytes |
| StringHashing.BucketFor | c/string-hashing.c:517-528 | without jumphash the bucket is below num_buckets, and a hash already below it is its own bucket |
| FactorialSizeT.TableIsFactorials | c/factorial_size_t.c:36-90 | ulfactorials[i] is i! for every i up to max_ulfactorial, and the entry after the last is the 0 terminator |
| FactorialSizeT.MaxUlfactorialRange | c/factorial_size_t.c:92-93 | max_ulfactorial lies between 5 and 20 whatever the width of unsigned long |
| FactorialSizeT.MaxUlfactorialIsLargest | c/factorial_size_t.c:36-93 | max_ulfactorial is the largest n with n! <= ULONG_MAX, capped at 20 |
| FactorialSizeT.MaxUlfactorialIs | c/factorial_size_t.c:36-93 | any n <= 20 whose factorial fits while (n+1)! does not is max_ulfactorial |
| FactorialSizeT.MaxUlfactorialValues | c/factorial_size_t.c:36-93 | a 32-bit unsigned long gives max_ulfactorial 12, a 64-bit one 20 |
| FactorialSizeT.AtLeastTwelve | c/factorial_size_t.c:36-93 | an unsigned long of at least 32 bits holds the table through 12! |
| FactorialSizeT.MaxSizeTFactorial | c/factorial_size_t.c:96-140 | Max_size_t_factorial is 12, 20 or 0 (unknown size_t), and never beyond the table |
| FactorialSizeT.MaxSizeTFactorialIsLargest | c/factorial_size_t.c:126-136 | when known, Max_size_t_factorial is the largest n with n! <= SIZE_MAX |
| FactorialSizeT.SafeMulSizeTCorrect | c/factorial_size_t.c:157-190 | safe_mul_size_t reports overflow exactly when lhs * rhs exceeds SIZE_MAX, and otherwise stores the exact product |
| FactorialSizeT.SafeMulSizeT | c/factorial_size_t.c:157-190 | whichever multiply the preprocessor picks, the stored product fits in size_t |
| FactorialSizeT.HalvesForSizeT | c/factorial_size_t.c:161-190 | _diy_safe_mul_size_t on size_t halves flags overflow iff the product exceeds SIZE_MAX and is exact otherwise |
| FactorialSizeT.FactorialLoop | c/factorial_size_t.c:193-205 | the do-while returns n! when it fits in size_t and 0 when some step overflows |
| FactorialSizeT.FactorialSizeTAsWritten | c/factorial_size_t.c:209-222 | factorial_size_t returns 0 above Max_size_t_factorial, the table entry stored into size_t below it, and with an unknown size_t the table entry or the loop's result |
| FactorialSizeT.AsWrittenExact | c/factorial_size_t.c:209-222 | when size_t holds every table entry, factorial_size_t as written is n! when that fits in size_t and 0 otherwise |
| FactorialSizeT.UlongTable | c/factorial_size_t.c:36-93 | the table reaches 12! on every valid platform and 20! with a 64-bit unsigned long |
| FactorialSizeT.LookupExact | c/factorial_size_t.c:214-218 | a looked-up entry is n! exactly, and fits size_t, when n is within Max_size_t_factorial or unsigned long is no wider than size_t |
| FactorialSizeT.AboveMaxIsZero | c/factorial_size_t.c:214 | above Max_size_t_factorial the factorial overflows size_t, so returning 0 is the intended answer |
| FactorialSizeT.NarrowSizeTTruncates | c/factorial_size_t.c:216-218 | with a 16-bit size_t and a 32-bit unsigned long the table answers 9 with 9! truncated to 35200, while 9! does not fit |
| FactorialSizeT.FactorialSizeT | c/factorial_size_t.c:209-222 | factorial_size_t returns n! when it fits in size_t and 0 otherwise |
| SafeMul.HalvesMulCorrect | c/factorial_size_t.c:161-190 | the split-halves multiply flags overflow exactly when lhs * rhs does not fit in the word, and otherwise stores the exact product |
| SafeMul.HalvesMul | c/factorial_size_t.c:161-190 | _diy_safe_mul_size_t step by step; whatever the inputs, the stored product fits in the word |
| SafeMul.HalvesMulExact | c/factorial_size_t.c:161-190 | for an even word width the same holds with the word size written as 2^bits |
| SafeMul.OneSided | c/factorial_size_t.c:180-189 | with only lhs having high bits, the midbits and carry checks catch overflow exactly |
| SafeMul.OneSidedSplit | c/factorial_size_t.c:180-189 | with lhs = hi * h + lo and rhs below h, the midbits check or the carry check fires exactly when lhs * rhs reaches the word, and otherwise the assembled product is lhs * rhs |
| SafeMul.OneSidedRight | c/factorial_size_t.c:180-189 | with only rhs having high bits, the midbits and carry checks catch overflow exactly |
| SafeMul.WrapCheck | c/factorial_size_t.c:185-186 | product < lowbits after the wrapping add is true exactly when the add carried out of the word |
| CachedFactorial.SafeMulUlCorrect | c/cached_factorial.c:117-145 | safe_mul_ul sets overflow exactly when lhs * rhs exceeds ULONG_MAX, and otherwise returns the exact product |
| CachedFactorial.SafeMulUl | c/cached_factorial.c:117-145 | safe_mul_ul, the same split-halves multiply on unsigned long, always returns a value that fits in unsigned long |
| CachedFactorial.CachedFactIsFact | c/cached_factorial.c:42-77 | each cached constant for 2..10 is that number's factorial |
| CachedFactorial.UlongAtLeast32 | c/cached_factorial.c:74-76 | an unsigned long of four or more bytes holds the largest cached constant |
| CachedFactorial.FactorialCached | c/cached_factorial.c:28-86 | factorial_cached returns n! when it fits in unsigned long and 0 when a multiply overflows |
| CachedFactorial.WrappedStep | c/cached_factorial.c:110-112 | one round of result *= --n, wrapping modulo the word, keeps result * (n-1)! congruent to the target |
| CachedFactorial.FactorialSafe | c/cached_factorial.c:88-115 | factorial_safe returns 0 above the size limit, 1 below 2, and otherwise the wrapping product n * (n-1) * ... * 1 |
| CachedFactorial.FactorialSafeExact | c/cached_factorial.c:88-115 | for 1-, 2-, 4- and 8-byte unsigned long, factorial_safe is n! when it fits and 0 otherwise |
| CachedFactorial.LimitFits | c/cached_factorial.c:94-100 | each limit is the largest n whose factorial fits the unsigned long of that size |
| CachedFactorial.SelfTest | c/cached_factorial.c:147-174 | for n below 25 the two factorials agree, so main returns 0, with a 4- or 8-byte unsigned long |
| NChooseK.PoorDiyExact | c/n-choose-k.c:21-35 | poor_diy_umull_overflow reports overflow exactly when a * b exceeds ULONG_MAX, and otherwise stores the exact product |
| NChooseK.PoorDiyUmullOverflow | c/n-choose-k.c:21-35 | poor_diy_umull_overflow leaves *res unwritten exactly when it reports overflow; otherwise it stores a value that fits in unsigned long and divides back to b |
| NChooseK.BuiltinUmullOverflow | c/n-choose-k.c:19 | __builtin_umull_overflow always stores the wrapped product, which fits in unsigned long and is the exact product when no overflow is reported |
| NChooseK.UmullOverflowExact | c/n-choose-k.c:18-38 | with the GCC builtin or the fallback, umull_overflow reports overflow iff a * b exceeds ULONG_MAX and otherwise stores a * b |
| NChooseK.Absorption | c/n-choose-k.c:61-69 | j * C(m, j) == m * C(m-1, j-1), the identity that makes temp2 / i exact |
| NChooseK.StepProductMonotone | c/n-choose-k.c:61-69 | the intermediate products i * C(n-k+i, i) grow with i, so the last one decides overflow |
| NChooseK.ChooseStep | c/n-choose-k.c:62-68 | from result == C(n-k+i-1, i-1), multiplying by n-(k-i) overflows iff i * C(n-k+i, i) exceeds ULONG_MAX, and otherwise temp2 / i is C(n-k+i, i) |
| NChooseK.NChooseK | c/n-choose-k.c:40-72 | n_choose_k returns 0 for k > n and C(n, k) otherwise, with error set (and 0 returned) exactly when k * C(n, k) exceeds ULONG_MAX |
| ChooseKFromN.AllSplit | c/choose-k-from-n.c:17-40 | the k-subsets of lo..n-1 in lexicographic order are those starting with lo followed by those that do not |
| ChooseKFromN.RunIsComb | c/choose-k-from-n.c:35-37 | lo, lo+1, ..., lo+k-1 is a strictly increasing index list below n |
| ChooseKFromN.SuccessorAt | c/choose-k-from-n.c:21-37 | when i is the last position that can still grow, the next list keeps idxs[..i], bumps idxs[i] and refills the rest consecutively |
| ChooseKFromN.SuccessorNone | c/choose-k-from-n.c:23-33 | when no position can grow the function answers 0 |
| ChooseKFromN.SuccessorIsComb | c/choose-k-from-n.c:17-40 | the next list is again a strictly increasing list of indices below n |
| ChooseKFromN.SuccessorGreater | c/choose-k-from-n.c:17-40 | the next list is lexicographically greater than the current one |
| ChooseKFromN.SuccessorIsNext | c/choose-k-from-n.c:17-40 | no combination lies strictly between a list and its successor |
| ChooseKFromN.LastIsMax | c/choose-k-from-n.c:31-33 | a list with no successor is the lexicographically largest combination |
| ChooseKFromN.RunIsLeast | c/choose-k-from-n.c:118-121 | the starting list 0..k-1 is the lexicographically smallest combination |
| ChooseKFromN.LastCombination | c/choose-k-from-n.c:31-33 | the function answers 0 exactly for n-k, ..., n-1 |
| ChooseKFromN.ChooseKFromN | c/choose-k-from-n.c:17-40 | choose_k_from_n answers 1 and leaves the next combination in idxs[..k], or answers 0 with every idxs[j] incremented once, leaving idxs[k..] alone |
| ChooseKFromN.Refill | c/choose-k-from-n.c:35-37 | the refill loop makes idxs[i..k) consecutive from idxs[i] and changes nothing else |
| ChooseKFromN.AllAreCombs | c/choose-k-from-n.c:17-40 | every listed subset has k strictly increasing indices below n |
| ChooseKFromN.AllComplete | c/choose-k-from-n.c:17-40 | every strictly increasing k-list below n is in the enumeration |
| ChooseKFromN.AllLength | c/choose-k-from-n.c:17-40 | there are C(n - lo, k) of them |
| ChooseKFromN.AllFirst | c/choose-k-from-n.c:118-127 | the enumeration starts with lo..lo+k-1 |
| ChooseKFromN.AllLast | c/choose-k-from-n.c:128-130 | the last subset has no successor, so the loop ends there |
| ChooseKFromN.AllStep | c/choose-k-from-n.c:128-130 | choose_k_from_n takes each subset to the next one in the enumeration |
| ChooseKFromN.EmitCombinations | c/choose-k-from-n.c:118-130 | main prints exactly the C(n, k) k-subsets of 0..n-1, in lexicographic order |
| ChooseKFromN.IntVec.constructor | c/choose-k-from-n.c:96-98 | the value list starts empty, with no capacity |
| ChooseKFromN.IntVec.AddVal | c/choose-k-from-n.c:70-83 | add_val appends val, grows the capacity by 100 when len + 1 reaches it, and keeps the earlier values |
| ChooseKFromN.TextsAt | c/choose-k-from-n.c:48-50 | term i is "%d" of ints[idxs[i]] |
| ChooseKFromN.TermsJoin | c/choose-k-from-n.c:48-50 | after i terms the buffer holds them joined by ", " with a trailing ", " |
| ChooseKFromN.Trimmed | c/choose-k-from-n.c:52-55 | trimming two chars when x > 2 drops exactly the trailing ", " before the closing bracket |
| ChooseKFromN.WriteTerms | c/choose-k-from-n.c:47-50 | the sprintf loop writes "[" then each term followed by ", " |
| ChooseKFromN.IntsIdxsToString | c/choose-k-from-n.c:42-57 | ints_idxs_to_string gives "[" + the terms joined by ", " + "]", and "[]" for len 0 |
| PermuteArray.Swapped | c/permute-array.c:12-17 | the swap exchanges the elements at i and j and leaves the others alone |
| PermuteArray.SwappedPermutes | c/permute-array.c:12-17 | a swap rearranges the elements: same multiset |
| PermuteArray.SwappedTwice | c/permute-array.c:12-17 | swapping the same two places twice restores the array |
| PermuteArray.Swap | c/permute-array.c:12-17 | swap through the one-element buffer exchanges a[i] and a[j] in place |
| PermuteArray.FallingFact | c/permute-array.c:25-27 | after the do-while has multiplied n down to m, result * (m-1)! == n! |
| PermuteArray.Factorial | c/permute-array.c:19-29 | factorial returns n! modulo 2^64, as size_t arithmetic wraps |
| PermuteArray.FactorialExact | c/permute-array.c:19-29 | up to 20, n! fits and factorial is exact |
| PermuteArray.FactorialWrapsAt21 | c/permute-array.c:19-29 | factorial(21) wraps to 14197454024290336768, below 21! |
| PermuteArray.NextSwap | c/permute-array.c:44-45 | sub_perm / (n-1)! picks a position within the remaining n elements |
| PermuteArray.Digits | c/permute-array.c:43-52 | the swap distances read from a permutation index form n-1 digits, digit i below n-i |
| PermuteArray.PlacePermutes | c/permute-array.c:47-51 | bringing element i+c to position i by a swap keeps the multiset |
| PermuteArray.Apply | c/permute-array.c:43-52 | applying the swap distances keeps length and multiset |
| PermuteArray.DecodeStep | c/permute-array.c:43-52 | the permutation for sub_perm at i is one pass (swap, then sub_perm % (n-1-i)!) followed by the permutation of the rest |
| PermuteArray.ApplyKeepsPrefix | c/permute-array.c:43-52 | passes from i on never touch positions below i |
| PermuteArray.ApplyInjective | c/permute-array.c:43-52 | on distinct elements, different swap-distance lists give different arrangements |
| PermuteArray.DigitsInjective | c/permute-array.c:44-46 | different permutation indices below n! give different swap-distance lists |
| PermuteArray.DecodeZero | c/permute-array.c:43-52 | permutation 0 leaves the array as copied |
| PermuteArray.DecodeKeepsPrefix | c/permute-array.c:43-52 | decoding from position i keeps dest[..i] |
| PermuteArray.DecodeInjective | c/permute-array.c:32-53 | on distinct elements, different indices below n! give different permutations |
| PermuteArray.Permute | c/permute-array.c:32-53 | permute copies src[..len] into dest and rearranges it into the permutation numbered by its index, leaving the rest of dest alone |
| PermuteArray.Copy | c/permute-array.c:39 | memcpy copies src[..len] into dest and nothing else |
| PermuteArray.PermutePass | c/permute-array.c:44-51 | one loop round swaps dest[i] with dest[i + sub_perm / (len-1-i)!] and keeps sub_perm % (len-1-i)! |
| PermuteArray.PermuteRearranges | c/permute-array.c:32-53 | every permutation is a rearrangement of src, and permutation 0 is src itself |
| PermuteArray.Iota | c/permute-array.c:90-92 | ints[i] == i for all i, so the elements are distinct |
| PermuteArray.Listing | c/permute-array.c:98-101 | the loop's outputs are the permutations numbered 0..count-1 in order |
| PermuteArray.ListingDistinct | c/permute-array.c:98-101 | on distinct elements the listed permutations are pairwise different |
| PermuteArray.Run | c/permute-array.c:66-109 | main returns 0, shows [] for len 0, and otherwise the identity followed by the permutations numbered below the wrapped factorial(len) |
| PermuteArray.Visited | c/permute-array.c:98 | the loop visits factorial(len) mod 2^64 indices, never more than len! |
| PermuteArray.VisitedAll | c/permute-array.c:98 | up to 20 elements every one of the len! permutations is shown |
| PermuteArray.VisitedShortAt21 | c/permute-array.c:98 | for len 21 the wrapped factorial stops the loop at 14197454024290336768, short of 21! |
| PermuteArray.ShowAll | c/permute-array.c:98-101 | the print loop lists the permutations numbered below total |
| PermuteArray.ShowNext | c/permute-array.c:99-100 | one round shows permutation number i of 0..len-1 |
| PermuteArray.RunShowsDistinct | c/permute-array.c:98-101 | for up to 20 elements all len! shown lists are different |
| PermuteArraySwap.Permute | c/permute-array-swap.c:41-62 | where size_t holds every table entry, permute with factorial_size_t as written writes the permutation numbered by its index into dest[..len] and leaves the rest alone |
| PermuteArraySwap.SubPerms | c/permute-array-swap.c:53 | the count of sub-permutations of the remaining len-1-i places is their exact factorial, at least 1, whenever it fits in size_t |
| PermuteArraySwap.SwapPass | c/permute-array-swap.c:53-60 | one loop round swaps dest[i] with dest[i + sub_perm / (len-1-i)!] and keeps the remainder |
| PermuteArraySwap.Run | c/permute-array-swap.c:75-123 | on a platform whose size_t holds every table entry, main with factorial_size_t as written shows [] for len 0, returns 1 with nothing shown when len! does not fit in size_t, and otherwise shows the identity and all len! permutations |
| PermuteArraySwap.ShowAll | c/permute-array-swap.c:112-115 | the print loop lists the permutations numbered below total |
| PermuteArraySwap.ShowNext | c/permute-array-swap.c:113-114 | one round shows permutation number i |
| PermuteArraySwap.GuardRejectsOverflow | c/permute-array-swap.c:85-89 | where size_t holds every table entry, factorial_size_t(len) as written is 0 exactly when len! exceeds SIZE_MAX; past the guard the shown permutations are pairwise distinct |
| PermuteArraySwap.GuardPassesOnNarrowSizeT | c/permute-array-swap.c:325-337 | with a 16-bit size_t and a 32-bit unsigned long, factorial_size_t(9) as written is 35200, so the guard lets len 9 through although 9! exceeds SIZE_MAX |
| PermuteArrayLexicographic.RotatedAt | c/permute-array-lexicographic.c:44-55 | moving element i+c to position i shifts i..i+c-1 up by one and leaves everything else alone |
| PermuteArrayLexicographic.RotatedPermutes | c/permute-array-lexicographic.c:44-55 | the rotation rearranges the elements: same multiset |
| PermuteArrayLexicographic.RotatedZero | c/permute-array-lexicographic.c:44 | with choice 0 (to == from) nothing moves |
| PermuteArrayLexicographic.RotatedIncreasing | c/permute-array-lexicographic.c:44-55 | rotating an increasing tail keeps the part after position i increasing |
| PermuteArrayLexicographic.LexApply | c/permute-array-lexicographic.c:38-57 | applying the choices keeps length and multiset |
| PermuteArrayLexicographic.LexDecode | c/permute-array-lexicographic.c:17-60 | the permutation numbered idx is a rearrangement of src |
| PermuteArrayLexicographic.LexApplyKeepsPrefix | c/permute-array-lexicographic.c:38-57 | rounds from i on never touch positions below i |
| PermuteArrayLexicographic.LexDecodeZero | c/permute-array-lexicographic.c:31-33 | index 0 is src itself |
| PermuteArrayLexicographic.LexDecodeStep | c/permute-array-lexicographic.c:38-57 | the permutation for idx at i is one rotation by idx / (len-i-1)! followed by the permutation for the remainder |
| PermuteArrayLexicographic.LexProgressDone | c/permute-array-lexicographic.c:38 | the loop may stop as soon as idx reaches 0: the remaining rounds would change nothing |
| PermuteArrayLexicographic.Permute | c/permute-array-lexicographic.c:17-60 | permute returns NULL without writing for a NULL src or dest or len 0; otherwise it returns dest holding the permutation numbered perm_idx of src[..len] |
| PermuteArrayLexicographic.Rearrange | c/permute-array-lexicographic.c:30-59 | the copy and the rotation loop leave the numbered permutation in dest[..len] |
| PermuteArrayLexicographic.RotateAll | c/permute-array-lexicographic.c:35-57 | the loop rewrites dest[..len] into its permutation numbered idx |
| PermuteArrayLexicographic.RotatePass | c/permute-array-lexicographic.c:39-56 | one round rotates element i + idx / (len-i-1)! to position i and keeps the remainder |
| PermuteArrayLexicographic.RotateInPlace | c/permute-array-lexicographic.c:45-54 | save, copy, memmove and restore together rotate d[i..i+c] right by one, changing nothing else |
| PermuteArrayLexicographic.Memmove | c/permute-array-lexicographic.c:50-51 | memmove copies n elements from from to to as if through a temporary, even when they overlap |
| PermuteArrayLexicographic.DigitsMonotone | c/permute-array-lexicographic.c:39-41 | a smaller index gives a choice list that is smaller at the first place they differ |
| PermuteArrayLexicographic.LexApplyMonotone | c/permute-array-lexicographic.c:38-57 | on an increasing array, a smaller choice list gives a lexicographically smaller arrangement |
| PermuteArrayLexicographic.LexOrder | c/permute-array-lexicographic.c:16-60 | on increasing elements, a smaller index gives a lexicographically smaller permutation: the numbering is lexicographic order |
| PermuteArrayLexicographic.LexListing | c/permute-array-lexicographic.c:121-124 | the loop lists the permutations numbered 0..count-1 |
| PermuteArrayLexicographic.Run | c/permute-array-lexicographic.c:85-137 | main returns 0; it shows [] for len 0, the identity and then either every permutation below the wrapped factorial(len) or only the one requested |
| PermuteArrayLexicographic.LexShowAll | c/permute-array-lexicographic.c:121-124 | the print loop lists the permutations numbered below total |
| PermuteArrayLexicographic.LexShowNext | c/permute-array-lexicographic.c:122-123 | one round shows permutation number i |
| PermuteArrayLexicographic.RunInOrder | c/permute-array-lexicographic.c:120-124 | main's listing of 0..len-1 comes out in strictly increasing lexicographic order |
| PermuteArrayRecursive.Trace | c/permute-array-recursive.c:23-40 | the recursion calls func (last - from + 1)! times |
| PermuteArrayRecursive.Blocks | c/permute-array-recursive.c:35-39 | the first i - from loop rounds together call func (i - from) * (last - from)! times |
| PermuteArrayRecursive.TraceRearranges | c/permute-array-recursive.c:23-40 | every array func sees is a rearrangement of from..last that keeps the rest in place |
| PermuteArrayRecursive.BlocksRearrange | c/permute-array-recursive.c:35-39 | the same holds for the arrays seen in the first rounds of the loop |
| PermuteArrayRecursive.BlockRearranges | c/permute-array-recursive.c:36-38 | the arrays seen after swapping from with j are rearrangements of the original |
| PermuteArrayRecursive.TraceDistinct | c/permute-array-recursive.c:23-40 | on distinct elements func sees no arrangement twice |
| PermuteArrayRecursive.BlocksDistinct | c/permute-array-recursive.c:35-39 | the first rounds see pairwise different arrays, each with one of s[from..i) at position from |
| PermuteArrayRecursive.BlockDistinct | c/permute-array-recursive.c:36-38 | the round for j sees different arrays, all with the original s[j] at position from |
| PermuteArrayRecursive.Permute | c/permute-array-recursive.c:23-40 | permute restores the array when it returns, and func sees exactly the traced arrangements in order |
| PermuteArrayRecursive.Run | c/permute-array-recursive.c:62-97 | main returns 0, shows [] for len 0, otherwise the identity followed by what the recursion visits |
| PermuteArrayRecursive.RunShowsAll | c/permute-array-recursive.c:62-97 | for len > 0 main shows len! pairwise different rearrangements of 0..len-1 |
| SieveOfEratosthenes.ByteAndOffset | c/sieve-of-eratosthenes.c:24-39 | index / 8 and index % 8 locate the bit: byte * 8 + offset == index with offset below 8 |
| SieveOfEratosthenes.OrBit | c/sieve-of-eratosthenes.c:53-54 | OR with 1 << offset sets that bit and keeps the others |
| SieveOfEratosthenes.AndNotBit | c/sieve-of-eratosthenes.c:55-56 | AND with ~(1 << offset) clears that bit and keeps the others |
| SieveOfEratosthenes.SetBit | c/sieve-of-eratosthenes.c:41-58 | set_bit sets or clears exactly the indexed bit and leaves every other bit of every byte alone |
| SieveOfEratosthenes.GetBit | c/sieve-of-eratosthenes.c:60-68 | get_bit reads bit offset of byte index / 8; no contract of its own: SetBit's ensures states that after set_bit it reads val at the index and the old bit everywhere else |
| SieveOfEratosthenes.WithBit | c/sieve-of-eratosthenes.c:53-57 | the stored byte has bit offset equal to val and every other bit as before |
| SieveOfEratosthenes.PrimesIndex | c/sieve-of-eratosthenes.c:70-73 | an odd number n >= 3 has bit (n - 3) / 2, so 2 * index + 3 == n; below 3 the unsigned subtraction wraps to a huge index |
| SieveOfEratosthenes.PrimesIndexMonotone | c/sieve-of-eratosthenes.c:70-73 | larger numbers get larger or equal bit indices |
| SieveOfEratosthenes.PrimesIndexInjective | c/sieve-of-eratosthenes.c:70-73 | different odd numbers from 3 up use different bits |
| SieveOfEratosthenes.PrimesLen | c/sieve-of-eratosthenes.c:146 | primes_len has room for the bit of every odd number from 3 to max |
| SieveOfEratosthenes.IsPrimeFixed | c/sieve-of-eratosthenes.c:82-92 | is_prime's answers for numbers below 3 and even numbers are right without reading any bit |
| SieveOfEratosthenes.AllSetSieved | c/sieve-of-eratosthenes.c:153-154 | after memset(-1) no odd number is marked yet, which is the sieve's starting state |
| SieveOfEratosthenes.StartMarking | c/sieve-of-eratosthenes.c:106 | the inner loop starts at j = i + i with no multiple of i yet to mark below it |
| SieveOfEratosthenes.MarkStep | c/sieve-of-eratosthenes.c:106-108 | one set_not_prime(j) marks multiple j of i and keeps the loop invariant for j + i |
| SieveOfEratosthenes.FinishMarking | c/sieve-of-eratosthenes.c:100-113 | once j passes max every multiple of i up to max is marked |
| SieveOfEratosthenes.SkipStep | c/sieve-of-eratosthenes.c:101 | when is_prime(i) is already false, i's multiples are already marked through a factor of i |
| SieveOfEratosthenes.SievedPrimes | c/sieve-of-eratosthenes.c:82-113 | after the outer loop, is_prime(n) answers exactly whether n is prime, for every n up to max |
| SieveOfEratosthenes.IsPrime | c/sieve-of-eratosthenes.c:82-94 | is_prime: 0 below 2, 1 for 2, 0 for other even numbers, otherwise the number's bit; no contract of its own: IsPrimeFixed and SievedPrimes prove it answers primality up to max after the sieve |
| SieveOfEratosthenes.SieveContext.constructor | c/sieve-of-eratosthenes.c:145-154 | main allocates primes_len bytes, all bits set, for the given max |
| SieveOfEratosthenes.SieveContext.SetNotPrime | c/sieve-of-eratosthenes.c:75-80 | set_not_prime clears the bit of an odd number and leaves the bits of even numbers' callers untouched |
| SieveOfEratosthenes.SieveContext.MarkNonPrimes | c/sieve-of-eratosthenes.c:96-117 | mark_non_primes leaves the bits so that is_prime(n) is true exactly for the primes up to max |
| SieveOfEratosthenes.SieveContext.MarkMultiples | c/sieve-of-eratosthenes.c:106-108 | the inner loop marks every multiple of i from 2i to max |
| SieveOfEratosthenes.SieveContext.ListPrimes | c/sieve-of-eratosthenes.c:161-165 | the print loop lists the primes up to max in increasing order |
| SieveOfEratosthenes.PrimesBelow | c/sieve-of-eratosthenes.c:161-165 | the list holds exactly the primes below n, strictly increasing |
| SieveOfEratosthenes.Run | c/sieve-of-eratosthenes.c:119-171 | main returns 0 and prints the primes up to max, with max 100 when the argument is 0 or absent |
| MinionStats.BonusForStat | c/minion-stats.c:37-40 | the bonus is stat / 2 - 5 with C's division toward zero: 2 (bonus + 5) is the stat rounded toward zero to even |
| MinionStats.BonusMonotone | c/minion-stats.c:37-40 | a higher stat never has a lower bonus; 10 and 11 give 0, 3 gives -4 and 18 gives +4 |
| MinionStats.CmpDesc | c/minion-stats.c:42-54 | the comparators return 1 when b > a, -1 when a > b, and 0 when equal |
| MinionStats.CmpDescIsDescending | c/minion-stats.c:42-54 | the comparators are antisymmetric and put larger values first |
| MinionStats.Die | c/minion-stats.c:85 | (r % die_max_value) + 1 is a face between 1 and die_max_value |
| MinionStats.Dice | c/minion-stats.c:83-86 | every die rolled lies between 1 and die_max_value |
| MinionStats.StatKeepsLargest | c/minion-stats.c:88-93 | after the descending sort the dice kept are the largest ones, and the stat lies between the number kept and that number times die_max_value |
| MinionStats.CharStats.constructor | c/minion-stats.c:247-255 | a minion starts with stats_len zeroed stats and no bonuses |
| MinionStats.RollStats | c/minion-stats.c:73-104 | roll_stats stores each stat truncated to uint16_t, totals the bonuses of the untruncated stats, and sorts the stats descending when sort_stats is set |
| MinionStats.RollAll | c/minion-stats.c:81-97 | the loop over the stats stores every stat and accumulates every bonus |
| MinionStats.RollNext | c/minion-stats.c:81-97 | one round of the loop extends the stored stats and the bonus total by stat s |
| MinionStats.RollStat | c/minion-stats.c:82-96 | one round stores stat s modulo 2^16 and adds its bonus |
| MinionStats.SortDesc | c/minion-stats.c:99-103 | qsort with u16cmpdesc leaves the stats in descending order as a permutation |
| MinionStats.RollOne | c/minion-stats.c:82-94 | one stat rolls the dice, sorts them descending and sums the first dice_to_keep |
| MinionStats.RollDice | c/minion-stats.c:83-86 | the dice loop fills dice[0..num_dice) from the draws and nothing else |
| MinionStats.SumKept | c/minion-stats.c:91-93 | the summing loop adds the first min(dice_to_keep, num_dice) dice |
| MinionStats.BonusTotalPermutation | c/minion-stats.c:96-103 | the bonus total does not depend on the order of the stats, so sorting them keeps it right |
| MinionStats.TotalMatchesStats | c/minion-stats.c:95-103 | when no stat exceeds a uint16_t the shown stats are a permutation of the rolled ones with the same bonus total |
| MinionStats.FirstDiffZero | c/minion-stats.c:138-141 | the comparing loop gives 0 exactly for equal arrays and is antisymmetric |
| MinionStats.FirstDiffPositive | c/minion-stats.c:138-141 | it is positive exactly when the first array is lexicographically smaller |
| MinionStats.CharStatsOrderMeaning | c/minion-stats.c:106-150 | charstats_cmpdesc puts higher total bonuses first, then the lexicographically larger sorted stats; it is antisymmetric and 0 only for equal totals and equal stat multisets |
| MinionStats.CharstatsCmpDesc | c/minion-stats.c:106-150 | charstats_cmpdesc returns the difference of the bonus totals, or else the first difference of the two sorted copies |
| MinionStats.CopyStats | c/minion-stats.c:124-125 | memcpy makes a fresh copy of the stats |
| MinionStats.FirstDiffLoop | c/minion-stats.c:138-141 | the loop returns cb[i] - ca[i] at the first index where they differ, or 0 |
| ZString.ZStr.constructor | c/z-string.c:118-125 | calloc gives max_len + 1 zeroed chars after the recorded size |
| ZString.CStr | c/z-string.c:139 | the C string a buffer holds is its prefix before the first NUL |
| ZString.CStrOfPadded | c/z-string.c:134-140 | text without a NUL followed by a NUL reads back as that text |
| ZString.ZStringSizeNew | c/z-string.c:113-143 | z_string_size_new returns NULL exactly when calloc fails; otherwise it records max_len and copies the first min(strlen(str), max_len) chars, every other char staying NUL |
| ZString.SizeNewText | c/z-string.c:134-142 | the string z_string_size_new returns reads as str cut to max_len, or "" for a NULL str |
| ZString.ZStringNew | c/z-string.c:31-32 | z_string_new returns a copy of str whose max_len is strlen(str), or an empty string of max_len 0 for NULL |
| ZString.ZStringMaxLen | c/z-string.c:166-178 | z_string_max_len reads the max_len header, which is the room the buffer has before its final NUL |
| ZString.StrVar.constructor | c/z-string.c:78 | a string variable holds the pointer it is given |
| ZString.ZStringDeleteRef | c/z-string.c:145-164 | z_string_delete_ref frees the buffer and sets the caller's pointer to NULL |
| ZString.Demo | c/z-string.c:75-100 | the demo's s1 reads "foo" with max_len 3 and its s2 reads "" with max_len 40 |
| AnonStackAlloc.Sbuf.constructor | c/anon-stack-alloc.c:21-22 | the anonymous compound literal starts as {0, 0, 0, NULL} |
| AnonStackAlloc.SbufClear | c/anon-stack-alloc.c:42-48 | sbuf_clear zeroes start, end and the first size chars of str, keeps size and str, and returns sb |
| AnonStackAlloc.SbufInit | c/anon-stack-alloc.c:50-55 | sbuf_init records buf and len, clears the first len chars, leaves the rest of buf as it was and returns sb |
| AnonStackAlloc.StackNewReportsSize | c/anon-stack-alloc.c:32-38 | main's stack sbuf reports size 80, so main returns 0 |
| Globdemo.StrList.Contents | c/globdemo.c:10-14 | the list's contents are its first used strings, each slot holding one |
| Globdemo.StrList.constructor | c/globdemo.c:40 | a new list is { NULL, 0, 0 } |
| Globdemo.GrownLen | c/globdemo.c:72 | the new capacity is larger than the old and at least 64 |
| Globdemo.StrListAdd | c/globdemo.c:60-87 | str_list_add returns 1 for NULL, 2 when strdup fails, 3 when a needed calloc fails (list unchanged), and otherwise 0 with the copy appended, growing the array only when it is full |
| Globdemo.Grow | c/globdemo.c:69-84 | growing keeps the contents, gives a fresh array of the new capacity, or fails leaving everything as it was |
| Globdemo.StrListClear | c/globdemo.c:89-102 | str_list_clear empties the list, NULLs every used slot and drops the array |
| Globdemo.AddAll | c/globdemo.c:29-31 | adding every matched path appends them all in order, with err 0 when every allocation succeeds |
| VarArgsDemo.AInt | c/var-args-demo.c:114-140 | a_int returns the number of decimal digits of x and leaves in buf as many of them as fit in len - 1, then a NUL, and writes nothing outside its len slots |
| VarArgsDemo.AStr | c/var-args-demo.c:101-112 | a_str returns strlen(str) and leaves the longest prefix that fits in len - 1, NUL-terminated, touching nothing outside its len slots |
| VarArgsDemo.First | c/var-args-demo.c:55-93 | each format piece takes 1 or 2 format characters; only "%d" and "%s" consume an argument, and only they can print something other than the format's own characters |
| VarArgsDemo.ShortTextFits | c/var-args-demo.c:58 | when the full text is shorter than the room, every directive starts inside the buffer, so a_int always gets a length of at least 1 |
| VarArgsDemo.PlainFormat | c/var-args-demo.c:86-93 | a format with no '%' prints exactly itself |
| VarArgsDemo.StepOn | c/var-args-demo.c:55-93 | one pass of the loop splits the text into the piece it prints followed by the text of the rest |
| VarArgsDemo.EmitPiece | c/var-args-demo.c:56-93 | one pass moves the format and argument positions by the piece's width and use, and the buffer then shows the text so far, truncated and NUL-terminated |
| VarArgsDemo.EmitArg | c/var-args-demo.c:68-75 | "%d" prints the argument's decimal digits and "%s" the argument string, each truncated to the room left |
| VarArgsDemo.FakeSnprintf | c/var-args-demo.c:38-99 | the corrected c89_fake_snprintf returns the length of the full text and leaves in buf as much of it as fits, NUL-terminated (all of it when shorter than buflen - 1), never writing past buflen - 1 |
| VarArgsDemo.TextPlain | c/var-args-demo.c:86-93 | a plain character prints itself before the rest of the text |
| VarArgsDemo.TextPercent | c/var-args-demo.c:60-67 | "%%" prints one '%' before the rest |
| VarArgsDemo.TextInt | c/var-args-demo.c:68-71 | "%d" prints the decimal digits of the next argument before the rest |
| VarArgsDemo.TextStr | c/var-args-demo.c:72-75 | "%s" prints the next argument string before the rest |
| VarArgsDemo.DemoText | c/var-args-demo.c:30 | "%d%% %s!" with 100 and "awesome" is the text "100% awesome!" |
| VarArgsDemo.Demo | c/var-args-demo.c:21-35 | main's call leaves "100% awesome!" in the 80-character buffer and returns 13 |
| VarArgsDemo.PlainStepsStuck | c/var-args-demo.c:87-92 | as written, once a plain character does not fit, fpos never moves again, whatever the number of passes |
| VarArgsDemo.TwoCharsStuck | c/var-args-demo.c:87-92 | as written, buflen 2 with format "ab" never gets past the 'a' |
| VarArgsDemo.OtherSkipsTwo | c/var-args-demo.c:76-85 | as written, "%q" that fits moves fpos by 4, so the trailing "ab" of "%qab" is never printed and "%q" alone steps past the NUL |
| VarArgsDemo.StrOverruns | c/var-args-demo.c:74 | as written, a_str given max instead of max - bpos writes past buflen when the string is long and bpos >= 2 |
| SimpleStatsLex.FieldEnd | c/simple_stats/main.c:36-48 | the field's end lies between the read position and the end of the line |
| SimpleStatsLex.FieldEndMeans | c/simple_stats/main.c:36-48 | the field's end is the first ',', '\n' or NUL at or after the read position: no delimiter comes before it, and it is one when the line has one |
| SimpleStatsLex.DelimAtStartIsEmpty | c/simple_stats/main.c:38-44 | a delimiter at the read position gives an empty field |
| SimpleStatsLex.LexColVal | c/simple_stats/main.c:30-52 | _lex_col_val copies the field into val_buf, NUL-terminates it, leaves the rest of val_buf alone and moves the position just past the delimiter |
| Ecrypt.FindEol | c/ecrypt.c:114-119 | the index found is -1 or lies inside the string |
| Ecrypt.FindEolMeans | c/ecrypt.c:114-119 | a found index is below max and holds CR or LF, with no NUL, CR or LF before it; -1 means no CR or LF comes before max and the first NUL |
| Ecrypt.ChompCrlf | c/ecrypt.c:109-121 | chomp_crlf returns its argument (NULL for NULL) and overwrites the first CR or LF before max and the NUL with a NUL, changing nothing else |
| PipeOpen.Command | c/pipe-open.c:147-149 | an empty command from the arguments becomes "ls -ltr"; any other is used as given |
| PipeOpen.Reverse | c/pipe-open.c:56-58 | reversal keeps the length |
| PipeOpen.ReverseAt | c/pipe-open.c:56-58 | character k of the reversal is character len - 1 - k of the input |
| PipeOpen.ReverseTwice | c/pipe-open.c:56-58 | reversing twice gives the input back |
| PipeOpen.ReversedLine | c/pipe-open.c:55-61 | a reversed line has the input's length and ends in '\n' |
| PipeOpen.ReverseInto | c/pipe-open.c:55-61 | the loop leaves the reversed line and a NUL in the reversed buffer, and nothing after them changes |
| PipeOpen.LineMatches | c/pipe-open.c:56-60 | what the loop writes, character by character, is the reversed line followed by a NUL |
| PipeOpen.EchoLines | c/pipe-open.c:53-64 | each line read from the pipe is printed as it is, or reversed when the reverse flag is set |
| PipeOpen.ReversedLineTwice | c/pipe-open.c:55-61 | for a line ending in '\n', reversing twice gives the line back |
| MemLkm.MemDevice.constructor | c/mem-lkm/mem-lkm.c:19-21 | the module starts with major -1, no buffer and the size parameter |
| MemLkm.FilePos.constructor | c/mem-lkm/mem-lkm.c:107 | a file position holds the offset it is given |
| MemLkm.TransferLen | c/mem-lkm/mem-lkm.c:117-127 | the count transferred is at most the one asked for, stays inside the buffer, is 0 exactly for count 0 or a position at or past the end, and otherwise is the whole count or all that is left |
| MemLkm.MemInit | c/mem-lkm/mem-lkm.c:39-75 | mem_init returns -1 for size 0, register_chrdev's error, -ENOMEM when kmalloc fails, and otherwise 0 with the major recorded and a fresh all-zero buffer of the given size |
| MemLkm.MemExit | c/mem-lkm/mem-lkm.c:77-88 | mem_exit marks a registered device unregistered with -1 and drops the buffer, keeping the size |
| MemLkm.CopyBytes | c/mem-lkm/mem-lkm.c:129 | the copy replaces exactly the n target bytes at the offset with the source bytes and keeps the rest |
| MemLkm.MemRead | c/mem-lkm/mem-lkm.c:107-140 | mem_read returns 0 with nothing changed when nothing is to be read; otherwise the bytes copy_to_user managed to copy from the position reach the user buffer, and it returns their number with the position advanced when all were copied, or -EFAULT with the position kept; the device buffer is never changed |
| MemLkm.MemWrite | c/mem-lkm/mem-lkm.c:142-173 | mem_write returns 0 with the buffer unchanged when nothing is to be written; otherwise it stores the bytes copy_from_user managed to copy at the position, zeroes the rest of the target range and keeps every other byte, returning their number when all were copied and -EFAULT otherwise; the position is never advanced |
| MemLkm.WriteThenRead | c/mem-lkm/mem-lkm.c:142-173 | since a write does not move the position, a read after it returns the bytes just written, cut to what fits |
| SwapEm.Slot.constructor | c/swap-em.c:31-38 | a pointer variable holds the address it is given |
| SwapEm.StandardSwap | c/swap-em.c:5-12 | standard_swap exchanges the two pointers, also when both name the same variable |
| SwapEm.XorSwap | c/swap-em.c:22-27 | xor_swap exchanges two distinct pointers, and clears a variable passed as both arguments |
| SwapEm.XorSelf | c/swap-em.c:24 | x ^ x is 0 |
| SwapEm.XorCancels | c/swap-em.c:24-26 | the second exclusive-or recovers the first value and the third the second |
| SwapEm.SwapThereAndBack | c/swap-em.c:29-47 | main's standard swap followed by an xor swap leaves both variables as they started |
| DigitToInt.DigitToIntSubtract | c/digit-to-int.c:19-24 | subtracting '0' from a digit gives the value 0 .. 9 that names that digit |
| DigitToInt.DigitToIntMask | c/digit-to-int.c:26-31 | masking a digit's byte with 0x0F gives the value 0 .. 9 that names that digit |
| DigitToInt.MaskAgreesWithSubtract | c/digit-to-int.c:26-31 | masking with 0x0F gives the same value as subtracting '0' on every digit |
| DigitToInt.DigitRoundTrip | c/digit-to-int.c:19-31 | every value 0 .. 9 comes back from its digit by either conversion |
| DigitToInt.Validate | c/digit-to-int.c:33-48 | the validation loop over the ten digits never finds a mismatch |
| FactorOfTwo.Decomposition | c/factor-of-2.c:20-23 | every non-zero number is 2 to the number of its trailing zeros times an odd number |
| FactorOfTwo.TrailingZerosBelow | c/factor-of-2.c:14-19 | a number below 2^n has fewer than n trailing zeros, so a 32-bit one has at most 31 |
| FactorOfTwo.EvenHasTrailingZero | c/factor-of-2.c:12 | a number is even exactly when it has at least one trailing zero |
| FactorOfTwo.LsbZeros | c/factor-of-2.c:13-19 | the bit loop counts the trailing zeros of a non-zero number and stops at a set bit; for 0 it counts 32 |
| FactorOfTwo.FactorOut | c/factor-of-2.c:13-23 | one pass gives even = 2^z and odd = the odd part, and their 32-bit product is num, so the assert holds |
| FactorOfTwo.CheckEvens | c/factor-of-2.c:12-27 | main checks the 999999999 even numbers from 2 below two thousand million and its assert never fails |
| IntSorting.Insert | c/silly_sorting/qsort_ints.c:41-42 | inserting adds exactly one element to the multiset |
| IntSorting.InsertOrdered | c/silly_sorting/qsort_ints.c:41-42 | inserting into an ordered sequence keeps it ordered |
| IntSorting.Sort | c/silly_sorting/qsort_ints.c:31-43 | the sorted sequence is a permutation of the input |
| IntSorting.SortOrdered | c/silly_sorting/qsort_ints.c:31-43 | the sorted sequence is in the comparator's order |
| IntSorting.OrderedUnique | c/silly_sorting/qsort_ints.c:41-42 | two ordered sequences with the same elements are equal, so qsort's result does not depend on its algorithm |
| IntSorting.SortIsUnique | c/silly_sorting/qsort_ints.c:41-42 | every ordered permutation of the input is the sorted sequence |
| IntSorting.Qsort | c/silly_sorting/qsort_ints.c:41-42 | qsort_r leaves the first n elements sorted and the rest of the array unchanged |
| SillySorting.AllIntsPermutation | c/silly_sorting/silly_sorts.c:177-187 | a permutation of C ints holds only C ints |
| SillySorting.CompareInts | c/silly_sorting/qsort_ints.c:5-21 | compare_ints returns -1, 0 or 1: 0 exactly for equal values and negative exactly when a comes first, ascending when descending is 0 and descending otherwise |
| SillySorting.CompareIntsIsOrder | c/silly_sorting/qsort_ints.c:5-21 | the comparison is antisymmetric and reflexive, and non-positive exactly when a may come before b |
| SillySorting.IntComparator | c/silly_sorting/qsort_ints.c:23-29 | int_comparator compares the two ints behind its pointers in the order the context int selects |
| SillySorting.QsortInts | c/silly_sorting/qsort_ints.c:31-43 | qsort_ints sorts the first num_elements ascending and leaves the rest alone |
| SillySorting.QsortIntsSorts | c/silly_sorting/qsort_ints.c:31-43 | what qsort_ints leaves is ascending and a permutation of its input |
| SillySorting.TestSortCheck | c/silly_sorting/test_sort.c:34-41 | as written, the check accepts exactly the arrays in which no element is below the first |
| SillySorting.TestSortCheckMissesDisorder | c/silly_sorting/test_sort.c:34-41 | every sorted array passes that check, but so does the unsorted [0, 2, 1] |
| SillySorting.TestSort | c/silly_sorting/test_sort.c:13-46 | seven values rand() % 10 sorted by qsort_ints always pass the check, so the program exits with success |
| SillySorting.SwapPermutes | c/silly_sorting/silly_sorts.c:183-185 | swapping two elements keeps the multiset |
| SillySorting.Shuffled | c/silly_sorting/silly_sorts.c:177-187 | the shuffled sequence is a permutation of the input |
| SillySorting.Shuffle | c/silly_sorting/silly_sorts.c:177-187 | _shuffle leaves the array as the swaps with the drawn positions make it, a permutation of what it held |
| SillySorting.CheckSorted | c/silly_sorting/silly_sorts.c:198-205 | the pass in _random_sort reports sorted exactly when the array is non-decreasing |
| SillySorting.RandomSort | c/silly_sorting/silly_sorts.c:189-212 | random_sort keeps the elements, and when it stops sorted the array is the ascending arrangement of what it was given |
| SillySorting.RouteFor | c/silly_sorting/silly_sorts.c:109-123 | SHUFFLE sends every value to the positive list with a delay below num_elements; SORT sends non-negative values to the positive list and negative ones to the negative list, each delayed by its absolute value |
| SillySorting.SortRouted | c/silly_sorting/silly_sorts.c:114-122 | the values SORT routes to a list all have that list's sign |
| SillySorting.SortRoutedSplits | c/silly_sorting/silly_sorts.c:114-122 | the two lists together hold exactly the elements |
| SillySorting.Reverse | c/silly_sorting/silly_sorts.c:142-147 | reversal keeps length and elements |
| SillySorting.ReverseAt | c/silly_sorting/silly_sorts.c:142-147 | element i of the reversal is element len - 1 - i of the input |
| SillySorting.ReverseOrdered | c/silly_sorting/silly_sorts.c:142-147 | reversing a descending sequence gives an ascending one |
| SillySorting.RoutedSign | c/silly_sorting/silly_sorts.c:114-122 | whatever order the threads append in, each list holds only values of its sign |
| SillySorting.ByDelayOrdered | c/silly_sorting/silly_sorts.c:37-56 | values appended in order of their delays make the positive list ascending and the negative list descending |
| SillySorting.SignsConcatOrdered | c/silly_sorting/silly_sorts.c:142-147 | ascending negatives followed by ascending non-negatives are ascending |
| SillySorting.SleepSortSorts | c/silly_sorting/silly_sorts.c:167-170 | the reversed negative list followed by the positive list is the ascending arrangement of the elements |
| SillySorting.IntListHead.constructor | c/silly_sorting/silly_sorts.c:80-90 | a list head starts with the values it is given |
| SillySorting.SpliceNegOntoPos | c/silly_sorting/silly_sorts.c:142-148 | moving the negative nodes one by one onto the front of the positive list puts them there in reverse and empties the negative list |
| SillySorting.CopyBack | c/silly_sorting/silly_sorts.c:150-155 | the copy-back loop leaves the list's values in the array |
| SillySorting.SleepReorderAfterJoin | c/silly_sorting/silly_sorts.c:142-163 | after the threads are joined, the array holds the reversed negative arrivals followed by the positive ones |
| SillySorting.SleepSort | c/silly_sorting/silly_sorts.c:167-170 | sleep_sort leaves the array ascending, provided the threads append in order of their delays |
| SillySorting.SleepShuffle | c/silly_sorting/silly_sorts.c:172-175 | _sleep_shuffle leaves the values in the order they arrived, a permutation of the input |
| NameToUsers.MaxSize | c++/map-of-str-to-ptrlist.cpp:124-127 | max_size is the largest count whose byte size fits in a size_t |
| NameToUsers.WithinMaxSize | c++/map-of-str-to-ptrlist.cpp:124-127 | a count is within max_size exactly when its byte size fits in a size_t |
| NameToUsers.Allocate | c++/map-of-str-to-ptrlist.cpp:86-99 | allocate returns NULL exactly for n 0, throws bad_alloc exactly when n exceeds max_size or malloc fails, and otherwise gives a block of n * sizeof(T) bytes under the allocator's key |
| NameToUsers.AllocateRefusesOverflow | c++/map-of-str-to-ptrlist.cpp:90-93 | with malloc succeeding, allocate throws exactly when n * sizeof(T) would overflow size_t |
| NameToUsers.Rebind | c++/map-of-str-to-ptrlist.cpp:72-75 | converting an allocator to another element type keeps its key |
| NameToUsers.SameAllocatorIsKeyEquality | c++/map-of-str-to-ptrlist.cpp:134-144 | allocators compare equal exactly when their keys do, so equality is symmetric and transitive and survives rebinding |
| NameToUsers.HostUser.constructor | c++/map-of-str-to-ptrlist.cpp:155-158 | a user copies id and host, defaulting a null id to "" and a null host to "localhost" |
| NameToUsers.WithId | c++/map-of-str-to-ptrlist.cpp:184-188 | the users with a given id are a subsequence all carrying that id |
| NameToUsers.GroupedByIds | c++/map-of-str-to-ptrlist.cpp:180-189 | the map has a key exactly for each id in use, and each key's list holds the users with that id in array order |
| NameToUsers.EachUserInOneList | c++/map-of-str-to-ptrlist.cpp:184-188 | every user is in the list under its own id and in no other list |
| NameToUsers.WithIdHolds | c++/map-of-str-to-ptrlist.cpp:184-188 | every user is among those with its id |
| NameToUsers.WithIdCount | c++/map-of-str-to-ptrlist.cpp:184-188 | the list for a name is as long as the number of users with that id |
| NameToUsers.Registry.constructor | c++/map-of-str-to-ptrlist.cpp:31-32 | the program starts with no user array and an empty map |
| NameToUsers.Registry.BuildNameToUsers | c++/map-of-str-to-ptrlist.cpp:180-189 | build_name_to_users does nothing without users and otherwise replaces the map by the users grouped by id |
| NameToUsers.Registry.ClearAllUsers | c++/map-of-str-to-ptrlist.cpp:167-178 | clear_all_users does nothing without users and otherwise empties the map and drops the array |
| NameToUsers.Registry.LoadAllUsers | c++/map-of-str-to-ptrlist.cpp:191-223 | load_all_users installs the 15 sample users and the map built from them: six under "eve", the first with host "localhost", and two under "alice" |
| NameToUsers.NewSampleUsers | c++/map-of-str-to-ptrlist.cpp:205-219 | the 15 sample users: two alices, six eves, the first of them with host "localhost", and seven others |
| NameToUsers.SampleLists | c++/map-of-str-to-ptrlist.cpp:205-222 | grouping the sample users gives the eves' list and the alices' list in array order |
| NameToUsers.WithIdAppend | c++/map-of-str-to-ptrlist.cpp:184-188 | pushing back user by user: the users with an id in a + b are those in a followed by those in b |
| NameToUsers.WithIdAbsent | c++/map-of-str-to-ptrlist.cpp:184-188 | a name no user has gets no users |
| Parallel.ParseArgs | python/parallel.py:47-62 | main runs exactly when it gets one or two arguments, the first all digits and at least 1 and any second all digits; the threshold is the second argument or 3 |
| Parallel.DoTask | python/parallel.py:27-39 | do_task records 1 and does not sleep exactly when its draw is at least the threshold, and otherwise sleeps for the draw and records 0 |
| Parallel.StoreAfter | python/parallel.py:68-75 | after the joins, the shared dictionary holds exactly the tasks whose worker ran, whichever they are, each with do_task's status for its draw |
| Parallel.Sleeps | python/parallel.py:38 | the sleeps tasks 1 .. n make are draws below the threshold |
| Parallel.Summary | python/parallel.py:79-83 | the report holds, for each task 1 .. n, its recorded status or -1 when none was recorded |
| Parallel.RunTasks | python/parallel.py:46-85 | main returns 1 with nothing run on bad arguments; otherwise it reports each task's status, the sleeps made are exactly the below-threshold draws of the tasks that ran, in task order, and it returns 0 exactly when every task reported 0 |
| Parallel.RunWorkers | python/parallel.py:68-75 | starting and joining the workers leaves the shared dictionary as StoreAfter describes and makes exactly the sleeps Sleeps lists |
| Parallel.ReportStatuses | python/parallel.py:78-85 | the summary loop prints each task's status or -1 in id order and returns 0 exactly when every printed status is 0, and 1 otherwise |
| Parallel.AllRanSummary | python/parallel.py:79-83 | when every worker ran, the printed statuses are do_task's status for each draw, in task order |
| Parallel.SuccessIffEveryTaskSucceeded | python/parallel.py:78-85 | main exits 0 exactly when every task ran and drew below the threshold |
| Parallel.ThresholdZeroFailsEveryTask | python/parallel.py:28-37 | with threshold 0 every task aborts or is missing, so none reports 0 and none sleeps |
| Parallel.DeadWorkerIsMissing | python/parallel.py:80-83 | a task that never recorded a status is reported as -1 and makes the exit code 1 |
| Parallel.SleepsMatchSuccesses | python/parallel.py:31-39 | there are exactly as many sleeps as tasks reporting 0 |
| Parallel.ScenarioDeadWorker | python/parallel.py:80-83 | a dead worker between two live ones is reported as -1 between two 0s, and only the two live tasks sleep |
| Parallel.UsageCases | python/parallel.py:47-62 | no arguments, "0", "x", a threshold "-1" and three arguments are refused; "2" alone gives 2 tasks with threshold 3 |
| Parallel.ScenarioAllBelowThreshold | python/parallel.py:78-85 | ten tasks whose draws are all below 5 all report 0 |
| Parallel.ScenarioTwoAborts | python/parallel.py:78-85 | ten tasks with threshold 10, two of which draw 10, report eight 0s and two 1s and fail |

## Left out

- Printing, argument parsing and timing in the `main` functions are not modelled. This covers getopt in c/pipe-open.c, c/simple_stats/ss_options.c and c/silly_sorting/ts_options.c, `atoi` of the arguments, and the benchmark loops of c/rev_u8.c, c/digit-to-int.c and c/string-hashing.c. A model `main` returns the exit code and the list of values it would print.
- Concurrency is replaced by a given order of events:
  - the worker processes, Manager dictionary and lock of python/parallel.py run one after another;
  - the pthreads of the sleep sort are replaced by the order in which their values reach the lists;
  - the mutex-protected `_pthread_push` is not modelled.
- Operating-system and library calls are not modelled: `glob`, `popen`/`fgets`/`pclose`, `tcgetattr`/`crypt_r` (`fgetpass`), `register_chrdev`/`unregister_chrdev`, `printk` and `free`. Their results are parameters where the modelled code branches on them.
- Floating point is not modelled: the simple_stats accumulator and `sscanf` in c/simple_stats, `cga_rgb24_to_strength`, and jump hashing in c/string-hashing.c.
- StringHashing: `paul_hsieh_super_fast_hash` and `murmur_hash_str` are not modelled, because they read unaligned host-endian words through pointer casts. `xorrot_hash_str` is not modelled either, because it shifts by the full word width, which is undefined. `sip_hash_str` is not modelled: it is a keyed 64-bit construction outside the file's family of simple hashes. `jumphash` and the simple_stats helpers use floating point. `_bucket_for` is modelled on its modulo path only.
- Union64: the type-punned byte and word views of `union union64` are host-dependent and not modelled.
- BitFields: main's `teeny_t` bit-field assignments and printing are not modelled.
- Float32Graph: the text graph that main prints is not modelled.
- Itoan.Itoan: snprintf's decimal path is modelled as "%d" with snprintf's truncation. The NEED_SIGNED_NON_BASE10_ITOA build, which reads n as signed in the other bases, is not modelled. The default build is.
- FactorialSizeT: `1ul << half` with a 32-bit unsigned long and a 64-bit size_t (LLP64) shifts by the full width. The model reads it as 2^half - 1, the evident intent.
- CachedFactorial.FactorialCached: requires an unsigned long of at least 4 bytes, where the 10! table entry fits.
- CachedFactorial.SelfTest: covers 4- and 8-byte unsigned longs only.
- OctalRoundTrip.RoundTripStringAsWritten: requires strlen + 1 not to be a multiple of 256. For those lengths out_size is 0 and `malloc(0)` may return NULL, which the source does not check.
- PermuteArray.Run: requires len <= 21. From 22 on, permute itself divides by wrapped factorials, and the arrangements it makes are not specified. The `malloc` failures of main are not modelled.
- PermuteArrayLexicographic.Run: requires len <= 21, for the same reason. A permutation number given on the command line must be below len!, because nothing in the source checks it. The `malloc` failures of main are not modelled.
- PermuteArray.Permute: requires permutation < len!. Beyond that the source's swap indices can leave the array.
- PermuteArraySwap.Run: requires a platform whose size_t holds every ulfactorials entry (TableFits): Max_size_t_factorial is known, or size_t is at least as wide as unsigned long. Elsewhere, as with a 16-bit size_t and a 32-bit unsigned long, the inlined factorial_size_t returns truncated table entries. The guard then admits lengths whose factorial does not fit (GuardPassesOnNarrowSizeT), and the listing that permute makes with truncated n_sub_perms is not modelled. PermuteArraySwap.Permute, ShowAll, ShowNext and GuardRejectsOverflow carry the same requirement.
- OctalBytes.EncodeSizeNeeded: `bytes_len * 8` is computed without size_t wrap-around. The model is exact for lengths up to SIZE_MAX / 8. Beyond that the source's product wraps and reports a size too small, which no buffer that fits in memory reaches.
- OctalBytes.DecodeSizeNeeded: `octal_str_len * 3` is likewise computed without wrap-around, exact up to SIZE_MAX / 3.
- Globdemo.GrownLen: `old_len * 2` is not wrapped. The list already holds old_len pointers, so old_len is at most SIZE_MAX / 8 and doubling it cannot wrap.
- PermuteArrayRecursive.Permute: the callback is modelled as the list of snapshots it receives, not as a function pointer.
- SieveOfEratosthenes.Run: requires max below 2^63, so neither `j += i` nor `++i` wraps in uint64_t. Allocation failure and the verbose messages are not modelled.
- MinionStats.RollStats, MinionStats.RollAll: require every stat and the running bonus total to fit in an int. The source does not check this.
- MinionStats.CharstatsCmpDesc: requires the difference of the bonus totals to fit in an int.
- ZString.ZStringSizeNew, ZString.ZStringNew: a C string is its characters before the NUL, so the string argument holds no NUL.
- ZString.ZStringDeleteRef: `free` is modelled as dropping the reference.
- Globdemo.AddAll: the paths `glob` matched are a parameter. strdup and calloc succeed in it.
- VarArgsDemo.AInt: requires x >= 0, the case main uses. For a negative int, a_int writes `'0' + i` with i negative, which is not a digit.
- VarArgsDemo.FakeSnprintf: models the corrected function (see Findings). It requires a well-formed format whose "%d" and "%s" have arguments of the right type. It also requires every directive to start inside the buffer: `max - bpos` wraps in size_t otherwise. ShortTextFits shows that this holds whenever the text fits.
- SimpleStatsLex.LexColVal: requires the field to fit in val_buf, which the source does not check. The line includes its NUL, so a delimiter always exists.
- Ecrypt.ChompCrlf: requires the scan to stay inside the array: a NUL or max comes first.
- PipeOpen.EchoLines: requires each line fgets returns to be non-empty and to fit in the buffer.
- MemLkm.MemRead: requires the user buffer to be distinct from the device buffer. A failed copy_to_user is taken to write a prefix of the user buffer and leave the rest alone; what a fault does to user memory beyond that is not modelled.
- MemLkm.MemWrite: a failed copy_from_user is modelled as the kernel documents it, a copied prefix followed by zero padding of the uncopied bytes; faults themselves are a parameter (notCopied), not modelled.
- MemLkm: `mem_open` and `mem_release` only return 0 and are not modelled.
- SillySorting.RandomSort: the draws are finite, so the model stops when they run out, where the C loop would draw again. `random_sleep_sort` is the same loop with the sleep shuffle and is not modelled separately.
- SillySorting.SleepSort: assumes each thread appends its value in order of its delay. The source relies on sleep timing for this.
- NameToUsers.Registry.LoadAllUsers: the `tracking_malloc` failure exit is not modelled. `print_name_to_users` is I/O and is not modelled. Nor are the allocator's `construct`, `destroy` and `deallocate`, which only forward to placement new, the destructor and `free`.
- Parallel.ParseArgs: `str.isdigit` is read as ASCII digits only. Python also accepts other Unicode digits.
- Parallel.RunTasks: the worker processes are run one after another. Their draws are a parameter, one `Option` per task, with None for a worker that died before writing. Process start-up, concurrent sleeping, the lock and the real interleaving are not modelled, so the sleeps are listed in task order, not in wall-clock order.

## Findings

| source | as written | input that shows it | evidently intended | confidence | as-written member | corrected member |
|---|---|---|---|---|---|---|
| c/octal-bytes.c:310 | `uint8_t out_size = bytes_len + 1` truncates the output size modulo 256 | a 255-byte string: out_size is 0 and the decode has no room | a `size_t` out_size | not executed | OctalRoundTrip.RoundTripStringAsWritten | OctalRoundTrip.RoundTripString |
| c/bit-fields.c:55-61 | the check exits only when bits > len, but the NUL goes at buf[bits] | bits == len writes buf[len], one past the buffer | exit when bits >= len | not executed | BitFields.UtobFullWidthOverrun | BitFields.Utob |
| c/factorial_size_t.c:216-218 | the unsigned long table entry is stored into size_t without a range check | 16-bit size_t, 32-bit unsigned long, n = 9 gives 35200 | 0 when n! does not fit in size_t | not executed | FactorialSizeT.NarrowSizeTTruncates | FactorialSizeT.FactorialSizeT |
| c/var-args-demo.c:87-92 | when a plain character does not fit, only bpos moves, so the loop never ends | buflen 2, format "ab" | advance fpos in both branches | not executed | VarArgsDemo.PlainStepsStuck | VarArgsDemo.FakeSnprintf |
| c/var-args-demo.c:76-85 | the default case advances fpos twice inside the branch and again by 2 after the switch | "%qab" prints "%q" and skips "ab"; "%q" alone reads past the NUL | advance fpos by 2 in total | not executed | VarArgsDemo.OtherSkipsTwo | VarArgsDemo.FakeSnprintf |
| c/var-args-demo.c:74 | a_str is given max instead of the room left, max - bpos | buflen 4, "ab%s" with "xyz" writes buf[4] | pass max - bpos, as "%d" does | not executed | VarArgsDemo.StrOverruns | VarArgsDemo.FakeSnprintf |
| c/permute-array.c:98 | the loop bound factorial(len) wraps in size_t | len 21 stops at 14197454024290336768 < 21! | refuse a len whose factorial does not fit | not executed | PermuteArray.VisitedShortAt21 | PermuteArraySwap.Run |
| c/silly_sorting/test_sort.c:34-41 | `last` is set to array[0] once and never advanced | [0, 2, 1] passes the check | compare each element with its predecessor | not executed | SillySorting.TestSortCheckMissesDisorder | SillySorting.CheckSorted |
