# rle-zoo in Dafny

rle-zoo is a collection of byte-oriented run-length codecs written in C. It has four wire formats:

- **Goldbox**: the format of the SSI Gold Box games.
- **PackBits**: Apple TN1023.
- **PCX**: ZSoft.
- **ICNS**: the Apple icon format.

The repository also holds the pieces these codecs are built from or checked against:

- the run counters and an experimental scan parser;
- per-byte op mappings, and a generator that checks them;
- a table-driven encoder size pass;
- a table-driven decode walker;
- an escape-sequence expander used by the test tools;
- the registry that picks a codec by name.

This project models that core and proves properties of the model.

Every codec is described at three levels:

1. **Commands.** A pure function chooses the run-length commands the compressor emits for an input. The commands are REP (one byte repeated), CPY (literal bytes) and LIT (the single raw byte of PCX). See `Cmds` and each codec's `CommandsAt`/`FirstAt`.
2. **Wire format.** A pure function frames those commands in the variant's op bytes (`Frame`, `Encode`). A pure decoder reads the bytes back (`Decode`).
3. **Methods.** Imperative methods over `dest: array?<uint8>` and `dlen` follow the C cursor loops. Their loop invariants tie each method to the pure functions, including:
   - the size probe with `dest == NULL`;
   - writes clipped to `dlen`;
   - the ICNS error returns.

The round trip `Decode(Encode(s)) == s` is proved for every codec. So is the probe property: the probe returns the exact length that a call with a large enough buffer writes. Buffer contents after a call are stated by `Bytes.Holds`: the first `min(wp, dlen)` cells hold the output, and every other cell is unchanged.

Where the code and its comments disagree, the model follows the code:

- **Goldbox REP count.** A Goldbox REP can cover 127 bytes, not the 126 that the header comment of rle_goldbox.h states. The count loop stops at 126 repeated pairs, and then one more byte is added.
- **PackBits 0x80 byte.** On the reserved op byte 0x80, packbits_decompress skips two bytes: the op byte is consumed, and then `++src` skips the byte after it. TN1023 and the comment at that point describe skipping only the flag byte. The model skips two bytes, as rle-parser.c does for its NOP. The compressors never emit 0x80, so the round trips are unaffected.
- **ICNS REP op byte.** The ICNS REP op byte is `cnt + 125`, so a REP of 3 is 0x80.

C integers are modelled explicitly:

- `uint8_t` is the subset type `Bytes.uint8`.
- Conversions to `uint8_t` are written out as `Bytes.ToByte`. Readings as `int8_t` are written out as `Bytes.Int8`.
- The ICNS error code `~(rp & (SIZE_MAX >> 1))` is read as a signed 64-bit value (`Icns.ErrCode`).
- `ssize_t` results are Dafny `int`.

## Model

| member | source | states |
|---|---|---|
| Bytes.ToByte | rle_goldbox.h:32 | conversion to `uint8_t`: identity on 0..255, adds 256 to -256..-1, never grows a non-negative value |
| Bytes.Int8 | rle-genops.c:42 | the `int8_t` reading of a byte lies in -128..127 and converts back to the byte |
| Bytes.Repeat | rle_goldbox.h:73-75 | a run of `n` copies of one byte: length `n`, every element that byte |
| Bytes.CopyClipped | rle_goldbox.h:52-53 | the bounded copy loop writes `data` at `at..` but only below `dlen`, leaving every other cell unchanged |
| Bytes.Emit | rle_packbits.h:56-60 | appending a piece of output keeps `Holds`: the buffer holds the output so far clipped to `dlen`, the rest untouched |
| Names.FindByName | rle-variant-selection.h:40-47 | returns the first index whose name equals the argument, and None exactly when no entry has that name |
| Runs.EqualPairs | rle_goldbox.h:25-26 | the REP scan counts at most `max` pairs and never runs past the input |
| Runs.EqualPairsUniform | rle_goldbox.h:25 | every byte the REP scan counts equals the first |
| Runs.EqualPairsRun | rle-parse.h:130-136 | one more than the REP scan is `rle_count_rep` with a maximum one higher |
| Runs.LiteralRun | rle_packbits.h:49-50 | the literal scan counts at most `max` bytes, all within the input |
| Runs.LiteralRunIsCpyRun | rle-parse.h:145-149 | the literal scan of packbits_compress is `rle_count_cpy` |
| Runs.LiteralRunDistinct | rle_packbits.h:49 | every counted literal is the last byte or differs from its successor |
| Runs.ScanEqual | rle_packbits.h:29-31 | the REP counting loop computes EqualPairs |
| Runs.ScanLiterals | rle_packbits.h:49-50 | the literal counting loop computes LiteralRun, and counts at least one byte when the first byte is last or differs from its successor |
| RleParse.Code | rle-parse.h:16-22 | the enum values of `RLE_OP` are 0..4 |
| RleParse.OpCstr | rle-parse.h:52-72 | `rle_op_cstr` gives "UNKNOWN" exactly for values outside the enum |
| RleParse.OpNamesDistinct | rle-parse.h:52-72 | every op has a name, and distinct ops have distinct names |
| RleParse.RepRun | rle-parse.h:128-136 | `rle_count_rep`: at most min(len, max), zero exactly when len or max is 0, all counted bytes equal, stopped by a different byte unless a bound is hit |
| RleParse.CpyRun | rle-parse.h:138-149 | `rle_count_cpy`: at most min(len, max), every counted byte differs from its successor, stopped by an equal pair unless a bound is hit |
| RleParse.CountRep | rle-parse.h:130-136 | the counting loop computes RepRun of `src[0..len)` and reads nothing beyond it |
| RleParse.CountCpy | rle-parse.h:145-149 | the counting loop computes CpyRun of `src[0..len)` and reads nothing beyond it |
| RleParse.CpyRunUnique | rle-parse.h:147 | any count whose bytes all differ from their successors and that stops at a bound or an equal pair is CpyRun |
| RleParse.RepRunUniform | test_parse.c:57-86 | on n equal bytes `rle_count_rep` returns min(n, max) |
| RleParse.RunsOfDistinct | test_parse.c:123-159 | on input without equal neighbours `rle_count_cpy` returns min(n, max) and `rle_count_rep` returns 1, or 0 on empty input |
| RleParse.CpyRunOfPair | test_parse.c:87-92 | `rle_count_cpy` is 0 when the first two bytes are equal |
| RleParse.CountExamples | test_parse.c:104-182 | "A" gives CPY 1, "AB" gives 2, "ABB" gives 1, "AA" gives 0, and "BBBBA" gives REP 4 |
| RleParse.ParseRle | rle-parse.h:75-121 | the `parse_rle` loop with its early returns computes ParseRleSpec |
| RleParse.ParseRleSpec | rle-parse.h:75-121 | with `1 <= min_rep <= max_rep`: a REP exactly when the input starts with at least `min_rep` equal bytes, then counting that run cut at `max_rep` (stored as `uint8_t`); with also `min_rep <= max_cpy < 256`, a CPY counts at most `max_cpy` |
| RleParse.ScanProperties | rle-parse.h:83-116 | along the scan, the count never exceeds the input, and a REP result covers at least `min_rep` bytes, all equal to the first |
| RleParse.ParseRleSound | rle-parse.h:75-121 | `parse_rle` returns a count within the input, and a REP only over at least `min_rep` equal bytes |
| RleParse.UniformScan | rle-parse.h:84-109 | while the scan stays inside a leading run of at least `min_rep` equal bytes it ends in a REP of that run, cut at `max_rep` |
| RleParse.ParseRleRep | rle-parse.h:84-116 | with `1 <= min_rep <= max_rep`, `parse_rle` returns a REP if and only if the input starts with at least `min_rep` equal bytes, and the REP counts that run cut at `max_rep` |
| RleParse.ScanCpyBound | rle-parse.h:83-116 | along the scan, once `min_rep <= max_cpy`, a CPY result counts at most `max_cpy` bytes |
| RleParse.ParseRleCpyBound | rle-parse.h:96-104 | with `1 <= min_rep <= max_rep` and `min_rep <= max_cpy`, a CPY result of `parse_rle` counts at most `max_cpy` bytes |
| RleParse.ParseRleExamples | test_parse.c:197-211 | with params {1,8,3,10}: "" is CPY 0, "a" is CPY 1, "aBBB" is CPY 1, "aaBBB" is CPY 2, and the other tabled CPY rows |
| RleParse.ParseRleLimitExamples | test_parse.c:212-215 | "aaa" and "aaaB" are REP 3, "aaBBaaBBaa" is CPY 8, and "aaaaaaaaaa" is REP 10 |
| Goldbox.DifferingPairs | rle_goldbox.h:41-43 | the CPY scan counts at most `max` bytes and never reaches the last input byte |
| Goldbox.DifferingPairsDistinct | rle_goldbox.h:42 | every byte the CPY scan counts differs from its successor |
| Goldbox.FirstAt | rle_goldbox.h:24-45 | the next command is a REP of 1..127 copies of `src[rp]`, or a CPY of 1..126 literals, and lies within the input |
| Goldbox.FirstCovers | rle_goldbox.h:29-56 | the command expands to exactly the input bytes it consumes |
| Goldbox.FirstIsMaximal | rle_goldbox.h:25-43 | a REP takes the whole run (`rle_count_rep` up to 127), and a CPY only bytes that differ from their successor |
| Goldbox.CommandsCover | rle_goldbox.h:21-57 | the commands chosen from `rp` on expand back to `src[rp..]` |
| Goldbox.CommandsStep | rle_goldbox.h:21-57 | the command list is the first command followed by the commands after it |
| Goldbox.CommandsInLimits | rle_goldbox.h:25-45 | every command is a REP of 1..127 or a CPY of 1..126, so each can be framed |
| Goldbox.LastIsRep | rle_goldbox.h:29 | the last command of a non-empty input is a REP, because a CPY never takes the final byte |
| Goldbox.RepOp | rle_goldbox.h:32 | a REP op byte `-(int8_t)cnt` has the top bit set |
| Goldbox.RepCount | rle_goldbox.h:70 | a top-bit op byte decodes to a REP of 1..128 |
| Goldbox.RepOpInverse | rle_goldbox.h:69-70 | the decoder's `-(int8_t)b` inverts the encoder's `-(int8_t)cnt` in both directions |
| Goldbox.FrameCmd | rle_goldbox.h:31-54 | a framed REP is 2 bytes and a framed CPY is its count plus 1 |
| Goldbox.Frame | rle_goldbox.h:21-57 | framed commands take 2 bytes per REP plus `cnt + 1` per CPY |
| Goldbox.EncodeAt | rle_goldbox.h:21-57 | the output from `rp` on is as long as its commands' framed size |
| Goldbox.Encode | rle_goldbox.h:17-61 | the compressed length is 2 per REP plus `cnt + 1` per CPY |
| Goldbox.EncodeStep | rle_goldbox.h:28-56 | the output is the first command's frame followed by the rest |
| Goldbox.DecodeSize | rle_goldbox.h:66-87 | from any position of a well-formed stream, the decoded length is at most 64 bytes per input byte and at least one byte per two input bytes |
| Goldbox.Decode | rle_goldbox.h:63-91 | a well-formed stream decodes to at most 64 bytes per input byte and at least one per two |
| Goldbox.DecodeShiftAt | rle_goldbox.h:63-91 | a stream embedded at an offset in a longer one is well-formed exactly when it is on its own, and then decodes the same from every position |
| Goldbox.OpShiftAt | rle_goldbox.h:66-87 | the op byte at a position of an embedded stream, and the byte or literals it takes, are those of the stream on its own |
| Goldbox.DecodeShift | rle_goldbox.h:63-91 | decoding from an offset does not depend on the bytes before it |
| Goldbox.DecodeFrameCmd | rle_goldbox.h:66-87 | a framed command followed by a well-formed stream is well-formed, and decodes to the command's expansion followed by the stream's |
| Goldbox.FrameDecodes | rle_goldbox.h:63-91 | framed commands are well-formed and decode to their expansion |
| Goldbox.RoundTrip | rle_goldbox.h:17-91 | compress's output is well-formed and decompresses to the input |
| Goldbox.SingleByteExample | rle_goldbox.h:29-36 | "A" compresses to FF 41 |
| Goldbox.Step | rle_goldbox.h:22-56 | one iteration consumes the first command and emits its frame |
| Goldbox.StepRep | rle_goldbox.h:25-38 | a repeat count above 1, or the single final byte, is the REP FirstAt gives |
| Goldbox.StepCpy | rle_goldbox.h:41-56 | otherwise the differing-byte count is at least 1 and is the CPY FirstAt gives |
| Goldbox.ScanDiff | rle_goldbox.h:42-43 | the CPY counting loop computes DifferingPairs |
| Goldbox.NextOp | rle_goldbox.h:22-56 | the body of one iteration yields the next command's frame and length |
| Goldbox.CompressPass | rle_goldbox.h:21-57 | one iteration keeps `output so far + rest of Encode == Encode` |
| Goldbox.CompressKeeps | rle_goldbox.h:21-57 | the loop invariant is kept by one command step |
| Goldbox.Compress | rle_goldbox.h:17-61 | returns the length of `Encode(src)` when probing or when it fits; otherwise stops with `dlen <= wp`; the buffer holds the output clipped to `dlen` |
| Goldbox.Decompress | rle_goldbox.h:63-91 | on well-formed input, returns the length of `Decode(src)` when probing or when it fits; otherwise stops with `dlen <= wp`; the buffer holds the output clipped to `dlen` |
| Packbits.FirstAt | rle_packbits.h:26-53 | the next command is a REP of 2..128 copies of `src[rp]` or a CPY of 1..128 literals within the input |
| Packbits.FirstCovers | rle_packbits.h:35-63 | the command expands to exactly the input bytes it consumes |
| Packbits.FirstIsMaximal | rle_packbits.h:29-50 | a run of at least 2 is a REP of the whole run up to 128; otherwise a CPY of `rle_count_cpy` up to 128, whose bytes are last or differ from their successor |
| Packbits.CommandsCover | rle_packbits.h:25-64 | the commands from `rp` on expand back to `src[rp..]` |
| Packbits.CommandsStep | rle_packbits.h:25-64 | the command list is the first command followed by the commands after it |
| Packbits.CommandsInLimits | rle_packbits.h:36-53 | every command can be framed: a REP of 2..128 or a CPY of 1..128 |
| Packbits.RepOp | rle_packbits.h:38 | the REP op byte `257 - cnt` lies in 0x81..0xFF |
| Packbits.RepCount | rle_packbits.h:78 | an op byte above 0x80 decodes to a REP of 2..128 |
| Packbits.RepOpInverse | rle_packbits.h:76-78 | `257 - b` inverts `257 - cnt` in both directions, never hits 0x80, and a CPY op byte `cnt - 1` stays below 0x80 |
| Packbits.FrameCmd | rle_packbits.h:37-60 | a framed REP is 2 bytes and a framed CPY is its count plus 1 |
| Packbits.Frame | rle_packbits.h:25-64 | framed commands take 2 bytes per REP plus `cnt + 1` per CPY |
| Packbits.EncodeAt | rle_packbits.h:25-64 | the output from `rp` on is as long as its commands' framed size |
| Packbits.Encode | rle_packbits.h:21-68 | the compressed length is 2 per REP plus `cnt + 1` per CPY |
| Packbits.EncodeStep | rle_packbits.h:26-63 | the output is the first command's frame followed by the rest |
| Packbits.DecodeSize | rle_packbits.h:73-100 | from any position of a well-formed stream, the decoded length is at most 64 bytes per input byte |
| Packbits.Decode | rle_packbits.h:70-104 | a well-formed stream decodes to at most 64 bytes per input byte |
| Packbits.ExampleScans | test_example.c:15 | the scans at each command start of "ABBCCCDDDDEEEEE" |
| Packbits.Example | test_example.c:15-22 | "ABBCCCDDDDEEEEE" compresses to 00 41 FF 42 FE 43 FD 44 FC 45 |
| Packbits.DecodeShiftAt | rle_packbits.h:70-104 | a stream embedded at an offset in a longer one is well-formed exactly when it is on its own, and then decodes the same from every position |
| Packbits.DecodeShift | rle_packbits.h:70-104 | decoding from an offset does not depend on the bytes before it |
| Packbits.DecodeFrameCmd | rle_packbits.h:73-100 | a framed command followed by a well-formed stream is well-formed and decodes to the command's expansion followed by the stream's |
| Packbits.FrameDecodes | rle_packbits.h:70-104 | framed commands are well-formed and decode to their expansion |
| Packbits.RoundTrip | rle_packbits.h:21-104 | compress's output is well-formed and decompresses to the input |
| Packbits.Step | rle_packbits.h:26-63 | one iteration consumes the first command and emits its frame |
| Packbits.StepRep | rle_packbits.h:29-45 | a repeat count above 1 is the REP FirstAt gives |
| Packbits.StepCpy | rle_packbits.h:47-63 | otherwise the literal count is at least 1 and is the CPY FirstAt gives |
| Packbits.CompressKeeps | rle_packbits.h:25-64 | the loop invariant is kept by one command step |
| Packbits.DecodeStep | rle_packbits.h:73-100 | one decoder iteration emits its piece and moves to a well-formed rest |
| Packbits.NextOp | rle_packbits.h:26-63 | the body of one iteration yields the next command's frame and length |
| Packbits.CompressPass | rle_packbits.h:25-64 | one iteration keeps `output so far + rest of Encode == Encode` |
| Packbits.Compress | rle_packbits.h:21-68 | returns the length of `Encode(src)` when probing or when it fits; otherwise stops with `dlen <= wp`; the buffer holds the output clipped to `dlen` |
| Packbits.Decompress | rle_packbits.h:70-104 | on well-formed input, returns the length of `Decode(src)` when probing or when it fits; otherwise stops with `dlen <= wp`; the buffer holds the output clipped to `dlen` |
| Pcx.FirstAt | rle_pcx.h:25-47 | the next command is a REP of 1..63 copies of `src[rp]` or the raw byte `src[rp]` |
| Pcx.OrIsAdd | rle_pcx.h:33 | OR-ing 0xC0 with a count below 64 adds 0xC0 |
| Pcx.TopBits | rle_pcx.h:30 | `(b & 0xC0) == 0xC0` holds exactly for bytes of 0xC0 or more |
| Pcx.LowBits | rle_pcx.h:63 | `b & 0x3F` is `b - 0xC0` for such bytes |
| Pcx.FrameCmd | rle_pcx.h:30-46 | a framed REP is 2 bytes and a raw byte 1 |
| Pcx.Frame | rle_pcx.h:24-48 | framed commands take 2 bytes per REP plus 1 per raw byte |
| Pcx.NextAt | rle_pcx.h:57-65 | every decoder iteration consumes at least one byte and stays within the input |
| Pcx.PieceAt | rle_pcx.h:58-69 | a byte of 0xC0 or more yields `b & 0x3F` copies (0..63), any other byte one copy of itself |
| Pcx.EncodeAt | rle_pcx.h:24-48 | the output for `src[rp..]` is at most two bytes per input byte |
| Pcx.EncodeFrom | rle_pcx.h:24-48 | the same once the command at `rp` is chosen |
| Pcx.Encode | rle_pcx.h:20-52 | pcx_compress writes at most twice the input length |
| Pcx.DecodeAt | rle_pcx.h:57-70 | the output for `e[rp..]` is at most 63 bytes per input byte |
| Pcx.Decode | rle_pcx.h:54-75 | pcx_decompress writes at most 63 times the input length |
| Pcx.FirstCovers | rle_pcx.h:27-46 | the command expands to exactly the input bytes it consumes |
| Pcx.FirstIsMaximal | rle_pcx.h:27-30 | a run of at least 2, or a byte of 0xC0 or more, is a REP of the run up to 63; any other byte is raw |
| Pcx.CommandsCover | rle_pcx.h:24-48 | the commands from `rp` on expand back to `src[rp..]` |
| Pcx.CommandsInLimits | rle_pcx.h:27-46 | every command can be framed |
| Pcx.EncodeFrames | rle_pcx.h:24-48 | the output is the frame of the commands |
| Pcx.EncodeSize | rle_pcx.h:20-52 | the compressed length is 2 per REP plus 1 per raw byte |
| Pcx.Examples | rle_pcx.h:30-46 | C5 is escaped as C1 C5, "AA" becomes C2 41, and "AB" stays raw |
| Pcx.DecodeShift | rle_pcx.h:54-75 | decoding from an offset does not depend on the bytes before it |
| Pcx.DecodeFrameCmd | rle_pcx.h:57-70 | a framed command decodes to its expansion followed by the rest |
| Pcx.FrameDecodes | rle_pcx.h:54-75 | framed commands decode to their expansion |
| Pcx.RoundTrip | rle_pcx.h:20-75 | decompressing compress's output reproduces the input |
| Pcx.Step | rle_pcx.h:25-47 | one iteration consumes the first command and emits its frame |
| Pcx.CountRun | rle_pcx.h:27 | the do-while counts one more than the equal pairs, up to 63 |
| Pcx.NextOp | rle_pcx.h:25-47 | the body of one iteration yields the next piece of Encode and its length |
| Pcx.Compress | rle_pcx.h:20-52 | returns the length of `Encode(src)` when probing or when it fits; otherwise stops with `dlen <= wp`; the buffer holds the output clipped to `dlen` |
| Pcx.Decompress | rle_pcx.h:54-75 | on any input, with a dangling REP taking 0, returns the length of `Decode(src)` when probing or when it fits; otherwise stops with `dlen <= wp`; the buffer holds the output clipped to `dlen` |
| Icns.ErrCode | rle_icns.h:24 | `~(rp & (SIZE_MAX >> 1))` is a negative signed 64-bit value |
| Icns.ErrCodeInverse | rle_icns.h:23-24 | for a position below 2^63 the error code is `-(rp + 1)` |
| Icns.Result | rle_icns.h:24-85 | a finished run returns its length, and a failed one a negative code from which the position can be decoded |
| Icns.LiteralRun | rle_icns.h:53-64 | the literal count stays within the input and within 128 |
| Icns.LiteralRunStarts | rle_icns.h:57-66 | when no REP starts at `rp` the literal count is at least 1 |
| Icns.LiteralRunNoTriple | rle_icns.h:56-64 | the literals hold no three equal bytes in a row, and stop only at 128, at the end, or before a triple |
| Icns.FirstAt | rle_icns.h:35-68 | the next command is a REP of 3..130 copies of `src[rp]` or a CPY of 1..128 literals within the input |
| Icns.RepOp | rle_icns.h:43 | the REP op byte `cnt + 125` is at least 0x80 |
| Icns.RepCount | rle_icns.h:99 | an op byte of 0x80 or more decodes to a REP of 3..130 |
| Icns.RepOpInverse | rle_icns.h:97-99 | `b - 125` inverts `cnt + 125` in both directions |
| Icns.FrameCmd | rle_icns.h:41-79 | a framed REP is 2 bytes and a framed CPY is its count plus 1 |
| Icns.Frame | rle_icns.h:31-82 | framed commands take 2 bytes per REP plus `cnt + 1` per CPY |
| Icns.Encode | rle_icns.h:27-86 | the unbounded compressed length is 2 per REP plus `cnt + 1` per CPY |
| Icns.CompressAt | rle_icns.h:27-86 | the bounded compressor never writes more than its room nor two bytes per input byte, and its error is a read position within the input |
| Icns.CompressFrom | rle_icns.h:41-81 | the same from a position with input left |
| Icns.DecodeAt | rle_icns.h:95-128 | the unbounded decoder reports an error only at a position after an op byte, within the stream |
| Icns.DecodeFrom | rle_icns.h:95-128 | the same from a complete op |
| Icns.DecodeSize | rle_icns.h:95-128 | the unbounded decoding from any position is at most 65 bytes per input byte |
| Icns.Decode | rle_icns.h:88-133 | the decoding is at most 65 bytes per input byte, and an error lies after the first byte and within the stream |
| Icns.DecompressAt | rle_icns.h:88-133 | the bounded decompressor never writes more than its room, and reports an error only at a position after an op byte, within the stream |
| Icns.DecompressFrom | rle_icns.h:95-128 | the same from an op at `rp` |
| Icns.NextAt | rle_icns.h:95-127 | every decoder iteration on a complete op consumes at least one byte within the input |
| Icns.FirstCovers | rle_icns.h:35-68 | the command expands to exactly the input bytes it consumes |
| Icns.FirstIsMaximal | rle_icns.h:36-39 | the command is a REP exactly when the run reaches 3, and then it takes the run up to 130 |
| Icns.CommandsCover | rle_icns.h:31-82 | the commands from `rp` on expand back to `src[rp..]` |
| Icns.CommandsInLimits | rle_icns.h:39-67 | every command can be framed |
| Icns.CommandsStep | rle_icns.h:31-82 | the command list is the first command followed by the commands after it |
| Icns.DecodeShiftAt | rle_icns.h:88-133 | a stream embedded at an offset in a longer one decodes to the same bytes from every position, with any error position moved by the offset |
| Icns.DecodeShift | rle_icns.h:88-133 | decoding from an offset does not depend on the bytes before it, and error positions shift by the offset |
| Icns.OpShiftAt | rle_icns.h:95-127 | one decoder step of an embedded stream (truncation, the bytes produced, the next position) does not depend on the bytes before it |
| Icns.DecodeFrameCmd | rle_icns.h:95-128 | a framed command followed by a complete stream decodes to the command's expansion followed by the stream's |
| Icns.FrameDecodes | rle_icns.h:88-133 | framed commands decode without error to their expansion |
| Icns.RoundTrip | rle_icns.h:27-133 | decompressing compress's output reproduces the input with no error |
| Icns.Examples | rle_icns.h:36-117 | 07 07 07 is REP 80 07, 01 02 is CPY 01 01 02, a lone REP op fails at 1, and a short CPY fails at 1 |
| Icns.CompressStep | rle_icns.h:41-81 | a command that does not fit stops with the error at `rp`, and one that fits is framed before the rest |
| Icns.CompressWalks | rle_icns.h:31-82 | the bounded compressor frames the command list until a command does not fit |
| Icns.Fitting | rle_icns.h:42-72 | counts how many leading commands fit in the room |
| Icns.FittingBounds | rle_icns.h:42-72 | the fitting commands fit and the next one does not; all fit exactly when the total size fits |
| Icns.FrameWithinUnbounded | rle_icns.h:41-71 | without a buffer every command is framed |
| Icns.FrameWithinFits | rle_icns.h:41-79 | with a buffer the output is the frame of the fitting commands |
| Icns.FrameWithinStops | rle_icns.h:46-77 | with a buffer the error, if any, is at the input position of the first command that does not fit |
| Icns.FittingStep | rle_icns.h:42-72 | a first command that fits counts once, and the rest is measured in the room left |
| Icns.FrameWithinStep | rle_icns.h:41-81 | a first command that fits is framed before the rest |
| Icns.CompressProbe | rle_icns.h:27-86 | the probe returns the length of `Encode(src)`, and a buffer of at least that size gives the same result |
| Icns.CompressOverflow | rle_icns.h:41-78 | a buffer smaller than the probe size gives a negative result, at the input position of the first command that does not fit |
| Icns.DecodeStep | rle_icns.h:95-128 | a truncated op fails at the position after the op byte, and a complete op emits its piece before the rest |
| Icns.DecompressStep | rle_icns.h:95-128 | as DecodeStep, and a piece that does not fit also fails at the position after the op byte |
| Icns.DecompressUnbounded | rle_icns.h:88-133 | without a buffer, decompress is the unbounded decode |
| Icns.DecompressRoomy | rle_icns.h:104-124 | a buffer of at least the decoded size gives the unbounded decode |
| Icns.DecompressWithin | rle_icns.h:104-124 | with a buffer the output never exceeds `dlen` and is a prefix of the unbounded decode |
| Icns.DecompressOverflow | rle_icns.h:104-124 | when the buffer changes the result, it fails at a complete op whose piece does not fit in the room left |
| Icns.DecompressProbe | rle_icns.h:88-133 | the probe gives the unbounded decode, and a buffer of at least its size gives the same |
| Icns.Step | rle_icns.h:35-81 | one iteration consumes the first command and emits its frame |
| Icns.StepRep | rle_icns.h:36-52 | a repeat count of 3 or more is the REP FirstAt gives |
| Icns.StepCpy | rle_icns.h:53-81 | otherwise the literal count is the CPY FirstAt gives |
| Icns.CountRun | rle_icns.h:36 | the do-while counts one more than the equal pairs, up to 130 |
| Icns.ScanLiterals | rle_icns.h:56-64 | the repcnt scan with its back-off computes LiteralRun |
| Icns.NextOp | rle_icns.h:35-67 | the body of one iteration yields the next command's frame and length |
| Icns.Compress | rle_icns.h:27-86 | returns the Result of the bounded (or unbounded) compression, and the buffer holds its output clipped to `dlen` |
| Icns.CompressPass | rle_icns.h:31-82 | one iteration either stops with the error at `rp` or keeps the invariant |
| Icns.CompressKeeps | rle_icns.h:31-82 | the loop invariant is kept by one command step |
| Icns.CompressDone | rle_icns.h:83-85 | at the end of the input the output is complete |
| Icns.NextPiece | rle_icns.h:95-117 | the body of one decoder iteration finds truncation, the piece and the next position |
| Icns.Decompress | rle_icns.h:88-133 | returns the Result of the bounded (or unbounded) decompression, and the buffer holds its output clipped to `dlen` |
| Icns.DecompressPass | rle_icns.h:91-129 | one decoder iteration either fails after the op byte or keeps the invariant |
| Icns.DecompressKeeps | rle_icns.h:91-129 | the decoder loop invariant is kept by one step |
| Icns.DecompressDone | rle_icns.h:130-132 | at the end of the input the output is complete |
| Genops.Code | rle-genops.c:15-19 | the enum values of `RLE_OP` here are 0..2 |
| Genops.OpCstr | rle-genops.c:26-35 | `rle_op_cstr` gives "UNKNOWN" exactly for values outside the enum |
| Genops.DecodePackbits | rle-genops.c:37-55 | above 128 a REP of `257 - b`, below 128 a CPY of `b + 1`, 128 a NOP of 1; every count 1..128 |
| Genops.EncodePackbits | rle-genops.c:57-73 | an op byte above 0x80 exactly for a REP of at least 2, 0x80 exactly for a NOP, and the op byte of a CPY or of such a REP decodes back to it |
| Genops.DecodeGoldbox | rle-genops.c:75-90 | top bit set: a REP of `256 - b`, otherwise a CPY of `b + 1`; every count 1..128 |
| Genops.EncodeGoldbox | rle-genops.c:92-106 | the top bit is set exactly for a REP, and every op byte decodes back to its command |
| Genops.Decode | rle-genops.c:113 | every decoded command satisfies the encoder's asserts |
| Genops.Recodes | rle-genops.c:57-106 | for both variants and every byte, `encode(decode(b)) == b` |
| Genops.Redecodes | rle-genops.c:37-106 | decoding an encoded command gives it back, except the PackBits REP of 1 and the NOP with other counts |
| Genops.PackbitsRepOneAliases | rle-genops.c:65-67 | the PackBits REP of 1 and the CPY of 1 share op byte 0x00 |
| Genops.AgreesWithCodecs | rle-genops.c:37-106 | the mappings give the op bytes and counts that packbits_compress/decompress and goldbox_compress/decompress use |
| Genops.GenerateOps | rle-genops.c:108-124 | returns 0 exactly when every byte re-encodes to itself, else 1 |
| Genops.ParserNames | rle-genops.c:126-137 | the names of `parsers`, in order |
| Genops.GetParserByName | rle-genops.c:140-147 | "goldbox" and "packbits" find their entry, and any other name gives NULL |
| Tbldriver.PackbitsTableOps | rle-tbldriver.c:59-71 | `rle8_table_packbits` (the constant PackbitsTable) is usable; the CPY table maps 1..128 to `cnt - 1` and 0 to -1, the REP table maps 2..128 to `257 - cnt` and 0, 1 to -1, and both agree with `rle8_encode_packbits` |
| Tbldriver.PackbitsValid | rle-tbldriver.c:106-121 | no lookup within the PackBits limits yields -1 |
| Tbldriver.Plus | rle-tbldriver.c:111-124 | accounting more output keeps the status, and adds to a finished size |
| Tbldriver.RepAt | rle-tbldriver.c:77-83 | `rle_count_rep` from `rp`: at most `max`, and zero exactly at the end or with `max` 0 |
| Tbldriver.RepAtIsRepRun | rle-tbldriver.c:77-83 | RepAt is `rle_count_rep` on `src + rp` |
| Tbldriver.CountRepAt | rle-tbldriver.c:77-83 | the counting loop computes RepAt |
| Tbldriver.WalkAt | rle-tbldriver.c:92-139 | when every CPY takes at least one byte, a finished size pass accounts at most two output bytes per input byte |
| Tbldriver.WalkFrom | rle-tbldriver.c:103-133 | the same from a position with input left |
| Tbldriver.WalkStep | rle-tbldriver.c:103-133 | a REP at or above the minimum adds 2; otherwise a CPY below the minimum fails with -2, the last step of the bail-out stalls with -3, and any other CPY adds `cnt + 1` |
| Tbldriver.WalkPackbits | rle-tbldriver.c:92-139 | with the PackBits limits the pass takes packbits_compress's commands and accounts their size, or stalls when they hold at least the bail-out's count of CPY commands |
| Tbldriver.PackbitsChoice | rle-tbldriver.c:104-124 | the pass's REP or CPY choice is packbits_compress's first command |
| Tbldriver.PackbitsSizePass | rle-tbldriver.c:92-139 | on the PackBits table the pass returns 0 with `wp` the length of packbits_compress's output, or -3 after 8192 CPY commands |
| Tbldriver.TableEncode | rle-tbldriver.c:92-139 | the `rle_table_encode` loop computes WalkAt's status and, on success, its size |
| Parser.Code | rle-parser.c:23-28 | the enum values here are 0..3 |
| Parser.OpCstr | rle-parser.c:35-46 | `rle_op_cstr` gives "UNKNOWN" exactly for values outside the enum |
| Parser.Consumed | rle-parser.c:78-86 | every valid entry consumes at least one byte: 1 + cnt for CPY, 2 for REP and NOP |
| Parser.ParseAt | rle-parser.c:65-105 | `rle_parse` returns 0, -1, -2 or -3, and -2 only when some op byte from `rp` on has an INVALID entry |
| Parser.RleParse | rle-parser.c:65-105 | the loop computes ParseAt: -2 on an INVALID entry, -3 after 8192 commands, -1 when the last command runs past the end, else 0 with the accounted size |
| Parser.ParsePackbits | rle-parser.c:65-105 | with a table generated from `rle8_decode_packbits`: never -2; 0 only on streams packbits_decompress accepts, with the size it produces; -1 only on streams it does not; on an accepted stream 0 when it holds fewer ops than the bail-out count, else -3 |
| Parser.ParseGoldbox | rle-parser.c:65-105 | the same for a table generated from `rle8_decode_goldbox` and goldbox_decompress: 0 only on accepted streams, and on an accepted stream 0 below the bail-out count of ops, else -3 |
| Utility.Digit | utility.h:103-110 | a decimal digit is 0..9 |
| Utility.Nibble | utility.h:44-53 | `nibble` is below 16, and 0 for a non-hex character |
| Utility.HexDigit | utility.h:44-53 | the hex digit of a value below 16 is a hex digit |
| Utility.NibbleInverse | utility.h:44-53 | `nibble` inverts writing a hex digit in either case, in both directions |
| Utility.Code | utility.h:55-61 | the `escape_err` values are 0..4, and 0 only for NO_ERROR |
| Utility.StdEscape | utility.h:119-131 | exactly `a b f n r t v " \` are standard escapes |
| Utility.DigitRun | utility.h:103-111 | the decimal escape takes at most its limit of digits, all within the input |
| Utility.TokenAt | utility.h:86-133 | a character without a backslash stands for itself; an escape yields one character below 256 and moves past it, or fails with an error kind other than NO_ERROR |
| Utility.ExpandAt | utility.h:84-141 | an error position lies within the input, and a bounded expansion never exceeds its room |
| Utility.ExpandFrom | utility.h:84-141 | the same, for one token and the rest |
| Utility.ScanToken | utility.h:86-133 | the escape parsing of one iteration computes TokenAt |
| Utility.ExpandEscapes | utility.h:77-146 | returns the output length with `err = 0`, or the position of the failing escape with its error code; the buffer holds the output, clipped to `dlen` |
| Utility.PutChar | utility.h:135-139 | the write of one character keeps the buffer equal to the output so far |
| Utility.ExpandKeeps | utility.h:84-141 | the loop invariant is kept by one character |
| Utility.ExpandStops | utility.h:81-131 | a failing escape ends the expansion with that error at that position |
| Utility.ExpandEnds | utility.h:84 | at the end of the input or of the room the output is complete |
| Utility.ExpandPrefix | utility.h:71-75 | a bounded call writes the first `dlen` characters of the probe's output, and reports the probe's error only if it got that far |
| Utility.PlainText | utility.h:87 | text without a backslash expands to itself |
| Utility.HexEscape | utility.h:93-97 | the escape `\xHH` of a character is four characters |
| Utility.HexEscaped | utility.h:93-97 | escaping every character takes four characters each |
| Utility.HexEscapedAt | utility.h:93-97 | the i-th group of four is the escape of the i-th character |
| Utility.HexToken | utility.h:93-97 | `\xHH` is read back as the character it escapes |
| Utility.HexRoundTrip | utility.h:93-97 | expanding the hex escapes of any 8-bit text gives the text back |
| Utility.DecimalToken | utility.h:101-115 | a three-digit decimal escape gives its value, or ESC_ERROR_DEC above 255 |
| Utility.TokenThen | utility.h:84-141 | a token followed by the rest expands to its character followed by the rest |
| Utility.DecimalOneThen | utility.h:101-115 | a one-digit decimal escape gives the digit |
| Utility.DecimalTwoThen | utility.h:101-115 | a two-digit decimal escape gives its value |
| Utility.StdThen | utility.h:116-131 | a standard escape gives its character |
| Utility.StandardEscapes | utility.h:116-131 | a text of standard escapes expands to their characters |
| Utility.ShortExamples | test_utility.c:42-48 | "", "A", `\xFF`, `\0` and `\"` expand as tabled |
| Utility.HexExample | test_utility.c:45 | `A\x40A` expands to "A@A" |
| Utility.DecimalExample | test_utility.c:47 | `\1\32\128` expands to the characters 1, 32, 128 |
| Utility.StandardExample | test_utility.c:49 | `\a\b\f\n\r\t\v` expands to the seven control characters |
| Utility.HexErrorExamples | test_utility.c:52-54 | `\x`, `\x8` and `\xfz` fail with ESC_ERROR_HEX at 0 |
| Utility.ErrorExamples | test_utility.c:51-56 | a lone backslash fails with ESC_ERROR, `\256` with ESC_ERROR_DEC, `\?` with ESC_ERROR_CHAR, all at 0 |
| Variants.VariantNames | rle-variant-selection.h:15-36 | the names of `rle_variants`, in order |
| Variants.GetRleByName | rle-variant-selection.h:40-47 | exactly "goldbox", "packbits", "pcx" and "icns" are found, each with its own codec; any other name gives NULL |
| Variants.Compress | rle-variant-selection.h:15-36 | an entry's compressor is that codec's: the probe returns that codec's compressed size |
| Variants.Decompress | rle-variant-selection.h:15-36 | an entry's decompressor is that codec's: the probe returns that codec's decompressed size |
| Variants.RoundTrip | rle-zoo.c:69-72 | for every codec the probe size is the compressed length, and the compressed output decompresses to the input's length |

## Left out

- Command-line drivers and file I/O: the `main` functions, argument parsing, `fopen`/`fread`/`fwrite`, `malloc`, and the test and fuzzing drivers. The test tables of test_parse.c, test_utility.c and test_example.c appear only as example lemmas.
- Diagnostic printing: the `printf` calls of `rle_table_encode`, `rle_parse` and `rle8_generate_ops`, plus `dprint_hex`, `fprint_hex` and `print_variants`. For the same reason the copy of `rle_op_cstr` in rle-tbldriver.c is left out. It is identical to the one in rle-parser.c, which is modelled as `Parser.OpCstr`.
- parse_ofs_len and buf_printf are not part of this model. Their implementations are not in utility.h.
- The decode tables `ops-packbits.h` and `ops-goldbox.h` are generated files and are not part of this model. `Parser.RleParse` takes the table as a parameter. `Parser.Generated` describes the tables that `rle8_generate_ops` would emit.
- Goldbox.Decompress and Packbits.Decompress require well-formed input. On truncated input the C reads past the end of `src`. A PackBits stream ending in 0x80 is excluded too, because the C steps past the end and then fails its final assert.
- `parse_rle` reads `in[0]` even when `len` is 0. RleParse.ParseRle models only the result, with 0 standing for that byte.
- Goldbox.Compress, Packbits.Compress, Pcx.Compress, and the Decompress methods of the same codecs: with a buffer smaller than the probe size, the C return value is outside the asserted contract. The model only states that `wp` is then at least `dlen` and that nothing at or beyond `dlen` is written.
- Variants.Compress: states only the probe result (`dest == NULL`). The buffer behaviour is the one the codec's own Compress states.
- Variants.Decompress: states only the probe result (`dest == NULL`). The buffer behaviour is the one the codec's own Decompress states.
- Variants.RoundTrip: relates the sizes only. The byte-level round trips are the codecs' own RoundTrip lemmas.
- The `int *err` out-parameter of `expand_escapes` is the second result of Utility.ExpandEscapes. The `assert(err != NULL)` path is not modelled.
- `isdigit` and `isxdigit` are taken on ASCII. Locale-dependent classification is not modelled.
- The ICNS result is an unbounded `int`. `size_t` wrap-around of the cursors, at 2^64 bytes of input, is not modelled.
- `rle_parse` only prints the accounted size `wp`. Parser.RleParse returns it.

