# Link: proofs about the host and credential components

This project models eight components of the Link repository in Dafny and
proves what they are for. Each module follows one component or one layer of it.

- **QR symbols** (`Gf256`, `ReedSolomon`, `Interleaving`, `Placement`,
  `BitStrings`, `Masking`, `QrTables`, `FunctionPatterns`, `FunctionArea`,
  `Segments`, `Encoding`, `QrSymbols`, `QrCode`, `Balance`). The whole encoder,
  from text to modules, with every table of ISO/IEC 18004:2015 that it uses. The
  main result: whatever segments fit, an ideal reader that sees nothing but the
  finished picture recovers them, for every version, level and mask, and the
  codewords stay unambiguous when each block is damaged within half its check
  symbols. On the way: the multiplication is that of a field in which every nonzero byte is a power of 2; the
  divisor and remainder loops compute Reed-Solomon codewords of minimum distance
  above the number of check symbols; interleaving is lossless for every block
  layout; the zigzag scan is a bijection for every odd size; and each version
  has exactly as many free modules as the table formula says. What encoder and
  ideal reader share is tied to the standard on its own: the mask patterns, the
  capacities, the packing of characters, and the check bits of format and version.
- **PNG images** (`Png`). The writer for opaque bitmaps against a reader for
  chunks, zlib streams (RFC 1950) and stored blocks (RFC 1951), with the Adler
  loop against its closed form, and the CRC loop against the division of
  polynomials over two elements (`BinaryPolynomials`).
- **Sign-in tile** (`CredentialTile`). The LogonUI thread and the worker thread
  share the worker's results under one lock. Callbacks are methods; at every
  point where the lock is free they call `Interfere`, in which the worker takes
  any number of steps with any answers of the server. A credential is handed to
  Windows only for a bypass account, after a positive answer, or fail-open in
  push or OTP mode: a timeline of answers, jobs, modes and hand-overs says so
  for whole runs, each hand-over judged by what came before it. This rests on the invariant that a live worker does the job
  of the current mode and that only the latest worker's results can be seen.
- **Session worker broker** (`SessionBroker`). A step relation over the session
  map, one run goroutine per session, and stop requests; the theorems hold for
  every legal sequence of steps. Each stretch under one lock is a step, and so is
  each call between two of them: a goroutine that has passed its test may call
  Launch after a stop has ended, once, and `LaunchesAfterEnd` says exactly when.
  A goroutine leaves for stated reasons only, and otherwise launches again.
- **Recorder and disk spool** (`Recorder`, `Spool`). Batches conserve the
  accepted items, and every batch is delivered, in the spool, or lost for one of
  three named reasons. Each fate rests on events of that very batch: posts carry
  its number or that of its chunk, failed writes its content, and evictions the
  chunks that were lost; a call changes fates only by events it has caused or
  that happened during it. Capture threads and other sessions act whenever no lock
  is held.
- **Input queue** (`InputQueue`). Coalescing and two-pass eviction never lose
  the release of a key or button.
- **Codecs** (`Codecs`). Base64url with an accumulator that wraps at 32 bits,
  and JSON string escaping.

Bytes and machine words are bounded naturals; their bitwise operators are
defined on binary digits in `Binary`. Answers of servers, file operations,
thread creation, packing, memory and clocks are parameters, or nondeterministic
choices (`*`) of what runs beside a call. The penalty score that ranks masks is an arbitrary function of the
picture with the bounds that the encoder asserts; case-insensitive comparison
and the bypass list of the tile are arbitrary functions too.

Where code and documentation disagree, the code is modelled. `Complete` is
documented to flush whatever remains in memory (recorder_client.go:366-373), but
one flush cuts one batch: `CompleteFlush` states exactly when the queue is empty
afterwards, and `TwoFramesLeftBehind` gives items that stay behind.

`dafny verify dfyconfig.toml` checks everything.

## Model

| member | source | states |
|---|---|---|
| `Gf256.Multiply` | windows/credential_provider/qrcodegen.cpp:739-748 | the shift-and-add loop computes the product of the two binary polynomials modulo 0x11D and never leaves a byte |
| `Gf256.Associates` | windows/credential_provider/qrcodegen.cpp:739-748 | the multiplication is associative on all bytes |
| `Gf256.Commutes` | windows/credential_provider/qrcodegen.cpp:739-748 | the multiplication is commutative on all bytes |
| `Gf256.Distributes` | windows/credential_provider/qrcodegen.cpp:739-748 | the multiplication distributes over exclusive or |
| `Gf256.TimesOne` | windows/credential_provider/qrcodegen.cpp:739-748 | 1 is neutral for the multiplication |
| `Gf256.ExpAdds` | windows/credential_provider/qrcodegen.cpp:711-720 | powers of 0x02 multiply by adding exponents |
| `GeneratorOrder.PowerValues` | windows/credential_provider/qrcodegen.cpp:711 | 0x02 to the 255th is 1, so every power has an inverse |
| `GeneratorOrder.NoFixedPoints` | windows/credential_provider/qrcodegen.cpp:711 | multiplying by 0x02 to the d, 0 < d < 255, moves every nonzero byte |
| `GeneratorOrder.EveryByteIsAPower` | windows/credential_provider/qrcodegen.cpp:711 | every nonzero byte is 0x02 to some power below 255: 0x02 generates the field |
| `GeneratorOrder.EveryByteHasAnInverse` | windows/credential_provider/qrcodegen.cpp:739-748 | every nonzero byte has an inverse |
| `ReedSolomon.ComputeDivisor` | windows/credential_provider/qrcodegen.cpp:701-723 | the in-place loop yields the coefficients below the leading one of (x - 2^0)...(x - 2^(n-1)); degrees outside 1 to 255 are refused |
| `ReedSolomon.GeneratorVanishes` | windows/credential_provider/qrcodegen.cpp:709-711 | that product is zero at each of 2^0 to 2^(n-1) |
| `ReedSolomon.ComputeRemainder` | windows/credential_provider/qrcodegen.cpp:726-736 | the shifting loop computes the register after all data bytes, for data of any length and any divisor |
| `ReedSolomon.DivisionWithRemainder` | windows/credential_provider/qrcodegen.cpp:726-736 | quotient times monic divisor equals data followed by the register: the register is the remainder of data times x^n |
| `ReedSolomon.DivisionIsUnique` | windows/credential_provider/qrcodegen.cpp:726-736 | no other quotient and remainder of those lengths exist |
| `ReedSolomon.BlockIsCodeword` | windows/credential_provider/qrcodegen.cpp:509-519 | data followed by its check bytes is zero at 2^0 to 2^(n-1) |
| `ReedSolomon.LightCodewordsAreZero` | windows/credential_provider/qrcodegen.cpp:509-519 | a codeword of length at most 255 with at most n nonzero symbols is zero: the minimum distance is above n |
| `ReedSolomon.CodewordsAreFarApart` | windows/credential_provider/qrcodegen.cpp:509-519 | two codewords that differ in at most n places are equal |
| `ReedSolomon.CodewordsAreBlocks` | windows/credential_provider/qrcodegen.cpp:509-519 | a word is a codeword if and only if its tail is the check bytes the encoder computes for its head |
| `ReedSolomon.UniqueDecoding` | windows/credential_provider/qrcodegen.cpp:509-519 | with at most half as many wrong symbols as check symbols no other data could have been sent |
| `Interleaving.DataIsUsedUp` | windows/credential_provider/qrcodegen.cpp:512-514 | the block lengths add up to the data length: the cursor k ends at data.size() |
| `Interleaving.BuildBlocks` | windows/credential_provider/qrcodegen.cpp:510-520 | the loop cuts the data into blocks and appends filler and check bytes to each |
| `Interleaving.AddEccAndInterleave` | windows/credential_provider/qrcodegen.cpp:498-533 | refuses data of a wrong length, and otherwise returns the columns of the padded blocks without the filler bytes |
| `Interleaving.InterleavedLength` | windows/credential_provider/qrcodegen.cpp:522-531 | the result has exactly rawCodewords bytes |
| `Interleaving.InterleavedAt` | windows/credential_provider/qrcodegen.cpp:522-530 | codeword c of block j stands at a closed-form position of the result |
| `Interleaving.ReadBlockInterleaved` | windows/credential_provider/qrcodegen.cpp:498-533 | every block, data and check bytes, is read back from those positions |
| `Interleaving.DeinterleaveInterleaved` | windows/credential_provider/qrcodegen.cpp:498-533 | de-interleaving returns the data, for every valid block layout |
| `Interleaving.SymbolIsCorrectable` | windows/credential_provider/qrcodegen.cpp:498-533 | with at most half as many wrong codewords in each block as it has check symbols, the received codewords determine the data |
| `Placement.ScanReaches` | windows/credential_provider/qrcodegen.cpp:540-558 | the scan visits every cell outside column 6, for every odd size above 8 |
| `Placement.ScanOnce` | windows/credential_provider/qrcodegen.cpp:540-558 | and no cell twice |
| `Placement.DrawBits` | windows/credential_provider/qrcodegen.cpp:536-560 | the three nested loops put the codeword bits onto the free cells in scan order, leave all else alone, and count the bits that found room |
| `Placement.ReadBack` | windows/credential_provider/qrcodegen.cpp:536-560 | reading the free cells in the same order returns the bits, for any function mask with enough free cells |
| `Masking.ApplyMask` | windows/credential_provider/qrcodegen.cpp:563-584 | changes exactly the modules outside the function modules that the pattern of the mask, drawn as tiles, inverts; refuses numbers outside 0 to 7 |
| `Masking.MaskPattern` | windows/credential_provider/qrcodegen.cpp:571-579 | each of the eight formulas is the pattern drawn in the standard, on the whole plane |
| `Masking.MaskTwice` | windows/credential_provider/qrcodegen.cpp:563-584 | a mask applied twice gives the grid back |
| `Masking.MaskKeepsFunctionModules` | windows/credential_provider/qrcodegen.cpp:563-584 | masking neither changes nor looks at function modules |
| `Masking.ReadSameData` | windows/credential_provider/qrcodegen.cpp:536-560 | the reader depends on the data modules only |
| `BitStrings.AppendBits` | windows/credential_provider/qrcodegen.cpp:822-827 | appends the low bits of a number most significant first; refuses widths over 31 and numbers that do not fit |
| `BitStrings.NumberBitsOf` | windows/credential_provider/qrcodegen.cpp:822-827 | the appended bits spell the number |
| `BitStrings.BitsOfNumber` | windows/credential_provider/qrcodegen.cpp:822-827 | and every bit string is the bits of the number it spells |
| `BitStrings.PackCodewords` | windows/credential_provider/qrcodegen.cpp:310-313 | the or-ing loop packs the bits into bytes, big-endian |
| `BitStrings.PackedBits` | windows/credential_provider/qrcodegen.cpp:310-313 | the bytes have the bits they were packed from |
| `QrTables.TablesArePlausible` | windows/credential_provider/qrcodegen.cpp:792-808 | every entry of the tables leaves room for data, keeps blocks below 256 codewords, and more check codewords go with higher levels |
| `QrTables.LayoutsAreValid` | windows/credential_provider/qrcodegen.cpp:498-514 | every version and level has a valid block layout with data in every block |
| `QrTables.CapacityFalls` | windows/credential_provider/qrcodegen.cpp:694-698 | a higher level never has more data codewords |
| `QrTables.DataCapacity` | windows/credential_provider/qrcodegen.cpp:694-698 | for every version and level the two tables give the number of data codewords that the standard lists |
| `FunctionPatterns.DrawTiming` | windows/credential_provider/qrcodegen.cpp:388-392 | draws the alternating row and column 6 and nothing else |
| `FunctionPatterns.DrawFinderPattern` | windows/credential_provider/qrcodegen.cpp:465-474 | draws the rings of a finder pattern, clipped to the grid |
| `FunctionPatterns.DrawAlignmentPattern` | windows/credential_provider/qrcodegen.cpp:477-482 | draws the rings of an alignment pattern |
| `FunctionPatterns.GetAlignmentPatternPositions` | windows/credential_provider/qrcodegen.cpp:664-676 | the list built from the back has the closed-form positions in ascending order |
| `FunctionPatterns.AlignAscends` | windows/credential_provider/qrcodegen.cpp:669-672 | from the second on, alignment positions are at least 16 apart |
| `FunctionPatterns.DrawAlignmentPatterns` | windows/credential_provider/qrcodegen.cpp:399-408 | draws all alignment patterns but those on the finder corners |
| `FunctionPatterns.FormatBitsBound` | windows/credential_provider/qrcodegen.cpp:416-423 | the format information fits 15 bits, and its top five bits are the level and the mask |
| `FunctionPatterns.FormatWord` | windows/credential_provider/qrcodegen.cpp:416-423 | the format word without its fixed pattern is level and mask, times x^10, and then the remainder modulo x^10+x^8+x^5+x^4+x^2+x+1 |
| `FunctionPatterns.VersionWord` | windows/credential_provider/qrcodegen.cpp:447-452 | the version word is the version, times x^12, and then the remainder modulo x^12+x^11+x^10+x^9+x^8+x^5+x^2+1 |
| `FunctionPatterns.DrawFormatBits` | windows/credential_provider/qrcodegen.cpp:416-440 | draws both copies of the format bits and the dark module |
| `FunctionPatterns.DrawVersion` | windows/credential_provider/qrcodegen.cpp:443-462 | draws both copies of the version bits from version 7 on |
| `FunctionPatterns.DrawFunctionPatterns` | windows/credential_provider/qrcodegen.cpp:387-413 | the finished function patterns are the layers in drawing order |
| `FunctionArea.PatternsCoverArea` | windows/credential_provider/qrcodegen.cpp:387-413 | the modules they mark are exactly a closed-form area |
| `FunctionArea.AreaSize` | windows/credential_provider/qrcodegen.cpp:679-691 | the size of the grid minus that area is the table formula |
| `FunctionArea.FreeModules` | windows/credential_provider/qrcodegen.cpp:679-691 | the scan finds exactly getNumRawDataModules free cells, for every version |
| `Segments.MakeNumeric` | windows/credential_provider/qrcodegen.cpp:79-99 | packs digits by threes; rejects anything else |
| `Segments.MakeAlphanumeric` | windows/credential_provider/qrcodegen.cpp:102-122 | packs the 45 characters by twos; rejects anything else |
| `Segments.MakeBytes` | windows/credential_provider/qrcodegen.cpp:69-76 | packs bytes, among them 0; exactly more than INT_MAX of them are too long |
| `Segments.GroupFits` | windows/credential_provider/qrcodegen.cpp:91-97 | every group fits its field, so appendBits never refuses |
| `Segments.NumericGroup` | windows/credential_provider/qrcodegen.cpp:86-97 | three digits are their decimal number in ten bits, in front of the rest |
| `Segments.NumericRest` | windows/credential_provider/qrcodegen.cpp:96-97 | two left take seven bits, one takes four |
| `Segments.AlphanumericGroup` | windows/credential_provider/qrcodegen.cpp:109-120 | two characters are 45 times the one plus the other in eleven bits, in front of the rest |
| `Segments.AlphanumericRest` | windows/credential_provider/qrcodegen.cpp:119-120 | a last one takes six |
| `Segments.BytePacking` | windows/credential_provider/qrcodegen.cpp:69-76 | a byte is its eight bits |
| `Segments.CharacterValues` | windows/credential_provider/qrcodegen.cpp:230 | the values of the 45 characters, and of the digits |
| `Segments.CountWidths` | windows/credential_provider/qrcodegen.cpp:57-66 | the widths of the character counts in all three ranges of versions |
| `Segments.ModeIndicators` | windows/credential_provider/qrcodegen.cpp:291-296 | a segment is its mode indicator, its count and its data |
| `Segments.IsNumeric` | windows/credential_provider/qrcodegen.cpp:196-203 | true exactly when every character is a digit |
| `Segments.IsAlphanumeric` | windows/credential_provider/qrcodegen.cpp:206-212 | true exactly when every character is in the set |
| `Segments.UnpackedPacked` | windows/credential_provider/qrcodegen.cpp:69-122 | unpacking returns the characters, in all three modes and for any length |
| `Segments.MakeSegments` | windows/credential_provider/qrcodegen.cpp:125-140 | no segment for the empty text, else one in the densest mode that can hold it; a text that needs byte mode is refused exactly if it has more than INT_MAX bytes |
| `Segments.GetTotalBits` | windows/credential_provider/qrcodegen.cpp:179-193 | the length of the concatenated segments, or -1 exactly if a count does not fit its field or the length does not fit an int |
| `Segments.ParseList` | windows/credential_provider/qrcodegen.cpp:291-296 | a reader finds any list of well-formed segments again and goes on with what follows |
| `Encoding.ChooseVersion` | windows/credential_provider/qrcodegen.cpp:264-281 | the least version of the range that fits, or the right kind of failure when none does |
| `Encoding.BoostLevel` | windows/credential_provider/qrcodegen.cpp:284-288 | the highest level that still fits, never below the requested one |
| `Encoding.Concatenate` | windows/credential_provider/qrcodegen.cpp:290-297 | the bit buffer is the segments one after the other |
| `Encoding.PadToCapacity` | windows/credential_provider/qrcodegen.cpp:299-308 | terminator, alignment and pad bytes end exactly at the capacity |
| `Encoding.PaddingOctet` | windows/credential_provider/qrcodegen.cpp:306-308 | the pad bytes alternate between 0xEC and 0x11 |
| `Encoding.PaddedParts` | windows/credential_provider/qrcodegen.cpp:299-308 | the padding keeps the data, and a reader stops where it begins |
| `Encoding.ParseCodewords` | windows/credential_provider/qrcodegen.cpp:290-313 | the segments are read back from the data codewords |
| `Encoding.TextIsWellFormed` | windows/credential_provider/qrcodegen.cpp:125-140 | the segments of a text are well-formed and hold that text |
| `Encoding.BytesAreWellFormed` | windows/credential_provider/qrcodegen.cpp:69-76 | and so are those of any bytes |
| `QrSymbols.ReadFormatWritten` | windows/credential_provider/qrcodegen.cpp:425-432 | the first copy of the format information reads back |
| `QrSymbols.UnmaskFinished` | windows/credential_provider/qrcodegen.cpp:353-355 | unmasking the finished symbol gives the drawn data modules |
| `QrSymbols.WordsOfFinished` | windows/credential_provider/qrcodegen.cpp:333-355 | all codewords are read back from the finished picture |
| `QrSymbols.SymbolIsReadable` | windows/credential_provider/qrcodegen.cpp:247-359 | an ideal reader that sees only the picture recovers any list of segments that fits, for every version, level and mask |
| `QrSymbols.DamageIsUnambiguous` | windows/credential_provider/qrcodegen.cpp:498-533 | two lists of segments that both explain the received codewords within the correction radius are equal |
| `QrCodes.NextBest` | windows/credential_provider/qrcodegen.cpp:344-348 | one turn of the mask loop keeps the best mask so far, with ties to the lowest |
| `QrCodes.MaskBeforeFormat` | windows/credential_provider/qrcodegen.cpp:342-343 | what is in the format area before a mask is tried does not matter |
| `QrCodes.UnmaskSameButFormat` | windows/credential_provider/qrcodegen.cpp:349 | masking again undoes a tried mask outside the format area |
| `QrCodes.QrCode.DrawCodewords` | windows/credential_provider/qrcodegen.cpp:536-560 | refuses a wrong number of codewords; all their bits find room |
| `QrCodes.QrCode.MaskAndFormat` | windows/credential_provider/qrcodegen.cpp:342-343 | masks the data modules and overwrites the format information |
| `QrCodes.QrCode.ChooseMask` | windows/credential_provider/qrcodegen.cpp:338-351 | the chosen mask has the least penalty among the eight finished symbols, the lowest number among those, and the data is left as it was |
| `QrCodes.QrCode.Build` | windows/credential_provider/qrcodegen.cpp:320-359 | the three argument errors, and otherwise the finished symbol of the given or the best mask |
| `QrCodes.QrCode.EncodeSegments` | windows/credential_provider/qrcodegen.cpp:259-317 | version, level, mask and modules of the symbol, or why there is none: the least version that fits, the highest level when boosting |
| `QrCodes.QrCode.EncodeText` | windows/credential_provider/qrcodegen.cpp:247-250 | a length error exactly for more than INT_MAX characters, else too long exactly if no version fits; otherwise an ideal reader recovers the text from the modules, in the least version, at the highest level that fits it, with the mask of least penalty |
| `QrCodes.QrCode.EncodeBinary` | windows/credential_provider/qrcodegen.cpp:253-256 | the same for any bytes in one byte segment |
| `Balance.BalanceTerm` | windows/credential_provider/qrcodegen.cpp:646-658 | the least k from 0 to 9 such that the share of dark modules is within 50% plus or minus 5(k+1) points |
| `Checksums.PngCrc32` | windows/credential_provider/credential_image.h:20-30 | the masked-shift loop computes the CRC-32: the message, with its first 32 coefficients complemented, times x^32 leaves the complement of the result modulo the generator written out by its exponents |
| `Checksums.CrcIsUnique` | windows/credential_provider/credential_image.h:20-30 | and no other word does |
| `BinaryPolynomials.DivisionIsUnique` | windows/credential_provider/credential_image.h:20-30 | quotient and remainder of a division of polynomials over two elements are unique |
| `BinaryPolynomials.RunDivides` | windows/credential_provider/credential_image.h:23-27 | a register that takes bits one by one ends with the remainder |
| `Checksums.MaskedShift` | windows/credential_provider/credential_image.h:25-26 | the masked shift is the shift with feedback |
| `Checksums.ByteAtOnce` | windows/credential_provider/credential_image.h:23-27 | adding a byte and shifting eight times equals feeding its bits one by one |
| `Checksums.ComputeAdler` | windows/credential_provider/credential_image.h:92-95 | reducing at every byte gives the two closed-form sums modulo 65521 |
| `PngImages.AppendBigEndian` | windows/credential_provider/credential_image.h:13-18 | appends the four bytes of a word, most significant first |
| `PngImages.BigEndianBack` | windows/credential_provider/credential_image.h:13-18 | they read back as the word |
| `PngImages.AppendPngChunk` | windows/credential_provider/credential_image.h:32-39 | appends length, type, data and the CRC of type and data |
| `PngImages.ReadChunksBack` | windows/credential_provider/credential_image.h:32-39 | a reader that checks lengths and CRCs returns the chunks |
| `PngImages.Compress` | windows/credential_provider/credential_image.h:97-121 | header, stored blocks and Adler-32; the length is the reserved one |
| `PngImages.BlocksLength` | windows/credential_provider/credential_image.h:97-99 | n bytes of data take n + 5 * ceil(n / 65535) bytes of blocks |
| `PngImages.InflateBlocks` | windows/credential_provider/credential_image.h:105-119 | an inflater for stored blocks returns the data and stops exactly after the last block, the only final one |
| `PngImages.ReadZlibBack` | windows/credential_provider/credential_image.h:103-121 | a zlib reader returns the data |
| `PngImages.GuardIsExact` | windows/credential_provider/credential_image.h:59-67 | the division in the guard rejects exactly the sources of more than 4096 * 4096 pixels |
| `PngImages.WriteRow` | windows/credential_provider/credential_image.h:81-90 | writes filter byte and RGBA bytes of a row, and stops at a pixel that is not opaque |
| `PngImages.WriteRows` | windows/credential_provider/credential_image.h:76-91 | fills the raw buffer with all rows, for any stride |
| `PngImages.EncodeOpaqueBgraPng` | windows/credential_provider/credential_image.h:49-141 | returns the file exactly for accepted opaque images, with the reserved length, and nothing otherwise or when memory runs out |
| `PngImages.PngRoundTrip` | windows/credential_provider/credential_image.h:49-136 | a PNG reader recovers size and colour of every pixel, for any accepted width, height and stride |
| `CredentialTile.LigamentCredential.constructor` | windows/credential_provider/LigamentCredential.cpp:154-194 | a tile initialised once: nothing entered, confirmed or running, in the mode that follows from the configuration, with the passkey only where it is allowed |
| `CredentialTile.LigamentCredential.GateStep` | windows/credential_provider/LigamentCredential.cpp:1008-1087 | a new worker takes its job and asks the gate in remote sessions only; a satisfied gate publishes success, another one goes on to the begin call, and a stopped worker publishes nothing |
| `CredentialTile.LigamentCredential.BeginStep` | windows/credential_provider/LigamentCredential.cpp:1089-1221 | every answer of the begin call is logged; the result is published unless the worker was stopped, and an accepted code confirms the factor |
| `CredentialTile.LigamentCredential.PollStep` | windows/credential_provider/LigamentCredential.cpp:1236-1294 | every approval is logged; approved, denied and expired are published unless the worker was stopped, and only approved confirms the factor |
| `CredentialTile.LigamentCredential.WaitStep` | windows/credential_provider/LigamentCredential.cpp:1223-1234 | four slices before each request, as many requests as the timeout allows, then the timeout is published; a stop request ends the worker |
| `CredentialTile.LigamentCredential.WorkerStep` | windows/credential_provider/LigamentCredential.cpp:1008-1323 | every step of the worker keeps the invariant, gets nearer to its end, never touches the stop flag, and publishes nothing once it is set |
| `CredentialTile.LigamentCredential.JoinPollThread` | windows/credential_provider/LigamentCredential.cpp:1366-1388 | waits for the worker and forgets its results and its job; nothing is confirmed after a stop request or by a worker that has ended |
| `CredentialTile.LigamentCredential.StopPollThread` | windows/credential_provider/LigamentCredential.cpp:1359-1364 | the same after a stop request, within five more steps of the worker |
| `CredentialTile.LigamentCredential.StartWorkerJob` | windows/credential_provider/LigamentCredential.cpp:1328-1357 | stops the old worker, wipes its results and sets the new job up; that job is taken exactly if the thread started, and forgotten otherwise |
| `CredentialTile.LigamentCredential.ResetAuthState` | windows/credential_provider/LigamentCredential.cpp:1442-1458 | no worker, no result and no one-time code is left, and nothing is confirmed unless the worker did so in between |
| `CredentialTile.LigamentCredential.SetStringValue` | windows/credential_provider/LigamentCredential.cpp:567-610 | splits the name, sets the one field; another name or password stops the worker and wipes the code, and nothing else does; and exactly when a name shows again as entered |
| `CredentialTile.NameParts` | windows/credential_provider/LigamentCredential.cpp:586-602 | the domain is what stands before the first backslash, else after the first @ inside the name; put together the parts are the name |
| `CredentialTile.LigamentCredential.SwitchToMode` | windows/credential_provider/LigamentCredential.cpp:643-672 | changes the mode only after the worker is stopped, and starts at most the passkey job; without a change nothing happens; passkey only where allowed |
| `CredentialTile.LigamentCredential.CommandLinkClicked` | windows/credential_provider/LigamentCredential.cpp:620-635 | the mode that each button leads to, unless it is a passkey that is not allowed |
| `CredentialTile.LigamentCredential.TriggerFIDO2Auth` | windows/credential_provider/LigamentCredential.cpp:965-985 | sets the passkey job up, in place of any old one, unless names are missing or the factor is confirmed |
| `CredentialTile.LigamentCredential.SetDeselected` | windows/credential_provider/LigamentCredential.cpp:286-294 | resets an idle tile that is not confirmed, and leaves any other one alone |
| `CredentialTile.LigamentCredential.SetSelected` | windows/credential_provider/LigamentCredential.cpp:281-284 | automatic logon exactly if the factor counts as confirmed, which takes a positive answer |
| `CredentialTile.LigamentCredential.ReportResult` | windows/credential_provider/LigamentCredential.cpp:1844-1856 | wipes the password and the code and stops the worker after any logon attempt |
| `CredentialTile.LigamentCredential.SerializeOtp` | windows/credential_provider/LigamentCredential.cpp:1494-1544 | without a worker sets the job up; finishes exactly for an accepted code, or fail-open on a network error of the latest OTP worker; a worker that is done is cleared away |
| `CredentialTile.LigamentCredential.SerializePush` | windows/credential_provider/LigamentCredential.cpp:1546-1661 | without a worker sets the job up; finishes for an approved push, or fail-open on a network error of the latest push worker, and for nothing else; a worker that is done is cleared away |
| `CredentialTile.LigamentCredential.SerializeFido2` | windows/credential_provider/LigamentCredential.cpp:1663-1764 | without a worker sets the job up; finishes for an approved passkey, and for nothing else; a worker that is done is cleared away |
| `CredentialTile.LigamentCredential.GetSerialization` | windows/credential_provider/LigamentCredential.cpp:1460-1767 | the reason to finish is a bypass account, a confirmed factor, or fail-open in push or OTP mode where the configuration allows it; whenever one of these is there at the call it finishes exactly if packing succeeds, and where nothing is known yet the server is asked; a finished response is the last entry of the timeline |
| `CredentialTile.RunTile` | windows/credential_provider/LigamentCredential.cpp:281-1856 | over any sequence of callbacks, server answers and interleavings the timeline holds exactly the finished responses in order, and for each the events before it were a sound reason: a positive answer, a bypass account, or a network error of the latest job set up, which is that of the mode at the time |
| `SessionBroker.StepKeeps` | windows/link_agent/session_worker.go:301-566 | every step of every goroutine keeps the broker invariant |
| `SessionBroker.LaunchesAgain` | windows/link_agent/session_worker.go:477-493 | a worker that has crashed is launched again: while nobody ends the session and a restart is left, the own next steps of the goroutine lead to Launch, whatever happens in between |
| `SessionBroker.LeavesForAReason` | windows/link_agent/session_worker.go:336-493 | a goroutine leaves only if its session is cancelled, terminated or stopped, if the very first launch failed, or if three more launches of one window of sixty seconds have ended |
| `SessionBroker.NeverStuck` | windows/link_agent/session_worker.go:326-496 | until it has returned a goroutine can always go on |
| `SessionBroker.ReturnedIsDone` | windows/link_agent/session_worker.go:536-557 | once returned it has left the map, closed its processes, and marked and cancelled the session, unless a stop request does |
| `SessionBroker.RunIsValid` | windows/link_agent/session_worker.go:301-566 | and so does every run |
| `SessionBroker.ClosedBeforeLaunch` | windows/link_agent/session_worker.go:335-370 | when Launch is called, and when run has returned, every process of that goroutine is closed |
| `SessionBroker.OneOpenProcess` | windows/link_agent/session_worker.go:372-470 | one goroutine never has two open processes |
| `SessionBroker.ReturnedIsUnmapped` | windows/link_agent/session_worker.go:330 | a goroutine that has returned has left the map |
| `SessionBroker.NoAttachAfterStop` | windows/link_agent/session_worker.go:372-379 | once out of the map, a session never comes back and no process is attached to it |
| `SessionBroker.SuccessorUntouched` | windows/link_agent/session_worker.go:536-557 | an exiting run or a stop does nothing to any other session, its map entry or its processes |
| `SessionBroker.NoRelaunchAfterTerminate` | windows/link_agent/session_worker.go:456-475 | once the worker has said session_terminate, Launch is never called again |
| `SessionBroker.LaunchesAfterEnd` | windows/link_agent/session_worker.go:336-344 | once a session is terminated or cancelled, Launch is called at most once more: exactly if the goroutine had already passed its test, and then makes that call |
| `SessionBroker.LaunchAfterStop` | windows/link_agent/session_worker.go:336-344 | a run in which a stop request ends between the test and the call, so that Launch is called after it |
| `SessionBroker.TerminateIsRemembered` | windows/link_agent/session_worker.go:456-462 | session_terminate from the worker sets the flag for good |
| `SessionBroker.LaunchRate` | windows/link_agent/session_worker.go:332-370 | at most 1 + 3 (1 + t / 60 s) launches in time t |
| `SessionBroker.Rejections` | windows/link_agent/session_worker.go:348-353 | a rejected answer is sent at most once, and only if no worker ever attached |
| `SessionBroker.StoppedForGood` | windows/link_agent/session_worker.go:519-534 | when a stop has returned the session is unmapped, terminated and cancelled, and its attached process, the one that is served, is closed |
| `Spool.DiskSpooler.WriteBatch` | windows/link_agent/spool.go:50-86 | adds the chunk to its session's directory exactly if the directory can be made and the file written; never deletes that session; notes a failed write and everything the quota has deleted |
| `Spool.DiskSpooler.ReadPendingBatches` | windows/link_agent/spool.go:89-130 | exactly the readable chunks of the session in order, nothing without a directory, and an error if it cannot be listed |
| `Spool.ReadableAscends` | windows/link_agent/spool.go:125-127 | which is ascending order |
| `Spool.DiskSpooler.RemoveBatch` | windows/link_agent/spool.go:133-137 | deletes exactly that chunk, if it can be removed |
| `Spool.DiskSpooler.EnforceQuota` | windows/link_agent/spool.go:149-207 | each deleted directory is the oldest of those left that may be deleted, and goes only while over the limit, never the protected one; ends within the limit or with that session alone |
| `Spool.ListOldestFirst` | windows/link_agent/spool.go:164-194 | lists every directory once, oldest first |
| `Spool.OldestIsLeast` | windows/link_agent/spool.go:164-183 | the age of a directory is the least time of its chunks |
| `Spool.DirSizeAdds` | windows/link_agent/spool.go:172-181 | its size counts each chunk once |
| `Spool.InsertKeeps` | windows/link_agent/spool.go:59-82 | writing a chunk keeps the others, and the order |
| `Spool.TotalWithout` | windows/link_agent/spool.go:170-205 | the total is the same whichever directory is taken first |
| `Recorder.RecorderClient.EnqueueFrame` | windows/link_agent/recorder_client.go:131-160 | accepts unless closed or the queue is full and the frame periodic; appends the frame with its number, monitor and time filled in; counts numbers and queued bytes |
| `Recorder.RecorderClient.EnqueueEvent` | windows/link_agent/recorder_client.go:163-180 | appends the event with its number and time filled in, unless closed; counts numbers and queued bytes |
| `Recorder.RecorderClient.ChooseBatch` | windows/link_agent/recorder_client.go:225-250 | takes everything exactly if it fits one batch, and always at least one item |
| `Recorder.EstimateBound` | windows/link_agent/recorder_client.go:228-250 | the estimate exceeds the limit, or the first frame's, by one event at most |
| `Recorder.LongestIsAll` | windows/link_agent/recorder_client.go:232-240 | the longest prefix is everything exactly if everything fits |
| `Recorder.RecorderClient.BuildBatch` | windows/link_agent/recorder_client.go:225-258 | batch and rest of the queue make up the old queue; all batches and the queue make up the accepted items |
| `Recorder.RecorderClient.SendChunk` | windows/link_agent/recorder_client.go:349-362 | posts the chunk unless cancelled, and deletes it only after a 2xx answer; the batch with its number then counts as delivered, others go on only by their own events |
| `Recorder.RecorderClient.DrainSpool` | windows/link_agent/recorder_client.go:340-364 | lists exactly the readable chunks of the session and posts them in ascending order until one is refused or the context is cancelled; deletes those delivered that can be removed, and no others; where all are delivered no readable batch is left spooled |
| `Recorder.RecorderClient.Spill` | windows/link_agent/recorder_client.go:285-300 | after a failed post of this very batch: spooled under the next number, or lost without a spooler or with a failed write of this batch under this number; all other fates stay |
| `Recorder.RecorderClient.Flush` | windows/link_agent/recorder_client.go:191-301 | the new batch is delivered by its own post, spooled under a new number, or lost without a spooler or by a failed write of this call, exactly as server and disk decide; a delivered one is followed by a drain; every older batch keeps its fate, is delivered by a post of its chunk in this call, or is deleted from the spool by another session's write in this call |
| `Recorder.EvolvesLater` | windows/link_agent/recorder_client.go:191-376 | and so over any number of calls |
| `Recorder.RecorderClient.DrainAndKeepAlive` | windows/link_agent/recorder_client.go:193-224 | with nothing queued the spool is drained, no batch is built, and a body without items is posted exactly if the drain went well, the client is open and it is due |
| `Recorder.RecorderClient.CompleteFlush` | windows/link_agent/recorder_client.go:366-376 | at the end of a session the queue is emptied if and only if what is left fits one batch; the spool is drained last, and if all goes well holds no readable batch; fates go on as in a flush, and batches still in flight may stay so |
| `Recorder.TwoFramesLeftBehind` | windows/link_agent/recorder_client.go:372-373 | two frames that do not |
| `InputQueue.Queue.Erase` | windows/runner/input_block.cpp:367-389 | one in-place pass erases the first evictable events until there is room |
| `InputQueue.Queue.MakeRoom` | windows/runner/input_block.cpp:366-390 | after both passes there is room, or only releases are left |
| `InputQueue.EvictedIsTrimmed` | windows/runner/input_block.cpp:366-390 | just enough of the oldest moves go; or all moves, and then just enough of the oldest other events that release nothing |
| `InputQueue.MouseUpIsMasked` | windows/runner/input_block.cpp:381-382 | the test of the flags against the mask of the button releases is that of the four bits |
| `InputQueue.Queue.Enqueue` | windows/runner/input_block.cpp:356-394 | the new event is last: in place of a move if both are moves, else behind the old queue, trimmed if it was full; nothing but non-releases is lost, the queue is bounded, and no two moves stand next to each other |
| `InputQueue.EveryQueueKeeps` | windows/runner/input_block.cpp:296-394 | after any operations, what has come out followed by the queue is what went in except for events that release nothing, ends with the last event put in, and the queue is bounded without neighbouring moves |
| `InputQueue.OnlyMovesAreLost` | windows/runner/input_block.cpp:356-394 | unless an event meets a full queue, only moves are lost that are directly followed by another move |
| `InputQueue.Queue.PopFront` | windows/runner/input_block.cpp:299-309 | takes the first event |
| `InputQueue.EvictedIsSmall` | windows/runner/input_block.cpp:366-390 | room for one more, or releases only; and no more is evicted than needed |
| `InputQueue.MovesAreNotReleases` | windows/runner/input_block.cpp:380-382 | a pure move is not a release |
| `InputQueue.AllReleasesKept` | windows/runner/input_block.cpp:356-394 | every key-up and mouse-up comes out, in order |
| `InputQueue.LastReleaseComesOut` | windows/runner/input_block.cpp:356-394 | if a key's last event put in is its release, so is the last one that comes out |
| `InputQueue.RunQueue` | windows/runner/input_block.cpp:296-394 | for any interleaving of enqueues and pops and a drain: what comes out is what went in except for events that release nothing, all releases and final releases and the very last event included; only coalesced moves are missing if no event met a full queue; and the queue was bounded and coalesced after every operation |
| `Base64Url.Base64UrlEncode` | windows/credential_provider/common.h:515-529 | the loop with its wrapping accumulator emits the sextets of the bit string, the last one filled with zeros |
| `Base64Url.Base64UrlDecode` | windows/credential_provider/common.h:539-556 | the loop returns the whole bytes among the bits of the characters before the first foreign one |
| `Base64Url.DecodedEncoded` | windows/credential_provider/common.h:515-556 | decoding undoes encoding for every byte string |
| `Base64Url.LookupOfValue` | windows/credential_provider/common.h:515-556 | the characters that decode to a number are exactly those that encode one |
| `Base64Url.WrapKeepsLow` | windows/credential_provider/common.h:520-548 | wrapping at 32 bits does not touch the low bits that are still needed |
| `JsonStrings.EscapeJson` | windows/credential_provider/common.h:487-512 | the loop emits the escape of every byte |
| `JsonStrings.LiteralRoundTrip` | windows/credential_provider/common.h:483-512 | between quotes the text reads back and the literal ends exactly at the closing quote |
| `JsonStrings.ShortEscapes` | windows/credential_provider/common.h:494-500 | the seven characters that have an escape of their own get it |
| `JsonStrings.NoControlCharacters` | windows/credential_provider/common.h:501-507 | no raw control character is emitted |

## Left out

- The penalty score of a mask: run lengths, 2x2 blocks and finder-like runs are an arbitrary function; only the balance term is modelled.
- Format and version check bits: they are the remainders of their divisions, but how many errors they correct is not proved; the reader takes the first copy of the format bits.
- Error correction as an algorithm: that damaged codewords determine the data is proved, no decoder is given.
- `makeEci` and the accessors of a segment or symbol: they would only add easy members; ECI and Kanji segments are still sized, concatenated and parsed.
- Numeric and alphanumeric texts longer than INT_MAX, for which the character count of their loops overflows; in byte mode the length error is modelled.
- `reserve` calls; whether the PNG encoder has enough memory is a parameter.
- Texts, bitmaps and notifications of the tile, the stored credentials of a job and their wiping, `ssoTicket` files, and the packing of the credential, which may succeed or fail.
- Liveness of the tile: nothing is claimed about when a credential is finished, only why.
- Message contents of the broker: decoding, validation and forwarding of frames, the signal queue and its overflow, sender rebinding, and recording epochs. An overflow acts like a stop request.
- Delays of the broker: backoff and pause may last any time; the launch rate follows from the restart window alone.
- Unreadable directories in the quota: listing a directory and deleting it are taken to succeed there; only reading back models a directory that cannot be listed.
- Concurrent flushes of one recorder client: each call assumes that no other flush of the same client takes steps during it, which the periodic flush does not guarantee when a session ends; a batch that such a flush has cut before may be in flight. Enqueues and other sessions interleave.
- Several clients of one session: chunks that an earlier client of the session has left may be drained, but they are not accounted for, and a new client that numbers from 1 again may overwrite them.
- A chunk that was read before its directory was deleted may still be posted; its batch stays counted as evicted.
- JSON encoding of batches, tokens and HTTP details; the spool after `Complete`.
- The secure desktop check after an input event is taken out, which may discard it, and the keep-awake logic.
- \u escapes above 0x7F in the JSON reader: the escaper never emits them.
