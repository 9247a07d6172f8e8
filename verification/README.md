# qrGrid encoder core in Dafny

This project models the encoder core of qrGrid, a TypeScript QR Code generator, as pure Dafny functions and methods, and proves properties about them. It covers the full path from a text string to a masked module grid:

- Segmentation: the text is split into runs of numeric, alphanumeric and byte characters (`getBasicInputSegments`). The runs are then re-grouped by a shortest-path search over a graph of encoding choices (`getOptimizedSegments`, `dijkstra`, `getPath`).
- Version selection: the least version that holds the bit stream is picked, one character-count regime at a time (`#getVersion`, `getCapacity`).
- Data codewords: mode indicator, character count and payload bits, then terminator, byte alignment and the alternating pad codewords (`#generateCodeword`, `#encodeCodeword`, `getEncodedSegmentData`).
- Error correction: the Reed–Solomon remainder over GF(256) with the polynomial 0x11D (`initTables`, `gfMul`, `polyMul`, `generateGenerator`, `rsEncode`). It also covers the block split and the interleaving of data and error-correction codewords.
- Function patterns: finder, separator, timing, alignment, version information, format-area reservation and the dark module.
- Codeword placement along the two-column zigzag (`#fillCodeword`).
- The eight masks, the four penalty rules and the choice of mask (`#mask`, `#applyMask`, `getMaskPenalty`).
- Format information (`#fillFormatInfo`, `getFormatInfoBits`, `getVersionInfoBits`).

The tables of `src/constants.ts` are Dafny constants (constants.dfy).

How the model is built:

- The symbol is a square of modules, each with a `data` bit and an optional reservation (`Matrix.Symbol`, grid.dfy). Each drawing stage is a function from symbol to symbol, so the stages can be composed and reasoned about (`Qr.Drawn`, `Qr.Framed`, `Qr.Filled`, `Qr.Final`).
- Loops in the source become methods with loop invariants. Each such method is proved equal to a functional definition, and the properties are proved about that definition.
- Bytes are `bv8`. Bit streams are `seq<bool>`, most significant bit first. GF(256) arithmetic is on `bv8`, and the polynomial algebra is done over a wrapper type `Field.Elem`.

Main properties proved:

- The bit stream parses back into the segments it was written from (`Codeword.FinalStreamRoundTrip`).
- Reed–Solomon codewords are divisible by the generator and vanish at its roots, and encoding is linear.
- Interleaving of blocks is a bijection (`Interleaving.InterleaveDeinterleave`, `Blocks.CodewordSequenceRecover`).
- The zigzag visits each cell outside column 6 exactly once (`Placement.PathIndexInverse`, `Placement.PathVisitsOnce`).
- The free modules of the finished symbol, once unmasked, read back the codeword bit stream (`Qr.DecodesBack`).
- Masking only changes free modules, and is its own inverse.
- The chosen mask is the earliest one with the least penalty.
- Dijkstra's distances are no longer than any walk, and `getPath` returns a walk of that length.
- The optimized segments spell out the input, alternate modes, and come from a least-cost assignment of modes.
- The chosen version is the least fitting one in its regime, and it holds the stream.

## Model

| member | source | states |
|---|---|---|
| Constants.CharacterCountIndicator | src/constants.ts:86-91 | three character-count widths per mode, one per version regime |
| Constants.EcCodewordsTable | src/constants.ts:137-158 | one error-correction codeword count per version for each level |
| Constants.EcBlocksTable | src/constants.ts:167-184 | one block count per version for each level |
| Constants.BlockShape | src/constants.ts:124-184 | for every version and level, the error-correction codewords divide evenly among the blocks and every block keeps at least one data codeword |
| Constants.DataCodewordsPositive | src/constants.ts:124-158 | every version and level leaves data codewords after error correction |
| Constants.DataCodewordsGrow | src/constants.ts:124-158 | each version holds at least six more data codewords than the one before, at every level |
| Constants.ErrorCorrectionBits | packages/core/src/qr.ts:12 | each level's format bits fit in the two bits `getFormatInfoBits` shifts into place |
| Utils.ClassOf | packages/core/src/utils.ts:24-28 | a character is numeric exactly when it is a digit, alphanumeric exactly when it is one of the other 35 charset characters, otherwise byte |
| Utils.CharsetMembership | src/constants.ts:12-13 | a character is in the 45-character alphanumeric charset exactly when it is a digit or an alphanumeric-only character |
| Utils.AlphaIndexIsIndexOf | packages/core/src/utils.ts:186-188 | the alphanumeric value of a character is its position in the charset, or -1 when it is absent |
| Utils.IndexOf | packages/core/src/utils.ts:186-188 | the first position of the character, or -1 exactly when it is absent |
| Utils.CciIndex | packages/core/src/utils.ts:57-65 | versions up to 9 use the first width, versions above 26 the third, the rest the second |
| Utils.CharCountIndicator | packages/core/src/utils.ts:57-65 | the count width is the mode's entry for the version's regime |
| Utils.CciWidthsMonotone | src/constants.ts:86-91 | count widths never shrink from one regime to the next |
| Utils.CapacityExact | packages/core/src/utils.ts:123-157 | a single-mode segment of n characters fits exactly when n is at most the capacity the formula gives |
| Utils.BitsLengthIsChunkWidth | packages/core/src/utils.ts:33-52 | the predicted payload length equals the total width of the chunks the payload encoder emits |
| Utils.NumericWidth | packages/core/src/utils.ts:33-52 | numeric payload takes 10 bits per three digits plus 4 or 7 for a remainder of one or two |
| Utils.AlphaWidth | packages/core/src/utils.ts:33-52 | alphanumeric payload takes 11 bits per pair plus 6 for an odd last character |
| Utils.ByteWidth | packages/core/src/utils.ts:33-52 | byte payload takes 8 bits per encoded byte |
| Utils.ByteChunks | packages/core/src/utils.ts:202-209 | one 8-bit chunk per encoded byte, in order |
| Utils.NumericRoundTrip | packages/core/src/utils.ts:166-183 | the numeric chunks fit their widths and decode back to the digit string |
| Utils.DigitsRoundTrip | packages/core/src/utils.ts:166-183 | a digit group's value, written with the group's digit count, is the group again |
| Utils.AlphaRoundTrip | packages/core/src/utils.ts:184-201 | the alphanumeric chunks fit their widths and decode back to the string |
| Utils.ByteRoundTrip | packages/core/src/utils.ts:202-209 | the byte chunks fit and decode back to the bytes |
| Utils.SegmentDataRoundTrip | packages/core/src/utils.ts:162-210 | for any encodable segment, the payload chunks fit their widths and decode back to the segment's text |
| Utf8.EncodeChar | packages/core/src/utils.ts:203 | a character encodes to one to four bytes, and to one exactly when it is ASCII |
| Utf8.EncodeAppend | packages/core/src/utils.ts:203 | encoding a concatenation concatenates the encodings |
| Utf8.EncodeLengthAscii | packages/core/src/utils.ts:51 | the byte count equals the character count exactly when the text is ASCII |
| Utf8.DecodeEncode | packages/core/src/utils.ts:203 | decoding the UTF-8 bytes gives back the text |
| Bits.FromToBits | packages/core/src/qr.ts:159-172 | reading back the n bits written for a value below 2^n gives the value |
| Bits.ToFromBits | packages/core/src/qr.ts:159-172 | writing the value of a bit string with its own width gives the bit string |
| Bits.ShiftedBitsFit | packages/core/src/qr.ts:160-161 | `>>>` and `& 1`, applied to a value that fits its width, yield the value's binary digits |
| BitWriter.UnpackPack | packages/core/src/qr.ts:159-172 | packing a whole number of bytes of bits into codewords and unpacking them gives the bits back |
| BitWriter.PackAppend | packages/core/src/qr.ts:162-170 | appending a bit sets exactly the next bit of the byte it falls in, and only when the bit is 1 and the byte exists |
| BitWriter.EncodeCodeword | packages/core/src/qr.ts:159-172 | after the call, the buffer holds the old bits followed by the value's bits, and the bit length grows by the width |
| Codeword.AlignToByte | packages/core/src/qr.ts:219-221 | alignment leaves a whole number of bytes |
| Codeword.PadTest | packages/core/src/qr.ts:223-226 | the real-valued loop guard admits exactly the pad indices below the integer pad count |
| Codeword.SegmentStreamLength | packages/core/src/qr.ts:188-213 | a segment's stream is 4 mode bits, the count width and the payload length |
| Codeword.AlignedShape | packages/core/src/qr.ts:215-221 | terminator and alignment keep the stream as a prefix, add only zero bits, add at least 4 bits when room allows, and never pass the data capacity |
| Codeword.FinishLength | packages/core/src/qr.ts:215-226 | a stream that fits is filled to exactly the data capacity, with the stream as a prefix |
| Codeword.FinishPads | packages/core/src/qr.ts:223-226 | after the aligned stream, the pad bytes alternate 0xEC and 0x11 |
| Codeword.FinishOverflow | packages/core/src/qr.ts:215-226 | a stream longer than the capacity gets no terminator and no pads, only alignment |
| Codeword.DataCodewords | packages/core/src/qr.ts:177-226 | the data codewords number exactly the version's data codeword count |
| Codeword.DataCodewordsBits | packages/core/src/qr.ts:177-226 | when the segments fit, the data codewords' bits are the finished stream |
| Codeword.SegmentRoundTrip | packages/core/src/qr.ts:188-213 | any encodable segment parses back from its own stream, leaving the rest of the bits untouched |
| Codeword.SegmentsRoundTrip | packages/core/src/qr.ts:188-213 | a sequence of segments parses back from their concatenated streams, before a zero terminator |
| Codeword.FinalStreamRoundTrip | packages/core/src/qr.ts:188-226 | the terminated, aligned and padded stream parses back to exactly the segments written |
| Codeword.WriteChunks | packages/core/src/qr.ts:203-211 | writing chunks appends their bits to the buffer |
| Codeword.WriteSegment | packages/core/src/qr.ts:188-213 | writing a segment appends its mode, count and payload bits |
| Codeword.WriteSegments | packages/core/src/qr.ts:188-213 | writing all segments leaves their whole stream in the buffer |
| Codeword.WritePadding | packages/core/src/qr.ts:215-226 | terminator, alignment and pads leave the finished stream in the buffer |
| Codeword.WritePads | packages/core/src/qr.ts:223-226 | the pad loop appends the alternating pad bytes |
| Codeword.GenerateDataCodewords | packages/core/src/qr.ts:177-226 | the data codeword buffer built by the loops equals the functional data codewords |
| GaloisField.DoubleIsTableStep | src/reed-solomon.ts:6-15 | one step of `initTables` doubles the value and reduces by 0x11D when it overflows a byte |
| GaloisField.ExpValues | src/reed-solomon.ts:6-15 | powers 15, 51 and 85 of the generator are not 1, and power 255 is 1 |
| GaloisField.ExpOrder | src/reed-solomon.ts:6-15 | the generator has order 255: no smaller positive power is 1 |
| GaloisField.ExpInjective | src/reed-solomon.ts:6-15 | the first 255 exponent-table entries are distinct |
| GaloisField.ExpSurjective | src/reed-solomon.ts:6-15 | every non-zero byte is a power of the generator |
| GaloisField.ExpLog | src/reed-solomon.ts:6-15 | the log table inverts the exponent table on non-zero bytes |
| GaloisField.LogExp | src/reed-solomon.ts:6-15 | the exponent table inverts the log table on exponents below 255 |
| GaloisField.InitTables | src/reed-solomon.ts:6-15 | the loop fills exp with the generator's powers and log with their inverse, the last write winning |
| GaloisField.GfMulPowers | src/reed-solomon.ts:18-21 | multiplying two powers of the generator adds exponents |
| GaloisField.GfMulCommutative | src/reed-solomon.ts:18-21 | the product is commutative |
| GaloisField.GfMulZero | src/reed-solomon.ts:18-21 | a product is zero exactly when a factor is zero |
| GaloisField.GfMulDistributive | src/reed-solomon.ts:18-21 | multiplication distributes over XOR |
| GaloisField.GfMulAssociative | src/reed-solomon.ts:18-21 | the product is associative |
| Field.TimesZero | src/reed-solomon.ts:18-21 | field elements have no zero divisors |
| Field.AlphaAdd | src/reed-solomon.ts:18-21 | powers of alpha multiply by adding exponents modulo 255 |
| Polynomial.EvalProduct | src/reed-solomon.ts:24-32 | evaluating a product of polynomials is the product of the evaluations |
| Polynomial.ProductLeading | src/reed-solomon.ts:24-32 | the leading coefficient of a product is the product of the leading coefficients |
| Polynomial.ProductCoefficient | src/reed-solomon.ts:24-32 | each coefficient of the product is the convolution sum |
| ReedSolomon.PolyMul | src/reed-solomon.ts:24-32 | the nested loops compute the polynomial product |
| ReedSolomon.GenerateGenerator | src/reed-solomon.ts:35-41 | the loop builds the product of (x - alpha^i) for i below n |
| ReedSolomon.GeneratorLeading | src/reed-solomon.ts:35-41 | the generator is monic |
| ReedSolomon.GeneratorRoots | src/reed-solomon.ts:35-41 | the generator vanishes at alpha^0 through alpha^(n-1) |
| ReedSolomon.RsEncode | src/reed-solomon.ts:44-59 | the result has n bytes, or the message length when n is 0 |
| ReedSolomon.RsEncodeMethod | src/reed-solomon.ts:44-59 | the synthetic-division loop and the final slice compute the remainder |
| ReedSolomon.RsDivisible | src/reed-solomon.ts:44-59 | message followed by remainder is a multiple of the generator |
| ReedSolomon.RsSyndromes | src/reed-solomon.ts:44-59 | message followed by remainder vanishes at every root of the generator |
| ReedSolomon.RsLinear | src/reed-solomon.ts:44-59 | the remainder of a sum of messages is the sum of their remainders |
| ReedSolomon.RsZero | src/reed-solomon.ts:44-59 | the zero message has the zero remainder |
| ReedSolomon.RsEncodeNone | src/reed-solomon.ts:56-58 | with no error-correction bytes, `slice(-0)` returns the whole zero buffer |
| Blocks.SourceLayoutSplits | packages/core/src/qr.ts:228-238 | the block split covers exactly the data codewords, with the remainder going to the last blocks |
| Blocks.LayoutOf | packages/core/src/qr.ts:228-238 | a version and level's layout has the table's total, error-correction and block counts |
| Blocks.DataBlocksJoin | packages/core/src/qr.ts:244-255 | the data blocks, joined in order, are the data codewords |
| Blocks.BlockIsCodeword | packages/core/src/qr.ts:244-255 | each data block followed by its error-correction block vanishes at every generator root |
| Blocks.CodewordSequence | packages/core/src/qr.ts:257-272 | the final sequence has exactly the version's total codeword count |
| Blocks.CodewordDataAt | packages/core/src/qr.ts:257-265 | byte i of data block b sits at its column-major position in the data part |
| Blocks.CodewordEcAt | packages/core/src/qr.ts:267-272 | byte i of error-correction block b sits at i·blocks + b after the data part |
| Blocks.CodewordSequenceRecover | packages/core/src/qr.ts:228-272 | de-interleaving the final sequence recovers the data codewords and the error-correction blocks |
| Interleaving.InterleaveAt | packages/core/src/qr.ts:257-265 | the interleaved sequence has the staircase's size, and each block entry sits at its position |
| Interleaving.DeinterleaveInterleave | packages/core/src/qr.ts:257-272 | de-interleaving an interleaving gives back the blocks |
| Interleaving.InterleaveDeinterleave | packages/core/src/qr.ts:257-272 | interleaving a de-interleaving gives back the sequence |
| BlockAssembly.EncodeBlocks | packages/core/src/qr.ts:228-255 | the block loop records each block's start and stores every block's remainder in order |
| BlockAssembly.InterleaveData | packages/core/src/qr.ts:257-265 | the data loop writes the column-major interleaving of the data blocks |
| BlockAssembly.InterleaveEc | packages/core/src/qr.ts:267-272 | the error-correction loop appends the interleaved error-correction blocks |
| BlockAssembly.GenerateCodewords | packages/core/src/qr.ts:228-272 | the whole block stage yields the final codeword sequence |
| Qr.GenerateCodeword | packages/core/src/qr.ts:177-273 | `#generateCodeword` yields the data codewords, split into blocks, encoded and interleaved |
| Qr.Codewords | packages/core/src/qr.ts:177-273 | the codewords number exactly the version's total |
| InfoBits.VersionFields | packages/core/src/utils.ts:70-87 | the 18-bit version information carries the version in its top six bits |
| InfoBits.VersionSyndrome | packages/core/src/utils.ts:70-87 | dividing the version information again by 0x1F25 leaves no remainder |
| InfoBits.VersionFirstEntry | packages/core/src/utils.ts:70-87 | version 7's information is 0x07C94, the first entry of the standard's table |
| InfoBits.VersionLastEntry | packages/core/src/utils.ts:70-87 | version 40's information is 0x28C69, the last entry of the standard's table |
| InfoBits.FormatFields | packages/core/src/utils.ts:92-118 | the 15-bit format information, unmasked by 0x5412, carries level and mask in its top five bits |
| InfoBits.FormatSyndrome | packages/core/src/utils.ts:92-118 | the unmasked format information leaves no remainder modulo 0x537 |
| InfoBits.FormatKnownValues | packages/core/src/utils.ts:92-118 | three format words agree with the standard's table |
| InfoBits.FormatInjective | packages/core/src/utils.ts:92-118 | distinct level and mask pairs get distinct format words |
| Matrix.Blank | packages/core/src/qr.ts:81 | a new grid is light and unreserved everywhere |
| Matrix.Paint | packages/core/src/qr.ts:388-416 | painting writes a cell's bit and reservation exactly where the write function asks |
| Matrix.PaintExtends | packages/core/src/qr.ts:278-535 | painting never frees a reserved cell or changes a reserved cell's bit |
| Matrix.FlatIndex | packages/core/src/qr.ts:81 | cell (r, c) is entry r·size + c of the flat array |
| FunctionPatterns.FinderRing | packages/core/src/qr.ts:388-416 | in a finder block, a module is dark exactly when it is not on the ring at distance 2 from the centre |
| FunctionPatterns.AlignmentRing | packages/core/src/qr.ts:388-416 | in an alignment block, a module is dark exactly when it is not on the ring at distance 1 from the centre |
| FunctionPatterns.FinderCells | packages/core/src/qr.ts:445-462 | each of the three corners carries a reserved 7×7 finder pattern |
| FunctionPatterns.FinderFrame | packages/core/src/qr.ts:445-462 | cells outside the three corner blocks are left unchanged by the finder stage |
| FunctionPatterns.TimingCells | packages/core/src/qr.ts:421-440 | row 6 and column 6 between the finders alternate dark and light, starting dark, and are reserved |
| FunctionPatterns.VersionInfoCells | packages/core/src/qr.ts:514-535 | each of the 18 version bits is written, reserved, to its two transposed cells |
| FunctionPatterns.LeftGuard | packages/core/src/qr.ts:350-366 | the flat-index bound test in `#reserveFinderSeparatorBits` is the same as the row-in-range test |
| FunctionPatterns.RightGuard | packages/core/src/qr.ts:352-378 | the flat-index bound test on the right-hand separator is the same as the row-in-range test |
| FunctionPatterns.ReserveBitsAt | packages/core/src/qr.ts:278-340 | the reservation stage is the separator marks, then the format area, then the dark module |
| FunctionPatterns.DarkModuleSet | packages/core/src/qr.ts:333-339 | the module at (size-8, 8) is dark and reserved as the dark module |
| FunctionPatterns.TopLeftSeparator | packages/core/src/qr.ts:345-383 | the top-left finder's separator row and column are reserved light |
| FunctionPatterns.TopRightSeparator | packages/core/src/qr.ts:345-383 | the top-right finder's separator row and column are reserved light |
| FunctionPatterns.BottomLeftSeparator | packages/core/src/qr.ts:345-383 | the bottom-left finder's separator row and column are reserved light |
| FunctionPatterns.FormatPlacement | packages/core/src/qr.ts:540-601 | format bit i goes to its cell in column 8 and its cell in row 8 |
| FunctionPatterns.FormatAreaExact | packages/core/src/qr.ts:290-330 | the format information writes exactly the cells the reservation stage set aside for it |
| FunctionPatterns.FormatKeepsFree | packages/core/src/qr.ts:540-601 | writing format information leaves every cell outside the format area unchanged |
| Alignment.AlignmentPositions | packages/core/src/qr.ts:474-483 | there are version/7+2 positions, from 6 to 4·version+10 |
| Alignment.PositionSpacing | packages/core/src/qr.ts:474-483 | positions are at least 5 apart, so alignment patterns never overlap |
| Alignment.PositionsDistinct | packages/core/src/qr.ts:474-483 | no position repeats |
| Alignment.BuildPositions | packages/core/src/qr.ts:474-483 | the position loop computes the positions |
| Alignment.PairsMembership | packages/core/src/qr.ts:485-508 | the walk visits exactly the position pairs that are not finder corners, in row-major order |
| Alignment.PairsTotal | src/constants.ts:35 | the walk's pair count is the constant table's total for each count of positions |
| Alignment.CentresExact | packages/core/src/qr.ts:485-508 | a pair of positions is a centre exactly when it is not one of the three finder corners |
| Alignment.CentresCount | src/constants.ts:35 | the number of centres is the table's total for the version |
| Alignment.WalkPairs | packages/core/src/qr.ts:485-508 | the skip-the-corners walk emits the centres in order |
| Alignment.AlignmentCentres | packages/core/src/qr.ts:467-509 | the whole alignment loop emits exactly the version's centres |
| Alignment.ClearOfFinders | packages/core/src/qr.ts:485-508 | no alignment pattern drawn overlaps a finder block |
| Placement.PathIndexInverse | packages/core/src/qr.ts:606-634 | every cell outside column 6 has a place on the zigzag, and that place holds the cell |
| Placement.PathVisitsOnce | packages/core/src/qr.ts:606-634 | each place on the zigzag is the only one holding its cell |
| Placement.PathCell | packages/core/src/qr.ts:606-634 | the zigzag stays inside the grid and never enters column 6 |
| Placement.PlaceCodewords | packages/core/src/qr.ts:606-634 | placing codewords keeps the size and every reservation |
| Placement.FillCodeword | packages/core/src/qr.ts:606-634 | the nested placement loops compute the functional placement |
| Placement.ReadBack | packages/core/src/qr.ts:606-634 | on a grid whose free cells are light, reading the free cells along the zigzag gives the codeword bits in order |
| Placement.ReadBackWhole | packages/core/src/qr.ts:606-634 | when the free cells are enough, the first 8·n bits read back are all n codewords |
| Masking.ApplyMask | packages/core/src/qr.ts:661-673 | masking keeps the size and every reservation |
| Masking.MaskKeepsReserved | packages/core/src/qr.ts:661-673 | reserved modules, including the dark module, are unchanged by masking |
| Masking.MaskFlips | packages/core/src/qr.ts:661-673 | a free module flips exactly when the mask pattern selects it |
| Masking.MaskInvolution | packages/core/src/qr.ts:661-673 | applying the same mask twice restores the symbol |
| Masking.EarliestMinimumUnique | packages/core/src/qr.ts:639-656 | at most one index is the earliest least penalty |
| Masking.SelectLowest | packages/core/src/qr.ts:640-652 | the strict-less-than scan picks the earliest least penalty |
| Masking.BestMask | packages/core/src/qr.ts:639-656 | the chosen mask is the earliest one with the least penalty among all eight candidates |
| Masking.Mask | packages/core/src/qr.ts:639-656 | `#mask` returns the best mask and the symbol masked with it and given its format information |
| Penalty.RunsUnique | packages/core/src/utils.ts:219-251 | a line has only one decomposition into maximal runs |
| Penalty.RunsDecompose | packages/core/src/utils.ts:219-251 | the runs of a line are maximal and expand back to the line |
| Penalty.ScanLine | packages/core/src/utils.ts:219-251 | the run-counting loop scores 3 + (length - 5) for every maximal run of five or more |
| Penalty.LinesPenalty | packages/core/src/utils.ts:219-251 | rule 1 is the run score summed over every row and every column |
| Penalty.BlocksPenalty | packages/core/src/utils.ts:254-265 | rule 2 scores 3 for every 2×2 block of one colour |
| Penalty.HitWindow | packages/core/src/utils.ts:268-288 | a window is scored exactly when it is one of the two finder-like 11-module patterns |
| Penalty.MatchWindow | packages/core/src/utils.ts:268-288 | the row and column checks at a window detect exactly those patterns |
| Penalty.WindowsPenalty | packages/core/src/utils.ts:268-288 | rule 3 scores 40 for every finder-like window, in rows and in columns |
| Penalty.DarkModules | packages/core/src/utils.ts:291-293 | the counting loop counts the dark modules |
| Penalty.BalancePenalty | packages/core/src/utils.ts:291-300 | rule 4 is the balance score of the dark count over all modules |
| Penalty.Rule4Closed | packages/core/src/utils.ts:294-300 | the floor-and-ceiling formula equals 10 times the number of whole 5% steps the dark share lies from 50% |
| Penalty.Rule4Zero | packages/core/src/utils.ts:294-300 | rule 4 scores nothing exactly when the dark share lies strictly between 45% and 55% |
| Penalty.Rule4Complement | packages/core/src/utils.ts:294-300 | swapping dark and light does not change rule 4 |
| Penalty.Rule4Bound | packages/core/src/utils.ts:294-300 | rule 4 never exceeds 100, and an all-light or all-dark symbol scores 100 |
| Penalty.GetMaskPenalty | packages/core/src/utils.ts:215-303 | the penalty is the sum of the four rules |
| Segmentation.RunLength | packages/core/src/segment.ts:26-48 | a run is as long as its first character's class lasts |
| Segmentation.BasicSegmentsRuns | packages/core/src/segment.ts:26-48 | the basic segments spell out the input as non-empty runs of one class, with neighbours of different classes |
| Segmentation.BasicSegmentsUnique | packages/core/src/segment.ts:26-48 | only one segmentation has that property, so it defines the basic segments |
| Segmentation.Connects | packages/core/src/segment.ts:72-84 | each run may be encoded in its own mode or a wider one, and the text is kept |
| Segmentation.BitsLengthGrows | packages/core/src/utils.ts:33-52 | a longer text never takes fewer payload bits in the same mode |
| Segmentation.MergeRunsText | packages/core/src/segment.ts:122-133 | merging neighbours of the same mode keeps the text |
| Segmentation.MergeRunsAlternate | packages/core/src/segment.ts:122-133 | after merging, neighbours always differ in mode |
| Segmentation.SegmentGraph | packages/core/src/segment.ts:61-115 | the graph has one start, one end and three nodes per run, with the out-edges the source builds |
| Segmentation.SegmentGraphShape | packages/core/src/segment.ts:61-115 | every edge stays in the graph and leads to a later node |
| Segmentation.ChoiceIsWalk | packages/core/src/segment.ts:61-115 | every choice of modes is a start-to-end walk whose weights are that choice's step costs |
| Segmentation.WalkIsChoice | packages/core/src/segment.ts:61-115 | every start-to-end walk is the walk of some choice of modes, with the same weights |
| Segmentation.MergeChoice | packages/core/src/segment.ts:117-133 | merging along a choice's path is merging the assigned segments |
| Segmentation.OptimizedChoice | packages/core/src/segment.ts:57-136 | the optimized segments merge a choice of modes that costs no more than any other choice |
| Segmentation.OptimizedSegmentsCorrect | packages/core/src/segment.ts:57-136 | the optimized segments spell out the input in encodable modes, alternate modes, and are empty only for empty input |
| Segmentation.OptimizedEmpty | packages/core/src/segment.ts:57-136 | no segments in, none out |
| ShortestPath.Enqueue | packages/core/src/dijkstra.ts:7-10 | enqueueing adds one entry |
| ShortestPath.EnqueueStable | packages/core/src/dijkstra.ts:7-10 | the stable sort puts the new entry after every entry of equal or lower priority and before the higher ones, the rest in their order |
| ShortestPath.EnqueuePermutes | packages/core/src/dijkstra.ts:7-10 | enqueueing adds exactly the new entry to the queue's multiset |
| ShortestPath.Dequeue | packages/core/src/dijkstra.ts:12-14 | dequeueing an empty queue gives nothing; otherwise it removes exactly one entry |
| ShortestPath.DequeueMinimum | packages/core/src/dijkstra.ts:12-14 | on a sorted queue, the node dequeued has the least priority |
| ShortestPath.Dijkstra | packages/core/src/dijkstra.ts:30-67 | there is one distance and one predecessor per node |
| ShortestPath.NoShorterWalk | packages/core/src/dijkstra.ts:30-67 | every node a walk from the start reaches has a distance no longer than that walk |
| ShortestPath.DijkstraBackward | packages/core/src/dijkstra.ts:30-67 | on a graph whose edges lead forward, predecessors point to earlier nodes |
| ShortestPath.GetPath | packages/core/src/dijkstra.ts:69-88 | a non-empty path runs from the start to the target |
| ShortestPath.UnreachedNoPath | packages/core/src/dijkstra.ts:69-88 | an unreached target gets the empty path |
| ShortestPath.ShortestPathCorrect | packages/core/src/dijkstra.ts:30-88 | the path is a walk whose weight is the target's distance, and no walk to the target is lighter |
| Version.Regime | packages/core/src/qr.ts:111-112 | each regime's segments are encodable and spell out the input |
| Version.FirstFit | packages/core/src/qr.ts:138-147 | the search returns the least version in range whose capacity holds the bits, or 0 when none does |
| Version.RegimeFit | packages/core/src/qr.ts:111-147 | within a regime, the version found is the least that holds that regime's segments, or 0 |
| Version.CapacityMonotone | packages/core/src/utils.ts:123-157 | capacity never shrinks as the version grows |
| Version.GetVersionSpec | packages/core/src/qr.ts:106-154 | `#getVersion` returns the least fitting version of the first regime that has one, with that regime's segments, or 0 |
| Version.VersionHoldsData | packages/core/src/qr.ts:106-154 | a non-zero version holds the chosen segments' bit stream within its data capacity |
| Qr.PlanSpec | packages/core/src/qr.ts:67-79 | the planned segments spell out the input in encodable modes, and a non-zero version holds their stream |
| Qr.StageExtends | packages/core/src/qr.ts:89-99 | no drawing stage frees a reserved module or changes a reserved module's bit |
| Qr.DrawnExtends | packages/core/src/qr.ts:89-99 | later stages keep everything earlier stages reserved |
| Qr.FramedFreeLight | packages/core/src/qr.ts:89-99 | after all function patterns, every free module is still light |
| Qr.FramedColumn6 | packages/core/src/qr.ts:89-99 | column 6 is entirely reserved before codewords are placed |
| Qr.FilledReadsBack | packages/core/src/qr.ts:89-100 | reading the free modules of the filled symbol along the zigzag gives the codeword bits |
| Qr.FinalModule | packages/core/src/qr.ts:89-101 | each free module of the finished symbol is the placed bit XOR the mask pattern |
| Qr.UnmaskAt | packages/core/src/qr.ts:639-673 | unmasking the finished symbol restores the placed bit at every free module |
| Qr.DecodesBack | packages/core/src/qr.ts:89-101 | unmasking the finished symbol and reading its free modules along the zigzag gives the codeword bit stream |
| Qr.Render | packages/core/src/qr.ts:90-100 | the flat module array is the symbol masked with the best mask, and has size² entries |
| Qr.GenerateQr | packages/core/src/qr.ts:89-101 | the codewords are those of the segments, and the symbol is rendered from them |
| Qr.Encode | packages/core/src/qr.ts:67-87 | empty input fails, input no version holds fails, and otherwise the code holds the planned segments, which spell out the input |

## Left out

- Strings are sequences of Unicode scalar values. In the source they are UTF-16: `.length` (packages/core/src/qr.ts:121, :202, packages/core/src/utils.ts:34) counts code units, so a character outside the BMP counts as two. `TextEncoder` turns a lone surrogate into EF BF BD. For well-formed strings the bytes are the same. Numeric and alphanumeric text is ASCII, so only byte-mode counts of non-BMP characters differ.
- packages/core/src/constants.ts is not part of this model. `ERROR_CORRECTION_BITS` and `MASK_PATTERNS`, which `QR` imports from it (packages/core/src/qr.ts:12, :16), are taken from ISO/IEC 18004:2015: Table 12 in section 7.9.1 for the level bits, and Table 10 in section 7.8.2 for the mask conditions.
- Kanji mode: `getBasicInputSegments` never produces it. `Utils.Capacity` keeps the Kanji case of `getCapacity` (packages/core/src/utils.ts:149-151). There is no Kanji payload encoder, so the encoders and round trips require modes other than Kanji.
- Utils.CapacityExact: `getCapacity` computes `Math.floor((u / 10) * 3)` in floating point. The model uses the integer `u * 3 / 10`. The two are equal for the non-negative values that occur, but that equality is not derived from floating-point semantics.
- The options object and its default level (M) are not modelled: the level is a parameter of `Qr.Encode`. Rendering (SVG and React), the server package and all I/O are not part of the model.
- When `#getVersion` finds no version, the source goes on to build a grid of size 17 with `CODEWORDS[-1]`. `Qr.Encode` returns `Failure(CapacityExceeded)` instead, since that computation has no defined result.
- `#encodeCodeword` may write `codewords[codewordIndex + 1] = 0` one past the end. On a `Uint8Array` that write is ignored, so the model has no such write.
- Graph nodes are numbered instead of keyed by strings, and the graph is a sequence of out-edge lists. `dijkstra`'s queue is a stable sorted insertion, which is what `push` followed by the stable `sort` does.
- ShortestPath.Dijkstra: requires the start node to be in the graph and every edge to stay in it, which the segment graph meets. ShortestPath.GetPath requires predecessors to point to earlier nodes, which holds on the forward segment graph (`ShortestPath.DijkstraBackward`). The source's `getPath` on an arbitrary predecessor map may loop; that case is not modelled.
- Qr.DecodesBack: states that the free modules read back the first `FreeCount` bits of the codeword stream. That `FreeCount` is at least 8·CODEWORDS[v-1] for every version is not proved, so the whole-stream read-back (`Placement.ReadBackWhole`) is not instantiated for the composed symbol.
- `#mask` builds each candidate in a fresh copy of `data` (`#applyMask(i, true)`), and masks `data` itself only once, with the best pattern. The model builds each candidate as a separate symbol (`Masking.Candidate`), which yields the same penalties and the same result. Each trial's `#fillFormatInfo` also rewrites `reservedBits` at the format cells; those cells are already reserved by `#reserveBits`, so no free module changes (`FunctionPatterns.FormatAreaExact`, `FunctionPatterns.FormatCellsReserved`), and the model does not repeat the writes.
- `#fillFormatInfo`'s optional `qrData` argument, used by `#mask` to write into a scratch copy, is modelled by applying the same function to the candidate symbol.
- Numbers are unbounded integers. All values the source computes stay below 2^32 on valid inputs, and the shifts in `#encodeCodeword` are modelled as `>>>` on a 32-bit value (`Bits.ShiftedBits`).
