# Verified model of the risky cores of APN auto-configuration

This project models four parts of the APN auto-configuration packages and proves what
they are for. `dafny verify dfyconfig.toml` checks all of it.

**QR activation codes.** `FieldAddition`, `WordPowers`, `GF256`, `Polynomials`,
`PolynomialFacts`, `KeyEquation`, `ErrorPolynomials`, `ReedSolomon`, `ReedSolomonEncoder` and
`DecoderTheorems` are the mathematics of Reed-Solomon decoding; `CoefficientArrays` and `ReedSolomonDecoder` are the
field tables, the array polynomials, the Euclidean algorithm, the Chien search, Forney's
formula and `decode`, each with its loops and each proved to compute the mathematics.
`BitStreams`, `Segments` and `DataDecoder` read the segments of ISO/IEC 18004:2015 section
7.4, whose tables `SegmentTables` writes out; `Blocks` undoes the interleaving of section 7.6 (`RowMajor` holds its index
arithmetic); `Matrices` and `CodewordReader` undo the placement and masking of sections 7.7
and 7.8; `MaskTiles` has the masks as tiles, `SymbolCapacity` counts the data modules and
`VersionTable` holds the forty versions; `SymbolDecoder` joins them. The result for a user: given the true version and
format, a symbol is decoded to what was encoded although in each block as many codewords are
damaged as half the number of its check codewords.

**The QMI UIM transport.** `QmiFrames` has the TLV area and the request buffer,
`QmiExchange` the transaction numbers and the waiting loop, `SlotReport` the two-cursor
slot parser. `UimProtocol` is the session on values: what each command sends, answers and
leaves behind, and the invariants of every run. `UimCommands` has the lines and the request bytes
written out. `UimModem` sets a modem beside it, with its own
open channels, that acts on the bytes of each request and whose answers may come late; it is
proved to hold what the session believes. `UimAnswers` compares what the session says with the
documented tokens. `UimSession` is the process with its fields, whose methods are proved to
follow the session on values. The kernel is a script for each exchange: whether the request was
written, and the events that the waiting loop meets, in any order and with any content.

**The HTTP response reader.** `HttpStream` has the connection (a peer that splits its bytes
in any way, with retries and any kind of end) and the prefix-then-connection stream;
`HttpBody` the three body framings of RFC 9112; `HttpHeaders` the header fields;
`HttpResponse` the header-gathering loop over the shared buffer and the response as a whole;
`HttpMessages` has whole responses written out.

**The provider database.** `ProviderRows` has rows, keys, validation and the line format,
`ProviderMerge` the keyed merge and the retention of previous rows, `ProviderGate` the
counts of the release gate.

`Basics`, `Options` and `Text` hold what these share.

Where the code is imperative the model is: a class with the same fields, or a method with
the same loops, proved against a function whose properties are then lemmas.

## Where the code differs from its comments

- `decode` of the Reed-Solomon module does not always answer with a codeword. The exact
  condition is `DecoderTheorems.DecodeCodewordIffNear`; `DecoderTheorems.NotACodeword` is an
  input.
- `readBits(32)` is negative when the first bit is set; the contract of `ReadBits` says so
  through `ToInt32`, which is the identity up to 31 bits.
- The comment on `next_transaction` says zero is avoided. It is in the 16-bit number, but the
  control service sends the low byte only: `QmiExchange.ControlTransactionZero`.
- The header of the UIM program lists the token `protocol` for an answer that cannot be
  parsed. When the lengths of an answer disagree the commands print `err device`, and when it
  has no result, which the comment on `qmi_result` calls a protocol error, `err qmi 0`.
  `UimAnswers.OpenTokens`, `TransmitTokens` and `SlotsTokens` give the exact condition,
  `UimAnswers.WrongLength` is a frame. The close command prints `err qmi` for every failure:
  `UimAnswers.CloseTokens`.
- A channel numbered 20 or more can be opened but not closed by command:
  `UimAnswers.AnyChannelOpens`; `UimProtocol.CloseReachesModem` is the exact condition. Only the
  cleanup gives it back: `UimModem.WhatIsLeftOpen`.
- A header block of exactly 32768 bytes can cost the first body byte:
  `HttpResponse.StreamExact` and `HttpResponse.SplitsDoNotMatter` give the conditions,
  `HttpResponse.LongResponseDiffers` is a response.
- Retention "demotes" a previous row only below priority 900000; above that it promotes it:
  `ProviderMerge.DemotionRanks`.

## Model

| member | source | states |
|---|---|---|
| GF256.MulComm | luci-app-apn-autoconfig/htdocs/luci-static/resources/apn-autoconfig/jsQR.js:126-150 | the reference product of the field (carry-less product reduced by 0x11D) is commutative |
| GF256.MulAssoc | luci-app-apn-autoconfig/htdocs/luci-static/resources/apn-autoconfig/jsQR.js:126-150 | the reference product of the field is associative |
| GF256.MulDistributes | luci-app-apn-autoconfig/htdocs/luci-static/resources/apn-autoconfig/jsQR.js:121-150 | the reference product of the field distributes over exclusive or, for all bytes |
| GF256.MulZero | luci-app-apn-autoconfig/htdocs/luci-static/resources/apn-autoconfig/jsQR.js:146-151 | a product is zero exactly when a factor is |
| GF256.MulInverse | luci-app-apn-autoconfig/htdocs/luci-static/resources/apn-autoconfig/jsQR.js:152-157 | every non-zero byte times its inverse is 1, and the inverse is not zero |
| GF256.OrderIs255 | luci-app-apn-autoconfig/htdocs/luci-static/resources/apn-autoconfig/jsQR.js:132-139 | no power of 2 below the 255th is 1, so the power table has no early repetition |
| GF256.ExpSurjective | luci-app-apn-autoconfig/htdocs/luci-static/resources/apn-autoconfig/jsQR.js:140-142 | every non-zero byte is one of the first 255 powers of 2, so the logarithm table has no gap |
| GF256.ExpCycle | luci-app-apn-autoconfig/htdocs/luci-static/resources/apn-autoconfig/jsQR.js:146-151 | powers depend on the exponent modulo 255 only, which is why table lookup may reduce the sum of logarithms |
| CoefficientArrays.GenericGF.constructor | luci-app-apn-autoconfig/htdocs/luci-static/resources/apn-autoconfig/jsQR.js:126-145 | the constructed tables hold the powers of 2 and the logarithms of all non-zero bytes |
| CoefficientArrays.FillPowers | luci-app-apn-autoconfig/htdocs/luci-static/resources/apn-autoconfig/jsQR.js:131-138 | the first loop stores the k-th power of 2 at k, for all 256 entries |
| CoefficientArrays.FillLogarithms | luci-app-apn-autoconfig/htdocs/luci-static/resources/apn-autoconfig/jsQR.js:140-142 | the second loop stores the logarithm of every non-zero byte |
| CoefficientArrays.GenericGF.Multiply | luci-app-apn-autoconfig/htdocs/luci-static/resources/apn-autoconfig/jsQR.js:146-151 | the table product equals the carry-less product modulo 0x11D, for all pairs of bytes |
| CoefficientArrays.GenericGF.Inverse | luci-app-apn-autoconfig/htdocs/luci-static/resources/apn-autoconfig/jsQR.js:152-157 | the table inverse is the field inverse |
| Polynomials.PlusAssoc | luci-app-apn-autoconfig/htdocs/luci-static/resources/apn-autoconfig/jsQR.js:227-249 | polynomial addition is associative |
| Polynomials.PlusCancels | luci-app-apn-autoconfig/htdocs/luci-static/resources/apn-autoconfig/jsQR.js:227-249 | a sum is zero exactly when both summands are equal |
| Polynomials.TimesComm | luci-app-apn-autoconfig/htdocs/luci-static/resources/apn-autoconfig/jsQR.js:264-280 | the product of polynomials of any length is commutative |
| Polynomials.TimesAssoc | luci-app-apn-autoconfig/htdocs/luci-static/resources/apn-autoconfig/jsQR.js:264-280 | the product of polynomials of any length is associative |
| Polynomials.TimesPlusLeft | luci-app-apn-autoconfig/htdocs/luci-static/resources/apn-autoconfig/jsQR.js:227-280 | the product of polynomials distributes over addition |
| Polynomials.TimesOne | luci-app-apn-autoconfig/htdocs/luci-static/resources/apn-autoconfig/jsQR.js:264-280 | the constant 1 is the unit of the product on both sides |
| Polynomials.LenTimes | luci-app-apn-autoconfig/htdocs/luci-static/resources/apn-autoconfig/jsQR.js:264-280 | degrees add in a product of non-zero polynomials, and the leading coefficients multiply |
| Polynomials.EvalPlus | luci-app-apn-autoconfig/htdocs/luci-static/resources/apn-autoconfig/jsQR.js:295-316 | evaluation is additive: the value of a sum is the sum of the values |
| Polynomials.EvalTimes | luci-app-apn-autoconfig/htdocs/luci-static/resources/apn-autoconfig/jsQR.js:295-316 | evaluation is multiplicative: the value of a product is the product of the values |
| PolynomialFacts.RootBound | luci-app-apn-autoconfig/htdocs/luci-static/resources/apn-autoconfig/jsQR.js:8199-8217 | a non-zero polynomial has fewer distinct roots than coefficients, which bounds the Chien search |
| CoefficientArrays.GenericGFPoly | luci-app-apn-autoconfig/htdocs/luci-static/resources/apn-autoconfig/jsQR.js:192-217 | the constructor strips leading zeros and keeps the polynomial; the result has no leading zero unless it is the zero polynomial |
| CoefficientArrays.AddOrSubtract | luci-app-apn-autoconfig/htdocs/luci-static/resources/apn-autoconfig/jsQR.js:227-249 | the aligned loops compute the sum, in normal form |
| CoefficientArrays.MultiplyScalar | luci-app-apn-autoconfig/htdocs/luci-static/resources/apn-autoconfig/jsQR.js:250-263 | the loop multiplies every coefficient by the scalar, with its shortcuts for 0 and 1 |
| CoefficientArrays.MultiplyByMonomial | luci-app-apn-autoconfig/htdocs/luci-static/resources/apn-autoconfig/jsQR.js:281-294 | the result is the polynomial times the monomial |
| CoefficientArrays.BuildMonomial | luci-app-apn-autoconfig/htdocs/luci-static/resources/apn-autoconfig/jsQR.js:158-168 | the result is the monomial |
| CoefficientArrays.AddRow | luci-app-apn-autoconfig/htdocs/luci-static/resources/apn-autoconfig/jsQR.js:275-277 | the inner loop adds one multiple of a polynomial to a stretch of the product |
| CoefficientArrays.MultiplyPoly | luci-app-apn-autoconfig/htdocs/luci-static/resources/apn-autoconfig/jsQR.js:264-280 | the nested loops compute the product of the two polynomials |
| CoefficientArrays.EvaluateAt | luci-app-apn-autoconfig/htdocs/luci-static/resources/apn-autoconfig/jsQR.js:295-316 | Horner's loop and both shortcuts compute the value of the polynomial |
| KeyEquation.InitialInvariant | luci-app-apn-autoconfig/htdocs/luci-static/resources/apn-autoconfig/jsQR.js:8156-8166 | the start of the loop satisfies the loop's invariant |
| KeyEquation.StepKeepsInvariant | luci-app-apn-autoconfig/htdocs/luci-static/resources/apn-autoconfig/jsQR.js:8168-8191 | every iteration keeps r congruent to t times S and rLast to tLast times S modulo x^R, keeps deg t + deg rLast = R, and the degree of r strictly falls |
| KeyEquation.RunSound | luci-app-apn-autoconfig/htdocs/luci-static/resources/apn-autoconfig/jsQR.js:8167-8197 | from any state with the invariant, a result solves the key equation with the stated degrees |
| KeyEquation.KeyEquationSound | luci-app-apn-autoconfig/htdocs/luci-static/resources/apn-autoconfig/jsQR.js:8156-8198 | any non-null result has sigma(0) = 1, deg sigma <= R/2, deg omega < R/2 and sigma times S congruent to omega modulo x^R |
| KeyEquation.KeyEquationComplete | luci-app-apn-autoconfig/htdocs/luci-static/resources/apn-autoconfig/jsQR.js:8156-8198 | every solution of the key equation within those degrees is a common multiple of the result, so none is missed |
| ErrorPolynomials.ErrorsSolveKeyEquation | luci-app-apn-autoconfig/htdocs/luci-static/resources/apn-autoconfig/jsQR.js:8218-8235 | locator times syndrome is congruent to the evaluator modulo x^R for any list of errors |
| ErrorPolynomials.LocatorRoots | luci-app-apn-autoconfig/htdocs/luci-static/resources/apn-autoconfig/jsQR.js:8199-8217 | the locator polynomial vanishes exactly at the inverses of the error locators |
| ErrorPolynomials.ErrorsFound | luci-app-apn-autoconfig/htdocs/luci-static/resources/apn-autoconfig/jsQR.js:8156-8198 | for at most R/2 errors the algorithm returns exactly their locator and evaluator polynomials |
| ErrorPolynomials.LocatorUnique | luci-app-apn-autoconfig/htdocs/luci-static/resources/apn-autoconfig/jsQR.js:8199-8217 | a polynomial with constant term 1 and these roots is the locator polynomial |
| ReedSolomonDecoder.Divide | luci-app-apn-autoconfig/htdocs/luci-static/resources/apn-autoconfig/jsQR.js:8181-8188 | the inner loop is polynomial long division: quotient and remainder of the reference |
| ReedSolomonDecoder.RunEuclideanAlgorithm | luci-app-apn-autoconfig/htdocs/luci-static/resources/apn-autoconfig/jsQR.js:8156-8198 | the loop on coefficient arrays returns what the reference iteration returns, null included |
| ReedSolomonDecoder.FindErrorLocations | luci-app-apn-autoconfig/htdocs/luci-static/resources/apn-autoconfig/jsQR.js:8199-8217 | the search loop returns the reference list of inverse roots, or null |
| ReedSolomonDecoder.FindErrorMagnitudes | luci-app-apn-autoconfig/htdocs/luci-static/resources/apn-autoconfig/jsQR.js:8218-8235 | the double loop computes Forney's formula for every location |
| ReedSolomonDecoder.CorrectBytes | luci-app-apn-autoconfig/htdocs/luci-static/resources/apn-autoconfig/jsQR.js:8257-8270 | the patching loop applies the corrections in place, or returns null at the first position outside the word |
| ReedSolomonDecoder.DecodeBytes | luci-app-apn-autoconfig/htdocs/luci-static/resources/apn-autoconfig/jsQR.js:8237-8271 | the whole decoder computes the reference decoding of the received word |
| DecoderTheorems.LocationsExact | luci-app-apn-autoconfig/htdocs/luci-static/resources/apn-autoconfig/jsQR.js:8199-8217 | the search succeeds exactly when sigma has deg sigma distinct inverse roots, and returns exactly those |
| DecoderTheorems.ForneyValues | luci-app-apn-autoconfig/htdocs/luci-static/resources/apn-autoconfig/jsQR.js:8218-8235 | the computed magnitudes are those whose evaluator takes the values of omega at the roots |
| DecoderTheorems.ForneyRecovers | luci-app-apn-autoconfig/htdocs/luci-static/resources/apn-autoconfig/jsQR.js:8218-8235 | applied to the evaluator of some errors the formula gives back those errors |
| DecoderTheorems.BoundedDistance | luci-app-apn-autoconfig/htdocs/luci-static/resources/apn-autoconfig/jsQR.js:8237-8271 | every error pattern of weight at most R/2 on any codeword of at most 255 bytes is decoded to exactly that codeword |
| DecoderTheorems.CorrectExact | luci-app-apn-autoconfig/htdocs/luci-static/resources/apn-autoconfig/jsQR.js:8237-8271 | an answer differs from the received word in at most R/2 bytes, and is a codeword if and only if deg omega < deg sigma |
| DecoderTheorems.DecodeStaysNear | luci-app-apn-autoconfig/htdocs/luci-static/resources/apn-autoconfig/jsQR.js:8237-8271 | no answer ever changes more than R/2 bytes |
| DecoderTheorems.DecodeCodewordIffNear | luci-app-apn-autoconfig/htdocs/luci-static/resources/apn-autoconfig/jsQR.js:8237-8271 | the answer is a codeword if and only if some codeword lies within R/2 of the received word |
| DecoderTheorems.DecodeCodewordIffDegrees | luci-app-apn-autoconfig/htdocs/luci-static/resources/apn-autoconfig/jsQR.js:8237-8271 | the answer is a codeword if and only if the syndrome was zero or the computed polynomials have deg omega < deg sigma |
| DecoderTheorems.LowSyndromeUnchanged | luci-app-apn-autoconfig/htdocs/luci-static/resources/apn-autoconfig/jsQR.js:8167-8197 | a word whose non-zero syndrome polynomial has degree below R/2 is returned unchanged although it is no codeword |
| DecoderTheorems.NotACodeword | luci-app-apn-autoconfig/htdocs/luci-static/resources/apn-autoconfig/jsQR.js:8237-8271 | the word 1, 2 with two check symbols is such an input |
| ReedSolomon.SyndromeApply | luci-app-apn-autoconfig/htdocs/luci-static/resources/apn-autoconfig/jsQR.js:8244-8251 | applying corrections adds their syndrome to the word's syndrome |
| ReedSolomonEncoder.EncodeIsCodeword | luci-app-apn-autoconfig/htdocs/luci-static/resources/apn-autoconfig/jsQR.js:8244-8251 | the reference encoder makes words all of whose syndromes are zero, with the data in front |
| BitStreams.BitStream.ReadBits | luci-app-apn-autoconfig/htdocs/luci-static/resources/apn-autoconfig/jsQR.js:1055-1090 | a read of 1 to 32 available bits returns the big-endian value of exactly the next bits, as a signed 32-bit number, and consumes them; any other request throws and changes nothing |
| BitStreams.BitStream.ReadAvailable | luci-app-apn-autoconfig/htdocs/luci-static/resources/apn-autoconfig/jsQR.js:1059-1089 | the remainder, whole-byte and partial-byte steps together give the value of the bits between the old and the new position |
| BitStreams.BitStream.Available | luci-app-apn-autoconfig/htdocs/luci-static/resources/apn-autoconfig/jsQR.js:1091-1093 | the number of bits not yet read |
| BitStreams.ReadsCompose | luci-app-apn-autoconfig/htdocs/luci-static/resources/apn-autoconfig/jsQR.js:1055-1090 | the 32-bit results of two successive reads of m and n bits give the result of one read of m + n bits, sign included |
| BitStreams.NextBits | luci-app-apn-autoconfig/htdocs/luci-static/resources/apn-autoconfig/jsQR.js:1076-1087 | one shift step extends the value by the next bits even where the 32-bit shift wraps |
| Blocks.IndexInjective | luci-app-apn-autoconfig/htdocs/luci-static/resources/apn-autoconfig/jsQR.js:739-758 | two codewords of different place in the blocks stand at different places of the message |
| Blocks.IndexSurjective | luci-app-apn-autoconfig/htdocs/luci-static/resources/apn-autoconfig/jsQR.js:739-758 | every one of the first totalCodewords codewords belongs to some place of some block |
| Blocks.DeinterleaveInterleave | luci-app-apn-autoconfig/htdocs/luci-static/resources/apn-autoconfig/jsQR.js:720-761 | de-interleaving an interleaved message, with any surplus after it, gives back the blocks |
| Blocks.InterleaveDeinterleave | luci-app-apn-autoconfig/htdocs/luci-static/resources/apn-autoconfig/jsQR.js:720-761 | interleaving the de-interleaved blocks gives back the first totalCodewords codewords |
| Blocks.InterleaveExample | luci-app-apn-autoconfig/htdocs/luci-static/resources/apn-autoconfig/jsQR.js:720-761 | two blocks of two data codewords and one of three, with a check codeword each, byte by byte |
| Blocks.PushRow | luci-app-apn-autoconfig/htdocs/luci-static/resources/apn-autoconfig/jsQR.js:740-745 | one pass over the blocks moves one codeword from the queue to each of them, in order |
| Blocks.FillBlocks | luci-app-apn-autoconfig/htdocs/luci-static/resources/apn-autoconfig/jsQR.js:738-759 | the three loops leave every block with its data and check codewords, as de-interleaving defines them |
| Blocks.GetDataBlocks | luci-app-apn-autoconfig/htdocs/luci-static/resources/apn-autoconfig/jsQR.js:720-761 | null exactly when there are too few codewords; else each block has its data count and its de-interleaved codewords |
| Matrices.BitMatrix.Set | luci-app-apn-autoconfig/htdocs/luci-static/resources/apn-autoconfig/jsQR.js:98-100 | exactly one module changes |
| Matrices.BitMatrix.SetRegion | luci-app-apn-autoconfig/htdocs/luci-static/resources/apn-autoconfig/jsQR.js:101-107 | exactly the modules of the rectangle change |
| Matrices.SetAlignmentPatterns | luci-app-apn-autoconfig/htdocs/luci-static/resources/apn-autoconfig/jsQR.js:578-587 | the double loop marks exactly the alignment patterns that are not at the three corners |
| Matrices.BuildFunctionPatternMask | luci-app-apn-autoconfig/htdocs/luci-static/resources/apn-autoconfig/jsQR.js:572-595 | the mask marks exactly the function modules of the version |
| Matrices.PathVisitsOnce | luci-app-apn-autoconfig/htdocs/luci-static/resources/apn-autoconfig/jsQR.js:603-629 | the two-column traversal visits each module off column 6 exactly once and nothing else, for every version |
| Matrices.PathAt | luci-app-apn-autoconfig/htdocs/luci-static/resources/apn-autoconfig/jsQR.js:604-631 | where the traversal is at each moment: pairs of columns from the right without column 6, upwards first and then down and up in turn, the right module of a row before the left |
| Matrices.ColumnSixIsFunction | luci-app-apn-autoconfig/htdocs/luci-static/resources/apn-autoconfig/jsQR.js:572-607 | column 6 is function pattern throughout, so skipping it loses no data |
| Matrices.DataModulesReadOnce | luci-app-apn-autoconfig/htdocs/luci-static/resources/apn-autoconfig/jsQR.js:596-631 | each data module of the symbol is read exactly once |
| SymbolCapacity.DataModules | luci-app-apn-autoconfig/htdocs/luci-static/resources/apn-autoconfig/jsQR.js:572-595 | a version with n alignment centres on a side has (16v + 128)v + 64 data modules, less (25n - 10)n - 55 from version 2 on and less 36 from version 7 on |
| SymbolCapacity.DataExactly | luci-app-apn-autoconfig/htdocs/luci-static/resources/apn-autoconfig/jsQR.js:572-595 | a module carries data if and only if it is off row and column 6, the three corners, the version information and every alignment centre outside the corners |
| SymbolCapacity.NoDataAtCentre | luci-app-apn-autoconfig/htdocs/luci-static/resources/apn-autoconfig/jsQR.js:578-587 | no module within two of an alignment centre in both directions carries data, except at the three pairs of centres in the corners |
| SymbolCapacity.DataAroundCentre | luci-app-apn-autoconfig/htdocs/luci-static/resources/apn-autoconfig/jsQR.js:578-587 | every module at distance three from such a centre, off row and column 6, carries data |
| VersionTable.EveryEntryFits | luci-app-apn-autoconfig/htdocs/luci-static/resources/apn-autoconfig/jsQR.js:8283-9588 | each of the forty versions has centres of that shape, and the blocks of each of its four levels fill its data modules with fewer than eight over |
| MaskTiles.MaskIsTile | luci-app-apn-autoconfig/htdocs/luci-static/resources/apn-autoconfig/jsQR.js:562-571 | each of the eight masks is, at every module, its literal tile of at most six by six modules repeated |
| MaskTiles.MaskZero | luci-app-apn-autoconfig/htdocs/luci-static/resources/apn-autoconfig/jsQR.js:563-563 | mask 0 changes from each module to the next in both directions, beginning with a change |
| MaskTiles.MaskOne | luci-app-apn-autoconfig/htdocs/luci-static/resources/apn-autoconfig/jsQR.js:564-564 | mask 1 is of whole rows, every other one from the first |
| MaskTiles.MaskTwo | luci-app-apn-autoconfig/htdocs/luci-static/resources/apn-autoconfig/jsQR.js:565-565 | mask 2 is of whole columns, every third one from the first |
| MaskTiles.MaskThree | luci-app-apn-autoconfig/htdocs/luci-static/resources/apn-autoconfig/jsQR.js:566-566 | mask 3 is of whole diagonals, every third one from the first |
| MaskTiles.LightSymbol | luci-app-apn-autoconfig/htdocs/luci-static/resources/apn-autoconfig/jsQR.js:596-631 | each codeword read from a symbol without dark modules spells what the mask's tile says of its eight modules |
| MaskTiles.FirstCodewords | luci-app-apn-autoconfig/htdocs/luci-static/resources/apn-autoconfig/jsQR.js:596-631 | the first codeword of a version 1 symbol without dark modules: 99, CC, 00, 61, C3, 0C, 7C and 0B in hexadecimal for the masks 0 to 7 |
| CodewordReader.PlacedAt | luci-app-apn-autoconfig/htdocs/luci-static/resources/apn-autoconfig/jsQR.js:612-617 | a placed and masked bit is read back as that bit |
| CodewordReader.ReadPlaced | luci-app-apn-autoconfig/htdocs/luci-static/resources/apn-autoconfig/jsQR.js:596-631 | reading undoes placement and masking of any codeword sequence that fits |
| CodewordReader.ReadCodewords | luci-app-apn-autoconfig/htdocs/luci-static/resources/apn-autoconfig/jsQR.js:596-631 | the three nested loops return exactly the codewords along the path |
| Segments.DigitsRoundTrip | luci-app-apn-autoconfig/htdocs/luci-static/resources/apn-autoconfig/jsQR.js:849-887 | groups of three, two and one digits are parsed back from their 10, 7 and 4 bits |
| Segments.CharactersRoundTrip | luci-app-apn-autoconfig/htdocs/luci-static/resources/apn-autoconfig/jsQR.js:895-914 | pairs and a last character are parsed back from their 11 and 6 bits |
| Segments.BytesRoundTrip | luci-app-apn-autoconfig/htdocs/luci-static/resources/apn-autoconfig/jsQR.js:915-923 | bytes are parsed back from their 8 bits |
| Segments.KanjiRoundTrip | luci-app-apn-autoconfig/htdocs/luci-static/resources/apn-autoconfig/jsQR.js:932-948 | 13-bit values are parsed to their two code bytes |
| Segments.EciLong | luci-app-apn-autoconfig/htdocs/luci-static/resources/apn-autoconfig/jsQR.js:973-979 | the longest ECI form; with the two shorter ones every assignment number comes back |
| Segments.SegmentRoundTrip | luci-app-apn-autoconfig/htdocs/luci-static/resources/apn-autoconfig/jsQR.js:961-1043 | each kind of segment within its count width is parsed back, whatever follows it |
| Segments.MessagesRoundTrip | luci-app-apn-autoconfig/htdocs/luci-static/resources/apn-autoconfig/jsQR.js:951-1046 | any list of segments followed by a full or a truncated terminator is parsed back to the same list |
| SegmentTables.CountWidths | luci-app-apn-autoconfig/htdocs/luci-static/resources/apn-autoconfig/jsQR.js:849-935 | the width of each kind's count in versions up to 9, up to 26 and up to 40 |
| SegmentTables.TextComesBack | luci-app-apn-autoconfig/htdocs/luci-static/resources/apn-autoconfig/jsQR.js:888-914 | any text of the 45 characters, written by the standard's numbers, is read as that text |
| SegmentTables.KanjiComesBack | luci-app-apn-autoconfig/htdocs/luci-static/resources/apn-autoconfig/jsQR.js:932-950 | every Shift JIS kanji of the two ranges has a 13-bit number that is read as its two bytes |
| SegmentTables.BytesConcat | luci-app-apn-autoconfig/htdocs/luci-static/resources/apn-autoconfig/jsQR.js:951-1046 | the byte list of chunks one after the other is their byte lists one after the other |
| SegmentTables.BytesOfChunk | luci-app-apn-autoconfig/htdocs/luci-static/resources/apn-autoconfig/jsQR.js:951-1046 | characters give their codes, byte and kanji chunks their bytes and designators nothing |
| SegmentTables.NumericExample | luci-app-apn-autoconfig/htdocs/luci-static/resources/apn-autoconfig/jsQR.js:849-887 | the digits 01234567 in version 1: mode 1, the count 8 in ten bits, 12 and 345 in ten bits, 67 in seven |
| SegmentTables.AlphanumericExample | luci-app-apn-autoconfig/htdocs/luci-static/resources/apn-autoconfig/jsQR.js:895-914 | the text AC-42 in version 1: mode 2, the count 5 in nine bits, 462 and 1849 in eleven bits, 2 in six |
| DataDecoder.DecodeNumeric | luci-app-apn-autoconfig/htdocs/luci-static/resources/apn-autoconfig/jsQR.js:849-893 | the loop consumes and returns what the reference parser does, with the same errors |
| DataDecoder.DecodeAlphanumeric | luci-app-apn-autoconfig/htdocs/luci-static/resources/apn-autoconfig/jsQR.js:895-914 | the loop over character pairs consumes and returns what the reference parser does, with the same errors |
| DataDecoder.DecodeByte | luci-app-apn-autoconfig/htdocs/luci-static/resources/apn-autoconfig/jsQR.js:915-931 | the loop over bytes consumes and returns what the reference parser does, with the same errors |
| DataDecoder.DecodeKanji | luci-app-apn-autoconfig/htdocs/luci-static/resources/apn-autoconfig/jsQR.js:932-950 | the loop over 13-bit values consumes and returns the code bytes of the reference parser, with the same errors |
| DataDecoder.DecodeEci | luci-app-apn-autoconfig/htdocs/luci-static/resources/apn-autoconfig/jsQR.js:967-985 | the four forms of an ECI designator, the corrupted one giving -1 |
| DataDecoder.DecodeSegment | luci-app-apn-autoconfig/htdocs/luci-static/resources/apn-autoconfig/jsQR.js:966-1041 | the segment selected by the mode, and its bytes |
| DataDecoder.DecodeData | luci-app-apn-autoconfig/htdocs/luci-static/resources/apn-autoconfig/jsQR.js:951-1046 | the loop returns the parsed segments and bytes, undefined on other trailing bits, or throws, for every input; each round consumes at least the four mode bits |
| SymbolDecoder.UntouchedSame | luci-app-apn-autoconfig/htdocs/luci-static/resources/apn-autoconfig/jsQR.js:596-631 | a codeword none of whose modules changed colour is read as sent |
| SymbolDecoder.BlockDistance | luci-app-apn-autoconfig/htdocs/luci-static/resources/apn-autoconfig/jsQR.js:720-761 | a received block differs from the sent one in no more codewords than were touched |
| SymbolDecoder.CorrectReceived | luci-app-apn-autoconfig/htdocs/luci-static/resources/apn-autoconfig/jsQR.js:776-789 | blocks within ec/2 of the encoded ones are corrected to the data |
| SymbolDecoder.DataRecovered | luci-app-apn-autoconfig/htdocs/luci-static/resources/apn-autoconfig/jsQR.js:772-789 | the data codewords survive any damage to at most ec/2 codewords of each block |
| SymbolDecoder.EndToEnd | luci-app-apn-autoconfig/htdocs/luci-static/resources/apn-autoconfig/jsQR.js:762-796 | any data codewords that spell segments and a terminator, protected, interleaved, placed and masked, are decoded to those segments although up to ec/2 codewords of each block are damaged |
| SymbolDecoder.EncodeDataSpells | luci-app-apn-autoconfig/htdocs/luci-static/resources/apn-autoconfig/jsQR.js:951-1046 | messages followed by a terminator, zero bits and pad codewords spell those messages |
| SymbolDecoder.MessagesSurvive | luci-app-apn-autoconfig/htdocs/luci-static/resources/apn-autoconfig/jsQR.js:762-796 | any messages that fit their fields and the symbol come back from the written and repairably damaged symbol |
| SymbolDecoder.TableSymbolsSurvive | luci-app-apn-autoconfig/htdocs/luci-static/resources/apn-autoconfig/jsQR.js:762-796 | the same for every version and level of the table |
| SymbolDecoder.DecodeMatrix | luci-app-apn-autoconfig/htdocs/luci-static/resources/apn-autoconfig/jsQR.js:762-796 | the method returns the reference decoding of the matrix for the given version and format |
| QmiFrames.TlvRoundTrip | apn-autoconfig-esim/files/usr/libexec/apn-autoconfig-esim-uim.c:376-401 | an encoded list of TLVs parses back to that list |
| QmiFrames.ParseIsEncoding | apn-autoconfig-esim/files/usr/libexec/apn-autoconfig-esim-uim.c:376-401 | an area that parses is the encoding of what it parses to |
| QmiFrames.FindTlv | apn-autoconfig-esim/files/usr/libexec/apn-autoconfig-esim-uim.c:376-401 | the cursor loop succeeds exactly when the whole area is TLVs and the type occurs exactly once, and returns that value |
| QmiFrames.SingletonOfEncoding | apn-autoconfig-esim/files/usr/libexec/apn-autoconfig-esim-uim.c:376-401 | on an area that was built from TLVs the search inverts the builder |
| QmiFrames.QmiRequest.constructor | apn-autoconfig-esim/files/usr/libexec/apn-autoconfig-esim-uim.c:195-219 | a begun request holds the header of its service, with empty lengths |
| QmiFrames.QmiRequest.AddTlv | apn-autoconfig-esim/files/usr/libexec/apn-autoconfig-esim-uim.c:221-232 | a TLV is appended exactly when it fits the buffer; else nothing changes |
| QmiFrames.QmiRequest.Finish | apn-autoconfig-esim/files/usr/libexec/apn-autoconfig-esim-uim.c:234-244 | only the two length fields change |
| QmiFrames.FinishedIsRequest | apn-autoconfig-esim/files/usr/libexec/apn-autoconfig-esim-uim.c:195-244 | begin, add and finish together make the request whose lengths agree with its content |
| UimSession.BuildRequest | apn-autoconfig-esim/files/usr/libexec/apn-autoconfig-esim-uim.c:195-244 | the builder calls produce exactly the bytes of the request |
| QmiExchange.RequestIsConsistent | apn-autoconfig-esim/files/usr/libexec/apn-autoconfig-esim-uim.c:234-244 | both length fields of a finished request are the ones the exchange would accept |
| UimProtocol.RequestsFit | apn-autoconfig-esim/files/usr/libexec/apn-autoconfig-esim-uim.c:585-597 | every request this program makes fits its buffer, the longest APDU included |
| UimModem.CarriedOnTheWire | apn-autoconfig-esim/files/usr/libexec/apn-autoconfig-esim-uim.c:376-401 | what the modem finds in the bytes of a request is what the session meant to send |
| UimModem.AskedOnTheWire | apn-autoconfig-esim/files/usr/libexec/apn-autoconfig-esim-uim.c:195-219 | the bytes of a request name its service and its message, and no other |
| QmiExchange.NextTransaction | apn-autoconfig-esim/files/usr/libexec/apn-autoconfig-esim-uim.c:418-426 | the counter steps to the next transaction number, never zero |
| QmiExchange.TransactionRepeats | apn-autoconfig-esim/files/usr/libexec/apn-autoconfig-esim-uim.c:418-426 | two draws share a number if and only if they are a multiple of 65535 apart |
| QmiExchange.TransactionsDistinct | apn-autoconfig-esim/files/usr/libexec/apn-autoconfig-esim-uim.c:418-426 | any 65535 consecutive numbers are distinct |
| QmiExchange.ControlTransactionZero | apn-autoconfig-esim/files/usr/libexec/apn-autoconfig-esim-uim.c:207-219 | the 16-bit field is never zero, but the one-byte field of the control service is zero exactly when the number is a multiple of 256 |
| QmiExchange.Judge | apn-autoconfig-esim/files/usr/libexec/apn-autoconfig-esim-uim.c:343-372 | a message is skipped, refused or accepted by its identity and its lengths |
| QmiExchange.Exchanged | apn-autoconfig-esim/files/usr/libexec/apn-autoconfig-esim-uim.c:296-374 | the waiting loop returns the outcome of the turns it met, and leaves the accepted payload in the buffer |
| QmiExchange.PayloadArrived | apn-autoconfig-esim/files/usr/libexec/apn-autoconfig-esim-uim.c:304-373 | a payload is the body of a message that arrived, the first that answers the request |
| QmiExchange.AcceptedIsCurrent | apn-autoconfig-esim/files/usr/libexec/apn-autoconfig-esim-uim.c:346-359 | a message that answers the current request and another one less than 65535 draws older answers the same request; the two control requests differ in their message |
| QmiExchange.ForeignAnswersNothing | apn-autoconfig-esim/files/usr/libexec/apn-autoconfig-esim-uim.c:343-352 | bytes that are too short, of another service or client, or no response, answer no request of a session, whatever their transaction and message |
| QmiExchange.PayloadAnswersCurrentRequest | apn-autoconfig-esim/files/usr/libexec/apn-autoconfig-esim-uim.c:296-374 | over delayed answers, indications and other clients' answers, an accepted payload is the body of a message made for the current request |
| QmiExchange.OneAnswer | apn-autoconfig-esim/files/usr/libexec/apn-autoconfig-esim-uim.c:360-372 | an answer is accepted if and only if both its length fields are right; otherwise it is a protocol error |
| QmiExchange.LateByAWholeTurn | apn-autoconfig-esim/files/usr/libexec/apn-autoconfig-esim-uim.c:418-426 | the bound is tight: 65535 draws later the identity repeats |
| UimProtocol.RunAnswersMatch | apn-autoconfig-esim/files/usr/libexec/apn-autoconfig-esim-uim.c:296-374 | in every whole run, each accepted payload is the body of a message made for the request of its own exchange, if no answer is 65535 or more draws late |
| SlotReport.ReportSlots | apn-autoconfig-esim/files/usr/libexec/apn-autoconfig-esim-uim.c:704-791 | the two-cursor loop computes the report of the two arrays, with the same error at the same place |
| SlotReport.SlotsRoundTrip | apn-autoconfig-esim/files/usr/libexec/apn-autoconfig-esim-uim.c:704-791 | arrays that describe one to eight slots are reported as exactly those slots, status i with information i |
| SlotReport.SlotWords | apn-autoconfig-esim/files/usr/libexec/apn-autoconfig-esim-uim.c:769-783 | the words of a slot from its bytes: present, absent or error, active or inactive, and euicc, uicc or unknown |
| SlotReport.OneSlot | apn-autoconfig-esim/files/usr/libexec/apn-autoconfig-esim-uim.c:704-791 | one slot byte by byte |
| SlotReport.SlotsExact | apn-autoconfig-esim/files/usr/libexec/apn-autoconfig-esim-uim.c:704-791 | a report names exactly as many slots as both arrays count and describe, in at most 258 characters; the answer that does not fit is never given |
| SlotReport.ReportIsSlots | apn-autoconfig-esim/files/usr/libexec/apn-autoconfig-esim-uim.c:722-790 | from any slot on: exactly the remaining slots as both arrays describe them, or one error |
| UimProtocol.HexRoundTrip | apn-autoconfig-esim/files/usr/libexec/apn-autoconfig-esim-uim.c:131-172 | bytes written in hexadecimal are read back |
| UimCommands.HexDecodeExact | apn-autoconfig-esim/files/usr/libexec/apn-autoconfig-esim-uim.c:131-160 | an argument is decoded to some bytes if and only if it writes them in digits of either case and they are at most the limit |
| UimCommands.LineMeans | apn-autoconfig-esim/files/usr/libexec/apn-autoconfig-esim-uim.c:949-988 | exactly one command for every line that does not overrun the buffer, whatever its line ends: quit, slots and ping alone or before a blank, open, transmit and close before a blank and their argument, and unknown otherwise |
| UimCommands.TooLongExact | apn-autoconfig-esim/files/usr/libexec/apn-autoconfig-esim-uim.c:953-957 | a line is refused as too long if and only if it fills 8191 characters without a line end |
| UimCommands.ReadBack | apn-autoconfig-esim/files/usr/libexec/apn-autoconfig-esim-uim.c:949-987 | writing any command with an argument and any line ends, and reading the line, gives the command back |
| UimCommands.ReadBackAlone | apn-autoconfig-esim/files/usr/libexec/apn-autoconfig-esim-uim.c:965-975 | the words quit, slots and ping without an argument are read as themselves |
| UimCommands.OpenLine | apn-autoconfig-esim/files/usr/libexec/apn-autoconfig-esim-uim.c:976-979 | the word open and any AID in hexadecimal asks the modem to open that AID |
| UimCommands.TransmitLine | apn-autoconfig-esim/files/usr/libexec/apn-autoconfig-esim-uim.c:980-983 | the word transmit and any APDU in hexadecimal sends it to the open channel |
| UimCommands.CloseLine | apn-autoconfig-esim/files/usr/libexec/apn-autoconfig-esim-uim.c:984-987 | the word close and the open channel's number up to 19 asks the modem to close it |
| UimCommands.AllocateBytes | apn-autoconfig-esim/files/usr/libexec/apn-autoconfig-esim-uim.c:430-447 | the bytes of the allocation, written out |
| UimCommands.ReleaseBytes | apn-autoconfig-esim/files/usr/libexec/apn-autoconfig-esim-uim.c:459-478 | the bytes of the release, written out |
| UimCommands.OpenBytes | apn-autoconfig-esim/files/usr/libexec/apn-autoconfig-esim-uim.c:506-519 | the bytes of every request to open a channel, written out |
| UimCommands.TransmitBytes | apn-autoconfig-esim/files/usr/libexec/apn-autoconfig-esim-uim.c:585-597 | the bytes of every APDU request, written out |
| UimCommands.CloseBytes | apn-autoconfig-esim/files/usr/libexec/apn-autoconfig-esim-uim.c:796-813 | the bytes of every request to close a channel, written out |
| UimCommands.SlotsBytes | apn-autoconfig-esim/files/usr/libexec/apn-autoconfig-esim-uim.c:673-675 | the bytes of the slot request, written out |
| UimSession.DecodeHex | apn-autoconfig-esim/files/usr/libexec/apn-autoconfig-esim-uim.c:144-160 | the loop decodes an even run of digits that fits, or nothing |
| UimSession.EncodeHex | apn-autoconfig-esim/files/usr/libexec/apn-autoconfig-esim-uim.c:162-172 | the loop writes two digits a byte |
| UimSession.QmiResult | apn-autoconfig-esim/files/usr/libexec/apn-autoconfig-esim-uim.c:407-416 | success, refusal with its code, or no standard result |
| UimSession.UimClient.DrawTransaction | apn-autoconfig-esim/files/usr/libexec/apn-autoconfig-esim-uim.c:418-426 | the field steps and one draw is counted |
| UimSession.UimClient.AskModem | apn-autoconfig-esim/files/usr/libexec/apn-autoconfig-esim-uim.c:195-374 | the request is built, written whole and awaited; the log records it and the payload is the outcome's |
| UimSession.UimClient.AllocateClientId | apn-autoconfig-esim/files/usr/libexec/apn-autoconfig-esim-uim.c:430-457 | the new state is that of the session on values, and a client id is taken only from an accepted answer for this service |
| UimSession.UimClient.ReleaseClientId | apn-autoconfig-esim/files/usr/libexec/apn-autoconfig-esim-uim.c:459-478 | a client id is given back once, whatever the answer |
| UimSession.UimClient.OpenCommand | apn-autoconfig-esim/files/usr/libexec/apn-autoconfig-esim-uim.c:483-558 | the new state is that of the session on values: state, usage, failure, refusal or the named channel |
| UimSession.UimClient.TransmitCommand | apn-autoconfig-esim/files/usr/libexec/apn-autoconfig-esim-uim.c:560-635 | the new state after an APDU command is that of the session on values |
| UimSession.UimClient.SlotsCommand | apn-autoconfig-esim/files/usr/libexec/apn-autoconfig-esim-uim.c:653-794 | the new state after a slot command is that of the session on values |
| UimSession.UimClient.CloseChannelOnModem | apn-autoconfig-esim/files/usr/libexec/apn-autoconfig-esim-uim.c:796-822 | the close message is asked, and only an accepted answer counts |
| UimSession.UimClient.CloseCommand | apn-autoconfig-esim/files/usr/libexec/apn-autoconfig-esim-uim.c:824-853 | the new state after a close command is that of the session on values |
| UimSession.UimClient.GiveBack | apn-autoconfig-esim/files/usr/libexec/apn-autoconfig-esim-uim.c:860-876 | the new state after the cleanup is that of the session on values |
| UimSession.UimClient.ObeyLine | apn-autoconfig-esim/files/usr/libexec/apn-autoconfig-esim-uim.c:949-989 | one line does what its command means |
| UimSession.UimClient.Serve | apn-autoconfig-esim/files/usr/libexec/apn-autoconfig-esim-uim.c:885-993 | the whole process follows the run on values and ends with device, client id and channel at -1 |
| UimProtocol.TransmitDelivers | apn-autoconfig-esim/files/usr/libexec/apn-autoconfig-esim-uim.c:560-635 | an APDU given in hexadecimal reaches the open channel byte for byte and the card's answer comes back the same way |
| UimProtocol.ObeyKeeps | apn-autoconfig-esim/files/usr/libexec/apn-autoconfig-esim-uim.c:949-989 | every command keeps the session's invariant, whatever the modem answers |
| UimProtocol.LoopKeeps | apn-autoconfig-esim/files/usr/libexec/apn-autoconfig-esim-uim.c:949-989 | every sequence of commands keeps the invariant: belief and answers agree, no improper question was asked, and requests are in the order and of the client that matching needs |
| UimModem.AcceptedWasMade | apn-autoconfig-esim/files/usr/libexec/apn-autoconfig-esim-uim.c:296-374 | the payload that a session accepts is the body of the answer that the modem made to that request, although answers to older requests may arrive in between |
| UimModem.ModemFollows | apn-autoconfig-esim/files/usr/libexec/apn-autoconfig-esim-uim.c:483-636 | a modem that acts on the bytes of each request, with answers that may be late, holds open before every step exactly the channel the session believes in, or none, until the client id is released |
| UimModem.OnlyTheOpenChannel | apn-autoconfig-esim/files/usr/libexec/apn-autoconfig-esim-uim.c:483-636 | between any two commands of any run the modem's channels are exactly the session's open channel, or none |
| UimProtocol.EveryMessageIsProper | apn-autoconfig-esim/files/usr/libexec/apn-autoconfig-esim-uim.c:483-636 | in every run a channel is opened only when none is open, every APDU and close goes to the open one, and every message fits the buffer |
| UimModem.ApdusGoToTheOnlyChannel | apn-autoconfig-esim/files/usr/libexec/apn-autoconfig-esim-uim.c:560-636 | every APDU and every close names, in its bytes, the one channel that the modem holds open at that moment |
| UimModem.WhatIsLeftOpen | apn-autoconfig-esim/files/usr/libexec/apn-autoconfig-esim-uim.c:855-876 | after the end of any run the modem holds nothing open, except the channel that was open before the cleanup, if it refused the close and did not grant the release; channels from 20 on included |
| UimAnswers.GrantingHappens | apn-autoconfig-esim/files/usr/libexec/apn-autoconfig-esim-uim.c:483-558 | a modem may name any channel: it goes through such a log and then holds that channel |
| UimAnswers.AnyChannelOpens | apn-autoconfig-esim/files/usr/libexec/apn-autoconfig-esim-uim.c:539-551 | any channel number can be opened; the close that names it back is asked up to 19, and from 20 on it is refused with err usage and the channel stays |
| UimAnswers.OpenTokens | apn-autoconfig-esim/files/usr/libexec/apn-autoconfig-esim-uim.c:521-543 | lengths that disagree say err device, a missing result err qmi 0, and err protocol exactly a granted open without one channel; so err protocol is said as documented if and only if the answer has right lengths and a result |
| UimAnswers.OpenSays | apn-autoconfig-esim/files/usr/libexec/apn-autoconfig-esim-uim.c:539-556 | a granted open says the named channel and the card's two status bytes, or 9000 when there are other than two |
| UimAnswers.TransmitTokens | apn-autoconfig-esim/files/usr/libexec/apn-autoconfig-esim-uim.c:599-631 | the same for an APDU, whose field must hold a count that agrees with it |
| UimAnswers.SlotsTokens | apn-autoconfig-esim/files/usr/libexec/apn-autoconfig-esim-uim.c:677-792 | the same for the slot arrays |
| UimAnswers.CloseTokens | apn-autoconfig-esim/files/usr/libexec/apn-autoconfig-esim-uim.c:815-852 | a close that was asked says ok or err qmi; err qmi means a refusal, as documented, if and only if an answer with a result arrived |
| UimAnswers.WrongLength | apn-autoconfig-esim/files/usr/libexec/apn-autoconfig-esim-uim.c:360-372 | a frame of 13 bytes whose first length field says 13 instead of 12: err device, and with the right length err qmi 0 |
| UimProtocol.CloseReachesModem | apn-autoconfig-esim/files/usr/libexec/apn-autoconfig-esim-uim.c:829-852 | a close command reaches the modem if and only if it names the open channel and that is at most 19; from 20 on only the cleanup closes it |
| UimProtocol.CleanupOrder | apn-autoconfig-esim/files/usr/libexec/apn-autoconfig-esim-uim.c:860-876 | the cleanup asks to close, then to release, then closes the device, each exactly when there is something to give back, and nothing remains |
| UimProtocol.EveryRun | apn-autoconfig-esim/files/usr/libexec/apn-autoconfig-esim-uim.c:885-993 | every run, from any lines and any answers or silence, ends with everything given back, only proper messages that fit the buffer, and requests in the order and of the client that matching needs |
| HttpStream.Connection.SslRead | apn-autoconfig-esim/files/usr/libexec/apn-autoconfig-esim-http.c:429-436 | a read yields nothing yet, some of the next bytes, or the end |
| HttpStream.TlsStream.Read | apn-autoconfig-esim/files/usr/libexec/apn-autoconfig-esim-http.c:419-437 | the next bytes of prefix and connection in order, retried while the library wants more; 0 at an orderly end and -1 at any other |
| HttpStream.TlsStream.Exact | apn-autoconfig-esim/files/usr/libexec/apn-autoconfig-esim-http.c:439-449 | exactly the next bytes, if and only if there are so many |
| HttpStream.TlsStream.Line | apn-autoconfig-esim/files/usr/libexec/apn-autoconfig-esim-http.c:451-467 | the next line and what follows it, or failure, as the line reader on bytes says |
| HttpStream.LineExact | apn-autoconfig-esim/files/usr/libexec/apn-autoconfig-esim-http.c:451-467 | a line is read if and only if the bytes begin with a text without NUL or line end, short enough, and a line end |
| HttpBody.CopyExactBody | apn-autoconfig-esim/files/usr/libexec/apn-autoconfig-esim-http.c:469-479 | the next so many bytes are copied if and only if they are there |
| HttpBody.CopyToClose | apn-autoconfig-esim/files/usr/libexec/apn-autoconfig-esim-http.c:517-530 | all bytes up to an orderly end are copied, if they are at most 8 MiB; never more is written |
| HttpBody.ReadTrailers | apn-autoconfig-esim/files/usr/libexec/apn-autoconfig-esim-http.c:500-509 | the trailer loop stops after the empty line, within the header limit |
| HttpBody.CopyChunkedBody | apn-autoconfig-esim/files/usr/libexec/apn-autoconfig-esim-http.c:481-515 | the loop writes the decoded body and stops after its encoding, or fails; it never writes more than 8 MiB |
| HttpBody.HexNumberExact | apn-autoconfig-esim/files/usr/libexec/apn-autoconfig-esim-http.c:488-496 | a run of digits has a number if and only if it writes that number in base 16, with digits of either case and any leading zeros |
| HttpBody.SizeLine | apn-autoconfig-esim/files/usr/libexec/apn-autoconfig-esim-http.c:488-496 | a size line of RFC 9112 section 7.1, with any extension, has the size that its digits write |
| HttpBody.HexTextWrites | apn-autoconfig-esim/files/usr/libexec/apn-autoconfig-esim-http.c:488-496 | every number has a hexadecimal text that writes it, of at most six digits within the limit, so every piece can be given its size line |
| HttpBody.PiecesRoundTrip | apn-autoconfig-esim/files/usr/libexec/apn-autoconfig-esim-http.c:481-515 | any pieces of a body, each after its size written in hexadecimal, are decoded to the body |
| HttpBody.ChunksRoundTrip | apn-autoconfig-esim/files/usr/libexec/apn-autoconfig-esim-http.c:481-515 | any chunking of any body of at most 8 MiB is decoded to exactly that body, and nothing after its encoding is consumed |
| HttpBody.DechunkedIsChunks | apn-autoconfig-esim/files/usr/libexec/apn-autoconfig-esim-http.c:481-515 | whatever is decoded was such an encoding, within the limit |
| HttpBody.ChunkedExact | apn-autoconfig-esim/files/usr/libexec/apn-autoconfig-esim-http.c:481-515 | bytes decode to a body and a rest if and only if they are an encoding of that body followed by that rest |
| HttpResponse.TruncatedIsRefused | apn-autoconfig-esim/files/usr/libexec/apn-autoconfig-esim-http.c:481-515 | a chunked body cut short anywhere is refused |
| HttpHeaders.FrameExact | apn-autoconfig-esim/files/usr/libexec/apn-autoconfig-esim-http.c:549-593 | header fields are accepted if and only if they agree, and then frame the body as they all say |
| HttpHeaders.HeadExact | apn-autoconfig-esim/files/usr/libexec/apn-autoconfig-esim-http.c:532-596 | accepted headers never leave both chunked and a length set, nor two unequal lengths |
| HttpHeaders.ParseResponseHeaders | apn-autoconfig-esim/files/usr/libexec/apn-autoconfig-esim-http.c:532-596 | the line loop computes that framing |
| HttpMessages.StatusRead | apn-autoconfig-esim/files/usr/libexec/apn-autoconfig-esim-http.c:532-545 | a status line of HTTP/1.0 or 1.1 with any code from 100 to 599, written in decimal, has that status |
| HttpMessages.LengthResponse | apn-autoconfig-esim/files/usr/libexec/apn-autoconfig-esim-http.c:532-596 | a response written out with its length, in any case of the field's name and with any status and reason, comes back whole, however the peer splits it and whatever follows |
| HttpMessages.PiecesResponse | apn-autoconfig-esim/files/usr/libexec/apn-autoconfig-esim-http.c:481-596 | the same for a chunked response, written out with its sizes in hexadecimal |
| Text.LowerExact | apn-autoconfig-esim/files/usr/libexec/apn-autoconfig-esim-http.c:567-575 | names agree but for the 26 letters' case, letter by letter |
| HttpResponse.MarkerOfPart | apn-autoconfig-esim/files/usr/libexec/apn-autoconfig-esim-http.c:774-776 | the blank line found in a part is that of the whole, and a part without one ends before the whole's marker does |
| HttpResponse.StopExact | apn-autoconfig-esim/files/usr/libexec/apn-autoconfig-esim-http.c:758-797 | however the peer splits its bytes, the loop ends with the header block exactly when that is within its limit; it stays inside the buffer and has read fewer than 4096 bytes too many |
| HttpResponse.GatherHeaders | apn-autoconfig-esim/files/usr/libexec/apn-autoconfig-esim-http.c:755-797 | the loop on the shared buffer leaves the header block in place and the bytes read past it as the stream's prefix |
| HttpResponse.StreamExact | apn-autoconfig-esim/files/usr/libexec/apn-autoconfig-esim-http.c:758-795 | for every acceptable header block: prefix and connection yield exactly the bytes after the blank line for every split of the peer's bytes if and only if the block is below 32768 bytes, or nothing follows it, or the byte that follows is a NUL |
| HttpResponse.FullBlockDependsOnSplit | apn-autoconfig-esim/files/usr/libexec/apn-autoconfig-esim-http.c:777-786 | whenever anything follows a block of exactly 32768 bytes: read by whole buffers the stream is intact, with one byte read first its first byte becomes a NUL |
| HttpResponse.LongResponseDiffers | apn-autoconfig-esim/files/usr/libexec/apn-autoconfig-esim-http.c:774-811 | a response of status 200 with a header block of exactly 32768 bytes and the body 5: read by whole buffers its body is 5, with one byte read first its body is one NUL |
| HttpResponse.SplitsDoNotMatter | apn-autoconfig-esim/files/usr/libexec/apn-autoconfig-esim-http.c:755-811 | for every split the response is what the bytes mean, if and only if the block is not of exactly 32768 bytes, or its body is absent, begins with a NUL, is refused in any case or is announced to be empty |
| HttpResponse.ChunkedResponse | apn-autoconfig-esim/files/usr/libexec/apn-autoconfig-esim-http.c:755-811 | after any acceptable headers any chunked body within the limits is delivered whole, however split |
| HttpResponse.ResponseIsBounded | apn-autoconfig-esim/files/usr/libexec/apn-autoconfig-esim-http.c:469-596 | no accepted response has a body of more than 8 MiB, by any framing |
| HttpResponse.ReadResponse | apn-autoconfig-esim/files/usr/libexec/apn-autoconfig-esim-http.c:755-822 | gathering, header parsing and the three body loops together compute that response |
| ProviderRows.RowRoundTrip | scripts/generate-providers.py:56-58 | parsing the line of any valid row gives the row back |
| ProviderRows.SplitJoin | scripts/generate-providers.py:56-58 | splitting at tabs undoes joining with tabs |
| ProviderRows.LineOrder | scripts/generate-providers.py:56-58 | the twelve fields stand in a line in this order, between tabs |
| ProviderRows.NumbersValid | scripts/generate-providers.py:118-119 | priorities from 0 to 999999 are valid, and no other |
| ProviderRows.NetworkValid | scripts/generate-providers.py:110-111 | five or six digits are a network, and nothing else |
| ProviderRows.PatternsValid | scripts/generate-providers.py:112-115 | a pattern is a dash or digits and x of either case |
| ProviderRows.ApnsValid | scripts/generate-providers.py:116-117 | an APN is one or more letters, digits, points, underscores and dashes |
| ProviderRows.WordsValid | scripts/generate-providers.py:120-123 | the five authentication words and the four IP types, and no others |
| ProviderMerge.MergedIsBest | scripts/generate-providers.py:70-78 | after any rows each offered key holds its row of least priority, the earliest among equals, and no other key is there |
| ProviderMerge.MergedRows | scripts/generate-providers.py:42-78 | after any rows exactly these are there: of rows that agree in seven fields as written and in GID1, SPN and APN but for case the best and earliest one, and every row that agrees with no other |
| ProviderMerge.TwoRows | scripts/generate-providers.py:42-78 | two rows take one place if and only if they agree in those ten fields |
| ProviderMerge.OrderDoesNotMatter | scripts/generate-providers.py:70-78 | rows that compete but differ in priority may be offered in any order |
| ProviderMerge.Generator.Add | scripts/generate-providers.py:70-78 | an invalid row is refused; a valid one takes its key's place or is counted as a duplicate |
| ProviderMerge.Generator.Count | scripts/generate-providers.py:67-68 | one counter grows by one |
| ProviderMerge.Generator.ImportOverrides | scripts/generate-providers.py:276-286 | every row of the file is added, or the import fails at the first error |
| ProviderMerge.Generator.ImportPrevious | scripts/generate-providers.py:289-305 | rows of absent keys are retained with the demoted priority, the least of 900000 and the old one plus 50000; the counter tells how many the table grew by |
| ProviderMerge.RetentionKeeps | scripts/generate-providers.py:289-305 | present keys keep their rows, every previous key is present afterwards, and what is new is a previous row demoted |
| ProviderMerge.DemotionRanks | scripts/generate-providers.py:302-303 | a retained row is valid with 50000 added up to 900000, and ranks lower than before if and only if its priority was below 900000 |
| ProviderGate.WrittenIsDatabase | scripts/generate-providers.py:348-379 | the comment lines and the lines of all rows, in any order, are read back as exactly those rows |
| ProviderGate.DatabaseImports | scripts/generate-providers.py:289-305 | importing a written database never fails |
| ProviderGate.CountsNeverFall | scripts/check-provider-update.py:28-30 | after retention no previous profile is missing, and neither the profile count nor the network count is smaller |
| ProviderGate.GenerationNeverShrinks | scripts/generate-providers.py:429-451 | from any source rows, any accepted overrides and a written previous database the generation succeeds and neither profiles nor networks become fewer |
| ProviderGate.ApnsDoNotFall | scripts/check-provider-update.py:28-30 | the count of unique APNs does not fall when no two previous APNs differ only in case |
| ProviderGate.ApnGateExact | scripts/check-provider-update.py:28-30 | it can never fall, whatever is offered, if and only if no two previous APNs differ only in case |

## Left out

- ReedSolomonDecoder.DecodeBytes: the model is for generator base 0, which is the only one used, for a word that is not empty, and for at most 256 check symbols.
- SymbolDecoder.DecodeMatrix: takes the version and the format as given; looking them up in the matrix and the second attempt on the mirrored symbol are not part of this model. `VersionTable` holds the centres and the block layouts of all versions; the version information bits are left out.
- DataDecoder.DecodeByte: the text of byte segments (`decodeURIComponent`) is not modelled, only their bytes.
- DataDecoder.DecodeKanji: the text of Kanji segments (the Shift JIS table) is not modelled, only their bytes.
- BitStreams.BitStream.ReadBits: the and-masks and shifts inside one byte are written as division and remainder by powers of two.
- QmiExchange.Exchanged: clocks, `poll` and `read` are the events of a script; a script that ends stands for the deadline. The shorter deadline of the cleanup is therefore not visible.
- QmiExchange.PayloadAnswersCurrentRequest: a control response to another process has this session's client number 0 too, and only there it is assumed that transaction or message differ from the session's own two control requests.
- UimModem.ModemFollows: is about modems that open and close channels on this session's requests only, and whose answers to open and close are not lost; after a lost answer the session cannot know.
- UimSession.UimClient.Serve: begins with the opened device; the arguments, the exit when the device cannot be opened, and standard error are not modelled. Answers are values with their token, without the words after it.
- UimSession.UimClient.ObeyLine: cutting the line at a NUL, at its line end and at the first space is done on values, not in the line buffer; `UimCommands.LineMeans` says what comes out.
- HttpBody.SizeLine: is about the grammar of RFC 9112; the reader also takes sizes written with 0x, which `HttpBody.ChunkedExact` covers.
- HttpBody.CopyChunkedBody: writing to the output file cannot fail in the model, and a failed response leaves no output, as the program removes the file.
- HttpHeaders.ParseResponseHeaders: the NULs that the parser writes into its copy of the headers are not modelled; it works on slices of the same text.
- HttpResponse.ReadResponse: certificates, the TLS handshake, the request, the watchdog and the exit codes are not part of this model.
- ProviderRows.RowRoundTrip: Python's `int` also takes underscores and digits outside ASCII; such priorities are errors in the model. They do not occur in written rows.
- ProviderMerge.MergedIsBest: holds for every lower-casing function; which one Python uses does not matter to it.
- ProviderGate.WrittenIsDatabase: holds for every order of the rows; the sort of `write_database` is not modelled.
- The XML importers are an arbitrary list of valid rows; their filters, the warnings list, manifests, reports as JSON, and the two growth limits of the gate are left out.
- QR image processing (binarising, locating, extracting) is floating point with no exact specification.
- The LuCI view, the shell scripts, fetching and licence checks are left out: they are rendering, glue and network.
