# Hybrid, Golomb-Rice and adapter codecs of the hyperspectral compression chain

This project models, in Dafny, the entropy-coding core of a hyperspectral image
compression chain:

- **HybridCoder / HybridDecoder.** The hybrid entropy coder of CCSDS 123.0-B-2 (section 5.4.3.3):
  - an adaptive accumulator Σ and a counter Γ choose, for every mapped residual, high-entropy coding with the GPO2 code R_k or low-entropy coding through 16 variable-to-variable code tables with active prefixes;
  - the image tail flushes the active prefixes, writes Σ, pads the last byte and fills the last output word;
  - the decoder reads the stream backwards from its last bit and undoes every step in reverse order.
- **GolombRiceCoder.** Codes a vector of non-negative integers with a Golomb parameter M equal to its integer mean.
  - M comes first, in dynamicRange bits.
  - Each value follows as its quotient in unary and its remainder in truncated binary.
  - Zero padding brings the stream to an even number of bytes.
  - Decoding reads the same fields forward.
- **convertHexaFileToBinFile.** Turns a file's bytes into a string of '0'/'1' characters, eight per byte, most significant bit first.
- **Adapter.** Lays the unmixing outputs out as the coder's one-dimensional input: the centroid, then, for every endmember, its pixel column followed by its projection row. It also compares an input vector with a decoded one.

Representations:
- Bit strings are `seq<char>` over '0' and '1', as in the original's strings.
- Bytes are integers 0..255.
- Python lists and numpy vectors are Dafny sequences.
- A matrix is a sequence of rows.

The state-changing classes are Dafny classes whose methods are proved against specification functions.
- The coder's methods append exactly the bits that `HybridEncodeSpec` names.
- The decoder's methods return exactly what the decoding functions of `HybridDecodeSpec` compute on the bits before the reverse cursor.

The main theorems are round trips:
- `HybridRoundTrip.BsqRoundTrip` and `HybridPipeline.CodeThenDecode`: decoding the hybrid coder's output returns every mapped residual.
- `GolombRiceSpec.RoundTrip` and `GolombRiceCoderClass.CodeThenDecode`: the same for the Golomb-Rice coder.
- `ReadBytesAsString.StringGivesBytes`: the bit string gives back every byte.

## Model

| member | source | states |
|---|---|---|
| CodingTables.HexDigit | ReferenceHybridCoder/Coder_Hybrid_Mod.py:305-308 | a residual below 16 becomes one upper-case hexadecimal digit, never the escape symbol 'X', and int(c, 16) reads it back as that residual |
| Accumulator.Clip | ReferenceHybridCoder/Coder_Hybrid_Mod.py:99-100 | min(max(lo, x), hi) is x inside [lo, hi], lo below it, hi above it, and hi when the bounds cross |
| Accumulator.Configure | ReferenceHybridCoder/Coder_Hybrid_Mod.py:386-394 | after clipping, Umax is in 8..32, gamma_0 in 1..8 and gamma in 4..11, always above gamma_0; in-range arguments are kept and Sigma_0 is stored as given |
| Accumulator.RescaleBits | ReferenceHybridCoder/Coder_Hybrid_Mod.py:233-246 | an update writes the least significant bit of Σ when Γ has reached 2^gamma - 1 (rescaling) and writes nothing otherwise |
| Accumulator.RestoreInvertsUpdate | ReferenceHybridCoder/Decoder_Hybrid.py:307-316 | the decoder's step back (Σ' - 4r, or 2Σ' - 4r - lsb after a rescale) returns exactly the Σ the coder held before its update |
| Accumulator.InitialAccumulator | ReferenceHybridCoder/Coder_Hybrid_Mod.py:166-172 | Γ = 2^gamma_0 and Sigma_0 clipped to [0, 2^(D+gamma_0) - 1] satisfy 0 <= Σ < Γ·2^(D+2) and 1 <= Γ <= 2^gamma - 1 |
| Accumulator.UpdatePreservesAccumulator | ReferenceHybridCoder/Coder_Hybrid_Mod.py:233-246 | for a residual below 2^D, both the plain and the rescaling update keep those bounds |
| Accumulator.AccumulatorFitsTail | ReferenceHybridCoder/Coder_Hybrid_Mod.py:339-343 | under those bounds Σ fits in the 2 + D + gamma bits the tail gives it |
| Accumulator.HighEntropyMonotone | ReferenceHybridCoder/Coder_Hybrid_Mod.py:252-258 | the test Σ·2^14 >= T0·Γ stays true when Σ grows or Γ shrinks |
| Accumulator.SelectK | ReferenceHybridCoder/Coder_Hybrid_Mod.py:271-278 | the chosen GPO2 parameter lies between 2 and max(D - 2, 2) |
| Accumulator.SelectKIsLargest | ReferenceHybridCoder/Coder_Hybrid_Mod.py:264-278 | every k from 3 up to the choice satisfies Γ·2^(k+2) <= Σ + floor(49Γ/32), the next one fails, no larger k up to the cap passes, and the choice is 2 exactly when k = 3 fails or exceeds the cap |
| Accumulator.SearchK | ReferenceHybridCoder/Coder_Hybrid_Mod.py:271-278 | the ascending loop with its break returns SelectK |
| Accumulator.SelectIndex | ReferenceHybridCoder/Coder_Hybrid_Mod.py:290-301 | the low-entropy code index is below 16 |
| Accumulator.SelectIndexIsLargest | ReferenceHybridCoder/Coder_Hybrid_Mod.py:288-301 | every index from 1 up to the choice satisfies Σ·2^14 < Γ·T(i), the next one fails, and with non-increasing thresholds no later index passes |
| Accumulator.SearchCodeIndex | ReferenceHybridCoder/Coder_Hybrid_Mod.py:290-301 | the loop over i < 16 with its break returns SelectIndex |
| Accumulator.GammaAtBounds | ReferenceHybridCoder/Decoder_Hybrid.py:203-217 | the counter trajectory the decoder precomputes never leaves 1..2^gamma - 1 |
| Gpo2.Gpo2CodeModes | ReferenceHybridCoder/Coder_Hybrid_Mod.py:195-229 | with q = floor(j/2^k) below Umax the code is the k low bits of j, a one and q zeros (k + 1 + q bits); otherwise it is the D-bit form of j followed by Umax zeros |
| Gpo2.PlainWhenFits | ReferenceHybridCoder/Coder_Hybrid_Mod.py:223-225 | bin(j)[2:].zfill(D) is the D-bit form of j whenever j < 2^D |
| Gpo2.Gpo2RoundTrip | ReferenceHybridCoder/Decoder_Hybrid.py:257-282 | GPO2_decoding of P followed by R_k(j) returns j and leaves exactly P, in both modes, after any bits P however few |
| Gpo2.ModeARoundTrip | ReferenceHybridCoder/Decoder_Hybrid.py:263-275 | for q < Umax: nZeros = q, the one is skipped, the k low bits are read, and j = q·2^k + low |
| Gpo2.ModeBRoundTrip | ReferenceHybridCoder/Decoder_Hybrid.py:277-280 | when the quotient reaches Umax: Umax zeros are counted and the D bits before them read back as j |
| Gpo2.Gpo2DecodeModeA | ReferenceHybridCoder/Decoder_Hybrid.py:263-275 | a successful decode that counts fewer than Umax zeros has a bit before them to skip, and its value is the zero count times 2^k plus the k bits before that bit |
| Gpo2.Gpo2DecodeModeB | ReferenceHybridCoder/Decoder_Hybrid.py:277-280 | a successful decode that counts Umax zeros has D bits before them, and its value is those bits |
| Gpo2.CountZerosAfterOne | ReferenceHybridCoder/Decoder_Hybrid.py:156-171 | counting up to Umax zeros over a one followed by q < Umax zeros yields q and consumes only those zeros |
| ReverseReads.ReadBits | ReferenceHybridCoder/Decoder_Hybrid.py:108-136 | a reverse read of n bits succeeds exactly when n bits precede the cursor and splits the stream into what remains and the n bits read |
| ReverseReads.ReadBitsOfAppend | ReferenceHybridCoder/Decoder_Hybrid.py:108-136 | reading back the last \|s\| bits of P + s yields s and leaves P |
| ReverseReads.TrailingCount | ReferenceHybridCoder/Decoder_Hybrid.py:158-166 | the count is the length of the final run of c: every counted bit equals c and the bit before the run does not |
| ReverseReads.CountTrailing | ReferenceHybridCoder/Decoder_Hybrid.py:156-171 | the count is at most maxBits and at most the bits before the cursor, and exactly that many bits are consumed |
| ReverseReads.CountTrailingSplits | ReferenceHybridCoder/Decoder_Hybrid.py:156-171 | the stream is what remains followed by the counted run of c, and a count below both maxBits and the stream length stops at a bit other than c |
| ReverseReads.InversePadding | ReferenceHybridCoder/Decoder_Hybrid.py:147-150 | a successful inverse padding removes at least one bit |
| ReverseReads.InversePaddingSplits | ReferenceHybridCoder/Decoder_Hybrid.py:147-150 | it succeeds exactly when the stream holds a one, and the stream is then the result, that one, and zeros |
| ReverseReads.InversePaddingOfPadded | ReferenceHybridCoder/Decoder_Hybrid.py:147-150 | it removes exactly the '1' and zero padding the coder appends |
| ReverseReads.ReadCodeword | ReferenceHybridCoder/Decoder_Hybrid.py:181-186 | a codeword read is a key of the dictionary, and the stream is what remains followed by that key |
| ReverseReads.ReadCodewordOfAppend | ReferenceHybridCoder/Decoder_Hybrid.py:181-186 | when no codeword ends another, the codeword the coder wrote last is the one read back |
| BitCursor.ReadBinaryString | ReferenceHybridCoder/Decoder_Hybrid.py:108-136 | reverse reading returns the nBits before the cursor and forward reading the nBits after it, both in buffer order; the cursor moves by nBits and readBits stays below 8 |
| BitCursor.ReadBackward | ReferenceHybridCoder/Decoder_Hybrid.py:113-131 | the reverse loop prepends bit readBits of each byte and steps to the previous byte after eight bits |
| BitCursor.ReadForward | ReadBytesAsStringClass.py:35-53 | the forward loop appends bit 7 - readBits of each byte and steps to the next byte after eight bits |
| Bits.Bin | ReferenceHybridCoder/Coder_Hybrid_Mod.py:204 | bin(v)[2:] is non-empty, reads back as v and ends in v's low bit |
| Bits.ZFillBin | ReferenceHybridCoder/Coder_Hybrid_Mod.py:151-153 | bin(v)[2:].zfill(n) is the n-bit form of v whenever v fits in n bits |
| Bits.ValueOfBinary | ReferenceHybridCoder/Decoder_Hybrid.py:139-142 | int(s, 2) of the n-bit form of v is v |
| Bits.BinaryOfValue | ReferenceHybridCoder/Decoder_Hybrid.py:139-142 | the \|s\|-bit form of int(s, 2) is s itself |
| Bits.LowBitsCases | ReferenceHybridCoder/Coder_Hybrid_Mod.py:204-211 | both branches of the k-low-bits cut (the last k characters, or zfill to k) give the k-bit form of j mod 2^k |
| Bits.QuotientRemainder | ReferenceHybridCoder/Coder_Hybrid_Mod.py:215 | the halving quotient and remainder are j div 2^k and j mod 2^k and recompose j |
| HybridEncodeSpec.EmptyPrefixes | ReferenceHybridCoder/Coder_Hybrid_Mod.py:174-176 | coding starts with 16 empty active prefixes |
| HybridEncodeSpec.InputSymbol | ReferenceHybridCoder/Coder_Hybrid_Mod.py:303-312 | the input symbol is the hexadecimal digit of r when r <= L(i) and the escape 'X' when r > L(i) |
| HybridEncodeSpec.LowEntropyState | ReferenceHybridCoder/Coder_Hybrid_Mod.py:287-325 | only the active prefix of the selected index changes; it is cleared exactly when the extended prefix is a complete codeword and is the extended prefix otherwise; Σ and Γ are untouched |
| HybridEncodeSpec.ModeState | ReferenceHybridCoder/Coder_Hybrid_Mod.py:371-376 | the entropy processing leaves Σ and Γ as the update left them |
| HybridEncodeSpec.ResidualBits | ReferenceHybridCoder/Coder_Hybrid_Mod.py:363-366 | the first sample is written as its plain D-bit form |
| HybridEncodeSpec.NextStateKeepsPrefixesPending | ReferenceHybridCoder/Coder_Hybrid_Mod.py:359-376 | after every coding step each active prefix is over its index's alphabet and has no complete codeword as a prefix |
| HybridEncodeSpec.RunInvariants | ReferenceHybridCoder/Coder_Hybrid_Mod.py:417-419 | after n samples the prefixes are pending, Σ and Γ keep the accumulator bounds, and Γ follows the trajectory the decoder precomputes |
| HybridEncodeSpec.RunGamma | ReferenceHybridCoder/Coder_Hybrid_Mod.py:233-246 | Γ after n samples depends only on n, gamma_0 and gamma |
| HybridEncodeSpec.RunAccumulator | ReferenceHybridCoder/Coder_Hybrid_Mod.py:233-246 | the accumulator bounds hold after every sample |
| HybridEncodeSpec.PadLength | ReferenceHybridCoder/Coder_Hybrid_Mod.py:135-139 | padding adds fewer than 8 bits and completes a byte |
| HybridEncodeSpec.WordFill | ReferenceHybridCoder/Coder_Hybrid_Mod.py:352-353 | fewer than wordSize bytes are added, and the byte count becomes a multiple of the word size |
| HybridEncodeSpec.Framed | ReferenceHybridCoder/Coder_Hybrid_Mod.py:344-353 | the framed stream is the body followed only by zeros, is whole bytes and whole words, and is shorter than the body plus a byte plus a word |
| HybridDecodeSpec.ReadSigmas | ReferenceHybridCoder/Decoder_Hybrid.py:232-237 | a successful read yields one accumulator per band |
| HybridDecodeSpec.ReadFlush | ReferenceHybridCoder/Decoder_Hybrid.py:239-246 | a successful read yields one active prefix per code index read |
| HybridDecodeSpec.DecodeTail | ReferenceHybridCoder/Decoder_Hybrid.py:228-246 | a decoded tail holds one accumulator per band and 16 active prefixes |
| HybridDecodeSpec.LowDecode | ReferenceHybridCoder/Decoder_Hybrid.py:355-395 | low-entropy decoding keeps the band accumulators and the 16 prefixes |
| HybridDecodeSpec.DecodeMode | ReferenceHybridCoder/Decoder_Hybrid.py:413-418 | either mode keeps the band accumulators and the 16 prefixes |
| HybridDecodeSpec.DecodeResidual | ReferenceHybridCoder/Decoder_Hybrid.py:401-424 | a decoded sample keeps one accumulator per band, and the first pixel of a band changes neither accumulators nor prefixes |
| HybridDecodeSpec.FlatIndexInRange | ReferenceHybridCoder/Decoder_Hybrid.py:457-466 | every (row, col, band) of the image has a cell in the residual matrix |
| HybridDecodeSpec.VisitSample | ReferenceHybridCoder/Decoder_Hybrid.py:465-466 | storing a decoded residual changes only that sample's cell |
| HybridDecodeSpec.ColumnsDown | ReferenceHybridCoder/Decoder_Hybrid.py:463 | the column loop visits nCols positions, all inside the image |
| HybridDecodeSpec.BandsDown | ReferenceHybridCoder/Decoder_Hybrid.py:479 | the band loop visits nBands positions, all inside the image |
| HybridDecodeSpec.BsqRows | ReferenceHybridCoder/Decoder_Hybrid.py:462-463 | the bsq row loop visits only positions inside the image |
| HybridDecodeSpec.BsqBands | ReferenceHybridCoder/Decoder_Hybrid.py:461-463 | the bsq loops visit only positions inside the image |
| HybridDecodeSpec.BilBands | ReferenceHybridCoder/Decoder_Hybrid.py:470-471 | the bil band loop visits only positions inside the image |
| HybridDecodeSpec.BilRows | ReferenceHybridCoder/Decoder_Hybrid.py:469-471 | the bil loops visit only positions inside the image |
| HybridDecodeSpec.BipColumns | ReferenceHybridCoder/Decoder_Hybrid.py:478-479 | the bip column loop visits only positions inside the image |
| HybridDecodeSpec.BipRows | ReferenceHybridCoder/Decoder_Hybrid.py:477-479 | the bip loops visit only positions inside the image |
| HybridDecodeSpec.Visits | ReferenceHybridCoder/Decoder_Hybrid.py:460-482 | every decoding order visits only positions inside the image |
| HybridDecodeSpec.ZeroMatrix | ReferenceHybridCoder/Decoder_Hybrid.py:457 | the residual matrix starts as n zeros |
| HybridRoundTrip.RestoreAfterSample | ReferenceHybridCoder/Decoder_Hybrid.py:307-316 | the bit a rescale wrote is the one read back, and the step back then restores Σ |
| HybridRoundTrip.EscapeRoundTrip | ReferenceHybridCoder/Decoder_Hybrid.py:384-390 | the escape's GPO2 code with k = 0 decodes to r - L(i) - 1, so the decoder's j + L(i) + 1 is r |
| HybridRoundTrip.LoadPrefixInvertsLowStep | ReferenceHybridCoder/Decoder_Hybrid.py:373-379 | the active prefix the decoder loads after a low-entropy step is the coder's extended prefix, in front of the escape bits |
| HybridRoundTrip.LowDecodeInvertsLowStep | ReferenceHybridCoder/Decoder_Hybrid.py:355-395 | low-entropy decoding of the coder's low-entropy output returns the residual, the coder's earlier prefixes and the bits before them |
| HybridRoundTrip.DecodeModeInvertsModeBits | ReferenceHybridCoder/Decoder_Hybrid.py:413-418 | the same holds for whichever of the two modes the coder chose |
| HybridRoundTrip.SampleStepBack | ReferenceHybridCoder/Decoder_Hybrid.py:401-424 | decoding sample t >= 1 from the coder's state after it returns the residual and the coder's state before it |
| HybridRoundTrip.FirstSampleRoundTrip | ReferenceHybridCoder/Decoder_Hybrid.py:402-405 | the first sample's D bits read back as the first residual |
| HybridRoundTrip.ProgressStepBack | ReferenceHybridCoder/Decoder_Hybrid.py:401-424 | at every sample the decoder's step turns the coder's progress after t into its progress before t |
| HybridRoundTrip.FlushRoundTrip | ReferenceHybridCoder/Decoder_Hybrid.py:239-246 | reading the flush codewords back gives the coder's active prefixes in order |
| HybridRoundTrip.TailRoundTrip | ReferenceHybridCoder/Decoder_Hybrid.py:228-246 | decoding the tail of the coded stream gives the coder's final Σ, its active prefixes and the bits written before the tail |
| HybridRoundTrip.FinalStateFitsTail | ReferenceHybridCoder/Coder_Hybrid_Mod.py:339-343 | at the end of coding the prefixes can be flushed and Σ fits in 2 + D + gamma bits |
| HybridRoundTrip.BsqTraversal | ReferenceHybridCoder/Decoder_Hybrid.py:460-466 | the bsq loops visit the samples in the reverse of coding order and step the decoder back to its start |
| HybridRoundTrip.BsqRoundTrip | ReferenceHybridCoder/Decoder_Hybrid.py:438-484 | decoding in bsq order the bytes of the coded single-band image, after any header, returns every mapped residual |
| HybridCoderClass.HybridCoder.constructor | ReferenceHybridCoder/Coder_Hybrid_Mod.py:49-87 | the coder starts with the default configuration (Umax 32, gamma 4, gamma_0 1, Sigma_0 32768) and an empty output |
| HybridCoderClass.HybridCoder.SetConfigurationParameters | ReferenceHybridCoder/Coder_Hybrid_Mod.py:386-394 | the fields become the clipped parameters, and nothing else changes |
| HybridCoderClass.HybridCoder.PackBits | ReferenceHybridCoder/Coder_Hybrid_Mod.py:123-131 | the completed bytes plus the bits pending in currentByte grow by exactly s, with fewer than 8 bits pending |
| HybridCoderClass.HybridCoder.WriteBits | ReferenceHybridCoder/Coder_Hybrid_Mod.py:123-131 | the written bits grow by s; writtenBits is the new bit count mod 8 and the byte count grows by the carried bytes |
| HybridCoderClass.HybridCoder.Padding | ReferenceHybridCoder/Coder_Hybrid_Mod.py:135-139 | padding appends copies of the pad bit until the last byte is complete |
| HybridCoderClass.HybridCoder.WriteIntegerValue | ReferenceHybridCoder/Coder_Hybrid_Mod.py:151-153 | appends bin(v)[2:].zfill(n) |
| HybridCoderClass.HybridCoder.InitializeCodingVariables | ReferenceHybridCoder/Coder_Hybrid_Mod.py:166-180 | the state becomes Γ = 2^gamma_0, the clipped Sigma_0 and 16 empty prefixes, and the output is emptied |
| HybridCoderClass.HybridCoder.GenerateHeader | ReferenceHybridCoder/Coder_Hybrid_Mod.py:184-185 | appends the header string |
| HybridCoderClass.HybridCoder.Gpo2Coding | ReferenceHybridCoder/Coder_Hybrid_Mod.py:195-229 | appends R_k(j) |
| HybridCoderClass.HybridCoder.UpdateAccumulator | ReferenceHybridCoder/Coder_Hybrid_Mod.py:233-246 | appends the rescale bit, if any, and applies the update law |
| HybridCoderClass.HybridCoder.EvaluateHighEntropyCondition | ReferenceHybridCoder/Coder_Hybrid_Mod.py:252-258 | returns the mode test against T(0) |
| HybridCoderClass.HybridCoder.HighEntropyProcess | ReferenceHybridCoder/Coder_Hybrid_Mod.py:263-280 | appends R_k(r) for the largest admissible k |
| HybridCoderClass.HybridCoder.LowEntropyProcess | ReferenceHybridCoder/Coder_Hybrid_Mod.py:287-325 | appends the escape code and any completed codeword, and updates the prefixes as LowEntropyState says |
| HybridCoderClass.HybridCoder.CodeImageTail | ReferenceHybridCoder/Coder_Hybrid_Mod.py:330-353 | the bytes become the written bits plus the tail, framed to whole bytes and words |
| HybridCoderClass.HybridCoder.CodeTargetMappedResidual | ReferenceHybridCoder/Coder_Hybrid_Mod.py:359-376 | appends the bits of one coding step and moves to the next state |
| HybridCoderClass.HybridCoder.Code | ReferenceHybridCoder/Coder_Hybrid_Mod.py:399-430 | the byte stream's bits are the header, every sample's bits and the framed tail, a whole number of words |
| HybridCoderClass.FillToWord | ReferenceHybridCoder/Coder_Hybrid_Mod.py:352-353 | the loop appends WordFill copies of the fill byte, leaving a multiple of the word size |
| HybridCoderClass.ResidualBitsAfterFirst | ReferenceHybridCoder/Coder_Hybrid_Mod.py:367-376 | after the first sample, a step writes the rescale bit, then the bits of the chosen mode |
| HybridCoderClass.LowEntropyBitsCases | ReferenceHybridCoder/Coder_Hybrid_Mod.py:313-325 | low-entropy output is the escape code, followed by the codeword exactly when the extended prefix is complete |
| HybridCoderClass.FramedByWordFill | ReferenceHybridCoder/Coder_Hybrid_Mod.py:346-353 | the framed stream is the body, its byte padding and the word-fill zero bytes |
| HybridDecoderClass.HybridDecoder.constructor | ReferenceHybridCoder/Decoder_Hybrid.py:29-69 | the decoder holds the loaded tables, T(0) from their first row, and the image and coder parameters that decode() assigns first, with an empty buffer |
| HybridDecoderClass.HybridDecoder.ReadBinaryStringFromBitStream | ReferenceHybridCoder/Decoder_Hybrid.py:108-136 | returns the nBits before the cursor and moves past them only when updateCounters holds |
| HybridDecoderClass.HybridDecoder.InversePadding | ReferenceHybridCoder/Decoder_Hybrid.py:147-150 | the loop removes the trailing zeros and the one before them |
| HybridDecoderClass.HybridDecoder.CountMatchingBits | ReferenceHybridCoder/Decoder_Hybrid.py:158-166 | the loop counts the final run of the target bit |
| HybridDecoderClass.HybridDecoder.GetNumberOfBitsEqualToTargetValue | ReferenceHybridCoder/Decoder_Hybrid.py:156-171 | returns the count of CountTrailing and consumes those bits only when updateCounters holds |
| HybridDecoderClass.HybridDecoder.GetOutputCodeWordFromBitstream | ReferenceHybridCoder/Decoder_Hybrid.py:181-186 | returns the codeword of ReadCodeword and consumes it |
| HybridDecoderClass.HybridDecoder.InitializeDecodingVariables | ReferenceHybridCoder/Decoder_Hybrid.py:198-223 | GammaList and RescalingList hold the counter trajectory for every pixel, and the cursor sits after the last bit |
| HybridDecoderClass.HybridDecoder.DecodeImageTail | ReferenceHybridCoder/Decoder_Hybrid.py:228-246 | the accumulators, prefixes and cursor become those DecodeTail gives |
| HybridDecoderClass.HybridDecoder.ReadAccumulators | ReferenceHybridCoder/Decoder_Hybrid.py:232-237 | the loop inserting at the front reads the band accumulators in band order |
| HybridDecoderClass.HybridDecoder.ReadFlushPrefixes | ReferenceHybridCoder/Decoder_Hybrid.py:239-246 | the loop from index 15 down to 0 reads the 16 flushed prefixes in index order |
| HybridDecoderClass.HybridDecoder.ReadNextAccumulator | ReferenceHybridCoder/Decoder_Hybrid.py:234-237 | one iteration reads nBits bits as the accumulator stored just before those already read, so that with it in front the remaining reads still give ReadSigmas |
| HybridDecoderClass.HybridDecoder.ReadNextFlushPrefix | ReferenceHybridCoder/Decoder_Hybrid.py:241-246 | one iteration decodes the codeword of flush table n - 1 and yields its input prefix, so that with it in front the remaining reads still give ReadFlush |
| HybridDecoderClass.HybridDecoder.ReadLowBits | ReferenceHybridCoder/Decoder_Hybrid.py:269-273 | the k low bits read as an integer, or 0 without reading when k = 0 |
| HybridDecoderClass.HybridDecoder.GPO2Decoding | ReferenceHybridCoder/Decoder_Hybrid.py:257-282 | returns the value Gpo2Decode gives and consumes its bits |
| HybridDecoderClass.HybridDecoder.EvaluateHighEntropyCondition | ReferenceHybridCoder/Decoder_Hybrid.py:287-293 | returns the same mode test as the coder |
| HybridDecoderClass.HybridDecoder.UpdateHighResolutionAccumulatorAndCounter | ReferenceHybridCoder/Decoder_Hybrid.py:298-316 | Γ becomes the precomputed Γ(t), and Σ steps back, reading the rescale bit only when that update rescaled |
| HybridDecoderClass.HybridDecoder.GetHighResolutionAccumulatorForTargetBand | ReferenceHybridCoder/Decoder_Hybrid.py:320-321 | Σ becomes the band's accumulator |
| HybridDecoderClass.HybridDecoder.StoreCurrentHighResolutionAccumulatorForTargetBand | ReferenceHybridCoder/Decoder_Hybrid.py:323-324 | the band's accumulator becomes Σ and no other entry changes |
| HybridDecoderClass.HybridDecoder.HighEntropyProcess | ReferenceHybridCoder/Decoder_Hybrid.py:331-349 | GPO2-decodes with the same k the coder chose |
| HybridDecoderClass.HybridDecoder.LoadActivePrefix | ReferenceHybridCoder/Decoder_Hybrid.py:373-379 | an empty active prefix is refilled from the next codeword |
| HybridDecoderClass.HybridDecoder.LowEntropyProcess | ReferenceHybridCoder/Decoder_Hybrid.py:355-395 | returns the residual and state LowDecode gives |
| HybridDecoderClass.HybridDecoder.DecodeTargetMappedResidual | ReferenceHybridCoder/Decoder_Hybrid.py:401-424 | returns the residual and state DecodeResidual gives |
| HybridDecoderClass.HybridDecoder.DecodeAwayFromOrigin | ReferenceHybridCoder/Decoder_Hybrid.py:406-422 | away from row 0, column 0: returns the residual and state DecodeResidual gives |
| HybridDecoderClass.HybridDecoder.DecodeWithBandAccumulator | ReferenceHybridCoder/Decoder_Hybrid.py:408-418 | loads the band accumulator and Gamma(t), then returns the residual and state DecodeMode gives from them |
| HybridDecoderClass.HybridDecoder.DecodeInMode | ReferenceHybridCoder/Decoder_Hybrid.py:412-418 | high or low entropy by the T(0) test, returning the residual and state DecodeMode gives |
| HybridDecoderClass.HybridDecoder.RestoreBandAccumulator | ReferenceHybridCoder/Decoder_Hybrid.py:419-422 | the band entry becomes the restored accumulator, after reading the rescaling bit exactly when counter t was halved; nothing else in the state changes |
| HybridDecoderClass.HybridDecoder.DecodeBsq | ReferenceHybridCoder/Decoder_Hybrid.py:460-466 | the bsq loops run the decoding walk to its end |
| HybridDecoderClass.HybridDecoder.DecodeBil | ReferenceHybridCoder/Decoder_Hybrid.py:468-474 | the bil loops run the decoding walk to its end |
| HybridDecoderClass.HybridDecoder.DecodeBip | ReferenceHybridCoder/Decoder_Hybrid.py:476-482 | the bip loops run the decoding walk to its end |
| HybridDecoderClass.HybridDecoder.DecodeSample | ReferenceHybridCoder/Decoder_Hybrid.py:465-466 | one visit: decodes the sample and stores it in its cell, advancing the walk by exactly that visit |
| HybridDecoderClass.HybridDecoder.DecodeColumnsDown | ReferenceHybridCoder/Decoder_Hybrid.py:463-466 | the column loop from nCols - 1 down to 0 (also lines 471-474) advances the walk past exactly those columns |
| HybridDecoderClass.HybridDecoder.DecodeBsqRows | ReferenceHybridCoder/Decoder_Hybrid.py:462-466 | the bsq row loop from nRows - 1 down to 0 advances the walk past exactly those rows of the band |
| HybridDecoderClass.HybridDecoder.DecodeBilBands | ReferenceHybridCoder/Decoder_Hybrid.py:470-474 | the bil band loop from nBands - 1 down to 0 advances the walk past exactly those bands of the row |
| HybridDecoderClass.HybridDecoder.DecodeBandsDown | ReferenceHybridCoder/Decoder_Hybrid.py:479-482 | the bip band loop from nBands - 1 down to 0 advances the walk past exactly those bands of the pixel |
| HybridDecoderClass.HybridDecoder.DecodeBipColumns | ReferenceHybridCoder/Decoder_Hybrid.py:478-482 | the bip column loop from nCols - 1 down to 0 advances the walk past exactly those pixels of the row |
| HybridDecoderClass.HybridDecoder.Decode | ReferenceHybridCoder/Decoder_Hybrid.py:438-484 | the returned matrix is DecodeSpec of the stream in the given order |
| HybridDecoderClass.CounterPrefixStep | ReferenceHybridCoder/Decoder_Hybrid.py:207-217 | each iteration of the counter precomputation appends Γ(t) and whether its update rescaled |
| HybridPipeline.CodeImage | ReferenceHybridCoder/Coder_Hybrid_Mod.py:399-430 | a fresh coder's bytes are the coded bits, a whole number of words |
| HybridPipeline.DecodeImage | ReferenceHybridCoder/Decoder_Hybrid.py:438-484 | a fresh decoder returns DecodeSpec of the bytes |
| HybridPipeline.CodeThenDecode | ReferenceHybridCoder/Decoder_Hybrid.py:438-484 | coding a single-band image after any header, then decoding it in bsq order with the coder's parameters, returns the residuals |
| GolombRiceSpec.BitLength | GolombRiceCoder.py:97-98 | b satisfies 2^(b-1) <= M < 2^b, that is floor(log2 M) + 1 |
| GolombRiceSpec.Difference | GolombRiceCoder.py:99 | 2^b - M lies between 1 and M and is at most 2^(b-1) |
| GolombRiceSpec.MeanParameter | GolombRiceCoder.py:91-92 | the parameter is at least 1 |
| GolombRiceSpec.Unary | GolombRiceCoder.py:22-43 | the unary code of q has q + 1 bits |
| GolombRiceSpec.ValuesAt | GolombRiceCoder.py:250-269 | a successful decode of n values yields n values |
| GolombRiceSpec.Decoded | GolombRiceCoder.py:226-278 | a successful decodeBitstream yields nElements values |
| GolombRiceSpec.RemainderFits | GolombRiceCoder.py:112-119 | a short remainder fits in b - 1 bits; a long one's code r + difference fits in b bits and its top b - 1 bits are at least difference |
| GolombRiceSpec.RemainderCodeLength | GolombRiceCoder.py:114-119 | a remainder takes b - 1 bits below difference and b bits otherwise |
| GolombRiceSpec.UnaryAtCode | GolombRiceCoder.py:162-178 | readIntFromUnary over the unary code of q reads q and stops just after the zero |
| GolombRiceSpec.RemainderAtCode | GolombRiceCoder.py:255-267 | the (b - 1)-bit peek and the b-bit read recover r from its truncated binary code |
| GolombRiceSpec.ValueAtCode | GolombRiceCoder.py:250-269 | one value's code decodes to that value, ending just after the code |
| GolombRiceSpec.ValuesAtCode | GolombRiceCoder.py:250-269 | the codes of a sequence decode to that sequence |
| GolombRiceSpec.PaddingAligns | GolombRiceCoder.py:63-72 | padding adds 1 to 16 zero bits and leaves an even number of whole bytes |
| GolombRiceSpec.MeanBelow | GolombRiceCoder.py:91-96 | the mean of values below 2^D is below 2^D, so the header holds M whole |
| GolombRiceSpec.RoundTrip | GolombRiceCoder.py:226-278 | decoding the bytes of code()'s output returns the input vector |
| GolombRiceCoderClass.GolombRiceCoder.constructor | GolombRiceCoder.py:10-14 | the coder starts with no output |
| GolombRiceCoderClass.GolombRiceCoder.IncreaseWrittenBytes | GolombRiceCoder.py:19-20 | the byte count grows by one |
| GolombRiceCoderClass.GolombRiceCoder.WriteBit | GolombRiceCoder.py:26-32 | ORing one bit at position 7 - writtenBits, and flushing a full byte, appends that bit to the output |
| GolombRiceCoderClass.GolombRiceCoder.WriteIntToUnary | GolombRiceCoder.py:22-43 | appends q ones and a zero |
| GolombRiceCoderClass.GolombRiceCoder.WriteIntToBinary | GolombRiceCoder.py:47-60 | appends the n low bits of the number, most significant first |
| GolombRiceCoderClass.GolombRiceCoder.PaddingByte | GolombRiceCoder.py:63-72 | the output becomes the written bits plus the padding, with no bits pending |
| GolombRiceCoderClass.GolombRiceCoder.CodeValue | GolombRiceCoder.py:112-127 | appends one value's unary quotient and truncated-binary remainder |
| GolombRiceCoderClass.GolombRiceCoder.CodeValues | GolombRiceCoder.py:110-127 | appends the codes of every value in order |
| GolombRiceCoderClass.GolombRiceCoder.CodeBody | GolombRiceCoder.py:84-127 | the bits are the header followed by every value's code |
| GolombRiceCoderClass.GolombRiceCoder.Code | GolombRiceCoder.py:75-140 | the output file's bits are Encoded(vector), an even number of bytes |
| GolombRiceCoderClass.GolombRiceCoder.CheckCurrentBit | GolombRiceCoder.py:157-159 | returns the stream's bit at position 8·readBytes + readBits |
| GolombRiceCoderClass.GolombRiceCoder.NextBit | GolombRiceCoder.py:168-171 | the cursor moves one bit forward, with readBits kept below 8 |
| GolombRiceCoderClass.GolombRiceCoder.ReadIntFromUnary | GolombRiceCoder.py:162-178 | returns the value and position UnaryAt gives |
| GolombRiceCoderClass.GolombRiceCoder.CheckIntFromBinary | GolombRiceCoder.py:183-196 | returns the n-bit value at the cursor without moving it |
| GolombRiceCoderClass.GolombRiceCoder.ReadIntFromBinary | GolombRiceCoder.py:200-211 | returns the n-bit value at the cursor and moves past it |
| GolombRiceCoderClass.GolombRiceCoder.IncrementReadBits | GolombRiceCoder.py:215-222 | the cursor moves n bits forward |
| GolombRiceCoderClass.GolombRiceCoder.DecodeValue | GolombRiceCoder.py:252-269 | returns the value and position ValueAt gives |
| GolombRiceCoderClass.GolombRiceCoder.DecodeValues | GolombRiceCoder.py:250-269 | the vector holds the values ValuesAt gives |
| GolombRiceCoderClass.GolombRiceCoder.DecodeBitstream | GolombRiceCoder.py:226-278 | returns Decoded(byteList) |
| GolombRiceCoderClass.GolombRiceCoder.Decode | GolombRiceCoder.py:281-301 | returns the decoded values cast to uint16 |
| GolombRiceCoderClass.CodeThenDecode | GolombRiceCoder.py:281-301 | decode of code()'s output returns the vector, for values below 2^D with D <= 16 |
| GolombRiceCoderClass.CastKeeps | GolombRiceCoder.py:300 | the uint16 cast keeps every value below 2^16 |
| ReadBytesAsString.ConvertHexaFileToBinFile.constructor | ReadBytesAsStringClass.py:7-12 | the reader starts empty, with its cursor at zero |
| ReadBytesAsString.ConvertHexaFileToBinFile.InitializeParameters | ReadBytesAsStringClass.py:15-20 | empty buffer, cursor at the first byte, counters zero |
| ReadBytesAsString.ConvertHexaFileToBinFile.ReadBitStreamFromBinaryFile | ReadBytesAsStringClass.py:62-65 | the buffer becomes the file's bytes |
| ReadBytesAsString.ConvertHexaFileToBinFile.ReadBinaryStringFromBitStream | ReadBytesAsStringClass.py:30-58 | forward reading returns the nBits after the cursor and reverse reading the nBits before it; the cursor moves only when updateCounters holds |
| ReadBytesAsString.ConvertHexaFileToBinFile.ReadBinaryFileAsString | ReadBytesAsStringClass.py:69-81 | the string is the file's bits, eight per byte, most significant first |
| ReadBytesAsString.StringGivesBytes | ReadBytesAsStringClass.py:69-81 | the string has 8 characters per byte, and the eight characters of byte i read in binary are that byte |
| DataAdapter.Column | Data_Adapter.py:58 | PM_Pixels[:, i] has one entry per row |
| DataAdapter.Row | Data_Adapter.py:59 | PM_Projections[i, :] has one entry per column |
| DataAdapter.LayoutLengthIs | Data_Adapter.py:55-62 | the layout after k endmembers has n0 + k·w entries |
| DataAdapter.Blocks | Data_Adapter.py:55-62 | the layout after k endmembers has the length LayoutLength gives |
| DataAdapter.BlocksLength | Data_Adapter.py:55-62 | the layout has nBands + k·(rows + blockSize) entries |
| DataAdapter.BlocksPrefix | Data_Adapter.py:55-62 | each iteration only extends the accumulated data |
| DataAdapter.BlocksAt | Data_Adapter.py:55-62 | endmember i's pixel column sits where the first i blocks end, and its projection row right after it |
| DataAdapter.LastBlock | Data_Adapter.py:57-61 | iteration i appends endmember i's pixel column and then its projection row to the data accumulated before it |
| DataAdapter.SliceKept | Data_Adapter.py:55-62 | later iterations leave every value already accumulated at its offset |
| DataAdapter.Adapter.constructor | Data_Adapter.py:5-28 | the adapter holds the three arrays and their characteristics |
| DataAdapter.Adapter.GetInputCharacteristics | Data_Adapter.py:43-46 | nBands is the centroid's size, endMembers the pixels' column count, blockSize the projections' column count |
| DataAdapter.Adapter.ConcatenateBlocks | Data_Adapter.py:55-61 | the loop builds Blocks over every endmember |
| DataAdapter.Adapter.AdaptInputTo1DVector | Data_Adapter.py:55-62 | as written: fails exactly when there is no endmember, and otherwise returns the layout |
| DataAdapter.Adapter.AdaptInputTo1DVectorCorrected | Data_Adapter.py:55-62 | returns the layout (the centroid alone with no endmember), of length nBands + endMembers·(rows + blockSize) |
| DataAdapter.Adapter.CompareVectors | Data_Adapter.py:66-75 | as written: True exactly when the differences over the input's indices sum to zero |
| DataAdapter.Adapter.VectorsEqual | Data_Adapter.py:66-75 | True exactly when the input equals the output's prefix of the same length |
| DataAdapter.EqualVectorsSumToZero | Data_Adapter.py:66-75 | equal vectors pass the comparison as written |
| DataAdapter.CompareVectorsMisses | Data_Adapter.py:66-75 | [1, 0] and [0, 1] differ, yet their differences sum to zero |

## Left out

- File I/O becomes parameters and results.
  - pickle loading of the coding tables: the tables are parameters, under stated validity conditions.
  - numpy.load in LoadData: the arrays are constructor arguments.
  - reading and writing the stream files (writeBitStreamToBinaryFile, readBitStreamFromBinaryFile, getSizeOfFile and the struct-based byte loops): the byte sequences are parameters and results.
  - The Golomb coder's fileOut is the sequence of bytes written.
- Printing, log files and the compression-ratio display are left out.
- generateMappedResidualsLogFile is left out. It only writes the matrix to a file.
- Floating point is replaced by exact integers.
  - int((49/2**5)·Γ) is modelled as floor(49Γ/32).
  - int(j/2**k) is modelled as floor division.
  - int(numpy.mean(v)) is modelled as the integer floor of the mean.
  - floor(log2(M)) + 1 is modelled as the bit length of M.
  - The first three agree with the floating-point results below 2^53. The bit length agrees with floor(log2(M)) + 1 for M below 2^48.
- GolombRiceSpec.BitLength is exact for every M. For M just below a power of two from 2^49 on, a double-precision log2(M) can round up to that power. For example, for M = 2^49 - 1 the original computes b = 50. So GolombRiceCoderClass.GolombRiceCoder.Code, GolombRiceSpec.Decoded and GolombRiceCoderClass.GolombRiceCoder.Decode follow the original only for parameters M below 2^48, that is, for vectors whose mean is below 2^48.
- Python's negative indexing is not modelled.
  - A reverse read of more bits than precede the cursor (index -1 wraps to the last byte) is excluded by preconditions.
  - Failures of the decoding functions (Failure results) are excluded the same way, as are the IndexErrors of the Golomb decoder: the decoder methods require the decoding function to succeed.
- ReverseReads.CountTrailing clamps its peek to the bits before the cursor. When fewer than maxBits bits remain and all of them equal c, the original's window wraps to the end of the stream and may count further. On streams the coder writes the run always stops inside the stream, so the round trips hold after any header, the empty one included.
- HybridRoundTrip.BsqRoundTrip and HybridPipeline.CodeThenDecode cover single-band images in bsq order with D >= 1. The decoder itself is modelled for every order and band count.
- DataAdapter.Adapter.ConcatenateBlocks, AdaptInputTo1DVector and AdaptInputTo1DVectorCorrected require endMembers <= projections.Rows(). With more endmembers than projection rows, PM_Projections[i, :] at Data_Adapter.py:59 raises IndexError, which is not modelled.
- DataAdapter.Adapter.CompareVectors and VectorsEqual require |inputVector| <= |outputVector|. With a shorter output vector, outputVector[i] at Data_Adapter.py:70 raises IndexError, which is not modelled.
- HybridPipeline.CodeImage codes with the default configuration. SetConfigurationParameters models the configurable one separately.
- GolombRiceCoderClass.GolombRiceCoder.Code requires a non-empty vector. numpy.mean of an empty vector is NaN, and int(NaN) raises.
- GolombRiceCoderClass.GolombRiceCoder.Decode models the uint16 cast as the value mod 65536.
  - That is numpy's result for the non-negative integers the decoder produces.
  - The float64 vector decodeBitstream fills is modelled as integers.
- GolombRiceCoderClass.CodeThenDecode is limited to dynamic ranges up to 16 bits, so that the uint16 cast keeps every value.
- GolombRiceCoderClass.GolombRiceCoder.CheckIntFromBinary and ReadIntFromBinary compute their bits through CheckCurrentBit. The original repeats the same expression inline.
- Some loop bodies are separate methods, each proved against the same specification:
  - WriteBit, CodeValue, CodeValues and CodeBody in the Golomb coder;
  - NextBit, DecodeValue and DecodeValues in the Golomb decoder;
  - ConcatenateBlocks in the adapter;
  - in the hybrid decoder: ReadNextAccumulator and ReadNextFlushPrefix (the loop bodies of decodeImageTail); DecodeAwayFromOrigin, DecodeWithBandAccumulator, DecodeInMode and RestoreBandAccumulator (the parts of decodeTargetMappedResidual); DecodeSample, DecodeColumnsDown, DecodeBsqRows, DecodeBilBands, DecodeBandsDown and DecodeBipColumns (the loop levels of decode()).
- Constructors set fields to their initial values, not None.
- HybridDecoderClass.HybridDecoder.constructor takes the parameters that decode() assigns to the fields before it reads the stream. The original's constructor leaves them None.
- The adapter's centroid is given already flattened.
- .astype(int) on integer data is the identity and is not modelled.
- DataAdapter.Adapter.CompareVectors uses unbounded integers, so numpy int64 overflow of the running sum is not modelled.
- HybridEncodeSpec.WordFill follows the loop at Coder_Hybrid_Mod.py:352-353: a stream that is already a whole number of words gets no fill. The comment before it says that a whole word of zeros is added.

## Findings

| source | as written | input that shows it | evidently intended | confidence | as-written member | corrected member |
|---|---|---|---|---|---|---|
| Data_Adapter.py:66-75 | CompareVectors returns True when the element differences sum to zero | inputVector [1, 0], outputVector [0, 1]: the differences are 1 and -1, so it answers True | True only when every element is equal | not executed | DataAdapter.CompareVectorsMisses | DataAdapter.Adapter.VectorsEqual |
| Data_Adapter.py:55-62 | outVector is bound only inside the loop over endmembers | a pixels array with zero columns (endMembers = 0): `return outVector` raises UnboundLocalError | return the accumulated data, i.e. the centroid alone | not executed | DataAdapter.Adapter.AdaptInputTo1DVector | DataAdapter.Adapter.AdaptInputTo1DVectorCorrected |
