/**
 * The coder and the decoder used together, as a caller of both classes would: code a
 * one-band image with HybridCoder, then decode its bytes in bsq order with HybridDecoder
 * given the coder's parameters.
 */
module HybridPipeline {
  import opened Bits
  import opened CodingTables
  import opened HybridEncodeSpec
  import opened HybridDecodeSpec
  import opened HybridRoundTrip
  import opened HybridCoderClass
  import opened HybridDecoderClass

  /** Codes the residuals with a fresh coder: the bytes are the coded bits of the residuals after header. */
  method CodeImage(ct: CoderTables, D: nat, header: BitString, rs: seq<nat>, wordSize: nat) returns (stream: seq<Byte>)
    requires ValidCoderTables(ct) && wordSize >= 1
    ensures BytesBits(stream) == EncodedBits(CoderConfig(D, 32, 1, 4, 32768), ct, header, rs, wordSize)
    ensures |stream| % wordSize == 0
  {
    var coder := new HybridCoder(ct);
    coder.Code(D, header, rs, wordSize);
    stream := coder.bitStream;
  }

  /** Decodes the bytes with a fresh decoder given the parameters and the order. */
  method DecodeImage(dt: DecoderTables, stream: seq<Byte>, Umax: nat, gamma: nat, gamma0: nat, D: nat,
                     nCols: nat, nRows: nat, nBands: nat, order: string) returns (decoded: seq<int>)
    requires ValidDecoderTables(dt)
    requires DecodeSpec(DecoderConfig(Umax, gamma, gamma0, D, nCols, nRows, nBands), dt, stream, order).Success?
    ensures decoded == DecodeSpec(DecoderConfig(Umax, gamma, gamma0, D, nCols, nRows, nBands), dt, stream, order).value
  {
    var decoder := new HybridDecoder(dt, Umax, gamma, gamma0, D, nCols, nRows, nBands);
    decoded := decoder.Decode(stream, order);
  }

  /**
   * Coding residuals of dynamic range D after header, then decoding the bytes in bsq
   * order with the coder's Umax, gamma and gamma_0, gives back every residual.
   */
  method CodeThenDecode(ct: CoderTables, dt: DecoderTables, D: nat, header: BitString, rs: seq<nat>,
                        wordSize: nat, nCols: nat, nRows: nat) returns (decoded: seq<int>)
    requires MatchingTables(ct, dt) && wordSize >= 1 && 1 <= D
    requires |rs| == nCols * nRows && forall i :: 0 <= i < |rs| ==> rs[i] < Pow2(D)
    ensures decoded == rs
  {
    var stream := CodeImage(ct, D, header, rs, wordSize);
    BsqRoundTrip(CoderConfig(D, 32, 1, 4, 32768), ct, DecoderConfig(32, 4, 1, D, nCols, nRows, 1), dt, header, rs, wordSize, stream);
    decoded := DecodeImage(dt, stream, 32, 4, 1, D, nCols, nRows, 1, "bsq");
  }
}
