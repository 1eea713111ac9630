/**
 * What the hybrid decoder computes, as functions of the byte stream.  The decoder
 * reads the stream backwards from its last bit: first the tail (padding, the final
 * accumulator of every band, the 16 flush codewords), then the samples in the reverse
 * of the coding order, undoing each accumulator update as it goes.  Every function
 * works on the bits that lie before the decoder's cursor and returns a Failure where
 * the source would run off the front of the stream or meet a symbol it cannot parse.
 */
module HybridDecodeSpec {
  import opened Wrappers
  import opened Bits
  import opened ReverseReads
  import opened CodingTables
  import opened Accumulator
  import opened Gpo2

  /** The parameters decode() is given, used as they are (the decoder does not clip them). */
  datatype DecoderConfig = DecoderConfig(Umax: nat, gamma: nat, gamma0: nat, D: nat, nCols: nat, nRows: nat, nBands: nat)

  /** The bits before the cursor, the accumulator of every band and the 16 active prefixes. */
  datatype DecoderState = DecoderState(bits: BitString, sigmas: seq<int>, prefixes: seq<string>)

  datatype Position = Position(row: nat, col: nat, band: nat)

  /** A decoded mapped residual and the state after it. */
  datatype Decoded = Decoded(residual: int, state: DecoderState)

  /** The state and the residual matrix (flattened) between samples. */
  datatype Progress = Progress(state: DecoderState, residuals: seq<int>)

  /** The accumulators in the tail: n values of width bits, read last band first, listed by band. */
  function ReadSigmas(B: BitString, width: nat, n: nat): (res: Result<Cut<seq<int>>, DecodeError>)
    ensures res.Success? ==> |res.value.value| == n
    decreases n
  {
    if n == 0 then Success(Cut([], B))
    else
      var first := ReadBits(B, width);
      if first.Failure? then Failure(first.error)
      else
        var others := ReadSigmas(first.value.rest, width, n - 1);
        if others.Failure? then Failure(others.error)
        else Success(Cut(others.value.value + [Value(first.value.value)], others.value.rest))
  }

  /** The flush codewords of code indices n-1 down to 0, decoded and listed by index. */
  function ReadFlush(B: BitString, tables: DecoderTables, n: nat): (res: Result<Cut<seq<string>>, DecodeError>)
    requires ValidDecoderTables(tables) && n <= 16
    ensures res.Success? ==> |res.value.value| == n
    decreases n
  {
    if n == 0 then Success(Cut([], B))
    else
      var cw := ReadCodeword(B, tables.flush[n - 1]);
      if cw.Failure? then Failure(cw.error)
      else
        var others := ReadFlush(cw.value.rest, tables, n - 1);
        if others.Failure? then Failure(others.error)
        else Success(Cut(others.value.value + [tables.flush[n - 1][cw.value.value]], others.value.rest))
  }

  /** decodeImageTail on the whole stream's bits. */
  function DecodeTail(cfg: DecoderConfig, tables: DecoderTables, B: BitString): (res: Result<DecoderState, DecodeError>)
    requires ValidDecoderTables(tables)
    ensures res.Success? ==> |res.value.sigmas| == cfg.nBands && |res.value.prefixes| == 16
  {
    var unpadded := InversePadding(B);
    if unpadded.Failure? then Failure(unpadded.error)
    else
      var sigmas := ReadSigmas(unpadded.value, cfg.D + 2 + cfg.gamma, cfg.nBands);
      if sigmas.Failure? then Failure(sigmas.error)
      else
        var flush := ReadFlush(sigmas.value.rest, tables, 16);
        if flush.Failure? then Failure(flush.error)
        else Success(DecoderState(flush.value.rest, sigmas.value.value, flush.value.value))
  }

  /** The active prefix of code i, loaded from the next codeword when it is empty. */
  function LoadPrefix(tables: DecoderTables, s: DecoderState, i: nat): (res: Result<Cut<string>, DecodeError>)
    requires ValidDecoderTables(tables) && |s.prefixes| == 16 && i < 16
  {
    if s.prefixes[i] == "" then
      var cw := ReadCodeword(s.bits, tables.codes[i]);
      if cw.Failure? then Failure(cw.error)
      else Success(Cut(tables.codes[i][cw.value.value], cw.value.rest))
    else Success(Cut(s.prefixes[i], s.bits))
  }

  /**
   * LowEntropyProcess: the same code index search as the coder, then the last symbol
   * of the active prefix is removed and decoded, 'X' through GPO2 with k = 0.
   */
  function LowDecode(cfg: DecoderConfig, tables: DecoderTables, s: DecoderState, Sigma: int, Gamma: int): (res: Result<Decoded, DecodeError>)
    requires ValidDecoderTables(tables) && |s.prefixes| == 16
    ensures res.Success? ==> res.value.state.sigmas == s.sigmas && |res.value.state.prefixes| == 16
  {
    var i := SelectIndex(Sigma, Gamma, tables.limits);
    var L := tables.limits[i].limit;
    var loaded := LoadPrefix(tables, s, i);
    if loaded.Failure? then Failure(loaded.error)
    else
      var prefix := loaded.value.value;
      if prefix == "" then Failure(InvalidCodeword)
      else
        var symbol := prefix[|prefix| - 1];
        var state := DecoderState(loaded.value.rest, s.sigmas, s.prefixes[i := prefix[..|prefix| - 1]]);
        if symbol == Escape then
          var j := Gpo2Decode(state.bits, 0, cfg.Umax, cfg.D);
          if j.Failure? then Failure(j.error)
          else Success(Decoded(j.value.value + L + 1, state.(bits := j.value.rest)))
        else
          match HexValue(symbol)
          case None => Failure(InvalidCodeword)
          case Some(v) => Success(Decoded(v, state))
  }

  /** The residual in the mode the coder chose from the updated accumulator and Gamma(t). */
  function DecodeMode(cfg: DecoderConfig, tables: DecoderTables, s: DecoderState, Sigma: int, Gamma: int): (res: Result<Decoded, DecodeError>)
    requires ValidDecoderTables(tables) && |s.prefixes| == 16
    ensures res.Success? ==> res.value.state.sigmas == s.sigmas && |res.value.state.prefixes| == 16
  {
    if HighEntropy(Sigma, Gamma, tables.limits[0].threshold) then
      var j := Gpo2Decode(s.bits, SelectK(Sigma, Gamma, cfg.D), cfg.Umax, cfg.D);
      if j.Failure? then Failure(j.error) else Success(Decoded(j.value.value, s.(bits := j.value.rest)))
    else LowDecode(cfg, tables, s, Sigma, Gamma)
  }

  /** The sample index t = col + row * nCols that selects Gamma(t). */
  function SampleIndex(cfg: DecoderConfig, pos: Position): nat
  {
    pos.col + pos.row * cfg.nCols
  }

  /**
   * decodeTargetMappedResidual: position (0, 0) of a band is D plain bits; every other
   * position decodes in the mode and with the parameters the coder used (both depend
   * only on the updated accumulator and Gamma(t)), then restores the accumulator the
   * coder had before the sample, reading the rescaling bit when Gamma(t) was rescaled.
   */
  function DecodeResidual(cfg: DecoderConfig, tables: DecoderTables, s: DecoderState, pos: Position): (res: Result<Decoded, DecodeError>)
    requires ValidDecoderTables(tables) && |s.prefixes| == 16 && pos.band < |s.sigmas|
    ensures res.Success? ==> |res.value.state.sigmas| == |s.sigmas| && |res.value.state.prefixes| == 16
    ensures res.Success? && pos.row == 0 && pos.col == 0 ==>
      res.value.state.sigmas == s.sigmas && res.value.state.prefixes == s.prefixes
  {
    if pos.row == 0 && pos.col == 0 then
      var plain := ReadBits(s.bits, cfg.D);
      if plain.Failure? then Failure(plain.error)
      else Success(Decoded(Value(plain.value.value), s.(bits := plain.value.rest)))
    else
      var Sigma := s.sigmas[pos.band];
      var t := SampleIndex(cfg, pos);
      var Gamma := GammaAt(cfg.gamma0, cfg.gamma, t);
      var decoded := DecodeMode(cfg, tables, s, Sigma, Gamma);
      if decoded.Failure? then decoded
      else
        var r := decoded.value.residual;
        var s1 := decoded.value.state;
        if RescaledAt(cfg.gamma0, cfg.gamma, t) then
          var lsb := ReadBits(s1.bits, 1);
          if lsb.Failure? then Failure(lsb.error)
          else
            var restored := RestoredSigma(Sigma, r, true, Value(lsb.value.value));
            Success(Decoded(r, DecoderState(lsb.value.rest, s1.sigmas[pos.band := restored], s1.prefixes)))
        else
          Success(Decoded(r, s1.(sigmas := s1.sigmas[pos.band := RestoredSigma(Sigma, r, false, 0)])))
  }

  /** Where MappedResidualsMatrix[row, col, band] sits in the row-major flattening. */
  function FlatIndex(cfg: DecoderConfig, pos: Position): nat
  {
    (pos.row * cfg.nCols + pos.col) * cfg.nBands + pos.band
  }

  function ImageSize(cfg: DecoderConfig): nat
  {
    cfg.nRows * cfg.nCols * cfg.nBands
  }

  predicate InImage(cfg: DecoderConfig, pos: Position)
  {
    pos.row < cfg.nRows && pos.col < cfg.nCols && pos.band < cfg.nBands
  }

  lemma FlatIndexInRange(cfg: DecoderConfig, pos: Position)
    requires InImage(cfg, pos)
    ensures FlatIndex(cfg, pos) < ImageSize(cfg)
  {
    var rc := pos.row * cfg.nCols + pos.col;
    assert rc < cfg.nRows * cfg.nCols by {
      MulMonotone(pos.row + 1, cfg.nRows, cfg.nCols);
    }
    MulMonotone(rc + 1, cfg.nRows * cfg.nCols, cfg.nBands);
  }

  /** One visit of decode(): the residual at pos is decoded and stored at its place in the matrix. */
  function VisitSample(cfg: DecoderConfig, tables: DecoderTables, p: Progress, pos: Position): (res: Result<Progress, DecodeError>)
    requires ValidDecoderTables(tables) && InImage(cfg, pos)
    requires |p.state.sigmas| == cfg.nBands && |p.state.prefixes| == 16 && |p.residuals| == ImageSize(cfg)
    ensures res.Success? ==>
      && |res.value.state.sigmas| == cfg.nBands && |res.value.state.prefixes| == 16
      && |res.value.residuals| == ImageSize(cfg)
      && (forall k :: 0 <= k < ImageSize(cfg) && k != FlatIndex(cfg, pos) ==> res.value.residuals[k] == p.residuals[k])
  {
    var step := DecodeResidual(cfg, tables, p.state, pos);
    if step.Failure? then Failure(step.error)
    else
      FlatIndexInRange(cfg, pos);
      Success(Progress(step.value.state, p.residuals[FlatIndex(cfg, pos) := step.value.residual]))
  }

  /**
   * The visit as a function value: a position outside the image, or a state whose
   * lists have the wrong length, fails the way an out-of-range index does.
   */
  function Visit(cfg: DecoderConfig, tables: DecoderTables): (Progress, Position) -> Result<Progress, DecodeError>
  {
    (p: Progress, pos: Position) =>
      if ValidDecoderTables(tables) && InImage(cfg, pos) && |p.state.sigmas| == cfg.nBands
         && |p.state.prefixes| == 16 && |p.residuals| == ImageSize(cfg)
      then VisitSample(cfg, tables, p, pos)
      else Failure(IndexOutOfRange)
  }

  /** Visit the positions of visits in turn; the first failure stops the walk. */
  function Walk(visit: (Progress, Position) -> Result<Progress, DecodeError>, p: Progress, visits: seq<Position>): Result<Progress, DecodeError>
    decreases |visits|
  {
    if visits == [] then Success(p)
    else
      var q := visit(p, visits[0]);
      if q.Failure? then q else Walk(visit, q.value, visits[1..])
  }

  /** Decode the samples at the positions of visits in turn, storing each residual. */
  function DecodeVisits(cfg: DecoderConfig, tables: DecoderTables, p: Progress, visits: seq<Position>): Result<Progress, DecodeError>
  {
    Walk(Visit(cfg, tables), p, visits)
  }

  /** Columns c-1 down to 0 of one row and band. */
  function ColumnsDown(cfg: DecoderConfig, row: nat, band: nat, c: nat): (v: seq<Position>)
    requires row < cfg.nRows && band < cfg.nBands && c <= cfg.nCols
    ensures |v| == c && forall p :: p in v ==> InImage(cfg, p)
  {
    if c == 0 then [] else [Position(row, c - 1, band)] + ColumnsDown(cfg, row, band, c - 1)
  }

  /** Bands b-1 down to 0 of one pixel. */
  function BandsDown(cfg: DecoderConfig, row: nat, col: nat, b: nat): (v: seq<Position>)
    requires row < cfg.nRows && col < cfg.nCols && b <= cfg.nBands
    ensures |v| == b && forall p :: p in v ==> InImage(cfg, p)
  {
    if b == 0 then [] else [Position(row, col, b - 1)] + BandsDown(cfg, row, col, b - 1)
  }

  /** bsq: for each band (descending), rows r-1 down to 0, each row right to left. */
  function BsqRows(cfg: DecoderConfig, band: nat, r: nat): (v: seq<Position>)
    requires band < cfg.nBands && r <= cfg.nRows
    ensures forall p :: p in v ==> InImage(cfg, p)
  {
    if r == 0 then [] else ColumnsDown(cfg, r - 1, band, cfg.nCols) + BsqRows(cfg, band, r - 1)
  }

  function BsqBands(cfg: DecoderConfig, b: nat): (v: seq<Position>)
    requires b <= cfg.nBands
    ensures forall p :: p in v ==> InImage(cfg, p)
  {
    if b == 0 then [] else BsqRows(cfg, b - 1, cfg.nRows) + BsqBands(cfg, b - 1)
  }

  /** bil: for each row (descending), bands b-1 down to 0, each band right to left. */
  function BilBands(cfg: DecoderConfig, row: nat, b: nat): (v: seq<Position>)
    requires row < cfg.nRows && b <= cfg.nBands
    ensures forall p :: p in v ==> InImage(cfg, p)
  {
    if b == 0 then [] else ColumnsDown(cfg, row, b - 1, cfg.nCols) + BilBands(cfg, row, b - 1)
  }

  function BilRows(cfg: DecoderConfig, r: nat): (v: seq<Position>)
    requires r <= cfg.nRows
    ensures forall p :: p in v ==> InImage(cfg, p)
  {
    if r == 0 then [] else BilBands(cfg, r - 1, cfg.nBands) + BilRows(cfg, r - 1)
  }

  /** bip: for each row (descending), columns c-1 down to 0, each pixel's bands descending. */
  function BipColumns(cfg: DecoderConfig, row: nat, c: nat): (v: seq<Position>)
    requires row < cfg.nRows && c <= cfg.nCols
    ensures forall p :: p in v ==> InImage(cfg, p)
  {
    if c == 0 then [] else BandsDown(cfg, row, c - 1, cfg.nBands) + BipColumns(cfg, row, c - 1)
  }

  function BipRows(cfg: DecoderConfig, r: nat): (v: seq<Position>)
    requires r <= cfg.nRows
    ensures forall p :: p in v ==> InImage(cfg, p)
  {
    if r == 0 then [] else BipColumns(cfg, r - 1, cfg.nCols) + BipRows(cfg, r - 1)
  }

  /** The order decode() visits the samples in; an unknown order visits none. */
  function Visits(cfg: DecoderConfig, order: string): (v: seq<Position>)
    ensures forall p :: p in v ==> InImage(cfg, p)
  {
    if order == "bsq" then BsqBands(cfg, cfg.nBands)
    else if order == "bil" then BilRows(cfg, cfg.nRows)
    else if order == "bip" then BipRows(cfg, cfg.nRows)
    else []
  }

  function ZeroMatrix(n: nat): (z: seq<int>)
    ensures |z| == n && forall k :: 0 <= k < n ==> z[k] == 0
  {
    seq(n, _ => 0)
  }

  /** decode(): the tail, then every sample in the chosen order into a zero matrix. */
  function DecodeSpec(cfg: DecoderConfig, tables: DecoderTables, stream: seq<Byte>, order: string): Result<seq<int>, DecodeError>
    requires ValidDecoderTables(tables)
  {
    var tail := DecodeTail(cfg, tables, BytesBits(stream));
    if tail.Failure? then Failure(tail.error)
    else
      var done := DecodeVisits(cfg, tables, Progress(tail.value, ZeroMatrix(ImageSize(cfg))), Visits(cfg, order));
      if done.Failure? then Failure(done.error) else Success(done.value.residuals)
  }
}
