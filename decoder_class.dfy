/**
 * The HybridDecoder object: the parameters decode() is given, the byte buffer with
 * its reverse cursor (currentByteIndex, readBits), the precomputed counter trajectory
 * (GammaList, RescalingList), the accumulator of every band (SigmaList), the current
 * accumulator and counter, and the 16 active prefixes.  Every method is proved against
 * the decoding functions of HybridDecodeSpec applied to the bits that lie before the
 * cursor.  A read that would pass the first byte of the buffer is a precondition: the
 * methods require the decoding function to succeed and return exactly what it returns.
 */
module HybridDecoderClass {
  import opened Wrappers
  import opened Bits
  import opened BitCursor
  import opened ReverseReads
  import opened CodingTables
  import opened Accumulator
  import opened Gpo2
  import opened HybridDecodeSpec

  /** A read that succeeds, followed by what remains of a larger read, gives that larger read. */
  function Ahead<T>(r: Result<Cut<seq<T>>, DecodeError>, later: seq<T>): Result<Cut<seq<T>>, DecodeError>
  {
    if r.Failure? then Failure(r.error) else Success(Cut(r.value.value + later, r.value.rest))
  }

  /** Reading n accumulators from R, then adding those read before, gives target. */
  ghost predicate SigmasAhead(R: BitString, w: nat, n: nat, later: seq<int>, target: Result<Cut<seq<int>>, DecodeError>)
  {
    Ahead(ReadSigmas(R, w, n), later) == target
  }

  /** Reading the flush codewords n-1..0 from R, then adding those read before, gives target. */
  ghost predicate FlushAhead(R: BitString, tables: DecoderTables, n: nat, later: seq<string>, target: Result<Cut<seq<string>>, DecodeError>)
  {
    && ValidDecoderTables(tables) && n <= 16
    && Ahead(ReadFlush(R, tables, n), later) == target
  }

  /** Nothing read ahead leaves a read as it is. */
  lemma AheadOfNothing<T>(r: Result<Cut<seq<T>>, DecodeError>)
    ensures Ahead(r, []) == r
  {
    if r.Success? {
      assert r.value.value + [] == r.value.value;
    }
  }

  /**
   * Reading n accumulators is reading the last one, then n - 1 more before it: the
   * read must fit, and once it gave read and left R', the rest of the target follows.
   */
  lemma SigmaStep(R: BitString, w: nat, n: nat, later: seq<int>, target: Result<Cut<seq<int>>, DecodeError>,
                  read: BitString, R': BitString)
    requires n > 0 && Ahead(ReadSigmas(R, w, n), later) == target && target.Success?
    ensures w <= |R|
    ensures ReadBits(R, w) == Success(Cut(read, R')) ==>
      Ahead(ReadSigmas(R', w, n - 1), [Value(read) as int] + later) == target
  {
    var first := ReadBits(R, w).value;
    var others := ReadSigmas(first.rest, w, n - 1).value;
    assert others.value + [Value(first.value) as int] + later == others.value + ([Value(first.value) as int] + later);
  }

  /** Reading the flush codewords of indices n-1..0 is reading that of n-1, then those below. */
  lemma FlushStep(R: BitString, tables: DecoderTables, n: nat, later: seq<string>, target: Result<Cut<seq<string>>, DecodeError>,
                  cw: BitString, R': BitString)
    requires ValidDecoderTables(tables) && 0 < n <= 16
    requires FlushAhead(R, tables, n, later, target) && target.Success?
    ensures ReadCodeword(R, tables.flush[n - 1]).Success?
    ensures ReadCodeword(R, tables.flush[n - 1]) == Success(Cut(cw, R')) ==>
      cw in tables.flush[n - 1] && FlushAhead(R', tables, n - 1, [tables.flush[n - 1][cw]] + later, target)
  {
    var first := ReadCodeword(R, tables.flush[n - 1]).value;
    var others := ReadFlush(first.rest, tables, n - 1).value;
    var p := tables.flush[n - 1][first.value];
    assert others.value + [p] + later == others.value + ([p] + later);
  }

  /**
   * Away from (0, 0) a residual that decodes is decoded in the mode chosen by the band's
   * accumulator and Gamma(t), and a rescaled Gamma(t) leaves the rescaling bit to read.
   */
  lemma ModeOfResidual(cfg: DecoderConfig, tables: DecoderTables, s: DecoderState, pos: Position, t: nat)
    requires ValidDecoderTables(tables) && |s.prefixes| == 16 && |s.sigmas| == cfg.nBands && InImage(cfg, pos)
    requires !(pos.row == 0 && pos.col == 0) && DecodeResidual(cfg, tables, s, pos).Success?
    requires t == SampleIndex(cfg, pos)
    ensures t < cfg.nRows * cfg.nCols
    ensures DecodeMode(cfg, tables, s, s.sigmas[pos.band], GammaAt(cfg.gamma0, cfg.gamma, t)).Success?
    ensures RescaledAt(cfg.gamma0, cfg.gamma, t) ==>
      1 <= |DecodeMode(cfg, tables, s, s.sigmas[pos.band], GammaAt(cfg.gamma0, cfg.gamma, t)).value.state.bits|
  {
    MulMonotone(pos.row + 1, cfg.nRows, cfg.nCols);
  }


  /**
   * The residual decoded in its mode, followed by the accumulator restored (with the
   * rescaling bit read when Gamma(t) was rescaled), is the residual decoded at pos.
   */
  lemma ResidualAssembled(cfg: DecoderConfig, tables: DecoderTables, s: DecoderState, pos: Position, t: nat,
                          r: int, mid: DecoderState, after: DecoderState)
    requires ValidDecoderTables(tables) && |s.prefixes| == 16 && |s.sigmas| == cfg.nBands && InImage(cfg, pos)
    requires !(pos.row == 0 && pos.col == 0) && DecodeResidual(cfg, tables, s, pos).Success?
    requires t == SampleIndex(cfg, pos)
    requires DecodeMode(cfg, tables, s, s.sigmas[pos.band], GammaAt(cfg.gamma0, cfg.gamma, t)) == Success(Decoded(r, mid))
    requires RescaledAt(cfg.gamma0, cfg.gamma, t) ==>
      var lsb := ReadBits(mid.bits, 1).value;
      after == DecoderState(lsb.rest, mid.sigmas[pos.band := RestoredSigma(s.sigmas[pos.band], r, true, Value(lsb.value))], mid.prefixes)
    requires !RescaledAt(cfg.gamma0, cfg.gamma, t) ==>
      after == DecoderState(mid.bits, mid.sigmas[pos.band := RestoredSigma(s.sigmas[pos.band], r, false, 0)], mid.prefixes)
    ensures DecodeResidual(cfg, tables, s, pos).value == Decoded(r, after)
  {
  }



  /** The three parts of a tail that decodes with accumulators of nBits bits, and the state they give. */
  lemma TailParts(cfg: DecoderConfig, tables: DecoderTables, B: BitString, nBits: nat)
      returns (padded: BitString, sigmas: Result<Cut<seq<int>>, DecodeError>, flush: Result<Cut<seq<string>>, DecodeError>)
    requires ValidDecoderTables(tables) && DecodeTail(cfg, tables, B).Success?
    requires nBits == cfg.D + 2 + cfg.gamma
    ensures InversePadding(B) == Success(padded)
    ensures sigmas == ReadSigmas(padded, nBits, cfg.nBands) && sigmas.Success?
    ensures flush == ReadFlush(sigmas.value.rest, tables, 16) && flush.Success?
    ensures DecodeTail(cfg, tables, B).value == DecoderState(flush.value.rest, sigmas.value.value, flush.value.value)
  {
    padded := InversePadding(B).value;
    sigmas := ReadSigmas(padded, nBits, cfg.nBands);
    flush := ReadFlush(sigmas.value.rest, tables, 16);
  }

  /** Reading the last n bits of the bits before a reverse cursor at position p. */
  lemma ReadBeforeCursor(w: BitString, p: nat, n: nat)
    requires n <= p <= |w|
    ensures ReadBits(w[..p], n) == Success(Cut(w[p - n .. p], w[..p - n]))
  {
    assert w[..p][p - n..] == w[p - n .. p];
    assert w[..p][..p - n] == w[..p - n];
  }

  lemma InversePaddingStep(R: BitString, bit: BitString)
    requires |bit| == 1
    ensures bit == ['0'] ==> ReverseReads.InversePadding(R + bit) == ReverseReads.InversePadding(R)
    ensures bit != ['0'] ==> ReverseReads.InversePadding(R + bit) == Success(R)
  {
    assert (R + bit)[..|R + bit| - 1] == R;
  }

  /** The trailing count of a peek that ends in c is one more than that of the peek without it. */
  lemma TrailingStep(s: BitString, c: BitChar)
    requires s != [] && s[|s| - 1] == c
    ensures TrailingCount(s, c) == 1 + TrailingCount(s[..|s| - 1], c)
  {
  }

  /**
   * gl and rl hold Gamma(t) and whether it was rescaled for t < |gl|, and G is the
   * last counter value computed (Gamma(0) before any).
   */
  ghost predicate CounterPrefix(gamma0: nat, gamma: nat, gl: seq<int>, rl: seq<bool>, G: int)
  {
    && |gl| == |rl|
    && (forall t :: 0 <= t < |gl| ==> gl[t] == GammaAt(gamma0, gamma, t) && rl[t] == RescaledAt(gamma0, gamma, t))
    && G == (if gl == [] then Pow2(gamma0) else gl[|gl| - 1])
  }

  /** The progress before each visit of a walk, and after the last one that succeeds. */
  ghost function Trace(cfg: DecoderConfig, tables: DecoderTables, p: Progress, visits: seq<Position>): seq<Progress>
    decreases |visits|
  {
    if visits == [] then [p]
    else
      var q := Visit(cfg, tables)(p, visits[0]);
      if q.Failure? then [p] else [p] + Trace(cfg, tables, q.value, visits[1..])
  }

  /** Visit k of the walk leads from trace[k] to trace[k + 1]. */
  ghost predicate StepOK(cfg: DecoderConfig, tables: DecoderTables, trace: seq<Progress>, visits: seq<Position>, k: nat)
  {
    k < |visits| && k + 1 < |trace| && Visit(cfg, tables)(trace[k], visits[k]) == Success(trace[k + 1])
  }

  /** trace records a walk over visits in which every visit succeeds. */
  ghost predicate Traces(cfg: DecoderConfig, tables: DecoderTables, trace: seq<Progress>, visits: seq<Position>)
  {
    |trace| == |visits| + 1 && forall k :: 0 <= k < |visits| ==> StepOK(cfg, tables, trace, visits, k)
  }

  /** todo is what remains of visits, and p is where the walk stands before it. */
  ghost predicate At(trace: seq<Progress>, visits: seq<Position>, todo: seq<Position>, p: Progress)
  {
    && |todo| <= |visits| && |trace| == |visits| + 1
    && todo == visits[|visits| - |todo|..] && p == trace[|visits| - |todo|]
  }

  /** A walk that succeeds is traced by Trace, from its start to its result. */
  lemma {:induction false} TraceOfWalk(cfg: DecoderConfig, tables: DecoderTables, p: Progress, visits: seq<Position>)
    requires DecodeVisits(cfg, tables, p, visits).Success?
    ensures Traces(cfg, tables, Trace(cfg, tables, p, visits), visits)
    ensures At(Trace(cfg, tables, p, visits), visits, visits, p)
    ensures At(Trace(cfg, tables, p, visits), visits, [], DecodeVisits(cfg, tables, p, visits).value)
    decreases |visits|
  {
    var trace := Trace(cfg, tables, p, visits);
    if visits != [] {
      var q := Visit(cfg, tables)(p, visits[0]);
      var tail := Trace(cfg, tables, q.value, visits[1..]);
      TraceOfWalk(cfg, tables, q.value, visits[1..]);
      assert trace == [p] + tail;
      forall k | 0 <= k < |visits|
        ensures StepOK(cfg, tables, trace, visits, k)
      {
        if k > 0 {
          assert StepOK(cfg, tables, tail, visits[1..], k - 1);
          assert visits[1..][k - 1] == visits[k];
        }
      }
    }
  }

  /** The next visit of a traced walk succeeds and leaves the rest of the walk to do. */
  lemma TraceStep(cfg: DecoderConfig, tables: DecoderTables, trace: seq<Progress>, visits: seq<Position>, p: Progress,
                  pos: Position, rest: seq<Position>)
    requires Traces(cfg, tables, trace, visits) && At(trace, visits, [pos] + rest, p)
    ensures ValidDecoderTables(tables) && InImage(cfg, pos)
    ensures |p.state.sigmas| == cfg.nBands && |p.state.prefixes| == 16 && |p.residuals| == ImageSize(cfg)
    ensures VisitSample(cfg, tables, p, pos).Success?
    ensures At(trace, visits, rest, VisitSample(cfg, tables, p, pos).value)
  {
    var todo := [pos] + rest;
    var k := |visits| - |todo|;
    assert visits[k] == todo[0] == pos;
    assert visits[k + 1..] == todo[1..] == rest;
    assert StepOK(cfg, tables, trace, visits, k);
  }

  lemma Regroup(a: seq<Position>, b: seq<Position>, c: seq<Position>)
    ensures a + b + c == a + (b + c)
  {
  }

  /** The next entry: Gamma(0) unchanged at t = 0, one counter update after it. */
  lemma CounterPrefixStep(gamma0: nat, gamma: nat, gl: seq<int>, rl: seq<bool>, G: int)
    requires CounterPrefix(gamma0, gamma, gl, rl, G)
    ensures gl == [] ==> CounterPrefix(gamma0, gamma, gl + [G], rl + [false], G)
    ensures gl != [] ==> CounterPrefix(gamma0, gamma, gl + [UpdatedGamma(G, gamma)], rl + [Rescales(G, gamma)], UpdatedGamma(G, gamma))
  {
  }

  class HybridDecoder {
    const tables: DecoderTables
    const T0: int

    const Umax: nat
    const gamma: nat
    const gamma0: nat
    const D: nat
    const nCols: nat
    const nRows: nat
    const nBands: nat

    var Sigma: int
    var Gamma: int
    var prefixes: seq<string>
    var SigmaList: seq<int>

    var bitStream: seq<Byte>
    var currentByteIndex: int
    var readBits: int

    var GammaList: seq<int>
    var RescalingList: seq<bool>

    /** The reverse cursor lies inside the buffer: at most every bit is before it. */
    predicate CursorValid()
      reads this`bitStream, this`currentByteIndex, this`readBits
    {
      0 <= readBits < 8 && -1 <= currentByteIndex < |bitStream| && 0 <= ReversePosition(currentByteIndex, readBits)
    }

    predicate Valid()
      reads this`bitStream, this`currentByteIndex, this`readBits, this`prefixes
    {
      ValidDecoderTables(tables) && T0 == tables.limits[0].threshold && CursorValid() && |prefixes| == 16
    }

    /** The bits before the cursor: what reverse reading has not yet consumed. */
    function Remaining(): BitString
      requires CursorValid()
      reads this`bitStream, this`currentByteIndex, this`readBits
    {
      BytesBits(bitStream)[..ReversePosition(currentByteIndex, readBits)]
    }

    function Cfg(): DecoderConfig
    {
      DecoderConfig(Umax, gamma, gamma0, D, nCols, nRows, nBands)
    }

    function State(): DecoderState
      requires CursorValid()
      reads this`bitStream, this`currentByteIndex, this`readBits, this`SigmaList, this`prefixes
    {
      DecoderState(Remaining(), SigmaList, prefixes)
    }

    /** GammaList[t] and RescalingList[t] are Gamma(t) and whether it was rescaled, for every t of a band. */
    ghost predicate CountersReady()
      reads this`GammaList, this`RescalingList
    {
      && |GammaList| == nRows * nCols && |RescalingList| == nRows * nCols
      && forall t :: 0 <= t < nRows * nCols ==> GammaList[t] == GammaAt(gamma0, gamma, t) && RescalingList[t] == RescaledAt(gamma0, gamma, t)
    }

    /** The counter and the rescaling flag of sample t are those of the schedule. */
    predicate CounterAt(t: nat)
      reads this`GammaList, this`RescalingList
    {
      t < |GammaList| && t < |RescalingList| && GammaList[t] == GammaAt(gamma0, gamma, t) && RescalingList[t] == RescaledAt(gamma0, gamma, t)
    }

    constructor(tables: DecoderTables, Umax: nat, gamma: nat, gamma0: nat, dynamicRange: nat, nCols: nat, nRows: nat, nBands: nat)
      requires ValidDecoderTables(tables)
      ensures Valid() && this.tables == tables && bitStream == [] && Remaining() == []
      ensures Cfg() == DecoderConfig(Umax, gamma, gamma0, dynamicRange, nCols, nRows, nBands)
    {
      this.tables := tables;
      T0 := tables.limits[0].threshold;
      this.Umax := Umax;
      this.gamma := gamma;
      this.gamma0 := gamma0;
      D := dynamicRange;
      this.nCols := nCols;
      this.nRows := nRows;
      this.nBands := nBands;
      prefixes := seq(16, _ => "");
      SigmaList := [];
      bitStream := [];
      currentByteIndex := -1;
      readBits := 0;
      GammaList := [];
      RescalingList := [];
    }

    /**
     * readBinaryStringFromBitStream(nBits, updateCounters) in reverse mode: the nBits
     * before the cursor, in stream order; the cursor moves past them only when
     * updateCounters holds.
     */
    method ReadBinaryStringFromBitStream(nBits: nat, updateCounters: bool) returns (binaryString: BitString)
      requires CursorValid() && nBits <= |Remaining()|
      modifies this`currentByteIndex, this`readBits
      ensures CursorValid()
      ensures var cut := ReadBits(old(Remaining()), nBits).value;
        binaryString == cut.value && Remaining() == (if updateCounters then cut.rest else old(Remaining()))
      ensures !updateCounters ==> currentByteIndex == old(currentByteIndex) && readBits == old(readBits)
    {
      ghost var p := ReversePosition(currentByteIndex, readBits);
      ReadBeforeCursor(BytesBits(bitStream), p, nBits);
      var currentByteIndexLocal, readBitsLocal;
      binaryString, currentByteIndexLocal, readBitsLocal := ReadBinaryString(bitStream, currentByteIndex, readBits, nBits, true);
      if updateCounters {
        currentByteIndex := currentByteIndexLocal;
        readBits := readBitsLocal;
      }
    }

    /** inversePadding: bits are read one at a time until a one has been read. */
    method InversePadding()
      requires Valid() && ReverseReads.InversePadding(Remaining()).Success?
      modifies this`currentByteIndex, this`readBits
      ensures Valid()
      ensures Remaining() == ReverseReads.InversePadding(old(Remaining())).value
    {
      ghost var U := Remaining();
      var binaryString := ReadBinaryStringFromBitStream(1, true);
      InversePaddingStep(Remaining(), binaryString);
      while binaryString == ['0']
        invariant Valid()
        invariant |binaryString| == 1
        invariant ReverseReads.InversePadding(Remaining() + binaryString) == ReverseReads.InversePadding(U)
        decreases |Remaining()|
      {
        binaryString := ReadBinaryStringFromBitStream(1, true);
        InversePaddingStep(Remaining(), binaryString);
      }
    }

    /** The loop of getNumberOfBitsEqualToTargetValue: drops matching bits from the end. */
    static method CountMatchingBits(binaryString: BitString, targetValue: BitChar) returns (nMatchingBits: nat)
      ensures nMatchingBits == TrailingCount(binaryString, targetValue)
    {
      nMatchingBits := 0;
      var rest := binaryString;
      while rest != [] && rest[|rest| - 1] == targetValue
        invariant TrailingCount(binaryString, targetValue) == nMatchingBits + TrailingCount(rest, targetValue)
        decreases |rest|
      {
        TrailingStep(rest, targetValue);
        nMatchingBits := nMatchingBits + 1;
        rest := rest[..|rest| - 1];
      }
    }

    /**
     * getNumberOfBitsEqualToTargetValue: peek at maximumNumberOfBits bits (all the bits
     * before the cursor when fewer are left), count how many of them at the end equal
     * targetValue, and consume that many when updateCounters holds.
     */
    method GetNumberOfBitsEqualToTargetValue(targetValue: BitChar, maximumNumberOfBits: nat, updateCounters: bool)
      returns (nMatchingBits: nat)
      requires CursorValid()
      modifies this`currentByteIndex, this`readBits
      ensures CursorValid()
      ensures var cut := CountTrailing(old(Remaining()), targetValue, maximumNumberOfBits);
        nMatchingBits == cut.value && Remaining() == (if updateCounters then cut.rest else old(Remaining()))
    {
      ghost var U := Remaining();
      var available := 8 * currentByteIndex + 8 - readBits;
      var peek := if maximumNumberOfBits <= available then maximumNumberOfBits else available;
      var binaryString := ReadBinaryStringFromBitStream(peek, false);
      assert binaryString == Window(U, maximumNumberOfBits);
      nMatchingBits := CountMatchingBits(binaryString, targetValue);
      assert nMatchingBits == CountTrailing(U, targetValue, maximumNumberOfBits).value;
      if updateCounters {
        binaryString := ReadBinaryStringFromBitStream(nMatchingBits, true);
      }
    }

    /** getOutputCodeWordFromBitstream: bits are prepended one at a time until the candidate is a key. */
    method GetOutputCodeWordFromBitstream(dictionary: map<BitString, string>) returns (outputCodeWord: BitString)
      requires CursorValid() && ReadCodeword(Remaining(), dictionary).Success?
      modifies this`currentByteIndex, this`readBits
      ensures CursorValid()
      ensures var cut := ReadCodeword(old(Remaining()), dictionary).value;
        outputCodeWord == cut.value && Remaining() == cut.rest
    {
      ghost var U := Remaining();
      outputCodeWord := [];
      while outputCodeWord !in dictionary
        invariant CursorValid()
        invariant |outputCodeWord| <= |U| && Remaining() + outputCodeWord == U
        invariant SuffixScan(U, dictionary, |outputCodeWord|) == ReadCodeword(U, dictionary)
        decreases |U| - |outputCodeWord|
      {
        assert U[|U| - |outputCodeWord|..] == outputCodeWord;
        var newBitString := ReadBinaryStringFromBitStream(1, true);
        outputCodeWord := newBitString + outputCodeWord;
      }
      assert U[|U| - |outputCodeWord|..] == outputCodeWord && U[..|U| - |outputCodeWord|] == Remaining();
    }

    /**
     * initializeDecodingVariables: Gamma(t) and whether it was rescaled, for
     * t = col + row * nCols over one band, and the cursor after the last bit.
     */
    method InitializeDecodingVariables()
      modifies this`GammaList, this`RescalingList, this`currentByteIndex, this`readBits
      ensures CountersReady() && CursorValid() && Remaining() == BytesBits(bitStream)
    {
      var gammaList: seq<int> := [];
      var rescalingList: seq<bool> := [];
      var Gamma := Pow2(gamma0);
      for row := 0 to nRows
        invariant |gammaList| == row * nCols
        invariant CounterPrefix(gamma0, gamma, gammaList, rescalingList, Gamma)
      {
        for col := 0 to nCols
          invariant |gammaList| == row * nCols + col
          invariant CounterPrefix(gamma0, gamma, gammaList, rescalingList, Gamma)
        {
          assert (row == 0 && col == 0) == (|gammaList| == 0) by {
            if row > 0 {
              MulAtLeast(row, nCols);
            }
          }
          CounterPrefixStep(gamma0, gamma, gammaList, rescalingList, Gamma);
          if !(row == 0 && col == 0) {
            if Gamma < Pow2(gamma) - 1 {
              Gamma := Gamma + 1;
              rescalingList := rescalingList + [false];
            } else {
              Gamma := (Gamma + 1) / 2;
              rescalingList := rescalingList + [true];
            }
          } else {
            rescalingList := rescalingList + [false];
          }
          gammaList := gammaList + [Gamma];
        }
        DistributeOne(row, nCols);
      }
      GammaList := gammaList;
      RescalingList := rescalingList;
      currentByteIndex := |bitStream| - 1;
      readBits := 0;
    }

    /**
     * decodeImageTail: the padding, then the final accumulator of every band (last band
     * first), then the 16 flush codewords (index 15 first), which become the active prefixes.
     */
    method DecodeImageTail()
      requires Valid() && DecodeTail(Cfg(), tables, Remaining()).Success?
      modifies this`currentByteIndex, this`readBits, this`SigmaList, this`prefixes
      ensures Valid() && State() == DecodeTail(Cfg(), tables, old(Remaining())).value
    {
      ghost var B := Remaining();
      ghost var cfg := Cfg();
      var nBits := D + 2 + gamma;
      ghost var padded, sigmas, flush := TailParts(cfg, tables, B, nBits);
      AheadOfNothing(sigmas);
      AheadOfNothing(flush);
      InversePadding();
      SigmaList := ReadAccumulators(nBits, sigmas);
      prefixes := ReadFlushPrefixes(flush);
      assert State() == DecoderState(flush.value.rest, sigmas.value.value, flush.value.value);
    }

    /** Reads the nBands accumulators stored behind the padding, the last band first. */
    method ReadAccumulators(nBits: nat, ghost target: Result<Cut<seq<int>>, DecodeError>) returns (sigmaList: seq<int>)
      requires CursorValid() && SigmasAhead(Remaining(), nBits, nBands, [], target) && target.Success?
      modifies this`currentByteIndex, this`readBits
      ensures CursorValid() && Remaining() == target.value.rest && sigmaList == target.value.value
    {
      sigmaList := [];
      var left := nBands;
      while left > 0
        invariant CursorValid() && 0 <= left <= nBands
        invariant SigmasAhead(Remaining(), nBits, left, sigmaList, target)
      {
        var Sigma := ReadNextAccumulator(nBits, left, sigmaList, target);
        sigmaList := [Sigma] + sigmaList;
        left := left - 1;
      }
      assert [] + sigmaList == sigmaList;
    }

    /** Reads one accumulator of nBits bits, the one stored before those already read. */
    method ReadNextAccumulator(nBits: nat, n: nat, ghost later: seq<int>, ghost target: Result<Cut<seq<int>>, DecodeError>)
      returns (Sigma: int)
      requires CursorValid() && n > 0 && SigmasAhead(Remaining(), nBits, n, later, target) && target.Success?
      modifies this`currentByteIndex, this`readBits
      ensures CursorValid() && SigmasAhead(Remaining(), nBits, n - 1, [Sigma] + later, target)
    {
      ghost var R := Remaining();
      SigmaStep(R, nBits, n, later, target, [], []);
      var binaryString := ReadBinaryStringFromBitStream(nBits, true);
      SigmaStep(R, nBits, n, later, target, binaryString, Remaining());
      Sigma := Value(binaryString);
    }

    /** One step of the flush-prefix loop: decodes the prefix of the n-th active table. */
    method ReadNextFlushPrefix(n: nat, ghost later: seq<string>, ghost target: Result<Cut<seq<string>>, DecodeError>)
      returns (inputCodeWord: string)
      requires CursorValid() && ValidDecoderTables(tables) && 0 < n <= 16
      requires FlushAhead(Remaining(), tables, n, later, target) && target.Success?
      modifies this`currentByteIndex, this`readBits
      ensures CursorValid() && FlushAhead(Remaining(), tables, n - 1, [inputCodeWord] + later, target)
    {
      ghost var R := Remaining();
      FlushStep(R, tables, n, later, target, [], []);
      var dictionary := tables.flush[n - 1];
      var outputCodeWord := GetOutputCodeWordFromBitstream(dictionary);
      FlushStep(R, tables, n, later, target, outputCodeWord, Remaining());
      inputCodeWord := dictionary[outputCodeWord];
    }

    /** Reads the 16 flushed active prefixes, that of the last code first. */
    method ReadFlushPrefixes(ghost target: Result<Cut<seq<string>>, DecodeError>) returns (activePrefixList: seq<string>)
      requires CursorValid() && ValidDecoderTables(tables)
      requires FlushAhead(Remaining(), tables, 16, [], target) && target.Success?
      modifies this`currentByteIndex, this`readBits
      ensures CursorValid() && Remaining() == target.value.rest && activePrefixList == target.value.value
    {
      activePrefixList := [];
      var n := 16;
      while n > 0
        invariant CursorValid() && 0 <= n <= 16
        invariant FlushAhead(Remaining(), tables, n, activePrefixList, target)
      {
        var inputCodeWord := ReadNextFlushPrefix(n, activePrefixList, target);
        activePrefixList := [inputCodeWord] + activePrefixList;
        n := n - 1;
      }
      assert [] + activePrefixList == activePrefixList;
    }

    /** The k low bits of a GPO2 codeword that is not truncated (none when k is 0). */
    method ReadLowBits(k: nat) returns (low: nat)
      requires Valid() && (k > 0 ==> ReadBits(Remaining(), k).Success?)
      modifies this`currentByteIndex, this`readBits
      ensures Valid()
      ensures k > 0 ==> var read := ReadBits(old(Remaining()), k).value;
        low == Value(read.value) && Remaining() == read.rest
      ensures k == 0 ==> low == 0 && Remaining() == old(Remaining())
    {
      if k > 0 {
        var binaryString := ReadBinaryStringFromBitStream(k, true);
        low := Value(binaryString);
      } else {
        low := 0;
      }
    }

    /**
     * GPO2_decoding(k): the zeros before the cursor, up to Umax; below Umax, the one that
     * ends them and k low bits (mode A), otherwise D plain bits (mode B).
     */
    method GPO2Decoding(k: nat) returns (j: nat)
      requires Valid() && Gpo2Decode(Remaining(), k, Umax, D).Success?
      modifies this`currentByteIndex, this`readBits
      ensures Valid()
      ensures var cut := Gpo2Decode(old(Remaining()), k, Umax, D).value;
        j == cut.value && Remaining() == cut.rest
    {
      ghost var B := Remaining();
      var nZeros := GetNumberOfBitsEqualToTargetValue('0', Umax, true);
      if nZeros < Umax {
        ghost var zeros, beforeOne := Gpo2DecodeModeA(B, k, Umax, D);
        var binaryString := ReadBinaryStringFromBitStream(1, true);
        assert Remaining() == beforeOne;
        var low := ReadLowBits(k);
        MulMonotone(0, nZeros, Pow2(k));
        j := nZeros * Pow2(k) + low;
      } else {
        ghost var zeros := Gpo2DecodeModeB(B, k, Umax, D);
        var binaryString := ReadBinaryStringFromBitStream(D, true);
        j := Value(binaryString);
      }
    }

    /** EvaluateHighEntropyCondition: Sigma(t) * 2^14 >= T(0) * Gamma(t). */
    method EvaluateHighEntropyCondition() returns (high: bool)
      ensures high == HighEntropy(Sigma, Gamma, T0)
    {
      if Sigma * Pow2(14) >= T0 * Gamma {
        high := true;
      } else {
        high := false;
      }
    }

    /**
     * UpdateHighResolutionAccumulatorAndCounter, run after the residual is decoded:
     * Gamma becomes Gamma(t) and Sigma steps back to the accumulator before sample t,
     * consuming the rescaling bit when Gamma(t) was rescaled.
     */
    method UpdateHighResolutionAccumulatorAndCounter(mappedResidual: int, row: nat, col: nat)
      requires Valid() && CounterAt(col + row * nCols)
      requires RescaledAt(gamma0, gamma, col + row * nCols) ==> 1 <= |Remaining()|
      modifies this`currentByteIndex, this`readBits, this`Sigma, this`Gamma
      ensures Valid()
      ensures Gamma == GammaAt(gamma0, gamma, col + row * nCols)
      ensures RescaledAt(gamma0, gamma, col + row * nCols) ==>
        var lsb := ReadBits(old(Remaining()), 1).value;
        Sigma == RestoredSigma(old(Sigma), mappedResidual, true, Value(lsb.value)) && Remaining() == lsb.rest
      ensures !RescaledAt(gamma0, gamma, col + row * nCols) ==>
        Sigma == RestoredSigma(old(Sigma), mappedResidual, false, 0) && Remaining() == old(Remaining())
    {
      var t := col + row * nCols;
      Gamma := GammaList[t];
      var rescaling := RescalingList[t];
      if rescaling {
        var binaryString := ReadBinaryStringFromBitStream(1, true);
        var SigmaLeastSignificantBit := Value(binaryString);
        Sigma := 2 * Sigma - 4 * mappedResidual - SigmaLeastSignificantBit;
      } else {
        Sigma := Sigma - 4 * mappedResidual;
      }
    }

    method GetHighResolutionAccumulatorForTargetBand(band: nat)
      requires band < |SigmaList|
      modifies this`Sigma
      ensures Sigma == SigmaList[band]
    {
      Sigma := SigmaList[band];
    }

    method StoreCurrentHighResolutionAccumulatorForTargetBand(band: nat)
      requires band < |SigmaList|
      modifies this`SigmaList
      ensures SigmaList == old(SigmaList)[band := Sigma]
    {
      SigmaList := SigmaList[band := Sigma];
    }

    /** HighEntropyProcess: GPO2 decoding with the k the coder chose from Sigma(t) and Gamma(t). */
    method HighEntropyProcess() returns (mappedResidual: nat)
      requires Valid() && Gpo2Decode(Remaining(), SelectK(Sigma, Gamma, D), Umax, D).Success?
      modifies this`currentByteIndex, this`readBits
      ensures Valid()
      ensures var cut := Gpo2Decode(old(Remaining()), SelectK(Sigma, Gamma, D), Umax, D).value;
        mappedResidual == cut.value && Remaining() == cut.rest
    {
      var kGood := SearchK(Sigma, Gamma, D);
      mappedResidual := GPO2Decoding(kGood);
    }

    /**
     * The active prefix of code index i, read from the bitstream through the code table
     * when the stored one is empty.
     */
    method LoadActivePrefix(i: nat) returns (ActivePrefix: string)
      requires Valid() && i < 16 && LoadPrefix(tables, State(), i).Success?
      modifies this`currentByteIndex, this`readBits
      ensures Valid()
      ensures var loaded := LoadPrefix(tables, old(State()), i).value;
        ActivePrefix == loaded.value && Remaining() == loaded.rest
    {
      ActivePrefix := prefixes[i];
      if ActivePrefix == "" {
        var dictionary := tables.codes[i];
        var outputCodeWord := GetOutputCodeWordFromBitstream(dictionary);
        ActivePrefix := dictionary[outputCodeWord];
      }
    }

    /**
     * LowEntropyProcess: the code index the coder chose, the last symbol of its active
     * prefix (a codeword is loaded first when the prefix is empty), and the residual it
     * stands for.
     */
    method LowEntropyProcess() returns (mappedResidual: int)
      requires Valid() && LowDecode(Cfg(), tables, State(), Sigma, Gamma).Success?
      modifies this`currentByteIndex, this`readBits, this`prefixes
      ensures Valid()
      ensures var d := LowDecode(Cfg(), tables, old(State()), Sigma, Gamma).value;
        mappedResidual == d.residual && State() == d.state
    {
      var i := SearchCodeIndex(Sigma, Gamma, tables.limits);
      var Li := tables.limits[i].limit;
      var ActivePrefix := LoadActivePrefix(i);
      var li := ActivePrefix[|ActivePrefix| - 1];
      prefixes := prefixes[i := ActivePrefix[..|ActivePrefix| - 1]];
      if li == Escape {
        var j := GPO2Decoding(0);
        mappedResidual := j + Li + 1;
      } else {
        mappedResidual := HexValue(li).value;
      }
    }

    /**
     * Loads the target band's accumulator and the counter of sample t, then decodes in the
     * mode they select. The ghost parameters name the state, the accumulator and the
     * counter the decoding starts from.
     */
    method DecodeWithBandAccumulator(t: nat, band: nat, ghost s: DecoderState, ghost sigma: int, ghost g: int)
      returns (mappedResidual: int)
      requires Valid() && State() == s && CounterAt(t)
      requires band < |SigmaList| && s.sigmas[band] == sigma && g == GammaAt(gamma0, gamma, t)
      requires DecodeMode(Cfg(), tables, s, sigma, g).Success?
      modifies this`currentByteIndex, this`readBits, this`Sigma, this`Gamma, this`prefixes
      ensures Valid() && Sigma == sigma && Gamma == g
      ensures var d := DecodeMode(Cfg(), tables, s, sigma, g).value;
        mappedResidual == d.residual && State() == d.state
    {
      GetHighResolutionAccumulatorForTargetBand(band);
      Gamma := GammaList[t];
      mappedResidual := DecodeInMode(s, sigma, g);
    }

    /**
     * The mode choice inside decodeTargetMappedResidual: high entropy decodes GPO2 with
     * the coder's k, low entropy takes the next symbol of an active prefix. The ghost
     * parameters name the state, the accumulator and the counter it starts from.
     */
    method DecodeInMode(ghost s: DecoderState, ghost sigma: int, ghost g: int) returns (mappedResidual: int)
      requires Valid() && State() == s && Sigma == sigma && Gamma == g
      requires DecodeMode(Cfg(), tables, s, sigma, g).Success?
      modifies this`currentByteIndex, this`readBits, this`prefixes
      ensures Valid()
      ensures var d := DecodeMode(Cfg(), tables, s, sigma, g).value;
        mappedResidual == d.residual && State() == d.state
    {
      var high := EvaluateHighEntropyCondition();
      if high {
        mappedResidual := HighEntropyProcess();
      } else {
        mappedResidual := LowEntropyProcess();
      }
    }

    /**
     * decodeTargetMappedResidual: D plain bits at (0, 0) of a band; elsewhere the band's
     * accumulator and Gamma(t) choose the mode, and the accumulator is stepped back and
     * stored for the band.
     */
    method DecodeTargetMappedResidual(row: nat, col: nat, band: nat) returns (mappedResidual: int)
      requires Valid() && CounterAt(col + row * nCols) && InImage(Cfg(), Position(row, col, band)) && |SigmaList| == nBands
      requires DecodeResidual(Cfg(), tables, State(), Position(row, col, band)).Success?
      modifies this`currentByteIndex, this`readBits, this`Sigma, this`Gamma, this`SigmaList, this`prefixes
      ensures Valid()
      ensures var d := DecodeResidual(Cfg(), tables, old(State()), Position(row, col, band)).value;
        mappedResidual == d.residual && State() == d.state
    {
      if row == 0 && col == 0 {
        var binaryString := ReadBinaryStringFromBitStream(D, true);
        mappedResidual := Value(binaryString);
      } else {
        mappedResidual := DecodeAwayFromOrigin(row, col, band);
      }
    }

    /**
     * The end of decodeTargetMappedResidual: restores the band's accumulator, reading the
     * rescaling bit when counter t was halved, and stores it back in the list. The ghost
     * parameters name the state and the accumulator it starts from.
     */
    method RestoreBandAccumulator(mappedResidual: int, row: nat, col: nat, band: nat, ghost t: nat, ghost s: DecoderState, ghost sigma: int)
      requires Valid() && State() == s && Sigma == sigma && CounterAt(t) && t == col + row * nCols && band < |s.sigmas|
      requires RescaledAt(gamma0, gamma, t) ==> 1 <= |s.bits|
      modifies this`currentByteIndex, this`readBits, this`Sigma, this`Gamma, this`SigmaList
      ensures Valid()
      ensures RescaledAt(gamma0, gamma, t) ==>
        var lsb := ReadBits(s.bits, 1).value;
        State() == DecoderState(lsb.rest, s.sigmas[band := RestoredSigma(sigma, mappedResidual, true, Value(lsb.value))], s.prefixes)
      ensures !RescaledAt(gamma0, gamma, t) ==>
        State() == DecoderState(s.bits, s.sigmas[band := RestoredSigma(sigma, mappedResidual, false, 0)], s.prefixes)
    {
      UpdateHighResolutionAccumulatorAndCounter(mappedResidual, row, col);
      StoreCurrentHighResolutionAccumulatorForTargetBand(band);
    }

    /** decodeTargetMappedResidual away from the first sample of the band. */
    method DecodeAwayFromOrigin(row: nat, col: nat, band: nat) returns (mappedResidual: int)
      requires Valid() && CounterAt(col + row * nCols) && InImage(Cfg(), Position(row, col, band)) && |SigmaList| == nBands
      requires !(row == 0 && col == 0) && DecodeResidual(Cfg(), tables, State(), Position(row, col, band)).Success?
      modifies this`currentByteIndex, this`readBits, this`Sigma, this`Gamma, this`SigmaList, this`prefixes
      ensures Valid()
      ensures var d := DecodeResidual(Cfg(), tables, old(State()), Position(row, col, band)).value;
        mappedResidual == d.residual && State() == d.state
    {
      ghost var s0 := State();
      ghost var cfg, pos := Cfg(), Position(row, col, band);
      var t := col + row * nCols;
      ModeOfResidual(cfg, tables, s0, pos, t);
      mappedResidual := DecodeWithBandAccumulator(t, band, s0, s0.sigmas[band], GammaAt(cfg.gamma0, cfg.gamma, t));
      ghost var mid := State();
      RestoreBandAccumulator(mappedResidual, row, col, band, t, mid, s0.sigmas[band]);
      ResidualAssembled(cfg, tables, s0, pos, t, mappedResidual, mid, State());
    }

    /** What every sample of decode() needs: the counters, one accumulator per band and the matrix. */
    ghost predicate Ready(matrix: seq<int>)
      reads this`bitStream, this`currentByteIndex, this`readBits, this`prefixes, this`SigmaList, this`GammaList, this`RescalingList
    {
      Valid() && CountersReady() && |SigmaList| == nBands && |matrix| == ImageSize(Cfg())
    }

    /** Every sample of the image has its counter in the lists. */
    lemma CounterOfSample(row: nat, col: nat)
      requires CountersReady() && row < nRows && col < nCols
      ensures CounterAt(col + row * nCols)
    {
      MulMonotone(row + 1, nRows, nCols);
      DistributeOne(row, nCols);
      var t := col + row * nCols;
      assert t < nRows * nCols;
      assert GammaList[t] == GammaAt(gamma0, gamma, t);
    }

    /** One sample of decode(): decodeTargetMappedResidual, then MappedResidualsMatrix[row, col, band]. */
    method DecodeSample(row: nat, col: nat, band: nat, matrix: seq<int>, ghost trace: seq<Progress>, ghost visits: seq<Position>,
                        ghost rest: seq<Position>) returns (stored: seq<int>)
      requires Ready(matrix) && Traces(Cfg(), tables, trace, visits)
      requires At(trace, visits, [Position(row, col, band)] + rest, Progress(State(), matrix))
      modifies this`currentByteIndex, this`readBits, this`Sigma, this`Gamma, this`SigmaList, this`prefixes
      ensures Ready(stored) && At(trace, visits, rest, Progress(State(), stored))
    {
      var pos := Position(row, col, band);
      TraceStep(Cfg(), tables, trace, visits, Progress(State(), matrix), pos, rest);
      CounterOfSample(row, col);
      var mappedResidual := DecodeTargetMappedResidual(row, col, band);
      FlatIndexInRange(Cfg(), pos);
      stored := matrix[FlatIndex(Cfg(), pos) := mappedResidual];
    }

    /** The innermost loop of decode() in bsq and bil order: columns nCols-1 down to 0. */
    method DecodeColumnsDown(row: nat, band: nat, matrix0: seq<int>, ghost trace: seq<Progress>, ghost visits: seq<Position>,
                             ghost later: seq<Position>) returns (matrix: seq<int>)
      requires Ready(matrix0) && Traces(Cfg(), tables, trace, visits) && row < nRows && band < nBands
      requires At(trace, visits, ColumnsDown(Cfg(), row, band, nCols) + later, Progress(State(), matrix0))
      modifies this`currentByteIndex, this`readBits, this`Sigma, this`Gamma, this`SigmaList, this`prefixes
      ensures Ready(matrix) && At(trace, visits, later, Progress(State(), matrix))
    {
      matrix := matrix0;
      var c: nat := nCols;
      while c > 0
        invariant c <= nCols && Ready(matrix)
        invariant At(trace, visits, ColumnsDown(Cfg(), row, band, c) + later, Progress(State(), matrix))
      {
        Regroup([Position(row, c - 1, band)], ColumnsDown(Cfg(), row, band, c - 1), later);
        matrix := DecodeSample(row, c - 1, band, matrix, trace, visits, ColumnsDown(Cfg(), row, band, c - 1) + later);
        c := c - 1;
      }
      assert ColumnsDown(Cfg(), row, band, 0) + later == later;
    }

    /** The row loop of decode() in bsq order: rows nRows-1 down to 0 of one band. */
    method DecodeBsqRows(band: nat, matrix0: seq<int>, ghost trace: seq<Progress>, ghost visits: seq<Position>,
                         ghost later: seq<Position>) returns (matrix: seq<int>)
      requires Ready(matrix0) && Traces(Cfg(), tables, trace, visits) && band < nBands
      requires At(trace, visits, BsqRows(Cfg(), band, nRows) + later, Progress(State(), matrix0))
      modifies this`currentByteIndex, this`readBits, this`Sigma, this`Gamma, this`SigmaList, this`prefixes
      ensures Ready(matrix) && At(trace, visits, later, Progress(State(), matrix))
    {
      matrix := matrix0;
      var r: nat := nRows;
      while r > 0
        invariant r <= nRows && Ready(matrix)
        invariant At(trace, visits, BsqRows(Cfg(), band, r) + later, Progress(State(), matrix))
      {
        Regroup(ColumnsDown(Cfg(), r - 1, band, nCols), BsqRows(Cfg(), band, r - 1), later);
        matrix := DecodeColumnsDown(r - 1, band, matrix, trace, visits, BsqRows(Cfg(), band, r - 1) + later);
        r := r - 1;
      }
      assert BsqRows(Cfg(), band, 0) + later == later;
    }

    /** decode() in band-sequential order: bands, then rows, then columns, each descending. */
    method DecodeBsq(matrix0: seq<int>, ghost trace: seq<Progress>, ghost visits: seq<Position>) returns (matrix: seq<int>)
      requires Ready(matrix0) && Traces(Cfg(), tables, trace, visits)
      requires At(trace, visits, BsqBands(Cfg(), nBands), Progress(State(), matrix0))
      modifies this`currentByteIndex, this`readBits, this`Sigma, this`Gamma, this`SigmaList, this`prefixes
      ensures Ready(matrix) && At(trace, visits, [], Progress(State(), matrix))
    {
      matrix := matrix0;
      var b: nat := nBands;
      while b > 0
        invariant b <= nBands && Ready(matrix)
        invariant At(trace, visits, BsqBands(Cfg(), b), Progress(State(), matrix))
      {
        matrix := DecodeBsqRows(b - 1, matrix, trace, visits, BsqBands(Cfg(), b - 1));
        b := b - 1;
      }
    }

    /** The band loop of decode() in bil order: bands nBands-1 down to 0 of one row. */
    method DecodeBilBands(row: nat, matrix0: seq<int>, ghost trace: seq<Progress>, ghost visits: seq<Position>,
                          ghost later: seq<Position>) returns (matrix: seq<int>)
      requires Ready(matrix0) && Traces(Cfg(), tables, trace, visits) && row < nRows
      requires At(trace, visits, BilBands(Cfg(), row, nBands) + later, Progress(State(), matrix0))
      modifies this`currentByteIndex, this`readBits, this`Sigma, this`Gamma, this`SigmaList, this`prefixes
      ensures Ready(matrix) && At(trace, visits, later, Progress(State(), matrix))
    {
      matrix := matrix0;
      var b: nat := nBands;
      while b > 0
        invariant b <= nBands && Ready(matrix)
        invariant At(trace, visits, BilBands(Cfg(), row, b) + later, Progress(State(), matrix))
      {
        Regroup(ColumnsDown(Cfg(), row, b - 1, nCols), BilBands(Cfg(), row, b - 1), later);
        matrix := DecodeColumnsDown(row, b - 1, matrix, trace, visits, BilBands(Cfg(), row, b - 1) + later);
        b := b - 1;
      }
      assert BilBands(Cfg(), row, 0) + later == later;
    }

    /** decode() in band-interleaved-by-line order: rows, then bands, then columns, each descending. */
    method DecodeBil(matrix0: seq<int>, ghost trace: seq<Progress>, ghost visits: seq<Position>) returns (matrix: seq<int>)
      requires Ready(matrix0) && Traces(Cfg(), tables, trace, visits)
      requires At(trace, visits, BilRows(Cfg(), nRows), Progress(State(), matrix0))
      modifies this`currentByteIndex, this`readBits, this`Sigma, this`Gamma, this`SigmaList, this`prefixes
      ensures Ready(matrix) && At(trace, visits, [], Progress(State(), matrix))
    {
      matrix := matrix0;
      var r: nat := nRows;
      while r > 0
        invariant r <= nRows && Ready(matrix)
        invariant At(trace, visits, BilRows(Cfg(), r), Progress(State(), matrix))
      {
        matrix := DecodeBilBands(r - 1, matrix, trace, visits, BilRows(Cfg(), r - 1));
        r := r - 1;
      }
    }

    /** The innermost loop of decode() in bip order: bands nBands-1 down to 0 of one pixel. */
    method DecodeBandsDown(row: nat, col: nat, matrix0: seq<int>, ghost trace: seq<Progress>, ghost visits: seq<Position>,
                           ghost later: seq<Position>) returns (matrix: seq<int>)
      requires Ready(matrix0) && Traces(Cfg(), tables, trace, visits) && row < nRows && col < nCols
      requires At(trace, visits, BandsDown(Cfg(), row, col, nBands) + later, Progress(State(), matrix0))
      modifies this`currentByteIndex, this`readBits, this`Sigma, this`Gamma, this`SigmaList, this`prefixes
      ensures Ready(matrix) && At(trace, visits, later, Progress(State(), matrix))
    {
      matrix := matrix0;
      var b: nat := nBands;
      while b > 0
        invariant b <= nBands && Ready(matrix)
        invariant At(trace, visits, BandsDown(Cfg(), row, col, b) + later, Progress(State(), matrix))
      {
        Regroup([Position(row, col, b - 1)], BandsDown(Cfg(), row, col, b - 1), later);
        matrix := DecodeSample(row, col, b - 1, matrix, trace, visits, BandsDown(Cfg(), row, col, b - 1) + later);
        b := b - 1;
      }
      assert BandsDown(Cfg(), row, col, 0) + later == later;
    }

    /** The column loop of decode() in bip order: columns nCols-1 down to 0 of one row. */
    method DecodeBipColumns(row: nat, matrix0: seq<int>, ghost trace: seq<Progress>, ghost visits: seq<Position>,
                            ghost later: seq<Position>) returns (matrix: seq<int>)
      requires Ready(matrix0) && Traces(Cfg(), tables, trace, visits) && row < nRows
      requires At(trace, visits, BipColumns(Cfg(), row, nCols) + later, Progress(State(), matrix0))
      modifies this`currentByteIndex, this`readBits, this`Sigma, this`Gamma, this`SigmaList, this`prefixes
      ensures Ready(matrix) && At(trace, visits, later, Progress(State(), matrix))
    {
      matrix := matrix0;
      var c: nat := nCols;
      while c > 0
        invariant c <= nCols && Ready(matrix)
        invariant At(trace, visits, BipColumns(Cfg(), row, c) + later, Progress(State(), matrix))
      {
        Regroup(BandsDown(Cfg(), row, c - 1, nBands), BipColumns(Cfg(), row, c - 1), later);
        matrix := DecodeBandsDown(row, c - 1, matrix, trace, visits, BipColumns(Cfg(), row, c - 1) + later);
        c := c - 1;
      }
      assert BipColumns(Cfg(), row, 0) + later == later;
    }

    /** decode() in band-interleaved-by-pixel order: rows, then columns, then bands, each descending. */
    method DecodeBip(matrix0: seq<int>, ghost trace: seq<Progress>, ghost visits: seq<Position>) returns (matrix: seq<int>)
      requires Ready(matrix0) && Traces(Cfg(), tables, trace, visits)
      requires At(trace, visits, BipRows(Cfg(), nRows), Progress(State(), matrix0))
      modifies this`currentByteIndex, this`readBits, this`Sigma, this`Gamma, this`SigmaList, this`prefixes
      ensures Ready(matrix) && At(trace, visits, [], Progress(State(), matrix))
    {
      matrix := matrix0;
      var r: nat := nRows;
      while r > 0
        invariant r <= nRows && Ready(matrix)
        invariant At(trace, visits, BipRows(Cfg(), r), Progress(State(), matrix))
      {
        matrix := DecodeBipColumns(r - 1, matrix, trace, visits, BipRows(Cfg(), r - 1));
        r := r - 1;
      }
    }

    /**
     * decode(): take the stream, initialise the counters, decode the tail, then every
     * sample in the chosen order into a zero matrix; an unknown order leaves it zero.
     */
    method Decode(stream: seq<Byte>, decodingOrder: string) returns (MappedResidualsMatrix: seq<int>)
      requires Valid() && DecodeSpec(Cfg(), tables, stream, decodingOrder).Success?
      modifies this`bitStream, this`GammaList, this`RescalingList
      modifies this`currentByteIndex, this`readBits, this`Sigma, this`Gamma, this`SigmaList, this`prefixes
      ensures MappedResidualsMatrix == DecodeSpec(Cfg(), tables, stream, decodingOrder).value
    {
      bitStream := stream;
      InitializeDecodingVariables();
      DecodeImageTail();
      var matrix := ZeroMatrix(ImageSize(Cfg()));
      ghost var visits := Visits(Cfg(), decodingOrder);
      ghost var p0 := Progress(State(), matrix);
      TraceOfWalk(Cfg(), tables, p0, visits);
      ghost var trace := Trace(Cfg(), tables, p0, visits);
      if decodingOrder == "bsq" {
        matrix := DecodeBsq(matrix, trace, visits);
      } else if decodingOrder == "bil" {
        matrix := DecodeBil(matrix, trace, visits);
      } else if decodingOrder == "bip" {
        matrix := DecodeBip(matrix, trace, visits);
      }
      MappedResidualsMatrix := matrix;
    }
  }
}
