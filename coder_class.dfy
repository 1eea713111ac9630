/**
 * The hybrid coder as the object it is: the configuration, the statistics Sigma and
 * Gamma, the 16 active prefixes, and the output being built, as the completed bytes
 * bitStream plus the writtenBits bits still pending in currentByte.  Every method is
 * proved against the functions of HybridEncodeSpec: a method appends to Written()
 * exactly the bits the matching function names and leaves the statistics in the
 * state it names.
 */
module HybridCoderClass {
  import opened Bits
  import opened ReverseReads
  import opened CodingTables
  import opened Accumulator
  import opened Gpo2
  import opened HybridEncodeSpec

  /**
   * One bit shifted into a partial byte c of w bits: the bits written grow by that
   * bit, and once the byte holds eight it moves to the buffer whole.
   */
  lemma PushBit(bs: seq<Byte>, c: nat, w: nat, ch: BitChar)
    requires w < 8 && c < Pow2(w)
    ensures var c' := 2 * c + BitValue(ch);
      && (w + 1 < 8 ==> c' < Pow2(w + 1) && BytesBits(bs) + Binary(c', w + 1) == BytesBits(bs) + Binary(c, w) + [ch])
      && (w + 1 == 8 ==> c' < 256 && BytesBits(bs + [c']) + Binary(0, 0) == BytesBits(bs) + Binary(c, w) + [ch])
  {
    var b := BitValue(ch);
    DivModUnique(2 * c + b, 2, c, b);
    assert Binary(2 * c + b, w + 1) == Binary(c, w) + [ch];
    Pow2Eight();
    if w + 1 == 8 {
      BytesBitsAppend(bs, 2 * c + b);
    }
  }

  lemma SnocPrefix(W: BitString, s: BitString, n: nat)
    requires n < |s|
    ensures W + s[..n] + [s[n]] == W + s[..n + 1]
  {
    assert s[..n + 1] == s[..n] + [s[n]];
  }

  /** A zero byte appended to the buffer adds eight zero bits. */
  lemma ZeroByte(bs: seq<Byte>)
    ensures BytesBits(bs + [0]) == BytesBits(bs) + Zeros(8)
  {
    BytesBitsAppend(bs, 0);
    Pow2Eight();
    BinaryZero(8);
  }

  lemma ZerosAppend(a: nat, b: nat)
    ensures Zeros(a) + Zeros(b) == Zeros(a + b)
  {
  }

  /** Padding to a byte boundary depends only on the bits pending in the last byte. */
  lemma PadLengthOfPending(nBytes: nat, w: nat)
    requires w < 8
    ensures PadLength(8 * nBytes + w) == if w == 0 then 0 else 8 - w
  {
    DivModUnique(8 * nBytes + w, 8, nBytes, w);
  }

  lemma NextPending(w: nat)
    requires w < 8
    ensures (w + 1) % 8 == if w == 7 then 0 else w + 1
  {
  }

  lemma RepeatSnoc(W: BitString, c: BitChar, n: nat)
    ensures W + Repeat(c, n) + [c] == W + Repeat(c, n + 1)
  {
    assert Repeat(c, n) + [c] == Repeat(c, n + 1);
  }

  /** Appended zero bytes stop at the first word boundary, which WordFill names. */
  lemma WordFillReached(nBytes: nat, wordSize: nat, extra: nat)
    requires wordSize >= 1 && extra <= WordFill(nBytes, wordSize) && (nBytes + extra) % wordSize == 0
    ensures extra == WordFill(nBytes, wordSize)
  {
    var e := WordFill(nBytes, wordSize);
    var q1 := (nBytes + extra) / wordSize;
    var q2 := (nBytes + e) / wordSize;
    assert e - extra == (q2 - q1) * wordSize;
    if q2 > q1 {
      MulAtLeast(q2 - q1, wordSize);
    }
  }

  lemma AppendAssoc(a: BitString, b: BitString, c: BitString)
    ensures a + b + c == a + (b + c)
  {
  }

  /** The low-entropy output: the escape value, then the codeword the extended prefix completes, if any. */
  lemma LowEntropyBitsCases(cfg: CoderConfig, tables: CoderTables, st: CoderState, r: nat)
    requires ValidCoderTables(tables) && |st.prefixes| == 16
    ensures var i := SelectIndex(st.Sigma, st.Gamma, tables.limits);
      var escape := EscapeBits(cfg, r, tables.limits[i].limit);
      var p := Extended(tables, st, r);
      LowEntropyBits(cfg, tables, st, r) == if p in tables.codes[i] then escape + tables.codes[i][p] else escape
  {
  }

  /** The low-entropy state: prefix i extended, or emptied when the extension completes a codeword. */
  lemma LowEntropyStateCases(tables: CoderTables, st: CoderState, r: nat)
    requires ValidCoderTables(tables) && |st.prefixes| == 16
    ensures var i := SelectIndex(st.Sigma, st.Gamma, tables.limits);
      var p := Extended(tables, st, r);
      LowEntropyState(tables, st, r) == st.(prefixes := st.prefixes[i := if p in tables.codes[i] then "" else p])
  {
  }

  lemma TailShape(W: BitString, flush: BitString, sigma: BitString)
    ensures W + flush + sigma + ['1'] == W + (flush + sigma + ['1'])
  {
  }

  /** After padding, the buffer holds the body and the padding zeros, and nothing is pending. */
  lemma FramedBytes(bs: seq<Byte>, c: nat, body: BitString)
    requires c < Pow2(0) && BytesBits(bs) + Binary(c, 0) == body + Repeat('0', PadLength(|body|))
    ensures c == 0 && BytesBits(bs) == body + Zeros(PadLength(|body|)) + Zeros(8 * 0)
    ensures |bs| == (|body| + PadLength(|body|)) / 8
  {
    RepeatZeros(PadLength(|body|));
    DivModUnique(8 * |bs|, 8, |bs|, 0);
  }

  lemma FramedByWordFill(body: BitString, wordSize: nat)
    requires wordSize >= 1
    ensures var nBytes := (|body| + PadLength(|body|)) / 8;
      Framed(body, wordSize) == body + Zeros(PadLength(|body|)) + Zeros(8 * WordFill(nBytes, wordSize))
  {
  }

  lemma WordFillStep(nBytes: nat, wordSize: nat, n: nat)
    requires wordSize >= 1 && nBytes <= n <= nBytes + WordFill(nBytes, wordSize) && n % wordSize != 0
    ensures n < nBytes + WordFill(nBytes, wordSize)
  {
  }

  /** n copies of the byte b. */
  function ByteRun(b: Byte, n: nat): (s: seq<Byte>)
    ensures |s| == n && forall i :: 0 <= i < n ==> s[i] == b
  {
    if n == 0 then [] else ByteRun(b, n - 1) + [b]
  }

  /**
   * The closing loop of codeImageTail: the byte `fill` is appended until the byte
   * count is a multiple of the word size, so nothing is added when it already is.
   */
  method FillToWord(stream: seq<Byte>, fill: Byte, wordSize: nat) returns (filled: seq<Byte>)
    requires wordSize >= 1
    ensures filled == stream + ByteRun(fill, WordFill(|stream|, wordSize))
    ensures |filled| % wordSize == 0
  {
    filled := stream;
    while |filled| % wordSize != 0
      invariant |stream| <= |filled| <= |stream| + WordFill(|stream|, wordSize)
      invariant filled == stream + ByteRun(fill, |filled| - |stream|)
      decreases |stream| + WordFill(|stream|, wordSize) - |filled|
    {
      WordFillStep(|stream|, wordSize, |filled|);
      filled := filled + [fill];
    }
    WordFillReached(|stream|, wordSize, |filled| - |stream|);
  }

  /** Appended zero bytes read as eight zero bits each. */
  lemma {:induction false} ZeroBytes(bs: seq<Byte>, n: nat)
    ensures BytesBits(bs + ByteRun(0, n)) == BytesBits(bs) + Zeros(8 * n)
  {
    if n == 0 {
      assert bs + ByteRun(0, n) == bs;
    } else {
      var init := bs + ByteRun(0, n - 1);
      ZeroBytes(bs, n - 1);
      assert bs + ByteRun(0, n) == init + [0];
      ZeroByte(init);
      ZerosAppend(8 * (n - 1), 8);
      AppendAssoc(BytesBits(bs), Zeros(8 * (n - 1)), Zeros(8));
    }
  }

  /** Zero bytes appended up to the word boundary complete the frame of the padded body. */
  lemma TailFramed(body: BitString, padded: seq<Byte>, wordSize: nat)
    requires wordSize >= 1 && BytesBits(padded) == body + Zeros(PadLength(|body|)) + Zeros(8 * 0)
    requires |padded| == (|body| + PadLength(|body|)) / 8
    ensures BytesBits(padded + ByteRun(0, WordFill(|padded|, wordSize))) == Framed(body, wordSize)
  {
    ZeroBytes(padded, WordFill(|padded|, wordSize));
    FramedByWordFill(body, wordSize);
  }

  lemma RepeatZeros(n: nat)
    ensures Repeat('0', n) == Zeros(n)
  {
  }

  /** The bits of codeTargetMappedResidual after the first sample: the rescaling bit, then the mode's code. */
  lemma ResidualBitsAfterFirst(cfg: CoderConfig, tables: CoderTables, st: CoderState, t: nat, r: nat)
    requires ValidCoderTables(tables) && |st.prefixes| == 16 && t > 0
    ensures ResidualBits(cfg, tables, st, t, r)
      == RescaleBits(st.Sigma, st.Gamma, cfg.gamma) + ModeBits(cfg, tables, Updated(cfg, st, r), r)
  {
  }

  class HybridCoder {
    /** The three coding tables, loaded once; T0 is the threshold of code index 0. */
    const tables: CoderTables
    const T0: int

    /** Dynamic range D, unary length limit, gamma_0, gamma and the initial Sigma. */
    var D: nat
    var Umax: nat
    var gamma0: nat
    var gamma: nat
    var Sigma0: int

    var Sigma: nat
    var Gamma: int
    var prefixes: seq<string>

    var bitStream: seq<Byte>
    var currentByte: nat
    var writtenBits: nat
    var outputWordSize: nat

    ghost predicate Valid()
      reads this
    {
      && ValidCoderTables(tables) && T0 == tables.limits[0].threshold
      && WriterValid() && |prefixes| == 16
    }

    /** The pending bits of currentByte number at most seven. */
    ghost predicate WriterValid()
      reads this
    {
      writtenBits < 8 && currentByte < Pow2(writtenBits)
    }

    /** Every bit written so far: the completed bytes, then the pending bits of currentByte. */
    ghost function Written(): BitString
      reads this
      requires WriterValid()
    {
      BytesBits(bitStream) + Binary(currentByte, writtenBits)
    }

    function Config(): CoderConfig
      reads this
    {
      CoderConfig(D, Umax, gamma0, gamma, Sigma0)
    }

    function State(): CoderState
      reads this
    {
      CoderState(Sigma, Gamma, prefixes)
    }

    /** __init__: the tables are loaded and the default parameters set. */
    constructor(tables: CoderTables)
      requires ValidCoderTables(tables)
      ensures Valid() && this.tables == tables
      ensures Config() == CoderConfig(0, 32, 1, 4, 32768)
      ensures bitStream == [] && writtenBits == 0
    {
      this.tables := tables;
      T0 := tables.limits[0].threshold;
      D, Umax, gamma0, gamma, Sigma0 := 0, 0, 0, 0, 0;
      Sigma, Gamma, prefixes := 0, 0, EmptyPrefixes();
      bitStream, currentByte, writtenBits, outputWordSize := [], 0, 0, 1;
      new;
      SetConfigurationParameters(32, 4, 1, 32768);
    }

    /**
     * setConfigurationParameters: Umax clipped to [8, 32], gamma_0 to [1, 8], gamma to
     * [max(4, gamma_0 + 1), 11] with the gamma_0 given, Sigma_0 as given.
     */
    method SetConfigurationParameters(Umax: int, gamma: int, gamma0: int, Sigma0: int)
      requires Valid()
      modifies this
      ensures Valid()
      ensures var p := Configure(Umax, gamma, gamma0, Sigma0);
        this.Umax == p.Umax && this.gamma == p.gamma && this.gamma0 == p.gamma0 && this.Sigma0 == p.Sigma0
      ensures D == old(D) && State() == old(State()) && outputWordSize == old(outputWordSize)
      ensures bitStream == old(bitStream) && currentByte == old(currentByte) && writtenBits == old(writtenBits)
    {
      var p := Configure(Umax, gamma, gamma0, Sigma0);
      this.Umax := p.Umax;
      this.gamma0 := p.gamma0;
      this.gamma := p.gamma;
      this.Sigma0 := p.Sigma0;
    }

    /**
     * The loop of writeBits on local copies: shifts each bit of s into the partial byte
     * and appends the byte once it holds 8 bits.
     */
    static method PackBits(stream0: seq<Byte>, byte0: nat, bits0: nat, s: BitString)
      returns (stream: seq<Byte>, byte: nat, bits: nat)
      requires bits0 < 8 && byte0 < Pow2(bits0)
      ensures bits < 8 && byte < Pow2(bits)
      ensures BytesBits(stream) + Binary(byte, bits) == BytesBits(stream0) + Binary(byte0, bits0) + s
      ensures 8 * |stream| + bits == 8 * |stream0| + bits0 + |s|
    {
      ghost var W0 := BytesBits(stream0) + Binary(byte0, bits0);
      stream, byte, bits := stream0, byte0, bits0;
      var n := 0;
      while n < |s|
        invariant 0 <= n <= |s| && bits < 8 && byte < Pow2(bits)
        invariant BytesBits(stream) + Binary(byte, bits) == W0 + s[..n]
        invariant 8 * |stream| + bits == 8 * |stream0| + bits0 + n
      {
        var bit := BitValue(s[n]);
        PushBit(stream, byte, bits, s[n]);
        SnocPrefix(W0, s, n);
        // (currentByte << 1) | bit, with currentByte below 2^writtenBits
        byte := byte * 2 + bit;
        bits := bits + 1;
        if bits == 8 {
          stream := stream + [byte];
          byte := 0;
          bits := 0;
        }
        n := n + 1;
      }
      assert s[..n] == s;
    }

    /**
     * writeBinaryStringToBitStream: each bit is shifted into currentByte, which joins
     * the buffer once it holds eight.  A byte is completed exactly when eight bits are
     * pending, so writtenBits stays in 0..7.
     */
    method WriteBits(s: BitString)
      requires WriterValid()
      modifies this
      ensures WriterValid() && Written() == old(Written()) + s
      ensures writtenBits == (old(writtenBits) + |s|) % 8
      ensures |bitStream| == |old(bitStream)| + (old(writtenBits) + |s|) / 8
      ensures Config() == old(Config()) && State() == old(State()) && outputWordSize == old(outputWordSize)
    {
      var stream, byte, bits := PackBits(bitStream, currentByte, writtenBits, s);
      bitStream, currentByte, writtenBits := stream, byte, bits;
      DivModUnique(old(writtenBits) + |s|, 8, |bitStream| - |old(bitStream)|, writtenBits);
    }

    /** padding(c): c is written until the last byte is complete. */
    method Padding(c: BitChar)
      requires Valid()
      modifies this
      ensures Valid() && writtenBits == 0
      ensures Written() == old(Written()) + Repeat(c, PadLength(|old(Written())|))
      ensures Config() == old(Config()) && State() == old(State()) && outputWordSize == old(outputWordSize)
    {
      ghost var w0 := writtenBits;
      ghost var pad := if w0 == 0 then 0 else 8 - w0;
      PadLengthOfPending(|bitStream|, w0);
      ghost var n := 0;
      while writtenBits != 0
        invariant Valid() && 0 <= n <= pad
        invariant writtenBits == 0 ==> n == pad
        invariant writtenBits != 0 ==> writtenBits == w0 + n
        invariant Written() == old(Written()) + Repeat(c, n)
        invariant Config() == old(Config()) && State() == old(State()) && outputWordSize == old(outputWordSize)
        decreases pad - n
      {
        NextPending(writtenBits);
        RepeatSnoc(old(Written()), c, n);
        WriteBits([c]);
        n := n + 1;
      }
    }

    /** writeIntegerValueToBitstream: bin(v)[2:].zfill(n), which is longer than n when v needs more bits. */
    method WriteIntegerValue(v: nat, n: nat)
      requires Valid()
      modifies this
      ensures Valid() && Written() == old(Written()) + ZFill(Bin(v), n)
      ensures Config() == old(Config()) && State() == old(State()) && outputWordSize == old(outputWordSize)
    {
      WriteBits(ZFill(Bin(v), n));
    }

    /**
     * initializeCodingVariables: Gamma = 2^gamma_0, Sigma = Sigma_0 clipped to
     * [0, 2^(D + gamma_0) - 1], 16 empty prefixes and an empty output.
     */
    method InitializeCodingVariables()
      requires Valid()
      modifies this
      ensures Valid() && State() == InitialState(Config())
      ensures bitStream == [] && currentByte == 0 && writtenBits == 0 && Written() == []
      ensures Config() == old(Config()) && outputWordSize == old(outputWordSize)
    {
      Gamma := Pow2(gamma0);
      Sigma := Clip(Sigma0, 0, Pow2(D + gamma0) - 1);
      var active: seq<string> := [];
      for index := 0 to 16
        invariant active == seq(index, _ => "")
      {
        active := active + [""];
      }
      prefixes := active;
      bitStream := [];
      currentByte := 0;
      writtenBits := 0;
    }

    /** generateHeader: the header bits open the output. */
    method GenerateHeader(header: BitString)
      requires Valid()
      modifies this
      ensures Valid() && Written() == old(Written()) + header
      ensures Config() == old(Config()) && State() == old(State()) && outputWordSize == old(outputWordSize)
    {
      WriteBits(header);
    }

    /**
     * GPO2_coding(j, k): while floor(j / 2^k) < Umax, the k low bits of j, a one and
     * floor(j / 2^k) zeros; otherwise bin(j) zero-filled to D bits and Umax zeros.
     */
    method Gpo2Coding(j: nat, k: nat)
      requires Valid()
      modifies this
      ensures Valid() && Written() == old(Written()) + Gpo2Code(j, k, Umax, D)
      ensures Config() == old(Config()) && State() == old(State()) && outputWordSize == old(outputWordSize)
    {
      var binaryString: BitString;
      // int(j / 2**k): floor division by 2^k
      var q := Quotient(j, k);
      if q < Umax {
        binaryString := LowBits(j, k) + ['1'] + Zeros(q);
      } else {
        binaryString := ZFill(Bin(j), D) + Zeros(Umax);
      }
      WriteBits(binaryString);
    }

    /**
     * UpdateHighResolutionAccumulatorAndCounter(r): below 2^gamma - 1 the counter
     * counts and Sigma grows by 4r; at it, the last bit of Sigma is written and both
     * are halved.
     */
    method UpdateAccumulator(r: nat)
      requires Valid()
      modifies this
      ensures Valid() && Written() == old(Written()) + RescaleBits(old(Sigma), old(Gamma), gamma)
      ensures State() == Updated(Config(), old(State()), r)
      ensures Config() == old(Config()) && outputWordSize == old(outputWordSize)
    {
      if Gamma < Pow2(gamma) - 1 {
        Sigma := Sigma + 4 * r;
        Gamma := Gamma + 1;
      } else {
        var b := Bin(Sigma);
        WriteBits(b[|b| - 1..]);
        Sigma := (Sigma + 4 * r + 1) / 2;
        Gamma := (Gamma + 1) / 2;
      }
    }

    /** EvaluateHighEntropyCondition: Sigma * 2^14 >= T0 * Gamma. */
    method EvaluateHighEntropyCondition() returns (high: bool)
      requires Valid()
      ensures high == HighEntropy(Sigma, Gamma, tables.limits[0].threshold)
    {
      high := Sigma * Pow2(14) >= T0 * Gamma;
    }

    /** HighEntropyProcess(r): the GPO2 code of r with the largest k the accumulator allows. */
    method HighEntropyProcess(r: nat)
      requires Valid()
      modifies this
      ensures Valid() && Written() == old(Written()) + HighEntropyBits(Config(), State(), r)
      ensures Config() == old(Config()) && State() == old(State()) && outputWordSize == old(outputWordSize)
    {
      var k := SearchK(Sigma, Gamma, D);
      Gpo2Coding(r, k);
    }

    /**
     * LowEntropyProcess(r): with i the largest code index the accumulator allows, the
     * escape value is written when r > L(i), the input symbol extends prefix i, and a
     * prefix that completes a codeword of table i is written and emptied.
     */
    method LowEntropyProcess(r: nat)
      requires Valid()
      modifies this
      ensures Valid() && Written() == old(Written()) + LowEntropyBits(Config(), tables, old(State()), r)
      ensures State() == LowEntropyState(tables, old(State()), r)
      ensures Config() == old(Config()) && outputWordSize == old(outputWordSize)
    {
      ghost var W, st := Written(), State();
      var i := SearchCodeIndex(Sigma, Gamma, tables.limits);
      var L := tables.limits[i].limit;
      ghost var escape := EscapeBits(Config(), r, L);
      var l: char;
      if r <= L {
        l := HexDigit(r);
        assert W + escape == W;
      } else {
        l := Escape;
        Gpo2Coding(r - L - 1, 0);
        assert escape == Gpo2Code(r - L - 1, 0, Umax, D);
      }
      assert Written() == W + escape;
      prefixes := prefixes[i := prefixes[i] + [l]];
      assert prefixes[i] == Extended(tables, st, r);
      if prefixes[i] in tables.codes[i] {
        var cw := tables.codes[i][prefixes[i]];
        WriteBits(cw);
        AppendAssoc(W, escape, cw);
        prefixes := prefixes[i := ""];
      }
      LowEntropyBitsCases(Config(), tables, st, r);
      LowEntropyStateCases(tables, st, r);
    }

    /**
     * codeImageTail: the flush codeword of every active prefix in index order, Sigma
     * in 2 + D + gamma bits, a one, zero padding to the byte boundary, and zero bytes
     * until the byte count is a multiple of the output word size.
     */
    method CodeImageTail()
      requires Valid() && PrefixesPending(tables, prefixes) && outputWordSize >= 1
      modifies this
      ensures Config() == old(Config()) && State() == old(State()) && outputWordSize == old(outputWordSize)
      ensures Valid() && writtenBits == 0 && |bitStream| % outputWordSize == 0
      ensures BytesBits(bitStream) == Framed(old(Written()) + TailBits(Config(), tables, State()), outputWordSize)
    {
      ghost var W := Written();
      for i := 0 to 16
        invariant Config() == old(Config()) && State() == old(State()) && outputWordSize == old(outputWordSize)
        invariant Valid() && PrefixesPending(tables, prefixes) && Written() == W + FlushBits(tables, prefixes, i)
      {
        var flushOutputCodeWord := tables.flush[i][prefixes[i]];
        WriteBits(flushOutputCodeWord);
        AppendAssoc(W, FlushBits(tables, prefixes, i), flushOutputCodeWord);
      }
      var nBits := 2 + D + gamma;
      WriteBits(ZFill(Bin(Sigma), nBits));
      WriteBits(['1']);
      ghost var body := Written();
      assert body == W + TailBits(Config(), tables, State()) by {
        TailShape(W, FlushBits(tables, prefixes, 16), ZFill(Bin(Sigma), nBits));
      }
      Padding('0');
      FramedBytes(bitStream, currentByte, body);
      ghost var padded := bitStream;
      bitStream := FillToWord(bitStream, currentByte, outputWordSize);
      TailFramed(body, padded, outputWordSize);
    }

    /**
     * codeTargetMappedResidual(t): the first sample in D plain bits with the statistics
     * untouched; every other one updates the statistics and is coded in the mode they select.
     */
    method CodeTargetMappedResidual(rs: seq<nat>, index: nat)
      requires Valid() && index < |rs|
      modifies this
      ensures Valid() && Written() == old(Written()) + ResidualBits(Config(), tables, old(State()), index, rs[index])
      ensures State() == NextState(Config(), tables, old(State()), index, rs[index])
      ensures Config() == old(Config()) && outputWordSize == old(outputWordSize)
    {
      var r := rs[index];
      if index == 0 {
        WriteIntegerValue(r, D);
      } else {
        ghost var W, st := Written(), State();
        UpdateAccumulator(r);
        ghost var W1 := Written();
        var high := EvaluateHighEntropyCondition();
        if high {
          HighEntropyProcess(r);
        } else {
          LowEntropyProcess(r);
        }
        AppendAssoc(W, RescaleBits(st.Sigma, st.Gamma, gamma), ModeBits(Config(), tables, Updated(Config(), st, r), r));
        ResidualBitsAfterFirst(Config(), tables, st, index, r);
      }
    }

    /**
     * code: the coding variables are initialised, the header written, every mapped
     * residual coded in order, and the image tail appended.  The bytes produced are
     * those EncodedBits names.
     */
    method Code(D: nat, header: BitString, rs: seq<nat>, outputWordSize: nat)
      requires Valid() && outputWordSize >= 1
      modifies this
      ensures Valid() && writtenBits == 0 && |bitStream| % outputWordSize == 0
      ensures BytesBits(bitStream) == EncodedBits(Config(), tables, header, rs, outputWordSize)
      ensures Config() == old(Config()).(D := D)
    {
      this.D := D;
      this.outputWordSize := outputWordSize;
      InitializeCodingVariables();
      GenerateHeader(header);
      for index := 0 to |rs|
        invariant Valid() && State() == RunState(Config(), tables, rs, index)
        invariant Written() == header + RunBits(Config(), tables, rs, index)
        invariant Config() == old(Config()).(D := D) && this.outputWordSize == outputWordSize
      {
        ghost var st := State();
        CodeTargetMappedResidual(rs, index);
        AppendAssoc(header, RunBits(Config(), tables, rs, index), ResidualBits(Config(), tables, st, index, rs[index]));
      }
      RunPrefixesPending(Config(), tables, rs, |rs|);
      CodeImageTail();
    }
  }
}
